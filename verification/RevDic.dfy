/** Turning a dictionary's body from one byte order to the other (Wnn/etc/revdic.c). */
module RevDic {
  import opened WString
  import opened ByteOrder
  import opened SdLayout
  import opened Jdata

  // ----- the fields of a tree -----

  /** The typed fields of one node. */
  ghost function NodeCells(t: Node): set<Cell>
    requires t.Node?
  {
    var f, n := t.form, |Chars(t.form)|;
    {Cell(t.at, 2)} +
    (if f.Other? then {} else {Cell(t.at + 2, 2)}) +
    (if f.Normal? || f.NoPter? then {Cell(t.at + 4, 4), Cell(t.at + 8, 4)} + (Row(t.at + 12, 2, n) + Row(SumSt(t.at, n), 2, n)) else {}) +
    (if f.NoEnt? then Row(t.at + 4, 2, n) + Row(PtrSt(t.at, f), 4, n) else {}) +
    (if f.Normal? then Row(PtrSt(t.at, f), 4, n) else {})
  }

  ghost function Cells(t: Node): set<Cell>
    decreases t, if t.Node? then |t.kids| + 1 else 0
  {
    if t.Absent? then {} else NodeCells(t) + CellsTo(t, |t.kids|)
  }

  /** The fields below the first n children. */
  ghost function CellsTo(t: Node, n: nat): set<Cell>
    requires t.Node? && n <= |t.kids|
    decreases t, n
  {
    if n == 0 then {} else CellsTo(t, n - 1) + Cells(t.kids[n - 1])
  }

  lemma NodeCellsOwn(t: Node, i: int)
    requires t.Node? && Covered(NodeCells(t), i)
    ensures Own(t, i)
  {
    hide Row;
    var f, n := t.form, |Chars(t.form)|;
    var c :| c in NodeCells(t) && c.p <= i < c.p + c.w;
    RowCovers(t.at + 12, 2, n, i);
    RowCovers(t.at + 4, 2, n, i);
    RowCovers(SumSt(t.at, n), 2, n, i);
    RowCovers(PtrSt(t.at, f), 4, n, i);
  }

  lemma {:induction false} CellsOccupy(t: Node, i: int)
    requires Covered(Cells(t), i)
    ensures Occupies(t, i)
    decreases t, if t.Node? then |t.kids| + 1 else 0
  {
    hide NodeCells;
    if t.Node? {
      UnionCovers(NodeCells(t), CellsTo(t, |t.kids|), i);
      if Covered(NodeCells(t), i) {
        NodeCellsOwn(t, i);
      } else {
        var k := CellsToOccupy(t, |t.kids|, i);
      }
    }
  }

  lemma {:induction false} CellsToOccupy(t: Node, n: nat, i: int) returns (k: nat)
    requires t.Node? && n <= |t.kids| && Covered(CellsTo(t, n), i)
    ensures k < n && Occupies(t.kids[k], i)
    decreases t, n
  {
    UnionCovers(CellsTo(t, n - 1), Cells(t.kids[n - 1]), i);
    if Covered(CellsTo(t, n - 1), i) {
      k := CellsToOccupy(t, n - 1, i);
    } else {
      CellsOccupy(t.kids[n - 1], i);
      k := n - 1;
    }
  }

  /** The bytes of a node's fields, offset by offset: not those that only fill a gap. */
  ghost predicate NodeField(t: Node, i: int)
    requires t.Node?
  {
    var j, n := i - t.at, |Chars(t.form)|;
    match t.form
    case Other(_) => 0 <= j < 2
    case Small(_) => 0 <= j < 4
    case NoEnt(_) => 0 <= j < 4 + 2 * n || Align4(t.at + 4 + 2 * n) <= i < Align4(t.at + 4 + 2 * n) + 4 * n
    case NoPter(_, _, _, _) => 0 <= j < 12 + 2 * n || 16 + 2 * n <= j < 16 + 4 * n
    case Normal(_, _, _, _) => 0 <= j < 12 + 2 * n || 16 + 2 * n <= j < 16 + 8 * n
  }

  ghost predicate FieldByte(t: Node, i: int) {
    t.Node? && (NodeField(t, i) || exists k :: 0 <= k < |t.kids| && FieldByte(t.kids[k], i))
  }

  lemma NodeCellsAreFields(t: Node, i: int)
    requires t.Node? && Covered(NodeCells(t), i)
    ensures NodeField(t, i)
  {
    hide Row;
    var f, n := t.form, |Chars(t.form)|;
    var c :| c in NodeCells(t) && c.p <= i < c.p + c.w;
    RowCovers(t.at + 12, 2, n, i);
    RowCovers(t.at + 4, 2, n, i);
    RowCovers(SumSt(t.at, n), 2, n, i);
    RowCovers(PtrSt(t.at, f), 4, n, i);
  }

  lemma {:induction false} CellsAreFields(t: Node, i: int)
    requires Covered(Cells(t), i)
    ensures FieldByte(t, i)
    decreases t, if t.Node? then |t.kids| + 1 else 0
  {
    hide NodeCells, NodeField;
    if t.Node? {
      UnionCovers(NodeCells(t), CellsTo(t, |t.kids|), i);
      if Covered(NodeCells(t), i) {
        NodeCellsAreFields(t, i);
      } else {
        var k := CellsToAreFields(t, |t.kids|, i);
      }
    }
  }

  lemma {:induction false} CellsToAreFields(t: Node, n: nat, i: int) returns (k: nat)
    requires t.Node? && n <= |t.kids| && Covered(CellsTo(t, n), i)
    ensures k < n && FieldByte(t.kids[k], i)
    decreases t, n
  {
    UnionCovers(CellsTo(t, n - 1), Cells(t.kids[n - 1]), i);
    if Covered(CellsTo(t, n - 1), i) {
      k := CellsToAreFields(t, n - 1, i);
    } else {
      CellsAreFields(t.kids[n - 1], i);
      k := n - 1;
    }
  }

  lemma GapsKept(a: seq<Byte>, b: seq<Byte>, t: Node)
    requires Turned(a, b, Cells(t))
    ensures |b| == |a| && forall i :: 0 <= i < |a| && !FieldByte(t, i) ==> b[i] == a[i]
  {
    hide Cells, FieldByte, Mirrored;
    forall i | 0 <= i < |a| && !FieldByte(t, i) ensures b[i] == a[i] {
      if Covered(Cells(t), i) { CellsAreFields(t, i); }
    }
  }

  /** What a node says stands at these offsets. */
  lemma NodeOffsets(b: seq<Byte>, t: Node, native: bool)
    requires t.Node? && Shape(t) && End(t.at, t.form) <= |b| && NodeReads(b, t, native)
    ensures t.form.Normal? || t.form.NoPter? ==>
              var p, n := t.at, |t.form.chars|;
              && p + 16 + 4 * n <= |b|
              && Short(b, p + 2, native) == n && Long(b, p + 4, native) == t.form.serial && Long(b, p + 8, native) == t.form.kanji
              && forall k :: 0 <= k < n ==>
                   Short(b, p + 12 + 2 * k, native) == t.form.chars[k] && Short(b, p + 16 + 2 * n + 2 * k, native) == t.form.sums[k]
    ensures t.form.Normal? ==>
              var p, n := t.at, |t.form.chars|;
              && p + 16 + 8 * n <= |b|
              && forall k :: 0 <= k < n && t.kids[k].Node? ==> Long(b, p + 16 + 4 * n + 4 * k, native) == t.kids[k].at
    ensures t.form.NoEnt? ==>
              var p, n := t.at, |t.form.chars|;
              && Align4(p + 4 + 2 * n) + 4 * n <= |b|
              && forall k :: 0 <= k < n ==>
                   && Short(b, p + 4 + 2 * k, native) == t.form.chars[k]
                   && (t.kids[k].Node? ==> Long(b, Align4(p + 4 + 2 * n) + 4 * k, native) == t.kids[k].at)
    ensures t.form.Small? ==> t.at + 4 <= |b| && Short(b, t.at + 2, native) == t.form.ch && t.kids[0].at == t.at + 4
  {
    hide Short, Long;
  }

  // ----- what turning does to what the bytes say -----

  lemma ShortsTurned(a: seq<Byte>, b: seq<Byte>, p: nat, w: WText, native: bool)
    requires p + 2 * |w| <= |a| == |b| && ShortsAre(a, p, w, native)
    requires forall c :: c in Row(p, 2, |w|) ==> Mirrored(a, b, c)
    ensures ShortsAre(b, p, w, !native)
  {
    hide Short;
    forall k | 0 <= k < |w| ensures Short(b, p + 2 * k, !native) == w[k] {
      assert Cell(p + 2 * k, 2) in Row(p, 2, |w|);
      MirroredShort(a, b, p + 2 * k, native);
    }
  }

  lemma PointersTurned(a: seq<Byte>, b: seq<Byte>, p: nat, kids: seq<Node>, native: bool)
    requires p + 4 * |kids| <= |a| == |b| && PointersAre(a, p, kids, native)
    requires forall c :: c in Row(p, 4, |kids|) ==> Mirrored(a, b, c)
    ensures PointersAre(b, p, kids, !native)
  {
    hide Long;
    forall k | 0 <= k < |kids|
      ensures Long(b, p + 4 * k, !native) == if kids[k].Absent? then ENDPTR else kids[k].at
    {
      assert Cell(p + 4 * k, 4) in Row(p, 4, |kids|);
      MirroredLong(a, b, p + 4 * k, native);
    }
  }

  ghost predicate AllMirrored(a: seq<Byte>, b: seq<Byte>, cells: set<Cell>) {
    |a| == |b| && Inside(cells, |a|) && forall c :: c in cells ==> Mirrored(a, b, c)
  }

  lemma NodeTurned(a: seq<Byte>, b: seq<Byte>, t: Node, native: bool)
    requires t.Node? && Shape(t) && End(t.at, t.form) <= |a| && NodeReads(a, t, native)
    requires AllMirrored(a, b, NodeCells(t))
    requires forall i :: Own(t, i) && !Covered(NodeCells(t), i) ==> a[i] == b[i]
    ensures NodeReads(b, t, !native)
  {
    hide Short, Long, ShortsAre, PointersAre, Row, Mirrored, Covered, Align4;
    var f, n := t.form, |Chars(t.form)|;
    MirroredShort(a, b, t.at, native);
    if !f.Other? {
      MirroredShort(a, b, t.at + 2, native);
    }
    if f.Normal? || f.NoPter? {
      MirroredLong(a, b, t.at + 4, native);
      MirroredLong(a, b, t.at + 8, native);
      ShortsTurned(a, b, t.at + 12, f.chars, native);
      ShortsTurned(a, b, SumSt(t.at, n), f.sums, native);
      ZerosUntyped(t);
    }
    if f.NoEnt? {
      ShortsTurned(a, b, t.at + 4, f.chars, native);
    }
    if f.Normal? || f.NoEnt? {
      PointersTurned(a, b, PtrSt(t.at, f), t.kids, native);
    }
  }

  /** The second of the two zero words between characters and sums is no field. */
  lemma ZerosUntyped(t: Node)
    requires t.Node? && Shape(t) && (t.form.Normal? || t.form.NoPter?)
    ensures var q := SumSt(t.at, |Chars(t.form)|);
            Own(t, q - 2) && Own(t, q - 1) && !Covered(NodeCells(t), q - 2) && !Covered(NodeCells(t), q - 1)
  {
    hide Row;
    var f, n := t.form, |Chars(t.form)|;
    var q := SumSt(t.at, n);
    forall i | q - 2 <= i < q ensures !Covered(NodeCells(t), i) {
      RowCovers(t.at + 12, 2, n, i);
      RowCovers(q, 2, n, i);
      RowCovers(PtrSt(t.at, f), 4, n, i);
    }
  }

  /** Turned as far as t goes. */
  ghost predicate TurnedIn(a: seq<Byte>, b: seq<Byte>, t: Node) {
    AllMirrored(a, b, Cells(t)) && forall i :: Occupies(t, i) && !Covered(Cells(t), i) && 0 <= i < |a| ==> a[i] == b[i]
  }

  /** A tree that can be read in one order can be read in the other when its fields are turned. */
  lemma {:induction false} ReadsTurned(a: seq<Byte>, b: seq<Byte>, t: Node, native: bool)
    requires Laid(t, |a|) && Reads(a, t, native) && TurnedIn(a, b, t)
    ensures Laid(t, |b|) && Reads(b, t, !native)
  {
    hide NodeReads, Shape, NodeCells;
    if t.Node? {
      forall i | Own(t, i) && !Covered(NodeCells(t), i) ensures a[i] == b[i] {
        assert Occupies(t, i);
        OnlyOwnCells(t, |a|, i);
      }
      NodeTurned(a, b, t, native);
      forall k | 0 <= k < |t.kids| ensures Reads(b, t.kids[k], !native) {
        KidTurnedIn(a, b, t, k);
        ReadsTurned(a, b, t.kids[k], native);
      }
    }
  }

  lemma OnlyOwnCells(t: Node, n: nat, i: int)
    requires t.Node? && Laid(t, n) && Own(t, i)
    ensures Covered(Cells(t), i) <==> Covered(NodeCells(t), i)
  {
    hide NodeCells, Own;
    UnionCovers(NodeCells(t), CellsTo(t, |t.kids|), i);
    if Covered(CellsTo(t, |t.kids|), i) {
      var k := CellsToOccupy(t, |t.kids|, i);
    }
  }

  lemma OnlyKidCells(t: Node, n: nat, k: nat, i: int)
    requires t.Node? && Laid(t, n) && k < |t.kids| && Occupies(t.kids[k], i)
    ensures Covered(Cells(t), i) ==> Covered(Cells(t.kids[k]), i)
  {
    hide NodeCells, Own;
    UnionCovers(NodeCells(t), CellsTo(t, |t.kids|), i);
    if Covered(NodeCells(t), i) {
      NodeCellsOwn(t, i);
    } else if Covered(CellsTo(t, |t.kids|), i) {
      OnlyKidCellsTo(t, n, |t.kids|, k, i);
    }
  }

  lemma {:induction false} OnlyKidCellsTo(t: Node, n: nat, m: nat, k: nat, i: int)
    requires t.Node? && Laid(t, n) && k < |t.kids| && Occupies(t.kids[k], i) && m <= |t.kids|
    requires Covered(CellsTo(t, m), i)
    ensures Covered(Cells(t.kids[k]), i)
    decreases m
  {
    hide NodeCells, Own, Cells;
    UnionCovers(CellsTo(t, m - 1), Cells(t.kids[m - 1]), i);
    if Covered(CellsTo(t, m - 1), i) {
      OnlyKidCellsTo(t, n, m - 1, k, i);
    } else {
      CellsOccupy(t.kids[m - 1], i);
      assert Disjoint(t.kids[k], t.kids[m - 1]) || k == m - 1;
    }
  }

  lemma {:induction false} KidCellsIn(t: Node, m: nat, k: nat)
    requires t.Node? && k < m <= |t.kids|
    ensures Cells(t.kids[k]) <= CellsTo(t, m)
    decreases m
  {
    if k < m - 1 {
      KidCellsIn(t, m - 1, k);
    }
  }

  lemma KidTurnedIn(a: seq<Byte>, b: seq<Byte>, t: Node, k: nat)
    requires t.Node? && k < |t.kids| && Laid(t, |a|) && TurnedIn(a, b, t)
    ensures TurnedIn(a, b, t.kids[k])
  {
    hide NodeCells, Own, Shape;
    KidCellsIn(t, |t.kids|, k);
    assert Cells(t.kids[k]) <= Cells(t);
    forall i | Occupies(t.kids[k], i) && !Covered(Cells(t.kids[k]), i) && 0 <= i < |a| ensures a[i] == b[i] {
      OnlyKidCells(t, |a|, k, i);
      assert Occupies(t, i);
    }
  }

  // ----- the program -----

  /** The fields in front of the characters. */
  ghost function HeadCells(t: Node): set<Cell>
    requires t.Node?
  {
    {Cell(t.at, 2)} + (if t.form.Other? then {} else {Cell(t.at + 2, 2)}) +
    (if t.form.Normal? || t.form.NoPter? then {Cell(t.at + 4, 4), Cell(t.at + 8, 4)} else {})
  }

  /** The characters, and what comes with each. */
  ghost function ArrayCells(t: Node): set<Cell>
    requires t.Node?
  {
    var f, n := t.form, |Chars(t.form)|;
    match f
    case Normal(_, _, _, _) => Row(t.at + 12, 2, n) + Row(SumSt(t.at, n), 2, n) + Row(PtrSt(t.at, f), 4, n)
    case NoPter(_, _, _, _) => Row(t.at + 12, 2, n) + Row(SumSt(t.at, n), 2, n)
    case NoEnt(_) => Row(t.at + 4, 2, n) + Row(PtrSt(t.at, f), 4, n)
    case _ => {}
  }

  lemma NodeCellsSplit(t: Node)
    requires t.Node?
    ensures NodeCells(t) == HeadCells(t) + ArrayCells(t)
    ensures Apart(HeadCells(t), ArrayCells(t))
  {
    hide Row;
    var f, n := t.form, |Chars(t.form)|;
    forall i | Covered(HeadCells(t), i) ensures !Covered(ArrayCells(t), i) {
      RowCovers(t.at + 12, 2, n, i);
      RowCovers(t.at + 4, 2, n, i);
      RowCovers(SumSt(t.at, n), 2, n, i);
      RowCovers(PtrSt(t.at, f), 4, n, i);
    }
  }

  method RevCharsAndSums(b: array<Byte>, charst: nat, sumst: nat, tsize: nat)
    requires charst + 2 * tsize <= sumst && sumst + 2 * tsize <= b.Length
    modifies b
    ensures Turned(old(b[..]), b[..], Row(charst, 2, tsize) + Row(sumst, 2, tsize))
  {
    hide Turned;
    ghost var a := b[..];
    TurnedNothing(a);
    assert Row(charst, 2, 0) + Row(sumst, 2, 0) == {};
    var k := 0;
    while k < tsize
      invariant 0 <= k <= tsize && Turned(a, b[..], Row(charst, 2, k) + Row(sumst, 2, k))
    {
      ghost var a1 := b[..];
      RevShort(b, charst + 2 * k);
      ghost var a2 := b[..];
      RevShort(b, sumst + 2 * k);
      AddBoth(a, a1, a2, b[..], charst, sumst, 2, k);
      k := k + 1;
    }
  }

  method RevCharsAndPointers(b: array<Byte>, charst: nat, ptrst: nat, tsize: nat)
    requires charst + 2 * tsize <= ptrst && ptrst + 4 * tsize <= b.Length
    modifies b
    ensures Turned(old(b[..]), b[..], Row(charst, 2, tsize) + Row(ptrst, 4, tsize))
  {
    hide Turned;
    ghost var a := b[..];
    TurnedNothing(a);
    assert Row(charst, 2, 0) + Row(ptrst, 4, 0) == {};
    var k := 0;
    while k < tsize
      invariant 0 <= k <= tsize && Turned(a, b[..], Row(charst, 2, k) + Row(ptrst, 4, k))
    {
      ghost var a1 := b[..];
      RevShort(b, charst + 2 * k);
      ghost var a2 := b[..];
      RevInt(b, ptrst + 4 * k);
      AddBoth(a, a1, a2, b[..], charst, ptrst, 4, k);
      k := k + 1;
    }
  }

  method RevPointers(b: array<Byte>, ptrst: nat, tsize: nat)
    requires ptrst + 4 * tsize <= b.Length
    modifies b
    ensures Turned(old(b[..]), b[..], Row(ptrst, 4, tsize))
  {
    hide Turned;
    ghost var a := b[..];
    TurnedNothing(a);
    assert Row(ptrst, 4, 0) == {};
    var k := 0;
    while k < tsize
      invariant 0 <= k <= tsize && Turned(a, b[..], Row(ptrst, 4, k))
    {
      ghost var a1 := b[..];
      RevInt(b, ptrst + 4 * k);
      AddCell(a, a1, b[..], Row(ptrst, 4, k), ptrst + 4 * k, 4);
      RowStep(ptrst, 4, k);
      k := k + 1;
    }
  }

  /** The fields in front of the characters: state and size are read before they are turned when
      the dictionary matches the host (`native`), after otherwise. */
  method RevHead(b: array<Byte>, hopter: nat, native: bool, ghost t: Node) returns (state: WChar, tsize: nat)
    requires t.Node? && t.at == hopter && Shape(t) && End(t.at, t.form) <= b.Length && NodeReads(b[..], t, native)
    modifies b
    ensures state == StateOf(t.form) && (!t.form.Small? && !t.form.Other? ==> tsize == |Chars(t.form)|)
    ensures Turned(old(b[..]), b[..], HeadCells(t))
  {
    hide Turned, Row, ShortsAre, PointersAre, Long;
    ghost var a := b[..];
    state := RevIfShort(b, hopter, native);
    ghost var a1, x1 := b[..], {Cell(hopter, 2)};
    tsize := 0;
    if state != ST_NORMAL && state != ST_NOPTER && state != ST_NOENT && state != ST_SMALL {
      assert HeadCells(t) == x1;
      return;
    }
    NextShortKept(a, a1, hopter, native);
    tsize := RevIfShort(b, hopter + 2, native);
    ghost var a2, x2 := b[..], x1 + {Cell(hopter + 2, 2)};
    AddCell(a, a1, a2, x1, hopter + 2, 2);
    if state == ST_NORMAL || state == ST_NOPTER {
      RevInt(b, hopter + 4);
      ghost var a3 := b[..];
      AddCell(a, a2, a3, x2, hopter + 4, 4);
      RevInt(b, hopter + 8);
      AddCell(a, a3, b[..], x2 + {Cell(hopter + 4, 4)}, hopter + 8, 4);
      assert HeadCells(t) == x2 + {Cell(hopter + 4, 4)} + {Cell(hopter + 8, 4)};
    } else {
      assert HeadCells(t) == x2;
    }
  }

  lemma NextShortKept(a: seq<Byte>, b: seq<Byte>, p: nat, native: bool)
    requires p + 4 <= |a| && Turned(a, b, {Cell(p, 2)})
    ensures Short(b, p + 2, native) == Short(a, p + 2, native)
  {
    CellCovers(Cell(p, 2), p + 2);
    CellCovers(Cell(p, 2), p + 3);
  }

  /** The fields of one node (lines 228-279). */
  method RevSdNode(b: array<Byte>, hopter: nat, native: bool, ghost t: Node)
    requires t.Node? && t.at == hopter && Shape(t) && End(t.at, t.form) <= b.Length && NodeReads(b[..], t, native)
    modifies b
    ensures Turned(old(b[..]), b[..], NodeCells(t))
  {
    hide Turned, Row, Apart, NodeReads, HeadCells, NodeCells, Align4;
    ghost var a := b[..];
    NodeCellsSplit(t);
    var state, tsize := RevHead(b, hopter, native, t);
    ghost var a1 := b[..];
    if state == ST_NORMAL || state == ST_NOPTER {
      var charst := hopter + 12;
      var sumst := charst + 2 * (tsize + 2);
      var ptrst := sumst + 2 * tsize;
      RevCharsAndSums(b, charst, sumst, tsize);
      if state == ST_NORMAL {
        ghost var a2 := b[..];
        RevPointers(b, ptrst, tsize);
        PointersBehind(a1, a2, b[..], t);
      }
    } else if state == ST_NOENT {
      var charst := hopter + 4;
      RevCharsAndPointers(b, charst, Align4(charst + 2 * tsize), tsize);
    } else {
      TurnedNothing(a1);
    }
    TurnedThen(a, a1, b[..], HeadCells(t), ArrayCells(t));
  }

  lemma PointersBehind(a: seq<Byte>, a1: seq<Byte>, a2: seq<Byte>, t: Node)
    requires t.Node? && t.form.Normal?
    requires var n := |Chars(t.form)|;
             && Turned(a, a1, Row(t.at + 12, 2, n) + Row(SumSt(t.at, n), 2, n))
             && Turned(a1, a2, Row(PtrSt(t.at, t.form), 4, n))
    ensures Turned(a, a2, ArrayCells(t))
  {
    hide Turned, Row, Covered;
    var n := |Chars(t.form)|;
    var x, y, z := Row(t.at + 12, 2, n), Row(SumSt(t.at, n), 2, n), Row(PtrSt(t.at, t.form), 4, n);
    forall i | Covered(x + y, i) ensures !Covered(z, i) {
      UnionCovers(x, y, i);
      RowCovers(t.at + 12, 2, n, i);
      RowCovers(SumSt(t.at, n), 2, n, i);
      RowCovers(PtrSt(t.at, t.form), 4, n, i);
    }
    TurnedThen(a, a1, a2, x + y, z);
  }

  /** No child of a node without entries is absent: the program would take the body's first node
      for it. */
  ghost predicate AllPresent(t: Node) {
    t.Node? ==>
      && (t.form.NoEnt? ==> forall k :: 0 <= k < |t.kids| ==> t.kids[k].Node?)
      && (forall k :: 0 <= k < |t.kids| ==> AllPresent(t.kids[k]))
  }

  lemma BelowKept(a: seq<Byte>, b: seq<Byte>, t: Node, native: bool)
    requires t.Node? && Laid(t, |a|) && BelowReads(a, t, native) && Turned(a, b, NodeCells(t))
    ensures Laid(t, |b|) && BelowReads(b, t, native)
  {
    hide NodeCells, Shape, Own, Reads;
    forall k | 0 <= k < |t.kids| ensures Reads(b, t.kids[k], native) {
      forall i | Occupies(t.kids[k], i) && 0 <= i < |a| ensures a[i] == b[i] {
        if Covered(NodeCells(t), i) { NodeCellsOwn(t, i); }
      }
      ReadsKept(a, b, t.kids[k], native);
    }
  }

  /** While the children are turned, the node and the children still to come stay as they were. */
  lemma AheadKept(a: seq<Byte>, b: seq<Byte>, t: Node, n: nat, native: bool)
    requires t.Node? && Laid(t, |a|) && n <= |t.kids| && Turned(a, b, CellsTo(t, n))
    requires NodeReads(a, t, true) && BelowReads(a, t, native)
    ensures Laid(t, |b|) && NodeReads(b, t, true)
    ensures n < |t.kids| ==> Reads(b, t.kids[n], native)
  {
    hide NodeReads, Reads, Shape, NodeCells;
    forall i | Own(t, i) && 0 <= i < |a| ensures a[i] == b[i] {
      if Covered(CellsTo(t, n), i) { var k := CellsToOccupy(t, n, i); }
    }
    NodeKept(a, b, t, true);
    if n < |t.kids| {
      forall i | Occupies(t.kids[n], i) && 0 <= i < |a| ensures a[i] == b[i] {
        if Covered(CellsTo(t, n), i) {
          var k := CellsToOccupy(t, n, i);
        }
      }
      ReadsKept(a, b, t.kids[n], native);
    }
  }

  lemma KidDone(a: seq<Byte>, a1: seq<Byte>, a2: seq<Byte>, t: Node, n: nat)
    requires t.Node? && Laid(t, |a|) && n < |t.kids|
    requires Turned(a, a1, CellsTo(t, n)) && Turned(a1, a2, Cells(t.kids[n]))
    ensures Turned(a, a2, CellsTo(t, n + 1))
  {
    hide Shape, NodeCells, Turned;
    forall i | Covered(CellsTo(t, n), i) ensures !Covered(Cells(t.kids[n]), i) {
      var k := CellsToOccupy(t, n, i);
      assert Disjoint(t.kids[k], t.kids[n]);
      if Covered(Cells(t.kids[n]), i) { CellsOccupy(t.kids[n], i); }
    }
    TurnedThen(a, a1, a2, CellsTo(t, n), Cells(t.kids[n]));
  }

  lemma NodeAndBelow(a: seq<Byte>, a1: seq<Byte>, a2: seq<Byte>, t: Node)
    requires t.Node? && Laid(t, |a|)
    requires || (Turned(a, a1, NodeCells(t)) && Turned(a1, a2, CellsTo(t, |t.kids|)))
             || (Turned(a, a1, CellsTo(t, |t.kids|)) && Turned(a1, a2, NodeCells(t)))
    ensures Turned(a, a2, Cells(t))
  {
    hide Shape, NodeCells, Turned, Own;
    var x, y := NodeCells(t), CellsTo(t, |t.kids|);
    forall i | Covered(x, i) ensures !Covered(y, i) {
      NodeCellsOwn(t, i);
      if Covered(y, i) { var k := CellsToOccupy(t, |t.kids|, i); }
    }
    assert Apart(x, y) && Apart(y, x);
    assert x + y == Cells(t) && y + x == Cells(t);
    if Turned(a, a1, x) && Turned(a1, a2, y) {
      TurnedThen(a, a1, a2, x, y);
    } else {
      TurnedThen(a, a1, a2, y, x);
    }
  }

  /** rev_sd_hontai0: the children first when the dictionary matches the host, else the node first.
      Either way every field below hopter is turned, and nothing else. */
  method RevSdHontai0(b: array<Byte>, hopter: nat, native: bool, ghost t: Node)
    requires t.Node? && t.at == hopter && Laid(t, b.Length) && AllPresent(t) && Reads(b[..], t, native)
    modifies b
    ensures Turned(old(b[..]), b[..], Cells(t))
    ensures Reads(b[..], t, !native)
    ensures forall i :: 0 <= i < b.Length && !FieldByte(t, i) ==> b[i] == old(b[i])
    decreases t, 2
  {
    hide Laid, NodeReads, NodeCells, Turned, Cells, Reads;
    ghost var a := b[..];
    Unfold(a, t, native);
    if native {
      TravelNextNodes(b, hopter, native, t);
      ghost var a1 := b[..];
      AheadKept(a, a1, t, |t.kids|, native);
      RevSdNode(b, hopter, native, t);
      NodeAndBelow(a, a1, b[..], t);
    } else {
      RevSdNode(b, hopter, native, t);
      ghost var a1 := b[..];
      NodeTurnedAll(a, a1, t, native);
      BelowKept(a, a1, t, native);
      TravelNextNodes(b, hopter, native, t);
      NodeAndBelow(a, a1, b[..], t);
    }
    TurnedAll(a, b[..], t);
    GapsKept(a, b[..], t);
    ReadsTurned(a, b[..], t, native);
  }

  lemma NodeTurnedAll(a: seq<Byte>, b: seq<Byte>, t: Node, native: bool)
    requires t.Node? && Shape(t) && End(t.at, t.form) <= |a| && NodeReads(a, t, native) && Turned(a, b, NodeCells(t))
    ensures NodeReads(b, t, !native)
  {
    hide NodeReads, NodeCells, Shape, Mirrored;
    NodeTurned(a, b, t, native);
  }

  lemma TurnedAll(a: seq<Byte>, b: seq<Byte>, t: Node)
    requires Turned(a, b, Cells(t))
    ensures TurnedIn(a, b, t)
  {
  }

  /** The children of a node, which itself can be read on this host now (lines 182-223). */
  method TravelNextNodes(b: array<Byte>, hopter: nat, native: bool, ghost t: Node)
    requires t.Node? && t.at == hopter && Laid(t, b.Length) && AllPresent(t)
    requires NodeReads(b[..], t, true) && BelowReads(b[..], t, native)
    modifies b
    ensures Turned(old(b[..]), b[..], CellsTo(t, |t.kids|))
    decreases t, 1
  {
    hide Laid, NodeCells, Turned, Cells, CellsTo, Reads, ShortsAre;
    ghost var a := b[..];
    KidsLaid(t, b.Length);
    NothingBelow(a, t);
    var state := Short(b[..], hopter, true);
    if state == ST_NORMAL {
      var tsize: nat := Short(b[..], hopter + 2, true);
      var ptrst := hopter + 12 + 2 * (tsize + 2) + 2 * tsize;
      TravelRow(b, ptrst, tsize, true, native, t);
    } else if state == ST_NOENT {
      var tsize: nat := Short(b[..], hopter + 2, true);
      var ptrst := Align4(hopter + 4 + 2 * tsize);
      TravelRow(b, ptrst, tsize, false, native, t);
    } else if state == ST_SMALL {
      AheadKept(a, a, t, 0, native);
      RevSdHontai0(b, hopter + 4, native, t.kids[0]);
      KidDone(a, a, b[..], t, 0);
    }
  }

  /** The loop over a row of pointers; only in a normal node some may be ENDPTR (`check`). */
  method TravelRow(b: array<Byte>, ptrst: nat, tsize: nat, check: bool, native: bool, ghost t: Node)
    requires t.Node? && Laid(t, b.Length) && AllPresent(t) && Shape(t) && End(t.at, t.form) <= b.Length
    requires NodeReads(b[..], t, true) && BelowReads(b[..], t, native)
    requires (if check then t.form.Normal? else t.form.NoEnt?) && ptrst == PtrSt(t.at, t.form) && tsize == |t.kids|
    modifies b
    ensures Turned(old(b[..]), b[..], CellsTo(t, |t.kids|))
    decreases t, 0
  {
    hide Laid, NodeReads, NodeCells, Turned, Cells, CellsTo, Reads, ShortsAre, Shape, BelowReads, PtrSt, Long, End;
    ghost var a := b[..];
    KidsLaid(t, b.Length);
    NothingBelow(a, t);
    var k := 0;
    while k < tsize
      invariant 0 <= k <= tsize && Turned(a, b[..], CellsTo(t, k))
    {
      ghost var a1 := b[..];
      AheadKept(a, a1, t, k, native);
      PointerTells(a1, t, k);
      var ptr := Long(b[..], ptrst + 4 * k, true);
      if ptr != ENDPTR || !check {
        RevSdHontai0(b, ptr, native, t.kids[k]);
      } else {
        AbsentTurned(a1);
      }
      KidDone(a, a1, b[..], t, k);
      k := k + 1;
    }
  }

  lemma NothingBelow(a: seq<Byte>, t: Node)
    requires t.Node?
    ensures Turned(a, a, CellsTo(t, 0))
  {
    TurnedNothing(a);
  }

  lemma AbsentTurned(a: seq<Byte>)
    ensures Turned(a, a, Cells(Absent))
  {
    TurnedNothing(a);
  }

  /** rev_sd_hontai. */
  method RevSdHontai(b: array<Byte>, native: bool, ghost t: Node)
    requires t.Node? && t.at == 0 && Laid(t, b.Length) && AllPresent(t) && Reads(b[..], t, native)
    modifies b
    ensures Turned(old(b[..]), b[..], Cells(t)) && Reads(b[..], t, !native)
  {
    RevSdHontai0(b, 0, native, t);
  }

  /** A body turned for the other kind of host (children first) and back (node first) is the body
      it was, byte for byte; so is one that came from the other kind and goes back. */
  method ThereAndBack(b: array<Byte>, native: bool, ghost t: Node)
    requires t.Node? && t.at == 0 && Laid(t, b.Length) && AllPresent(t) && Reads(b[..], t, native)
    modifies b
    ensures b[..] == old(b[..])
  {
    hide Turned, Laid, Reads, Cells;
    ghost var a := b[..];
    RevSdHontai(b, native, t);
    ghost var a1 := b[..];
    RevSdHontai(b, !native, t);
    TurnedTwice(a, a1, b[..], Cells(t));
  }
}
