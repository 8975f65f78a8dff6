/** Reversing the bytes of fields in a buffer (the rev_ macros of Wnn/etc/revdic.c:54-70). The host
    reads its fields low byte first. */
module ByteOrder {
  import opened WString
  import KanjiPool

  type Byte = KanjiPool.Byte

  /** A field of w bytes at p. */
  datatype Cell = Cell(p: nat, w: nat)

  ghost predicate Covered(cells: set<Cell>, i: int) {
    exists c :: c in cells && c.p <= i < c.p + c.w
  }

  ghost predicate Inside(cells: set<Cell>, n: nat) {
    forall c :: c in cells ==> c.p + c.w <= n
  }

  ghost predicate Mirrored(a: seq<Byte>, b: seq<Byte>, c: Cell)
    requires c.p + c.w <= |a| == |b|
  {
    forall i :: c.p <= i < c.p + c.w ==> b[i] == a[2 * c.p + c.w - 1 - i]
  }

  /** b is a with the bytes of every cell in the opposite order and nothing else changed. */
  ghost predicate Turned(a: seq<Byte>, b: seq<Byte>, cells: set<Cell>) {
    && |a| == |b| && Inside(cells, |a|)
    && (forall c :: c in cells ==> Mirrored(a, b, c))
    && (forall i :: 0 <= i < |a| && !Covered(cells, i) ==> b[i] == a[i])
  }

  lemma MirrorAt(a: seq<Byte>, b: seq<Byte>, c: Cell, i: int)
    requires c.p + c.w <= |a| == |b| && Mirrored(a, b, c) && c.p <= i < c.p + c.w
    ensures b[i] == a[2 * c.p + c.w - 1 - i]
  {
  }

  /** Turning the same cells twice restores the buffer. */
  lemma TurnedTwice(a: seq<Byte>, b: seq<Byte>, d: seq<Byte>, cells: set<Cell>)
    requires Turned(a, b, cells) && Turned(b, d, cells)
    ensures d == a
  {
    hide Mirrored;
    forall i | 0 <= i < |a| ensures d[i] == a[i] {
      if c :| c in cells && c.p <= i < c.p + c.w {
        var j := 2 * c.p + c.w - 1 - i;
        MirrorAt(b, d, c, i);
        MirrorAt(a, b, c, j);
      } else {
        assert !Covered(cells, i);
      }
    }
  }

  lemma TurnedNothing(a: seq<Byte>)
    ensures Turned(a, a, {})
  {
  }

  ghost predicate Apart(x: set<Cell>, y: set<Cell>) {
    forall i :: Covered(x, i) ==> !Covered(y, i)
  }

  lemma MirroredThenKept(a: seq<Byte>, b: seq<Byte>, d: seq<Byte>, c: Cell)
    requires c.p + c.w <= |a| == |b| == |d| && Mirrored(a, b, c)
    requires forall i :: c.p <= i < c.p + c.w ==> d[i] == b[i]
    ensures Mirrored(a, d, c)
  {
  }

  lemma KeptThenMirrored(a: seq<Byte>, b: seq<Byte>, d: seq<Byte>, c: Cell)
    requires c.p + c.w <= |a| == |b| == |d| && Mirrored(b, d, c)
    requires forall i :: c.p <= i < c.p + c.w ==> b[i] == a[i]
    ensures Mirrored(a, d, c)
  {
  }

  /** Turning disjoint cells one after the other turns all of them, in whatever order. */
  lemma TurnedThen(a: seq<Byte>, b: seq<Byte>, d: seq<Byte>, x: set<Cell>, y: set<Cell>)
    requires Turned(a, b, x) && Turned(b, d, y) && Apart(x, y)
    ensures Turned(a, d, x + y)
  {
    hide Mirrored;
    forall c | c in x + y ensures Mirrored(a, d, c) {
      if c in x {
        forall i | c.p <= i < c.p + c.w ensures d[i] == b[i] { assert Covered(x, i); }
        MirroredThenKept(a, b, d, c);
      } else {
        forall i | c.p <= i < c.p + c.w ensures b[i] == a[i] { assert Covered(y, i); }
        KeptThenMirrored(a, b, d, c);
      }
    }
    forall i | 0 <= i < |a| && !Covered(x + y, i) ensures d[i] == a[i] {
      UnionCovers(x, y, i);
    }
  }

  // ----- fields in either order -----

  /** The 16-bit field at p; `native` says whether it is stored low byte first. */
  function Short(b: seq<Byte>, p: nat, native: bool): (v: WChar)
    requires p + 2 <= |b|
  {
    var first: int, second: int := b[p], b[p + 1];
    if native then KanjiPool.CharAt(b, p) else 0x100 * first + second
  }

  /** The 32-bit field at p. */
  function Long(b: seq<Byte>, p: nat, native: bool): (v: nat)
    requires p + 4 <= |b|
  {
    var b0: int, b1: int, b2: int, b3: int := b[p], b[p + 1], b[p + 2], b[p + 3];
    if native then b0 + 0x100 * b1 + 0x1_0000 * b2 + 0x100_0000 * b3 else 0x100_0000 * b0 + 0x1_0000 * b1 + 0x100 * b2 + b3
  }

  lemma MirroredShort(a: seq<Byte>, b: seq<Byte>, p: nat, native: bool)
    requires p + 2 <= |a| == |b| && Mirrored(a, b, Cell(p, 2))
    ensures Short(b, p, !native) == Short(a, p, native)
  {
    hide Mirrored;
    MirrorAt(a, b, Cell(p, 2), p);
    MirrorAt(a, b, Cell(p, 2), p + 1);
  }

  lemma MirroredLong(a: seq<Byte>, b: seq<Byte>, p: nat, native: bool)
    requires p + 4 <= |a| == |b| && Mirrored(a, b, Cell(p, 4))
    ensures Long(b, p, !native) == Long(a, p, native)
  {
    hide Mirrored;
    MirrorAt(a, b, Cell(p, 4), p);
    MirrorAt(a, b, Cell(p, 4), p + 1);
    MirrorAt(a, b, Cell(p, 4), p + 2);
    MirrorAt(a, b, Cell(p, 4), p + 3);
  }

  method RevShort(b: array<Byte>, p: nat)
    requires p + 2 <= b.Length
    modifies b
    ensures Turned(old(b[..]), b[..], {Cell(p, 2)})
  {
    b[p], b[p + 1] := b[p + 1], b[p];
    TurnedCell(old(b[..]), b[..], Cell(p, 2));
  }

  method RevInt(b: array<Byte>, p: nat)
    requires p + 4 <= b.Length
    modifies b
    ensures Turned(old(b[..]), b[..], {Cell(p, 4)})
  {
    b[p], b[p + 1], b[p + 2], b[p + 3] := b[p + 3], b[p + 2], b[p + 1], b[p];
    TurnedCell(old(b[..]), b[..], Cell(p, 4));
  }

  lemma TurnedCell(a: seq<Byte>, b: seq<Byte>, c: Cell)
    requires c.p + c.w <= |a| == |b| && Mirrored(a, b, c)
    requires forall i :: 0 <= i < |a| && !(c.p <= i < c.p + c.w) ==> b[i] == a[i]
    ensures Turned(a, b, {c})
  {
    forall i | 0 <= i < |a| && !Covered({c}, i) ensures b[i] == a[i] {
      CellCovers(c, i);
    }
  }

  /** rev_if_short: reverses the field, and returns its value read before (when it is stored in
      the host's order) or after. */
  method RevIfShort(b: array<Byte>, p: nat, native: bool) returns (v: WChar)
    requires p + 2 <= b.Length
    modifies b
    ensures v == Short(old(b[..]), p, native) && Turned(old(b[..]), b[..], {Cell(p, 2)})
  {
    if native {
      v := Short(b[..], p, true);
      RevShort(b, p);
    } else {
      RevShort(b, p);
      v := Short(b[..], p, true);
      assert Cell(p, 2) in {Cell(p, 2)};
      MirroredShort(old(b[..]), b[..], p, false);
    }
  }

  // ----- rows of fields -----

  ghost function Row(p: nat, w: nat, n: nat): set<Cell> {
    set k | 0 <= k < n :: Cell(p + w * k, w)
  }

  lemma RowStep(p: nat, w: nat, n: nat)
    ensures Row(p, w, n + 1) == Row(p, w, n) + {Cell(p + w * n, w)}
  {
  }

  lemma RowCovers(p: nat, w: nat, n: nat, i: int)
    requires w in {2, 4}
    ensures Covered(Row(p, w, n), i) <==> p <= i < p + w * n
  {
    if p <= i < p + w * n {
      var k := (i - p) / w;
      assert Cell(p + w * k, w) in Row(p, w, n);
    }
  }

  lemma CellCovers(c: Cell, i: int)
    ensures Covered({c}, i) <==> c.p <= i < c.p + c.w
  {
    if c.p <= i < c.p + c.w { assert c in {c}; }
  }

  lemma UnionCovers(x: set<Cell>, y: set<Cell>, i: int)
    ensures Covered(x + y, i) <==> Covered(x, i) || Covered(y, i)
  {
    if Covered(x, i) {
      var c :| c in x && c.p <= i < c.p + c.w;
      assert c in x + y;
    } else if Covered(y, i) {
      var c :| c in y && c.p <= i < c.p + c.w;
      assert c in x + y;
    }
  }

  /** rev_w_char and the loops like it. */
  method RevWChar(b: array<Byte>, p: nat, n: nat)
    requires n > 0 ==> p + 2 * n <= b.Length
    modifies b
    ensures Turned(old(b[..]), b[..], Row(p, 2, n))
  {
    hide Turned;
    ghost var a := b[..];
    TurnedNothing(a);
    assert Row(p, 2, 0) == {};
    var k := 0;
    while k < n
      invariant 0 <= k <= n && Turned(a, b[..], Row(p, 2, k))
    {
      ghost var a1 := b[..];
      RevShort(b, p + 2 * k);
      AddCell(a, a1, b[..], Row(p, 2, k), p + 2 * k, 2);
      RowStep(p, 2, k);
      k := k + 1;
    }
  }

  /** One more cell, behind all that were turned before. */
  lemma AddCell(a: seq<Byte>, a1: seq<Byte>, a2: seq<Byte>, x: set<Cell>, q: nat, w: nat)
    requires Turned(a, a1, x) && Turned(a1, a2, {Cell(q, w)})
    requires forall c :: c in x ==> c.p + c.w <= q
    ensures Turned(a, a2, x + {Cell(q, w)})
  {
    TurnedThen(a, a1, a2, x, {Cell(q, w)});
  }

  /** Two rows side by side, the second behind the first, one more cell of each. */
  lemma AddBoth(a: seq<Byte>, a1: seq<Byte>, a2: seq<Byte>, a3: seq<Byte>, p: nat, q: nat, w: nat, k: nat)
    requires p + 2 * k + 2 <= q && w in {2, 4}
    requires Turned(a, a1, Row(p, 2, k) + Row(q, w, k))
    requires Turned(a1, a2, {Cell(p + 2 * k, 2)}) && Turned(a2, a3, {Cell(q + w * k, w)})
    ensures Turned(a, a3, Row(p, 2, k + 1) + Row(q, w, k + 1))
  {
    hide Turned, Row, Covered;
    var x, y, c, d := Row(p, 2, k), Row(q, w, k), {Cell(p + 2 * k, 2)}, {Cell(q + w * k, w)};
    forall i ensures !(Covered(x + y, i) && Covered(c, i)) && !(Covered(x + y + c, i) && Covered(d, i)) {
      UnionCovers(x, y, i);
      UnionCovers(x + y, c, i);
      RowCovers(p, 2, k, i);
      RowCovers(q, w, k, i);
      CellCovers(Cell(p + 2 * k, 2), i);
      CellCovers(Cell(q + w * k, w), i);
    }
    TurnedThen(a, a1, a2, x + y, c);
    TurnedThen(a, a2, a3, x + y + c, d);
    RowStep(p, 2, k);
    RowStep(q, w, k);
    assert x + y + c + d == (x + c) + (y + d);
  }
}
