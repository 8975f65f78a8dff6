/** Turning the record areas of a dictionary: the body of a user dictionary and the pool of kanji
    records (Wnn/etc/revdic.c:72-112, 326-353). */
module RevRecords {
  import opened WString
  import opened ByteOrder
  import SdLayout

  lemma AddCells(a: seq<Byte>, a1: seq<Byte>, a2: seq<Byte>, x: set<Cell>, y: set<Cell>, q: nat)
    requires Turned(a, a1, x) && Turned(a1, a2, y)
    requires (forall c :: c in x ==> c.p + c.w <= q) && (forall c :: c in y ==> q <= c.p)
    ensures Turned(a, a2, x + y)
  {
    forall i | Covered(x, i) ensures !Covered(y, i) { }
    TurnedThen(a, a1, a2, x, y);
  }

  lemma BehindKept(a: seq<Byte>, b: seq<Byte>, x: set<Cell>, q: nat)
    requires Turned(a, b, x) && forall c :: c in x ==> c.p + c.w <= q
    ensures |a| == |b| && forall i :: q <= i < |a| ==> a[i] == b[i]
  {
    forall i | q <= i < |a| ensures a[i] == b[i] {
      assert !Covered(x, i);
    }
  }

  // ----- the body of a user dictionary: struct uind2, one behind the other -----

  /** How many characters of a reading of len characters stand in the record (the table holds the
      first four). yomi[0] holds len. */
  function Extra(len: nat): nat {
    if len > 4 then len - 4 else 0
  }

  ghost function RecEnd(b: seq<Byte>, p: nat, native: bool): (e: nat)
    requires p + 16 <= |b|
    ensures p + 16 <= e
  {
    p + 16 + 2 * Extra(Short(b, p + 14, native))
  }

  /** Records follow each other from p until end. */
  ghost predicate Tiled(b: seq<Byte>, p: nat, end: nat, native: bool)
    decreases end - p
  {
    p < end ==>
      p + 16 <= |b| && RecEnd(b, p, native) <= |b| && Tiled(b, SdLayout.Align4(RecEnd(b, p, native)), end, native)
  }

  ghost function RecCells(p: nat, extra: nat): set<Cell> {
    {Cell(p, 4), Cell(p + 4, 4), Cell(p + 8, 4), Cell(p + 12, 2), Cell(p + 14, 2)} + Row(p + 16, 2, extra)
  }

  ghost function UdCells(b: seq<Byte>, p: nat, end: nat, native: bool): set<Cell>
    requires Tiled(b, p, end, native)
    decreases end - p
  {
    if p >= end then {}
    else
      RecCells(p, Extra(Short(b, p + 14, native))) + UdCells(b, SdLayout.Align4(RecEnd(b, p, native)), end, native)
  }

  /** next, serial, kanjipter and kosuu of a record. */
  ghost function HeadCells(hop: nat): set<Cell> {
    {Cell(hop, 4), Cell(hop + 4, 4), Cell(hop + 8, 4)} + {Cell(hop + 12, 2)}
  }

  method RevUdHead(b: array<Byte>, hop: nat)
    requires hop + 16 <= b.Length
    modifies b
    ensures Turned(old(b[..]), b[..], HeadCells(hop))
  {
    hide Turned;
    ghost var a := b[..];
    ghost var x1, x2, x3 := {Cell(hop, 4)}, {Cell(hop, 4), Cell(hop + 4, 4)}, {Cell(hop, 4), Cell(hop + 4, 4), Cell(hop + 8, 4)};
    RevInt(b, hop);
    ghost var a1 := b[..];
    RevInt(b, hop + 4);
    ghost var a2 := b[..];
    AddCells(a, a1, a2, x1, {Cell(hop + 4, 4)}, hop + 4);
    assert x1 + {Cell(hop + 4, 4)} == x2;
    RevInt(b, hop + 8);
    ghost var a3 := b[..];
    AddCells(a, a2, a3, x2, {Cell(hop + 8, 4)}, hop + 8);
    assert x2 + {Cell(hop + 8, 4)} == x3;
    RevShort(b, hop + 12);
    AddCells(a, a3, b[..], x3, {Cell(hop + 12, 2)}, hop + 12);
  }

  /** One record (lines 86-110): its length is read before it is turned or after. */
  method RevUdRecord(b: array<Byte>, hop: nat, native: bool) returns (next: nat)
    requires hop + 16 <= b.Length && RecEnd(b[..], hop, native) <= b.Length
    modifies b
    ensures Turned(old(b[..]), b[..], RecCells(hop, Extra(Short(old(b[..]), hop + 14, native))))
    ensures next == SdLayout.Align4(RecEnd(old(b[..]), hop, native))
  {
    hide Turned, Row, Long, Short;
    ghost var a, x4 := b[..], HeadCells(hop);
    RevUdHead(b, hop);
    ghost var a4 := b[..];
    BehindKept(a, a4, x4, hop + 14);
    SdLayout.ShortKept(a, a4, hop + 14, native);
    var len: nat := RevIfShort(b, hop + 14, native);
    ghost var a5, x5 := b[..], x4 + {Cell(hop + 14, 2)};
    AddCells(a, a4, a5, x4, {Cell(hop + 14, 2)}, hop + 14);
    RevWChar(b, hop + 16, Extra(len));
    RowBehind(hop + 16, Extra(len));
    AddCells(a, a5, b[..], x5, Row(hop + 16, 2, Extra(len)), hop + 16);
    assert x5 + Row(hop + 16, 2, Extra(len)) == RecCells(hop, Extra(len));
    next := SdLayout.Align4(hop + 16 + 2 * Extra(len));
  }

  lemma RowBehind(p: nat, n: nat)
    ensures forall c :: c in Row(p, 2, n) ==> p <= c.p && c.p + c.w <= p + 2 * n
    ensures n == 0 ==> Row(p, 2, n) == {}
  {
  }

  lemma RecCellsBounds(p: nat, extra: nat)
    ensures forall c :: c in RecCells(p, extra) ==> p <= c.p && c.p + c.w <= p + 16 + 2 * extra
  {
    hide Row;
    RowBehind(p + 16, extra);
  }

  lemma {:induction false} TiledKept(a: seq<Byte>, b: seq<Byte>, p: nat, end: nat, native: bool)
    requires Tiled(a, p, end, native) && |a| == |b| && forall i :: p <= i < |a| ==> a[i] == b[i]
    ensures Tiled(b, p, end, native) && UdCells(b, p, end, native) == UdCells(a, p, end, native)
    decreases end - p
  {
    hide Short;
    if p < end {
      SdLayout.ShortKept(a, b, p + 14, native);
      TiledKept(a, b, SdLayout.Align4(RecEnd(a, p, native)), end, native);
    }
  }

  /** The length fields say the same in the turned body, read the other way. */
  lemma {:induction false} TiledTurned(a: seq<Byte>, b: seq<Byte>, p: nat, end: nat, native: bool)
    requires Tiled(a, p, end, native) && |a| == |b|
    requires forall c :: c in UdCells(a, p, end, native) ==> c.p + c.w <= |a| && Mirrored(a, b, c)
    ensures Tiled(b, p, end, !native) && UdCells(b, p, end, !native) == UdCells(a, p, end, native)
    decreases end - p
  {
    hide Short, Row, Mirrored;
    if p < end {
      assert Cell(p + 14, 2) in UdCells(a, p, end, native);
      MirroredShort(a, b, p + 14, native);
      TiledTurned(a, b, SdLayout.Align4(RecEnd(a, p, native)), end, native);
    }
  }

  // ----- what the records say -----

  /** The fields of struct uind2; yomi[0] is the length of the reading, and `rest` its characters behind
      the fourth, which follow from yomi[1] on. */
  datatype UdRecord = UdRecord(next: nat, serial: nat, kanjipter: nat, kosuu: nat, length: nat, rest: WText)

  /** The record at p says this in a byte order. */
  ghost predicate UdReads(b: seq<Byte>, p: nat, native: bool, r: UdRecord) {
    && p + 16 + 2 * |r.rest| <= |b|
    && Long(b, p, native) == r.next && Long(b, p + 4, native) == r.serial && Long(b, p + 8, native) == r.kanjipter
    && Short(b, p + 12, native) == r.kosuu && Short(b, p + 14, native) == r.length
    && |r.rest| == (if r.length <= 4 then 0 else r.length - 4)
    && forall k :: 0 <= k < |r.rest| ==> Short(b, p + 16 + 2 * k, native) == r.rest[k]
  }

  /** From p to end the body says these records; each starts at the next multiple of four. */
  ghost predicate BodyReads(b: seq<Byte>, p: nat, end: nat, native: bool, rs: seq<UdRecord>)
    decreases |rs|
  {
    if rs == [] then p >= end
    else p < end && UdReads(b, p, native, rs[0]) && BodyReads(b, SdLayout.Align4(p + 16 + 2 * |rs[0].rest|), end, native, rs[1..])
  }

  /** Does byte i belong to one of the records? */
  ghost predicate InRecords(p: nat, rs: seq<UdRecord>, i: int)
    decreases |rs|
  {
    rs != [] && (p <= i < p + 16 + 2 * |rs[0].rest| || InRecords(SdLayout.Align4(p + 16 + 2 * |rs[0].rest|), rs[1..], i))
  }

  /** Every body with records one behind the other says something. */
  lemma {:induction false} TiledReads(b: seq<Byte>, p: nat, end: nat, native: bool) returns (rs: seq<UdRecord>)
    requires Tiled(b, p, end, native)
    ensures BodyReads(b, p, end, native, rs)
    decreases end - p
  {
    hide UdReads, Short, Long;
    rs := [];
    if p < end {
      var r := RecordReads(b, p, native);
      var more := TiledReads(b, SdLayout.Align4(RecEnd(b, p, native)), end, native);
      rs := [r] + more;
    }
  }

  lemma RecordReads(b: seq<Byte>, p: nat, native: bool) returns (r: UdRecord)
    requires p + 16 <= |b| && RecEnd(b, p, native) <= |b|
    ensures UdReads(b, p, native, r) && p + 16 + 2 * |r.rest| == RecEnd(b, p, native)
  {
    hide Short, Long;
    var len := Short(b, p + 14, native);
    var rest := seq(Extra(len), k requires 0 <= k < Extra(len) => Short(b, p + 16 + 2 * k, native));
    r := UdRecord(Long(b, p, native), Long(b, p + 4, native), Long(b, p + 8, native), Short(b, p + 12, native), len, rest);
  }

  lemma RecordTurned(a: seq<Byte>, b: seq<Byte>, p: nat, native: bool, r: UdRecord)
    requires UdReads(a, p, native, r) && |a| == |b|
    requires forall c :: c in RecCells(p, |r.rest|) ==> c.p + c.w <= |a| && Mirrored(a, b, c)
    ensures UdReads(b, p, !native, r)
  {
    hide Mirrored, Short, Long;
    MirroredLong(a, b, p, native);
    MirroredLong(a, b, p + 4, native);
    MirroredLong(a, b, p + 8, native);
    MirroredShort(a, b, p + 12, native);
    MirroredShort(a, b, p + 14, native);
    forall k | 0 <= k < |r.rest| ensures Short(b, p + 16 + 2 * k, !native) == r.rest[k] {
      assert Cell(p + 16 + 2 * k, 2) in Row(p + 16, 2, |r.rest|);
      MirroredShort(a, b, p + 16 + 2 * k, native);
    }
  }

  lemma {:induction false} BodyTurned(a: seq<Byte>, b: seq<Byte>, p: nat, end: nat, native: bool, rs: seq<UdRecord>)
    requires BodyReads(a, p, end, native, rs) && Tiled(a, p, end, native) && |a| == |b|
    requires forall c :: c in UdCells(a, p, end, native) ==> c.p + c.w <= |a| && Mirrored(a, b, c)
    ensures BodyReads(b, p, end, !native, rs)
    decreases |rs|
  {
    hide Mirrored, Short, Long, RecCells;
    if rs != [] {
      RecordTurned(a, b, p, native, rs[0]);
      BodyTurned(a, b, SdLayout.Align4(p + 16 + 2 * |rs[0].rest|), end, native, rs[1..]);
    }
  }

  lemma {:induction false} CellsInRecords(b: seq<Byte>, p: nat, end: nat, native: bool, rs: seq<UdRecord>, i: int)
    requires BodyReads(b, p, end, native, rs) && Tiled(b, p, end, native) && Covered(UdCells(b, p, end, native), i)
    ensures InRecords(p, rs, i)
    decreases |rs|
  {
    hide Short, Long, RecCells;
    if rs != [] {
      RecCellsBounds(p, |rs[0].rest|);
      var c :| c in UdCells(b, p, end, native) && c.p <= i < c.p + c.w;
      if c !in RecCells(p, |rs[0].rest|) {
        CellsInRecords(b, SdLayout.Align4(p + 16 + 2 * |rs[0].rest|), end, native, rs[1..], i);
      }
    }
  }

  /** A turned body says in the other order what it said, and nothing outside its records changed. */
  lemma BodySaysTheSame(a: seq<Byte>, b: seq<Byte>, p: nat, end: nat, native: bool, rs: seq<UdRecord>)
    requires BodyReads(a, p, end, native, rs) && Tiled(a, p, end, native) && Turned(a, b, UdCells(a, p, end, native))
    ensures BodyReads(b, p, end, !native, rs) && |a| == |b|
    ensures forall i :: 0 <= i < |a| && !InRecords(p, rs, i) ==> b[i] == a[i]
  {
    hide BodyReads, InRecords, UdCells, Tiled, Mirrored;
    BodyTurned(a, b, p, end, native, rs);
    forall i | 0 <= i < |a| && !InRecords(p, rs, i) ensures b[i] == a[i] {
      if Covered(UdCells(a, p, end, native), i) { CellsInRecords(a, p, end, native, rs, i); }
    }
  }

  /** rev_ud_hontai: the records from offset 4 on. */
  method RevUdHontai(b: array<Byte>, maxhontai: nat, native: bool)
    requires Tiled(b[..], 4, maxhontai, native)
    modifies b
    ensures Turned(old(b[..]), b[..], UdCells(old(b[..]), 4, maxhontai, native))
    ensures Tiled(b[..], 4, maxhontai, !native)
    ensures forall rs :: BodyReads(old(b[..]), 4, maxhontai, native, rs) ==>
              && BodyReads(b[..], 4, maxhontai, !native, rs)
              && forall i :: 0 <= i < b.Length && !InRecords(4, rs, i) ==> b[i] == old(b[i])
    ensures UdCells(b[..], 4, maxhontai, !native) == UdCells(old(b[..]), 4, maxhontai, native)
  {
    hide Turned, RecCells, Short, RecEnd, BodyReads, InRecords;
    ghost var a := b[..];
    TurnedNothing(a);
    var hop := 4;
    ghost var done: set<Cell> := {};
    while hop < maxhontai
      invariant Tiled(a, hop, maxhontai, native) && UdCells(a, 4, maxhontai, native) == done + UdCells(a, hop, maxhontai, native)
      invariant Turned(a, b[..], done) && forall c :: c in done ==> c.p + c.w <= hop
      decreases maxhontai - hop
    {
      ghost var a1, p := b[..], hop;
      BehindKept(a, a1, done, hop);
      TiledKept(a, a1, hop, maxhontai, native);
      SdLayout.ShortKept(a, a1, hop + 14, native);
      ghost var extra := Extra(Short(a, hop + 14, native));
      SameEnd(a, a1, hop, native);
      hop := RevUdRecord(b, hop, native);
      RecCellsBounds(p, extra);
      AddCells(a, a1, b[..], done, RecCells(p, extra), p);
      done := done + RecCells(p, extra);
    }
    AllTurned(a, b[..], done);
    TiledTurned(a, b[..], 4, maxhontai, native);
    forall rs | BodyReads(a, 4, maxhontai, native, rs)
      ensures BodyReads(b[..], 4, maxhontai, !native, rs) && forall i :: 0 <= i < |a| && !InRecords(4, rs, i) ==> b[..][i] == a[i]
    {
      BodySaysTheSame(a, b[..], 4, maxhontai, native, rs);
    }
  }

  lemma SameEnd(a: seq<Byte>, b: seq<Byte>, p: nat, native: bool)
    requires p + 16 <= |a| == |b| && Short(a, p + 14, native) == Short(b, p + 14, native)
    ensures RecEnd(a, p, native) == RecEnd(b, p, native) == p + 16 + 2 * Extra(Short(a, p + 14, native))
  {
  }

  lemma AllTurned(a: seq<Byte>, b: seq<Byte>, cells: set<Cell>)
    requires Turned(a, b, cells)
    ensures |a| == |b| && forall c :: c in cells ==> c.p + c.w <= |a| && Mirrored(a, b, c)
  {
  }

  /** There and back, whichever order the body comes in. */
  method UdThereAndBack(b: array<Byte>, maxhontai: nat, native: bool)
    requires Tiled(b[..], 4, maxhontai, native)
    modifies b
    ensures b[..] == old(b[..])
  {
    hide Turned, Tiled, UdCells;
    ghost var a := b[..];
    RevUdHontai(b, maxhontai, native);
    ghost var a1 := b[..];
    RevUdHontai(b, maxhontai, !native);
    TurnedTwice(a, a1, b[..], UdCells(a, 4, maxhontai, native));
  }

  // ----- the pool of kanji records -----

  /** Records follow each other by their length bytes until end, or until a length of zero. */
  ghost predicate Chained(b: seq<Byte>, p: nat, end: nat)
    requires end <= |b|
    decreases end - p
  {
    p < end && b[p] != 0 ==> p + b[p] <= |b| && Chained(b, p + b[p], end)
  }

  /** The characters of a record of len bytes, behind its two header bytes. */
  function CharCount(len: Byte): nat {
    if len < 2 then 0 else len / 2 - 1
  }

  ghost function PoolCells(b: seq<Byte>, p: nat, end: nat): set<Cell>
    requires end <= |b| && Chained(b, p, end)
    decreases end - p
  {
    if p >= end || b[p] == 0 then {} else Row(p + 2, 2, CharCount(b[p])) + PoolCells(b, p + b[p], end)
  }

  lemma {:induction false} ChainKept(a: seq<Byte>, b: seq<Byte>, p: nat, end: nat)
    requires end <= |a| == |b| && Chained(a, p, end) && forall i :: p <= i < |a| ==> a[i] == b[i]
    ensures Chained(b, p, end) && PoolCells(b, p, end) == PoolCells(a, p, end)
    decreases end - p
  {
    if p < end && a[p] != 0 {
      ChainKept(a, b, p + a[p], end);
    }
  }

  lemma {:induction false} PoolCellsBehind(b: seq<Byte>, p: nat, end: nat)
    requires end <= |b| && Chained(b, p, end)
    ensures forall c :: c in PoolCells(b, p, end) ==> p + 2 <= c.p
    decreases end - p
  {
    hide Row;
    if p < end && b[p] != 0 {
      RowBehind(p + 2, CharCount(b[p]));
      PoolCellsBehind(b, p + b[p], end);
    }
  }

  /** Lengths are single bytes and stay where they are. */
  lemma {:induction false} ChainTurned(a: seq<Byte>, b: seq<Byte>, x: set<Cell>, p: nat, end: nat)
    requires end <= |a| && Chained(a, p, end) && Turned(a, b, x + PoolCells(a, p, end))
    requires forall c :: c in x ==> c.p + c.w <= p
    ensures Chained(b, p, end) && PoolCells(b, p, end) == PoolCells(a, p, end)
    decreases end - p
  {
    hide Row, Mirrored;
    if p < end {
      PoolCellsBehind(a, p, end);
      assert !Covered(x + PoolCells(a, p, end), p);
      if a[p] != 0 {
        var y := Row(p + 2, 2, CharCount(a[p]));
        RowBehind(p + 2, CharCount(a[p]));
        assert x + PoolCells(a, p, end) == (x + y) + PoolCells(a, p + a[p], end);
        ChainTurned(a, b, x + y, p + a[p], end);
      }
    }
  }

  /** Does the walk over the lengths from p meet a record at q? */
  ghost predicate Met(b: seq<Byte>, p: nat, end: nat, q: nat)
    requires end <= |b|
    decreases end - p
  {
    p < end && b[p] != 0 && (q == p || Met(b, p + b[p], end, q))
  }

  /** The record at q, of L bytes, keeps its first two bytes; each two bytes behind them that lie in the
      record change places. */
  ghost predicate CharsTurned(a: seq<Byte>, b: seq<Byte>, q: nat)
    requires q < |a| == |b|
  {
    var len: int := a[q];
    && b[q] == len && (len >= 2 && q + 1 < |a| ==> b[q + 1] == a[q + 1])
    && forall k :: 0 <= k && 2 + 2 * k + 2 <= len && q + 2 + 2 * k + 2 <= |a| ==>
         b[q + 2 + 2 * k] == a[q + 2 + 2 * k + 1] && b[q + 2 + 2 * k + 1] == a[q + 2 + 2 * k]
  }

  /** Byte i is half of a character of the record at q. */
  ghost predicate OfChar(b: seq<Byte>, q: nat, i: int)
    requires q < |b|
  {
    q + 2 <= i && (if (i - q) % 2 == 0 then i + 2 else i + 1) <= q + b[q]
  }

  lemma RowTurns(a: seq<Byte>, b: seq<Byte>, q: nat)
    requires q < |a| == |b| && q + a[q] <= |a| && a[q] != 0
    requires forall c :: c in Row(q + 2, 2, CharCount(a[q])) ==> c.p + c.w <= |a| && Mirrored(a, b, c)
    requires b[q] == a[q] && (a[q] >= 2 ==> b[q + 1] == a[q + 1])
    ensures CharsTurned(a, b, q)
  {
    hide Mirrored;
    var len: int := a[q];
    forall k | 0 <= k && 2 + 2 * k + 2 <= len
      ensures b[q + 2 + 2 * k] == a[q + 2 + 2 * k + 1] && b[q + 2 + 2 * k + 1] == a[q + 2 + 2 * k]
    {
      var c := Cell(q + 2 + 2 * k, 2);
      assert c in Row(q + 2, 2, CharCount(a[q]));
      MirrorAt(a, b, c, c.p);
      MirrorAt(a, b, c, c.p + 1);
    }
  }

  /** A turned pool, record by record. */
  lemma {:induction false} PoolTurned(a: seq<Byte>, b: seq<Byte>, x: set<Cell>, p: nat, end: nat, q: nat)
    requires end <= |a| && Chained(a, p, end) && Turned(a, b, x + PoolCells(a, p, end))
    requires (forall c :: c in x ==> c.p + c.w <= p) && Met(a, p, end, q)
    ensures p <= q < end && CharsTurned(a, b, q)
    decreases end - p
  {
    hide Row, Mirrored, CharsTurned;
    var y := Row(p + 2, 2, CharCount(a[p]));
    RowBehind(p + 2, CharCount(a[p]));
    PoolCellsBehind(a, p + a[p], end);
    assert x + PoolCells(a, p, end) == (x + y) + PoolCells(a, p + a[p], end);
    if q == p {
      HeadKept(a, b, x + PoolCells(a, p, end), p);
      RowTurns(a, b, p);
    } else {
      PoolTurned(a, b, x + y, p + a[p], end, q);
    }
  }

  lemma HeadKept(a: seq<Byte>, b: seq<Byte>, cells: set<Cell>, p: nat)
    requires Turned(a, b, cells) && p < |a| && (a[p] >= 2 ==> p + 1 < |a|)
    requires forall c :: c in cells ==> c.p + c.w <= p || p + 2 <= c.p || (a[p] < 2 && p + 1 <= c.p)
    ensures b[p] == a[p] && (a[p] >= 2 ==> b[p + 1] == a[p + 1])
  {
    assert !Covered(cells, p);
    assert a[p] >= 2 ==> !Covered(cells, p + 1);
  }

  lemma {:induction false} OtherBytesKept(a: seq<Byte>, p: nat, end: nat, i: int)
    requires end <= |a| && Chained(a, p, end) && Covered(PoolCells(a, p, end), i)
    ensures exists q: nat :: Met(a, p, end, q) && p <= q < end && OfChar(a, q, i)
    decreases end - p
  {
    hide Chained, Row;
    ChainStep(a, p, end);
    var c :| c in PoolCells(a, p, end) && c.p <= i < c.p + c.w;
    if c in Row(p + 2, 2, CharCount(a[p])) {
      RowCell(p, a[p], c);
      assert Met(a, p, end, p) && OfChar(a, p, i);
    } else {
      OtherBytesKept(a, p + a[p], end, i);
      var q: nat :| Met(a, p + a[p], end, q) && p + a[p] <= q < end && OfChar(a, q, i);
      assert Met(a, p, end, q);
    }
  }

  lemma ChainStep(a: seq<Byte>, p: nat, end: nat)
    requires end <= |a| && Chained(a, p, end)
    ensures p < end && a[p] != 0 ==> p + a[p] <= |a| && Chained(a, p + a[p], end)
  {
  }

  lemma RowCell(p: nat, len: Byte, c: Cell)
    requires c in Row(p + 2, 2, CharCount(len))
    ensures c.w == 2 && p + 2 <= c.p && (c.p - p) % 2 == 0 && c.p + 2 <= p + len
  {
  }

  /** rev_kanji. */
  method RevKanji(b: array<Byte>, maxk: nat)
    requires maxk <= b.Length && Chained(b[..], 0, maxk)
    modifies b
    ensures Turned(old(b[..]), b[..], PoolCells(old(b[..]), 0, maxk))
    ensures Chained(b[..], 0, maxk) && PoolCells(b[..], 0, maxk) == PoolCells(old(b[..]), 0, maxk)
    ensures forall q: nat :: Met(old(b[..]), 0, maxk, q) ==> q < maxk && CharsTurned(old(b[..]), b[..], q)
    ensures forall i :: 0 <= i < b.Length && b[i] != old(b[i]) ==>
              exists q: nat :: Met(old(b[..]), 0, maxk, q) && q < maxk && OfChar(old(b[..]), q, i)
  {
    hide Turned, Row, Met, CharsTurned, OfChar;
    ghost var a := b[..];
    TurnedNothing(a);
    var kpter := 0;
    ghost var done: set<Cell> := {};
    while kpter < maxk && b[kpter] != 0
      invariant Chained(a, kpter, maxk) && PoolCells(a, 0, maxk) == done + PoolCells(a, kpter, maxk)
      invariant Turned(a, b[..], done) && forall c :: c in done ==> c.p + c.w <= kpter
      invariant |a| == b.Length && forall i :: kpter <= i < |a| ==> b[i] == a[i]
      decreases maxk - kpter
    {
      ghost var a1, p, n := b[..], kpter, CharCount(b[kpter]);
      RevWChar(b, kpter + 2, CharCount(b[kpter]));
      RowBehind(p + 2, n);
      AddCells(a, a1, b[..], done, Row(p + 2, 2, n), p);
      done := done + Row(p + 2, 2, n);
      BehindKept(a, b[..], done, p + if n == 0 then 0 else 2 * n + 2);
      SamePlace(a, b[..], done, p);
      kpter := kpter + b[kpter];
    }
    assert {} + PoolCells(a, 0, maxk) == PoolCells(a, 0, maxk);
    ChainTurned(a, b[..], {}, 0, maxk);
    forall q: nat | Met(a, 0, maxk, q) ensures q < maxk && CharsTurned(a, b[..], q) {
      PoolTurned(a, b[..], {}, 0, maxk, q);
    }
    forall i | 0 <= i < |a| && b[..][i] != a[i] ensures exists q: nat :: Met(a, 0, maxk, q) && q < maxk && OfChar(a, q, i) {
      ChangedIsCovered(a, b[..], PoolCells(a, 0, maxk), i);
      OtherBytesKept(a, 0, maxk, i);
    }
  }

  lemma ChangedIsCovered(a: seq<Byte>, b: seq<Byte>, cells: set<Cell>, i: nat)
    requires Turned(a, b, cells) && i < |a| && b[i] != a[i]
    ensures Covered(cells, i)
  {
  }

  lemma SamePlace(a: seq<Byte>, b: seq<Byte>, x: set<Cell>, p: nat)
    requires Turned(a, b, x) && p < |a| && forall c :: c in x ==> c.p + c.w <= p || p < c.p
    ensures b[p] == a[p]
  {
    assert !Covered(x, p);
  }

  /** Turning the pool twice restores it. */
  method PoolThereAndBack(b: array<Byte>, maxk: nat)
    requires maxk <= b.Length && Chained(b[..], 0, maxk)
    modifies b
    ensures b[..] == old(b[..])
  {
    hide Turned, Chained, PoolCells;
    ghost var a := b[..];
    RevKanji(b, maxk);
    ghost var a1 := b[..];
    RevKanji(b, maxk);
    TurnedTwice(a, a1, b[..], PoolCells(a, 0, maxk));
  }
}
