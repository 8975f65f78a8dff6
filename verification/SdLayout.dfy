/** The node tree of a static dictionary's body, in a byte buffer (Wnn/etc/revdic.c:182-279,
    Wnn/jserver/jishosub.c:161-296). Positions are offsets from the start of the body. */
module SdLayout {
  import opened WString
  import opened ByteOrder
  import opened Jdata

  const ST_NORMAL := 1
  const ST_NOENT := 2
  const ST_NOPTER := 3
  const ST_SMALL := 4

  /** What a node holds besides its children: its first serial and the place of its first word's
      record, the characters, and how many of its words come up to each character. */
  datatype Form =
    | Normal(serial: nat, kanji: nat, chars: WText, sums: WText)
    | NoPter(serial: nat, kanji: nat, chars: WText, sums: WText)
    | NoEnt(chars: WText)
    | Small(ch: WChar)
    | Other(state: WChar)

  /** A child is absent where its pointer is ENDPTR. */
  datatype Node = Absent | Node(at: nat, form: Form, kids: seq<Node>)

  function Chars(f: Form): WText {
    match f
    case Small(ch) => [ch]
    case Other(_) => []
    case _ => f.chars
  }

  function StateOf(f: Form): WChar {
    match f
    case Normal(_, _, _, _) => ST_NORMAL
    case NoPter(_, _, _, _) => ST_NOPTER
    case NoEnt(_) => ST_NOENT
    case Small(_) => ST_SMALL
    case Other(state) => state
  }

  function Align4(n: nat): (a: nat)
    ensures n <= a < n + 4 && a % 4 == 0
  {
    (n + 3) / 4 * 4
  }

  /** The places of a node's fields. */
  function CharSt(at: nat, f: Form): nat {
    if f.Normal? || f.NoPter? then at + 12 else at + 4
  }

  function SumSt(at: nat, tsize: nat): nat {
    at + 12 + 2 * (tsize + 2)
  }

  function PtrSt(at: nat, f: Form): nat {
    var tsize := |Chars(f)|;
    if f.Normal? then SumSt(at, tsize) + 2 * tsize else Align4(at + 4 + 2 * tsize)
  }

  /** Where a node ends. */
  function End(at: nat, f: Form): (e: nat)
    ensures at <= e
  {
    var tsize := |Chars(f)|;
    match f
    case Normal(_, _, _, _) => PtrSt(at, f) + 4 * tsize
    case NoPter(_, _, _, _) => SumSt(at, tsize) + 2 * tsize
    case NoEnt(_) => PtrSt(at, f) + 4 * tsize
    case Small(_) => at + 4
    case Other(_) => at + 2
  }

  // ----- well-formed trees -----

  /** One child a character where there are children; that of a small node follows it. */
  ghost predicate Shape(t: Node)
    requires t.Node?
  {
    match t.form
    case Normal(_, _, chars, sums) => |t.kids| == |sums| == |chars| < 0x1_0000 && PointersTell(t.kids)
    case NoPter(_, _, chars, sums) => t.kids == [] && |sums| == |chars| < 0x1_0000
    case NoEnt(chars) => |t.kids| == |chars| < 0x1_0000 && PointersTell(t.kids)
    case Small(_) => |t.kids| == 1 && t.kids[0].Node? && t.kids[0].at == t.at + 4
    case Other(state) => t.kids == [] && state !in {ST_NORMAL, ST_NOENT, ST_NOPTER, ST_SMALL}
  }

  /** No child lies where its pointer would say that there is none. */
  ghost predicate PointersTell(kids: seq<Node>) {
    forall k :: 0 <= k < |kids| ==> kids[k].Node? ==> kids[k].at != ENDPTR
  }

  /** Is byte i part of the node itself? */
  predicate Own(t: Node, i: int)
    requires t.Node?
  {
    t.at <= i < End(t.at, t.form)
  }

  /** Is byte i part of the node or of anything below it? */
  ghost predicate Occupies(t: Node, i: int) {
    t.Node? && (Own(t, i) || exists k :: 0 <= k < |t.kids| && Occupies(t.kids[k], i))
  }

  ghost predicate Disjoint(t: Node, u: Node) {
    forall i :: Occupies(t, i) ==> !Occupies(u, i)
  }

  /** Nodes in disjoint byte ranges of a buffer of n bytes. */
  ghost predicate Laid(t: Node, n: nat) {
    t.Node? ==>
      && Shape(t) && End(t.at, t.form) <= n
      && (forall k :: 0 <= k < |t.kids| ==> Laid(t.kids[k], n))
      && (forall k, i :: 0 <= k < |t.kids| && Occupies(t.kids[k], i) ==> !Own(t, i))
      && (forall j, k :: 0 <= j < |t.kids| && 0 <= k < |t.kids| && j != k ==> Disjoint(t.kids[j], t.kids[k]))
  }

  // ----- what the bytes say -----

  ghost predicate ShortsAre(b: seq<Byte>, p: nat, w: WText, native: bool)
    requires p + 2 * |w| <= |b|
  {
    forall k :: 0 <= k < |w| ==> Short(b, p + 2 * k, native) == w[k]
  }

  ghost predicate PointersAre(b: seq<Byte>, p: nat, kids: seq<Node>, native: bool)
    requires p + 4 * |kids| <= |b|
  {
    forall k :: 0 <= k < |kids| ==> Long(b, p + 4 * k, native) == if kids[k].Absent? then ENDPTR else kids[k].at
  }

  /** The bytes at a node hold its fields, in the host's byte order or the other one. */
  ghost predicate NodeReads(b: seq<Byte>, t: Node, native: bool)
    requires t.Node? && Shape(t) && End(t.at, t.form) <= |b|
  {
    var f, tsize := t.form, |Chars(t.form)|;
    && Short(b, t.at, native) == StateOf(f)
    && (f.Normal? || f.NoPter? || f.NoEnt? ==> Short(b, t.at + 2, native) == tsize)
    && (f.Small? ==> Short(b, t.at + 2, native) == f.ch)
    && (f.Normal? || f.NoPter? || f.NoEnt? ==> ShortsAre(b, CharSt(t.at, f), f.chars, native))
    && (f.Normal? || f.NoPter? ==>
          && Long(b, t.at + 4, native) == f.serial && Long(b, t.at + 8, native) == f.kanji
          && ShortsAre(b, SumSt(t.at, tsize), f.sums, native)
          && b[SumSt(t.at, tsize) - 2] == b[SumSt(t.at, tsize) - 1] == 0)
    && (f.Normal? || f.NoEnt? ==> PointersAre(b, PtrSt(t.at, f), t.kids, native))
  }

  ghost predicate Reads(b: seq<Byte>, t: Node, native: bool)
    requires Laid(t, |b|)
  {
    t.Node? ==> NodeReads(b, t, native) && forall k :: 0 <= k < |t.kids| ==> Reads(b, t.kids[k], native)
  }

  ghost predicate Agree(a: seq<Byte>, b: seq<Byte>, t: Node) {
    |a| == |b| && forall i :: Occupies(t, i) && 0 <= i < |a| ==> a[i] == b[i]
  }

  lemma ShortKept(a: seq<Byte>, b: seq<Byte>, p: nat, native: bool)
    requires p + 2 <= |a| == |b| && a[p] == b[p] && a[p + 1] == b[p + 1]
    ensures Short(a, p, native) == Short(b, p, native)
  {
  }

  lemma LongKept(a: seq<Byte>, b: seq<Byte>, p: nat, native: bool)
    requires p + 4 <= |a| == |b| && a[p] == b[p] && a[p + 1] == b[p + 1] && a[p + 2] == b[p + 2] && a[p + 3] == b[p + 3]
    ensures Long(a, p, native) == Long(b, p, native)
  {
  }

  lemma ShortsKept(a: seq<Byte>, b: seq<Byte>, p: nat, w: WText, native: bool)
    requires p + 2 * |w| <= |a| == |b| && ShortsAre(a, p, w, native)
    requires forall i :: p <= i < p + 2 * |w| ==> a[i] == b[i]
    ensures ShortsAre(b, p, w, native)
  {
    hide Short;
    forall k | 0 <= k < |w| ensures Short(b, p + 2 * k, native) == w[k] {
      ShortKept(a, b, p + 2 * k, native);
    }
  }

  lemma PointersKept(a: seq<Byte>, b: seq<Byte>, p: nat, kids: seq<Node>, native: bool)
    requires p + 4 * |kids| <= |a| == |b| && PointersAre(a, p, kids, native)
    requires forall i :: p <= i < p + 4 * |kids| ==> a[i] == b[i]
    ensures PointersAre(b, p, kids, native)
  {
    hide Long;
    forall k | 0 <= k < |kids| ensures Long(b, p + 4 * k, native) == if kids[k].Absent? then ENDPTR else kids[k].at {
      LongKept(a, b, p + 4 * k, native);
    }
  }

  lemma NodeKept(a: seq<Byte>, b: seq<Byte>, t: Node, native: bool)
    requires t.Node? && Shape(t) && End(t.at, t.form) <= |a| == |b| && NodeReads(a, t, native)
    requires forall i :: t.at <= i < End(t.at, t.form) ==> a[i] == b[i]
    ensures NodeReads(b, t, native)
  {
    hide Short, Long, ShortsAre, PointersAre;
    var f, tsize := t.form, |Chars(t.form)|;
    ShortKept(a, b, t.at, native);
    if !f.Other? {
      ShortKept(a, b, t.at + 2, native);
    }
    if f.Normal? || f.NoPter? || f.NoEnt? {
      ShortsKept(a, b, CharSt(t.at, f), f.chars, native);
    }
    if f.Normal? || f.NoPter? {
      LongKept(a, b, t.at + 4, native);
      LongKept(a, b, t.at + 8, native);
      ShortsKept(a, b, SumSt(t.at, tsize), f.sums, native);
    }
    if f.Normal? || f.NoEnt? {
      PointersKept(a, b, PtrSt(t.at, f), t.kids, native);
    }
  }

  lemma {:induction false} ReadsKept(a: seq<Byte>, b: seq<Byte>, t: Node, native: bool)
    requires Laid(t, |a|) && Reads(a, t, native) && Agree(a, b, t)
    ensures Laid(t, |b|) && Reads(b, t, native)
  {
    hide NodeReads, Shape;
    if t.Node? {
      forall i | t.at <= i < End(t.at, t.form) ensures a[i] == b[i] { assert Occupies(t, i); }
      NodeKept(a, b, t, native);
      forall k | 0 <= k < |t.kids| ensures Reads(b, t.kids[k], native) {
        forall i | Occupies(t.kids[k], i) ensures Occupies(t, i) { }
        ReadsKept(a, b, t.kids[k], native);
      }
    }
  }

  // ----- unfolding -----

  /** Can what is below t be read? */
  ghost predicate BelowReads(b: seq<Byte>, t: Node, native: bool)
    requires t.Node? && Laid(t, |b|)
  {
    forall k :: 0 <= k < |t.kids| ==> Reads(b, t.kids[k], native)
  }

  lemma Unfold(a: seq<Byte>, t: Node, native: bool)
    requires t.Node? && Laid(t, |a|) && Reads(a, t, native)
    ensures Shape(t) && End(t.at, t.form) <= |a| && NodeReads(a, t, native) && BelowReads(a, t, native)
  {
  }

  lemma KidsLaid(t: Node, n: nat)
    requires t.Node? && Laid(t, n)
    ensures Shape(t) && End(t.at, t.form) <= n && forall k :: 0 <= k < |t.kids| ==> Laid(t.kids[k], n)
  {
  }

  lemma PointerTells(b: seq<Byte>, t: Node, k: nat)
    requires t.Node? && Shape(t) && (t.form.Normal? || t.form.NoEnt?) && k < |t.kids|
    requires End(t.at, t.form) <= |b| && NodeReads(b, t, true)
    ensures PtrSt(t.at, t.form) + 4 * k + 4 <= |b|
    ensures Long(b, PtrSt(t.at, t.form) + 4 * k, true) == if t.kids[k].Absent? then ENDPTR else t.kids[k].at
    ensures t.kids[k].Node? ==> t.kids[k].at != ENDPTR
  {
    hide Long, Short, ShortsAre;
  }
}
