/** The pool of word records behind a dictionary (Wnn/etc/bdic.c, `kanji` and `maxkanji` of
    `struct JT`), byte by byte.

    A record is a length byte, a state byte and then zero-terminated texts of 16-bit characters:
    the reading (when the state says HAS_YOMI), the kanji, and the comment (HAS_COMMENT). Reading
    and kanji are stored last character first. A record whose comment outgrew its place is
    FORWARDED: four bytes behind its header then give the distance to its replacement. */
module KanjiPool {
  import opened WString

  type Byte = x: int | 0 <= x < 256

  const HAS_YOMI := 1
  const HAS_COMMENT := 2
  const FORWARDED := 4

  /** What a record says, as stored. */
  datatype Rec = Rec(yomi: WText, kanji: WText, comment: WText)

  ghost predicate PlainRec(r: Rec) {
    0 !in r.yomi && 0 !in r.kanji && 0 !in r.comment
  }

  // ----- the layout -----

  ghost function StateOf(r: Rec): Byte {
    (if r.yomi != [] then HAS_YOMI else 0) + (if r.comment != [] then HAS_COMMENT else 0)
  }

  predicate HasYomi(state: Byte) { state % 2 == 1 }

  predicate HasComment(state: Byte) { state / 2 % 2 == 1 }

  predicate IsForwarded(state: Byte) { state / 4 % 2 == 1 }

  ghost function Opt(t: WText): WText {
    if t != [] then t + [0] else []
  }

  ghost function Strings(r: Rec): WText {
    Opt(r.yomi) + (r.kanji + [0]) + Opt(r.comment)
  }

  ghost function RecLen(r: Rec): (n: nat)
    ensures n >= 4
  {
    2 + 2 * |Strings(r)|
  }

  /** The 16-bit character at p, low byte first. */
  function CharAt(b: seq<Byte>, p: nat): WChar
    requires p + 2 <= |b|
  {
    var lo: int, hi: int := b[p], b[p + 1];
    lo + 256 * hi
  }

  function CharsAt(b: seq<Byte>, p: nat, n: nat): (w: WText)
    requires p + 2 * n <= |b|
    ensures |w| == n && forall k :: 0 <= k < n ==> w[k] == CharAt(b, p + 2 * k)
  {
    seq(n, k requires 0 <= k < n => CharAt(b, p + 2 * k))
  }

  // ----- what a record in the pool says -----

  function YomiEnd(state: Byte, body: WText): nat {
    if HasYomi(state) then |TextAt(body, 0)| + 1 else 0
  }

  predicate WellFormed(state: Byte, body: WText) {
    && (HasYomi(state) ==> Terminated(body, 0))
    && Terminated(body, YomiEnd(state, body))
    && YomiEnd(state, body) <= |body|
    && (HasComment(state) ==> Terminated(body, KanjiEnd(state, body)))
  }

  function KanjiEnd(state: Byte, body: WText): nat
    requires YomiEnd(state, body) <= |body|
  {
    YomiEnd(state, body) + |TextAt(body, YomiEnd(state, body))| + 1
  }

  ghost function Parse(state: Byte, body: WText): Rec
    requires WellFormed(state, body)
  {
    TextAtExtent(body, YomiEnd(state, body));
    Rec(if HasYomi(state) then TextAt(body, 0) else [],
        TextAt(body, YomiEnd(state, body)),
        if HasComment(state) then TextAt(body, KanjiEnd(state, body)) else [])
  }

  ghost predicate PlainAt(b: seq<Byte>, p: nat) {
    && p + 2 <= |b| && 2 <= b[p] && p + b[p] <= |b|
    && !IsForwarded(b[p + 1])
    && WellFormed(b[p + 1], CharsAt(b, p + 2, (b[p] - 2) / 2))
  }

  ghost function RecAt(b: seq<Byte>, p: nat): Rec
    requires PlainAt(b, p)
  {
    Parse(b[p + 1], CharsAt(b, p + 2, (b[p] - 2) / 2))
  }

  function Target(b: seq<Byte>, p: nat): nat
    requires p + 6 <= |b|
  {
    p + CharAt(b, p + 2) * 0x1_0000 + CharAt(b, p + 4)
  }

  ghost predicate ForwardedAt(b: seq<Byte>, p: nat) {
    p + 6 <= |b| && 6 <= b[p] && p + b[p] <= |b| && IsForwarded(b[p + 1])
  }

  /** p is the header of a record that can be read, through at most one forwarding. */
  ghost predicate HeaderAt(b: seq<Byte>, p: nat) {
    PlainAt(b, p) || (ForwardedAt(b, p) && p + b[p] <= Target(b, p) && PlainAt(b, Target(b, p)))
  }

  ghost function Home(b: seq<Byte>, p: nat): nat
    requires HeaderAt(b, p)
  {
    if PlainAt(b, p) then p else Target(b, p)
  }

  ghost function Fetch(b: seq<Byte>, p: nat): Rec
    requires HeaderAt(b, p)
  {
    RecAt(b, Home(b, p))
  }

  // ----- packing and reading back -----

  ghost predicate Packed(b: seq<Byte>, p: nat, r: Rec) {
    && p + RecLen(r) <= |b|
    && b[p] == RecLen(r) % 256 && b[p + 1] == StateOf(r)
    && CharsAt(b, p + 2, |Strings(r)|) == Strings(r)
  }

  /** The bytes of a packed record: its length, 1 for a reading and 2 for a comment, then the texts, each
      character with its low byte first. */
  lemma PackedBytes(b: seq<Byte>, p: nat, r: Rec)
    requires Packed(b, p, r)
    ensures var texts := (if r.yomi == [] then [] else r.yomi + [0]) + (r.kanji + [0]) + (if r.comment == [] then [] else r.comment + [0]);
            && p + 2 + 2 * |texts| <= |b| && b[p] == (2 + 2 * |texts|) % 256
            && b[p + 1] == (if r.yomi == [] then 0 else 1) + (if r.comment == [] then 0 else 2)
            && forall k :: 0 <= k < |texts| ==> b[p + 2 + 2 * k] == texts[k] % 256 && b[p + 2 + 2 * k + 1] == texts[k] / 256
  {
    var texts := Strings(r);
    forall k | 0 <= k < |texts| ensures b[p + 2 + 2 * k] == texts[k] % 256 && b[p + 2 + 2 * k + 1] == texts[k] / 256 {
      var lo: int, hi: int := b[p + 2 + 2 * k], b[p + 2 + 2 * k + 1];
      assert CharsAt(b, p + 2, |texts|)[k] == lo + 256 * hi;
    }
  }

  /** A text followed by its terminator, anywhere in a buffer. */
  lemma TextInside(a: WText, t: WText, c: WText)
    requires 0 !in t
    ensures var s := a + (t + [0]) + c; Terminated(s, |a|) && TextAt(s, |a|) == t
  {
    hide TextAt, Terminated;
    var s := a + (t + [0]) + c;
    forall k | 0 <= k < |t| ensures s[|a| + k] == t[k] {
      assert s[|a| + k] == (t + [0])[k];
    }
    assert s[|a| + |t|] == (t + [0])[|t|];
    TextAtSpelled(s, |a|, t);
  }

  lemma YomiInStrings(r: Rec)
    requires PlainRec(r) && r.yomi != []
    ensures Terminated(Strings(r), 0) && TextAt(Strings(r), 0) == r.yomi
  {
    TextInside([], r.yomi, (r.kanji + [0]) + Opt(r.comment));
    assert Strings(r) == [] + (r.yomi + [0]) + ((r.kanji + [0]) + Opt(r.comment));
  }

  lemma CommentInStrings(r: Rec)
    requires PlainRec(r) && r.comment != []
    ensures var k := |Opt(r.yomi)| + |r.kanji| + 1; Terminated(Strings(r), k) && TextAt(Strings(r), k) == r.comment
  {
    var a := Opt(r.yomi) + (r.kanji + [0]);
    TextInside(a, r.comment, []);
    assert Strings(r) == a + (r.comment + [0]) + [];
  }

  lemma StateFlags(r: Rec)
    ensures HasYomi(StateOf(r)) <==> r.yomi != []
    ensures HasComment(StateOf(r)) <==> r.comment != []
    ensures !IsForwarded(StateOf(r))
  {
  }

  lemma ParseStrings(r: Rec)
    requires PlainRec(r)
    ensures WellFormed(StateOf(r), Strings(r)) && Parse(StateOf(r), Strings(r)) == r
    ensures YomiEnd(StateOf(r), Strings(r)) == |Opt(r.yomi)|
    ensures KanjiEnd(StateOf(r), Strings(r)) == |Opt(r.yomi)| + |r.kanji| + 1
  {
    hide TextAt, Terminated, StateOf;
    StateFlags(r);
    if r.yomi != [] { YomiInStrings(r); }
    TextInside(Opt(r.yomi), r.kanji, Opt(r.comment));
    assert YomiEnd(StateOf(r), Strings(r)) == |Opt(r.yomi)|;
    if r.comment != [] { CommentInStrings(r); }
  }

  /** A record cut short is not a record: its last terminator is missing. */
  lemma CutIsIllFormed(r: Rec, m: nat)
    requires PlainRec(r) && m < |Strings(r)|
    ensures !WellFormed(StateOf(r), Strings(r)[..m])
  {
    hide WellFormed, Parse, YomiEnd, KanjiEnd;
    ParseStrings(r);
    StateFlags(r);
    if WellFormed(StateOf(r), Strings(r)[..m]) {
      TextsInside(StateOf(r), Strings(r)[..m], Strings(r));
    }
  }

  /** The texts of a record that can be read from t end inside t, whatever stands behind it. */
  lemma TextsInside(st: Byte, t: WText, s: WText)
    requires WellFormed(st, t) && t <= s
    ensures WellFormed(st, s) && YomiEnd(st, s) <= |s|
    ensures KanjiEnd(st, s) + (if HasComment(st) then |Parse(st, s).comment| + 1 else 0) <= |t|
  {
    hide TextAt, Terminated;
    if HasYomi(st) { SamePrefixText(t, s, 0); }
    SamePrefixText(t, s, YomiEnd(st, t));
    assert YomiEnd(st, s) == YomiEnd(st, t);
    if HasComment(st) { SamePrefixText(t, s, KanjiEnd(st, t)); }
  }

  lemma SamePrefixText(t: WText, s: WText, i: nat)
    requires t <= s && Terminated(t, i)
    ensures i <= |t| && Terminated(s, i) && TextAt(s, i) == TextAt(t, i)
    ensures i + |TextAt(t, i)| < |t|
  {
    TextAtExtent(t, i);
    var z := i + |TextAt(t, i)|;
    TextAtPrefix(s, i, z);
    assert s[i..z] == t[i..z];
  }

  /** A packed record reads back, if and only if its length fits the length byte. */
  lemma PackedReadsBack(b: seq<Byte>, p: nat, r: Rec)
    requires PlainRec(r) && Packed(b, p, r)
    ensures PlainAt(b, p) <==> RecLen(r) <= 255
    ensures RecLen(r) <= 255 ==> RecAt(b, p) == r
    ensures HeaderAt(b, p) <==> RecLen(r) <= 255
  {
    hide WellFormed, Parse, Strings, CharsAt, StateOf, Target;
    StateFlags(r);
    if RecLen(r) <= 255 {
      ParseStrings(r);
    } else if b[p] >= 2 {
      var m := (b[p] - 2) / 2;
      WordsCut(b, p + 2, m, |Strings(r)|);
      CutIsIllFormed(r, m);
    }
  }

  lemma WordsCut(b: seq<Byte>, p: nat, m: nat, n: nat)
    requires p + 2 * n <= |b| && m <= n
    ensures CharsAt(b, p, m) == CharsAt(b, p, n)[..m]
  {
  }

  /** Only the bytes of its own blocks determine what a header says. */
  lemma PlainFrame(b: seq<Byte>, c: seq<Byte>, p: nat)
    requires PlainAt(b, p) && p + b[p] <= |c|
    requires forall i :: p <= i < p + b[p] ==> c[i] == b[i]
    ensures PlainAt(c, p) && RecAt(c, p) == RecAt(b, p)
  {
    assert CharsAt(c, p + 2, (b[p] - 2) / 2) == CharsAt(b, p + 2, (b[p] - 2) / 2);
  }

  ghost predicate Within(b: seq<Byte>, p: nat, i: int)
    requires HeaderAt(b, p)
  {
    p <= i < p + b[p] || Home(b, p) <= i < Home(b, p) + b[Home(b, p)]
  }

  lemma FetchFrame(b: seq<Byte>, c: seq<Byte>, p: nat)
    requires HeaderAt(b, p)
    requires forall i :: Within(b, p, i) ==> i < |c| && c[i] == b[i]
    ensures HeaderAt(c, p) && Fetch(c, p) == Fetch(b, p)
    ensures Home(c, p) == Home(b, p)
    ensures forall i :: Within(c, p, i) <==> Within(b, p, i)
  {
    var h := Home(b, p);
    assert Within(b, p, p) && Within(b, p, p + b[p] - 1) && Within(b, p, h + b[h] - 1);
    PlainFrame(b, c, h);
    if h != p {
      assert Within(b, p, p + 1) && Within(b, p, p + 2) && Within(b, p, p + 3) && Within(b, p, p + 4) && Within(b, p, p + 5);
      assert Target(c, p) == Target(b, p);
    }
  }

  /** Two headers share no byte. */
  ghost predicate Apart(b: seq<Byte>, p: nat, q: nat)
    requires HeaderAt(b, p) && HeaderAt(b, q)
  {
    forall i :: !(Within(b, p, i) && Within(b, q, i))
  }

  // ----- writing -----

  ghost predicate Untouched(d: seq<Byte>, e: seq<Byte>, from: int, to: int) {
    |d| == |e| && forall i :: 0 <= i < |d| && !(from <= i < to) ==> d[i] == e[i]
  }

  ghost predicate Spells(b: seq<Byte>, p: nat, w: WText) {
    p + 2 * |w| <= |b| && forall k :: 0 <= k < |w| ==> CharAt(b, p + 2 * k) == w[k]
  }

  lemma SpellsMore(b: seq<Byte>, p: nat, w: WText, v: WText)
    requires Spells(b, p, w) && Spells(b, p + 2 * |w|, v)
    ensures Spells(b, p, w + v)
  {
    forall k | 0 <= k < |w + v| ensures CharAt(b, p + 2 * k) == (w + v)[k] {
      if k >= |w| {
        assert CharAt(b, (p + 2 * |w|) + 2 * (k - |w|)) == v[k - |w|];
      }
    }
  }

  lemma SpellsFrame(b: seq<Byte>, c: seq<Byte>, p: nat, w: WText, from: int, to: int)
    requires Spells(b, p, w) && Untouched(b, c, from, to) && (p + 2 * |w| <= from || to <= p)
    ensures Spells(c, p, w)
  {
    forall k | 0 <= k < |w| ensures CharAt(c, p + 2 * k) == w[k] {
      assert CharAt(b, p + 2 * k) == w[k];
    }
  }

  method PutChar(d: array<Byte>, p: nat, c: WChar)
    requires p + 2 <= d.Length
    modifies d
    ensures CharAt(d[..], p) == c
    ensures Untouched(old(d[..]), d[..], p, p + 2)
  {
    d[p], d[p + 1] := c % 256, c / 256;
  }

  /** *dest++ = *pt++ until the terminator. */
  method PutText(d: array<Byte>, dest: nat, t: WText)
    requires dest + 2 * |t| <= d.Length
    modifies d
    ensures Spells(d[..], dest, t)
    ensures Untouched(old(d[..]), d[..], dest, dest + 2 * |t|)
  {
    var k := 0;
    while k < |t|
      invariant 0 <= k <= |t|
      invariant Spells(d[..], dest, t[..k])
      invariant Untouched(old(d[..]), d[..], dest, dest + 2 * k)
    {
      ghost var b := d[..];
      PutChar(d, dest + 2 * k, t[k]);
      SpellsFrame(b, d[..], dest, t[..k], dest + 2 * k, dest + 2 * k + 2);
      SpellsMore(d[..], dest, t[..k], [t[k]]);
      assert t[..k + 1] == t[..k] + [t[k]];
      k := k + 1;
    }
    assert t[..k] == t;
  }

  /** *dest++ = *pt-- from the last character down to the first. */
  method PutReversed(d: array<Byte>, dest: nat, t: WText)
    requires dest + 2 * |t| <= d.Length
    modifies d
    ensures Spells(d[..], dest, Reverse(t))
    ensures Untouched(old(d[..]), d[..], dest, dest + 2 * |t|)
  {
    var k, pt := 0, |t| - 1;
    while pt >= 0
      invariant -1 <= pt < |t| && k == |t| - 1 - pt
      invariant Spells(d[..], dest, Reverse(t[pt + 1..]))
      invariant Untouched(old(d[..]), d[..], dest, dest + 2 * k)
    {
      ghost var b, w := d[..], Reverse(t[pt + 1..]);
      PutChar(d, dest + 2 * k, t[pt]);
      SpellsFrame(b, d[..], dest, w, dest + 2 * k, dest + 2 * k + 2);
      SpellsMore(d[..], dest, w, [t[pt]]);
      assert t[pt..][1..] == t[pt + 1..];
      k, pt := k + 1, pt - 1;
    }
    assert t[pt + 1..] == t;
  }

  lemma UntouchedTwice(b0: seq<Byte>, b1: seq<Byte>, b2: seq<Byte>, p: int, q: int)
    requires Untouched(b0, b1, p, q) && Untouched(b1, b2, q, q + 2) && p <= q
    ensures Untouched(b0, b2, p, q + 2)
  {
  }

  lemma OneChar(b: seq<Byte>, p: nat, c: WChar)
    requires p + 2 <= |b| && CharAt(b, p) == c
    ensures Spells(b, p, [c])
  {
  }

  /** The record that the arguments of kanjiaddr spell. */
  ghost function Spelled(kanji: WText, yomi: WText, comment: WText): Rec {
    Rec(Reverse(yomi), Reverse(kanji), comment)
  }

  /** Writes one text and its terminator behind the characters already written from p. */
  method PutField(d: array<Byte>, p: nat, dest: nat, t: WText, reversed: bool, ghost sofar: WText)
    requires Spells(d[..], p, sofar) && dest == p + 2 * |sofar| && dest + 2 * (|t| + 1) <= d.Length
    modifies d
    ensures Spells(d[..], p, sofar + ((if reversed then Reverse(t) else t) + [0]))
    ensures Untouched(old(d[..]), d[..], dest, dest + 2 * (|t| + 1))
  {
    hide CharAt, Spells, Untouched, Reverse;
    ghost var b0, u := d[..], if reversed then Reverse(t) else t;
    if reversed {
      PutReversed(d, dest, t);
    } else {
      PutText(d, dest, t);
    }
    ghost var b1 := d[..];
    PutChar(d, dest + 2 * |t|, 0);
    ghost var b2 := d[..];
    UntouchedTwice(b0, b1, b2, dest, dest + 2 * |t|);
    assert Spells(b2, dest + 2 * |u|, [0]) by { OneChar(b2, dest + 2 * |u|, 0); }
    SpellsFrame(b1, b2, dest, u, dest + 2 * |t|, dest + 2 * |t| + 2);
    SpellsMore(b2, dest, u, [0]);
    SpellsFrame(b0, b2, p, sofar, dest, dest + 2 * (|t| + 1));
    SpellsMore(b2, p, sofar, u + [0]);
  }

  /** The texts of a record, each with its terminator, from p on. */
  method PutFields(d: array<Byte>, p: nat, kanji: WText, yomi: WText, comment: WText) returns (dest: nat, state: Byte)
    requires p + 2 * |Strings(Spelled(kanji, yomi, comment))| <= d.Length
    modifies d
    ensures Spells(d[..], p, Strings(Spelled(kanji, yomi, comment)))
    ensures dest == p + 2 * |Strings(Spelled(kanji, yomi, comment))| && state == StateOf(Spelled(kanji, yomi, comment))
    ensures Untouched(old(d[..]), d[..], p, dest)
  {
    ghost var r := Spelled(kanji, yomi, comment);
    dest, state := p, 0;
    if yomi != [] {
      PutField(d, p, dest, yomi, true, []);
      assert [] + (r.yomi + [0]) == Opt(r.yomi);
      dest, state := dest + 2 * (|yomi| + 1), state + HAS_YOMI;
    }
    PutField(d, p, dest, kanji, true, Opt(r.yomi));
    dest := dest + 2 * (|kanji| + 1);
    ghost var k := Opt(r.yomi) + (r.kanji + [0]);
    if comment != [] {
      PutField(d, p, dest, comment, false, k);
      dest, state := dest + 2 * (|comment| + 1), state + HAS_COMMENT;
    }
    assert r.comment == [] ==> k == Strings(r);
  }

  /** Packs one record at d0 and returns its length byte (Wnn/etc/bdic.c:980-1034). */
  method Kanjiaddr(d: array<Byte>, d0: nat, kanji: WText, yomi: WText, comment: WText) returns (len: Byte)
    requires d0 + RecLen(Spelled(kanji, yomi, comment)) <= d.Length
    modifies d
    ensures Packed(d[..], d0, Spelled(kanji, yomi, comment))
    ensures len == RecLen(Spelled(kanji, yomi, comment)) % 256
    ensures Untouched(old(d[..]), d[..], d0, d0 + RecLen(Spelled(kanji, yomi, comment)))
  {
    ghost var w := Strings(Spelled(kanji, yomi, comment));
    var dest, state := PutFields(d, d0 + 2, kanji, yomi, comment);
    ghost var b := d[..];
    len := (dest - d0) % 256;
    d[d0], d[d0 + 1] := len, state;
    SpellsFrame(b, d[..], d0 + 2, w, d0, d0 + 2);
    assert CharsAt(d[..], d0 + 2, |w|) == w;
  }

  // ----- reading -----

  ghost function Counted(b: seq<Byte>, h: nat): WText
    requires h + 2 <= |b| && 2 <= b[h] && h + b[h] <= |b|
  {
    CharsAt(b, h + 2, (b[h] - 2) / 2)
  }

  /** Everything behind the header at h. Reading goes on until a terminator: nothing asks the length
      byte where a record ends. */
  function Rest(b: seq<Byte>, h: nat): WText
    requires h + 2 <= |b|
  {
    CharsAt(b, h + 2, (|b| - h - 2) / 2)
  }

  /** Can a record be read from p without leaving the buffer? Forwardings are followed as often as
      they come. */
  predicate Readable(b: seq<Byte>, p: nat)
    decreases |b| - p
  {
    && p + 2 <= |b|
    && if IsForwarded(b[p + 1]) then p + 6 <= |b| && p < Target(b, p) && Readable(b, Target(b, p))
       else WellFormed(b[p + 1], Rest(b, p))
  }

  /** The header behind all forwardings. */
  function Found(b: seq<Byte>, p: nat): (h: nat)
    requires Readable(b, p)
    ensures p <= h && h + 2 <= |b| && !IsForwarded(b[h + 1]) && WellFormed(b[h + 1], Rest(b, h))
    decreases |b| - p
  {
    if IsForwarded(b[p + 1]) then Found(b, Target(b, p)) else p
  }

  ghost function Said(b: seq<Byte>, p: nat): Rec
    requires Readable(b, p)
  {
    Parse(b[Found(b, p) + 1], Rest(b, Found(b, p)))
  }

  /** The text from p up to its terminator; p is the i-th character behind a header at h. */
  method ReadText(d: array<Byte>, p: nat, ghost h: nat, ghost i: nat) returns (t: WText)
    requires h + 2 <= d.Length && p == h + 2 + 2 * i && Terminated(Rest(d[..], h), i)
    ensures t == TextAt(Rest(d[..], h), i)
  {
    hide Terminated, TextAt;
    ghost var body := Rest(d[..], h);
    var q := p;
    TextAtExtent(body, i);
    ghost var z := i + |TextAt(body, i)|;
    t := [];
    ghost var k := i;
    while CharAt(d[..], q) != 0
      invariant i <= k <= z && q == h + 2 + 2 * k && q + 2 <= d.Length
      invariant t == body[i..k]
      decreases z - k
    {
      assert body[k] == CharAt(d[..], q);
      t := t + [CharAt(d[..], q)];
      q, k := q + 2, k + 1;
    }
    assert body[k] == CharAt(d[..], q);
    assert k == z by { assert body[k] !in body[i..z]; }
  }

  /** The places of a record's kanji, reading and comment; -1 stands for C's static empty
      text (Wnn/etc/bdic.c:878-911). */
  method GetKanjiStrR(d: array<Byte>, kptr: nat) returns (tmpk: nat, tmpy: int, tmpc: int)
    requires Readable(d[..], kptr)
    ensures var b := d[..]; var h := Found(b, kptr);
            && tmpy == (if HasYomi(b[h + 1]) then h + 2 else -1)
            && tmpk == h + 2 + 2 * YomiEnd(b[h + 1], Rest(b, h))
            && tmpc == (if HasComment(b[h + 1]) then h + 2 + 2 * KanjiEnd(b[h + 1], Rest(b, h)) else -1)
    decreases d.Length - kptr
  {
    hide Terminated, TextAt, CharsAt;
    var state := d[kptr + 1];
    if IsForwarded(state) {
      var adres: nat := CharAt(d[..], kptr + 2) * 0x1_0000 + CharAt(d[..], kptr + 4);
      tmpk, tmpy, tmpc := GetKanjiStrR(d, kptr + adres);
      return;
    }
    ghost var rest := Rest(d[..], kptr);
    if HasYomi(state) {
      var y := ReadText(d, kptr + 2, kptr, 0);
      tmpy, tmpk := kptr + 2, kptr + 2 + 2 * (|y| + 1);
    } else {
      tmpy, tmpk := -1, kptr + 2;
    }
    if HasComment(state) {
      var k := ReadText(d, tmpk, kptr, YomiEnd(state, rest));
      tmpc := tmpk + 2 * (|k| + 1);
    } else {
      tmpc := -1;
    }
  }

  /** The three texts of a record as stored. */
  method GetTexts(d: array<Byte>, kptr: nat) returns (k: WText, y: WText, c: WText)
    requires Readable(d[..], kptr)
    ensures Said(d[..], kptr) == Rec(y, k, c)
  {
    hide Readable, YomiEnd, KanjiEnd, TextAt, CharsAt, Terminated;
    var tmpk, tmpy, tmpc := GetKanjiStrR(d, kptr);
    ghost var h := Found(d[..], kptr);
    ghost var st, rest := d[h + 1], Rest(d[..], h);
    k, y, c := [], [], [];
    k := ReadText(d, tmpk, h, YomiEnd(st, rest));
    if tmpy != -1 {
      y := ReadText(d, tmpy, h, 0);
    }
    if tmpc != -1 {
      c := ReadText(d, tmpc, h, KanjiEnd(st, rest));
    }
  }

  /** Reads a record back in normal order (Wnn/etc/bdic.c:852-875). */
  method GetKanjiStr(d: array<Byte>, kptr: nat) returns (kanji: WText, yomi: WText, comment: WText)
    requires Readable(d[..], kptr)
    ensures Said(d[..], kptr) == Spelled(kanji, yomi, comment)
  {
    hide Readable, Said;
    var k, y, c := GetTexts(d, kptr);
    ReverseReverse(k);
    ReverseReverse(y);
    return Reverse(k), Reverse(y), c;
  }

  /** What stands behind a record does not change what it says. */
  lemma ParseMore(st: Byte, body: WText, rest: WText)
    requires WellFormed(st, body) && body <= rest
    ensures WellFormed(st, rest) && Parse(st, rest) == Parse(st, body)
    ensures HasComment(st) ==> YomiEnd(st, rest) <= |rest| && KanjiEnd(st, rest) == KanjiEnd(st, body)
  {
    hide TextAt, Terminated;
    if HasYomi(st) { SamePrefixText(body, rest, 0); }
    SamePrefixText(body, rest, YomiEnd(st, body));
    assert YomiEnd(st, rest) == YomiEnd(st, body);
    if HasComment(st) { SamePrefixText(body, rest, KanjiEnd(st, body)); }
  }

  lemma WordsMore(b: seq<Byte>, full: seq<Byte>, p: nat, n: nat, m: nat)
    requires b <= full && p + 2 * n <= |b| && p + 2 * m <= |full| && n <= m
    ensures CharsAt(b, p, n) <= CharsAt(full, p, m)
  {
  }

  lemma PlainIsReadable(b: seq<Byte>, full: seq<Byte>, h: nat)
    requires PlainAt(b, h) && b <= full
    ensures Readable(full, h) && Found(full, h) == h && Said(full, h) == RecAt(b, h)
    ensures HasComment(b[h + 1]) ==> KanjiEnd(b[h + 1], Rest(full, h)) == KanjiEnd(b[h + 1], Counted(b, h))
  {
    hide WellFormed, Parse, CharsAt;
    WordsMore(b, full, h + 2, (b[h] - 2) / 2, (|full| - h - 2) / 2);
    ParseMore(b[h + 1], Counted(b, h), Rest(full, h));
  }

  /** A header that is legible inside the pool is read as it says. */
  lemma LegibleIsReadable(b: seq<Byte>, full: seq<Byte>, p: nat)
    requires HeaderAt(b, p) && b <= full
    ensures Readable(full, p) && Found(full, p) == Home(b, p) && Said(full, p) == Fetch(b, p)
  {
    hide WellFormed, Parse, CharsAt, PlainAt;
    PlainIsReadable(b, full, Home(b, p));
    if Home(b, p) != p {
      TargetFrame(b, full, p);
      StateOfPlain(b, p);
    }
  }

  lemma StateOfPlain(b: seq<Byte>, p: nat)
    ensures PlainAt(b, p) ==> !ForwardedAt(b, p)
  {
  }

  /** A packed record is read back whatever its length, as long as nothing is written over it. */
  lemma PackedIsRead(b: seq<Byte>, p: nat, r: Rec)
    requires PlainRec(r) && Packed(b, p, r)
    ensures Readable(b, p) && Found(b, p) == p && Said(b, p) == r
  {
    SpeltIsRead(b, p, r);
  }

  lemma SpeltIsRead(b: seq<Byte>, p: nat, r: Rec)
    requires PlainRec(r) && p + RecLen(r) <= |b| && b[p + 1] == StateOf(r)
    requires CharsAt(b, p + 2, |Strings(r)|) == Strings(r)
    ensures Readable(b, p) && Found(b, p) == p && Said(b, p) == r
  {
    hide WellFormed, Parse, CharsAt, Strings;
    StateFlags(r);
    ParseStrings(r);
    WordsMore(b, b, p + 2, |Strings(r)|, (|b| - p - 2) / 2);
    ParseMore(StateOf(r), Strings(r), Rest(b, p));
  }

  lemma HomeIsPlain(b: seq<Byte>, p: nat)
    requires HeaderAt(b, p)
    ensures PlainAt(b, Home(b, p)) && Fetch(b, p) == RecAt(b, Home(b, p))
    ensures Home(b, p) != p ==> ForwardedAt(b, p) && p + b[p] <= Home(b, p)
  {
  }

  lemma ParseIsPlain(st: Byte, body: WText)
    requires WellFormed(st, body)
    ensures PlainRec(Parse(st, body))
  {
    TextAtExtent(body, YomiEnd(st, body));
    if HasYomi(st) { TextAtExtent(body, 0); }
    if HasComment(st) { TextAtExtent(body, KanjiEnd(st, body)); }
  }

  lemma FetchIsPlain(b: seq<Byte>, p: nat)
    requires HeaderAt(b, p)
    ensures PlainRec(Fetch(b, p))
  {
    hide HeaderAt, Home, Fetch, WellFormed, Parse;
    HomeIsPlain(b, p);
    var h := Home(b, p);
    ParseIsPlain(b[h + 1], Counted(b, h));
  }

  // ----- records packed one after another -----

  /** n records stand back to back from p on. */
  ghost predicate Row(b: seq<Byte>, p: nat, n: nat)
    decreases n
  {
    n > 0 ==> HeaderAt(b, p) && Row(b, p + b[p], n - 1)
  }

  /** The header reached by stepping over k records. */
  ghost function Step(b: seq<Byte>, p: nat, k: nat): (q: nat)
    requires Row(b, p, k)
    decreases k
  {
    if k == 0 then p else Step(b, p + b[p], k - 1)
  }

  lemma {:induction false} RowAt(b: seq<Byte>, p: nat, n: nat, k: nat)
    requires Row(b, p, n) && k < n
    ensures Row(b, p, k) && HeaderAt(b, Step(b, p, k))
    ensures Row(b, p, k + 1) && Step(b, p, k + 1) == Step(b, p, k) + b[Step(b, p, k)]
    decreases k
  {
    if k > 0 {
      RowAt(b, p + b[p], n - 1, k - 1);
    }
  }

  lemma HeaderBytes(b: seq<Byte>, p: nat)
    requires HeaderAt(b, p)
    ensures p + 2 <= |b| && 2 <= b[p] && p + b[p] <= |b|
  {
  }

  /** Fetches record number kanji2 of a row (Wnn/etc/bdic.c:839-850). */
  method GetKnj2(d: array<Byte>, kptr0: nat, kanji2: nat) returns (kouho: WText, yomi: WText, comment: WText)
    requires Row(d[..], kptr0, kanji2 + 1)
    ensures Row(d[..], kptr0, kanji2) && HeaderAt(d[..], Step(d[..], kptr0, kanji2))
    ensures Fetch(d[..], Step(d[..], kptr0, kanji2)) == Spelled(kouho, yomi, comment)
  {
    RowAt(d[..], kptr0, kanji2 + 1, kanji2);
    var kptr := Skip(d, kptr0, kanji2);
    LegibleIsReadable(d[..], d[..], kptr);
    kouho, yomi, comment := GetKanjiStr(d, kptr);
  }

  /** kptr += *kptr, n times. */
  method Skip(d: array<Byte>, kptr0: nat, n: nat) returns (kptr: nat)
    requires Row(d[..], kptr0, n)
    ensures kptr == Step(d[..], kptr0, n)
  {
    ghost var b := d[..];
    kptr := kptr0;
    var tcnt := 0;
    while tcnt < n
      invariant 0 <= tcnt <= n
      invariant Row(b, kptr0, tcnt) && kptr == Step(b, kptr0, tcnt)
    {
      RowAt(b, kptr0, n, tcnt);
      HeaderBytes(b, kptr);
      kptr := kptr + d[kptr];
      tcnt := tcnt + 1;
    }
  }

  ghost predicate PackedRow(b: seq<Byte>, p: nat, rs: seq<Rec>)
    decreases |rs|
  {
    rs != [] ==>
      && PlainRec(rs[0]) && RecLen(rs[0]) <= 255 && Packed(b, p, rs[0])
      && PackedRow(b, p + RecLen(rs[0]), rs[1..])
  }

  /** Fetching the k-th of a row of packed records returns the k-th word. */
  lemma {:induction false} FetchPacked(b: seq<Byte>, p: nat, rs: seq<Rec>, k: nat)
    requires PackedRow(b, p, rs) && k < |rs|
    ensures Row(b, p, |rs|) && Row(b, p, k)
    ensures HeaderAt(b, Step(b, p, k)) && Fetch(b, Step(b, p, k)) == rs[k]
    decreases |rs|
  {
    hide HeaderAt, Fetch, Packed, RecLen, PlainRec;
    PackedFetch(b, p, rs[0]);
    var p1 := p + b[p];
    if |rs| > 1 {
      FetchPacked(b, p1, rs[1..], if k == 0 then 0 else k - 1);
    }
    assert Row(b, p1, |rs| - 1);
  }

  lemma PackedFetch(b: seq<Byte>, p: nat, r: Rec)
    requires PlainRec(r) && Packed(b, p, r) && RecLen(r) <= 255
    ensures HeaderAt(b, p) && Fetch(b, p) == r && Home(b, p) == p
    ensures p < |b| && b[p] == RecLen(r)
  {
    hide CharsAt, Strings, Parse, WellFormed, StateOf, Target;
    PackedReadsBack(b, p, r);
  }

  // ----- the pool of one dictionary -----

  lemma MorePool(b: seq<Byte>, c: seq<Byte>, p: nat)
    requires HeaderAt(b, p) && b <= c
    ensures HeaderAt(c, p) && Fetch(c, p) == Fetch(b, p) && Home(c, p) == Home(b, p)
    ensures forall i :: Within(c, p, i) <==> Within(b, p, i)
  {
    FetchFrame(b, c, p);
  }

  /** Cutting the pool behind a record does not change whether it can be read. */
  lemma LessPool(b: seq<Byte>, c: seq<Byte>, p: nat)
    requires c <= b && p < |b| && p + b[p] <= |c|
    ensures PlainAt(c, p) <==> PlainAt(b, p)
    ensures PlainAt(b, p) ==> RecAt(c, p) == RecAt(b, p)
  {
    if p + 2 <= |c| && 2 <= b[p] {
      assert CharsAt(c, p + 2, (b[p] - 2) / 2) == CharsAt(b, p + 2, (b[p] - 2) / 2);
    }
  }

  lemma SameText(s: WText, t: WText, i: nat)
    requires Terminated(s, i) && |t| == |s|
    requires forall j :: i <= j <= i + |TextAt(s, i)| && j < |s| ==> t[j] == s[j]
    ensures Terminated(t, i) && TextAt(t, i) == TextAt(s, i)
  {
    TextAtExtent(s, i);
    var z := i + |TextAt(s, i)|;
    assert t[i..z] == s[i..z];
    TextAtPrefix(t, i, z);
  }

  lemma SameFront(st: Byte, body: WText, body1: WText, e: nat)
    requires WellFormed(st, body) && |body1| == |body| && e == KanjiEnd(st, body) <= |body|
    requires body1[..e] == body[..e]
    ensures HasYomi(st) ==> Terminated(body1, 0) && TextAt(body1, 0) == TextAt(body, 0)
    ensures YomiEnd(st, body1) == YomiEnd(st, body)
    ensures Terminated(body1, YomiEnd(st, body)) && TextAt(body1, YomiEnd(st, body)) == TextAt(body, YomiEnd(st, body))
  {
    TextAtExtent(body, YomiEnd(st, body));
    forall j | 0 <= j < e ensures body1[j] == body[j] {
      assert body1[..e][j] == body[..e][j];
    }
    if HasYomi(st) {
      TextAtExtent(body, 0);
      SameText(body, body1, 0);
    }
    SameText(body, body1, YomiEnd(st, body));
  }

  lemma CommentThere(body: WText, e: nat, comment: WText)
    requires 0 !in comment && e + |comment| < |body| && body[e..e + |comment|] == comment && body[e + |comment|] == 0
    ensures Terminated(body, e) && TextAt(body, e) == comment
  {
    TextAtPrefix(body, e, e + |comment|);
  }

  /** Writing a shorter comment over the old one changes the comment and nothing else. */
  lemma ShorterCommentParsed(st: Byte, body: WText, body1: WText, e: nat, comment: WText)
    requires WellFormed(st, body) && HasComment(st) && 0 !in comment
    requires |body1| == |body| && e == KanjiEnd(st, body) && e + |comment| < |body|
    requires body1[..e] == body[..e] && body1[e..e + |comment|] == comment && body1[e + |comment|] == 0
    ensures WellFormed(st, body1) && Parse(st, body1) == Parse(st, body).(comment := comment)
  {
    hide TextAt, Terminated;
    SameFront(st, body, body1, e);
    CommentThere(body1, e, comment);
  }

  lemma BodyPatched(b: seq<Byte>, c: seq<Byte>, h: nat, e: nat, comment: WText)
    requires h + 2 <= |b| && 2 <= b[h] && h + b[h] <= |b| && e + |comment| < |Counted(b, h)|
    requires Spells(c, h + 2 + 2 * e, comment + [0])
    requires Untouched(b, c, h + 2 + 2 * e, h + 2 + 2 * e + 2 * (|comment| + 1))
    ensures c[h] == b[h] && c[h + 1] == b[h + 1]
    ensures var w := Counted(c, h);
            w[..e] == Counted(b, h)[..e] && w[e..e + |comment|] == comment && w[e + |comment|] == 0
  {
    var w := Counted(c, h);
    forall j | 0 <= j < e ensures w[j] == Counted(b, h)[j] {
      assert CharAt(c, h + 2 + 2 * j) == CharAt(b, h + 2 + 2 * j);
    }
    forall k | 0 <= k <= |comment| ensures w[e + k] == (comment + [0])[k] {
      assert CharAt(c, (h + 2 + 2 * e) + 2 * k) == (comment + [0])[k];
    }
    assert w[e + |comment|] == (comment + [0])[|comment|];
    forall k | 0 <= k < |comment| ensures w[e..e + |comment|][k] == comment[k] {
      assert w[e + k] == (comment + [0])[k];
    }
  }

  /** Where the comment of a record begins, if it has one. */
  ghost function PlainComment(b: seq<Byte>, h: nat): (at: nat)
    requires PlainAt(b, h)
  {
    h + 2 + 2 * KanjiEnd(b[h + 1], Counted(b, h))
  }

  lemma CommentInPlain(b: seq<Byte>, h: nat)
    requires PlainAt(b, h) && RecAt(b, h).comment != []
    ensures HasComment(b[h + 1])
    ensures PlainComment(b, h) + 2 * (|RecAt(b, h).comment| + 1) <= h + b[h]
  {
    TextAtExtent(Counted(b, h), KanjiEnd(b[h + 1], Counted(b, h)));
  }

  lemma ShorterComment(b: seq<Byte>, c: seq<Byte>, h: nat, comment: WText)
    requires PlainAt(b, h) && 0 !in comment && |comment| < |RecAt(b, h).comment|
    requires Spells(c, PlainComment(b, h), comment + [0])
    requires Untouched(b, c, PlainComment(b, h), PlainComment(b, h) + 2 * (|comment| + 1))
    ensures PlainAt(c, h) && RecAt(c, h) == RecAt(b, h).(comment := comment)
    ensures c[h] == b[h]
  {
    hide Spells, TextAt, CharAt, Terminated, CharsAt;
    CommentInPlain(b, h);
    var e := KanjiEnd(b[h + 1], Counted(b, h));
    BodyPatched(b, c, h, e, comment);
    ShorterCommentParsed(b[h + 1], Counted(b, h), Counted(c, h), e, comment);
  }

  /** Header p of pool b says rec in pool c, and occupies no byte of another header of b. */
  ghost predicate Rewritten(b: seq<Byte>, c: seq<Byte>, p: nat, rec: Rec)
    requires HeaderAt(b, p)
  {
    && HeaderAt(c, p) && Fetch(c, p) == rec
    && forall i :: Within(c, p, i) ==> Within(b, p, i) || |b| <= i < |c|
  }

  /** Every header of b that shares no byte with p still says in c what it said in b. */
  ghost predicate OthersKept(b: seq<Byte>, c: seq<Byte>, p: nat)
    requires HeaderAt(b, p)
  {
    forall q :: HeaderAt(b, q) && Apart(b, p, q) ==> Kept(b, c, q)
  }

  ghost predicate Kept(b: seq<Byte>, c: seq<Byte>, q: nat)
    requires HeaderAt(b, q)
  {
    && HeaderAt(c, q) && Fetch(c, q) == Fetch(b, q)
    && forall i :: Within(c, q, i) <==> Within(b, q, i)
  }

  /** What setting a comment makes of a legible header p: it says rec exactly when fits, and the
      others are as they were when there is room for what is written over p. */
  ghost predicate Recommented(b: seq<Byte>, c: seq<Byte>, p: nat, rec: Rec, fits: bool, room: bool) {
    HeaderAt(b, p) ==>
      && (HeaderAt(c, p) <==> fits)
      && (fits ==> Rewritten(b, c, p, rec))
      && (room ==> OthersKept(b, c, p))
  }

  lemma InPlace(b: seq<Byte>, c: seq<Byte>, p: nat, rec: Rec)
    requires HeaderAt(b, p) ==> Rewritten(b, c, p, rec) && OthersKept(b, c, p)
    ensures Recommented(b, c, p, rec, true, true)
  {
    hide OthersKept, Fetch;
  }

  lemma UntouchedKeepsOthers(b: seq<Byte>, c: seq<Byte>, p: nat)
    requires HeaderAt(b, p) && |b| <= |c|
    requires forall i :: 0 <= i < |b| && !Within(b, p, i) ==> c[i] == b[i]
    ensures OthersKept(b, c, p)
  {
    forall q | HeaderAt(b, q) && Apart(b, p, q) ensures Kept(b, c, q) {
      forall i | Within(b, q, i) ensures i < |c| && c[i] == b[i] {
        assert i < |b|;
      }
      FetchFrame(b, c, q);
    }
  }

  lemma CommentPlace(b: seq<Byte>, p: nat)
    requires HeaderAt(b, p) && Fetch(b, p).comment != []
    ensures HasComment(b[Home(b, p) + 1])
    ensures PlainAt(b, Home(b, p)) && PlainComment(b, Home(b, p)) + 2 * (|Fetch(b, p).comment| + 1) <= Home(b, p) + b[Home(b, p)]
    ensures forall i :: Home(b, p) <= i < Home(b, p) + b[Home(b, p)] ==> Within(b, p, i)
  {
    hide WellFormed, Parse, CharsAt;
    CommentInPlain(b, Home(b, p));
  }

  lemma RewrittenInPlace(b: seq<Byte>, c: seq<Byte>, p: nat, comment: WText, com: nat)
    requires HeaderAt(b, p) && 0 !in comment && |comment| < |Fetch(b, p).comment|
    requires PlainAt(b, Home(b, p)) && com == PlainComment(b, Home(b, p))
    requires Spells(c, com, comment + [0]) && Untouched(b, c, com, com + 2 * (|comment| + 1))
    ensures Rewritten(b, c, p, Fetch(b, p).(comment := comment))
    ensures OthersKept(b, c, p)
  {
    hide Home, Fetch, WellFormed, CharsAt, TextAt, KanjiEnd, YomiEnd, Parse;
    var h := Home(b, p);
    HomeIsPlain(b, p);
    CommentPlace(b, p);
    ShorterComment(b, c, h, comment);
    SameHeader(b, c, p, h);
    HomeIsPlain(c, p);
    UntouchedKeepsOthers(b, c, p);
  }

  lemma SameHeader(b: seq<Byte>, c: seq<Byte>, p: nat, h: nat)
    requires HeaderAt(b, p) && h == Home(b, p) && PlainAt(c, h) && |c| == |b| && c[h] == b[h]
    requires h != p ==> forall i :: p <= i < p + b[p] ==> c[i] == b[i]
    ensures HeaderAt(c, p) && Home(c, p) == h
    ensures forall i :: Within(c, p, i) <==> Within(b, p, i)
  {
    if h != p {
      assert Target(c, p) == Target(b, p);
    }
  }

  /** A record packed at p, seen in the pool that ends where its length byte says it ends. */
  lemma PackedInView(full: seq<Byte>, view: seq<Byte>, p: nat, r: Rec)
    requires PlainRec(r) && Packed(full, p, r) && view <= full && |view| == p + RecLen(r) % 256
    ensures HeaderAt(view, p) <==> RecLen(r) <= 255
    ensures PlainAt(view, p) <==> RecLen(r) <= 255
    ensures RecLen(r) <= 255 ==> Fetch(view, p) == r && Home(view, p) == p && full[p] == RecLen(r)
  {
    hide WellFormed, Parse, Strings, CharsAt;
    PackedReadsBack(full, p, r);
    LessPool(full, view, p);
    StateFlags(r);
  }

  /** What forwarding header p to a record packed at the old end of the pool leaves behind. */
  lemma ForwardedTo(b: seq<Byte>, c: seq<Byte>, p: nat, rec: Rec)
    requires HeaderAt(b, p) && |b| <= |c|
    requires forall i :: 0 <= i < |b| && !(p < i < p + 6) ==> c[i] == b[i]
    requires p + 6 <= |c| && c[p + 1] == FORWARDED && Target(c, p) == |b|
    requires p + 2 <= |b| && 6 <= b[p]
    requires PlainAt(c, |b|) ==> RecAt(c, |b|) == rec && |b| + c[|b|] == |c|
    ensures HeaderAt(c, p) <==> PlainAt(c, |b|)
    ensures PlainAt(c, |b|) ==> Rewritten(b, c, p, rec)
    ensures OthersKept(b, c, p)
  {
    hide WellFormed, Parse;
    HeaderBytes(b, p);
    assert c[p] == b[p] && !PlainAt(c, p);
    assert HeaderAt(c, p) <==> PlainAt(c, |b|);
    if PlainAt(c, |b|) {
      assert Home(c, p) == |b|;
    }
    UntouchedKeepsOthers(b, c, p);
  }

  lemma CommentOffset(b: seq<Byte>, d: seq<Byte>, p: nat)
    requires HeaderAt(b, p) && b <= d && Readable(d, p) && Found(d, p) == Home(b, p)
    ensures PlainAt(b, Home(b, p))
    ensures HasComment(b[Home(b, p) + 1]) ==> CommentAt(d, p) == PlainComment(b, Home(b, p))
  {
    hide WellFormed, Parse, CharsAt, Readable;
    PlainIsReadable(b, d, Home(b, p));
  }

  lemma UntouchedFront(d: seq<Byte>, e: seq<Byte>, from: nat, to: int)
    requires Untouched(d, e, from, to) && from <= |d|
    ensures e[..from] == d[..from]
  {
  }

  lemma SpellsInView(d: seq<Byte>, b: seq<Byte>, p: nat, w: WText)
    requires Spells(d, p, w) && b <= d && p + 2 * |w| <= |b|
    ensures Spells(b, p, w)
  {
    forall k | 0 <= k < |w| ensures CharAt(b, p + 2 * k) == w[k] {
      assert CharAt(d, p + 2 * k) == w[k];
    }
  }

  class RecordPool {
    const kanji: array<Byte>
    var maxkanji: nat
    const keepYomi: bool  // is this the pool of a WNN_REV_DICT dictionary?

    constructor (size: nat, keepYomi: bool)
      requires size < 0x8000_0000
      ensures fresh(kanji) && kanji.Length == size && maxkanji == 0 && this.keepYomi == keepYomi
    {
      kanji := new Byte[size](_ => 0);
      maxkanji := 0;
      this.keepYomi := keepYomi;
    }

    ghost predicate Valid()
      reads this
    {
      maxkanji <= kanji.Length < 0x8000_0000
    }

    ghost function Bytes(): (b: seq<Byte>)
      requires Valid()
      reads this, kanji
    {
      kanji[..maxkanji]
    }

    /** The record under which kanjiadd files these arguments: a user dictionary drops the reading. */
    ghost function Filed(kan: WText, yomi: WText, comment: WText): Rec {
      Spelled(kan, if keepYomi then yomi else [], comment)
    }

    /** Record r was packed behind the pool b; its length modulo 256 was added to the pool. */
    ghost predicate PackedLast(r: Rec, b: seq<Byte>)
      reads this, kanji
    {
      && b <= kanji[..] && PlainRec(r) && Packed(kanji[..], |b|, r)
      && maxkanji == |b| + RecLen(r) % 256
    }

    /** Appends a record (Wnn/jserver/jishoop.c:408-427). What was in the pool stays; the record
        itself can be read if and only if it is no longer than its length byte can say. */
    method Kanjiadd(kan: WText, yomi: WText, comment: WText)
      requires Valid() && 0 !in kan && 0 !in yomi && 0 !in comment
      requires maxkanji + RecLen(Filed(kan, yomi, comment)) <= kanji.Length
      modifies this`maxkanji, kanji
      ensures Valid() && old(Bytes()) <= Bytes()
      ensures maxkanji == old(maxkanji) + RecLen(Filed(kan, yomi, comment)) % 256
      ensures PackedLast(Filed(kan, yomi, comment), old(Bytes()))
      ensures HeaderAt(Bytes(), old(maxkanji)) <==> RecLen(Filed(kan, yomi, comment)) <= 255
      ensures PlainAt(Bytes(), old(maxkanji)) <==> RecLen(Filed(kan, yomi, comment)) <= 255
      ensures RecLen(Filed(kan, yomi, comment)) <= 255 ==>
                && Fetch(Bytes(), old(maxkanji)) == Filed(kan, yomi, comment)
                && Home(Bytes(), old(maxkanji)) == old(maxkanji)
                && kanji[old(maxkanji)] == RecLen(Filed(kan, yomi, comment))
    {
      hide HeaderAt, PlainAt, Packed, RecLen, Fetch, Home;
      ghost var b, d, p, r := Bytes(), kanji[..], maxkanji, Filed(kan, yomi, comment);
      var len := Kanjiaddr(kanji, maxkanji, kan, if keepYomi then yomi else [], comment);
      UntouchedFront(d, kanji[..], p, p + RecLen(r));
      maxkanji := maxkanji + len;
      ReverseKeepsNonzero(kan);
      ReverseKeepsNonzero(yomi);
      PackedInView(kanji[..], Bytes(), p, r);
      assert RecLen(r) <= 255 ==> kanji[p] == RecLen(r);
      assert b == Bytes()[..|b|];
    }

    /** What a record says with another comment. A user dictionary has no readings in its pool, and
        drops one that a record has when it forwards it. */
    ghost function WithComment(r: Rec, comment: WText): Rec {
      Rec(if keepYomi || |r.comment| > |comment| then r.yomi else [], r.kanji, comment)
    }

    /** Does the changed record still have a legible header? Only forwarding can spoil it: when the
        old record is too short for the forwarding address or the new one too long. */
    ghost predicate Forwardable(kptr: nat, comment: WText)
      requires Valid() && Readable(kanji[..], kptr)
      reads this, kanji
    {
      var r := Said(kanji[..], kptr);
      kanji[kptr] >= 6 && RecLen(Filed(Reverse(r.kanji), Reverse(r.yomi), comment)) <= 255
    }

    /** Replaces the comment of the record at kptr, in place when it gets shorter, by forwarding
        to a new record otherwise (Wnn/jserver/jishoop.c:638-659). */
    method CommentSet(kptr: nat, comment: WText) returns (forwarded: bool)
      requires Valid() && Readable(kanji[..], kptr) && kptr + 6 <= kanji.Length && 0 !in comment
      requires var r := Said(kanji[..], kptr);
               maxkanji + (|r.kanji| + |comment| + |r.yomi| + 4) * 2 < kanji.Length
      modifies this`maxkanji, kanji
      ensures Valid() && maxkanji >= old(maxkanji)
      ensures forwarded <==> |old(Said(kanji[..], kptr)).comment| <= |comment|
      ensures CommentWritten(old(kanji[..]), old(maxkanji), kanji[..], maxkanji, kptr, comment, keepYomi)
      ensures forwarded && kptr + 6 <= old(maxkanji) ==>
                kanji[kptr + 1] == FORWARDED && Target(kanji[..], kptr) == old(maxkanji)
      ensures Recommented(old(Bytes()), Bytes(), kptr, WithComment(old(Said(kanji[..], kptr)), comment),
                          forwarded ==> old(Forwardable(kptr, comment)), forwarded ==> old(kanji[kptr]) >= 6)
    {
      hide Recommented, RecLen, Readable, Said, KanjiEnd, CharAt;
      ghost var r := Said(kanji[..], kptr);
      SaidIsPlain(kanji[..], kptr);
      ReverseReverse(r.kanji);
      ReverseReverse(r.yomi);
      var k, y, ocomment := GetKanjiStr(kanji, kptr);
      ReverseReverse(k);
      ReverseReverse(y);
      if |ocomment| > |comment| {
        forwarded := false;
        OverwriteComment(kptr, comment);
      } else {
        forwarded := true;
        Forward(kptr, k, y, comment);
      }
    }

    method OverwriteComment(kptr: nat, comment: WText)
      requires Valid() && Readable(kanji[..], kptr) && 0 !in comment
      requires |Said(kanji[..], kptr).comment| > |comment|
      modifies kanji
      ensures var at := old(CommentAt(kanji[..], kptr)); Untouched(old(kanji[..]), kanji[..], at, at + 2 * (|comment| + 1))
      ensures Recommented(old(Bytes()), Bytes(), kptr, old(Said(kanji[..], kptr)).(comment := comment), true, true)
    {
      hide HeaderAt, Fetch, Home, Rewritten, OthersKept, KanjiEnd, YomiEnd, WellFormed, CharsAt, TextAt, Readable;
      ghost var b, d := Bytes(), kanji[..];
      CommentInBuffer(d, kptr);
      var tmpk, tmpy, com := GetKanjiStrR(kanji, kptr);
      PutField(kanji, com, com, comment, false, []);
      assert [] + (comment + [0]) == comment + [0];
      if HeaderAt(b, kptr) {
        LegibleIsReadable(b, d, kptr);
        CommentPlace(b, kptr);
        CommentOffset(b, d, kptr);
        SpellsInView(kanji[..], Bytes(), com, comment + [0]);
        RewrittenInPlace(b, Bytes(), kptr, comment, com);
      }
      InPlace(b, Bytes(), kptr, Said(d, kptr).(comment := comment));
    }

    method Forward(kptr: nat, k: WText, y: WText, comment: WText)
      requires Valid() && Readable(kanji[..], kptr) && kptr + 6 <= kanji.Length && 0 !in comment
      requires Said(kanji[..], kptr).kanji == Reverse(k) && Said(kanji[..], kptr).yomi == Reverse(y)
      requires maxkanji + (|k| + |comment| + |y| + 4) * 2 < kanji.Length
      modifies this`maxkanji, kanji
      ensures Valid() && maxkanji == old(maxkanji) + RecLen(Filed(k, y, comment)) % 256
      ensures forall i :: 0 <= i < old(maxkanji) && !(kptr < i < kptr + 6) ==> kanji[i] == old(kanji[i])
      ensures kptr + 6 <= old(maxkanji) ==> kanji[kptr + 1] == FORWARDED && Target(kanji[..], kptr) == old(maxkanji)
      ensures Recommented(old(Bytes()), Bytes(), kptr, Filed(k, y, comment),
                          old(kanji[kptr]) >= 6 && RecLen(Filed(k, y, comment)) <= 255, old(kanji[kptr]) >= 6)
    {
      hide HeaderAt, PlainAt, Fetch, Rewritten, OthersKept, RecAt, RecLen, Home, Reverse, Target, CharAt, Readable, Said;
      ghost var b, d, r, f := Bytes(), kanji[..], Said(kanji[..], kptr), Filed(k, y, comment);
      SaidIsPlain(d, kptr);
      ReverseReverse(k);
      ReverseReverse(y);
      ReverseKeepsNonzero(r.kanji);
      ReverseKeepsNonzero(r.yomi);
      RecLenBound(f);
      assert Reverse([]) == [] by { ReverseEmpty(); }
      WriteForward(kptr);
      ghost var e := kanji[..];
      Kanjiadd(k, y, comment);
      assert forall i :: 0 <= i < |b| ==> Bytes()[i] == e[..|b|][i];
      if kptr + 6 <= |b| {
        TargetFrame(e, kanji[..], kptr);
      }
      ForwardSettled(b, d, e, Bytes(), kptr, f);
    }

    /** Marks the record at kptr as forwarded to the end of the pool. The distance is cut to two
        16-bit characters. */
    method WriteForward(kptr: nat)
      requires Valid() && kptr + 6 <= kanji.Length
      modifies kanji
      ensures kanji[kptr + 1] == FORWARDED
      ensures kptr <= maxkanji ==> Target(kanji[..], kptr) == maxkanji
      ensures Untouched(old(kanji[..]), kanji[..], kptr + 1, kptr + 6)
    {
      kanji[kptr + 1] := FORWARDED;
      PutChar(kanji, kptr + 2, (maxkanji - kptr) / 0x1_0000 % 0x1_0000);
      PutChar(kanji, kptr + 4, (maxkanji - kptr) % 0x1_0000);
    }
  }

  /** Where the comment of the record read from p begins, if it has one. */
  ghost function CommentAt(b: seq<Byte>, p: nat): nat
    requires Readable(b, p)
  {
    Found(b, p) + 2 + 2 * KanjiEnd(b[Found(b, p) + 1], Rest(b, Found(b, p)))
  }

  /** The bytes written over when the record read from p gets this comment. */
  ghost predicate Written(b: seq<Byte>, p: nat, comment: WText, i: int)
    requires Readable(b, p)
  {
    if |Said(b, p).comment| > |comment| then CommentAt(b, p) <= i < CommentAt(b, p) + 2 * (|comment| + 1)
    else p < i < p + 6
  }

  /** What is written over a legible header with room for a forwarding address lies inside it. */
  lemma WrittenWithin(b: seq<Byte>, full: seq<Byte>, p: nat, comment: WText, i: nat)
    requires HeaderAt(b, p) && b <= full && b[p] >= 6
    ensures Readable(full, p) && (Written(full, p, comment, i) ==> Within(b, p, i))
  {
    hide WellFormed, Parse, CharsAt, HeaderAt, PlainAt, Fetch, Readable, KanjiEnd;
    LegibleIsReadable(b, full, p);
    if Fetch(b, p).comment != [] {
      CommentPlace(b, p);
      CommentOffset(b, full, p);
    }
  }

  lemma WrittenBehind(full: seq<Byte>, p: nat, comment: WText, i: int)
    requires Readable(full, p) && i <= p
    ensures !Written(full, p, comment, i)
  {
  }

  /** What of the pool, which ended at `end`, changed when the record at p got its comment: the bytes
      written over, and a record was added when the comment did not get shorter. */
  ghost predicate CommentWritten(was: seq<Byte>, end: nat, now: seq<Byte>, end1: nat, p: int, comment: WText, keepYomi: bool) {
    && 0 <= p && Readable(was, p) && end <= |was| == |now|
    && (forall i :: 0 <= i < end && !Written(was, p, comment, i) ==> now[i] == was[i])
    && var r := Said(was, p);
       end1 == end + if |r.comment| > |comment| then 0 else RecLen(Rec(if keepYomi then r.yomi else [], r.kanji, comment)) % 256
  }

  lemma SaidIsPlain(b: seq<Byte>, p: nat)
    requires Readable(b, p)
    ensures PlainRec(Said(b, p))
  {
    hide Readable, WellFormed, Parse;
    ParseIsPlain(b[Found(b, p) + 1], Rest(b, Found(b, p)));
  }

  lemma CommentInBuffer(b: seq<Byte>, p: nat)
    requires Readable(b, p) && Said(b, p).comment != []
    ensures HasComment(b[Found(b, p) + 1]) && CommentAt(b, p) + 2 * (|Said(b, p).comment| + 1) <= |b|
  {
    hide Readable, CharsAt, TextAt, YomiEnd;
    var h := Found(b, p);
    TextAtExtent(Rest(b, h), KanjiEnd(b[h + 1], Rest(b, h)));
  }

  /** A record whose length byte is 0 can be read until the next addition: that one is written to
      the same place. */
  method OverwrittenRecord(pool: RecordPool, kan: WText, yomi: WText, comment: WText, kan1: WText, yomi1: WText, comment1: WText)
    returns (first: Rec, later: Rec)
    requires pool.Valid() && pool.keepYomi
    requires 0 !in kan && 0 !in yomi && 0 !in comment && 0 !in kan1 && 0 !in yomi1 && 0 !in comment1
    requires RecLen(Spelled(kan, yomi, comment)) % 256 == 0
    requires pool.maxkanji + RecLen(Spelled(kan, yomi, comment)) <= pool.kanji.Length
    requires pool.maxkanji + RecLen(Spelled(kan1, yomi1, comment1)) <= pool.kanji.Length
    modifies pool, pool.kanji
    ensures first == Rec(yomi, kan, comment) && later == Rec(yomi1, kan1, comment1)
  {
    hide RecLen, HeaderAt, PlainAt, Packed, Fetch, Readable, Said, Found;
    var p := pool.maxkanji;
    pool.Kanjiadd(kan, yomi, comment);
    PackedIsRead(pool.kanji[..], p, Spelled(kan, yomi, comment));
    var k, y, c := GetKanjiStr(pool.kanji, p);
    SpelledOnce(k, y, c, kan, yomi, comment);
    first := Rec(y, k, c);
    pool.Kanjiadd(kan1, yomi1, comment1);
    PackedIsRead(pool.kanji[..], p, Spelled(kan1, yomi1, comment1));
    k, y, c := GetKanjiStr(pool.kanji, p);
    SpelledOnce(k, y, c, kan1, yomi1, comment1);
    later := Rec(y, k, c);
  }

  /** The shortest words that are lost this way have 125 characters, far below the 256 that
      word_add refuses. */
  method WordOf125() returns (first: Rec, later: Rec)
    ensures first == Rec([1], seq(124, _ => 2), []) && later == Rec([3], [4], [])
  {
    var pool := new RecordPool(300, true);
    first, later := OverwrittenRecord(pool, seq(124, _ => 2), [1], [], [4], [3], []);
  }

  lemma SpelledOnce(k: WText, y: WText, c: WText, k1: WText, y1: WText, c1: WText)
    requires Spelled(k, y, c) == Spelled(k1, y1, c1)
    ensures k == k1 && y == y1 && c == c1
  {
    ReverseReverse(k);
    ReverseReverse(k1);
    ReverseReverse(y);
    ReverseReverse(y1);
  }

  /** A header of 4 bytes is too short for the distance: its last two bytes become length and state
      of the record behind it. */
  lemma SpilledDistance(c: seq<Byte>, p: nat, m: nat)
    requires p + 6 <= |c| && Target(c, p) == m
    ensures c[p + 4] == (m - p) % 256 && c[p + 5] == (m - p) / 256 % 256
  {
    LowBytes(CharAt(c, p + 2), c[p + 4], c[p + 5], m - p);
  }

  lemma LowBytes(hi: nat, lo: Byte, mid: Byte, n: nat)
    requires n == hi * 0x1_0000 + lo + 256 * mid
    ensures n % 256 == lo && n / 256 % 256 == mid
  {
    assert n / 256 == 256 * hi + mid;
  }

  /** A user dictionary with an empty kanji in front of a word with a comment. */
  method ShortRecordFirst() returns (pool: RecordPool)
    ensures fresh(pool) && fresh(pool.kanji) && pool.Valid() && pool.kanji.Length == 100 && !pool.keepYomi && pool.maxkanji == 14
    ensures Packed(pool.kanji[..], 0, Rec([], [], [])) && Packed(pool.kanji[..], 4, Rec([], [5], [6]))
  {
    hide Packed, PlainAt, HeaderAt, Fetch, RecLen;
    pool := new RecordPool(100, false);
    SpelledShort();
    pool.Kanjiadd([], [], []);
    ghost var b1 := pool.Bytes();
    PackedInPool(pool.kanji[..], b1, 0, Rec([], [], []));
    pool.Kanjiadd([5], [], [6]);
    PackedInPool(b1, pool.Bytes(), 0, Rec([], [], []));
    PackedInPool(pool.Bytes(), pool.kanji[..], 0, Rec([], [], []));
  }

  /** A comment for its first word: the distance spills into the second record's header. */
  method CommentOnShort(pool: RecordPool)
    requires pool.Valid() && pool.kanji.Length == 100 && pool.maxkanji == 14 && Packed(pool.kanji[..], 0, Rec([], [], []))
    modifies pool`maxkanji, pool.kanji
    ensures pool.kanji[4] == 14 && pool.kanji[5] == 0
    ensures forall i :: 6 <= i < 14 ==> pool.kanji[i] == old(pool.kanji[i])
  {
    hide Packed, Recommented, Readable, Said, Found, Target, RecLen, Written;
    ghost var d := pool.kanji[..];
    PackedIsRead(d, 0, Rec([], [], []));
    WrittenShort(d);
    var forwarded := pool.CommentSet(0, [7]);
    SpilledDistance(pool.kanji[..], 0, 14);
  }

  /** A comment for the first word takes the second one's comment away. */
  method DamagedNeighbour() returns (before: WText, after: WText)
    ensures before == [6] && after == []
  {
    hide Packed, Readable, Said, RecLen;
    var pool := ShortRecordFirst();
    SpelledShort();
    PackedIsRead(pool.kanji[..], 4, Rec([], [5], [6]));
    var k, y, c := GetKanjiStr(pool.kanji, 4);
    before := c;
    ghost var d := pool.kanji[..];
    CommentOnShort(pool);
    CommentGone(d, pool.kanji[..], 4, [5], [6]);
    k, y, c := GetKanjiStr(pool.kanji, 4);
    after := c;
  }

  lemma WrittenShort(d: seq<Byte>)
    requires Readable(d, 0) && Said(d, 0) == Rec([], [], [])
    ensures forall i :: Written(d, 0, [7], i) <==> 0 < i < 6
  {
  }

  lemma PackedInPool(b: seq<Byte>, c: seq<Byte>, p: nat, r: Rec)
    requires Packed(b, p, r) && (b <= c || c <= b) && p + RecLen(r) <= |c|
    ensures Packed(c, p, r)
  {
    assert CharsAt(c, p + 2, |Strings(r)|) == CharsAt(b, p + 2, |Strings(r)|);
  }

  lemma SpelledShort()
    ensures Spelled([], [], []) == Rec([], [], []) && RecLen(Rec([], [], [])) == 4
    ensures Spelled([5], [], [6]) == Rec([], [5], [6]) && RecLen(Rec([], [5], [6])) == 10
  {
  }

  /** A record whose state byte becomes 0 has lost its comment. */
  lemma CommentGone(b: seq<Byte>, c: seq<Byte>, p: nat, kanji: WText, comment: WText)
    requires PlainRec(Rec([], kanji, comment)) && Packed(b, p, Rec([], kanji, comment)) && |c| == |b| && c[p + 1] == 0
    requires forall i :: p + 2 <= i < p + RecLen(Rec([], kanji, comment)) ==> c[i] == b[i]
    ensures Readable(c, p) && Said(c, p) == Rec([], kanji, [])
  {
    hide WellFormed, Parse, Readable, Said, Found;
    var n := |Strings(Rec([], kanji, comment))|;
    assert CharsAt(c, p + 2, n) == CharsAt(b, p + 2, n);
    var r := Rec([], kanji, []);
    assert Strings(r) == Strings(Rec([], kanji, comment))[..|Strings(r)|];
    WordsCut(c, p + 2, |Strings(r)|, n);
    SpeltIsRead(c, p, r);
  }

  lemma ReverseEmpty()
    ensures Reverse([]) == []
  {
  }

  lemma RecLenBound(r: Rec)
    ensures RecLen(r) <= (|r.kanji| + |r.comment| + |r.yomi| + 4) * 2
  {
  }

  lemma SpelledBound(kanji: WText, yomi: WText, comment: WText)
    ensures RecLen(Spelled(kanji, yomi, comment)) <= (|kanji| + |comment| + |yomi| + 4) * 2
  {
  }

  lemma TargetFrame(b: seq<Byte>, c: seq<Byte>, p: nat)
    requires p + 6 <= |b| && p + 6 <= |c|
    requires forall i :: p < i < p + 6 ==> c[i] == b[i]
    ensures Target(c, p) == Target(b, p)
  {
  }

  lemma ForwardSettled(b: seq<Byte>, d: seq<Byte>, e: seq<Byte>, c: seq<Byte>, p: nat, rec: Rec)
    requires b <= d && p + 6 <= |d| && Untouched(d, e, p + 1, p + 6)
    requires e[p + 1] == FORWARDED && (p <= |b| ==> Target(e, p) == |b|)
    requires e[..|b|] <= c && (PlainAt(c, |b|) <==> RecLen(rec) <= 255)
    requires PlainAt(c, |b|) ==> Fetch(c, |b|) == rec && |b| + c[|b|] == |c|
    ensures Recommented(b, c, p, rec, d[p] >= 6 && RecLen(rec) <= 255, d[p] >= 6)
  {
    hide HeaderAt, PlainAt, Fetch, Rewritten, OthersKept, RecAt, RecLen, Home, Target, CharAt, Readable, Said;
    if HeaderAt(b, p) {
      HeaderBytes(b, p);
      ForwardDone(b, e, c, p, rec);
    }
  }

  /** b is the pool before, d the buffer with the header rewritten, c the pool with the record added. */
  lemma ForwardDone(b: seq<Byte>, d: seq<Byte>, c: seq<Byte>, p: nat, rec: Rec)
    requires HeaderAt(b, p) && p + 2 <= |b| <= |d| && p + 6 <= |d|
    requires forall i :: 0 <= i < |b| && !(p < i < p + 6) ==> d[i] == b[i]
    requires d[p + 1] == FORWARDED && Target(d, p) == |b|
    requires d[..|b|] <= c
    requires PlainAt(c, |b|) ==> Fetch(c, |b|) == rec && |b| + c[|b|] == |c|
    ensures HeaderAt(c, p) <==> b[p] >= 6 && PlainAt(c, |b|)
    ensures HeaderAt(c, p) ==> Rewritten(b, c, p, rec)
    ensures b[p] >= 6 ==> OthersKept(b, c, p)
  {
    hide HeaderAt, PlainAt, Fetch, Rewritten, OthersKept, RecAt, Home;
    HeaderBytes(b, p);
    forall i | 0 <= i < |b| ensures c[i] == d[i] {
      assert c[i] == d[..|b|][i];
    }
    if b[p] >= 6 {
      PlainIsFetched(c, |b|);
      TargetFrame(d, c, p);
      ForwardedTo(b, c, p, rec);
    } else {
      ShortHeaderLost(c, p);
    }
  }

  lemma PlainIsFetched(c: seq<Byte>, p: nat)
    ensures PlainAt(c, p) ==> HeaderAt(c, p) && RecAt(c, p) == Fetch(c, p)
  {
  }

  lemma ShortHeaderLost(c: seq<Byte>, p: nat)
    requires p + 2 <= |c| && c[p] < 6 && IsForwarded(c[p + 1])
    ensures !HeaderAt(c, p)
  {
  }
}
