/** Wide-character text as the dictionaries compare it (Wnn/etc/strings.c).

    A buffer is an array of 16-bit characters, and a text is what a buffer holds from
    some offset up to, not including, the next zero. `Less` is the order in which both
    dictionary indexes keep their keys; the prefix test is Dafny's `<=` on sequences. */
module WString {

  type WChar = x: int | 0 <= x < 0x1_0000

  type WText = seq<WChar>

  /** s comes strictly before t: at the first difference s has the smaller character,
      and the end of a text counts as smaller than any character. */
  predicate Less(s: WText, t: WText) {
    t != [] && (s == [] || s[0] < t[0] || (s[0] == t[0] && Less(s[1..], t[1..])))
  }

  predicate Leq(s: WText, t: WText) {
    s == t || Less(s, t)
  }

  // ----- Less is a strict total order -----

  lemma {:induction false} LessIrreflexive(s: WText)
    ensures !Less(s, s)
  {
    if s != [] {
      LessIrreflexive(s[1..]);
    }
  }

  lemma {:induction false} LessTransitive(s: WText, t: WText, u: WText)
    requires Less(s, t) && Less(t, u)
    ensures Less(s, u)
  {
    if s != [] && s[0] == t[0] && t[0] == u[0] {
      LessTransitive(s[1..], t[1..], u[1..]);
    }
  }

  lemma {:induction false} LessTotal(s: WText, t: WText)
    ensures Less(s, t) || s == t || Less(t, s)
  {
    if s != [] && t != [] && s[0] == t[0] {
      LessTotal(s[1..], t[1..]);
      assert s == [s[0]] + s[1..] && t == [t[0]] + t[1..];
    }
  }

  lemma LessAsymmetric(s: WText, t: WText)
    ensures !(Less(s, t) && Less(t, s))
    ensures Less(s, t) ==> s != t
  {
    LessIrreflexive(s);
    if Less(s, t) && Less(t, s) {
      LessTransitive(s, t, s);
    }
  }

  // ----- how the order and the prefix relation fit together -----

  lemma {:induction false} PrefixIsBelow(p: WText, s: WText)
    requires p <= s
    ensures Leq(p, s)
  {
    if p != [] {
      PrefixIsBelow(p[1..], s[1..]);
      assert p == [p[0]] + p[1..] && s == [s[0]] + s[1..];
    }
  }

  /** The texts that start with p are contiguous in the order, p itself first. */
  lemma {:induction false} PrefixInterval(p: WText, s: WText, q: WText)
    requires p <= q && Leq(p, s) && Leq(s, q)
    ensures p <= s
  {
    if p != [] {
      LessAsymmetric(s, q);
      LessAsymmetric(p, s);
      assert s != [] && p[0] == q[0] == s[0];
      LessIrreflexive(p); LessIrreflexive(s);
      assert s == [s[0]] + s[1..] && p == [p[0]] + p[1..] && q == [q[0]] + q[1..];
      PrefixInterval(p[1..], s[1..], q[1..]);
    }
  }

  lemma PrefixesNest(a: WText, b: WText, s: WText)
    requires a <= s && b <= s && |a| <= |b|
    ensures a <= b
  {
  }

  lemma ProperPrefix(p: WText, s: WText)
    requires p <= s && p != s
    ensures p < s && |p| < |s|
  {
    assert s == s[..|s|];
  }

  lemma ConsPrefix(c: WChar, s: WText, d: WChar, t: WText)
    ensures [c] + s <= [d] + t <==> c == d && s <= t
  {
    assert ([c] + s)[1..] == s && ([d] + t)[1..] == t;
    assert ([c] + s)[0] == c && ([d] + t)[0] == d;
    if [c] + s <= [d] + t {
      assert [c] + s == ([d] + t)[..|s| + 1];
      assert s == ([c] + s)[1..] == ([d] + t)[1..|s| + 1] == t[..|s|];
    }
  }

  // ----- the loops of strings.c over zero-terminated buffers -----

  /** The text that starts at offset i, when a zero follows. */
  function TextAt(b: seq<WChar>, i: nat): WText
    requires i <= |b|
    decreases |b| - i
  {
    if i == |b| || b[i] == 0 then [] else [b[i]] + TextAt(b, i + 1)
  }

  predicate Terminated(b: seq<WChar>, i: nat) {
    exists z :: i <= z < |b| && b[z] == 0
  }

  lemma TextAtStep(b: seq<WChar>, i: nat)
    requires Terminated(b, i)
    ensures i < |b|
    ensures b[i] != 0 ==> Terminated(b, i + 1) && TextAt(b, i) == [b[i]] + TextAt(b, i + 1)
    ensures b[i] == 0 ==> TextAt(b, i) == []
    ensures 0 !in TextAt(b, i)
    decreases |b| - i
  {
    var z :| i <= z < |b| && b[z] == 0;
    if b[i] != 0 {
      assert i + 1 <= z < |b| && b[z] == 0;
      TextAtStep(b, i + 1);
    }
  }

  method Strcmp(s1: array<WChar>, i: nat, s2: array<WChar>, j: nat) returns (r: int)
    requires Terminated(s1[..], i) && Terminated(s2[..], j)
    ensures r == 0 <==> TextAt(s1[..], i) == TextAt(s2[..], j)
    ensures r == -1 <==> Less(TextAt(s1[..], i), TextAt(s2[..], j))
    ensures r == 1 <==> Less(TextAt(s2[..], j), TextAt(s1[..], i))
  {
    var p, q := i, j;
    ghost var a, b := s1[..], s2[..];
    ghost var t, u := TextAt(a, i), TextAt(b, j);
    TextAtStep(a, p);
    TextAtStep(b, q);
    while s1[p] != 0 && s1[p] == s2[q]
      invariant i <= p < |a| && j <= q < |b| && Terminated(a, p) && Terminated(b, q)
      invariant t == u <==> TextAt(a, p) == TextAt(b, q)
      invariant Less(t, u) <==> Less(TextAt(a, p), TextAt(b, q))
      invariant Less(u, t) <==> Less(TextAt(b, q), TextAt(a, p))
      decreases |a| - p
    {
      TextAtStep(a, p); TextAtStep(b, q);
      TextAtStep(a, p + 1); TextAtStep(b, q + 1);
      p, q := p + 1, q + 1;
    }
    TextAtStep(a, p);
    TextAtStep(b, q);
    LessAsymmetric(t, u);
    if s1[p] > s2[q] {
      return 1;
    }
    if s1[p] == s2[q] {
      return 0;
    }
    return -1;
  }

  /** Is the first text a prefix of the second? */
  method Substr(s1: array<WChar>, i: nat, s2: array<WChar>, j: nat) returns (r: bool)
    requires Terminated(s1[..], i) && Terminated(s2[..], j)
    ensures r <==> TextAt(s1[..], i) <= TextAt(s2[..], j)
  {
    var p, q := i, j;
    ghost var a, b := s1[..], s2[..];
    TextAtStep(a, p);
    TextAtStep(b, q);
    while s1[p] != 0 && s1[p] == s2[q]
      invariant i <= p < |a| && j <= q < |b| && Terminated(a, p) && Terminated(b, q)
      invariant TextAt(a, i) <= TextAt(b, j) <==> TextAt(a, p) <= TextAt(b, q)
      decreases |a| - p
    {
      TextAtStep(a, p); TextAtStep(b, q);
      TextAtStep(a, p + 1); TextAtStep(b, q + 1);
      ConsPrefix(a[p], TextAt(a, p + 1), b[q], TextAt(b, q + 1));
      p, q := p + 1, q + 1;
    }
    TextAtStep(a, p);
    TextAtStep(b, q);
    if s1[p] != 0 && s2[q] != 0 {
      ConsPrefix(a[p], TextAt(a, p + 1), b[q], TextAt(b, q + 1));
    }
    return s1[p] == 0;
  }

  function Reverse(s: WText): (r: WText)
    ensures |r| == |s|
  {
    if s == [] then [] else Reverse(s[1..]) + [s[0]]
  }

  lemma {:induction false} ReverseConcat(s: WText, t: WText)
    ensures Reverse(s + t) == Reverse(t) + Reverse(s)
  {
    if s == [] {
      assert s + t == t;
    } else {
      assert (s + t)[1..] == s[1..] + t;
      ReverseConcat(s[1..], t);
    }
  }

  lemma {:induction false} ReverseReverse(s: WText)
    ensures Reverse(Reverse(s)) == s
  {
    if s != [] {
      ReverseConcat(Reverse(s[1..]), [s[0]]);
      ReverseReverse(s[1..]);
      assert Reverse([s[0]]) == [s[0]];
    }
  }

  lemma ReverseStep(b: seq<WChar>, s: nat, e: nat)
    requires s < e <= |b|
    ensures Reverse(b[s..e]) == Reverse(b[s + 1..e]) + [b[s]]
  {
    assert b[s..e][1..] == b[s + 1..e];
  }

  lemma TextAtExtent(b: seq<WChar>, i: nat)
    requires Terminated(b, i)
    ensures i + |TextAt(b, i)| < |b| && b[i + |TextAt(b, i)|] == 0
    ensures TextAt(b, i) == b[i..i + |TextAt(b, i)|] && 0 !in TextAt(b, i)
    decreases |b| - i
  {
    TextAtStep(b, i);
    if b[i] != 0 {
      TextAtExtent(b, i + 1);
    }
  }

  /** Copies the text at src[i..] into d from its start, last character first. */
  method Sreverse(d: array<WChar>, src: array<WChar>, i: nat)
    requires d != src && Terminated(src[..], i)
    requires |TextAt(src[..], i)| < d.Length
    modifies d
    ensures Terminated(d[..], 0) && TextAt(d[..], 0) == Reverse(TextAt(src[..], i))
    ensures forall k :: |TextAt(src[..], i)| < k < d.Length ==> d[k] == old(d[k])
  {
    ghost var b := src[..];
    ghost var t := TextAt(b, i);
    TextAtExtent(b, i);
    var s := i;
    while src[s] != 0
      modifies {}
      invariant i <= s <= i + |t|
      decreases i + |t| - s
    {
      s := s + 1;
    }
    assert s == i + |t|;
    var k := 0;
    while s > i
      invariant i <= s && k + s == i + |t|
      invariant d[..k] == Reverse(b[s..i + |t|])
      invariant forall m :: k <= m < d.Length ==> d[m] == old(d[m])
    {
      s := s - 1;
      ReverseStep(b, s, i + |t|);
      d[k] := src[s];
      assert d[..k + 1] == d[..k] + [b[s]];
      k := k + 1;
    }
    d[k] := 0;
    assert d[..k] == Reverse(t);
    ReverseKeepsNonzero(t);
    TextAtPrefix(d[..], 0, k);
  }

  lemma {:induction false} ReverseKeepsNonzero(s: WText)
    ensures forall c :: c in Reverse(s) <==> c in s
  {
    if s != [] {
      ReverseKeepsNonzero(s[1..]);
    }
  }

  lemma TextAtPrefix(b: seq<WChar>, i: nat, z: nat)
    requires i <= z < |b| && b[z] == 0 && 0 !in b[i..z]
    ensures Terminated(b, i) && TextAt(b, i) == b[i..z]
    decreases z - i
  {
    if i < z {
      assert b[i..z] == [b[i]] + b[i + 1..z];
      TextAtPrefix(b, i + 1, z);
    }
  }

  lemma {:induction false} TextAtSpelled(b: seq<WChar>, i: nat, t: WText)
    requires 0 !in t && i + |t| < |b| && b[i + |t|] == 0
    requires forall k :: 0 <= k < |t| ==> b[i + k] == t[k]
    ensures Terminated(b, i) && TextAt(b, i) == t
    decreases |t|
  {
    if t != [] {
      assert b[i + 0] == t[0];
      forall k | 0 <= k < |t[1..]| ensures b[(i + 1) + k] == t[1..][k] {
        assert b[i + (k + 1)] == t[k + 1];
      }
      TextAtSpelled(b, i + 1, t[1..]);
      TextAtStep(b, i);
      assert t == [t[0]] + t[1..];
    }
  }
}
