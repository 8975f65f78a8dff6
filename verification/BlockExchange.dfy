/** The block exchange by which getopt moves operands behind options (Wnn/etc/getopt.c:309-387). */
module BlockExchange {

  // ----- exchanging two adjacent blocks -----

  ghost function Exchanged<T>(a: seq<T>, b: nat, m: nat, t: nat): seq<T>
    requires b <= m <= t <= |a|
  {
    a[..b] + a[m..t] + a[b..m] + a[t..]
  }

  ghost function Swapped<T>(a: seq<T>, b: nat, c: nat, len: nat): seq<T>
    requires b + len <= c && c + len <= |a|
  {
    a[..b] + a[c..c + len] + a[b + len..c] + a[b..b + len] + a[c + len..]
  }

  lemma SwappedPointwise(a: seq<string>, r: seq<string>, b: nat, c: nat, len: nat)
    requires b + len <= c && c + len <= |a| == |r|
    requires forall k :: b <= k < b + len ==> r[k] == a[k - b + c]
    requires forall k :: c <= k < c + len ==> r[k] == a[k - c + b]
    requires forall k :: 0 <= k < |a| && !(b <= k < b + len) && !(c <= k < c + len) ==> r[k] == a[k]
    ensures r == Swapped(a, b, c, len)
  {
    assert r[..b] == a[..b] && r[b + len..c] == a[b + len..c] && r[c + len..] == a[c + len..];
    assert r[b..b + len] == a[c..c + len] && r[c..c + len] == a[b..b + len];
    assert r == r[..b] + r[b..b + len] + r[b + len..c] + r[c..c + len] + r[c + len..];
  }

  /** Swaps the blocks argv[b..b+len] and argv[c..c+len] element by element. */
  method SwapBlocks(argv: array<string>, b: nat, c: nat, len: nat)
    requires b + len <= c && c + len <= argv.Length
    modifies argv
    ensures argv[..] == Swapped(old(argv[..]), b, c, len)
  {
    ghost var a := argv[..];
    var i := 0;
    while i < len
      invariant 0 <= i <= len
      invariant forall k :: b <= k < b + i ==> argv[k] == a[k - b + c]
      invariant forall k :: c <= k < c + i ==> argv[k] == a[k - c + b]
      invariant forall k :: 0 <= k < argv.Length && !(b <= k < b + i) && !(c <= k < c + i) ==> argv[k] == a[k]
    {
      var tem := argv[b + i];
      argv[b + i] := argv[c + i];
      argv[c + i] := tem;
      i := i + 1;
    }
    SwappedPointwise(a, argv[..], b, c, len);
  }

  /** Exchanges the blocks [bottom, middle) and [middle, top), each kept in its own order
      (Wnn/etc/getopt.c:309-381): the shorter block goes to its place, the rest of the longer one
      is exchanged next. */
  method Exchange(argv: array<string>, bottom0: nat, middle: nat, top0: nat)
    requires bottom0 <= middle <= top0 <= argv.Length
    modifies argv
    ensures argv[..] == Exchanged(old(argv[..]), bottom0, middle, top0)
  {
    hide Exchanged, Swapped;
    var bottom, top := bottom0, top0;
    while top > middle && middle > bottom
      invariant bottom0 <= bottom <= middle <= top <= top0
      invariant Exchanged(argv[..], bottom, middle, top) == Exchanged(old(argv[..]), bottom0, middle, top0)
      decreases top - bottom
    {
      ghost var a := argv[..];
      if top - middle > middle - bottom {
        var len := middle - bottom;
        SwapBlocks(argv, bottom, top - len, len);
        BottomPlaced(a, argv[..], bottom, middle, top);
        top := top - len;
      } else {
        var len := top - middle;
        SwapBlocks(argv, bottom, middle, len);
        TopPlaced(a, argv[..], bottom, middle, top);
        bottom := bottom + len;
      }
    }
    NothingToExchange(argv[..], bottom, middle, top);
  }

  lemma NothingToExchange<T>(a: seq<T>, b: nat, m: nat, t: nat)
    requires b <= m <= t <= |a| && (b == m || m == t)
    ensures Exchanged(a, b, m, t) == a
  {
  }

  lemma BottomPlaced(a: seq<string>, a1: seq<string>, b: nat, m: nat, t: nat)
    requires b <= m <= t <= |a| && t - m > m - b
    requires var len := m - b;
             a1 == Swapped(a, b, t - len, len)
    ensures |a1| == |a| && Exchanged(a1, b, m, t - (m - b)) == Exchanged(a, b, m, t)
  {
    var len := m - b;
    assert a1[..b] == a[..b];
    assert a1[m..t - len] == a[m..t - len];
    assert a1[b..m] == a[t - len..t];
    assert a1[t - len..] == a[b..m] + a[t..];
    assert a[m..t] == a[m..t - len] + a[t - len..t];
  }

  lemma TopPlaced(a: seq<string>, a1: seq<string>, b: nat, m: nat, t: nat)
    requires b <= m <= t <= |a| && t - m <= m - b
    requires var len := t - m;
             a1 == Swapped(a, b, m, len)
    ensures |a1| == |a| && Exchanged(a1, b + (t - m), m, t) == Exchanged(a, b, m, t)
  {
    var len := t - m;
    assert a1[..b + len] == a[..b] + a[m..t];
    assert a1[m..t] == a[b..b + len];
    assert a1[b + len..m] == a[b + len..m];
    assert a1[t..] == a[t..];
    assert a[b..m] == a[b..b + len] + a[b + len..m];
  }
}
