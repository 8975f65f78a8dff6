/** The stroke index: a trie in an array of nodes, in which a node's own character is found only
    through some word below it (Wnn/jserver/b_index.c:61-295, searched by
    Wnn/jserver/jbiki_b.c:137-198). */
module StrokeTrie {
  import opened WString

  /** struct b_node; -1 is the null of all three fields. */
  datatype BNode = BNode(pter: int, pterSon: int, pterNext: int)

  /** What a `short` keeps of a value. */
  function Short16(v: int): int {
    (v + 0x8000) % 0x1_0000 - 0x8000
  }

  // ----- the trie as a set of paths -----

  /** The path of node n without its last character. */
  function Up(paths: seq<WText>, n: nat): WText
    requires n < |paths| && paths[n] != []
  {
    paths[n][..|paths[n]| - 1]
  }

  function Label(paths: seq<WText>, n: nat): WChar
    requires n < |paths| && paths[n] != []
  {
    paths[n][|paths[n]| - 1]
  }

  ghost predicate IsSon(paths: seq<WText>, n: int, path: WText) {
    0 < n < |paths| && paths[n] != [] && Up(paths, n) == path
  }

  /** Node 0 is the root; paths are distinct, and a node's parent is older than the node. */
  ghost predicate PathsOk(paths: seq<WText>) {
    && paths != [] && paths[0] == []
    && (forall m, n :: 0 <= m < n < |paths| ==> paths[m] != paths[n])
    && (forall n :: 0 < n < |paths| ==> paths[n] != [] && exists p :: 0 <= p < n && paths[p] == Up(paths, n))
  }

  /** A son link leads to the son with the smallest label. */
  ghost predicate SonOk(b: seq<BNode>, paths: seq<WText>, p: nat)
    requires p < |b| == |paths|
  {
    var s := b[p].pterSon;
    if s == -1 then forall n :: 0 < n < |paths| ==> !IsSon(paths, n, paths[p])
    else IsSon(paths, s, paths[p]) && forall n :: IsSon(paths, n, paths[p]) ==> Label(paths, s) <= Label(paths, n)
  }

  /** A brother link leads to the brother with the next greater label. */
  ghost predicate NextOk(b: seq<BNode>, paths: seq<WText>, m: nat)
    requires m < |b| == |paths| && paths[m] != []
  {
    var s, up := b[m].pterNext, Up(paths, m);
    if s == -1 then forall n :: IsSon(paths, n, up) ==> Label(paths, n) <= Label(paths, m)
    else
      && IsSon(paths, s, up) && Label(paths, m) < Label(paths, s)
      && forall n :: IsSon(paths, n, up) && Label(paths, n) > Label(paths, m) ==> Label(paths, s) <= Label(paths, n)
  }

  /** `words` gives the last serial entered for each reading. */
  ghost predicate PtersOk(b: seq<BNode>, paths: seq<WText>, words: map<WText, int>, readings: seq<WText>)
    requires |b| == |paths|
  {
    && (forall n :: 0 <= n < |b| ==> b[n].pter == if paths[n] in words then words[paths[n]] else -1)
    && (forall w :: w in words ==> w in paths && 0 <= words[w] < |readings| && readings[words[w]] == w)
  }

  /** Every node but the root, and but `open` while a word is being entered, leads to a word. */
  ghost predicate Leads(b: seq<BNode>, open: int) {
    forall n :: 0 < n < |b| && n != open && b[n].pter == -1 ==> b[n].pterSon != -1
  }

  ghost predicate Inv(b: seq<BNode>, paths: seq<WText>, words: map<WText, int>, readings: seq<WText>, open: int) {
    && |b| == |paths| && PathsOk(paths)
    && (forall p :: 0 <= p < |b| ==> SonOk(b, paths, p))
    && (forall m :: 0 < m < |b| ==> NextOk(b, paths, m))
    && PtersOk(b, paths, words, readings) && Leads(b, open)
  }

  /** The label of a node at this level is the character there of any path below it. */
  lemma SonIsYounger(paths: seq<WText>, p: nat, n: int)
    requires PathsOk(paths) && p < |paths| && IsSon(paths, n, paths[p])
    ensures p < n && paths[n] == paths[p] + [Label(paths, n)]
  {
    var q :| 0 <= q < n && paths[q] == Up(paths, n);
  }

  // ----- nodes beyond what a short can number -----

  ghost predicate Shorts(b: seq<BNode>) {
    forall n :: 0 <= n < |b| ==>
      -0x8000 <= b[n].pter < 0x8000 && -0x8000 <= b[n].pterSon < 0x8000 && -0x8000 <= b[n].pterNext < 0x8000
  }

  ghost predicate LinkedTo(b: seq<BNode>, n: int) {
    exists m :: 0 <= m < |b| && (b[m].pterSon == n || b[m].pterNext == n)
  }

  /** Passing from brother to brother, the links reach every son with a greater label. */
  lemma {:induction false} BrotherLinked(b: seq<BNode>, paths: seq<WText>, p: nat, m: nat, n: nat)
    requires |b| == |paths| && PathsOk(paths) && p < |b| && forall k :: 0 < k < |b| ==> NextOk(b, paths, k)
    requires IsSon(paths, m, paths[p]) && IsSon(paths, n, paths[p]) && Label(paths, m) < Label(paths, n)
    ensures LinkedTo(b, n)
    decreases Label(paths, n) - Label(paths, m)
  {
    hide PathsOk, Label;
    assert NextOk(b, paths, m);
    var t := b[m].pterNext;
    if t != n {
      DistinctSons(paths, p);
      assert Label(paths, t) != Label(paths, n);
      BrotherLinked(b, paths, p, t, n);
    }
  }

  /** Every node but the root is linked to. */
  lemma NodeLinked(b: seq<BNode>, paths: seq<WText>, words: map<WText, int>, readings: seq<WText>, open: int, n: nat)
    requires Inv(b, paths, words, readings, open) && 0 < n < |b|
    ensures LinkedTo(b, n)
  {
    hide PtersOk, Leads, Label;
    var p :| 0 <= p < n && paths[p] == Up(paths, n);
    assert SonOk(b, paths, p) && IsSon(paths, n, paths[p]);
    if b[p].pterSon != n {
      DistinctSons(paths, p);
      assert Label(paths, b[p].pterSon) != Label(paths, n);
      BrotherLinked(b, paths, p, b[p].pterSon, n);
    }
  }

  /** A trie whose links fit into a short has at most 0x8000 nodes. */
  lemma ShortTrie(b: seq<BNode>, paths: seq<WText>, words: map<WText, int>, readings: seq<WText>, open: int)
    requires Inv(b, paths, words, readings, open) && Shorts(b)
    ensures 0 < |b| <= 0x8000
  {
    hide SonOk, NextOk, PtersOk, Leads;
    if |b| > 0x8000 {
      NodeLinked(b, paths, words, readings, open, |b| - 1);
    }
  }

  // ----- a new node among its brothers -----

  /** Where a son of p labelled c belongs: behind prev (0 for none) and in front of next. */
  ghost predicate Gap(b: seq<BNode>, paths: seq<WText>, p: nat, c: WChar, prev: int, next: int)
    requires p < |b| == |paths|
  {
    && (forall n :: IsSon(paths, n, paths[p]) ==> Label(paths, n) != c)
    && (if next == -1 then forall n :: IsSon(paths, n, paths[p]) ==> Label(paths, n) < c
        else
          && IsSon(paths, next, paths[p]) && c < Label(paths, next)
          && forall n :: IsSon(paths, n, paths[p]) && Label(paths, n) > c ==> Label(paths, next) <= Label(paths, n))
    && (if prev == 0 then b[p].pterSon == next
        else IsSon(paths, prev, paths[p]) && Label(paths, prev) < c && b[prev].pterNext == next)
  }

  ghost function WithNode(b: seq<BNode>, p: nat, prev: int, next: int): (r: seq<BNode>)
    requires p < |b| && 0 <= prev < |b|
    ensures |r| == |b| + 1
  {
    (if prev == 0 then b[p := b[p].(pterSon := |b|)] else b[prev := b[prev].(pterNext := |b|)]) + [BNode(-1, -1, next)]
  }

  /** `more` are the paths with a new son of p, labelled c, at the end. */
  ghost predicate Grown(paths: seq<WText>, more: seq<WText>, p: nat, c: WChar)
    requires p < |paths|
  {
    && |more| == |paths| + 1
    && (forall n :: 0 <= n < |paths| ==> more[n] == paths[n])
    && (forall n, q :: IsSon(more, n, q) ==> 0 < n < |more|)
    && (forall n, q :: IsSon(paths, n, q) ==> 0 < n < |paths|)
    && (forall n :: 0 < n < |more| ==> more[n] != [])
    && (forall n, q :: 0 <= n < |paths| ==> (IsSon(more, n, q) <==> IsSon(paths, n, q)))
    && (forall n :: 0 < n < |paths| ==> Up(more, n) == Up(paths, n) && Label(more, n) == Label(paths, n))
    && (forall q :: IsSon(more, |paths|, q) <==> q == paths[p])
    && Up(more, |paths|) == paths[p] && Label(more, |paths|) == c
    && (forall n :: !IsSon(more, n, more[|paths|]))
  }

  lemma PathsGrow(paths: seq<WText>, p: nat, c: WChar)
    requires PathsOk(paths) && p < |paths|
    requires forall n :: IsSon(paths, n, paths[p]) ==> Label(paths, n) != c
    ensures PathsOk(paths + [paths[p] + [c]]) && paths[p] + [c] !in paths
    ensures Grown(paths, paths + [paths[p] + [c]], p, c)
  {
    var path, more := paths[p] + [c], paths + [paths[p] + [c]];
    assert path[..|path| - 1] == paths[p];
    forall n | 0 <= n < |paths| ensures paths[n] != path {
      if n > 0 && paths[n] == path {
        SonOfPrefix(paths, n, path, |paths[p]|);
      }
    }
    forall n | 0 < n < |more| ensures more[n] != [] && exists q :: 0 <= q < n && more[q] == Up(more, n) {
      if n < |paths| {
        var q :| 0 <= q < n && paths[q] == Up(paths, n);
        assert more[q] == Up(more, n);
      } else {
        assert more[p] == Up(more, n);
      }
    }
    AreGrown(paths, more, p, c);
  }

  lemma SameSon(paths: seq<WText>, more: seq<WText>, n: int)
    requires |more| == |paths| + 1 && 0 <= n < |paths| && more[n] == paths[n]
    ensures forall q :: IsSon(more, n, q) <==> IsSon(paths, n, q)
    ensures paths[n] != [] ==> Up(more, n) == Up(paths, n) && Label(more, n) == Label(paths, n)
  {
  }

  lemma AreGrown(paths: seq<WText>, more: seq<WText>, p: nat, c: WChar)
    requires PathsOk(paths) && p < |paths| && more == paths + [paths[p] + [c]] && paths[p] + [c] !in paths
    ensures Grown(paths, more, p, c)
  {
    var path := paths[p] + [c];
    assert path[..|path| - 1] == paths[p];
    NewIsLeaf(paths, more, p, c);
    hide PathsOk, Label, Up;
    DistinctPaths(paths);
    forall n | 0 <= n < |paths|
      ensures forall q :: IsSon(more, n, q) <==> IsSon(paths, n, q)
      ensures n > 0 ==> Up(more, n) == Up(paths, n) && Label(more, n) == Label(paths, n)
    {
      SameSon(paths, more, n);
    }
    NewSon(paths, more, p, c);
  }

  lemma NewSon(paths: seq<WText>, more: seq<WText>, p: nat, c: WChar)
    requires paths != [] && p < |paths| && more == paths + [paths[p] + [c]]
    ensures forall q :: IsSon(more, |paths|, q) <==> q == paths[p]
    ensures Up(more, |paths|) == paths[p] && Label(more, |paths|) == c
  {
  }

  lemma NewIsLeaf(paths: seq<WText>, more: seq<WText>, p: nat, c: WChar)
    requires PathsOk(paths) && p < |paths| && more == paths + [paths[p] + [c]] && paths[p] + [c] !in paths
    ensures forall n :: !IsSon(more, n, more[|paths|])
  {
    forall n ensures !IsSon(more, n, more[|paths|]) {
      if 0 < n < |paths| {
        OldSon(paths, more, n);
      }
    }
  }

  lemma OldSon(paths: seq<WText>, more: seq<WText>, n: nat)
    requires PathsOk(paths) && 0 < n < |paths| && |more| == |paths| + 1 && more[n] == paths[n] && more[|paths|] !in paths
    ensures !IsSon(more, n, more[|paths|])
  {
    var q :| 0 <= q < n && paths[q] == Up(paths, n);
  }

  lemma SonStays(b: seq<BNode>, paths: seq<WText>, more: seq<WText>, p: nat, c: WChar, prev: int, next: int, q: nat)
    requires |b| == |paths| && p < |b| && q <= |b| && 0 <= prev < |b| && Gap(b, paths, p, c, prev, next)
    requires Grown(paths, more, p, c)
    requires q < |b| ==> SonOk(b, paths, q) && (paths[q] == paths[p] ==> q == p)
    ensures SonOk(WithNode(b, p, prev, next), more, q)
  {
    hide IsSon, Label, Up;
  }

  lemma NextStays(b: seq<BNode>, paths: seq<WText>, more: seq<WText>, p: nat, c: WChar, prev: int, next: int, m: nat)
    requires |b| == |paths| && p < |b| && 0 < m <= |b| && 0 <= prev < |b| && Gap(b, paths, p, c, prev, next)
    requires Grown(paths, more, p, c)
    requires forall n :: IsSon(paths, n, paths[p]) ==> 0 < n < |paths| && paths[n] != [] && Up(paths, n) == paths[p]
    requires m < |b| ==> paths[m] != [] && NextOk(b, paths, m) && IsSon(paths, m, Up(paths, m))
    requires forall m, n :: IsSon(paths, m, paths[p]) && IsSon(paths, n, paths[p]) && Label(paths, m) == Label(paths, n) ==> m == n
    requires SonOk(b, paths, p) && (prev != 0 ==> NextOk(b, paths, prev))
    ensures NextOk(WithNode(b, p, prev, next), more, m)
  {
    hide IsSon, Label, Up;
  }

  lemma NodeAdded(b: seq<BNode>, paths: seq<WText>, words: map<WText, int>, readings: seq<WText>, open: int, p: nat, c: WChar, prev: int, next: int)
    requires Inv(b, paths, words, readings, open) && (open == -1 || open == p)
    requires p < |b| && 0 <= prev < |b| && Gap(b, paths, p, c, prev, next)
    ensures Inv(WithNode(b, p, prev, next), paths + [paths[p] + [c]], words, readings, |b|)
  {
    hide SonOk, NextOk, IsSon, Label, Up, Grown, PathsOk, WithNode;
    var b1, more := WithNode(b, p, prev, next), paths + [paths[p] + [c]];
    PathsGrow(paths, p, c);
    DistinctPaths(paths);
    DistinctSons(paths, p);
    forall q | 0 <= q < |b1| ensures SonOk(b1, more, q) { SonStays(b, paths, more, p, c, prev, next, q); }
    forall m | 0 < m < |b1| ensures more[m] != [] && NextOk(b1, more, m) {
      NextStays(b, paths, more, p, c, prev, next, m);
    }
    RestStays(b, paths, words, readings, open, p, c, prev, next);
  }

  lemma DistinctSons(paths: seq<WText>, p: nat)
    requires PathsOk(paths) && p < |paths|
    ensures forall n :: 0 < n < |paths| ==> paths[n] != [] && IsSon(paths, n, Up(paths, n))
    ensures forall n :: IsSon(paths, n, paths[p]) ==> 0 < n < |paths| && paths[n] != [] && Up(paths, n) == paths[p]
    ensures forall m, n :: IsSon(paths, m, paths[p]) && IsSon(paths, n, paths[p]) && Label(paths, m) == Label(paths, n) ==> m == n
  {
    hide Label;
    forall m, n | IsSon(paths, m, paths[p]) && IsSon(paths, n, paths[p]) && Label(paths, m) == Label(paths, n)
      ensures m == n
    {
      SonIsYounger(paths, p, m);
      SonIsYounger(paths, p, n);
    }
  }

  lemma RestStays(b: seq<BNode>, paths: seq<WText>, words: map<WText, int>, readings: seq<WText>, open: int, p: nat, c: WChar, prev: int, next: int)
    requires |b| == |paths| && PtersOk(b, paths, words, readings) && Leads(b, open) && (open == -1 || open == p)
    requires p < |b| && 0 <= prev < |b| && Gap(b, paths, p, c, prev, next) && SonOk(b, paths, p) && paths[p] + [c] !in paths
    ensures var b1, more := WithNode(b, p, prev, next), paths + [paths[p] + [c]];
            PtersOk(b1, more, words, readings) && Leads(b1, |b|)
  {
    hide Label, Up, IsSon;
    var b1, more := WithNode(b, p, prev, next), paths + [paths[p] + [c]];
    assert forall n :: 0 <= n < |b| ==> b1[n].pter == b[n].pter && more[n] == paths[n];
    forall w | w in words ensures w in more {
      assert w in paths;
    }
    if prev != 0 {
      assert b[p].pterSon != -1;
    }
  }

  // ----- a word under its node -----

  lemma WordAdded(b: seq<BNode>, paths: seq<WText>, words: map<WText, int>, readings: seq<WText>, open: int, p: nat, serial: nat)
    requires Inv(b, paths, words, readings, open) && p < |b| && (open == -1 || open == p)
    requires serial < |readings| && readings[serial] == paths[p]
    ensures Inv(b[p := b[p].(pter := serial)], paths, words[paths[p] := serial], readings, -1)
  {
    hide PathsOk, IsSon, Label;
    var b1 := b[p := b[p].(pter := serial)];
    forall q | 0 <= q < |b| ensures SonOk(b1, paths, q) { assert SonOk(b, paths, q); }
    DistinctPaths(paths);
    forall m | 0 < m < |b| ensures NextOk(b1, paths, m) { assert NextOk(b, paths, m); }
  }

  lemma DistinctPaths(paths: seq<WText>)
    requires PathsOk(paths)
    ensures forall m, n :: 0 <= m < |paths| && 0 <= n < |paths| && paths[m] == paths[n] ==> m == n
    ensures paths[0] == [] && forall n :: 0 < n < |paths| ==> paths[n] != []
  {
  }

  lemma SonFound(b: seq<BNode>, paths: seq<WText>, words: map<WText, int>, readings: seq<WText>, open: int, p: nat, n: int)
    requires Inv(b, paths, words, readings, open) && p < |b| && (open == -1 || open == p) && IsSon(paths, n, paths[p])
    ensures 0 < n < |b| && paths[n] == paths[p] + [Label(paths, n)] && Inv(b, paths, words, readings, -1)
  {
    hide SonOk, NextOk, PtersOk, Leads, Label, Up;
    SonIsYounger(paths, p, n);
    Closed(b, paths, words, readings, open, p, n);
  }

  lemma PlaceFound(b: seq<BNode>, paths: seq<WText>, words: map<WText, int>, readings: seq<WText>, open: int, p: nat, c: WChar, buf1: int, buf2: int)
    requires Inv(b, paths, words, readings, open) && Shorts(b) && p < |b|
    requires buf1 == buf2 == b[p].pterSon
             || (IsSon(paths, buf1, paths[p]) && Label(paths, buf1) < c && 0 <= buf1 < |b| && b[buf1].pterNext == buf2)
    requires buf2 != -1 ==> IsSon(paths, buf2, paths[p]) && c < Label(paths, buf2)
    ensures -1 <= buf2 < |b| <= 0x8000 && (buf1 != buf2 ==> 0 < buf1 < |b|)
    ensures Gap(b, paths, p, c, if buf1 == buf2 then 0 else buf1, buf2) && paths[p] + [c] !in paths
  {
    hide NextOk, SonOk, PtersOk, Leads, Label, Up, PathsOk, Gap, Shorts, Grown;
    ShortTrie(b, paths, words, readings, open);
    SonInRange(paths, p, buf1);
    SonInRange(paths, p, buf2);
    GapFound(b, paths, p, c, buf1, buf2);
    GapIsNew(b, paths, p, c, if buf1 == buf2 then 0 else buf1, buf2);
  }

  lemma GapIsNew(b: seq<BNode>, paths: seq<WText>, p: nat, c: WChar, prev: int, next: int)
    requires p < |b| == |paths| && PathsOk(paths) && Gap(b, paths, p, c, prev, next)
    ensures paths[p] + [c] !in paths
  {
    hide PathsOk, Label, Up, IsSon, Grown;
    PathsGrow(paths, p, c);
  }

  /** What the search among the sons of p has found: all sons with smaller labels are passed over. */
  lemma GapFound(b: seq<BNode>, paths: seq<WText>, p: nat, c: WChar, buf1: int, buf2: int)
    requires |b| == |paths| && PathsOk(paths) && p < |b| && SonOk(b, paths, p)
    requires forall m :: 0 < m < |b| ==> NextOk(b, paths, m)
    requires buf1 == -1 ==> buf2 == -1
    requires buf1 == buf2 == b[p].pterSon || (IsSon(paths, buf1, paths[p]) && Label(paths, buf1) < c && b[buf1].pterNext == buf2)
    requires buf2 != -1 ==> IsSon(paths, buf2, paths[p]) && c < Label(paths, buf2)
    ensures Gap(b, paths, p, c, if buf1 == buf2 then 0 else buf1, buf2)
  {
    hide PathsOk, Label, Up;
    DistinctSons(paths, p);
    if buf1 != buf2 {
      assert NextOk(b, paths, buf1);
    }
  }

  // ----- the program -----

  class StrokeIndex {
    const bind: array<BNode>
    var bCnt: nat                   // the last node in use; nodes are never used again
    ghost var paths: seq<WText>     // what leads to each node
    ghost var words: map<WText, int> // the last serial entered for each reading

    /** `open` is a node that has just been made for a word still being entered, or -1. */
    ghost predicate Entering(readings: seq<WText>, open: int)
      reads this, bind
    {
      |paths| == bCnt + 1 <= bind.Length && Shorts(bind[..bCnt + 1]) && Inv(bind[..bCnt + 1], paths, words, readings, open)
    }

    /** Node p is newer than any that a short can number, and has no sons yet. */
    ghost predicate Lost(p: nat)
      reads this, bind
    {
      0x8000 <= bCnt == p < bind.Length && Shorts(bind[..bCnt + 1]) && bind[p].pterSon == -1
    }

    ghost predicate Valid(readings: seq<WText>)
      reads this, bind
    {
      Entering(readings, -1)
    }

    /** The start of create_b_index: the root alone. */
    constructor (size: nat, readings: seq<WText>)
      requires size > 0
      ensures Valid(readings) && words == map[] && bind.Length == size && bCnt == 0 && paths == [[]] && fresh(bind)
    {
      bind := new BNode[size](_ => BNode(-1, -1, -1));
      bCnt := 0;
      paths, words := [[]], map[];
    }

    /** The character by which brothers are compared: node -> first sons -> word -> record
        (lines 224-229). */
    method CharOf(node: nat, level: nat, readings: seq<WText>, ghost open: int) returns (c: WChar)
      requires Entering(readings, open) && 0 < node <= bCnt && |paths[node]| == level + 1
      requires 0 <= open <= bCnt ==> |paths[open]| <= level
      ensures c == Label(paths, node)
    {
      hide NextOk;
      ghost var b := bind[..bCnt + 1];
      var tmp := node;
      while bind[tmp].pter == -1
        invariant 0 < tmp <= bCnt && paths[node] <= paths[tmp]
        decreases bCnt - tmp
      {
        assert bind[tmp] == b[tmp];
        assert SonOk(b, paths, tmp);
        SonIsYounger(paths, tmp, b[tmp].pterSon);
        tmp := bind[tmp].pterSon;
      }
      assert bind[tmp] == b[tmp];
      return readings[bind[tmp].pter][level];
    }

    /** Among the sons of p, the first with a label of at least c, and the one before it
        (lines 215-238). `found` is its label. */
    method Search(p: nat, c: WChar, level: nat, readings: seq<WText>, ghost open: int) returns (buf1: int, buf2: int, found: int)
      requires Lost(p) || (Entering(readings, open) && p <= bCnt && |paths[p]| == level && (open == -1 || open == p))
      ensures buf1 == buf2 == bind[p].pterSon
              || (!Lost(p) && IsSon(paths, buf1, paths[p]) && Label(paths, buf1) < c && bind[buf1].pterNext == buf2)
      ensures buf2 != -1 ==> !Lost(p) && IsSon(paths, buf2, paths[p]) && found == Label(paths, buf2) >= c
    {
      hide NextOk, SonOk, PtersOk, Leads, Label, Up, Shorts;
      if bind[p].pterSon == -1 {
        return -1, -1, 0;
      }
      ghost var b := bind[..bCnt + 1];
      buf1, buf2, found := bind[p].pterSon, bind[p].pterSon, 0;
      FirstSon(b, paths, p);
      assert bind[p] == b[p];
      while buf2 != -1
        invariant buf2 != -1 ==> IsSon(paths, buf2, paths[p])
        invariant buf1 == buf2 == bind[p].pterSon
                  || (IsSon(paths, buf1, paths[p]) && Label(paths, buf1) < c && bind[buf1].pterNext == buf2)
        decreases if buf2 == -1 then 0 else 0x1_0000 - Label(paths, buf2)
      {
        SonIsYounger(paths, p, buf2);
        found := CharOf(buf2, level, readings, open);
        if c > found {
          NextSon(b, paths, p, buf2);
          assert bind[buf2] == b[buf2];
          buf1, buf2 := buf2, bind[buf2].pterNext;
        } else {
          break;
        }
      }
    }

    /** creat_b_node: the son of p for yomi[level], made if it is missing. A node that a short cannot
        number is made all the same, but nothing leads to it. */
    method CreatBNode(yomi: WText, level: nat, p: nat, readings: seq<WText>, ghost open: int) returns (node: nat, ghost open1: int)
      requires level < |yomi|
      requires Lost(p) || (Entering(readings, open) && p <= bCnt && paths[p] == yomi[..level] && (open == -1 || open == p))
      requires Lost(p) || yomi[..level + 1] !in paths ==> bCnt + 1 < bind.Length
      modifies this`bCnt, this`paths, bind
      ensures bCnt == old(bCnt) + if !old(Lost(p)) && yomi[..level + 1] in old(paths) then 0 else 1
      ensures if bCnt < 0x8000
              then Entering(readings, open1) && node <= bCnt && paths[node] == yomi[..level + 1] && (open1 == -1 || open1 == node)
              else Lost(node)
      ensures bCnt < 0x8000 ==> paths == old(paths) + if yomi[..level + 1] in old(paths) then [] else [yomi[..level + 1]]
    {
      hide NextOk, SonOk, PtersOk, Leads, Label, Up, PathsOk, Inv, Shorts, WithNode, Gap;
      ghost var b := bind[..bCnt + 1];
      var c := yomi[level];
      var buf1, buf2, found := Search(p, c, level, readings, open);
      if buf2 != -1 && found == c {
        SonFound(b, paths, words, readings, open, p, buf2);
        ShortTrie(b, paths, words, readings, open);
        assert yomi[..level + 1] == paths[p] + [c];
        return buf2, -1;
      }
      ghost var prev := if buf1 == buf2 then 0 else buf1;
      if !Lost(p) {
        assert bind[p] == b[p];
        PlaceFound(b, paths, words, readings, open, p, c, buf1, buf2);
      }
      node := InsertNode(p, buf1, buf2, b);
      open1 := node;
      if node < 0x8000 {
        NodeAdded(b, paths, words, readings, open, p, c, prev, buf2);
        assert yomi[..level + 1] == paths[p] + [c];
        paths := paths + [paths[p] + [c]];
      }
    }

    /** The new node and the link to it, each link cut to a short. */
    method InsertNode(p: nat, buf1: int, buf2: int, ghost b: seq<BNode>) returns (node: nat)
      requires p <= bCnt && bCnt + 1 < bind.Length && b == bind[..bCnt + 1] && Shorts(b)
      requires buf1 != buf2 ==> 0 < buf1 <= bCnt
      requires -1 <= buf2 < 0x8000
      modifies this`bCnt, bind
      ensures node == bCnt == old(bCnt) + 1 && Shorts(bind[..bCnt + 1])
      ensures node < 0x8000 ==> bind[..bCnt + 1] == WithNode(b, p, if buf1 == buf2 then 0 else buf1, buf2)
      ensures bind[node].pterSon == -1
    {
      bCnt := bCnt + 1;
      node := bCnt;
      bind[node] := BNode(-1, -1, Short16(buf2));
      assert bind[p] == b[p];
      if buf1 == buf2 {
        bind[p] := bind[p].(pterSon := Short16(node));
      } else {
        assert bind[buf1] == b[buf1];
        bind[buf1] := bind[buf1].(pterNext := Short16(node));
      }
    }

    /** b_index_add: the reading now leads to serial. Each of its prefixes that has no node yet gets one.
        That needs two numbers which a `short` can hold: the serial and the last node's. */
    method BIndexAdd(yomi: WText, serial: nat, readings: seq<WText>)
      requires Valid(readings) && serial < |readings| && readings[serial] == yomi
      requires bCnt + Missing(paths, yomi, |yomi|) < bind.Length
      modifies this`bCnt, this`paths, this`words, bind
      ensures bCnt == old(bCnt) + Missing(old(paths), yomi, |yomi|)
      ensures bCnt < 0x8000 ==> |paths| == bCnt + 1 && forall q :: q in paths <==> q in old(paths) || IsPrefix(q, yomi)
      ensures bCnt < 0x8000 ==>
                forall n :: 0 <= n < |paths| && paths[n] == yomi ==> (bind[n].pter == serial <==> serial < 0x8000)
      ensures bCnt >= 0x8000 ==> NoTrie(bind[..bCnt + 1])
      ensures serial < 0x8000 && bCnt < 0x8000 ==> Valid(readings) && words == old(words)[yomi := serial]
    {
      hide Inv, WithNode, Shorts, NoTrie;
      RootPath(bind[..bCnt + 1], paths, words, readings);
      ShortTrie(bind[..bCnt + 1], paths, words, readings, -1);
      var p, open := EnterPath(yomi, readings);
      ghost var b := bind[..bCnt + 1];
      bind[p] := bind[p].(pter := Short16(serial));
      assert bind[..bCnt + 1] == b[p := b[p].(pter := Short16(serial))];
      ShortKept(b, p, serial);
      if bCnt < 0x8000 {
        OneNode(b, paths, words, readings, open, p);
        if serial < 0x8000 {
          WordAdded(b, paths, words, readings, open, p, serial);
          words := words[yomi := serial];
        }
      } else {
        TooManyNodes(bind[..bCnt + 1]);
      }
    }

    /** The loop over the characters. */
    method EnterPath(yomi: WText, readings: seq<WText>) returns (p: nat, ghost open: int)
      requires Valid(readings) && bCnt < 0x8000 && bCnt + Missing(paths, yomi, |yomi|) < bind.Length
      modifies this`bCnt, this`paths, bind
      ensures bCnt == old(bCnt) + Missing(old(paths), yomi, |yomi|) && p <= bCnt
      ensures if bCnt < 0x8000 then Entering(readings, open) && paths[p] == yomi && (open == -1 || open == p) else Lost(p)
      ensures bCnt < 0x8000 ==> forall q :: q in paths <==> q in old(paths) || IsPrefix(q, yomi)
    {
      hide Inv, Shorts, PathsOk, IsPrefix, Missing, Reached;
      ghost var ps, n := paths, bCnt;
      RootPath(bind[..bCnt + 1], paths, words, readings);
      PathsOfTrie(bind[..bCnt + 1], paths, words, readings);
      AtRoot(ps, yomi);
      p, open := 0, -1;
      var k := 0;
      while k < |yomi|
        invariant 0 <= k <= |yomi| && OnPath(ps, n, yomi, k, p, open, readings)
      {
        p, open := OneChar(yomi, k, p, readings, ps, n, open);
        k := k + 1;
      }
      AllPrefixes(ps, paths, yomi);
    }

    /** The first k characters of yomi led to node p, from a trie with paths ps. */
    ghost predicate OnPath(ps: seq<WText>, n: nat, yomi: WText, k: nat, p: nat, open: int, readings: seq<WText>)
      requires k <= |yomi|
      reads this, bind
    {
      && p <= bCnt == n + Missing(ps, yomi, k)
      && if bCnt < 0x8000
         then Entering(readings, open) && paths[p] == yomi[..k] && (open == -1 || open == p) && Reached(ps, paths, yomi, k)
         else Lost(p) && k > 0 && yomi[..k] !in ps
    }

    method OneChar(yomi: WText, k: nat, p: nat, readings: seq<WText>, ghost ps: seq<WText>, ghost n: nat, ghost open: int)
      returns (node: nat, ghost open1: int)
      requires k < |yomi| && PathsOk(ps) && OnPath(ps, n, yomi, k, p, open, readings)
      requires n + Missing(ps, yomi, |yomi|) < bind.Length
      modifies this`bCnt, this`paths, bind
      ensures OnPath(ps, n, yomi, k + 1, node, open1, readings)
    {
      hide Inv, Shorts, PathsOk, IsPrefix, Missing, Reached;
      ghost var was := paths;
      MissingGrows(ps, yomi, k + 1, |yomi|);
      OneCharFurther(ps, was, yomi, k);
      node, open1 := CreatBNode(yomi, k, p, readings, open);
    }

    /** A new word is entered here before its record is stored (Wnn/jserver/rd_jishoop.c:163-166):
        the index is right when the record says the reading. */
    method AddNewWord(yomi: WText, readings: seq<WText>)
      requires Valid(readings) && bCnt + Missing(paths, yomi, |yomi|) < bind.Length
      modifies this`bCnt, this`paths, this`words, bind
      ensures bCnt == old(bCnt) + Missing(old(paths), yomi, |yomi|)
      ensures |readings| < 0x8000 ==> (Valid(readings + [yomi]) <==> old(bCnt) + Missing(old(paths), yomi, |yomi|) < 0x8000)
      ensures |readings| < 0x8000 && bCnt < 0x8000 ==> words == old(words)[yomi := |readings|]
    {
      hide Inv, Shorts;
      ReadingsGrow(bind[..bCnt + 1], paths, words, readings, [yomi]);
      BIndexAdd(yomi, |readings|, readings + [yomi]);
    }

    /** The loop of create_b_index over the key table: the words at the heads of the chains. There is
        one node for each prefix of a key. */
    method EnterKeys(heads: seq<nat>, readings: seq<WText>)
      requires Valid(readings) && forall i :: 0 <= i < |heads| ==> heads[i] < |readings| && heads[i] < 0x8000
      requires |PathSet(paths) + KeyPrefixes(heads, readings, |heads|)| <= bind.Length
      requires |PathSet(paths) + KeyPrefixes(heads, readings, |heads|)| <= 0x8000
      modifies this`bCnt, this`paths, this`words, bind
      ensures Valid(readings) && words == Entered(old(words), heads, readings, |heads|)
      ensures PathSet(paths) == old(PathSet(paths)) + KeyPrefixes(heads, readings, |heads|) && bCnt + 1 == |PathSet(paths)|
    {
      hide Inv, PathSet, KeyPrefixes, Prefixes, Missing, Shorts, IsPrefix, NoTrie;
      ghost var ps := paths;
      PathsOfTrie(bind[..bCnt + 1], paths, words, readings);
      PathCount(paths);
      NoKeys(ps, heads, readings);
      var i := 0;
      while i < |heads|
        invariant 0 <= i <= |heads| && Valid(readings) && words == Entered(old(words), heads, readings, i)
        invariant PathSet(paths) == PathSet(ps) + KeyPrefixes(heads, readings, i) && bCnt + 1 == |PathSet(paths)|
      {
        ghost var was, w := paths, readings[heads[i]];
        MissingCounts(was, w, |w|);
        KeyPrefixesGrow(ps, heads, readings, i, was);
        BIndexAdd(readings[heads[i]], heads[i], readings);
        MorePaths(was, paths, w);
        i := i + 1;
      }
    }

    /** What is found at a node on the way, with its label already compared (jbiki_b.c:161-166 and
        194-197). */
    method Below(pattern: WText, level: nat, ptr: nat, readings: seq<WText>) returns (found: seq<int>)
      requires Valid(readings) && level < |pattern| && 0 < ptr <= bCnt && |paths[ptr]| == level + 1
      ensures Lists(found, words, readings, Sel(words, pattern, level + 1, paths[ptr]))
      decreases |pattern| - level, 0
    {
      hide PathsOk, SonOk, NextOk, Leads;
      ghost var b := bind[..bCnt + 1];
      assert bind[ptr] == b[ptr];
      if level == |pattern| - 1 {
        OnlyItself(words, pattern, level, paths[ptr]);
        return if bind[ptr].pter == -1 then [] else [bind[ptr].pter];
      } else {
        found := RdBikiB(pattern, level + 1, bind[ptr].pterSon, ptr, readings);
      }
    }

    /** rd_biki_b: the serials of exactly the readings below node p that match the pattern from
        this level on. bPtr is the first son of p. */
    method RdBikiB(pattern: WText, level: nat, bPtr: int, ghost p: nat, readings: seq<WText>) returns (found: seq<int>)
      requires Valid(readings) && level < |pattern| && p <= bCnt && |paths[p]| == level && bPtr == bind[p].pterSon
      ensures Lists(found, words, readings, Sel(words, pattern, level, paths[p]))
      decreases |pattern| - level, 2
    {
      hide Inv, Sel, Lists;
      ghost var b := bind[..bCnt + 1];
      assert bind[p] == b[p];
      if pattern[level] == Q_MARK {
        found := AllSons(pattern, level, bPtr, p, readings);
        return;
      }
      var ptr := FirstNotBelow(pattern[level], level, bPtr, p, readings);
      NothingFound(words);
      if ptr == -1 {
        NoneLabelled(b, paths, words, readings, pattern, p, ptr);
        return [];
      }
      PathOfSon(b, paths, words, readings, p, ptr);
      var c := CharOf(ptr, level, readings, -1);
      if pattern[level] < c {
        NoneLabelled(b, paths, words, readings, pattern, p, ptr);
        return [];
      }
      SelStep(words, pattern, level, paths[p]);
      assert Sel(words, pattern, level, paths[p]) == Sel(words, pattern, level + 1, paths[ptr]);
      found := Below(pattern, level, ptr, readings);
    }

    /** Passes over the sons with smaller labels. */
    method FirstNotBelow(c: WChar, level: nat, bPtr: int, ghost p: nat, readings: seq<WText>) returns (ptr: int)
      requires Valid(readings) && p <= bCnt && |paths[p]| == level && bPtr == bind[p].pterSon
      ensures ptr != -1 ==> IsSon(paths, ptr, paths[p]) && Label(paths, ptr) >= c
      ensures forall w :: w in words && paths[p] <= w && level < |w| && w[level] >= c ==>
                ptr != -1 && Label(paths, ptr) <= w[level]
    {
      hide Inv;
      ghost var b := bind[..bCnt + 1];
      assert bind[p] == b[p];
      FirstSonOf(b, paths, words, readings, p);
      ptr := bPtr;
      while ptr != -1
        invariant ptr != -1 ==> IsSon(paths, ptr, paths[p])
        invariant forall w :: w in words && paths[p] <= w && level < |w| && w[level] >= c ==>
                    ptr != -1 && Label(paths, ptr) <= w[level]
        decreases if ptr == -1 then 0 else 0x1_0000 - Label(paths, ptr)
      {
        PathOfSon(b, paths, words, readings, p, ptr);
        var ch := CharOf(ptr, level, readings, -1);
        if c > ch {
          NextSonOf(b, paths, words, readings, p, ptr);
          assert bind[ptr] == b[ptr];
          ptr := bind[ptr].pterNext;
        } else {
          break;
        }
      }
    }

    /** Q_MARK: all sons (jbiki_b.c:157-169). */
    method AllSons(pattern: WText, level: nat, bPtr: int, ghost p: nat, readings: seq<WText>) returns (found: seq<int>)
      requires Valid(readings) && level < |pattern| && p <= bCnt && |paths[p]| == level && bPtr == bind[p].pterSon
      requires pattern[level] == Q_MARK
      ensures Lists(found, words, readings, Sel(words, pattern, level, paths[p]))
      decreases |pattern| - level, 1
    {
      hide Inv, Sel, Lists;
      ghost var b, all := bind[..bCnt + 1], Sel(words, pattern, level, paths[p]);
      assert bind[p] == b[p];
      FirstSonOf(b, paths, words, readings, p);
      SelBelow(words, pattern, level, paths[p]);
      NothingFound(words);
      found := [];
      var ptr := bPtr;
      ghost var done: set<WText> := {};
      while ptr != -1
        invariant ptr != -1 ==> IsSon(paths, ptr, paths[p])
        invariant Lists(found, words, readings, done)
        invariant forall w :: w in done <==> w in all && (ptr == -1 || w[level] < Label(paths, ptr))
        decreases if ptr == -1 then 0 else 0x1_0000 - Label(paths, ptr)
      {
        PathOfSon(b, paths, words, readings, p, ptr);
        var more := Below(pattern, level, ptr, readings);
        SelStep(words, pattern, level, paths[p]);
        SelBelowSon(words, pattern, level, paths[p], Label(paths, ptr));
        BrothersInOrder(done, Sel(words, pattern, level + 1, paths[ptr]), paths[p], Label(paths, ptr));
        ListsBoth(found, more, words, readings, done, Sel(words, pattern, level + 1, paths[ptr]));
        found := found + more;
        done := done + Sel(words, pattern, level + 1, paths[ptr]);
        NextSonOf(b, paths, words, readings, p, ptr);
        assert bind[ptr] == b[ptr];
        ptr := bind[ptr].pterNext;
      }
      assert done == all;
    }

    /** jishobiki_b for one dictionary: the serials of exactly the readings that match, each once, in
        the order of their readings. */
    method Lookup(pattern: WText, readings: seq<WText>) returns (found: seq<int>)
      requires Valid(readings) && pattern != []
      ensures forall w :: w in words && Hit(pattern, w, 0) ==> words[w] in found
      ensures forall s :: s in found ==> exists w :: w in words && words[w] == s && Hit(pattern, w, 0)
      ensures InOrder(found, readings)
    {
      hide Inv;
      RootPath(bind[..bCnt + 1], paths, words, readings);
      found := RdBikiB(pattern, 0, bind[0].pterSon, 0, readings);
    }
  }

  /** create_b_index: the root, then the key table (lines 61-96). */
  method CreateBIndex(heads: seq<nat>, readings: seq<WText>, size: nat) returns (t: StrokeIndex)
    requires forall i :: 0 <= i < |heads| ==> heads[i] < |readings| && heads[i] < 0x8000
    requires |KeyPrefixes(heads, readings, |heads|)| < 0x8000 && |KeyPrefixes(heads, readings, |heads|)| < size
    ensures t.Valid(readings) && t.words == Entered(map[], heads, readings, |heads|)
    ensures forall i :: 0 <= i < |heads| ==>
              && readings[heads[i]] in t.words
              && ((forall j :: i < j < |heads| ==> readings[heads[j]] != readings[heads[i]]) ==> t.words[readings[heads[i]]] == heads[i])
    ensures forall w :: w in t.words ==> exists i :: 0 <= i < |heads| && readings[heads[i]] == w
    ensures t.bCnt == |KeyPrefixes(heads, readings, |heads|)|
  {
    hide Inv, KeyPrefixes;
    t := new StrokeIndex(size, readings);
    RootSet(t.paths, heads, readings);
    t.EnterKeys(heads, readings);
    forall i | 0 <= i < |heads| ensures readings[heads[i]] in t.words {
      EnteredIs(map[], heads, readings, |heads|, i);
    }
    forall i | 0 <= i < |heads| && forall j :: i < j < |heads| ==> readings[heads[j]] != readings[heads[i]]
      ensures t.words[readings[heads[i]]] == heads[i]
    {
      EnteredIs(map[], heads, readings, |heads|, i);
    }
    OnlyKeysEntered(map[], heads, readings, |heads|);
  }

  lemma {:induction false} EnteredIs(words: map<WText, int>, heads: seq<nat>, readings: seq<WText>, n: nat, i: nat)
    requires i < n <= |heads| && forall j :: 0 <= j < |heads| ==> heads[j] < |readings|
    ensures readings[heads[i]] in Entered(words, heads, readings, n)
    ensures (forall j :: i < j < n ==> readings[heads[j]] != readings[heads[i]]) ==>
              Entered(words, heads, readings, n)[readings[heads[i]]] == heads[i]
    decreases n
  {
    if i < n - 1 { EnteredIs(words, heads, readings, n - 1, i); }
  }

  lemma {:induction false} OnlyKeysEntered(words: map<WText, int>, heads: seq<nat>, readings: seq<WText>, n: nat)
    requires n <= |heads| && forall j :: 0 <= j < |heads| ==> heads[j] < |readings|
    ensures forall w :: w in Entered(words, heads, readings, n) ==> w in words || exists i :: 0 <= i < n && readings[heads[i]] == w
    decreases n
  {
    if n > 0 { OnlyKeysEntered(words, heads, readings, n - 1); }
  }

  lemma RootSet(paths: seq<WText>, heads: seq<nat>, readings: seq<WText>)
    requires paths == [[]] && forall i :: 0 <= i < |heads| ==> heads[i] < |readings|
    ensures |PathSet(paths) + KeyPrefixes(heads, readings, |heads|)| == 1 + |KeyPrefixes(heads, readings, |heads|)|
  {
    NoEmptyPrefix(heads, readings, |heads|);
    assert PathSet(paths) == {[]};
  }

  lemma {:induction false} NoEmptyPrefix(heads: seq<nat>, readings: seq<WText>, n: nat)
    requires n <= |heads| && forall i :: 0 <= i < |heads| ==> heads[i] < |readings|
    ensures [] !in KeyPrefixes(heads, readings, n)
    decreases n
  {
    if n > 0 {
      NoEmptyPrefix(heads, readings, n - 1);
      PrefixesAre(readings[heads[n - 1]], |readings[heads[n - 1]]|);
    }
  }

  // ----- searching -----

  const Q_MARK := '?' as int

  /** From this level on, does w match the pattern, in which Q_MARK stands for any character? */
  ghost predicate Hit(pattern: WText, w: WText, level: nat) {
    |w| == |pattern| && forall i :: level <= i < |w| ==> pattern[i] == Q_MARK || pattern[i] == w[i]
  }

  /** The readings below a path that match. */
  ghost function Sel(words: map<WText, int>, pattern: WText, level: nat, up: WText): set<WText> {
    set w | w in words && up <= w && Hit(pattern, w, level)
  }

  /** found are the serials of exactly these readings, each once, in the order of the readings. */
  ghost predicate Lists(found: seq<int>, words: map<WText, int>, readings: seq<WText>, ws: set<WText>) {
    && (forall w :: w in ws ==> w in words && words[w] in found)
    && InOrder(found, readings)
    && forall i :: 0 <= i < |found| ==> readings[found[i]] in ws && readings[found[i]] in words && words[readings[found[i]]] == found[i]
  }

  /** Serials in the order of their readings, so that none stands there twice. */
  ghost predicate InOrder(found: seq<int>, readings: seq<WText>) {
    && (forall i :: 0 <= i < |found| ==> 0 <= found[i] < |readings|)
    && forall i, j :: 0 <= i < j < |found| ==> Less(readings[found[i]], readings[found[j]])
  }

  lemma ListsBoth(f: seq<int>, g: seq<int>, words: map<WText, int>, readings: seq<WText>, x: set<WText>, y: set<WText>)
    requires Lists(f, words, readings, x) && Lists(g, words, readings, y)
    requires forall v, w :: v in x && w in y ==> Less(v, w)
    ensures Lists(f + g, words, readings, x + y)
  {
    var h := f + g;
    forall i | 0 <= i < |h| ensures 0 <= h[i] < |readings| && readings[h[i]] in x + y && readings[h[i]] in words && words[readings[h[i]]] == h[i] {
      assert h[i] == if i < |f| then f[i] else g[i - |f|];
    }
    forall i, j | 0 <= i < j < |h| ensures Less(readings[h[i]], readings[h[j]]) {
      if i < |f| <= j {
        assert readings[f[i]] in x && readings[g[j - |f|]] in y;
      }
    }
  }

  /** The first character that differs decides. */
  lemma {:induction false} DiffersAt(v: WText, w: WText, level: nat)
    requires level < |v| && level < |w| && v[..level] == w[..level] && v[level] < w[level]
    ensures Less(v, w)
    decreases level
  {
    if level > 0 {
      assert v[0] == v[..level][0] == w[..level][0] == w[0];
      assert v[1..][..level - 1] == v[..level][1..] == w[..level][1..] == w[1..][..level - 1];
      DiffersAt(v[1..], w[1..], level - 1);
    }
  }

  /** The readings below one brother come before those below the next. */
  lemma BrothersInOrder(x: set<WText>, y: set<WText>, up: WText, c: WChar)
    requires forall v :: v in x ==> up <= v && |up| < |v| && v[|up|] < c
    requires var path := up + [c]; forall w :: w in y ==> path <= w
    ensures forall v, w :: v in x && w in y ==> Less(v, w)
  {
    forall v, w | v in x && w in y ensures Less(v, w) {
      assert v[..|up|] == up == (up + [c])[..|up|] == w[..|up|] && w[|up|] == (up + [c])[|up|];
      DiffersAt(v, w, |up|);
    }
  }

  /** Every prefix of a reading has its node. */
  lemma {:induction false} PrefixHasNode(paths: seq<WText>, n: nat, k: nat)
    requires PathsOk(paths) && n < |paths| && k <= |paths[n]|
    ensures exists m :: 0 <= m < |paths| && paths[m] == paths[n][..k]
    decreases |paths[n]|
  {
    if k < |paths[n]| {
      var q :| 0 <= q < n && paths[q] == Up(paths, n);
      PrefixHasNode(paths, q, k);
      assert paths[q][..k] == paths[n][..k];
    } else {
      assert paths[n] == paths[n][..k];
    }
  }

  lemma WordsSon(b: seq<BNode>, paths: seq<WText>, words: map<WText, int>, readings: seq<WText>, w: WText, p: nat) returns (n: nat)
    requires Inv(b, paths, words, readings, -1) && p < |paths| && w in words && paths[p] <= w && |paths[p]| < |w|
    ensures IsSon(paths, n, paths[p]) && paths[n] == w[..|paths[p]| + 1] && Label(paths, n) == w[|paths[p]|]
  {
    hide SonOk, NextOk, Leads, PathsOk, Up, IsSon, Label;
    var k := |paths[p]|;
    assert w[..k] == paths[p];
    var m :| 0 <= m < |paths| && paths[m] == w;
    PrefixHasNode(paths, m, k + 1);
    n :| 0 <= n < |paths| && paths[n] == w[..k + 1];
    DistinctPaths(paths);
    SonOfPrefix(paths, n, w, k);
  }

  lemma SonOfPrefix(paths: seq<WText>, n: nat, w: WText, k: nat)
    requires 0 < n < |paths| && k < |w| && paths[n] == w[..k + 1]
    ensures IsSon(paths, n, w[..k]) && Label(paths, n) == w[k]
  {
    assert w[..k + 1][..k] == w[..k];
  }

  lemma SonInRange(paths: seq<WText>, p: nat, n: int)
    requires p < |paths|
    ensures IsSon(paths, n, paths[p]) ==> 0 < n < |paths|
  {
  }

  // ----- how many nodes a key table takes -----

  /** The number of prefixes of yomi[..k] that have no node. */
  ghost function Missing(paths: seq<WText>, yomi: WText, k: nat): (n: nat)
    requires k <= |yomi|
    ensures n <= k
  {
    if k == 0 then 0 else Missing(paths, yomi, k - 1) + if yomi[..k] in paths then 0 else 1
  }

  lemma MissingGrows(paths: seq<WText>, yomi: WText, k: nat, m: nat)
    requires k <= m <= |yomi|
    ensures Missing(paths, yomi, k) <= Missing(paths, yomi, m)
    decreases m
  {
    if k < m { MissingGrows(paths, yomi, k, m - 1); }
  }

  /** Where a path has a node, so has the path without its last character. */
  lemma ClosedUp(paths: seq<WText>, yomi: WText, k: nat)
    requires PathsOk(paths) && k < |yomi|
    ensures yomi[..k + 1] in paths ==> yomi[..k] in paths
  {
    hide PathsOk;
    if yomi[..k + 1] in paths {
      var n :| 0 <= n < |paths| && paths[n] == yomi[..k + 1];
      PrefixHasNode(paths, n, k);
      assert paths[n][..k] == yomi[..k];
    }
  }

  /** A prefix that needs a node. */
  ghost predicate IsPrefix(q: WText, w: WText) {
    q != [] && q <= w
  }

  lemma NoPrefix(yomi: WText)
    ensures forall q :: !IsPrefix(q, yomi[..0])
  {
  }

  /** The paths are those at the start, ps, and the prefixes of yomi[..k]. */
  ghost predicate Reached(ps: seq<WText>, paths: seq<WText>, yomi: WText, k: nat)
    requires k <= |yomi|
  {
    forall q :: q in paths <==> q in ps || IsPrefix(q, yomi[..k])
  }

  lemma AtRoot(ps: seq<WText>, yomi: WText)
    ensures Reached(ps, ps, yomi, 0) && Missing(ps, yomi, 0) == 0
  {
    NoPrefix(yomi);
  }

  lemma AllPrefixes(ps: seq<WText>, paths: seq<WText>, yomi: WText)
    ensures yomi[..|yomi|] == yomi
    ensures Reached(ps, paths, yomi, |yomi|) ==> forall q :: q in paths <==> q in ps || IsPrefix(q, yomi)
  {
    assert yomi[..|yomi|] == yomi;
  }

  lemma OneCharFurther(ps: seq<WText>, paths: seq<WText>, yomi: WText, k: nat)
    requires PathsOk(ps) && k < |yomi|
    ensures Missing(ps, yomi, k + 1) == Missing(ps, yomi, k) + if yomi[..k + 1] in ps then 0 else 1
    ensures yomi[..k + 1] in ps ==> yomi[..k] in ps
    ensures Reached(ps, paths, yomi, k) ==>
              && (yomi[..k + 1] in paths <==> yomi[..k + 1] in ps)
              && Reached(ps, paths + if yomi[..k + 1] in paths then [] else [yomi[..k + 1]], yomi, k + 1)
  {
    hide PathsOk, IsPrefix, Missing;
    ClosedUp(ps, yomi, k);
    MissingStep(ps, yomi, k);
    PrefixesGrow(yomi, k);
    var q, more := yomi[..k + 1], if yomi[..k + 1] in paths then [] else [yomi[..k + 1]];
    if Reached(ps, paths, yomi, k) {
      assert q in paths <==> q in ps;
      forall x ensures x in paths + more <==> x in ps || IsPrefix(x, q) {
        assert x in paths + more <==> x in paths || x == q;
      }
    }
  }

  lemma MissingStep(ps: seq<WText>, yomi: WText, k: nat)
    requires k < |yomi|
    ensures Missing(ps, yomi, k + 1) == Missing(ps, yomi, k) + if yomi[..k + 1] in ps then 0 else 1
  {
  }

  lemma PrefixesGrow(yomi: WText, k: nat)
    requires k < |yomi|
    ensures forall q :: IsPrefix(q, yomi[..k + 1]) <==> IsPrefix(q, yomi[..k]) || q == yomi[..k + 1]
    ensures !IsPrefix(yomi[..k + 1], yomi[..k])
  {
    var w := yomi[..k + 1];
    assert yomi[..k] == w[..k];
    forall q ensures IsPrefix(q, w) <==> IsPrefix(q, w[..k]) || q == w {
      if |q| <= k { PrefixOfPrefix(q, w, k); }
    }
  }

  lemma PrefixOfPrefix(q: WText, w: WText, k: nat)
    requires |q| <= k <= |w|
    ensures q <= w[..k] <==> q <= w
  {
    if q <= w { assert q == w[..k][..|q|]; }
  }

  ghost function PathSet(paths: seq<WText>): set<WText> {
    set q | q in paths
  }

  ghost function Prefixes(w: WText, n: nat): set<WText>
    requires n <= |w|
  {
    if n == 0 then {} else Prefixes(w, n - 1) + {w[..n]}
  }

  /** All prefixes of the first n keys, but the empty one. */
  ghost function KeyPrefixes(heads: seq<nat>, readings: seq<WText>, n: nat): set<WText>
    requires n <= |heads| && forall i :: 0 <= i < |heads| ==> heads[i] < |readings|
  {
    if n == 0 then {} else KeyPrefixes(heads, readings, n - 1) + Prefixes(readings[heads[n - 1]], |readings[heads[n - 1]]|)
  }

  lemma {:induction false} PrefixesAre(w: WText, n: nat)
    requires n <= |w|
    ensures forall q :: q in Prefixes(w, n) <==> IsPrefix(q, w) && |q| <= n
    decreases n
  {
    if n > 0 {
      PrefixesAre(w, n - 1);
      forall q | IsPrefix(q, w) && |q| == n ensures q == w[..n] { }
    }
  }

  lemma {:induction false} MissingCounts(paths: seq<WText>, w: WText, n: nat)
    requires n <= |w|
    ensures |PathSet(paths) + Prefixes(w, n)| == |PathSet(paths)| + Missing(paths, w, n)
    decreases n
  {
    hide PathSet, IsPrefix;
    var all := PathSet(paths);
    if n == 0 {
      assert all + Prefixes(w, 0) == all;
    } else {
      MissingCounts(paths, w, n - 1);
      NewPrefix(paths, w, n);
      OneMore(all + Prefixes(w, n - 1), w[..n]);
      assert all + Prefixes(w, n) == all + Prefixes(w, n - 1) + {w[..n]};
    }
  }

  lemma NewPrefix(paths: seq<WText>, w: WText, n: nat)
    requires 0 < n <= |w|
    ensures w[..n] in PathSet(paths) + Prefixes(w, n - 1) <==> w[..n] in paths
  {
    hide Prefixes, IsPrefix;
    PrefixesAre(w, n - 1);
    var q := w[..n];
    assert |q| == n;
  }

  lemma OneMore(s: set<WText>, q: WText)
    ensures |s + {q}| == |s| + if q in s then 0 else 1
  {
    if q in s { assert s + {q} == s; }
  }

  lemma {:induction false} DistinctCount(paths: seq<WText>, n: nat)
    requires n <= |paths| && forall m, k :: 0 <= m < k < n ==> paths[m] != paths[k]
    ensures |PathSet(paths[..n])| == n
    decreases n
  {
    if n > 0 {
      DistinctCount(paths, n - 1);
      assert paths[..n] == paths[..n - 1] + [paths[n - 1]];
      assert PathSet(paths[..n]) == PathSet(paths[..n - 1]) + {paths[n - 1]};
    }
  }

  lemma PathCount(paths: seq<WText>)
    requires PathsOk(paths)
    ensures |PathSet(paths)| == |paths|
  {
    DistinctCount(paths, |paths|);
    assert paths[..|paths|] == paths;
  }

  lemma SubsetSmaller(a: set<WText>, b: set<WText>)
    requires a <= b
    ensures |a| <= |b|
  {
    assert b == a + (b - a);
  }

  lemma {:induction false} KeyPrefixesMore(heads: seq<nat>, readings: seq<WText>, m: nat, n: nat)
    requires m <= n <= |heads| && forall i :: 0 <= i < |heads| ==> heads[i] < |readings|
    ensures KeyPrefixes(heads, readings, m) <= KeyPrefixes(heads, readings, n)
    decreases n
  {
    if m < n { KeyPrefixesMore(heads, readings, m, n - 1); }
  }

  /** The nodes that the first i + 1 keys take are among those that all keys take. */
  lemma KeyPrefixesGrow(ps: seq<WText>, heads: seq<nat>, readings: seq<WText>, i: nat, paths: seq<WText>)
    requires i < |heads| && forall j :: 0 <= j < |heads| ==> heads[j] < |readings|
    requires PathSet(paths) == PathSet(ps) + KeyPrefixes(heads, readings, i)
    ensures var w := readings[heads[i]];
            && PathSet(paths) + Prefixes(w, |w|) == PathSet(ps) + KeyPrefixes(heads, readings, i + 1)
            && |PathSet(paths) + Prefixes(w, |w|)| <= |PathSet(ps) + KeyPrefixes(heads, readings, |heads|)|
  {
    hide PathSet, Prefixes;
    var w := readings[heads[i]];
    KeyPrefixesMore(heads, readings, i + 1, |heads|);
    assert PathSet(paths) + Prefixes(w, |w|) == PathSet(ps) + KeyPrefixes(heads, readings, i + 1);
    SubsetSmaller(PathSet(ps) + KeyPrefixes(heads, readings, i + 1), PathSet(ps) + KeyPrefixes(heads, readings, |heads|));
  }

  lemma NoKeys(ps: seq<WText>, heads: seq<nat>, readings: seq<WText>)
    requires forall j :: 0 <= j < |heads| ==> heads[j] < |readings|
    ensures PathSet(ps) + KeyPrefixes(heads, readings, 0) == PathSet(ps)
  {
  }

  lemma MorePaths(was: seq<WText>, paths: seq<WText>, w: WText)
    requires forall q :: q in paths <==> q in was || IsPrefix(q, w)
    ensures PathSet(paths) == PathSet(was) + Prefixes(w, |w|)
  {
    PrefixesAre(w, |w|);
  }

  lemma PathsOfTrie(b: seq<BNode>, paths: seq<WText>, words: map<WText, int>, readings: seq<WText>)
    requires Inv(b, paths, words, readings, -1)
    ensures PathsOk(paths) && |paths| == |b|
  {
  }

  /** No trie with links that fit a short holds keys with more prefixes: EnterKeys asks for no less than
      it must. */
  lemma TooManyPrefixes(b: seq<BNode>, paths: seq<WText>, words: map<WText, int>, readings: seq<WText>, heads: seq<nat>)
    requires Inv(b, paths, words, readings, -1) && Shorts(b)
    requires forall i :: 0 <= i < |heads| ==> heads[i] < |readings| && readings[heads[i]] in words
    ensures PathSet(paths) + KeyPrefixes(heads, readings, |heads|) == PathSet(paths)
    ensures |KeyPrefixes(heads, readings, |heads|)| < |b| <= 0x8000
    ensures forall w :: w in words ==> words[w] < 0x8000
  {
    hide SonOk, NextOk, Leads, PathsOk, KeyPrefixes, Prefixes;
    ShortTrie(b, paths, words, readings, -1);
    PathCount(paths);
    RootPath(b, paths, words, readings);
    AllHaveNodes(paths, heads, readings, |heads|);
    assert paths[0] in paths;
    SubsetSmaller(KeyPrefixes(heads, readings, |heads|) + {[]}, PathSet(paths));
    forall w | w in words ensures words[w] < 0x8000 {
      var n :| 0 <= n < |paths| && paths[n] == w;
      assert b[n].pter == words[w];
    }
  }

  lemma {:induction false} AllHaveNodes(paths: seq<WText>, heads: seq<nat>, readings: seq<WText>, n: nat)
    requires PathsOk(paths) && n <= |heads|
    requires forall i :: 0 <= i < |heads| ==> heads[i] < |readings| && readings[heads[i]] in paths
    ensures KeyPrefixes(heads, readings, n) <= PathSet(paths) && [] !in KeyPrefixes(heads, readings, n)
    decreases n
  {
    hide Prefixes, PathSet, PathsOk;
    if n > 0 {
      var w := readings[heads[n - 1]];
      AllHaveNodes(paths, heads, readings, n - 1);
      PrefixesHaveNodes(paths, w);
      assert KeyPrefixes(heads, readings, n) == KeyPrefixes(heads, readings, n - 1) + Prefixes(w, |w|);
    }
  }

  lemma PrefixesHaveNodes(paths: seq<WText>, w: WText)
    requires PathsOk(paths) && w in paths
    ensures Prefixes(w, |w|) <= PathSet(paths) && [] !in Prefixes(w, |w|)
  {
    hide PathsOk, Prefixes;
    PrefixesAre(w, |w|);
    var m :| 0 <= m < |paths| && paths[m] == w;
    forall q | q in Prefixes(w, |w|) ensures q in PathSet(paths) {
      PrefixHasNode(paths, m, |q|);
      assert w[..|q|] == q;
    }
  }

  /** Nothing that the nodes could stand for makes them a trie. */
  ghost predicate NoTrie(b: seq<BNode>) {
    forall ps, ws, rs :: !Inv(b, ps, ws, rs, -1)
  }

  lemma TooManyNodes(b: seq<BNode>)
    requires Shorts(b) && |b| > 0x8000
    ensures NoTrie(b)
  {
    hide Inv, Shorts;
    forall ps, ws, rs ensures !Inv(b, ps, ws, rs, -1) {
      if Inv(b, ps, ws, rs, -1) { ShortTrie(b, ps, ws, rs, -1); }
    }
  }

  /** The last serial for each reading. */
  ghost function Entered(words: map<WText, int>, heads: seq<nat>, readings: seq<WText>, n: nat): map<WText, int>
    requires n <= |heads| && forall i :: 0 <= i < |heads| ==> heads[i] < |readings|
  {
    if n == 0 then words else Entered(words, heads, readings, n - 1)[readings[heads[n - 1]] := heads[n - 1]]
  }

  /** Later words do not disturb the index. */
  lemma ReadingsGrow(b: seq<BNode>, paths: seq<WText>, words: map<WText, int>, readings: seq<WText>, more: seq<WText>)
    requires Inv(b, paths, words, readings, -1)
    ensures Inv(b, paths, words, readings + more, -1)
  {
    hide SonOk, NextOk, PathsOk, Leads;
  }

  /** A serial that a `short` cannot hold: 40000 becomes -25536. */
  lemma ShortCuts(serial: nat)
    ensures Short16(serial) == serial <==> serial < 0x8000
    ensures Short16(40000) == -25536
  {
  }

  lemma ShortKept(b: seq<BNode>, p: nat, serial: nat)
    requires Shorts(b) && p < |b|
    ensures Shorts(b[p := b[p].(pter := Short16(serial))])
    ensures Short16(serial) == serial <==> serial < 0x8000
  {
  }

  lemma NothingFound(words: map<WText, int>)
    ensures forall readings :: Lists([], words, readings, {})
  {
  }

  lemma SelBelow(words: map<WText, int>, pattern: WText, level: nat, up: WText)
    requires level < |pattern| && |up| == level
    ensures forall w :: w in Sel(words, pattern, level, up) ==> w in words && up <= w && |w| == |pattern|
  {
  }

  lemma SelBelowSon(words: map<WText, int>, pattern: WText, level: nat, up: WText, c: WChar)
    requires |up| == level
    ensures var path := up + [c]; forall w :: w in words && w in Sel(words, pattern, level + 1, path) ==> path <= w
  {
  }

  /** The matches one level down. */
  lemma SelStep(words: map<WText, int>, pattern: WText, level: nat, up: WText)
    requires level < |pattern| && |up| == level
    ensures forall c, w :: w in Sel(words, pattern, level + 1, up + [c]) && (pattern[level] == Q_MARK || pattern[level] == c) ==>
              w in Sel(words, pattern, level, up) && w[level] == c
    ensures forall w :: w in Sel(words, pattern, level, up) ==>
              |w| > level && w in Sel(words, pattern, level + 1, up + [w[level]]) && (pattern[level] == Q_MARK || w[level] == pattern[level])
  {
  }

  lemma OnlyItself(words: map<WText, int>, pattern: WText, level: nat, path: WText)
    requires |pattern| == level + 1 == |path|
    ensures Sel(words, pattern, level + 1, path) == if path in words then {path} else {}
  {
    forall w: WText | w in words && path <= w && Hit(pattern, w, level + 1) ensures w == path { }
  }

  lemma PathOfSon(b: seq<BNode>, paths: seq<WText>, words: map<WText, int>, readings: seq<WText>, p: nat, n: int)
    requires Inv(b, paths, words, readings, -1) && p < |b| && IsSon(paths, n, paths[p])
    ensures 0 < n < |b| && paths[n] == paths[p] + [Label(paths, n)]
  {
    hide SonOk, NextOk, Leads, PtersOk, Label;
    SonIsYounger(paths, p, n);
  }

  lemma FirstSonOf(b: seq<BNode>, paths: seq<WText>, words: map<WText, int>, readings: seq<WText>, p: nat)
    requires Inv(b, paths, words, readings, -1) && p < |b|
    ensures b[p].pterSon != -1 ==> IsSon(paths, b[p].pterSon, paths[p])
    ensures forall w :: w in words && paths[p] <= w && |paths[p]| < |w| ==>
              b[p].pterSon != -1 && Label(paths, b[p].pterSon) <= w[|paths[p]|]
  {
    hide NextOk, Leads, PtersOk, Label, Up, PathsOk;
    FirstSon(b, paths, p);
    forall w | w in words && paths[p] <= w && |paths[p]| < |w|
      ensures b[p].pterSon != -1 && Label(paths, b[p].pterSon) <= w[|paths[p]|]
    {
      FirstIsLeast(b, paths, words, readings, w, p);
    }
  }

  lemma NextSonOf(b: seq<BNode>, paths: seq<WText>, words: map<WText, int>, readings: seq<WText>, p: nat, m: int)
    requires Inv(b, paths, words, readings, -1) && p < |b| && IsSon(paths, m, paths[p])
    ensures b[m].pterNext != -1 ==>
              IsSon(paths, b[m].pterNext, paths[p]) && Label(paths, m) < Label(paths, b[m].pterNext)
    ensures forall w :: w in words && paths[p] <= w && |paths[p]| < |w| && Label(paths, m) < w[|paths[p]|] ==>
              b[m].pterNext != -1 && Label(paths, b[m].pterNext) <= w[|paths[p]|]
  {
    hide SonOk, Leads, PtersOk, Label, Up, NextOk;
    DistinctPaths(paths);
    NextSon(b, paths, p, m);
    forall w | w in words && paths[p] <= w && |paths[p]| < |w| && Label(paths, m) < w[|paths[p]|]
      ensures b[m].pterNext != -1 && Label(paths, b[m].pterNext) <= w[|paths[p]|]
    {
      BetweenBrothers(b, paths, words, readings, w, p, m);
    }
  }

  /** When the first label that is not smaller is greater, nothing matches. */
  lemma NoneLabelled(b: seq<BNode>, paths: seq<WText>, words: map<WText, int>, readings: seq<WText>, pattern: WText, p: nat, ptr: int)
    requires Inv(b, paths, words, readings, -1) && p < |b| && |paths[p]| < |pattern| && pattern[|paths[p]|] != Q_MARK
    requires ptr != -1 ==> IsSon(paths, ptr, paths[p]) && Label(paths, ptr) > pattern[|paths[p]|]
    requires forall w :: w in words && paths[p] <= w && |paths[p]| < |w| && w[|paths[p]|] >= pattern[|paths[p]|] ==>
               ptr != -1 && Label(paths, ptr) <= w[|paths[p]|]
    ensures Sel(words, pattern, |paths[p]|, paths[p]) == {}
  {
    hide SonOk, Leads, PtersOk, Label, Up, NextOk;
  }

  /** Passing from a son to its brother passes over no reading. */
  lemma BetweenBrothers(b: seq<BNode>, paths: seq<WText>, words: map<WText, int>, readings: seq<WText>, w: WText, p: nat, m: int)
    requires Inv(b, paths, words, readings, -1) && p < |b| && w in words && paths[p] <= w && |paths[p]| < |w|
    requires IsSon(paths, m, paths[p])
    ensures Label(paths, m) < w[|paths[p]|] ==>
              b[m].pterNext != -1 && IsSon(paths, b[m].pterNext, paths[p]) && Label(paths, b[m].pterNext) <= w[|paths[p]|]
  {
    hide SonOk, Leads, Label, PtersOk, PathsOk;
    var n := WordsSon(b, paths, words, readings, w, p);
    assert NextOk(b, paths, m);
  }

  lemma FirstIsLeast(b: seq<BNode>, paths: seq<WText>, words: map<WText, int>, readings: seq<WText>, w: WText, p: nat)
    requires Inv(b, paths, words, readings, -1) && p < |b| && w in words && paths[p] <= w && |paths[p]| < |w|
    ensures var s := b[p].pterSon;
            s != -1 && IsSon(paths, s, paths[p]) && Label(paths, s) <= w[|paths[p]|]
  {
    hide NextOk, Leads, Label, PtersOk, PathsOk, Up;
    var n := WordsSon(b, paths, words, readings, w, p);
    assert SonOk(b, paths, p);
  }

  lemma RootPath(b: seq<BNode>, paths: seq<WText>, words: map<WText, int>, readings: seq<WText>)
    requires Inv(b, paths, words, readings, -1)
    ensures |paths| > 0 && paths[0] == []
  {
  }

  lemma OneNode(b: seq<BNode>, paths: seq<WText>, words: map<WText, int>, readings: seq<WText>, open: int, p: nat)
    requires Inv(b, paths, words, readings, open) && p < |b|
    ensures forall n :: 0 <= n < |b| && paths[n] == paths[p] ==> n == p
  {
    hide SonOk, NextOk, Leads, PtersOk;
    DistinctPaths(paths);
  }

  lemma FirstSon(b: seq<BNode>, paths: seq<WText>, p: nat)
    requires p < |b| == |paths| && forall k :: 0 <= k < |b| ==> SonOk(b, paths, k)
    ensures b[p].pterSon != -1 ==> IsSon(paths, b[p].pterSon, paths[p])
  {
    assert SonOk(b, paths, p);
  }

  lemma NextSon(b: seq<BNode>, paths: seq<WText>, p: nat, m: int)
    requires p < |b| == |paths| && IsSon(paths, m, paths[p]) && forall k :: 0 < k < |b| ==> paths[k] != [] && NextOk(b, paths, k)
    ensures b[m].pterNext != -1 ==>
              IsSon(paths, b[m].pterNext, paths[p]) && Label(paths, m) < Label(paths, b[m].pterNext)
  {
    assert NextOk(b, paths, m);
  }

  /** A node that has a son is no longer open. */
  lemma Closed(b: seq<BNode>, paths: seq<WText>, words: map<WText, int>, readings: seq<WText>, open: int, p: nat, n: int)
    requires Inv(b, paths, words, readings, open) && p < |b| && (open == -1 || open == p) && IsSon(paths, n, paths[p])
    ensures Inv(b, paths, words, readings, -1)
  {
    hide NextOk, PtersOk, PathsOk, Label, Up;
    assert SonOk(b, paths, p);
  }
}
