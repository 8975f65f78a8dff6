/** What a reverse-dictionary table means, independently of how it came about: it is determined
    by the words that stand in it, and a lookup delivers exactly the words it should. */
module IndexMeaning {
  import opened WString
  import opened PrefixIndex
  import opened WordChains

  // ----- the table is a function of the words -----

  lemma {:induction false} SortedSame(ks: seq<WText>, js: seq<WText>)
    requires Sorted(ks) && Sorted(js)
    requires forall k :: k in ks <==> k in js
    ensures ks == js
    decreases |ks|
  {
    assert js != [] ==> js[0] in js;
    assert ks != [] ==> ks[0] in ks;
    if ks != [] && js != [] {
      FirstIsLeast(ks, js[0]);
      FirstIsLeast(js, ks[0]);
      LessAsymmetric(ks[0], js[0]);
      forall k ensures k in ks[1..] <==> k in js[1..] {
        InTail(ks, k);
        InTail(js, k);
      }
      SortedSame(ks[1..], js[1..]);
      assert ks == [ks[0]] + ks[1..] && js == [js[0]] + js[1..];
    }
  }

  lemma FirstIsLeast(ks: seq<WText>, k: WText)
    requires Sorted(ks) && k in ks
    ensures Leq(ks[0], k)
  {
  }

  lemma InTail(ks: seq<WText>, k: WText)
    requires Sorted(ks) && ks != []
    ensures k in ks[1..] <==> k in ks && k != ks[0]
  {
    if k in ks[1..] {
      var i :| 0 <= i < |ks[1..]| && ks[1..][i] == k;
      assert ks[i + 1] == k;
      LessAsymmetric(ks[0], ks[i + 1]);
    }
  }

  lemma {:induction false} DownSame(c: seq<int>, d: seq<int>)
    requires StrictlyDown(c) && StrictlyDown(d)
    requires forall x :: x in c <==> x in d
    ensures c == d
    decreases |c|
  {
    assert d != [] ==> d[0] in d;
    assert c != [] ==> c[0] in c;
    if c != [] && d != [] {
      assert forall x :: x in c[1..] <==> x in c && x != c[0];
      assert forall x :: x in d[1..] <==> x in d && x != d[0];
      DownSame(c[1..], d[1..]);
      assert c == [c[0]] + c[1..] && d == [d[0]] + d[1..];
    }
  }

  lemma KeysAreTexts(heads: seq<int>, ks: seq<WText>, next: seq<int>, text: seq<WText>, live: seq<bool>, k: WText)
    requires ChainInv(heads, ks, next, text, live)
    ensures k in ks <==> exists s :: 0 <= s < |text| && live[s] && text[s] == k
  {
    if k in ks {
      var i :| 0 <= i < |ks| && ks[i] == k;
      HeadIsLive(heads, ks, next, text, live, i);
    }
  }

  /** Two tables over the same words are the same table, with the same chains. */
  lemma IndexCanonical(tab: seq<Entry>, next: seq<int>, tab1: seq<Entry>, next1: seq<int>, text: seq<WText>, live: seq<bool>)
    requires IndexInv(tab, next, text, live) && IndexInv(tab1, next1, text, live)
    ensures tab1 == tab
    ensures forall i :: 0 <= i < |tab| ==> Chain(next1, tab[i].pter) == Chain(next, tab[i].pter)
  {
    hide Chain, HoldsWordsOf, Linked;
    var heads, ks, heads1, ks1 := Heads(tab), Keys(tab, text), Heads(tab1), Keys(tab1, text);
    forall k ensures k in ks <==> k in ks1 {
      KeysAreTexts(heads, ks, next, text, live, k);
      KeysAreTexts(heads1, ks1, next1, text, live, k);
    }
    SortedSame(ks, ks1);
    forall i | 0 <= i < |tab|
      ensures heads1[i] == heads[i] && Chain(next1, heads[i]) == Chain(next, heads[i])
    {
      SameWordsSameChain(next, heads[i], next1, heads1[i], text, live, ks[i]);
    }
    assert heads1 == heads;
    HeadsDetermineTable(tab, tab1, text, text);
  }

  lemma SameWordsSameChain(next: seq<int>, h: int, next1: seq<int>, h1: int, text: seq<WText>, live: seq<bool>, k: WText)
    requires |next| == |next1| == |text| == |live| && Descending(next) && Descending(next1)
    requires 0 <= h < |next| && 0 <= h1 < |next1|
    requires HoldsWordsOf(next, h, text, live, k) && HoldsWordsOf(next1, h1, text, live, k)
    ensures h1 == h && Chain(next1, h) == Chain(next, h)
  {
    ChainDescends(next, h);
    ChainDescends(next1, h1);
    var c, d := Chain(next, h), Chain(next1, h1);
    assert forall x :: x in c ==> 0 <= x < |text|;
    assert forall x :: x in d ==> 0 <= x < |text|;
    DownSame(c, d);
  }

  // ----- a lookup -----

  /** The words a lookup delivers from entry r on: the chain of r, then what its link leads to. */
  ghost function Delivered(tab: seq<Entry>, next: seq<int>, text: seq<WText>, r: int): (found: seq<int>)
    requires Indexed(tab, text) && Descending(next) && |next| == |text| && -1 <= r < |tab|
    decreases r + 1
  {
    if r < 0 then [] else
      LinksBelow(tab, text);
      Chain(next, tab[r].pter) + Delivered(tab, next, text, tab[r].pter1)
  }

  /** Each word delivered once: words with longer keys first, and of those with keys of one length, which
      are one key when both are prefixes of the same text, the newest first. */
  ghost predicate LongestKeysFirst(found: seq<int>, text: seq<WText>) {
    && (forall a :: 0 <= a < |found| ==> 0 <= found[a] < |text|)
    && forall a, b :: 0 <= a < b < |found| ==> 
      |text[found[a]]| > |text[found[b]]| || (|text[found[a]]| == |text[found[b]]| && found[a] > found[b])
  }

  /** From the longest stored prefix of the query on, a lookup delivers exactly the words whose key
      is a prefix of the query. */
  lemma {:induction false} DeliversPrefixes(tab: seq<Entry>, next: seq<int>, text: seq<WText>, live: seq<bool>, q: WText, r: int)
    requires IndexInv(tab, next, text, live) && LongestPrefix(Keys(tab, text), q, r)
    ensures forall s :: 0 <= s < |text| ==> (s in Delivered(tab, next, text, r) <==> live[s] && text[s] <= q)
    ensures LongestKeysFirst(Delivered(tab, next, text, r), text)
    decreases r + 1
  {
    hide HoldsWordsOf, Linked, Sorted;
    var ks := Keys(tab, text);
    if r >= 0 {
      LinksBelow(tab, text);
      var p := tab[r].pter1;
      assert IsLink(ks, r, Links(tab)[r]) by { LinkAt(tab, text, r); }
      NextPrefix(ks, q, r, p);
      var q1 := if p >= 0 then ks[p] else [];
      if p >= 0 {
        DeliversPrefixes(tab, next, text, live, ks[p], p);
      }
      ChainPart(tab, next, text, live, r);
      var c, d := Chain(next, tab[r].pter), Delivered(tab, next, text, p);
      forall s | 0 <= s < |text| ensures s in c + d <==> live[s] && text[s] <= q {
        if live[s] { assert text[s] in ks; }
      }
      assert p < 0 ==> d == [];
      Joined(c, d, text, |ks[r]|);
    } else {
      forall s | 0 <= s < |text| && live[s] ensures !(text[s] <= q) {
        assert text[s] in ks;
      }
    }
  }

  lemma Joined(c: seq<int>, d: seq<int>, text: seq<WText>, n: nat)
    requires LongestKeysFirst(c, text) && LongestKeysFirst(d, text)
    requires forall s :: s in c ==> 0 <= s < |text| && |text[s]| == n
    requires forall s :: s in d ==> 0 <= s < |text| && |text[s]| < n
    ensures LongestKeysFirst(c + d, text)
  {
    forall a, b | 0 <= a < b < |c + d|
      ensures |text[(c + d)[a]]| > |text[(c + d)[b]]| || (|text[(c + d)[a]]| == |text[(c + d)[b]]| && (c + d)[a] > (c + d)[b])
    {
      if a < |c| <= b {
        assert c[a] in c && d[b - |c|] in d;
      }
    }
  }

  lemma LinkAt(tab: seq<Entry>, text: seq<WText>, r: nat)
    requires Indexed(tab, text) && r < |tab|
    ensures IsLink(Keys(tab, text), r, Links(tab)[r])
  {
  }

  /** Behind the longest stored prefix of q, the prefixes of q are those of its parent. */
  lemma NextPrefix(ks: seq<WText>, q: WText, r: nat, p: int)
    requires Sorted(ks) && LongestPrefix(ks, q, r) && IsLink(ks, r, p)
    ensures p >= 0 ==> LongestPrefix(ks, ks[p], p)
    ensures forall k :: k in ks ==> (k <= q <==> k == ks[r] || (p >= 0 && k <= ks[p]))
  {
    if p >= 0 {
      forall j | 0 <= j < |ks| && ks[j] <= ks[p] ensures |ks[j]| <= |ks[p]| {
      }
    }
    forall k | k in ks ensures k <= q <==> k == ks[r] || (p >= 0 && k <= ks[p]) {
      var j :| 0 <= j < |ks| && ks[j] == k;
      if k <= q && k != ks[r] {
        PrefixesNest(k, ks[r], q);
        ProperPrefix(k, ks[r]);
        PrefixesNest(k, ks[p], ks[r]);
      }
    }
  }

  lemma ChainPart(tab: seq<Entry>, next: seq<int>, text: seq<WText>, live: seq<bool>, r: nat)
    requires IndexInv(tab, next, text, live) && r < |tab|
    ensures var c := Chain(next, tab[r].pter);
            && (forall s :: 0 <= s < |text| ==> (s in c <==> live[s] && text[s] == Keys(tab, text)[r]))
            && (forall s :: s in c ==> 0 <= s < |text|)
            && LongestKeysFirst(c, text)
  {
    assert Heads(tab)[r] == tab[r].pter;
    assert HoldsWordsOf(next, tab[r].pter, text, live, Keys(tab, text)[r]);
    ChainDescends(next, tab[r].pter);
    var c := Chain(next, tab[r].pter);
    forall a | 0 <= a < |c| ensures 0 <= c[a] < |text| && text[c[a]] == Keys(tab, text)[r] {
      assert c[a] in c;
    }
  }

  /** rd_biki: all words of the table whose key is a prefix of yomi (Wnn/jserver/jbiki.c:587-637). */
  method RdBiki(t: RevTable, yomi: WText, text: seq<WText>, ghost live: seq<bool>) returns (found: seq<int>)
    requires t.Valid(text, live)
    ensures forall s :: 0 <= s < |text| ==> (s in found <==> live[s] && text[s] <= yomi)
    ensures LongestKeysFirst(found, text)
  {
    hide Chain, HoldsWordsOf, Linked, Sorted, Delivered, LongestKeysFirst;
    ghost var tab, next := t.tary[..t.maxri1], t.next[..|text|];
    var ind := RdBinary(t.tary, yomi, t.maxri1, text);
    DeliversPrefixes(tab, next, text, live, yomi, ind);
    ghost var all := Delivered(tab, next, text, ind);
    found := [];
    while ind >= 0
      invariant -1 <= ind < |tab|
      invariant found + Delivered(tab, next, text, ind) == all
      decreases ind
    {
      LinksBelow(tab, text);
      DeliveredStep(tab, next, text, ind);
      var chain := WalkChain(t, t.tary[ind].pter, text, live);
      found := found + chain;
      ind := t.tary[ind].pter1;
    }
    DeliveredEnd(tab, next, text);
    assert found + [] == found;
  }

  lemma DeliveredStep(tab: seq<Entry>, next: seq<int>, text: seq<WText>, r: nat)
    requires Indexed(tab, text) && Descending(next) && |next| == |text| && r < |tab|
    ensures -1 <= tab[r].pter1 < r && 0 <= tab[r].pter < |next|
    ensures Delivered(tab, next, text, r) == Chain(next, tab[r].pter) + Delivered(tab, next, text, tab[r].pter1)
  {
    LinksBelow(tab, text);
  }

  lemma DeliveredEnd(tab: seq<Entry>, next: seq<int>, text: seq<WText>)
    requires Indexed(tab, text) && Descending(next) && |next| == |text|
    ensures Delivered(tab, next, text, -1) == []
  {
  }

  lemma ChainUnfolds(next: seq<int>)
    requires Descending(next)
    ensures Chain(next, RD_ENDPTR) == []
    ensures forall p :: 0 <= p < |next| ==> Chain(next, p) == [p] + Chain(next, next[p])
  {
  }

  method WalkChain(t: RevTable, head: nat, text: seq<WText>, ghost live: seq<bool>) returns (chain: seq<int>)
    requires |text| <= t.next.Length && Descending(t.next[..|text|]) && head < |text|
    ensures chain == Chain(t.next[..|text|], head)
  {
    hide Chain;
    ghost var next := t.next[..|text|];
    chain := [];
    var p := head;
    ChainUnfolds(next);
    while p != RD_ENDPTR
      invariant RD_ENDPTR <= p < |text|
      invariant chain + Chain(next, p) == Chain(next, head)
      decreases p + 1
    {
      chain := chain + [p];
      p := t.next[p];
    }
    assert chain + [] == chain;
  }
}
