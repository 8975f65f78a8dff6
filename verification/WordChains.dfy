/** One of the two tables of a reverse dictionary: the sorted keys `ri1[which]` and, per word
    serial, the link `next[which]` that chains the words standing under the same key.

    `text[s]` is the key word s stands under and `live[s]` says whether s is a word at all
    (its part of speech is not SAKUJO_HINSI). */
module WordChains {
  import opened Sequences
  import opened WString
  import opened PrefixIndex

  const RD_ENDPTR := -1

  // ----- chains -----

  /** Every link goes to a smaller serial, so every walk along a chain ends. */
  ghost predicate Descending(next: seq<int>) {
    forall s :: 0 <= s < |next| ==> RD_ENDPTR <= next[s] < s
  }

  ghost function Chain(next: seq<int>, h: int): (c: seq<int>)
    requires Descending(next) && RD_ENDPTR <= h < |next|
    ensures forall i :: 0 <= i < |c| ==> 0 <= c[i] <= h
    ensures h >= 0 ==> |c| > 0 && c[0] == h
    decreases h + 1
  {
    if h == RD_ENDPTR then [] else [h] + Chain(next, next[h])
  }

  ghost predicate StrictlyDown(c: seq<int>) {
    forall i, j :: 0 <= i < j < |c| ==> c[i] > c[j]
  }

  lemma {:induction false} ChainDescends(next: seq<int>, h: int)
    requires Descending(next) && RD_ENDPTR <= h < |next|
    ensures StrictlyDown(Chain(next, h))
    decreases h + 1
  {
    if h >= 0 {
      ChainDescends(next, next[h]);
      assert Chain(next, h) == [h] + Chain(next, next[h]);
    }
  }

  lemma {:induction false} ChainFrame(next: seq<int>, next1: seq<int>, h: int)
    requires Descending(next) && Descending(next1) && RD_ENDPTR <= h < |next| && h < |next1|
    requires forall s :: s in Chain(next, h) ==> next1[s] == next[s]
    ensures Chain(next1, h) == Chain(next, h)
    decreases h + 1
  {
    if h >= 0 {
      assert h in Chain(next, h);
      assert forall s :: s in Chain(next, next[h]) ==> s in Chain(next, h);
      ChainFrame(next, next1, next[h]);
    }
  }

  ghost function Without(c: seq<int>, s: int): (r: seq<int>)
    ensures forall x :: x in r <==> x in c && x != s
  {
    if c == [] then [] else (if c[0] == s then [] else [c[0]]) + Without(c[1..], s)
  }

  lemma {:induction false} WithoutAbsent(c: seq<int>, s: int)
    requires s !in c
    ensures Without(c, s) == c
  {
    if c != [] {
      WithoutAbsent(c[1..], s);
      assert c == [c[0]] + c[1..];
    }
  }

  /** Unlinking s behind prev takes exactly s out of the chain. */
  lemma {:induction false} ChainUnlink(next: seq<int>, h: int, prev: int, s: int)
    requires Descending(next) && 0 <= h < |next|
    requires prev in Chain(next, h) && next[prev] == s && s >= 0
    ensures Descending(next[prev := next[s]])
    ensures Chain(next[prev := next[s]], h) == Without(Chain(next, h), s)
    decreases h
  {
    var next1 := next[prev := next[s]];
    assert Chain(next, h) == [h] + Chain(next, next[h]);
    if h == prev {
      assert Chain(next, s) == [s] + Chain(next, next[s]);
      assert prev !in Chain(next, next[s]) && s !in Chain(next, next[s]);
      ChainFrame(next, next1, next[s]);
      WithoutAbsent(Chain(next, next[s]), s);
      assert Without(Chain(next, s), s) == Chain(next, next[s]);
    } else {
      assert prev in Chain(next, next[h]);
      ChainUnlink(next, next[h], prev, s);
      assert next[h] != s && h != s by { ChainDescends(next, h); }
    }
  }

  // ----- the chains of a table -----

  /** The chain from h holds exactly the words that stand under k. */
  ghost predicate HoldsWordsOf(next: seq<int>, h: int, text: seq<WText>, live: seq<bool>, k: WText)
    requires |live| == |text| == |next| && Descending(next) && RD_ENDPTR <= h < |next|
  {
    forall s :: 0 <= s < |text| ==> (s in Chain(next, h) <==> live[s] && text[s] == k)
  }

  /** `heads[i]` starts the chain of the words standing under `ks[i]`, and every word has a key. */
  ghost predicate ChainInv(heads: seq<int>, ks: seq<WText>, next: seq<int>, text: seq<WText>, live: seq<bool>) {
    && |next| == |text| == |live| && |heads| == |ks|
    && Descending(next)
    && (forall i, j :: 0 <= i < j < |ks| ==> ks[i] != ks[j])
    && (forall i :: 0 <= i < |heads| ==> 0 <= heads[i] < |next| && HoldsWordsOf(next, heads[i], text, live, ks[i]))
    && (forall s :: 0 <= s < |text| && live[s] ==> text[s] in ks)
  }

  lemma HeadIsLive(heads: seq<int>, ks: seq<WText>, next: seq<int>, text: seq<WText>, live: seq<bool>, i: nat)
    requires ChainInv(heads, ks, next, text, live) && i < |heads|
    ensures live[heads[i]] && text[heads[i]] == ks[i]
  {
    assert HoldsWordsOf(next, heads[i], text, live, ks[i]);
    assert heads[i] in Chain(next, heads[i]);
  }

  /** A dead last serial can be given up. */
  lemma ChainsDropLast(heads: seq<int>, ks: seq<WText>, next: seq<int>, text: seq<WText>, live: seq<bool>)
    requires ChainInv(heads, ks, next, text, live) && |text| > 0 && !live[|text| - 1]
    ensures var m := |text| - 1; ChainInv(heads, ks, next[..m], text[..m], live[..m])
  {
    var m := |text| - 1;
    forall i | 0 <= i < |heads|
      ensures 0 <= heads[i] < m && HoldsWordsOf(next[..m], heads[i], text[..m], live[..m], ks[i])
    {
      HeadIsLive(heads, ks, next, text, live, i);
      assert HoldsWordsOf(next, heads[i], text, live, ks[i]);
      ChainFrame(next, next[..m], heads[i]);
    }
  }

  /** Appending a serial that is not a word. */
  lemma ChainsAddDead(heads: seq<int>, ks: seq<WText>, next: seq<int>, text: seq<WText>, live: seq<bool>, q: WText)
    requires ChainInv(heads, ks, next, text, live)
    ensures ChainInv(heads, ks, next + [RD_ENDPTR], text + [q], live + [false])
  {
    var next1 := next + [RD_ENDPTR];
    forall i | 0 <= i < |heads| ensures HoldsWordsOf(next1, heads[i], text + [q], live + [false], ks[i]) {
      assert HoldsWordsOf(next, heads[i], text, live, ks[i]);
      ChainFrame(next, next1, heads[i]);
    }
  }

  /** The new word heads the chain of its key. */
  lemma ChainsAddWord(heads: seq<int>, ks: seq<WText>, next: seq<int>, text: seq<WText>, live: seq<bool>,
                      q: WText, key: nat, nx: int, heads1: seq<int>, ks1: seq<WText>)
    requires ChainInv(heads, ks, next, text, live)
    requires if q in ks then key < |ks| && ks[key] == q && nx == heads[key] && heads1 == heads[key := |text|] && ks1 == ks
             else key <= |ks| && nx == RD_ENDPTR && heads1 == Inserted(heads, key, |text|) && ks1 == Inserted(ks, key, q)
    ensures ChainInv(heads1, ks1, next + [nx], text + [q], live + [true])
  {
    var next1, text1, live1 := next + [nx], text + [q], live + [true];
    NewChain(heads, ks, next, text, live, q, key, nx);
    forall i | 0 <= i < |heads1| ensures HoldsWordsOf(next1, heads1[i], text1, live1, ks1[i]) {
      if i != key {
        var o := if q in ks || i < key then i else i - 1;
        assert heads1[i] == heads[o] && ks1[i] == ks[o] != q;
        OldChain(next, nx, heads[o], text, live, ks[o], q);
      }
    }
    forall k | k in ks ensures k in ks1 {
      var i :| 0 <= i < |ks| && ks[i] == k;
      assert ks1[if q in ks || i < key then i else i + 1] == k;
    }
    forall s | 0 <= s < |text1| && live1[s] ensures text1[s] in ks1 {
      if s < |text| { assert text1[s] == text[s]; } else { assert ks1[key] == q; }
    }
  }

  lemma NewChain(heads: seq<int>, ks: seq<WText>, next: seq<int>, text: seq<WText>, live: seq<bool>,
                 q: WText, key: nat, nx: int)
    requires ChainInv(heads, ks, next, text, live)
    requires if q in ks then key < |ks| && ks[key] == q && nx == heads[key] else nx == RD_ENDPTR
    ensures Descending(next + [nx])
    ensures HoldsWordsOf(next + [nx], |text|, text + [q], live + [true], q)
  {
    var n, next1 := |text|, next + [nx];
    assert Chain(next1, n) == [n] + Chain(next1, nx);
    if nx != RD_ENDPTR {
      assert HoldsWordsOf(next, nx, text, live, q);
      ChainFrame(next, next1, nx);
    }
  }

  lemma OldChain(next: seq<int>, nx: int, h: int, text: seq<WText>, live: seq<bool>, k: WText, q: WText)
    requires |live| == |text| == |next| && Descending(next) && RD_ENDPTR <= h < |next|
    requires HoldsWordsOf(next, h, text, live, k) && k != q
    requires RD_ENDPTR <= nx < |next|
    ensures Descending(next + [nx])
    ensures HoldsWordsOf(next + [nx], h, text + [q], live + [true], k)
  {
    ChainFrame(next, next + [nx], h);
  }

  /** next1 and h1 are what unlinking word s from the chain of entry ind leaves. */
  ghost predicate Unlinked(heads: seq<int>, next: seq<int>, text: seq<WText>, live: seq<bool>,
                           ind: nat, s: nat, next1: seq<int>, h1: int)
    requires |next| == |text| == |live| && Descending(next) && ind < |heads| && 0 <= heads[ind] < |next| && s < |text|
  {
    && Descending(next1) && |next1| == |next| && RD_ENDPTR <= h1 < |next|
    && (forall x :: 0 <= x < |next| && !(live[x] && text[x] == text[s]) ==> next1[x] == next[x])
    && Chain(next1, h1) == Without(Chain(next, heads[ind]), s)
  }

  /** Taking word s out of the chain of its key leaves every other chain alone. */
  lemma OtherChainsKept(heads: seq<int>, ks: seq<WText>, next: seq<int>, text: seq<WText>, live: seq<bool>,
                   ind: nat, s: nat, next1: seq<int>, h1: int)
    requires ChainInv(heads, ks, next, text, live) && s < |text| && live[s]
    requires ind < |ks| && ks[ind] == text[s]
    requires Unlinked(heads, next, text, live, ind, s, next1, h1)
    ensures forall i :: 0 <= i < |ks| && i != ind ==> HoldsWordsOf(next1, heads[i], text, live[s := false], ks[i])
    ensures HoldsWordsOf(next1, h1, text, live[s := false], text[s])
  {
    assert HoldsWordsOf(next, heads[ind], text, live, ks[ind]);
    forall i | 0 <= i < |ks| && i != ind
      ensures HoldsWordsOf(next1, heads[i], text, live[s := false], ks[i])
    {
      assert HoldsWordsOf(next, heads[i], text, live, ks[i]);
      forall x | x in Chain(next, heads[i]) ensures next1[x] == next[x] {
        assert text[x] == ks[i];
      }
      ChainFrame(next, next1, heads[i]);
    }
  }

  lemma ChainsNewHead(heads: seq<int>, ks: seq<WText>, next: seq<int>, text: seq<WText>, live: seq<bool>,
                      ind: nat, s: nat, next1: seq<int>, h1: nat)
    requires ChainInv(heads, ks, next, text, live) && s < |text| && live[s]
    requires ind < |ks| && ks[ind] == text[s]
    requires Unlinked(heads, next, text, live, ind, s, next1, h1)
    ensures ChainInv(heads[ind := h1], ks, next1, text, live[s := false])
    ensures text[h1] == ks[ind]
  {
    OtherChainsKept(heads, ks, next, text, live, ind, s, next1, h1);
    assert h1 in Chain(next1, h1);
  }

  lemma ChainsKeyGone(heads: seq<int>, ks: seq<WText>, next: seq<int>, text: seq<WText>, live: seq<bool>,
                      ind: nat, s: nat, next1: seq<int>)
    requires ChainInv(heads, ks, next, text, live) && s < |text| && live[s]
    requires ind < |ks| && ks[ind] == text[s]
    requires Unlinked(heads, next, text, live, ind, s, next1, RD_ENDPTR)
    ensures ChainInv(Removed(heads, ind), Removed(ks, ind), next1, text, live[s := false])
  {
    hide Chain, HoldsWordsOf, Removed, Without;
    OtherChainsKept(heads, ks, next, text, live, ind, s, next1, RD_ENDPTR);
    var heads1, ks1, live1 := Removed(heads, ind), Removed(ks, ind), live[s := false];
    NoneLeft(next1, text, live1, text[s]);
    forall i | 0 <= i < |heads1| ensures HoldsWordsOf(next1, heads1[i], text, live1, ks1[i]) {
      var o := if i < ind then i else i + 1;
      assert HoldsWordsOf(next1, heads[o], text, live1, ks[o]);
    }
    forall x | 0 <= x < |text| && live1[x] ensures text[x] in ks1 {
      KeyStays(ks, ind, text[x]);
    }
  }

  lemma NoneLeft(next: seq<int>, text: seq<WText>, live: seq<bool>, k: WText)
    requires |live| == |text| == |next| && Descending(next)
    requires HoldsWordsOf(next, RD_ENDPTR, text, live, k)
    ensures forall x :: 0 <= x < |text| && live[x] ==> text[x] != k
  {
    forall x | 0 <= x < |text| && live[x] ensures text[x] != k {
      assert x !in Chain(next, RD_ENDPTR);
    }
  }

  lemma KeyStays(ks: seq<WText>, ind: nat, k: WText)
    requires ind < |ks| && k in ks && k != ks[ind]
    ensures k in Removed(ks, ind)
  {
    var o :| 0 <= o < |ks| && ks[o] == k;
    assert Removed(ks, ind)[if o < ind then o else o - 1] == k;
  }

  // ----- the table invariant -----

  ghost predicate IndexInv(tab: seq<Entry>, next: seq<int>, text: seq<WText>, live: seq<bool>) {
    && Indexed(tab, text)
    && ChainInv(Heads(tab), Keys(tab, text), next, text, live)
  }

  /** The text of a dead word does not matter. */
  lemma IndexFrame(tab: seq<Entry>, next: seq<int>, text: seq<WText>, live: seq<bool>, text1: seq<WText>)
    requires IndexInv(tab, next, text, live) && |text1| == |text|
    requires forall s :: 0 <= s < |text| && live[s] ==> text1[s] == text[s]
    ensures IndexInv(tab, next, text1, live)
    ensures Keys(tab, text1) == Keys(tab, text)
  {
    forall i | 0 <= i < |tab| ensures text1[tab[i].pter] == text[tab[i].pter] {
      HeadIsLive(Heads(tab), Keys(tab, text), next, text, live, i);
    }
    assert Keys(tab, text1) == Keys(tab, text);
    forall i | 0 <= i < |tab| ensures HoldsWordsOf(next, Heads(tab)[i], text1, live, Keys(tab, text)[i]) {
      assert HoldsWordsOf(next, Heads(tab)[i], text, live, Keys(tab, text)[i]);
    }
  }

  lemma IndexDropLast(tab: seq<Entry>, next: seq<int>, text: seq<WText>, live: seq<bool>)
    requires IndexInv(tab, next, text, live) && |text| > 0 && !live[|text| - 1]
    ensures var m := |text| - 1;
            IndexInv(tab, next[..m], text[..m], live[..m]) && Keys(tab, text[..m]) == Keys(tab, text)
  {
    var m := |text| - 1;
    ChainsDropLast(Heads(tab), Keys(tab, text), next, text, live);
    forall i | 0 <= i < |tab| ensures 0 <= tab[i].pter < m {
      assert Heads(tab)[i] == tab[i].pter;
    }
    assert Keys(tab, text[..m]) == Keys(tab, text);
  }

  lemma IndexAddDead(tab: seq<Entry>, next: seq<int>, text: seq<WText>, live: seq<bool>, q: WText)
    requires IndexInv(tab, next, text, live)
    ensures IndexInv(tab, next + [RD_ENDPTR], text + [q], live + [false])
    ensures Keys(tab, text + [q]) == Keys(tab, text)
  {
    assert Keys(tab, text + [q]) == Keys(tab, text);
    ChainsAddDead(Heads(tab), Keys(tab, text), next, text, live, q);
  }

  // ----- the table object -----

  class RevTable {
    const tary: array<Entry>
    var maxri1: nat
    const next: array<int>

    constructor (entries: nat, words: nat)
      ensures fresh(tary) && fresh(next) && tary.Length == entries && next.Length == words
      ensures maxri1 == 0 && Valid([], [])
    {
      tary := new Entry[entries](_ => Entry(-1, RD_ENDPTR));
      next := new int[words](_ => RD_ENDPTR);
      maxri1 := 0;
    }

    ghost predicate Valid(text: seq<WText>, live: seq<bool>)
      reads this, tary, next
    {
      && maxri1 <= tary.Length && |text| <= next.Length
      && IndexInv(tary[..maxri1], next[..|text|], text, live)
    }

    /** Puts word |text|, spelling csult, in front of the chain of its key, making the key if
        it is new (Wnn/jserver/rd_jishoop.c:140-190). */
    method Add(csult: WText, text: seq<WText>, ghost live: seq<bool>)
      requires Valid(text, live) && maxri1 < tary.Length && |text| < next.Length
      modifies this, tary, next
      ensures Valid(text + [csult], live + [true])
      ensures next[..|text|] == old(next[..|text|]) && maxri1 <= old(maxri1) + 1
      ensures exists key :: KeyAdded(old(tary[..maxri1]), text, csult, key, next[|text|], tary[..maxri1])
    {
      ghost var tab, nexts := tary[..maxri1], next[..|text|];
      var key, nx, end1 := AddKey(tary, csult, maxri1, text);
      maxri1 := end1;
      next[|text|] := nx;
      assert next[..|text + [csult]|] == nexts + [nx];
      KeysAfterAdd(tab, text, csult, key, nx, tary[..maxri1]);
      ChainsAddWord(Heads(tab), Keys(tab, text), nexts, text, live, csult, key, nx,
                    Heads(tary[..maxri1]), Keys(tary[..maxri1], text + [csult]));
    }

    /** Takes word `serial` out of the chain of its key, and the key out of the table when no
        other word stands under it (Wnn/jserver/rd_jishoop.c:217-248). */
    method Delete(yomi: WText, serial: nat, text: seq<WText>, ghost live: seq<bool>) returns (ok: bool)
      requires Valid(text, live) && serial < |text|
      requires live[serial] ==> yomi == text[serial]
      modifies this, tary, next
      ensures ok <==> live[serial]
      ensures ok ==> Valid(text, live[serial := false])
      ensures maxri1 <= old(maxri1)
      ensures !ok ==> tary[..] == old(tary[..]) && next[..] == old(next[..]) && maxri1 == old(maxri1)
    {
      ghost var tab, nexts, ks := tary[..maxri1], next[..|text|], Keys(tary[..maxri1], text);
      var ind1 := RdBinary(tary, yomi, maxri1, text);
      if live[serial] { ExactKeyIsLongest(ks, yomi, ind1); }
      if ind1 == -1 {
        return false;
      }
      assert Heads(tab)[ind1] == tab[ind1].pter && HoldsWordsOf(nexts, tab[ind1].pter, text, live, ks[ind1]);
      var prev := FindLink(tary[ind1].pter, serial, text, live);
      if prev == -2 {
        return false;
      }
      Unlink(ind1, prev, serial, text, live);
      return true;
    }

    /** Closes the chain over `serial`, which prev (or, for -1, the key's entry) links to. */
    method Unlink(ind1: nat, prev: int, serial: nat, text: seq<WText>, ghost live: seq<bool>)
      requires Valid(text, live) && serial < |text| && live[serial]
      requires ind1 < maxri1 && Keys(tary[..maxri1], text)[ind1] == text[serial]
      requires if prev == -1 then tary[ind1].pter == serial
               else 0 <= prev < |text| && next[prev] == serial && prev in Chain(next[..|text|], tary[ind1].pter)
      modifies this, tary, next
      ensures Valid(text, live[serial := false]) && maxri1 <= old(maxri1)
    {
      hide Chain, HoldsWordsOf, Linked, Sorted;
      ghost var tab, nexts, ks := tary[..maxri1], next[..|text|], Keys(tary[..maxri1], text);
      ghost var heads := Heads(tab);
      assert heads[ind1] == tab[ind1].pter && HoldsWordsOf(nexts, heads[ind1], text, live, ks[ind1]);
      LinkClosed(heads, nexts, text, live, ind1, serial, prev);
      if prev == -1 {
        tary[ind1] := tary[ind1].(pter := next[serial]);
      } else {
        next[prev] := next[serial];
      }
      ghost var nexts1, h1 := next[..|text|], tary[ind1].pter;
      assert nexts1 == if prev == -1 then nexts else nexts[prev := nexts[serial]];
      if tary[ind1].pter == RD_ENDPTR {
        ChainsKeyGone(heads, ks, nexts, text, live, ind1, serial, nexts1);
        RemoveKey(tary, ind1, maxri1, text, tab);
        maxri1 := maxri1 - 1;
      } else {
        ChainsNewHead(heads, ks, nexts, text, live, ind1, serial, nexts1, h1);
        HeadReplaced(tab, tary[..maxri1], text, ind1, h1);
      }
    }

    /** The word whose link leads to `serial` on the chain from `head`: -1 when it is the chain's
        head itself, -2 when the chain ends without reaching it. */
    method FindLink(head: int, serial: nat, text: seq<WText>, ghost live: seq<bool>) returns (prev: int)
      requires |text| <= next.Length && Descending(next[..|text|]) && 0 <= head < |text|
      ensures prev == -2 <==> serial !in Chain(next[..|text|], head)
      ensures prev == -1 ==> head == serial
      ensures prev >= 0 ==> prev in Chain(next[..|text|], head) && next[prev] == serial
      ensures -2 <= prev < |text|
    {
      ghost var nexts := next[..|text|];
      var pt := head;
      prev := -1;
      while pt != serial
        invariant RD_ENDPTR <= pt < |text| && -1 <= prev < |text|
        invariant if prev == -1 then pt == head else prev in Chain(nexts, head) && nexts[prev] == pt
        invariant serial in Chain(nexts, head) <==> serial in Chain(nexts, pt)
        invariant forall x :: x in Chain(nexts, pt) ==> x in Chain(nexts, head)
        decreases pt + 1
      {
        if pt == RD_ENDPTR {
          return -2;
        }
        assert pt in Chain(nexts, pt);
        assert Chain(nexts, pt) == [pt] + Chain(nexts, nexts[pt]);
        prev := pt;
        pt := next[pt];
      }
      assert serial in Chain(nexts, pt);
    }
  }

  lemma HeadReplaced(tab: seq<Entry>, tab1: seq<Entry>, text: seq<WText>, ind: nat, h: nat)
    requires Indexed(tab, text) && ind < |tab| && h < |text| && text[h] == Keys(tab, text)[ind]
    requires tab1 == tab[ind := tab[ind].(pter := h)]
    ensures Indexed(tab1, text) && Keys(tab1, text) == Keys(tab, text)
    ensures Heads(tab1) == Heads(tab)[ind := h]
  {
    assert Keys(tab1, text) == Keys(tab, text);
    assert Links(tab1) == Links(tab);
  }

  lemma ExactKeyIsLongest(ks: seq<WText>, q: WText, r: int)
    requires LongestPrefix(ks, q, r) && q in ks
    ensures r >= 0 && ks[r] == q
  {
    var j :| 0 <= j < |ks| && ks[j] == q;
    assert ks[j] <= q;
    if ks[r] != q { ProperPrefix(ks[r], q); }
  }

  lemma LinkClosed(heads: seq<int>, next: seq<int>, text: seq<WText>, live: seq<bool>, ind: nat, s: nat, prev: int)
    requires |next| == |text| == |live| && Descending(next) && ind < |heads| && 0 <= heads[ind] < |next| && s < |text|
    requires live[s] && HoldsWordsOf(next, heads[ind], text, live, text[s])
    requires if prev == -1 then heads[ind] == s
             else 0 <= prev < |text| && next[prev] == s && prev in Chain(next, heads[ind])
    ensures if prev == -1 then Unlinked(heads, next, text, live, ind, s, next, next[s])
            else Unlinked(heads, next, text, live, ind, s, next[prev := next[s]], heads[ind])
  {
    if prev == -1 {
      WithoutAbsent(Chain(next, next[s]), s);
      assert Chain(next, s) == [s] + Chain(next, next[s]);
    } else {
      ChainUnlink(next, heads[ind], prev, s);
    }
  }
}
