/** The key table shared by the reverse dictionary (`struct rind1`) and the user
    dictionary (`struct uind1`): keys in increasing order, and in each entry a link
    `pter1` to the longest other key that is a proper prefix of the entry's own key.

    Entry i spells the key `text[tab[i].pter]`, where `text` gives for each word serial
    (or chain node) the text it stands under; C recomputes that text from the record
    pool with KANJI_str at each comparison. */
module PrefixIndex {
  import opened Sequences
  import opened WString

  /** `struct rind1`, assigned as a whole when the table is shifted. */
  datatype Entry = Entry(pter1: int, pter: int)

  // ----- what a table means -----

  ghost predicate Sorted(ks: seq<WText>) {
    forall i, j :: 0 <= i < j < |ks| ==> Less(ks[i], ks[j])
  }

  /** p is the index of the longest other key that is a proper prefix of key i, or -1. */
  ghost predicate IsLink(ks: seq<WText>, i: nat, p: int)
    requires i < |ks|
  {
    && -1 <= p < |ks|
    && (p >= 0 ==> ks[p] < ks[i])
    && forall j :: 0 <= j < |ks| && ks[j] < ks[i] ==> p >= 0 && |ks[j]| <= |ks[p]|
  }

  ghost predicate Linked(ks: seq<WText>, ls: seq<int>) {
    && |ls| == |ks|
    && forall i :: 0 <= i < |ks| ==> IsLink(ks, i, ls[i])
  }

  ghost predicate InBounds(tab: seq<Entry>, n: nat) {
    forall i :: 0 <= i < |tab| ==> 0 <= tab[i].pter < n
  }

  ghost function Keys(tab: seq<Entry>, text: seq<WText>): (ks: seq<WText>)
    requires InBounds(tab, |text|)
    ensures |ks| == |tab| && forall i :: 0 <= i < |tab| ==> ks[i] == text[tab[i].pter]
  {
    seq(|tab|, i requires 0 <= i < |tab| => text[tab[i].pter])
  }

  ghost function Links(tab: seq<Entry>): (ls: seq<int>)
    ensures |ls| == |tab| && forall i :: 0 <= i < |tab| ==> ls[i] == tab[i].pter1
  {
    seq(|tab|, i requires 0 <= i < |tab| => tab[i].pter1)
  }

  /** The index invariant. */
  ghost predicate Indexed(tab: seq<Entry>, text: seq<WText>) {
    && InBounds(tab, |text|)
    && Sorted(Keys(tab, text))
    && Linked(Keys(tab, text), Links(tab))
  }

  // ----- consequences of the order -----

  lemma SortedOrder(ks: seq<WText>, i: nat, j: nat)
    requires Sorted(ks) && i < |ks| && j < |ks|
    ensures ks[i] == ks[j] <==> i == j
    ensures Less(ks[i], ks[j]) <==> i < j
    ensures ks[i] < ks[j] ==> i < j
  {
    LessAsymmetric(ks[i], ks[j]);
    if ks[i] < ks[j] {
      PrefixIsBelow(ks[i], ks[j]);
    }
  }

  lemma LinkIsBelow(ks: seq<WText>, i: nat, p: int)
    requires Sorted(ks) && i < |ks| && IsLink(ks, i, p)
    ensures p < i
  {
    if p >= 0 {
      SortedOrder(ks, p, i);
    }
  }

  lemma LinksAreUnique(ks: seq<WText>, ls: seq<int>, ms: seq<int>)
    requires Sorted(ks) && Linked(ks, ls) && Linked(ks, ms)
    ensures ls == ms
  {
    forall i | 0 <= i < |ks| ensures ls[i] == ms[i] {
      assert IsLink(ks, i, ls[i]) && IsLink(ks, i, ms[i]);
      if ls[i] >= 0 {
        assert ks[ls[i]] == ks[i][..|ks[ls[i]]|] && ks[ms[i]] == ks[i][..|ks[ms[i]]|];
        SortedOrder(ks, ls[i], ms[i]);
      }
    }
  }

  /** The last key at or before the query: every key up to `at` is <= q, every later one is > q. */
  ghost predicate Splits(ks: seq<WText>, q: WText, at: int) {
    && -1 <= at < |ks|
    && (forall i :: 0 <= i <= at ==> Leq(ks[i], q))
    && (forall i :: at < i < |ks| ==> Less(q, ks[i]))
  }

  /** r is the index of the longest stored prefix of q, or -1 when none is stored. */
  ghost predicate LongestPrefix(ks: seq<WText>, q: WText, r: int) {
    && -1 <= r < |ks|
    && (r >= 0 ==> ks[r] <= q)
    && forall j :: 0 <= j < |ks| && ks[j] <= q ==> r >= 0 && |ks[j]| <= |ks[r]|
  }

  /** A stored prefix of q below an entry that is no prefix of q lies at or below that entry's link. */
  lemma WalkSkipsNothing(ks: seq<WText>, ls: seq<int>, q: WText, x: nat, j: nat)
    requires Sorted(ks) && Linked(ks, ls) && x < |ks| && Leq(ks[x], q)
    requires j < x && ks[j] <= q
    ensures 0 <= j <= ls[x]
  {
    SortedOrder(ks, j, x);
    PrefixInterval(ks[j], ks[x], q);
    assert ks[j] < ks[x] by { SortedOrder(ks, j, x); }
    assert IsLink(ks, x, ls[x]);
    PrefixesNest(ks[j], ks[ls[x]], ks[x]);
    SortedOrder(ks, j, ls[x]);
  }

  lemma PrefixesAtOrBelow(ks: seq<WText>, q: WText, at: int)
    requires Sorted(ks) && Splits(ks, q, at)
    ensures forall j :: 0 <= j < |ks| && ks[j] <= q ==> j <= at
  {
    forall j | 0 <= j < |ks| && ks[j] <= q ensures j <= at {
      PrefixIsBelow(ks[j], q);
      LessAsymmetric(q, ks[j]);
    }
  }

  lemma LastHitIsLongest(ks: seq<WText>, q: WText, r: int)
    requires Sorted(ks) && 0 <= r < |ks| && ks[r] <= q
    requires forall j :: 0 <= j < |ks| && ks[j] <= q ==> j <= r
    ensures LongestPrefix(ks, q, r)
  {
    forall j | 0 <= j < |ks| && ks[j] <= q ensures |ks[j]| <= |ks[r]| {
      if |ks[r]| < |ks[j]| {
        PrefixesNest(ks[r], ks[j], q);
        SortedOrder(ks, r, j);
      }
    }
  }

  lemma AllAbove(ks: seq<WText>, q: WText, at: nat)
    requires Sorted(ks) && at < |ks| && Less(q, ks[at])
    ensures forall i :: at <= i < |ks| ==> Less(q, ks[i])
  {
    forall i | at < i < |ks| ensures Less(q, ks[i]) {
      LessTransitive(q, ks[at], ks[i]);
    }
  }

  lemma AllBelow(ks: seq<WText>, q: WText, at: nat)
    requires Sorted(ks) && at < |ks| && Leq(ks[at], q)
    ensures forall i :: 0 <= i <= at ==> Leq(ks[i], q)
  {
    forall i | 0 <= i < at ensures Leq(ks[i], q) {
      if ks[at] != q { LessTransitive(ks[i], ks[at], q); }
    }
  }

  // ----- searching (Wnn/jserver/jbiki.c) -----

  /** Binary search for the last key at or before yomi. */
  method RdBinary1(tary: array<Entry>, yomi: WText, end0: nat, text: seq<WText>) returns (start: int)
    requires end0 <= tary.Length && Indexed(tary[..end0], text)
    ensures Splits(Keys(tary[..end0], text), yomi, start)
  {
    ghost var ks := Keys(tary[..end0], text);
    start := -1;
    var end := end0;
    while start + 1 < end
      invariant -1 <= start < end <= end0
      invariant forall i :: 0 <= i <= start ==> Leq(ks[i], yomi)
      invariant forall i :: end <= i < end0 ==> Less(yomi, ks[i])
    {
      var key := (start + end) / 2;
      var s1 := text[tary[..end0][key].pter];
      LessTotal(s1, yomi);
      if Less(yomi, s1) {
        AllAbove(ks, yomi, key);
        end := key;
      } else {
        AllBelow(ks, yomi, key);
        start := key;
      }
    }
  }

  /** The walk along pter1 from the last key at or before yomi: its first hit is the longest
      stored prefix of yomi. Also the loop that finds the parent of a key to be inserted. */
  method FirstPrefix(tary: array<Entry>, yomi: WText, end: nat, text: seq<WText>, start0: int) returns (start: int)
    requires end <= tary.Length && Indexed(tary[..end], text)
    requires Splits(Keys(tary[..end], text), yomi, start0)
    ensures LongestPrefix(Keys(tary[..end], text), yomi, start)
    ensures start <= start0
  {
    ghost var ks, ls := Keys(tary[..end], text), Links(tary[..end]);
    PrefixesAtOrBelow(ks, yomi, start0);
    start := start0;
    while start >= 0
      invariant -1 <= start <= start0
      invariant forall j :: 0 <= j < |ks| && ks[j] <= yomi ==> j <= start
      decreases start
    {
      var tmp := text[tary[..end][start].pter];
      if tmp <= yomi {
        LastHitIsLongest(ks, yomi, start);
        return;
      }
      forall j | 0 <= j < |ks| && ks[j] <= yomi ensures j <= ls[start] {
        WalkSkipsNothing(ks, ls, yomi, start, j);
      }
      LinkIsBelow(ks, start, ls[start]);
      assert ls[start] == tary[..end][start].pter1;
      start := tary[start].pter1;
    }
  }

  method RdBinary(tary: array<Entry>, yomi: WText, end: nat, text: seq<WText>) returns (start: int)
    requires end <= tary.Length && Indexed(tary[..end], text)
    ensures LongestPrefix(Keys(tary[..end], text), yomi, start)
  {
    start := RdBinary1(tary, yomi, end, text);
    start := FirstPrefix(tary, yomi, end, text, start);
  }

  /** Finds the entry whose key is exactly yomi, or -1. */
  method RdBinarySame(tary: array<Entry>, yomi: WText, end: nat, text: seq<WText>) returns (start: int)
    requires end <= tary.Length && Indexed(tary[..end], text)
    ensures -1 <= start < end
    ensures start >= 0 ==> Keys(tary[..end], text)[start] == yomi
    ensures start == -1 ==> yomi !in Keys(tary[..end], text)
  {
    ghost var ks, ls := Keys(tary[..end], text), Links(tary[..end]);
    start := RdBinary1(tary, yomi, end, text);
    PrefixesAtOrBelow(ks, yomi, start);
    ghost var start0 := start;
    while start >= 0
      invariant -1 <= start < end
      invariant start <= start0
      invariant forall j :: 0 <= j < |ks| && ks[j] == yomi ==> j <= start
      decreases start
    {
      var tmp := text[tary[..end][start].pter];
      if tmp == yomi {
        return;
      }
      forall j | 0 <= j < |ks| && ks[j] == yomi ensures j <= ls[start] {
        WalkSkipsNothing(ks, ls, yomi, start, j);
      }
      LinkIsBelow(ks, start, ls[start]);
      assert ls[start] == tary[..end][start].pter1;
      start := tary[start].pter1;
    }
  }

  /** The entries a lookup visits after its first hit, in order. */
  ghost function Walk(ks: seq<WText>, ls: seq<int>, x: int): (w: seq<int>)
    requires Sorted(ks) && Linked(ks, ls) && -1 <= x < |ks|
    ensures forall i :: 0 <= i < |w| ==> 0 <= w[i] <= x
    decreases x + 1
  {
    if x < 0 then [] else
      assert IsLink(ks, x, ls[x]);
      LinkIsBelow(ks, x, ls[x]);
      [x] + Walk(ks, ls, ls[x])
  }

  ghost predicate LongestFirst(ks: seq<WText>, w: seq<int>) {
    && (forall a :: 0 <= a < |w| ==> 0 <= w[a] < |ks|)
    && forall a, b :: 0 <= a < b < |w| ==> |ks[w[a]]| > |ks[w[b]]|
  }

  /** From the longest stored prefix of q the links enumerate exactly the stored prefixes of q,
      longest first. */
  lemma {:induction false} WalkEnumeratesPrefixes(ks: seq<WText>, ls: seq<int>, q: WText, r: int)
    requires Sorted(ks) && Linked(ks, ls) && LongestPrefix(ks, q, r)
    ensures forall j :: 0 <= j < |ks| ==> (ks[j] <= q <==> j in Walk(ks, ls, r))
    ensures LongestFirst(ks, Walk(ks, ls, r))
    decreases r + 1
  {
    if r >= 0 {
      var p := ls[r];
      assert IsLink(ks, r, p);
      LinkIsBelow(ks, r, p);
      var w := Walk(ks, ls, p);
      forall j | 0 <= j < |ks| ensures ks[j] <= q <==> j == r || (ks[j] < ks[r]) {
        if ks[j] <= q {
          PrefixesNest(ks[j], ks[r], q);
          SortedOrder(ks, j, r);
        }
      }
      if p >= 0 {
        forall j | 0 <= j < |ks| ensures ks[j] < ks[r] <==> ks[j] <= ks[p] {
          if ks[j] < ks[r] { PrefixesNest(ks[j], ks[p], ks[r]); }
        }
        WalkEnumeratesPrefixes(ks, ls, ks[p], p);
      }
      assert LongestFirst(ks, w);
      forall b | 0 <= b < |w| ensures |ks[w[b]]| < |ks[r]| {
        assert w[b] in w;
        assert ks[w[b]] < ks[r];
      }
      assert Walk(ks, ls, r) == [r] + w;
    }
  }

  // ----- opening and closing a gap -----

  /** A link as it reads after an entry was inserted at key. */
  function Raised(link: int, key: int): int {
    if link >= key then link + 1 else link
  }

  /** A link as it reads after the entry at key, itself linked to newkey, was removed. */
  function Lowered(link: int, key: int, newkey: int): int {
    if link > key then link - 1 else if link == key then newkey else link
  }

  method MakeSpace(tary: array<Entry>, key: nat, end: nat)
    requires key <= end < tary.Length
    modifies tary
    ensures forall i :: 0 <= i < key || end < i < tary.Length ==> tary[i] == old(tary[i])
    ensures forall i :: key < i <= end ==>
              tary[i] == Entry(Raised(old(tary[i - 1]).pter1, key), old(tary[i - 1]).pter)
  {
    var p := end - 1;
    while p >= key
      invariant key - 1 <= p < end
      invariant forall i :: 0 <= i <= p ==> tary[i] == old(tary[i])
      invariant forall i :: p + 1 < i <= end ==>
                  tary[i] == Entry(Raised(old(tary[i - 1]).pter1, key), old(tary[i - 1]).pter)
      invariant forall i :: end < i < tary.Length ==> tary[i] == old(tary[i])
    {
      tary[p + 1] := tary[p];
      if tary[p + 1].pter1 >= key {
        tary[p + 1] := tary[p + 1].(pter1 := tary[p + 1].pter1 + 1);
      }
      p := p - 1;
    }
  }

  method RemoveSpace(tary: array<Entry>, key: nat, end: nat, newkey: int)
    requires key < end <= tary.Length
    modifies tary
    ensures forall i :: 0 <= i < key ==> tary[i] == old(tary[i])
    ensures forall i :: key <= i < end - 1 ==>
              tary[i] == Entry(Lowered(old(tary[i + 1]).pter1, key, newkey), old(tary[i + 1]).pter)
  {
    var p := key + 1;
    while p < end
      invariant key < p <= end
      invariant forall i :: 0 <= i < key || p <= i < end ==> tary[i] == old(tary[i])
      invariant forall i :: key <= i < p - 1 ==>
                  tary[i] == Entry(Lowered(old(tary[i + 1]).pter1, key, newkey), old(tary[i + 1]).pter)
    {
      tary[p - 1] := tary[p];
      if tary[p - 1].pter1 > key {
        tary[p - 1] := tary[p - 1].(pter1 := tary[p - 1].pter1 - 1);
      } else if tary[p - 1].pter1 == key {
        tary[p - 1] := tary[p - 1].(pter1 := newkey);
      }
      p := p + 1;
    }
  }

  lemma InsertSorted(ks: seq<WText>, q: WText, key: nat)
    requires Sorted(ks) && key <= |ks| && Splits(ks, q, key - 1) && q !in ks
    ensures Sorted(Inserted(ks, key, q))
  {
  }

  /** The link the C code leaves in entry i of the enlarged table. */
  ghost function LinkAfterInsert(ks: seq<WText>, ls: seq<int>, q: WText, key: nat, key0: int, i: nat): int
    requires key <= |ks| == |ls| && i <= |ks|
  {
    if i == key then key0
    else if i < key then ls[i]
    else
      var link := Raised(ls[i - 1], key);
      if q <= ks[i - 1] && link == key0 then key else link
  }

  lemma InsertLinked(ks: seq<WText>, ls: seq<int>, q: WText, key: nat, key0: int)
    requires Sorted(ks) && Linked(ks, ls) && key <= |ks|
    requires Splits(ks, q, key - 1) && q !in ks && LongestPrefix(ks, q, key0)
    ensures forall i :: 0 <= i <= |ks| ==>
              IsLink(Inserted(ks, key, q), i, LinkAfterInsert(ks, ls, q, key, key0, i))
  {
    var ks' := Inserted(ks, key, q);
    InsertSorted(ks, q, key);
    PrefixesAtOrBelow(ks, q, key - 1);
    forall i | 0 <= i <= |ks| ensures IsLink(ks', i, LinkAfterInsert(ks, ls, q, key, key0, i)) {
      if i == key {
        if key0 >= 0 { assert ks[key0] in ks; ProperPrefix(ks[key0], q); }
        forall j | 0 <= j < |ks'| && ks'[j] < q ensures key0 >= 0 && |ks'[j]| <= |ks'[key0]| {
          SortedOrder(ks', j, key);
          assert ks[j] <= q;
        }
      } else {
        InsertLinkedAt(ks, ls, q, key, key0, i);
      }
    }
  }

  /** No two stored prefixes of q are equally long. */
  lemma SameLength(ks: seq<WText>, q: WText, p: nat, r: nat)
    requires Sorted(ks) && p < |ks| && r < |ks|
    requires ks[p] <= q && ks[r] <= q && |ks[p]| == |ks[r]|
    ensures p == r
  {
    assert ks[p] == q[..|ks[p]|] == ks[r];
    SortedOrder(ks, p, r);
  }

  lemma InsertLinkedAt(ks: seq<WText>, ls: seq<int>, q: WText, key: nat, key0: int, i: nat)
    requires Sorted(ks) && Linked(ks, ls) && key <= |ks| && i <= |ks| && i != key
    requires Splits(ks, q, key - 1) && q !in ks && LongestPrefix(ks, q, key0) && key0 < key
    requires Sorted(Inserted(ks, key, q))
    ensures IsLink(Inserted(ks, key, q), i, LinkAfterInsert(ks, ls, q, key, key0, i))
  {
    var ks' := Inserted(ks, key, q);
    var o := if i < key then i else i - 1;
    var p := ls[o];
    var r := LinkAfterInsert(ks, ls, q, key, key0, i);
    assert IsLink(ks, o, p) && ks'[i] == ks[o];
    LinkIsBelow(ks, o, p);
    var p' := Raised(p, key);
    assert p >= 0 ==> ks'[p'] == ks[p];
    if i < key {
      if q <= ks[o] { PrefixIsBelow(q, ks[o]); LessAsymmetric(q, ks[o]); }
    } else if q <= ks[o] {
      if key0 >= 0 { assert ks[key0] in ks; ProperPrefix(ks[key0], q); }
      assert ks[o] in ks;
      if p >= 0 && |ks[p]| <= |q| {
        PrefixesNest(ks[p], q, ks[o]);
        if p != key0 && key0 >= 0 && |ks[p]| <= |ks[key0]| { SameLength(ks, q, p, key0); }
      }
    }
    forall j | 0 <= j < |ks'| && ks'[j] < ks'[i] ensures r >= 0 && |ks'[j]| <= |ks'[r]| {
      if j != key {
        var m := if j < key then j else j - 1;
        assert ks'[j] == ks[m];
        assert p >= 0 && |ks[m]| <= |ks[p]|;
      }
    }
  }

  ghost function LinksRemoved(ls: seq<int>, key: nat): (r: seq<int>)
    requires key < |ls|
    ensures |r| == |ls| - 1
    ensures forall i :: 0 <= i < key ==> r[i] == Lowered(ls[i], key, ls[key])
    ensures forall i :: key <= i < |r| ==> r[i] == Lowered(ls[i + 1], key, ls[key])
  {
    seq(|ls| - 1, i requires 0 <= i < |ls| - 1 => Lowered(ls[if i < key then i else i + 1], key, ls[key]))
  }

  lemma RemoveLinked(ks: seq<WText>, ls: seq<int>, key: nat)
    requires Sorted(ks) && Linked(ks, ls) && key < |ks|
    ensures Sorted(Removed(ks, key)) && Linked(Removed(ks, key), LinksRemoved(ls, key))
  {
    var ks', ls' := Removed(ks, key), LinksRemoved(ls, key);
    forall i' | 0 <= i' < |ks'| ensures IsLink(ks', i', ls'[i']) {
      var i := if i' < key then i' else i' + 1;
      assert IsLink(ks, i, ls[i]) && IsLink(ks, key, ls[key]);
      LinkIsBelow(ks, i, ls[i]);
      LinkIsBelow(ks, key, ls[key]);
      forall j | 0 <= j < |ks'| && ks'[j] < ks'[i'] ensures ls'[i'] >= 0 && |ks'[j]| <= |ks'[ls'[i']]| {
        var m := if j < key then j else j + 1;
        assert ks'[j] == ks[m];
        if ls[i] == key {
          PrefixesNest(ks[m], ks[key], ks[i]);
          SortedOrder(ks, m, key);
        }
      }
    }
  }

  // ----- adding a word to a table, removing a key from it -----

  ghost function Heads(tab: seq<Entry>): (ps: seq<int>)
    ensures |ps| == |tab| && forall i :: 0 <= i < |tab| ==> ps[i] == tab[i].pter
  {
    seq(|tab|, i requires 0 <= i < |tab| => tab[i].pter)
  }

  /** tab1 is tab after word `serial`, spelling q, was put in front of the chain of key q;
      when q was not stored yet it became entry `key` with a chain of its own. */
  ghost predicate KeyAdded(tab: seq<Entry>, text: seq<WText>, q: WText, key: nat, next: int, tab1: seq<Entry>)
    requires InBounds(tab, |text|)
  {
    if q in Keys(tab, text) then
      && key < |tab| && Keys(tab, text)[key] == q
      && next == tab[key].pter
      && Heads(tab1) == Heads(tab)[key := |text|]
    else
      && key <= |tab| && next == -1
      && Heads(tab1) == Inserted(Heads(tab), key, |text|)
  }

  lemma KeysAfterAdd(tab: seq<Entry>, text: seq<WText>, q: WText, key: nat, next: int, tab1: seq<Entry>)
    requires InBounds(tab, |text|) && KeyAdded(tab, text, q, key, next, tab1)
    ensures InBounds(tab1, |text| + 1)
    ensures Keys(tab1, text + [q]) ==
            if q in Keys(tab, text) then Keys(tab, text) else Inserted(Keys(tab, text), key, q)
  {
    forall i | 0 <= i < |tab1| ensures 0 <= tab1[i].pter < |text| + 1 {
      assert Heads(tab1)[i] == tab1[i].pter;
    }
    var ks := Keys(tab, text);
    var ks1 := Keys(tab1, text + [q]);
    forall i | 0 <= i < |tab1|
      ensures ks1[i] == (if q in ks then ks else Inserted(ks, key, q))[i]
    {
      assert Heads(tab1)[i] == tab1[i].pter;
    }
  }

  /** Puts word `|text|`, spelling csult, into a table (Wnn/jserver/rd_jishoop.c:142-189).
      `next` is what the word's own link must become. */
  method AddKey(tary: array<Entry>, csult: WText, end: nat, text: seq<WText>)
    returns (key: nat, next: int, end1: nat)
    requires end < tary.Length && Indexed(tary[..end], text)
    modifies tary
    ensures end <= end1 <= tary.Length
    ensures KeyAdded(old(tary[..end]), text, csult, key, next, tary[..end1])
    ensures Indexed(tary[..end1], text + [csult])
  {
    ghost var tab := tary[..end];
    ghost var ks, ls := Keys(tab, text), Links(tab);
    var at := RdBinary1(tary, csult, end, text);
    if at < 0 || text[tary[..end][at].pter] != csult {
      NotStored(ks, csult, at);
      key, end1, next := at + 1, end + 1, -1;
      InsertKey(tary, csult, key, end, text);
    } else {
      key, end1 := at, end;
      next := tary[key].pter;
      tary[key] := tary[key].(pter := |text|);
      assert csult in ks by { assert ks[key] == csult; }
      assert Heads(tary[..end1]) == Heads(tab)[key := |text|];
      KeysAfterAdd(tab, text, csult, key, next, tary[..end1]);
      assert Links(tary[..end1]) == ls;
    }
  }

  /** A key that is not in the table yet goes to its place (Wnn/jserver/rd_jishoop.c:150-181). */
  method InsertKey(tary: array<Entry>, csult: WText, key: nat, end: nat, text: seq<WText>)
    requires key <= end < tary.Length && Indexed(tary[..end], text)
    requires Splits(Keys(tary[..end], text), csult, key - 1) && csult !in Keys(tary[..end], text)
    modifies tary
    ensures KeyAdded(old(tary[..end]), text, csult, key, -1, tary[..end + 1])
    ensures Indexed(tary[..end + 1], text + [csult])
  {
    hide Splits, LongestPrefix, Linked, Sorted;
    ghost var tab := tary[..end];
    var key0 := FirstPrefix(tary, csult, end, text, key - 1);
    MakeSpace(tary, key, end);
    Reparent(tary, csult, key, key0, end + 1, text, tab);
    tary[key] := Entry(key0, |text|);
    NewKeyIndexed(tab, text, csult, key, key0, tary[..end + 1]);
  }

  lemma NotStored(ks: seq<WText>, q: WText, at: int)
    requires Sorted(ks) && Splits(ks, q, at)
    requires at < 0 || ks[at] != q
    ensures q !in ks
  {
    forall i | 0 <= i < |ks| ensures ks[i] != q {
      if i < at { SortedOrder(ks, i, at); LessAsymmetric(ks[i], ks[at]); LessAsymmetric(ks[at], q); }
      if i > at { LessIrreflexive(q); }
    }
  }

  /** Hands the new key's children over to it: the entries that follow it for as long as they
      start with csult, when they were children of its parent. */
  method Reparent(tary: array<Entry>, csult: WText, key: nat, key0: int, end: nat, text: seq<WText>, ghost tab: seq<Entry>)
    requires InBounds(tab, |text|) && Sorted(Keys(tab, text)) && key <= |tab| < end <= tary.Length && end == |tab| + 1
    requires Splits(Keys(tab, text), csult, key - 1)
    requires forall i :: 0 <= i < key ==> tary[i] == tab[i]
    requires forall i :: key < i < end ==> tary[i] == Entry(Raised(tab[i - 1].pter1, key), tab[i - 1].pter)
    modifies tary
    ensures forall i :: 0 <= i < key ==> tary[i] == tab[i]
    ensures forall i :: key < i < end ==>
              tary[i] == Entry(LinkAfterInsert(Keys(tab, text), Links(tab), csult, key, key0, i), tab[i - 1].pter)
  {
    ghost var ks, ls := Keys(tab, text), Links(tab);
    var keye := key + 1;
    while keye < end
      invariant key < keye <= end
      invariant forall i :: 0 <= i < key ==> tary[i] == tab[i]
      invariant forall o :: key <= o < keye - 1 ==> csult <= ks[o]
      invariant forall i :: key < i < keye ==>
                  tary[i] == Entry(LinkAfterInsert(ks, ls, csult, key, key0, i), tab[i - 1].pter)
      invariant forall i :: keye <= i < end ==> tary[i] == Entry(Raised(tab[i - 1].pter1, key), tab[i - 1].pter)
    {
      var tmp := text[tary[keye].pter];
      assert tmp == ks[keye - 1];
      if !(csult <= tmp) {
        forall o | keye - 1 <= o < |ks| ensures !(csult <= ks[o]) {
          if csult <= ks[o] {
            if keye - 1 < o { SortedOrder(ks, keye - 1, o); }
            PrefixInterval(csult, ks[keye - 1], ks[o]);
          }
        }
        return;
      }
      if tary[keye].pter1 == key0 {
        tary[keye] := tary[keye].(pter1 := key);
      }
      keye := keye + 1;
    }
  }

  lemma NewKeyIndexed(tab: seq<Entry>, text: seq<WText>, q: WText, key: nat, key0: int, tab1: seq<Entry>)
    requires Indexed(tab, text) && key <= |tab| && |tab1| == |tab| + 1
    requires Splits(Keys(tab, text), q, key - 1) && q !in Keys(tab, text)
    requires LongestPrefix(Keys(tab, text), q, key0)
    requires tab1[key] == Entry(key0, |text|)
    requires forall i :: 0 <= i < key ==> tab1[i] == tab[i]
    requires forall i :: key < i < |tab1| ==>
               tab1[i] == Entry(LinkAfterInsert(Keys(tab, text), Links(tab), q, key, key0, i), tab[i - 1].pter)
    ensures KeyAdded(tab, text, q, key, -1, tab1)
    ensures Indexed(tab1, text + [q])
  {
    var ks, ls := Keys(tab, text), Links(tab);
    assert Heads(tab1) == Inserted(Heads(tab), key, |text|);
    KeysAfterAdd(tab, text, q, key, -1, tab1);
    InsertSorted(ks, q, key);
    InsertLinked(ks, ls, q, key, key0);
    forall i | 0 <= i < |tab1| ensures IsLink(Inserted(ks, key, q), i, Links(tab1)[i]) {
      assert Links(tab1)[i] == LinkAfterInsert(ks, ls, q, key, key0, i);
    }
  }

  /** Removes the emptied key at index `key` and hands its children to its parent. */
  method RemoveKey(tary: array<Entry>, key: nat, end: nat, text: seq<WText>, ghost tab: seq<Entry>)
    requires key < end <= tary.Length && |tab| == end && Indexed(tab, text)
    requires forall i :: 0 <= i < end && i != key ==> tary[i] == tab[i]
    requires tary[key].pter1 == tab[key].pter1
    modifies tary
    ensures Heads(tary[..end - 1]) == Removed(Heads(tab), key)
    ensures Indexed(tary[..end - 1], text)
    ensures Keys(tary[..end - 1], text) == Removed(Keys(tab, text), key)
  {
    RemoveSpace(tary, key, end, tary[key].pter1);
    KeyGoneIndexed(tab, text, key, tary[..end - 1]);
  }

  lemma KeyGoneIndexed(tab: seq<Entry>, text: seq<WText>, key: nat, tab1: seq<Entry>)
    requires Indexed(tab, text) && key < |tab| && |tab1| == |tab| - 1
    requires forall i :: 0 <= i < key ==> tab1[i] == tab[i]
    requires forall i :: key <= i < |tab1| ==>
               tab1[i] == Entry(Lowered(tab[i + 1].pter1, key, tab[key].pter1), tab[i + 1].pter)
    ensures Heads(tab1) == Removed(Heads(tab), key)
    ensures Indexed(tab1, text)
    ensures Keys(tab1, text) == Removed(Keys(tab, text), key)
  {
    var ks, ls := Keys(tab, text), Links(tab);
    assert Heads(tab1) == Removed(Heads(tab), key);
    forall i | 0 <= i < |tab1| ensures 0 <= tab1[i].pter < |text| {
      assert tab1[i].pter == tab[if i < key then i else i + 1].pter;
    }
    assert Keys(tab1, text) == Removed(ks, key);
    assert Links(tab1) == LinksRemoved(ls, key) by {
      LinksBelow(tab, text);
    }
    RemoveLinked(ks, ls, key);
  }

  lemma LinksBelow(tab: seq<Entry>, text: seq<WText>)
    requires Indexed(tab, text)
    ensures forall i :: 0 <= i < |tab| ==> -1 <= tab[i].pter1 < i
  {
    forall i | 0 <= i < |tab| ensures -1 <= tab[i].pter1 < i {
      assert IsLink(Keys(tab, text), i, Links(tab)[i]);
      LinkIsBelow(Keys(tab, text), i, Links(tab)[i]);
    }
  }

  /** A table is determined by its keys' chain heads: the links follow from the keys. */
  lemma HeadsDetermineTable(tab: seq<Entry>, tab1: seq<Entry>, text: seq<WText>, text1: seq<WText>)
    requires Indexed(tab, text) && Indexed(tab1, text1)
    requires Heads(tab) == Heads(tab1) && Keys(tab, text) == Keys(tab1, text1)
    ensures tab == tab1
  {
    LinksAreUnique(Keys(tab, text), Links(tab), Links(tab1));
    forall i | 0 <= i < |tab| ensures tab[i] == tab1[i] {
      assert tab[i].pter == Heads(tab)[i] == Heads(tab1)[i] == tab1[i].pter;
      assert tab[i].pter1 == Links(tab)[i] == Links(tab1)[i] == tab1[i].pter1;
    }
    assert |tab| == |Heads(tab)|;
  }
}
