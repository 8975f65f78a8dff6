/** The user dictionary: a sorted table of readings over chains of intervals
    (Wnn/jserver/jishoop.c:238-263, 486-588, and its lookup, Wnn/jserver/jishosub.c:299-360). */
module UserDict {
  import opened Sequences
  import opened WString
  import opened PrefixIndex
  import opened KanjiPool
  import opened UserChains
  import opened Jdata
  import RevWords

  /** The reading at each offset of the body where a node stands. */
  function TextOf(hm: Body, top: nat): (text: seq<WText>)
    ensures |text| == top && forall o :: 0 <= o < top ==> text[o] == if o in hm then hm[o].yomi else []
  {
    seq(top, o requires 0 <= o < top => if o in hm then hm[o].yomi else [])
  }

  ghost predicate InUse(chains: seq<seq<nat>>, o: nat) {
    exists k :: 0 <= k < |chains| && o in chains[k]
  }

  /** The nodes in use lie one behind the other in the body, which ends at top. */
  ghost predicate BodyOk(hm: Body, top: nat, chains: seq<seq<nat>>) {
    && (forall o :: InUse(chains, o) ==> o in hm && 4 <= o && End(o, hm[o].yomi) <= top)
    && (forall o, q :: InUse(chains, o) && InUse(chains, q) && o < q ==> End(o, hm[o].yomi) <= q)
  }

  /** The table is an index by readings; below each stands the chain of the words with it. */
  ghost predicate TableOk(tab: seq<Entry>, hm: Body, top: nat, chains: seq<seq<nat>>, places: Places, b: seq<Byte>) {
    && Indexed(tab, TextOf(hm, top)) && |chains| == |tab|
    && (forall k :: 0 <= k < |tab| ==>
          chains[k] != [] && tab[k].pter >= 0 && ChainOk(hm, tab[k].pter, chains[k], Keys(tab, TextOf(hm, top))[k], places, b))
    && (forall s :: s in places ==> places[s].yomi in Keys(tab, TextOf(hm, top)))
  }

  /** Every word has a legible record, and no two share a byte of the pool. */
  ghost predicate PlacesOk(places: Places, b: seq<Byte>, maxserial: nat) {
    && (forall s :: s in places ==> 0 <= s < maxserial && HeaderAt(b, places[s].ptr))
    && (forall s, t :: s in places && t in places && s != t ==> Apart(b, places[s].ptr, places[t].ptr))
  }

  // ----- what one change to a chain does to the table -----

  lemma KeysDiffer(tab: seq<Entry>, text: seq<WText>)
    requires Indexed(tab, text)
    ensures forall i, j :: 0 <= i < |tab| && 0 <= j < |tab| && Keys(tab, text)[i] == Keys(tab, text)[j] ==> i == j
  {
    var ks := Keys(tab, text);
    forall i, j | 0 <= i < |tab| && 0 <= j < |tab| && ks[i] == ks[j] ensures i == j {
      SortedOrder(ks, i, j);
    }
  }

  /** An index stays one when heads move among nodes with the same reading. */
  lemma HeadsMoved(tab: seq<Entry>, text: seq<WText>, tab1: seq<Entry>, text1: seq<WText>)
    requires Indexed(tab, text) && |tab1| == |tab| && InBounds(tab1, |text1|)
    requires forall k :: 0 <= k < |tab| ==> tab1[k].pter1 == tab[k].pter1 && text1[tab1[k].pter] == text[tab[k].pter]
    ensures Indexed(tab1, text1) && Keys(tab1, text1) == Keys(tab, text)
  {
    assert Keys(tab1, text1) == Keys(tab, text) && Links(tab1) == Links(tab);
  }

  lemma OffsetReading(tab: seq<Entry>, hm: Body, top: nat, chains: seq<seq<nat>>, places: Places, b: seq<Byte>, k: nat, o: nat)
    requires TableOk(tab, hm, top, chains, places, b) && k < |tab| && o in chains[k]
    ensures o in hm && hm[o].yomi == Keys(tab, TextOf(hm, top))[k]
  {
    var i :| 0 <= i < |chains[k]| && chains[k][i] == o;
    assert NodeOk(hm[chains[k][i]], Keys(tab, TextOf(hm, top))[k], places, b);
  }

  /** Chain ind becomes c1, headed by head1, and loses the serial; nothing else changes. */
  lemma ChainChanged(tab: seq<Entry>, hm: Body, top: nat, chains: seq<seq<nat>>, places: Places, b: seq<Byte>,
                     ind: nat, serial: int, hm1: Body, top1: nat, head1: nat, c1: seq<nat>)
    requires TableOk(tab, hm, top, chains, places, b) && ind < |tab| && BodyOk(hm, top, chains)
    requires serial in places && places[serial].yomi == Keys(tab, TextOf(hm, top))[ind]
    requires forall o :: o in hm && o !in chains[ind] && o < top ==> o in hm1 && hm1[o] == hm[o]
    requires c1 != [] && head1 < top1
    requires ChainOk(hm1, head1, c1, Keys(tab, TextOf(hm, top))[ind], places - {serial}, b)
    requires forall k :: 0 <= k < |tab| && k != ind ==> tab[k].pter < top1
    ensures TableOk(tab[ind := Entry(tab[ind].pter1, head1)], hm1, top1, chains[ind := c1], places - {serial}, b)
  {
    hide Threaded, NodeOk, BodyOk, Linked, Sorted, ChainOk;
    var text, text1 := TextOf(hm, top), TextOf(hm1, top1);
    var tab1, ks := tab[ind := Entry(tab[ind].pter1, head1)], Keys(tab, text);
    KeysDiffer(tab, text);
    HeadInChain(hm1, head1, c1, ks[ind], places - {serial}, b);
    forall k | 0 <= k < |tab| && k != ind
      ensures ChainOk(hm1, tab[k].pter, chains[k], ks[k], places - {serial}, b) && text1[tab[k].pter] == text[tab[k].pter]
    {
      ChainElsewhere(tab, hm, top, chains, places, b, ind, k, hm1);
      OtherChain(hm, hm1, tab[k].pter, chains[k], ks[k], places, b, serial);
      HeadInChain(hm, tab[k].pter, chains[k], ks[k], places, b);
      HeadInChain(hm1, tab[k].pter, chains[k], ks[k], places - {serial}, b);
    }
    HeadsMoved(tab, text, tab1, text1);
  }

  lemma HeadInChain(hm: Body, head: nat, c: seq<nat>, yomi: WText, places: Places, b: seq<Byte>)
    requires ChainOk(hm, head, c, yomi, places, b) && c != []
    ensures head == c[0] && head in hm && hm[head].yomi == yomi
  {
    assert NodeOk(hm[c[0]], yomi, places, b);
  }

  lemma ChainElsewhere(tab: seq<Entry>, hm: Body, top: nat, chains: seq<seq<nat>>, places: Places, b: seq<Byte>, ind: nat, k: nat, hm1: Body)
    requires TableOk(tab, hm, top, chains, places, b) && ind < |tab| && k < |tab| && k != ind && BodyOk(hm, top, chains)
    requires forall o :: o in hm && o !in chains[ind] && o < top ==> o in hm1 && hm1[o] == hm[o]
    ensures forall i :: 0 <= i < |chains[k]| ==> chains[k][i] in hm && chains[k][i] in hm1 && hm1[chains[k][i]] == hm[chains[k][i]]
  {
    hide ChainOk, Sorted;
    KeysDiffer(tab, TextOf(hm, top));
    forall i | 0 <= i < |chains[k]|
      ensures chains[k][i] in hm && chains[k][i] in hm1 && hm1[chains[k][i]] == hm[chains[k][i]]
    {
      var o := chains[k][i];
      OffsetReading(tab, hm, top, chains, places, b, k, o);
      if o in chains[ind] {
        OffsetReading(tab, hm, top, chains, places, b, ind, o);
      }
      assert InUse(chains, o);
    }
  }

  /** Chain ind held nothing but the serial: its key leaves the table. */
  lemma KeyRemoved(tab: seq<Entry>, hm: Body, top: nat, chains: seq<seq<nat>>, places: Places, b: seq<Byte>,
                   ind: nat, serial: int, tab1: seq<Entry>)
    requires TableOk(tab, hm, top, chains, places, b) && ind < |tab|
    requires forall s :: s in places && places[s].yomi == Keys(tab, TextOf(hm, top))[ind] <==> s == serial
    requires Indexed(tab1, TextOf(hm, top)) && Heads(tab1) == Removed(Heads(tab), ind)
    requires Keys(tab1, TextOf(hm, top)) == Removed(Keys(tab, TextOf(hm, top)), ind)
    ensures TableOk(tab1, hm, top, Removed<seq<nat>>(chains, ind), places - {serial}, b)
  {
    hide NodeOk, Linked, Sorted, ChainOk, TextOf, Removed;
    var ks, ks1, d := Keys(tab, TextOf(hm, top)), Keys(tab1, TextOf(hm, top)), Removed<seq<nat>>(chains, ind);
    KeysDiffer(tab, TextOf(hm, top));
    WithoutEntry(tab, tab1, ks, ks1, chains, ind);
    forall k | 0 <= k < |tab1| ensures d[k] != [] && tab1[k].pter >= 0 && ChainOk(hm, tab1[k].pter, d[k], ks1[k], places - {serial}, b) {
      var j := if k < ind then k else k + 1;
      assert tab1[k].pter == tab[j].pter;
      SameChainWithout(hm, tab[j].pter, chains[j], ks[j], places, b, serial);
    }
    forall s | s in places - {serial} ensures places[s].yomi in ks1 {
      var j :| 0 <= j < |ks| && ks[j] == places[s].yomi;
      assert ks1[if j < ind then j else j - 1] == ks[j];
    }
  }

  /** What is left of table, keys and chains stands where it stood, or one place lower. */
  lemma WithoutEntry(tab: seq<Entry>, tab1: seq<Entry>, ks: seq<WText>, ks1: seq<WText>, chains: seq<seq<nat>>, ind: nat)
    requires ind < |tab| == |ks| == |chains| && Heads(tab1) == Removed(Heads(tab), ind) && ks1 == Removed(ks, ind)
    ensures |tab1| == |tab| - 1 == |ks1| == |Removed<seq<nat>>(chains, ind)|
    ensures forall k :: 0 <= k < |tab1| ==>
              var j := if k < ind then k else k + 1;
              tab1[k].pter == tab[j].pter && ks1[k] == ks[j] && Removed<seq<nat>>(chains, ind)[k] == chains[j]
  {
    assert |Heads(tab1)| == |tab1|;
    forall k | 0 <= k < |tab1| ensures tab1[k].pter == tab[if k < ind then k else k + 1].pter {
      assert Heads(tab1)[k] == Heads(tab)[if k < ind then k else k + 1];
    }
  }

  lemma SameChainWithout(hm: Body, head: nat, c: seq<nat>, yomi: WText, places: Places, b: seq<Byte>, serial: int)
    requires ChainOk(hm, head, c, yomi, places, b) && (serial in places ==> places[serial].yomi != yomi)
    ensures ChainOk(hm, head, c, yomi, places - {serial}, b)
  {
    hide NodeOk;
    OtherChain(hm, hm, head, c, yomi, places, b, serial);
  }

  /** The body may end right behind the last node in use. */
  lemma TopMoved(tab: seq<Entry>, hm: Body, top: nat, chains: seq<seq<nat>>, places: Places, b: seq<Byte>, top1: nat)
    requires TableOk(tab, hm, top, chains, places, b) && BodyOk(hm, top1, chains)
    ensures TableOk(tab, hm, top1, chains, places, b)
  {
    hide Threaded, NodeOk, Linked, Sorted, ChainOk;
    var text, text1 := TextOf(hm, top), TextOf(hm, top1);
    forall k | 0 <= k < |tab| ensures tab[k].pter < top1 && text1[tab[k].pter] == text[tab[k].pter] {
      HeadInChain(hm, tab[k].pter, chains[k], Keys(tab, text)[k], places, b);
      assert chains[k][0] in chains[k];
      assert InUse(chains, tab[k].pter);
    }
    HeadsMoved(tab, text, tab, text1);
  }

  lemma BodyFewer(hm: Body, top: nat, chains: seq<seq<nat>>, hm1: Body, chains1: seq<seq<nat>>)
    requires BodyOk(hm, top, chains)
    requires forall o :: InUse(chains1, o) ==> InUse(chains, o) && o in hm1 && hm1[o].yomi == hm[o].yomi
    ensures BodyOk(hm1, top, chains1)
  {
    hide InUse;
  }

  lemma BodyMore(hm: Body, top: nat, chains: seq<seq<nat>>, ind: nat, i: nat, hm1: Body)
    requires BodyOk(hm, top, chains) && 4 <= top && ind < |chains| && i < |chains[ind]| && top in hm1
    requires forall o :: InUse(chains, o) ==> o in hm1 && hm1[o].yomi == hm[o].yomi
    ensures BodyOk(hm1, End(top, hm1[top].yomi), chains[ind := Inserted<nat>(chains[ind], i + 1, top)])
  {
    var chains1 := chains[ind := Inserted<nat>(chains[ind], i + 1, top)];
    forall o | InUse(chains1, o) ensures o == top || InUse(chains, o) {
      var k :| 0 <= k < |chains1| && o in chains1[k];
      if k == ind && o != top {
        var j :| 0 <= j < |chains1[k]| && chains1[k][j] == o;
        assert chains[ind][if j <= i then j else j - 1] == o;
      }
    }
    hide InUse;
  }

  // ----- what trimming the pool does -----

  lemma PoolCut(places: Places, b: seq<Byte>, n: nat, serial: int)
    requires PlacesOk(places, b, n) && serial in places
    ensures var c := RevWords.Trimmed(b, places[serial].ptr);
            && PlacesOk(places - {serial}, c, n)
            && forall s :: s in places - {serial} ==>
                 places[s].ptr < |c| && c[places[s].ptr] == b[places[s].ptr] && Fetch(c, places[s].ptr) == Fetch(b, places[s].ptr)
  {
    hide HeaderAt, Fetch, Home;
    var q, rest := places[serial].ptr, places - {serial};
    var c := RevWords.Trimmed(b, q);
    HeaderBytes(b, q);
    forall s | s in rest
      ensures HeaderAt(c, places[s].ptr) && Fetch(c, places[s].ptr) == Fetch(b, places[s].ptr)
      ensures places[s].ptr < |c| && c[places[s].ptr] == b[places[s].ptr]
      ensures forall i :: Within(c, places[s].ptr, i) <==> Within(b, places[s].ptr, i)
    {
      HeaderBytes(b, places[s].ptr);
      if c != b {
        RevWords.BlocksBefore(b, places[s].ptr, q);
        assert Within(b, places[s].ptr, places[s].ptr);
      }
      FetchInCut(b, c, places[s].ptr);
    }
    forall s, t | s in rest && t in rest && s != t ensures Apart(c, places[s].ptr, places[t].ptr) {
      assert Apart(b, places[s].ptr, places[t].ptr);
    }
  }

  lemma FetchInCut(b: seq<Byte>, c: seq<Byte>, p: nat)
    requires HeaderAt(b, p) && (c == b || (c <= b && forall i :: Within(b, p, i) ==> 0 <= i < |c|))
    ensures HeaderAt(c, p) && Fetch(c, p) == Fetch(b, p) && forall i :: Within(c, p, i) <==> Within(b, p, i)
  {
    hide HeaderAt, Fetch, Home, Within;
    RevWords.WithinPool(b, p);
    assert forall i :: 0 <= i < |c| ==> c[i] == b[i];
    FetchFrame(b, c, p);
  }

  /** The chains only look at the length bytes of their records. */
  lemma TableInCut(tab: seq<Entry>, hm: Body, top: nat, chains: seq<seq<nat>>, places: Places, b: seq<Byte>, c: seq<Byte>)
    requires TableOk(tab, hm, top, chains, places, b)
    requires forall s :: s in places ==> places[s].ptr < |b| && places[s].ptr < |c| && c[places[s].ptr] == b[places[s].ptr]
    ensures TableOk(tab, hm, top, chains, places, c)
  {
    hide Threaded, Linked, Sorted, ChainOk;
    forall k | 0 <= k < |tab| ensures ChainOk(hm, tab[k].pter, chains[k], Keys(tab, TextOf(hm, top))[k], places, c) {
      ChainInCut(hm, tab[k].pter, chains[k], Keys(tab, TextOf(hm, top))[k], places, b, c);
    }
  }

  lemma ChainInCut(hm: Body, head: nat, c: seq<nat>, yomi: WText, places: Places, b: seq<Byte>, b1: seq<Byte>)
    requires ChainOk(hm, head, c, yomi, places, b)
    requires forall s :: s in places ==> places[s].ptr < |b| && places[s].ptr < |b1| && b1[places[s].ptr] == b[places[s].ptr]
    ensures ChainOk(hm, head, c, yomi, places, b1)
  {
    forall i | 0 <= i < |c| ensures NodeOk(hm[c[i]], yomi, places, b1) {
      assert NodeOk(hm[c[i]], yomi, places, b);
    }
  }

  // ----- the dictionary -----

  /** A word: its reading, its part of speech and what its record says. */
  datatype UWord = UWord(yomi: WText, hinsi: int, rec: Rec)

  ghost function WordsOf(places: Places, hinsi: seq<int>, b: seq<Byte>, n: nat): map<int, UWord>
    requires PlacesOk(places, b, n) && n <= |hinsi|
  {
    map s | s in places :: UWord(places[s].yomi, hinsi[s], Fetch(b, places[s].ptr))
  }

  lemma WordsLost(places: Places, hinsi: seq<int>, b: seq<Byte>, n: nat, serial: int, hinsi1: seq<int>, b1: seq<Byte>, n1: nat)
    requires PlacesOk(places, b, n) && PlacesOk(places - {serial}, b1, n1) && n <= |hinsi| == |hinsi1| && n1 <= n
    requires forall s :: 0 <= s < n && s != serial ==> hinsi1[s] == hinsi[s]
    requires forall s :: s in places - {serial} ==> Fetch(b1, places[s].ptr) == Fetch(b, places[s].ptr)
    ensures WordsOf(places - {serial}, hinsi1, b1, n1) == WordsOf(places, hinsi, b, n) - {serial}
  {
    hide HeaderAt, Fetch, Apart;
  }

  lemma OneFewer(places: Places, serial: int)
    requires serial in places
    ensures |places - {serial}| == |places| - 1
  {
    assert places.Keys == (places - {serial}).Keys + {serial};
  }

  lemma NotAWord(places: Places, hinsi: seq<int>, b: seq<Byte>, n: nat, serial: int)
    requires PlacesOk(places, b, n) && n <= |hinsi|
    ensures serial !in places ==> places - {serial} == places
    ensures serial !in places ==> WordsOf(places, hinsi, b, n) - {serial} == WordsOf(places, hinsi, b, n)
  {
    hide HeaderAt, Fetch, Apart;
  }

  // ----- a changed comment -----

  /** A record with a comment has room for a forwarding address. */
  lemma CommentRoom(b: seq<Byte>, p: nat)
    requires HeaderAt(b, p) && Fetch(b, p).comment != []
    ensures p < |b| && b[p] >= 6
  {
    hide WellFormed, Parse, CharsAt;
    HeaderBytes(b, p);
    if Home(b, p) == p {
      TwoTexts(b[p + 1], Counted(b, p));
    }
  }

  lemma TwoTexts(st: Byte, body: WText)
    requires WellFormed(st, body) && Parse(st, body).comment != []
    ensures |body| >= 2
  {
    TextAtExtent(body, YomiEnd(st, body));
    TextAtExtent(body, KanjiEnd(st, body));
  }

  lemma PlacesCommented(places: Places, b: seq<Byte>, c: seq<Byte>, full: seq<Byte>, n: nat, serial: int, rec: Rec, comment: WText)
    requires PlacesOk(places, b, n) && serial in places && b <= full && |b| <= |c| && Readable(full, places[serial].ptr)
    requires |Fetch(b, places[serial].ptr).comment| > |comment| || b[places[serial].ptr] >= 6
    requires Recommented(b, c, places[serial].ptr, rec, true, true)
    requires forall i :: 0 <= i < |b| && !Written(full, places[serial].ptr, comment, i) ==> c[i] == b[i]
    ensures PlacesOk(places, c, n) && Fetch(c, places[serial].ptr) == rec
    ensures forall s :: s in places ==> places[s].ptr < |b| && places[s].ptr < |c| && c[places[s].ptr] == b[places[s].ptr]
    ensures forall s :: s in places && s != serial ==> Fetch(c, places[s].ptr) == Fetch(b, places[s].ptr)
  {
    hide HeaderAt, Fetch, Home, Within, Readable, Written, Said;
    var p := places[serial].ptr;
    LegibleRest(places, b, n);
    if b[p] < 6 { CommentRoom(b, p); }
    forall s | s in places && s != serial ensures Kept(b, c, places[s].ptr) {
      assert Apart(b, p, places[s].ptr);
    }
    forall s | s in places ensures places[s].ptr < |b| && c[places[s].ptr] == b[places[s].ptr] {
      HeaderKept(b, full, p, places[s].ptr, comment);
      assert s != serial ==> Apart(b, p, places[s].ptr);
    }
    forall s, t | s in places && t in places && s != t ensures Apart(c, places[s].ptr, places[t].ptr) {
      assert Apart(b, places[s].ptr, places[t].ptr);
      RevWords.WithinPool(b, places[s].ptr);
      RevWords.WithinPool(b, places[t].ptr);
    }
  }

  /** The comment of p is not written over a header. */
  lemma HeaderKept(b: seq<Byte>, full: seq<Byte>, p: nat, q: nat, comment: WText)
    requires b <= full && HeaderAt(b, p) && b[p] >= 6 && HeaderAt(b, q) && (q != p ==> Apart(b, p, q))
    ensures q < |b| && Readable(full, p) && !Written(full, p, comment, q)
  {
    hide HeaderAt, Fetch, Readable, Written, Home;
    HeaderBytes(b, q);
    assert Within(b, q, q);
    if q == p {
      LegibleIsReadable(b, full, p);
      WrittenBehind(full, p, comment, q);
    } else {
      WrittenWithin(b, full, p, comment, q);
    }
  }

  lemma WordsCommented(places: Places, hinsi: seq<int>, b: seq<Byte>, c: seq<Byte>, n: nat, serial: int, rec: Rec)
    requires PlacesOk(places, b, n) && PlacesOk(places, c, n) && n <= |hinsi| && serial in places
    requires Fetch(c, places[serial].ptr) == rec
    requires forall s :: s in places && s != serial ==> Fetch(c, places[s].ptr) == Fetch(b, places[s].ptr)
    ensures var m := WordsOf(places, hinsi, b, n);
            serial in m && WordsOf(places, hinsi, c, n) == m[serial := m[serial].(rec := rec)]
  {
    hide HeaderAt, Fetch, Apart;
  }

  lemma NotLegible(places: Places, b: seq<Byte>, c: seq<Byte>, n: nat, serial: int, rec: Rec, room: bool)
    requires PlacesOk(places, b, n) && serial in places
    requires Recommented(b, c, places[serial].ptr, rec, false, room)
    ensures !PlacesOk(places, c, n)
  {
  }

  lemma ReadyForComment(places: Places, b: seq<Byte>, full: seq<Byte>, n: nat, serial: int)
    requires PlacesOk(places, b, n) && serial in places && b <= full
    ensures var p := places[serial].ptr;
            && HeaderAt(b, p) && Readable(full, p) && Said(full, p) == Fetch(b, p) && p + 2 <= |b| && b[p] == full[p]
  {
    hide HeaderAt, Fetch, Readable, Said, Apart;
    LegibleIsReadable(b, full, places[serial].ptr);
    HeaderBytes(b, places[serial].ptr);
  }

  /** What a comment makes of the whole dictionary; c is the pool behind it. */
  lemma Commented(tab: seq<Entry>, hm: Body, top: nat, chains: seq<seq<nat>>, places: Places, b: seq<Byte>, c: seq<Byte>,
                  full: seq<Byte>, hinsi: seq<int>, n: nat, serial: int, rec: Rec, comment: WText, fits: bool, room: bool)
    requires TableOk(tab, hm, top, chains, places, b) && PlacesOk(places, b, n) && n <= |hinsi|
    requires serial in places && b <= full && |b| <= |c| && Readable(full, places[serial].ptr) && (fits ==> room)
    requires fits ==> |Fetch(b, places[serial].ptr).comment| > |comment| || b[places[serial].ptr] >= 6
    requires Recommented(b, c, places[serial].ptr, rec, fits, room)
    requires forall i :: 0 <= i < |b| && !Written(full, places[serial].ptr, comment, i) ==> c[i] == b[i]
    ensures PlacesOk(places, c, n) <==> fits
    ensures fits ==> TableOk(tab, hm, top, chains, places, c)
    ensures fits ==> var m := WordsOf(places, hinsi, b, n);
                     serial in m && WordsOf(places, hinsi, c, n) == m[serial := m[serial].(rec := rec)]
  {
    hide TableOk, PlacesOk, HeaderAt, Fetch, Readable, Written, WordsOf;
    LegibleRest(places, b, n);
    if fits {
      PlacesCommented(places, b, c, full, n, serial, rec, comment);
      TableInCut(tab, hm, top, chains, places, b, c);
      WordsCommented(places, hinsi, b, c, n, serial, rec);
    } else {
      NotLegible(places, b, c, n, serial, rec, room);
    }
  }

  lemma SameReversed(r: Rec)
    ensures Reverse(Reverse(r.yomi)) == r.yomi && Reverse(Reverse(r.kanji)) == r.kanji && Reverse([]) == []
  {
    ReverseReverse(r.yomi);
    ReverseReverse(r.kanji);
    ReverseEmpty();
  }

  /** How far serials, pool and body are cut back when a serial leaves node nd at o
      (jishoop.c:523-584): only a node that held nothing else gives up its record at the pool's end, its
      serial if it is the last, and its place at the body's end; a split makes the body longer. */
  ghost predicate CutBack(nd: UNode, o: nat, serial: int, n0: nat, n: nat, b0: seq<Byte>, b: seq<Byte>, top0: nat, top: nat) {
    if nd.kosuu == 1 then
      && n == (if serial == n0 - 1 then serial else n0)
      && b == RevWords.Trimmed(b0, nd.kanjipter)
      && top == if top0 == End(o, nd.yomi) then o else top0
    else
      && n == n0 && b == b0
      && top == if nd.serial < serial < nd.serial + nd.kosuu - 1 then End(top0, nd.yomi) else top0
  }

  class UserDictionary {
    const table: array<Entry>
    var maxtable: nat
    var hontai: Body
    var maxhontai: nat
    const hinsi: array<int>
    const pool: RecordPool
    var maxserial: nat
    var gosuu: int
    ghost var chains: seq<seq<nat>>   // the nodes below each table entry
    ghost var places: Places          // where each word is

    ghost predicate Shaped()
      reads this, pool
    {
      maxtable <= table.Length && maxserial <= hinsi.Length && pool.Valid() && 4 <= maxhontai
    }

    /** Table, chains and pool belong together. */
    ghost predicate Joined()
      reads this, table, pool, pool.kanji
    {
      && Shaped()
      && TableOk(table[..maxtable], hontai, maxhontai, chains, places, pool.Bytes())
      && BodyOk(hontai, maxhontai, chains) && PlacesOk(places, pool.Bytes(), maxserial)
    }

    ghost predicate Valid()
      reads this, table, hinsi, pool, pool.kanji
    {
      && Joined()
      && (forall s :: 0 <= s < maxserial ==> (s in places <==> hinsi[s] != SAKUJO_HINSI))
      && gosuu == |places|
    }

    /** A dictionary as it was read from its file. */
    constructor (table: array<Entry>, maxtable: nat, hontai: Body, maxhontai: nat, hinsi: array<int>, pool: RecordPool,
                 maxserial: nat, gosuu: int, ghost chains: seq<seq<nat>>, ghost places: Places)
      requires maxtable <= table.Length && maxserial <= hinsi.Length && pool.Valid() && 4 <= maxhontai
      requires TableOk(table[..maxtable], hontai, maxhontai, chains, places, pool.Bytes())
      requires BodyOk(hontai, maxhontai, chains) && PlacesOk(places, pool.Bytes(), maxserial)
      requires forall s :: 0 <= s < maxserial ==> (s in places <==> hinsi[s] != SAKUJO_HINSI)
      requires gosuu == |places|
      ensures Valid() && this.places == places
    {
      hide TableOk, BodyOk, PlacesOk;
      this.table, this.maxtable, this.hontai, this.maxhontai := table, maxtable, hontai, maxhontai;
      this.hinsi, this.pool, this.maxserial, this.gosuu := hinsi, pool, maxserial, gosuu;
      this.chains, this.places := chains, places;
    }

    /** The words by serial. */
    ghost function Words(): map<int, UWord>
      requires Valid()
      reads this, table, hinsi, pool, pool.kanji
    {
      WordsOf(places, hinsi[..], pool.Bytes(), maxserial)
    }

    /** The node of a chain that holds the serial, and the one before it (jishoop.c:511-520). */
    method FindInChain(head: nat, serial: int, ghost c: seq<nat>, ghost yomi: WText) returns (found: bool, prev: nat, p: nat, ghost i: nat)
      requires pool.Valid() && ChainOk(hontai, head, c, yomi, places, pool.Bytes()) && c != []
      ensures i < |c| && p == c[i] && p in hontai && prev == (if i == 0 then 0 else c[i - 1])
      ensures found ==> Holds(hontai[p], serial)
      ensures !found ==> forall j :: 0 <= j < |c| ==> c[j] in hontai && !Holds(hontai[c[j]], serial)
    {
      hide NodeOk;
      prev, p, i := 0, head, 0;
      while true
        invariant i < |c| && p == c[i] && prev == if i == 0 then 0 else c[i - 1]
        invariant forall j :: 0 <= j < i ==> c[j] in hontai && !Holds(hontai[c[j]], serial)
        decreases |c| - i
      {
        NextInChain(hontai, head, c, i);
        if i + 1 < |c| { NextInChain(hontai, head, c, i + 1); }
        if Holds(hontai[p], serial) {
          return true, prev, p, i;
        }
        if hontai[p].next == ENDPTR {
          return false, prev, p, i;
        }
        prev, p, i := p, hontai[p].next, i + 1;
      }
    }

    /** inspect_ud: the reading of a serial, and its record, reached by its node's first record and
        the record lengths. */
    method InspectUd(serial: int) returns (found: bool, yomi: WText, kptr: nat)
      requires Valid() && serial >= 0
      ensures found <==> serial in places
      ensures found ==> Place(yomi, kptr) == places[serial]
    {
      hide TableOk, BodyOk, PlacesOk, NodeOk, ChainOk, ReadingOf;
      found, yomi, kptr := false, [], 0;
      if serial >= maxserial || hinsi[serial] == SAKUJO_HINSI {
        LegibleRest(places, pool.Bytes(), maxserial);
        return;
      }
      var k := 0;
      while k < maxtable
        invariant 0 <= k <= maxtable
        invariant forall j :: 0 <= j < k ==> ReadingOf(j) != places[serial].yomi
      {
        var p: nat, prev: nat;
        ghost var i: nat;
        found, prev, p, i := FindBelow(k, serial);
        if found {
          ghost var key := NodeAt(table[..maxtable], hontai, maxhontai, chains, places, pool.Bytes(), k, i);
          HeldWord(hontai, table[..maxtable][k].pter, chains[k], key, places, pool.Bytes(), i, serial);
          yomi := hontai[p].yomi;
          kptr := WalkRecords(hontai[p], serial, key);
          return;
        }
        k := k + 1;
      }
      SomeReading(serial);
    }

    lemma SomeReading(serial: int)
      requires Joined() && serial in places
      ensures exists k :: 0 <= k < maxtable && ReadingOf(k) == places[serial].yomi
    {
      hide BodyOk, PlacesOk, NodeOk, ChainOk, Sorted, Linked;
      var ks := Keys(table[..maxtable], TextOf(hontai, maxhontai));
      var k :| 0 <= k < |ks| && ks[k] == places[serial].yomi;
      assert ReadingOf(k) == ks[k];
    }

    /** From the node's first record on, length by length (jishoop.c:571-575, 621-626). */
    method WalkRecords(nd: UNode, upto: int, ghost yomi: WText) returns (kptr: nat)
      requires pool.Valid() && NodeOk(nd, yomi, places, pool.Bytes()) && Holds(nd, upto)
      ensures kptr == places[upto].ptr
    {
      kptr := nd.kanjipter;
      var s := nd.serial;
      while s < upto
        invariant Holds(nd, s) && s <= upto && kptr == places[s].ptr
      {
        assert Holds(nd, s + 1);
        kptr := kptr + pool.kanji[kptr];
        s := s + 1;
      }
    }

    /** The node p of chain ind holds the serial; prev is the node before it. */
    ghost predicate At(ind: nat, prev: nat, p: nat, i: nat, serial: int)
      requires Shaped()
      reads this, table, pool
    {
      && ind < maxtable == |chains| && i < |chains[ind]| && p == chains[ind][i] && p in hontai
      && prev == (if i == 0 then 0 else chains[ind][i - 1]) && Holds(hontai[p], serial)
    }

    /** *next_pter = p->next. */
    method MovePointer(ind1: nat, prev: nat, p: nat, ghost i: nat, serial: int)
      requires Shaped() && At(ind1, prev, p, i, serial) && hontai[p].kosuu == 1 && prev != p
      requires i > 0 ==> prev != 0 && prev in hontai
      modifies this`hontai, table
      ensures Unlinking(old(table[..maxtable]), old(hontai), chains, ind1, i, serial, hontai, table[ind1].pter)
      ensures table[..maxtable] == old(table[..maxtable])[ind1 := Entry(old(table[ind1].pter1), table[ind1].pter)]
      ensures table[ind1].pter1 == old(table[ind1].pter1)
      ensures forall k :: 0 <= k < maxtable && k != ind1 ==> table[k] == old(table[k])
      ensures p in hontai && hontai[p] == old(hontai)[p]
      ensures forall o :: o in old(hontai) ==> o in hontai && hontai[o].yomi == old(hontai)[o].yomi
    {
      if prev == 0 {
        table[ind1] := Entry(table[ind1].pter1, hontai[p].next);
      } else {
        hontai := hontai[prev := hontai[prev].(next := hontai[p].next)];
      }
    }

    /** Takes the key of the emptied chain ind1 out of the table. */
    method DropKey(ind1: nat, ghost tab: seq<Entry>, ghost cs: seq<seq<nat>>, ghost pl: Places, ghost serial: int)
      requires Shaped() && |tab| == maxtable && ind1 < maxtable
      requires table[ind1].pter1 == tab[ind1].pter1 && forall k :: 0 <= k < maxtable && k != ind1 ==> table[k] == tab[k]
      requires TableOk(tab, hontai, maxhontai, cs, pl, pool.Bytes())
      requires Indexed(tab, TextOf(hontai, maxhontai))
      requires forall s :: s in pl && pl[s].yomi == Keys(tab, TextOf(hontai, maxhontai))[ind1] <==> s == serial
      modifies this`maxtable, table
      ensures Shaped() && TableOk(table[..maxtable], hontai, maxhontai, Removed<seq<nat>>(cs, ind1), pl - {serial}, pool.Bytes())
    {
      hide TableOk, Sorted, Linked;
      ghost var b := pool.Bytes();
      RemoveKey(table, ind1, maxtable, TextOf(hontai, maxhontai), tab);
      ghost var tab1 := table[..maxtable - 1];
      maxtable := maxtable - 1;
      KeyRemoved(tab, hontai, maxhontai, cs, pl, b, ind1, serial, tab1);
      assert table[..maxtable] == tab1 && pool.Bytes() == b;
    }

    /** Unlinks a node that holds nothing but the serial; an empty chain takes its key with it
        (lines 525-527). */
    method Unlink(ind1: nat, prev: nat, p: nat, ghost i: nat, serial: int)
      requires Joined() && At(ind1, prev, p, i, serial) && hontai[p].kosuu == 1
      modifies this`hontai, this`maxtable, this`chains, this`places, table
      ensures Joined() && places == old(places) - {serial} && serial in old(places)
      ensures p in hontai && hontai[p] == old(hontai)[p]
      ensures forall o :: o in old(hontai) ==> o in hontai && hontai[o].yomi == old(hontai)[o].yomi
      ensures forall o :: InUse(chains, o) ==> InUse(old(chains), o) && o != p
      ensures InUse(old(chains), p)
    {
      hide TableOk, BodyOk, PlacesOk, InUse, Holds, Sorted, Linked, Unlinking, Indexed, Keys, TextOf;
      ghost var tab, hm, cs, pl, b := table[..maxtable], hontai, chains, places, pool.Bytes();
      BeforeUnlink(tab, hm, maxhontai, cs, pl, b, ind1, i, serial);
      MovePointer(ind1, prev, p, i, serial);
      assert pool.Bytes() == b;
      PlacesFewer(pl, b, maxserial, serial);
      if table[ind1].pter == ENDPTR {
        LastUnlinked(tab, hm, maxhontai, cs, pl, b, ind1, i, serial, hontai, table[ind1].pter);
        DropKey(ind1, tab, cs, pl, serial);
        chains := Removed<seq<nat>>(cs, ind1);
      } else {
        OneUnlinked(tab, hm, maxhontai, cs, pl, b, ind1, i, serial, hontai, table[ind1].pter);
        chains := cs[ind1 := Removed<nat>(cs[ind1], i)];
      }
      places := pl - {serial};
      assert pool.Bytes() == b;
      assert TableOk(table[..maxtable], hontai, maxhontai, chains, places, b);
    }

    /** What is left of the pool after a record at its end was given up (lines 534-537). */
    method TrimPool(kptr: nat, ghost serial: int, ghost pl: Places)
      requires Joined() && PlacesOk(pl, pool.Bytes(), maxserial) && serial in pl && places == pl - {serial}
      requires pl[serial].ptr == kptr && kptr < pool.maxkanji
      modifies pool`maxkanji
      ensures Joined() && pool.Bytes() == RevWords.Trimmed(old(pool.Bytes()), kptr)
      ensures forall s :: s in places ==> Fetch(pool.Bytes(), places[s].ptr) == Fetch(old(pool.Bytes()), places[s].ptr)
    {
      hide TableOk, BodyOk, PlacesOk, HeaderAt, Fetch;
      ghost var b := pool.Bytes();
      PoolCut(pl, b, maxserial, serial);
      LegibleRest(pl, b, maxserial);
      if kptr + pool.kanji[kptr] >= pool.maxkanji {
        pool.maxkanji := kptr;
      }
      assert pool.Bytes() == RevWords.Trimmed(b, kptr);
      TableInCut(table[..maxtable], hontai, maxhontai, chains, places, b, pool.Bytes());
    }

    /** The node held nothing but the serial (lines 523-542). */
    method DeleteWhole(ind1: nat, prev: nat, p: nat, ghost i: nat, serial: int)
      requires Joined() && At(ind1, prev, p, i, serial) && hontai[p].kosuu == 1
      modifies this`hontai, this`maxtable, this`chains, this`places, this`maxserial, this`maxhontai, table, pool`maxkanji
      ensures Joined() && places == old(places) - {serial} && serial in old(places)
      ensures forall s :: s in places ==> HeaderAt(old(pool.Bytes()), places[s].ptr) && HeaderAt(pool.Bytes(), places[s].ptr)
      ensures forall s :: s in places ==> Fetch(pool.Bytes(), places[s].ptr) == Fetch(old(pool.Bytes()), places[s].ptr)
      ensures maxserial == if serial == old(maxserial) - 1 then old(maxserial) - 1 else old(maxserial)
      ensures pool.Bytes() == RevWords.Trimmed(old(pool.Bytes()), old(hontai)[p].kanjipter)
      ensures maxhontai == if old(maxhontai) == End(p, old(hontai)[p].yomi) then p else old(maxhontai)
    {
      hide TableOk, BodyOk, PlacesOk, HeaderAt, Fetch, InUse;
      ghost var pl, cs, hm, b := places, chains, hontai, pool.Bytes();
      SerialHere(table[..maxtable], hm, maxhontai, cs, pl, b, ind1, i, serial);
      LegibleRest(pl, b, maxserial);
      Unlink(ind1, prev, p, i, serial);
      assert pool.Bytes() == b;
      TrimPool(hontai[p].kanjipter, serial, pl);
      if hontai[p].serial == maxserial - 1 {
        LastSerialGone(places, pool.Bytes(), maxserial, pl, serial);
        maxserial := maxserial - 1;
      }
      if maxhontai == End(p, hontai[p].yomi) {
        BodyCutAt(hm, hontai, maxhontai, cs, chains, p);
        TopMoved(table[..maxtable], hontai, maxhontai, chains, places, pool.Bytes(), p);
        maxhontai := p;
      }
      LegibleRest(places, pool.Bytes(), maxserial);
    }

    /** Gives node p a new interval, and the chain a new node behind it when the interval is split. */
    method Shrink(ind1: nat, p: nat, ghost i: nat, serial: int, nd1: UNode)
      requires Joined() && ind1 < maxtable == |chains| && i < |chains[ind1]| && p == chains[ind1][i] && p in hontai
      requires Shrunk(hontai[p], nd1, pool.Bytes(), serial)
      modifies this`hontai, this`places
      ensures Joined() && places == old(places) - {serial} && serial in old(places)
    {
      hide TableOk, BodyOk, PlacesOk, Shrunk;
      ghost var tab, hm, b := table[..maxtable], hontai, pool.Bytes();
      EndGoneInTable(tab, hm, maxhontai, chains, places, b, ind1, i, nd1, serial);
      PlacesFewer(places, b, maxserial, serial);
      hontai := hontai[p := nd1];
      places := places - {serial};
    }

    /** The serial is in the middle: a new node at the end of the body gets the serials behind it
        (lines 553-584). */
    method Split(ind1: nat, p: nat, ghost i: nat, serial: nat)
      requires Joined() && ind1 < maxtable == |chains| && i < |chains[ind1]| && p == chains[ind1][i] && p in hontai
      requires hontai[p].serial < serial < hontai[p].serial + hontai[p].kosuu - 1
      modifies this`hontai, this`places, this`chains, this`maxhontai
      ensures Joined() && places == old(places) - {serial} && serial in old(places)
      ensures maxhontai == End(old(maxhontai), old(hontai)[p].yomi)
    {
      hide TableOk, BodyOk, PlacesOk, Divided;
      ghost var tab, hm, b, pl, cs, top := table[..maxtable], hontai, pool.Bytes(), places, chains, maxhontai;
      var lo, hi := Halves(ind1, p, i, serial);
      var hontai1, maxhontai1 := hontai[maxhontai := hi][p := lo], End(maxhontai, hontai[p].yomi);
      SplitInTable(tab, hm, top, cs, pl, b, ind1, i, lo, hi, serial, hontai1);
      PlacesFewer(pl, b, maxserial, serial);
      hontai, maxhontai := hontai1, maxhontai1;
      chains := cs[ind1 := Inserted<nat>(cs[ind1], i + 1, top)];
      places := pl - {serial};
      assert pool.Bytes() == b && table[..maxtable] == tab;
    }

    /** The two nodes that node p becomes; hopter will be at the end of the body. */
    method Halves(ind1: nat, p: nat, ghost i: nat, serial: nat) returns (lo: UNode, hi: UNode)
      requires Joined() && ind1 < maxtable == |chains| && i < |chains[ind1]| && p == chains[ind1][i] && p in hontai
      requires hontai[p].serial < serial < hontai[p].serial + hontai[p].kosuu - 1
      ensures Divided(hontai[p], lo, hi, maxhontai, places, serial)
    {
      hide UserDictionary.Joined, NodeOk;
      var nd := hontai[p];
      ghost var yomi := HeldNode(ind1, p, i, serial + 1);
      var kptr := WalkRecords(nd, serial + 1, yomi);
      hi := UNode(nd.next, serial + 1, kptr, nd.kosuu - (serial - nd.serial) - 1, nd.yomi);
      lo := nd.(next := maxhontai, kosuu := serial - nd.serial);
    }

    lemma HeldNode(ind1: nat, p: nat, i: nat, serial: int) returns (yomi: WText)
      requires Joined() && ind1 < maxtable == |chains| && i < |chains[ind1]| && p == chains[ind1][i] && p in hontai
      requires Holds(hontai[p], serial)
      ensures pool.Valid() && NodeOk(hontai[p], yomi, places, pool.Bytes()) && serial in places
      ensures places[serial].yomi == yomi && hontai[p].yomi == yomi
    {
      hide TableOk, BodyOk, PlacesOk, NodeOk, ChainOk;
      yomi := NodeAt(table[..maxtable], hontai, maxhontai, chains, places, pool.Bytes(), ind1, i);
      HeldWord(hontai, table[..maxtable][ind1].pter, chains[ind1], yomi, places, pool.Bytes(), i, serial);
    }

    /** word_delete1: takes a serial from the chain of the longest stored prefix of yomi, in one of
        four ways. */
    method WordDelete1(yomi: WText, serial: nat) returns (r: int, ghost o: nat)
      requires Valid()
      modifies this, table, hinsi, pool
      ensures Valid() && (r == 0 || r == -1)
      ensures r == 0 ==> serial in old(places) && old(places)[serial].yomi <= yomi
      ensures serial in old(places) && old(places)[serial].yomi == yomi ==> r == 0
      ensures places == if r == 0 then old(places) - {serial} else old(places)
      ensures Words() == if r == 0 then old(Words()) - {serial} else old(Words())
      ensures r == 0 ==> Dropped(serial, o, old(hontai), old(chains), old(maxserial), old(pool.Bytes()), old(maxhontai))
      ensures r == -1 ==> maxserial == old(maxserial) && maxhontai == old(maxhontai) && pool.Bytes() == old(pool.Bytes())
    {
      hide TableOk, BodyOk, PlacesOk, HeaderAt, Fetch, WordsOf, CutBack;
      var ind1 := FindKey(yomi);
      if ind1 == -1 {
        return -1, 0;
      }
      var found: bool, prev: nat, p: nat;
      ghost var i: nat;
      found, prev, p, i := FindBelow(ind1, serial);
      if !found {
        return -1, 0;
      }
      assert chains[ind1][i] in chains[ind1];
      Remove(ind1, prev, p, i, serial);
      return 0, p;
    }

    /** What was cut back when the serial left its node, which stood at o in the body h with chains c:
        serials, pool and body were n, b and top. */
    ghost predicate Dropped(serial: int, o: nat, h: Body, c: seq<seq<nat>>, n: nat, b: seq<Byte>, top: nat)
      requires Shaped()
      reads this, pool, pool.kanji
    {
      InUse(c, o) && o in h && Holds(h[o], serial) && CutBack(h[o], o, serial, n, maxserial, b, pool.Bytes(), top, maxhontai)
    }

    /** word_delete on a user dictionary: exactly the serial's word goes, and every other word keeps
        its reading and its record, which its node still leads to (lines 238-263). */
    method WordDelete(serial: int) returns (r: int, ghost o: nat)
      requires Valid()
      modifies this, table, hinsi, pool
      ensures Valid() && r == if serial in old(places) then 0 else -1
      ensures r == 0 ==> Dropped(serial, o, old(hontai), old(chains), old(maxserial), old(pool.Bytes()), old(maxhontai))
      ensures r == -1 ==> maxserial == old(maxserial) && maxhontai == old(maxhontai) && pool.Bytes() == old(pool.Bytes())
      ensures places == old(places) - {serial} && Words() == old(Words()) - {serial}
    {
      hide TableOk, BodyOk, PlacesOk, HeaderAt, Fetch, WordsOf;
      LegibleRest(places, pool.Bytes(), maxserial);
      NotAWord(places, hinsi[..], pool.Bytes(), maxserial, serial);
      if serial >= maxserial || serial < 0 {
        return -1, 0;
      }
      var found, yomi, kptr := InspectUd(serial);
      if !found {
        return -1, 0;
      }
      r, o := WordDelete1(yomi, serial);
    }

    /** Does the serial's record stay legible when it gets this comment? Only forwarding can spoil it:
        the record may be too short for the address (an empty kanji without a comment), or the new
        one too long. */
    ghost predicate CommentFits(serial: int, comment: WText)
      requires Valid() && serial in Words()
      reads this, table, hinsi, pool, pool.kanji
    {
      var r := Words()[serial].rec;
      |r.comment| > |comment| || (pool.Bytes()[places[serial].ptr] >= 6 && RecLen(pool.WithComment(r, comment)) <= 255)
    }

    /** word_comment_set on a user dictionary (Wnn/jserver/jishoop.c:190-197, 603-659). For a serial
        that is no word the reading stays what the buffer held; get_yomi_from_serial empties it first
        (Wnn/jserver/jishosub.c:92-95), but whatever it holds, no chain has the serial. */
    method WordCommentSet(serial: int, comment: WText, buffer: WText) returns (r: int)
      requires Valid() && 0 !in comment
      requires serial in Words() ==>
                 var rec := Words()[serial].rec;
                 pool.maxkanji + (|rec.kanji| + |comment| + |rec.yomi| + 4) * 2 < pool.kanji.Length
      modifies pool`maxkanji, pool.kanji
      ensures r == if serial in old(places) then 0 else -1
      ensures r == -1 ==> Valid() && Words() == old(Words())
      ensures r == 0 ==> (Valid() <==> old(CommentFits(serial, comment)))
      ensures r == 0 ==>
                && serial in places
                && CommentWritten(old(pool.kanji[..]), old(pool.maxkanji), pool.kanji[..], pool.maxkanji, places[serial].ptr, comment, pool.keepYomi)
      ensures r == -1 ==> pool.maxkanji == old(pool.maxkanji) && pool.kanji[..] == old(pool.kanji[..])
      ensures r == 0 && Valid() ==>
                var w := old(Words())[serial];
                Words() == old(Words())[serial := w.(rec := pool.WithComment(w.rec, comment))]
    {
      hide UserDictionary.Joined, UserDictionary.CommentFits, WordsOf, HeaderAt, Fetch, CommentWritten, RecordPool.WithComment, UserDictionary.ReadingOf, UserDictionary.At;
      AreWords();
      if serial >= maxserial || serial < 0 {
        return -1;
      }
      var found, yomi, kptr := InspectUd(serial);
      var ind1 := FindKey(if found then yomi else buffer);
      if ind1 == -1 {
        return -1;
      }
      var below: bool, prev: nat, p: nat;
      ghost var i: nat;
      below, prev, p, i := FindBelow(ind1, serial);
      if !below {
        return -1;
      }
      kptr := RecordBelow(ind1, prev, p, i, serial);
      CommentAtRecord(serial, kptr, comment);
      return 0;
    }

    lemma AreWords()
      requires Valid()
      ensures forall s :: s in places ==> 0 <= s < maxserial
      ensures forall s :: s in Words() <==> s in places
    {
      hide TableOk, BodyOk, HeaderAt, Apart;
    }

    /** From the node's first record on, to the serial's. */
    method RecordBelow(ind1: nat, prev: nat, p: nat, ghost i: nat, serial: int) returns (kptr: nat)
      requires Joined() && At(ind1, prev, p, i, serial)
      ensures serial in places && kptr == places[serial].ptr
    {
      hide UserDictionary.Joined, NodeOk;
      ghost var yomi := HeldNode(ind1, p, i, serial);
      kptr := WalkRecords(hontai[p], serial, yomi);
    }

    /** The record gets its comment; the chains and the other records do not notice. */
    method CommentAtRecord(serial: int, kptr: nat, comment: WText)
      requires Valid() && 0 !in comment && serial in Words() && kptr == places[serial].ptr
      requires var rec := Words()[serial].rec;
               pool.maxkanji + (|rec.kanji| + |comment| + |rec.yomi| + 4) * 2 < pool.kanji.Length
      modifies pool`maxkanji, pool.kanji
      ensures Valid() <==> old(CommentFits(serial, comment))
      ensures CommentWritten(old(pool.kanji[..]), old(pool.maxkanji), pool.kanji[..], pool.maxkanji, kptr, comment, pool.keepYomi)
      ensures Valid() ==>
                var w := old(Words())[serial];
                Words() == old(Words())[serial := w.(rec := pool.WithComment(w.rec, comment))]
    {
      hide TableOk, BodyOk, PlacesOk, HeaderAt, Fetch, Recommented, Readable, Said, Written, Target, RecLen, Reverse;
      ghost var b, full, rec := pool.Bytes(), pool.kanji[..], Words()[serial].rec;
      ReadyForComment(places, b, full, maxserial, serial);
      SameReversed(rec);
      ghost var fits, rec1 := CommentFits(serial, comment), pool.WithComment(rec, comment);
      assert rec == Said(full, kptr);
      assert fits <==> |rec.comment| > |comment| || pool.Forwardable(kptr, comment);
      var forwarded := pool.CommentSet(kptr, comment);
      Commented(table[..maxtable], hontai, maxhontai, chains, places, b, pool.Bytes(), full, hinsi[..], maxserial, serial, rec1, comment,
                fits, forwarded ==> b[kptr] >= 6);
    }

    /** Takes the serial out and forgets it. */
    method Remove(ind1: nat, prev: nat, p: nat, ghost i: nat, serial: nat)
      requires Valid() && At(ind1, prev, p, i, serial) && serial in places
      modifies this, table, hinsi, pool
      ensures Valid() && places == old(places) - {serial} && Words() == old(Words()) - {serial}
      ensures p in old(hontai)
      ensures CutBack(old(hontai)[p], p, serial, old(maxserial), maxserial, old(pool.Bytes()), pool.Bytes(), old(maxhontai), maxhontai)
    {
      hide TableOk, BodyOk, PlacesOk, HeaderAt, Fetch, WordsOf, CutBack;
      ghost var pl, h, b, n := places, hinsi[..], pool.Bytes(), maxserial;
      LegibleRest(pl, b, maxserial);
      TakeOut(ind1, prev, p, i, serial);
      Forget(serial, pl);
      WordsLost(pl, h, b, n, serial, hinsi[..], pool.Bytes(), maxserial);
    }

    /** The word is marked as deleted. */
    method Forget(serial: nat, ghost pl: Places)
      requires Joined() && serial < hinsi.Length && places == pl - {serial} && serial in pl
      requires forall s :: 0 <= s < maxserial ==> (s in pl <==> hinsi[s] != SAKUJO_HINSI)
      requires gosuu == |pl|
      modifies this`gosuu, hinsi
      ensures Valid() && hinsi[..] == old(hinsi[..])[serial := SAKUJO_HINSI]
    {
      hide TableOk, BodyOk, PlacesOk;
      OneFewer(pl, serial);
      hinsi[serial] := SAKUJO_HINSI;
      gosuu := gosuu - 1;
    }

    /** The four cases. */
    method TakeOut(ind1: nat, prev: nat, p: nat, ghost i: nat, serial: nat)
      requires Joined() && At(ind1, prev, p, i, serial)
      modifies this`hontai, this`maxtable, this`chains, this`places, this`maxserial, this`maxhontai, table, pool`maxkanji
      ensures Joined() && places == old(places) - {serial} && serial in old(places)
      ensures forall s :: s in places ==> HeaderAt(old(pool.Bytes()), places[s].ptr) && HeaderAt(pool.Bytes(), places[s].ptr)
      ensures forall s :: s in places ==> Fetch(pool.Bytes(), places[s].ptr) == Fetch(old(pool.Bytes()), places[s].ptr)
      ensures maxserial == old(maxserial) || (serial == old(maxserial) - 1 == maxserial)
      ensures CutBack(old(hontai)[p], p, serial, old(maxserial), maxserial, old(pool.Bytes()), pool.Bytes(), old(maxhontai), maxhontai)
    {
      hide TableOk, BodyOk, PlacesOk, HeaderAt, Fetch;
      ghost var b := pool.Bytes();
      LegibleRest(places, b, maxserial);
      var nd := hontai[p];
      if nd.kosuu == 1 {
        DeleteWhole(ind1, prev, p, i, serial);
      } else if nd.serial == serial {
        FirstRecord(table[..maxtable], hontai, maxhontai, chains, places, b, ind1, i);
        Shrink(ind1, p, i, serial,
               nd.(kosuu := nd.kosuu - 1, serial := nd.serial + 1, kanjipter := nd.kanjipter + pool.kanji[nd.kanjipter]));
        assert pool.Bytes() == b;
      } else if nd.serial + nd.kosuu - 1 == serial {
        FirstRecord(table[..maxtable], hontai, maxhontai, chains, places, b, ind1, i);
        Shrink(ind1, p, i, serial, nd.(kosuu := nd.kosuu - 1));
        assert pool.Bytes() == b;
      } else {
        Split(ind1, p, i, serial);
        assert pool.Bytes() == b;
      }
    }

    /** binary: the entry of the longest stored prefix of yomi. */
    method FindKey(yomi: WText) returns (ind1: int)
      requires Joined()
      ensures -1 <= ind1 < maxtable
      ensures ind1 >= 0 ==> ReadingOf(ind1) <= yomi
      ensures forall s :: s in places && places[s].yomi == yomi ==> ind1 >= 0 && ReadingOf(ind1) == yomi
    {
      hide ChainOk, BodyOk, PlacesOk, Sorted, Linked;
      ghost var ks := Keys(table[..maxtable], TextOf(hontai, maxhontai));
      ind1 := RdBinary(table, yomi, maxtable, TextOf(hontai, maxhontai));
      if s :| s in places && places[s].yomi == yomi {
        ExactKey(ks, yomi, ind1);
      }
    }

    /** The reading at entry k of the table, if there is one. */
    ghost function ReadingOf(k: int): WText
      reads this, table
    {
      if 0 <= k < maxtable <= table.Length && InBounds(table[..maxtable], maxhontai)
      then Keys(table[..maxtable], TextOf(hontai, maxhontai))[k] else []
    }

    /** Looks for the serial below entry ind1. */
    method FindBelow(ind1: nat, serial: int) returns (found: bool, prev: nat, p: nat, ghost i: nat)
      requires Joined() && ind1 < maxtable
      ensures found ==> At(ind1, prev, p, i, serial) && serial in places && places[serial].yomi == ReadingOf(ind1)
      ensures !found ==> serial in places ==> places[serial].yomi != ReadingOf(ind1)
    {
      hide ChainOk, BodyOk, PlacesOk, Sorted, Linked;
      ghost var tab, c, key := table[..maxtable], chains[ind1], ReadingOf(ind1);
      assert tab[ind1] == table[ind1];
      found, prev, p, i := FindInChain(table[ind1].pter, serial, c, key);
      if found {
        HeldWord(hontai, tab[ind1].pter, c, key, places, pool.Bytes(), i, serial);
      } else {
        NotHeld(hontai, tab[ind1].pter, c, key, places, pool.Bytes(), serial);
      }
    }
  }

  /** hm1 and head1 are what unlinking node i makes of chain ind. */
  ghost predicate Unlinking(tab: seq<Entry>, hm: Body, chains: seq<seq<nat>>, ind: nat, i: nat, serial: int, hm1: Body, head1: int) {
    && ind < |tab| == |chains| && i < |chains[ind]| && chains[ind][i] in hm
    && hm[chains[ind][i]].kosuu == 1 && Holds(hm[chains[ind][i]], serial)
    && if i == 0 then hm1 == hm && head1 == hm[chains[ind][i]].next
       else
         && chains[ind][i - 1] in hm && head1 == tab[ind].pter
         && hm1 == hm[chains[ind][i - 1] := hm[chains[ind][i - 1]].(next := hm[chains[ind][i]].next)]
  }

  lemma BeforeUnlink(tab: seq<Entry>, hm: Body, top: nat, chains: seq<seq<nat>>, places: Places, b: seq<Byte>, ind: nat, i: nat, serial: int)
    requires TableOk(tab, hm, top, chains, places, b) && ind < |tab| && i < |chains[ind]|
    requires chains[ind][i] in hm && Holds(hm[chains[ind][i]], serial)
    ensures serial in places && InUse(chains, chains[ind][i])
    ensures forall j :: 0 <= j < |chains[ind]| ==> chains[ind][j] in hm && chains[ind][j] != ENDPTR
    ensures forall j, k :: 0 <= j < |chains[ind]| && 0 <= k < |chains[ind]| && chains[ind][j] == chains[ind][k] ==> j == k
  {
    hide Sorted, Linked, NodeOk, ChainOk, Threaded;
    OffsetInTable(tab, hm, top, chains, places, b, ind, i, serial);
    ChainOffsets(hm, tab[ind].pter, chains[ind], Keys(tab, TextOf(hm, top))[ind], places, b);
  }

  lemma LastUnlinked(tab: seq<Entry>, hm: Body, top: nat, chains: seq<seq<nat>>, places: Places, b: seq<Byte>, ind: nat, i: nat, serial: int, hm1: Body, head1: int)
    requires TableOk(tab, hm, top, chains, places, b) && BodyOk(hm, top, chains)
    requires Unlinking(tab, hm, chains, ind, i, serial, hm1, head1) && head1 == ENDPTR
    ensures hm1 == hm && Indexed(tab, TextOf(hm, top))
    ensures forall s :: s in places && places[s].yomi == Keys(tab, TextOf(hm, top))[ind] <==> s == serial
    ensures BodyOk(hm, top, Removed<seq<nat>>(chains, ind))
    ensures forall o :: InUse(Removed<seq<nat>>(chains, ind), o) ==> InUse(chains, o) && o != chains[ind][i]
  {
    hide Sorted, Linked, NodeOk, ChainOk, Threaded, BodyOk, InUse;
    var yomi := Keys(tab, TextOf(hm, top))[ind];
    OffsetInTable(tab, hm, top, chains, places, b, ind, i, serial);
    EmptiedChain(hm, tab[ind].pter, chains[ind], yomi, places, b, i, hm1, head1);
    OneChain(tab, hm, top, chains, places, b, ind, chains[ind][i]);
    WithoutChain(chains, ind, chains[ind][i]);
    StillInBody(hm, top, chains, hm, Removed<seq<nat>>(chains, ind));
  }

  lemma StillInBody(hm: Body, top: nat, chains: seq<seq<nat>>, hm1: Body, chains1: seq<seq<nat>>)
    requires BodyOk(hm, top, chains) && forall o :: InUse(chains1, o) ==> InUse(chains, o)
    requires forall o :: o in hm ==> o in hm1 && hm1[o].yomi == hm[o].yomi
    ensures BodyOk(hm1, top, chains1)
  {
    hide InUse;
    BodyFewer(hm, top, chains, hm1, chains1);
  }

  lemma OneUnlinked(tab: seq<Entry>, hm: Body, top: nat, chains: seq<seq<nat>>, places: Places, b: seq<Byte>, ind: nat, i: nat, serial: int, hm1: Body, head1: int)
    requires TableOk(tab, hm, top, chains, places, b) && BodyOk(hm, top, chains)
    requires Unlinking(tab, hm, chains, ind, i, serial, hm1, head1) && head1 != ENDPTR
    ensures var chains1 := chains[ind := Removed<nat>(chains[ind], i)];
            && TableOk(tab[ind := Entry(tab[ind].pter1, head1)], hm1, top, chains1, places - {serial}, b)
            && BodyOk(hm1, top, chains1)
            && forall o :: InUse(chains1, o) ==> InUse(chains, o) && o != chains[ind][i]
  {
    hide TableOk, BodyOk, InUse;
    UnlinkedTable(tab, hm, top, chains, places, b, ind, i, serial, hm1, head1);
    UnlinkedBody(tab, hm, top, chains, places, b, ind, i, serial, hm1, head1);
  }

  lemma UnlinkedTable(tab: seq<Entry>, hm: Body, top: nat, chains: seq<seq<nat>>, places: Places, b: seq<Byte>, ind: nat, i: nat, serial: int, hm1: Body, head1: int)
    requires TableOk(tab, hm, top, chains, places, b) && BodyOk(hm, top, chains)
    requires Unlinking(tab, hm, chains, ind, i, serial, hm1, head1) && head1 != ENDPTR
    ensures TableOk(tab[ind := Entry(tab[ind].pter1, head1)], hm1, top, chains[ind := Removed<nat>(chains[ind], i)], places - {serial}, b)
  {
    hide Sorted, Linked, NodeOk, ChainOk, Threaded, BodyOk, InUse;
    var c, yomi := chains[ind], Keys(tab, TextOf(hm, top))[ind];
    OffsetInTable(tab, hm, top, chains, places, b, ind, i, serial);
    ChainOffsets(hm, tab[ind].pter, c, yomi, places, b);
    WholeGone(hm, tab[ind].pter, c, yomi, places, b, i, hm1, head1);
    ShorterChain(tab, hm, top, chains, places, b, ind, i, serial, hm1, head1);
    ChainChanged(tab, hm, top, chains, places, b, ind, serial, hm1, top, head1, Removed<nat>(c, i));
  }

  lemma UnlinkedBody(tab: seq<Entry>, hm: Body, top: nat, chains: seq<seq<nat>>, places: Places, b: seq<Byte>, ind: nat, i: nat, serial: int, hm1: Body, head1: int)
    requires TableOk(tab, hm, top, chains, places, b) && BodyOk(hm, top, chains)
    requires Unlinking(tab, hm, chains, ind, i, serial, hm1, head1) && head1 != ENDPTR
    ensures var chains1 := chains[ind := Removed<nat>(chains[ind], i)];
            BodyOk(hm1, top, chains1) && forall o :: InUse(chains1, o) ==> InUse(chains, o) && o != chains[ind][i]
  {
    hide TableOk, BodyOk, InUse;
    var c := chains[ind];
    BeforeUnlink(tab, hm, top, chains, places, b, ind, i, serial);
    assert c[i] in c;
    OneChain(tab, hm, top, chains, places, b, ind, c[i]);
    WithoutNode(chains, ind, i, c[i]);
    StillInBody(hm, top, chains, hm1, chains[ind := Removed<nat>(c, i)]);
  }

  lemma HeldWord(hm: Body, head: nat, c: seq<nat>, yomi: WText, places: Places, b: seq<Byte>, i: nat, serial: int)
    requires ChainOk(hm, head, c, yomi, places, b) && i < |c| && c[i] in hm && Holds(hm[c[i]], serial)
    ensures serial in places && places[serial].yomi == yomi && NodeOk(hm[c[i]], yomi, places, b) && hm[c[i]].yomi == yomi
  {
    assert NodeOk(hm[c[i]], yomi, places, b);
  }

  lemma NotHeld(hm: Body, head: nat, c: seq<nat>, yomi: WText, places: Places, b: seq<Byte>, serial: int)
    requires ChainOk(hm, head, c, yomi, places, b)
    requires forall i :: 0 <= i < |c| ==> c[i] in hm && !Holds(hm[c[i]], serial)
    ensures serial in places ==> places[serial].yomi != yomi
  {
  }

  /** What stands at node i of chain ind, which holds the serial. */
  lemma OffsetInTable(tab: seq<Entry>, hm: Body, top: nat, chains: seq<seq<nat>>, places: Places, b: seq<Byte>, ind: nat, i: nat, serial: int)
    requires TableOk(tab, hm, top, chains, places, b) && ind < |tab| && i < |chains[ind]|
    requires chains[ind][i] in hm && Holds(hm[chains[ind][i]], serial)
    ensures serial in places && places[serial].yomi == Keys(tab, TextOf(hm, top))[ind] && InUse(chains, chains[ind][i])
    ensures tab[ind].pter >= 0 && ChainOk(hm, tab[ind].pter, chains[ind], Keys(tab, TextOf(hm, top))[ind], places, b)
  {
    hide Sorted, Linked, NodeOk, ChainOk, Threaded;
    HeldWord(hm, tab[ind].pter, chains[ind], Keys(tab, TextOf(hm, top))[ind], places, b, i, serial);
    assert chains[ind][i] in chains[ind];
  }

  lemma ChainOffsets(hm: Body, head: nat, c: seq<nat>, yomi: WText, places: Places, b: seq<Byte>)
    requires ChainOk(hm, head, c, yomi, places, b) && c != []
    ensures c[0] == head && forall j :: 0 <= j < |c| ==> c[j] in hm && c[j] != ENDPTR
    ensures forall j, k :: 0 <= j < |c| && 0 <= k < |c| && c[j] == c[k] ==> j == k
    ensures forall j :: 0 <= j < |c| ==> NodeOk(hm[c[j]], yomi, places, b)
  {
    NodesDiffer(hm, head, c, yomi, places, b);
  }

  lemma PlacesFewer(places: Places, b: seq<Byte>, n: nat, serial: int)
    requires PlacesOk(places, b, n)
    ensures PlacesOk(places - {serial}, b, n)
  {
    hide HeaderAt, Apart;
  }

  /** The table's pointer is ENDPTR only when the chain had no other node. */
  lemma EmptiedChain(hm: Body, head: nat, c: seq<nat>, yomi: WText, places: Places, b: seq<Byte>, i: nat, hm1: Body, head1: nat)
    requires ChainOk(hm, head, c, yomi, places, b) && i < |c| && c[i] in hm && hm[c[i]].kosuu == 1 && head1 == ENDPTR
    requires if i == 0 then head1 == hm[c[i]].next && hm1 == hm else head1 == head
    ensures hm1 == hm && c == [c[i]]
    ensures forall s :: s in places && places[s].yomi == yomi <==> s == hm[c[i]].serial
  {
    hide NodeOk;
    NextInChain(hm, head, c, 0);
    OnlySerial(hm[c[0]], yomi, places, b);
  }

  lemma OnlySerial(nd: UNode, yomi: WText, places: Places, b: seq<Byte>)
    requires NodeOk(nd, yomi, places, b)
    ensures Holds(nd, nd.serial) && nd.serial in places && places[nd.serial].yomi == yomi
  {
  }

  lemma ShorterChain(tab: seq<Entry>, hm: Body, top: nat, chains: seq<seq<nat>>, places: Places, b: seq<Byte>,
                     ind: nat, i: nat, serial: int, hm1: Body, head1: nat)
    requires TableOk(tab, hm, top, chains, places, b) && ind < |tab| && i < |chains[ind]| && BodyOk(hm, top, chains)
    requires chains[ind][i] in hm
    requires i == 0 ==> hm1 == hm
    requires i > 0 ==> chains[ind][i - 1] in hm && hm1 == hm[chains[ind][i - 1] := hm[chains[ind][i - 1]].(next := hm[chains[ind][i]].next)]
    requires ChainOk(hm1, head1, Removed<nat>(chains[ind], i), Keys(tab, TextOf(hm, top))[ind], places - {serial}, b)
    requires head1 != ENDPTR
    ensures Removed<nat>(chains[ind], i) != [] && head1 < top
    ensures forall o :: o in hm && o !in chains[ind] && o < top ==> o in hm1 && hm1[o] == hm[o]
    ensures forall k :: 0 <= k < |tab| ==> tab[k].pter < top
  {
    hide NodeOk, Sorted, Linked;
    var c, d := chains[ind], Removed<nat>(chains[ind], i);
    assert head1 == d[0];
    assert d[0] == c[if i == 0 then 1 else 0];
    assert d[0] in c;
    assert InUse(chains, head1);
  }

  lemma WithoutChain(chains: seq<seq<nat>>, ind: nat, p: nat)
    requires ind < |chains| && chains[ind] == [p]
    requires forall k :: 0 <= k < |chains| && k != ind ==> p !in chains[k]
    ensures forall o :: InUse(Removed<seq<nat>>(chains, ind), o) ==> InUse(chains, o) && o != p
  {
    var d := Removed<seq<nat>>(chains, ind);
    forall o | InUse(d, o) ensures InUse(chains, o) && o != p {
      var k :| 0 <= k < |d| && o in d[k];
      assert d[k] == chains[if k < ind then k else k + 1];
    }
  }

  lemma WithoutNode(chains: seq<seq<nat>>, ind: nat, i: nat, p: nat)
    requires ind < |chains| && i < |chains[ind]| && chains[ind][i] == p
    requires forall k :: 0 <= k < |chains| && k != ind ==> p !in chains[k]
    requires forall j :: 0 <= j < |chains[ind]| && chains[ind][j] == p ==> j == i
    ensures forall o :: InUse(chains[ind := Removed<nat>(chains[ind], i)], o) ==> InUse(chains, o) && o != p
  {
    var d, c := Removed<nat>(chains[ind], i), chains[ind];
    forall o | InUse(chains[ind := d], o) ensures InUse(chains, o) && o != p {
      var k :| 0 <= k < |chains| && o in chains[ind := d][k];
      if k == ind {
        var j :| 0 <= j < |d| && d[j] == o;
        assert c[if j < i then j else j + 1] == o;
      }
    }
  }

  /** No offset stands in two chains. */
  lemma OneChain(tab: seq<Entry>, hm: Body, top: nat, chains: seq<seq<nat>>, places: Places, b: seq<Byte>, ind: nat, o: nat)
    requires TableOk(tab, hm, top, chains, places, b) && ind < |tab| && o in chains[ind]
    ensures forall k :: 0 <= k < |chains| && k != ind ==> o !in chains[k]
  {
    hide ChainOk, Sorted, Linked;
    KeysDiffer(tab, TextOf(hm, top));
    forall k | 0 <= k < |chains| && k != ind ensures o !in chains[k] {
      OffsetReading(tab, hm, top, chains, places, b, ind, o);
      if o in chains[k] { OffsetReading(tab, hm, top, chains, places, b, k, o); }
    }
  }

  lemma LegibleRest(places: Places, b: seq<Byte>, n: nat)
    requires PlacesOk(places, b, n)
    ensures forall s :: s in places ==> 0 <= s < n && HeaderAt(b, places[s].ptr) && places[s].ptr < |b|
  {
    hide HeaderAt, Apart;
    forall s | s in places ensures places[s].ptr < |b| { HeaderBytes(b, places[s].ptr); }
  }

  lemma SerialHere(tab: seq<Entry>, hm: Body, top: nat, chains: seq<seq<nat>>, places: Places, b: seq<Byte>, ind: nat, i: nat, serial: int)
    requires TableOk(tab, hm, top, chains, places, b) && ind < |tab| && i < |chains[ind]|
    requires chains[ind][i] in hm && Holds(hm[chains[ind][i]], serial) && hm[chains[ind][i]].kosuu == 1
    ensures serial in places && places[serial].ptr == hm[chains[ind][i]].kanjipter && hm[chains[ind][i]].serial == serial
  {
    hide Sorted, Linked, ChainOk;
    var yomi := Keys(tab, TextOf(hm, top))[ind];
    OffsetInTable(tab, hm, top, chains, places, b, ind, i, serial);
    ChainOffsets(hm, tab[ind].pter, chains[ind], yomi, places, b);
    assert NodeOk(hm[chains[ind][i]], yomi, places, b);
  }

  lemma LastSerialGone(places: Places, b: seq<Byte>, n: nat, pl: Places, serial: int)
    requires PlacesOk(places, b, n) && places == pl - {serial} && n > 0 && serial == n - 1
    ensures PlacesOk(places, b, n - 1)
  {
    hide HeaderAt, Apart;
  }

  lemma BodyCutAt(hm: Body, hm1: Body, top: nat, chains: seq<seq<nat>>, chains1: seq<seq<nat>>, p: nat)
    requires BodyOk(hm, top, chains) && BodyOk(hm1, top, chains1) && InUse(chains, p) && p in hm1 && hm1[p] == hm[p]
    requires top == End(p, hm[p].yomi) && forall o :: o in hm ==> o in hm1 && hm1[o].yomi == hm[o].yomi
    requires forall o :: InUse(chains1, o) ==> InUse(chains, o) && o != p
    ensures BodyOk(hm1, p, chains1) && 4 <= p
  {
    hide InUse;
  }

  lemma NodeAt(tab: seq<Entry>, hm: Body, top: nat, chains: seq<seq<nat>>, places: Places, b: seq<Byte>, ind: nat, i: nat) returns (yomi: WText)
    requires TableOk(tab, hm, top, chains, places, b) && ind < |tab| && i < |chains[ind]|
    ensures chains[ind][i] in hm && NodeOk(hm[chains[ind][i]], yomi, places, b) && InUse(chains, chains[ind][i])
    ensures tab[ind].pter >= 0 && ChainOk(hm, tab[ind].pter, chains[ind], yomi, places, b)
    ensures yomi == Keys(tab, TextOf(hm, top))[ind]
  {
    hide Sorted, Linked, ChainOk, NodeOk;
    yomi := Keys(tab, TextOf(hm, top))[ind];
    ChainOffsets(hm, tab[ind].pter, chains[ind], yomi, places, b);
    assert chains[ind][i] in chains[ind];
  }

  lemma EndGoneInTable(tab: seq<Entry>, hm: Body, top: nat, chains: seq<seq<nat>>, places: Places, b: seq<Byte>,
                       ind: nat, i: nat, nd1: UNode, serial: int)
    requires TableOk(tab, hm, top, chains, places, b) && BodyOk(hm, top, chains) && ind < |tab| && i < |chains[ind]|
    requires chains[ind][i] in hm && Shrunk(hm[chains[ind][i]], nd1, b, serial)
    ensures serial in places
    ensures TableOk(tab, hm[chains[ind][i] := nd1], top, chains, places - {serial}, b)
    ensures BodyOk(hm[chains[ind][i] := nd1], top, chains)
  {
    hide Sorted, Linked, ChainOk, NodeOk, BodyOk, InUse, Shrunk;
    var p := chains[ind][i];
    var hm1 := hm[p := nd1];
    var yomi := NodeAt(tab, hm, top, chains, places, b, ind, i);
    ShrunkHeld(hm[p], nd1, b, serial);
    HeldWord(hm, tab[ind].pter, chains[ind], yomi, places, b, i, serial);
    EndGone(hm, tab[ind].pter, chains[ind], yomi, places, b, i, nd1, serial);
    HeadsInBody(tab, hm, top);
    ChainChanged(tab, hm, top, chains, places, b, ind, serial, hm1, top, tab[ind].pter, chains[ind]);
    assert tab[ind := Entry(tab[ind].pter1, tab[ind].pter)] == tab && chains[ind := chains[ind]] == chains;
    StillInBody(hm, top, chains, hm1, chains);
  }

  lemma ShrunkHeld(nd: UNode, nd1: UNode, b: seq<Byte>, serial: int)
    requires Shrunk(nd, nd1, b, serial)
    ensures Holds(nd, serial) && nd1.yomi == nd.yomi
  {
  }

  lemma HeadsInBody(tab: seq<Entry>, hm: Body, top: nat)
    requires Indexed(tab, TextOf(hm, top))
    ensures forall k :: 0 <= k < |tab| ==> tab[k].pter < top
  {
  }

  lemma SplitInTable(tab: seq<Entry>, hm: Body, top: nat, chains: seq<seq<nat>>, places: Places, b: seq<Byte>,
                     ind: nat, i: nat, lo: UNode, hi: UNode, serial: int, hm1: Body)
    requires TableOk(tab, hm, top, chains, places, b) && BodyOk(hm, top, chains) && ind < |tab| && i < |chains[ind]| && 4 <= top
    requires chains[ind][i] in hm && Divided(hm[chains[ind][i]], lo, hi, top, places, serial)
    requires hm1 == hm[top := hi][chains[ind][i] := lo]
    ensures var chains1, top1 := chains[ind := Inserted<nat>(chains[ind], i + 1, top)], End(top, hm[chains[ind][i]].yomi);
            serial in places && TableOk(tab, hm1, top1, chains1, places - {serial}, b) && BodyOk(hm1, top1, chains1)
  {
    hide Sorted, Linked, ChainOk, NodeOk, BodyOk, InUse, Divided, Threaded;
    var p, c, c1 := chains[ind][i], chains[ind], Inserted<nat>(chains[ind], i + 1, top);
    var yomi := NodeAt(tab, hm, top, chains, places, b, ind, i);
    TopUnused(hm, top, chains);
    DividedHolds(hm[p], lo, hi, top, places, serial);
    DividedReadings(hm[p], lo, hi, top, places, serial);
    HeldWord(hm, tab[ind].pter, c, yomi, places, b, i, serial);
    MiddleGone(hm, tab[ind].pter, c, yomi, places, b, i, lo, hi, top, serial);
    SplitElsewhere(hm, top, c, i, lo, hi, hm1);
    ChainGrown(tab, hm, top, chains, places, b, ind, serial, hm1, End(top, hm[p].yomi), c1);
    InUseReadings(hm, top, chains, p, lo, hi, hm1);
    BodyMore(hm, top, chains, ind, i, hm1);
  }

  lemma ChainGrown(tab: seq<Entry>, hm: Body, top: nat, chains: seq<seq<nat>>, places: Places, b: seq<Byte>,
                   ind: nat, serial: int, hm1: Body, top1: nat, c1: seq<nat>)
    requires TableOk(tab, hm, top, chains, places, b) && ind < |tab| && BodyOk(hm, top, chains) && top <= top1
    requires serial in places && places[serial].yomi == Keys(tab, TextOf(hm, top))[ind]
    requires forall o :: o in hm && o !in chains[ind] && o < top ==> o in hm1 && hm1[o] == hm[o]
    requires c1 != [] && ChainOk(hm1, tab[ind].pter, c1, Keys(tab, TextOf(hm, top))[ind], places - {serial}, b)
    ensures TableOk(tab, hm1, top1, chains[ind := c1], places - {serial}, b)
  {
    hide Sorted, Linked, ChainOk, BodyOk;
    HeadsInBody(tab, hm, top);
    ChainChanged(tab, hm, top, chains, places, b, ind, serial, hm1, top1, tab[ind].pter, c1);
    assert tab[ind := Entry(tab[ind].pter1, tab[ind].pter)] == tab;
  }

  lemma SplitElsewhere(hm: Body, top: nat, c: seq<nat>, i: nat, lo: UNode, hi: UNode, hm1: Body)
    requires i < |c| && hm1 == hm[top := hi][c[i] := lo]
    ensures forall o :: o in hm && o !in c && o < top ==> o in hm1 && hm1[o] == hm[o]
  {
  }

  lemma InUseReadings(hm: Body, top: nat, chains: seq<seq<nat>>, p: nat, lo: UNode, hi: UNode, hm1: Body)
    requires BodyOk(hm, top, chains) && p in hm && lo.yomi == hm[p].yomi == hi.yomi && p < top
    requires hm1 == hm[top := hi][p := lo]
    ensures forall o :: InUse(chains, o) ==> o in hm1 && hm1[o].yomi == hm[o].yomi
    ensures top in hm1 && hm1[top].yomi == hm[p].yomi
  {
    hide InUse;
  }

  lemma DividedReadings(nd: UNode, lo: UNode, hi: UNode, h: nat, places: Places, serial: int)
    requires Divided(nd, lo, hi, h, places, serial)
    ensures lo.yomi == nd.yomi && hi.yomi == nd.yomi
  {
  }

  lemma TopUnused(hm: Body, top: nat, chains: seq<seq<nat>>)
    requires BodyOk(hm, top, chains)
    ensures forall k :: 0 <= k < |chains| ==> top !in chains[k]
    ensures forall k, i :: 0 <= k < |chains| && 0 <= i < |chains[k]| ==> chains[k][i] < top
  {
    forall k, o: nat | 0 <= k < |chains| && o in chains[k] ensures o < top { assert InUse(chains, o); }
    forall k, i | 0 <= k < |chains| && 0 <= i < |chains[k]| ensures chains[k][i] < top { assert chains[k][i] in chains[k]; }
  }

  /** When yomi is a key, its longest stored prefix is yomi itself. */
  lemma ExactKey(ks: seq<WText>, yomi: WText, r: int)
    requires LongestPrefix(ks, yomi, r) && yomi in ks
    ensures 0 <= r < |ks| && ks[r] == yomi
  {
    var j :| 0 <= j < |ks| && ks[j] == yomi;
    assert ks[j] <= yomi;
  }

  lemma FirstRecord(tab: seq<Entry>, hm: Body, top: nat, chains: seq<seq<nat>>, places: Places, b: seq<Byte>, ind: nat, i: nat)
    requires TableOk(tab, hm, top, chains, places, b) && ind < |tab| && i < |chains[ind]|
    ensures chains[ind][i] in hm && hm[chains[ind][i]].kanjipter < |b| && hm[chains[ind][i]].kosuu >= 1
  {
    hide Sorted, Linked, ChainOk;
    var yomi := NodeAt(tab, hm, top, chains, places, b, ind, i);
    assert Holds(hm[chains[ind][i]], hm[chains[ind][i]].serial);
  }
}
