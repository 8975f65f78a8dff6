/** The chains of a user dictionary (Wnn/jserver/jishoop.c:486-588): below each reading a list of
    nodes, each standing for an interval of serials whose records lie one behind the other. */
module UserChains {
  import opened Sequences
  import opened WString
  import opened PrefixIndex
  import opened Jdata
  import RevRecords
  import SdLayout
  import KanjiPool

  type Byte = KanjiPool.Byte

  /** struct uind2, with the whole reading. */
  datatype UNode = UNode(next: nat, serial: nat, kanjipter: nat, kosuu: nat, yomi: WText)

  /** Nodes by their offset in the body. */
  type Body = map<nat, UNode>

  /** Where a word is: its reading and its record. */
  datatype Place = Place(yomi: WText, ptr: nat)

  type Places = map<int, Place>

  /** Where the node at o ends. */
  function End(o: nat, yomi: WText): (e: nat)
    ensures o < e
  {
    SdLayout.Align4(o + 16 + 2 * RevRecords.Extra(|yomi|))
  }

  predicate Holds(nd: UNode, s: int) {
    nd.serial <= s < nd.serial + nd.kosuu
  }

  /** Each serial of the node is a word with this reading, and its record follows the one before. */
  ghost predicate NodeOk(nd: UNode, yomi: WText, places: Places, b: seq<Byte>) {
    && nd.kosuu >= 1 && nd.yomi == yomi
    && (forall s :: Holds(nd, s) ==> s in places && places[s].yomi == yomi && places[s].ptr < |b|)
    && places[nd.serial].ptr == nd.kanjipter
    && (forall s :: Holds(nd, s) && Holds(nd, s + 1) ==> places[s + 1].ptr == places[s].ptr + b[places[s].ptr])
  }

  /** c lists the offsets of the nodes that head leads to. */
  ghost predicate Threaded(hm: Body, head: nat, c: seq<nat>) {
    && (c == [] ==> head == ENDPTR) && (c != [] ==> head == c[0])
    && (forall i :: 0 <= i < |c| ==> c[i] != ENDPTR && c[i] in hm)
    && (forall i :: 0 <= i < |c| ==> hm[c[i]].next == if i + 1 < |c| then c[i + 1] else ENDPTR)
  }

  /** The intervals of the chain are disjoint and hold exactly the words with this reading. */
  ghost predicate ChainOk(hm: Body, head: nat, c: seq<nat>, yomi: WText, places: Places, b: seq<Byte>) {
    && Threaded(hm, head, c)
    && (forall i :: 0 <= i < |c| ==> NodeOk(hm[c[i]], yomi, places, b))
    && (forall i, j, s :: 0 <= i < |c| && 0 <= j < |c| && Holds(hm[c[i]], s) && Holds(hm[c[j]], s) ==> i == j)
    && (forall s :: s in places && places[s].yomi == yomi ==> exists i :: 0 <= i < |c| && Holds(hm[c[i]], s))
  }

  lemma NodesDiffer(hm: Body, head: nat, c: seq<nat>, yomi: WText, places: Places, b: seq<Byte>)
    requires ChainOk(hm, head, c, yomi, places, b)
    ensures forall i, j :: 0 <= i < |c| && 0 <= j < |c| && c[i] == c[j] ==> i == j
  {
    forall i, j | 0 <= i < |c| && 0 <= j < |c| && c[i] == c[j] ensures i == j {
      assert NodeOk(hm[c[i]], yomi, places, b);
      assert Holds(hm[c[i]], hm[c[i]].serial) && Holds(hm[c[j]], hm[c[i]].serial);
    }
  }

  // ----- the four ways to take a serial out of a chain -----

  /** A chain that the change does not touch. */
  lemma OtherChain(hm: Body, hm1: Body, head: nat, c: seq<nat>, yomi: WText, places: Places, b: seq<Byte>, serial: int)
    requires ChainOk(hm, head, c, yomi, places, b)
    requires forall i :: 0 <= i < |c| ==> c[i] in hm1 && hm1[c[i]] == hm[c[i]]
    requires serial in places ==> places[serial].yomi != yomi
    ensures ChainOk(hm1, head, c, yomi, places - {serial}, b)
  {
    hide NodeOk;
    forall i | 0 <= i < |c| ensures NodeOk(hm1[c[i]], yomi, places - {serial}, b) {
      assert NodeOk(hm[c[i]], yomi, places, b);
      OtherNode(hm[c[i]], yomi, places, b, serial, hm[c[i]].next);
    }
  }

  /** A node that does not hold the serial, or is no node of its reading. */
  lemma OtherNode(nd: UNode, yomi: WText, places: Places, b: seq<Byte>, serial: int, next: nat)
    requires NodeOk(nd, yomi, places, b)
    requires !Holds(nd, serial) || (serial in places ==> places[serial].yomi != yomi)
    ensures NodeOk(nd.(next := next), yomi, places - {serial}, b)
  {
  }

  /** The node held no other serial: it is unlinked. */
  lemma WholeGone(hm: Body, head: nat, c: seq<nat>, yomi: WText, places: Places, b: seq<Byte>, i: nat, hm1: Body, head1: nat)
    requires ChainOk(hm, head, c, yomi, places, b) && i < |c| && hm[c[i]].kosuu == 1
    requires var next := hm[c[i]].next;
             if i == 0 then hm1 == hm && head1 == next
             else hm1 == hm[c[i - 1] := hm[c[i - 1]].(next := next)] && head1 == head
    ensures ChainOk(hm1, head1, Removed<nat>(c, i), yomi, places - {hm[c[i]].serial}, b)
  {
    hide NodeOk;
    var serial, d := hm[c[i]].serial, Removed<nat>(c, i);
    NodesDiffer(hm, head, c, yomi, places, b);
    assert Holds(hm[c[i]], serial);
    forall j | 0 <= j < |c| && j != i
      ensures NodeOk(hm1[c[j]], yomi, places - {serial}, b) && c[j] in hm1
      ensures hm1[c[j]].next == if j + 1 == i then hm[c[i]].next else hm[c[j]].next
      ensures forall s :: Holds(hm1[c[j]], s) <==> Holds(hm[c[j]], s)
    {
      assert !Holds(hm[c[j]], serial);
      OtherNode(hm[c[j]], yomi, places, b, serial, hm1[c[j]].next);
      assert hm1[c[j]] == hm[c[j]].(next := hm1[c[j]].next);
    }
    RemovedThreaded(hm, head, c, i, hm1, head1);
    RemovedCovers(hm, c, i, hm1, yomi, places, serial);
  }

  lemma RemovedThreaded(hm: Body, head: nat, c: seq<nat>, i: nat, hm1: Body, head1: nat)
    requires Threaded(hm, head, c) && i < |c|
    requires if i == 0 then head1 == hm[c[i]].next else head1 == head
    requires forall j :: 0 <= j < |c| && j != i ==>
               c[j] in hm1 && hm1[c[j]].next == if j + 1 == i then hm[c[i]].next else hm[c[j]].next
    ensures Threaded(hm1, head1, Removed<nat>(c, i))
  {
    var d := Removed<nat>(c, i);
    forall k | 0 <= k < |d|
      ensures d[k] in hm1 && d[k] != ENDPTR && hm1[d[k]].next == if k + 1 < |d| then d[k + 1] else ENDPTR
    {
      var j := if k < i then k else k + 1;
      assert d[k] == c[j];
      NextInChain(hm, head, c, j);
      NextInChain(hm, head, c, i);
    }
    NextInChain(hm, head, c, i);
    assert d != [] ==> d[0] == c[if i == 0 then 1 else 0];
    assert forall i :: 0 <= i < |d| ==> hm1[d[i]].next == if i + 1 < |d| then d[i + 1] else ENDPTR;
    assert Threaded(hm1, head1, d);
  }

  lemma NextInChain(hm: Body, head: nat, c: seq<nat>, i: nat)
    requires Threaded(hm, head, c) && i < |c|
    ensures c[i] in hm && c[i] != ENDPTR && hm[c[i]].next == if i + 1 < |c| then c[i + 1] else ENDPTR
  {
  }

  lemma RemovedCovers(hm: Body, c: seq<nat>, i: nat, hm1: Body, yomi: WText, places: Places, serial: int)
    requires i < |c| && (forall j :: 0 <= j < |c| ==> c[j] in hm) && forall s :: Holds(hm[c[i]], s) <==> s == serial
    requires forall j :: 0 <= j < |c| && j != i ==> c[j] in hm1 && forall s :: Holds(hm1[c[j]], s) <==> Holds(hm[c[j]], s)
    requires forall s :: s in places && places[s].yomi == yomi ==> exists j :: 0 <= j < |c| && Holds(hm[c[j]], s)
    ensures var d := Removed<nat>(c, i);
            forall s :: s in places - {serial} && places[s].yomi == yomi ==> exists j :: 0 <= j < |d| && Holds(hm1[d[j]], s)
  {
    var d := Removed<nat>(c, i);
    forall s | s in places - {serial} && places[s].yomi == yomi ensures exists j :: 0 <= j < |d| && Holds(hm1[d[j]], s) {
      var j :| 0 <= j < |c| && Holds(hm[c[j]], s);
      assert d[if j < i then j else j - 1] == c[j];
    }
  }

  /** The node keeps its place but holds the serial no longer: it gave up its first or its last. */
  ghost predicate Shrunk(nd: UNode, nd1: UNode, b: seq<Byte>, serial: int) {
    && nd.kosuu > 1 && nd.kanjipter < |b|
    && (|| (serial == nd.serial && nd1 == nd.(serial := nd.serial + 1, kosuu := nd.kosuu - 1, kanjipter := nd.kanjipter + b[nd.kanjipter]))
        || (serial == nd.serial + nd.kosuu - 1 && nd1 == nd.(kosuu := nd.kosuu - 1)))
  }

  lemma ShrunkNode(nd: UNode, nd1: UNode, yomi: WText, places: Places, b: seq<Byte>, serial: int)
    requires NodeOk(nd, yomi, places, b) && Shrunk(nd, nd1, b, serial)
    ensures NodeOk(nd1, yomi, places - {serial}, b)
    ensures forall s :: Holds(nd1, s) <==> Holds(nd, s) && s != serial
  {
    assert Holds(nd, nd.serial) && Holds(nd, nd.serial + 1);
  }

  lemma EndGone(hm: Body, head: nat, c: seq<nat>, yomi: WText, places: Places, b: seq<Byte>, i: nat, nd1: UNode, serial: int)
    requires ChainOk(hm, head, c, yomi, places, b) && i < |c| && Shrunk(hm[c[i]], nd1, b, serial)
    ensures ChainOk(hm[c[i] := nd1], head, c, yomi, places - {serial}, b)
  {
    hide NodeOk;
    var hm1 := hm[c[i] := nd1];
    NodesDiffer(hm, head, c, yomi, places, b);
    ShrunkNode(hm[c[i]], nd1, yomi, places, b, serial);
    assert Holds(hm[c[i]], serial) by { assert NodeOk(hm[c[i]], yomi, places, b); }
    forall j | 0 <= j < |c|
      ensures NodeOk(hm1[c[j]], yomi, places - {serial}, b)
      ensures forall s :: Holds(hm1[c[j]], s) <==> Holds(hm[c[j]], s) && s != serial
    {
      if j != i {
        assert !Holds(hm[c[j]], serial);
        OtherNode(hm[c[j]], yomi, places, b, serial, hm[c[j]].next);
        assert hm1[c[j]] == hm[c[j]].(next := hm[c[j]].next);
      }
    }
  }

  /** The node is split: it keeps the serials before, a new node behind it gets those after. */
  ghost predicate Divided(nd: UNode, lo: UNode, hi: UNode, h: nat, places: Places, serial: int) {
    && nd.serial < serial < nd.serial + nd.kosuu - 1 && serial + 1 in places
    && lo == nd.(next := h, kosuu := serial - nd.serial)
    && hi == UNode(nd.next, serial + 1, places[serial + 1].ptr, nd.kosuu - (serial - nd.serial) - 1, nd.yomi)
  }

  lemma DividedNodes(nd: UNode, lo: UNode, hi: UNode, h: nat, yomi: WText, places: Places, b: seq<Byte>, serial: int)
    requires NodeOk(nd, yomi, places, b) && Divided(nd, lo, hi, h, places, serial)
    ensures NodeOk(lo, yomi, places - {serial}, b) && NodeOk(hi, yomi, places - {serial}, b)
    ensures forall s :: Holds(nd, s) && s != serial <==> Holds(lo, s) || Holds(hi, s)
    ensures forall s :: !(Holds(lo, s) && Holds(hi, s))
  {
  }

  lemma MiddleGone(hm: Body, head: nat, c: seq<nat>, yomi: WText, places: Places, b: seq<Byte>, i: nat, lo: UNode, hi: UNode, h: nat, serial: int)
    requires ChainOk(hm, head, c, yomi, places, b) && i < |c| && Divided(hm[c[i]], lo, hi, h, places, serial)
    requires h != ENDPTR && h !in c
    ensures ChainOk(hm[h := hi][c[i] := lo], head, Inserted<nat>(c, i + 1, h), yomi, places - {serial}, b)
  {
    hide NodeOk, Divided;
    var hm1, d := hm[h := hi][c[i] := lo], Inserted<nat>(c, i + 1, h);
    NodesDiffer(hm, head, c, yomi, places, b);
    DividedNodes(hm[c[i]], lo, hi, h, yomi, places, b, serial);
    assert Holds(hm[c[i]], serial) by { DividedHolds(hm[c[i]], lo, hi, h, places, serial); }
    forall j | 0 <= j < |c| && j != i
      ensures c[j] != c[i] && hm1[c[j]] == hm[c[j]] && NodeOk(hm[c[j]], yomi, places - {serial}, b) && !Holds(hm[c[j]], serial)
    {
      assert !Holds(hm[c[j]], serial);
      OtherNode(hm[c[j]], yomi, places, b, serial, hm[c[j]].next);
      assert hm[c[j]] == hm[c[j]].(next := hm[c[j]].next);
    }
    assert hm1[h] == hi && hm1[c[i]] == lo;
    DividedLinks(hm[c[i]], lo, hi, h, places, serial);
    forall k | 0 <= k < |d| ensures d[k] in hm1 && NodeOk(hm1[d[k]], yomi, places - {serial}, b) {
      assert d[k] == h || d[k] == c[if k <= i then k else k - 1];
    }
    InsertedThreaded(hm, head, c, i, h, hm1);
    InsertedHolds(hm, c, i, h, hm1, yomi, places, serial);
  }

  lemma DividedHolds(nd: UNode, lo: UNode, hi: UNode, h: nat, places: Places, serial: int)
    requires Divided(nd, lo, hi, h, places, serial)
    ensures Holds(nd, serial)
  {
  }

  lemma DividedLinks(nd: UNode, lo: UNode, hi: UNode, h: nat, places: Places, serial: int)
    requires Divided(nd, lo, hi, h, places, serial)
    ensures lo.next == h && hi.next == nd.next
  {
  }

  lemma InsertedThreaded(hm: Body, head: nat, c: seq<nat>, i: nat, h: nat, hm1: Body)
    requires Threaded(hm, head, c) && i < |c| && h != ENDPTR && h in hm1 && c[i] in hm1
    requires hm1[c[i]].next == h && hm1[h].next == hm[c[i]].next
    requires forall j :: 0 <= j < |c| && j != i ==> c[j] in hm1 && hm1[c[j]] == hm[c[j]]
    ensures Threaded(hm1, head, Inserted<nat>(c, i + 1, h))
  {
    var d := Inserted<nat>(c, i + 1, h);
    forall k | 0 <= k < |d|
      ensures d[k] in hm1 && d[k] != ENDPTR && hm1[d[k]].next == if k + 1 < |d| then d[k + 1] else ENDPTR
    {
      if k != i + 1 {
        NextInChain(hm, head, c, if k <= i then k else k - 1);
      }
      NextInChain(hm, head, c, i);
    }
    assert d[0] == c[0];
    assert forall i :: 0 <= i < |d| ==> hm1[d[i]].next == if i + 1 < |d| then d[i + 1] else ENDPTR;
    assert Threaded(hm1, head, d);
  }

  lemma InsertedHolds(hm: Body, c: seq<nat>, i: nat, h: nat, hm1: Body, yomi: WText, places: Places, serial: int)
    requires i < |c| && (forall j :: 0 <= j < |c| ==> c[j] in hm && c[j] in hm1) && h in hm1
    requires forall j :: 0 <= j < |c| && j != i ==> hm1[c[j]] == hm[c[j]] && !Holds(hm[c[j]], serial)
    requires forall s :: Holds(hm[c[i]], s) && s != serial <==> Holds(hm1[c[i]], s) || Holds(hm1[h], s)
    requires forall s :: !(Holds(hm1[c[i]], s) && Holds(hm1[h], s))
    requires forall j, k, s :: 0 <= j < |c| && 0 <= k < |c| && Holds(hm[c[j]], s) && Holds(hm[c[k]], s) ==> j == k
    requires forall s :: s in places && places[s].yomi == yomi ==> exists j :: 0 <= j < |c| && Holds(hm[c[j]], s)
    ensures var d := Inserted<nat>(c, i + 1, h);
            && (forall j, k, s :: 0 <= j < |d| && 0 <= k < |d| && d[j] in hm1 && d[k] in hm1 && Holds(hm1[d[j]], s) && Holds(hm1[d[k]], s) ==> j == k)
            && forall s :: s in places - {serial} && places[s].yomi == yomi ==>
                 exists j :: 0 <= j < |d| && d[j] in hm1 && Holds(hm1[d[j]], s)
  {
    var d := Inserted<nat>(c, i + 1, h);
    forall s | s in places - {serial} && places[s].yomi == yomi
      ensures exists j :: 0 <= j < |d| && d[j] in hm1 && Holds(hm1[d[j]], s)
    {
      var j :| 0 <= j < |c| && Holds(hm[c[j]], s);
      assert d[if j <= i then j else j + 1] == c[j] && d[i + 1] == h;
    }
  }
}
