/** The updatable dictionary with a reverse index (Wnn/jserver/rd_jishoop.c): words in two
    sorted tables, by reading and by kanji, over one pool of records. */
module RevDict {
  import opened WString
  import opened PrefixIndex
  import opened WordChains
  import opened KanjiPool
  import opened RevWords
  import opened IndexMeaning
  import opened Jdata

  /** The dictionary fields of `struct JT`. The capacities are those of the arrays; C reallocates
      before it runs out. */
  class Dictionary {
    const yomiTab: RevTable         // ri1[D_YOMI], and next[D_YOMI] of each ri2
    const kanjiTab: RevTable        // ri1[D_KANJI], and next[D_KANJI] of each ri2
    const kanjipter: array<int>     // kanjipter of each ri2
    const hinsi: array<int>
    const hindo: array<int>
    const pool: RecordPool
    var maxserial: nat
    var maxri2: nat
    var gosuu: int

    ghost predicate Shaped()
      reads this, pool
    {
      && yomiTab != kanjiTab && yomiTab.tary != kanjiTab.tary && yomiTab.next != kanjiTab.next
      && {kanjipter, hinsi, hindo} !! {yomiTab.next, kanjiTab.next}
      && kanjipter != hinsi && kanjipter != hindo && hinsi != hindo
      && pool.Valid() && pool.keepYomi
      && maxri2 == maxserial <= kanjipter.Length == hinsi.Length == hindo.Length
      && yomiTab.next.Length == kanjiTab.next.Length == kanjipter.Length
    }

    ghost function Ptr(): (p: seq<int>)
      requires Shaped()
      reads this, pool, kanjipter
      ensures |p| == maxserial
    {
      kanjipter[..maxserial]
    }

    ghost function Hinsi(): (h: seq<int>)
      requires Shaped()
      reads this, pool, hinsi
      ensures |h| == maxserial
    {
      hinsi[..maxserial]
    }

    ghost predicate Recorded()
      requires Shaped()
      reads this, pool, pool.kanji, kanjipter, hinsi
    {
      RecordsOk(pool.Bytes(), Ptr(), LiveOf(Hinsi()))
    }

    ghost function Text(which: int): seq<WText>
      requires Shaped() && Recorded()
      reads this, pool, pool.kanji, kanjipter, hinsi
    {
      TextOf(pool.Bytes(), Ptr(), LiveOf(Hinsi()), which)
    }

    /** The words of the dictionary by serial. */
    ghost function Words(): map<int, Word>
      requires Shaped() && Recorded()
      reads this, pool, pool.kanji, kanjipter, hinsi
    {
      WordMap(pool.Bytes(), Ptr(), Hinsi())
    }

    ghost function Objects(): set<object> {
      {this, yomiTab, yomiTab.tary, yomiTab.next, kanjiTab, kanjiTab.tary, kanjiTab.next,
       kanjipter, hinsi, hindo, pool, pool.kanji}
    }

    ghost predicate Valid()
      reads Objects()
    {
      && Shaped() && Recorded()
      && yomiTab.Valid(Text(D_YOMI), LiveOf(Hinsi()))
      && kanjiTab.Valid(Text(D_KANJI), LiveOf(Hinsi()))
      && NoDuplicates(Words())
      && gosuu == |Words()|
    }

    /** An empty dictionary (create_null_dic). */
    constructor (keys: nat, words: nat, bytes: nat)
      requires bytes < 0x8000_0000
      ensures Valid() && fresh(Objects())
      ensures Words() == map[] && maxserial == 0
      ensures yomiTab.maxri1 == kanjiTab.maxri1 == 0 && yomiTab.tary.Length == kanjiTab.tary.Length == keys
      ensures kanjipter.Length == words && pool.maxkanji == 0 && pool.kanji.Length == bytes
    {
      hide IndexInv, RecordsOk, WordMap, TextOf, LiveOf, NoDuplicates;
      yomiTab := new RevTable(keys, words);
      kanjiTab := new RevTable(keys, words);
      kanjipter := new int[words](_ => -1);
      hinsi := new int[words](_ => SAKUJO_HINSI);
      hindo := new int[words](_ => 0);
      pool := new RecordPool(bytes, true);
      maxserial, maxri2, gosuu := 0, 0, 0;
      new;
      assert fresh(Objects());
      NoWords();
      EmptyMap();
      assert Ptr() == [] && Hinsi() == [] && pool.Bytes() == [];
      StillInOrder([], [], [], [], [], [], []);
    }

    /** Room for one more word, as rd_word_add1 secures before it starts
        (Wnn/jserver/rd_jishoop.c:88-107). */
    ghost predicate Room(yomi: WText, kanji: WText, comment: WText)
      requires Shaped()
      reads this, pool, yomiTab, kanjiTab
    {
      && pool.maxkanji + (|kanji| + |comment| + |yomi| + 4) * 2 < pool.kanji.Length
      && yomiTab.maxri1 < yomiTab.tary.Length && kanjiTab.maxri1 < kanjiTab.tary.Length
      && maxserial < kanjipter.Length
    }

    /** Can the record of every word be read? A record too long for its length byte still can, as
        long as nothing is written over it. */
    ghost predicate AllRead()
      requires Shaped()
      reads this, pool, pool.kanji, kanjipter, hinsi
    {
      AllReadable(pool.kanji[..], Ptr(), LiveOf(Hinsi()))
    }

    ghost function SaidText(which: int): seq<WText>
      requires Shaped() && AllRead()
      reads this, pool, pool.kanji, kanjipter, hinsi
    {
      SaidTexts(pool.kanji[..], Ptr(), LiveOf(Hinsi()), which)
    }

    /** The keys of a table, word by word. */
    method Texts(which: int) returns (text: seq<WText>)
      requires Shaped() && AllRead()
      ensures text == SaidText(which)
    {
      hide Readable, Said, PlainRec;
      text := [];
      var s := 0;
      while s < maxserial
        invariant 0 <= s <= maxserial && |text| == s
        invariant forall t :: 0 <= t < s ==> text[t] == SaidText(which)[t]
      {
        if hinsi[s] != SAKUJO_HINSI {
          assert LiveOf(Hinsi())[s];
          var k, y, c := GetTexts(pool.kanji, kanjipter[s]);
          text := text + [if which == D_YOMI then y else k];
        } else {
          text := text + [[]];
        }
        s := s + 1;
      }
    }

    method TableKeys() returns (text0: seq<WText>, text1: seq<WText>)
      requires Shaped() && Recorded()
      ensures text0 == Text(D_YOMI) && text1 == Text(D_KANJI)
    {
      hide RecordsOk, LiveOf, HeaderAt, AllReadable, SaidTexts, TextOf;
      RecordsAreRead(pool.Bytes(), pool.kanji[..], Ptr(), LiveOf(Hinsi()));
      text0 := Texts(D_YOMI);
      text1 := Texts(D_KANJI);
    }

    /** The record that a word's arguments become. */
    ghost function RecordOf(w: Word): Rec {
      Spelled(w.kanji, w.yomi, w.comment)
    }

    /** Looks for a word with the same reading, kanji and part of speech
        (Wnn/jserver/rd_jishoop.c:111-139). */
    method FindDuplicate(w: Word) returns (ind: int)
      requires Valid()
      ensures ind == -1 || (ind in Words() && SameEntry(Words()[ind], w))
      ensures ind == -1 ==> forall s :: s in Words() ==> !SameEntry(Words()[s], w)
    {
      hide RecordsOk, IndexInv, HeaderAt, NoDuplicates, Reverse, SameEntry, Chain, TextOf, LiveOf, WordMap, Linked, Sorted, Keys, Descending, Fetch, WordOf;
      var text0, text1 := TableKeys();
      ghost var tab, next, live := yomiTab.tary[..yomiTab.maxri1], yomiTab.next[..maxserial], LiveOf(Hinsi());
      IsIndexed(tab, next, text0, live);
      var key := RdBinarySame(yomiTab.tary, Reverse(w.yomi), yomiTab.maxri1, text0);
      ReadingIsKey(pool.Bytes(), Ptr(), Hinsi(), w);
      if key == -1 {
        NotUnderKey(tab, next, text0, live, Reverse(w.yomi));
        return -1;
      }
      ChainOfKey(tab, next, text0, live, key);
      assert yomiTab.tary[key] == tab[key];
      ind := FindInChain(w, yomiTab.tary[key].pter);
    }

    /** The walk along one chain (lines 115-138). */
    method FindInChain(w: Word, head: nat) returns (ind: int)
      requires Valid() && head < maxserial && Descending(yomiTab.next[..maxserial])
      requires forall s :: s in Chain(yomiTab.next[..maxserial], head) ==>
                 s in Words() && Text(D_YOMI)[s] == Reverse(w.yomi)
      ensures ind == -1 ==> forall s :: s in Chain(yomiTab.next[..maxserial], head) ==> !SameEntry(Words()[s], w)
      ensures ind != -1 ==> ind in Words() && SameEntry(Words()[ind], w)
    {
      hide RecordsOk, IndexInv, HeaderAt, Fetch, Home, NoDuplicates, Reverse, SameEntry, WordMap, TextOf, LiveOf;
      ghost var nexts := yomiTab.next[..maxserial];
      ind := head;
      while true
        invariant 0 <= ind < maxserial
        invariant forall s :: s in Chain(nexts, ind) ==> s in Chain(nexts, head)
        invariant forall s :: s in Chain(nexts, head) ==> s in Chain(nexts, ind) || !SameEntry(Words()[s], w)
        decreases ind
      {
        assert ind in Chain(nexts, ind);
        assert Chain(nexts, ind) == [ind] + Chain(nexts, nexts[ind]);
        if hinsi[ind] == w.hinsi {
          var same := SameKanji(w, ind);
          if same {
            return;
          }
        } else {
          DifferentHinsi(Words()[ind], w);
        }
        if yomiTab.next[ind] == RD_ENDPTR {
          return -1;
        }
        ind := yomiTab.next[ind];
      }
    }

    /** Does word ind, which has w's reading and part of speech, have its kanji as well? */
    method SameKanji(w: Word, ind: nat) returns (same: bool)
      requires Valid() && ind in Words() && Text(D_YOMI)[ind] == Reverse(w.yomi) && hinsi[ind] == w.hinsi
      ensures same <==> SameEntry(Words()[ind], w)
    {
      hide IndexInv, HeaderAt, Fetch, Home, NoDuplicates, Reverse, Readable, Said;
      LegibleIsReadable(pool.Bytes(), pool.kanji[..], kanjipter[ind]);
      var kanji1, yomi1, comment1 := GetKanjiStr(pool.kanji, kanjipter[ind]);
      ReverseReverse(kanji1);
      ReverseReverse(w.yomi);
      return w.kanji == kanji1;
    }

    /** Puts word |text0| at the head of its chains in both tables (lines 140-190). */
    method EnterTables(w: Word, text0: seq<WText>, text1: seq<WText>, ghost live: seq<bool>)
      requires yomiTab != kanjiTab && yomiTab.tary != kanjiTab.tary && yomiTab.next != kanjiTab.next
      requires yomiTab.Valid(text0, live) && kanjiTab.Valid(text1, live)
      requires yomiTab.maxri1 < yomiTab.tary.Length && |text0| < yomiTab.next.Length
      requires kanjiTab.maxri1 < kanjiTab.tary.Length && |text1| < kanjiTab.next.Length
      modifies yomiTab, yomiTab.tary, yomiTab.next, kanjiTab, kanjiTab.tary, kanjiTab.next
      ensures yomiTab.Valid(text0 + [Reverse(w.yomi)], live + [true])
      ensures kanjiTab.Valid(text1 + [Reverse(w.kanji)], live + [true])
      ensures yomiTab.maxri1 <= old(yomiTab.maxri1) + 1 && kanjiTab.maxri1 <= old(kanjiTab.maxri1) + 1
    {
      hide IndexInv, Reverse, KeyAdded;
      yomiTab.Add(Reverse(w.yomi), text0, live);
      kanjiTab.Add(Reverse(w.kanji), text1, live);
    }

    /** Stores what the word says (lines 191-200). */
    method StoreWord(w: Word) returns (serial: nat)
      requires Shaped() && Wellformed(w) && maxserial < kanjipter.Length
      requires pool.maxkanji + (|w.kanji| + |w.comment| + |w.yomi| + 4) * 2 < pool.kanji.Length
      modifies this`maxserial, this`maxri2, this`gosuu, kanjipter, hinsi, hindo, pool, pool.kanji
      ensures Shaped() && serial == old(maxserial) && maxserial == serial + 1 && gosuu == old(gosuu) + 1
      ensures Ptr() == old(Ptr()) + [|old(pool.Bytes())|] && Hinsi() == old(Hinsi()) + [w.hinsi]
      ensures HeaderAt(pool.Bytes(), |old(pool.Bytes())|) <==> RecLen(RecordOf(w)) <= 255
      ensures RecLen(RecordOf(w)) <= 255 ==> OneMore(old(pool.Bytes()), pool.Bytes(), RecordOf(w))
      ensures hindo[..] == old(hindo[..])[serial := 0]
      ensures pool.PackedLast(RecordOf(w), old(pool.Bytes()))
    {
      hide Spelled, RecLen, HeaderAt, PlainAt, Fetch, Home, Reverse, Packed, RecordPool.PackedLast;
      serial := maxserial;
      maxserial, maxri2, gosuu := maxserial + 1, maxri2 + 1, gosuu + 1;
      kanjipter[serial] := pool.maxkanji;
      hinsi[serial] := w.hinsi;
      hindo[serial] := 0;
      SpelledBound(w.kanji, w.yomi, w.comment);
      ReverseIsEmpty(w.yomi);
      SpelledYomi(w.kanji, w.yomi, w.comment);
      pool.Kanjiadd(w.kanji, w.yomi, w.comment);
    }

    /** The word w stands behind words with pool b, pointers p, parts of speech h and these keys. */
    ghost predicate Entered(w: Word, b: seq<Byte>, p: seq<int>, h: seq<int>, text0: seq<WText>, text1: seq<WText>)
      reads Objects()
    {
      && Shaped() && Ptr() == p + [|b|] && Hinsi() == h + [w.hinsi] && pool.PackedLast(RecordOf(w), b)
      && yomiTab.Valid(text0 + [Reverse(w.yomi)], LiveOf(h) + [true])
      && kanjiTab.Valid(text1 + [Reverse(w.kanji)], LiveOf(h) + [true])
    }

    /** Enters a word under the next serial (Wnn/jserver/rd_jishoop.c:140-201). */
    method NewWord(w: Word) returns (serial: nat)
      requires Valid() && Room(w.yomi, w.kanji, w.comment) && Wellformed(w)
      requires forall s :: s in Words() ==> !SameEntry(Words()[s], w)
      modifies Objects()
      ensures Shaped() && serial == old(maxserial) && maxserial == serial + 1
      ensures Valid() <==> RecLen(RecordOf(w)) <= 255
      ensures Valid() ==> Words() == old(Words())[serial := w]
      ensures Entered(w, old(pool.Bytes()), old(Ptr()), old(Hinsi()), old(Text(D_YOMI)), old(Text(D_KANJI))) && gosuu == old(gosuu) + 1
      ensures hindo[..] == old(hindo[..])[serial := 0]
      ensures yomiTab.maxri1 <= old(yomiTab.maxri1) + 1 && kanjiTab.maxri1 <= old(kanjiTab.maxri1) + 1
    {
      hide Packed, RecordsOk, WordMap, TextOf, LiveOf, IndexInv, Spelled, RecLen, HeaderAt, Fetch, Home, Reverse, NoDuplicates, KeyText, WordOf;
      ghost var live, m := LiveOf(Hinsi()), Words();
      ghost var b, p, h := pool.Bytes(), Ptr(), Hinsi();
      var text0, text1 := TableKeys();
      EnterTables(w, text0, text1, live);
      serial := StoreWord(w);
      ghost var c := pool.Bytes();
      if RecLen(RecordOf(w)) <= 255 {
        NewWordValues(b, c, RecordOf(w), p, h, w.hinsi);
        RecordSpells(w);
        StillNoDuplicates(m, serial, w);
      } else {
        IllegibleWord(c, Ptr(), Hinsi(), serial);
      }
    }

    /** Gives word ind a new record when its comment differs (lines 122-133). */
    method Recomment(ind: nat, w: Word)
      requires Valid() && Room(w.yomi, w.kanji, w.comment) && Wellformed(w)
      requires ind in Words() && SameEntry(Words()[ind], w)
      modifies kanjipter, pool, pool.kanji
      ensures Shaped() && maxserial == old(maxserial)
      ensures Valid() <==> RecLen(RecordOf(w)) <= 255 || old(Words())[ind] == w
      ensures Valid() ==> Words() == old(Words())[ind := w]
      ensures Hinsi() == old(Hinsi())
      ensures old(Words())[ind] != w ==> Ptr() == old(Ptr())[ind := |old(pool.Bytes())|] && pool.PackedLast(RecordOf(w), old(pool.Bytes()))
    {
      hide RecordsOk, WordMap, TextOf, LiveOf, IndexInv, RecLen, HeaderAt, PlainAt, Fetch, Home, Reverse, NoDuplicates, RecordPool.PackedLast, Packed, Readable, Said;
      ghost var b, p, h, m := pool.Bytes(), Ptr(), Hinsi(), Words();
      LiveRecord(b, p, h, ind);
      LegibleIsReadable(b, pool.kanji[..], kanjipter[ind]);
      var kanji1, yomi1, comment1 := GetKanjiStr(pool.kanji, kanjipter[ind]);
      if w.comment != comment1 {
        kanjipter[ind] := pool.maxkanji;
        SpelledBound(w.kanji, w.yomi, w.comment);
        pool.Kanjiadd(w.kanji, w.yomi, w.comment);
        assert Ptr() == p[ind := |b|] && Hinsi() == h;
        if RecLen(RecordOf(w)) <= 255 {
          ReverseIsEmpty(w.yomi);
          ReverseReverse(Fetch(b, p[ind]).yomi);
          ReverseReverse(Fetch(b, p[ind]).kanji);
          NewRecordValues(b, pool.Bytes(), RecordOf(w), p, h, ind);
          RecordSpells(w);
          StillNoDuplicatesAt(m, ind, w);
        } else {
          IllegibleWord(pool.Bytes(), Ptr(), Hinsi(), ind);
        }
      } else {
        assert m[ind := w] == m;
      }
    }

    /** rd_word_add1: a word already there gets the comment, a new one the next serial. The
        dictionary stays valid exactly when the record's length fits its length byte. */
    method RdWordAdd1(w: Word) returns (serial: nat)
      requires Valid() && Room(w.yomi, w.kanji, w.comment) && Wellformed(w)
      modifies Objects()
      ensures Shaped()
      ensures serial in old(Words()) ==> SameEntry(old(Words())[serial], w) && maxserial == old(maxserial)
      ensures serial !in old(Words()) ==>
                && serial == old(maxserial) && maxserial == serial + 1
                && forall s :: s in old(Words()) ==> !SameEntry(old(Words())[s], w)
      ensures Valid() <==> RecLen(RecordOf(w)) <= 255 || (serial in old(Words()) && old(Words())[serial] == w)
      ensures Valid() ==> Words() == old(Words())[serial := w]
      ensures serial !in old(Words()) ==>
                && Entered(w, old(pool.Bytes()), old(Ptr()), old(Hinsi()), old(Text(D_YOMI)), old(Text(D_KANJI)))
                && gosuu == old(gosuu) + 1
      ensures serial in old(Words()) ==> Hinsi() == old(Hinsi())
      ensures serial in old(Words()) && old(Words())[serial] != w ==>
                Ptr() == old(Ptr())[serial := |old(pool.Bytes())|] && pool.PackedLast(RecordOf(w), old(pool.Bytes()))
      ensures hindo[..] == if serial in old(Words()) then old(hindo[..]) else old(hindo[..])[serial := 0]
      ensures yomiTab.maxri1 <= old(yomiTab.maxri1) + 1 && kanjiTab.maxri1 <= old(kanjiTab.maxri1) + 1
    {
      hide RecordsOk, WordMap, TextOf, LiveOf, IndexInv, RecLen, HeaderAt, PlainAt, Fetch, Home, NoDuplicates, Spelled, SameEntry, AllReadable, SaidTexts, RecordPool.PackedLast, Dictionary.Entered, Reverse;
      var ind := FindDuplicate(w);
      if ind != -1 {
        Recomment(ind, w);
        return ind;
      }
      serial := NewWord(w);
    }

    /** The length checks of word_add in front of rd_word_add1 (Wnn/jserver/jishoop.c:67-81). They
        let words through whose record does not fit its length byte. */
    method WordAdd(w: Word) returns (r: int)
      requires Valid() && Room(w.yomi, w.kanji, w.comment)
      requires 0 !in w.yomi && 0 !in w.kanji && 0 !in w.comment && w.hinsi != SAKUJO_HINSI
      modifies Objects()
      ensures Shaped()
      ensures r == -1 <==> w.yomi == [] || |w.yomi| >= LENGTHYOMI || |w.kanji| + |w.comment| + |w.yomi| >= LENGTHKANJI
      ensures r == -1 ==> Valid() && Words() == old(Words())
      ensures r != -1 ==> r in old(Words()) || r == old(maxserial)
      ensures r != -1 ==> (Valid() <==> FitsRecord(w) || (r in old(Words()) && old(Words())[r] == w))
      ensures r != -1 && Valid() ==> Words() == old(Words())[r := w]
    {
      hide RecordsOk, WordMap, TextOf, LiveOf, IndexInv, RecLen, HeaderAt, Fetch, Home, NoDuplicates, SameEntry;
      if |w.yomi| >= LENGTHYOMI || |w.kanji| + |w.comment| + |w.yomi| >= LENGTHKANJI || |w.yomi| == 0 {
        return -1;
      }
      FitsExactly(w);
      r := RdWordAdd1(w);
    }

    /** rd_word_delete1: takes a word out of both tables, gives up its serial when it is the last
        one, and the end of the pool when its record is there. */
    method Unlist(serial: nat)
      requires Shaped() && AllRead() && serial < maxserial && LiveOf(Hinsi())[serial]
      requires yomiTab.Valid(SaidText(D_YOMI), LiveOf(Hinsi())) && kanjiTab.Valid(SaidText(D_KANJI), LiveOf(Hinsi()))
      requires kanjipter[serial] <= pool.maxkanji
      modifies this, yomiTab, yomiTab.tary, yomiTab.next, kanjiTab, kanjiTab.tary, kanjiTab.next, hinsi, pool
      ensures Shaped() && gosuu == old(gosuu) - 1
      ensures maxserial == if serial == old(maxserial) - 1 then serial else old(maxserial)
      ensures yomiTab.Valid(old(SaidText(D_YOMI)), old(LiveOf(Hinsi()))[serial := false])
      ensures kanjiTab.Valid(old(SaidText(D_KANJI)), old(LiveOf(Hinsi()))[serial := false])
      ensures pool.Bytes() == Trimmed(old(pool.Bytes()), old(Ptr())[serial])
      ensures Ptr() == old(Ptr())[..maxserial]
      ensures Hinsi() == old(Hinsi())[serial := SAKUJO_HINSI][..maxserial]
      ensures yomiTab.maxri1 <= old(yomiTab.maxri1) && kanjiTab.maxri1 <= old(kanjiTab.maxri1)
    {
      hide IndexInv, Readable, Trimmed, LiveOf, SaidTexts, Said, AllReadable;
      ReadInBuffer(pool.kanji[..], Ptr(), LiveOf(Hinsi()), serial);
      DeleteFromTables(serial);
      if serial == maxserial - 1 {
        maxserial, maxri2 := maxserial - 1, maxri2 - 1;
      }
      Forget(serial);
    }

    /** The rest of rd_word_delete1 (lines 258-264). */
    method Forget(serial: nat)
      requires Shaped() && serial < hinsi.Length && 0 <= kanjipter[serial] <= pool.maxkanji && kanjipter[serial] < pool.kanji.Length
      modifies this`gosuu, hinsi, pool
      ensures Shaped() && gosuu == old(gosuu) - 1 && hinsi[..] == old(hinsi[..])[serial := SAKUJO_HINSI]
      ensures pool.Bytes() == Trimmed(old(pool.Bytes()), kanjipter[serial])
    {
      if kanjipter[serial] + pool.kanji[kanjipter[serial]] >= pool.maxkanji {
        pool.maxkanji := kanjipter[serial];
      }
      hinsi[serial] := SAKUJO_HINSI;
      gosuu := gosuu - 1;
    }

    /** The loop over both tables (Wnn/jserver/rd_jishoop.c:215-249). */
    method DeleteFromTables(serial: nat)
      requires Shaped() && AllRead() && serial < maxserial && LiveOf(Hinsi())[serial]
      requires yomiTab.Valid(SaidText(D_YOMI), LiveOf(Hinsi())) && kanjiTab.Valid(SaidText(D_KANJI), LiveOf(Hinsi()))
      modifies yomiTab, yomiTab.tary, yomiTab.next, kanjiTab, kanjiTab.tary, kanjiTab.next
      ensures yomiTab.Valid(old(SaidText(D_YOMI)), old(LiveOf(Hinsi()))[serial := false])
      ensures kanjiTab.Valid(old(SaidText(D_KANJI)), old(LiveOf(Hinsi()))[serial := false])
      ensures yomiTab.maxri1 <= old(yomiTab.maxri1) && kanjiTab.maxri1 <= old(kanjiTab.maxri1)
    {
      hide IndexInv, Readable, LiveOf, SaidTexts, Said, AllReadable;
      ghost var live := LiveOf(Hinsi());
      var text0 := Texts(D_YOMI);
      var text1 := Texts(D_KANJI);
      var ok := yomiTab.Delete(text0[serial], serial, text0, live);
      ok := kanjiTab.Delete(text1[serial], serial, text1, live);
    }

    /** Deleting a word that exists keeps the dictionary in order and the other words as they are. */
    method RdWordDelete1(serial: nat)
      requires Valid() && serial in Words()
      modifies this, yomiTab, yomiTab.tary, yomiTab.next, kanjiTab, kanjiTab.tary, kanjiTab.next, hinsi, pool
      ensures Valid() && Words() == old(Words()) - {serial}
      ensures maxserial == if serial == old(maxserial) - 1 then serial else old(maxserial)
      ensures pool.Bytes() == Trimmed(old(pool.Bytes()), old(Ptr())[serial])
      ensures Ptr() == old(Ptr())[..maxserial]
      ensures Hinsi() == old(Hinsi())[serial := SAKUJO_HINSI][..maxserial]
      ensures yomiTab.maxri1 <= old(yomiTab.maxri1) && kanjiTab.maxri1 <= old(kanjiTab.maxri1)
    {
      hide RecordsOk, WordMap, TextOf, LiveOf, IndexInv, HeaderAt, Fetch, Home, NoDuplicates, WordOf, Trimmed, AllReadable, SaidTexts, RevTable.Valid;
      ghost var b, p, h, m := pool.Bytes(), Ptr(), Hinsi(), Words();
      LiveRecord(b, p, h, serial);
      HeaderRoom(b, p[serial]);
      RecordsAreRead(b, pool.kanji[..], p, LiveOf(h));
      Unlist(serial);
      FewerNoDuplicates(m, serial);
      WordsSettled(b, p, h, serial, maxserial);
      TableSettled(b, p, h, serial, maxserial, D_YOMI, yomiTab);
      TableSettled(b, p, h, serial, maxserial, D_KANJI, kanjiTab);
    }

    /** Enters a word, however long its record, and takes it out again: the deletion reads the record
        before anything is written over it. */
    method EnterAndUnlist(w: Word) returns (serial: nat)
      requires Valid() && Room(w.yomi, w.kanji, w.comment) && Wellformed(w)
      requires forall s :: s in Words() ==> !SameEntry(Words()[s], w)
      modifies Objects()
      ensures Shaped() && serial == maxserial == old(maxserial) && gosuu == old(gosuu)
      ensures pool.Bytes() == old(pool.Bytes()) && Ptr() == old(Ptr()) && Hinsi() == old(Hinsi())
      ensures hindo[..maxserial] == old(hindo[..maxserial])
      ensures yomiTab.Valid(old(Text(D_YOMI)), old(LiveOf(Hinsi())))
      ensures kanjiTab.Valid(old(Text(D_KANJI)), old(LiveOf(Hinsi())))
    {
      hide RecordsOk, WordMap, TextOf, LiveOf, IndexInv, NoDuplicates, SameEntry, RevTable.Valid, Dictionary.Words, Dictionary.Room, Dictionary.Entered;
      ghost var b, p, h := pool.Bytes(), Ptr(), Hinsi();
      ghost var t0, t1 := Text(D_YOMI), Text(D_KANJI);
      ghost var n, freqs := maxserial, hindo[..];
      serial := RdWordAdd1(w);
      UnlistNewest(serial, w, b, p, h, t0, t1);
      assert hindo[..n] == freqs[..n];
    }

    /** Takes out the word that was entered last. */
    method UnlistNewest(serial: nat, w: Word, ghost b: seq<Byte>, ghost p: seq<int>, ghost h: seq<int>, ghost t0: seq<WText>, ghost t1: seq<WText>)
      requires Entered(w, b, p, h, t0, t1) && serial == |p| && w.hinsi != SAKUJO_HINSI && RecordsOk(b, p, LiveOf(h))
      requires t0 == TextOf(b, p, LiveOf(h), D_YOMI) && t1 == TextOf(b, p, LiveOf(h), D_KANJI)
      modifies this, yomiTab, yomiTab.tary, yomiTab.next, kanjiTab, kanjiTab.tary, kanjiTab.next, hinsi, pool
      ensures Shaped() && maxserial == serial && gosuu == old(gosuu) - 1
      ensures pool.Bytes() == b && Ptr() == p && Hinsi() == h
      ensures yomiTab.Valid(t0, LiveOf(h)) && kanjiTab.Valid(t1, LiveOf(h))
    {
      hide RecordsOk, TextOf, LiveOf, IndexInv, RecLen, HeaderAt, Spelled, Packed, AllReadable, SaidTexts, Trimmed, Reverse, RevTable.Valid;
      ghost var full, c := pool.kanji[..], pool.Bytes();
      EnteredIsRead(w, b, p, h, t0, t1);
      Unlist(serial);
      TrimmedBack(b, full, c, RecordOf(w));
      LastUndone(yomiTab, t0, Reverse(w.yomi), LiveOf(h));
      LastUndone(kanjiTab, t1, Reverse(w.kanji), LiveOf(h));
    }

    /** What the deletion reads of a word just entered. */
    lemma EnteredIsRead(w: Word, b: seq<Byte>, p: seq<int>, h: seq<int>, text0: seq<WText>, text1: seq<WText>)
      requires Entered(w, b, p, h, text0, text1) && w.hinsi != SAKUJO_HINSI && RecordsOk(b, p, LiveOf(h))
      requires text0 == TextOf(b, p, LiveOf(h), D_YOMI) && text1 == TextOf(b, p, LiveOf(h), D_KANJI)
      ensures AllRead() && LiveOf(Hinsi()) == LiveOf(h) + [true]
      ensures SaidText(D_YOMI) == text0 + [Reverse(w.yomi)] && SaidText(D_KANJI) == text1 + [Reverse(w.kanji)]
    {
      hide RecordsOk, TextOf, LiveOf, HeaderAt, Packed, AllReadable, SaidTexts, IndexInv, Spelled, RevTable.Valid;
      PackedIsSaid(b, pool.kanji[..], p, LiveOf(h), RecordOf(w));
      RecordSpells(w);
      LiveAdded(h, w.hinsi);
    }

    /** Adding a new word and deleting the serial it got restores everything: words, tables, links,
        chains, pool and counters. */
    method AddThenDelete(w: Word) returns (serial: nat)
      requires Valid() && Room(w.yomi, w.kanji, w.comment) && Wellformed(w)
      requires forall s :: s in Words() ==> !SameEntry(Words()[s], w)
      modifies Objects()
      ensures Valid() && Words() == old(Words())
      ensures maxserial == old(maxserial) && maxri2 == old(maxri2) && gosuu == old(gosuu)
      ensures pool.Bytes() == old(pool.Bytes()) && Ptr() == old(Ptr()) && Hinsi() == old(Hinsi())
      ensures hindo[..maxserial] == old(hindo[..maxserial])
      ensures yomiTab.tary[..yomiTab.maxri1] == old(yomiTab.tary[..yomiTab.maxri1])
      ensures kanjiTab.tary[..kanjiTab.maxri1] == old(kanjiTab.tary[..kanjiTab.maxri1])
      ensures SameChains(yomiTab.tary[..yomiTab.maxri1], yomiTab.next[..maxserial], old(yomiTab.next[..maxserial]))
      ensures SameChains(kanjiTab.tary[..kanjiTab.maxri1], kanjiTab.next[..maxserial], old(kanjiTab.next[..maxserial]))
    {
      hide RecordsOk, WordMap, TextOf, LiveOf, IndexInv, NoDuplicates, SameEntry, SameChains, Dictionary.Room, Wellformed;
      ghost var b, p, h := pool.Bytes(), Ptr(), Hinsi();
      ghost var t0, t1, live := Text(D_YOMI), Text(D_KANJI), LiveOf(h);
      ghost var yt, yn := yomiTab.tary[..yomiTab.maxri1], yomiTab.next[..maxserial];
      ghost var kt, kn := kanjiTab.tary[..kanjiTab.maxri1], kanjiTab.next[..maxserial];
      serial := EnterAndUnlist(w);
      StillInOrder(b, p, h, t0, t1, yomiTab.next[..serial], kanjiTab.next[..serial]);
      SameIndex(yt, yn, yomiTab.tary[..yomiTab.maxri1], yomiTab.next[..maxserial], t0, live);
      SameIndex(kt, kn, kanjiTab.tary[..kanjiTab.maxri1], kanjiTab.next[..maxserial], t1, live);
    }

    /** rd_biki on this dictionary: all words whose key in the table is a prefix of yomi, each
        once, longest keys first. */
    method Lookup(yomi: WText, which: int) returns (found: seq<int>)
      requires Valid() && (which == D_YOMI || which == D_KANJI)
      ensures forall s :: s in found <==>
                s in Words() && Reverse(if which == D_YOMI then Words()[s].yomi else Words()[s].kanji) <= yomi
      ensures LongestKeysFirst(found, Text(which))
    {
      hide RecordsOk, WordMap, LiveOf, IndexInv, HeaderAt, Fetch, AllReadable, SaidTexts, TextOf, NoDuplicates;
      RecordsAreRead(pool.Bytes(), pool.kanji[..], Ptr(), LiveOf(Hinsi()));
      var text := Texts(which);
      found := RdBiki(if which == D_YOMI then yomiTab else kanjiTab, yomi, text, LiveOf(Hinsi()));
      assert forall s :: s in found ==> 0 <= s < |text|;
      KeysAreWords(pool.Bytes(), Ptr(), Hinsi(), which);
    }

    /** inspect_rd: a word by its serial; a serial never given and that of a deleted word are
        refused. */
    method InspectRd(serial: nat) returns (found: bool, yomi: WText)
      requires Valid()
      ensures found <==> serial in Words()
      ensures found ==> yomi == Words()[serial].yomi
    {
      hide RecordsOk, TextOf, IndexInv, HeaderAt, Fetch, Home, NoDuplicates, Reverse;
      if serial >= maxserial || hinsi[serial] == SAKUJO_HINSI {
        return false, [];
      }
      LiveRecord(pool.Bytes(), Ptr(), Hinsi(), serial);
      LegibleIsReadable(pool.Bytes(), pool.kanji[..], kanjipter[serial]);
      var kanji1, yomi1, comment1 := GetKanjiStr(pool.kanji, kanjipter[serial]);
      ReverseReverse(yomi1);
      return true, yomi1;
    }

    /** word_delete: refuses a serial that is no word (Wnn/jserver/jishoop.c:238-263). */
    method WordDelete(serial: int) returns (r: int)
      requires Valid()
      modifies this, yomiTab, yomiTab.tary, yomiTab.next, kanjiTab, kanjiTab.tary, kanjiTab.next, hinsi, pool
      ensures Valid() && r == if serial in old(Words()) then 0 else -1
      ensures Words() == old(Words()) - {serial}
      ensures r == -1 ==> maxserial == old(maxserial) && pool.Bytes() == old(pool.Bytes()) && Hinsi() == old(Hinsi())
    {
      hide RecordsOk, WordMap, TextOf, LiveOf, IndexInv, HeaderAt, NoDuplicates, Trimmed;
      if serial >= maxserial || serial < 0 || hinsi[serial] == SAKUJO_HINSI {
        assert Words() - {serial} == Words();
        return -1;
      }
      RdWordDelete1(serial);
      return 0;
    }

    /** Can a record be read where this serial points? Where a spent serial points, 0xffffffff
        bytes behind the pool, there is none. */
    predicate Legible(serial: nat)
      requires Shaped() && serial < maxserial
      reads this, kanjipter, pool, pool.kanji
    {
      var p := kanjipter[serial];
      0 <= p && p + 6 <= pool.kanji.Length && Readable(pool.kanji[..], p)
    }

    /** Room for a new record, which word_comment_set1 secures (lines 645-651). */
    ghost predicate CommentRoom(serial: nat, comment: WText)
      requires Shaped() && serial < maxserial && Legible(serial)
      reads this, kanjipter, pool, pool.kanji
    {
      var r := Said(pool.kanji[..], kanjipter[serial]);
      maxserial < hinsi.Length && pool.maxkanji + (|r.kanji| + |comment| + |r.yomi| + 4) * 2 < pool.kanji.Length
    }

    /** Does a comment for the record at this serial write over no byte of a word? */
    ghost predicate Spared(serial: nat, comment: WText)
      requires Shaped() && Recorded() && serial < maxserial && Legible(serial)
      reads this, kanjipter, hinsi, pool, pool.kanji
    {
      forall s, i :: s in Words() && 0 <= i < pool.maxkanji && Within(pool.Bytes(), kanjipter[s], i) ==>
                       !Written(pool.kanji[..], kanjipter[serial], comment, i)
    }

    /** A comment spares the words when the record stands behind the end of the pool, or shares no
        byte with them. */
    lemma DeadIsSpared(serial: nat, comment: WText)
      requires Shaped() && Recorded() && serial < maxserial && Legible(serial)
      requires kanjipter[serial] >= pool.maxkanji ||
               (HeaderAt(pool.Bytes(), kanjipter[serial]) && pool.kanji[kanjipter[serial]] >= 6 &&
                forall s :: s in Words() ==> Apart(pool.Bytes(), kanjipter[serial], kanjipter[s]))
      ensures Spared(serial, comment)
    {
      hide HeaderAt, RecordsOk, WordMap, LiveOf, Written, Readable, Within, Fetch, Home, Said;
      AllClear(pool.Bytes(), pool.kanji[..], kanjipter[serial], Ptr(), Hinsi(), comment);
    }

    /** word_comment_set (Wnn/jserver/jishoop.c:190-197, 634-681). It does not look whether serial
        is still a word: what changes is the comment of the word whose record serial points to, if
        there is one. Where there is no record to read (`outside`) the source leaves its arrays. */
    method WordCommentSet(serial: int, comment: WText) returns (r: int, outside: bool)
      requires Valid() && 0 !in comment
      requires 0 <= serial < maxserial && Legible(serial) ==> CommentRoom(serial, comment)
      modifies this, yomiTab.next, kanjiTab.next, kanjipter, hinsi, pool, pool.kanji
      ensures Shaped()
      ensures outside <==> 0 <= serial < old(maxserial) && !old(Legible(serial))
      ensures serial in old(Words()) ==> !outside
      ensures r == if 0 <= serial < old(maxserial) && !outside then 0 else -1
      ensures r == -1 && !outside ==> Valid() && Words() == old(Words())
      ensures forall t :: r == 0 && t in old(Words()) && old(Ptr())[t] == old(Ptr())[serial] ==>
                && (Valid() <==> CommentFits(old(Words())[t], comment))
                && (Valid() ==> Words() == old(Words())[t := old(Words())[t].(comment := comment)])
                && maxserial == old(maxserial) + (if |old(Words())[t].comment| > |comment| then 0 else 1)
      ensures maxserial > old(maxserial) ==> !Legible(old(maxserial))
      ensures r == 0 ==>
                && 0 <= serial < kanjipter.Length
                && CommentWritten(old(pool.kanji[..]), old(pool.maxkanji), pool.kanji[..], pool.maxkanji, old(kanjipter[serial]), comment, true)
      ensures r == 0 && old(Spared(serial, comment)) ==> Valid() && Words() == old(Words())
      ensures r == 0 ==> ((Valid() && OnlyComment(old(Words()), Words(), serial, comment)) <==>
                          (serial in old(Words()) && CommentFits(old(Words())[serial], comment)))
    {
      hide RecordsOk, WordMap, TextOf, LiveOf, IndexInv, HeaderAt, Fetch, Home, NoDuplicates, Readable, CommentFits, Said, Written, Within, OnlyComment;
      if serial >= maxserial || serial < 0 {
        return -1, false;
      }
      ghost var b, p, h, m := pool.Bytes(), Ptr(), Hinsi(), Words();
      if serial in m {
        WordIsLegible(serial);
      }
      if !Legible(serial) {
        return -1, true;
      }
      ghost var t := if exists u :: u in m && p[u] == p[serial] then (var u :| u in m && p[u] == p[serial]; u) else -1;
      var forwarded := CommentOnRecord(serial, comment, t);
      forall u | u in m && p[u] == p[serial] ensures u == t {
        OneWordPerRecord(b, p, h, u, t);
      }
      assert serial in m ==> t == serial;
      assert LiveOf(h)[serial] <==> serial in m;
      if Valid() {
        SameSerials(pool.Bytes(), Ptr(), Hinsi(), h, serial);
        OnlyThatWord(m, Words(), serial, comment);
      }
      return 0, false;
    }

    /** A run of calls after which a deleted word's serial points to the record of another word: the
        word gets another comment, so that its record moves to the end of the pool; it is deleted,
        which gives that end up; a new word is added there. A comment set for the deleted word then
        becomes the comment of the new one. */
    method LateComment(serial: nat, w1: Word, w2: Word, comment: WText) returns (t: nat)
      requires Valid() && serial in Words() && serial < maxserial - 1 && maxserial + 2 <= kanjipter.Length
      requires Storable(w1) && SameEntry(Words()[serial], w1) && Words()[serial] != w1
      requires Storable(w2) && Storable(w2.(comment := comment)) && forall s :: s in Words() ==> !SameEntry(Words()[s], w2)
      requires pool.maxkanji + 1000 < pool.kanji.Length
      requires yomiTab.maxri1 + 1 < yomiTab.tary.Length && kanjiTab.maxri1 + 1 < kanjiTab.tary.Length
      modifies Objects()
      ensures Valid() && serial !in Words() && t == old(maxserial)
      ensures Words() == (old(Words()) - {serial})[t := w2.(comment := comment)]
    {
      hide RecordsOk, WordMap, TextOf, LiveOf, IndexInv, NoDuplicates, SameEntry, RevTable.Valid, Storable, Dictionary.Recorded;
      StorableSmall(w1);
      StorableSmall(w2);
      StorableSmall(w2.(comment := comment));
      ghost var m := Words();
      GiveUpTheEnd(serial, w1);
      NotSameEntry(m, serial, w2);
      t := AddShort(w2);
      UpdatedTwice(m - {serial}, t, w2, w2.(comment := comment));
      CommentElsewhere(serial, t, comment);
    }

    /** A comment for a serial that points to the record of word t. */
    method CommentElsewhere(serial: nat, t: nat, comment: WText)
      requires Valid() && t in Words() && serial < maxserial < kanjipter.Length && Ptr()[serial] == Ptr()[t]
      requires 0 !in comment && CommentFits(Words()[t], comment)
      requires pool.maxkanji + (|Words()[t].kanji| + |comment| + |Words()[t].yomi| + 4) * 2 < pool.kanji.Length
      modifies this, yomiTab.next, kanjiTab.next, kanjipter, hinsi, pool, pool.kanji
      ensures Valid() && Words() == old(Words())[t := old(Words())[t].(comment := comment)]
    {
      hide RecordsOk, WordMap, TextOf, LiveOf, IndexInv, HeaderAt, Fetch, NoDuplicates, Readable, Said, Spared, RevTable.Valid, OnlyComment, CommentFits;
      WordIsLegible(t);
      LiveRecord(pool.Bytes(), Ptr(), Hinsi(), t);
      var r, outside := WordCommentSet(serial, comment);
    }

    /** A short new word. */
    method AddShort(w: Word) returns (serial: nat)
      requires Valid() && Room(w.yomi, w.kanji, w.comment) && Storable(w)
      requires forall s :: s in Words() ==> !SameEntry(Words()[s], w)
      modifies Objects()
      ensures Valid() && serial == old(maxserial) && maxserial == serial + 1 && Words() == old(Words())[serial := w]
      ensures pool.maxkanji <= old(pool.maxkanji) + 255 && Ptr() == old(Ptr()) + [old(pool.maxkanji)]
      ensures yomiTab.maxri1 <= old(yomiTab.maxri1) + 1 && kanjiTab.maxri1 <= old(kanjiTab.maxri1) + 1
    {
      hide RecordsOk, WordMap, TextOf, LiveOf, IndexInv, RecLen, HeaderAt, Fetch, NoDuplicates, Packed, RevTable.Valid, Spelled, SameEntry, FitsRecord;
      FitsExactly(w);
      serial := RdWordAdd1(w);
    }

    /** Moves a word's record to the end of the pool and deletes the word: its serial points to
        where the next record will be. */
    method GiveUpTheEnd(serial: nat, w1: Word)
      requires Valid() && Room(w1.yomi, w1.kanji, w1.comment) && serial in Words() && serial < maxserial - 1
      requires Storable(w1) && SameEntry(Words()[serial], w1) && Words()[serial] != w1
      modifies Objects()
      ensures Valid() && Words() == old(Words()) - {serial} && maxserial == old(maxserial)
      ensures pool.Bytes() == old(pool.Bytes()) && kanjipter[serial] == pool.maxkanji
      ensures yomiTab.maxri1 <= old(yomiTab.maxri1) + 1 && kanjiTab.maxri1 <= old(kanjiTab.maxri1) + 1
    {
      hide RecordsOk, WordMap, TextOf, LiveOf, IndexInv, RecLen, HeaderAt, Fetch, NoDuplicates, SameEntry, Trimmed, Packed, RevTable.Valid, Dictionary.Entered;
      ghost var b, m := pool.Bytes(), Words();
      FitsExactly(w1);
      var s := RdWordAdd1(w1);
      SameSerial(m, s, serial, w1);
      TrimmedBack(b, pool.kanji[..], pool.Bytes(), RecordOf(w1));
      RdWordDelete1(serial);
      ChangedThenGone(m, serial, w1);
    }

    lemma WordIsLegible(serial: nat)
      requires Valid() && serial in Words()
      ensures serial < maxserial && Legible(serial)
      ensures Said(pool.kanji[..], kanjipter[serial]) == Fetch(pool.Bytes(), kanjipter[serial])
    {
      hide RecordsOk, WordMap, TextOf, LiveOf, IndexInv, HeaderAt, Fetch, Home, NoDuplicates, Readable, Said;
      LiveRecord(pool.Bytes(), Ptr(), Hinsi(), serial);
      HeaderRoom(pool.Bytes(), kanjipter[serial]);
      HeaderBytes(pool.Bytes(), kanjipter[serial]);
      LegibleIsReadable(pool.Bytes(), pool.kanji[..], kanjipter[serial]);
    }

    /** The comment of the record that serial points to; t is the word that has this record, or no
        word at all. */
    method CommentOnRecord(serial: nat, comment: WText, ghost t: int) returns (forwarded: bool)
      requires Valid() && 0 !in comment && serial < maxserial && Legible(serial) && CommentRoom(serial, comment)
      requires t in Words() ==> Ptr()[t] == Ptr()[serial]
      modifies this, yomiTab.next, kanjiTab.next, kanjipter, hinsi, pool, pool.kanji
      ensures Shaped() && old(maxserial) <= maxserial && Hinsi()[..old(maxserial)] == old(Hinsi())
      ensures CommentWritten(old(pool.kanji[..]), old(pool.maxkanji), pool.kanji[..], pool.maxkanji, old(kanjipter[serial]), comment, true)
      ensures t in old(Words()) ==>
                && (Valid() <==> CommentFits(old(Words())[t], comment))
                && (Valid() ==> Words() == old(Words())[t := old(Words())[t].(comment := comment)])
                && (forwarded <==> |old(Words())[t].comment| <= |comment|)
      ensures maxserial == old(maxserial) + (if forwarded then 1 else 0) && (forwarded ==> Ptr()[old(maxserial)] == -1)
      ensures old(Spared(serial, comment)) ==> t !in old(Words()) && Valid() && Words() == old(Words())
    {
      hide RecordsOk, WordMap, TextOf, LiveOf, IndexInv, HeaderAt, PlainAt, Fetch, Home, NoDuplicates, Recommented, Reverse, RecLen, Readable, Said, Written, Within, Target;
      ghost var b, p, h, m := pool.Bytes(), Ptr(), Hinsi(), Words();
      ghost var yn, kn := yomiTab.next[..maxserial], kanjiTab.next[..maxserial];
      ghost var spared := Spared(serial, comment);
      if t in m {
        WordIsLegible(t);
        LiveRecord(b, p, h, t);
        HeaderRoom(b, p[t]);
        ReverseSame(Fetch(b, p[t]));
        OwnRecordWritten(b, pool.kanji[..], p[t], comment);
        FitsExactly(m[t].(comment := comment));
        assert pool.Forwardable(kanjipter[serial], comment) <==> FitsRecord(m[t].(comment := comment));
      }
      forwarded := pool.CommentSet(kanjipter[serial], comment);
      if forwarded {
        SpendSerial();
      }
      ghost var c := pool.Bytes();
      if t in m {
        RecommentedFits(b, c, p[t], Fetch(b, p[t]).(comment := comment), CommentFits(m[t], comment));
        if HeaderAt(c, p[t]) {
          RecommentedValues(b, c, Fetch(b, p[t]).(comment := comment), p, h, t);
          StillNoDuplicatesAt(m, t, m[t].(comment := comment));
          StillInOrder(c, p, h, TextOf(b, p, LiveOf(h), D_YOMI), TextOf(b, p, LiveOf(h), D_KANJI), yn, kn);
        } else {
          IllegibleWord(c, Ptr(), Hinsi(), t);
        }
      } else if spared {
        SparedValues(b, c, p, h);
        StillInOrder(c, p, h, TextOf(b, p, LiveOf(h), D_YOMI), TextOf(b, p, LiveOf(h), D_KANJI), yn, kn);
      }
    }

    /** The dictionary is in order when its words are, whether a serial was spent or not. */
    lemma StillInOrder(c: seq<Byte>, p: seq<int>, h: seq<int>, text0: seq<WText>, text1: seq<WText>, yn: seq<int>, kn: seq<int>)
      requires Shaped() && pool.Bytes() == c && RecordsOk(c, p, LiveOf(h)) && |yn| == |kn| == |p| == |h|
      requires text0 == TextOf(c, p, LiveOf(h), D_YOMI) && text1 == TextOf(c, p, LiveOf(h), D_KANJI)
      requires yomiTab.maxri1 <= yomiTab.tary.Length && IndexInv(yomiTab.tary[..yomiTab.maxri1], yn, text0, LiveOf(h))
      requires kanjiTab.maxri1 <= kanjiTab.tary.Length && IndexInv(kanjiTab.tary[..kanjiTab.maxri1], kn, text1, LiveOf(h))
      requires NoDuplicates(WordMap(c, p, h)) && gosuu == |WordMap(c, p, h)|
      requires if maxserial == |p| then Ptr() == p && Hinsi() == h && yomiTab.next[..maxserial] == yn && kanjiTab.next[..maxserial] == kn
               else maxserial == |p| + 1 && Ptr() == p + [-1] && Hinsi() == h + [SAKUJO_HINSI]
                    && yomiTab.next[..maxserial] == yn + [RD_ENDPTR] && kanjiTab.next[..maxserial] == kn + [RD_ENDPTR]
      ensures Valid() && Words() == WordMap(c, p, h)
    {
      hide RecordsOk, WordMap, TextOf, LiveOf, IndexInv, NoDuplicates;
      if maxserial > |p| {
        SerialSpent(c, p, h);
        IndexAddDead(yomiTab.tary[..yomiTab.maxri1], yn, text0, LiveOf(h), []);
        IndexAddDead(kanjiTab.tary[..kanjiTab.maxri1], kn, text1, LiveOf(h), []);
      }
    }

    /** Uses up a serial, so that the changed word is not joined with its neighbours (lines 666-679). */
    method SpendSerial()
      requires Shaped() && maxserial < hinsi.Length
      modifies this`maxserial, this`maxri2, kanjipter, hinsi, yomiTab.next, kanjiTab.next
      ensures Shaped() && maxserial == old(maxserial) + 1
      ensures Ptr() == old(Ptr()) + [-1] && Hinsi() == old(Hinsi()) + [SAKUJO_HINSI]
      ensures yomiTab.next[..maxserial] == old(yomiTab.next[..maxserial]) + [RD_ENDPTR]
      ensures kanjiTab.next[..maxserial] == old(kanjiTab.next[..maxserial]) + [RD_ENDPTR]
    {
      hinsi[maxserial] := SAKUJO_HINSI;
      kanjipter[maxserial] := -1;
      yomiTab.next[maxserial], kanjiTab.next[maxserial] := RD_ENDPTR, RD_ENDPTR;
      maxserial, maxri2 := maxserial + 1, maxri2 + 1;
    }
  }

  /** A new dictionary with one word. */
  method OneWord(w: Word) returns (d: Dictionary)
    requires Storable(w)
    ensures fresh(d) && fresh(d.Objects()) && d.Valid() && d.Words() == map[0 := w] && d.maxserial == 1
    ensures d.yomiTab.maxri1 <= 1 && d.kanjiTab.maxri1 <= 1 && d.yomiTab.tary.Length == d.kanjiTab.tary.Length == 8
    ensures d.kanjipter.Length == 8 && d.pool.maxkanji <= 255 && d.pool.kanji.Length == 4000
  {
    hide RecordsOk, WordMap, TextOf, LiveOf, IndexInv, RevTable.Valid, NoDuplicates, SameEntry, Storable;
    StorableSmall(w);
    FirstWord(w);
    d := new Dictionary(8, 8, 4000);
    var s := d.AddShort(w);
  }

  /** A new dictionary with two words. */
  method TwoWords(w0: Word, w1: Word) returns (d: Dictionary)
    requires Storable(w0) && Storable(w1) && !SameEntry(w0, w1)
    ensures fresh(d) && fresh(d.Objects()) && d.Valid() && d.Words() == map[0 := w0][1 := w1] && d.maxserial == 2
    ensures d.yomiTab.maxri1 <= 2 && d.kanjiTab.maxri1 <= 2 && d.yomiTab.tary.Length == d.kanjiTab.tary.Length == 8
    ensures d.kanjipter.Length == 8 && d.pool.maxkanji <= 510 && d.pool.kanji.Length == 4000
  {
    hide RecordsOk, WordMap, TextOf, LiveOf, IndexInv, RevTable.Valid, NoDuplicates, SameEntry, Storable;
    StorableSmall(w1);
    d := OneWord(w0);
    var s := d.AddShort(w1);
  }

  /** From an empty dictionary on: words 0 and 1 are added, word 0 gets a comment and is deleted, word
      2 is added, and a comment set for word 0 lands on word 2. */
  method CommentOnWrongWord(w0: Word, w1: Word, w2: Word, comment0: WText, comment: WText) returns (d: Dictionary)
    requires Storable(w0) && Storable(w1) && Storable(w2)
    requires !SameEntry(w0, w1) && !SameEntry(w0, w2) && !SameEntry(w1, w2)
    requires comment0 != w0.comment && Storable(w0.(comment := comment0)) && Storable(w2.(comment := comment))
    ensures d.Valid() && d.Words() == map[1 := w1][2 := w2.(comment := comment)]
  {
    hide RecordsOk, WordMap, TextOf, LiveOf, IndexInv, RevTable.Valid, NoDuplicates, Storable, SameEntry;
    OfTwoWords(w0, w1, w2, comment0);
    d := TwoWords(w0, w1);
    var t := d.LateComment(0, w0.(comment := comment0), w2, comment);
  }

  lemma StorableSmall(w: Word)
    requires Storable(w)
    ensures |w.yomi| + |w.kanji| + |w.comment| <= 124 && 0 !in w.comment && FitsRecord(w)
  {
  }

  lemma FirstWord(w: Word)
    ensures map[][0 := w] == map[0 := w]
  {
  }

  lemma OfTwoWords(w0: Word, w1: Word, w2: Word, comment: WText)
    requires !SameEntry(w0, w2) && !SameEntry(w1, w2)
    ensures var m := map[0 := w0][1 := w1];
            && 0 in m && m[0] == w0 && m - {0} == map[1 := w1] && SameEntry(w0, w0.(comment := comment))
            && forall s :: s in m ==> !SameEntry(m[s], w2)
  {
  }

  ghost predicate Wellformed(w: Word) {
    w.yomi != [] && 0 !in w.yomi && 0 !in w.kanji && 0 !in w.comment && w.hinsi != SAKUJO_HINSI
  }

  ghost predicate Storable(w: Word) {
    Wellformed(w) && FitsRecord(w)
  }

  const LENGTHYOMI := 256
  const LENGTHKANJI := 256

  /** How long a word may be for its record's length to fit one byte. */
  predicate FitsRecord(w: Word) {
    |w.yomi| + |w.kanji| + |w.comment| <= if w.comment == [] then 124 else 123
  }

  /** Does the word's record stay legible when it gets this comment? */
  ghost predicate CommentFits(w: Word, comment: WText) {
    |w.comment| > |comment| || FitsRecord(w.(comment := comment))
  }

  /** The change of one word's comment, and no other change. */
  ghost predicate OnlyComment(m: map<int, Word>, m1: map<int, Word>, s: int, comment: WText) {
    s in m1 && m1[s].comment == comment && m1.Keys == m.Keys && forall t :: t in m && t != s ==> m1[t] == m[t]
  }

  lemma FitsExactly(w: Word)
    requires w.yomi != []
    ensures RecLen(Spelled(w.kanji, w.yomi, w.comment)) <= 255 <==> FitsRecord(w)
  {
    ReverseReverse(w.yomi);
    ReverseReverse(w.kanji);
    ReverseIsEmpty(w.yomi);
  }

  lemma EmptyMap()
    ensures NoDuplicates(map[])
  {
  }

  lemma DifferentHinsi(v: Word, w: Word)
    ensures v.hinsi != w.hinsi ==> !SameEntry(v, w)
  {
  }

  lemma IsIndexed(tab: seq<Entry>, next: seq<int>, text: seq<WText>, live: seq<bool>)
    requires IndexInv(tab, next, text, live)
    ensures Indexed(tab, text) && InBounds(tab, |text|)
  {
  }

  lemma NotUnderKey(tab: seq<Entry>, next: seq<int>, text: seq<WText>, live: seq<bool>, k: WText)
    requires IndexInv(tab, next, text, live) && k !in Keys(tab, text)
    ensures |live| == |text| && forall s :: 0 <= s < |text| && live[s] ==> text[s] != k
  {
    hide Indexed, Chain;
  }

  /** The chain of a key holds the words that stand under it. */
  lemma ChainOfKey(tab: seq<Entry>, next: seq<int>, text: seq<WText>, live: seq<bool>, key: nat)
    requires IndexInv(tab, next, text, live) && key < |tab|
    ensures |live| == |text| == |next| && Descending(next) && 0 <= tab[key].pter < |text|
    ensures forall s :: s in Chain(next, tab[key].pter) <==> 0 <= s < |text| && live[s] && text[s] == Keys(tab, text)[key]
  {
    hide Chain, Linked, Sorted;
    assert Heads(tab)[key] == tab[key].pter && HoldsWordsOf(next, tab[key].pter, text, live, Keys(tab, text)[key]);
    forall s | s in Chain(next, tab[key].pter) ensures 0 <= s < |text| { }
  }

  /** Words with the same entry stand under the same reading. */
  lemma ReadingIsKey(b: seq<Byte>, ptr: seq<int>, hin: seq<int>, w: Word)
    requires RecordsOk(b, ptr, LiveOf(hin)) && |ptr| == |hin|
    ensures forall s :: s in WordMap(b, ptr, hin) && SameEntry(WordMap(b, ptr, hin)[s], w) ==>
              LiveOf(hin)[s] && TextOf(b, ptr, LiveOf(hin), D_YOMI)[s] == Reverse(w.yomi)
  {
    hide HeaderAt, Fetch, Home, RecordsOk;
    forall s | s in WordMap(b, ptr, hin) && SameEntry(WordMap(b, ptr, hin)[s], w)
      ensures TextOf(b, ptr, LiveOf(hin), D_YOMI)[s] == Reverse(w.yomi)
    {
      ReverseReverse(TextOf(b, ptr, LiveOf(hin), D_YOMI)[s]);
    }
  }

  ghost predicate SameChains(tab: seq<Entry>, next: seq<int>, next1: seq<int>) {
    && Descending(next) && Descending(next1) && |next| == |next1| && InBounds(tab, |next|)
    && forall i :: 0 <= i < |tab| ==> Chain(next, tab[i].pter) == Chain(next1, tab[i].pter)
  }

  lemma SameIndex(tab: seq<Entry>, next: seq<int>, tab1: seq<Entry>, next1: seq<int>, text: seq<WText>, live: seq<bool>)
    requires IndexInv(tab, next, text, live) && IndexInv(tab1, next1, text, live)
    ensures tab1 == tab && SameChains(tab1, next1, next)
  {
    hide Chain, HoldsWordsOf, Linked, Sorted;
    IndexCanonical(tab, next, tab1, next1, text, live);
  }

  lemma ReverseIsEmpty(s: WText)
    ensures Reverse(s) == [] <==> s == []
  {
  }

  lemma SpelledYomi(kanji: WText, yomi: WText, comment: WText)
    ensures Spelled(kanji, yomi, comment).yomi == Reverse(yomi)
  {
  }

  /** The record of a word spells its keys and says the word back. */
  lemma RecordSpells(w: Word)
    ensures var r := Spelled(w.kanji, w.yomi, w.comment);
            && KeyText(r, D_YOMI) == Reverse(w.yomi) && KeyText(r, D_KANJI) == Reverse(w.kanji)
            && WordOf(r, w.hinsi) == w
  {
    ReverseReverse(w.yomi);
    ReverseReverse(w.kanji);
  }

  lemma SameEntrySymmetric(v: Word, w: Word)
    ensures SameEntry(v, w) <==> SameEntry(w, v)
  {
  }

  /** The keys are the readings and the kanji turned round. */
  lemma KeysAreWords(b: seq<Byte>, ptr: seq<int>, hin: seq<int>, which: int)
    requires RecordsOk(b, ptr, LiveOf(hin)) && |ptr| == |hin| && (which == D_YOMI || which == D_KANJI)
    ensures forall s :: s in WordMap(b, ptr, hin) ==>
              var w := WordMap(b, ptr, hin)[s];
              TextOf(b, ptr, LiveOf(hin), which)[s] == Reverse(if which == D_YOMI then w.yomi else w.kanji)
  {
    hide HeaderAt, Fetch, RecordsOk;
    forall s | s in WordMap(b, ptr, hin)
      ensures var w := WordMap(b, ptr, hin)[s];
              TextOf(b, ptr, LiveOf(hin), which)[s] == Reverse(if which == D_YOMI then w.yomi else w.kanji)
    {
      LiveRecord(b, ptr, hin, s);
      ReverseReverse(Fetch(b, ptr[s]).yomi);
      ReverseReverse(Fetch(b, ptr[s]).kanji);
    }
  }

  lemma LiveRecord(b: seq<Byte>, ptr: seq<int>, hin: seq<int>, s: int)
    requires RecordsOk(b, ptr, LiveOf(hin)) && |ptr| == |hin| && s in WordMap(b, ptr, hin)
    ensures 0 <= s < |ptr| && LiveOf(hin)[s] && ptr[s] >= 0 && HeaderAt(b, ptr[s])
    ensures WordMap(b, ptr, hin)[s] == WordOf(Fetch(b, ptr[s]), hin[s])
    ensures 0 !in Fetch(b, ptr[s]).yomi && 0 !in Fetch(b, ptr[s]).kanji && Fetch(b, ptr[s]).yomi != []
  {
    FetchIsPlain(b, ptr[s]);
  }

  /** A word's record always has room for a forwarding address. */
  lemma HeaderRoom(b: seq<Byte>, p: nat)
    requires HeaderAt(b, p) && Fetch(b, p).yomi != []
    ensures p < |b| && b[p] >= 6
  {
    HomeIsPlain(b, p);
    if Home(b, p) == p {
      TextAtExtent(Counted(b, p), 0);
      TextAtExtent(Counted(b, p), YomiEnd(b[p + 1], Counted(b, p)));
    }
  }

  lemma ReverseSame(r: Rec)
    ensures Reverse(Reverse(r.yomi)) == r.yomi && Reverse(Reverse(r.kanji)) == r.kanji
    ensures |Reverse(r.yomi)| == |r.yomi| && |Reverse(r.kanji)| == |r.kanji|
  {
    ReverseReverse(r.yomi);
    ReverseReverse(r.kanji);
  }

  lemma ReadInBuffer(full: seq<Byte>, ptr: seq<int>, live: seq<bool>, s: nat)
    requires AllReadable(full, ptr, live) && s < |live| && live[s]
    ensures 0 <= ptr[s] < |full|
  {
  }

  lemma LiveAdded(h: seq<int>, x: int)
    requires x != SAKUJO_HINSI
    ensures LiveOf(h + [x]) == LiveOf(h) + [true]
  {
  }

  lemma Spent(h: seq<int>, s: nat)
    requires s < |h|
    ensures LiveOf(h[s := SAKUJO_HINSI]) == LiveOf(h)[s := false]
  {
  }

  /** Cutting the pool at its last record gives the pool before it. */
  lemma TrimmedBack(b: seq<Byte>, full: seq<Byte>, c: seq<Byte>, r: Rec)
    requires b <= full && Packed(full, |b|, r) && c <= full && |c| == |b| + RecLen(r) % 256
    ensures Trimmed(c, |b|) == b
  {
    assert c[..|b|] == b;
  }

  /** A word entered last and taken out again. */
  lemma LastUndone(tab: RevTable, text: seq<WText>, k: WText, live: seq<bool>)
    requires |text| == |live| && tab.Valid(text + [k], (live + [true])[|text| := false])
    ensures tab.Valid(text, live)
  {
    hide IndexInv;
    var tary, next := tab.tary[..tab.maxri1], tab.next[..|text + [k]|];
    IndexDropLast(tary, next, text + [k], (live + [true])[|text| := false]);
    assert (text + [k])[..|text|] == text && (live + [true])[|text| := false][..|text|] == live;
    assert next[..|text|] == tab.next[..|text|];
  }

  lemma SameSerial(m: map<int, Word>, s: int, t: int, w: Word)
    requires NoDuplicates(m) && t in m && SameEntry(m[t], w)
    requires s in m ==> SameEntry(m[s], w)
    requires s !in m ==> forall u :: u in m ==> !SameEntry(m[u], w)
    ensures s == t
  {
    hide SameEntry;
    SameEntrySymmetric(m[t], w);
    if s in m {
      assert SameEntry(m[s], m[t]) by { SameEntryTransitive(m[s], w, m[t]); }
    }
  }

  lemma SameEntryTransitive(u: Word, v: Word, w: Word)
    requires SameEntry(u, v) && SameEntry(v, w)
    ensures SameEntry(u, w)
  {
  }

  lemma UpdatedTwice(m: map<int, Word>, t: int, v: Word, w: Word)
    ensures m[t := v][t := w] == m[t := w]
  {
  }

  lemma ChangedThenGone(m: map<int, Word>, s: int, w: Word)
    ensures m[s := w] - {s} == m - {s}
  {
  }

  lemma NotSameEntry(m: map<int, Word>, s: int, w: Word)
    requires forall t :: t in m ==> !SameEntry(m[t], w)
    ensures forall t :: t in m - {s} ==> !SameEntry((m - {s})[t], w)
  {
  }

  lemma OneWordPerRecord(b: seq<Byte>, p: seq<int>, h: seq<int>, s: int, t: int)
    requires RecordsOk(b, p, LiveOf(h)) && |p| == |h| && s in WordMap(b, p, h) && t in WordMap(b, p, h) && p[s] == p[t]
    ensures s == t
  {
    hide HeaderAt, Fetch, Home, Apart;
    NotApartFromItself(b, p[s]);
  }

  lemma NotApartFromItself(b: seq<Byte>, p: nat)
    requires HeaderAt(b, p)
    ensures !Apart(b, p, p)
  {
    HeaderBytes(b, p);
    assert Within(b, p, p);
  }

  lemma AllClear(b: seq<Byte>, full: seq<Byte>, p: nat, ptr: seq<int>, hin: seq<int>, comment: WText)
    requires RecordsOk(b, ptr, LiveOf(hin)) && |ptr| == |hin| && b <= full && Readable(full, p)
    requires p >= |b| || (HeaderAt(b, p) && b[p] >= 6 && forall s :: s in WordMap(b, ptr, hin) ==> Apart(b, p, ptr[s]))
    ensures forall s, i :: s in WordMap(b, ptr, hin) && 0 <= i < |b| && Within(b, ptr[s], i) ==> !Written(full, p, comment, i)
  {
    hide HeaderAt, Written, Readable, Within, Fetch, Home, Said, Apart;
    forall s | 0 <= s < |ptr| && LiveOf(hin)[s]
      ensures forall i :: 0 <= i < |b| && Within(b, ptr[s], i) ==> !Written(full, p, comment, i)
    {
      if p < |b| {
        assert s in WordMap(b, ptr, hin);
      }
      ClearOfWord(b, full, p, ptr[s], comment);
    }
  }

  /** A comment is written over bytes of the record it belongs to. */
  lemma OwnRecordWritten(b: seq<Byte>, full: seq<Byte>, p: nat, comment: WText)
    requires b <= full && HeaderAt(b, p) && b[p] >= 6
    ensures Readable(full, p) && exists i :: 0 <= i < |b| && Within(b, p, i) && Written(full, p, comment, i)
  {
    hide HeaderAt, Readable, Said, Fetch, Home, KanjiEnd, YomiEnd, WellFormed;
    HeaderBytes(b, p);
    LegibleIsReadable(b, full, p);
    var i := if |Said(full, p).comment| > |comment| then CommentAt(full, p) else p + 1;
    WrittenWithin(b, full, p, comment, i);
    WithinPool(b, p);
    assert Written(full, p, comment, i);
  }

  lemma ClearOfWord(b: seq<Byte>, full: seq<Byte>, p: nat, q: nat, comment: WText)
    requires b <= full && Readable(full, p) && HeaderAt(b, q)
    requires p >= |b| || (HeaderAt(b, p) && b[p] >= 6 && Apart(b, p, q))
    ensures forall i :: 0 <= i < |b| && Within(b, q, i) ==> !Written(full, p, comment, i)
  {
    hide HeaderAt, Written, Readable, Within, Fetch, Home, Said;
    forall i | 0 <= i < |b| && Within(b, q, i) ensures !Written(full, p, comment, i) {
      if p >= |b| {
        WrittenBehind(full, p, comment, i);
      } else {
        WrittenWithin(b, full, p, comment, i);
      }
    }
  }

  lemma OnlyThatWord(m: map<int, Word>, m1: map<int, Word>, s: int, comment: WText)
    requires s in m ==> m1 == m[s := m[s].(comment := comment)]
    requires s in m1 <==> s in m
    ensures OnlyComment(m, m1, s, comment) <==> s in m
  {
  }

  /** Only serials with a part of speech are words. */
  lemma SameSerials(c: seq<Byte>, p: seq<int>, h1: seq<int>, h: seq<int>, s: nat)
    requires RecordsOk(c, p, LiveOf(h1)) && s < |h| <= |h1| == |p| && h1[..|h|] == h
    ensures s in WordMap(c, p, h1) <==> LiveOf(h)[s]
  {
    hide RecordsOk, HeaderAt;
    assert h1[..|h|][s] == h1[s];
  }

  lemma RecommentedValues(b: seq<Byte>, c: seq<Byte>, r: Rec, ptr: seq<int>, hin: seq<int>, s: nat)
    requires RecordsOk(b, ptr, LiveOf(hin)) && s < |ptr| && LiveOf(hin)[s] && |b| <= |c|
    requires r.yomi == Fetch(b, ptr[s]).yomi && r.kanji == Fetch(b, ptr[s]).kanji
    requires Recommented(b, c, ptr[s], r, true, true)
    ensures RecordsOk(c, ptr, LiveOf(hin))
    ensures forall w :: TextOf(c, ptr, LiveOf(hin), w) == TextOf(b, ptr, LiveOf(hin), w)
    ensures WordMap(c, ptr, hin) == WordMap(b, ptr, hin)[s := WordOf(r, hin[s])]
  {
    hide HeaderAt, Fetch, Home, OthersKept, Rewritten, RecordsOk, WordMap, TextOf, LiveOf;
    LiveHeader(b, ptr, LiveOf(hin), s);
    RewrittenValues(b, c, r, ptr, hin, s);
  }

  lemma RecommentedFits(b: seq<Byte>, c: seq<Byte>, p: nat, rec: Rec, fits: bool)
    requires HeaderAt(b, p) && Recommented(b, c, p, rec, fits, true)
    ensures HeaderAt(c, p) <==> fits
  {
  }

  lemma LiveHeader(b: seq<Byte>, ptr: seq<int>, live: seq<bool>, s: nat)
    requires RecordsOk(b, ptr, live) && s < |ptr| && live[s]
    ensures HeaderAt(b, ptr[s])
  {
  }

  /** What the words and the tables look like after a deletion; m is the new maxserial. */
  lemma WordsSettled(b: seq<Byte>, p: seq<int>, h: seq<int>, s: nat, m: nat)
    requires RecordsOk(b, p, LiveOf(h)) && s < |p| == |h| && LiveOf(h)[s]
    requires m == if s == |p| - 1 then s else |p|
    ensures var c, h1 := Trimmed(b, p[s]), h[s := SAKUJO_HINSI][..m];
            RecordsOk(c, p[..m], LiveOf(h1)) && WordMap(c, p[..m], h1) == WordMap(b, p, h) - {s}
  {
    hide RecordsOk, HeaderAt, WordMap, TextOf, LiveOf, Trimmed;
    DeletedValues(b, p, h, s);
    var c, h1 := Trimmed(b, p[s]), h[s := SAKUJO_HINSI];
    if m == s {
      LastGivenUp(c, p, h1);
    } else {
      assert p[..m] == p && h1[..m] == h1;
    }
  }

  lemma TableSettled(b: seq<Byte>, p: seq<int>, h: seq<int>, s: nat, m: nat, which: int, tab: RevTable)
    requires RecordsOk(b, p, LiveOf(h)) && s < |p| == |h| && LiveOf(h)[s]
    requires m == if s == |p| - 1 then s else |p|
    requires tab.Valid(TextOf(b, p, LiveOf(h), which), LiveOf(h)[s := false])
    ensures var c, h1 := Trimmed(b, p[s]), h[s := SAKUJO_HINSI][..m];
            RecordsOk(c, p[..m], LiveOf(h1)) && tab.Valid(TextOf(c, p[..m], LiveOf(h1), which), LiveOf(h1))
  {
    hide RecordsOk, HeaderAt, IndexInv, TextOf, LiveOf, Trimmed;
    var tary, next := tab.tary[..tab.maxri1], tab.next[..|p|];
    Spent(h, s);
    TableReread(b, p, h, s, which, tary, next);
    TableCut(Trimmed(b, p[s]), p, h[s := SAKUJO_HINSI], m, which, tary, next);
    assert next[..m] == tab.next[..m];
  }

  lemma TableReread(b: seq<Byte>, p: seq<int>, h: seq<int>, s: nat, which: int, tab: seq<Entry>, next: seq<int>)
    requires RecordsOk(b, p, LiveOf(h)) && s < |p| == |h| && LiveOf(h)[s] && |next| == |p|
    requires IndexInv(tab, next, TextOf(b, p, LiveOf(h), which), LiveOf(h)[s := false])
    ensures var c, h1 := Trimmed(b, p[s]), h[s := SAKUJO_HINSI];
            && RecordsOk(c, p, LiveOf(h1))
            && IndexInv(tab, next, TextOf(c, p, LiveOf(h1), which), LiveOf(h1))
  {
    hide RecordsOk, HeaderAt, IndexInv, TextOf, LiveOf, Trimmed;
    DeletedValues(b, p, h, s);
    var c, h1 := Trimmed(b, p[s]), h[s := SAKUJO_HINSI];
    IndexFrame(tab, next, TextOf(b, p, LiveOf(h), which), LiveOf(h1), TextOf(c, p, LiveOf(h1), which));
  }

  lemma TableCut(c: seq<Byte>, p: seq<int>, h: seq<int>, m: nat, which: int, tab: seq<Entry>, next: seq<int>)
    requires RecordsOk(c, p, LiveOf(h)) && |p| == |h| == |next|
    requires m == |p| || (m == |p| - 1 && !LiveOf(h)[m])
    requires IndexInv(tab, next, TextOf(c, p, LiveOf(h), which), LiveOf(h))
    ensures RecordsOk(c, p[..m], LiveOf(h[..m]))
    ensures IndexInv(tab, next[..m], TextOf(c, p[..m], LiveOf(h[..m]), which), LiveOf(h[..m]))
  {
    hide RecordsOk, HeaderAt, IndexInv, TextOf, LiveOf;
    if m < |p| {
      LastGivenUp(c, p, h);
      IndexDropLast(tab, next, TextOf(c, p, LiveOf(h), which), LiveOf(h));
    } else {
      assert p[..m] == p && h[..m] == h && next[..m] == next;
    }
  }

  lemma FewerNoDuplicates(m: map<int, Word>, s: int)
    requires NoDuplicates(m) && s in m
    ensures NoDuplicates(m - {s}) && |m - {s}| == |m| - 1
  {
    var m1 := m - {s};
    assert m1.Keys == m.Keys - {s};
  }

  lemma StillNoDuplicatesAt(m: map<int, Word>, s: int, w: Word)
    requires NoDuplicates(m) && s in m && SameEntry(m[s], w)
    ensures NoDuplicates(m[s := w]) && |m[s := w]| == |m|
  {
    var m1 := m[s := w];
    assert m1.Keys == m.Keys;
  }

  lemma StillNoDuplicates(m: map<int, Word>, s: int, w: Word)
    requires NoDuplicates(m) && s !in m
    requires forall t :: t in m ==> !SameEntry(m[t], w)
    ensures NoDuplicates(m[s := w]) && |m[s := w]| == |m| + 1
  {
    hide SameEntry;
    var m1 := m[s := w];
    assert m1.Keys == m.Keys + {s};
    forall x, y | x in m1 && y in m1 && SameEntry(m1[x], m1[y]) ensures x == y {
      SameEntrySymmetric(m1[x], m1[y]);
    }
  }
}
