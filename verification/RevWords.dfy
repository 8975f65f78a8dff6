/** What the words of a reverse dictionary say: the records their serials point to, and the map
    from serial to word that the whole dictionary stands for. */
module RevWords {
  import opened WString
  import opened KanjiPool
  import opened Jdata

  datatype Word = Word(yomi: WText, kanji: WText, hinsi: int, comment: WText)

  ghost predicate SameEntry(w: Word, v: Word) {
    w.yomi == v.yomi && w.kanji == v.kanji && w.hinsi == v.hinsi
  }

  ghost function LiveOf(hinsi: seq<int>): (live: seq<bool>)
    ensures |live| == |hinsi| && forall s :: 0 <= s < |live| ==> live[s] == (hinsi[s] != SAKUJO_HINSI)
  {
    seq(|hinsi|, s requires 0 <= s < |hinsi| => hinsi[s] != SAKUJO_HINSI)
  }

  /** Every word has a legible record with a reading, and no two words share a byte of the pool. */
  ghost predicate RecordsOk(b: seq<Byte>, ptr: seq<int>, live: seq<bool>) {
    && |ptr| == |live|
    && (forall s :: 0 <= s < |ptr| && live[s] ==> ptr[s] >= 0 && HeaderAt(b, ptr[s]) && Fetch(b, ptr[s]).yomi != [])
    && forall s, t :: 0 <= s < |ptr| && 0 <= t < |ptr| && live[s] && live[t] && s != t ==> Apart(b, ptr[s], ptr[t])
  }

  const D_YOMI := 0
  const D_KANJI := 1

  ghost function KeyText(r: Rec, which: int): WText {
    if which == D_YOMI then r.yomi else r.kanji
  }

  /** The key of each word in one of the tables; deleted words have none. */
  ghost function TextOf(b: seq<Byte>, ptr: seq<int>, live: seq<bool>, which: int): (text: seq<WText>)
    requires RecordsOk(b, ptr, live)
    ensures |text| == |ptr|
    ensures forall s :: 0 <= s < |ptr| ==> text[s] == if live[s] then KeyText(Fetch(b, ptr[s]), which) else []
  {
    seq(|ptr|, s requires 0 <= s < |ptr| => if live[s] then KeyText(Fetch(b, ptr[s]), which) else [])
  }

  ghost function WordOf(r: Rec, h: int): Word {
    Word(Reverse(r.yomi), Reverse(r.kanji), h, r.comment)
  }

  /** The dictionary as a map from serial to word. */
  ghost function WordMap(b: seq<Byte>, ptr: seq<int>, hinsi: seq<int>): (m: map<int, Word>)
    requires RecordsOk(b, ptr, LiveOf(hinsi))
    ensures forall s :: s in m <==> 0 <= s < |ptr| && LiveOf(hinsi)[s]
    ensures forall s :: s in m ==> m[s] == WordOf(Fetch(b, ptr[s]), hinsi[s])
  {
    map s | 0 <= s < |ptr| && LiveOf(hinsi)[s] :: WordOf(Fetch(b, ptr[s]), hinsi[s])
  }

  ghost predicate NoDuplicates(m: map<int, Word>) {
    forall s, t :: s in m && t in m && SameEntry(m[s], m[t]) ==> s == t
  }

  // ----- what the source reads, whatever the length bytes say -----

  ghost predicate AllReadable(full: seq<Byte>, ptr: seq<int>, live: seq<bool>) {
    && |ptr| == |live|
    && forall s :: 0 <= s < |ptr| && live[s] ==> ptr[s] >= 0 && Readable(full, ptr[s])
  }

  ghost function SaidTexts(full: seq<Byte>, ptr: seq<int>, live: seq<bool>, which: int): (text: seq<WText>)
    requires AllReadable(full, ptr, live)
    ensures |text| == |ptr|
    ensures forall s :: 0 <= s < |ptr| ==> text[s] == if live[s] then KeyText(Said(full, ptr[s]), which) else []
  {
    seq(|ptr|, s requires 0 <= s < |ptr| => if live[s] then KeyText(Said(full, ptr[s]), which) else [])
  }

  lemma RecordsAreRead(b: seq<Byte>, full: seq<Byte>, ptr: seq<int>, live: seq<bool>)
    requires RecordsOk(b, ptr, live) && b <= full
    ensures AllReadable(full, ptr, live)
    ensures forall w :: SaidTexts(full, ptr, live, w) == TextOf(b, ptr, live, w)
  {
    hide HeaderAt, Fetch, Readable, Said, Apart;
    forall s | 0 <= s < |ptr| && live[s] ensures Readable(full, ptr[s]) && Said(full, ptr[s]) == Fetch(b, ptr[s]) {
      LegibleIsReadable(b, full, ptr[s]);
    }
  }

  /** A word whose record was packed at the end, however long it is. */
  lemma PackedIsSaid(b: seq<Byte>, full: seq<Byte>, ptr: seq<int>, live: seq<bool>, r: Rec)
    requires RecordsOk(b, ptr, live) && b <= full && PlainRec(r) && Packed(full, |b|, r)
    ensures AllReadable(full, ptr + [|b|], live + [true])
    ensures forall w :: SaidTexts(full, ptr + [|b|], live + [true], w) == TextOf(b, ptr, live, w) + [KeyText(r, w)]
  {
    hide HeaderAt, Fetch, Readable, Said, Apart, RecordsOk, Packed;
    RecordsAreRead(b, full, ptr, live);
    PackedIsRead(full, |b|, r);
  }

  // ----- a new record behind the others -----

  /** c is the pool b with one more record, r, behind it. */
  ghost predicate OneMore(b: seq<Byte>, c: seq<Byte>, r: Rec) {
    b <= c && HeaderAt(c, |b|) && Home(c, |b|) == |b| && Fetch(c, |b|) == r && r.yomi != []
  }

  lemma OldWordsKept(b: seq<Byte>, c: seq<Byte>, r: Rec, ptr: seq<int>, live: seq<bool>, s: nat)
    requires RecordsOk(b, ptr, live) && OneMore(b, c, r) && s < |ptr| && live[s]
    ensures HeaderAt(c, ptr[s]) && Fetch(c, ptr[s]) == Fetch(b, ptr[s])
    ensures forall i :: Within(c, ptr[s], i) <==> Within(b, ptr[s], i)
    ensures Apart(c, ptr[s], |b|) && Apart(c, |b|, ptr[s])
  {
    hide PlainAt, Fetch;
    MorePool(b, c, ptr[s]);
    WithinPool(b, ptr[s]);
  }

  lemma WithinPool(b: seq<Byte>, p: nat)
    requires HeaderAt(b, p)
    ensures forall i :: Within(b, p, i) ==> 0 <= i < |b|
  {
  }

  /** Word s, new or not, gets the new record. */
  lemma RecordAdded(b: seq<Byte>, c: seq<Byte>, r: Rec, ptr: seq<int>, live: seq<bool>, s: nat, ptr1: seq<int>, live1: seq<bool>)
    requires RecordsOk(b, ptr, live) && OneMore(b, c, r)
    requires if s == |ptr| then ptr1 == ptr + [|b|] && live1 == live + [true]
             else s < |ptr| && live[s] && ptr1 == ptr[s := |b|] && live1 == live
    ensures RecordsOk(c, ptr1, live1)
    ensures forall x :: 0 <= x < |ptr| && x != s && live[x] ==> Fetch(c, ptr1[x]) == Fetch(b, ptr[x])
    ensures Fetch(c, ptr1[s]) == r
  {
    hide HeaderAt, Fetch, Home, Within;
    forall x | 0 <= x < |ptr| && x != s && live[x]
      ensures HeaderAt(c, ptr1[x]) && Fetch(c, ptr1[x]) == Fetch(b, ptr[x])
      ensures Apart(c, ptr1[x], |b|) && Apart(c, |b|, ptr1[x])
    {
      OldWordsKept(b, c, r, ptr, live, x);
    }
    forall x, y | 0 <= x < |ptr1| && 0 <= y < |ptr1| && live1[x] && live1[y] && x != y
      ensures Apart(c, ptr1[x], ptr1[y])
    {
      if x != s && y != s {
        OldWordsKept(b, c, r, ptr, live, x);
        OldWordsKept(b, c, r, ptr, live, y);
        assert Apart(b, ptr[x], ptr[y]);
      }
    }
  }

  // ----- a changed record -----

  lemma RecordRewritten(b: seq<Byte>, c: seq<Byte>, ptr: seq<int>, live: seq<bool>, s: nat, r: Rec)
    requires RecordsOk(b, ptr, live) && s < |ptr| && live[s] && r.yomi != [] && |b| <= |c|
    requires Rewritten(b, c, ptr[s], r) && OthersKept(b, c, ptr[s])
    ensures RecordsOk(c, ptr, live)
    ensures forall x :: 0 <= x < |ptr| && x != s && live[x] ==> Fetch(c, ptr[x]) == Fetch(b, ptr[x])
    ensures Fetch(c, ptr[s]) == r
  {
    hide HeaderAt, Fetch, Home, Within;
    forall x | 0 <= x < |ptr| && x != s && live[x] ensures Kept(b, c, ptr[x]) {
      assert Apart(b, ptr[s], ptr[x]);
    }
    forall x, y | 0 <= x < |ptr| && 0 <= y < |ptr| && live[x] && live[y] && x != y
      ensures Apart(c, ptr[x], ptr[y])
    {
      assert Apart(b, ptr[x], ptr[y]);
      WithinPool(b, ptr[x]);
      WithinPool(b, ptr[y]);
    }
  }

  /** Writing that spares every byte of every word changes none of them. */
  lemma SparedValues(b: seq<Byte>, c: seq<Byte>, ptr: seq<int>, hin: seq<int>)
    requires RecordsOk(b, ptr, LiveOf(hin)) && |b| <= |c|
    requires forall s, i :: 0 <= s < |ptr| && LiveOf(hin)[s] && 0 <= i < |b| && Within(b, ptr[s], i) ==> c[i] == b[i]
    ensures RecordsOk(c, ptr, LiveOf(hin))
    ensures forall w :: TextOf(c, ptr, LiveOf(hin), w) == TextOf(b, ptr, LiveOf(hin), w)
    ensures WordMap(c, ptr, hin) == WordMap(b, ptr, hin)
  {
    hide HeaderAt, Fetch, Home, Within;
    forall s | 0 <= s < |ptr| && LiveOf(hin)[s]
      ensures HeaderAt(c, ptr[s]) && Fetch(c, ptr[s]) == Fetch(b, ptr[s])
      ensures forall i :: Within(c, ptr[s], i) <==> Within(b, ptr[s], i)
    {
      WithinPool(b, ptr[s]);
      FetchFrame(b, c, ptr[s]);
    }
    forall x, y | 0 <= x < |ptr| && 0 <= y < |ptr| && LiveOf(hin)[x] && LiveOf(hin)[y] && x != y
      ensures Apart(c, ptr[x], ptr[y])
    {
      assert Apart(b, ptr[x], ptr[y]);
    }
  }

  // ----- a deleted word -----

  lemma WordDropped(b: seq<Byte>, ptr: seq<int>, live: seq<bool>, s: nat)
    requires RecordsOk(b, ptr, live) && s < |ptr|
    ensures RecordsOk(b, ptr, live[s := false])
  {
  }

  lemma LastDropped(b: seq<Byte>, ptr: seq<int>, live: seq<bool>)
    requires RecordsOk(b, ptr, live) && |ptr| > 0
    ensures RecordsOk(b, ptr[..|ptr| - 1], live[..|ptr| - 1])
  {
  }

  /** Giving up the end of the pool from the record of a deleted word on cuts into no other word. */
  lemma PoolTrimmed(b: seq<Byte>, ptr: seq<int>, live: seq<bool>, s: nat)
    requires RecordsOk(b, ptr, live) && s < |ptr| && live[s]
    requires ptr[s] + b[ptr[s]] >= |b|
    ensures var c := b[..ptr[s]];
            && RecordsOk(c, ptr, live[s := false])
            && forall x :: 0 <= x < |ptr| && live[s := false][x] ==> Fetch(c, ptr[x]) == Fetch(b, ptr[x])
  {
    hide HeaderAt, Fetch, Home;
    HeaderBytes(b, ptr[s]);
    var c, live1 := b[..ptr[s]], live[s := false];
    forall x | 0 <= x < |ptr| && live1[x]
      ensures HeaderAt(c, ptr[x]) && Fetch(c, ptr[x]) == Fetch(b, ptr[x])
      ensures forall i :: Within(c, ptr[x], i) <==> Within(b, ptr[x], i)
    {
      BlocksBefore(b, ptr[x], ptr[s]);
      FetchFrame(b, c, ptr[x]);
    }
    forall x, y | 0 <= x < |ptr| && 0 <= y < |ptr| && live1[x] && live1[y] && x != y
      ensures Apart(c, ptr[x], ptr[y])
    {
      assert Apart(b, ptr[x], ptr[y]);
    }
  }

  lemma BlocksBefore(b: seq<Byte>, p: nat, q: nat)
    requires HeaderAt(b, p) && HeaderAt(b, q) && Apart(b, p, q) && q + b[q] >= |b|
    ensures forall i :: Within(b, p, i) ==> 0 <= i < q
  {
    HeaderBytes(b, q);
    WithinPool(b, p);
    assert forall i :: q <= i < |b| ==> Within(b, q, i);
    forall i | Within(b, p, i) ensures i < q {
      assert !(Within(b, p, i) && Within(b, q, i));
    }
  }

  // ----- the map from serial to word -----

  lemma NewWordValues(b: seq<Byte>, c: seq<Byte>, r: Rec, ptr: seq<int>, hin: seq<int>, h: int)
    requires RecordsOk(b, ptr, LiveOf(hin)) && OneMore(b, c, r) && h != SAKUJO_HINSI
    ensures LiveOf(hin + [h]) == LiveOf(hin) + [true]
    ensures RecordsOk(c, ptr + [|b|], LiveOf(hin + [h]))
    ensures forall w :: TextOf(c, ptr + [|b|], LiveOf(hin + [h]), w) == TextOf(b, ptr, LiveOf(hin), w) + [KeyText(r, w)]
    ensures WordMap(c, ptr + [|b|], hin + [h]) == WordMap(b, ptr, hin)[|ptr| := WordOf(r, h)]
  {
    hide HeaderAt, Fetch, Home, Within, OneMore, Apart;
    RecordAdded(b, c, r, ptr, LiveOf(hin), |ptr|, ptr + [|b|], LiveOf(hin) + [true]);
    assert LiveOf(hin + [h]) == LiveOf(hin) + [true];
  }

  /** A record too long to be read leaves its word without one. */
  lemma IllegibleWord(c: seq<Byte>, ptr: seq<int>, hin: seq<int>, s: nat)
    requires s < |ptr| == |hin| && hin[s] != SAKUJO_HINSI && ptr[s] >= 0 && !HeaderAt(c, ptr[s])
    ensures !RecordsOk(c, ptr, LiveOf(hin))
  {
  }

  lemma NewRecordValues(b: seq<Byte>, c: seq<Byte>, r: Rec, ptr: seq<int>, hin: seq<int>, s: nat)
    requires RecordsOk(b, ptr, LiveOf(hin)) && OneMore(b, c, r) && s < |ptr| && LiveOf(hin)[s]
    requires r.yomi == Fetch(b, ptr[s]).yomi && r.kanji == Fetch(b, ptr[s]).kanji
    ensures RecordsOk(c, ptr[s := |b|], LiveOf(hin))
    ensures forall w :: TextOf(c, ptr[s := |b|], LiveOf(hin), w) == TextOf(b, ptr, LiveOf(hin), w)
    ensures WordMap(c, ptr[s := |b|], hin) == WordMap(b, ptr, hin)[s := WordOf(r, hin[s])]
  {
    hide HeaderAt, Fetch, Home, Within, OneMore, Apart;
    RecordAdded(b, c, r, ptr, LiveOf(hin), s, ptr[s := |b|], LiveOf(hin));
  }

  lemma RewrittenValues(b: seq<Byte>, c: seq<Byte>, r: Rec, ptr: seq<int>, hin: seq<int>, s: nat)
    requires RecordsOk(b, ptr, LiveOf(hin)) && s < |ptr| && LiveOf(hin)[s] && |b| <= |c|
    requires r.yomi == Fetch(b, ptr[s]).yomi && r.kanji == Fetch(b, ptr[s]).kanji
    requires Rewritten(b, c, ptr[s], r) && OthersKept(b, c, ptr[s])
    ensures RecordsOk(c, ptr, LiveOf(hin))
    ensures forall w :: TextOf(c, ptr, LiveOf(hin), w) == TextOf(b, ptr, LiveOf(hin), w)
    ensures WordMap(c, ptr, hin) == WordMap(b, ptr, hin)[s := WordOf(r, hin[s])]
  {
    hide HeaderAt, Fetch, Home, Within, OthersKept, Apart;
    RecordRewritten(b, c, ptr, LiveOf(hin), s, r);
  }

  /** The pool after a word was deleted: cut back when the word's record ended it. */
  ghost function Trimmed(b: seq<Byte>, p: int): seq<Byte> {
    if 0 <= p < |b| && p + b[p] >= |b| then b[..p] else b
  }

  lemma DeletedValues(b: seq<Byte>, ptr: seq<int>, hin: seq<int>, s: nat)
    requires RecordsOk(b, ptr, LiveOf(hin)) && s < |ptr| && LiveOf(hin)[s]
    ensures ptr[s] < |b|
    ensures var c, hin1 := Trimmed(b, ptr[s]), hin[s := SAKUJO_HINSI];
            && LiveOf(hin1) == LiveOf(hin)[s := false]
            && RecordsOk(c, ptr, LiveOf(hin1))
            && (forall w, x :: 0 <= x < |ptr| && LiveOf(hin1)[x] ==>
                  TextOf(c, ptr, LiveOf(hin1), w)[x] == TextOf(b, ptr, LiveOf(hin), w)[x])
            && WordMap(c, ptr, hin1) == WordMap(b, ptr, hin) - {s}
  {
    hide HeaderAt, Fetch, Home, Within, Apart, WordOf, KeyText;
    HeaderBytes(b, ptr[s]);
    var hin1 := hin[s := SAKUJO_HINSI];
    assert LiveOf(hin1) == LiveOf(hin)[s := false];
    if ptr[s] + b[ptr[s]] >= |b| {
      PoolTrimmed(b, ptr, LiveOf(hin), s);
    } else {
      WordDropped(b, ptr, LiveOf(hin), s);
    }
  }

  lemma LastGivenUp(b: seq<Byte>, ptr: seq<int>, hin: seq<int>)
    requires RecordsOk(b, ptr, LiveOf(hin)) && |ptr| > 0 && !LiveOf(hin)[|ptr| - 1]
    ensures var m := |ptr| - 1;
            && LiveOf(hin[..m]) == LiveOf(hin)[..m]
            && RecordsOk(b, ptr[..m], LiveOf(hin[..m]))
            && (forall w :: TextOf(b, ptr[..m], LiveOf(hin[..m]), w) == TextOf(b, ptr, LiveOf(hin), w)[..m])
            && WordMap(b, ptr[..m], hin[..m]) == WordMap(b, ptr, hin)
  {
    hide HeaderAt, Fetch, Home, Within, Apart;
    var m := |ptr| - 1;
    assert LiveOf(hin[..m]) == LiveOf(hin)[..m];
    LastDropped(b, ptr, LiveOf(hin));
  }

  lemma SerialSpent(b: seq<Byte>, ptr: seq<int>, hin: seq<int>)
    requires RecordsOk(b, ptr, LiveOf(hin))
    ensures LiveOf(hin + [SAKUJO_HINSI]) == LiveOf(hin) + [false]
    ensures RecordsOk(b, ptr + [-1], LiveOf(hin + [SAKUJO_HINSI]))
    ensures forall w :: TextOf(b, ptr + [-1], LiveOf(hin + [SAKUJO_HINSI]), w) == TextOf(b, ptr, LiveOf(hin), w) + [[]]
    ensures WordMap(b, ptr + [-1], hin + [SAKUJO_HINSI]) == WordMap(b, ptr, hin)
  {
    hide HeaderAt, Fetch, Home, Within, Apart, WordOf, KeyText;
    assert LiveOf(hin + [SAKUJO_HINSI]) == LiveOf(hin) + [false];
  }

  lemma NoWords()
    ensures RecordsOk([], [], LiveOf([]))
    ensures forall w :: TextOf([], [], LiveOf([]), w) == []
    ensures LiveOf([]) == []
    ensures WordMap([], [], []) == map[]
  {
  }
}
