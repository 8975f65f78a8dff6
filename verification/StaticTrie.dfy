/** Finding a word of a static dictionary by its serial (inspect_sd and get_fst_serial,
    Wnn/jserver/jishosub.c:121-296). */
module StaticTrie {
  import opened WString
  import opened ByteOrder
  import opened SdLayout
  import opened Jdata
  import KanjiPool
  import RevDic

  /** A word as its serial finds it: the reading spelled on the way, the place of the first record of
      its node, and which of the node's records is its own. */
  datatype Item = Item(yomi: WText, kanji1: nat, kanji2: nat)

  // ----- the words of a tree, in order -----

  /** The sums only grow, and all words a node counts are there. */
  ghost predicate Rising(sums: WText) {
    forall j, k :: 0 <= j <= k < |sums| ==> sums[j] <= sums[k]
  }

  function OwnCount(f: Form): nat {
    if (f.Normal? || f.NoPter?) && f.sums != [] then f.sums[|f.sums| - 1] else 0
  }

  /** The words that end in a node at one of its first n characters. */
  ghost function OwnItems(chars: WText, sums: WText, kanji: nat, n: nat): (s: seq<Item>)
    requires n <= |chars| == |sums| && Rising(sums)
    ensures |s| == if n == 0 then 0 else sums[n - 1]
  {
    if n == 0 then [] else
      var before := if n == 1 then 0 else sums[n - 2];
      OwnItems(chars, sums, kanji, n - 1) + seq(sums[n - 1] - before, i requires 0 <= i => Item([chars[n - 1]], kanji, before + i))
  }

  ghost function Prefixed(c: WChar, items: seq<Item>): (s: seq<Item>)
    ensures |s| == |items|
    ensures forall k :: 0 <= k < |s| ==> s[k] == Item([c] + items[k].yomi, items[k].kanji1, items[k].kanji2)
  {
    seq(|items|, k requires 0 <= k < |items| => Item([c] + items[k].yomi, items[k].kanji1, items[k].kanji2))
  }

  /** All words: a node's own ones first, then those of its children in table order. */
  ghost function Items(t: Node): seq<Item>
    requires t.Node? ==> WellNumbered(t)
    decreases t, if t.Node? then |t.kids| + 1 else 0
  {
    if t.Absent? then [] else
      (if t.form.Normal? || t.form.NoPter? then OwnItems(t.form.chars, t.form.sums, t.form.kanji, |t.form.chars|) else [])
      + KidItems(t, |t.kids|)
  }

  /** The words below the first n children. */
  ghost function KidItems(t: Node, n: nat): seq<Item>
    requires t.Node? && WellNumbered(t) && n <= |t.kids|
    decreases t, n
  {
    if n == 0 then [] else KidItems(t, n - 1) + Prefixed(Chars(t.form)[n - 1], Items(t.kids[n - 1]))
  }

  /** Every node has the shape the layout gives it; a node without entries has some child. */
  ghost predicate WellNumbered(t: Node) {
    t.Node? ==>
      && Shape(t) && !t.form.Other?
      && (t.form.Normal? || t.form.NoPter? ==> Rising(t.form.sums))
      && (t.form.NoEnt? ==> exists k :: 0 <= k < |t.kids| && t.kids[k].Node?)
      && forall k :: 0 <= k < |t.kids| ==> WellNumbered(t.kids[k])
  }

  /** Serials are given in that order, from `from` on. */
  ghost predicate Numbered(t: Node, from: nat)
    requires WellNumbered(t)
  {
    t.Node? ==>
      && (t.form.Normal? || t.form.NoPter? ==> t.form.serial == from)
      && forall k :: 0 <= k < |t.kids| ==> Numbered(t.kids[k], from + OwnCount(t.form) + |KidItems(t, k)|)
  }

  lemma {:induction false} KidItemsGrow(t: Node, j: nat, k: nat)
    requires t.Node? && WellNumbered(t) && j <= k <= |t.kids|
    ensures |KidItems(t, j)| <= |KidItems(t, k)|
    decreases k
  {
    if j < k { KidItemsGrow(t, j, k - 1); }
  }

  /** The word at index i of a node's own ones. */
  lemma {:induction false} OwnItemAt(chars: WText, sums: WText, kanji: nat, n: nat, key: nat, i: nat)
    requires key < n <= |chars| == |sums| && Rising(sums)
    requires (if key == 0 then 0 else sums[key - 1]) <= i < sums[key]
    ensures i < |OwnItems(chars, sums, kanji, n)| && OwnItems(chars, sums, kanji, n)[i] == Item([chars[key]], kanji, i)
    decreases n
  {
    if key < n - 1 {
      OwnItemAt(chars, sums, kanji, n - 1, key, i);
    }
  }

  /** The word at index i of those below child k. */
  lemma {:induction false} KidItemAt(t: Node, n: nat, k: nat, i: nat)
    requires t.Node? && WellNumbered(t) && k < n <= |t.kids| && i < |Items(t.kids[k])|
    ensures |KidItems(t, k)| + i < |KidItems(t, n)|
    ensures KidItems(t, n)[|KidItems(t, k)| + i] == Prefixed(Chars(t.form)[k], Items(t.kids[k]))[i]
    decreases n
  {
    hide WellNumbered, Items, Prefixed;
    LastKid(t, n);
    if k < n - 1 {
      KidItemAt(t, n - 1, k, i);
    }
  }

  lemma LastKid(t: Node, n: nat)
    requires t.Node? && WellNumbered(t) && 0 < n <= |t.kids|
    ensures |Chars(t.form)| == |t.kids| && (t.kids[n - 1].Node? ==> WellNumbered(t.kids[n - 1]))
    ensures KidItems(t, n) == KidItems(t, n - 1) + Prefixed(Chars(t.form)[n - 1], Items(t.kids[n - 1]))
  {
  }

  /** Absent children hold no words. */
  lemma {:induction false} AbsentSkip(t: Node, j: nat, k: nat)
    requires t.Node? && WellNumbered(t) && j <= k <= |t.kids|
    requires forall i :: j <= i < k ==> t.kids[i].Absent?
    ensures |KidItems(t, k)| == |KidItems(t, j)|
    decreases k
  {
    if j < k { AbsentSkip(t, j, k - 1); }
  }

  // ----- the program -----

  /** A tree in the buffer, numbered from `from` on. */
  ghost predicate Stored(b: seq<Byte>, t: Node, from: nat) {
    t.Node? && Laid(t, |b|) && Reads(b, t, true) && WellNumbered(t) && Numbered(t, from)
  }

  /** The first serial of child k. */
  ghost function KidStart(t: Node, from: nat, k: nat): nat
    requires t.Node? && WellNumbered(t) && k <= |t.kids|
  {
    from + OwnCount(t.form) + |KidItems(t, k)|
  }

  lemma StoredNode(b: seq<Byte>, t: Node, from: nat)
    requires Stored(b, t, from)
    ensures Shape(t) && !t.form.Other? && End(t.at, t.form) <= |b| && NodeReads(b, t, true)
    ensures t.form.Normal? || t.form.NoPter? ==> t.form.serial == from && Rising(t.form.sums)
    ensures forall k :: 0 <= k < |t.kids| && t.kids[k].Node? ==> Stored(b, t.kids[k], KidStart(t, from, k))
  {
    hide NodeReads, Shape;
  }

  /** get_fst_serial: the serial that a tree's numbering starts with. */
  method GetFstSerial(b: array<Byte>, hopter: nat, ghost t: Node, ghost from: nat) returns (s: int)
    requires Stored(b[..], t, from) && t.at == hopter
    ensures s == from
    decreases t
  {
    hide Laid, Reads, Numbered, Items, KidItems, Long, ShortsAre;
    StoredNode(b[..], t, from);
    var state := Short(b[..], hopter, true);
    if state == ST_NORMAL || state == ST_NOPTER {
      return Long(b[..], hopter + 4, true);
    } else if state == ST_NOENT {
      var tsize: nat := Short(b[..], hopter + 2, true);
      var ptrst := Align4(hopter + 4 + 2 * tsize);
      var k := 0;
      while k < tsize
        invariant 0 <= k <= tsize && forall j :: 0 <= j < k ==> t.kids[j].Absent?
      {
        PointerTells(b[..], t, k);
        var ptr := Long(b[..], ptrst + 4 * k, true);
        if ptr != ENDPTR {
          AbsentSkip(t, 0, k);
          NoneBefore(t);
          s := GetFstSerial(b, ptr, t.kids[k], KidStart(t, from, k));
          return;
        }
        k := k + 1;
      }
      SomeKid(t);
      assert false;
    } else {
      NoneBefore(t);
      s := GetFstSerial(b, hopter + 4, t.kids[0], KidStart(t, from, 0));
    }
  }

  lemma SomeKid(t: Node)
    requires t.Node? && WellNumbered(t) && t.form.NoEnt?
    ensures exists k :: 0 <= k < |t.kids| && t.kids[k].Node?
  {
  }

  lemma NoneBefore(t: Node)
    requires t.Node? && WellNumbered(t)
    ensures KidItems(t, 0) == []
  {
  }

  /** The child that serial lies below: the last one that starts at or before it (lines 216-225
      and 236-245). */
  method FindKid(b: array<Byte>, ptrst: nat, tsize: nat, serial: nat, ghost t: Node, ghost from: nat) returns (last: nat)
    requires Stored(b[..], t, from) && (t.form.Normal? || t.form.NoEnt?)
    requires ptrst == PtrSt(t.at, t.form) && tsize == |t.kids|
    requires KidStart(t, from, 0) <= serial < KidStart(t, from, |t.kids|)
    ensures last < |t.kids| && t.kids[last].Node?
    ensures KidStart(t, from, last) <= serial < KidStart(t, from, last + 1)
  {
    hide Laid, Reads, Numbered, Items, KidItems, Long, ShortsAre, NodeReads, PtrSt, End, WellNumbered;
    StoredNode(b[..], t, from);
    SameCount(b[..], t, from);
    last := 0;
    var key := 0;
    while key < tsize
      invariant 0 <= key <= tsize
      invariant (forall j :: 0 <= j < key ==> t.kids[j].Absent?)
                || (last < key && t.kids[last].Node? && KidStart(t, from, last) <= serial
                    && forall j :: last < j < key ==> t.kids[j].Absent?)
    {
      PointerTells(b[..], t, key);
      var ptr := Long(b[..], ptrst + 4 * key, true);
      if ptr != ENDPTR {
        var first := GetFstSerial(b, ptr, t.kids[key], KidStart(t, from, key));
        if serial < first {
          break;
        }
        last := key;
      }
      key := key + 1;
    }
    if forall j :: 0 <= j < key ==> t.kids[j].Absent? {
      AbsentSkip(t, 0, key);
      assert false;
    } else {
      AbsentSkip(t, last + 1, key);
    }
  }

  lemma SameCount(b: seq<Byte>, t: Node, from: nat)
    requires Stored(b, t, from)
    ensures t.Node? && WellNumbered(t)
  {
  }

  lemma ItemsOwn(t: Node)
    requires t.Node? && WellNumbered(t)
    ensures |Items(t)| == OwnCount(t.form) + |KidItems(t, |t.kids|)|
    ensures (t.form.Normal? || t.form.NoPter?) ==>
              forall i :: 0 <= i < OwnCount(t.form) ==>
                i < |OwnItems(t.form.chars, t.form.sums, t.form.kanji, |t.form.chars|)|
                && Items(t)[i] == OwnItems(t.form.chars, t.form.sums, t.form.kanji, |t.form.chars|)[i]
  {
    hide KidItems;
  }

  lemma ItemsKid(t: Node, k: nat, i: nat)
    requires t.Node? && WellNumbered(t) && k < |t.kids| && t.kids[k].Node?
    requires KidStart(t, 0, k) <= i < KidStart(t, 0, k + 1)
    ensures var j := i - KidStart(t, 0, k);
            && j < |Items(t.kids[k])| && i < |Items(t)| && k < |Chars(t.form)|
            && Items(t)[i] == Prefixed(Chars(t.form)[k], Items(t.kids[k]))[j]
  {
    hide OwnItems, Rising, WellNumbered;
    KidCount(t);
    ItemsOwn(t);
    KidStep(t, k);
    KidItemAt(t, |t.kids|, k, i - KidStart(t, 0, k));
  }

  lemma KidCount(t: Node)
    requires t.Node? && WellNumbered(t) && t.kids != []
    ensures |Chars(t.form)| == |t.kids|
  {
  }

  lemma KidStep(t: Node, k: nat)
    requires t.Node? && WellNumbered(t) && k < |t.kids|
    ensures |KidItems(t, k + 1)| == |KidItems(t, k)| + |Items(t.kids[k])|
  {
  }

  /** The character that word sdiff of a node ends with (lines 179-185). */
  method FindKey(b: array<Byte>, sumst: nat, sdiff: nat, ghost f: Form) returns (key: nat)
    requires (f.Normal? || f.NoPter?) && |f.sums| == |f.chars| && sdiff < OwnCount(f)
    requires sumst + 2 * |f.sums| <= b.Length && ShortsAre(b[..], sumst, f.sums, true)
    ensures key < |f.sums| && (if key == 0 then 0 else f.sums[key - 1]) <= sdiff < f.sums[key]
  {
    hide Short;
    key := 0;
    while Short(b[..], sumst + 2 * key, true) <= sdiff
      invariant 0 <= key < |f.sums| && (if key == 0 then 0 else f.sums[key - 1]) <= sdiff
      decreases |f.sums| - key
    {
      assert f.sums[key] == Short(b[..], sumst + 2 * key, true);
      key := key + 1;
    }
    assert f.sums[key] == Short(b[..], sumst + 2 * key, true);
  }

  lemma LastSum(b: seq<Byte>, t: Node)
    requires t.Node? && Shape(t) && (t.form.Normal? || t.form.NoPter?) && End(t.at, t.form) <= |b| && NodeReads(b, t, true)
    ensures var n := |t.form.chars|;
            SumSt(t.at, n) + 2 * n <= |b| && Short(b, SumSt(t.at, n) + 2 * n - 2, true) == OwnCount(t.form)
  {
    var f, n := t.form, |t.form.chars|;
    if n > 0 {
      assert f.sums[n - 1] == Short(b, SumSt(t.at, n) + 2 * (n - 1), true);
    }
  }

  datatype Inspected = NoWord | Found(item: Item)

  /** inspect_sd: from a serial back to the word. A serial that was never given and that of a
      deleted word are refused. */
  method InspectSd(b: array<Byte>, serial: nat, maxserial: nat, hinsi: array<int>, ghost t: Node) returns (r: Inspected)
    requires Stored(b[..], t, 0) && t.at == 0 && maxserial == |Items(t)| <= hinsi.Length
    ensures r == if serial >= |Items(t)| || hinsi[serial] == SAKUJO_HINSI then NoWord else Found(Items(t)[serial])
  {
    hide Items, Stored;
    if serial >= maxserial {
      return NoWord;
    }
    if hinsi[serial] == SAKUJO_HINSI {
      return NoWord;
    }
    var item := Descend(b, 0, serial, [], t, 0);
    return Found(item);
  }

  ghost function Behind(yomi: WText, item: Item): Item {
    Item(yomi + item.yomi, item.kanji1, item.kanji2)
  }

  lemma BehindStep(yomi: WText, c: WChar, item: Item)
    ensures Behind(yomi + [c], item) == Behind(yomi, Item([c] + item.yomi, item.kanji1, item.kanji2))
  {
  }

  /** The loop of inspect_sd, from a node on; yomi is the reading spelled so far. */
  method Descend(b: array<Byte>, hopter0: nat, serial: nat, yomi0: WText, ghost t0: Node, ghost from0: nat) returns (item: Item)
    requires Stored(b[..], t0, from0) && t0.at == hopter0 && from0 <= serial < from0 + |Items(t0)|
    ensures item == Behind(yomi0, Items(t0)[serial - from0])
  {
    hide Laid, Reads, Numbered, Items, KidItems, Long, NodeReads, WellNumbered, End;
    var hopter, yomi := hopter0, yomi0;
    ghost var t: Node, from: nat := t0, from0;
    while true
      invariant Stored(b[..], t, from) && t.at == hopter && from <= serial < from + |Items(t)|
      invariant Behind(yomi0, Items(t0)[serial - from0]) == Behind(yomi, Items(t)[serial - from])
      decreases t
    {
      StoredNode(b[..], t, from);
      ItemsOwn(t);
      ghost var k: nat;
      var step;
      step, k := StepDown(b, hopter, serial, t, from);
      match step {
        case Here(c, kanji1, kanji2) =>
          return Item(yomi + [c], kanji1, kanji2);
        case Down(c, next) =>
          ItemsKid(t, k, serial - from);
          BehindStep(yomi, c, Items(t.kids[k])[serial - KidStart(t, from, k)]);
          t, from := t.kids[k], KidStart(t, from, k);
          hopter, yomi := next, yomi + [c];
      }
    }
  }

  /** What one node says about a serial: it is one of its own words, or lies below a child. */
  datatype Step = Here(c: WChar, kanji1: nat, kanji2: nat) | Down(c: WChar, next: nat)

  method StepDown(b: array<Byte>, hopter: nat, serial: nat, ghost t: Node, ghost from: nat) returns (step: Step, ghost k: nat)
    requires Stored(b[..], t, from) && t.at == hopter && from <= serial < from + |Items(t)|
    ensures match step
            case Here(c, kanji1, kanji2) => Items(t)[serial - from] == Item([c], kanji1, kanji2)
            case Down(c, next) =>
              && k < |t.kids| && t.kids[k].Node? && t.kids[k].at == next
              && k < |Chars(t.form)| && c == Chars(t.form)[k]
              && KidStart(t, from, k) <= serial < KidStart(t, from, k + 1)
  {
    hide Laid, Reads, Numbered, Items, KidItems, Long, Short, WellNumbered;
    k := 0;
    StoredNode(b[..], t, from);
    SameCount(b[..], t, from);
    ItemsOwn(t);
    NoneBefore(t);
    var state := Short(b[..], hopter, true);
    if state == ST_NORMAL || state == ST_NOPTER {
      step, k := InWords(b, hopter, serial, t, from);
    } else if state == ST_NOENT {
      var tsize: nat := Short(b[..], hopter + 2, true);
      var charst := hopter + 4;
      var last := FindKid(b, Align4(charst + 2 * tsize), tsize, serial, t, from);
      k := last;
      PointerTells(b[..], t, last);
      step := Down(Short(b[..], charst + 2 * last, true), Long(b[..], Align4(charst + 2 * tsize) + 4 * last, true));
    } else {
      step := Down(Short(b[..], hopter + 2, true), hopter + 4);
    }
  }

  /** A node with words of its own (lines 165-231). */
  method InWords(b: array<Byte>, hopter: nat, serial: nat, ghost t: Node, ghost from: nat) returns (step: Step, ghost k: nat)
    requires Stored(b[..], t, from) && t.at == hopter && from <= serial < from + |Items(t)|
    requires t.form.Normal? || t.form.NoPter?
    ensures match step
            case Here(c, kanji1, kanji2) => Items(t)[serial - from] == Item([c], kanji1, kanji2)
            case Down(c, next) =>
              && k < |t.kids| && t.kids[k].Node? && t.kids[k].at == next
              && k < |Chars(t.form)| && c == Chars(t.form)[k]
              && KidStart(t, from, k) <= serial < KidStart(t, from, k + 1)
  {
    hide Laid, Reads, Numbered, Items, KidItems, Long, Short, WellNumbered, OwnItems;
    k := 0;
    StoredNode(b[..], t, from);
    SameCount(b[..], t, from);
    ItemsOwn(t);
    NoneBefore(t);
    LastSum(b[..], t);
    var tsize: nat := Short(b[..], hopter + 2, true);
    var serialst := Long(b[..], hopter + 4, true);
    var kanji1 := Long(b[..], hopter + 8, true);
    var charst := hopter + 12;
    var sumst := charst + 2 * (tsize + 2);
    var sdiff := serial - serialst;
    if sdiff < Short(b[..], sumst + 2 * tsize - 2, true) {
      var key := FindKey(b, sumst, sdiff, t.form);
      OwnItemAt(t.form.chars, t.form.sums, t.form.kanji, tsize, key, sdiff);
      step := Here(Short(b[..], charst + 2 * key, true), kanji1, sdiff);
    } else {
      assert t.form.Normal?;
      var ptrst := sumst + 2 * tsize;
      var last := FindKid(b, ptrst, tsize, serial, t, from);
      k := last;
      PointerTells(b[..], t, last);
      step := Down(Short(b[..], charst + 2 * last, true), Long(b[..], ptrst + 4 * last, true));
    }
  }

  /** A dictionary written on the other kind of host, once turned, is inspected like a native one. */
  method InspectForeign(b: array<Byte>, serial: nat, maxserial: nat, hinsi: array<int>, ghost t: Node) returns (r: Inspected)
    requires t.Node? && t.at == 0 && Laid(t, b.Length) && Reads(b[..], t, false) && RevDic.AllPresent(t)
    requires WellNumbered(t) && Numbered(t, 0) && maxserial == |Items(t)| <= hinsi.Length
    modifies b
    ensures Stored(b[..], t, 0)
    ensures r == if serial >= |Items(t)| || hinsi[serial] == SAKUJO_HINSI then NoWord else Found(Items(t)[serial])
  {
    hide Laid, Reads, WellNumbered, Numbered, Items;
    RevDic.RevSdHontai(b, false, t);
    r := InspectSd(b, serial, maxserial, hinsi, t);
  }

  // ----- from the serial to the record -----

  /** The records of the words: those of a node's own words are packed one behind the other from the
      place the node names. */
  ghost predicate Filed(t: Node, from: nat, d: seq<Byte>, recs: seq<KanjiPool.Rec>)
    requires WellNumbered(t)
  {
    t.Node? ==>
      && from + |Items(t)| <= |recs| && OwnCount(t.form) <= |Items(t)|
      && (t.form.Normal? || t.form.NoPter? ==> KanjiPool.PackedRow(d, t.form.kanji, recs[from..from + OwnCount(t.form)]))
      && forall k :: 0 <= k < |t.kids| ==> Filed(t.kids[k], KidStart(t, from, k), d, recs)
  }

  /** The labels on the way from t down to the word with serial s spell yomi; t is numbered from
      `from` on. */
  ghost predicate Spells(t: Node, from: nat, yomi: WText, s: nat)
    decreases |yomi|
  {
    && t.Node? && WellNumbered(t) && yomi != []
    && exists key :: 0 <= key < |Chars(t.form)| && Chars(t.form)[key] == yomi[0] && (EndsAt(t, from, key, yomi, s) || GoesOn(t, from, key, yomi, s))
  }

  ghost predicate EndsAt(t: Node, from: nat, key: nat, yomi: WText, s: nat)
    requires t.Node? && WellNumbered(t)
  {
    && |yomi| == 1 && (t.form.Normal? || t.form.NoPter?) && key < |t.form.sums|
    && from + (if key == 0 then 0 else t.form.sums[key - 1]) <= s < from + t.form.sums[key]
  }

  ghost predicate GoesOn(t: Node, from: nat, key: nat, yomi: WText, s: nat)
    requires t.Node? && WellNumbered(t) && yomi != []
    decreases |yomi|, 0
  {
    && key < |t.kids| && KidStart(t, from, key) <= s < KidStart(t, from, key + 1)
    && Spells(t.kids[key], KidStart(t, from, key), yomi[1..], s)
  }

  /** The words that end in a node are numbered through in it. */
  lemma {:induction false} OwnNumbers(chars: WText, sums: WText, kanji: nat, n: nat, i: nat) returns (key: nat)
    requires n <= |chars| == |sums| && Rising(sums) && i < |OwnItems(chars, sums, kanji, n)|
    ensures OwnItems(chars, sums, kanji, n)[i].kanji1 == kanji && OwnItems(chars, sums, kanji, n)[i].kanji2 == i
    ensures key < n && OwnItems(chars, sums, kanji, n)[i].yomi == [chars[key]]
    ensures (if key == 0 then 0 else sums[key - 1]) <= i < sums[key]
    decreases n
  {
    if i < |OwnItems(chars, sums, kanji, n - 1)| {
      key := OwnNumbers(chars, sums, kanji, n - 1, i);
    } else {
      key := n - 1;
    }
  }

  lemma {:induction false} WhichKid(t: Node, n: nat, i: nat) returns (k: nat)
    requires t.Node? && WellNumbered(t) && n <= |t.kids| && i < |KidItems(t, n)|
    ensures k < n && |KidItems(t, k)| <= i < |KidItems(t, k + 1)|
    decreases n
  {
    if i < |KidItems(t, n - 1)| {
      k := WhichKid(t, n - 1, i);
    } else {
      k := n - 1;
    }
  }

  lemma OwnWordFiled(t: Node, from: nat, d: seq<Byte>, recs: seq<KanjiPool.Rec>, i: nat) returns (rs: seq<KanjiPool.Rec>)
    requires t.Node? && WellNumbered(t) && Filed(t, from, d, recs) && i < OwnCount(t.form)
    ensures i < |Items(t)| && from + i < |recs| && Spells(t, from, Items(t)[i].yomi, from + i)
    ensures var it := Items(t)[i];
            KanjiPool.PackedRow(d, it.kanji1, rs) && it.kanji2 < |rs| && rs[it.kanji2] == recs[from + i]
  {
    hide Items, KidItems, OwnItems, Rising, KanjiPool.PackedRow;
    ItemsOwn(t);
    rs := recs[from..from + OwnCount(t.form)];
    var key := OwnNumbers(t.form.chars, t.form.sums, t.form.kanji, |t.form.chars|, i);
    assert EndsAt(t, from, key, Items(t)[i].yomi, from + i);
  }

  /** What holds of a word below child k holds of it below the node, behind the child's label. */
  lemma KidWord(t: Node, from: nat, k: nat, i: nat)
    requires t.Node? && WellNumbered(t) && k < |t.kids| && t.kids[k].Node?
    requires KidStart(t, 0, k) <= i < KidStart(t, 0, k + 1)
    ensures var j := i - KidStart(t, 0, k);
            && i < |Items(t)| && j < |Items(t.kids[k])|
            && Items(t)[i].kanji1 == Items(t.kids[k])[j].kanji1 && Items(t)[i].kanji2 == Items(t.kids[k])[j].kanji2
            && KidStart(t, from, k) + j == from + i
            && (Spells(t.kids[k], KidStart(t, from, k), Items(t.kids[k])[j].yomi, from + i) ==>
                  Spells(t, from, Items(t)[i].yomi, from + i))
  {
    hide Items, KidItems;
    ItemsKid(t, k, i);
    var j, yomi := i - KidStart(t, 0, k), Items(t)[i].yomi;
    assert yomi[1..] == Items(t.kids[k])[j].yomi;
    assert Spells(t.kids[k], KidStart(t, from, k), Items(t.kids[k])[j].yomi, from + i) ==> GoesOn(t, from, k, yomi, from + i);
  }

  /** Word i of a tree: its labels, and its record among those that start where the word says. */
  lemma {:induction false} WordFiled(t: Node, from: nat, d: seq<Byte>, recs: seq<KanjiPool.Rec>, i: nat) returns (rs: seq<KanjiPool.Rec>)
    requires t.Node? && WellNumbered(t) && Filed(t, from, d, recs) && i < |Items(t)|
    ensures from + i < |recs| && Spells(t, from, Items(t)[i].yomi, from + i)
    ensures var it := Items(t)[i];
            KanjiPool.PackedRow(d, it.kanji1, rs) && it.kanji2 < |rs| && rs[it.kanji2] == recs[from + i]
    decreases t
  {
    hide Items, KidItems, Spells, KanjiPool.PackedRow;
    if i < OwnCount(t.form) {
      rs := OwnWordFiled(t, from, d, recs, i);
    } else {
      ItemsOwn(t);
      var k := WhichKid(t, |t.kids|, i - OwnCount(t.form));
      NotAbsent(t, k);
      KidWord(t, from, k, i);
      rs := WordFiled(t.kids[k], KidStart(t, from, k), d, recs, i - KidStart(t, 0, k));
    }
  }

  lemma NotAbsent(t: Node, k: nat)
    requires t.Node? && WellNumbered(t) && k < |t.kids| && |KidItems(t, k)| < |KidItems(t, k + 1)|
    ensures t.kids[k].Node?
  {
  }

  /** A word by its serial: the reading that the tree spells for it, and its record out of the pool
      (inspect_sd, then Get_knj2). */
  method FetchWord(b: array<Byte>, d: array<Byte>, serial: nat, maxserial: nat, hinsi: array<int>, ghost t: Node, ghost recs: seq<KanjiPool.Rec>)
    returns (found: bool, yomi: WText, kouho: WText, stored: WText, comment: WText)
    requires Stored(b[..], t, 0) && t.at == 0 && maxserial == |Items(t)| <= hinsi.Length && Filed(t, 0, d[..], recs)
    ensures found <==> serial < maxserial && hinsi[serial] != SAKUJO_HINSI
    ensures found ==> Spells(t, 0, yomi, serial)
    ensures found ==> serial < |recs| && recs[serial] == KanjiPool.Spelled(kouho, stored, comment)
  {
    hide Items, Stored, Filed, Spells, KanjiPool.Fetch, KanjiPool.HeaderAt, KanjiPool.PackedRow;
    var r := InspectSd(b, serial, maxserial, hinsi, t);
    if r.NoWord? {
      return false, [], [], [], [];
    }
    SameCount(b[..], t, 0);
    ghost var rs := WordFiled(t, 0, d[..], recs, serial);
    KanjiPool.FetchPacked(d[..], r.item.kanji1, rs, r.item.kanji2);
    KanjiPool.RowAt(d[..], r.item.kanji1, |rs|, r.item.kanji2);
    found, yomi := true, r.item.yomi;
    kouho, stored, comment := KanjiPool.GetKnj2(d, r.item.kanji1, r.item.kanji2);
  }
}
