/** The sizes of the frequency tables (`struct HJT`) that environments attach to a dictionary
    (Wnn/jserver/jishoop.c:97-161, 238-284, 655-679, 748-782; Wnn/jserver/do_dic_env.c:157-197). */
module FreqTables {
  import opened Ownership

  /** Frequencies by serial; what lies at and behind maxserial means nothing. */
  datatype Table = Table(maxserial: nat, hindo: map<int, int>)

  ghost predicate EntriesOk(dics: seq<Dic>, files: nat) {
    forall k :: 0 <= k < |dics| && dics[k].body != -1 ==> 0 <= dics[k].body < files && -1 <= dics[k].hindo < files
  }

  /** Entry k attaches a frequency file to its dictionary. */
  ghost predicate Attached(dics: seq<Dic>, k: int) {
    0 <= k < |dics| && dics[k].body != -1 && dics[k].hindo != -1
  }

  /** Does table t say how often each of n words was used? */
  ghost predicate Fits(t: Table, n: nat) {
    t.maxserial == n && forall s :: 0 <= s < n ==> s in t.hindo
  }

  /** Every attached frequency table is as long as its dictionary; serials are the dictionaries'
      maxserial by file. */
  ghost predicate InStep(dics: seq<Dic>, serials: seq<nat>, tables: seq<Table>)
    requires |serials| == |tables| && EntriesOk(dics, |tables|)
  {
    forall k :: Attached(dics, k) ==> Fits(tables[dics[k].hindo], serials[dics[k].body])
  }

  /** No frequency file serves two dictionaries. */
  ghost predicate OneBodyEach(dics: seq<Dic>) {
    forall j, k :: Attached(dics, j) && Attached(dics, k) && dics[j].hindo == dics[k].hindo ==> dics[j].body == dics[k].body
  }

  ghost predicate UsedBy(dics: seq<Dic>, h: int, body: int) {
    exists k :: Attached(dics, k) && dics[k].hindo == h && dics[k].body == body
  }

  // ----- what the calls do to the sizes -----

  /** Attaching: all stay in step exactly when no dictionary of another size uses the file. */
  lemma AttachedInStep(dics: seq<Dic>, serials: seq<nat>, tables: seq<Table>, d: nat, fid: nat, hfid: int, tables1: seq<Table>)
    requires |serials| == |tables| == |tables1| && EntriesOk(dics, |tables|) && InStep(dics, serials, tables)
    requires d < |dics| && fid < |serials| && -1 <= hfid < |tables|
    requires forall h :: 0 <= h < |tables| && h != hfid ==> tables1[h] == tables[h]
    requires hfid != -1 ==> Fits(tables1[hfid], serials[fid])
    ensures EntriesOk(dics[d := Dic(fid, hfid)], |tables|)
    ensures InStep(dics[d := Dic(fid, hfid)], serials, tables1) <==>
            hfid == -1 || forall k :: Attached(dics, k) && k != d && dics[k].hindo == hfid ==> serials[dics[k].body] == serials[fid]
  {
    var dics1 := dics[d := Dic(fid, hfid)];
    assert forall k :: k != d ==> (Attached(dics1, k) <==> Attached(dics, k));
    forall k | Attached(dics1, k)
      ensures Fits(tables1[dics1[k].hindo], serials[dics1[k].body]) <==>
              k == d || dics1[k].hindo != hfid || serials[dics1[k].body] == serials[fid]
    {
      if k != d && dics[k].hindo != hfid { assert Fits(tables[dics[k].hindo], serials[dics[k].body]); }
    }
  }

  lemma StillOneBody(dics: seq<Dic>, d: nat, fid: nat, hfid: int)
    requires d < |dics|
    ensures OneBodyEach(dics) && (forall k :: Attached(dics, k) && dics[k].hindo == hfid ==> dics[k].body == fid) ==>
              OneBodyEach(dics[d := Dic(fid, hfid)])
  {
    var dics1 := dics[d := Dic(fid, hfid)];
    assert forall k :: k != d ==> (Attached(dics1, k) <==> Attached(dics, k)) && (Attached(dics, k) ==> dics1[k] == dics[k]);
  }

  /** A new word: its own table gets its frequency, the dictionary's other tables get 0. */
  lemma GrownInStep(dics: seq<Dic>, serials: seq<nat>, tables: seq<Table>, d: nat, freq: int, tables1: seq<Table>)
    requires |serials| == |tables| == |tables1| && EntriesOk(dics, |tables|) && InStep(dics, serials, tables) && OneBodyEach(dics)
    requires d < |dics| && dics[d].body != -1
    requires var n := serials[dics[d].body];
             forall h :: 0 <= h < |tables| ==>
               tables1[h] == if UsedBy(dics, h, dics[d].body) then Table(n + 1, tables[h].hindo[n := if h == dics[d].hindo then freq else 0])
                             else tables[h]
    ensures InStep(dics, serials[dics[d].body := serials[dics[d].body] + 1], tables1)
  {
    forall k | Attached(dics, k)
      ensures Fits(tables1[dics[k].hindo], serials[dics[d].body := serials[dics[d].body] + 1][dics[k].body])
    {
      assert Fits(tables[dics[k].hindo], serials[dics[k].body]);
      if j :| Attached(dics, j) && dics[j].hindo == dics[k].hindo && dics[j].body == dics[d].body {
        assert dics[k].body == dics[d].body;
      }
    }
  }

  /** The last serial is given up. */
  lemma ShrunkInStep(dics: seq<Dic>, serials: seq<nat>, tables: seq<Table>, body: nat, n: nat, tables1: seq<Table>)
    requires |serials| == |tables| == |tables1| && EntriesOk(dics, |tables|) && InStep(dics, serials, tables) && OneBodyEach(dics)
    requires body < |serials| && n <= serials[body]
    requires forall h :: 0 <= h < |tables| ==>
               tables1[h] == if UsedBy(dics, h, body) then tables[h].(maxserial := n) else tables[h]
    ensures InStep(dics, serials[body := n], tables1)
  {
    forall k | Attached(dics, k) ensures Fits(tables1[dics[k].hindo], serials[body := n][dics[k].body]) {
      assert Fits(tables[dics[k].hindo], serials[dics[k].body]);
      if j :| Attached(dics, j) && dics[j].hindo == dics[k].hindo && dics[j].body == body {
        assert dics[k].body == body;
      }
    }
  }

  /** A serial that is used up behind the tables' backs. */
  lemma SpentOutOfStep(dics: seq<Dic>, serials: seq<nat>, tables: seq<Table>, body: nat)
    requires |serials| == |tables| && EntriesOk(dics, |tables|) && InStep(dics, serials, tables) && body < |serials|
    ensures InStep(dics, serials[body := serials[body] + 1], tables) <==> forall k :: Attached(dics, k) ==> dics[k].body != body
  {
    forall k | Attached(dics, k)
      ensures Fits(tables[dics[k].hindo], serials[body := serials[body] + 1][dics[k].body]) <==> dics[k].body != body
    {
      assert Fits(tables[dics[k].hindo], serials[dics[k].body]);
    }
  }

  // ----- the program -----

  class Tables {
    const dicTable: array<Dic>
    const serials: array<nat>     // maxserial of each file that is a dictionary
    const tables: array<Table>    // each file that is a frequency file

    constructor (dics: nat, files: nat)
      ensures Valid() && Level() && OneBodyEach(dicTable[..]) && dicTable.Length == dics && serials.Length == files
      ensures fresh(dicTable) && fresh(serials) && fresh(tables)
      ensures (forall d :: 0 <= d < dics ==> dicTable[d] == Dic(-1, -1)) && forall f :: 0 <= f < files ==> serials[f] == 0
      ensures forall f :: 0 <= f < files ==> tables[f] == Table(0, map[])
    {
      dicTable := new Dic[dics](_ => Dic(-1, -1));
      serials := new nat[files](_ => 0);
      tables := new Table[files](_ => Table(0, map[]));
    }

    ghost predicate Valid()
      reads this, dicTable
    {
      serials.Length == tables.Length && EntriesOk(dicTable[..], tables.Length)
    }

    ghost predicate Level()
      requires Valid()
      reads this, dicTable, serials, tables
    {
      InStep(dicTable[..], serials[..], tables[..])
    }

    /** hindo_file_size_justify. */
    method Justify(fid: nat, hfid: nat)
      requires Valid() && fid < serials.Length && hfid < tables.Length
      modifies tables
      ensures tables[hfid].maxserial == serials[fid]
      ensures forall s :: s in old(tables[hfid].hindo) && (s < old(tables[hfid].maxserial) || serials[fid] <= s) ==>
                s in tables[hfid].hindo && tables[hfid].hindo[s] == old(tables[hfid].hindo[s])
      ensures forall s :: old(tables[hfid].maxserial) <= s < serials[fid] ==> s in tables[hfid].hindo && tables[hfid].hindo[s] == 0
      ensures forall h :: 0 <= h < tables.Length && h != hfid ==> tables[h] == old(tables[h])
    {
      var t := tables[hfid];
      if t.maxserial != serials[fid] {
        var hindo := t.hindo;
        if t.maxserial < serials[fid] {
          var k := t.maxserial;
          while k < serials[fid]
            invariant t.maxserial <= k <= serials[fid]
            invariant forall s :: s in t.hindo && (s < t.maxserial || k <= s) ==> s in hindo && hindo[s] == t.hindo[s]
            invariant forall s :: t.maxserial <= s < k ==> s in hindo && hindo[s] == 0
          {
            hindo := hindo[k := 0];
            k := k + 1;
          }
        }
        tables[hfid] := Table(serials[fid], hindo);
      }
    }

    /** js_dic_add where it attaches a frequency file to a free entry or to one with this body. */
    method Attach(d: nat, fid: nat, hfid: int)
      requires Valid() && d < dicTable.Length && fid < serials.Length && -1 <= hfid < tables.Length && Level()
      requires dicTable[d].body == -1 || dicTable[d].body == fid
      requires hfid != -1 ==> forall s :: 0 <= s < tables[hfid].maxserial ==> s in tables[hfid].hindo
      modifies dicTable, tables
      ensures Valid() && dicTable[..] == old(dicTable[..])[d := Dic(fid, hfid)]
      ensures var was := old(dicTable[..]);
              Level() <==> hfid == -1 || forall k :: Attached(was, k) && k != d && was[k].hindo == hfid ==> serials[was[k].body] == serials[fid]
      ensures var was := old(dicTable[..]);
              OneBodyEach(was) && (forall k :: Attached(was, k) && was[k].hindo == hfid ==> was[k].body == fid) ==>
                OneBodyEach(dicTable[..])
      ensures forall h :: 0 <= h < tables.Length && h != hfid ==> tables[h] == old(tables[h])
      ensures hfid != -1 ==>
                && tables[hfid].maxserial == serials[fid]
                && forall s :: 0 <= s < serials[fid] ==>
                     s in tables[hfid].hindo &&
                     tables[hfid].hindo[s] == if s < old(tables[hfid].maxserial) then old(tables[hfid].hindo)[s] else 0
    {
      ghost var dics, was := dicTable[..], tables[..];
      if hfid != -1 {
        Justify(fid, hfid);
      }
      dicTable[d] := Dic(fid, hfid);
      AttachedInStep(dics, serials[..], was, d, fid, hfid, tables[..]);
      StillOneBody(dics, d, fid, hfid);
      assert dicTable[..] == dics[d := Dic(fid, hfid)];
    }

    /** word_add: a word already there (`known`) keeps its serial, a new one gets the next. Its
        frequency goes into the entry's own table; other tables of the same dictionary start at 0. */
    method WordAdd(d: nat, known: int, freq: int) returns (serial: nat)
      requires Valid() && d < dicTable.Length && dicTable[d].body != -1
      requires -1 <= known < serials[dicTable[d].body] && Level() && OneBodyEach(dicTable[..])
      modifies serials, tables
      ensures Valid() && Level()
      ensures serial == if known == -1 then old(serials[dicTable[d].body]) else known
      ensures serials[..] == old(serials[..])[dicTable[d].body := old(serials[dicTable[d].body]) + if known == -1 then 1 else 0]
      ensures forall h :: 0 <= h < tables.Length ==>
                tables[h] == if h == dicTable[d].hindo || (known == -1 && UsedBy(dicTable[..], h, dicTable[d].body)) then
                               Table(serials[dicTable[d].body], old(tables[h].hindo)[serial := if h == dicTable[d].hindo then freq else 0])
                             else old(tables[h])
    {
      hide InStep, UsedBy;
      ghost var dics, sizes, was := dicTable[..], serials[..], tables[..];
      var body, own := dicTable[d].body, dicTable[d].hindo;
      ghost var n := serials[body];
      if known == -1 {
        serial := serials[body];
        serials[body] := serials[body] + 1;
      } else {
        serial := known;
      }
      assert serials[..] == sizes[body := serials[body]];
      OwnSize(dics, sizes, was, d);
      if own != -1 {
        var t := tables[own];
        tables[own] := Table(if serial >= t.maxserial then serials[body] else t.maxserial, t.hindo[serial := freq]);
      }
      OtherTables(d, serial, n);
      if known == -1 {
        GrownInStep(dics, sizes, was, d, freq, tables[..]);
      } else {
        SameSizes(dics, sizes, was, tables[..]);
      }
    }

    /** The loop over all entries with the same dictionary, which had n serials (lines 140-157). */
    method OtherTables(d: nat, serial: nat, ghost n: nat)
      requires Valid() && d < dicTable.Length && dicTable[d].body != -1
      requires serial < serials[dicTable[d].body] && n <= serials[dicTable[d].body]
      requires serials[dicTable[d].body] == if serial < n then n else serial + 1
      requires forall h :: 0 <= h < tables.Length && UsedBy(dicTable[..], h, dicTable[d].body) && h != dicTable[d].hindo ==>
                 tables[h].maxserial == n
      requires dicTable[d].hindo != -1 ==> tables[dicTable[d].hindo].maxserial == serials[dicTable[d].body]
      modifies tables
      ensures forall h :: 0 <= h < tables.Length ==>
                tables[h] == if UsedBy(dicTable[..], h, dicTable[d].body) && h != dicTable[d].hindo && serial >= n
                             then Table(serials[dicTable[d].body], old(tables[h].hindo)[serial := 0]) else old(tables[h])
    {
      var body, own := dicTable[d].body, dicTable[d].hindo;
      ghost var dics, was, used: set<int> := dicTable[..], tables[..], {};
      var k := 0;
      while k < dicTable.Length
        invariant 0 <= k <= dicTable.Length
        invariant forall j :: 0 <= j < k && Attached(dics, j) && dics[j].body == body ==> dics[j].hindo in used
        invariant forall h :: h in used ==> UsedBy(dics, h, body)
        invariant forall h :: 0 <= h < tables.Length ==>
                    tables[h] == if h in used && h != own && serial >= n then Table(serials[body], was[h].hindo[serial := 0]) else was[h]
      {
        if dicTable[k].body == body && dicTable[k].hindo != -1 {
          assert Attached(dics, k);
          var h := dicTable[k].hindo;
          if serial >= tables[h].maxserial {
            tables[h] := Table(serials[body], tables[h].hindo[serial := 0]);
          }
          used := used + {h};
        }
        k := k + 1;
      }
    }

    /** word_delete: when the dictionary gives up its last serial, all its tables follow; what they
        say about the words stays. A reverse dictionary gives up the last serial whenever it is
        deleted, a user dictionary only when its node held nothing else. */
    method WordDelete(d: nat, serial: nat, givenUp: bool)
      requires Valid() && d < dicTable.Length && dicTable[d].body != -1
      requires serial < serials[dicTable[d].body] && Level() && OneBodyEach(dicTable[..])
      requires givenUp ==> serial == serials[dicTable[d].body] - 1
      modifies serials, tables
      ensures Valid() && Level()
      ensures var n := old(serials[dicTable[d].body]);
              serials[..] == old(serials[..])[dicTable[d].body := if givenUp then n - 1 else n]
      ensures forall h :: 0 <= h < tables.Length ==>
                tables[h] == if UsedBy(dicTable[..], h, dicTable[d].body) then old(tables[h]).(maxserial := serials[dicTable[d].body])
                             else old(tables[h])
    {
      hide InStep, UsedBy;
      ghost var dics, sizes, was := dicTable[..], serials[..], tables[..];
      var body, own := dicTable[d].body, dicTable[d].hindo;
      OwnSize(dics, sizes, was, d);
      if givenUp {
        serials[body] := serials[body] - 1;
        if own != -1 {
          tables[own] := tables[own].(maxserial := tables[own].maxserial - 1);
        }
      }
      assert serials[..] == sizes[body := serials[body]];
      FollowTables(body);
      ShrunkInStep(dics, sizes, was, body, serials[body], tables[..]);
    }

    /** The loop over all entries with the same dictionary (lines 270-283). */
    method FollowTables(body: nat)
      requires Valid() && body < serials.Length
      modifies tables
      ensures forall h :: 0 <= h < tables.Length ==>
                tables[h] == if UsedBy(dicTable[..], h, body) then old(tables[h]).(maxserial := serials[body]) else old(tables[h])
    {
      ghost var dics, was, used: set<int> := dicTable[..], tables[..], {};
      var k := 0;
      while k < dicTable.Length
        invariant 0 <= k <= dicTable.Length
        invariant forall j :: 0 <= j < k && Attached(dics, j) && dics[j].body == body ==> dics[j].hindo in used
        invariant forall h :: h in used ==> UsedBy(dics, h, body)
        invariant forall h :: 0 <= h < tables.Length ==>
                    tables[h] == if h in used then was[h].(maxserial := serials[body]) else was[h]
      {
        if dicTable[k].body == body && dicTable[k].hindo != -1 {
          assert Attached(dics, k);
          var h := dicTable[k].hindo;
          if serials[body] != tables[h].maxserial {
            tables[h] := tables[h].(maxserial := serials[body]);
          }
          used := used + {h};
        }
        k := k + 1;
      }
    }

    /** word_comment_set where it gives the record a new place (`forwarded`): in a reverse dictionary
        that uses up a serial, and no frequency table learns of it. */
    method CommentSet(d: nat, forwarded: bool, rev: bool)
      requires Valid() && d < dicTable.Length && dicTable[d].body != -1 && Level()
      modifies serials
      ensures Valid()
      ensures serials[..] == old(serials[..])[dicTable[d].body := old(serials[dicTable[d].body]) + if forwarded && rev then 1 else 0]
      ensures Level() <==> !(forwarded && rev) || forall k :: Attached(dicTable[..], k) ==> dicTable[k].body != dicTable[d].body
    {
      ghost var sizes := serials[..];
      if forwarded && rev {
        var body := dicTable[d].body;
        SpentOutOfStep(dicTable[..], sizes, tables[..], body);
        serials[body] := serials[body] + 1;
        assert serials[..] == sizes[body := sizes[body] + 1];
      }
    }
  }

  /** A dictionary with a frequency file gets a word, and the word a comment: the table is one serial
      short. */
  method CommentOutOfStep() returns (t: Tables)
    ensures t.Valid() && !t.Level()
  {
    t := new Tables(1, 2);
    t.Attach(0, 0, 1);
    assert t.dicTable[..][0] == Dic(0, 1);
    var serial := t.WordAdd(0, -1, 5);
    assert Attached(t.dicTable[..], 0);
    t.CommentSet(0, true, true);
  }

  /** Two dictionaries of different sizes with one frequency file: it is cut to the size of the second. */
  method TwoSizes() returns (t: Tables)
    ensures t.Valid() && !t.Level()
  {
    t := new Tables(2, 3);
    t.Attach(0, 0, 2);
    assert t.dicTable[..][0] == Dic(0, 2) && t.dicTable[..][1] == Dic(-1, -1);
    var serial := t.WordAdd(0, -1, 5);
    assert Attached(t.dicTable[..], 0);
    t.Attach(1, 1, 2);
  }

  /** The tables of entry d's dictionary, its own among them, have the dictionary's size. */
  lemma OwnSize(dics: seq<Dic>, serials: seq<nat>, tables: seq<Table>, d: nat)
    requires |serials| == |tables| && EntriesOk(dics, |tables|) && InStep(dics, serials, tables) && d < |dics| && dics[d].body != -1
    ensures dics[d].hindo != -1 ==> UsedBy(dics, dics[d].hindo, dics[d].body)
    ensures forall h :: 0 <= h < |tables| && UsedBy(dics, h, dics[d].body) ==> Fits(tables[h], serials[dics[d].body])
  {
    assert dics[d].hindo != -1 ==> Attached(dics, d);
  }

  lemma SameSizes(dics: seq<Dic>, serials: seq<nat>, tables: seq<Table>, tables1: seq<Table>)
    requires |serials| == |tables| == |tables1| && EntriesOk(dics, |tables|) && InStep(dics, serials, tables)
    requires forall h :: 0 <= h < |tables| ==>
               tables1[h].maxserial == tables[h].maxserial && forall s :: s in tables[h].hindo ==> s in tables1[h].hindo
    ensures InStep(dics, serials, tables1)
  {
    forall k | Attached(dics, k) ensures Fits(tables1[dics[k].hindo], serials[dics[k].body]) {
      assert Fits(tables[dics[k].hindo], serials[dics[k].body]);
    }
  }
}
