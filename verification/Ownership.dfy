/** Which environment holds which file, and which dictionary entry belongs to which environment
    (Wnn/jserver/do_filecom.c:335-368, 694-828, 951-1024; Wnn/jserver/do_dic_env.c:157-339, 410-510;
    Wnn/jserver/do_env.c:393-410). */
module Ownership {
  import opened Sequences

  const WNN_MAX_JISHO_OF_AN_ENV := 30
  const WNN_MAX_FILE_OF_AN_ENV := 60

  datatype FileType = DictFile | HindoFile | FuzokugoFile | OtherFile

  /** struct cnv_env: its file slots (-1 for a free one), its dictionary entries (jisho[..jishomax])
      and its file of attached words. */
  datatype Env = NoEnv | Env(file: seq<int>, jisho: seq<nat>, fzkFid: int)

  /** A table entry; body -1 marks a free one. */
  datatype Dic = Dic(body: int, hindo: int)

  // ----- who holds a file -----

  ghost predicate HasFile(env: Env, fid: int) {
    env.Env? && fid in env.file
  }

  /** The number of environments that hold a file. */
  ghost function Holders(envs: seq<Env>, fid: int): nat {
    if envs == [] then 0
    else Holders(envs[..|envs| - 1], fid) + if HasFile(envs[|envs| - 1], fid) then 1 else 0
  }

  lemma {:induction false} HoldersUpdate(envs: seq<Env>, e: nat, env: Env, fid: int)
    requires e < |envs|
    ensures Holders(envs[e := env], fid) ==
            Holders(envs, fid) - (if HasFile(envs[e], fid) then 1 else 0) + (if HasFile(env, fid) then 1 else 0)
    decreases |envs|
  {
    var n := |envs| - 1;
    if e == n {
      assert envs[e := env][..n] == envs[..n];
    } else {
      assert envs[e := env][..n] == envs[..n][e := env];
      HoldersUpdate(envs[..n], e, env, fid);
    }
  }

  lemma {:induction false} HolderCounts(envs: seq<Env>, e: nat, fid: int)
    requires e < |envs| && HasFile(envs[e], fid)
    ensures Holders(envs, fid) > 0
    decreases |envs|
  {
    if e < |envs| - 1 {
      HolderCounts(envs[..|envs| - 1], e, fid);
    }
  }

  ghost predicate EnvOk(env: Env, nfiles: nat, ndics: nat) {
    env.Env? ==>
      && |env.file| == WNN_MAX_FILE_OF_AN_ENV && |env.jisho| <= WNN_MAX_JISHO_OF_AN_ENV
      && (forall i :: 0 <= i < |env.file| ==> env.file[i] == -1 || 1 <= env.file[i] < nfiles)
      && (forall i, j :: 0 <= i < j < |env.file| && env.file[i] == env.file[j] ==> env.file[i] == -1)
      && (forall i :: 0 <= i < |env.jisho| ==> env.jisho[i] < ndics)
  }

  /** A file's count is the number of environments that hold it; a free slot has -1. */
  ghost predicate CountOk(count: int, holders: nat) {
    count == holders || (count == -1 && holders == 0)
  }

  ghost predicate FilesOk(refCount: seq<int>, envs: seq<Env>, ndics: nat) {
    && (forall e :: 0 <= e < |envs| ==> EnvOk(envs[e], |refCount|, ndics))
    && (forall f :: 1 <= f < |refCount| ==> CountOk(refCount[f], Holders(envs, f)))
  }

  // ----- the dictionary entries -----

  ghost predicate Lists(envs: seq<Env>, e: int, i: int, d: int) {
    0 <= e < |envs| && envs[e].Env? && 0 <= i < |envs[e].jisho| && envs[e].jisho[i] == d
  }

  /** The entry's body is a dictionary file that the environment holds, and so is, where there is one,
      its frequency file. */
  ghost predicate EntryOk(env: Env, d: Dic, types: seq<FileType>)
    requires env.Env?
  {
    && d.body in env.file && 1 <= d.body < |types| && types[d.body] == DictFile
    && (d.hindo == -1 || (d.hindo in env.file && 1 <= d.hindo < |types| && types[d.hindo] == HindoFile))
  }

  /** What an environment lists is in use, with a body that is a dictionary file it holds and, where
      there is one, a frequency file it holds. */
  ghost predicate ListedOk(env: Env, dics: seq<Dic>, types: seq<FileType>) {
    && env.Env? && (forall i :: 0 <= i < |env.jisho| ==> env.jisho[i] < |dics|)
    && (forall i :: 0 <= i < |env.jisho| ==> EntryOk(env, dics[env.jisho[i]], types))
    && (forall i, j :: 0 <= i < j < |env.jisho| ==> dics[env.jisho[i]].body != dics[env.jisho[j]].body)
    && (env.fzkFid == -1 || (env.fzkFid in env.file && 1 <= env.fzkFid < |types| && types[env.fzkFid] == FuzokugoFile))
  }

  ghost predicate AllListedOk(dics: seq<Dic>, types: seq<FileType>, envs: seq<Env>, nfiles: nat) {
    forall e :: 0 <= e < |envs| ==> EnvOk(envs[e], nfiles, |dics|) && (envs[e].Env? ==> ListedOk(envs[e], dics, types))
  }

  /** Each entry in use is listed once, by one environment. */
  ghost predicate ListedOnce(dics: seq<Dic>, envs: seq<Env>) {
    && (forall e, i, e1, i1, d :: Lists(envs, e, i, d) && Lists(envs, e1, i1, d) ==> e == e1 && i == i1)
    && (forall d :: 0 <= d < |dics| && dics[d].body != -1 ==> exists e, i :: Lists(envs, e, i, d))
  }

  ghost predicate DicsOk(dics: seq<Dic>, types: seq<FileType>, envs: seq<Env>, nfiles: nat) {
    AllListedOk(dics, types, envs, nfiles) && ListedOnce(dics, envs)
  }

  // ----- what one change to an environment's files does -----

  lemma SlotFilled(file: seq<int>, i: nat, fid: int)
    requires i < |file| && file[i] == -1 && fid !in file
    ensures forall f :: f != -1 ==> (f in file[i := fid] <==> f in file || f == fid)
  {
    forall f | f != -1 ensures f in file[i := fid] <==> f in file || f == fid {
      assert file[i := fid][i] == fid;
      if f in file {
        var j :| 0 <= j < |file| && file[j] == f;
        assert file[i := fid][j] == f;
      }
    }
  }

  lemma SlotFreed(file: seq<int>, i: nat, fid: int)
    requires i < |file| && file[i] == fid && forall j, k :: 0 <= j < k < |file| && file[j] == file[k] ==> file[j] == -1
    ensures forall f :: f != -1 ==> (f in file[i := -1] <==> f in file && f != fid)
  {
    forall f | f != -1 ensures f in file[i := -1] <==> f in file && f != fid {
      if f in file && f != fid {
        var j :| 0 <= j < |file| && file[j] == f;
        assert file[i := -1][j] == f;
      }
    }
  }

  /** A file is taken into an environment (add_fid_to_env). */
  lemma FileAdded(refCount: seq<int>, envs: seq<Env>, ndics: nat, e: nat, i: nat, fid: int)
    requires FilesOk(refCount, envs, ndics) && e < |envs| && envs[e].Env? && i < |envs[e].file| && envs[e].file[i] == -1
    requires 1 <= fid < |refCount| && refCount[fid] != -1 && fid !in envs[e].file
    ensures FilesOk(refCount[fid := refCount[fid] + 1], envs[e := envs[e].(file := envs[e].file[i := fid])], ndics)
  {
    var env1, counts := envs[e].(file := envs[e].file[i := fid]), refCount[fid := refCount[fid] + 1];
    var envs1 := envs[e := env1];
    SlotFilled(envs[e].file, i, fid);
    forall f | 1 <= f < |refCount| ensures CountOk(counts[f], Holders(envs1, f)) {
      HoldersUpdate(envs, e, env1, f);
    }
  }

  /** A file is given up by an environment (del_fid_from_env). */
  lemma FileGivenUp(refCount: seq<int>, envs: seq<Env>, ndics: nat, e: nat, i: nat, fid: int)
    requires FilesOk(refCount, envs, ndics) && e < |envs| && envs[e].Env? && i < |envs[e].file|
    requires envs[e].file[i] == fid != -1
    ensures 1 <= fid < |refCount| && refCount[fid] == Holders(envs, fid) > 0
    ensures FilesOk(refCount[fid := refCount[fid] - 1], envs[e := envs[e].(file := envs[e].file[i := -1])], ndics)
  {
    var env1 := envs[e].(file := envs[e].file[i := -1]);
    assert EnvOk(envs[e], |refCount|, ndics);
    SlotFreed(envs[e].file, i, fid);
    HolderCounts(envs, e, fid);
    var envs1, counts := envs[e := env1], refCount[fid := refCount[fid] - 1];
    forall f | 1 <= f < |refCount| ensures CountOk(counts[f], Holders(envs1, f)) {
      HoldersUpdate(envs, e, env1, f);
    }
  }

  // ----- what one change does to the dictionary entries -----

  /** An environment takes in a file and lists what it listed. */
  lemma ListsMoreFiles(dics: seq<Dic>, types: seq<FileType>, envs: seq<Env>, nfiles: nat, e: nat, env1: Env)
    requires DicsOk(dics, types, envs, nfiles) && e < |envs| && envs[e].Env? && env1.Env?
    requires EnvOk(env1, nfiles, |dics|) && ListedOk(env1, dics, types) && env1.jisho == envs[e].jisho
    ensures DicsOk(dics, types, envs[e := env1], nfiles)
  {
    hide EnvOk, ListedOk;
    SameLists(envs, e, env1);
    SameOnce(dics, dics, envs, envs[e := env1]);
  }

  lemma SameLists(envs: seq<Env>, e: nat, env1: Env)
    requires e < |envs| && envs[e].Env? && env1.Env? && env1.jisho == envs[e].jisho
    ensures forall e1, i, d :: Lists(envs[e := env1], e1, i, d) <==> Lists(envs, e1, i, d)
  {
  }

  lemma SameOnce(dics: seq<Dic>, dics1: seq<Dic>, envs: seq<Env>, envs1: seq<Env>)
    requires ListedOnce(dics, envs) && |dics1| == |dics|
    requires forall d :: 0 <= d < |dics| && dics1[d].body != -1 ==> dics[d].body != -1
    requires forall e, i, d :: Lists(envs1, e, i, d) <==> Lists(envs, e, i, d)
    ensures ListedOnce(dics1, envs1)
  {
    hide Lists;
    forall d | 0 <= d < |dics1| && dics1[d].body != -1 ensures exists e, i :: Lists(envs1, e, i, d) {
      var e, i :| Lists(envs, e, i, d);
      assert Lists(envs1, e, i, d);
    }
  }

  /** The type of a file that nobody holds matters to nobody. */
  lemma TypesOfHeldFiles(dics: seq<Dic>, types: seq<FileType>, envs: seq<Env>, nfiles: nat, fid: nat, t: FileType)
    requires DicsOk(dics, types, envs, nfiles) && fid < |types| && Holders(envs, fid) == 0
    ensures DicsOk(dics, types[fid := t], envs, nfiles)
  {
    hide ListedOnce, Holders;
    forall e | 0 <= e < |envs| && envs[e].Env? ensures EnvOk(envs[e], nfiles, |dics|) && ListedOk(envs[e], dics, types[fid := t]) {
      assert EnvOk(envs[e], nfiles, |dics|) && ListedOk(envs[e], dics, types);
      if HasFile(envs[e], fid) { HolderCounts(envs, e, fid); }
      assert !HasFile(envs[e], fid);
    }
  }

  /** A free entry is listed nowhere, and an entry elsewhere does not care about it. */
  lemma EntryElsewhere(dics: seq<Dic>, types: seq<FileType>, envs: seq<Env>, nfiles: nat, d: nat, dic: Dic, e: nat)
    requires AllListedOk(dics, types, envs, nfiles) && d < |dics| && e < |envs| && envs[e].Env?
    requires forall i :: 0 <= i < |envs[e].jisho| ==> envs[e].jisho[i] != d
    ensures EnvOk(envs[e], nfiles, |dics|) && ListedOk(envs[e], dics[d := dic], types)
  {
    assert EnvOk(envs[e], nfiles, |dics|) && ListedOk(envs[e], dics, types);
  }

  lemma FreeIsUnlisted(dics: seq<Dic>, types: seq<FileType>, envs: seq<Env>, nfiles: nat, d: nat)
    requires AllListedOk(dics, types, envs, nfiles) && d < |dics| && dics[d].body == -1
    ensures forall e, i :: !Lists(envs, e, i, d)
    ensures forall e, i :: 0 <= e < |envs| && envs[e].Env? && 0 <= i < |envs[e].jisho| ==> envs[e].jisho[i] != d
  {
    forall e, i | 0 <= e < |envs| && envs[e].Env? && 0 <= i < |envs[e].jisho| ensures envs[e].jisho[i] != d {
      assert EnvOk(envs[e], nfiles, |dics|) && ListedOk(envs[e], dics, types);
    }
  }

  /** A new entry at the end of an environment's list. */
  lemma EntryAdded(dics: seq<Dic>, types: seq<FileType>, envs: seq<Env>, nfiles: nat, e: nat, d: nat, dic: Dic, envs1: seq<Env>)
    requires DicsOk(dics, types, envs, nfiles) && e < |envs| && envs[e].Env? && d < |dics| && dics[d].body == -1
    requires |envs[e].jisho| < WNN_MAX_JISHO_OF_AN_ENV
    requires dic.body in envs[e].file && 1 <= dic.body < |types| && types[dic.body] == DictFile
    requires dic.hindo == -1 || (dic.hindo in envs[e].file && 1 <= dic.hindo < |types| && types[dic.hindo] == HindoFile)
    requires forall i :: 0 <= i < |envs[e].jisho| && envs[e].jisho[i] < |dics| ==> dics[envs[e].jisho[i]].body != dic.body
    requires envs1 == envs[e := envs[e].(jisho := envs[e].jisho + [d])]
    ensures DicsOk(dics[d := dic], types, envs1, nfiles)
  {
    hide EnvOk, ListedOk, ListedOnce, Lists;
    FreeIsUnlisted(dics, types, envs, nfiles, d);
    forall e1 | 0 <= e1 < |envs| && envs1[e1].Env? ensures EnvOk(envs1[e1], nfiles, |dics|) && ListedOk(envs1[e1], dics[d := dic], types) {
      EntryElsewhere(dics, types, envs, nfiles, d, dic, e1);
      if e1 == e { OneMoreEntry(envs[e], dics, types, nfiles, d, dic); }
    }
    OneMoreListed(envs, e, d, envs1);
    OnceMore(dics, dics[d := dic], envs, envs1, e, |envs[e].jisho|, d);
  }

  lemma OneMoreEntry(env: Env, dics: seq<Dic>, types: seq<FileType>, nfiles: nat, d: nat, dic: Dic)
    requires env.Env? && d < |dics| && EnvOk(env, nfiles, |dics|) && ListedOk(env, dics[d := dic], types)
    requires |env.jisho| < WNN_MAX_JISHO_OF_AN_ENV
    requires dic.body in env.file && 1 <= dic.body < |types| && types[dic.body] == DictFile
    requires dic.hindo == -1 || (dic.hindo in env.file && 1 <= dic.hindo < |types| && types[dic.hindo] == HindoFile)
    requires forall i :: 0 <= i < |env.jisho| ==> env.jisho[i] != d && dics[env.jisho[i]].body != dic.body
    ensures EnvOk(env.(jisho := env.jisho + [d]), nfiles, |dics|) && ListedOk(env.(jisho := env.jisho + [d]), dics[d := dic], types)
  {
  }

  lemma OneMoreListed(envs: seq<Env>, e: nat, d: nat, envs1: seq<Env>)
    requires e < |envs| && envs[e].Env? && envs1 == envs[e := envs[e].(jisho := envs[e].jisho + [d])]
    ensures forall e1, i, x :: Lists(envs1, e1, i, x) <==> Lists(envs, e1, i, x) || (e1 == e && i == |envs[e].jisho| && x == d)
  {
  }

  lemma OnceMore(dics: seq<Dic>, dics1: seq<Dic>, envs: seq<Env>, envs1: seq<Env>, e: nat, k: nat, d: nat)
    requires ListedOnce(dics, envs) && |dics1| == |dics| && d < |dics| && forall e1, i :: !Lists(envs, e1, i, d)
    requires forall x :: 0 <= x < |dics| && x != d ==> dics1[x] == dics[x]
    requires forall e1, i, x :: Lists(envs1, e1, i, x) <==> Lists(envs, e1, i, x) || (e1 == e && i == k && x == d)
    ensures ListedOnce(dics1, envs1)
  {
    hide Lists;
    assert Lists(envs1, e, k, d);
    forall x | 0 <= x < |dics1| && dics1[x].body != -1 && x != d ensures exists e1, i :: Lists(envs1, e1, i, x) {
      var e1, i :| Lists(envs, e1, i, x);
      assert Lists(envs1, e1, i, x);
    }
  }

  /** An entry's frequency file is changed to another one that is held. */
  lemma HindoChanged(dics: seq<Dic>, types: seq<FileType>, envs: seq<Env>, nfiles: nat, e: nat, k: nat, hindo: int)
    requires DicsOk(dics, types, envs, nfiles) && e < |envs| && envs[e].Env? && k < |envs[e].jisho| && envs[e].jisho[k] < |dics|
    requires hindo == -1 || (hindo in envs[e].file && 1 <= hindo < |types| && types[hindo] == HindoFile)
    ensures DicsOk(dics[envs[e].jisho[k] := dics[envs[e].jisho[k]].(hindo := hindo)], types, envs, nfiles)
  {
    var d := envs[e].jisho[k];
    var dics1 := dics[d := dics[d].(hindo := hindo)];
    hide EnvOk, ListedOk;
    assert Lists(envs, e, k, d);
    forall e1 | 0 <= e1 < |envs| && envs[e1].Env? ensures EnvOk(envs[e1], nfiles, |dics|) && ListedOk(envs[e1], dics1, types) {
      if e1 == e {
        HindoChangedHere(envs[e], dics, types, nfiles, k, hindo);
      } else {
        forall i | 0 <= i < |envs[e1].jisho| ensures envs[e1].jisho[i] != d { assert Lists(envs, e1, i, envs[e1].jisho[i]); }
        EntryElsewhere(dics, types, envs, nfiles, d, dics1[d], e1);
      }
    }
    SameOnce(dics, dics1, envs, envs);
  }

  lemma HindoChangedHere(env: Env, dics: seq<Dic>, types: seq<FileType>, nfiles: nat, k: nat, hindo: int)
    requires env.Env? && EnvOk(env, nfiles, |dics|) && ListedOk(env, dics, types) && k < |env.jisho|
    requires hindo == -1 || (hindo in env.file && 1 <= hindo < |types| && types[hindo] == HindoFile)
    ensures ListedOk(env, dics[env.jisho[k] := dics[env.jisho[k]].(hindo := hindo)], types)
  {
    var d := env.jisho[k];
    var dics1 := dics[d := dics[d].(hindo := hindo)];
    assert forall i :: 0 <= i < |env.jisho| ==> dics1[env.jisho[i]].body == dics[env.jisho[i]].body;
  }

  // ----- an entry leaves -----

  /** Taking entry k out of an environment's list leaves everything else alone; what the environment
      itself is then like (its files may have changed too) decides. */
  lemma EntryGone(dics: seq<Dic>, types: seq<FileType>, envs: seq<Env>, nfiles: nat, e: nat, k: nat, env1: Env)
    requires DicsOk(dics, types, envs, nfiles) && e < |envs| && envs[e].Env? && k < |envs[e].jisho| && envs[e].jisho[k] < |dics|
    requires env1.Env? && env1.jisho == Removed(envs[e].jisho, k) && EnvOk(env1, nfiles, |dics|)
    ensures var dics1 := dics[envs[e].jisho[k] := Dic(-1, -1)];
            DicsOk(dics1, types, envs[e := env1], nfiles) <==> ListedOk(env1, dics1, types)
  {
    hide EnvOk, ListedOk, ListedOnce;
    var d, envs1 := envs[e].jisho[k], envs[e := env1];
    var dics1 := dics[d := Dic(-1, -1)];
    assert Lists(envs, e, k, d);
    ListsFewer(envs, e, k, env1, envs1);
    OnceFewer(dics, dics1, envs, envs1, e, k, d);
    forall e1 | 0 <= e1 < |envs| && e1 != e && envs[e1].Env? ensures EnvOk(envs[e1], nfiles, |dics|) && ListedOk(envs[e1], dics1, types) {
      NotListedTwice(dics, envs, e, k, d, e1);
      EntryElsewhere(dics, types, envs, nfiles, d, Dic(-1, -1), e1);
    }
    assert envs1[e] == env1;
  }

  lemma NotListedTwice(dics: seq<Dic>, envs: seq<Env>, e: nat, k: nat, d: nat, e1: nat)
    requires ListedOnce(dics, envs) && Lists(envs, e, k, d) && e1 != e && e1 < |envs| && envs[e1].Env?
    ensures forall i :: 0 <= i < |envs[e1].jisho| ==> envs[e1].jisho[i] != d
  {
    forall i | 0 <= i < |envs[e1].jisho| ensures envs[e1].jisho[i] != d {
      assert Lists(envs, e1, i, envs[e1].jisho[i]);
    }
  }

  /** Where position i of environment e1's list was before entry k left that of e. */
  function Before(e1: int, e: int, i: int, k: int): int {
    if e1 == e && i >= k then i + 1 else i
  }

  lemma ListsFewer(envs: seq<Env>, e: nat, k: nat, env1: Env, envs1: seq<Env>)
    requires e < |envs| && envs[e].Env? && k < |envs[e].jisho| && env1.Env? && env1.jisho == Removed(envs[e].jisho, k)
    requires envs1 == envs[e := env1]
    ensures forall e1, i, x :: Lists(envs1, e1, i, x) <==> Lists(envs, e1, Before(e1, e, i, k), x)
  {
    forall e1, i, x ensures Lists(envs1, e1, i, x) <==> Lists(envs, e1, Before(e1, e, i, k), x) {
      if e1 == e && 0 <= i < |env1.jisho| {
        assert env1.jisho[i] == envs[e].jisho[Before(e1, e, i, k)];
      }
    }
  }

  lemma OnceFewer(dics: seq<Dic>, dics1: seq<Dic>, envs: seq<Env>, envs1: seq<Env>, e: nat, k: nat, d: nat)
    requires ListedOnce(dics, envs) && Lists(envs, e, k, d) && d < |dics| && dics1 == dics[d := Dic(-1, -1)]
    requires forall e1, i, x :: Lists(envs1, e1, i, x) <==> Lists(envs, e1, Before(e1, e, i, k), x)
    ensures ListedOnce(dics1, envs1)
  {
    forall e1, i, e2, j, x | Lists(envs1, e1, i, x) && Lists(envs1, e2, j, x) ensures e1 == e2 && i == j {
      assert Lists(envs, e1, Before(e1, e, i, k), x) && Lists(envs, e2, Before(e2, e, j, k), x);
    }
    forall x | 0 <= x < |dics1| && dics1[x].body != -1 ensures exists e1, i :: Lists(envs1, e1, i, x) {
      var e1, i :| Lists(envs, e1, i, x);
      var i1 := if e1 == e && i > k then i - 1 else i;
      assert Before(e1, e, i1, k) == i;
      assert Lists(envs1, e1, i1, x);
    }
  }

  /** After a file is discarded the environment is in order exactly when no second entry used it as
      its frequency file: only the first entry that uses the file is deleted. */
  lemma DiscardedListed(env: Env, dics: seq<Dic>, types: seq<FileType>, nfiles: nat, fid: int, k: nat, env1: Env)
    requires env.Env? && EnvOk(env, nfiles, |dics|) && ListedOk(env, dics, types) && fid != -1 && k < |env.jisho|
    requires dics[env.jisho[k]].body == fid || dics[env.jisho[k]].hindo == fid
    requires env1.Env? && env1.jisho == Removed(env.jisho, k) && env1.fzkFid == env.fzkFid != fid
    requires forall f :: f != -1 ==> (f in env1.file <==> f in env.file && f != fid)
    requires forall i, j :: 0 <= i < j < |env.jisho| ==> env.jisho[i] != env.jisho[j]
    ensures ListedOk(env1, dics[env.jisho[k] := Dic(-1, -1)], types) <==>
            (forall i :: 0 <= i < |env.jisho| && i != k ==> dics[env.jisho[i]].hindo != fid)
  {
    hide ListedOk;
    ListedParts(env, dics, types);
    var dics1 := dics[env.jisho[k] := Dic(-1, -1)];
    if forall i :: 0 <= i < |env.jisho| && i != k ==> dics[env.jisho[i]].hindo != fid {
      OthersListed(env, dics, types, fid, k, env1, dics1);
    } else {
      var i :| 0 <= i < |env.jisho| && i != k && dics[env.jisho[i]].hindo == fid;
      var j := if i < k then i else i - 1;
      assert env1.jisho[j] == env.jisho[i];
      StillUsed(env1, dics1, types, fid, j);
    }
  }

  lemma StillUsed(env: Env, dics: seq<Dic>, types: seq<FileType>, fid: int, j: nat)
    requires env.Env? && j < |env.jisho| && env.jisho[j] < |dics| && dics[env.jisho[j]].hindo == fid != -1 && fid !in env.file
    ensures !ListedOk(env, dics, types)
  {
  }

  lemma OthersListed(env: Env, dics: seq<Dic>, types: seq<FileType>, fid: int, k: nat, env1: Env, dics1: seq<Dic>)
    requires ListedOk(env, dics, types) && fid != -1 && k < |env.jisho|
    requires dics[env.jisho[k]].body == fid || dics[env.jisho[k]].hindo == fid
    requires dics1 == dics[env.jisho[k] := Dic(-1, -1)]
    requires env1.Env? && env1.jisho == Removed(env.jisho, k) && env1.fzkFid == env.fzkFid != fid
    requires forall f :: f != -1 ==> (f in env1.file <==> f in env.file && f != fid)
    requires forall i, j :: 0 <= i < j < |env.jisho| ==> env.jisho[i] != env.jisho[j]
    requires forall i :: 0 <= i < |env.jisho| && i != k ==> dics[env.jisho[i]].hindo != fid
    ensures ListedOk(env1, dics1, types)
  {
    hide ListedOk;
    ListedParts(env, dics, types);
    forall i | 0 <= i < |env1.jisho|
      ensures env1.jisho[i] < |dics1| && EntryOk(env1, dics1[env1.jisho[i]], types)
    {
      var j := if i < k then i else i + 1;
      assert env1.jisho[i] == env.jisho[j] && dics1[env.jisho[j]] == dics[env.jisho[j]];
      assert EntryOk(env, dics[env.jisho[j]], types);
      assert dics[env.jisho[j]].body != fid by { TypesDiffer(env, dics, types, fid, k, j); }
    }
    forall i, j | 0 <= i < j < |env1.jisho| ensures dics1[env1.jisho[i]].body != dics1[env1.jisho[j]].body {
      var i1, j1 := if i < k then i else i + 1, if j < k then j else j + 1;
      assert env1.jisho[i] == env.jisho[i1] && env1.jisho[j] == env.jisho[j1];
    }
    PartsListed(env1, dics1, types);
  }

  lemma ListedParts(env: Env, dics: seq<Dic>, types: seq<FileType>)
    requires ListedOk(env, dics, types)
    ensures env.Env? && forall i :: 0 <= i < |env.jisho| ==> env.jisho[i] < |dics| && EntryOk(env, dics[env.jisho[i]], types)
    ensures forall i, j :: 0 <= i < j < |env.jisho| ==> dics[env.jisho[i]].body != dics[env.jisho[j]].body
    ensures env.fzkFid == -1 || (env.fzkFid in env.file && 1 <= env.fzkFid < |types| && types[env.fzkFid] == FuzokugoFile)
  {
  }

  lemma PartsListed(env: Env, dics: seq<Dic>, types: seq<FileType>)
    requires env.Env? && forall i :: 0 <= i < |env.jisho| ==> env.jisho[i] < |dics| && EntryOk(env, dics[env.jisho[i]], types)
    requires forall i, j :: 0 <= i < j < |env.jisho| ==> dics[env.jisho[i]].body != dics[env.jisho[j]].body
    requires env.fzkFid == -1 || (env.fzkFid in env.file && 1 <= env.fzkFid < |types| && types[env.fzkFid] == FuzokugoFile)
    ensures ListedOk(env, dics, types)
  {
  }

  /** Only entry k has the file as its body, if any has. */
  lemma TypesDiffer(env: Env, dics: seq<Dic>, types: seq<FileType>, fid: int, k: nat, j: nat)
    requires ListedOk(env, dics, types) && k < |env.jisho| && j < |env.jisho| && j != k
    requires dics[env.jisho[k]].body == fid || dics[env.jisho[k]].hindo == fid
    ensures dics[env.jisho[j]].body != fid
  {
  }

  /** When no entry uses the file, none is missed. */
  lemma UnusedListed(env: Env, dics: seq<Dic>, types: seq<FileType>, fid: int, env1: Env)
    requires ListedOk(env, dics, types) && fid != -1 && env1.Env? && env1.jisho == env.jisho
    requires forall i :: 0 <= i < |env.jisho| ==> dics[env.jisho[i]].body != fid && dics[env.jisho[i]].hindo != fid
    requires env1.fzkFid == if env.fzkFid == fid then -1 else env.fzkFid
    requires forall f :: f != -1 ==> (f in env1.file <==> f in env.file && f != fid)
    ensures ListedOk(env1, dics, types)
  {
  }
}
