/** The server's calls on files and dictionary entries, over the tables of module Ownership. */
module FileServer {
  import opened Sequences
  import opened Ownership

  class Server {
    const refCount: array<int>        // files[].ref_count; slot 0 is not used
    const fileType: array<FileType>   // files[].file_type
    const env: array<Env>
    const dicTable: array<Dic>

    ghost predicate Valid()
      reads this, refCount, fileType, env, dicTable
    {
      && refCount.Length == fileType.Length
      && FilesOk(refCount[..], env[..], dicTable.Length)
      && DicsOk(dicTable[..], fileType[..], env[..], refCount.Length)
    }

    /** No file is loaded that nobody holds. */
    ghost predicate Tidy()
      reads refCount
    {
      forall f :: 1 <= f < refCount.Length ==> refCount[f] != 0
    }

    /** Then a file's count is -1 exactly when nobody holds it, and else the number of its holders. */
    lemma TidyCounts(f: nat)
      requires Valid() && Tidy() && 1 <= f < refCount.Length
      ensures refCount[f] == if Holders(env[..], f) == 0 then -1 else Holders(env[..], f)
    {
      assert CountOk(refCount[..][f], Holders(env[..], f));
    }

    constructor (files: nat, dics: nat, envs: nat)
      ensures Valid() && Tidy() && refCount.Length == files && dicTable.Length == dics && env.Length == envs
      ensures forall e :: 0 <= e < envs ==> env[e].NoEnv?
      ensures (forall f :: 0 <= f < files ==> refCount[f] == -1) && forall d :: 0 <= d < dics ==> dicTable[d] == Dic(-1, -1)
      ensures fresh(refCount) && fresh(fileType) && fresh(env) && fresh(dicTable)
    {
      refCount := new int[files](_ => -1);
      fileType := new FileType[files](_ => OtherFile);
      env := new Env[envs](_ => NoEnv);
      dicTable := new Dic[dics](_ => Dic(-1, -1));
      new;
      NobodyHolds(env[..]);
    }

    ghost predicate IsEnv(eid: int)
      reads this, env
    {
      0 <= eid < env.Length && env[eid].Env?
    }

    /** A new environment holds nothing (Wnn/jserver/do_env.c:315-322). */
    method NewEnv(eid: nat)
      requires Valid() && eid < env.Length && env[eid].NoEnv?
      modifies env
      ensures Valid() && IsEnv(eid) && (old(Tidy()) ==> Tidy())
      ensures env[eid] == Env(seq(WNN_MAX_FILE_OF_AN_ENV, i => -1), [], -1)
      ensures forall e :: 0 <= e < env.Length && e != eid ==> env[e] == old(env[e])
    {
      ghost var envs := env[..];
      env[eid] := Env(seq(WNN_MAX_FILE_OF_AN_ENV, i => -1), [], -1);
      assert env[..] == envs[eid := env[eid]];
      EnvOpened(refCount[..], dicTable[..], fileType[..], envs, eid, env[eid]);
    }

    /** find_fid_in_env. */
    method FindFid(eid: nat, fid: int) returns (i: int)
      requires IsEnv(eid)
      ensures i == -1 ==> fid == -1 || fid !in env[eid].file
      ensures i != -1 ==> 0 <= i < |env[eid].file| && env[eid].file[i] == fid != -1
    {
      var file := env[eid].file;
      i := 0;
      while i < |file|
        invariant 0 <= i <= |file| && forall j :: 0 <= j < i ==> file[j] == -1 || file[j] != fid
      {
        if file[i] != -1 && file[i] == fid {
          return;
        }
        i := i + 1;
      }
      return -1;
    }

    /** new_fid_in_env: the first free slot. */
    method NewSlot(eid: nat) returns (i: int)
      requires IsEnv(eid)
      ensures i == -1 <==> -1 !in env[eid].file
      ensures i != -1 ==> FirstFree(env[eid].file, i)
    {
      var file := env[eid].file;
      i := 0;
      while i < |file|
        invariant 0 <= i <= |file| && forall j :: 0 <= j < i ==> file[j] != -1
      {
        if file[i] == -1 {
          return;
        }
        i := i + 1;
      }
      return -1;
    }

    /** get_new_fid: the first unused number. */
    method GetNewFid() returns (fid: int)
      ensures fid == -1 ==> forall f :: 1 <= f < refCount.Length ==> refCount[f] != -1
      ensures fid != -1 ==> 1 <= fid < refCount.Length && refCount[fid] == -1 && forall f :: 1 <= f < fid ==> refCount[f] != -1
    {
      fid := 1;
      while fid < refCount.Length
        invariant 1 <= fid && forall f :: 1 <= f < fid && f < refCount.Length ==> refCount[f] != -1
      {
        if refCount[fid] == -1 {
          return;
        }
        fid := fid + 1;
      }
      return -1;
    }

    /** add_fid_to_env: fails exactly when the environment has no free slot. */
    method AddFidToEnv(eid: nat, fid: nat) returns (i: int)
      requires Valid() && IsEnv(eid) && 1 <= fid < refCount.Length && refCount[fid] != -1 && fid !in env[eid].file
      modifies refCount, env
      ensures Valid() && IsEnv(eid) && (i == -1 <==> -1 !in old(env[eid].file))
      ensures i == -1 ==> refCount[..] == old(refCount[..]) && env[..] == old(env[..])
      ensures i != -1 ==> fid in env[eid].file && refCount[..] == old(refCount[..])[fid := old(refCount[fid]) + 1]
      ensures i != -1 ==> env[..] == old(env[..])[eid := env[eid]] && env[eid] == old(env[eid]).(file := env[eid].file)
      ensures i != -1 ==> FirstFree(old(env[eid].file), i) && env[eid].file == old(env[eid].file)[i := fid]
      ensures i != -1 ==> forall f :: f != -1 ==> (f in env[eid].file <==> f in old(env[eid].file) || f == fid)
    {
      hide ListedOnce;
      ghost var envs, counts, dics := env[..], refCount[..], dicTable[..];
      i := NewSlot(eid);
      if i == -1 {
        return;
      }
      env[eid] := env[eid].(file := env[eid].file[i := fid]);
      refCount[fid] := refCount[fid] + 1;
      FileAdded(counts, envs, |dics|, eid, i, fid);
      SlotFilled(envs[eid].file, i, fid);
      FileTakenIn(dics, fileType[..], envs, |counts|, eid, env[eid]);
      assert env[..] == envs[eid := env[eid]] && refCount[..] == counts[fid := counts[fid] + 1];
      assert env[eid].file[i] == fid;
    }

    /** file_already_read: a loaded file is shared. */
    method FileAlreadyRead(eid: nat, fid: nat) returns (r: int)
      requires Valid() && IsEnv(eid) && 1 <= fid < refCount.Length && refCount[fid] != -1
      modifies refCount, env
      ensures Valid() && IsEnv(eid) && (r == fid || r == -1)
      ensures r == -1 <==> fid !in old(env[eid].file) && -1 !in old(env[eid].file)
      ensures r == fid ==> fid in env[eid].file
      ensures env[..] == old(env[..])[eid := env[eid]] && env[eid] == old(env[eid]).(file := env[eid].file)
      ensures forall f :: f != -1 && f != fid ==> (f in env[eid].file <==> f in old(env[eid].file))
      ensures forall f :: 0 <= f < refCount.Length && f != fid ==> refCount[f] == old(refCount[f])
      ensures r == -1 ==> refCount[..] == old(refCount[..]) && env[eid] == old(env[eid])
      ensures old(Tidy()) ==> Tidy()
    {
      hide ListedOnce, AllListedOk, FilesOk;
      var i := FindFid(eid, fid);
      if i != -1 {
        return fid;
      }
      i := AddFidToEnv(eid, fid);
      r := if i == -1 then -1 else fid;
      if old(Tidy()) {
        StillTidy(old(refCount[..]), refCount[..], fid);
      }
    }

    /** js_file_read. `loaded` is the slot of the file when it is loaded already, else -1; readOk and
        type say what reading the file gives. The counts stay right. What add_fid_to_env answers is
        not looked at: a file newly read for an environment without a free slot stays loaded
        without a holder. */
    method FileRead(eid: nat, loaded: int, readOk: bool, type_: FileType) returns (r: int)
      requires Valid() && IsEnv(eid)
      requires loaded == -1 || (1 <= loaded < refCount.Length && refCount[loaded] != -1)
      modifies refCount, fileType, env
      ensures Valid() && IsEnv(eid) && (r == -1 || 1 <= r < refCount.Length)
      ensures r == -1 <==>
              if loaded != -1 then loaded !in old(env[eid].file) && -1 !in old(env[eid].file)
              else !readOk || forall f :: 1 <= f < refCount.Length ==> old(refCount[f]) != -1
      ensures r != -1 && loaded != -1 ==> r == loaded
      ensures r != -1 && loaded == -1 ==>
                && old(refCount[r]) == -1 && (forall f :: 1 <= f < r ==> old(refCount[f]) != -1)
                && refCount[r] == (if r in env[eid].file then 1 else 0) && fileType[r] == type_
      ensures r != -1 && loaded == -1 && -1 !in old(env[eid].file) ==> env[eid] == old(env[eid])
      ensures r != -1 && loaded == -1 && -1 in old(env[eid].file) ==>
                exists i :: FirstFree(old(env[eid].file), i) && env[eid].file == old(env[eid].file)[i := r]
      ensures forall f :: 0 <= f < refCount.Length && f != r ==> refCount[f] == old(refCount[f]) && fileType[f] == old(fileType[f])
      ensures env[..] == old(env[..])[eid := env[eid]] && env[eid] == old(env[eid]).(file := env[eid].file)
      ensures forall f :: f != -1 && f != r ==> (f in env[eid].file <==> f in old(env[eid].file))
      ensures old(Tidy()) ==> (Tidy() <==> !(loaded == -1 && r != -1 && -1 !in old(env[eid].file)))
      ensures old(Tidy()) && r != -1 ==> (Tidy() <==> r in env[eid].file)
    {
      hide ListedOnce, AllListedOk;
      if loaded != -1 {
        r := FileAlreadyRead(eid, loaded);
        return;
      }
      var fid := GetNewFid();
      if fid == -1 || !readOk {
        return -1;
      }
      assert CountOk(refCount[..][fid], Holders(env[..], fid));
      Loaded(refCount[..], env[..], dicTable[..], fileType[..], fid, type_);
      ghost var counts, types := refCount[..], fileType[..];
      refCount[fid] := 0;
      fileType[fid] := type_;
      assert refCount[..] == counts[fid := 0] && fileType[..] == types[fid := type_];
      NotHeld(env[..], eid, fid);
      var i := AddFidToEnv(eid, fid);
      r := fid;
      if i != -1 && old(Tidy()) {
        StillTidyAfter(counts, refCount[..], fid);
      }
    }

    /** Environment 0 has read files 1 to k, and no others are loaded. */
    ghost predicate HasRead(k: nat)
      reads this, refCount, env
    {
      && env.Length == 1 && IsEnv(0) && |env[0].file| == WNN_MAX_FILE_OF_AN_ENV
      && (forall j :: 0 <= j < WNN_MAX_FILE_OF_AN_ENV ==> env[0].file[j] == if j < k then j + 1 else -1)
      && forall f :: 1 <= f < refCount.Length ==> (refCount[f] == -1 <==> f > k)
    }

    method ReadFresh(k: nat, type_: FileType)
      requires Valid() && Tidy() && HasRead(k) && k < WNN_MAX_FILE_OF_AN_ENV && k + 1 < refCount.Length
      modifies refCount, fileType, env
      ensures Valid() && Tidy() && HasRead(k + 1) && fileType[k + 1] == type_ && refCount[k + 1] == 1
      ensures env[0].jisho == old(env[0].jisho) && env[0].fzkFid == old(env[0].fzkFid)
      ensures forall f :: 0 <= f < fileType.Length && f != k + 1 ==> fileType[f] == old(fileType[f])
    {
      hide FilesOk, DicsOk;
      ghost var file := env[0].file;
      assert file[k] == -1 && refCount[k + 1] == -1;
      var r := FileRead(0, -1, true, type_);
      ghost var i :| FirstFree(file, i) && env[0].file == file[i := r];
    }

    /** Two dictionaries are attached with the same frequency file. */
    method AttachBoth(eid: nat, d1: int, d2: int, h: int) returns (e1: nat, e2: nat)
      requires Valid() && IsEnv(eid) && env[eid].jisho == [] && d1 != d2 && dicTable.Length == 2
      requires d1 in env[eid].file && d2 in env[eid].file && h in env[eid].file && -1 !in {d1, d2, h}
      requires refCount.Length == fileType.Length && 0 < d1 < fileType.Length && 0 < d2 < fileType.Length && 0 < h < fileType.Length
      requires fileType[d1] == fileType[d2] == DictFile && fileType[h] == HindoFile
      requires forall d :: 0 <= d < dicTable.Length ==> dicTable[d].body == -1
      modifies env, dicTable
      ensures Valid() && IsEnv(eid) && env[eid] == old(env[eid]).(jisho := [e1, e2]) && UsedTwice(env[eid], dicTable[..], h)
      ensures e1 < dicTable.Length && e2 < dicTable.Length && dicTable[e1] == Dic(d1, h) && dicTable[e2] == Dic(d2, h)
    {
      hide FilesOk, DicsOk;
      assert dicTable[0].body == -1;
      e1 := DicAdd(eid, d1, h, true);
      assert dicTable[1 - e1].body == -1;
      e2 := DicAdd(eid, d2, h, true);
      assert Uses(env[eid], dicTable[..], 0, h) && Uses(env[eid], dicTable[..], 1, h);
    }

    method DiscardShared(d1: int, d2: int, h: nat) returns (d: nat)
      requires Valid() && IsEnv(0) && env[0].jisho == [] && env[0].fzkFid == -1 && d1 != d2 && d1 != h && dicTable.Length == 2
      requires d1 in env[0].file && d2 in env[0].file && h in env[0].file && -1 !in {d1, d2}
      requires 0 < d1 < fileType.Length && 0 < d2 < fileType.Length && 0 < h < fileType.Length == refCount.Length
      requires fileType[d1] == fileType[d2] == DictFile && fileType[h] == HindoFile && refCount[h] == 1
      requires forall d :: 0 <= d < dicTable.Length ==> dicTable[d].body == -1
      modifies refCount, env, dicTable
      ensures !Valid() && IsEnv(0) && env[0].jisho == [d] && h !in env[0].file
      ensures d < dicTable.Length && dicTable[d] == Dic(d2, h) && refCount[h] == -1
    {
      hide FilesOk, DicsOk;
      var e1: nat;
      e1, d := AttachBoth(0, d1, d2, h);
      ghost var k;
      var r: int;
      assert env[0].jisho[0] == e1 && env[0].jisho[1] == d;
      r, k := FileDiscard(0, h);
      assert Removed([e1, d], 0) == [d];
    }

    /** chk_dic: the entry of this environment with this body. */
    method ChkDic(eid: nat, fid: int) returns (d: int, ghost k: nat)
      requires Valid() && IsEnv(eid)
      ensures d == -1 ==> forall i :: 0 <= i < |env[eid].jisho| && env[eid].jisho[i] < dicTable.Length ==> dicTable[env[eid].jisho[i]].body != fid
      ensures d != -1 ==> k < |env[eid].jisho| && env[eid].jisho[k] == d && 0 <= d < dicTable.Length && dicTable[d].body == fid
    {
      hide ListedOnce;
      var jisho := env[eid].jisho;
      var i := 0;
      k := 0;
      assert EnvOk(env[..][eid], refCount.Length, dicTable.Length);
      while i < |jisho|
        invariant 0 <= i <= |jisho|
        invariant forall j :: 0 <= j < i ==> dicTable[jisho[j]].body != fid
      {
        if dicTable[jisho[i]].body == fid {
          k := i;
          return jisho[i], k;
        }
        i := i + 1;
      }
      return -1, k;
    }

    /** get_new_dic. */
    method GetNewDic() returns (d: int)
      ensures d == -1 ==> forall x :: 0 <= x < dicTable.Length ==> dicTable[x].body != -1
      ensures d != -1 ==> 0 <= d < dicTable.Length && dicTable[d].body == -1
    {
      d := 0;
      while d < dicTable.Length
        invariant 0 <= d <= dicTable.Length && forall x :: 0 <= x < d ==> dicTable[x].body != -1
      {
        if dicTable[d].body == -1 {
          return;
        }
        d := d + 1;
      }
      return -1;
    }

    /** Does the environment list an entry with this body? */
    ghost predicate Listed(eid: int, fid: int)
      requires IsEnv(eid)
      reads this, env, dicTable
    {
      exists i :: 0 <= i < |env[eid].jisho| && env[eid].jisho[i] < dicTable.Length && dicTable[env[eid].jisho[i]].body == fid
    }

    /** js_dic_add: attaches a dictionary file, with a frequency file or without (-1). `allowed` says
        that the remaining checks (kind of dictionary, passwords, match of the frequency file) pass.
        A body that the environment lists already gets the new frequency file. */
    method DicAdd(eid: nat, fid: int, hfid: int, allowed: bool) returns (r: int)
      requires Valid() && IsEnv(eid)
      modifies env, dicTable
      ensures Valid() && IsEnv(eid)
      ensures r == -1 ==> env[..] == old(env[..]) && dicTable[..] == old(dicTable[..])
      ensures r == -1 <==>
                || fid == -1 || fid !in old(env[eid].file) || fileType[fid] != DictFile || !allowed
                || (hfid != -1 && (hfid !in old(env[eid].file) || fileType[hfid] != HindoFile))
                || (!old(Listed(eid, fid)) &&
                    (|old(env[eid].jisho)| == WNN_MAX_JISHO_OF_AN_ENV
                     || forall d :: 0 <= d < dicTable.Length ==> old(dicTable[d].body) != -1))
      ensures r != -1 ==> 0 <= r < dicTable.Length && dicTable[..] == old(dicTable[..])[r := Dic(fid, hfid)]
      ensures r != -1 ==> old(dicTable[r].body) == if old(Listed(eid, fid)) then fid else -1
      ensures r != -1 ==> r in env[eid].jisho && fid in old(env[eid].file) && (hfid == -1 || hfid in old(env[eid].file))
      ensures r != -1 ==> env[..] == old(env[..])[eid := env[eid]]
      ensures r != -1 ==>
                env[eid] == if old(Listed(eid, fid)) then old(env[eid]) else old(env[eid]).(jisho := old(env[eid].jisho) + [r])
    {
      hide ListedOnce, AllListedOk, FilesOk, EnvOk;
      HeldInRange(refCount[..], env[..], dicTable.Length, eid);
      var i := FindFid(eid, fid);
      if i == -1 || fileType[fid] != DictFile || !allowed {
        return -1;
      }
      if hfid != -1 {
        i := FindFid(eid, hfid);
        if i == -1 || fileType[hfid] != HindoFile {
          return -1;
        }
      }
      ghost var k;
      r, k := ChkDic(eid, fid);
      if r != -1 {
        HindoChanged(dicTable[..], fileType[..], env[..], refCount.Length, eid, k, hfid);
        ghost var dics := dicTable[..];
        dicTable[r] := dicTable[r].(hindo := hfid);
        assert dicTable[..] == dics[r := dics[r].(hindo := hfid)];
        return;
      }
      r := GetNewDic();
      if r == -1 || |env[eid].jisho| >= WNN_MAX_JISHO_OF_AN_ENV {
        return -1;
      }
      ghost var dics, envs := dicTable[..], env[..];
      dicTable[r] := Dic(fid, hfid);
      env[eid] := env[eid].(jisho := env[eid].jisho + [r]);
      assert dicTable[..] == dics[r := Dic(fid, hfid)] && env[..] == envs[eid := env[eid]];
      EntryAdded(dics, fileType[..], envs, refCount.Length, eid, r, Dic(fid, hfid), env[..]);
      EntryInEnv(envs[eid], refCount.Length, |dics|, r, refCount[..], envs, eid);
    }

    /** js_fuzokugo_set. */
    method FuzokugoSet(eid: nat, fid: int) returns (r: int)
      requires Valid() && IsEnv(eid)
      modifies env
      ensures Valid() && IsEnv(eid)
      ensures r == 0 <==> fid != -1 && fid in old(env[eid].file) && fileType[fid] == FuzokugoFile
      ensures env[..] == if r == 0 then old(env[..])[eid := old(env[eid]).(fzkFid := fid)] else old(env[..])
    {
      hide ListedOnce, FilesOk;
      HeldInRange(refCount[..], env[..], dicTable.Length, eid);
      var i := FindFid(eid, fid);
      if i == -1 || fileType[fid] != FuzokugoFile {
        return -1;
      }
      ghost var envs := env[..];
      assert ListedOk(envs[eid], dicTable[..], fileType[..]);
      env[eid] := env[eid].(fzkFid := fid);
      assert env[..] == envs[eid := env[eid]];
      SameFiles(refCount[..], envs, dicTable.Length, eid, env[eid]);
      ListsMoreFiles(dicTable[..], fileType[..], envs, refCount.Length, eid, env[eid]);
      return 0;
    }

    /** js_dic_delete. */
    method DicDelete(eid: nat, dicNo: int) returns (r: int)
      requires Valid() && IsEnv(eid)
      modifies env, dicTable
      ensures Valid() && IsEnv(eid)
      ensures r == 0 <==> dicNo in old(env[eid].jisho)
      ensures r == 0 ==> 0 <= dicNo < dicTable.Length && dicTable[..] == old(dicTable[..])[dicNo := Dic(-1, -1)]
      ensures r == 0 ==> env[..] == old(env[..])[eid := env[eid]] && env[eid] == old(env[eid]).(jisho := env[eid].jisho)
      ensures r == 0 ==> dicNo !in env[eid].jisho && |env[eid].jisho| == |old(env[eid].jisho)| - 1
      ensures r != 0 ==> env[..] == old(env[..]) && dicTable[..] == old(dicTable[..])
    {
      hide ListedOnce, AllListedOk, FilesOk, EnvOk;
      HeldInRange(refCount[..], env[..], dicTable.Length, eid);
      var jisho := env[eid].jisho;
      var off := 0;
      while off < |jisho| && jisho[off] != dicNo
        invariant 0 <= off <= |jisho| && forall j :: 0 <= j < off ==> jisho[j] != dicNo
      {
        off := off + 1;
      }
      if off == |jisho| {
        return -1;
      }
      ghost var dics, envs := dicTable[..], env[..];
      DicInRange(envs[eid], refCount.Length, |dics|, off);
      DeleteEntry(eid, off);
      EntryLeaves(dics, fileType[..], envs, refCount.Length, eid, off, env[eid]);
      SameFiles(refCount[..], envs, |dics|, eid, env[eid]);
      return 0;
    }

    /** dic_delete: frees the entry and closes up the environment's list. */
    method DeleteEntry(eid: nat, off: nat)
      requires IsEnv(eid) && off < |env[eid].jisho| && env[eid].jisho[off] < dicTable.Length
      modifies env, dicTable
      ensures IsEnv(eid) && env[eid] == old(env[eid]).(jisho := Removed(old(env[eid].jisho), off))
      ensures env[..] == old(env[..])[eid := env[eid]]
      ensures dicTable[..] == old(dicTable[..])[old(env[eid].jisho[off]) := Dic(-1, -1)]
    {
      dicTable[env[eid].jisho[off]] := Dic(-1, -1);
      ghost var was := env[eid].jisho;
      var jisho := env[eid].jisho;
      var max := |jisho| - 1;
      var i: nat := off;
      while i < max
        invariant off <= i <= max && |jisho| == max + 1
        invariant forall j :: 0 <= j < i ==> jisho[j] == was[if j < off then j else j + 1]
        invariant forall j :: i <= j <= max && j != off ==> jisho[j] == was[j]
      {
        jisho := jisho[i := jisho[i + 1]];
        i := i + 1;
      }
      assert jisho[..max] == Removed(was, off);
      env[eid] := env[eid].(jisho := jisho[..max]);
    }

    /** used_dic_fuzoku_delete: the first use of the file that it finds. */
    method UsedDicFuzokuDelete(eid: nat, fid: int) returns (ghost k: int)
      requires IsEnv(eid) && forall i :: 0 <= i < |env[eid].jisho| ==> env[eid].jisho[i] < dicTable.Length
      modifies env, dicTable
      ensures IsEnv(eid) && env[..] == old(env[..])[eid := env[eid]] && env[eid].file == old(env[eid].file)
      ensures EntryDropped(old(env[eid]), old(dicTable[..]), fid, k, env[eid], dicTable[..])
    {
      if env[eid].fzkFid == fid {
        env[eid] := env[eid].(fzkFid := -1);
        return -1;
      }
      var jisho := env[eid].jisho;
      var i := 0;
      while i < |jisho|
        invariant 0 <= i <= |jisho|
        invariant forall j :: 0 <= j < i ==> dicTable[jisho[j]].body != fid && dicTable[jisho[j]].hindo != fid
      {
        if dicTable[jisho[i]].body == fid || dicTable[jisho[i]].hindo == fid {
          k := i;
          DeleteEntry(eid, i);
          return;
        }
        i := i + 1;
      }
      k := -1;
    }

    /** file_discard: the environment gives up a file; the last one to do so unloads it. Its k-th entry,
        the first that uses the file, is deleted, or none (-1). The counts stay right. The entries stay right exactly when at most one of them used the file as its
        frequency file, because only one is deleted. */
    method FileDiscard(eid: nat, fid: int) returns (r: int, ghost k: int)
      requires Valid() && IsEnv(eid)
      modifies refCount, env, dicTable
      ensures r == -1 <==> fid == -1 || fid !in old(env[eid].file)
      ensures r != -1 ==> 1 <= fid < refCount.Length && r == old(refCount[fid]) - 1
      ensures r != -1 ==> refCount[fid] == if r == 0 then -1 else r
      ensures r == -1 ==> env[..] == old(env[..]) && refCount[..] == old(refCount[..])
      ensures r != -1 ==> IsEnv(eid) && forall f :: f != -1 ==> (f in env[eid].file <==> f in old(env[eid].file) && f != fid)
      ensures forall e :: 0 <= e < env.Length && e != eid ==> env[e] == old(env[e])
      ensures forall f :: 0 <= f < refCount.Length && f != fid ==> refCount[f] == old(refCount[f])
      ensures r == -1 ==> dicTable[..] == old(dicTable[..])
      ensures r != -1 ==> EntryDropped(old(env[eid]), old(dicTable[..]), fid, k, env[eid], dicTable[..])
      ensures refCount.Length == fileType.Length && FilesOk(refCount[..], env[..], dicTable.Length)
      ensures old(Tidy()) ==> Tidy()
      ensures Valid() <==> r == -1 || !UsedTwice(old(env[eid]), old(dicTable[..]), fid)
    {
      hide ListedOnce, AllListedOk, FilesOk, EnvOk, ListedOk, UsedTwice;
      HeldInRange(refCount[..], env[..], dicTable.Length, eid);
      var i := FindFid(eid, fid);
      if i == -1 {
        return -1, -1;
      }
      ghost var counts, envs, dics, types := refCount[..], env[..], dicTable[..], fileType[..];
      GiveUpSlot(eid, i, fid);
      ghost var envs1 := env[..];
      DicsInRange(envs[eid], |counts|, |dics|);
      k := UsedDicFuzokuDelete(eid, fid);
      assert env[..] == envs[eid := env[eid]] == envs1[eid := env[eid]];
      Discarded(dics, types, envs, |counts|, eid, i, fid, k, env[eid], dicTable[..]);
      SameFiles(refCount[..], envs1, |dics|, eid, env[eid]);
      r := Unload(fid);
    }

    /** The environment's slot is freed, and the count says so. */
    method GiveUpSlot(eid: nat, i: nat, fid: nat)
      requires IsEnv(eid) && FilesOk(refCount[..], env[..], dicTable.Length)
      requires i < |env[eid].file| && env[eid].file[i] == fid && 1 <= fid < refCount.Length
      modifies refCount, env
      ensures refCount[..] == old(refCount[..])[fid := old(refCount[fid]) - 1] && refCount[fid] >= 0
      ensures env[..] == old(env[..])[eid := old(env[eid]).(file := old(env[eid].file)[i := -1])]
      ensures FilesOk(refCount[..], env[..], dicTable.Length)
      ensures forall f :: f != -1 ==> (f in env[eid].file <==> f in old(env[eid].file) && f != fid)
    {
      hide FilesOk, EnvOk;
      ghost var counts, envs := refCount[..], env[..];
      HeldInRange(counts, envs, dicTable.Length, eid);
      FileGivenUp(counts, envs, dicTable.Length, eid, i, fid);
      OneSlotFreed(envs[eid], |counts|, dicTable.Length, i, fid);
      env[eid] := env[eid].(file := env[eid].file[i := -1]);
      refCount[fid] := refCount[fid] - 1;
      assert env[..] == envs[eid := env[eid]] && refCount[..] == counts[fid := counts[fid] - 1];
    }

    /** A file that nobody holds any longer is unloaded. */
    method Unload(fid: nat) returns (r: int)
      requires FilesOk(refCount[..], env[..], dicTable.Length) && 1 <= fid < refCount.Length && refCount[fid] >= 0
      modifies refCount
      ensures r == old(refCount[fid]) && refCount[..] == old(refCount[..])[fid := if r == 0 then -1 else r]
      ensures FilesOk(refCount[..], env[..], dicTable.Length)
    {
      hide FilesOk;
      r := refCount[fid];
      if r == 0 {
        ghost var counts := refCount[..];
        LastHolderGone(counts, env[..], dicTable.Length, fid);
        refCount[fid] := -1;
        assert refCount[..] == counts[fid := -1];
      }
    }

    /** disconnect, for an environment nobody uses any longer: all its entries and files go with it. */
    method Disconnect(eid: nat)
      requires Valid() && IsEnv(eid)
      modifies refCount, env, dicTable
      ensures Valid() && env[..] == old(env[..])[eid := NoEnv]
      ensures OneHolderLess(old(refCount[..]), refCount[..], old(env[eid].file))
      ensures old(Tidy()) ==> Tidy()
      ensures forall d :: 0 <= d < dicTable.Length ==>
                dicTable[d] == if d in old(env[eid].jisho) then Dic(-1, -1) else old(dicTable[d])
    {
      hide ListedOnce, AllListedOk, FilesOk, EnvOk;
      ghost var envs, dics := env[..], dicTable[..];
      DelAllDicInEnv(eid);
      assert env[..] == envs[eid := envs[eid].(jisho := [])];
      EnvGone(dics, dicTable[..], fileType[..], envs, refCount.Length, eid);
      HeldInRange(refCount[..], envs, |dics|, eid);
      ghost var envs1 := env[..];
      SameFiles(refCount[..], envs, |dics|, eid, env[eid]);
      DelAllFileInEnv(eid);
      env[eid] := NoEnv;
      assert env[..] == envs1[eid := NoEnv] == envs[eid := NoEnv];
    }

    method DelAllDicInEnv(eid: nat)
      requires Valid() && IsEnv(eid)
      modifies env, dicTable
      ensures IsEnv(eid) && env[..] == old(env[..])[eid := old(env[eid]).(jisho := [])]
      ensures forall d :: 0 <= d < dicTable.Length ==>
                dicTable[d] == if d in old(env[eid].jisho) then Dic(-1, -1) else old(dicTable[d])
    {
      hide ListedOnce, AllListedOk;
      var jisho := env[eid].jisho;
      assert EnvOk(env[..][eid], refCount.Length, dicTable.Length);
      var i := 0;
      while i < |jisho|
        invariant 0 <= i <= |jisho| && env[..] == old(env[..])
        invariant forall d :: 0 <= d < dicTable.Length ==>
                    dicTable[d] == if d in jisho[..i] then Dic(-1, -1) else old(dicTable[d])
      {
        dicTable[jisho[i]] := Dic(-1, -1);
        assert jisho[..i + 1] == jisho[..i] + [jisho[i]];
        i := i + 1;
      }
      assert jisho[..i] == jisho;
      env[eid] := env[eid].(jisho := []);
    }

    /** Every file loses this holder; a file without another one is unloaded. */
    method DelAllFileInEnv(eid: nat)
      requires IsEnv(eid) && FilesOk(refCount[..], env[..], dicTable.Length)
      modifies refCount
      ensures FilesOk(refCount[..], env[..][eid := NoEnv], dicTable.Length)
      ensures OneHolderLess(old(refCount[..]), refCount[..], old(env[eid].file))
      ensures old(Tidy()) ==> Tidy()
    {
      hide FilesOk, EnvOk;
      var file := env[eid].file;
      ghost var envs, n := env[..], dicTable.Length;
      ghost var left := envs[eid];     // the environment with what it still holds
      assert envs[eid := left] == envs;
      HeldInRange(refCount[..], envs, n, eid);
      var i := 0;
      while i < |file|
        invariant left.Env? && 0 <= i <= |file| == |left.file| && env[..] == envs
        invariant forall j :: 0 <= j < |file| ==> left.file[j] == if j < i then -1 else file[j]
        invariant FilesOk(refCount[..], envs[eid := left], n)
        invariant OneHolderLess(old(refCount[..]), refCount[..], file[..i])
        invariant old(Tidy()) ==> Tidy()
      {
        var fid := file[i];
        assert file[..i + 1] == file[..i] + [fid];
        if fid != -1 {
          NotYetGivenUp(envs[eid], refCount.Length, n, i);
          ghost var counts := refCount[..];
          ghost var before := envs[eid := left];
          FileGivenUp(counts, before, n, eid, i, fid);
          left := left.(file := left.file[i := -1]);
          assert envs[eid := left] == before[eid := left];
          refCount[fid] := refCount[fid] - 1;
          assert refCount[..] == counts[fid := counts[fid] - 1];
          if refCount[fid] == 0 {
            LastHolderGone(refCount[..], envs[eid := left], n, fid);
            ghost var counts1 := refCount[..];
            refCount[fid] := -1;
            assert refCount[..] == counts1[fid := -1];
          }
        }
        i := i + 1;
      }
      assert file[..i] == file;
      NothingHeld(refCount[..], envs[eid := left], n, eid);
      assert envs[eid := left][eid := NoEnv] == envs[eid := NoEnv];
    }
  }

  /** Every file of the list has one holder less, and is unloaded when that was the last; the other
      counts are as they were. */
  ghost predicate OneHolderLess(counts: seq<int>, counts1: seq<int>, file: seq<int>) {
    && |counts1| == |counts|
    && forall f :: 0 <= f < |counts| ==> counts1[f] == if f !in file then counts[f] else if counts[f] == 1 then -1 else counts[f] - 1
  }

  lemma NotYetGivenUp(env: Env, nfiles: nat, ndics: nat, i: nat)
    requires env.Env? && EnvOk(env, nfiles, ndics) && i < |env.file| && env.file[i] != -1
    ensures env.file[i] !in env.file[..i] && 1 <= env.file[i] < nfiles
  {
    forall j | 0 <= j < i ensures env.file[..i][j] != env.file[i] { }
  }

  /** Slot i is the first free one. */
  ghost predicate FirstFree(file: seq<int>, i: int) {
    0 <= i < |file| && file[i] == -1 && forall j :: 0 <= j < i ==> file[j] != -1
  }

  lemma NobodyHolds(envs: seq<Env>)
    requires forall e :: 0 <= e < |envs| ==> envs[e].NoEnv?
    ensures forall f :: Holders(envs, f) == 0
  {
    forall f ensures Holders(envs, f) == 0 { NoHolder(envs, f); }
  }

  lemma {:induction false} NoHolder(envs: seq<Env>, f: int)
    requires forall e :: 0 <= e < |envs| ==> !HasFile(envs[e], f)
    ensures Holders(envs, f) == 0
  {
    if envs != [] { NoHolder(envs[..|envs| - 1], f); }
  }

  lemma NotHeld(envs: seq<Env>, e: nat, f: int)
    requires e < |envs| && Holders(envs, f) == 0
    ensures !HasFile(envs[e], f)
  {
    if HasFile(envs[e], f) { HolderCounts(envs, e, f); }
  }

  lemma EnvOpened(refCount: seq<int>, dics: seq<Dic>, types: seq<FileType>, envs: seq<Env>, e: nat, env1: Env)
    requires FilesOk(refCount, envs, |dics|) && DicsOk(dics, types, envs, |refCount|) && e < |envs| && envs[e].NoEnv?
    requires env1.Env? && env1.jisho == [] && env1.fzkFid == -1 && |env1.file| == WNN_MAX_FILE_OF_AN_ENV
    requires forall i :: 0 <= i < |env1.file| ==> env1.file[i] == -1
    ensures FilesOk(refCount, envs[e := env1], |dics|) && DicsOk(dics, types, envs[e := env1], |refCount|)
  {
    var envs1 := envs[e := env1];
    forall f | 1 <= f < |refCount| ensures CountOk(refCount[f], Holders(envs1, f)) {
      HoldersUpdate(envs, e, env1, f);
    }
    forall e1, i, d ensures Lists(envs1, e1, i, d) <==> Lists(envs, e1, i, d) { }
    hide Lists;
    SameOnce(dics, dics, envs, envs1);
  }

  /** An environment with one file more lists what it listed. */
  lemma FileTakenIn(dics: seq<Dic>, types: seq<FileType>, envs: seq<Env>, nfiles: nat, e: nat, env1: Env)
    requires DicsOk(dics, types, envs, nfiles) && e < |envs| && envs[e].Env? && env1.Env? && EnvOk(env1, nfiles, |dics|)
    requires env1.jisho == envs[e].jisho && env1.fzkFid == envs[e].fzkFid
    requires forall f :: f != -1 && f in envs[e].file ==> f in env1.file
    ensures DicsOk(dics, types, envs[e := env1], nfiles)
  {
    hide ListedOnce;
    assert ListedOk(envs[e], dics, types);
    ListsMoreFiles(dics, types, envs, nfiles, e, env1);
  }

  lemma Loaded(refCount: seq<int>, envs: seq<Env>, dics: seq<Dic>, types: seq<FileType>, fid: nat, t: FileType)
    requires FilesOk(refCount, envs, |dics|) && DicsOk(dics, types, envs, |refCount|) && |types| == |refCount|
    requires 1 <= fid < |refCount| && refCount[fid] == -1
    ensures Holders(envs, fid) == 0
    ensures FilesOk(refCount[fid := 0], envs, |dics|) && DicsOk(dics, types[fid := t], envs, |refCount|)
  {
    assert CountOk(refCount[fid], Holders(envs, fid));
    TypesOfHeldFiles(dics, types, envs, |refCount|, fid, t);
  }

  lemma StillTidy(counts: seq<int>, counts1: seq<int>, fid: nat)
    requires 1 <= fid < |counts| && (counts1 == counts || (counts[fid] != -1 && counts1 == counts[fid := counts[fid] + 1]))
    requires forall f :: 1 <= f < |counts| ==> counts[f] != 0
    ensures forall f :: 1 <= f < |counts1| ==> counts1[f] != 0
  {
  }

  lemma StillTidyAfter(counts: seq<int>, counts1: seq<int>, fid: nat)
    requires 1 <= fid < |counts| && counts1 == counts[fid := 0][fid := 1]
    requires forall f :: 1 <= f < |counts| ==> counts[f] != 0
    ensures forall f :: 1 <= f < |counts1| ==> counts1[f] != 0
  {
  }

  lemma HeldInRange(refCount: seq<int>, envs: seq<Env>, ndics: nat, e: nat)
    requires FilesOk(refCount, envs, ndics) && e < |envs| && envs[e].Env?
    ensures forall i :: 0 <= i < |envs[e].file| ==> envs[e].file[i] == -1 || 1 <= envs[e].file[i] < |refCount|
    ensures EnvOk(envs[e], |refCount|, ndics)
  {
  }

  /** The counts do not depend on what an environment lists. */
  lemma SameFiles(refCount: seq<int>, envs: seq<Env>, ndics: nat, e: nat, env1: Env)
    requires FilesOk(refCount, envs, ndics) && e < |envs| && envs[e].Env? && env1.Env? && env1.file == envs[e].file
    requires EnvOk(envs[e], |refCount|, ndics) ==> EnvOk(env1, |refCount|, ndics)
    ensures FilesOk(refCount, envs[e := env1], ndics) && EnvOk(env1, |refCount|, ndics)
  {
    hide EnvOk;
    var envs1 := envs[e := env1];
    forall f | 1 <= f < |refCount| ensures CountOk(refCount[f], Holders(envs1, f)) {
      HoldersUpdate(envs, e, env1, f);
      assert CountOk(refCount[f], Holders(envs, f));
    }
  }

  lemma EntryInEnv(env: Env, nfiles: nat, ndics: nat, d: nat, refCount: seq<int>, envs: seq<Env>, e: nat)
    requires FilesOk(refCount, envs, ndics) && e < |envs| && envs[e] == env && env.Env? && d < ndics && |refCount| == nfiles
    requires |env.jisho| < WNN_MAX_JISHO_OF_AN_ENV
    ensures FilesOk(refCount, envs[e := env.(jisho := env.jisho + [d])], ndics)
  {
    SameFiles(refCount, envs, ndics, e, env.(jisho := env.jisho + [d]));
  }

  lemma OneSlotFreed(env: Env, nfiles: nat, ndics: nat, i: nat, fid: int)
    requires EnvOk(env, nfiles, ndics) && env.Env? && i < |env.file| && env.file[i] == fid
    ensures forall f :: f != -1 ==> (f in env.file[i := -1] <==> f in env.file && f != fid)
  {
    SlotFreed(env.file, i, fid);
  }

  lemma DicInRange(env: Env, nfiles: nat, ndics: nat, off: nat)
    requires EnvOk(env, nfiles, ndics) && env.Env? && off < |env.jisho|
    ensures env.jisho[off] < ndics
  {
  }

  lemma DicsInRange(env: Env, nfiles: nat, ndics: nat)
    requires EnvOk(env, nfiles, ndics) && env.Env?
    ensures forall i :: 0 <= i < |env.jisho| ==> env.jisho[i] < ndics
  {
  }

  /** Do two of the environment's entries use the file as their frequency file? */
  ghost predicate UsedTwice(env: Env, dics: seq<Dic>, fid: int) {
    env.Env? && exists i, j :: 0 <= i < j < |env.jisho| && Uses(env, dics, i, fid) && Uses(env, dics, j, fid)
  }

  ghost predicate Uses(env: Env, dics: seq<Dic>, i: int, fid: int) {
    env.Env? && 0 <= i < |env.jisho| && env.jisho[i] < |dics| && dics[env.jisho[i]].hindo == fid
  }

  lemma EntryLeaves(dics: seq<Dic>, types: seq<FileType>, envs: seq<Env>, nfiles: nat, e: nat, k: nat, env1: Env)
    requires DicsOk(dics, types, envs, nfiles) && e < |envs| && envs[e].Env? && k < |envs[e].jisho| && envs[e].jisho[k] < |dics|
    requires env1 == envs[e].(jisho := Removed(envs[e].jisho, k))
    ensures DicsOk(dics[envs[e].jisho[k] := Dic(-1, -1)], types, envs[e := env1], nfiles) && EnvOk(env1, nfiles, |dics|)
    ensures envs[e].jisho[k] !in env1.jisho
  {
    hide ListedOnce;
    assert EnvOk(envs[e], nfiles, |dics|) && ListedOk(envs[e], dics, types);
    NotListedAgain(dics, envs, e);
    EntryGone(dics, types, envs, nfiles, e, k, env1);
  }

  lemma NotListedAgain(dics: seq<Dic>, envs: seq<Env>, e: nat)
    requires ListedOnce(dics, envs) && e < |envs| && envs[e].Env?
    ensures forall i, j :: 0 <= i < j < |envs[e].jisho| ==> envs[e].jisho[i] != envs[e].jisho[j]
  {
    forall i, j | 0 <= i < j < |envs[e].jisho| ensures envs[e].jisho[i] != envs[e].jisho[j] {
      assert Lists(envs, e, i, envs[e].jisho[i]) && Lists(envs, e, j, envs[e].jisho[j]);
    }
  }

  ghost predicate UsesFile(d: Dic, fid: int) {
    d.body == fid || d.hindo == fid
  }

  /** The first use of the file is gone: the file of attached words, or else the first entry, the k-th,
      which also leaves the list; k is -1 when no entry goes. */
  ghost predicate EntryDropped(env: Env, dics: seq<Dic>, fid: int, k: int, env1: Env, dics1: seq<Dic>) {
    && env.Env? && env1.Env? && -1 <= k < |env.jisho| && (forall i :: 0 <= i < |env.jisho| ==> env.jisho[i] < |dics|)
    && if k == -1 then
         && dics1 == dics && env1 == env.(file := env1.file, fzkFid := if env.fzkFid == fid then -1 else env.fzkFid)
         && (env.fzkFid == fid || forall i :: 0 <= i < |env.jisho| ==> !UsesFile(dics[env.jisho[i]], fid))
       else
         && dics1 == dics[env.jisho[k] := Dic(-1, -1)] && env1 == env.(file := env1.file, jisho := Removed(env.jisho, k))
         && env.fzkFid != fid && UsesFile(dics[env.jisho[k]], fid)
         && forall i :: 0 <= i < k ==> !UsesFile(dics[env.jisho[i]], fid)
  }

  /** The dictionary entries after a file was discarded. */
  lemma Discarded(dics: seq<Dic>, types: seq<FileType>, envs: seq<Env>, nfiles: nat, e: nat, i: nat, fid: int, k: int, env1: Env, dics1: seq<Dic>)
    requires DicsOk(dics, types, envs, nfiles) && e < |envs| && envs[e].Env? && i < |envs[e].file| && envs[e].file[i] == fid != -1
    requires EntryDropped(envs[e], dics, fid, k, env1, dics1) && env1.file == envs[e].file[i := -1]
    ensures EnvOk(env1, nfiles, |dics|)
    ensures DicsOk(dics1, types, envs[e := env1], nfiles) <==> !UsedTwice(envs[e], dics, fid)
  {
    hide ListedOnce;
    assert EnvOk(envs[e], nfiles, |dics|) && ListedOk(envs[e], dics, types);
    SlotFreed(envs[e].file, i, fid);
    if k == -1 {
      UnusedListed(envs[e], dics, types, fid, env1);
      ListsMoreFiles(dics, types, envs, nfiles, e, env1);
    } else {
      NotListedAgain(dics, envs, e);
      DiscardedListed(envs[e], dics, types, nfiles, fid, k, env1);
      EntryGone(dics, types, envs, nfiles, e, k, env1);
      UsedByOthers(envs[e], dics, types, fid, k);
    }
  }

  lemma UsedByOthers(env: Env, dics: seq<Dic>, types: seq<FileType>, fid: int, k: nat)
    requires ListedOk(env, dics, types) && k < |env.jisho|
    requires dics[env.jisho[k]].body == fid || dics[env.jisho[k]].hindo == fid
    ensures UsedTwice(env, dics, fid) <==> exists i :: 0 <= i < |env.jisho| && i != k && dics[env.jisho[i]].hindo == fid
  {
    if i :| 0 <= i < |env.jisho| && i != k && dics[env.jisho[i]].hindo == fid {
      assert Uses(env, dics, i, fid) && Uses(env, dics, k, fid);
    }
  }

  lemma LastHolderGone(counts: seq<int>, envs: seq<Env>, ndics: nat, fid: nat)
    requires FilesOk(counts, envs, ndics) && 1 <= fid < |counts| && counts[fid] == 0
    ensures FilesOk(counts[fid := -1], envs, ndics)
  {
    assert CountOk(counts[fid], Holders(envs, fid));
  }

  lemma NothingHeld(refCount: seq<int>, envs: seq<Env>, ndics: nat, e: nat)
    requires FilesOk(refCount, envs, ndics) && e < |envs| && envs[e].Env?
    requires forall i :: 0 <= i < |envs[e].file| ==> envs[e].file[i] == -1
    ensures FilesOk(refCount, envs[e := NoEnv], ndics)
  {
    var envs1 := envs[e := NoEnv];
    forall f | 1 <= f < |refCount| ensures CountOk(refCount[f], Holders(envs1, f)) {
      HoldersUpdate(envs, e, NoEnv, f);
      assert CountOk(refCount[f], Holders(envs, f));
    }
  }

  /** An environment leaves with all that it lists. */
  lemma EnvGone(dics: seq<Dic>, dics1: seq<Dic>, types: seq<FileType>, envs: seq<Env>, nfiles: nat, e: nat)
    requires DicsOk(dics, types, envs, nfiles) && e < |envs| && envs[e].Env? && |dics1| == |dics|
    requires forall d :: 0 <= d < |dics| ==> dics1[d] == if d in envs[e].jisho then Dic(-1, -1) else dics[d]
    ensures DicsOk(dics1, types, envs[e := NoEnv], nfiles)
    ensures EnvOk(envs[e].(jisho := []), nfiles, |dics|)
  {
    hide ListedOnce;
    var envs1 := envs[e := NoEnv];
    assert EnvOk(envs[e], nfiles, |dics|) && ListedOk(envs[e], dics, types);
    forall e1 | 0 <= e1 < |envs| && e1 != e && envs[e1].Env? ensures EnvOk(envs[e1], nfiles, |dics|) && ListedOk(envs[e1], dics1, types) {
      assert EnvOk(envs[e1], nfiles, |dics|) && ListedOk(envs[e1], dics, types);
      Elsewhere(dics, envs, e, e1);
    }
    EnvGoneOnce(dics, dics1, envs, e);
  }

  lemma Elsewhere(dics: seq<Dic>, envs: seq<Env>, e: nat, e1: nat)
    requires ListedOnce(dics, envs) && e < |envs| && envs[e].Env? && e1 < |envs| && e1 != e && envs[e1].Env?
    ensures forall i :: 0 <= i < |envs[e1].jisho| ==> envs[e1].jisho[i] !in envs[e].jisho
  {
    forall i, j | 0 <= i < |envs[e1].jisho| && 0 <= j < |envs[e].jisho| ensures envs[e1].jisho[i] != envs[e].jisho[j] {
      assert Lists(envs, e1, i, envs[e1].jisho[i]) && Lists(envs, e, j, envs[e].jisho[j]);
    }
  }

  lemma EnvGoneOnce(dics: seq<Dic>, dics1: seq<Dic>, envs: seq<Env>, e: nat)
    requires ListedOnce(dics, envs) && e < |envs| && envs[e].Env? && |dics1| == |dics|
    requires forall d :: 0 <= d < |dics| ==> dics1[d] == if d in envs[e].jisho then Dic(-1, -1) else dics[d]
    ensures ListedOnce(dics1, envs[e := NoEnv])
  {
    var envs1 := envs[e := NoEnv];
    forall e1, i, d ensures Lists(envs1, e1, i, d) <==> Lists(envs, e1, i, d) && e1 != e { }
    forall d | 0 <= d < |dics1| && dics1[d].body != -1 ensures exists e1, i :: Lists(envs1, e1, i, d) {
      var e1, i :| Lists(envs, e1, i, d);
      assert Lists(envs1, e1, i, d);
    }
  }

  /** Two dictionaries of one environment share a frequency file. When that is discarded, only one of
      the two is deleted; the other stays listed with a file that is no longer loaded. */
  method SharedFrequencyFile() returns (s: Server, d: nat, h: nat)
    ensures !s.Valid() && s.IsEnv(0) && s.env[0].jisho == [d] && h !in s.env[0].file
    ensures d < s.dicTable.Length && s.dicTable[d] == Dic(2, h) && h < s.refCount.Length && s.refCount[h] == -1
  {
    hide FilesOk, DicsOk;
    s := new Server(4, 2, 1);
    s.NewEnv(0);
    s.ReadFresh(0, DictFile);
    s.ReadFresh(1, DictFile);
    s.ReadFresh(2, HindoFile);
    assert s.env[0].file[0] == 1 && s.env[0].file[1] == 2 && s.env[0].file[2] == 3;
    h := 3;
    d := s.DiscardShared(1, 2, h);
  }

  /** An environment that has read as many files as it has slots reads another one. The file stays
      loaded, and nobody holds it. */
  method FileWithoutHolder() returns (s: Server, f: int)
    ensures s.Valid() && 1 <= f < s.refCount.Length && s.refCount[f] == 0
    ensures s.env.Length == 1 && s.IsEnv(0) && f !in s.env[0].file && -1 !in s.env[0].file
  {
    hide FilesOk, DicsOk;
    s := new Server(WNN_MAX_FILE_OF_AN_ENV + 2, 0, 1);
    s.NewEnv(0);
    var k := 0;
    while k < WNN_MAX_FILE_OF_AN_ENV
      invariant 0 <= k <= WNN_MAX_FILE_OF_AN_ENV && s.Valid() && s.Tidy() && s.HasRead(k)
      modifies s.refCount, s.fileType, s.env
    {
      s.ReadFresh(k, OtherFile);
      k := k + 1;
    }
    assert s.refCount[k + 1] == -1;
    f := s.FileRead(0, -1, true, OtherFile);
  }
}
