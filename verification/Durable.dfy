/**
 Writing one file of a directory so that it is there whole or not at all: through a temporary file that
 is flushed before it is renamed, or by exclusive creation.  Every call may fail or be cut by a crash.
 */
module Durable {
  import opened Environments
  import opened Names

  type Bytes = seq<bv8>

  datatype File = File(bytes: Bytes, synced: bool)

  type Files = map<Name, File>

  const RENAME_ATTEMPTS: nat := 100

  /**
   What a power failure may make of a directory.  Nothing flushes the directory itself, so it may come back
   as any of its past versions; what had been flushed by then is whole, the rest may be torn or missing.
   */
  ghost predicate AfterPowerLoss(past: seq<Files>, g: Files) {
    exists i :: 0 <= i < |past| && LeavesOf(past[i], g)
  }

  ghost predicate LeavesOf(f: Files, g: Files) {
    && (forall n | n in g :: n in f)
    && (forall n | n in f && f[n].synced :: n in g && g[n].bytes == f[n].bytes)
  }

  ghost predicate SameFile(f: Files, g: Files, n: Name) {
    (n in f <==> n in g) && (n in f ==> f[n] == g[n])
  }

  /** The file is as before, or holds the new data and has been flushed. */
  ghost predicate OldOrNew(before: Files, after: Files, path: Name, data: Bytes) {
    SameFile(before, after, path) || (path in after && after[path] == File(data, true))
  }

  /** Nothing else in the directory is touched but the temporary file. */
  ghost predicate OnlyThese(before: Files, after: Files, path: Name, temporary: Name) {
    forall n | n != path && n != temporary :: SameFile(before, after, n)
  }

  /** Every version of the directory from k on has the old file or the new one, and nothing else touched. */
  ghost predicate AllOldOrNew(past: seq<Files>, k: nat, before: Files, path: Name, temporary: Name, data: Bytes) {
    forall i | k <= i < |past| :: OldOrNew(before, past[i], path, data) && OnlyThese(before, past[i], path, temporary)
  }

  /** The directory as the rename, and the removal of the temporary file, may leave it. */
  lemma Renaming(before: Files, now: Files, path: Name, temporary: Name, data: Bytes)
    requires temporary !in before && path != temporary
    requires forall n | n != path && n != temporary :: SameFile(before, now, n)
    requires SameFile(before, now, path) || (path in now && now[path] == File(data, true))
    ensures OldOrNew(before, now, path, data) && OnlyThese(before, now, path, temporary)
  {
  }

  lemma NoVersion(before: Files, past: seq<Files>, path: Name, temporary: Name, data: Bytes)
    ensures AllOldOrNew(past, |past|, before, path, temporary, data)
  {
  }

  lemma OneMoreVersion(before: Files, past: seq<Files>, more: seq<Files>, k: nat, path: Name, temporary: Name, data: Bytes)
    requires AllOldOrNew(past, k, before, path, temporary, data) && |more| == |past| + 1 && more[..|past|] == past
    requires OldOrNew(before, more[|past|], path, data) && OnlyThese(before, more[|past|], path, temporary)
    ensures AllOldOrNew(more, k, before, path, temporary, data)
  {
    forall i | k <= i < |past| ensures more[i] == past[i] {
      assert more[i] == more[..|past|][i];
    }
  }

  /** Work on the temporary file alone. */
  lemma TemporaryOnly(before: Files, now: Files, past: seq<Files>, more: seq<Files>, k: nat, path: Name, temporary: Name, data: Bytes)
    requires AllOldOrNew(past, k, before, path, temporary, data) && past <= more && path != temporary
    requires forall n | n != temporary :: SameFile(before, now, n)
    requires forall i, n | |past| <= i < |more| && n != temporary :: SameFile(now, more[i], n)
    ensures AllOldOrNew(more, k, before, path, temporary, data)
  {
    forall i | k <= i < |more| ensures OldOrNew(before, more[i], path, data) && OnlyThese(before, more[i], path, temporary) {
      if i < |past| {
        assert more[i] == past[i];
      } else {
        forall n | n != temporary ensures SameFile(before, more[i], n) {
          assert SameFile(before, now, n) && SameFile(now, more[i], n);
        }
      }
    }
  }

  /**
   Old or new survives a power failure, at whatever step it strikes and whichever renames it takes back:
   every file that the directory may come back with was flushed before it got the name.
   */
  lemma OldOrNewSurvives(before: Files, past: seq<Files>, k: nat, lost: Files, path: Name, temporary: Name, data: Bytes)
    requires k < |past| && AllOldOrNew(past, k, before, path, temporary, data) && AfterPowerLoss(past[k..], lost)
    requires path in before ==> before[path].synced
    ensures path in lost ==> lost[path].bytes == data || (path in before && lost[path].bytes == before[path].bytes)
    ensures path !in lost ==> path !in before
    ensures forall n | n != path && n != temporary && n in before && before[n].synced :: n in lost && lost[n].bytes == before[n].bytes
  {
    var i :| 0 <= i < |past[k..]| && LeavesOf(past[k..][i], lost);
    assert past[k..][i] == past[k + i];
    forall n | n != path && n != temporary && n in before && before[n].synced ensures n in lost && lost[n].bytes == before[n].bytes {
      assert SameFile(before, past[k + i], n);
    }
  }

  class Folder {
    var files: Files
    const env: Environment
    /** Every version of the directory so far, the present one last. */
    ghost var past: seq<Files>

    ghost predicate Valid()
      reads this
    {
      past != [] && past[|past| - 1] == files
    }

    constructor (files: Files, env: Environment)
      ensures Valid() && this.files == files && this.env == env && past == [files]
    {
      this.files, this.env, past := files, env, [files];
    }

    /** One step that may fail or be cut; a failing call has no effect. */
    method Put(n: Name, file: File) returns (ok: bool)
      modifies `files, `past, env
      ensures files == old(files) || files == old(files)[n := file]
      ensures ok ==> files == old(files)[n := file] && !env.crashed
      ensures old(env.crashed) ==> env.crashed && files == old(files)
      ensures old(env.Calm()) ==> ok && env.Calm()
      ensures past == old(past) + [files]
    {
      var o := env.Next();
      if o.Landed() {
        files := files[n := file];
      }
      past := past + [files];
      ok := o.Done?;
    }

    method Remove(n: Name) returns (ok: bool)
      modifies `files, `past, env
      ensures files == old(files) || files == old(files) - {n}
      ensures ok ==> n in old(files) && files == old(files) - {n} && !env.crashed
      ensures old(env.crashed) ==> env.crashed && files == old(files)
      ensures old(env.Calm()) ==> env.Calm() && ok == (n in old(files))
      ensures past == old(past) + [files]
    {
      ok := false;
      if n in files {
        var o := env.Next();
        if o.Landed() {
          files := files - {n};
        }
        ok := o.Done?;
      }
      past := past + [files];
    }

    /** Writes data into a file that holds nothing yet; a failing write leaves some beginning of it. */
    method Fill(n: Name, data: Bytes) returns (ok: bool)
      requires n in files && files[n] == File([], false)
      modifies `files, `past, env
      ensures exists k: nat :: k <= |data| && files == old(files)[n := File(data[..k], false)]
      ensures ok ==> files == old(files)[n := File(data, false)] && !env.crashed
      ensures old(env.crashed) ==> env.crashed
      ensures old(env.Calm()) ==> ok && env.Calm()
      ensures past == old(past) + [files]
    {
      var dead := env.crashed;
      var o := env.Next();
      ok := o.Done?;
      var k: nat :| k <= |data|;
      k := if o.Landed() then |data| else if dead then 0 else k;
      assert data[..|data|] == data;
      files := files[n := File(data[..k], false)];
      past := past + [files];
    }

    /** `Rename`: tries again, 100 times at most. */
    method Rename(a: Name, b: Name) returns (ok: bool)
      requires a in files && a != b
      modifies `files, `past, env
      ensures files == old(files) || files == (old(files) - {a})[b := old(files)[a]]
      ensures ok ==> files == (old(files) - {a})[b := old(files)[a]] && !env.crashed
      ensures !ok && !env.crashed ==> files == old(files)
      ensures old(env.crashed) ==> env.crashed && files == old(files)
      ensures old(env.Calm()) ==> ok && env.Calm()
      // it gives up only after a hundred failures
      ensures !ok && !env.crashed ==>
                forall i | 0 <= i < 100 :: old(env.Ahead(i)) in {Failed, FailedAfter}
      ensures past == old(past) + [files]
    {
      ok := false;
      for i := 0 to RENAME_ATTEMPTS
        invariant !ok && files == old(files) && past == old(past)
        invariant !env.crashed || old(env.crashed)
        invariant old(env.crashed) ==> env.crashed
        invariant i > 0 ==> !old(env.crashed)
        invariant !env.crashed ==> env.plan == old(env.plan) && env.drawn == old(env.drawn) + i
        invariant forall k | 0 <= k < i :: old(env.Ahead(k)) in {Failed, FailedAfter}
        invariant old(env.Calm()) ==> env.Calm() && i == 0
      {
        var o := env.Next();
        if o.Landed() {
          files := (files - {a})[b := files[a]];
        }
        if o.Done? || env.crashed {
          ok := o.Done?;
          break;
        }
      }
      past := past + [files];
    }

    /**
     `WriteDurable`.  At every crash point and after every error the file is the old one or the new one,
     flushed; OK means that it is the new one and the temporary file is gone.
     */
    method WriteDurable(path: Name, data: Bytes, temporary: Name) returns (ok: bool)
      requires temporary !in files && temporary != path
      modifies `files, `past, env
      ensures OldOrNew(old(files), files, path, data) && OnlyThese(old(files), files, path, temporary)
      // the same of every version of the directory on the way, so a power failure at any time leaves old or new
      ensures old(past) <= past && AllOldOrNew(past, |old(past)|, old(files), path, temporary, data)
      ensures old(Valid()) ==> Valid()
      ensures ok ==> files == old(files)[path := File(data, true)] && !env.crashed
      ensures !ok && !env.crashed && path in files && !SameFile(old(files), files, path) ==> temporary !in files
      ensures old(env.Calm()) ==> ok && env.Calm()
    {
      hide AllOldOrNew, OldOrNew, OnlyThese;
      ghost var k := |past|;
      NoVersion(old(files), past, path, temporary, data);
      ok := Prepare(temporary, data);
      TemporaryOnly(old(files), old(files), old(past), past, k, path, temporary, data);
      if temporary !in files {
        return;
      }
      ghost var written := past;
      if ok {
        ok := Rename(temporary, path);
        Renaming(old(files), files, path, temporary, data);
        OneMoreVersion(old(files), written, past, k, path, temporary, data);
      }
      if ok {
        var o := env.Next();
        ok := o.Done? && files[path].bytes == data;
      }
      written := past;
      if !ok {
        var _ := Remove(temporary);
        Renaming(old(files), files, path, temporary, data);
        OneMoreVersion(old(files), written, past, k, path, temporary, data);
      }
    }

    /** The temporary file: created, given its mode, filled and flushed. */
    method Prepare(temporary: Name, data: Bytes) returns (ok: bool)
      requires temporary !in files
      modifies `files, `past, env
      ensures files == old(files) || (temporary in files && files == old(files)[temporary := files[temporary]])
      ensures ok ==> files == old(files)[temporary := File(data, true)] && !env.crashed
      ensures old(past) <= past && past != old(past) && past[|past| - 1] == files
      ensures forall i, other | |old(past)| <= i < |past| && other != temporary :: SameFile(old(files), past[i], other)
      ensures old(env.crashed) ==> env.crashed
      ensures old(env.Calm()) ==> ok && env.Calm()
    {
      ok := Put(temporary, File([], false));
      if !ok {
        return;
      }
      var o := env.Next();
      ok := o.Done?;
      if ok {
        ghost var made, created := past, files;
        ok := Flush(temporary, data);
        forall i, other | |old(past)| <= i < |past| && other != temporary ensures SameFile(old(files), past[i], other) {
          assert if i < |made| then past[i] == made[i] else SameFile(created, past[i], other);
        }
      }
    }

    /** The middle of both writes: contents, flush and close. */
    method Flush(n: Name, data: Bytes) returns (ok: bool)
      requires n in files && files[n] == File([], false)
      modifies `files, `past, env
      ensures n in files && files[n].bytes <= data && files == old(files)[n := files[n]]
      ensures old(past) <= past && past != old(past) && past[|past| - 1] == files
      ensures forall i, other | |old(past)| <= i < |past| && other != n :: SameFile(old(files), past[i], other)
      ensures ok ==> files == old(files)[n := File(data, true)] && !env.crashed
      ensures old(env.crashed) ==> env.crashed
      ensures old(env.Calm()) ==> ok && env.Calm()
    {
      ok := Fill(n, data);
      if !ok {
        return;
      }
      ok := Put(n, File(data, true));
      if !ok {
        return;
      }
      var o := env.Next();
      ok := o.Done?;
    }

    /**
     `WriteExclusiveDurable`.  An existing file is never replaced; a file left by a crash or a failing
     cleanup holds a beginning of the data.
     */
    method WriteExclusiveDurable(path: Name, data: Bytes) returns (ok: bool)
      modifies `files, `past, env
      ensures path in old(files) ==> !ok && files == old(files)
      ensures old(Valid()) ==> Valid()
      ensures forall n | n != path :: SameFile(old(files), files, n)
      ensures path in files && path !in old(files) ==> files[path].bytes <= data
      ensures ok ==> files == old(files)[path := File(data, true)] && !env.crashed
      ensures old(env.Calm()) ==> env.Calm() && ok == (path !in old(files))
    {
      if path in files {
        return false;
      }
      ok := Put(path, File([], false));
      if !ok {
        return;
      }
      ok := Flush(path, data);
      if ok {
        var o := env.Next();
        ok := o.Done? && files[path].bytes == data;
      }
      if !ok {
        var _ := Remove(path);
      }
    }
  }
}
