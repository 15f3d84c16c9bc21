/**
 The broker's store of parents: one directory a key with the disk image, its metadata and the COMPLETE
 marker, and one pending directory a key.  Commit moves the image over, writes metadata and then
 COMPLETE, and rolls back on a fault; only the last step makes the parent resolvable.
 */
module StoreParents {
  import opened Wrappers
  import opened Environments
  import opened Names

  type Key = Name
  type Id = Name

  const PARENT_SCHEMA: int := 2

  /** A disk image: what it holds, the bytes it takes on disk and whether it is write-protected. */
  datatype Image = Image(contents: Name, bytes: nat, sealed: bool)

  datatype Metadata = Metadata(
    schema: int, provider: Name, key: Key, token: Name, lastUsed: int, imageOf: Key, bytes: int, immutable: bool)

  /** The COMPLETE file: missing, cut short, or with the right contents. */
  datatype Complete = NoMarker | Torn | Whole

  /** A parent directory; metadata that cannot be read is None. */
  datatype ParentDir = ParentDir(image: Option<Image>, metadata: Option<Metadata>, complete: Complete)

  const EMPTY_DIR: ParentDir := ParentDir(None, None, NoMarker)

  datatype Pending = Pending(transactionId: Id, token: Name, key: Key, updatedAt: int, clientPid: int)

  /** `pending.json`: missing, unreadable or a record. */
  datatype PendingFile = NoRecord | Unreadable | Record(pending: Pending)

  datatype PendingDir = PendingDir(record: PendingFile, staging: Option<Image>)

  datatype Disk = Disk(parents: map<Key, ParentDir>, pending: map<Key, PendingDir>)

  datatype Resolution = Missing | Corrupt | Valid(metadata: Metadata)

  /** `ResolveParent`. */
  function Resolve(provider: Name, parents: map<Key, ParentDir>, key: Key): Resolution {
    if key !in parents then Missing
    else
      var dir := parents[key];
      if dir.complete != Whole || dir.metadata.None? then Corrupt
      else
        var m := dir.metadata.value;
        if m.schema != PARENT_SCHEMA || m.provider != provider || m.key != key || !m.immutable || m.imageOf != key then Corrupt
        else if dir.image.None? then Corrupt
        else Valid(m)
  }

  /** A parent resolves when image, COMPLETE and metadata are there and the metadata are of this provider, key and schema. */
  lemma ResolvesExactly(provider: Name, parents: map<Key, ParentDir>, key: Key, m: Metadata)
    ensures Resolve(provider, parents, key) == Missing <==> key !in parents
    ensures Resolve(provider, parents, key) == Valid(m) <==>
              && key in parents && parents[key].image.Some? && parents[key].complete == Whole && parents[key].metadata == Some(m)
              && m.schema == 2 && m.provider == provider && m.key == key && m.imageOf == key && m.immutable
  {
  }

  /** `ReadPending`. */
  function ReadPending(pending: map<Key, PendingDir>, key: Key): Option<Pending> {
    if key in pending && pending[key].record.Record? && pending[key].record.pending.key == key
    then Some(pending[key].record.pending) else None
  }

  function WithParent(d: Disk, key: Key, dir: ParentDir): Disk {
    d.(parents := d.parents[key := dir])
  }

  function WithPending(d: Disk, key: Key, dir: PendingDir): Disk {
    d.(pending := d.pending[key := dir])
  }

  /** What the metadata of a committed parent says. */
  function Finished(provider: Name, m: Metadata, now: int): Metadata {
    m.(schema := PARENT_SCHEMA, provider := provider, imageOf := m.key, immutable := true, lastUsed := now)
  }

  /** A parent directory as a commit that came through leaves it. */
  function Committed(staged: Image, m: Metadata): ParentDir {
    ParentDir(Some(staged.(sealed := true)), Some(m), Whole)
  }

  function Touched(d: Disk, key: Key, now: int): Disk
    requires key in d.parents && d.parents[key].metadata.Some?
  {
    WithParent(d, key, d.parents[key].(metadata := Some(d.parents[key].metadata.value.(lastUsed := now))))
  }

  /** How a commit went: refused before anything lasting, failed at the rename, rolled back, or done. */
  datatype Commitment = Declined | Stranded | RolledBack(undone: bool) | Published(metadata: Metadata)

  datatype Opening = Conflict | Unopened | Begun(pending: Pending)

  /** The same image, whatever its write protection. */
  predicate SameImage(a: Option<Image>, b: Option<Image>) {
    a.Some? && b.Some? && a.value.contents == b.value.contents && a.value.bytes == b.value.bytes
  }

  /** Where a commit in progress has got to: the image is in the parent directory, the record still pending. */
  ghost predicate Underway(before: Disk, now: Disk, key: Key) {
    && key in before.pending && key !in before.parents
    && key in now.parents && SameImage(before.pending[key].staging, now.parents[key].image)
    && now == Disk(before.parents[key := now.parents[key]], before.pending[key := before.pending[key].(staging := None)])
  }

  /** As before the commit: no parent, and record and image pending. */
  ghost predicate BackAgain(before: Disk, now: Disk, key: Key) {
    && key in before.pending && key !in before.parents && key in now.pending
    && SameImage(before.pending[key].staging, now.pending[key].staging)
    && now == WithPending(before, key, before.pending[key].(staging := now.pending[key].staging))
  }

  /** A parent has come to resolve that was not there: the staged image with this metadata. */
  ghost predicate PublishedFrom(before: Disk, now: Disk, key: Key, m: Metadata) {
    && key in before.pending && key !in before.parents && key in now.parents
    && SameImage(before.pending[key].staging, now.parents[key].image)
    && now.parents[key].metadata == Some(m) && now.parents[key].complete == Whole
  }

  /** Nothing of another key differs. */
  ghost predicate OnlyKey(before: Disk, now: Disk, key: Key) {
    now.parents - {key} == before.parents - {key} && now.pending - {key} == before.pending - {key}
  }

  lemma UnderwayHas(before: Disk, now: Disk, key: Key)
    requires Underway(before, now, key)
    ensures key in now.parents && now.parents[key].image.Some? && key in now.pending
    ensures OnlyKey(before, now, key)
  {
  }

  lemma UnderwayStep(before: Disk, now: Disk, key: Key, dir: ParentDir)
    requires Underway(before, now, key) && SameImage(now.parents[key].image, dir.image)
    ensures Underway(before, WithParent(now, key, dir), key)
  {
    assert now.parents[key := dir] == before.parents[key := dir];
  }

  lemma BackAgainAfter(before: Disk, stripped: Disk, now: Disk, key: Key)
    requires Underway(before, stripped, key)
    requires now.parents == stripped.parents - {key}
    requires now.pending == stripped.pending[key := stripped.pending[key].(staging := stripped.parents[key].image)]
    ensures BackAgain(before, now, key)
  {
    assert now.parents == before.parents;
    assert now.pending == before.pending[key := before.pending[key].(staging := now.pending[key].staging)];
  }

  class Store {
    const provider: Name
    const env: Environment
    var disk: Disk

    constructor (provider: Name, env: Environment, disk: Disk)
      ensures this.provider == provider && this.env == env && this.disk == disk
    {
      this.provider, this.env, this.disk := provider, env, disk;
    }

    /** One call on the parent directory of a key; a failing call has no effect. */
    method SetParent(key: Key, dir: ParentDir) returns (ok: bool)
      modifies `disk, env`drawn, env`crashed
      ensures disk == old(disk) || disk == WithParent(old(disk), key, dir)
      ensures ok ==> disk == WithParent(old(disk), key, dir) && !env.crashed
      ensures !ok && !env.crashed ==> disk == old(disk)
      ensures old(env.crashed) ==> env.crashed && disk == old(disk)
      ensures old(env.Calm()) ==> ok && env.Calm()
      ensures old(env.OneFault()) ==> if ok then env.OneFault() else env.Calm()
    {
      var o := env.Next();
      if o.Landed() {
        disk := WithParent(disk, key, dir);
      }
      ok := o.Done?;
    }

    /** `writeJSONDurable` of metadata: old or new, and new even with an error when only the read-back fails. */
    method WriteMetadata(key: Key, m: Metadata) returns (ok: bool)
      requires key in disk.parents
      modifies `disk, env`drawn, env`crashed
      ensures disk == if old(env.Ahead(0)).Effective() then WithParent(old(disk), key, old(disk).parents[key].(metadata := Some(m))) else old(disk)
      ensures ok == old(env.Ahead(0)).Done? && (ok ==> !env.crashed)
      ensures env.crashed == (old(env.Ahead(0)) in {Crashed, CrashedAfter})
      ensures env.drawn == old(env.drawn) + if old(env.crashed) then 0 else 1
      ensures old(env.crashed) ==> env.crashed && disk == old(disk)
      ensures old(env.Calm()) ==> ok && env.Calm()
      ensures old(env.OneFault()) ==> if ok then env.OneFault() else env.Calm()
    {
      var o := env.Next();
      if o.Effective() {
        disk := WithParent(disk, key, disk.parents[key].(metadata := Some(m)));
      }
      ok := o.Done?;
    }

    /** `WriteExclusiveDurable` of COMPLETE: created, filled, flushed and read back; removed again after an error. */
    method WriteComplete(key: Key) returns (ok: bool)
      requires key in disk.parents
      modifies `disk, env`drawn, env`crashed
      ensures key in disk.parents && disk == WithParent(old(disk), key, old(disk).parents[key].(complete := disk.parents[key].complete))
      ensures ok ==> old(disk).parents[key].complete == NoMarker && disk.parents[key].complete == Whole && !env.crashed
      ensures old(env.crashed) ==> env.crashed && disk == old(disk)
      ensures old(env.Calm()) ==> env.Calm() && ok == (old(disk).parents[key].complete == NoMarker)
      ensures old(env.OneFault()) && old(disk).parents[key].complete == NoMarker ==> if ok then env.OneFault() else env.Calm()
    {
      var dir := disk.parents[key];
      assert disk.parents[key := dir] == disk.parents;
      if dir.complete != NoMarker {
        return false;
      }
      ok := SetParent(key, dir.(complete := Torn));
      if !ok {
        return;
      }
      ok := SetParent(key, dir.(complete := Whole));
      if ok {
        var o := env.Next();
        ok := o.Done?;
      }
      if !ok {
        var _ := SetParent(key, dir.(complete := NoMarker));
      }
    }

    method SetPending(key: Key, dir: PendingDir) returns (ok: bool)
      modifies `disk, env`drawn, env`crashed
      ensures disk == old(disk) || disk == WithPending(old(disk), key, dir)
      ensures ok ==> disk == WithPending(old(disk), key, dir) && !env.crashed
      ensures !ok && !env.crashed ==> disk == old(disk)
      ensures old(env.crashed) ==> env.crashed && disk == old(disk)
      ensures old(env.Calm()) ==> ok && env.Calm()
    {
      var o := env.Next();
      if o.Landed() {
        disk := WithPending(disk, key, dir);
      }
      ok := o.Done?;
    }

    /** `os.Remove` of an empty directory of the pending area. */
    method RemovePendingDir(key: Key) returns (ok: bool)
      modifies `disk, env`drawn, env`crashed
      ensures disk == old(disk) || (key in old(disk).pending && old(disk).pending[key] == PendingDir(NoRecord, None)
                                    && disk == old(disk).(pending := old(disk).pending - {key}))
      ensures ok ==> key in old(disk).pending && disk == old(disk).(pending := old(disk).pending - {key}) && !env.crashed
      ensures !ok && !env.crashed ==> disk == old(disk)
      ensures old(env.crashed) ==> env.crashed && disk == old(disk)
      ensures old(env.Calm()) ==> env.Calm() && ok == (key in old(disk).pending && old(disk).pending[key] == PendingDir(NoRecord, None))
    {
      if key !in disk.pending || disk.pending[key] != PendingDir(NoRecord, None) {
        return false;
      }
      var o := env.Next();
      if o.Landed() {
        disk := disk.(pending := disk.pending - {key});
      }
      ok := o.Done?;
    }

    /** The first half of a rollback: write protection off, COMPLETE and metadata removed, errors ignored. */
    method Strip(key: Key, ghost before: Disk)
      requires Underway(before, disk, key)
      modifies `disk, env`drawn, env`crashed
      ensures Underway(before, disk, key)
      ensures disk.parents[key].metadata.None? || disk.parents[key].metadata == old(disk).parents[key].metadata
      ensures old(env.crashed) ==> env.crashed
      ensures old(env.Calm()) ==> env.Calm() && disk.parents[key].metadata.None? && disk.parents[key].complete == NoMarker
    {
      hide Underway;
      UnderwayHas(before, disk, key);
      var dir := disk.parents[key].(image := Some(disk.parents[key].image.value.(sealed := false)));
      UnderwayStep(before, disk, key, dir);
      var _ := SetParent(key, dir);
      if disk.parents[key].complete != NoMarker {
        dir := disk.parents[key].(complete := NoMarker);
        UnderwayStep(before, disk, key, dir);
        var _ := SetParent(key, dir);
      }
      if disk.parents[key].metadata.Some? {
        dir := disk.parents[key].(metadata := None);
        UnderwayStep(before, disk, key, dir);
        var _ := SetParent(key, dir);
      }
    }

    /**
     The rollback of a commit: errors of the first three steps are ignored, yet if the image goes back
     and the directory can be removed then everything is as before the commit.
     */
    method Rollback(key: Key, ghost before: Disk) returns (undone: bool)
      requires Underway(before, disk, key)
      modifies `disk, env`drawn, env`crashed
      ensures OnlyKey(before, disk, key)
      ensures Resolve(provider, disk.parents, key).Valid? ==>
                Underway(before, disk, key) && disk.parents[key].metadata == old(disk).parents[key].metadata
      ensures key in disk.parents ==> disk.parents[key].metadata in {None, old(disk).parents[key].metadata}
      ensures undone ==> BackAgain(before, disk, key) && !env.crashed
      ensures old(env.crashed) ==> env.crashed
      ensures old(env.Calm()) ==> undone && env.Calm()
    {
      Strip(key, before);
      ghost var stripped := disk;
      var o := env.Next();
      if o.Landed() {
        disk := Disk(
          disk.parents[key := disk.parents[key].(image := None)],
          disk.pending[key := disk.pending[key].(staging := disk.parents[key].image)]);
      }
      var returned := o.Done?;
      ghost var back := disk;
      var removed := RemoveParentDir(key);
      undone := returned && removed;
      if undone {
        BackAgainAfter(before, stripped, disk, key);
      }
    }

    /** `os.Remove` of an empty parent directory. */
    method RemoveParentDir(key: Key) returns (ok: bool)
      modifies `disk, env`drawn, env`crashed
      ensures disk == old(disk) || (key in old(disk).parents && old(disk).parents[key] == EMPTY_DIR
                                    && disk == old(disk).(parents := old(disk).parents - {key}))
      ensures ok ==> key in old(disk).parents && old(disk).parents[key] == EMPTY_DIR
                     && disk == old(disk).(parents := old(disk).parents - {key}) && !env.crashed
      ensures old(env.crashed) ==> env.crashed && disk == old(disk)
      ensures old(env.Calm()) ==> env.Calm() && ok == (key in old(disk).parents && old(disk).parents[key] == EMPTY_DIR)
    {
      if key !in disk.parents || disk.parents[key] != EMPTY_DIR {
        return false;
      }
      var o := env.Next();
      if o.Landed() {
        disk := disk.(parents := disk.parents - {key});
      }
      ok := o.Done?;
    }

    /** The steps of a commit after the rename: seal the image, write metadata, write COMPLETE. */
    method Finish(key: Key, m: Metadata, ghost before: Disk) returns (ok: bool)
      requires Underway(before, disk, key) && disk.parents[key].metadata.None? && disk.parents[key].complete == NoMarker
      modifies `disk, env`drawn, env`crashed
      ensures Underway(before, disk, key)
      ensures disk.parents[key].metadata.None? || disk.parents[key].metadata == Some(m)
      ensures ok ==> disk.parents[key] == Committed(old(disk).parents[key].image.value, m) && !env.crashed
      ensures old(env.crashed) ==> env.crashed
      ensures old(env.Calm()) ==> ok && env.Calm()
      ensures old(env.OneFault()) ==> if ok then env.OneFault() else env.Calm()
    {
      hide Underway;
      UnderwayHas(before, disk, key);
      var sealed := disk.parents[key].(image := Some(disk.parents[key].image.value.(sealed := true)));
      UnderwayStep(before, disk, key, sealed);
      ok := SetParent(key, sealed);
      if ok {
        UnderwayStep(before, disk, key, disk.parents[key].(metadata := Some(m)));
        ok := WriteMetadata(key, m);
      }
      if ok {
        ghost var described := disk;
        ok := WriteComplete(key);
        UnderwayStep(before, described, key, disk.parents[key]);
      }
    }

    /**
     `CommitParent`.  At every crash point the parent resolves only if the staged image, the finished
     metadata and COMPLETE are all in place; a fault after the rename whose rollback goes through leaves
     everything as before; a failing rename leaves an empty parent directory.
     */
    method CommitParent(pending: Pending, m: Metadata, now: int) returns (r: Commitment)
      modifies `disk, env`drawn, env`crashed
      ensures pending.key in old(disk).parents ==> disk == old(disk)
      ensures pending.key in disk.parents && disk.parents != old(disk).parents ==>
                m.key == pending.key && disk.parents[pending.key].metadata in {None, Some(Finished(provider, m, now))}
      ensures OnlyKey(old(disk), disk, pending.key)
      ensures Resolve(provider, disk.parents, pending.key).Valid? ==>
                disk.parents == old(disk).parents || PublishedFrom(old(disk), disk, pending.key, Finished(provider, m, now))
      ensures r.Declined? && !env.crashed ==> disk == old(disk)
      ensures r.Stranded? && !env.crashed ==>
                pending.key !in old(disk).parents && disk == WithParent(old(disk), pending.key, EMPTY_DIR)
      ensures r.RolledBack? && r.undone ==> BackAgain(old(disk), disk, pending.key) && !env.crashed
      // one fault at most, and the rollback goes through
      ensures old(env.OneFault()) ==> r.RolledBack? ==> r.undone
      ensures r.Published? ==>
                && r.metadata == Finished(provider, m, now) && old(Owned(pending))
                && PublishedFrom(old(disk), disk, pending.key, r.metadata) && disk.parents[pending.key].image.value.sealed
                && Resolve(provider, disk.parents, pending.key) == Valid(r.metadata)
                && (pending.key in disk.pending ==> disk.pending[pending.key].staging.None?)
      // what is published: the transaction's own image, sealed, under metadata that count it as just used
      ensures r.Published? ==>
                && r.metadata == m.(schema := 2, provider := provider, imageOf := pending.key, immutable := true, lastUsed := now)
                && m.key == pending.key && m.token == pending.token
                && pending.key in old(disk).pending && old(disk).pending[pending.key].record.Record?
                && var was := old(disk).pending[pending.key];
                && was.record.pending.key == pending.key && was.record.pending.transactionId == pending.transactionId
                && was.record.pending.token == pending.token && was.staging.Some?
                && pending.key in disk.parents
                && disk.parents[pending.key] == ParentDir(Some(was.staging.value.(sealed := true)), Some(r.metadata), Whole)
      ensures old(env.Calm() && Owned(pending) && pending.key !in disk.parents) && m.token == pending.token && m.key == pending.key ==>
                r.Published? && pending.key !in disk.pending
      ensures old(env.Calm()) ==> env.Calm()
    {
      var key := pending.key;
      if m.token != pending.token || m.key != key || !Identified(pending) || key in disk.parents {
        return Declined;
      }
      var ok := SetParent(key, EMPTY_DIR);
      if !ok {
        return Declined;
      }
      ok := MoveIn(key);
      if !ok {
        return Stranded;
      }
      assert Underway(old(disk), disk, key);
      ok := Finish(key, Finished(provider, m, now), old(disk));
      if !ok {
        var undone := Rollback(key, old(disk));
        return RolledBack(undone);
      }
      Tidy(key);
      r := Published(Finished(provider, m, now));
    }

    /** The pending record and its directory go; errors are ignored. */
    method Tidy(key: Key)
      requires key in disk.pending
      modifies `disk, env`drawn, env`crashed
      ensures disk.parents == old(disk).parents && disk.pending - {key} == old(disk).pending - {key}
      ensures key in disk.pending ==> disk.pending[key].staging == old(disk).pending[key].staging
      ensures old(env.Calm()) ==> env.Calm() && (old(disk).pending[key].staging.None? ==> key !in disk.pending)
    {
      var _ := SetPending(key, disk.pending[key].(record := NoRecord));
      var _ := RemovePendingDir(key);
    }

    /** The rename of the image into its parent directory. */
    method MoveIn(key: Key) returns (ok: bool)
      requires key in disk.parents && key in disk.pending
      modifies `disk, env`drawn, env`crashed
      ensures disk == old(disk) ||
              (old(disk).pending[key].staging.Some?
               && disk == Disk(old(disk).parents[key := old(disk).parents[key].(image := old(disk).pending[key].staging)],
                               old(disk).pending[key := old(disk).pending[key].(staging := None)]))
      ensures ok ==> disk != old(disk) && !env.crashed
      ensures !ok && !env.crashed ==> disk == old(disk)
      ensures old(env.crashed) ==> env.crashed && disk == old(disk)
      ensures old(env.Calm()) ==> env.Calm() && ok == old(disk).pending[key].staging.Some?
      ensures old(env.OneFault()) && old(disk).pending[key].staging.Some? ==> if ok then env.OneFault() else env.Calm()
    {
      if disk.pending[key].staging.None? {
        return false;
      }
      var o := env.Next();
      if o.Landed() {
        var dir := disk.parents[key].(image := disk.pending[key].staging);
        disk := Disk(disk.parents[key := dir], disk.pending[key := disk.pending[key].(staging := None)]);
        assert disk.pending[key] != old(disk).pending[key];
      }
      ok := o.Done?;
    }

    /** The record on disk is this transaction's. */
    predicate Identified(pending: Pending)
      reads this
    {
      var actual := ReadPending(disk.pending, pending.key);
      actual.Some? && actual.value.transactionId == pending.transactionId && actual.value.token == pending.token
    }

    predicate Owned(pending: Pending)
      reads this
    {
      Identified(pending) && disk.pending[pending.key].staging.Some?
    }

    /** `BeginParent`: the pending directory of a key can be made by one transaction only. */
    method BeginParent(key: Key, txn: Id, token: Name, now: int, clientPid: int) returns (r: Opening)
      modifies `disk, env`drawn, env`crashed
      ensures disk.parents == old(disk).parents && disk.pending - {key} == old(disk).pending - {key}
      ensures r.Conflict? <==> key in old(disk).pending || Resolve(provider, old(disk).parents, key).Valid?
      ensures r.Conflict? ==> disk == old(disk)
      ensures r.Begun? ==> r.pending == Pending(txn, token, key, now, clientPid)
                           && disk == WithPending(old(disk), key, PendingDir(Record(r.pending), None)) && !env.crashed
      ensures old(env.Calm()) ==> env.Calm() && (r.Begun? || r.Conflict?)
    {
      if Resolve(provider, disk.parents, key).Valid? || key in disk.pending {
        return Conflict;
      }
      var made := SetPending(key, PendingDir(NoRecord, None));
      if !made {
        return Unopened;
      }
      var pending := Pending(txn, token, key, now, clientPid);
      var created := SetPending(key, PendingDir(Unreadable, None));
      if created {
        var filled := SetPending(key, PendingDir(Record(pending), None));
        if filled {
          var flushed := env.Next();
          filled := flushed.Done?;
        }
        if filled {
          return Begun(pending);
        }
        var _ := SetPending(key, PendingDir(NoRecord, None));
      }
      var _ := RemovePendingDir(key);
      r := Unopened;
    }

    /** The native layer makes the staging image; a failure may leave it behind. */
    method Stage(key: Key, image: Image) returns (ok: bool)
      requires key in disk.pending
      modifies `disk, env`drawn, env`crashed
      ensures disk == old(disk) || disk == WithPending(old(disk), key, old(disk).pending[key].(staging := Some(image)))
      ensures ok ==> key in disk.pending && disk.pending[key].staging == Some(image) && !env.crashed
      ensures old(env.Calm()) ==> ok && env.Calm()
    {
      var o := env.Next();
      if o.Effective() {
        disk := WithPending(disk, key, disk.pending[key].(staging := Some(image)));
      }
      ok := o.Done?;
    }

    /** The native layer detaches the staging image and removes it. */
    method Unstage(key: Key) returns (ok: bool)
      modifies `disk, env`drawn, env`crashed
      ensures disk == old(disk) || (key in old(disk).pending && disk == WithPending(old(disk), key, old(disk).pending[key].(staging := None)))
      ensures ok && key in disk.pending ==> disk.pending[key].staging.None?
      ensures old(env.Calm()) ==> ok && env.Calm()
    {
      var o := env.Next();
      if o.Landed() && key in disk.pending {
        disk := WithPending(disk, key, disk.pending[key].(staging := None));
      }
      ok := o.Done?;
    }

    /** `AbortParent`: only an own transaction, and only once its image is gone. */
    method AbortParent(pending: Pending) returns (ok: bool)
      modifies `disk, env`drawn, env`crashed
      ensures disk.parents == old(disk).parents && disk.pending - {pending.key} == old(disk).pending - {pending.key}
      ensures !old(Identified(pending)) || old(disk).pending[pending.key].staging.Some? ==> !ok && disk == old(disk)
      ensures ok ==> pending.key !in disk.pending
      ensures disk != old(disk) ==>
                && pending.key in old(disk).pending && old(disk).pending[pending.key].record.Record?
                && old(disk).pending[pending.key].staging.None?
                && var was := old(disk).pending[pending.key].record.pending;
                && was.key == pending.key && was.transactionId == pending.transactionId && was.token == pending.token
      ensures old(env.Calm()) ==> env.Calm() && ok == old(Identified(pending) && disk.pending[pending.key].staging.None?)
    {
      var key := pending.key;
      if !Identified(pending) || disk.pending[key].staging.Some? {
        return false;
      }
      ok := SetPending(key, disk.pending[key].(record := NoRecord));
      if ok {
        ok := RemovePendingDir(key);
      }
    }

    /** The parent resolves, and to metadata with this token. */
    predicate Touchable(m: Metadata)
      reads this
    {
      var found := Resolve(provider, disk.parents, m.key);
      found.Valid? && found.metadata.token == m.token
    }

    /** `TouchParent`. */
    method TouchParent(m: Metadata, now: int) returns (ok: bool)
      modifies `disk, env`drawn, env`crashed
      ensures disk == if old(Touchable(m) && env.Ahead(0).Effective()) then Touched(old(disk), m.key, now) else old(disk)
      ensures ok <==> old(Touchable(m) && env.Ahead(0).Done?)
      ensures env.crashed == (old(env.crashed) || old(Touchable(m) && env.Ahead(0) in {Crashed, CrashedAfter}))
      ensures env.drawn == old(env.drawn) + if old(Touchable(m) && !env.crashed) then 1 else 0
      // the last use changes and nothing else
      ensures disk != old(disk) ==>
                && m.key in old(disk).parents && old(disk).parents[m.key].metadata.Some?
                && old(disk).parents[m.key].metadata.value.token == m.token
                && disk == Disk(old(disk).parents[m.key := old(disk).parents[m.key].(
                                  metadata := Some(old(disk).parents[m.key].metadata.value.(lastUsed := now)))], old(disk).pending)
      ensures old(env.Calm() && Resolve(provider, disk.parents, m.key) == Valid(m)) ==> ok && env.Calm()
    {
      var found := Resolve(provider, disk.parents, m.key);
      if !Touchable(m) {
        return false;
      }
      ok := WriteMetadata(m.key, found.metadata.(lastUsed := now));
    }

    /** `RemoveParentIfUnused`; an interrupted removal leaves part of the directory. */
    method RemoveParentIfUnused(key: Key, active: set<Key>) returns (reclaimed: Option<int>)
      modifies `disk, env`drawn, env`crashed
      ensures disk.pending == old(disk).pending && disk.parents - {key} == old(disk).parents - {key}
      ensures key in active || !Resolve(provider, old(disk).parents, key).Valid? ==> reclaimed.None? && disk == old(disk)
      ensures key in disk.parents ==>
                key in old(disk).parents && disk.parents[key].metadata in {None, old(disk).parents[key].metadata}
      ensures reclaimed.Some? ==>
                && !env.crashed && disk.parents == old(disk).parents - {key}
                && Resolve(provider, old(disk).parents, key).Valid? && reclaimed == Some(Resolve(provider, old(disk).parents, key).metadata.bytes)
      ensures old(env.crashed) ==> env.crashed && disk == old(disk)
      ensures old(env.Calm()) ==> env.Calm() && (reclaimed.Some? <==> key !in active && Resolve(provider, old(disk).parents, key).Valid?)
    {
      if key in active {
        return None;
      }
      var found := Resolve(provider, disk.parents, key);
      if !found.Valid? {
        return None;
      }
      var dead := env.crashed;
      var o := env.Next();
      if o.Landed() {
        disk := disk.(parents := disk.parents - {key});
      } else if !dead {
        var noImage: bool, noMetadata: bool, noMarker: bool := *, *, *;
        var dir := disk.parents[key];
        disk := WithParent(disk, key, ParentDir(if noImage then None else dir.image, if noMetadata then None else dir.metadata,
                                                if noMarker then NoMarker else dir.complete));
      }
      reclaimed := if o.Done? then Some(found.metadata.bytes) else None;
    }
  }
}
