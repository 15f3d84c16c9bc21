/**
 The Windows broker: leases whose children depend on parents of the store, garbage collection of
 parents under a quota, and recovery of what clients have left behind.  Requests run one at a time.
 */
module Brokers {
  import opened Wrappers
  import opened Environments
  import opened Names
  import opened StoreParents
  import opened GarbageCollection
  import opened Sums

  datatype Config = Config(quotaBytes: int, hostFloorBytes: int, childReserveBytes: int, parentTTL: int)

  datatype LeaseState = Requested | Ready | Releasing | Released | Recovering | Quarantined

  datatype LeaseJournal = LeaseJournal(
    leaseId: Id, runId: Id, token: Name, parentKey: Key, workspaceId: Option<Id>, state: LeaseState,
    boot: Option<Name>, clientPid: int, unityPid: int, retained: bool, updatedAt: int)

  datatype RetainedRecord = RetainedRecord(runId: Id, leaseId: Id, token: Name, parentKey: Key)

  /** The owner marker of a workspace: missing, unreadable, or naming a lease. */
  datatype OwnerFile = Unowned | Garbled | Owner(leaseId: Id, token: Name)

  /** A workspace: its owner marker, whether Library is there, whether links are in it. */
  datatype WorkspaceDir = WorkspaceDir(owner: OwnerFile, mounted: bool, links: bool)

  /**
   What the broker keeps besides parents: journals and retained records (None: unreadable), children by
   lease id with their bytes, workspaces, what has been quarantined with its bytes, and entries that are
   no records at all.
   */
  datatype Records = Records(
    leases: map<Id, Option<LeaseJournal>>,
    retained: map<Id, Option<RetainedRecord>>,
    children: map<Id, int>,
    workspaces: map<Id, WorkspaceDir>,
    quarantine: map<Id, int>,
    strays: set<Name>)

  function ReadLease(r: Records, id: Id): Option<LeaseJournal> {
    if id in r.leases && r.leases[id].Some? && r.leases[id].value.leaseId == id then r.leases[id] else None
  }

  function ReadRetained(r: Records, run: Id): Option<RetainedRecord> {
    if run in r.retained && r.retained[run].Some? && r.retained[run].value.runId == run then r.retained[run] else None
  }

  /** Some record of the broker refers to this parent. */
  ghost predicate InUse(r: Records, pending: map<Key, PendingDir>, key: Key) {
    || (exists id :: id in r.leases && ReadLease(r, id).Some? && ReadLease(r, id).value.parentKey == key)
    || key in pending
    || (exists run :: run in r.retained && ReadRetained(r, run).Some? && ReadRetained(r, run).value.parentKey == key)
  }

  /** Nothing in the records is ambiguous. */
  ghost predicate Legible(r: Records, pending: map<Key, PendingDir>) {
    && (forall id | id in r.leases :: ReadLease(r, id).Some?)
    && (forall key | key in pending :: ReadPending(pending, key).Some?)
    && (forall run | run in r.retained :: ReadRetained(r, run).Some?)
    && r.strays == {} && r.quarantine == map[]
  }

  /** No dangling child: every lease journal names a parent that resolves. */
  ghost predicate NoneDangling(provider: Name, parents: map<Key, ParentDir>, r: Records) {
    forall id | id in r.leases && ReadLease(r, id).Some? :: Resolve(provider, parents, ReadLease(r, id).value.parentKey).Valid?
  }

  /** A fresh count of all bytes that disk images take. */
  ghost function Recount(d: Disk, r: Records): int {
    SumOver(ImageBytes(d.parents)) + SumOver(StagingBytes(d.pending)) + SumOver(r.children) + SumOver(r.quarantine)
  }

  /** Each image counts with its bytes, once, wherever it lies. */
  lemma OneImageMore(d: Disk, r: Records, key: Key, id: Id, dir: ParentDir, pending: PendingDir, bytes: int)
    ensures key !in d.parents ==>
              Recount(d.(parents := d.parents[key := dir]), r) == Recount(d, r) + if dir.image.Some? then dir.image.value.bytes else 0
    ensures key !in d.pending ==>
              Recount(d.(pending := d.pending[key := pending]), r) == Recount(d, r) + if pending.staging.Some? then pending.staging.value.bytes else 0
    ensures id !in r.children ==> Recount(d, r.(children := r.children[id := bytes])) == Recount(d, r) + bytes
    ensures id !in r.quarantine ==> Recount(d, r.(quarantine := r.quarantine[id := bytes])) == Recount(d, r) + bytes
  {
    hide ImageBytes, StagingBytes, SumOver;
    OneParentMore(d.parents, key, dir);
    OneStagedMore(d.pending, key, pending);
    OneMore(r.children, id, bytes);
    OneMore(r.quarantine, id, bytes);
  }

  lemma OneParentMore(parents: map<Key, ParentDir>, key: Key, dir: ParentDir)
    ensures key !in parents ==>
              SumOver(ImageBytes(parents[key := dir])) == SumOver(ImageBytes(parents)) + if dir.image.Some? then dir.image.value.bytes else 0
  {
    var bytes := if dir.image.Some? then dir.image.value.bytes else 0;
    OneMore(ImageBytes(parents), key, bytes);
    if key !in parents {
      assert ImageBytes(parents[key := dir]) == if dir.image.Some? then ImageBytes(parents)[key := bytes] else ImageBytes(parents);
    }
  }

  lemma OneStagedMore(pending: map<Key, PendingDir>, key: Key, dir: PendingDir)
    ensures key !in pending ==>
              SumOver(StagingBytes(pending[key := dir])) == SumOver(StagingBytes(pending)) + if dir.staging.Some? then dir.staging.value.bytes else 0
  {
    var bytes := if dir.staging.Some? then dir.staging.value.bytes else 0;
    OneMore(StagingBytes(pending), key, bytes);
    if key !in pending {
      assert StagingBytes(pending[key := dir]) == if dir.staging.Some? then StagingBytes(pending)[key := bytes] else StagingBytes(pending);
    }
  }

  lemma NoImages(r: Records)
    requires r.children == map[] && r.quarantine == map[]
    ensures Recount(Disk(map[], map[]), r) == 0
  {
    assert ImageBytes(map[]) == map[] && StagingBytes(map[]) == map[];
  }

  // ----- Garbage collection --------------------------------------------------------------------

  /** These candidates have gone, and the running total is the fresh one. */
  ghost predicate Collected(before: map<Key, ParentDir>, after: map<Key, ParentDir>, gone: seq<Metadata>) {
    && after == before - KeysOf(gone)
    && SumOver(ImageBytes(after)) == SumOver(ImageBytes(before)) - BytesOf(gone)
  }

  ghost predicate NoRoomWith(c: Capacity, gone: seq<Metadata>) {
    forall k | 0 < k <= |gone| :: !c.Room(c.taken - BytesOf(gone[..k]))
  }

  /** A first part of the candidates has gone and nothing else, and the running total says so. */
  ghost predicate Exactly(limits: Capacity, candidates: seq<Metadata>, before: map<Key, ParentDir>, after: map<Key, ParentDir>,
                          gone: seq<Metadata>, taken: int)
  {
    gone <= candidates && Collected(before, after, gone) && taken == limits.taken - BytesOf(gone)
  }

  /** Without these there is room, and with any of them left out from the end there is not. */
  ghost predicate JustEnough(limits: Capacity, gone: seq<Metadata>) {
    |gone| > 0 && limits.Room(limits.taken - BytesOf(gone)) && forall k | 0 < k < |gone| :: !limits.Room(limits.taken - BytesOf(gone[..k]))
  }

  lemma OneMoreGone(provider: Name, before: map<Key, ParentDir>, after: map<Key, ParentDir>, gone: seq<Metadata>, m: Metadata)
    requires WellFormed(provider, before) && Collected(before, after, gone) && m.key in after && before[m.key].metadata == Some(m)
    ensures Resolve(provider, after, m.key) == Valid(m)
    ensures Collected(before, after - {m.key}, gone + [m])
    ensures BytesOf(gone + [m]) == BytesOf(gone) + m.bytes
  {
    ImageBytesWithout(after, m.key);
    assert (gone + [m])[..|gone|] == gone;
    assert KeysOf(gone + [m]) == KeysOf(gone) + {m.key};
    assert after - {m.key} == before - KeysOf(gone + [m]);
  }

  /** One candidate more, and either there is room or the search goes on. */
  lemma NoRoomWithOneMore(c: Capacity, gone: seq<Metadata>, m: Metadata)
    requires NoRoomWith(c, gone)
    ensures if c.Room(c.taken - BytesOf(gone + [m])) then JustEnough(c, gone + [m]) else NoRoomWith(c, gone + [m])
  {
    var all := gone + [m];
    assert all[..|all|] == all;
    forall k | 0 < k <= |gone| ensures all[..k] == gone[..k] {
    }
  }

  lemma ExactlyThese(limits: Capacity, candidates: seq<Metadata>, before: map<Key, ParentDir>, after: map<Key, ParentDir>,
                     gone: seq<Metadata>, taken: int)
    requires gone <= candidates && Collected(before, after, gone) && taken == limits.taken - BytesOf(gone)
    ensures Exactly(limits, candidates, before, after, gone, taken)
  {
  }

  /** A pass over these candidates: the shortest first part that makes room has gone, or all of them in vain. */
  ghost predicate MadeRoom(c: Capacity, candidates: seq<Metadata>, before: map<Key, ParentDir>, after: map<Key, ParentDir>, ok: bool) {
    if ok then exists n: nat :: Shortest(c, candidates, n) && after == before - KeysOf(candidates[..n])
    else NoRoomWith(c, candidates)
  }

  lemma PassMadeRoom(c: Capacity, candidates: seq<Metadata>, before: map<Key, ParentDir>, after: map<Key, ParentDir>, ok: bool, gone: seq<Metadata>)
    requires ok ==> Shortest(c, candidates, |gone|) && gone == candidates[..|gone|] && Collected(before, after, gone)
    requires !ok ==> NoRoomWith(c, candidates)
    ensures MadeRoom(c, candidates, before, after, ok)
  {
  }

  /** This parent is among the few that have to go for room. */
  ghost predicate TakenForRoom(c: Capacity, candidates: seq<Metadata>, key: Key) {
    exists n: nat :: Shortest(c, candidates, n) && key in KeysOf(candidates[..n])
  }

  lemma OneShortest(c: Capacity, candidates: seq<Metadata>, m: nat, n: nat)
    requires Shortest(c, candidates, m) && Shortest(c, candidates, n)
    ensures m == n
  {
  }

  lemma NoShortest(c: Capacity, candidates: seq<Metadata>, key: Key)
    requires NoRoomWith(c, candidates)
    ensures !TakenForRoom(c, candidates, key)
  {
  }

  /** Which way it goes with a parent when room is made: it is taken, or stays as it is. */
  lemma RoomCosts(provider: Name, before: map<Key, ParentDir>, after: map<Key, ParentDir>, listing: seq<Metadata>, c: Capacity,
                  active: set<Key>, cutoff: int, key: Key, ok: bool)
    requires MadeRoom(c, Candidates(listing, active, cutoff), before, after, ok)
    requires Resolve(provider, before, key).Valid?
    ensures
      var taken := TakenForRoom(c, Candidates(listing, active, cutoff), key);
      && (taken ==> ok && key !in after)
      && (ok && !taken ==> key in after && Resolve(provider, after, key) == Resolve(provider, before, key))
  {
    var candidates := Candidates(listing, active, cutoff);
    assert MadeRoom(c, candidates, before, after, ok);
    if ok {
      var n: nat :| Shortest(c, candidates, n) && after == before - KeysOf(candidates[..n]);
      forall m | Shortest(c, candidates, m) ensures m == n {
        OneShortest(c, candidates, m, n);
      }
    } else {
      NoShortest(c, candidates, key);
    }
  }

  lemma SameJournalsDangle(provider: Name, parents: map<Key, ParentDir>, before: Records, after: Records)
    ensures after.leases == before.leases ==> (NoneDangling(provider, parents, after) <==> NoneDangling(provider, parents, before))
  {
    if after.leases == before.leases {
      assert forall id :: ReadLease(after, id) == ReadLease(before, id);
    }
  }

  lemma Dangles(provider: Name, parents: map<Key, ParentDir>, r: Records, id: Id)
    requires id in r.leases && r.leases[id].Some? && r.leases[id].value.leaseId == id && r.leases[id].value.parentKey !in parents
    ensures !NoneDangling(provider, parents, r)
  {
    assert ReadLease(r, id).Some?;
  }

  /**
   What a grant puts into the records, and that it is all: a ready journal, the child, and the owner marker
   in a workspace that had none.
   */
  ghost predicate Installed(before: Records, after: Records, j: LeaseJournal, bytes: int, now: int) {
    && j.workspaceId.Some? && j.workspaceId.value in before.workspaces
    && var dir := before.workspaces[j.workspaceId.value];
    && dir.owner == Unowned && !dir.mounted
    && after == before.(
         leases := before.leases[j.leaseId := Some(j.(state := Ready, updatedAt := now))],
         children := before.children[j.leaseId := bytes],
         workspaces := before.workspaces[j.workspaceId.value := dir.(owner := Owner(j.leaseId, j.token))])
  }

  /** The state of the store and of the environment before a request. */
  datatype View = View(disk: Disk, plan: seq<Outcome>, drawn: nat, crashed: bool) {
    function Ahead(i: nat): Outcome {
      if crashed then Crashed else if drawn + i < |plan| then plan[drawn + i] else Done
    }

    /**
     An acquire at this time is in time: if it gets as far as the touch, then the touch is carried out and
     younger than the time to live, or it fails but the parent was used within the time to live anyway, or
     the broker dies over it.
     */
    ghost predicate InTime(provider: Name, ttl: int, key: Key, touchedAt: int, now: int) {
      Resolve(provider, disk.parents, key).Valid? && Ahead(0) == Done ==>
        match Ahead(1)
        case Done | FailedAfter => now - touchedAt < ttl
        case Failed => UsedSince(disk.parents[key], now - ttl)
        case Crashed | CrashedAfter => true
    }
  }

  class Broker {
    const config: Config
    const store: Store
    const env: Environment
    var records: Records
    /** The child sessions in memory, with the parents they use. */
    var sessions: map<Id, Key>
    /** The parents being built, by their transactions. */
    var builds: map<Id, Pending>

    ghost predicate Valid()
      reads `records, store
    {
      && store.env == env
      && KeysNamed(store.disk.parents)
      && NoneDangling(store.provider, store.disk.parents, records)
    }

    constructor (config: Config, store: Store)
      requires KeysNamed(store.disk.parents)
      ensures Valid() && this.config == config && this.store == store && env == store.env
      ensures records == Records(map[], map[], map[], map[], map[], {}) && sessions == map[] && builds == map[]
    {
      this.config, this.store, this.env := config, store, store.env;
      records, sessions, builds := Records(map[], map[], map[], map[], map[], {}), map[], map[];
    }

    /** `ListParents`: the metadata that can be read, in order of last use. */
    method ListParents() returns (listing: seq<Metadata>)
      ensures KeysNamed(store.disk.parents) ==> IsListing(store.disk.parents, listing)
      ensures forall i, j | 0 <= i < j < |listing| :: listing[i].lastUsed <= listing[j].lastUsed
    {
      var parents := store.disk.parents;
      var rest := parents.Keys;
      var found: seq<Metadata> := [];
      while rest != {}
        invariant rest <= parents.Keys
        invariant forall m | m in found :: exists k :: k in parents && k !in rest && parents[k].metadata == Some(m)
        invariant forall k | k in parents && k !in rest && parents[k].metadata.Some? :: parents[k].metadata.value in found
        invariant KeysNamed(parents) ==> DistinctKeys(found) && forall m | m in found :: m.key in parents && m.key !in rest
        decreases |rest|
      {
        var k :| k in rest;
        rest := rest - {k};
        if parents[k].metadata.Some? {
          found := found + [parents[k].metadata.value];
        }
      }
      SortSorts(found);
      listing := SortByAge(found);
    }

    /** The parents that journals name. */
    method LeaseKeys() returns (r: Option<set<Key>>)
      ensures r.Some? <==> forall id | id in records.leases :: ReadLease(records, id).Some?
      ensures r.Some? ==> forall key :: key in r.value <==> exists id ::
                id in records.leases && ReadLease(records, id).Some? && ReadLease(records, id).value.parentKey == key
    {
      var keys: set<Key> := {};
      var rest := records.leases.Keys;
      while rest != {}
        invariant rest <= records.leases.Keys
        invariant forall id | id in records.leases && id !in rest ::
              ReadLease(records, id).Some? && ReadLease(records, id).value.parentKey in keys
        invariant forall key | key in keys :: exists id ::
              id in records.leases && ReadLease(records, id).Some? && ReadLease(records, id).value.parentKey == key
        decreases |rest|
      {
        var id :| id in rest;
        rest := rest - {id};
        var journal := ReadLease(records, id);
        if journal.None? {
          return None;
        }
        keys := keys + {journal.value.parentKey};
      }
      r := Some(keys);
    }

    /** The parents that are being built. */
    method PendingKeys() returns (r: Option<set<Key>>)
      ensures r.Some? <==> forall key | key in store.disk.pending :: ReadPending(store.disk.pending, key).Some?
      ensures r.Some? ==> r.value == store.disk.pending.Keys
    {
      var pending := store.disk.pending;
      var keys: set<Key> := {};
      var rest := pending.Keys;
      while rest != {}
        invariant rest <= pending.Keys && keys == pending.Keys - rest
        invariant forall key | key in keys :: ReadPending(pending, key).Some?
        decreases |rest|
      {
        var key :| key in rest;
        rest := rest - {key};
        var found := ReadPending(pending, key);
        if found.None? {
          return None;
        }
        keys := keys + {found.value.key};
      }
      r := Some(keys);
    }

    /** The parents of retained leases. */
    method RetainedKeys() returns (r: Option<set<Key>>)
      ensures r.Some? <==> forall run | run in records.retained :: ReadRetained(records, run).Some?
      ensures r.Some? ==> forall key :: key in r.value <==> exists run ::
                run in records.retained && ReadRetained(records, run).Some? && ReadRetained(records, run).value.parentKey == key
    {
      var keys: set<Key> := {};
      var rest := records.retained.Keys;
      while rest != {}
        invariant rest <= records.retained.Keys
        invariant forall run | run in records.retained && run !in rest ::
              ReadRetained(records, run).Some? && ReadRetained(records, run).value.parentKey in keys
        invariant forall key | key in keys :: exists run ::
              run in records.retained && ReadRetained(records, run).Some? && ReadRetained(records, run).value.parentKey == key
        decreases |rest|
      {
        var run :| run in rest;
        rest := rest - {run};
        var found := ReadRetained(records, run);
        if found.None? {
          return None;
        }
        keys := keys + {found.value.parentKey};
      }
      r := Some(keys);
    }

    /** `ProtectedParentKeys`: every parent that a record refers to; anything ambiguous is an error. */
    method ProtectedParentKeys() returns (r: Option<set<Key>>)
      ensures r.Some? <==> Legible(records, store.disk.pending)
      ensures r.Some? ==> forall key :: key in r.value <==> InUse(records, store.disk.pending, key)
      // unreadable or misplaced records, strays and anything in quarantine are ambiguous
      ensures r.Some? <==>
                && (forall id | id in records.leases :: records.leases[id].Some? && records.leases[id].value.leaseId == id)
                && (forall key | key in store.disk.pending ::
                      store.disk.pending[key].record.Record? && store.disk.pending[key].record.pending.key == key)
                && (forall run | run in records.retained :: records.retained[run].Some? && records.retained[run].value.runId == run)
                && records.strays == {} && records.quarantine == map[]
      ensures r.Some? ==>
                && (forall id | id in records.leases :: records.leases[id].value.parentKey in r.value)
                && (forall run | run in records.retained :: records.retained[run].value.parentKey in r.value)
                && store.disk.pending.Keys <= r.value
    {
      var leased := LeaseKeys();
      if leased.None? {
        return None;
      }
      var building := PendingKeys();
      if building.None? {
        return None;
      }
      var retained := RetainedKeys();
      if retained.None? {
        return None;
      }
      r := if records.strays == {} && records.quarantine == map[] then Some(leased.value + building.value + retained.value) else None;
    }

    /** `allocatedVHDXBytes` over the whole store. */
    method Measure() returns (total: int)
      ensures total == Recount(store.disk, records)
      ensures total == SumOver(map k | k in store.disk.parents && store.disk.parents[k].image.Some? :: store.disk.parents[k].image.value.bytes)
                       + SumOver(map k | k in store.disk.pending && store.disk.pending[k].staging.Some? :: store.disk.pending[k].staging.value.bytes)
                       + SumOver(records.children) + SumOver(records.quarantine)
    {
      var parents := Total(ImageBytes(store.disk.parents));
      var staging := Total(StagingBytes(store.disk.pending));
      var children := Total(records.children);
      var quarantined := Total(records.quarantine);
      total := parents + staging + children + quarantined;
    }

    /** The loop of `ensureCapacityWithLimits` over the parents. */
    method Reclaim(listing: seq<Metadata>, active: set<Key>, cutoff: int, limits: Capacity, dryRun: bool)
      returns (c: Capacity, ok: bool, ghost gone: seq<Metadata>)
      requires store.env == env
      modifies store`disk, env`drawn, env`crashed
      ensures store.disk.pending == old(store.disk).pending
      ensures KeysNamed(old(store.disk).parents) ==> KeysNamed(store.disk.parents)
      ensures Spared(old(store.disk).parents, store.disk.parents, listing, active, cutoff)
      ensures store.disk.parents.Keys <= old(store.disk).parents.Keys
      ensures ok && !dryRun ==> gone != []
      ensures dryRun ==> ok && store.disk == old(store.disk) && c == limits.(reclaimable := limits.reclaimable + BytesOf(Candidates(listing, active, cutoff)))
      // whatever the plan, a pass that succeeds has removed just what it takes
      ensures WellFormed(store.provider, old(store.disk).parents) && IsListing(old(store.disk).parents, listing) && !dryRun ==>
                var candidates := Candidates(listing, active, cutoff);
                && (ok || old(env.Calm()) ==> Exactly(limits, candidates, old(store.disk).parents, store.disk.parents, gone, c.taken))
                && (ok ==> JustEnough(limits, gone))
                && (!ok && old(env.Calm()) ==> gone == candidates && NoRoomWith(limits, candidates))
      ensures old(env.crashed) ==> env.crashed && store.disk == old(store.disk)
      ensures old(env.Calm()) ==> env.Calm()
    {
      hide Environment.Calm, Environment.OneFault;
      hide Collected, NoRoomWith, Exactly, JustEnough, WellFormed, KeysNamed, IsListing, Spared, Resolve, Candidates, BytesOf, KeysOf;
      c, ok, gone := limits, dryRun, [];
      var projected := limits.taken;
      ghost var exact := WellFormed(store.provider, store.disk.parents) && IsListing(store.disk.parents, listing) && !dryRun;
      NothingGone(store.disk.parents, listing, active, cutoff, limits);
      for i := 0 to |listing|
        invariant ok == dryRun && (old(env.Calm()) ==> env.Calm()) && (old(env.crashed) ==> env.crashed && store.disk == old(store.disk))
        invariant store.disk.pending == old(store.disk).pending && (dryRun ==> store.disk == old(store.disk))
        invariant KeysNamed(old(store.disk).parents) ==> KeysNamed(store.disk.parents)
        invariant store.disk.parents.Keys <= old(store.disk).parents.Keys
        invariant Spared(old(store.disk).parents, store.disk.parents, listing, active, cutoff)
        invariant c == limits.(reclaimable := limits.reclaimable + BytesOf(Candidates(listing[..i], active, cutoff)), taken := c.taken)
        invariant dryRun ==> c.taken == limits.taken
        invariant exact ==>
                    && gone == Candidates(listing[..i], active, cutoff)
                    && Collected(old(store.disk).parents, store.disk.parents, gone) && NoRoomWith(limits, gone)
                    && c.taken == projected == limits.taken - BytesOf(gone)
      {
        var m := listing[i];
        NextCandidate(listing, active, cutoff, i);
        if m.key in active || m.lastUsed > cutoff {
          continue;
        }
        c := c.(reclaimable := c.reclaimable + m.bytes);
        if !dryRun {
          ghost var before := store.disk.parents;
          if exact {
            StillThere(old(store.disk).parents, before, listing, active, cutoff, i);
            OneMoreGone(store.provider, old(store.disk).parents, before, gone, m);
            NoRoomWithOneMore(limits, gone, m);
          }
          var reclaimed := store.RemoveParentIfUnused(m.key, active);
          NamedStill(before, store.disk.parents, m.key);
          OneTouched(old(store.disk).parents, before, store.disk.parents, listing, active, cutoff, m);
          if reclaimed.None? {
            ok := false;
            return;
          }
          gone := gone + [m];
          c := c.(taken := c.taken - reclaimed.value);
        }
        projected := projected - m.bytes;
        if !dryRun && limits.Room(projected) {
          CandidatesGrow(listing, active, cutoff, i + 1);
          if exact { ExactlyThese(limits, Candidates(listing, active, cutoff), old(store.disk).parents, store.disk.parents, gone, c.taken); }
          ok := true;
          return;
        }
      }
      assert listing[..|listing|] == listing;
      if exact { ExactlyThese(limits, gone, old(store.disk).parents, store.disk.parents, gone, c.taken); }
    }

    /** The parent may not be collected: a record or a session refers to it. */
    ghost predicate Active(key: Key)
      reads this, store
    {
      InUse(records, store.disk.pending, key) || exists id :: id in sessions && sessions[id] == key
    }

    /** The set that collection leaves alone, unless the records are ambiguous. */
    method ActiveKeys() returns (r: Option<set<Key>>)
      ensures r.Some? <==> Legible(records, store.disk.pending)
      ensures r.Some? ==> forall key :: key in r.value <==> Active(key)
    {
      hide InUse, Legible;
      r := ProtectedParentKeys();
      if r.Some? {
        r := Some(r.value + set id | id in sessions :: sessions[id]);
      }
    }

    /** The limits of one pass: the tighter of the broker's and the request's. */
    function Limits(workers: int, requestedQuota: int, requestedFloor: int, free: int, taken: int): Capacity {
      Capacity(
        if 0 < requestedQuota < config.quotaBytes then requestedQuota else config.quotaBytes,
        taken, 0, free,
        if requestedFloor > config.hostFloorBytes then requestedFloor else config.hostFloorBytes,
        workers * config.childReserveBytes)
    }

    /** There is room under the limits as things stand. */
    ghost predicate RoomFor(workers: int, requestedQuota: int, requestedFloor: int, free: int)
      reads this, store
    {
      var taken := Recount(store.disk, records);
      Limits(workers, requestedQuota, requestedFloor, free, taken).Room(taken)
    }

    /** The pass itself, once there is need for it or it is a dry run. */
    method Pass(limits: Capacity, dryRun: bool, now: int)
      returns (c: Capacity, ok: bool, ghost gone: seq<Metadata>, ghost listing: seq<Metadata>, ghost active: set<Key>)
      requires store.env == env
      modifies store`disk, env`drawn, env`crashed
      ensures store.disk.pending == old(store.disk).pending
      ensures KeysNamed(old(store.disk).parents) ==> KeysNamed(store.disk.parents)
      ensures forall k | k in old(store.disk).parents && old(Keeps(k, now)) ::
                k in store.disk.parents && store.disk.parents[k] == old(store.disk).parents[k]
      ensures dryRun ==> store.disk == old(store.disk) && (ok <==> Legible(records, store.disk.pending))
      ensures store.disk.parents.Keys <= old(store.disk).parents.Keys
      ensures old(Legible(records, store.disk.pending)) ==>
                && (forall key :: key in active <==> old(Active(key)))
                && (KeysNamed(old(store.disk).parents) ==> IsListing(old(store.disk).parents, listing))
      ensures !old(Legible(records, store.disk.pending)) ==> !ok && gone == [] && store.disk == old(store.disk) && c == limits
      ensures ok && !dryRun ==> gone != []
      ensures ok && dryRun && KeysNamed(old(store.disk).parents) ==>
                c.reclaimable == limits.reclaimable + SumOver(ReclaimableBytes(store.disk.parents, active, now - config.parentTTL))
      ensures WellFormed(store.provider, old(store.disk).parents) && !dryRun && old(Legible(records, store.disk.pending)) ==>
                var candidates := Candidates(listing, active, now - config.parentTTL);
                && (ok || old(env.Calm()) ==> Exactly(limits, candidates, old(store.disk).parents, store.disk.parents, gone, c.taken))
                && (ok ==> JustEnough(limits, gone))
                && (!ok && old(env.Calm()) ==> gone == candidates && NoRoomWith(limits, candidates))
      ensures old(env.crashed) ==> env.crashed && store.disk == old(store.disk)
      ensures old(env.Calm()) ==> env.Calm()
    {
      hide InUse, Legible, WellFormed, KeysNamed, IsListing, Exactly, JustEnough, NoRoomWith, Resolve, Candidates, BytesOf, ReclaimableBytes;
      c, ok, gone, listing, active := limits, false, [], [], {};
      var protected := ActiveKeys();
      if protected.None? {
        return;
      }
      var parents := ListParents();
      listing, active := parents, protected.value;
      ListedUses(store.disk.parents, listing, now - config.parentTTL);
      c, ok, gone := Reclaim(parents, protected.value, now - config.parentTTL, limits, dryRun);
      if dryRun && KeysNamed(old(store.disk).parents) {
        ReclaimableAgrees(store.disk.parents, listing, active, now - config.parentTTL);
      }
      if WellFormed(store.provider, old(store.disk).parents) {
        WellFormedIsNamed(store.provider, old(store.disk).parents);
      }
    }

    /** A pass leaves this parent alone: it is in use, or was used within the time to live. */
    ghost predicate Keeps(key: Key, now: int)
      reads this, store
    {
      Active(key) || (KeysNamed(store.disk.parents) && key in store.disk.parents && UsedSince(store.disk.parents[key], now - config.parentTTL))
    }

    /** The collector may take this parent: nothing refers to it, and its last use lies a time to live back. */
    ghost predicate Expendable(key: Key, now: int)
      reads this, store
    {
      && key in store.disk.parents && store.disk.parents[key].metadata.Some? && !Active(key)
      && store.disk.parents[key].metadata.value.lastUsed <= now - config.parentTTL
    }

    /**
     `ensureCapacityWithLimits`.  On a well-formed store a pass that succeeds, whatever else may fail,
     leaves room under quota and floor, and has removed just as many of the least recently used expired
     parents as it takes; its running total is the fresh count.  One that fails undisturbed has removed
     every candidate.  Whatever faults there are, no parent in use and none used within the time to live
     is touched.
     */
    method EnsureCapacity(workers: int, dryRun: bool, requestedQuota: int, requestedFloor: int, free: Option<int>, now: int)
      returns (c: Capacity, ok: bool, ghost gone: seq<Metadata>, ghost listing: seq<Metadata>, ghost active: set<Key>)
      requires store.env == env
      modifies store`disk, env`drawn, env`crashed
      ensures store.disk.pending == old(store.disk).pending
      ensures KeysNamed(old(store.disk).parents) ==> KeysNamed(store.disk.parents)
      ensures forall k | k in old(store.disk).parents && old(Keeps(k, now)) ::
                k in store.disk.parents && store.disk.parents[k] == old(store.disk).parents[k]
      ensures store.disk.parents.Keys <= old(store.disk).parents.Keys
      ensures free.None? ==> !ok && store.disk == old(store.disk)
      ensures free.Some? && (dryRun || !old(RoomFor(workers, requestedQuota, requestedFloor, free.value))) ==>
                if old(Legible(records, store.disk.pending))
                then (forall key :: key in active <==> old(Active(key)))
                     && (KeysNamed(old(store.disk).parents) ==> IsListing(old(store.disk).parents, listing))
                else !ok && gone == [] && store.disk == old(store.disk)
      ensures dryRun ==> store.disk == old(store.disk) && (ok <==> free.Some? && Legible(records, store.disk.pending))
      ensures ok && dryRun && KeysNamed(old(store.disk).parents) ==>
                c.reclaimable == SumOver(ReclaimableBytes(store.disk.parents, active, now - config.parentTTL))
      ensures free.Some? && !dryRun && old(RoomFor(workers, requestedQuota, requestedFloor, free.value)) ==>
                ok && gone == [] && store.disk == old(store.disk) && c.taken == Recount(store.disk, records)
      ensures free.Some? && !dryRun && WellFormed(store.provider, old(store.disk).parents) && old(Legible(records, store.disk.pending))
              && !old(RoomFor(workers, requestedQuota, requestedFloor, free.value)) ==>
                var limits := Limits(workers, requestedQuota, requestedFloor, free.value, old(Recount(store.disk, records)));
                var candidates := Candidates(listing, active, now - config.parentTTL);
                && (ok ==> limits.Room(c.taken) && Shortest(limits, candidates, |gone|) && gone == candidates[..|gone|])
                && (!ok && old(env.Calm()) ==> gone == candidates && NoRoomWith(limits, candidates))
                && (ok || old(env.Calm()) ==>
                      Collected(old(store.disk).parents, store.disk.parents, gone) && c.taken == Recount(store.disk, records))
      // success is room under every limit that applies, with the bytes that are then on disk
      ensures ok && !dryRun && WellFormed(store.provider, old(store.disk).parents) ==>
                && free.Some? && c.taken == Recount(store.disk, records)
                && c.taken + workers * config.childReserveBytes <= config.quotaBytes
                && (requestedQuota > 0 ==> c.taken + workers * config.childReserveBytes <= requestedQuota)
                && free.value - workers * config.childReserveBytes >= config.hostFloorBytes
                && free.value - workers * config.childReserveBytes >= requestedFloor
      // where there is such room already nothing is done
      ensures free.Some? && !dryRun
              && old(Recount(store.disk, records)) + workers * config.childReserveBytes <= config.quotaBytes
              && (requestedQuota > 0 ==> old(Recount(store.disk, records)) + workers * config.childReserveBytes <= requestedQuota)
              && free.value - workers * config.childReserveBytes >= config.hostFloorBytes
              && free.value - workers * config.childReserveBytes >= requestedFloor ==>
                ok && gone == [] && store.disk == old(store.disk)
      // what success takes: expired parents that nothing refers to, the oldest first, and the last one was needed
      ensures ok && !dryRun && WellFormed(store.provider, old(store.disk).parents) ==>
                && (forall k | k in old(store.disk).parents && k !in store.disk.parents :: old(Expendable(k, now)))
                && (forall k, l | old(Expendable(k, now)) && k !in store.disk.parents && l in store.disk.parents && old(Expendable(l, now)) ::
                      old(store.disk).parents[k].metadata.value.lastUsed <= old(store.disk).parents[l].metadata.value.lastUsed)
                && (gone != [] ==>
                      var kept := c.taken + gone[|gone| - 1].bytes + workers * config.childReserveBytes;
                      kept > config.quotaBytes || (requestedQuota > 0 && kept > requestedQuota))
      // undisturbed it fails only when room is lacking with every such parent gone
      ensures free.Some? && !dryRun && WellFormed(store.provider, old(store.disk).parents) && old(Legible(records, store.disk.pending) && env.Calm()) && !ok ==>
                && (forall k | k in old(store.disk).parents && old(Expendable(k, now)) :: k !in store.disk.parents)
                && (|| Recount(store.disk, records) + workers * config.childReserveBytes > config.quotaBytes
                    || (requestedQuota > 0 && Recount(store.disk, records) + workers * config.childReserveBytes > requestedQuota)
                    || free.value - workers * config.childReserveBytes < config.hostFloorBytes
                    || free.value - workers * config.childReserveBytes < requestedFloor)
      ensures old(env.crashed) ==> env.crashed && store.disk == old(store.disk)
      ensures old(env.Calm()) ==> env.Calm()
    {
      hide InUse, Legible, WellFormed, KeysNamed, IsListing, Collected, NoRoomWith, Resolve, Candidates, BytesOf, Recount, Shortest,
           ReclaimableBytes, Exactly, JustEnough, Environment.Calm, Environment.OneFault, Active, UsedSince, KeysOf;
      c, ok, gone, listing, active := Limits(workers, requestedQuota, requestedFloor, 0, 0), false, [], [], {};
      if free.None? {
        return;
      }
      var taken := Measure();
      var limits := Limits(workers, requestedQuota, requestedFloor, free.value, taken);
      if limits.Room(taken) && !dryRun {
        c, ok := limits, true;
        return;
      }
      c, ok, gone, listing, active := Pass(limits, dryRun, now);
      ghost var candidates := Candidates(listing, active, now - config.parentTTL);
      if Exactly(limits, candidates, old(store.disk).parents, store.disk.parents, gone, c.taken) {
        ExactlyRecounts(limits, candidates, old(store.disk), store.disk, records, gone, c.taken);
        if !dryRun { PrefixIsShortest(limits, candidates, gone); }
        if WellFormed(store.provider, old(store.disk).parents) && old(Legible(records, store.disk.pending)) {
          WellFormedIsNamed(store.provider, old(store.disk).parents);
          PassMeans(old(store.disk).parents, store.disk.parents, listing, active, now - config.parentTTL, limits, gone);
        }
      }
    }

    /** `status`: what a pass could reclaim, or that the records block any pass. */
    method Reclaimable(now: int) returns (r: Option<int>, ghost active: set<Key>)
      ensures r.Some? <==> Legible(records, store.disk.pending)
      ensures r.Some? ==> forall key :: key in active <==> Active(key)
      ensures r.Some? && KeysNamed(store.disk.parents) ==>
                && r.value == SumOver(ReclaimableBytes(store.disk.parents, active, now - config.parentTTL))
                && r.value == SumOver(map k | k in store.disk.parents && store.disk.parents[k].metadata.Some?
                                              && store.disk.parents[k].metadata.value.key !in active
                                              && store.disk.parents[k].metadata.value.lastUsed <= now - config.parentTTL
                                            :: store.disk.parents[k].metadata.value.bytes)
    {
      hide InUse, Legible, KeysNamed, IsListing, Candidates, BytesOf, ReclaimableBytes;
      active := {};
      var protected := ActiveKeys();
      if protected.None? {
        return None, {};
      }
      active := protected.value;
      var listing := ListParents();
      var cutoff := now - config.parentTTL;
      var total := 0;
      NothingGone(store.disk.parents, listing, active, cutoff, Limits(0, 0, 0, 0, 0));
      for i := 0 to |listing|
        invariant total == BytesOf(Candidates(listing[..i], active, cutoff))
      {
        NextCandidate(listing, active, cutoff, i);
        if listing[i].key !in protected.value && listing[i].lastUsed <= cutoff {
          total := total + listing[i].bytes;
        }
      }
      assert listing[..|listing|] == listing;
      if KeysNamed(store.disk.parents) {
        ReclaimableAgrees(store.disk.parents, listing, active, cutoff);
        ReclaimableIs(store.disk.parents, active, cutoff);
      }
      r := Some(total);
    }

    /** A dry run promises what `status` promises. */
    method StatusThenDryRun(free: int, now: int) returns (status: Option<int>, dry: Option<int>)
      requires store.env == env && KeysNamed(store.disk.parents)
      modifies store`disk, env`drawn, env`crashed
      ensures status == dry && store.disk == old(store.disk)
    {
      ghost var active, theirs, gone, listing;
      status, active := Reclaimable(now);
      var c, ok;
      c, ok, gone, listing, theirs := EnsureCapacity(0, true, 0, 0, Some(free), now);
      if ok {
        assert forall key :: key in theirs <==> key in active;
        assert theirs == active;
      }
      dry := if ok then Some(c.reclaimable) else None;
    }

    // ----- Steps on records -----------------------------------------------------------------

    /** Journal writes and removals; everything else in the records stays. */
    method WriteLease(j: LeaseJournal, now: int) returns (ok: bool)
      modifies `records, env`drawn, env`crashed
      ensures records == if old(env.Ahead(0)).Effective() then WithLease(old(records), j.(updatedAt := now)) else old(records)
      ensures ok == old(env.Ahead(0)).Done? && (ok ==> !env.crashed)
      ensures old(Valid()) && Resolve(store.provider, store.disk.parents, j.parentKey).Valid? ==> Valid()
      ensures old(env.crashed) ==> env.crashed
      ensures old(env.Calm()) ==> env.Calm() && ok
    {
      var o := env.Next();
      if o.Effective() {
        records := WithLease(records, j.(updatedAt := now));
      }
      ok := o.Done?;
    }

    method RemoveLease(j: LeaseJournal) returns (ok: bool)
      modifies `records, env`drawn, env`crashed
      ensures records == old(records) || records == WithoutLease(old(records), j.leaseId)
      ensures ok ==> records == WithoutLease(old(records), j.leaseId) && !env.crashed
      // only a journal of the same lease, owner and parent goes
      ensures ok || records != old(records) ==>
                && j.leaseId in old(records).leases && old(records).leases[j.leaseId].Some?
                && var was := old(records).leases[j.leaseId].value;
                && was.leaseId == j.leaseId && was.token == j.token && was.parentKey == j.parentKey
      ensures old(Valid()) ==> Valid()
      ensures old(env.crashed) ==> env.crashed
      ensures old(env.Calm()) ==> env.Calm() && (old(SameJournal(records, j)) ==> ok)
    {
      var actual := ReadLease(records, j.leaseId);
      if actual.None? || actual.value.token != j.token || actual.value.parentKey != j.parentKey {
        return false;
      }
      var o := env.Next();
      if o.Landed() {
        records := WithoutLease(records, j.leaseId);
      }
      ok := o.Done?;
    }

    /** `WriteRetained`: created once; a failure or a crash may leave it whole or unreadable. */
    method WriteRetained(j: LeaseJournal) returns (ok: bool)
      modifies `records, env`drawn, env`crashed
      ensures records == old(records).(retained := records.retained)
      ensures j.runId in old(records).retained ==> !ok && records == old(records)
      ensures records.retained - {j.runId} == old(records).retained - {j.runId}
      ensures j.runId in records.retained && j.runId !in old(records).retained ==>
                records.retained[j.runId] in {None, Some(RetainedRecord(j.runId, j.leaseId, j.token, j.parentKey))}
      ensures ok ==> records.retained == old(records).retained[j.runId := Some(RetainedRecord(j.runId, j.leaseId, j.token, j.parentKey))]
      ensures old(Valid()) ==> Valid()
      ensures old(env.crashed) ==> env.crashed && records == old(records)
      ensures old(env.Calm()) ==> env.Calm() && ok == (j.runId !in old(records).retained)
    {
      if j.runId in records.retained {
        return false;
      }
      var dead := env.crashed;
      var o := env.Next();
      ok := o.Done?;
      var whole: bool, torn: bool := *, *;
      if ok || (!dead && whole) {
        records := records.(retained := records.retained[j.runId := Some(RetainedRecord(j.runId, j.leaseId, j.token, j.parentKey))]);
      } else if !dead && torn {
        records := records.(retained := records.retained[j.runId := None]);
      }
    }

    method RemoveRetainedRecord(record: RetainedRecord) returns (ok: bool)
      modifies `records, env`drawn, env`crashed
      ensures records == old(records) || records == old(records).(retained := old(records).retained - {record.runId})
      ensures ok ==> records == old(records).(retained := old(records).retained - {record.runId})
      ensures ok || records != old(records) ==>
                && record.runId in old(records).retained && old(records).retained[record.runId].Some?
                && var was := old(records).retained[record.runId].value;
                && was.runId == record.runId && was.leaseId == record.leaseId && was.token == record.token
      ensures old(Valid()) ==> Valid()
      ensures old(env.Calm()) ==> env.Calm() && (old(ReadRetained(records, record.runId)) == Some(record) ==> ok)
    {
      var actual := ReadRetained(records, record.runId);
      if actual.None? || actual.value.leaseId != record.leaseId || actual.value.token != record.token {
        return false;
      }
      var o := env.Next();
      if o.Landed() {
        records := records.(retained := records.retained - {record.runId});
      }
      ok := o.Done?;
    }

    /** `writeWorkspaceOwner`: created exclusively; a failure or a crash may leave anything up to the whole marker. */
    method WriteOwner(j: LeaseJournal, w: Id) returns (ok: bool)
      modifies `records, env`drawn, env`crashed
      ensures records == old(records).(workspaces := records.workspaces) && records.workspaces - {w} == old(records).workspaces - {w}
      ensures !old(Free(records, w)) ==> !ok && records == old(records)
      ensures ok ==> records == WithWorkspace(old(records), w, old(records).workspaces[w].(owner := Owner(j.leaseId, j.token))) && !env.crashed
      ensures old(Valid()) ==> Valid()
      ensures old(env.crashed) ==> env.crashed && records == old(records)
      ensures old(env.Calm()) ==> env.Calm() && ok == old(Free(records, w))
    {
      if !Free(records, w) {
        return false;
      }
      var dead := env.crashed;
      var o := env.Next();
      ok := o.Done?;
      var left: OwnerFile := *;
      if ok || (!dead && left == Owner(j.leaseId, j.token)) {
        records := WithWorkspace(records, w, records.workspaces[w].(owner := Owner(j.leaseId, j.token)));
      } else if !dead && left.Garbled? {
        records := WithWorkspace(records, w, records.workspaces[w].(owner := Garbled));
      }
    }

    /** `removeWorkspaceOwner`. */
    method RemoveOwner(j: LeaseJournal)
      modifies `records, env`drawn, env`crashed
      ensures records == old(records) || (j.workspaceId.Some? && OwnsWorkspace(old(records), j)
                && records == WithWorkspace(old(records), j.workspaceId.value, old(records).workspaces[j.workspaceId.value].(owner := Unowned)))
      ensures old(Valid()) ==> Valid()
    {
      if j.workspaceId.Some? && OwnsWorkspace(records, j) {
        var o := env.Next();
        if o.Landed() {
          records := WithWorkspace(records, j.workspaceId.value, records.workspaces[j.workspaceId.value].(owner := Unowned));
        }
      }
    }

    /** `cleanupOwnedWorkspace`: an owned workspace without links goes; if cut, part of it may be left. */
    method CleanWorkspace(j: LeaseJournal) returns (ok: bool)
      modifies `records, env`drawn, env`crashed
      ensures records == old(records) || OnlyWorkspaceOf(old(records), records, j)
      ensures ok ==> (env.crashed ==> old(env.crashed)) && (j.workspaceId.Some? ==> j.workspaceId.value !in records.workspaces)
      ensures ok && j.workspaceId.None? ==> records == old(records)
      ensures old(Valid()) ==> Valid()
      ensures old(env.crashed) ==> env.crashed
      ensures old(env.Calm()) ==> env.Calm() && ok == old(Cleanable(records, j))
    {
      if j.workspaceId.None? || j.workspaceId.value !in records.workspaces {
        return true;
      }
      var w := j.workspaceId.value;
      if !OwnsWorkspace(records, j) || records.workspaces[w].links {
        return false;
      }
      var dead := env.crashed;
      var o := env.Next();
      var unmarked: bool := *;
      if o.Landed() {
        records := records.(workspaces := records.workspaces - {w});
      } else if unmarked && !dead {
        records := WithWorkspace(records, w, records.workspaces[w].(owner := Unowned));
      }
      ok := o.Done?;
    }

    // ----- Steps of the native layer ----------------------------------------------------------

    /** `Native.AcquireChild`: the child appears and the journal is written on the way. */
    method AcquireChild(j: LeaseJournal, bytes: int, now: int) returns (ok: bool)
      modifies `records, env`drawn, env`crashed
      ensures records.(leases := old(records).leases, children := old(records).children) == old(records)
      ensures records.leases == old(records).leases || records.leases == old(records).leases[j.leaseId := Some(j.(updatedAt := now))]
      ensures records.children - {j.leaseId} == old(records).children - {j.leaseId}
      ensures ok ==>
                records == old(records).(leases := old(records).leases[j.leaseId := Some(j.(updatedAt := now))],
                                         children := old(records).children[j.leaseId := bytes])
      ensures old(Valid()) && Resolve(store.provider, store.disk.parents, j.parentKey).Valid? ==> Valid()
      ensures old(env.Calm()) ==> env.Calm() && ok
    {
      var o := env.Next();
      if o.Effective() {
        records := records.(children := records.children[j.leaseId := bytes]);
      }
      if !o.Done? {
        return false;
      }
      ok := WriteLease(j, now);
      if ok {
        o := env.Next();
        ok := o.Done?;
      }
    }

    /** `ChildSession.Release`: the disk is detached and, if asked for, deleted. */
    method ReleaseChild(id: Id, delete: bool) returns (ok: bool)
      modifies `records, env`drawn, env`crashed
      ensures records == old(records) || (delete && records == WithoutChild(old(records), id))
      ensures ok ==> records == (if delete then WithoutChild(old(records), id) else old(records)) && !env.crashed
      ensures old(Valid()) ==> Valid()
      ensures old(env.crashed) ==> env.crashed
      ensures old(env.Calm()) ==> env.Calm() && ok
    {
      var o := env.Next();
      if o.Effective() && delete {
        records := WithoutChild(records, id);
      }
      ok := o.Done?;
    }

    // ----- Requests -------------------------------------------------------------------------

    /** A pass of the collector, as `admit`, `gc` and the other requests make it. */
    method Collect(workers: int, dryRun: bool, quota: int, floor: int, free: Option<int>, now: int)
      returns (ok: bool, ghost listing: seq<Metadata>, ghost active: set<Key>)
      requires store.env == env
      modifies store`disk, env`drawn, env`crashed
      ensures old(Valid()) ==> Valid()
      ensures KeysNamed(old(store.disk).parents) ==> KeysNamed(store.disk.parents)
      ensures store.disk.pending == old(store.disk).pending && store.disk.parents.Keys <= old(store.disk).parents.Keys
      ensures forall k | k in old(store.disk).parents && old(Keeps(k, now)) ::
                k in store.disk.parents && store.disk.parents[k] == old(store.disk).parents[k]
      ensures free.None? ==> !ok
      ensures free.Some? && !dryRun && old(RoomFor(workers, quota, floor, free.value)) ==> ok && store.disk == old(store.disk)
      ensures free.Some? && !dryRun && !old(RoomFor(workers, quota, floor, free.value)) && old(Legible(records, store.disk.pending)) ==>
                && (forall key :: key in active <==> old(Active(key)))
                && (KeysNamed(old(store.disk).parents) ==> IsListing(old(store.disk).parents, listing))
      ensures free.Some? && !dryRun && !old(RoomFor(workers, quota, floor, free.value)) && !old(Legible(records, store.disk.pending)) ==> !ok
      // which parents have had to go
      ensures old(env.Calm()) && free.Some? && !dryRun && !old(RoomFor(workers, quota, floor, free.value))
              && WellFormed(store.provider, old(store.disk).parents) && old(Legible(records, store.disk.pending)) ==>
                var limits := Limits(workers, quota, floor, free.value, old(Recount(store.disk, records)));
                MadeRoom(limits, Candidates(listing, active, now - config.parentTTL), old(store.disk).parents, store.disk.parents, ok)
      ensures old(env.crashed) ==> env.crashed && store.disk == old(store.disk)
      ensures old(env.Calm()) ==> env.Calm()
    {
      hide InUse, Legible, WellFormed, KeysNamed, IsListing, Candidates, Shortest, Collected, NoRoomWith, Recount, MadeRoom;
      var c;
      ghost var gone;
      c, ok, gone, listing, active := EnsureCapacity(workers, dryRun, quota, floor, free, now);
      if old(env.Calm()) && free.Some? && !dryRun && !old(RoomFor(workers, quota, floor, free.value))
         && WellFormed(store.provider, old(store.disk).parents) && old(Legible(records, store.disk.pending)) {
        PassMadeRoom(Limits(workers, quota, floor, free.value, old(Recount(store.disk, records))),
                     Candidates(listing, active, now - config.parentTTL), old(store.disk).parents, store.disk.parents, ok, gone);
      }
      if old(Valid()) {
        forall k | k in old(store.disk).parents && InUse(records, store.disk.pending, k)
          ensures k in store.disk.parents && store.disk.parents[k] == old(store.disk).parents[k]
        {
          assert old(Keeps(k, now));
        }
        CollectionKeeps(store.provider, old(store.disk).parents, store.disk.parents, records, store.disk.pending);
      }
    }

    /** A workspace that a lease owns is refused to any other; undisturbed, that lease can be released again. */
    method GrantThenRelease(j: LeaseJournal, quota: int, floor: int, free: Option<int>, bytes: int, touchedAt: int, now: int)
      returns (granted: bool, released: bool)
      requires store.env == env && j.leaseId !in records.leases && j.leaseId !in sessions && env.Calm()
      requires j.workspaceId.Some? && j.workspaceId.value in records.workspaces ==> !records.workspaces[j.workspaceId.value].links
      modifies store`disk, `records, `sessions, env`drawn, env`crashed
      ensures granted ==>
                && released && j.leaseId !in records.leases && j.leaseId !in records.children && j.leaseId !in sessions
                && j.workspaceId.Some? && j.workspaceId.value !in records.workspaces
      ensures j.workspaceId.Some? && j.workspaceId.value in old(records).workspaces && old(records).workspaces[j.workspaceId.value].owner != Unowned ==>
                !granted
    {
      hide Valid, InUse, Legible, WellFormed, Resolve, Doomed, Grantable, RoomFor, View.InTime, Keeps;
      released := false;
      ghost var listing, active;
      granted, listing, active := Acquire(j, quota, floor, free, free, bytes, touchedAt, now);
      if granted {
        released := Release(j.leaseId, false, free, now);
      }
    }

    /** The parent was used within the time to live. */
    predicate Recent(key: Key, now: int)
      reads this, store
    {
      key in store.disk.parents && UsedSince(store.disk.parents[key], now - config.parentTTL)
    }

    /** What the requests to come depend on. */
    ghost function Now(): View
      reads this, store, env
    {
      View(store.disk, env.plan, env.drawn, env.crashed)
    }

    /**
     `acquire`: the parent is touched, room is made, and then the journal names the parent.  The touch
     keeps the pass from collecting the parent; it may fail unnoticed, and then only a recent use does.
     When nothing but the touch fails, the child dangles exactly if its parent is among the few that have
     to go for room, and nothing else stands in the way of the lease.
     */
    method Acquire(j: LeaseJournal, quota: int, floor: int, free: Option<int>, after: Option<int>, bytes: int, touchedAt: int, now: int)
      returns (ok: bool, ghost listing: seq<Metadata>, ghost active: set<Key>)
      requires store.env == env && j.leaseId !in records.leases && j.leaseId !in sessions
      modifies store`disk, `records, `sessions, env`drawn, env`crashed
      ensures old(Valid()) && old(Now()).InTime(store.provider, config.parentTTL, j.parentKey, touchedAt, now) ==> Valid()
      ensures old(Valid() && OnlyTouchFails(j.parentKey) && !Recent(j.parentKey, now))
              && WellFormed(store.provider, old(store.disk).parents) ==>
                && (old(Grantable(j, free)) && !old(RoomFor(1, quota, floor, free.value)) ==>
                      (forall key :: key in active <==> old(Active(key))) && IsListing(old(store.disk).parents, listing))
                && (Valid() <==> !old(Doomed(j, quota, floor, free, listing, active, now)))
                && (old(Doomed(j, quota, floor, free, listing, active, now)) ==> ok)
      ensures old(env.Calm()) ==> env.Calm()
      ensures store.disk.pending == old(store.disk).pending
      ensures KeysNamed(old(store.disk).parents) ==> KeysNamed(store.disk.parents)
      ensures ok ==>
                && old(Resolve(store.provider, store.disk.parents, j.parentKey)).Valid? && j.leaseId in records.children
                && j.leaseId in records.leases && records.leases[j.leaseId] == Some(j.(state := Ready, updatedAt := now))
                && sessions == old(sessions)[j.leaseId := j.parentKey]
      // the parent of a lease in time has been touched
      ensures ok && old(env.Ahead(1)).Effective() && now - touchedAt < config.parentTTL && KeysNamed(old(store.disk).parents) ==>
                j.parentKey in store.disk.parents
                && store.disk.parents[j.parentKey] == Touched(old(store.disk), j.parentKey, touchedAt).parents[j.parentKey]
      // at every crash point: a child that has appeared has its journal
      ensures j.leaseId in records.children && j.leaseId !in old(records).children ==> j.leaseId in records.leases
      ensures ok ==> Installed(old(records), records, j, bytes, now)
      ensures !ok ==> sessions == old(sessions)
      ensures records.leases - {j.leaseId} == old(records).leases - {j.leaseId}
      ensures j.workspaceId.None? || !old(Unmounted(records, j.workspaceId.value)) ==> !ok && records == old(records)
      ensures old(env.Calm() && Resolve(store.provider, store.disk.parents, j.parentKey).Valid?)
              && j.workspaceId.Some? && old(Free(records, j.workspaceId.value)) && free.Some? && old(RoomFor(1, quota, floor, free.value)) ==>
                ok
    {
      hide NoneDangling, KeysNamed, InUse, Legible, WellFormed, Recount, TakenForRoom, IsListing, Candidates, Doomed, Grantable, Active,
           Installed, OnlyTouchFails, View.InTime, Keeps, Touched, Resolve, Environment.Calm, Environment.OneFault;
      ok, listing, active := false, [], {};
      var reached := Approach(j.parentKey, touchedAt, now);
      if reached {
        ok, listing, active := Admit(j, quota, floor, free, after, bytes, now);
      }
    }

    /** The first steps of `acquire`: the parent is resolved, verified and touched; an error of the touch is ignored. */
    method Approach(key: Key, touchedAt: int, now: int) returns (reached: bool)
      requires store.env == env
      modifies store`disk, env`drawn, env`crashed
      ensures reached <==> old(Resolve(store.provider, store.disk.parents, key)).Valid? && old(env.Ahead(0)).Done?
      ensures store.disk == if reached && old(env.Ahead(1)).Effective() then Touched(old(store.disk), key, touchedAt) else old(store.disk)
      ensures store.disk.pending == old(store.disk).pending && Recount(store.disk, records) == old(Recount(store.disk, records))
      ensures KeysNamed(old(store.disk).parents) ==> KeysNamed(store.disk.parents)
      ensures old(Valid()) ==> Valid()
      ensures reached ==> Resolve(store.provider, store.disk.parents, key).Valid?
      // the parent is safe from the pass that follows, or nothing follows any more
      ensures reached && old(Valid()) && old(Now()).InTime(store.provider, config.parentTTL, key, touchedAt, now) ==> Keeps(key, now) || env.crashed
      ensures reached && KeysNamed(old(store.disk).parents) && old(env.Ahead(1)).Effective() && now - touchedAt < config.parentTTL ==> Keeps(key, now)
      ensures old(env.Calm() && Resolve(store.provider, store.disk.parents, key).Valid?) ==> reached
      ensures old(OnlyTouchFails(key)) ==> reached && store.disk == old(store.disk) && env.Calm()
      ensures old(env.Calm()) ==> env.Calm()
    {
      hide NoneDangling, KeysNamed, Active, Recount;
      var resolved := Resolve(store.provider, store.disk.parents, key);
      var verified := env.Next();
      reached := resolved.Valid? && verified.Done?;
      if reached {
        var touched := store.TouchParent(resolved.metadata, touchedAt);
      }
      if store.disk != old(store.disk) {
        TouchKeepsNames(old(store.disk), key, touchedAt);
        TouchKeepsCount(old(store.disk), store.disk, records, key, touchedAt);
        if old(Valid()) {
          TouchKeeps(store.provider, old(store.disk), store.disk, records, key, touchedAt);
        }
      }
    }

    /** The lease will be granted, and its parent is among those that have to go for room. */
    ghost predicate Doomed(j: LeaseJournal, quota: int, floor: int, free: Option<int>, listing: seq<Metadata>, active: set<Key>, now: int)
      reads this, store
    {
      && Grantable(j, free) && !RoomFor(1, quota, floor, free.value)
      && TakenForRoom(Limits(1, quota, floor, free.value, Recount(store.disk, records)),
                      Candidates(listing, active, now - config.parentTTL), j.parentKey)
    }

    /** Nothing but a lack of room stands in the way of the lease. */
    ghost predicate Grantable(j: LeaseJournal, free: Option<int>)
      reads this, store
    {
      free.Some? && j.workspaceId.Some? && Free(records, j.workspaceId.value) && Legible(records, store.disk.pending)
    }

    /** The parent will verify, its touch will fail, and nothing else. */
    ghost predicate OnlyTouchFails(key: Key)
      reads this, store, env
    {
      && !env.crashed && Resolve(store.provider, store.disk.parents, key).Valid?
      && env.Ahead(0) == Done && env.Ahead(1) == Failed && forall i | env.drawn + 2 <= i < |env.plan| :: env.plan[i] == Done
    }

    /** `acquire` from the making of room on. */
    method Admit(j: LeaseJournal, quota: int, floor: int, free: Option<int>, after: Option<int>, bytes: int, now: int)
      returns (ok: bool, ghost listing: seq<Metadata>, ghost active: set<Key>)
      requires store.env == env && j.leaseId !in records.leases && j.leaseId !in sessions
      requires Resolve(store.provider, store.disk.parents, j.parentKey).Valid?
      modifies store`disk, `records, `sessions, env`drawn, env`crashed
      ensures old(Valid()) && (old(Keeps(j.parentKey, now)) || old(env.crashed)) ==> Valid()
      ensures old(Valid() && env.Calm()) && WellFormed(store.provider, old(store.disk).parents) ==>
                && (old(Grantable(j, free)) && !old(RoomFor(1, quota, floor, free.value)) ==>
                      (forall key :: key in active <==> old(Active(key))) && IsListing(old(store.disk).parents, listing))
                && (Valid() <==> !old(Doomed(j, quota, floor, free, listing, active, now)))
                && (old(Doomed(j, quota, floor, free, listing, active, now)) ==> ok)
      ensures old(env.Calm()) ==> env.Calm()
      ensures store.disk.pending == old(store.disk).pending
      ensures KeysNamed(old(store.disk).parents) ==> KeysNamed(store.disk.parents)
      ensures ok ==>
                && j.leaseId in records.children
                && j.leaseId in records.leases && records.leases[j.leaseId] == Some(j.(state := Ready, updatedAt := now))
                && sessions == old(sessions)[j.leaseId := j.parentKey]
      ensures ok && old(Keeps(j.parentKey, now)) ==>
                j.parentKey in store.disk.parents && store.disk.parents[j.parentKey] == old(store.disk).parents[j.parentKey]
      // at every crash point: a child that has appeared has its journal
      ensures j.leaseId in records.children && j.leaseId !in old(records).children ==> j.leaseId in records.leases
      ensures ok ==> Installed(old(records), records, j, bytes, now)
      ensures !ok ==> sessions == old(sessions)
      ensures records.leases - {j.leaseId} == old(records).leases - {j.leaseId}
      ensures j.workspaceId.None? || !old(Unmounted(records, j.workspaceId.value)) ==> !ok && records == old(records)
      ensures old(env.Calm()) && j.workspaceId.Some? && old(Free(records, j.workspaceId.value))
              && free.Some? && old(RoomFor(1, quota, floor, free.value)) ==>
                ok
    {
      hide NoneDangling, KeysNamed, InUse, Legible, WellFormed, Recount, TakenForRoom, IsListing, Candidates, MadeRoom, Installed;
      ok := false;
      var room;
      room, listing, active := Collect(1, false, quota, floor, free, now);
      ghost var limits := Limits(1, quota, floor, if free.Some? then free.value else 0, old(Recount(store.disk, records)));
      ghost var candidates := Candidates(listing, active, now - config.parentTTL);
      ghost var collected := store.disk.parents;
      if old(Valid() && env.Calm()) && WellFormed(store.provider, old(store.disk).parents) && old(Legible(records, store.disk.pending))
         && free.Some? && !old(RoomFor(1, quota, floor, free.value)) {
        RoomCosts(store.provider, old(store.disk).parents, collected, listing, limits, active, now - config.parentTTL, j.parentKey, room);
      }
      if !room || j.workspaceId.None? || !Unmounted(records, j.workspaceId.value) {
        return;
      }
      ghost var before := records;
      ok := Install(j, bytes, now);
      SameJournalsDangle(store.provider, collected, before, records);
      if ok {
        if j.parentKey !in collected { Dangles(store.provider, store.disk.parents, records, j.leaseId); }
        assert j.leaseId in sessions && Keeps(j.parentKey, now);
        var _, _, _ := Collect(0, false, 0, 0, after, now);
        if j.parentKey !in collected { Dangles(store.provider, store.disk.parents, records, j.leaseId); }
      }
    }

    /** After a failed acquire: without a child the marker and the journal go, else the journal is set aside. */
    method GiveUp(j: LeaseJournal, now: int)
      requires j.workspaceId.Some?
      modifies `records, env`drawn, env`crashed
      ensures old(Valid()) && Resolve(store.provider, store.disk.parents, j.parentKey).Valid? ==> Valid()
      ensures records.leases - {j.leaseId} == old(records).leases - {j.leaseId} && records.children == old(records).children
      ensures j.leaseId in records.children && j.leaseId in old(records).leases ==> j.leaseId in records.leases
    {
      hide Valid, NoneDangling, KeysNamed, Resolve, ReadLease, OwnsWorkspace;
      if j.leaseId !in records.children {
        RemoveOwner(j);
        var _ := RemoveLease(j);
      } else {
        var _ := WriteLease(j.(state := Quarantined), now);
      }
    }

    /** Child and workspace of a lease whose last journal could not be written; errors are ignored. */
    method TakeBack(j: LeaseJournal)
      modifies `records, env`drawn, env`crashed
      ensures old(Valid()) ==> Valid()
      ensures records.leases == old(records).leases
    {
      hide Valid;
      var _ := ReleaseChild(j.leaseId, true);
      var _ := CleanWorkspace(j);
    }

    /** From the journal to the session. */
    method Install(j: LeaseJournal, bytes: int, now: int) returns (ok: bool)
      requires j.workspaceId.Some?
      modifies `records, `sessions, env`drawn, env`crashed
      ensures old(Valid()) && Resolve(store.provider, store.disk.parents, j.parentKey).Valid? ==> Valid()
      ensures records.leases - {j.leaseId} == old(records).leases - {j.leaseId}
      ensures ok ==>
                && j.leaseId in records.children
                && j.leaseId in records.leases && records.leases[j.leaseId] == Some(j.(state := Ready, updatedAt := now))
                && sessions == old(sessions)[j.leaseId := j.parentKey]
      // at every crash point: a child that has appeared has its journal
      ensures j.leaseId in records.children && j.leaseId !in old(records).children ==> j.leaseId in records.leases
      ensures ok ==> Installed(old(records), records, j, bytes, now)
      ensures !ok ==> sessions == old(sessions)
      ensures old(env.crashed) ==> !ok && records == old(records)
      ensures old(env.Calm()) && j.leaseId !in old(records).leases && !old(Free(records, j.workspaceId.value)) ==>
                !ok && records.leases == old(records).leases
      ensures old(env.Calm()) ==> env.Calm() && (old(Free(records, j.workspaceId.value)) ==> ok)
    {
      hide Environment.Calm, Environment.OneFault;
      hide Valid, NoneDangling, KeysNamed, Resolve, ReadLease, OwnsWorkspace;
      ok := WriteLease(j, now);
      if !ok {
        return;
      }
      Undone(old(records), j, now);
      ok := WriteOwner(j, j.workspaceId.value);
      if !ok {
        var _ := RemoveLease(j);
        return;
      }
      ok := AcquireChild(j, bytes, now);
      if !ok {
        GiveUp(j, now);
        return;
      }
      ok := WriteLease(j.(state := Ready), now);
      if !ok {
        TakeBack(j);
        return;
      }
      sessions := sessions[j.leaseId := j.parentKey];
    }

    /** `heartbeat`: the client's process ids are put into the journal. */
    method Heartbeat(id: Id, clientPid: int, unityPid: int, boot: Option<Name>, now: int) returns (ok: bool)
      modifies `records, env`drawn, env`crashed
      ensures old(Valid()) ==> Valid()
      ensures records == old(records).(leases := records.leases) && records.leases - {id} == old(records).leases - {id}
      ensures ok ==> id in sessions && old(ReadLease(records, id)).Some? && old(ReadLease(records, id)).value.state == Ready
      // what is written, and when
      ensures var write := id in old(records).leases && old(records).leases[id].Some? && old(records).leases[id].value.leaseId == id
                           && old(records).leases[id].value.state == Ready && old(env.Ahead(0)).Effective();
              records.leases ==
                if !write then old(records).leases
                else
                  var j := old(records).leases[id].value;
                  old(records).leases[id := Some(j.(
                    clientPid := clientPid, updatedAt := now,
                    unityPid := if unityPid == 0 then j.unityPid else unityPid,
                    boot := if j.boot == None then boot else j.boot))]
      ensures old(env.Calm()) ==>
                (ok <==> id in sessions && id in old(records).leases && old(records).leases[id].Some?
                         && old(records).leases[id].value.leaseId == id && old(records).leases[id].value.state == Ready)
    {
      var found := ReadLease(records, id);
      if found.None? || found.value.state != Ready {
        return false;
      }
      JournalsParent(store.provider, store.disk.parents, records, id);
      var j := found.value.(
        clientPid := clientPid,
        boot := if found.value.boot.None? then boot else found.value.boot,
        unityPid := if unityPid != 0 then unityPid else found.value.unityPid);
      ok := WriteLease(j, now);
      ok := ok && id in sessions;
    }

    /** `release`: the child is deleted with its workspace and journal, or kept with a retained record. */
    method Release(id: Id, retain: bool, free: Option<int>, now: int) returns (ok: bool)
      requires store.env == env
      modifies store`disk, `records, `sessions, env`drawn, env`crashed
      ensures old(Valid()) ==> Valid()
      ensures records.leases - {id} == old(records).leases - {id}
      ensures ok ==> id in old(sessions) && sessions == old(sessions) - {id} && old(ReadLease(records, id)).Some?
      ensures !ok ==> sessions == old(sessions)
      ensures ok && !retain ==> GoneWith(records, old(ReadLease(records, id)).value)
      ensures ok && retain ==>
                var j := old(ReadLease(records, id)).value;
                && records.children == old(records).children
                && j.runId in records.retained && records.retained[j.runId] == Some(RetainedRecord(j.runId, id, j.token, j.parentKey))
                && id in records.leases && records.leases[id] == Some(j.(state := Released, retained := true, updatedAt := now))
      // at every crash point: a child that is being deleted has a journal that says so, or none any more
      ensures !retain && id in old(records).children && id !in records.children && id in records.leases ==>
                records.leases[id].Some? && records.leases[id].value.state in {Releasing, Quarantined}
      // undisturbed, a workspace that cannot be cleaned sets the lease aside
      ensures old(env.Calm()) && !ok && !retain && id in old(sessions) && old(ReadLease(records, id)).Some? ==>
                id in records.leases && records.leases[id].Some? && records.leases[id].value.state == Quarantined
      ensures old(env.Calm()) && id in old(sessions) && old(ReadLease(records, id)).Some?
              && (if retain then old(ReadLease(records, id)).value.runId !in old(records).retained
                  else old(Cleanable(records, ReadLease(records, id).value))) ==>
                ok
    {
      hide Valid, NoneDangling, KeysNamed, Resolve;
      if id !in sessions || ReadLease(records, id).None? {
        return false;
      }
      var j := ReadLease(records, id).value.(retained := retain);
      ValidParent(id);
      ok := WriteLease(j.(state := Releasing), now);
      if ok {
        ok := Retire(j, now);
      }
      if ok {
        sessions := sessions - {id};
        var _, _, _ := Collect(0, false, 0, 0, free, now);
      }
    }

    /** What becomes of a lease that is being released: kept with a retained record, or gone. */
    method Retire(j: LeaseJournal, now: int) returns (ok: bool)
      requires SameJournal(records, j)
      modifies `records, env`drawn, env`crashed
      ensures old(Valid()) && Resolve(store.provider, store.disk.parents, j.parentKey).Valid? ==> Valid()
      ensures records.leases - {j.leaseId} == old(records).leases - {j.leaseId}
      ensures ok && !j.retained ==> GoneWith(records, j)
      ensures ok && j.retained ==>
                && records.children == old(records).children
                && j.runId in records.retained && records.retained[j.runId] == Some(RetainedRecord(j.runId, j.leaseId, j.token, j.parentKey))
                && j.leaseId in records.leases && records.leases[j.leaseId] == Some(j.(state := Released, updatedAt := now))
      ensures old(env.Calm()) ==>
                env.Calm() && ok == (if j.retained then j.runId !in old(records).retained else old(Cleanable(records, j)))
      ensures !j.retained && j.leaseId in records.leases ==>
                records.leases[j.leaseId] in {old(records).leases[j.leaseId], Some(j.(state := Quarantined, updatedAt := now))}
      ensures old(env.Calm()) && !ok && !j.retained ==>
                j.leaseId in records.leases && records.leases[j.leaseId] == Some(j.(state := Quarantined, updatedAt := now))
    {
      hide Valid, NoneDangling, KeysNamed, Resolve;
      if j.retained {
        ok := ReleaseChild(j.leaseId, false);
        if ok {
          ok := WriteLease(j.(state := Released), now);
          if ok {
            ok := WriteRetained(j);
          }
          return;
        }
      } else {
        ok := StripLease(j);
        if ok {
          ok := RemoveLease(j);
          return;
        }
      }
      var _ := WriteLease(j.(state := Quarantined), now);
    }

    /** The parent of a readable journal resolves. */
    lemma ValidParent(id: Id)
      requires ReadLease(records, id).Some?
      ensures Valid() ==> Resolve(store.provider, store.disk.parents, ReadLease(records, id).value.parentKey).Valid?
    {
    }

    /** `attachRetained`: a retained child gets a session again, mounted in a workspace that is free. */
    method AttachRetained(run: Id, w: Id, now: int) returns (ok: bool)
      modifies `records, `sessions, env`drawn, env`crashed
      ensures old(Valid()) ==> Valid()
      ensures ok ==> old(RetainedLease(run)).Some? && old(ReadRetained(records, run)).Some?
      ensures ok ==>
                && var j := old(RetainedLease(run)).value;
                && old(Resolve(store.provider, store.disk.parents, ReadRetained(records, run).value.parentKey)).Valid?
                && w in old(records).workspaces && !old(records).workspaces[w].mounted
                && j.leaseId !in old(sessions) && sessions == old(sessions)[j.leaseId := j.parentKey]
                && records == WithLease(old(records), j.(state := Ready, updatedAt := now))
      ensures !ok ==> sessions == old(sessions)
      // undisturbed it succeeds exactly for a record and a journal that agree, a parent that resolves and a free place
      ensures old(env.Calm()) ==>
                (ok <==>
                  && run in old(records).retained && old(records).retained[run].Some?
                  && var record := old(records).retained[run].value;
                  && record.runId == run && record.leaseId in old(records).leases && old(records).leases[record.leaseId].Some?
                  && var j := old(records).leases[record.leaseId].value;
                  && j.leaseId == record.leaseId && j.retained && j.token == record.token && record.leaseId !in old(sessions)
                  && old(Resolve(store.provider, store.disk.parents, record.parentKey)).Valid?
                  && w in old(records).workspaces && !old(records).workspaces[w].mounted)
    {
      hide NoneDangling, KeysNamed;
      var found := RetainedLease(run);
      if found.None? || found.value.leaseId in sessions {
        return false;
      }
      ValidParent(found.value.leaseId);
      var key := ReadRetained(records, run).value.parentKey;
      if !Resolve(store.provider, store.disk.parents, key).Valid? || w !in records.workspaces || records.workspaces[w].mounted {
        return false;
      }
      var attached := env.Next();
      if !attached.Done? {
        return false;
      }
      ok := WriteLease(found.value.(state := Ready), now);
      if !ok {
        var _ := ReleaseChild(found.value.leaseId, false);
        return;
      }
      sessions := sessions[found.value.leaseId := found.value.parentKey];
    }

    /** The journal behind a retained record, if they agree. */
    function RetainedLease(run: Id): Option<LeaseJournal>
      reads `records
    {
      var record := ReadRetained(records, run);
      if record.None? then None
      else
        var j := ReadLease(records, record.value.leaseId);
        if j.Some? && j.value.retained && j.value.token == record.value.token then j else None
    }

    /** `removeRetained`: child, workspace, journal and record of a retained lease go. */
    method RemoveRetained(run: Id, now: int) returns (ok: bool)
      modifies `records, `sessions, env`drawn, env`crashed
      ensures old(Valid()) ==> Valid()
      ensures ok ==>
                && old(RetainedLease(run)).Some?
                && GoneWith(records, old(RetainedLease(run)).value) && run !in records.retained
                && sessions == old(sessions) - {old(RetainedLease(run)).value.leaseId}
      ensures !ok ==> sessions == old(sessions)
      // undisturbed it succeeds for a record and a journal that agree, if the child is attached or its parent
      // resolves, and nothing stands in the way of cleaning the workspace
      ensures old(env.Calm()) ==>
                (ok <==>
                  && run in old(records).retained && old(records).retained[run].Some?
                  && var record := old(records).retained[run].value;
                  && record.runId == run && record.leaseId in old(records).leases && old(records).leases[record.leaseId].Some?
                  && var j := old(records).leases[record.leaseId].value;
                  && j.leaseId == record.leaseId && j.retained && j.token == record.token
                  && (record.leaseId in old(sessions) || old(Resolve(store.provider, store.disk.parents, record.parentKey)).Valid?)
                  && (|| j.workspaceId.None? || j.workspaceId.value !in old(records).workspaces
                      || (old(records).workspaces[j.workspaceId.value].owner == Owner(j.leaseId, j.token)
                          && !old(records).workspaces[j.workspaceId.value].links)))
    {
      hide Valid, NoneDangling, KeysNamed, Resolve;
      var found := RetainedLease(run);
      if found.None? {
        return false;
      }
      var j, record := found.value, ReadRetained(records, run).value;
      ValidParent(j.leaseId);
      if j.leaseId !in sessions {
        var attached := env.Next();
        if !Resolve(store.provider, store.disk.parents, record.parentKey).Valid? || !attached.Done? {
          return false;
        }
      }
      ok := ReleaseChild(j.leaseId, true);
      if !ok {
        return;
      }
      ok := CleanWorkspace(j);
      if !ok {
        var _ := WriteLease(j.(state := Quarantined), now);
        return;
      }
      ok := RemoveLease(j);
      if ok {
        ok := RemoveRetainedRecord(record);
      }
      if ok {
        sessions := sessions - {j.leaseId};
      }
    }

    // ----- Recovery -------------------------------------------------------------------------

    /** One pending directory in `RecoverPending`. */
    method RecoverPendingEntry(host: Host, key: Key, now: int, grace: int) returns (v: PendingVerdict)
      requires store.env == env && key in store.disk.pending
      modifies store`disk, `records, env`drawn, env`crashed
      ensures store.disk.parents == old(store.disk).parents && store.disk.pending - {key} == old(store.disk).pending - {key}
      ensures records == old(records).(quarantine := records.quarantine)
      ensures old(env.crashed) ==> env.crashed
      ensures PendingKept(host, old(store.disk).pending, key, now, grace) ==> v.Left?
      ensures old(Valid()) ==> Valid()
      ensures v.Left? ==> (env.crashed && !old(env.crashed)) || (store.disk == old(store.disk) && records == old(records))
      ensures v.Dropped? ==> key !in store.disk.pending && records == old(records) && old(store.disk).pending[key].staging.None?
      ensures v.Moved? ==>
                && key !in store.disk.pending && ReadPending(old(store.disk).pending, key).Some? && old(store.disk).pending[key].staging.Some?
                && var txn := ReadPending(old(store.disk).pending, key).value.transactionId;
                && txn !in old(records).quarantine
                && records.quarantine == old(records).quarantine[txn := old(store.disk).pending[key].staging.value.bytes]
      ensures old(env.Calm()) ==> env.Calm() && !v.Stopped?
      // undisturbed, an unreadable, young or live entry stays, one without an image is dropped, and the image of
      // any other is moved to quarantine if its name is free there
      ensures old(env.Calm()) ==>
                var dir := old(store.disk).pending[key];
                v == if !dir.record.Record? || dir.record.pending.key != key
                        || dir.record.pending.updatedAt > now - grace || host.alive(dir.record.pending.clientPid) then Left
                     else if dir.staging.None? then Dropped
                     else if dir.record.pending.transactionId in old(records).quarantine then Left
                     else Moved
    {
      var found := ReadPending(store.disk.pending, key);
      if found.None? || found.value.updatedAt > now - grace || host.alive(found.value.clientPid) {
        return Left;
      }
      var dir := store.disk.pending[key];
      if dir.staging.None? {
        var removed := store.SetPending(key, dir.(record := NoRecord));
        if removed {
          removed := store.RemovePendingDir(key);
        }
        return if removed then Dropped else Stopped;
      }
      if found.value.transactionId in records.quarantine {
        return Left;
      }
      var o := env.Next();
      if o.Landed() {
        records := records.(quarantine := records.quarantine[found.value.transactionId := dir.staging.value.bytes]);
        store.disk := store.disk.(pending := store.disk.pending - {key});
      }
      v := if o.Done? then Moved else Left;
    }

    /** `RecoverPending`: entries that are young, alive or unreadable stay; the rest go or are quarantined. */
    method RecoverPending(host: Host, now: int, grace: int) returns (preserved: nat, quarantined: nat, ok: bool)
      requires store.env == env && !env.crashed
      modifies store`disk, `records, env`drawn, env`crashed
      ensures store.disk.parents == old(store.disk).parents
      ensures records == old(records).(quarantine := records.quarantine)
      ensures old(Valid()) ==> Valid()
      ensures ok && !env.crashed ==>
                && preserved == |store.disk.pending.Keys|
                && quarantined == |records.quarantine| - |old(records).quarantine|
                && store.disk.pending.Keys <= old(store.disk).pending.Keys
                && (forall key | key in old(store.disk).pending && key !in store.disk.pending ::
                      NothingStagedIsLost(old(store.disk).pending, key, records))
                && (forall key | key in store.disk.pending :: store.disk.pending[key] == old(store.disk).pending[key])
                && (forall key | key in old(store.disk).pending && PendingKept(host, old(store.disk).pending, key, now, grace) :: key in store.disk.pending)
      // undisturbed, nothing else stays, except where the name in quarantine is taken
      ensures old(env.Calm()) ==>
                forall key | key in store.disk.pending ::
                  PendingKept(host, old(store.disk).pending, key, now, grace) || NameTaken(old(store.disk).pending, key, records)
      ensures old(env.Calm()) ==> env.Calm() && ok
    {
      hide PendingKept, ReadPending, Sifted, Valid, NothingStagedIsLost, NameTaken;
      assert Sifted(store.disk.pending, store.disk.pending, store.disk.pending.Keys, {}) by { NothingSifted(store.disk.pending); }
      preserved, quarantined, ok := 0, 0, true;
      ghost var before := store.disk.pending;
      var rest := store.disk.pending.Keys;
      ghost var kept: set<Key> := {};
      while rest != {}
        invariant store.disk.parents == old(store.disk).parents && ok && (old(Valid()) ==> Valid()) && (old(env.Calm()) ==> env.Calm())
        invariant records == old(records).(quarantine := records.quarantine)
        invariant rest !! kept && preserved == |kept| && rest <= store.disk.pending.Keys
        invariant !env.crashed ==> Sifted(before, store.disk.pending, rest, kept)
        invariant !env.crashed ==> |records.quarantine| == |old(records).quarantine| + quarantined
        invariant !env.crashed ==> forall key | key in before && key !in rest && key !in kept :: NothingStagedIsLost(before, key, records)
        invariant forall key | key in before && PendingKept(host, before, key, now, grace) && !env.crashed ::
              key in rest || key in kept
        invariant old(env.Calm()) ==> forall key | key in kept :: key in before && (PendingKept(host, before, key, now, grace) || NameTaken(before, key, records))
        decreases |rest|
      {
        var key :| key in rest;
        ghost var current, all, was := store.disk.pending, rest, records;
        rest := rest - {key};
        assert rest + {key} == all;
        var v := RecoverPendingEntry(host, key, now, grace);
        OthersStay(current, store.disk.pending, key);
        if !env.crashed && !v.Stopped? {
          SiftStep(host, before, current, store.disk.pending, rest, kept, key, v.Left?, now, grace);
          StillSafe(before, current, key, was, records, v.Left?);
          StillTaken(host, before, current, key, was, records, now, grace, v);
        }
        match v
        case Left => preserved, kept := preserved + 1, kept + {key};
        case Moved => quarantined := quarantined + 1;
        case Dropped =>
        case Stopped => return preserved, quarantined, false;
      }
      if !env.crashed { AllSifted(before, store.disk.pending, kept); }
    }

    /** One journal in the loop of `Recover`. */
    method RecoverEntry(host: Host, j: LeaseJournal, now: int, grace: int) returns (v: Verdict)
      requires ReadLease(records, j.leaseId) == Some(j)
      modifies `records, `sessions, env`drawn, env`crashed
      ensures old(Valid()) ==> Valid()
      ensures OnlyOf(old(records), records, j)
      ensures host.Keeps(j, now, grace) ==> v.Preserved? && records == old(records)
      ensures v.Preserved? ==> host.Keeps(j, now, grace)
      // who is kept
      ensures v.Preserved? <==>
                || j.retained
                || ((j.boot == None || host.boot == None || j.boot == host.boot)
                    && (host.alive(j.clientPid) || host.alive(j.unityPid) || j.updatedAt > now - grace))
      ensures v.Freed? ==> GoneWith(records, j)
      ensures v.Parked? ==> j.leaseId in records.leases
      ensures old(env.crashed) ==> env.crashed
      // undisturbed, a lease that is not kept goes, unless its parent or its workspace stands in the way; then it
      // is set aside
      ensures old(env.Calm()) && !v.Preserved? ==>
                v == if (j.leaseId in old(records).children ==> Resolve(store.provider, store.disk.parents, j.parentKey).Valid?)
                        && old(Cleanable(records, j))
                     then Freed else Parked
      ensures old(env.Calm()) && v.Parked? ==> records.leases[j.leaseId] == Some(j.(state := Quarantined, updatedAt := now))
      // without its parent a child is not touched
      ensures !v.Preserved? && j.leaseId in old(records).children && !Resolve(store.provider, store.disk.parents, j.parentKey).Valid? ==>
                v.Parked? && records == old(records).(leases := records.leases)
      ensures old(env.Calm()) ==> env.Calm() && !v.Failing?
    {
      hide Valid, NoneDangling, KeysNamed, Resolve;
      if host.Keeps(j, now, grace) {
        return Preserved;
      }
      ValidParent(j.leaseId);
      if j.leaseId !in records.children {
        var cleaned := CleanWorkspace(j);
        if !cleaned {
          var _ := WriteLease(j.(state := Quarantined), now);
          return Parked;
        }
        var removed := RemoveLease(j);
        return if removed then Freed else Failing;
      }
      var verified := env.Next();
      if !Resolve(store.provider, store.disk.parents, j.parentKey).Valid? || !verified.Done? {
        var _ := WriteLease(j.(state := Quarantined), now);
        return Parked;
      }
      if j.leaseId !in sessions {
        var written := WriteLease(j.(state := Recovering), now);
        if !written {
          return Failing;
        }
        var attached := env.Next();
        if !attached.Done? {
          var _ := WriteLease(j.(state := Quarantined), now);
          return Parked;
        }
      }
      v := Discard(j, now);
    }

    /** Child and workspace of a lease. */
    method StripLease(j: LeaseJournal) returns (ok: bool)
      modifies `records, env`drawn, env`crashed
      ensures old(Valid()) ==> Valid()
      ensures OnlyOf(old(records), records, j) && records.leases == old(records).leases
      ensures ok ==> j.leaseId !in records.children && (j.workspaceId.Some? ==> j.workspaceId.value !in records.workspaces)
      ensures old(env.crashed) ==> env.crashed
      ensures old(env.Calm()) ==> env.Calm() && ok == old(Cleanable(records, j))
    {
      hide Valid;
      ok := ReleaseChild(j.leaseId, true);
      if ok {
        ok := CleanWorkspace(j);
      }
    }

    /** The end of a lease that recovery has attached: child, workspace, journal. */
    method Discard(j: LeaseJournal, now: int) returns (v: Verdict)
      requires j.leaseId in records.leases
      modifies `records, `sessions, env`drawn, env`crashed
      ensures old(Valid()) && Resolve(store.provider, store.disk.parents, j.parentKey).Valid? ==> Valid()
      ensures OnlyOf(old(records), records, j)
      ensures v.Freed? ==> GoneWith(records, j)
      ensures v.Parked? ==> j.leaseId in records.leases
      ensures !v.Preserved?
      ensures old(env.crashed) ==> env.crashed
      ensures old(env.Calm() && SameJournal(records, j)) ==> v == if old(Cleanable(records, j)) then Freed else Parked
      ensures old(env.Calm()) && v.Parked? ==> records.leases[j.leaseId] == Some(j.(state := Quarantined, updatedAt := now))
      ensures old(env.Calm()) ==> env.Calm() && (old(SameJournal(records, j)) ==> !v.Failing?)
    {
      hide Valid, NoneDangling, KeysNamed, Resolve;
      var released := StripLease(j);
      if !released {
        var _ := WriteLease(j.(state := Quarantined), now);
        return Parked;
      }
      var removed := RemoveLease(j);
      if !removed {
        return Failing;
      }
      sessions := sessions - {j.leaseId};
      v := Freed;
    }

    /** `ListLeases`: the journals that can be read. */
    method ListLeases() returns (journals: seq<LeaseJournal>)
      ensures Journals(records, journals) && |journals| == |ReadableLeases(records)|
    {
      journals := [];
      var rest := records.leases.Keys;
      ghost var seen: set<Id> := {};
      while rest != {}
        invariant rest <= records.leases.Keys
        invariant forall id | id in seen :: id in records.leases && id !in rest && ReadLease(records, id).Some?
        invariant forall id | id in records.leases && id !in rest && ReadLease(records, id).Some? :: id in seen
        invariant |journals| == |seen| && forall id | id in seen :: ReadLease(records, id).value in journals
        invariant forall i | 0 <= i < |journals| ::
              ReadLease(records, journals[i].leaseId) == Some(journals[i]) && journals[i].leaseId !in rest
        invariant forall i, k | 0 <= i < k < |journals| :: journals[i].leaseId != journals[k].leaseId
        decreases |rest|
      {
        var id :| id in rest;
        rest := rest - {id};
        var j := ReadLease(records, id);
        if j.Some? {
          journals := journals + [j.value];
          seen := seen + {id};
        }
      }
      assert seen == ReadableLeases(records);
    }

    /**
     `Recover`.  Each count is the number of the leases and pending entries that met that fate; together
     they make up the journals that can be read and the pending entries left or moved.  A lease that recovery
     keeps is left as it is, at every crash point; any other is gone with all that belongs to it or still
     has its journal.
     */
    method Recover(host: Host, now: int, grace: int) returns (s: Summary, ok: bool)
      requires store.env == env && !env.crashed
      modifies store`disk, `records, `sessions, env`drawn, env`crashed
      ensures old(Valid()) ==> Valid()
      ensures ok && !env.crashed ==>
                var moved := |records.quarantine| - |old(records).quarantine|;
                && s.released == |FreedLeases(old(records), records, host, now, EffectiveGrace(grace))|
                && s.preserved == |KeptLeases(old(records), host, now, EffectiveGrace(grace))| + |store.disk.pending.Keys|
                && s.quarantined == |ParkedLeases(old(records), records, host, now, EffectiveGrace(grace))| + moved
                && s.released + s.preserved + s.quarantined == |ReadableLeases(old(records))| + |store.disk.pending.Keys| + moved
      ensures forall id | id in old(records).leases && old(ReadLease(records, id)).Some? ::
                var j := old(ReadLease(records, id)).value;
                if host.Keeps(j, now, EffectiveGrace(grace)) then Intact(old(records), records, j)
                else ok ==> GoneWith(records, j) || id in records.leases
      // the same in full: who is kept, with thirty seconds of grace unless the caller says otherwise
      ensures
        var since := now - (if grace > 0 then grace else 30_000_000_000);
        forall id | id in old(records).leases && old(records).leases[id].Some? && old(records).leases[id].value.leaseId == id ::
          var j := old(records).leases[id].value;
          if j.retained || ((j.boot == None || host.boot == None || j.boot == host.boot)
                            && (host.alive(j.clientPid) || host.alive(j.unityPid) || j.updatedAt > since))
          then Intact(old(records), records, j) else ok ==> GoneWith(records, j) || id in records.leases
      ensures old(env.Calm()) ==>
                ok && forall key | key in store.disk.pending ::
                  PendingKept(host, old(store.disk).pending, key, now, EffectiveGrace(grace)) || NameTaken(old(store.disk).pending, key, records)
    {
      hide Valid, NoneDangling, KeysNamed, Resolve, Intact, GoneWith, Host.Keeps, ReadLease, ReadableLeases, PendingKept, NameTaken,
           Tallied, FreedLeases, KeptLeases, ParkedLeases;
      var journals := ListLeases();
      var effective := EffectiveGrace(grace);
      var preserved, quarantined, swept := RecoverPending(host, now, effective);
      s, ok := Summary(0, preserved, quarantined), swept;
      IntactAfterPending(old(records), records, journals, host, now, effective);
      if !ok {
        JournalsCover(old(records), records, journals, host, now, effective, false);
        InFull(old(records), records, host, now, grace, false);
        return;
      }
      ghost var freed, parked, kept, sifted := {}, {}, {}, records;
      s, ok, freed, parked, kept := RecoverLeases(journals, s, host, now, effective, old(records));
      SameTaken(old(store.disk).pending, sifted, records);
      JournalsCover(old(records), records, journals, host, now, effective, ok);
      InFull(old(records), records, host, now, grace, ok);
      if ok {
        TallyDone(old(records), records, journals, host, now, effective, freed, parked, kept);
      }
    }

    /** The loop of `Recover` over the journals. */
    method RecoverLeases(journals: seq<LeaseJournal>, counted: Summary, host: Host, now: int, grace: int, ghost start: Records)
      returns (s: Summary, ok: bool, ghost freed: set<Id>, ghost parked: set<Id>, ghost kept: set<Id>)
      requires Journals(start, journals)
      requires RecoveredUpTo(start, records, journals, host, now, grace, 0)
      modifies `records, `sessions, env`drawn, env`crashed
      ensures old(Valid()) ==> Valid()
      ensures records.quarantine == old(records).quarantine
      ensures old(env.crashed) ==> env.crashed
      ensures ok ==>
                && Tallied(records, journals, |journals|, host, now, grace, freed, parked, kept)
                && s == Summary(counted.released + |freed|, counted.preserved + |kept|, counted.quarantined + |parked|)
                && |freed| + |kept| + |parked| == |journals|
      ensures if ok then RecoveredUpTo(start, records, journals, host, now, grace, |journals|) else KeptSoFar(start, records, journals, host, now, grace)
      ensures old(env.Calm()) ==> ok
    {
      hide Valid, Intact, OnlyOf, GoneWith, Host.Keeps, ReadLease, Tallied, RecoveredUpTo, KeptSoFar, Journals;
      s, ok, freed, parked, kept := counted, true, {}, {}, {};
      NothingTallied(records, journals, host, now, grace);
      for i := 0 to |journals|
        invariant ok && (old(Valid()) ==> Valid()) && (old(env.Calm()) ==> env.Calm()) && (old(env.crashed) ==> env.crashed)
        invariant records.quarantine == old(records).quarantine
        invariant s == Summary(counted.released + |freed|, counted.preserved + |kept|, counted.quarantined + |parked|)
        invariant |freed| + |kept| + |parked| == i && Tallied(records, journals, i, host, now, grace, freed, parked, kept)
        invariant RecoveredUpTo(start, records, journals, host, now, grace, i)
      {
        ghost var before := records;
        StillReads(start, records, journals, host, now, grace, i);
        var v := RecoverEntry(host, journals[i], now, grace);
        SameQuarantine(before, records, journals[i]);
        RecoveredStep(start, before, records, journals, host, now, grace, i, v);
        TallyStep(start, before, records, journals, i, host, now, grace, freed, parked, kept, v);
        match v
        case Preserved =>
          s, kept := s.(preserved := s.preserved + 1), kept + {journals[i].leaseId};
        case Freed =>
          s, freed := s.(released := s.released + 1), freed + {journals[i].leaseId};
        case Parked =>
          s, parked := s.(quarantined := s.quarantined + 1), parked + {journals[i].leaseId};
        case Failing =>
          ok := false;
          return;
      }
    }

    // ----- Building parents -------------------------------------------------------------------

    /**
     `beginParent`: a valid parent is touched and served, a missing one may be built by one client at a
     time, and anything else is an error.
     */
    method BeginParent(key: Key, w: Id, txn: Id, token: Name, image: Image, now: int, clientPid: int) returns (r: ParentAnswer)
      requires store.env == env && txn !in builds
      modifies store`disk, `builds, env`drawn, env`crashed
      ensures old(Valid()) ==> Valid()
      ensures forall k | Resolve(store.provider, old(store.disk).parents, k).Valid? ::
            Resolve(store.provider, store.disk.parents, k).Valid?
      ensures r.Reused? ==>
                && old(Resolve(store.provider, store.disk.parents, key)) == StoreParents.Valid(r.metadata)
                && store.disk == if old(env.Ahead(1)).Effective() then Touched(old(store.disk), key, now) else old(store.disk)
      ensures old(Resolve(store.provider, store.disk.parents, key)).Corrupt? ==> r.Refused? && store.disk == old(store.disk)
      ensures r.Waiting? ==> key in store.disk.pending && store.disk == old(store.disk)
      ensures r.Building? ==>
                && key !in old(store.disk).pending && old(Resolve(store.provider, store.disk.parents, key)).Missing?
                && old(Unmounted(records, w)) && r.pending == Pending(txn, token, key, now, clientPid)
                && store.disk == WithPending(old(store.disk), key, PendingDir(Record(r.pending), Some(image)))
      ensures builds == if r.Building? then old(builds)[txn := r.pending] else old(builds)
      ensures old(env.Calm()) ==>
                && env.Calm()
                && match old(Resolve(store.provider, store.disk.parents, key))
                   case Valid(m) => r == Reused(m)
                   case Corrupt => r.Refused?
                   case Missing =>
                     if !old(Unmounted(records, w)) then r.Refused?
                     else if key in old(store.disk).pending then r.Waiting? else r.Building?
    {
      hide NoneDangling, KeysNamed;
      var resolved := Resolve(store.provider, store.disk.parents, key);
      if resolved.Valid? {
        var verified := env.Next();
        if !verified.Done? {
          return Refused;
        }
        if old(Valid()) { TouchKeeps(store.provider, store.disk, Touched(store.disk, key, now), records, key, now); }
        var _ := store.TouchParent(resolved.metadata, now);
        return Reused(resolved.metadata);
      }
      if resolved.Corrupt? || !Unmounted(records, w) {
        return Refused;
      }
      var opening := store.BeginParent(key, txn, token, now, clientPid);
      if opening.Conflict? {
        return Waiting;
      }
      if opening.Unopened? {
        return Refused;
      }
      var staged := store.Stage(key, image);
      if !staged {
        var _ := store.AbortParent(opening.pending);
        return Refused;
      }
      builds := builds[txn := opening.pending];
      r := Building(opening.pending);
    }

    /** `commitParent`: what the native layer has measured becomes the metadata of the parent. */
    method CommitParent(txn: Id, evidence: Metadata, now: int) returns (r: Option<Metadata>)
      requires store.env == env
      modifies store`disk, `builds, env`drawn, env`crashed
      ensures old(Valid()) ==> Valid()
      ensures if txn in old(builds) then OnlyKey(old(store.disk), store.disk, old(builds)[txn].key) else r.None? && store.disk == old(store.disk)
      ensures r.Some? ==>
                && txn in old(builds) && r.value.key == old(builds)[txn].key && builds == old(builds) - {txn}
                && PublishedFrom(old(store.disk), store.disk, r.value.key, r.value)
                && Resolve(store.provider, store.disk.parents, r.value.key) == StoreParents.Valid(r.value)
                && r.value.lastUsed == now && r.value.bytes == evidence.bytes && r.value.token == old(builds)[txn].token
      ensures r.None? ==> builds == old(builds)
      ensures old(env.Calm()) && txn in old(builds) && old(store.Owned(builds[txn])) && old(builds)[txn].key !in old(store.disk).parents ==>
                env.Calm() && r.Some? && r.value.bytes == evidence.bytes && r.value.key !in store.disk.pending
    {
      hide NoneDangling, KeysNamed;
      if txn !in builds {
        return None;
      }
      var pending := builds[txn];
      var finalized := env.Next();
      if !finalized.Done? {
        return None;
      }
      var m := evidence.(key := pending.key, token := pending.token);
      var committed := store.CommitParent(pending, m, now);
      if old(Valid()) {
        CommitKeeps(store.provider, old(store.disk), store.disk, records, pending.key, Finished(store.provider, m, now));
      }
      if committed.Published? {
        builds := builds - {txn};
        r := Some(committed.metadata);
      } else {
        r := None;
      }
    }

    /** `abortParent`: the image goes first, then the record. */
    method AbortParent(txn: Id) returns (ok: bool)
      requires store.env == env
      modifies store`disk, `builds, env`drawn, env`crashed
      ensures old(Valid()) ==> Valid()
      ensures store.disk.parents == old(store.disk).parents
      ensures ok ==> txn in old(builds) && old(builds)[txn].key !in store.disk.pending && builds == old(builds) - {txn}
      ensures !ok ==> builds == old(builds)
      ensures txn in old(builds) ==> store.disk.pending - {old(builds)[txn].key} == old(store.disk).pending - {old(builds)[txn].key}
      ensures old(env.Calm()) && txn in old(builds) && old(store.Identified(builds[txn])) ==> ok
    {
      if txn !in builds {
        return false;
      }
      ok := store.Unstage(builds[txn].key);
      if ok {
        ok := store.AbortParent(builds[txn]);
      }
      if ok {
        builds := builds - {txn};
      }
    }

    // ----- Runs -----------------------------------------------------------------------------

    /** A client makes, changes or removes a workspace. */
    method Arrange(w: Id, dir: Option<WorkspaceDir>)
      modifies `records
      ensures old(Valid()) ==> Valid()
      ensures records == old(records).(workspaces := if dir.Some? then old(records).workspaces[w := dir.value] else old(records).workspaces - {w})
    {
      records := records.(workspaces := if dir.Some? then records.workspaces[w := dir.value] else records.workspaces - {w});
    }

    /** The broker dies and another one starts on the same store. */
    method Restart(plan: seq<Outcome>)
      modifies `sessions, `builds, env
      ensures old(Valid()) ==> Valid()
      ensures sessions == map[] && builds == map[] && env.plan == plan && !env.crashed
    {
      env.Restart(plan);
      sessions, builds := map[], map[];
    }

    /** One request, or something that clients do. */
    method Serve(call: Call)
      requires store.env == env && !env.crashed
      modifies store`disk, `records, `sessions, `builds, env`drawn, env`crashed
      ensures old(Valid()) && Timely(old(Now()), store.provider, config.parentTTL, call) ==> Valid()
    {
      hide NoneDangling, KeysNamed, InUse, Legible, WellFormed, Resolve, ReadLease, View.InTime, IsListing;
      match call
      case Acquire(j, quota, floor, free, after, bytes, touchedAt, now) =>
        if j.leaseId !in records.leases && j.leaseId !in sessions {
          var _, _, _ := Acquire(j, quota, floor, free, after, bytes, touchedAt, now);
        }
      case Heartbeat(id, clientPid, unityPid, boot, now) =>
        var _ := Heartbeat(id, clientPid, unityPid, boot, now);
      case Release(id, retain, free, now) =>
        var _ := Release(id, retain, free, now);
      case AttachRetained(run, w, now) =>
        var _ := AttachRetained(run, w, now);
      case RemoveRetained(run, now) =>
        var _ := RemoveRetained(run, now);
      case Collect(workers, dryRun, quota, floor, free, now) =>
        var _, _, _ := Collect(workers, dryRun, quota, floor, free, now);
      case BeginParent(key, w, txn, token, image, now, clientPid) =>
        if txn !in builds {
          var _ := BeginParent(key, w, txn, token, image, now, clientPid);
        }
      case CommitParent(txn, evidence, now) =>
        var _ := CommitParent(txn, evidence, now);
      case AbortParent(txn) =>
        var _ := AbortParent(txn);
      case Recover(host, now, grace) =>
        var _, _ := Recover(host, now, grace);
      case Arrange(w, dir) =>
        Arrange(w, dir);
    }

    /**
     No dangling child: whatever requests come, one at a time, wherever the broker dies and whatever
     fails, every lease journal names a parent that resolves, as long as every acquire was in time when
     its turn came; and that is so if touches do not fail and none is older than the time to live when
     room is made.
     */
    method Run(calls: seq<Call>, deaths: map<nat, seq<Outcome>>) returns (ghost views: seq<View>)
      requires Valid()
      modifies store`disk, `records, `sessions, `builds, env
      ensures |views| == |calls|
      ensures AllTimely(views, store.provider, config.parentTTL, calls) ==> Valid()
      ensures (forall i | 0 <= i < |calls| :: Prompt(calls[i], config.parentTTL))
              && Failed !in old(env.plan) && (forall i | i in deaths :: Failed !in deaths[i]) ==>
                Valid()
      // the views are those of this run
      ensures calls != [] && 0 !in deaths ==> views[0] == old(Now())
      ensures Follow(views, old(env.plan), deaths)
    {
      assert store.env == env;
      hide AllTimely, Follow, Timely, Prompt, PlanAt, Valid;
      views := [];
      ghost var plan := env.plan;
      NothingYet(views, store.provider, config.parentTTL, calls, plan, deaths);
      for i := 0 to |calls|
        invariant store.env == env && |views| == i && env.plan == PlanBefore(plan, deaths, i)
        invariant AllTimely(views, store.provider, config.parentTTL, calls) ==> Valid()
        invariant if i == 0 then Now() == old(Now()) else 0 !in deaths ==> views[0] == old(Now())
        invariant Follow(views, plan, deaths)
      {
        if i in deaths {
          Restart(deaths[i]);
        }
        OneMoreView(views, Now(), store.provider, config.parentTTL, calls, plan, deaths);
        views := views + [Now()];
        if !env.crashed {
          Serve(calls[i]);
        }
      }
      PromptRunsAreTimely(views, store.provider, config.parentTTL, calls, plan, deaths);
    }
  }

  datatype ParentAnswer = Reused(metadata: Metadata) | Waiting | Building(pending: Pending) | Refused

  datatype Call =
    | Acquire(journal: LeaseJournal, quota: int, floor: int, free: Option<int>, after: Option<int>, bytes: int, touchedAt: int, now: int)
    | Heartbeat(id: Id, clientPid: int, unityPid: int, boot: Option<Name>, now: int)
    | Release(id: Id, retain: bool, free: Option<int>, now: int)
    | AttachRetained(run: Id, workspaceId: Id, now: int)
    | RemoveRetained(run: Id, now: int)
    | Collect(workers: int, dryRun: bool, quota: int, floor: int, free: Option<int>, now: int)
    | BeginParent(key: Key, workspaceId: Id, transactionId: Id, token: Name, image: Image, now: int, clientPid: int)
    | CommitParent(transactionId: Id, evidence: Metadata, now: int)
    | AbortParent(transactionId: Id)
    | Recover(host: Host, now: int, grace: int)
    | Arrange(workspaceId: Id, dir: Option<WorkspaceDir>)

  /** Every request but an acquire is timely, and an acquire if it is in time. */
  ghost predicate Timely(v: View, provider: Name, ttl: int, call: Call) {
    call.Acquire? ==> v.InTime(provider, ttl, call.journal.parentKey, call.touchedAt, call.now)
  }

  /** Less than the time to live lies between the touch and the making of room. */
  predicate Prompt(call: Call, ttl: int) {
    call.Acquire? ==> call.now - call.touchedAt < ttl
  }

  /** The plan by which the i-th request runs: that of the last death before it. */
  function PlanAt(plan: seq<Outcome>, deaths: map<nat, seq<Outcome>>, i: nat): seq<Outcome> {
    if i in deaths then deaths[i] else if i == 0 then plan else PlanAt(plan, deaths, i - 1)
  }

  function PlanBefore(plan: seq<Outcome>, deaths: map<nat, seq<Outcome>>, i: nat): seq<Outcome> {
    if i == 0 then plan else PlanAt(plan, deaths, i - 1)
  }

  /** Every call was timely in the state that it met. */
  ghost predicate AllTimely(views: seq<View>, provider: Name, ttl: int, calls: seq<Call>)
    requires |views| <= |calls|
  {
    forall i | 0 <= i < |views| :: Timely(views[i], provider, ttl, calls[i])
  }

  ghost predicate Follow(views: seq<View>, plan: seq<Outcome>, deaths: map<nat, seq<Outcome>>) {
    forall i | 0 <= i < |views| :: views[i].plan == PlanAt(plan, deaths, i)
  }

  lemma NothingYet(views: seq<View>, provider: Name, ttl: int, calls: seq<Call>, plan: seq<Outcome>, deaths: map<nat, seq<Outcome>>)
    requires views == []
    ensures AllTimely(views, provider, ttl, calls) && Follow(views, plan, deaths)
  {
  }

  lemma OneMoreView(views: seq<View>, v: View, provider: Name, ttl: int, calls: seq<Call>, plan: seq<Outcome>, deaths: map<nat, seq<Outcome>>)
    requires |views| < |calls| && Follow(views, plan, deaths)
    requires v.plan == if |views| in deaths then deaths[|views|] else PlanBefore(plan, deaths, |views|)
    ensures AllTimely(views + [v], provider, ttl, calls) ==>
              AllTimely(views, provider, ttl, calls) && Timely(v, provider, ttl, calls[|views|])
    ensures Follow(views + [v], plan, deaths) && PlanBefore(plan, deaths, |views| + 1) == v.plan
  {
    hide Timely;
    var all := views + [v];
    assert all[|views|] == v && forall i | 0 <= i < |views| :: all[i] == views[i];
  }

  lemma {:induction false} PlanFrom(plan: seq<Outcome>, deaths: map<nat, seq<Outcome>>, i: nat)
    ensures PlanAt(plan, deaths, i) == plan || exists d :: d in deaths && PlanAt(plan, deaths, i) == deaths[d]
  {
    if i !in deaths && i > 0 {
      PlanFrom(plan, deaths, i - 1);
    }
  }

  /** Where no step fails outright, a prompt acquire is in time. */
  lemma PromptIsTimely(v: View, provider: Name, ttl: int, call: Call)
    requires Failed !in v.plan && Prompt(call, ttl)
    ensures Timely(v, provider, ttl, call)
  {
  }

  lemma PromptRunsAreTimely(views: seq<View>, provider: Name, ttl: int, calls: seq<Call>, plan: seq<Outcome>, deaths: map<nat, seq<Outcome>>)
    requires |views| == |calls| && Follow(views, plan, deaths)
    ensures (forall i | 0 <= i < |calls| :: Prompt(calls[i], ttl)) && Failed !in plan && (forall i | i in deaths :: Failed !in deaths[i]) ==>
              AllTimely(views, provider, ttl, calls)
  {
    hide Timely, Prompt;
    if (forall i | 0 <= i < |calls| :: Prompt(calls[i], ttl)) && Failed !in plan && (forall i | i in deaths :: Failed !in deaths[i]) {
      forall i | 0 <= i < |calls| ensures Timely(views[i], provider, ttl, calls[i]) {
        PlanFrom(plan, deaths, i);
        PromptIsTimely(views[i], provider, ttl, calls[i]);
      }
    }
  }

  /** A commit adds a parent at most. */
  lemma CommitKeeps(provider: Name, before: Disk, after: Disk, r: Records, key: Key, m: Metadata)
    requires KeysNamed(before.parents) && NoneDangling(provider, before.parents, r) && OnlyKey(before, after, key)
    requires key in before.parents ==> after == before
    requires key in after.parents && after.parents != before.parents ==> m.key == key && after.parents[key].metadata in {None, Some(m)}
    ensures KeysNamed(after.parents) && NoneDangling(provider, after.parents, r)
  {
    forall k | k != key ensures (k in after.parents <==> k in before.parents) && (k in before.parents ==> after.parents[k] == before.parents[k]) {
      assert k in after.parents <==> k in after.parents - {key};
      assert k in before.parents <==> k in before.parents - {key};
    }
  }

  /** A parent that stands alone, is not in use and has expired has to go if its bytes make room. */
  lemma TheOnlyParentGoes(m: Metadata, image: Image, listing: seq<Metadata>, active: set<Key>, cutoff: int, c: Capacity)
    requires IsListing(map[m.key := Committed(image, m)], listing) && MayGo(m, active, cutoff)
    requires !c.Room(c.taken) && c.Room(c.taken - m.bytes)
    ensures TakenForRoom(c, Candidates(listing, active, cutoff), m.key)
  {
    var parents := map[m.key := Committed(image, m)];
    assert parents[m.key].metadata.value in listing;
    forall i | 0 <= i < |listing| ensures listing[i] == m {
      assert listing[i] in listing;
    }
    assert |listing| > 1 ==> listing[0].key != listing[1].key;
    assert listing == [m] && [m][..0] == [] && [m][..1] == [m];
    assert Candidates([m], active, cutoff) == [m];
    assert BytesOf([m]) == m.bytes;
    assert m in [m] && m.key in KeysOf([m]);
    assert Shortest(c, [m], 1);
  }

  lemma OneParentCounts(key: Key, dir: ParentDir, r: Records)
    requires dir.image.Some? && r.children == map[] && r.quarantine == map[]
    ensures Recount(Disk(map[key := dir], map[]), r) == dir.image.value.bytes
  {
    var bytes := ImageBytes(map[key := dir]);
    SumWithout(bytes, key);
    assert bytes - {key} == map[];
    assert StagingBytes(map[]) == map[];
  }

  function Unused(n: Name): Metadata {
    Metadata(PARENT_SCHEMA, n, n, n, 0, n, 10, true)
  }

  function Requesting(n: Name): LeaseJournal {
    LeaseJournal(n, n, n, n, Some(n), LeaseState.Requested, None, 0, 0, false, 0)
  }

  /** A broker with a quota for one parent, an empty workspace, and this parent, which has expired. */
  method TightBroker(n: Name) returns (broker: Broker)
    ensures fresh(broker) && fresh(broker.store) && fresh(broker.env) && broker.config == Config(10, 0, 5, 1) && broker.store.provider == n
    ensures broker.Valid() && broker.env.plan == [Done, Failed] && broker.env.drawn == 0 && !broker.env.crashed
    ensures broker.store.disk == Disk(map[n := Committed(Image(n, 10, true), Unused(n))], map[])
    ensures broker.records == Records(map[], map[], map[], map[n := WorkspaceDir(Unowned, false, false)], map[], {})
    ensures broker.sessions == map[]
  {
    var env := new Environment([Done, Failed]);
    var store := new Store(n, env, Disk(map[n := Committed(Image(n, 10, true), Unused(n))], map[]));
    broker := new Broker(Config(10, 0, 5, 1), store);
    broker.Arrange(n, Some(WorkspaceDir(Unowned, false, false)));
  }

  lemma TightIsDoomed(broker: Broker, n: Name)
    requires broker.config == Config(10, 0, 5, 1)
    requires broker.store.disk == Disk(map[n := Committed(Image(n, 10, true), Unused(n))], map[])
    requires broker.records == Records(map[], map[], map[], map[n := WorkspaceDir(Unowned, false, false)], map[], {})
    requires broker.sessions == map[]
    ensures broker.Grantable(Requesting(n), Some(100)) && !broker.RoomFor(1, 0, 0, 100)
    ensures forall listing, active | IsListing(broker.store.disk.parents, listing) && (forall key :: key in active <==> broker.Active(key)) ::
              broker.Doomed(Requesting(n), 0, 0, Some(100), listing, active, 100)
  {
    hide Recount, TakenForRoom, IsListing;
    OneParentCounts(n, Committed(Image(n, 10, true), Unused(n)), broker.records);
    forall listing, active | IsListing(broker.store.disk.parents, listing) && (forall key :: key in active <==> broker.Active(key))
      ensures broker.Doomed(Requesting(n), 0, 0, Some(100), listing, active, 100)
    {
      assert !broker.Active(n);
      TheOnlyParentGoes(Unused(n), Image(n, 10, true), listing, active, 99, broker.Limits(1, 0, 0, 100, 10));
    }
  }

  /**
   The touch matters.  Here the only parent has expired, nothing but its touch fails, and the room for the
   child is made by removing the very parent that the child needs: the lease is granted, and dangles.
   */
  method LostTouch(n: Name) returns (broker: Broker, granted: bool)
    ensures granted && fresh(broker) && n in broker.sessions && n in broker.records.leases
    ensures !NoneDangling(broker.store.provider, broker.store.disk.parents, broker.records)
  {
    hide Recount, TakenForRoom, IsListing, Broker.Doomed, Broker.Grantable, Broker.RoomFor, Broker.Active, NoneDangling;
    broker := TightBroker(n);
    TightIsDoomed(broker, n);
    ghost var listing, active;
    granted, listing, active := broker.Acquire(Requesting(n), 0, 0, Some(100), Some(100), 0, 100, 100);
  }

  /** From an empty store: a workspace, a parent built and committed, and a lease on it. */
  method FirstLease(n: Name) returns (broker: Broker, granted: bool)
    ensures granted && fresh(broker) && broker.Valid() && n in broker.sessions && n in broker.records.children
  {
    hide Recount, PublishedFrom;
    var env := new Environment([]);
    var store := new Store(n, env, Disk(map[], map[]));
    broker := new Broker(Config(100, 0, 5, 1), store);
    broker.Arrange(n, Some(WorkspaceDir(Unowned, false, false)));
    var begun := broker.BeginParent(n, n, n, n, Image(n, 10, false), 0, 0);
    ghost var pending := store.disk;
    var m := broker.CommitParent(n, Unused(n), 0);
    OnlyThisParent(pending, store.disk, n, m.value);
    OneParentCounts(n, store.disk.parents[n], broker.records);
    ghost var listing, active;
    granted, listing, active := broker.Acquire(Requesting(n), 0, 0, Some(100), Some(100), 0, 0, 0);
  }

  lemma OnlyThisParent(before: Disk, after: Disk, key: Key, m: Metadata)
    requires before.parents == map[] && before.pending.Keys == {key} && OnlyKey(before, after, key) && PublishedFrom(before, after, key, m)
    requires key !in after.pending
    ensures key in after.parents && after == Disk(map[key := after.parents[key]], map[])
    ensures SameImage(before.pending[key].staging, after.parents[key].image)
  {
    forall k | k in after.parents ensures k == key {
      assert k != key ==> k in after.parents - {key};
    }
    forall k | k in after.pending ensures k == key {
      assert k != key ==> k in after.pending - {key};
    }
  }

  /** A parent that is in use or was used after the cutoff is no candidate, whatever has to go. */
  lemma TouchedParentStays(parents: map<Key, ParentDir>, listing: seq<Metadata>, active: set<Key>, cutoff: int, n: nat, key: Key)
    requires KeysNamed(parents) && IsListing(parents, listing) && n <= |Candidates(listing, active, cutoff)|
    requires key in parents && parents[key].metadata.Some?
    ensures key in parents - KeysOf(Candidates(listing, active, cutoff)[..n]) <==>
              parents[key].metadata.value !in Candidates(listing, active, cutoff)[..n]
    ensures key in active || UsedSince(parents[key], cutoff) ==> parents[key].metadata.value !in Candidates(listing, active, cutoff)
  {
    CandidatesAre(listing, active, cutoff);
    var gone := Candidates(listing, active, cutoff)[..n];
    forall m | m in gone && m.key == key ensures m == parents[key].metadata.value {
      assert m in Candidates(listing, active, cutoff);
    }
    assert parents[key].metadata.value in gone ==> key in KeysOf(gone);
  }

  /** The leases that recovery keeps; those that it has freed; and those whose journals it has left. */
  ghost function KeptLeases(r: Records, host: Host, t: int, grace: int): set<Id> {
    set id | id in r.leases && ReadLease(r, id).Some? && host.Keeps(ReadLease(r, id).value, t, grace)
  }

  ghost function FreedLeases(r: Records, now: Records, host: Host, t: int, grace: int): set<Id> {
    set id | id in r.leases && ReadLease(r, id).Some? && !host.Keeps(ReadLease(r, id).value, t, grace) && id !in now.leases
  }

  ghost function ParkedLeases(r: Records, now: Records, host: Host, t: int, grace: int): set<Id> {
    set id | id in r.leases && ReadLease(r, id).Some? && !host.Keeps(ReadLease(r, id).value, t, grace) && id in now.leases
  }

  /** The first i leases sorted by what has become of them. */
  ghost predicate Tallied(now: Records, js: seq<LeaseJournal>, i: nat, host: Host, t: int, grace: int,
                          freed: set<Id>, parked: set<Id>, kept: set<Id>)
    requires i <= |js|
  {
    && (forall k | 0 <= k < i :: Sorted(now, js[k], host, t, grace, freed, parked, kept))
    && (forall id | id in freed || id in parked || id in kept :: exists k :: 0 <= k < i && js[k].leaseId == id)
  }

  ghost predicate Sorted(now: Records, j: LeaseJournal, host: Host, t: int, grace: int, freed: set<Id>, parked: set<Id>, kept: set<Id>) {
    && (j.leaseId in kept <==> host.Keeps(j, t, grace))
    && (j.leaseId in freed <==> !host.Keeps(j, t, grace) && j.leaseId !in now.leases)
    && (j.leaseId in parked <==> !host.Keeps(j, t, grace) && j.leaseId in now.leases)
  }

  lemma NothingTallied(now: Records, js: seq<LeaseJournal>, host: Host, t: int, grace: int)
    ensures Tallied(now, js, 0, host, t, grace, {}, {}, {})
  {
  }

  lemma TallyStep(start: Records, before: Records, after: Records, js: seq<LeaseJournal>, i: nat, host: Host, t: int, grace: int,
                  freed: set<Id>, parked: set<Id>, kept: set<Id>, v: Verdict)
    requires Journals(start, js) && i < |js| && OnlyOf(before, after, js[i])
    requires Tallied(before, js, i, host, t, grace, freed, parked, kept)
    requires (host.Keeps(js[i], t, grace) <==> v.Preserved?)
    requires (v.Freed? ==> GoneWith(after, js[i])) && (v.Parked? ==> js[i].leaseId in after.leases)
    ensures
      var id := {js[i].leaseId};
      && js[i].leaseId !in freed && js[i].leaseId !in parked && js[i].leaseId !in kept
      && (v.Preserved? ==> Tallied(after, js, i + 1, host, t, grace, freed, parked, kept + id))
      && (v.Freed? ==> Tallied(after, js, i + 1, host, t, grace, freed + id, parked, kept))
      && (v.Parked? ==> Tallied(after, js, i + 1, host, t, grace, freed, parked + id, kept))
  {
    hide Host.Keeps;
    var id := js[i].leaseId;
    forall k | 0 <= k < i ensures js[k].leaseId != id && (js[k].leaseId in after.leases <==> js[k].leaseId in before.leases) {
      assert js[k].leaseId in after.leases <==> js[k].leaseId in after.leases - {id};
      assert js[k].leaseId in before.leases <==> js[k].leaseId in before.leases - {id};
    }
  }

  lemma TallyDone(start: Records, now: Records, js: seq<LeaseJournal>, host: Host, t: int, grace: int,
                  freed: set<Id>, parked: set<Id>, kept: set<Id>)
    requires Journals(start, js) && Tallied(now, js, |js|, host, t, grace, freed, parked, kept)
    ensures freed == FreedLeases(start, now, host, t, grace) && parked == ParkedLeases(start, now, host, t, grace)
    ensures kept == KeptLeases(start, host, t, grace)
  {
    hide Host.Keeps;
    forall id | id in freed || id in parked || id in kept ensures id in start.leases && ReadLease(start, id).Some? {
      var k :| 0 <= k < |js| && js[k].leaseId == id;
    }
    forall id | id in start.leases && ReadLease(start, id).Some?
      ensures Sorted(now, ReadLease(start, id).value, host, t, grace, freed, parked, kept)
    {
      var k :| 0 <= k < |js| && js[k] == ReadLease(start, id).value;
    }
  }

  /** The journals that can be read, each once. */
  ghost predicate Journals(r: Records, js: seq<LeaseJournal>) {
    && (forall i | 0 <= i < |js| :: ReadLease(r, js[i].leaseId) == Some(js[i]))
    && (forall i, k | 0 <= i < k < |js| :: js[i].leaseId != js[k].leaseId)
    && (forall id | id in r.leases && ReadLease(r, id).Some? :: ReadLease(r, id).value in js)
  }

  /** Journal and child are as before, and so is the workspace if it is the lease's own. */
  ghost predicate Intact(before: Records, now: Records, j: LeaseJournal) {
    && j.leaseId in before.leases && j.leaseId in now.leases && now.leases[j.leaseId] == before.leases[j.leaseId]
    && (j.leaseId in now.children <==> j.leaseId in before.children)
    && (j.leaseId in now.children ==> now.children[j.leaseId] == before.children[j.leaseId])
    && (j.workspaceId.Some? && OwnsWorkspace(before, j) ==>
          j.workspaceId.value in now.workspaces && now.workspaces[j.workspaceId.value] == before.workspaces[j.workspaceId.value])
  }

  ghost predicate Recovered(before: Records, now: Records, j: LeaseJournal, host: Host, t: int, grace: int, done: bool) {
    if host.Keeps(j, t, grace) || !done then Intact(before, now, j) else GoneWith(now, j) || j.leaseId in now.leases
  }

  /** The first i leases have been recovered, and the others are as they were. */
  ghost predicate RecoveredUpTo(start: Records, now: Records, js: seq<LeaseJournal>, host: Host, t: int, grace: int, i: nat) {
    forall k | 0 <= k < |js| :: Recovered(start, now, js[k], host, t, grace, k < i)
  }

  /** The leases that recovery keeps are as they were. */
  ghost predicate KeptSoFar(start: Records, now: Records, js: seq<LeaseJournal>, host: Host, t: int, grace: int) {
    forall k | 0 <= k < |js| && host.Keeps(js[k], t, grace) :: Intact(start, now, js[k])
  }

  lemma StillReads(start: Records, now: Records, js: seq<LeaseJournal>, host: Host, t: int, grace: int, i: nat)
    requires Journals(start, js) && i < |js| && RecoveredUpTo(start, now, js, host, t, grace, i)
    ensures ReadLease(now, js[i].leaseId) == Some(js[i])
  {
    assert ReadLease(start, js[i].leaseId) == Some(js[i]);
    assert Recovered(start, now, js[i], host, t, grace, false);
  }

  lemma IntactAfterPending(before: Records, now: Records, js: seq<LeaseJournal>, host: Host, t: int, grace: int)
    requires Journals(before, js) && now == before.(quarantine := now.quarantine)
    ensures RecoveredUpTo(before, now, js, host, t, grace, 0) && KeptSoFar(before, now, js, host, t, grace)
  {
    forall k | 0 <= k < |js| ensures Intact(before, now, js[k]) {
      assert ReadLease(before, js[k].leaseId) == Some(js[k]);
    }
  }

  lemma SameQuarantine(before: Records, after: Records, j: LeaseJournal)
    requires OnlyOf(before, after, j)
    ensures after.quarantine == before.quarantine
  {
  }

  /** The work on one lease leaves the others as they are, or gone. */
  lemma OthersUntouched(start: Records, before: Records, after: Records, j: LeaseJournal, other: LeaseJournal)
    requires OnlyOf(before, after, j) && other.leaseId != j.leaseId
    ensures Intact(start, before, other) ==> Intact(start, after, other)
    ensures GoneWith(before, other) ==> GoneWith(after, other)
    ensures other.leaseId in before.leases ==> other.leaseId in after.leases
  {
    var id := other.leaseId;
    assert id in after.leases <==> id in after.leases - {j.leaseId};
    assert id in before.leases <==> id in before.leases - {j.leaseId};
    assert id in after.children <==> id in after.children - {j.leaseId};
    assert id in before.children <==> id in before.children - {j.leaseId};
    if other.workspaceId.Some? && after.workspaces != before.workspaces {
      var w, v := other.workspaceId.value, j.workspaceId.value;
      assert w != v ==> (w in after.workspaces <==> w in after.workspaces - {v}) && (w in before.workspaces <==> w in before.workspaces - {v});
    }
  }

  lemma RecoveredStep(start: Records, before: Records, after: Records, js: seq<LeaseJournal>, host: Host, t: int, grace: int, i: nat, v: Verdict)
    requires Journals(start, js) && i < |js| && OnlyOf(before, after, js[i])
    requires RecoveredUpTo(start, before, js, host, t, grace, i)
    requires host.Keeps(js[i], t, grace) <==> v.Preserved?
    requires v.Preserved? ==> after == before
    requires (v.Freed? ==> GoneWith(after, js[i])) && (v.Parked? ==> js[i].leaseId in after.leases)
    ensures !v.Failing? ==> RecoveredUpTo(start, after, js, host, t, grace, i + 1)
    ensures KeptSoFar(start, after, js, host, t, grace)
  {
    hide OnlyOf, Intact, GoneWith, Host.Keeps, ReadLease;
    forall k | 0 <= k < |js| && (k != i || !v.Failing?) ensures Recovered(start, after, js[k], host, t, grace, k < i + 1) {
      assert Recovered(start, before, js[k], host, t, grace, k < i);
      if k != i {
        OthersUntouched(start, before, after, js[i], js[k]);
      }
    }
  }

  lemma JournalsCover(start: Records, now: Records, js: seq<LeaseJournal>, host: Host, t: int, grace: int, all: bool)
    requires Journals(start, js)
    requires if all then RecoveredUpTo(start, now, js, host, t, grace, |js|) else KeptSoFar(start, now, js, host, t, grace)
    ensures forall id | id in start.leases && ReadLease(start, id).Some? ::
              var j := ReadLease(start, id).value;
              if host.Keeps(j, t, grace) then Intact(start, now, j) else all ==> GoneWith(now, j) || id in now.leases
  {
    hide Intact, GoneWith, Host.Keeps;
    forall id | id in start.leases && ReadLease(start, id).Some?
      ensures var j := ReadLease(start, id).value;
              if host.Keeps(j, t, grace) then Intact(start, now, j) else all ==> GoneWith(now, j) || id in now.leases
    {
      var k :| 0 <= k < |js| && js[k] == ReadLease(start, id).value;
      assert all ==> Recovered(start, now, js[k], host, t, grace, k < |js|);
    }
  }

  lemma InFull(start: Records, now: Records, host: Host, t: int, grace: int, ok: bool)
    requires forall id | id in start.leases && ReadLease(start, id).Some? ::
               var j := ReadLease(start, id).value;
               if host.Keeps(j, t, EffectiveGrace(grace)) then Intact(start, now, j) else ok ==> GoneWith(now, j) || id in now.leases
    ensures
      var since := t - (if grace > 0 then grace else 30_000_000_000);
      forall id | id in start.leases && start.leases[id].Some? && start.leases[id].value.leaseId == id ::
        var j := start.leases[id].value;
        if j.retained || ((j.boot == None || host.boot == None || j.boot == host.boot)
                          && (host.alive(j.clientPid) || host.alive(j.unityPid) || j.updatedAt > since))
        then Intact(start, now, j) else ok ==> GoneWith(now, j) || id in now.leases
  {
    hide Intact, GoneWith;
    forall id | id in start.leases && start.leases[id].Some? && start.leases[id].value.leaseId == id
      ensures ReadLease(start, id) == start.leases[id]
    {
    }
  }

  datatype Summary = Summary(released: nat, preserved: nat, quarantined: nat)

  /** Thirty seconds, in nanoseconds, unless the caller says otherwise. */
  function EffectiveGrace(grace: int): int {
    if grace <= 0 then 30_000_000_000 else grace
  }

  function ReadableLeases(r: Records): set<Id> {
    set id | id in r.leases && ReadLease(r, id).Some?
  }

  datatype PendingVerdict = Left | Moved | Dropped | Stopped

  /** What becomes of a journal: kept, gone with all that belongs to it, set aside, or an error that ends recovery. */
  datatype Verdict = Preserved | Freed | Parked | Failing

  datatype Host = Host(boot: Option<Name>, alive: int -> bool) {
    /** Retained, or of this or an unknown boot session and live or within the grace period. */
    predicate Keeps(j: LeaseJournal, now: int, grace: int) {
      || j.retained
      || ((j.boot.None? || boot.None? || j.boot == boot)
          && (alive(j.clientPid) || alive(j.unityPid) || j.updatedAt > now - grace))
    }
  }

  predicate PendingKept(host: Host, pending: map<Key, PendingDir>, key: Key, now: int, grace: int) {
    var found := ReadPending(pending, key);
    found.None? || found.value.updatedAt > now - grace || host.alive(found.value.clientPid)
  }

  /** Those kept so far and those still to come are as they were; the rest have gone. */
  ghost predicate Sifted(before: map<Key, PendingDir>, now: map<Key, PendingDir>, rest: set<Key>, kept: set<Key>) {
    now.Keys == rest + kept && forall key | key in now :: key in before && now[key] == before[key]
  }

  /** A pending directory that has gone held no image, or its image is in quarantine under its transaction. */
  ghost predicate NothingStagedIsLost(before: map<Key, PendingDir>, key: Key, r: Records)
    requires key in before
  {
    before[key].staging.Some? ==>
      && ReadPending(before, key).Some?
      && ReadPending(before, key).value.transactionId in r.quarantine
  }

  /** The entry holds an image, and its transaction already has one in quarantine. */
  ghost predicate NameTaken(before: map<Key, PendingDir>, key: Key, r: Records) {
    && key in before && before[key].staging.Some? && before[key].record.Record?
    && before[key].record.pending.transactionId in r.quarantine
  }

  lemma SameTaken(pending: map<Key, PendingDir>, was: Records, r: Records)
    requires r.quarantine == was.quarantine
    ensures forall key | NameTaken(pending, key, was) :: NameTaken(pending, key, r)
  {
  }

  lemma StillTaken(host: Host, before: map<Key, PendingDir>, current: map<Key, PendingDir>, key: Key, was: Records, r: Records,
                   now: int, grace: int, v: PendingVerdict)
    requires key in before && key in current && current[key] == before[key]
    requires forall txn | txn in was.quarantine :: txn in r.quarantine
    ensures forall k | NameTaken(before, k, was) :: NameTaken(before, k, r)
    ensures
      var dir := current[key];
      v == (if !dir.record.Record? || dir.record.pending.key != key
               || dir.record.pending.updatedAt > now - grace || host.alive(dir.record.pending.clientPid) then Left
            else if dir.staging.None? then Dropped
            else if dir.record.pending.transactionId in was.quarantine then Left
            else Moved) && v.Left? ==>
        PendingKept(host, before, key, now, grace) || NameTaken(before, key, r)
  {
  }

  /** What is safe in quarantine stays there when another entry is dealt with. */
  lemma StillSafe(before: map<Key, PendingDir>, current: map<Key, PendingDir>, key: Key, was: Records, r: Records, left: bool)
    requires key in before && key in current && current[key] == before[key]
    requires forall txn | txn in was.quarantine :: txn in r.quarantine
    requires left || current[key].staging.None?
             || (ReadPending(current, key).Some? && ReadPending(current, key).value.transactionId in r.quarantine)
    ensures !left ==> NothingStagedIsLost(before, key, r)
    ensures forall k | k in before && NothingStagedIsLost(before, k, was) :: NothingStagedIsLost(before, k, r)
  {
  }

  lemma NothingSifted(pending: map<Key, PendingDir>)
    ensures Sifted(pending, pending, pending.Keys, {})
  {
  }

  lemma AllSifted(before: map<Key, PendingDir>, now: map<Key, PendingDir>, kept: set<Key>)
    requires Sifted(before, now, {}, kept)
    ensures now.Keys == kept && forall key | key in now :: key in before && now[key] == before[key]
  {
  }

  lemma SiftStep(host: Host, before: map<Key, PendingDir>, current: map<Key, PendingDir>, after: map<Key, PendingDir>,
                 rest: set<Key>, kept: set<Key>, key: Key, stays: bool, now: int, grace: int)
    requires Sifted(before, current, rest + {key}, kept) && key !in rest && key !in kept
    requires after - {key} == current - {key} && if stays then after == current else key !in after
    ensures Sifted(before, after, rest, if stays then kept + {key} else kept)
    ensures key in before && key in current && current[key] == before[key]
    ensures PendingKept(host, current, key, now, grace) == PendingKept(host, before, key, now, grace)
  {
    OthersStay(current, after, key);
  }

  lemma OthersStay(before: map<Key, PendingDir>, after: map<Key, PendingDir>, key: Key)
    requires after - {key} == before - {key}
    ensures forall k | k != key :: (k in after <==> k in before) && (k in before ==> after[k] == before[k])
  {
    forall k | k != key ensures (k in after <==> k in before) && (k in before ==> after[k] == before[k]) {
      assert k in after <==> k in after - {key};
      assert k in before <==> k in before - {key};
    }
  }

  /** Only what belongs to this journal differs: itself, its child, and its workspace if that is its own. */
  ghost predicate OnlyOf(before: Records, after: Records, j: LeaseJournal) {
    && after.retained == before.retained && after.quarantine == before.quarantine && after.strays == before.strays
    && after.leases - {j.leaseId} == before.leases - {j.leaseId}
    && after.children - {j.leaseId} == before.children - {j.leaseId}
    && (after.workspaces == before.workspaces
        || (j.workspaceId.Some? && OwnsWorkspace(before, j)
            && after.workspaces - {j.workspaceId.value} == before.workspaces - {j.workspaceId.value}))
  }

  lemma JournalsParent(provider: Name, parents: map<Key, ParentDir>, r: Records, id: Id)
    requires ReadLease(r, id).Some?
    ensures NoneDangling(provider, parents, r) ==> Resolve(provider, parents, ReadLease(r, id).value.parentKey).Valid?
  {
  }

  /** Journal, child and workspace of the lease are gone. */
  ghost predicate GoneWith(r: Records, j: LeaseJournal) {
    j.leaseId !in r.leases && j.leaseId !in r.children && (j.workspaceId.Some? ==> j.workspaceId.value !in r.workspaces)
  }

  /** A pass that leaves the parents in use alone leaves no child dangling. */
  lemma CollectionKeeps(provider: Name, before: map<Key, ParentDir>, after: map<Key, ParentDir>, r: Records, pending: map<Key, PendingDir>)
    requires NoneDangling(provider, before, r)
    requires forall k | k in before && InUse(r, pending, k) :: k in after && after[k] == before[k]
    ensures NoneDangling(provider, after, r)
  {
    forall id | id in r.leases && ReadLease(r, id).Some? ensures Resolve(provider, after, ReadLease(r, id).value.parentKey).Valid? {
      assert InUse(r, pending, ReadLease(r, id).value.parentKey);
    }
  }

  lemma TouchKeepsCount(before: Disk, after: Disk, r: Records, key: Key, now: int)
    requires key in before.parents && before.parents[key].metadata.Some?
    requires after == before || after == Touched(before, key, now)
    ensures Recount(after, r) == Recount(before, r)
  {
    assert ImageBytes(after.parents) == ImageBytes(before.parents);
  }

  lemma TouchKeepsNames(before: Disk, key: Key, now: int)
    requires key in before.parents && before.parents[key].metadata.Some?
    ensures KeysNamed(before.parents) ==> KeysNamed(Touched(before, key, now).parents)
  {
  }

  /** A touched parent, and every other, resolves as before. */
  lemma TouchKeeps(provider: Name, before: Disk, after: Disk, r: Records, key: Key, now: int)
    requires KeysNamed(before.parents) && NoneDangling(provider, before.parents, r) && Resolve(provider, before.parents, key).Valid?
    requires after == before || after == Touched(before, key, now)
    ensures KeysNamed(after.parents) && NoneDangling(provider, after.parents, r) && Resolve(provider, after.parents, key).Valid?
  {
  }

  function WithLease(r: Records, j: LeaseJournal): Records {
    r.(leases := r.leases[j.leaseId := Some(j)])
  }

  function WithoutLease(r: Records, id: Id): Records {
    r.(leases := r.leases - {id})
  }

  function WithoutChild(r: Records, id: Id): Records {
    r.(children := r.children - {id})
  }

  /** A journal that has just been written can be removed again. */
  lemma Undone(r: Records, j: LeaseJournal, now: int)
    ensures SameJournal(WithLease(r, j.(updatedAt := now)), j)
    ensures j.leaseId !in r.leases ==> WithoutLease(WithLease(r, j.(updatedAt := now)), j.leaseId).leases == r.leases
  {
  }

  function WithWorkspace(r: Records, w: Id, dir: WorkspaceDir): Records {
    r.(workspaces := r.workspaces[w := dir])
  }

  /** `readWorkspaceOwner` accepts the marker. */
  predicate OwnsWorkspace(r: Records, j: LeaseJournal)
    requires j.workspaceId.Some?
  {
    j.workspaceId.value in r.workspaces && r.workspaces[j.workspaceId.value].owner == Owner(j.leaseId, j.token)
  }

  /** `validateWorkspaceMount`: the workspace is there and Library is not. */
  predicate Unmounted(r: Records, w: Id) {
    w in r.workspaces && !r.workspaces[w].mounted
  }

  /** A workspace that a new lease can take. */
  predicate Free(r: Records, w: Id) {
    Unmounted(r, w) && r.workspaces[w].owner.Unowned?
  }

  /** Nothing stands in the way of cleaning the lease's workspace. */
  predicate Cleanable(r: Records, j: LeaseJournal) {
    j.workspaceId.None? || j.workspaceId.value !in r.workspaces
    || (OwnsWorkspace(r, j) && !r.workspaces[j.workspaceId.value].links)
  }

  /** The journal on disk belongs to the same lease. */
  predicate SameJournal(r: Records, j: LeaseJournal) {
    var actual := ReadLease(r, j.leaseId);
    actual.Some? && actual.value.token == j.token && actual.value.parentKey == j.parentKey
  }

  /** Only the workspace of this journal differs, and that was the journal's own. */
  ghost predicate OnlyWorkspaceOf(before: Records, after: Records, j: LeaseJournal) {
    && j.workspaceId.Some? && OwnsWorkspace(before, j)
    && after == before.(workspaces := after.workspaces)
    && after.workspaces - {j.workspaceId.value} == before.workspaces - {j.workspaceId.value}
  }

  predicate UsedSince(dir: ParentDir, cutoff: int) {
    dir.metadata.Some? && dir.metadata.value.lastUsed > cutoff
  }

  /** A parent used after the cutoff is listed with that use. */
  lemma ListedUses(parents: map<Key, ParentDir>, listing: seq<Metadata>, cutoff: int)
    requires KeysNamed(parents) ==> IsListing(parents, listing)
    ensures forall k | k in parents && KeysNamed(parents) && UsedSince(parents[k], cutoff) ::
          forall m | m in listing && m.key == k :: m.lastUsed > cutoff
  {
  }

  lemma WellFormedIsNamed(provider: Name, parents: map<Key, ParentDir>)
    requires WellFormed(provider, parents)
    ensures KeysNamed(parents)
  {
  }

  lemma ReclaimableIs(parents: map<Key, ParentDir>, active: set<Key>, cutoff: int)
    ensures ReclaimableBytes(parents, active, cutoff) ==
              map k | k in parents && parents[k].metadata.Some?
                      && parents[k].metadata.value.key !in active && parents[k].metadata.value.lastUsed <= cutoff
                    :: parents[k].metadata.value.bytes
  {
  }

  lemma PassMeans(before: map<Key, ParentDir>, after: map<Key, ParentDir>, listing: seq<Metadata>, active: set<Key>, cutoff: int,
                  c: Capacity, gone: seq<Metadata>)
    requires KeysNamed(before) && IsListing(before, listing) && Collected(before, after, gone)
    requires gone <= Candidates(listing, active, cutoff)
    ensures forall k | k in before && k !in after :: Expired(before, active, cutoff, k)
    ensures forall k, l | Expired(before, active, cutoff, k) && k !in after && l in after && Expired(before, active, cutoff, l) ::
              before[k].metadata.value.lastUsed <= before[l].metadata.value.lastUsed
    ensures gone == Candidates(listing, active, cutoff) ==> forall k | Expired(before, active, cutoff, k) :: k !in after
    ensures gone != [] && Shortest(c, Candidates(listing, active, cutoff), |gone|) ==>
              c.taken - BytesOf(gone) + gone[|gone| - 1].bytes + c.reserve > c.quota
    ensures gone == Candidates(listing, active, cutoff) && NoRoomWith(c, gone) && !c.Room(c.taken) ==> !c.Room(c.taken - BytesOf(gone))
  {
    hide Expired, IsListing, KeysNamed, Candidates, KeysOf, BytesOf, Shortest;
    var candidates := Candidates(listing, active, cutoff);
    assert gone == candidates[..|gone|];
    OldestGo(before, after, listing, active, cutoff, |gone|);
    if Shortest(c, candidates, |gone|) { LastWasNeeded(c, candidates, |gone|); }
    assert gone[..|gone|] == gone;
    assert gone == candidates ==> |gone| == |candidates|;
    assert gone == [] ==> BytesOf(gone) == 0 by { NothingGone(before, listing, active, cutoff, c); }
  }

  lemma ExactlyRecounts(c: Capacity, candidates: seq<Metadata>, before: Disk, after: Disk, r: Records, gone: seq<Metadata>, taken: int)
    requires c.taken == Recount(before, r) && after.pending == before.pending
    requires Exactly(c, candidates, before.parents, after.parents, gone, taken)
    ensures Collected(before.parents, after.parents, gone) && taken == Recount(after, r) && gone <= candidates
    ensures taken == c.taken - BytesOf(gone)
  {
  }

  lemma PrefixIsShortest(c: Capacity, candidates: seq<Metadata>, gone: seq<Metadata>)
    requires gone <= candidates && !c.Room(c.taken)
    ensures JustEnough(c, gone) ==> Shortest(c, candidates, |gone|) && gone == candidates[..|gone|]
    ensures JustEnough(c, gone) ==> c.Room(c.taken - BytesOf(gone))
  {
    forall k | 0 <= k <= |gone| ensures candidates[..k] == gone[..k] {
    }
    assert gone[..|gone|] == gone && candidates[..0] == [];
  }

  lemma NothingGone(parents: map<Key, ParentDir>, listing: seq<Metadata>, active: set<Key>, cutoff: int, limits: Capacity)
    ensures Collected(parents, parents, []) && NoRoomWith(limits, []) && Spared(parents, parents, listing, active, cutoff)
    ensures Candidates(listing[..0], active, cutoff) == [] && BytesOf([]) == 0
  {
    assert parents - KeysOf([]) == parents;
  }

  lemma NextCandidate(listing: seq<Metadata>, active: set<Key>, cutoff: int, i: nat)
    requires i < |listing|
    ensures
      var before, m := Candidates(listing[..i], active, cutoff), listing[i];
      && Candidates(listing[..i + 1], active, cutoff) == (if MayGo(m, active, cutoff) then before + [m] else before)
      && BytesOf(Candidates(listing[..i + 1], active, cutoff)) == BytesOf(before) + (if MayGo(m, active, cutoff) then m.bytes else 0)
  {
    assert listing[..i + 1][..i] == listing[..i];
    CandidateBytes(listing[..i + 1], active, cutoff);
  }

  /** What is active or was used lately stays as it is. */
  ghost predicate Spared(before: map<Key, ParentDir>, after: map<Key, ParentDir>, listing: seq<Metadata>, active: set<Key>, cutoff: int) {
    forall k | k in before && (k in active || forall m | m in listing && m.key == k :: m.lastUsed > cutoff) ::
      k in after && after[k] == before[k]
  }

  lemma OneTouched(a: map<Key, ParentDir>, b: map<Key, ParentDir>, c: map<Key, ParentDir>, listing: seq<Metadata>, active: set<Key>, cutoff: int, m: Metadata)
    requires Spared(a, b, listing, active, cutoff) && m in listing && MayGo(m, active, cutoff) && c - {m.key} == b - {m.key}
    ensures Spared(a, c, listing, active, cutoff)
  {
    forall k | k in a && (k in active || forall l | l in listing && l.key == k :: l.lastUsed > cutoff)
      ensures k in c && c[k] == a[k]
    {
      assert k != m.key;
      assert k in b - {m.key} && (b - {m.key})[k] == b[k];
    }
  }

  lemma NamedStill(before: map<Key, ParentDir>, after: map<Key, ParentDir>, key: Key)
    requires after - {key} == before - {key}
    requires key in after ==> key in before && after[key].metadata in {None, before[key].metadata}
    ensures after.Keys <= before.Keys
    ensures KeysNamed(before) ==> KeysNamed(after)
  {
    forall k | k in after && k != key ensures k in before && after[k] == before[k] {
      assert k in after - {key};
    }
  }

  /** A candidate whose turn has come is still there. */
  lemma StillThere(before: map<Key, ParentDir>, now: map<Key, ParentDir>, listing: seq<Metadata>, active: set<Key>, cutoff: int, i: nat)
    requires i < |listing| && IsListing(before, listing) && Collected(before, now, Candidates(listing[..i], active, cutoff))
    ensures listing[i].key in now && before[listing[i].key].metadata == Some(listing[i])
  {
    CandidatesAre(listing[..i], active, cutoff);
    assert listing[i] in listing;
    forall m | m in Candidates(listing[..i], active, cutoff) ensures m.key != listing[i].key {
      var k :| 0 <= k < i && listing[..i][k] == m;
    }
  }
}
