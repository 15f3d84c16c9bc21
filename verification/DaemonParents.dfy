/**
 Publication of immutable parents by the Unix daemon.

 A transaction's tree moves from staging to publication and then, by one rename, to its place among
 the parents; a receipt is written and the pending directory removed.  Every step may fail or be cut
 by a crash.  Records are written with `WriteDurable`, so they are on disk whole or not at all.
 */
module DaemonParents {
  import opened Wrappers
  import opened Environments
  import opened Names
  import opened TreeDigest

  type Id = Name
  type Key = Name

  /**
   What a daemon is set up with: its provider, the patterns for identifiers and compatibility keys, and
   the two functions that hash.  The results below hold for every `digestOf`; the daemon uses `DigestOf`.
   */
  datatype Setting = Setting(
    provider: Name,
    identifier: Name -> bool,
    compatibility: Name -> bool,
    parentId: Key -> Id,
    digestOf: seq<Visit> -> Option<Digest>)
  {
    /** The hash of provider and key is injective on keys and gives identifiers. */
    ghost predicate Faithful() {
      && (forall a, b | compatibility(a) && compatibility(b) :: parentId(a) == parentId(b) ==> a == b)
      && (forall a | compatibility(a) :: identifier(parentId(a)))
    }
  }

  // ----- The disk ---------------------------------------------------------------------------

  /** A real directory: its identity and what a walk over it meets. */
  datatype Tree = Tree(identity: Identity, walk: seq<Visit>)

  /** The three places of a tree in its life. */
  datatype Place = ParentData(parentId: Id) | StagingData(staged: Id) | PublicationData(published: Id)

  datatype ParentRecord = ParentRecord(
    parentId: Id, key: Key, provider: Name, digest: Digest, immutable: bool,
    dataPath: Place, identity: Identity)

  datatype PendingRecord = PendingRecord(transactionId: Id, key: Key, stagingPath: Place)

  datatype Receipt = Receipt(transactionId: Id, parentId: Id)

  /** A publication or parent directory: `metadata.json` (None: missing or unreadable) and `data`. */
  datatype Holding = Holding(metadata: Option<ParentRecord>, data: Option<Tree>)

  datatype PendingDir = PendingDir(record: Option<PendingRecord>, staging: Option<Tree>, publication: Option<Holding>) {
    function PublicationTree(): Option<Tree> {
      if publication.Some? then publication.value.data else None
    }
  }

  /** A receipt that is present but unreadable is None. */
  datatype Disk = Disk(
    parents: map<Id, Holding>,
    pending: map<Id, PendingDir>,
    receipts: map<Id, Option<Receipt>>,
    quarantine: seq<(Id, Holding)>)

  function At(d: Disk, place: Place): Option<Tree> {
    match place
    case ParentData(id) => if id in d.parents then d.parents[id].data else None
    case StagingData(txn) => if txn in d.pending then d.pending[txn].staging else None
    case PublicationData(txn) => if txn in d.pending then d.pending[txn].PublicationTree() else None
  }

  // ----- Verification of a parent -----------------------------------------------------------

  /** The tree has the recorded identity, contents and size, and the record says immutable. */
  predicate Verifies(s: Setting, record: ParentRecord, data: Option<Tree>) {
    && data.Some?
    && data.value.identity == record.identity
    && s.digestOf(data.value.walk) == Some(record.digest)
    && record.immutable
  }

  /** `readParent` accepts what it finds for this id. */
  predicate Readable(s: Setting, id: Id, h: Holding) {
    && h.metadata.Some?
    && h.metadata.value.parentId == id
    && h.metadata.value.provider == s.provider
    && h.metadata.value.dataPath == ParentData(id)
  }

  /** A parent that may be served: read and verified. */
  predicate Servable(s: Setting, d: Disk, id: Id) {
    id in d.parents && Readable(s, id, d.parents[id]) && Verifies(s, d.parents[id].metadata.value, d.parents[id].data)
  }

  /** The parent of a key, verified and filed under that key. */
  predicate Good(s: Setting, id: Id, h: Holding) {
    && Readable(s, id, h)
    && Verifies(s, h.metadata.value, h.data)
    && s.compatibility(h.metadata.value.key)
    && s.parentId(h.metadata.value.key) == id
  }

  /** With an injective hash, two trees that verify against one record are the same tree. */
  lemma VerifiedTreeIsTheCommittedOne(s: Setting, record: ParentRecord, committed: Tree, found: Tree)
    requires s.digestOf == DigestOf && RealTree(committed.walk) && RealTree(found.walk)
    requires Verifies(s, record, Some(committed))
    ensures Verifies(s, record, Some(found)) ==>
              found.identity == committed.identity && multiset(Entries(found.walk)) == multiset(Entries(committed.walk))
    ensures found.identity == committed.identity && multiset(found.walk) == multiset(committed.walk) ==>
              Verifies(s, record, Some(found))
  {
    if Verifies(s, record, Some(found)) {
      DigestDeterminesTree(committed.walk, found.walk);
    }
    if multiset(found.walk) == multiset(committed.walk) {
      DigestIgnoresWalkOrder(committed.walk, found.walk);
    }
  }

  // ----- What holds of the disk in every run ------------------------------------------------

  /**
   What the clients know: the transactions begun and not aborted with their keys, the tree each
   client staged, the transaction that published each parent, and every transaction id drawn so far.
   */
  datatype History = History(begun: map<Id, Key>, staged: map<Id, Tree>, publisher: map<Id, Id>, used: set<Id>)

  /** No torn parent: every directory under parents verifies and every receipt names one that does. */
  ghost predicate NothingTorn(s: Setting, d: Disk) {
    && (forall id | id in d.parents :: Good(s, id, d.parents[id]))
    && (forall t | t in d.receipts ::
          && d.receipts[t].Some?
          && d.receipts[t].value.transactionId == t
          && s.identifier(d.receipts[t].value.parentId)
          && d.receipts[t].value.parentId in d.parents)
  }

  ghost predicate PendingNamed(s: Setting, d: Disk) {
    forall t | t in d.pending && d.pending[t].record.Some? ::
      && d.pending[t].record.value.transactionId == t
      && d.pending[t].record.value.stagingPath == StagingData(t)
      && s.compatibility(d.pending[t].record.value.key)
  }

  /** Wherever a crash left it, the transaction is committed or can still be. */
  ghost predicate Resumable(s: Setting, d: Disk, t: Id, key: Key, tree: Tree) {
    if t in d.receipts then
      d.receipts[t] == Some(Receipt(t, s.parentId(key)))
    else
      && t in d.pending
      && var dir := d.pending[t];
      && dir.record == Some(PendingRecord(t, key, StagingData(t)))
      && (|| (dir.staging == Some(tree) && dir.PublicationTree().None?)
          || (dir.staging.None? && dir.PublicationTree() == Some(tree))
          || (dir.staging.None? && s.parentId(key) in d.parents))
  }

  ghost predicate AllUsed(d: Disk, h: History) {
    && (forall t | t in d.pending || t in d.receipts || t in h.begun :: t in h.used)
    && (forall id | id in h.publisher :: h.publisher[id] in h.used)
  }

  ghost predicate AllResumable(s: Setting, d: Disk, h: History) {
    forall t | t in h.begun ::
      && s.identifier(t) && s.compatibility(h.begun[t]) && t in h.staged
      && Resumable(s, d, t, h.begun[t], h.staged[t])
  }

  /** A parent published by a transaction still known holds the tree that was staged for it. */
  ghost predicate PublishersKnown(s: Setting, d: Disk, h: History) {
    && h.publisher.Keys == d.parents.Keys
    && (forall id | id in h.publisher && h.publisher[id] in h.begun && h.publisher[id] in h.staged ::
          && s.parentId(h.begun[h.publisher[id]]) == id
          && d.parents[id].data == Some(h.staged[h.publisher[id]])
          && (h.publisher[id] in d.pending ==> d.pending[h.publisher[id]].staging.None?))
  }

  ghost predicate Inv(s: Setting, d: Disk, h: History) {
    NothingTorn(s, d) && PendingNamed(s, d) && AllUsed(d, h) && AllResumable(s, d, h) && PublishersKnown(s, d, h)
  }

  /** Published parents stay as they are: same metadata, identity and contents. */
  ghost predicate Preserved(before: map<Id, Holding>, after: map<Id, Holding>) {
    forall id | id in before :: id in after && after[id] == before[id]
  }

  // ----- One lemma for each kind of step ----------------------------------------------------

  function WithPending(d: Disk, t: Id, dir: PendingDir): Disk {
    d.(pending := d.pending[t := dir])
  }

  /** The directory may take this shape: no new record, and the transaction stays resumable. */
  ghost predicate Harmless(s: Setting, d: Disk, h: History, t: Id, dir: PendingDir) {
    && t in h.used
    && (dir.record.None? || (t in d.pending && dir.record == d.pending[t].record))
    && (dir.staging.Some? ==> t in d.pending && d.pending[t].staging.Some?)
    && (t in h.begun ==> t in h.staged && Resumable(s, WithPending(d, t, dir), t, h.begun[t], h.staged[t]))
  }

  /** A change inside one pending directory. */
  lemma PendingStep(s: Setting, d: Disk, h: History, t: Id, dir: PendingDir)
    requires Inv(s, d, h) && Harmless(s, d, h, t, dir)
    ensures Inv(s, WithPending(d, t, dir), h)
  {
    var e := WithPending(d, t, dir);
    forall u | u in h.begun ensures Resumable(s, e, u, h.begun[u], h.staged[u]) {
      assert Resumable(s, d, u, h.begun[u], h.staged[u]);
    }
  }

  /** A transaction as `parent-begin` leaves it: a record and an empty staging tree. */
  function Unbuilt(key: Key, txn: Id, identity: Identity): PendingDir {
    PendingDir(Some(PendingRecord(txn, key, StagingData(txn))), Some(Tree(identity, [])), None)
  }

  /** A fresh transaction appears, whether or not the client comes to know of it. */
  lemma OpenStep(s: Setting, d: Disk, h: History, key: Key, identity: Identity, dir: PendingDir, g: History, t: Id)
    requires Inv(s, d, h) && t !in h.used && s.compatibility(key) && s.identifier(t)
    requires dir.record.Some? ==> dir == Unbuilt(key, t, identity)
    requires || g == h.(used := h.used + {t})
             || (dir == Unbuilt(key, t, identity)
                 && g == History(h.begun[t := key], h.staged[t := Tree(identity, [])], h.publisher, h.used + {t}))
    ensures Inv(s, WithPending(d, t, dir), g)
  {
    var e := WithPending(d, t, dir);
    forall u | u in g.begun ensures Resumable(s, e, u, g.begun[u], g.staged[u]) {
      if u != t { assert Resumable(s, d, u, h.begun[u], h.staged[u]); }
    }
  }

  lemma RemovalStep(s: Setting, d: Disk, h: History, t: Id)
    requires Inv(s, d, h)
    requires t in h.begun ==> t in d.receipts
    ensures Inv(s, d.(pending := d.pending - {t}), h)
  {
    var e := d.(pending := d.pending - {t});
    forall u | u in h.begun ensures Resumable(s, e, u, h.begun[u], h.staged[u]) {
      assert Resumable(s, d, u, h.begun[u], h.staged[u]);
    }
  }

  lemma ReceiptStep(s: Setting, d: Disk, h: History, t: Id, id: Id)
    requires Inv(s, d, h) && t in h.used && id in d.parents && s.identifier(id)
    requires t in h.begun ==> id == s.parentId(h.begun[t])
    ensures Inv(s, d.(receipts := d.receipts[t := Some(Receipt(t, id))]), h)
  {
    var e := d.(receipts := d.receipts[t := Some(Receipt(t, id))]);
    forall u | u in h.begun ensures Resumable(s, e, u, h.begun[u], h.staged[u]) {
      assert Resumable(s, d, u, h.begun[u], h.staged[u]);
    }
  }

  /** The rename that publishes: the publication directory becomes the parent. */
  function Published(d: Disk, t: Id, id: Id): Disk
    requires t in d.pending && d.pending[t].publication.Some?
  {
    d.(parents := d.parents[id := d.pending[t].publication.value],
       pending := d.pending[t := d.pending[t].(publication := None)])
  }

  /** The pending directory with an empty publication directory added. */
  function Prepared(dir: PendingDir): PendingDir {
    if dir.publication.None? then dir.(publication := Some(Holding(None, None))) else dir
  }

  /** The staged tree moved into the publication directory. */
  function Moved(dir: PendingDir): PendingDir {
    dir.(staging := None, publication := Some(Prepared(dir).publication.value.(data := dir.staging)))
  }

  lemma MoveIsHarmless(s: Setting, d: Disk, h: History, t: Id)
    requires Inv(s, d, h) && t in d.pending && t !in d.receipts
    requires d.pending[t].staging.Some? && d.pending[t].PublicationTree().None?
    ensures Harmless(s, d, h, t, Prepared(d.pending[t])) && Harmless(s, d, h, t, Moved(d.pending[t]))
    ensures Harmless(s, WithPending(d, t, Prepared(d.pending[t])), h, t, Moved(d.pending[t]))
  {
    if t in h.begun {
      assert Resumable(s, d, t, h.begun[t], h.staged[t]);
    }
  }

  function Described(dir: PendingDir, record: ParentRecord): PendingDir
    requires dir.publication.Some?
  {
    dir.(publication := Some(dir.publication.value.(metadata := Some(record))))
  }

  /** The tree that `parent-commit` would publish from this directory. */
  function BuildTree(dir: PendingDir): Option<Tree> {
    if dir.staging.Some? && dir.PublicationTree().Some? then None
    else if dir.staging.Some? then dir.staging
    else dir.PublicationTree()
  }

  function BuiltRecord(s: Setting, id: Id, key: Key, tree: Tree): ParentRecord
    requires s.digestOf(tree.walk).Some?
  {
    ParentRecord(id, key, s.provider, s.digestOf(tree.walk).value, true, ParentData(id), tree.identity)
  }

  /** The publication directory of this transaction is fit to become this parent. */
  ghost predicate Publishable(s: Setting, d: Disk, t: Id, id: Id) {
    && t in d.pending && t !in d.receipts
    && d.pending[t].record.Some? && s.parentId(d.pending[t].record.value.key) == id
    && d.pending[t].publication.Some? && d.pending[t].staging.None?
    && Good(s, id, d.pending[t].publication.value)
  }

  lemma PublishStep(s: Setting, d: Disk, h: History, t: Id, id: Id)
    requires Inv(s, d, h) && id !in d.parents && Publishable(s, d, t, id)
    ensures Inv(s, Published(d, t, id), h.(publisher := h.publisher[id := t]))
    ensures Preserved(d.parents, Published(d, t, id).parents)
  {
    var e, g := Published(d, t, id), h.(publisher := h.publisher[id := t]);
    forall u | u in g.begun ensures Resumable(s, e, u, g.begun[u], g.staged[u]) {
      assert Resumable(s, d, u, h.begun[u], h.staged[u]);
    }
  }

  /** What a pending record found on a sound disk tells. */
  lemma PendingFacts(s: Setting, d: Disk, h: History, t: Id)
    requires s.Faithful() && Inv(s, d, h) && t in d.pending && t !in d.receipts && d.pending[t].record.Some?
    ensures
      var record := d.pending[t].record.value;
      var id := s.parentId(record.key);
      && record == PendingRecord(t, record.key, StagingData(t))
      && s.compatibility(record.key) && s.identifier(id) && t in h.used
      && (id in d.parents ==> Servable(s, d, id) && d.parents[id].metadata.value.key == record.key)
      && (t in h.begun ==> h.begun[t] == record.key)
  {
    if t in h.begun {
      assert Resumable(s, d, t, h.begun[t], h.staged[t]);
    }
  }

  /** What is left of a begun transaction that has no receipt is enough to commit it. */
  lemma BegunFacts(s: Setting, d: Disk, h: History, t: Id)
    requires Inv(s, d, h) && t in h.begun && t !in d.receipts
    ensures t in h.staged && t in d.pending && d.pending[t].record == Some(PendingRecord(t, h.begun[t], StagingData(t)))
    ensures s.parentId(h.begun[t]) !in d.parents ==> BuildTree(d.pending[t]) == Some(h.staged[t])
  {
    assert Resumable(s, d, t, h.begun[t], h.staged[t]);
  }

  lemma BegunIdentified(s: Setting, d: Disk, h: History, t: Id)
    requires Inv(s, d, h) && t in h.begun
    ensures s.identifier(t) && s.compatibility(h.begun[t])
  {
  }

  /** A receipt found on a sound disk names a parent that verifies, that of the transaction's key. */
  lemma ReceiptFacts(s: Setting, d: Disk, h: History, t: Id)
    requires s.Faithful() && Inv(s, d, h) && t in d.receipts
    ensures d.receipts[t].Some?
    ensures
      var receipt := d.receipts[t].value;
      && receipt.transactionId == t && s.identifier(receipt.parentId)
      && Servable(s, d, receipt.parentId)
      && (t in h.begun ==> receipt.parentId == s.parentId(h.begun[t]) && d.parents[receipt.parentId].metadata.value.key == h.begun[t])
  {
    if t in h.begun {
      assert Resumable(s, d, t, h.begun[t], h.staged[t]);
    }
  }

  /** A parent published by a begun transaction has the digest of the tree staged for it. */
  lemma PublisherFacts(s: Setting, d: Disk, h: History, id: Id)
    requires Inv(s, d, h) && id in d.parents
    ensures id in h.publisher && d.parents[id].metadata.Some?
    ensures h.publisher[id] in h.begun && h.publisher[id] in h.staged ==>
              d.parents[id].data == Some(h.staged[h.publisher[id]]) &&
              s.digestOf(h.staged[h.publisher[id]].walk) == Some(d.parents[id].metadata.value.digest)
  {
    assert Good(s, id, d.parents[id]);
  }

  lemma PublishersAre(s: Setting, d: Disk, h: History)
    requires Inv(s, d, h)
    ensures h.publisher.Keys == d.parents.Keys
  {
  }

  lemma StageStep(s: Setting, d: Disk, h: History, t: Id, tree: Tree)
    requires Inv(s, d, h) && t in d.pending && d.pending[t].staging.Some?
    ensures Inv(s, WithPending(d, t, d.pending[t].(staging := Some(tree))), h.(staged := h.staged[t := tree]))
  {
    var e, g := WithPending(d, t, d.pending[t].(staging := Some(tree))), h.(staged := h.staged[t := tree]);
    forall u | u in g.begun ensures Resumable(s, e, u, g.begun[u], g.staged[u]) {
      assert Resumable(s, d, u, h.begun[u], h.staged[u]);
    }
  }

  // ----- The operations ---------------------------------------------------------------------

  datatype Response = Rejected(code: string) | Found(parent: ParentRecord) | Opened(transactionId: Id) | Aborted

  /** The directory without the parent, which has been moved aside. */
  function Withdrawn(d: Disk, id: Id): Disk {
    if id in d.parents then d.(parents := d.parents - {id}, quarantine := d.quarantine + [(id, d.parents[id])]) else d
  }

  /** What an interrupted RemoveAll may leave of a pending directory. */
  predicate IsResidue(left: PendingDir, dir: PendingDir) {
    && (left.record == dir.record || left.record.None?)
    && (left.staging.Some? ==> dir.staging.Some?)
    && (left.publication.Some? ==> dir.publication.Some?)
  }

  class ParentStore {
    const setting: Setting
    const env: Environment
    var disk: Disk
    var manualRecovery: bool
    ghost var history: History

    ghost predicate Valid()
      reads this
    {
      setting.Faithful() && Inv(setting, disk, history)
    }

    /** A receipt naming this parent would be true. */
    ghost predicate ReceiptFits(txn: Id, parentId: Id)
      reads this
    {
      && txn in history.used && setting.identifier(parentId) && parentId in disk.parents
      && (txn in history.begun ==> parentId == setting.parentId(history.begun[txn]))
    }

    /** The parent is on disk and verifies, the transaction's receipt names it and its directory is gone. */
    ghost predicate Settled(txn: Id, parent: ParentRecord)
      reads this
    {
      && Servable(setting, disk, parent.parentId) && disk.parents[parent.parentId].metadata == Some(parent)
      && txn in disk.receipts && disk.receipts[txn] == Some(Receipt(txn, parent.parentId))
      && txn !in disk.pending
    }

    /** The transaction is begun and not aborted, and its tree has a digest or its key a parent. */
    ghost predicate CanCommit(txn: Id)
      reads this
    {
      && txn in history.begun && txn in history.staged
      && (|| setting.parentId(history.begun[txn]) in disk.parents
          || setting.digestOf(history.staged[txn].walk).Some?)
    }

    /** The answer is the parent of the key: the one that stood before, or one made of the staged tree. */
    ghost predicate Answers(before: Disk, txn: Id, parent: ParentRecord)
      requires txn in history.begun && txn in history.staged
      reads this
    {
      var id := setting.parentId(history.begun[txn]);
      && parent.parentId == id && parent.key == history.begun[txn]
      && if id in before.parents then before.parents[id].metadata == Some(parent)
         else setting.digestOf(history.staged[txn].walk) == Some(parent.digest) && id in history.publisher && history.publisher[id] == txn
    }

    constructor (setting: Setting, env: Environment)
      requires setting.Faithful()
      ensures Valid() && this.setting == setting && this.env == env
      ensures disk == Disk(map[], map[], map[], []) && history == History(map[], map[], map[], {}) && !manualRecovery
    {
      this.setting := setting;
      this.env := env;
      disk := Disk(map[], map[], map[], []);
      manualRecovery := false;
      history := History(map[], map[], map[], {});
    }

    /** `verifyParent`: looks at the tree where the record says it is. */
    method VerifyParent(record: ParentRecord) returns (ok: bool)
      ensures ok == Verifies(setting, record, At(disk, record.dataPath))
      // of a tree that is about to be published: what the record says of it is true
      ensures record.dataPath.PublicationData? ==>
                var txn := record.dataPath.published;
                (ok <==>
                  && txn in disk.pending && disk.pending[txn].publication.Some? && disk.pending[txn].publication.value.data.Some?
                  && var tree := disk.pending[txn].publication.value.data.value;
                  && tree.identity == record.identity && setting.digestOf(tree.walk) == Some(record.digest) && record.immutable)
    {
      var data := At(disk, record.dataPath);
      if data.None? || data.value.identity != record.identity {
        return false;
      }
      ok := setting.digestOf(data.value.walk) == Some(record.digest) && record.immutable;
    }

    /** `readParent` and, on success, `verifyParent`. */
    method Serve(id: Id) returns (record: Option<ParentRecord>)
      ensures record == if Servable(setting, disk, id) then disk.parents[id].metadata else None
      // filed under its id by this provider, and the tree there is the one described
      ensures record.Some? <==>
                && id in disk.parents && disk.parents[id].metadata.Some? && disk.parents[id].data.Some?
                && var m, tree := disk.parents[id].metadata.value, disk.parents[id].data.value;
                && m.parentId == id && m.provider == setting.provider && m.dataPath == ParentData(id) && m.immutable
                && tree.identity == m.identity && setting.digestOf(tree.walk) == Some(m.digest)
    {
      if id !in disk.parents || !Readable(setting, id, disk.parents[id]) {
        return None;
      }
      record := disk.parents[id].metadata;
      var ok := VerifyParent(record.value);
      if !ok {
        record := None;
      }
    }

    /** `quarantineParentID`: one rename. */
    method Quarantine(id: Id) returns (ok: bool)
      modifies `disk, env
      ensures disk == old(disk) || disk == Withdrawn(old(disk), id)
      ensures ok ==> id in old(disk).parents && disk == Withdrawn(old(disk), id) && !env.crashed
      ensures disk != old(disk) ==>
                && id in old(disk).parents
                && disk == old(disk).(parents := old(disk).parents - {id}, quarantine := old(disk).quarantine + [(id, old(disk).parents[id])])
      ensures old(env.Calm()) ==> ok == (id in old(disk).parents) && env.Calm()
      ensures old(env.crashed) ==> env.crashed && disk == old(disk)
    {
      if id !in disk.parents {
        return false;
      }
      var o := env.Next();
      if o.Effective() {
        disk := Withdrawn(disk, id);
      }
      ok := o.Done?;
    }

    /** `writeParentReceipt`. */
    method WriteReceipt(txn: Id, parentId: Id) returns (ok: bool)
      modifies `disk, env
      ensures old(Valid() && ReceiptFits(txn, parentId)) ==> Valid()
      ensures disk == old(disk) || disk == old(disk).(receipts := old(disk).receipts[txn := Some(Receipt(txn, parentId))])
      ensures ok ==> disk == old(disk).(receipts := old(disk).receipts[txn := Some(Receipt(txn, parentId))]) && !env.crashed
      ensures old(env.Calm()) ==> ok && env.Calm()
      ensures old(env.crashed) ==> env.crashed && disk == old(disk)
    {
      var o := env.Next();
      if o.Effective() {
        if Valid() && ReceiptFits(txn, parentId) {
          ReceiptStep(setting, disk, history, txn, parentId);
        }
        disk := disk.(receipts := disk.receipts[txn := Some(Receipt(txn, parentId))]);
      }
      ok := o.Done?;
    }

    /** `cleanupPendingTransaction`; an interrupted removal leaves any part of the directory. */
    method RemovePending(txn: Id) returns (ok: bool)
      modifies `disk, env
      ensures old(Valid()) && (txn in history.begun ==> txn in old(disk).receipts) ==> Valid()
      ensures || disk == old(disk)
              || disk == old(disk).(pending := old(disk).pending - {txn})
              || (txn in old(disk).pending && txn in disk.pending && IsResidue(disk.pending[txn], old(disk).pending[txn])
                  && disk == WithPending(old(disk), txn, disk.pending[txn]))
      ensures ok ==> txn !in disk.pending && (env.crashed ==> old(env.crashed))
      ensures old(env.Calm()) ==> ok && env.Calm()
      ensures old(env.crashed) ==> env.crashed && disk == old(disk)
    {
      if txn !in disk.pending {
        return true;
      }
      var dead := env.crashed;
      var residue: PendingDir := *;
      var o := env.Next();
      if o.Effective() {
        if Valid() && (txn in history.begun ==> txn in disk.receipts) {
          RemovalStep(setting, disk, history, txn);
        }
        disk := disk.(pending := disk.pending - {txn});
      } else if !dead && IsResidue(residue, disk.pending[txn]) {
        if Valid() && (txn in history.begun ==> txn in disk.receipts) {
          PendingStep(setting, disk, history, txn, residue);
        }
        disk := WithPending(disk, txn, residue);
      }
      ok := o.Done?;
    }

    /** One step inside a pending directory. */
    method ChangePending(txn: Id, dir: PendingDir) returns (ok: bool)
      modifies `disk, env
      ensures old(Valid() && Harmless(setting, disk, history, txn, dir)) ==> Valid()
      ensures disk == old(disk) || disk == WithPending(old(disk), txn, dir)
      ensures ok ==> disk == WithPending(old(disk), txn, dir) && !env.crashed
      ensures old(env.Calm()) ==> ok && env.Calm()
      ensures old(env.crashed) ==> env.crashed && disk == old(disk)
    {
      var o := env.Next();
      if o.Effective() {
        if Valid() && Harmless(setting, disk, history, txn, dir) {
          PendingStep(setting, disk, history, txn, dir);
        }
        disk := WithPending(disk, txn, dir);
      }
      ok := o.Done?;
    }

    /** The steps that open a transaction: two directories and the pending record. */
    method Open(key: Key, txn: Id, identity: Identity) returns (ok: bool)
      modifies `disk, env
      ensures disk == old(disk) || exists dir ::
                && disk == WithPending(old(disk), txn, dir)
                && (dir.record.Some? ==> dir == Unbuilt(key, txn, identity))
      ensures ok ==> disk == WithPending(old(disk), txn, Unbuilt(key, txn, identity)) && !env.crashed
      ensures old(env.Calm()) ==> ok && env.Calm()
      ensures old(env.crashed) ==> env.crashed && disk == old(disk)
    {
      hide Inv;
      ok := ChangePending(txn, PendingDir(None, None, None));
      if ok {
        ok := ChangePending(txn, PendingDir(None, Some(Tree(identity, [])), None));
      }
      if ok {
        ok := ChangePending(txn, Unbuilt(key, txn, identity));
      }
    }

    /** `parent-begin`: serves the parent of a key, or opens a transaction to build it. */
    method Begin(key: Key, txn: Id, identity: Identity) returns (r: Response)
      requires setting.identifier(txn) && txn !in history.used
      modifies `disk, `manualRecovery, `history, env
      ensures old(Valid()) ==> Valid() && Preserved(old(disk).parents, disk.parents)
      ensures !setting.compatibility(key) ==> r == Rejected("invalid-compatibility-key") && disk == old(disk)
      // a parent that verifies is served and nothing is touched
      ensures setting.compatibility(key) && Servable(setting, old(disk), setting.parentId(key)) ==>
                r == Found(old(disk).parents[setting.parentId(key)].metadata.value) && disk == old(disk)
      ensures r.Found? ==> setting.compatibility(key) && Servable(setting, old(disk), setting.parentId(key))
      // otherwise what stands in its place is moved aside and a fresh transaction is opened
      ensures old(env.Calm()) && setting.compatibility(key) && !Servable(setting, old(disk), setting.parentId(key)) ==> r.Opened?
      ensures r.Opened? ==>
                && r.transactionId == txn
                && disk == WithPending(Withdrawn(old(disk), setting.parentId(key)), txn, Unbuilt(key, txn, identity))
      // a transaction counts as begun when its client is told so
      ensures history == if r.Opened?
                         then History(old(history).begun[txn := key], old(history).staged[txn := Tree(identity, [])],
                                      old(history).publisher, old(history).used + {txn})
                         else old(history).(used := old(history).used + {txn})
      ensures old(env.crashed) ==> env.crashed && disk == old(disk)
    {
      history := history.(used := history.used + {txn});
      if !setting.compatibility(key) {
        return Rejected("invalid-compatibility-key");
      }
      var id := setting.parentId(key);
      var served := Serve(id);
      if served.Some? {
        return Found(served.value);
      }
      if id in disk.parents {
        var moved := Quarantine(id);
        if !moved {
          manualRecovery := true;
          return Rejected("parent-corrupt");
        }
      }
      ghost var before := disk;
      var created := Open(key, txn, identity);
      if created {
        history := history.(begun := history.begun[txn := key], staged := history.staged[txn := Tree(identity, [])]);
        r := Opened(txn);
      } else {
        r := Rejected("transaction-create-failed");
      }
      if old(Valid()) && disk != before {
        OpenStep(setting, before, old(history), key, identity, disk.pending[txn], history, txn);
      }
    }

    /** Moves the staged tree into the publication directory, unless an earlier attempt did. */
    method MoveToPublication(txn: Id) returns (code: string)
      requires txn in disk.pending
      modifies `disk, env
      ensures old(Valid()) && txn !in old(disk).receipts ==> Valid()
      ensures var dir := old(disk).pending[txn];
              || disk == old(disk)
              || disk == WithPending(old(disk), txn, Prepared(dir))
              || (dir.staging.Some? && dir.PublicationTree().None? && disk == WithPending(old(disk), txn, Moved(dir)))
      ensures code == "" ==>
                var dir := old(disk).pending[txn];
                && disk == (if dir.staging.Some? then WithPending(old(disk), txn, Moved(dir)) else old(disk))
                && dir.staging.Some? != dir.PublicationTree().Some?
                && (env.crashed ==> old(env.crashed))
      ensures old(env.Calm()) ==>
                var dir := old(disk).pending[txn];
                env.Calm() && (code == "" <==> dir.staging.Some? != dir.PublicationTree().Some?)
      ensures old(env.crashed) ==> env.crashed && disk == old(disk)
    {
      hide Environment.Calm, Environment.OneFault, Inv, Harmless;
      var dir := disk.pending[txn];
      if dir.staging.None? {
        return if dir.PublicationTree().None? then "transaction-not-found" else "";
      }
      if Valid() && txn !in disk.receipts && dir.PublicationTree().None? {
        MoveIsHarmless(setting, disk, history, txn);
      }
      if dir.publication.None? {
        var made := ChangePending(txn, Prepared(dir));
        if !made {
          return "parent-commit-failed";
        }
      }
      if dir.PublicationTree().Some? {
        return "parent-commit-failed";
      }
      var moved := ChangePending(txn, Moved(dir));
      code := if moved then "" else "parent-commit-failed";
    }

    /** `metadata.json` of the publication directory. */
    method WriteMetadata(txn: Id, record: ParentRecord) returns (ok: bool)
      requires txn in disk.pending && disk.pending[txn].publication.Some?
      modifies `disk, env
      ensures old(Valid()) ==> Valid()
      ensures disk == old(disk) || disk == WithPending(old(disk), txn, Described(old(disk).pending[txn], record))
      ensures ok ==> disk == WithPending(old(disk), txn, Described(old(disk).pending[txn], record)) && !env.crashed
      ensures old(env.Calm()) ==> ok && env.Calm()
      ensures old(env.crashed) ==> env.crashed && disk == old(disk)
    {
      var o := env.Next();
      if o.Effective() {
        if Valid() {
          assert txn in history.begun ==> Resumable(setting, disk, txn, history.begun[txn], history.staged[txn]);
          PendingStep(setting, disk, history, txn, Described(disk.pending[txn], record));
        }
        disk := WithPending(disk, txn, Described(disk.pending[txn], record));
      }
      ok := o.Done?;
    }

    /** The rename of the publication directory to its place among the parents. */
    method Publish(txn: Id, id: Id) returns (ok: bool)
      requires txn in disk.pending && disk.pending[txn].publication.Some?
      modifies `disk, `history, env
      ensures old(Valid()) && Publishable(setting, old(disk), txn, id) ==> Valid()
      ensures || (disk == old(disk) && history == old(history))
              || (id !in old(disk).parents && disk == Published(old(disk), txn, id)
                  && history == old(history).(publisher := old(history).publisher[id := txn]))
      ensures ok ==> disk != old(disk) && !env.crashed
      ensures old(env.Calm()) ==> env.Calm() && ok == (id !in old(disk).parents)
      ensures old(env.crashed) ==> env.crashed && disk == old(disk)
    {
      if id in disk.parents {
        return false;
      }
      var o := env.Next();
      if o.Effective() {
        if Valid() && Publishable(setting, disk, txn, id) {
          PublishStep(setting, disk, history, txn, id);
        }
        disk := Published(disk, txn, id);
        history := history.(publisher := history.publisher[id := txn]);
        assert id in disk.parents && id !in old(disk).parents;
      }
      ok := o.Done?;
    }

    /** Measures, describes, verifies and renames what is in the publication directory. */
    method PublishTree(txn: Id, key: Key, id: Id) returns (code: string, parent: Option<ParentRecord>)
      requires txn in disk.pending && disk.pending[txn].staging.None? && disk.pending[txn].PublicationTree().Some?
      requires disk.pending[txn].record.Some? && disk.pending[txn].record.value.key == key
      requires txn !in disk.receipts && id == setting.parentId(key) && id !in disk.parents
      modifies `disk, `history, env
      ensures old(Valid()) && setting.compatibility(key) ==> Valid() && Preserved(old(disk).parents, disk.parents)
      ensures history == old(history).(publisher := history.publisher)
      ensures forall i | i in history.publisher ::
                history.publisher[i] == txn || (i in old(history).publisher && history.publisher[i] == old(history).publisher[i])
      ensures code == "" <==> parent.Some?
      ensures disk.receipts == old(disk).receipts && disk.pending - {txn} == old(disk).pending - {txn}
      ensures parent.Some? ==>
                && !env.crashed
                && var tree := old(disk).pending[txn].PublicationTree();
                && setting.digestOf(tree.value.walk).Some?
                && parent.value == BuiltRecord(setting, id, key, tree.value)
                && disk.parents == old(disk).parents[id := Holding(parent, tree)]
                && history.publisher == old(history).publisher[id := txn]
      ensures old(env.Calm()) ==>
                env.Calm() && (parent.Some? <==> setting.digestOf(old(disk).pending[txn].PublicationTree().value.walk).Some?)
    {
      hide Inv;
      var tree := disk.pending[txn].PublicationTree().value;
      var digest := setting.digestOf(tree.walk);
      if digest.None? {
        return "parent-invalid", None;
      }
      var record := BuiltRecord(setting, id, key, tree);
      var written := WriteMetadata(txn, record);
      if !written {
        return "parent-commit-failed", None;
      }
      var verified := VerifyParent(record.(dataPath := PublicationData(txn)));
      if !verified {
        return "parent-invalid", None;
      }
      var published := Publish(txn, id);
      if !published {
        return "parent-commit-failed", None;
      }
      return "", Some(record);
    }

    /** The middle of `parent-commit`: from the staged tree to a published parent. */
    method Build(txn: Id, key: Key, id: Id) returns (code: string, parent: Option<ParentRecord>)
      requires txn in disk.pending && disk.pending[txn].record == Some(PendingRecord(txn, key, StagingData(txn)))
      requires txn !in disk.receipts && id == setting.parentId(key) && id !in disk.parents
      modifies `disk, `history, env
      ensures old(Valid()) && setting.compatibility(key) ==> Valid() && Preserved(old(disk).parents, disk.parents)
      ensures history == old(history).(publisher := history.publisher)
      ensures forall i | i in history.publisher ::
                history.publisher[i] == txn || (i in old(history).publisher && history.publisher[i] == old(history).publisher[i])
      ensures code == "" <==> parent.Some?
      ensures disk.receipts == old(disk).receipts && disk.pending - {txn} == old(disk).pending - {txn}
      ensures parent.Some? ==>
                && !env.crashed
                && var tree := BuildTree(old(disk).pending[txn]);
                && tree.Some?
                && setting.digestOf(tree.value.walk).Some?
                && parent.value == BuiltRecord(setting, id, key, tree.value)
                && disk.parents == old(disk).parents[id := Holding(parent, tree)]
                && history.publisher == old(history).publisher[id := txn]
      ensures old(env.Calm()) ==>
                && env.Calm()
                && var tree := BuildTree(old(disk).pending[txn]);
                && (parent.Some? <==> tree.Some? && setting.digestOf(tree.value.walk).Some?)
    {
      hide Inv;
      code := MoveToPublication(txn);
      if code != "" {
        return code, None;
      }
      code, parent := PublishTree(txn, key, id);
    }

    /** The end of `parent-commit`: the receipt, then the removal of the pending directory. */
    method Settle(txn: Id, parent: ParentRecord) returns (r: Response)
      modifies `disk, env
      ensures old(Valid() && ReceiptFits(txn, parent.parentId)) ==> Valid()
      ensures disk.parents == old(disk).parents && disk.quarantine == old(disk).quarantine
      ensures disk.pending - {txn} == old(disk).pending - {txn} && disk.receipts - {txn} == old(disk).receipts - {txn}
      ensures r == Found(parent) || r == Rejected("parent-commit-failed")
      ensures r.Found? ==>
                && !env.crashed && txn !in disk.pending
                && txn in disk.receipts && disk.receipts[txn] == Some(Receipt(txn, parent.parentId))
      ensures old(env.Calm()) ==> r.Found? && env.Calm()
    {
      hide Inv;
      var written := WriteReceipt(txn, parent.parentId);
      if !written {
        return Rejected("parent-commit-failed");
      }
      r := Clean(txn, parent);
    }

    /** Cleanup of a transaction whose receipt is on disk. */
    method Clean(txn: Id, parent: ParentRecord) returns (r: Response)
      requires txn in disk.receipts
      modifies `disk, env
      ensures old(Valid()) ==> Valid()
      ensures disk == old(disk).(pending := disk.pending) && disk.pending - {txn} == old(disk).pending - {txn}
      ensures r == Found(parent) || r == Rejected("parent-commit-failed")
      ensures r.Found? ==> txn !in disk.pending && (env.crashed ==> old(env.crashed))
      ensures old(env.Calm()) ==> r.Found? && env.Calm()
    {
      hide Inv;
      var removed := RemovePending(txn);
      r := if removed then Found(parent) else Rejected("parent-commit-failed");
    }

    /** `parent-commit` for a transaction without a receipt. */
    method CommitPending(txn: Id) returns (r: Response)
      requires txn !in disk.receipts
      modifies `disk, `history, env
      ensures old(Valid()) ==> Valid() && Preserved(old(disk).parents, disk.parents)
      ensures history == old(history).(publisher := history.publisher)
      ensures forall i | i in history.publisher ::
                history.publisher[i] == txn || (i in old(history).publisher && history.publisher[i] == old(history).publisher[i])
      ensures disk.pending - {txn} == old(disk).pending - {txn} && disk.receipts - {txn} == old(disk).receipts - {txn}
      ensures r.Found? ==>
                && !env.crashed && Settled(txn, r.parent)
                && txn in old(disk).pending && old(disk).pending[txn].record.Some?
                && r.parent.key == old(disk).pending[txn].record.value.key
      ensures old(Valid() && env.Calm() && CanCommit(txn)) ==>
                r.Found? && Answers(old(disk), txn, r.parent) && env.Calm()
    {
      hide Inv;
      if Valid() && txn in history.begun {
        BegunFacts(setting, disk, history, txn);
      }
      if txn !in disk.pending || disk.pending[txn].record.None? {
        return Rejected("transaction-not-found");
      }
      if Valid() {
        PendingFacts(setting, disk, history, txn);
      }
      var pending := disk.pending[txn].record.value;
      if pending.transactionId != txn || pending.stagingPath != StagingData(txn) {
        return Rejected("transaction-not-found");
      }
      var id := setting.parentId(pending.key);
      if id in disk.parents {
        var served := Serve(id);
        if served.Some? && served.value.key == pending.key {
          r := Settle(txn, served.value);
          return;
        }
        var moved := Quarantine(id);
        if !moved {
          return Rejected("parent-corrupt");
        }
      }
      var code, parent := Build(txn, pending.key, id);
      if parent.None? {
        return Rejected(code);
      }
      r := Settle(txn, parent.value);
    }

    /**
     `parent-commit`.  An OK answer means a verified parent, a receipt that names it and no pending
     directory.  On a sound disk a begun transaction that is committed without a fault is always
     answered OK, wherever earlier attempts were cut.
     */
    method Commit(txn: Id) returns (r: Response)
      modifies `disk, `history, `manualRecovery, env
      ensures old(Valid()) ==> Valid() && Preserved(old(disk).parents, disk.parents)
      ensures history == old(history).(publisher := history.publisher)
      ensures forall i | i in history.publisher ::
                history.publisher[i] == txn || (i in old(history).publisher && history.publisher[i] == old(history).publisher[i])
      ensures disk.pending - {txn} == old(disk).pending - {txn} && disk.receipts - {txn} == old(disk).receipts - {txn}
      ensures r.Found? && !env.crashed ==> Settled(txn, r.parent)
      ensures old(Valid() && env.Calm() && CanCommit(txn)) ==>
                r.Found? && Answers(old(disk), txn, r.parent) && env.Calm()
    {
      hide Inv;
      if !setting.identifier(txn) {
        if Valid() && txn in history.begun { BegunIdentified(setting, disk, history, txn); }
        return Rejected("invalid-transaction");
      }
      if txn !in disk.receipts {
        r := CommitPending(txn);
        return;
      }
      if Valid() { ReceiptFacts(setting, disk, history, txn); }
      var receipt := disk.receipts[txn];
      if receipt.None? || receipt.value.transactionId != txn || !setting.identifier(receipt.value.parentId) {
        manualRecovery := true;
        return Rejected("parent-receipt-corrupt");
      }
      var served := Serve(receipt.value.parentId);
      if served.None? {
        manualRecovery := true;
        return Rejected("parent-corrupt");
      }
      r := Clean(txn, served.value);
    }

    /** `parent-abort`: gives the transaction up; an interrupted removal leaves any part of it. */
    method Abort(txn: Id) returns (r: Response)
      modifies `disk, `history, env
      ensures old(Valid()) ==> Valid()
      ensures disk.parents == old(disk).parents && disk.receipts == old(disk).receipts && disk.quarantine == old(disk).quarantine
      ensures disk.pending - {txn} == old(disk).pending - {txn}
      ensures history == old(history).(begun := old(history).begun - {txn})
      ensures r.Aborted? || r.Rejected?
      ensures r.Aborted? ==> txn in old(disk).pending && txn !in disk.pending
      ensures old(env.Calm()) ==>
                && env.Calm()
                && (r.Aborted? <==> setting.identifier(txn) && txn in old(disk).pending && old(disk).pending[txn].record.Some?
                                    && old(disk).pending[txn].record.value.transactionId == txn)
      ensures !r.Aborted? && old(env.Calm()) ==> disk == old(disk)
    {
      history := history.(begun := history.begun - {txn});
      if !setting.identifier(txn) {
        return Rejected("invalid-transaction");
      }
      if txn !in disk.pending || disk.pending[txn].record.None? || disk.pending[txn].record.value.transactionId != txn {
        return Rejected("transaction-not-found");
      }
      var removed := RemovePending(txn);
      r := if removed then Aborted else Rejected("parent-abort-failed");
    }

    /** A client fills or replaces its staging tree. */
    method Stage(txn: Id, tree: Tree)
      modifies `disk, `history
      ensures old(Valid()) ==> Valid()
      ensures disk == if txn in old(disk).pending && old(disk).pending[txn].staging.Some?
                      then WithPending(old(disk), txn, old(disk).pending[txn].(staging := Some(tree))) else old(disk)
      ensures history == if txn in old(disk).pending && old(disk).pending[txn].staging.Some?
                         then old(history).(staged := old(history).staged[txn := tree]) else old(history)
    {
      if txn in disk.pending && disk.pending[txn].staging.Some? {
        if Valid() {
          StageStep(setting, disk, history, txn, tree);
        }
        disk := WithPending(disk, txn, disk.pending[txn].(staging := Some(tree)));
        history := history.(staged := history.staged[txn := tree]);
      }
    }

    /** The process dies and a new one starts on the disk it left. */
    method Restart(plan: seq<Outcome>)
      modifies `manualRecovery, env
      ensures env.plan == plan && env.drawn == 0 && !env.crashed && !manualRecovery
    {
      env.Restart(plan);
      manualRecovery := false;
    }

    /**
     Crash-resumable publication: however often and wherever crashes and faults cut the commit of a
     begun transaction, a restart and one undisturbed commit answer OK with a verified parent of the
     key, and it is the staged tree unless a parent of the key stood before.
     */
    method CommitAcrossCrashes(txn: Id, cuts: seq<seq<Outcome>>) returns (r: Response)
      requires Valid() && CanCommit(txn)
      modifies `disk, `history, `manualRecovery, env
      ensures Valid() && Preserved(old(disk).parents, disk.parents)
      ensures r.Found? && Settled(txn, r.parent)
      ensures history == old(history).(publisher := history.publisher)
      ensures r.parent.key == history.begun[txn] && r.parent.parentId == setting.parentId(r.parent.key)
      ensures setting.parentId(history.begun[txn]) !in old(disk).parents ==>
                setting.digestOf(history.staged[txn].walk) == Some(r.parent.digest)
      // what is then on disk: the parent as described, the staged tree if the key had none, the receipt
      ensures
        var id := setting.parentId(history.begun[txn]);
        && id in disk.parents && disk.parents[id].metadata == Some(r.parent) && disk.parents[id].data.Some?
        && r.parent.provider == setting.provider && r.parent.immutable && r.parent.dataPath == ParentData(id)
        && disk.parents[id].data.value.identity == r.parent.identity
        && setting.digestOf(disk.parents[id].data.value.walk) == Some(r.parent.digest)
        && (id !in old(disk).parents ==> disk.parents[id].data == Some(history.staged[txn]))
        && txn in disk.receipts && disk.receipts[txn] == Some(Receipt(txn, id)) && txn !in disk.pending
    {
      hide Inv;
      var id := setting.parentId(history.begun[txn]);
      for i := 0 to |cuts|
        invariant Valid() && CanCommit(txn)
        invariant Preserved(old(disk).parents, disk.parents)
        invariant history == old(history).(publisher := history.publisher)
        invariant id in disk.parents && id !in old(disk).parents ==> id in history.publisher && history.publisher[id] == txn
      {
        Restart(cuts[i]);
        PublishersAre(setting, disk, history);
        var _ := Commit(txn);
        PublishersAre(setting, disk, history);
      }
      Restart([]);
      r := Commit(txn);
      PublishersAre(setting, disk, history);
      PublisherFacts(setting, disk, history, id);
    }
  }
}
