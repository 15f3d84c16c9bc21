# Unity workspace storage: a verified model

This project models how the workspace storage services keep disk, journal and memory in agreement, and
proves what the order of their writes is for.

* **The Unix daemon** (`DaemonParents`, `LeaseDisks`, `LeaseRecovery`, `DaemonLeases`, `Daemon`): parents are
  published from staging through publication to their place, with a receipt at the end; leases consist of an
  owner marker, a journal, a cloned child and a mount link; a restart recovers them. `TreeDigest` is the
  encoding that a parent's digest is computed from, `RequestCache` the cache of answered requests.
* **Directory-clone leases on a file system** (`FileSystems`, `UnixStorage`): paths, inode identities and
  symbolic links; the removal of an owned child while somebody else changes the file system.
* **The Windows broker** (`StoreParents`, `SingleBuilder`, `GarbageCollection`, `Brokers`, `SingleFlight`):
  commit with a COMPLETE marker and rollback, any number of clients building one parent, garbage collection
  under a quota, leases that refer to parents, recovery, and the concurrent request cache.
* **Two primitives** (`Durable`, `CopyPool`): whole-or-nothing file writes and the bounded parallel copy.

## How faults and crashes are modelled

`Environments.Environment` holds a plan and draws from it: one outcome for every call that changes the disk (carried out;
failed without or with its effect; the process dies before or after it). After a death no later call has an
effect, so what a method leaves behind when the environment has `crashed` is the disk at the crash point. A
contract proved for every plan therefore holds at every crash point. `Calm()` means that no fault lies ahead.
The three concurrent parts are state machines whose runs interleave the steps in any order.

Names (identifiers, keys, tokens) are abstract; hashes are injective because a digest is modelled as the bytes
that are hashed; random ids are fresh where a contract says so.

## What turned out to differ from what one would expect

* **A second daemon recovery may change the disk.** If a journal whose child is gone is listed before another
  lease of the same workspace that the first pass clears, the first pass refuses it (the mount is still there)
  and only the second clears it. `LeaseRecovery.SecondRecovery` proves that a second recovery changes nothing
  exactly when no journal is shadowed in this way; `LeaseRecovery.ShadowedLease` is a disk where one is.
* **A whole COMPLETE is not final.** Its writer may still fail to read it back and then removes it and rolls
  back (`SingleBuilder.WriterMayRollBack` is a run that does). A parent with a whole COMPLETE can still change
  exactly while some client is between writing COMPLETE and reading it back, or in the rollback
  (`SingleBuilder.AlterableExactly`); only the client that wrote it changes it then
  (`SingleBuilder.OnlyItsWriterAlters`), and nobody once that client has come through (`SingleBuilder.SettledForever`).
* **The ignored error of the touch matters.** The broker's acquire ignores a failing touch of the parent; its
  own admission pass may then collect the expired parent it is about to use, and the lease is granted all the
  same (`Brokers.LostTouch`). When nothing but the touch fails, that happens exactly if the lease would be
  granted, room is lacking, and the parent is among the shortest first part of the candidates that makes room
  (`Brokers.Broker.Acquire`). Over whole runs no child dangles if every acquire is in time: its touch is carried
  out and younger than the time to live, or fails but the parent was used that lately anyway
  (`Brokers.Broker.Run`).
* **A failing acquire of the daemon may leave its marker behind, untracked.** If the owner marker is created but
  cannot be written in full, the exclusive write removes it again and ignores the error of that; a marker that
  stays has no journal and no flag (`Daemon.LostMarker`). This is the one exception: a refused acquire is undone
  or tracked if and only if it is not that double fault (`DaemonLeases.LeaseTable.Acquire`).
* **A failing rename of the image leaves an empty parent directory** (the `Stranded` case of
  `StoreParents.Store.CommitParent`); rollback covers only the later steps.
* **The copy can hang after a failed copy**: the pool's last worker leaves and the walker waits for room in a
  full queue (`CopyPool.StuckAfterAFailure`). That is the only way to get stuck (`CopyPool.StuckExactly`), and
  while no copy fails it does not come to it (`CopyPool.NeverStuck`).
* **Host space is measured once per collection pass.** A pass whose host floor is not met can never succeed and
  yet removes every candidate; success, when reported, does mean room (`Brokers.Broker.EnsureCapacity`).

## Model

| member | source | states |
|---|---|---|
| `Daemon.Manager.Run` | internal/workspaced/manager_unix.go:164-655 | every run of requests, client writes to staging, workspaces made and removed, crashes and restarts keeps all the daemon's invariants (no torn parent, write-ahead tracking, resumable transactions), and published parents never change |
| `Daemon.Manager.HandleAll` | internal/workspaced/manager_unix.go:164-209 | in the requests of one process no request id reaches the handler twice, nor one known before; every later use is answered like the first if the message is the same, and refused otherwise; the same calls of the handler without the repeats lead from the same start to the same end |
| `Daemon.Manager.Handle` | internal/workspaced/manager_unix.go:164-178 | a known request id changes nothing and gets the first reply or the duplicate error; a new one is dispatched and its reply kept under it; one without an id is dispatched and not kept |
| `Daemon.Manager.Dispatch` | internal/workspaced/manager_unix.go:180-209 | malformed envelopes are refused and change nothing; which operations may touch parents and which leases; for each operation what its answer means on disk and when it must succeed, with the counts of status and the exact condition of an abort |
| `Daemon.Manager.Restart` | internal/workspaced/manager_unix.go:136-162 | a new process starts without requests, leaves the parents alone, recovers the leases of all journals as the recovery function says if nothing fails, holds exactly those complete leases whose client still runs on this boot, and brings forth nothing of a lease that was gone |
| `Daemon.Manager.GrantThenRestart` | internal/workspaced/manager_unix.go:372-655 | a granted lease across a restart on the same boot is held again and complete if its client runs, and otherwise nothing of it is left |
| `Daemon.Manager.Report` | internal/workspaced/manager_unix.go:514-554 | the counts of parents, journals and quarantined entries |
| `RequestCache.RetriesInvisible` | internal/workspaced/manager_unix.go:164-178 | for any handler, random draws and faults included: every run has a run of the sequence with every later use of a request id dropped, with the same calls of the handler, the same start and the same end |
| `RequestCache.RetriesAdded` | internal/workspaced/manager_unix.go:164-178 | and every run of such a sequence is that of one with all the repeats |
| `RequestCache.RepeatsAreAnswered` | internal/workspaced/manager_unix.go:167-172 | an identical repeat gets the first response, a changed payload the duplicate error, neither changes anything |
| `RequestCache.Remembered` | internal/workspaced/manager_unix.go:173-177 | what is cached under an id never changes |
| `DaemonParents.ParentStore.CommitAcrossCrashes` | internal/workspaced/manager_unix.go:253-355 | however often and wherever commits of a begun transaction are cut, each cut cleanup leaving whatever part it may, a restart and an undisturbed commit answer OK; on disk are then a parent of its key with the identity, digest and provider it is described with, the very tree staged unless the key already had a parent, and the receipt, and no pending directory |
| `DaemonParents.ParentStore.Commit` | internal/workspaced/manager_unix.go:253-280 | OK means a verified parent, a receipt naming it and no pending directory; no other transaction is touched; a begun transaction commits whenever nothing fails |
| `DaemonParents.ParentStore.CommitPending` | internal/workspaced/manager_unix.go:281-355 | the same without a receipt: an existing good parent is adopted, a bad one moved aside, else the staged tree is built and published |
| `DaemonParents.ParentStore.Build` | internal/workspaced/manager_unix.go:304-347 | the parent published is the tree found in staging or publication, with its digest and identity; otherwise no parent appears |
| `DaemonParents.ParentStore.MoveToPublication` | internal/workspaced/manager_unix.go:304-322 | the staged tree is moved at most once, and a tree in both or neither place is an error |
| `DaemonParents.ParentStore.Publish` | internal/workspaced/manager_unix.go:345-347 | one rename publishes; an existing parent is never replaced |
| `DaemonParents.ParentStore.Begin` | internal/workspaced/manager_unix.go:213-251 | a verified parent is served untouched; otherwise what stands in its place is moved aside and a fresh transaction opened |
| `DaemonParents.ParentStore.Abort` | internal/workspaced/manager_unix.go:357-370 | exactly when an abort succeeds, and that it touches only that pending directory |
| `DaemonParents.ParentStore.VerifyParent` | internal/workspaced/manager_unix.go:740-756 | a tree about to be published verifies exactly when identity and digest are the recorded ones and the record says immutable |
| `DaemonParents.ParentStore.Serve` | internal/workspaced/manager_unix.go:657-671 | a parent is served exactly when it is filed under its id by this provider and its tree has the recorded identity and digest |
| `DaemonParents.ParentStore.RemovePending` | internal/workspaced/manager_unix.go:898-920 | a cut cleanup may leave any part of the directory; OK means it is gone |
| `DaemonParents.VerifiedTreeIsTheCommittedOne` | internal/workspaced/manager_unix.go:740-756 | with an injective hash the digest test accepts only the committed tree, in any walk order |
| `DaemonParents.PublishStep` | internal/workspaced/manager_unix.go:345-347 | the publishing rename keeps the invariant of the store and every published parent |
| `TreeDigest.DigestTree` | internal/workspaced/manager_unix.go:820-891 | the loops compute the digest that the walk determines and the size of all regular files; links, special files and the two marker names below the root are refused, and nothing else |
| `TreeDigest.StreamRoundTrip` | internal/workspaced/manager_unix.go:853-897 | decoding the hashed byte stream returns the entries with path, kind, mode and contents |
| `TreeDigest.OneFileEncoded` | internal/workspaced/manager_unix.go:855-897 | the bytes hashed for one file and one directory, in full |
| `TreeDigest.LessBytewise` | internal/workspaced/manager_unix.go:852-852 | paths are sorted by the first byte that differs, a beginning first |
| `TreeDigest.DigestIgnoresWalkOrder` | internal/workspaced/manager_unix.go:820-853 | the digest does not depend on the order of the walk |
| `TreeDigest.DigestDeterminesTree` | internal/workspaced/manager_unix.go:820-897 | equal digests mean equal trees |
| `TreeDigest.OrderingIsUnique` | internal/workspaced/manager_unix.go:852-852 | sorting by path leaves one possible order |
| `Daemon.LostMarker` | internal/workspaced/manager_unix.go:415-418 | a run in which a refused acquire leaves its owner marker, without a journal and without a flag |
| `Daemon.FirstLease` | internal/workspaced/manager_unix.go:372-468 | a run from an empty store to a lease that is live |
| `DaemonLeases.LeaseTable.WriteOwner` | internal/atomicfile/durable.go:60-93 | a marker that was there is never replaced; a failed write leaves something exactly when the removal that follows it fails too |
| `DaemonLeases.LeaseTable.Acquire` | internal/workspaced/manager_unix.go:372-468 | a grant puts exactly the journal with its consumer, process, boot and snapshot, the marked child, the owner marker and the mount on disk, only into a free workspace and only where one more child fits under quota and floor; a refused request is undone with its workspace as before, or keeps its journal, or calls for manual recovery, if and only if it is not the case that the marker could neither be written in full nor removed; inadmissible requests change nothing |
| `DaemonLeases.LeaseTable.Establish` | internal/workspaced/manager_unix.go:406-468 | the same from the first write on, and the grant whenever nothing fails on an empty workspace |
| `DaemonLeases.LeaseTable.Admit` | internal/workspaced/manager_unix.go:372-405 | a request is let through exactly when ids and parent are in order, the child fits under the tighter of the quotas and floors, and the workspace has no mount |
| `DaemonLeases.LeaseTable.Claim` | internal/workspaced/manager_unix.go:415-427 | marker before journal; the marker goes again when the journal cannot be written, or manual recovery is called for; what stays behind untracked is exactly a marker that failed twice |
| `DaemonLeases.LeaseTable.Equip` | internal/workspaced/manager_unix.go:428-464 | child, mount and ready journal, or all of it undone or tracked |
| `DaemonLeases.LeaseTable.Rollback` | internal/workspaced/manager_unix.go:922-936 | afterwards child, mount, marker and journal are gone or manual recovery is called for |
| `DaemonLeases.LeaseTable.Release` | internal/workspaced/manager_unix.go:470-512 | OK means journal, child, mount and marker are gone and the lease forgotten; nothing of another lease is touched; a complete lease is released whenever nothing fails |
| `DaemonLeases.LeaseTable.ReleaseLease` | storage/lifecycle_unix.go:226-281 | the daemon's view of the backend's release |
| `DaemonLeases.LeaseTable.RemoveChild` | storage/lifecycle_unix.go:507-542 | what is left of a cut removal carries the reserved prefix |
| `DaemonLeases.LeaseTable.Recover` | internal/workspaced/manager_unix.go:580-655 | the loop does to the disk what the recovery function says and reports an error exactly when a journal is blocked; every complete lease is held if its client runs on this boot of the host, and else gone |
| `DaemonLeases.LeaseTable.RecoverEntry` | internal/workspaced/manager_unix.go:586-653 | one journal's verdict and effect; a complete lease is registered untouched for a running client of this boot, and else journal, child, mount and marker go and nothing else |
| `LeaseRecovery.Trichotomy` | internal/workspaced/manager_unix.go:580-655 | each journal's child, mount, marker and journal are all gone, or it is registered and untouched, or untouched with an error |
| `LeaseRecovery.CompleteLease` | internal/workspaced/manager_unix.go:619-653 | a complete lease, wherever it is listed, is registered and untouched if its boot is the host's and its client runs, and otherwise all gone |
| `LeaseRecovery.DoubtfulLease` | internal/workspaced/manager_unix.go:586-628 | a journal that is unreadable or inconsistent, or whose child, marker, mount or owner is not the recorded one, is reported, and journal and child stay |
| `LeaseRecovery.ChildlessLease` | internal/workspaced/manager_unix.go:600-618 | a journal without a child goes with its marker exactly when nothing is mounted and the marker is its own or missing |
| `LeaseRecovery.SecondRecovery` | internal/workspaced/manager_unix.go:580-655 | a second recovery changes nothing on disk if and only if no journal is shadowed |
| `LeaseRecovery.ShadowedLease` | internal/workspaced/manager_unix.go:600-618 | a disk on which the second recovery does change something |
| `LeaseRecovery.OthersKeep` | internal/workspaced/manager_unix.go:580-655 | a lease that is not listed keeps everything |
| `FileSystems.LocateKept` | storage/lifecycle_unix.go:405-421 | lookups that follow links end where they did when only an empty directory has changed |
| `UnixStorage.OwnedIsAcquired` | storage/lifecycle_unix.go:379-421 | the ownership test means that where the path leads lies the directory with the acquired device and inode, and in it the marker with schema, lease id and token |
| `UnixStorage.Storage.RemoveOwnedChild` | storage/lifecycle_unix.go:507-542 | for any change made right after the rename: only a tree whose root has the acquired identity and marker is deleted from, nothing outside it changes; undisturbed, an owned tree goes entirely and nothing else, a directory that lost its marker but still has the identity is renamed back if its old path is free, and otherwise nothing is touched |
| `UnixStorage.Storage.RemoveTree` | storage/lifecycle_unix.go:570-583 | removal stays inside the tree and does not follow links |
| `UnixStorage.Storage.RemoveOwnedMount` | storage/lifecycle_unix.go:483-505 | only the very link that acquire made, to this child, is removed |
| `UnixStorage.Storage.Acquire` | storage/lifecycle_unix.go:72-212 | a lease means the clone with its marker in place of the child, the link in place of the mount, and nothing else changed; only a source of plain directories and files without a marker is cloned, below a real store root, beside a mount that was missing or empty; a failure without cleanup error leaves everything as before; without faults an acceptable request is granted |
| `UnixStorage.Storage.CloneChild` | storage/lifecycle_unix.go:145-175 | what is not verified as owned is left in place and reported |
| `UnixStorage.Storage.MarkChild` | storage/lifecycle_unix.go:328-377 | the marker is created exclusively and verified |
| `UnixStorage.Storage.Undo` | storage/lifecycle_unix.go:113-139 | the cleanup of a failing acquire: if it reports no error, all is as before |
| `UnixStorage.UnixLease.Release` | storage/lifecycle_unix.go:226-281 | after any use of the child, an OK release with deletion leaves everything as before acquire; without deletion the mount is returned and the child stays owned |
| `UnixStorage.AcquireUseRelease` | storage/lifecycle_unix.go:72-281 | acquire, any change inside the child, perhaps a recovery from the snapshot, then release: all is as before |
| `UnixStorage.RecoveredIsTheSame` | storage/unix_recovery.go:27-60 | a snapshot recovers the very lease, exactly while child, marker and link are still the acquired ones |
| `UnixStorage.MovedAside` | storage/lifecycle_unix.go:507-542 | the child renamed aside is still found and owned there, and deleting it there is deleting it where it was |
| `StoreParents.ResolvesExactly` | workspace/store.go:65-96 | a key resolves exactly with an image, a whole COMPLETE and metadata of this schema, provider and key |
| `StoreParents.Store.CommitParent` | workspace/store.go:199-246 | at every crash point the parent resolves only with the staged image, whole metadata and a whole COMPLETE; what is published is the transaction's own image, sealed, with metadata that count it as just used; a fault after the rename is rolled back to the staged image and record when nothing else fails; a failing rename leaves an empty directory |
| `StoreParents.Store.Rollback` | workspace/store.go:219-226 | if the image goes back and the directory can be removed, everything is as before, whatever errors were ignored |
| `StoreParents.Store.Finish` | workspace/store.go:227-243 | seal, metadata, COMPLETE, in that order |
| `StoreParents.Store.WriteComplete` | internal/atomicfile/durable.go:60-93 | COMPLETE ends up whole or the write has failed; an existing one is not replaced |
| `StoreParents.Store.BeginParent` | workspace/store.go:98-134 | a key that has a valid parent or a pending directory is a conflict and nothing changes |
| `StoreParents.Store.AbortParent` | workspace/store.go:248-273 | only an own transaction whose image is gone can be aborted |
| `StoreParents.Store.TouchParent` | workspace/store.go:463-474 | a touch takes effect exactly when its write does and the token agrees, and changes the last use and nothing else |
| `StoreParents.Store.RemoveParentIfUnused` | workspace/store.go:656-673 | a parent in use or one that does not resolve is not touched |
| `SingleBuilder.SettledForever` | workspace/store.go:98-273 | once COMPLETE's writer has come through, no step of any client's begin, commit or abort changes the parent |
| `SingleBuilder.AlterableExactly` | workspace/store.go:199-246 | in every reachable state with a whole COMPLETE, some continuation alters the parent if and only if a client is between writing COMPLETE and its successful read-back, or in the rollback |
| `SingleBuilder.OnlyItsWriterAlters` | workspace/store.go:219-246 | whoever alters such a parent is the client that wrote its COMPLETE, alone inside and about to roll back |
| `SingleBuilder.WriterMayRollBack` | internal/atomicfile/durable.go:66-92 | a run of begin and commit in which a whole COMPLETE is removed again by its writer |
| `SingleBuilder.ExclusiveAlways` | workspace/store.go:207-217 | at most one client works in a parent directory |
| `SingleBuilder.OneAtATime` | workspace/store.go:98-134 | between the begins of two transactions of a key there is a moment without any pending one |
| `GarbageCollection.ReclaimableAgrees` | workspace/broker.go:660-667 | the reclaimable bytes are the same counted along the listing or over the directories |
| `GarbageCollection.CandidatesAre` | workspace/broker.go:722-728 | the candidates are exactly the unprotected parents last used before the cutoff |
| `GarbageCollection.CandidatesInOrder` | workspace/store.go:441-461 | and come in order of last use |
| `GarbageCollection.OldestGo` | workspace/broker.go:721-745 | with the first candidates gone only expired parents are missing, every expired one that is left was used no earlier, and with all of them gone none is left |
| `GarbageCollection.OneListing` | workspace/store.go:441-461 | unless two parents were last used at the same time there is one listing only |
| `Brokers.Broker.EnsureCapacity` | workspace/broker.go:682-746 | a pass that succeeds, under whatever faults, leaves the bytes on disk plus the reserve within every quota that applies and the host above every floor; it has taken only expired parents that nothing refers to, the oldest first, and the last one was needed; where there was room nothing is done; one that fails undisturbed has removed every such parent and still lacks room; parents in use or used lately survive any fault; a dry run removes nothing |
| `Brokers.Broker.Reclaim` | workspace/broker.go:721-745 | the loop behind it: success means just enough has gone and nothing else, under whatever faults |
| `Brokers.Broker.StatusThenDryRun` | workspace/broker.go:633-668 | a dry run's reclaimable sum equals that of status |
| `Brokers.Broker.Reclaimable` | workspace/broker.go:640-668 | status' reclaimable sum is that over the unused expired parents, and ambiguous records block it |
| `Brokers.Broker.ProtectedParentKeys` | workspace/store.go:333-391 | exactly the parents that a journal, a pending directory or a retained record names; any ambiguity is an error |
| `Brokers.Broker.ListParents` | workspace/store.go:441-461 | all readable metadata, each once, by last use |
| `Brokers.Broker.Measure` | workspace/store.go:618-635 | the total over all disk images of parents, staging, children and quarantine |
| `Brokers.OneImageMore` | workspace/store.go:618-635 | an image more of b bytes, whichever of the four it is, makes the total b greater |
| `Brokers.Broker.Run` | workspace/broker.go:213-275 | no dangling child: over any sequence of requests, deaths and faults every lease journal names a parent that resolves, if every acquire was in time in the state that it met; in particular if no step fails outright and no touch is older than the time to live when room is made |
| `Brokers.Broker.Acquire` | workspace/broker.go:473-546 | an acquire in time leaves no child dangling at any crash point, and a child that has appeared has its journal; a grant adds exactly the ready journal, the child, the owner marker in a workspace that had none, and a session, and its parent is found with just the new last use; when nothing but the touch fails, the child dangles if and only if the lease is granted and its parent is among those taken for room; with room, a free workspace and no fault the lease is granted |
| `Brokers.Broker.Admit` | workspace/broker.go:485-546 | the same from the making of room on |
| `Brokers.LostTouch` | workspace/broker.go:484-484 | a run in which the touch fails and the lease granted next dangles |
| `Brokers.FirstLease` | workspace/broker.go:374-546 | a run from an empty store to a lease whose parent resolves |
| `Brokers.Broker.Collect` | workspace/broker.go:670-680 | a pass keeps every parent in use or lately used, and succeeds when there is room already |
| `Brokers.Broker.BeginParent` | workspace/broker.go:374-419 | a valid parent is touched and served with its metadata, a missing one is built by one client while others wait, a corrupt one is refused; parents that resolve still do |
| `Brokers.Broker.CommitParent` | workspace/broker.go:421-450 | an answer means that the transaction's image is published under its key and resolves with the metadata answered, which hold the measured bytes and count it as just used; nothing of another key differs |
| `Brokers.Broker.AbortParent` | workspace/broker.go:452-471 | the transaction's pending directory goes, no parent changes |
| `Brokers.Broker.Install` | workspace/broker.go:497-542 | journal, owner marker, child, ready journal and session and nothing else, or no session; journal before child at every crash point |
| `Brokers.Broker.GrantThenRelease` | workspace/broker.go:473-631 | a workspace that a lease owns is refused to another; undisturbed, a granted lease can be released, and journal, child and workspace are gone |
| `Brokers.Broker.Release` | workspace/broker.go:581-631 | journal, child and workspace are gone, or the child is kept with a retained record; at every crash point a child that is gone has no journal that says ready; a workspace that cannot be cleaned sets the lease aside |
| `Brokers.Broker.Heartbeat` | workspace/broker.go:548-579 | the journal of a ready lease gets the client's processes, the boot if it had none, and the time, and nothing else changes; undisturbed it succeeds exactly for a ready lease with a session |
| `Brokers.Broker.AttachRetained` | workspace/broker.go:277-321 | a session for a retained child whose parent resolves and whose workspace is free; undisturbed exactly then |
| `Brokers.Broker.RemoveRetained` | workspace/broker.go:323-370 | child, workspace, journal and record are gone; undisturbed exactly when record and journal agree, the child is attached or its parent resolves, and the workspace can be cleaned |
| `Brokers.TouchedParentStays` | workspace/broker.go:722-728 | a parent stays exactly when it is not among those removed; in use or lately used it is no candidate |
| `Brokers.Broker.Recover` | workspace/broker.go:46-147 | released, preserved and quarantined are the numbers of the leases freed, kept and parked and of the pending entries left and moved to quarantine, and add up to all of them; a lease that is retained, or of this or an unknown boot and live or in grace, is left as it is at every crash point; any other is gone with child and workspace or still has its journal |
| `Brokers.Broker.RecoverLeases` | workspace/broker.go:64-146 | the loop behind it sorts every journal into one of the three |
| `Brokers.Broker.RecoverEntry` | workspace/broker.go:65-145 | who is kept, by retention, boot, processes and age; undisturbed any other goes exactly when its parent resolves and its workspace can be cleaned, and else is set aside; without its parent a child is not touched |
| `Brokers.Broker.RecoverPending` | workspace/store.go:136-179 | young, live and unreadable pending entries stay as they are; undisturbed all others go, except an image whose name in quarantine is taken; the counts are those of the entries left and of the images that came into quarantine; no staged image is lost |
| `Brokers.Broker.RecoverPendingEntry` | workspace/store.go:151-176 | which entry stays, which is dropped and which moves to quarantine |
| `Brokers.Broker.CleanWorkspace` | workspace/broker.go:823-853 | only an owned workspace without links is removed |
| `SingleFlight.RunsAtMostOnce` | workspace/broker.go:178-211 | the handler is started at most once for an id, and the id is in flight exactly while it is at work |
| `SingleFlight.StoredForever` | workspace/broker.go:203-209 | a stored response never changes |
| `SingleFlight.AllAlike` | workspace/broker.go:180-196 | all uncancelled callers of an id return the same response |
| `SingleFlight.TheHandlersResponse` | workspace/broker.go:198-210 | and that is what the handler answered in its one run |
| `SingleFlight.WaitersAreServed` | workspace/broker.go:184-196 | no wakeup is lost: a waiter can wake or the call it waits for can go on |
| `Durable.Folder.WriteDurable` | internal/atomicfile/durable.go:15-55 | at every crash point and after every error the file is the old or the new one, flushed; OK means new and no temporary file |
| `Durable.Folder.WriteExclusiveDurable` | internal/atomicfile/durable.go:60-93 | an existing file is never replaced; what a crash leaves is a beginning of the data |
| `Durable.Folder.Rename` | internal/atomicfile/atomicfile.go:24-35 | it gives up only after a hundred failures |
| `Durable.OldOrNewSurvives` | internal/atomicfile/durable.go:11-14 | old-or-new survives a power failure at any step, whichever renames it takes back |
| `CopyPool.NilMeansAllCopied` | internal/filecopy/copy.go:31-106 | a nil result means that every entry that is neither directory nor link was copied exactly once |
| `CopyPool.StuckExactly` | internal/filecopy/copy.go:31-106 | before the answer, no step is possible if and only if all workers have left while the walker waits for room in a full queue |
| `CopyPool.NeverStuck` | internal/filecopy/copy.go:31-106 | while no copy fails some step is possible until the caller has its answer |
| `CopyPool.StepsEnd` | internal/filecopy/copy.go:31-106 | every step decreases a measure over entries to walk, queued jobs and jobs in hand |
| `CopyPool.StuckAfterAFailure` | internal/filecopy/copy.go:45-58 | after a failed copy the walker may wait for ever |

## Left out

- `Daemon.Manager.Run`: events between two calls are restarts, client writes to staging and workspaces that come and go; nobody else writes to the store.
- `Daemon.Manager.Report`: the counts only; measured bytes, free space and capabilities are inputs of the model, not results.
- `Daemon.Manager.HandleAll`: one process; after a restart the cache is empty and a repeated id is handled again, as in the source.
- `DaemonLeases.LeaseTable.Recover`: a crash after the owner marker and before the journal leaves a marker that no recovery sees; recovery is stated for journals.
- `DaemonLeases.LeaseTable.RecoverEntry`: a release cut between mount and child goes to manual recovery, as in the source; it is not resumed.
- `Brokers.Broker.Acquire`: the exact condition for a dangling child is stated for the case that nothing but the touch fails; with further faults it is stated in one direction, that an acquire in time leaves none.
- `Brokers.Broker.Run`: requests one at a time, although the broker runs its handlers without the lock; a collection racing an acquire is not covered.
- `Brokers.Broker.Install`: the mount at Library, which the native layer makes and takes away with the child, is not tracked; `mounted` tells whether something stood there before.
- `Brokers.Broker.Recover`: the workspace of a kept lease is stated to stay if its marker is the lease's own.
- `SingleBuilder.SettledForever`: the touch in begin-parent, which rewrites the last use in the metadata, and garbage collection are not among the steps.
- `UnixStorage.Storage.Acquire`: the mount path's directory exists before acquire, and the mount is not inside the child; otherwise no more is claimed than the lease itself.
- `CopyPool.NilMeansAllCopied`: the context is never cancelled, since workers that see a cancelled context record no error.
- `TreeDigest.DigestTree`: the digest is the byte stream itself in place of its SHA-256; files do not change while they are read.
- Faults of reads (stat, read, listing) other than unreadable records; they make the source fail without changing anything.
- Time stamps beyond last use and update time, metrics, error texts, JSON syntax; one clock for broker and store.
- Signed 64-bit overflow of byte counts; permission bits lost to the umask.
- Temporary files that a crash in the middle of a durable write leaves beside the daemon's and the broker's records (`Durable` models them for one directory).
- `..` in link targets, and link limits other than forty.
- VirtDisk, PowerShell and volume handling, the clone itself, reparse points, pipes, sockets and peer credentials, service hosts, the command line and the schema adapters: foreign calls or field mapping; where they matter they appear as steps that succeed or fail.
- The start-up probe, `hello`, and the authorization checks of the broker's request envelope: easy members.
- The hashes of `workspace/key.go` and `internal/libraryimage`: their streams carry no lengths.
