# A verified model of CoreFS

CoreFS is a user-space file system. This project models its in-memory core in Dafny and proves what
its operations promise:

- `Volumes.dfy`, `Changes.dfy`: the state of a volume (active and deleted catalog, recovery store,
  blocks, id allocator, dirty set), its invariants, and the changes operations make. `Sound` says that
  ids identify and recovery equals the deleted catalog; `Faithful` that every entry decodes, under its
  own flags, to as many bytes as its size says; `Covers` that the dirty set knows everything the last
  checkpoint misses.
- `BlockStore.dfy`, `Compaction.dfy`, `Backing.dfy`: the block store below it, with records of extents
  over the blocks of a device, what files can do to each other through them, what moving the records
  together keeps, and how the blocks of a volume follow the contents of a store.
- `Service.dfy`: `CoreFsService`, the class whose methods are the operations of the service, with
  `Renaming.dfy`, `Cloning.dfy`, `Snapshots.dfy` and `Reconciliation.dfy` for its loops over the catalog.
- `Integrity.dfy`: the consistency check.
- `WriteBack.dfy`: one open file as a prefix held by the service and a buffer on top of it, refining a
  plain byte sequence.
- `FuseIndex.dfy`, `TreeShape.dfy`, `Directories.dfy`, `VirtualNodes.dfy`, `SnapshotTree.dfy`: the index
  maps of a mount, the tree shape they rely on, directory listings and their pages, numbers of virtual
  nodes, and the tree shown below `.snapshots`.
- `FuseHandles.dfy`, `PlainFiles.dfy`: open-file handles as values, what renames and removals leave of
  them, and the plain file system that runs of handles are judged against.
- `FuseMount.dfy`: `CoreFsFuseMountRw`, the read-write mount with its handle table, index maps and
  directory operations on top of a `CoreFsService`, and runs of requests to it.
- `Calendar.dfy`: the three date algorithms against the Gregorian calendar (section 3.2.1 of
  ISO 8601:2004).
- `CapacityProbe.dfy`: probing a device for its real capacity, with the error bound of the estimate.
- `Bytes.dfy`, `Division.dfy`, `Sorting.dfy`, `Paths.dfy`, `Wrappers.dfy`: byte strings, quotients,
  ordered listings, paths, options and results.

`dafny verify dfyconfig.toml` checks everything.

## What the code does not do

Properties one would expect that do not hold, each stated with the exact condition:

- A write of no bytes behind the end of a file is ignored for plain files, extends packed ones, and
  extends a file written through a handle (`Services.RangeWritesAgree`, `WriteBack.WriteIsPosix`).
- A write in front of the buffer of a streaming handle panics unless it has no bytes
  (`FuseMount.CoreFsFuseMountRw.WriteToHandle`).
- A flush does not advance the committed size. It is exact as long as the service holds nothing behind
  the committed prefix; appending after a flush of a streaming handle and flushing again stores bytes
  twice (`WriteBack.FlushExact`, `WriteBack.SecondFlushDoubles`). In runs over many handles, only the
  files of handles that are streamed or flushed when they are out of step go wrong, and a handle gets out
  of step exactly when a flush appends what is left of a streamed file; a run that writes to no handle
  after it has been flushed has none (`FuseMount.CoreFsFuseMountRw.Serve`, `PlainFiles.OutExact`).
- The block store overwrites a record with enough blocks from its first block on as if its extents
  followed each other. A file extended behind another one and then rewritten overwrites the other one,
  and removing it gives the other one's block away. The store's write leaves all other files alone
  exactly when no block of the range holds their bytes (`BlockStorage.OverwriteHitsNeighbour`,
  `BlockStorage.RemoveGivesNeighbourAway`, `BlockStorage.IsolatedExact`).
- Defragmentation and the reallocation of hot files copy one record after the other to the end of those
  before it. In a store in order, that keeps all contents, whatever they are, exactly when every record
  that is moved has at most one extent and room at its new place, and nothing is copied over bytes of a
  record that waits for its turn or stays where it is (`Compaction.CompactionExact`). Defragmentation meets this when every record has one
  extent (`Compaction.Defragment`), and puts another file's bytes in place of appended ones when a file
  was extended behind it (`Compaction.DefragmentHitsAppended`); moving a hot file in front of a cold one
  replaces the content of the cold one (`Compaction.HotReplacesCold`). `write_file`, `create_file`,
  `create_symlink` and a secure delete may start this too, when background compaction is switched on.
- Renaming loses entries exactly when one of the subtree is moved onto an entry that stays or that comes
  later in the listing, and renaming an entry onto itself deletes it (`Renaming.RenameConserves`,
  `Renaming.RenameOntoItself`). The mount's own checks, with the kernel's, rule both out
  (`FuseMount.CoreFsFuseMountRw.Rename`).
- A rename in the mount does not tell open handles their new path. The write-back of a handle in the
  moved subtree is refused, and the bytes are lost; that of a handle on the replaced file goes into the
  file moved there. Exactly the paths outside of subtree and target still lead to their files
  (`FuseHandles.RenameReaches`, `FuseHandles.WriterOfRenamed`, `FuseHandles.WriterOfReplaced`). A
  handle that streams into the subtree is out of order afterwards, one that streams into the replaced
  file exactly when the moved one is unreadable or shorter than its prefix
  (`FuseHandles.HandlesAfterRename`).
- The first streamed write of a handle, a flush, `mkdir` and `create` mark the mount dirty even if the
  service then refuses (`FuseMount.CoreFsFuseMountRw.WriteToHandle`,
  `FuseMount.CoreFsFuseMountRw.FlushFileHandle`).
- The listing of the root has the name `.snapshots` twice exactly when there is an entry of that name,
  which a lookup then does not find (`Directories.NamesDistinct`).
- An inode id chosen by the caller is not checked: two entries can come to share one
  (`Services.CoreFsService.CreateFileWithInode`).
- Entries that come back when the journal is replayed are not marked dirty
  (`Services.CoreFsService.ReconcileFromJournal`).
- Replaying the journal of the volume's own run does not leave the active catalog alone: it does so
  exactly when no active path is journalled as deleted last and no deleted one as active
  (`Reconciliation.ReconciledSame`). Without renames and clones, that is when no path is both active and
  deleted; a file made again at the path of a deleted one is replaced by that one
  (`Reconciliation.OwnJournal`). A rename over a file journals only that file's deletion, so the renamed
  file lands in the deleted catalog (`Reconciliation.RenamedOverReloaded`).
- A clone that shares its block does not mark its inode dirty (`Services.CoreFsService.CloneFile`).
- A refused creation of a file or directory uses up an id (`Services.CoreFsService.CreateFile`), and a
  clone without shared blocks keeps the tags of its source but not its mode and owner.
- A read without a handle returns what the node has cached, which is the raw block after the maps were
  built and nothing after a streamed file was flushed (`FuseHandles.RawIsContent`).
- Overlaying the dirty blocks on the last checkpoint, without dropping the dirty inodes first, is wrong
  when an id was reused for an entry without block (`Volumes.OverlayWithoutDropping`).
- A secure delete of an entry without block reports an error although the entry is gone
  (`Services.CoreFsService.DeleteFile`).
- Restoring a snapshot puts the captured flags on freshly written content; it reads back when they are
  the flags a write would choose now (`Snapshots.RestoredReadsAsCaptured`, `Storage.DecodeOtherFlags`).
- A symlink that still exists keeps its present target when a snapshot is restored
  (`Services.CoreFsService.RestoreEntry`).
- The orphan check finds nothing at all when there is a deleted entry with the empty path, which
  `validate_path` otherwise prevents (`Integrity.IntegrityService.DeepFsck`).
- In a snapshot, directories that were captured themselves are looked up as files, although listings
  show them as directories unless they were empty (`SnapshotTree.CapturedDirectoriesAreFiles`).
- Dates are checked against 31 days only, so the 31st of February is accepted
  (`Calendar.ParseDate`). The year arithmetic of selectors overflows exactly for dates before the 7th of
  June of the year -25 252 734 927 764 585 or after the 25th of September of the year
  25 252 734 927 766 554, and for any day in the few hundred years next to the smallest 64-bit one
  (`Calendar.OverflowExact`, `Calendar.OverflowingSelector`).
- A capacity run with a single probe says nothing about the rest of the device
  (`CapacityProbe.AllVerified`).

## Model

| member | source | states |
|---|---|---|
| ByteStrings.SpliceAt | corefs-core/src/storage/block_store.rs:563-688 | a byte-range write yields, position by position, the written bytes inside the range, the old bytes outside of it, and zeros in a hole behind the old end |
| ByteStrings.SpliceNothing | corefs-core/src/storage/block_store.rs:563-570 | a write of no bytes leaves the content alone if and only if it does not lie behind the end |
| Storage.DecodeEncode | src/app/mod.rs:228-302 | content that goes through compression and encryption reads back under the flags recorded with it |
| Storage.DecodeOtherFlags | src/app/mod.rs:855-931 | for content too short to compress, reading under another encryption flag works if and only if the flag is the one of the write |
| Storage.OtherEncryption | src/app/mod.rs:855-931 | a block that reads uncompressed under the encryption of its write reads the same under another encryption flag if and only if that is the same flag |
| Storage.WriteRangeIsSplice | corefs-core/src/storage/block_store.rs:563-748 | append, full overwrite, whole-file fallback and in-place patch compute one and the same splice, an empty write changes nothing, and the write is refused exactly in the fallback beyond its size limit |
| Storage.ResizeBlockIsResize | corefs-core/src/storage/block_store.rs:691-714 | growing and shrinking a block give exactly the requested length, every kept position with its old byte and every new one with zero; refused exactly when the kept part is above the size limit |
| Volumes.IncrementalCheckpoint | src/app/mod.rs:193-221 | dropping the dirty inodes from the saved bytes and adding their current blocks equals the blocks of all active inodes: an incremental checkpoint is a full one |
| Volumes.OverlayWithoutDropping | src/app/mod.rs:1628-1662 | overlaying only the dirty blocks is the same if and only if every dirty inode with saved bytes still owns a block |
| Volumes.TotalSizeSplit | corefs-core/src/storage/catalog.rs:69-80 | the byte total is the sum over the non-directories, whichever entry is taken out first |
| Changes.PutUpdates | src/app/mod.rs:363-421 | putting one inode, with or without a new block, changes what is seen at its path only, keeps every readable entry readable and the dirty set complete |
| Changes.PutSound | src/app/mod.rs:228-302 | putting an entry under an id that is its own or free keeps ids unique over active and deleted entries and the reuse list |
| Changes.TakenIdSpoils | src/app/mod.rs:250-300 | an entry put under an id that another entry carries, or under id zero, leaves a volume in which ids do not identify |
| Changes.AttributedKeeps | src/app/mod.rs:1537-1570 | changing owner, group, permissions and change time is invisible in the tree, keeps the invariant, and needs no block to be saved |
| Changes.UnmarkedPut | src/app/mod.rs:982-995 | an entry that appears without being marked dirty is covered by the last checkpoint if and only if its id was dirty before or the checkpoint has the same bytes under it |
| Changes.AllocatedFresh | corefs-core/src/storage/allocator.rs:20-27 | the next id belongs to no entry and no longer waits for reuse |
| Changes.ClaimedAllocated | src/app/mod.rs:223-240 | claiming the id just allocated changes nothing more |
| Changes.ClaimedFresh | corefs-core/src/storage/allocator.rs:33-44 | claiming any id takes it out of the reuse list, keeps the counter at or above it, and concerns no entry |
| Changes.TrashedKeeps | src/app/mod.rs:663-696 | a soft delete takes one path out of the tree, makes it recoverable, and keeps ids, readability and dirty set |
| Changes.ErasedKeeps | src/app/mod.rs:663-696 | a secure delete takes the path out of the tree and out of the recoverable entries and frees the id only together with its block |
| Changes.ExpungedKeeps | src/app/mod.rs:1146-1159 | expunging a deleted entry leaves the tree alone, drops it from the recoverable entries and keeps everything else readable |
| Changes.RevivedUndoesTrashed | src/app/mod.rs:698-714 | deleting and restoring a path gives back the very catalog and tree |
| Services.CoreFsService.constructor | src/app/mod.rs:155-190 | an empty volume satisfies all invariants |
| Services.CoreFsService.QuotaStats | corefs-core/src/storage/catalog.rs:69-80 | the loop counts the non-directories and sums up their sizes |
| Services.CoreFsService.CheckQuota | corefs-core/src/services/quota.rs:44-72 | passes exactly when both projected totals are within the limits |
| Services.CoreFsService.Allocate | corefs-core/src/storage/allocator.rs:20-27 | returns the oldest id waiting for reuse or a new one, and keeps all entries and the invariant |
| Services.CoreFsService.Claim | corefs-core/src/storage/allocator.rs:33-44 | reserves a given id and keeps all entries and the invariant |
| Services.CoreFsService.CreateFile | src/app/mod.rs:223-226 | refused exactly for a bad path, an existing path or an exceeded quota, which still uses up the id; otherwise exactly this path shows a file with these bytes, under the flags of the content pipeline |
| Services.CoreFsService.CreateFileWithInode | src/app/mod.rs:228-302 | the same with an id chosen by the caller, which is not looked at: afterwards ids still identify if and only if it is positive and no entry carries it |
| Services.CoreFsService.CreateDirectory | src/app/mod.rs:304-336 | the same for a directory, which no quota refuses |
| Services.CoreFsService.CreateSymlink | src/app/mod.rs:338-361 | the same for a symlink, stored plain |
| Services.CoreFsService.WriteFile | src/app/mod.rs:363-421 | refusals exact; on success the path reads back the bytes, is the same inode with the same attributes, and nothing else has changed, as far as the block store keeps contents apart (`BlockStorage.IsolatedExact`) |
| Services.CoreFsService.WriteFileRange | src/app/mod.rs:425-497 | refusals exact on every volume, each leaving it unchanged; in the plain and in the packed branch the file reads as the splice of its old content |
| Services.CoreFsService.WritePlainRange | src/app/mod.rs:455-497 | the plain branch through the block store is refused exactly when the block store refuses |
| Services.CoreFsService.TruncateFile | src/app/mod.rs:500-557 | the file reads as its old content cut or zero-filled to the size, in both branches; refusals exact on every volume |
| Services.CoreFsService.ExtendFile | src/app/mod.rs:564-617 | the file reads as its old content followed by the new bytes, also when a packed block has to be unpacked first; refusals exact |
| Services.CoreFsService.ReadFileRange | src/app/mod.rs:645-661 | returns the slice of what reading the whole file returns, and the same errors, in both branches |
| Services.CoreFsService.DeleteFile | src/app/mod.rs:663-696 | soft and secure delete as whole-state transitions, with the error a secure delete reports although the entry is gone |
| Services.CoreFsService.SoftDelete | src/app/mod.rs:680-686 | recovery and deleted catalog keep agreeing, and the rest of the volume is untouched |
| Services.CoreFsService.SecureDelete | src/app/mod.rs:669-679 | the block, the recoverable entry and the entry are gone and the id is free, or without a block an error is reported |
| Services.CoreFsService.RestoreFile | src/app/mod.rs:698-714 | brings back the recoverable node at its path, replacing what was created there in the meantime |
| Services.CoreFsService.ExpungeFile | src/app/mod.rs:1146-1159 | the tree stays, the recoverable entry and its block are gone and the id waits for reuse |
| Services.CoreFsService.SetOwner | src/app/mod.rs:1537-1555 | changes what is given of owner and group and nothing else of any entry |
| Services.CoreFsService.SetMode | src/app/mod.rs:1562-1570 | sets the permission bits, type bits dropped, and nothing else of any entry |
| Services.CoreFsService.TakeDirtyInodes | src/app/mod.rs:193-221 | returns the dirty set and empties it; updating the previous checkpoint incrementally gives exactly the blocks of all active inodes |
| Services.CoreFsService.RenameEntry | src/app/mod.rs:1574-1603 | the loop over the subtree keeps all invariants in every case and, when every target is free in its turn, moves the subtree as a whole; a former target is recoverable |
| Services.CoreFsService.MoveListed | src/app/mod.rs:1582-1602 | the loop itself: the entries of the subtree, in listing order, are moved one by one |
| Services.CoreFsService.CloneFile | src/app/mod.rs:948-1006 | refusals exact; the clone shows what the source shows, whether the block is shared or copied, with all metadata in the first case and the tags only in the second; the shared form leaves the checkpoint incomplete except in exactly described cases |
| Services.CoreFsService.ShareBlock | src/app/mod.rs:966-995 | the shared form on its own, with the id given back when the source has no block |
| Services.CoreFsService.CopyEntry | src/app/mod.rs:1048-1073 | an entry of a clone, made as its kind demands: the target was free and shows the source node, or nothing has changed, which without a quota happens only for a target that is taken or cannot be named and for an unreadable source |
| Services.CoreFsService.CloneEntry | src/app/mod.rs:1048-1073 | one turn of the tree clone: the target shows the source node or nothing has changed |
| Services.CoreFsService.CloneTree | src/app/mod.rs:1014-1091 | every source path is cloned or skipped and counted once, files and directories apart, the source is unchanged, and nothing is skipped when targets are free and nameable and no quota applies |
| Services.CoreFsService.CloneListed | src/app/mod.rs:1044-1091 | the loop over the sorted paths: all copies made so far stand at places that were empty, and nothing else has appeared |
| Services.CoreFsService.CreateSnapshotScoped | src/app/mod.rs:727-805 | captures the metadata of exactly the entries in scope and the bytes of exactly the readable files among them, under a new id |
| Services.CoreFsService.EnsureEntry | src/app/mod.rs:866-899 | the entry of the captured kind exists, a file has the captured bytes and a new symlink the captured target, or the refusal has changed nothing |
| Services.CoreFsService.RestoreEntry | src/app/mod.rs:866-915 | one turn of a restore: the entry has all captured metadata, or is untouched and counted as skipped |
| Services.CoreFsService.RestoreSnapshot | src/app/mod.rs:855-931 | after any changes in between, every captured entry is restored or reported as skipped, in path order, skipped entries and all paths outside of the snapshot are as before, and without a quota exactly the obstructed and unnameable ones are skipped |
| Services.CoreFsService.RestoreListed | src/app/mod.rs:861-931 | the loop: it goes through the captured paths in ascending order, entries that have to be made get ascending ids in that order, and the skipped ones are reported in it |
| Services.CoreFsService.ReconcileFromJournal | src/app/mod.rs:1783-1812 | the two loops compute the reconciled catalog, recovery included, keep what is left readable, never lower the snapshot counter, and leave the checkpoint complete if and only if it covers the entries that came back, which are not marked dirty |
| Services.CoreFsService.BuryDeleted | src/app/mod.rs:1785-1794 | the first loop |
| Services.CoreFsService.ReviveActive | src/app/mod.rs:1796-1807 | the second loop |
| Services.RangeWritesAgree | src/app/mod.rs:425-497 | plain and packed files answer a range write alike except for a write of no bytes behind the end, and in that case they do not |
| Paths.SplitJoin | src/platform/linux_fuse.rs:3088-3100 | parent and base name of a joined path are the two parts |
| Paths.DirectChildExact | src/app/pathing.rs:32-47 | the helper finds a name exactly when joining it gives the path, which is when parent and base name say so |
| Paths.MovedIsRebase | src/app/pathing.rs:49-61 | the move used by rename and the rebasing helper agree, and so do the two tests for lying below a prefix |
| Paths.MovedBack | src/app/mod.rs:1590-1602 | moving a path to another prefix and back is the identity |
| Paths.MovedParent | src/app/mod.rs:1590-1602 | base names stay and parents move along |
| Paths.PathOrder | src/app/mod.rs:1034-1042 | paths are totally ordered as sorted listings need it |
| Paths.ParentsFirst | src/app/mod.rs:1034-1042 | a sorted listing has a directory before everything below it |
| Renaming.MoveAllRelocates | src/app/mod.rs:1586-1602 | when every target is free in its turn, moving entry by entry equals moving all at once: none overwrites an entry that stays or still waits |
| Renaming.MoveAllKeeps | src/app/mod.rs:1586-1602 | whatever is in the way, keys and ids stay in order and no id appears |
| Renaming.MoveKeeps | src/app/mod.rs:1586-1602 | no content is touched: what is left stays readable and checkpointed |
| Renaming.CoveredIdIsLost | src/app/mod.rs:1586-1602 | the first entry that is moved onto before it has left is lost, and not recoverable |
| Renaming.TurnOfSubtree | src/app/mod.rs:1586-1602 | in listing order, what lies at a target has left before its turn if and only if it is moved itself and comes first |
| Renaming.MoveConserves | src/app/mod.rs:1586-1602 | any moves without two to one place conserve the entries if and only if every target is free in its turn |
| Renaming.RenameConserves | src/app/mod.rs:1574-1603 | a rename between any two prefixes, nested ones included, loses no entry if and only if no entry of the subtree moves onto one that stays or comes later in the listing |
| Renaming.RelocatedTree | src/app/mod.rs:1574-1603 | every entry shows the same node as before at its new place, and there are no others |
| Renaming.RenameOntoItself | src/app/mod.rs:1574-1603 | renaming an entry onto itself takes it out of the tree |
| Cloning.CloneIsomorphic | src/app/mod.rs:1014-1091 | with nothing skipped, the nodes below the target are those of the source one for one and the source is unchanged |
| Cloning.CopyOne | src/app/mod.rs:1048-1073 | one more copy keeps what is promised about all of them |
| Cloning.BeforeCopy | src/app/mod.rs:1048-1073 | before its turn a source entry is as it was and only earlier targets are taken |
| Snapshots.RestoredReadsAsCaptured | src/app/mod.rs:855-931 | a file restored with fitting flags reads exactly as it did when the snapshot was taken, with its metadata; one that is compressed neither then nor now does so if and only if its encryption flag is the one of a write now |
| Snapshots.PlacedStep | src/app/mod.rs:861-931 | one more entry restored or skipped disturbs none of the earlier ones |
| Snapshots.AccountedStep | src/app/mod.rs:861-931 | every entry is counted once, as restored or as skipped |
| Snapshots.MadeNext | src/app/mod.rs:861-899 | one more entry keeps the order in which entries are made |
| Snapshots.DirectoriesMadeFirst | src/app/mod.rs:861-899 | a directory that has to be made is made before everything below it |
| Reconciliation.ReplayDisjoint | corefs-core/src/services/journal.rs:286-314 | no journal makes a path both active and deleted |
| Reconciliation.BothPasses | src/app/mod.rs:1783-1812 | the two loops in sequence give the reconciled catalog |
| Reconciliation.ReconciledPaths | src/app/mod.rs:1783-1812 | active paths become (active - D) + (deleted * A), deleted paths become (deleted + active) * D, with their old inodes |
| Reconciliation.ReconciledTwice | src/app/mod.rs:1783-1812 | reconciling again with the same journal changes nothing |
| Reconciliation.ReconciledSound | src/app/mod.rs:1783-1812 | ids stay unique and recovery equals the deleted catalog |
| Reconciliation.ReconciledFaithful | src/app/mod.rs:1783-1812 | every entry that is left, active or deleted, reads as before |
| Reconciliation.ReconciledCovers | src/app/mod.rs:1796-1807 | the checkpoint covers the result if and only if it covers the entries that came back |
| Reconciliation.ReconciledSame | src/app/mod.rs:1783-1812 | reconciling leaves the active catalog alone if and only if no active path is journalled as deleted last and no deleted one as active, and the volume if and only if all deleted ones are journalled as deleted as well |
| Reconciliation.OperationsJournalled | src/app/mod.rs:663-714 | creating, deleting, restoring and expunging change the paths as their journal entries say |
| Reconciliation.AccountKept | corefs-core/src/services/journal.rs:286-314 | every operation but a rename and a clone keeps the journal accounting for the paths of the volume |
| Reconciliation.RunAccounts | corefs-core/src/services/journal.rs:286-314 | so does any run of them |
| Reconciliation.OwnJournal | src/app/mod.rs:1783-1812 | after such a run, reconciling with its own journal leaves the active catalog alone if and only if no path is both active and deleted; where one is, the deleted entry comes back in its place |
| Reconciliation.RenamedOverReloaded | src/app/mod.rs:1574-1603 | a file renamed over another one is in the deleted catalog after reconciling with the journal of that |
| Integrity.FindingExact | src/services/integrity.rs:135-194 | an inode has a finding if and only if its checksum fails or its block does not decode to as many bytes as recorded |
| Integrity.CleanExact | src/services/integrity.rs:135-194 | with sound checksums, no findings if and only if the service invariant holds for the active entries |
| Integrity.SelectedPaths | src/services/integrity.rs:135-194 | each list names exactly the entries with that finding, once and in path order |
| Integrity.MismatchesExact | src/services/integrity.rs:185-189 | a size mismatch is reported for exactly the entries with one, with both sizes |
| Integrity.IntegrityService.DeepFsck | src/services/integrity.rs:113-249 | all lists and counters are exact, valid inodes are the checked ones without finding, and the orphans are the sorted, duplicate-free owners neither active nor deleted, unless a deleted entry without a name hides them |
| Integrity.IntegrityService.CheckInode | src/services/integrity.rs:135-194 | one turn of the loop adds exactly the findings of one inode |
| Integrity.IntegrityService.UnownedBlocks | src/services/integrity.rs:196-212 | owners without an active inode, or none at all if a deleted entry has the empty path |
| Integrity.IntegrityService.RetainOthers | src/services/integrity.rs:213-219 | keeps order and exactly the owners that are not deleted either |
| WriteBack.ReadSlices | src/platform/linux_fuse.rs:1587-1618 | buffer, prefix and spanning reads all return the requested slice of the logical file |
| WriteBack.WriteKeepsStep | src/platform/linux_fuse.rs:1632-1718 | a write leaves the file in step with the service if and only if it was in step |
| WriteBack.WriteRefines | src/platform/linux_fuse.rs:1632-1718 | a buffered and a streaming write are the same splice on the logical file |
| WriteBack.WriteIsPosix | src/platform/linux_fuse.rs:1632-1718 | a write behaves as a write to a regular file if and only if it has bytes or does not lie behind the end |
| WriteBack.RunRefines | src/platform/linux_fuse.rs:1620-1730 | after any run of writes, prefix and buffer are the plain file with all writes applied |
| WriteBack.RunThenFlush | src/platform/linux_fuse.rs:1732-1804 | and one flush stores exactly that file |
| WriteBack.FlushExact | src/platform/linux_fuse.rs:1746-1753 | a flush stores the logical file if and only if the service holds nothing behind the committed prefix |
| WriteBack.FlushLosesStep | src/platform/linux_fuse.rs:1753-1802 | a file is in step after a flush if and only if it was and nothing was handed over behind a prefix |
| WriteBack.SecondFlushDoubles | src/platform/linux_fuse.rs:1753-1802 | then appending and flushing again stores the first buffer twice |
| WriteBack.StreamFollows | src/platform/linux_fuse.rs:1632-1718 | streaming chunks at the end follows their concatenation |
| WriteBack.StreamingIsLinear | src/platform/linux_fuse.rs:489-510 | the buffer never exceeds the threshold and the number of service calls times (threshold - chunk + 1) is at most the bytes handed over |
| FuseMount.CoreFsFuseMountRw.constructor | src/platform/linux_fuse.rs:726-745 | a new mount has the index of the catalog, with the raw blocks cached, no open files and no virtual numbers; over a catalog that is a tree its index is that of a tree, and over a readable volume it is at the start of a run |
| FuseMount.CoreFsFuseMountRw.OpenFile | src/platform/linux_fuse.rs:1524-1566 | refused exactly for unknown and non-file nodes; otherwise the handle shows what the service has for the path, or nothing when truncating or when the node has size zero cached, and all other handles stay |
| FuseMount.CoreFsFuseMountRw.ReadFromHandle | src/platform/linux_fuse.rs:1568-1618 | returns the slice of the file as the handle shows it, of the cached data without a handle, and an error for a foreign handle |
| FuseMount.CoreFsFuseMountRw.WriteToHandle | src/platform/linux_fuse.rs:1620-1730 | the outcome is fixed: an error exactly for a foreign handle or a refused hand-over, a panic exactly for bytes in front of the buffer; otherwise the file as the handle shows it is spliced, stays in step as it was, no other file changes, and every other handle shows and streams what it did; the first streamed write marks the mount dirty even if it is refused |
| FuseMount.CoreFsFuseMountRw.EnsureMutationSession | src/platform/linux_fuse.rs:1487-1499 | from here on there is something to persist |
| FuseMount.CoreFsFuseMountRw.Place | src/platform/linux_fuse.rs:1664-1718 | the two branches, with the failed hand-over leaving handle and volume unchanged |
| FuseMount.CoreFsFuseMountRw.StreamOut | src/platform/linux_fuse.rs:1669-1705 | the buffer is in the service and the new bytes are the buffer, or nothing has changed |
| FuseMount.CoreFsFuseMountRw.HandOver | src/platform/linux_fuse.rs:1672-1690 | refused exactly when the service refuses; otherwise the service ends up with the prefix followed by the buffer |
| FuseMount.CoreFsFuseMountRw.FlushFileHandle | src/platform/linux_fuse.rs:1732-1804 | the outcome is fixed; a dirty handle that can be written back becomes clean and still shows the same, and the service then has the file as the handle shows it if and only if the handle was in step; no other file or handle changes; the mount is dirty as soon as the inode is found, whatever becomes of the write |
| FuseMount.CoreFsFuseMountRw.StoreRest | src/platform/linux_fuse.rs:1746-1753 | write for a new prefix, append for a streamed one, nothing for an empty rest |
| FuseMount.CoreFsFuseMountRw.FlushDirtyOpenFiles | src/platform/linux_fuse.rs:1806-1816 | in whatever order, every handle is written back exactly, or all up to one that cannot be, whose error is the one returned; each has left its file in the service as it shows it if and only if it was in step, and all other files and handles are untouched |
| FuseMount.CoreFsFuseMountRw.FlushNext | src/platform/linux_fuse.rs:1812-1814 | a turn of that loop; it fails exactly with the error of the handle |
| FuseMount.CoreFsFuseMountRw.ReleaseFileHandle | src/platform/linux_fuse.rs:1818-1822 | flushes before the handle goes; a failed flush keeps everything |
| FuseHandles.HandleStays | src/platform/linux_fuse.rs:1568-1618 | what a handle shows depends on its own file only |
| FuseHandles.FlushedOne | src/platform/linux_fuse.rs:1806-1816 | one more flush leaves the earlier ones exact |
| FuseHandles.DoneShown | src/platform/linux_fuse.rs:1806-1816 | what a run of flushes has left in the service, handle by handle |
| FuseMount.CoreFsFuseMountRw.Serve | src/platform/linux_fuse.rs:1524-1822 | any run of opens, writes, flushes and closes, over any number of handles on different files, refines a plain file system in which an open reads the file, a write splices the open file and a flush or close puts it back: the turns of the run serve the requests one after the other, each refused exactly when it has to be, every handle shows its open file and every file without dirty handle is stored as on the plain disk; the files excepted are those of handles flushed or streamed out of step, turn by turn, and there are none in a run that writes to no handle after it has been flushed |
| FuseMount.CoreFsFuseMountRw.ServeThenFlush | src/platform/linux_fuse.rs:1446-1451 | such a run followed by the flush of all handles, which succeeds exactly when it saves all dirty ones, leaves in the service exactly the files of the plain disk, with the same exceptions |
| FuseMount.CoreFsFuseMountRw.ServeOne | src/platform/linux_fuse.rs:1524-1822 | one request of such a run: refused exactly as stated and otherwise the step of the plain file system; exactly the handles whose flush appends what is left of a streamed file get out of step |
| FuseMount.CoreFsFuseMountRw.Dispatch | src/platform/linux_fuse.rs:1524-1822 | the operation a request stands for |
| PlainFiles.OutExact | src/platform/linux_fuse.rs:1753-1802 | one turn takes out of step exactly the handles whose flush appends what is left of a streamed file |
| PlainFiles.NothingOverrun | src/platform/linux_fuse.rs:1620-1822 | as long as no handle is written that is out of step, nothing is lost, and those out of step stay clean |
| PlainFiles.NoneReusedSuffices | src/platform/linux_fuse.rs:1620-1822 | a run with no write to a handle after a flush of it writes to no handle that is out of step |
| PlainFiles.NeverReusedSuffices | src/platform/linux_fuse.rs:1620-1822 | so does any run of requests with no write to a handle behind a request that flushes it |
| PlainFiles.OpenStep | src/platform/linux_fuse.rs:1524-1566 | opening a file that is not open keeps the refinement |
| PlainFiles.StartServed | src/platform/linux_fuse.rs:1534-1541 | whatever size the node has cached, an open that does not truncate starts from the file of the service |
| PlainFiles.WriteStep | src/platform/linux_fuse.rs:1620-1730 | a write on one handle keeps the refinement for all of them; the file is lost only if a handle out of step is streamed |
| PlainFiles.SaveStep | src/platform/linux_fuse.rs:1732-1816 | writing back any set of handles puts exactly their files on the disk; those of handles out of step are lost |
| PlainFiles.CloseStep | src/platform/linux_fuse.rs:1818-1822 | closing a clean handle keeps the refinement |
| PlainFiles.AllOnDisk | src/platform/linux_fuse.rs:1446-1451 | with all handles clean, the service has the files of the disk |
| PlainFiles.FreshRefines | src/platform/linux_fuse.rs:726-745 | before anything is opened, the files of a readable volume are the disk |
| PlainFiles.FreshSized | src/platform/linux_fuse.rs:1304-1351 | right after the maps have been built, a node of size zero stands for an empty file |
| FuseHandles.TrashedReaches | src/platform/linux_fuse.rs:2370-2410 | after a removal, exactly the other paths still lead to the files they led to |
| FuseHandles.HandlesAfterTrash | src/platform/linux_fuse.rs:2370-2410 | a removal keeps all handles in order if and only if none streams into the removed file |
| FuseHandles.RenameReaches | src/platform/linux_fuse.rs:2464-2561 | after a rename a path leads to the file it led to if and only if it lies outside of the moved subtree and is not the target; below the old place there is nothing, and at the target there is the moved file |
| FuseHandles.HandlesAfterRename | src/platform/linux_fuse.rs:2464-2561 | a rename keeps all handles in order if and only if none streams into the moved subtree and those that stream into the replaced file find at least their prefix in the moved one |
| FuseHandles.LeftBehind | src/platform/linux_fuse.rs:1746-1753 | a handle left in the moved subtree is refused by the service, one left on the target writes into the moved file |
| FuseMount.CoreFsFuseMountRw.WriteBackAfterRename | src/platform/linux_fuse.rs:1746-1753 | a rename followed by the write-back of a handle: the bytes go nowhere, into the moved file, or into the file they were written to |
| FuseHandles.WriterOfRenamed | src/platform/linux_fuse.rs:2464-2561 | a file renamed under a dirty handle: all handles are in order and the write-back is refused |
| FuseHandles.WriterOfReplaced | src/platform/linux_fuse.rs:2464-2561 | a file replaced under a dirty handle, streaming or not: all handles are in order and the write-back goes into the file that has moved there |
| FuseIndex.IndexUnique | src/platform/linux_fuse.rs:1304-1351 | a catalog has one index up to cached data, nodes included with path, parent, inode id and kind, so maintained and rebuilt maps agree |
| FuseIndex.RegisterIndexes | src/platform/linux_fuse.rs:1423-1431 | registering a new entry takes the index of the catalog to the index with the entry |
| FuseIndex.UnregisterExact | src/platform/linux_fuse.rs:1434-1443 | unregistering takes the index to the one without the entry if and only if nothing lies in the entry and its directory keeps a reason to be listed |
| FuseIndex.RebuildStep | src/platform/linux_fuse.rs:1327-1345 | a turn of the rebuild adds one entry to the index of those before it, in any order |
| FuseIndex.SkeletonIndexes | src/platform/linux_fuse.rs:1304-1351 | changes of content and metadata do not concern the index |
| FuseMount.CoreFsFuseMountRw.RebuildIndexes | src/platform/linux_fuse.rs:1304-1351 | the loop builds the index of the whole catalog, with the raw block of each inode as cached data |
| FuseMount.CoreFsFuseMountRw.RegisterNode | src/platform/linux_fuse.rs:1423-1431 | updates the three maps for one node |
| FuseMount.CoreFsFuseMountRw.UnregisterIno | src/platform/linux_fuse.rs:1434-1443 | takes one node out of the three maps, or does nothing for an unknown number |
| FuseMount.CoreFsFuseMountRw.TouchNode | src/platform/linux_fuse.rs:1720-1727 | sets the cached size and data of one node, leaves the others alone and keeps the index |
| FuseMount.CoreFsFuseMountRw.LookupChild | src/platform/linux_fuse.rs:1357-1367 | a name is found if and only if the joined path is active, and the node found stands for that inode |
| FuseMount.CoreFsFuseMountRw.DirectoryEntries | src/platform/linux_fuse.rs:1379-1412 | ".", "..", then every entry of the directory once, in order, with its number and kind; empty exactly for an unknown number |
| FuseHandles.RawIsContent | src/platform/linux_fuse.rs:1537-1544 | the raw block a node caches is the content of a plain file, never that of one that is only encrypted, and that of one that is only compressed if and only if decompressing leaves it as it is |
| Directories.ListingUnique | src/platform/linux_fuse.rs:1379-1412 | the listing is determined by the catalog |
| Directories.WholeListingUnique | src/platform/linux_fuse.rs:2829-2850 | so is the one with ".", ".." and the virtual directory of the root |
| Directories.NamesDistinct | src/platform/linux_fuse.rs:2835-2840 | a listing has no name twice if and only if no entry is called ".", ".." or, at the root, ".snapshots" |
| Directories.NameShown | src/platform/linux_fuse.rs:1392-1408 | every name in the children map leads through both other maps to its inode |
| Directories.FillPage | src/platform/linux_fuse.rs:2842-2848 | a page is the part of the listing from the offset to the first entry that does not fit |
| Directories.PagedIsAll | src/platform/linux_fuse.rs:2829-2850 | resuming with any rooms that fit any single entry returns the whole listing once and in order, in at most one call more than there are entries |
| Directories.PagedIsPrefix | src/platform/linux_fuse.rs:2829-2850 | with any rooms at all, what is received is a start of the listing |
| FuseMount.CoreFsFuseMountRw.Readdir | src/platform/linux_fuse.rs:2829-2850 | each call returns its page of the one listing the catalog determines, or ENOENT for an unknown number |
| FuseMount.CoreFsFuseMountRw.ReadWhole | src/platform/linux_fuse.rs:2829-2850 | a reader that goes on behind the last entry until a page comes empty receives a start of that listing, and with room for any single entry the whole of it in at most one call more than there are entries |
| FuseMount.CoreFsFuseMountRw.NextPage | src/platform/linux_fuse.rs:2829-2850 | each of its pages is cut from the same listing |
| Directories.EntryAdded | src/platform/linux_fuse.rs:2340-2366 | a new entry in a directory keeps tree shape and index |
| Directories.EntryRemoved | src/platform/linux_fuse.rs:2394-2409 | removing an entry nothing lies in keeps tree shape and index |
| Directories.EntryMoved | src/platform/linux_fuse.rs:2505-2560 | a rename that is not refused finds its targets free and leaves a tree |
| FuseMount.CoreFsFuseMountRw.Mkdir | src/platform/linux_fuse.rs:2299-2368 | error codes exact in terms of the catalog; on success exactly the new directory appears, registered, with the caller as owner and the requested mode without the masked bits, and tree, index and open handles are in order; the mount is dirty even if the service refuses |
| FuseMount.CoreFsFuseMountRw.Create | src/platform/linux_fuse.rs:2222-2297 | the same for an empty file, which is open under the returned handle |
| FuseMount.CoreFsFuseMountRw.SetCredentials | src/platform/linux_fuse.rs:2263-2265 | owner, group and mode of a new entry, whose node is otherwise untouched |
| FuseMount.CoreFsFuseMountRw.RegisterCreated | src/platform/linux_fuse.rs:2280-2293 | the new inode is found under its number |
| FuseMount.CoreFsFuseMountRw.Unlink | src/platform/linux_fuse.rs:2370-2410 | error codes exact, directories refused; on success the entry is soft-deleted, the index follows, exactly the other paths still lead to their files, and the handles stay in order if and only if none streams into the file |
| FuseMount.CoreFsFuseMountRw.Rmdir | src/platform/linux_fuse.rs:2412-2462 | error codes exact, only empty directories; on success the entry is soft-deleted, the index follows, and the same holds for paths and handles |
| FuseMount.CoreFsFuseMountRw.RemoveEntry | src/platform/linux_fuse.rs:2394-2409 | the common end of both |
| FuseMount.CoreFsFuseMountRw.Rename | src/platform/linux_fuse.rs:2464-2561 | error codes exact in terms of the catalog; on success the subtree has moved as a whole, a replaced target is recoverable, tree and index are in order, exactly the paths outside of subtree and target still lead to their files, and the handles stay in order under an exact condition on streaming ones |
| FuseMount.CoreFsFuseMountRw.MoveEntry | src/platform/linux_fuse.rs:2530-2560 | the common end of every rename that is not refused |
| TreeShape.NothingBelow | src/platform/linux_fuse.rs:2505-2530 | in a tree nothing lies below a path that is not there |
| TreeShape.RenameClear | src/app/mod.rs:1574-1603 | in a tree, a rename to a free path finds nothing in its way |
| TreeShape.RenameTree | src/app/mod.rs:1574-1603 | and leaves a tree when the target directory is outside of the subtree |
| VirtualNodes.EnteredKeeps | src/platform/linux_fuse.rs:1067-1088 | a request keeps keys and numbers one to one and each number in exactly the table of its kind |
| VirtualNodes.EnteredAllKeeps | src/platform/linux_fuse.rs:1067-1088 | so does any run of requests, and every key asked for has a number |
| VirtualNodes.NumbersStay | src/platform/linux_fuse.rs:1067-1088 | a number handed out at any point of a run stays, with its node |
| VirtualNodes.FindExact | src/platform/linux_fuse.rs:1136-1146 | a snapshot is found if and only if one has the id |
| VirtualNodes.SubdirInoExact | src/platform/linux_fuse.rs:1136-1146 | a number belongs to a snapshot directory if and only if it is the base plus the id of an existing snapshot other than zero |
| VirtualNodes.SpansApart | src/platform/linux_fuse.rs:512-526 | real, interned, snapshot and `.snapshots` numbers stay apart if and only if the id counters are within stated bounds |
| FuseMount.CoreFsFuseMountRw.GetOrCreateVirtDir | src/platform/linux_fuse.rs:1067-1076 | the number of the key, new or known, in the directory table only |
| FuseMount.CoreFsFuseMountRw.GetOrCreateVirtFile | src/platform/linux_fuse.rs:1079-1088 | the number of the key, new or known, in the file table only |
| FuseMount.CoreFsFuseMountRw.RealIsNotVirtual | src/platform/linux_fuse.rs:2232-2239 | within the bounds no real node is taken for a virtual one |
| SnapshotTree.RestYields | src/platform/linux_fuse.rs:1161-1191 | a captured path yields a name in a directory if and only if it is that entry or lies below it |
| SnapshotTree.SnapshotChildren | src/platform/linux_fuse.rs:1161-1204 | the loop finds exactly the names with a captured path at or below them, as directories exactly those with one below |
| SnapshotTree.LookupAgreesWithListing | src/platform/linux_fuse.rs:1229-1301 | for whatever the listing loop returns, lookup knows the same names and agrees on the kind if and only if the path is not both captured and above a captured one |
| SnapshotTree.CapturedDirectoriesAreFiles | src/platform/linux_fuse.rs:1251-1301 | every captured directory is looked up as a file, and listed as one if and only if it was empty |
| SnapshotTree.ListingHasKinds | src/platform/linux_fuse.rs:1161-1204 | what the listing loop returns is the kind a listing is said to have |
| Calendar.NumberOfCivil | src/platform/performance.rs:280-292 | every integer day count, negative eras included, has a valid date that leads back to it |
| Calendar.CivilOfNumber | src/app/selectors.rs:95-120 | a date comes back from its day number if and only if it is valid |
| Calendar.YearOfEra | src/platform/performance.rs:280-286 | the four divisions find the year of the era |
| Calendar.DayByDay | src/app/selectors.rs:95-120 | the day number is zero at the epoch and grows by one with each day of the Gregorian calendar |
| Calendar.Increasing | src/app/selectors.rs:95-120 | day numbers are ordered as year, month and day are |
| Calendar.YearLength | src/app/selectors.rs:95-120 | March years have 366 days if and only if they end in a leap year |
| Calendar.DaysSinceEpoch | src/platform/linux_fuse.rs:703-723 | the year and month loops compute the closed form; refused exactly before 1970 |
| Calendar.ParseDate | src/platform/linux_fuse.rs:669-684 | accepts days up to 31 in every month; the seconds belong to the given date if and only if the month has that day |
| Calendar.FebruaryThirtyFirst | src/platform/linux_fuse.rs:669-684 | the 31st of February is taken for the second or third of March |
| Calendar.RecomposeExact | src/app/selectors.rs:39-84 | a moment is accepted as a number of seconds if and only if that number is split into the moment |
| Calendar.OverflowExact | src/app/selectors.rs:61-120 | the unchecked arithmetic overflows if and only if the clock values are in range and the year is within 399 of the smallest 64-bit one or the date is a date of the calendar before the first or after the last one that fits |
| Calendar.FittingDates | src/app/selectors.rs:95-120 | the dates whose day number fits 64 bits are those from one fixed date to another |
| Calendar.OverflowingSelector | src/app/selectors.rs:61-120 | New Year of the year 26 000 000 000 000 000 overflows |
| Calendar.RecomposeFits | src/app/selectors.rs:61-120 | for years of magnitude up to 25 000 000 000 000 000 nothing overflows |
| Calendar.MaxDayIs | src/app/selectors.rs:105-112 | the month lengths, with the sign-preserving remainder, are those of the calendar |
| CapacityProbe.VerifyDeviceCapacity | src/storage/block_device.rs:164-239 | refused exactly for read-only devices and zero probes; otherwise the report lists the planned probes once and in order, as failed exactly those whose chunk passes the real capacity, and the highest verified end |
| CapacityProbe.PlanProbes | src/storage/block_device.rs:183-195 | the offsets are the evenly spaced aligned ones, strictly increasing |
| CapacityProbe.Probe | src/storage/block_device.rs:200-222 | write, sync and read-back succeed if and only if the chunk fits the real capacity |
| CapacityProbe.EstimateBound | src/storage/block_device.rs:164-239 | when some probes fail and some do not, the estimate is at most the real capacity and below it by less than one step and one sector |
| CapacityProbe.NothingUsable | src/storage/block_device.rs:164-239 | no probe succeeds if and only if not even one chunk fits, and then the estimate is zero |
| CapacityProbe.AllVerified | src/storage/block_device.rs:164-239 | when two or more probes all succeed, less than one sector of the advertised capacity is missing; a single one vouches for its own chunk only |
| CapacityProbe.ProbesAligned | src/storage/block_device.rs:183-195 | every offset is a multiple of the sector size and leaves room for a chunk when the device does |
| CapacityProbe.ProbeGap | src/storage/block_device.rs:186-192 | neighbouring offsets do not go back and are at most one step and one sector apart |
| Sorting.SortDedup | src/storage/block_device.rs:194-195 | sort followed by dedup gives the same elements, strictly ascending |
| Sorting.AscendingUnique | src/services/integrity.rs:213-219 | and there is only one such list |
| BlockStorage.IsolatedExact | corefs-core/src/storage/block_store.rs:368-492 | a write leaves all other records as they were, whatever is written and whatever is on the device, if and only if none of the blocks it goes to holds bytes of another record |
| BlockStorage.BlockStore.Write | corefs-core/src/storage/block_store.rs:368-492 | the new content is stored whatever the layout is; all other records read as before when no block of the range holds their bytes, which is certain when the old extents follow each other, and then the layout stays in order |
| BlockStorage.BlockStore.Place | corefs-core/src/storage/block_store.rs:385-445 | a record with enough blocks is overwritten from its first block on as if its extents followed each other; otherwise its range is given back and another one is taken |
| BlockStorage.BlockStore.Read | corefs-core/src/storage/block_store.rs:495-499 | returns the content of the record |
| BlockStorage.BlockStore.AppendToInode | corefs-core/src/storage/block_store.rs:826-925 | appending extends the content and concerns no other record; the record stays in one piece if and only if it was and the new extent follows |
| BlockStorage.BlockStore.Remove | corefs-core/src/storage/block_store.rs:1329-1347 | returns and drops the content and concerns no other record, and keeps the layout in order when the record is in one piece |
| BlockStorage.BlockStore.CloneForInode | corefs-core/src/storage/block_store.rs:1477-1549 | the clone gets blocks of its own with the same content |
| BlockStorage.BlockStore.AllocateExtent | corefs-core/src/storage/block_store.rs:1857-1890 | exactly the blocks returned become unavailable, splitting included |
| BlockStorage.BlockStore.FindFree | corefs-core/src/storage/block_store.rs:1858-1872 | the first extent that is large enough, or the first of the smallest such ones |
| BlockStorage.BlockStore.InsertFreeExtent | corefs-core/src/storage/block_store.rs:1892-1905 | exactly the blocks given back become available |
| BlockStorage.BlockStore.NormalizeFreeExtents | corefs-core/src/storage/block_store.rs:1907-1925 | sorting, merging and trimming change no block's availability |
| BlockStorage.BlockStore.TrimFreeTail | corefs-core/src/storage/block_store.rs:1927-1936 | giving up the free end of what has been reached changes no block's availability |
| BlockStorage.NeededIsData | corefs-core/src/storage/block_store.rs:368-385 | the quotient asked for is the number of blocks the bytes fill, and one for no bytes |
| BlockStorage.ReadBack | corefs-core/src/storage/block_store.rs:928-946 | bytes put on the device block by block are read back |
| BlockStorage.RecordDepends | corefs-core/src/storage/block_store.rs:928-946 | what a record reads depends on the blocks that hold its bytes only |
| BlockStorage.RecordShows | corefs-core/src/storage/block_store.rs:928-946 | and it does depend on each of them |
| BlockStorage.AppendedContiguous | corefs-core/src/storage/block_store.rs:826-925 | an appended record is in one piece if and only if it was and the new extent follows |
| BlockStorage.OverwriteHitsNeighbour | corefs-core/src/storage/block_store.rs:385-408 | a record extended behind another one and overwritten with as many bytes puts half of them into the other |
| BlockStorage.RemoveGivesNeighbourAway | corefs-core/src/storage/block_store.rs:1329-1347 | removing it instead gives the other one's block to the next record |
| BlockStorage.ServeBlocks | corefs-core/src/storage/block_store.rs:368-1549 | over any run of writes, appends, removals and clones the store is a map from ids to contents, up to the first request that replaces or removes a record not in one piece |
| Backing.OperationsApply | src/app/mod.rs:363-421 | what the operations of the service do to the blocks of a volume are requests to a block store |
| Backing.BlocksFollow | src/app/mod.rs:363-421 | so over a run the blocks are what a map from ids to contents makes of these requests |
| Backing.Keep | corefs-core/src/storage/block_store.rs:368-1549 | a block store that starts with the blocks of a volume has them throughout such a run, as long as no record is replaced or removed that is not in one piece |
| Compaction.CompactionExact | corefs-core/src/storage/block_store.rs:1667-1835 | moving the records together keeps all contents, whatever is on the device, if and only if every record that is moved has at most one extent and room at its new place and nothing is copied over bytes of a record that waits for its turn or stays where it is |
| Compaction.RunKeeps | corefs-core/src/storage/block_store.rs:1678-1700 | the enough half, turn by turn: every record reads as at the start, wherever it is by then |
| Compaction.DisturbedSpoils | corefs-core/src/storage/block_store.rs:1678-1700 | where something is copied over a byte of a record that waits or stays, a device that is dark but for this block ends up dark |
| Compaction.SplitSpoils | corefs-core/src/storage/block_store.rs:1693-1695 | a record of several extents that is moved reads the same bytes for two of them |
| Compaction.OutsideSpoils | corefs-core/src/storage/block_store.rs:1682-1695 | a record whose new place is not on the device is lost |
| Compaction.StartsStayApart | corefs-core/src/storage/block_store.rs:826-925 | an extent that is appended never starts where one of the record does |
| Compaction.InOneSafe | corefs-core/src/storage/block_store.rs:1667-1712 | in the order of their positions, records of one extent each can be moved together safely |
| Compaction.OrderedEntries | corefs-core/src/storage/block_store.rs:1777-1792 | the sorted entries are the entries, by rank among the hot ones and then by position |
| Compaction.MoveTogether | corefs-core/src/storage/block_store.rs:1678-1706 | the loop: device and records are those of the pass, the free list is empty, the contents are kept when nothing is disturbed, and the layout is in order when no record has two extents |
| Compaction.Defragment | corefs-core/src/storage/block_store.rs:1667-1712 | defragmentation is the pass in the order of positions; a store whose records have one extent each keeps its contents and its layout |
| Compaction.ReallocateHot | corefs-core/src/storage/block_store.rs:1764-1835 | reallocation is the pass with the hot records first; it keeps the contents when nothing is disturbed |
| Compaction.HotReplacesCold | corefs-core/src/storage/block_store.rs:1764-1835 | of two files, moving the hot second one to the front replaces the content of the first by its own |
| Compaction.DefragmentHitsAppended | corefs-core/src/storage/block_store.rs:1667-1712 | a file extended behind another one has the other one's bytes in place of the appended ones after defragmentation |

## Left out

- Services.CoreFsService.WriteFile: isolation from other files is that of a map from ids to bytes, which the block store provides only as long as the blocks it reuses hold nothing of other records (`BlockStorage.IsolatedExact`, `Backing.Keep`); the same holds for every operation that writes or removes. `write_file`, `create_file`, `create_symlink` and a secure delete then also compact the store when background compaction is switched on and the free space is fragmented (src/app/mod.rs:1814-1836); what that keeps is stated for the store (`Compaction.CompactionExact`), not for the service.
- Services.CoreFsService.CreateSnapshotScoped: symlink targets are kept as bytes, where the code replaces invalid UTF-8.
- Services.CoreFsService.CloneTree: the same for the targets of cloned symlinks.
- Paths.PathOrder: strings are sequences of characters, so the order is by code point and the path limit of 16384 counts characters, where the code counts bytes.
- FuseMount.CoreFsFuseMountRw.constructor: the index is described for catalogs whose entries have proper paths and ids of their own; the service also accepts `/`, `/a/` and the like, over which the mount's maps are not described. That a catalog is a tree is taken from the volume: the service accepts entries without parents, and mount operations on such a volume are not described.
- FuseMount.CoreFsFuseMountRw.RebuildIndexes: the same restriction to proper paths.
- FuseMount.CoreFsFuseMountRw.WriteToHandle: no other handle may stream into the same file; with two dirty handles on one inode the order of the handle table decides, which is not determined.
- FuseMount.CoreFsFuseMountRw.Serve: runs of opens, writes, flushes and closes only, with no file open twice; what other operations do to open handles is stated for one call of each.
- FuseMount.CoreFsFuseMountRw.Mkdir: failures to write the write-ahead log are not modelled; the same holds for all operations of the mount that change something.
- FuseMount.CoreFsFuseMountRw.Rename: that names are proper, that parents are directories, and that nothing is renamed onto itself or below itself is what the kernel has checked before it calls.
- FuseMount.CoreFsFuseMountRw.Readdir: the listing of `.snapshots` and of the directories below it, which come out of a hash map in no fixed order; room in a reply is an abstract cost for each entry.
- VirtualNodes.EnteredAllKeeps: runs longer than the number space, on which the counter underflows.
- Calendar.ParseDate: splitting and reading the text of a date or selector; the model starts from the numbers.
- CapacityProbe.VerifyDeviceCapacity: overflow of 64-bit products of offset and probe number, devices whose errors come and go, and devices that wrap around, which read back what was written last and pass every probe. The device itself is an assumption: bytes within its real capacity are stored, a sync fails at most after a write behind it, and what lies behind it never reads back as written.
- BlockStorage.BlockStore.Write: deduplication with its reference counts, checksums and pending trims, which the content does not depend on, and devices that refuse to grow. Range writes in place, block sizes that are no power of two, and the 32-bit lengths of extents are not part of the block store's model.
- Compaction.MoveTogether: the report and its counters, and a device that refuses to be read or written in spite of its size. When the store decides to compact, and which files are hot, is not modelled.
- Rebuilding the free list when a volume is loaded, which takes a record's extents for one range as well, is not part of this model.
- Reconciliation.OwnJournal: runs with renames and clones, whose entries a replay does not look at; what a replay makes of any journal at all is in `Reconciliation.ReconciledSame`.
- FuseMount.CoreFsFuseMountRw.EnsureMutationSession: the write transaction and the unclean-shutdown mark of the image.
- Compression and encryption are functions with inverses, and a ciphertext is 28 bytes longer than its plaintext; failures of the compressor do not occur.
- Overflow of sizes, byte totals and ids: integers are unbounded, except where a limit or saturation is written in the code.
- One clock reading serves all stamps an operation sets; heat records, versions kept for time travel, journal texts and sync targets are dropped.
- `delete_snapshot`, `diff_snapshots`, `scrub`, `sanity_check_writable` and the time-travel lookups are not modelled.
- `copy_file_range` and truncation through an open handle, which change a handle's buffer without regard to its committed prefix, are not modelled.
- Persisting and loading: images, on-disk journal, superblocks, write-ahead log replay.
- Mounting, reply objects, control socket, device ioctls, command line and report rendering.
