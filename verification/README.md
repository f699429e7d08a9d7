# MinFS metadata engine

A Dafny model of the metadata engine of MinFS, the copy-on-write file system of Fuchsia, in its
Fuchsia build, with proofs of what its operations keep and of what its checker's acceptance means.
`dafny verify dfyconfig.toml` checks the whole project.

The components, each with the abstract object it has to agree with:

- **Pointer tree and iterator** (`PointerTree`, `IteratorSpec`, `ContiguousRuns`, `VnodeMapper`, `BlocksShrink`, `IteratorRuns`).
  A file's map from file block to disk block lies in 16 direct pointers, 31 indirect blocks and one
  doubly indirect block. The pointer blocks are cached in a virtual indirect file that holds its own
  map. `VnodeIterator` edits the tree lazily, allocating and freeing pointer blocks as it moves on.
  The abstract object is the flat map `Lookup`; `Remount` is the tree as a later mount reads it.
- **Allocator** (`AllocatorSpec`, `AllocatorLaws`, `Allocator`, `BlockReservations`). Many live reservations share one
  bitmap, one promise counter, one first-free hint and the lists of pending changes. The abstract
  object is a value `State` with one function per step; the class refines it, and the laws hold of
  every interleaving of steps (`Run`). `BlockReservations` shows that a reservation
  delivers what the transactions of the pointer tree and of the files rely on.
- **Dirty-cache write path** (`TransactionLimits`, `PendingWrites`, `File`). A write only marks its
  blocks pending and raises a reservation; a flush later gives every pending block a new place. The
  invariant is that the reservation always covers the pending blocks and the pointer blocks they need.
- **Directories and namespace** (`DirectoryRecords`, `Directory`, `DirectoryListing`, `NamespaceSpec`,
  `Namespace`, `NamespaceRecords`). Variable-length records tile a byte range and stand for a map from
  names to inodes. Over all directories these maps form a tree with exact link and entry counts.
- **Unlinked list and checker** (`UnlinkedList`, `FsckSpec`, `FsckLaws`, `Fsck`, `FsckComplete`,
  `FsckAccepts`, `FsckAgrees`, `FsckFormatted`, `FsckNamespace`, `FsckExceptions`, `FsckKept`). A doubly linked list
  is threaded through inodes. The recursive checker ends on every image and passes exactly the
  acceptable ones; what acceptance implies for bitmaps, counts and
  the tree is proved, and where it falls short of a consistent namespace is shown exactly. Conversely
  every image that is as the mapper, the directories, the namespace and the list keep it is accepted.
- **Lazy loading and formatting** (`LazyBuffer`, `Mkfs`).

A class holds the fields the source updates in place; its methods are tied to functions or
predicates on values, and the laws are lemmas about those. `{:induction false}` marks lemmas whose
body is the induction. Ghost out-parameters such as `added`, `removed` and `done` name what an
operation allocated, freed or flushed.

Where code and comment differ the code is followed: the comment in `src/storage/minfs/transaction_limits.h:38-42` adds
nine direct and three indirect blocks up to 11, the code computes 12 (`MaxDataBlocksIsMax`). For the
revocation records `src/storage/minfs/transaction_limits.cc:126-128` counts the indirect blocks of a file without the
doubly indirect block itself, 2079 for 2080; that makes no difference to the blocks needed (`MinimumIsExact`).

Weak points of the code, each stated with the condition under which the intended property holds:

- Freeing a pending element does not lower the first-free hint; the hint survives a step exactly if it is not such a free below the hint (`FreeKeepsHint`, `StepKeepsHint`), and otherwise a promised element may not be found (`FreedPendingElementIsLost`).
- `Reserve` after `Extend` does not look again at what is available; the allocator can still deliver exactly if the growth covered the shortfall (`ReserveKeeps`), and `GrowthMayFallShort` is a pool where it did not.
- A reservation is good for one commit: an element allocated after it is not held (`AllocateHoldsIffUnspent`, `SpentReservationHoldsNothing`).
- An element that a transaction allocates and frees again is free at once, so it can be handed out before the commit (`BlockReservations.DeallocateBlock`). Flushing and cutting files never do this (`FlushFreesOldBlocks`, `CutFreesOldBlocks`).
- `SetBlk` leaves the cached run length; it stays right exactly if it was 1 or the pointer did not change (`CacheAfterSetBlk`, `CacheGoesStale`).
- `AddUnlinked` writes only the fields that must change; the result is a list exactly if the inode's own fields were clear (`AddAppends`, `LeftoverNextBreaksTheList`).
- `Link` asks nothing of its target's links. A file unlinked while open gets a name but stays on the unlinked list; the list stays exact exactly if the target had a link (`Namespace.Filesystem.Link`, `RelinkedShouldLeaveTheList`).
- The checker overwrites the tally of inodes on the unlinked list, so it cannot tell whether they still have names; it does not look for two equal names in a directory; and it accepts a root without links if it is empty. An acceptable image is a consistent namespace exactly if none of the three is the case (`ConsistentIff`), and each is the case in some acceptable image (`NamedUnlinkedAccepted`, `TwinNamesAccepted`, `RootlessAccepted`).
- `Mkfs` lays out some devices without room for the root directory, which is to be written to the second data block: those of 8 blocks or fewer, the smallest that it does not refuse, and the device that just holds the recommended journal and one data block, though one block less would do. The root directory's block then lies past the end of the device, so formatting fails only when writing it (`FindLayout`, `SizesThatFail`).

## Model

| member | source | states |
|---|---|---|
| MinfsAllocator.Allocator.FindNextUnreserved | src/storage/minfs/allocator/allocator_common.cc:82-98 | cycling through the pending changes ends at the least element from `start` on that no change holds |
| MinfsAllocator.Allocator.FindLocked | src/storage/minfs/allocator/allocator_common.cc:100-118 | returns the least element from the hint on that is neither set in the bitmap nor held; ends whenever there is one |
| MinfsAllocator.Allocator.GetAvailableLocked | src/storage/minfs/allocator/allocator.cc:59-66 | the pool less the bits set, less all promises, less all elements held by changes |
| MinfsAllocator.Allocator.Reserve | src/storage/minfs/allocator/allocator_common.cc:191-209 | succeeds exactly if enough is available or the pool can be extended; the state is that of the abstract step, or unchanged |
| MinfsAllocator.Allocator.Allocate | src/storage/minfs/allocator/allocator_common.cc:216-228 | hands out the element FindLocked finds, in step with the abstract allocation |
| MinfsAllocator.Allocator.Free | src/storage/minfs/allocator/allocator_common.cc:164-174 | undoes a pending allocation, or records a pending deallocation, in step with the abstract release |
| MinfsAllocator.Allocator.Commit | src/storage/minfs/allocator/allocator_common.cc:120-162 | in step with the abstract commit, which `AllocatorLaws.CommitApplies` describes bit by bit |
| MinfsAllocator.Allocator.RemovePendingChange | src/storage/minfs/allocator/allocator_common.cc:241-251 | drops one change and lowers the hint to the first element it held |
| MinfsAllocator.AllocatorReservation.ExtendReservation | src/storage/minfs/allocator/allocator_reservation.cc:29-35 | the invariant survives exactly if the pool, grown if it had to be, has the elements |
| MinfsAllocator.AllocatorReservation.Allocate | src/storage/minfs/allocator/allocator_reservation.cc:37-41 | with an honest hint a promised element is always found; it joins the pending allocations for one unit of the promise, the bitmap is untouched, and the invariant and the hint are kept |
| MinfsAllocator.AllocatorReservation.Swap | src/storage/minfs/allocator/allocator_reservation.cc:46-53 | frees an element in use and takes the next free one; held elements grow by exactly the new one and the bitmap is untouched |
| MinfsAllocator.AllocatorReservation.Deallocate | src/storage/minfs/allocator/allocator_reservation.cc:43 | a pending allocation is undone, any other element joins the pending deallocations, and the bitmap is untouched; the hint stays honest exactly if no pending element below it is freed |
| MinfsAllocator.AllocatorReservation.Commit | src/storage/minfs/allocator/allocator_reservation.cc:76-78 | every pending allocation is set, every pending deallocation cleared, every other bit as it was, and the used count right; both changes are committed unless nothing was pending; the invariant, the hint and the number of available elements are kept |
| MinfsAllocator.AllocatorReservation.TakePendingDeallocations | src/storage/minfs/minfs.cc:651-672 | what a committed transaction freed is handed to whoever waits for the journal, and stays listed in the allocator |
| MinfsAllocator.AllocatorReservation.Destroy | src/storage/minfs/allocator/allocator_reservation.cc:16-60 | cancels the promise and drops both changes; invariant and hint are kept, the bitmap is untouched |
| AllocatorLaws.StepKeeps | src/storage/minfs/allocator/allocator_common.cc:120-251 | every step of every reservation keeps the invariant: used count is the bits set, the promise counter is the sum of promises, promises and held elements fit, pending sets are disjoint |
| AllocatorLaws.StepKeepsHint | src/storage/minfs/allocator/allocator_common.cc:164-174 | the hint stays honest under exactly the steps that do not free a pending element below it |
| AllocatorLaws.RunKeeps | src/storage/minfs/allocator/allocator_common.cc:82-251 | the invariant holds at every point of every interleaving |
| AllocatorLaws.RunAllocationNeverFails | src/storage/minfs/allocator/allocator_reservation.cc:37-41 | in a run that keeps the hint, whoever holds a promise finds a least free element |
| AllocatorLaws.NoDoubleUse | src/storage/minfs/allocator/allocator_common.cc:216-228 | an element handed out is not handed out again until some step lets go of it |
| AllocatorLaws.BecomesFree | src/storage/minfs/allocator/allocator_common.cc:164-251 | an element becomes free in exactly two ways: a pending allocation is undone, or a change that held it is dropped while its bit is clear |
| AllocatorLaws.FreedStaysHeld | src/storage/minfs/minfs.cc:651-672 | what a committed transaction freed is held and never allocated until its pending deallocations are dropped |
| AllocatorLaws.FreedComesBack | src/storage/minfs/minfs.cc:651-672 | over any run: an element freed before the commit is in use up to it, held until the pending deallocations are dropped and free right after, and nothing else comes free with it |
| AllocatorLaws.ReserveKeeps | src/storage/minfs/allocator/allocator_common.cc:191-209 | a promise keeps the invariant exactly if that much was available, and lowers what is available by just that |
| AllocatorLaws.GrowthMayFallShort | src/storage/minfs/allocator/allocator_common.cc:191-209 | a concrete pool that grows by less than is missing: the promise is made all the same and can no longer be kept |
| AllocatorLaws.AllocateHoldsIffUnspent | src/storage/minfs/allocator/allocator_common.cc:126-141 | an element allocated through an already committed change is not held, so a reservation is good for one commit |
| AllocatorLaws.SpentReservationHoldsNothing | src/storage/minfs/allocator/allocator_common.cc:126-141 | a concrete reservation that, after its commit, hands out an element and leaves it free |
| AllocatorLaws.FreeKeepsHint | src/storage/minfs/allocator/allocator_common.cc:164-174 | freeing keeps the hint honest if and only if the element is not a pending one below the hint |
| AllocatorLaws.FreedPendingElementIsLost | src/storage/minfs/allocator/allocator_common.cc:168-169 | a concrete pool where the freed pending element is promised again but the search from the hint finds nothing |
| AllocatorLaws.CommitKeeps | src/storage/minfs/allocator/allocator_common.cc:120-162 | a commit keeps the invariant and what is available |
| AllocatorLaws.CommitApplies | src/storage/minfs/allocator/allocator_common.cc:120-162 | a commit sets what was pending, clears what was waiting to be freed, leaves every other bit, and commits both changes unless both were empty |
| AllocatorLaws.CommitFreesNothing | src/storage/minfs/allocator/allocator_common.cc:120-162 | exactly the elements free before a commit are free after it |
| AllocatorLaws.DropKeepsHint | src/storage/minfs/allocator/allocator_common.cc:241-251 | dropping a change lowers the hint far enough |
| AllocatorLaws.DropHint | src/storage/minfs/allocator/allocator_common.cc:241-251 | the hint comes down exactly to the least element held, if that is below it |
| BlockReservations.AllocateBlock | src/storage/minfs/allocator/allocator_reservation.cc:37-41 | the allocator keeps the contract that the tree and the files rely on: for one unit, a block not in use, and everything else as it was |
| BlockReservations.DeallocateBlock | src/storage/minfs/allocator/allocator_reservation.cc:43 | a block in use before the transaction stays in use until the commit is on the device; one the transaction allocated itself is free at once |
| BlockReservations.SwapBlock | src/storage/minfs/allocator/allocator_reservation.cc:46-53 | with a unit in reserve a swap delivers a block that was not in use, and never the one given back |
| BlockReservations.Commit | src/storage/minfs/allocator/allocator_reservation.cc:76-78 | a commit changes neither what is in use nor what is available |
| BlockReservations.ReserveOnPool | src/storage/minfs/allocator/allocator_common.cc:191-209 | what a promise takes from the pool, growth included; nothing comes into use |
| BlockReservations.RestGoesBack | src/storage/minfs/allocator/allocator_reservation.cc:16-27 | ending a reservation returns exactly what is left of it |
| BlockReservations.JournalReleases | src/storage/minfs/minfs.cc:651-672 | dropping a committed change makes exactly what it freed available, and takes it out of use |
| VnodeMapper.Coalesce | src/storage/minfs/vnode_mapper.cc:63-76 | the longest run, up to a maximum, of zeros or of consecutive numbers |
| VnodeMapper.Vnode.LoadBlock | src/storage/minfs/vnode_mapper.cc:192-219 | a pointer block is brought in through its parent's cached contents; the map does not change |
| VnodeMapper.VnodeIterator.Init | src/storage/minfs/vnode_mapper.cc:269-322 | places the iterator at any block up to the end of the file and fails beyond; the map does not change |
| VnodeMapper.VnodeIterator.InitializeLevel | src/storage/minfs/vnode_mapper.cc:324-351 | a level gets the view its parent's pointer leads to, or none where that is zero |
| VnodeMapper.VnodeIterator.SetBlk | src/storage/minfs/vnode_mapper.cc:353-367 | the flat map changes at the current block and nowhere else, and no pointer block moves |
| VnodeMapper.VnodeIterator.Blk | src/storage/minfs/vnode_mapper.h:122-125 | what the iterator shows is the flat map |
| VnodeMapper.VnodeIterator.GetContiguousBlockCount | src/storage/minfs/vnode_mapper.cc:369-375 | before the end a run of at least one block, unmapped or consecutive, within its region; a sparse run passes no pointer block that has a place |
| VnodeMapper.VnodeIterator.ComputeContiguousBlockCount | src/storage/minfs/vnode_mapper.cc:377-416 | the scan over up to three levels measures a sound run |
| VnodeMapper.VnodeIterator.FlushLevel | src/storage/minfs/vnode_mapper.cc:418-455 | frees exactly the emptied block, allocates exactly the dirty one without a place, writes what is dirty; the map is unchanged and block count and reservation are in step |
| VnodeMapper.VnodeIterator.Flush | src/storage/minfs/vnode_mapper.cc:457-466 | nothing is left unwritten: the device agrees with memory, and exactly the needed pointer blocks were allocated from the reservation |
| VnodeMapper.VnodeIterator.Advance | src/storage/minfs/vnode_mapper.cc:468-512 | moves exactly k blocks or fails unchanged; the map is kept, only blocks left behind are allocated or freed, and a sound cached run stays sound |
| VnodeMapper.CacheAfterSetBlk | src/storage/minfs/vnode_mapper.cc:353-375 | a cached run stays right after SetBlk if and only if its length is 1 or the pointer is the same |
| VnodeMapper.CacheGoesStale | src/storage/minfs/vnode_mapper.cc:353-375 | an empty file whose first block is mapped after measuring: the cached run is wrong |
| PointerTree.RemountSame | src/storage/minfs/vnode_mapper.cc:172-219 | once nothing is dirty, a later mount reads the same map |
| IteratorRuns.EditFile | src/storage/minfs/vnode_mapper.cc:269-512 | for every start and every sequence of settings, moves and flushes, re-reading the device after the last flush gives the old map overwritten by exactly the last setting of each block, and another run can follow |
| IteratorRuns.EditFileRepeatedly | src/storage/minfs/vnode_mapper.cc:269-512 | the same for any number of such runs, each with an Init of its own |
| ContiguousRuns.RunPrefix | src/storage/minfs/vnode_mapper.cc:369-375 | a shorter run is a run, so capping the cached length is sound |
| ContiguousRuns.RunSuffix | src/storage/minfs/vnode_mapper.cc:468-482 | what is left of a run after moving on is a run |
| BlocksShrink.BlocksShrink | src/storage/minfs/vnode.cc:77-116 | every block from `start` on unmapped, every other unchanged, blocks given back and block count accounted for, everything on the device, the cache cut to what is kept |
| BlocksShrink.KeptBlocksExact | src/storage/minfs/vnode.cc:99-115 | the cached blocks kept end with the one that holds the last remaining block's pointer |
| BlocksShrink.FreedExactly | src/storage/minfs/vnode.cc:77-116 | a pointer block is freed if and only if it had a place, covers blocks from `start` on, and nothing below `start` is mapped under it |
| BlocksShrink.FreedRoot | src/storage/minfs/vnode.cc:77-116 | the doubly indirect block is freed if and only if no pointer block under it is left |
| BlocksShrink.EmptyMeansUnmapped | src/storage/minfs/vnode_mapper.cc:418-445 | a pointer block is all zeros exactly if no file block under it is mapped |
| BlocksShrink.CountStaysExact | src/storage/minfs/vnode.cc:77-116 | block_count stays as far from the number of blocks occupied as it was |
| BlocksShrink.ShrunkToNothing | src/storage/minfs/minfs.cc:755-773 | shrinking to 0 leaves no pointer of any kind, and a right block count ends at 0 |
| BlocksShrink.ShrinkSurvivesRemount | src/storage/minfs/vnode.cc:77-116 | a later mount finds the file cut off at `start` |
| TransactionLimits.RequiredIsExact | src/storage/minfs/transaction_limits.cc:31-78 | the required count is the number of data blocks of the byte range plus the distinct pointer blocks on their paths; it fails exactly past the last block |
| TransactionLimits.MaxDataBlocksIsMax | src/storage/minfs/transaction_limits.cc:85-105 | no write of at most 64 KiB needs more than at the one chosen offset, which is 12 |
| PendingWrites.EnoughAfterSet | src/storage/minfs/file.cc:154-193 | mapping a pending block costs one unit, and what is left still covers the rest |
| PendingWrites.EnoughAfterMove | src/storage/minfs/vnode_mapper.cc:418-512 | a flush on the way takes only what was set aside, and what is left still covers the rest |
| PendingWrites.RemovedAreBare | src/storage/minfs/vnode_mapper.cc:418-445 | pointer blocks freed on the way are ones nothing pending relies on |
| PendingWrites.SwappedCompose | src/storage/minfs/file.cc:56-193 | swapping one set of blocks and then another is swapping both |
| MinfsFile.PendingAllocationData.GetNextRange | src/storage/minfs/vnode_allocation.cc:15-25 | the first maximal run of pending blocks, or an error exactly if none is pending |
| MinfsFile.PendingAllocationData.SetPending | src/storage/minfs/vnode_allocation.cc:27-33 | the block becomes pending; the count of new blocks rises only if it was neither pending nor allocated |
| MinfsFile.PendingAllocationData.ClearPending | src/storage/minfs/vnode_allocation.cc:35-48 | the block is no longer pending; the count of new blocks is its exact inverse |
| MinfsFile.File.BlocksSwap | src/storage/minfs/file.cc:154-193 | each block of the range gets a freshly allocated place that is recorded, each replaced one is freed, other blocks are unchanged, and the reservation suffices |
| MinfsFile.File.AllocateAndCommitData | src/storage/minfs/file.cc:56-152 | ends with nothing pending and the size the writes called for; every formerly pending block is renewed, all else unchanged; what the pool has available grows by the reservation less the blocks newly in use |
| MinfsFile.FlushFreesOldBlocks | src/storage/minfs/file.cc:154-193 | flushing a file frees only blocks that were in use before the transaction |
| MinfsFile.CutFreesOldBlocks | src/storage/minfs/vnode.cc:77-116 | and so does cutting it off |
| MinfsFile.OnlyPointerBlocksAdd | src/storage/minfs/file.cc:200-206 | block_count plus new pending blocks grows by the pointer blocks gained and nothing else |
| MinfsFile.File.GetRequiredBlockCountForDirtyCache | src/storage/minfs/file_target.cc:68-89 | 0 if all blocks are pending, else the uncached requirement less the blocks already pending |
| MinfsFile.WriteCovered | src/storage/minfs/file_target.cc:68-114 | after reserving for a write the reservation covers all pending blocks and the pointer blocks they lack, the write's own included |
| MinfsFile.File.MarkRequiredBlocksPending | src/storage/minfs/file_target.cc:91-114 | exactly the blocks of the write become pending and the count of new blocks stays exact |
| MinfsFile.File.DropCachedWrites | src/storage/minfs/file_target.cc:116-143 | nothing is pending and the count of new blocks is 0, without touching the file |
| MinfsFile.BlockPool.Begin | src/storage/minfs/minfs.cc:545-597 | space is granted exactly if it is there, or the pool can grow, or flushing the journal makes it available; a grant costs exactly its count and a refusal nothing |
| MinfsFile.File.ShouldFlush | src/storage/minfs/file_target.cc:176-199 | flushes for a truncation, for too many dirty blocks, or if the pool cannot cover the write |
| MinfsFile.File.FlushTransaction | src/storage/minfs/file_target.cc:208-239 | keeps the reservation for later or flushes at once, exactly by force or the number of dirty blocks; a flush gives the unused part back |
| MinfsFile.File.GetTransaction | src/storage/minfs/file.cc:319-352 | the cached reservation raised by what is asked, the pool and the reservation together conserved; none exactly if that is not available, even after flushing the journal, and the pool cannot grow, with everything pending flushed |
| MinfsFile.File.CheckAndFlush | src/storage/minfs/file.cc:308-317 | flushes exactly where ShouldFlush says; afterwards either nothing is pending or the pool covers the write, and nothing is lost from pool and reservation |
| MinfsFile.File.Write | src/storage/minfs/file.cc:354-410 | the invariant of the dirty cache survives every write; its status, the bytes written, the new size and exactly which blocks are pending or were flushed; pool and reservation together lose exactly the blocks newly in use |
| MinfsFile.OneMappedPending | src/storage/minfs/vnode.cc:189-206 | writing a mapped block anew takes exactly one unit |
| MinfsFile.File.BlockGetWritable | src/storage/minfs/vnode.cc:189-206 | the block becomes pending, mapped or not, and the data map does not change; at most empty pointer blocks above an unmapped block are given back |
| MinfsFile.File.TruncateInternal | src/storage/minfs/vnode.cc:684-805 | blocks beyond the new end are unmapped and freed; the last block is pending exactly if the file got shorter within it and it is mapped, and one unit covers it |
| MinfsFile.File.Truncate | src/storage/minfs/file.cc:420-455 | refused exactly above the maximum size; without space it has flushed what was pending and changed nothing else, and then nothing was to be had by growth or a journal flush either; otherwise the size is set, nothing is pending, blocks beyond the end are unmapped, others stay mapped, a mapped last block that was cut has a place not in use before, and pool and reservation are conserved |
| DirectoryRecords.LayoutUnique | src/storage/minfs/directory.cc:451-488 | the bytes determine where the records are and which has which name |
| DirectoryRecords.InsertFree | src/storage/minfs/directory.cc:370-437 | taking over a free record is map insertion and keeps tiling and coalescing |
| DirectoryRecords.InsertSplit | src/storage/minfs/directory.cc:370-437 | splitting a record is map insertion and keeps tiling and coalescing |
| DirectoryRecords.InsertEnds | src/storage/minfs/directory.cc:370-437 | and when an entry is put in, at the end or before it |
| DirectoryRecords.RemoveKeeps | src/storage/minfs/directory.cc:142-222 | removing a record and merging with free neighbours is map removal; no other record moves and no two free ones are left side by side |
| DirectoryRecords.RemoveEnds | src/storage/minfs/directory.cc:142-222 | a directory that ended with its last record still does: when that goes, it is cut to the header of the free one left there |
| DirectoryRecords.RetargetKeeps | src/storage/minfs/directory.cc:315-331 | changing an entry's inode changes that binding only |
| MinfsDirectory.Directory.InitializeDirectory | src/storage/minfs/minfs.cc:1062-1085 | a new directory maps "." and ".." and has two links |
| MinfsDirectory.Directory.FindName | src/storage/minfs/directory.cc:451-488 | ends on every image; in a well-formed directory finds a name exactly if it is there, with the record before it |
| MinfsDirectory.Directory.FindSpace | src/storage/minfs/directory.cc:333-362 | a record with room, or proof that no record has any |
| MinfsDirectory.Directory.AppendDirent | src/storage/minfs/directory.cc:370-437 | succeeds exactly if the name fits beside what the record already holds; then the name map gains the entry, no other record moves, the counts follow, and the directory still ends with its last record |
| MinfsDirectory.Directory.UnlinkChild | src/storage/minfs/directory.cc:142-222 | the name map loses the entry, no other record moves, the counts follow, and the directory still ends with its last record |
| MinfsDirectory.Directory.UpdateInode | src/storage/minfs/directory.cc:315-331 | the binding of one name changes if it is there |
| MinfsDirectory.Directory.Readdir | src/storage/minfs/directory.cc:547-625 | resumes at the least record at or after the cookie, lists the live entries other than ".." in order up to the limit, and returns a cookie that is a record boundary or the end |
| DirectoryListing.Serve | src/storage/minfs/directory.cc:547-625 | any sequence of readdir calls on one cookie, with entries added, removed and retargeted in between, is a run as the next row requires |
| DirectoryListing.ListedExactlyOnce | src/storage/minfs/directory.cc:547-625 | over a full listing with any changes between the calls, a name other than ".." that is there throughout is returned by exactly one call, once, with the inode it then led to |
| NamespaceSpec.CreateKeeps | src/storage/minfs/directory.cc:627-727 | a new file or directory leaves the tree and all counts consistent |
| NamespaceSpec.LinkKeeps | src/storage/minfs/directory.cc:909-973 | so does one more name for a file |
| NamespaceSpec.RelinkedShouldLeaveTheList | src/storage/minfs/directory.cc:909-973 | a concrete file, unlinked while open and given a name again, that should no longer be on the list |
| NamespaceSpec.UnlinkKeeps | src/storage/minfs/directory.cc:142-222 | so does unlinking a file or an empty directory, open or not |
| NamespaceSpec.DropStays | src/storage/minfs/vnode.cc:244-295 | losing a link takes an inode away exactly if none is left and it is not open; no other inode changes |
| NamespaceSpec.MoveKeeps | src/storage/minfs/directory.cc:778-907 | so does moving an entry to a directory outside its own subtree |
| NamespaceSpec.RenameIsMove | src/storage/minfs/directory.cc:778-907 | the steps of Rename without a target come to moving one entry |
| NamespaceSpec.RenameIsUnlinkAndMove | src/storage/minfs/directory.cc:269-331 | with a target they come to unlinking it and moving the entry |
| NamespaceSpec.RenameKeeps | src/storage/minfs/directory.cc:778-907 | a rename that passes the checks moves exactly one binding, fixes "..", and keeps tree and counts |
| NamespaceSpec.RenameInodes | src/storage/minfs/directory.cc:778-907 | a rename takes no inode away but the target, which stays exactly if it has a link left or is open; only what is moved changes its parent |
| NamespaceSpec.SubtreeIsClosed | src/storage/minfs/directory.cc:759-776 | the directories from which going up meets x are closed under containment |
| NamespaceSpec.UnderIsWayUp | src/storage/minfs/directory.cc:759-776 | a directory is under another exactly if a way up by ".." leads from it there |
| Namespace.Filesystem.CheckNotSubdirectory | src/storage/minfs/directory.cc:759-776 | the walk up by ".." ends, and fails exactly if it meets the directory to be moved |
| Namespace.Filesystem.CanUnlinkIsEmpty | src/storage/minfs/directory.cc:128-140 | by its counts a directory may be unlinked exactly if it has no entries |
| Namespace.Filesystem.Create | src/storage/minfs/directory.cc:627-727 | status in full; on success exactly one entry more and a consistent tree; like every operation it keeps all names ordinary |
| Namespace.Filesystem.Link | src/storage/minfs/directory.cc:909-973 | status in full; on success exactly one entry and one link more; the unlinked list stays exact if and only if the target had a link |
| Namespace.Filesystem.RemoveInodeLink | src/storage/minfs/vnode.cc:244-295 | one link less; the inode is there afterwards exactly if it has links left or is open, a directory then without entries, and put on the unlinked list exactly if it is there without links; every other inode stays as it was |
| Namespace.Filesystem.Unlink | src/storage/minfs/directory.cc:729-754 | status in full, with what makes a directory refused; on success exactly one entry less and a consistent tree; the inode stays exactly if it has links left or is open, all others stay; the unlinked list stays exact |
| Namespace.Filesystem.Rename | src/storage/minfs/directory.cc:778-907 | status in full, each error by its own condition and in order: with a target, Ok exactly if it is another inode of the same kind and a file or an empty directory; on success exactly one entry has moved, replacing the target, with ".." leading to the new directory, and no inode goes but a target without links that is not open; on failure nothing changes |
| Namespace.Filesystem.Close | src/storage/minfs/vnode.cc:363-385 | an inode without links goes away with its last connection, and leaves the unlinked list |
| NamespaceRecords.CreateOnRecords | src/storage/minfs/directory.cc:627-727 | after a creation the records and counts of all directories show the namespace |
| NamespaceRecords.LinkOnRecords | src/storage/minfs/directory.cc:909-973 | and one more name for a file |
| NamespaceRecords.UnlinkOnRecords | src/storage/minfs/directory.cc:729-754 | and so does an unlink, whether or not the inode goes with it |
| NamespaceRecords.RenameOnRecords | src/storage/minfs/directory.cc:778-907 | a rename that passes its checks, done record by record in the two or three directories it touches, leaves every directory showing what the renamed namespace says |
| NamespaceRecords.AddEntry | src/storage/minfs/directory.cc:333-437 | finding room and writing a record is the namespace step that adds an entry; there is no space exactly if no record has room |
| NamespaceRecords.RemoveEntry | src/storage/minfs/directory.cc:142-222 | finding a name and unlinking its record is the namespace step that takes an entry away; not found exactly if it is not there |
| NamespaceRecords.ReplaceEntry | src/storage/minfs/directory.cc:315-331 | retargeting a record is the namespace step that replaces an entry |
| UnlinkedList.ListUnique | src/storage/minfs/minfs.cc:775-831 | the list fields determine the list |
| UnlinkedList.AddAppends | src/storage/minfs/minfs.cc:775-799 | adding appends at the tail if and only if the inode's own fields were clear where they are left alone |
| UnlinkedList.LeftoverNextBreaksTheList | src/storage/minfs/minfs.cc:775-799 | an inode with a next of its own, added to the empty list, is not a list of one |
| UnlinkedList.RemoveTakesOut | src/storage/minfs/minfs.cc:801-831 | removing takes out a member at any position and joins its neighbours |
| UnlinkedList.Minfs.AddUnlinked | src/storage/minfs/minfs.cc:775-799 | the list is the old one with the inode at its end |
| UnlinkedList.Minfs.RemoveUnlinked | src/storage/minfs/minfs.cc:801-831 | the list is the old one without the inode |
| UnlinkedList.Minfs.PurgeUnlinked | src/storage/minfs/minfs.cc:833-887 | frees each member once and in order; after every commit the list on the device is the well-formed list of those left |
| Fsck.ReadRecord | src/storage/minfs/fsck.cc:303-346 | a record is read exactly if it lies in the file, its size holds it, and it has a name if in use |
| Fsck.MinfsChecker.CheckDataBlock | src/storage/minfs/fsck.cc:412-445 | fine exactly if the block may be used and was not met before, and then counted |
| Fsck.MinfsChecker.GetInodeNthBno | src/storage/minfs/fsck.cc:201-282 | with its caches and skips it returns what the mapper's map has and passes over no mapped block |
| Fsck.MinfsChecker.CheckFile | src/storage/minfs/fsck.cc:447-549 | every block of the inode is recorded with its owner; nothing is found wrong exactly if all are valid and met once, the size covers them and the count is right |
| Fsck.MinfsChecker.CheckReserved | src/storage/minfs/fsck.cc:551-570 | nothing is wrong exactly if inode 0 and block 0 are marked |
| Fsck.MinfsChecker.CheckDirectory | src/storage/minfs/fsck.cc:284-410 | ends on every image; the records gone through chain from 0 to the last, every entry is followed, counts and "." and ".." are as they should be; an error names the fault |
| Fsck.MinfsChecker.CheckInode | src/storage/minfs/fsck.cc:572-637 | ends on every image; everything below is done with, the tally of every inode is kept, and a directory is come to by name only once; an error names the fault |
| Fsck.MinfsChecker.CheckUnlinkedInodes | src/storage/minfs/fsck.cc:639-686 | ends on every image and accepts only a well-formed list of inodes without links, matching head and tail |
| Fsck.MinfsChecker.CheckForUnusedBlocks | src/storage/minfs/fsck.cc:688-704 | passes exactly if every marked block was met |
| Fsck.MinfsChecker.CheckForUnusedInodes | src/storage/minfs/fsck.cc:706-723 | passes exactly if every marked inode was met |
| Fsck.MinfsChecker.CheckLinkCounts | src/storage/minfs/fsck.cc:725-740 | passes exactly if every tally came out even |
| Fsck.MinfsChecker.CheckAllocatedCounts | src/storage/minfs/fsck.cc:742-757 | passes exactly if both superblock counts are those met |
| Fsck.Fsck | src/storage/minfs/fsck.cc:1120-1165 | ends on every image; passes if and only if the image is acceptable and the journal and backup superblock are intact; a refusal names a fault, a blemish of an inode met, an unused bit, an uneven tally or a wrong count |
| Fsck.CheckSuperblockIntegrity | src/storage/minfs/fsck.cc:759-813 | passes exactly if the journal block and the backup superblock are intact |
| FsckComplete.NotStopped | src/storage/minfs/fsck.cc:284-637 | on an acceptable image the walk is never broken off |
| FsckComplete.NoListFault | src/storage/minfs/fsck.cc:639-686 | nor for the unlinked list |
| FsckComplete.SameWalk | src/storage/minfs/fsck.cc:572-637 | the entries followed and inodes met are the same in any two complete findings |
| FsckComplete.SameOwners | src/storage/minfs/fsck.cc:447-549 | the same blocks with the same owners |
| FsckComplete.AllEven | src/storage/minfs/fsck.cc:725-740 | and every tally comes out even, also where the list has overwritten it |
| FsckComplete.AcceptableIsAccepted | src/storage/minfs/fsck.cc:1120-1165 | what the walk finds on an acceptable image is what acceptance asks for |
| FsckSpec.WholeChain | src/storage/minfs/fsck.cc:284-385 | the records of a directory are determined: any walk over readable records is a beginning of the whole one |
| FsckSpec.NoReturn | src/storage/minfs/fsck.cc:653-674 | an inode whose last is the one before it was not met before, so the list cannot loop |
| FsckAccepts.OneOwner | src/storage/minfs/fsck.cc:412-549 | in an accepted image no block is in use twice, by one inode or by two, and every block in use is valid |
| FsckAccepts.BlockBitmapExact | src/storage/minfs/fsck.cc:688-704 | the block bitmap marks block 0 and the blocks in use and nothing else |
| FsckAccepts.BlockCountIsSum | src/storage/minfs/fsck.cc:742-757 | the superblock's block count is 1 plus the sum of all inodes' block counts |
| FsckAccepts.SizeReachesBlocks | src/storage/minfs/fsck.cc:447-549 | an inode in use is a file or a directory and its size reaches into every data block it has |
| FsckAccepts.InodeBitmapExact | src/storage/minfs/fsck.cc:706-757 | the inode bitmap marks inode 0 and the inodes met and nothing else, and the superblock counts them |
| FsckAccepts.EntriesFollowed | src/storage/minfs/fsck.cc:284-410 | the walk followed exactly the live entries of directories in use, and each leads to an inode in use |
| FsckAccepts.RecordsAreWhole | src/storage/minfs/fsck.cc:284-385 | the records of a directory in use lie within it, hold their names, are aligned and follow each other without a gap from 0 to the one marked last |
| FsckAccepts.EntriesCounted | src/storage/minfs/fsck.cc:386-409 | its entry count is right, without links it has no entry, and with links exactly one "." leading to it and one ".." leading to its parent |
| FsckAccepts.LinkCountExact | src/storage/minfs/fsck.cc:588-600 | an inode's link count is the number of entries leading to it, for every inode off the unlinked list |
| FsckAccepts.EveryInodeIsReached | src/storage/minfs/fsck.cc:572-686 | every inode in use hangs by entries, over directories met before, on the root or the unlinked list |
| FsckAccepts.DirectoryHasOneName | src/storage/minfs/fsck.cc:583-587 | every directory but the root and unlinked ones has exactly one ordinary name, in the directory its ".." leads to, nearer to the root |
| FsckAccepts.OthersHaveNoName | src/storage/minfs/fsck.cc:583-587 | the root and unlinked directories have none |
| FsckAccepts.AcceptedIsUnblemished | src/storage/minfs/fsck.cc:447-637 | an accepted image has none of the blemishes for which a refusal would be given |
| FsckFormatted.FormattedPasses | src/storage/minfs/minfs.cc:1512-1570 | a freshly formatted device is acceptable, with the root as its only inode |
| FsckFormatted.FormattedIsConsistent | src/storage/minfs/minfs.cc:1512-1570 | and it meets the premises of the agreement with the namespace |
| FsckAgrees.MapperTreePasses | src/storage/minfs/fsck.cc:447-549 | an inode as the mapper leaves it never fails for its block count: the file checks come down to fresh blocks and a covering size |
| FsckAgrees.RecordsReadable | src/storage/minfs/fsck.cc:303-346 | every record of a well-formed directory passes the checker |
| FsckAgrees.WalkMeetsAll | src/storage/minfs/fsck.cc:284-410 | the checker's way through a well-formed directory is its tiling, and its count is the size of the name map |
| FsckNamespace.RootLinkedUnlessEmpty | src/storage/minfs/fsck.cc:386-409 | an accepted root has no links if and only if it is empty |
| FsckNamespace.DirCounted | src/storage/minfs/fsck.cc:386-409 | an accepted directory has 2 links plus one per directory in it, and 2 entries plus one per name |
| FsckNamespace.FileCounted | src/storage/minfs/fsck.cc:588-600 | an accepted file has as many links as names |
| FsckNamespace.AcceptedIsConsistent | src/storage/minfs/fsck.cc:1120-1165 | an accepted image with a linked root, distinct names and nameless unlinked inodes is a consistent namespace in the very sense that create, link, unlink and rename keep |
| FsckNamespace.ConsistentIff | src/storage/minfs/fsck.cc:1120-1165 | an accepted image is a consistent namespace if and only if its root is linked, names are distinct and unlinked inodes have none |
| FsckKept.IntactIsAcceptable | src/storage/minfs/fsck.cc:1120-1165 | the converse: every image whose namespace is consistent, whose directories are well formed and show it, whose inodes have the counts and only blocks of their own within their size, and whose bitmaps, totals and unlinked list are exact, is acceptable |
| FsckKept.FileCalls | src/storage/minfs/fsck.cc:588-600 | on such an image the walk comes to a file exactly along its names |
| FsckKept.DirCallsAre | src/storage/minfs/fsck.cc:386-409 | and to a directory along its own ".", its name and the ".." of the directories in it |
| FsckExceptions.RootlessAccepted | src/storage/minfs/fsck.cc:386-409 | an acceptable image whose root has no links |
| FsckExceptions.TwinNamesAccepted | src/storage/minfs/fsck.cc:284-410 | an acceptable image with the same name twice in one directory |
| FsckExceptions.NamedUnlinkedAccepted | src/storage/minfs/fsck.cc:653-674 | an acceptable image whose one unlinked file still has one or two names |
| LazyBuffer.UnloadedOnce | src/storage/minfs/lazy_reader.cc:9-38 | the blocks asked for are the ones of the range not loaded, each once |
| LazyBuffer.Buffer.ReadBlocks | src/storage/minfs/lazy_reader.cc:9-38 | asks for exactly those, never overwrites a loaded block, and counts the range as loaded only on success |
| LazyBuffer.Buffer.Enqueue | src/storage/minfs/lazy_reader.cc:48-69 | queues the mapped start of a range, or zeroes it if it has no place |
| LazyBuffer.Buffer.Read | src/storage/minfs/lazy_buffer.cc:29-38 | grows the buffer if needed and loads the blocks that hold the bytes; every loaded unchanged block stays what the device has |
| LazyBuffer.Buffer.MapForWrite | src/storage/minfs/vnode_mapper.cc:221-247 | the start of a mapped range and how far it goes on, or one new place that was not in use |
| LazyBuffer.Buffer.Flush | src/storage/minfs/lazy_buffer.cc:40-60 | the view's blocks are on the device afterwards and clean, each where it was or in a place of its own; all other blocks read as before, and the block count follows |
| LazyBuffer.Buffer.Shrink | src/storage/minfs/lazy_buffer.cc:18-27 | exactly the blocks below the count stay loaded, with their contents; the buffer is cut to the count but keeps one block |
| Mkfs.FindLayout | src/storage/minfs/minfs.cc:1416-1482 | ends; regions ordered and disjoint and where they are expected, the bitmap covering all data, a journal of the recommended length if that leaves data and of the minimum if not, with room for every entry, the end of the device reached; takes the smallest bitmap that will do and fails exactly if none would, which is a condition on the size; and mountable exactly on the sizes that `Mountable` names |
| Mkfs.SomeTierFits | src/storage/minfs/minfs.cc:1416-1482 | on every device that is large enough some bitmap size will do |
| Mkfs.SizesThatFail | src/storage/minfs/minfs.cc:1416-1516 | the sizes that lead to no file system, and their neighbours that do |
| Mkfs.FormattedIsMountable | src/storage/minfs/minfs.cc:464-489 | CheckSuperblock accepts a layout so found if and only if it has two data blocks |
| Mkfs.CheckedSuperblock | src/storage/minfs/minfs.cc:464-489 | a superblock is accepted exactly if its counts fit, its data region ends with the device and its journal has room for every entry; which error it gives otherwise; and, in 32 bits, what happens if regions are out of order |
| Mkfs.MinimumIsExact | src/storage/minfs/transaction_limits.cc:107-137 | a journal is at least the minimum exactly if it holds every entry a transaction can make: header blocks for all block numbers, revocations for the largest directory or file, the blocks, a commit block and two superblocks |
| Mkfs.MetaDataIsMax | src/storage/minfs/transaction_limits.cc:80-105 | no directory entry touches more metadata blocks and no write more pointer blocks than counted, and one entry touches as many |
| Mkfs.RecommendedIsExact | src/storage/minfs/transaction_limits.cc:136 | the recommended journal is the smallest that does and is not below the default |
| Mkfs.BitmapCovers | src/storage/minfs/minfs.cc:1459-1468 | so many blocks of bitmap cover the data, and not one fewer |
| Mkfs.MinimumGrows | src/storage/minfs/transaction_limits.cc:107-137 | the minimum journal grows with the bitmap by at least as much, so a bitmap too large for a device leaves no larger one that fits |

## Left out

- Journal, block device and VMOs: a committed transaction is atomic, device reads and writes are a map from block to contents. I/O and allocation failures part-way through an operation are not modelled, except for failing reads in `LazyBuffer.Buffer.Read`.
- Data contents of file blocks, partial-block writes and the zeroing of a cut last block; time stamps and checksums.
- Locks and threads: the transaction lock makes operations atomic; allocator steps of different reservations interleave freely.
- FVM slices: Extend is an optional growth by one slice; Mkfs and CheckSuperblock are for devices without slices, and writing out the regions after the layout is left out.
- The number of block numbers in a journal header block (fs::kMaxBlockDescriptors) is a parameter; its header is not part of this model.
- bitmap::RawBitmap and bitmap::RleBitmap are sets of numbers with Find as a function.
- Widths: block numbers, counters and sequence numbers do not wrap, except where a wrap is written out.
- LazyBuffer.Buffer.MapForWrite: the place is recorded in the file's map at once; that the pointer is written through its parent's view is the subject of `VnodeMapper`.
- IteratorSpec.Cells: a view is a named bank of pointers (direct, indirect, doubly indirect or one pointer block) rather than a byte range.
- VnodeMapper.VnodeIterator.Advance: the loop over levels is written as its two cases, equal and different numbers of levels; going back is not in the source.
- IteratorRuns.EditFile: stands for any caller of the iterator; it asks for two reserved units per edit, more than a caller needs.
- No invariant says that a placed pointer block is not empty: setting a pointer and clearing it again under a missing parent still allocates one.
- MinfsFile.BlockPool.Begin: blocks that a journal flush releases become available again but stay out of the way of later allocations; a failing journal flush is not modelled.
- VnodeMapper.Transaction: a block that a transaction allocates and frees itself is not handed out again before the commit, as it could be; `BlockReservations.DeallocateBlock` states the difference.
- MinfsFile.File.GetRequiredBlockCount: offsets and lengths are within the maximum file size, so its 32-bit casts do not matter.
- BlocksShrink.BlocksShrink: File::DeleteBlock's ClearPending is not modelled, since nothing is pending when it runs; the caller `Truncate` shows this.
- Namespace.Filesystem.Create: names are checked by a predicate standing for fs::IsValidName, which is not part of this model. The unlinked list is a set there; its order and fields are the subject of `UnlinkedList`.
- Namespace.Filesystem.Rename: whether there is space for the new record is a parameter; `NamespaceRecords.AddEntry` says when there is.
- MinfsDirectory.Directory.Readdir: the caller's buffer is a number of entries.
- Fsck.MinfsChecker.CheckInode: the 64-bit tallies do not overflow.
- Fsck.Fsck: what is read of the journal's first block and what CheckSuperblock says of the backup are parameters; the repair of superblocks is left out, as are the strings kept for reports.
- Mkfs.CheckedSuperblock: where the inode table would start before the block bitmap, the 32-bit sums of the minimum journal could wrap once more; that is not written out.
- Host-only code, inspection, mounting, the admin service and GetAllocatedRegions: no state that several functions change.
