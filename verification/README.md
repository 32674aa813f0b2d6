# portfs: block ownership, file contents, namespace and persistence

A Dafny model of the portfs kernel module (`kernel/`) and of the formatting part of its user tool
(`user/StorageManager.cpp`), with proofs of what the code guarantees, over single calls and over
whole runs. `dafny verify dfyconfig.toml` checks everything.

## How it is built

- `Spec` is a deterministic state machine. A state is the set of allocated blocks, the file-table
  slots and the bytes of the storage file; an operation is create, mkdir, lookup, unlink, rmdir,
  write, read, set-size (extend, or truncate to zero) or release. `Next` says what one operation
  does, whatever it returns; `Run` chains operations. The environment's choices are arguments of
  the operations: the inode number `iunique` returns, and the number of bytes that landed before
  the storage fell short.
- `FileSystem.Superblock` is the module's own code in its own form: methods that change the bitmap
  bytes, the file-table entries (four direct extents, and an indirect array when present) and the
  storage file in place. Each method is proved to do exactly what `Next`, or a function below it,
  says. The free-extent tree is an object whose insert walks down to a null link; rebalancing is
  any sequence of rotations.
- `Storage.StorageFile` is the file behind `kernel_read` and `kernel_write`. A transfer may stop
  short at any time; the file counts the times one did (`faults`), and the methods' contracts say
  exactly when that count moves, so that without a fault every transfer is complete.
- All other modules prove properties of these functions: `FreeScan`, `ExtentOrder`, `ExtentTree`,
  `Greedy` and `Allocation` for the allocator, `Translation`, `Contents` and `History` for file
  data, `Ownership` and `Conservation` for blocks and index blocks over runs, `Names`, `Namespace`
  and `Lookups` for directories, `Codec`, `DiskFormat`, `Persistence`, `Sync` and `Saveable` for what reaches the
  storage and comes back, `Layout` for the formatting tool.
- `Outcomes` says of every operation, without naming the functions `Next` is made of, what each
  field of the slots it touches becomes, which blocks it takes and gives back, which entries it
  changes, and that all else stays. `DiskFormat` does the same for the encodings, byte by byte.
- `FirstFile`, `FirstDirectory`, `IndexRuns` and `Orphans` follow particular runs from any fresh
  filesystem end to end: the first two show the ordinary life of a file and of a directory, the
  other two that the code's failures below are reached.

`Ownership.Inv` is the block-level invariant (legal, allocated, pairwise disjoint blocks of files
and directories; free slots are zero; sizes within allocations), `Conservation.IndexInv` the one
about index blocks, `Namespace.Named` the directory invariant. `Translation.Addressable` says that
`start_block * block_size` does not wrap in 32 bits.

## Where the code departs from its intent

Each of these is proved, with the exact condition, and where it is a failure of whole runs, with a
run that reaches it:

- The scan drops the block that follows a full 1024-block extent (`FreeScan.ScanExact`).
- The index block can be handed out as file data too, because the free list is older than it:
  exactly when the allocation loop goes on to the extent that covers it
  (`Allocation.IndexBlockSharedIff`, `Conservation.NextSharesIff`, run: `IndexRuns.IndexBlockRun`).
- Translation is wrong for storages whose last block is not 32-bit addressable, with 4096-byte
  blocks above 4 GiB (`Translation.ExactIffAddressable`, `Translation.LargeStorageAliases`,
  `Layout.LayoutUsable`).
- A write of no bytes past the allocation moves the size there (`Ownership.WriteKeepsInvIff`).
- A full directory drops the new name and the new slot is an orphan
  (`Namespace.ClaimKeepsNamedIff`, run: `Orphans.CreateOrphans`); a directory without a block passes
  for empty and is removed with its entries (`Namespace.RmdirKeepsNamedIff`, run:
  `Orphans.RmdirOrphans`).
- Unlink does not release the index block: it is lost for good unless it was the file's own data
  (`Conservation.UnlinkLosesIff`, `Conservation.RunAccounts`, run: `IndexRuns.IndexBlockRun`).
- Extending asks the allocator for all the bytes added, not only for those the allocation lacks
  (`Contents.ExtendContent`).
- Every inode number loads as 0 (`Codec.InoLoadsAsZero`, `Codec.InoSurvivesIff`); indirect extents
  are saved big-endian and read back unconverted, and none is even legal then
  (`Codec.IndexBlockReload`). The machine is taken to be little-endian.
- A failed directory-block write does not show in the return code of the table write
  (`Persistence.WriteFiletable`), nor a superblock write that stops short in that of the save
  (`Sync.SyncSuperblock`), nor a superblock or bitmap read that stops short in that of the mount
  (`Sync.InitSuperblock`, `Persistence.InitBlockBitmap`); a free slot of the first batch loads with whatever the buffer
  held (`Persistence.SavedThenLoaded`).

## Model

| member | source | states |
|---|---|---|
| Bitmap.BitPlace | kernel/bitmap.h:8-12 | block b is allocated exactly if bit b % 8, counted from the low end, of byte b / 8 is set |
| Bitmap.IsBlockAllocated | kernel/bitmap.h:8-12 | a block tests allocated exactly when it is in the set the bytes stand for |
| Bitmap.SetBit | kernel/bitmap.h:15-19 | setting a bit adds one block to the set and changes no other bit |
| Bitmap.ClearBit | kernel/bitmap.h:32-36 | clearing a bit removes one block from the set and changes no other bit |
| Bitmap.SetBits | kernel/bitmap.h:22-29 | the range loop is set union with the range |
| Bitmap.ClearBits | kernel/bitmap.h:39-46 | the range loop is set difference with the range |
| Bitmap.LeastFree | kernel/block_bitmap.h:33-46 | the least free block of the data region, none exactly when every block is allocated |
| Bitmap.FindFreeBlock | kernel/block_bitmap.h:33-46 | returns that least free block, or -1 |
| Bitmap.BlockBitmap.TakeFreeBlock | kernel/directory.c:12-20 | finding and marking a block takes exactly the least free one |
| FreeScan.ScanSound | kernel/extent_tree.c:19-48 | emitted extents are free, 1 to 1024 blocks long, in the region and in increasing order |
| FreeScan.ScanCovers | kernel/extent_tree.c:19-48 | from any point of the loop on, a free block is emitted exactly unless it is a skipped 1025th block of its run |
| FreeScan.ScanExact | kernel/extent_tree.c:13-51 | the whole scan: separate free extents that miss exactly the skipped blocks |
| FreeScan.ScanOfFreeRegion | kernel/extent_tree.c:19-48 | in an empty region exactly the blocks at offsets 1024, 2049, ... are left out |
| ExtentOrder.InsertionOrderIrrelevant | kernel/extent_tree.c:67-89 | distinct extents inserted in any sequence give the one strictly ordered list of exactly those extents |
| ExtentTree.RotationKeepsOrder | kernel/extent_tree.c:87-88 | a rotation anywhere keeps the in-order walk |
| ExtentTree.FreeExtentTree.Insert | kernel/extent_tree.c:67-89 | the walk to a null link, the new node and any rebalancing insert into the ordered in-order list |
| ExtentTree.FreeExtentTree.Build | kernel/extent_tree.c:13-51 | the tree's in-order walk is the strictly ordered list of what the scan emits |
| ExtentTree.FreeExtentTree.Destroy | kernel/extent_tree.c:54-64 | visits every node once, in order, and leaves an empty tree |
| Greedy.TakeStops | kernel/extent_alloc.c:43-81 | the loop stops at the first prefix that meets the target, and falls short only for want of extents or slots |
| Greedy.TakenIff | kernel/extent_alloc.c:43-81 | an extent is taken exactly when there is a slot for it and the extents before it hold less than the target |
| Greedy.Overshoot | kernel/extent_alloc.c:41-81 | a met target is exceeded by at most 1023 blocks |
| Greedy.PrefixDominates | kernel/extent_tree.c:77-84 | no choice of m extents holds more blocks than the first m of the order |
| Greedy.FewerNeverSuffice | kernel/extent_alloc.c:41-81 | fewer extents than the loop takes never hold the target, however chosen |
| Allocation.FreeListFacts | kernel/extent_tree.c:13-51 | the list offered to the allocator is strictly ordered, separate, legal, unallocated and misses exactly the skipped blocks |
| Allocation.TargetCovers | kernel/extent_alloc.c:28-29 | the scaled block target covers the bytes asked for and is positive |
| Allocation.TargetIsHalfMore | kernel/extent_alloc.c:28-29 | the target is the least number of whole blocks that hold the bytes, and half as much again, rounded down |
| Allocation.TargetFits64 | kernel/extent_alloc.c:28-29 | the 64-bit target arithmetic does not wrap for 4096-byte blocks |
| Allocation.AllocateConserves | kernel/extent_alloc.c:34-88 | on both return codes: new extents were free and are disjoint, old ones and other fields stay, the bits set are theirs and the index block's, the places suffice, and the code is 0 exactly when they hold the target |
| Allocation.AllocateOvershoot | kernel/extent_alloc.c:28-81 | on success the new blocks number between the target and the target plus 1023 |
| Allocation.AllocateBound | kernel/extent_alloc.c:28-80 | on success the allocation grows by at least the bytes asked for, and it never shrinks |
| Allocation.AllocateSucceedsIff | kernel/extent_alloc.c:14-88 | allocation succeeds exactly when the first extents of the free list, as many as there are places left of 4 + blockSize / 8, hold the target |
| Allocation.OutOfSpaceMeans | kernel/extent_alloc.c:14-88 | -ENOSPC with fewer than 4 + blockSize / 8 extents means every free extent was handed out and only skipped blocks remain free |
| Allocation.AllocateFewest | kernel/extent_alloc.c:41-81 | the allocator uses the fewest extents that can hold its target |
| Allocation.IndexPicked | kernel/extent_alloc.c:34-73 | the index block is the least block free once the first extents are marked, if the loop gets that far |
| Allocation.IndexBlockSharedIff | kernel/extent_alloc.c:31-81 | a new index block is file data too exactly when, by the free list before the call, the loop goes on to the extent that covers it |
| Allocation.IndexBlockOwn | kernel/extent_alloc.c:70-73 | with fewer than four extents before and at most five after, the index block is not file data |
| Translation.OffsetReaches | kernel/file.c:112-137 | the translated offset names the byte the concatenated extents have there; -EFAULT exactly past them |
| Translation.AvailableIsContiguous | kernel/file.c:140-158 | the bytes reported available are at least one, and consecutive in the storage from the translated offset |
| Translation.OffsetInjective | kernel/file.c:112-137 | two offsets of a file never translate to the same byte |
| Translation.OffsetOnto | kernel/file.c:112-137 | every byte of the extents is some offset of the file |
| Translation.ExactIffAddressable | kernel/file.c:123-128 | the 32-bit products are right for all legal extents exactly when the last block is addressable |
| Translation.LargeStorageAliases | kernel/file.c:128 | beyond 2^20 data blocks two separate extents translate to one byte |
| Translation.OffsetInData | kernel/file.c:279-283 | the writer's guard stops exactly past the end of the allocation |
| Translation.ChunkIsBytewise | kernel/file.c:290-298 | one storage write within the available bytes equals writing byte by byte |
| Translation.WriteSplicesFile | kernel/file.c:275-307 | a write splices the file's own bytes, however many extents it crosses |
| Translation.WriteKeepsOthers | kernel/file.c:275-307 | a file with disjoint blocks keeps its bytes |
| Ownership.AllocateKeepsInv | kernel/extent_alloc.c:19-89 | allocation keeps ownership whether it succeeds or not |
| Ownership.WriteKeepsInvIff | kernel/file.c:250-316 | a write keeps ownership and size within allocation exactly unless it writes no bytes past the allocation |
| Ownership.NextKeepsInv | kernel/inode.c:133-464 | every operation keeps blocks legal, allocated and disjoint, free slots zero, sizes within allocations |
| Ownership.RunKeepsInv | kernel/inode.c:133-464 | so does every run |
| Ownership.NoBlockHasTwoOwners | kernel/inode.c:161-168 | after any run from a fresh filesystem a block has at most one owner, a slot in use, and its bit is set |
| Contents.WriteRefinesSplice | kernel/file.c:245-328 | a successful write within the file, at the end if appending, splices its content and sets the size to the larger of old size and end |
| Contents.ReadBack | kernel/file.c:275-317 | the range just written holds the written bytes |
| Contents.AppendContent | kernel/file.c:245-248 | a successful write in append mode adds its bytes at the end, whatever the position was |
| Contents.WriteSucceedsIff | kernel/file.c:250-323 | a write within the file succeeds exactly when the allocation covers it or the free list can supply the blocks asked for, and the storage takes every byte |
| Contents.NoSpaceIff | kernel/file.c:250-259 | a write returns -ENOSPC exactly when there is no room by the state before the call |
| Contents.WriteLands | kernel/file.c:275-323 | with room, exactly the bytes that fit the allocation and precede the storage's falling short land; the size follows and the count is returned if they are all, otherwise the size stays and it is -EIO |
| Contents.WritePastEnd | kernel/file.c:245-323 | a write beyond the end succeeds exactly when, by the state before the call, there is room, every byte is taken and it ends within the allocation the free list gives; it keeps the old content and puts its bytes at the position |
| Contents.FailedWrite | kernel/file.c:254-259 | a failed write keeps the size and every byte outside its range; on -ENOSPC all of it |
| Contents.WriteKeepsMetadata | kernel/file.c:275-307 | a write changes no byte below the data region and no directory block |
| Contents.FilesNeverShareBytes | kernel/file.c:112-137 | offsets of different files never translate to the same byte |
| Contents.OthersUntouched | kernel/file.c:231-329 | whatever the operation returns, a file it is not about keeps its slot and every byte |
| Contents.NextKeepsContent | kernel/file.c:97-228 | an operation that does not write, resize or unlink a file, reading and closing it included, keeps its content |
| Contents.RunKeepsContent | kernel/file.c:231-329 | over a run a file keeps its content until it is written, resized or unlinked |
| Contents.ExtendContent | kernel/inode.c:438-464 | extending keeps the content as a prefix; the size becomes the new one exactly when the allocation covers it or the free list can supply the blocks asked for |
| Contents.TruncateContent | kernel/inode.c:394-404 | truncating to zero empties the file and returns exactly the blocks it owned |
| Contents.ExtendSucceedsIff | kernel/inode.c:438-464 | extending succeeds exactly when the allocation covers the new size or the free list can supply the blocks asked for |
| History.NextAgrees | kernel/file.c:231-329 | a byte-sequence model that knows nothing of blocks, updated by one operation, still has the slot's length and every byte it knows right |
| History.RunAgrees | kernel/file.c:231-329 | so it does over any run of any operations on any slots |
| History.ContentIsHistory | kernel/file.c:231-329 | after any run from a fresh filesystem each file's length and bytes are what its successful writes, extensions and truncations make them |
| Conservation.NextAccounts | kernel/inode.c:311-318 | every operation keeps the index-block invariant, brings no lost block back, and loses exactly an unlinked file's index block that is not the file's own data |
| Conservation.UnlinkLosesIff | kernel/inode.c:311-318 | after any run, unlinking a file loses its index block exactly when the block is not among the file's extents |
| Conservation.NextSharesIff | kernel/extent_alloc.c:31-81 | a file's index block is among its data after an operation exactly if it was before and the file was not unlinked, or the operation's allocation meets the condition of the allocator |
| Conservation.RunSharesNone | kernel/extent_alloc.c:31-81 | over a run in which no allocation meets that condition no index block is ever file data |
| Conservation.RunAccounts | kernel/inode.c:133-464 | over any run the blocks no slot accounts for are those before it and the index blocks lost at its unlinks |
| Conservation.EveryBlock | kernel/inode.c:133-464 | after any run from a fresh filesystem a block is allocated exactly if a slot claims it or an unlink lost it, never both |
| Conservation.EmptyAgain | kernel/inode.c:254-333 | once only the root is left, the root's block and the lost index blocks are all that is allocated |
| IndexRuns.IndexBlockRun | kernel/extent_alloc.c:31-81 | in every fresh filesystem with eight stretches of 1025 free blocks: create and extend one file, then another; the second one's index block is among its data, the first one's is its own and is lost at its unlink |
| FirstFile.OneExtent | kernel/extent_alloc.c:41-81 | with one block of the data region taken, a demand of up to 1024 blocks that fits the rest is met without an index block |
| FirstFile.FileLife | kernel/inode.c:133-333 | in every fresh filesystem create, write, unlink is a run: data that fits one extent is written and is the file's content, and afterwards only the directory's block is allocated |
| FirstDirectory.DirectoryLife | kernel/inode.c:190-333 | in every fresh filesystem with two data blocks: make a directory, create and unlink a file in it, remove it; it had a block and only free entries, and then slot, block and name are gone |
| Outcomes.ModeBits | kernel/inode.c:222-227 | files are the modes 0x8000 to 0x8fff, directories 0x4000 to 0x4fff |
| Outcomes.CreateOutcome | kernel/inode.c:133-251 | the first free slot gets every field: create its mode and number, mkdir S_IFDIR with the permission bits, its number and the parent's; the parent is loaded, taking the first free block and blockSize / 68 free entries, and its first free entry gets the name |
| Outcomes.CreateFails | kernel/inode.c:152-158 | without a free slot create and mkdir change nothing |
| Outcomes.UnlinkOutcome | kernel/inode.c:296-333 | every field of the slot is zeroed, exactly the blocks of its extents are freed, exactly the entries with the name are cleared |
| Outcomes.RmdirOutcome | kernel/inode.c:254-293 | a directory without a block or without a used entry is zeroed, its block freed and its name cleared; with any other nothing changes |
| Outcomes.WriteOutcome | kernel/file.c:250-261 | a write adds exactly the extents taken for the bytes the allocation lacks, with their blocks and that of a new index block, and changes no other slot and no other field but the size |
| Outcomes.SetSizeOutcome | kernel/inode.c:389-494 | the same size changes nothing, 0 drops the extents and frees exactly their blocks, a larger size adds exactly the extents taken for all the bytes added, if the allocation does not cover it |
| Outcomes.ReadOutcome | kernel/file.c:176-181 | reading changes nothing unless the file has four extents and no index array; then the array is present and, if it had no block, the first free one is its |
| Outcomes.ReleaseOutcome | kernel/file.c:97-109 | closing drops the index array and changes nothing else |
| Outcomes.LookupOutcome | kernel/inode.c:336-376 | looking up brings the directory into memory and changes nothing else |
| Names.AddIsUpdate | kernel/directory.c:115-125 | adding a fresh name is map update, or nothing when the directory is full |
| Names.FindIsLookup | kernel/directory.c:142-152 | finding a name is map lookup |
| Names.RemoveIsRemoval | kernel/directory.c:170-179 | removing a name is map removal |
| Names.AllFreeIsEmpty | kernel/directory.c:89-97 | no used slot exactly when the map is empty |
| Namespace.NamedByExactlyOne | kernel/inode.c:170-175 | a slot in use other than the root is named by exactly one entry |
| Namespace.ClaimKeepsNamedIff | kernel/inode.c:153-175 | create and mkdir keep the namespace exactly when the parent had a free entry |
| Namespace.UnlinkKeepsNamed | kernel/inode.c:307-320 | unlink keeps the namespace |
| Namespace.RmdirKeepsNamedIff | kernel/inode.c:266-281 | rmdir keeps it exactly when the directory is empty or has a block |
| Namespace.NextKeepsNamed | kernel/inode.c:133-333 | every operation keeps it when a created name finds an entry and a block |
| Namespace.RunKeepsNamed | kernel/inode.c:133-333 | so does every such run: entries name slots in use, each once, all reachable from the root |
| Namespace.LookupIsExact | kernel/inode.c:336-376 | a name resolves to the one slot in use that carries its number, which is then what unlink and rmdir require; a name that does not resolve is not in the directory |
| Lookups.NextResolves | kernel/inode.c:133-376 | what every operation does to every lookup: create and mkdir add exactly the new name, unlink and rmdir take exactly that one away, all else resolves as before |
| Lookups.RmdirIff | kernel/inode.c:254-293 | a directory without a block or without names is removed and its name no longer resolves; any other stays and resolves as before |
| Lookups.NewDirectoryIsEmpty | kernel/inode.c:190-251 | in a directory just made no name resolves |
| Orphans.RmdirOrphans | kernel/inode.c:254-293 | in every fresh filesystem with one data block: make a directory, create a file in it, remove the directory; the file is in use under no name |
| Orphans.CreateOrphans | kernel/directory.c:101-128 | in every fresh filesystem with the slots for it: after one creation more than the root has entries the last file is in use under no name |
| Codec.FileRoundTrip | kernel/super.c:95-115 | a file entry with at most four extents loads back whole but for its inode number |
| Codec.DirRoundTrip | kernel/super.c:224-236 | a directory entry loads back whole but for its inode number |
| Codec.SuperRoundTrip | kernel/super.c:398-420 | a superblock of 32-bit fields decodes from what was encoded |
| DiskFormat.FileLayout | common/shared_structs.h:45-74 | the place and byte order of every field of a file entry; unused places keep what the buffer held |
| DiskFormat.DirLayout | common/shared_structs.h:58-74 | the same for a directory entry |
| DiskFormat.FreeLayout | kernel/super.c:264-288 | a free slot leaves its place in the buffer as it was |
| DiskFormat.DecodedLayout | kernel/super.c:516-546 | what a mount takes from any 52 bytes, field by field |
| DiskFormat.NamesLayout | kernel/directory.h:17-21 | every entry of a directory block: 64 bytes of zero-padded name and the number |
| DiskFormat.SuperLayout | common/shared_structs.h:25-43 | the place and byte order of every superblock field |
| DiskFormat.SuperDecoded | kernel/super.c:398-420 | what a mount takes from any 60 bytes |
| Codec.InoLoadsAsZero | kernel/super.c:521 | any four stored bytes decode to inode number 0 |
| Codec.InoSurvivesIff | kernel/super.c:516-546 | an inode number survives saving and loading exactly when it is 0 |
| Codec.IndexNeverReloads | kernel/extent_alloc.c:112-118 | no legal extent comes back from the index block, and what does is not a legal extent |
| Codec.IndexBlockReload | kernel/super.c:140-147 | the same for every entry of a saved index block |
| Codec.NamesRoundTrip | kernel/directory.c:66-76 | the slots written to a directory's block are the slots loaded from it |
| FileSystem.PutExtentAppends | kernel/extent_alloc.c:63-77 | direct and indirect places together behave as one sequence that grows by the new extent |
| FileSystem.FullIffPlacesUsed | kernel/extent_alloc.c:14-17 | the limit is reached exactly when the four direct places and the whole index array are in use |
| FileSystem.Superblock.MakeRoot | kernel/super.c:684-698 | the root takes the first free slot; an empty table becomes a fresh filesystem |
| FileSystem.Superblock.AllocIndirectExtents | kernel/extent_alloc.c:92-121 | makes the array present: zeros and the least free block, reserved the first time, or what was read of its block; each return code exactly |
| FileSystem.Superblock.TakeExtent | kernel/extent_alloc.c:51-77 | one round marks the extent and appends it |
| FileSystem.Superblock.GrabLoop | kernel/extent_alloc.c:41-81 | the loop computes the greedy allocation |
| FileSystem.Superblock.AllocateMemory | kernel/extent_alloc.c:19-89 | the whole allocation, with its return code |
| FileSystem.Superblock.GetAllocatedSize | kernel/extent_alloc.c:124-135 | the bytes of all extents in use |
| FileSystem.Superblock.CalcGlobalOffset | kernel/file.c:112-137 | the loop computes the translation |
| FileSystem.Superblock.CalcAvailableBytes | kernel/file.c:140-158 | the loop computes the bytes to the extent's end |
| FileSystem.Superblock.ReadChunk | kernel/file.c:196-211 | one round reads as much as the extent has, exactly the file's bytes there, unless the read falls short |
| FileSystem.Superblock.ReadLoop | kernel/file.c:192-216 | delivers exactly the requested stretch of the file, at least a byte a round, unless a read falls short, and then -EIO |
| FileSystem.Superblock.FileRead | kernel/file.c:161-228 | without a fault delivers content from the position to the count or the end; -EIO only after one; may reserve the index block |
| FileSystem.Superblock.WriteChunk | kernel/file.c:284-306 | one round lands its chunk at the translated offset, or a prefix if the write falls short |
| FileSystem.Superblock.WriteLoop | kernel/file.c:275-307 | the loop does what the byte-by-byte write of the landed bytes does; without a fault all that the allocation takes land |
| FileSystem.Superblock.FileWrite | kernel/file.c:231-329 | the write operation with its return code, -ENOSPC exactly without room, and new position, counted from the end if appending; without a fault no byte falls short |
| FileSystem.Superblock.LoadDirData | kernel/directory.c:23-78 | loads the block's slots unless the read falls short, or makes fresh ones and takes the least free block; 0 even without one |
| FileSystem.Superblock.DeAdd | kernel/directory.c:101-128 | loads the directory if need be and enters the name in the first free slot; -ENOTDIR exactly for no directory |
| FileSystem.Superblock.DeFind | kernel/directory.c:130-153 | loads the directory if need be and finds the first slot with the name |
| FileSystem.Superblock.DeRemove | kernel/directory.c:156-182 | loads the directory if need be and clears every slot with the name |
| FileSystem.Superblock.IsDirEmpty | kernel/directory.c:81-98 | true exactly without a block or with no entry of the loaded directory in use |
| FileSystem.Superblock.SlotOfNumber | kernel/inode.c:49-60 | the first slot that carries the number |
| FileSystem.Superblock.Lookup | kernel/inode.c:336-376 | the lookup operation: the slot the name stands for |
| FileSystem.Superblock.FindFreeFileEntry | kernel/inode.c:31-46 | the first free slot, none exactly when all are in use |
| FileSystem.Superblock.Create | kernel/inode.c:133-188 | the create operation, -ENOSPC exactly when no slot is free |
| FileSystem.Superblock.Mkdir | kernel/inode.c:190-251 | the mkdir operation, -ENOSPC exactly when no slot is free |
| FileSystem.Superblock.FreeExtents | kernel/inode.c:311-317 | clears exactly the blocks of the entry's extents |
| FileSystem.Superblock.Unlink | kernel/inode.c:296-333 | the unlink operation |
| FileSystem.Superblock.Rmdir | kernel/inode.c:254-293 | the rmdir operation; 0 exactly for a directory without a block or without names, whose slot is then zero, otherwise -ENOTEMPTY |
| FileSystem.Superblock.TruncateToZero | kernel/inode.c:394-404 | clears the blocks, drops the extents and sets both sizes to 0 |
| FileSystem.Superblock.Extend | kernel/inode.c:438-464 | sets both sizes when the allocation covers or is made to cover them |
| FileSystem.Superblock.SetSize | kernel/inode.c:478-494 | selects truncate or extend; 0 exactly if the size does not grow or can be extended, and then both sizes are the new one; otherwise -ENOSPC and the old one |
| FileSystem.Superblock.ReleaseFile | kernel/file.c:97-109 | drops the indirect array |
| Persistence.BatchFillsBuffer | kernel/super.c:251-252 | definition check: a batch is as many entries as the write buffer holds |
| Persistence.FillFileData | kernel/super.c:95-115 | stores a file entry's fields in place over what the buffer held |
| Persistence.FillDirData | kernel/super.c:224-236 | stores a directory entry's fields in place |
| Persistence.WriteDirData | kernel/super.c:170-221 | writes the encoded slots at the directory's block; a prefix and an error exactly if the write falls short |
| Persistence.SyncEntry | kernel/super.c:264-288 | one entry: its cell is encoded, its directory block stored unless its write falls short, other stored directories kept |
| Persistence.FillBatch | kernel/super.c:263-288 | one batch: every cell holds its slot's encoding, and the directories not stored are those whose writes fell short |
| Persistence.WriteBatch | kernel/super.c:261-300 | one round: the batch joins the stored table and the used cells are zeroed; -EIO exactly if the table write falls short |
| Persistence.WriteFiletable | kernel/super.c:239-304 | fails exactly if a table write falls short; on success every slot is at its own place however many batches it took, and every directory is stored but those whose own writes fell short, which the code does not report |
| Persistence.InitFiletable | kernel/super.c:471-551 | every entry of the region is decoded over the memory it lands in, unless the read falls short |
| Persistence.SavedThenLoaded | kernel/super.c:516-546 | what the table write stored decodes to the same slots but for the inode number |
| Persistence.SavedDirLoads | kernel/directory.c:66-76 | a stored directory block decodes to the directory's slots |
| Persistence.WriteBlockBitmap | kernel/super.c:306-349 | writes the bitmap bytes to the region; a prefix and an error exactly if a write falls short |
| Persistence.InitBlockBitmap | kernel/super.c:554-582 | reads the region into the bitmap; a short read passes for success and leaves the rest as it was |
| Persistence.BitmapRoundTrip | kernel/super.c:554-582 | saved and loaded bitmap bytes allocate the same blocks |
| Sync.SyncSuperblock | kernel/super.c:60-92 | writes the encoded superblock at the start, or a prefix; the code is negative only if nothing was written, so a short write passes for success |
| Sync.SyncTables | kernel/super.c:362-375 | table and bitmap are both stored, neither disturbs the other or the directories, and whatever it returns it changes only bytes from the table to the data region and directory blocks |
| Sync.SyncFs | kernel/super.c:351-388 | superblock, table and bitmap in turn; there was no fault exactly if it succeeds with the superblock whole and no directory missed, and on success all three are stored; whatever it returns it changes only bytes below the data region and directory blocks |
| Sync.InitSuperblock | kernel/super.c:423-468 | decodes what was read, over what the buffer held; a short read passes for success |
| Sync.LoadTables | kernel/super.c:616-630 | without a fault the table is decoded and the bitmap read whole; after one, the bitmap read so far is the stored one and the rest is as before |
| Sync.Mount | kernel/super.c:585-633 | the same from the superblock on; without a fault, and only then, it succeeds with the whole bitmap |
| Saveable.ReachableEncodable | kernel/super.c:239-304 | every reachable table without a file of more than four extents fits its encoding |
| Saveable.SaveKeepsFiles | kernel/super.c:239-349 | saving leaves every file's bytes alone |
| Saveable.SavesAndLoads | kernel/super.c:516-546 | every slot in use loads back: a file with its extents, index block and bytes, a directory with its block and, if that was written, its entries; only inode numbers are lost |
| Saveable.RunSavable | kernel/super.c:239-304 | a run whose creations find room and whose files have at most four extents ends in a state that can be saved |
| Saveable.MountSaved | kernel/super.c:585-633 | a mount without a fault of a whole save gives back the superblock, the bitmap and every slot in use |
| Saveable.SyncAndMount | kernel/super.c:351-388 | a save and a mount without a fault succeed and give back the superblock, the bitmap and every slot in use |
| Saveable.RunSyncAndMount | kernel/super.c:351-388 | the same after every such run |
| Saveable.FormattedIsFree | user/StorageManager.cpp:145-172 | a formatted entry decodes to a free slot |
| Layout.LayoutExactIff | user/StorageManager.cpp:62-91 | the layout of any number of GiB is free of 32-bit wrap exactly below 16384 GiB |
| Layout.LayoutTiles | user/StorageManager.cpp:66-82 | the regions follow each other exactly, the table holds its entries and the bitmap a bit for every block |
| Layout.LayoutUsable | user/StorageManager.cpp:62-91 | loop counters suffice exactly below 8192 GiB, 32-bit byte offsets up to 4 GiB |
| Layout.WriteFileTable | user/StorageManager.cpp:127-178 | the buffered loop zeroes exactly the table's entries |
| Layout.WriteBlockBitmap | user/StorageManager.cpp:181-212 | the loop zeroes exactly the bitmap region |

## Left out

- Partial truncation: the loop counts up from the last extent and runs past the array, so only truncation to zero with at most four extents is modelled.
- SetSize: shrinking is required to be to size 0 with at most four extents, as above.
- ReleaseFile: requires at most four extents; with more the indirect array is dropped unsaved, and the next write follows a null pointer.
- WriteFiletable: requires at most four extents; with more the encoding loop writes past its entry. With at most four `portfs_write_file_data` has nothing to write.
- FillFileData: requires at most four extents, as WriteFiletable does.
- SyncEntry: requires at most four extents, as WriteFiletable does.
- FillBatch: requires at most four extents, as WriteFiletable does.
- WriteBatch: requires at most four extents, as WriteFiletable does.
- SyncFs: requires the superblock's 60 bytes to lie below the table, as the tool lays them out; the final `vfs_fsync` is not part of this model. The times and flags of the superblock are never set and stay 0.
- Mount: requires that the stored superblock gives a valid geometry that fits the storage, since the code checks none of it; stops after a superblock read that stopped short, where the code goes on with what its buffer held.
- SyncAndMount: mounts only a storage whose superblock was written whole, for the same reason.
- RunSyncAndMount: requires that creations found room, since an orphan slot or entry has no name to come back under, and at most four extents.
- FileRead: requires an addressable geometry, because translation is wrong beyond it; the exact condition is `Translation.ExactIffAddressable`.
- ReadChunk: requires an addressable geometry, as FileRead does.
- ReadLoop: requires an addressable geometry, as FileRead does.
- WriteChunk: requires an addressable geometry, as FileWrite does.
- WriteLoop: requires an addressable geometry, as FileWrite does.
- FileWrite: requires an addressable geometry and no write of no bytes past the allocation; the exact conditions are `Translation.ExactIffAddressable` and `Ownership.WriteKeepsInvIff`.
- LoadDirData: after a read that fell short the array is absent, where the code keeps a pointer to the array it has just freed.
- DeAdd: after a load that fell short the code goes on with the array it has just freed; the model stops there, with the state unchanged.
- DeFind: stops after such a load, as DeAdd does.
- DeRemove: stops after such a load, as DeAdd does.
- IsDirEmpty: stops after such a load, as DeAdd does.
- The union of file and directory data: modelled as separate fields, since the mode never changes while a slot is in use.
- Free slots after a mount: their union keeps what the allocation held, so runs start from a zeroed table.
- A second mount continuing a run: inode numbers load as 0, so names no longer resolve.
- Names of 64 bytes: they are not terminated, so names are 1 to 63 bytes.
- Bytes of holes and extended ranges: the code does not zero them, so they are whatever the storage held.
- Red-black colours and heights: they are the kernel library's; only order is modelled.
- `portfs_iterate_shared`: what it does to the state is what a lookup in the directory does; the entries it emits are not modelled.
- `portfs_get_fe_root`, inode cache, permissions, timestamps, memory exhaustion, copying to and from user space, concurrency: foreign calls or plumbing.
