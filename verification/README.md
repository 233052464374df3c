# LumaOS: storage, memory and process management, verified in Dafny

A model of the parts of LumaOS that carry real invariants, with proofs about all inputs,
all reachable images and all runs.

**The disk.** The disk is a flat array of 8192 blocks of 512 bytes. Everything the file
system keeps there is kept as bytes: the two bitmaps, the inode table of 70-byte records (of
which only the first 2048 of 2240 bytes reach the disk), the pointer tables of 128
little-endian words, and directory blocks made of records with a 9-byte header. No structure
is assumed to be apart from another one; that data blocks, pointer tables, bitmaps and other
files do not overlap is proved.

**Modules.** `Bytes`, `Bitmap`, `Layout` are the encodings and their round trips.
`BlockTree`, `Growth`, `Contents` say what the pointers of an inode mean (a *slot* is a place
where a pointer can stand: direct, in the single indirect table, in the table of tables, or
in an inner table), how a tree grows and what a file contains. `Volume`, `FileStore`, `Files`
are the operations on the disk, `Release`, `Teardown`, `Truncation` the three ways to give
blocks back. `Directory` is a directory block as the kernel's system calls treat it,
`DirSlots` as the file system proper treats it. `FsState` says what stays true of the whole
file system, `FsEffects` what the two kinds of change do to it: a new inode with an entry, and
an entry removed with its inode. `FsStaging`, `FsOps`, `FsDelete`, `FsMove` are the system
calls that create, copy, delete and move; `FsFormat` is formatting, `FsWrite` is write, read
and delete. `FsRuns` is about runs of all six changing calls, `FsOutcomes` about when each call
ends in which result code, in terms of names, live inodes, blocks and bytes of room, `FsFresh`
about directories that were just made, `FsBoot` about the disk the machine boots from, `FsLow` about block numbers over runs, `FsTidy` about the tree of
directories, `FsBooks` about what write and delete count. `Paging`, `Process`, `Scheduler`,
`StalePids` are page frames, page directories, processes and the round-robin scheduler;
`Paths` is the path normaliser of the shell.

**Two invariants.** *Kempt* is what every operation keeps: nothing shares a block, everything
reachable is in use, directories are tiled by records, and every used entry leads to a live
inode that no other entry leads to. *Healthy* adds what the system calls rely on: no empty
slots, unique names, "." in front. The six calls keep it from formatting on, except when a
write takes the place of the only record of a directory, which is stated exactly
(`FsWrite.WrittenHealthy`).

**How it is built.** Methods change arrays and objects step by step where the source does,
and their contracts tie the new state to a specification function or predicate over images
(`Grown`, `Written`, `Grafted`, `Uprooted`, `Assigned`, `Created`, ...). The lemmas are about
those specifications. Local C buffers are local values or arrays.

**What turned out false of the code** is stated exactly: an inode record survives the disk
only in the first 29 of the 32 slots (`Layout.InodeRoundTrip`), so a write is not always read
back (`FsWrite.WriteThenRead`) and a deletion does not always free what a write took
(`FsBooks.WriteThenDelete`); a copy equals its source only as far as the direct blocks go
(`FsMove.CopyFaithful`); a removal leaks every pointer table and every block under one
(`FsMove.RemovalLeaks`); a directory made in one of the last two inode slots loses its block
(`FsFresh.CreatedIsMade`, `FsFresh.MadeThenRemoved`); write reports success for a file that no directory leads to
(`FsWrite.WriteLosesFile`) and overwrites the last record of the parent instead of adding one
(`DirSlots.AddInodeToDir`), which loses "..", or "." (`FsWrite.WrittenHealthy`), or another
file's name (`FsTidy.WrittenTidy`); a fresh directory never counts as empty
(`FsWrite.FreshNotDeletable`); the two lookups differ on names with a NUL
(`DirSlots.LookupsAgree`); truncation frees blocks of the double indirect region but leaves
them mapped (`Truncation.TruncatesExactly`, `Truncation.TruncationSound`) and miscounts what is
left (`Truncation.TruncatedCount`); process creation asks for frames in the wrong unit
(`Process.CheckIsByteCount`, `Process.ShortageAccepted`), can overflow the size
(`Process.FramesNeededExact`), so that the largest images pass the check
(`Process.CreateOutcomeExact`), and does not notice when pages are refused
(`Process.LoadedWhole`); destroying by a stale pid breaks the table
(`Process.DestroyedSane`) and takes the memory of a live process that has been given the same
page directory (`Process.DestroyedSpares`, `StalePids.StaleReachable`).

**Where code and documentation disagree** the model follows the code:
`src/header/memory/paging.h:114-120` documents a byte count where `src/process.c:93` passes a
frame count; `src/header/filesystem/ext2.h:207-217` asks for records aligned on 4 bytes,
which the system calls of `src/interrupt.c` do not do; the "Second Extended File System"
document, sections "Inode Table" and "Linked List Directory", has other sizes than the
512-byte blocks, 70-byte inodes and 9-byte record headers of the code.

**Preconditions.** They are what the code needs and does not check. Storing needs enough clear
bits, since a failed allocation inside a file goes unnoticed (`src/ext2.c:147-230`). Freeing
needs block numbers below 1024, since the free functions divide by the 1024 blocks of the only
group (`src/ext2.c:789-800`); it is asked only of the blocks that a call frees, that is of the
target of a removal and of the fresh blocks of a call that fails and rolls back. First fit
keeps to that as long as no more than 1024 blocks are in use (`FsLow.RunLow`), and also on a
disk that is full (`FsBoot.DiskFull`). Parents are live inodes; delete_directory is not called
for "." and "..", and read and delete not for a ".." whose directory is gone. A second process
is only created once one has been scheduled, because the slot search reads at `cur_idx - 1`
(`src/process.c:34-38`). The scheduler needs an active process, or its search never ends. Paths
fit the 256-byte buffers.

## Model

| member | source | states |
|---|---|---|
| Bytes.TableRoundTrip | src/ext2.c:171-180 | a pointer table of 128 words that is encoded little-endian into a block decodes to the same table |
| Bytes.ZeroBlockIsZeroTable | src/ext2.c:165-168 | a block cleared to zero is a table of 128 empty pointers |
| Bytes.LittleEndian | src/ext2.c:171-180 | numbers on the disk have their least significant byte first |
| Bitmap.BitOfIsMask | src/ext2.c:44 | bit k of a byte in arithmetic is what the machine test with the mask 1 << k sees |
| Bitmap.OrIsMachine | src/ext2.c:56 | forcing bit k to one in arithmetic is the machine operation with the mask |
| Bitmap.AndNotIsMachine | src/ext2.c:69 | forcing bit k to zero in arithmetic is the machine operation with the inverted mask |
| Bitmap.SetBitMarks | src/ext2.c:580 | setting a bit of a bitmap block adds exactly that index to the marked ones |
| Bitmap.ClearBitUnmarks | src/ext2.c:798 | clearing a bit removes exactly that index |
| Bitmap.MarkedDetermines | src/ext2.c:795-799 | two bitmap blocks that mark the same indices are equal byte for byte |
| Bitmap.FirstFitBound | src/ext2.c:575-585 | first fit never returns an index above the number of blocks in use |
| Bitmap.SetThenClear | src/ext2.c:567-589 | taking a free bit and giving it back leaves the block as it was |
| Layout.ReadAfterWrite | src/ext2.c:1014-1025 | after sync_node, read_inode gives what fitted the persisted bytes for that inode and the old record for every other |
| Layout.NodeBytes | src/ext2.c:745-781 | which bytes of blocks 5 to 8 hold kind, size, block count and each pointer of an inode |
| Layout.IsDirectoryIsMask | src/ext2.c:740-743 | the arithmetic test for a directory is the machine test with the mask 0x4000 |
| Layout.KeptBlock | src/ext2.c:1014-1025 | kind, block count and first block of a record reach the disk up to inode 30, and nothing of it from 31 on |
| Layout.InodeRoundTrip | src/ext2.c:745-781 | an inode survives sync_node and read_inode if and only if its slot is at most 29, or its lost fields were zero anyway |
| Layout.SyncSame | src/interrupt.c:571 | writing a record back unchanged changes no inode |
| Layout.InodeMarked | src/ext2.c:47-58 | setting an inode bit makes exactly that inode live |
| Layout.InodeUnmarked | src/ext2.c:60-71 | clearing an inode bit frees exactly that inode |
| BlockTree.DataSlotInjective | src/ext2.c:102-145 | two logical blocks never share a pointer slot across the three tiers |
| BlockTree.PtrFrame | src/ext2.c:102-145 | an image with the same pointer tables gives the same pointers in every slot |
| BlockTree.TreeAfterLink | src/ext2.c:160-230 | linking a block that was free keeps all reachable blocks distinct, in use and outside the reserved ones |
| Growth.GrownTransitive | src/ext2.c:147-230 | growing by two sets of slots one after the other is growing by their disjoint union |
| Growth.PathStep | src/ext2.c:160-230 | after part of the path was filled, what is left to fill is exactly the rest of the empty slots |
| Growth.MappedNeedsNothing | src/ext2.c:147-230 | a logical block that is mapped has no empty slot on its path |
| Contents.StoredReadsBack | src/ext2.c:235-329 | a file whose blocks hold the zero-padded chunks of a buffer reads back as that buffer |
| Contents.ContentFrame | src/ext2.c:235-282 | a file keeps pointers and bytes as long as blocks in use outside the reserved area keep theirs |
| Contents.LookupOnDisk | src/ext2.c:102-145 | the block behind a logical index, by the words of the tables on the disk: 12 direct, then 128, then 128 times 128 |
| Contents.ByteOnDisk | src/ext2.c:235-282 | each byte of a file, by its place in the physical block, zero where none is mapped |
| Contents.NewInPath | src/ext2.c:147-230 | the k-th block of a file needs one block more than the number of pointer tables that become necessary with it |
| Contents.WrittenGrows | src/ext2.c:287-329 | one more logical block keeps all that holds of a partly stored file: no aliasing, nothing of others touched, exact count of bits |
| Contents.GrowthIsUpdate | src/ext2.c:147-230 | allocating a logical block is a one-point update of the map from logical to physical blocks, with a fresh value, and keeps all data |
| Contents.StoringHarmsNobody | src/ext2.c:287-329 | storing a file leaves every other file's bytes and pointers alone and shares no block with it |
| Volume.Volume.ReadBlock | src/external-inserter.c:23-32 | returns the block's bytes |
| Volume.Volume.WriteBlock | src/external-inserter.c:34-43 | replaces one block and no other |
| Volume.Volume.AllocateBlock | src/ext2.c:567-589 | takes the least free block and marks exactly it; fails exactly when all 4096 bits are set, and then changes nothing |
| Volume.Volume.SetBlockFree | src/ext2.c:789-800 | unmarks exactly that block and writes nothing but the bitmap |
| Volume.Volume.DeallocateBlock | src/ext2.c:1049-1078 | unmarks the block and raises both counters by one, modulo their field widths; block 0 is ignored |
| Volume.Volume.AllocateNode | src/ext2.c:991-1012 | takes the least free inode number; 0 exactly when all 32 are in use |
| Volume.Volume.ClearInodeUsed | src/ext2.c:60-71 | clears one inode bit |
| Volume.Volume.ReadInode | src/ext2.c:745-781 | returns the record as read through the persisted part of the table |
| Volume.Volume.WriteTable | src/ext2.c:1024 | stores the first 2048 bytes of the table and touches nothing but blocks 5 to 8 |
| Volume.Volume.SyncNode | src/ext2.c:1014-1025 | overwrites one record, as far as it is persisted, and no other block |
| FileStore.GetPhysicalBlock | src/ext2.c:102-145 | the imperative table walk returns what the pointer structure says for every index, 0 outside |
| FileStore.AllocateLogicalBlock | src/ext2.c:147-230 | fills exactly the empty slots on the path with distinct free blocks, returns the block that is then mapped, and changes nothing when the index was mapped or is too large |
| FileStore.AllocateSingle | src/ext2.c:163-185 | the same for the single indirect region |
| FileStore.AllocateDouble | src/ext2.c:186-228 | the same for the double indirect region |
| Files.AllocateNodeBlocks | src/ext2.c:287-329 | stores any buffer in a fresh inode: afterwards the file content is the buffer, nothing is aliased, and exactly the data and table blocks were taken |
| Files.ReadInodeData | src/ext2.c:235-282 | the caller's buffer receives the file content up to the smaller of the two sizes and is untouched behind it |
| Release.FreeListExact | src/ext2.c:334-397 | the blocks the nested loops visit are, without repetition, exactly the blocks the inode reaches |
| Release.ReleaseUndoesStore | src/ext2.c:287-397 | freeing a stored file of k blocks restores the set of used blocks, and frees k plus 0, 1 or 2 + ceil((k - 140) / 128) blocks |
| Release.StoredIsFreeable | src/ext2.c:789-800 | what was stored while at most 1024 blocks were in use lies in the group that the free functions can reach |
| Teardown.DeallocateNodeBlocks | src/ext2.c:334-397 | clears exactly the listed bits, writes nothing but the bitmap, and empties the record's pointers |
| Teardown.StoreThenFree | src/ext2.c:287-397 | storing a file and freeing it restores the block bitmap byte for byte |
| Teardown.BumpedIsSum | src/ext2.c:1073-1077 | n single increments with wrap-around are one addition modulo the field width |
| Teardown.DeallocateIndirectBlock | src/ext2.c:1083-1108 | the recursive walk frees a table of any level with everything under it and counts every block |
| Teardown.DeallocateInodeBlocks | src/ext2.c:1113-1151 | frees the blocks that the size implies, raises both counters by exactly their number modulo the widths, and resets the pointers it visited |
| Teardown.ResetWhole | src/ext2.c:1113-1151 | for a file whose blocks are all there, the pointers that the teardown resets are all of them |
| Teardown.TeardownsAgree | src/ext2.c:334-397 | for every stored file the nested loops and the recursive walk free the same blocks |
| Truncation.DeallocateLogicalBlockRange | src/ext2.c:1156-1220 | pointers, bitmap and block count after removing a range: the range is unmapped below block 140, the listed blocks are free and counted, and i_blocks is the code's estimate |
| Truncation.TruncatedMapping | src/ext2.c:1156-1204 | indices outside the range keep their block, those inside below 140 lose it, and the indirect table goes exactly when the range took its last entry |
| Truncation.TruncatesExactly | src/ext2.c:1198-1202 | the whole range ends up unmapped if and only if nothing in it was mapped through the double indirect table |
| Truncation.DroppedExact | src/ext2.c:1160-1196 | the blocks given back are exactly the mapped blocks of the range and, when it was emptied, the indirect table |
| Truncation.DroppedOnce | src/ext2.c:1160-1196 | no block is given back twice, so the counters rise by exactly the number of blocks freed |
| Truncation.TruncationSound | src/ext2.c:1198-1202 | the inode points only at blocks still in use if and only if nothing in the range was mapped through the double indirect table |
| Truncation.TruncatedCount | src/ext2.c:1206-1220 | the new i_blocks of a stored file that was cut at a block is the number of blocks left if and only if no pointer table is left, or the two errors cancel |
| Directory.NamesMatch | src/interrupt.c:407-421 | the length test and byte loop decide equality of the stored and the requested name |
| Directory.ScanFor | src/interrupt.c:395-431 | on a block without empty slots the scan with its stop conditions finds the first record with the name, or ends exactly at the end of the block |
| Directory.FindLast | src/interrupt.c:512-524 | finds the record that ends at the end of the block |
| Directory.RecordBytes | src/interrupt.c:536-552 | which bytes of a record hold inode, length, length of the name, kind and name |
| Directory.RoomExact | src/interrupt.c:507-534 | a name finds room if and only if its record fits behind the last name, in bytes |
| Directory.AppendEntry | src/interrupt.c:507-560 | succeeds exactly when the unused tail of the last record is large enough; then the block lists one entry more, at the end, and the room left shrinks by exactly the new record; otherwise it is unchanged |
| Directory.RemoveEntryAt | src/interrupt.c:662-711 | the predecessor absorbs the record: the block lists the same entries without that one |
| Directory.AppendBinds | src/interrupt.c:507-560 | as a finite map from names, appending a new name adds exactly one binding and keeps names unique |
| Directory.RemoveUnbinds | src/interrupt.c:662-711 | as a finite map, removing a record removes exactly its binding and keeps names unique |
| Directory.EncodedRecord | src/interrupt.c:536-552 | a record written field by field decodes to the same entry |
| DirSlots.LookupsAgree | src/ext2.c:716-738 | find_inode_in_dir, which takes the name as a C string, and the scan of the system calls find the same entry on every block of used records if and only if the name holds no NUL |
| DirSlots.FindInodeInDir | src/ext2.c:716-738 | finds the first used record that carries the C string, stepping over empty slots, inside the block |
| DirSlots.AddInodeToDir | src/ext2.c:597-660 | replaces the last record by the new one exactly when the C string is not empty and its padded size fits, otherwise does nothing; the new record starts where the old one did |
| DirSlots.OverwritableExact | src/ext2.c:623-641 | the last record can be replaced if and only if the padded one fits where it starts, in bytes |
| DirSlots.RemoveInodeFromDir | src/ext2.c:673-702 | the records without the first one that carries the C string; a match at offset 0 becomes an empty slot |
| DirSlots.LooksEmptyExactly | src/ext2.c:662-671 | is_empty_directory says yes exactly when the first record is empty or the only one, or the second is empty, whatever lies behind the block |
| FsState.UnchangedSame | src/interrupt.c:273-294 | when bitmaps, live records and blocks in use are as before, every live inode has its old record, pointers, bytes and entries |
| FsEffects.GraftedKempt | src/ext2.c:498-561 | a new inode, with its entry at the end, over the last record, or nowhere, keeps what every operation keeps: no aliasing, directories tiled, every used entry leads to a live inode that no other leads to |
| FsEffects.GraftedHealthy | src/interrupt.c:299-373 | under a new name it also keeps unique names and "." in front if and only if the entry does not take the place of the only record |
| FsEffects.GraftedOthers | src/interrupt.c:299-373 | every live inode keeps its record and pointers, and apart from the parent also its bytes |
| FsEffects.GraftedMap | src/interrupt.c:507-560 | as maps from names: one binding more in one directory, one less when a record was overwritten, and none changed elsewhere |
| FsEffects.UprootedKempt | src/ext2.c:1242-1273 | removing an entry with its inode and any blocks of its own keeps what every operation keeps |
| FsEffects.UprootedHealthy | src/interrupt.c:640-714 | it also keeps unique names, "." in front and no empty slots |
| FsEffects.UprootedMap | src/interrupt.c:662-711 | as maps from names: exactly the removed binding is gone, and no other directory changed |
| FsEffects.UnchangedHealthy | src/interrupt.c:357-366 | a rolled back operation keeps the file system healthy |
| FsStaging.FirstFitLow | src/ext2.c:567-589 | while enough of the first 1024 blocks are free, or all others are taken, first fit stays below 1024 |
| FsStaging.RolledBack | src/interrupt.c:273-294 | giving back the inode bit and the blocks allocated so far restores both bitmaps |
| FsOps.SearchDirectory | src/interrupt.c:151-190 | finds the first entry with the name in the directory, with its position, inode and type |
| FsOps.AddToDirectory | src/interrupt.c:302-355 | adds the entry exactly when the directory's block has room, otherwise leaves the disk as it was |
| FsOps.NewDirBlock | src/interrupt.c:469-494 | the block of a new directory lists "." and ".." and nothing else, and ".." starts at byte 10, which leaves it all the rest |
| FsOps.CreateDirectory | src/interrupt.c:374-577 | the result code is determined by the image; nonzero means both bitmaps and all live inodes are as before, zero means one fresh empty directory of one block under a new name, with its last record at byte 10 |
| FsOps.Rollback | src/interrupt.c:273-294 | restores the image from before the operation as far as it is visible |
| FsOps.CopyBlocks | src/interrupt.c:252-297 | copies the direct blocks to fresh ones, or gives everything back when the disk fills up in the middle, which happens exactly when too few blocks are free |
| FsOps.CopyFile | src/interrupt.c:127-373 | all or nothing: the result code is determined by the image, nonzero changes nothing visible, zero adds one entry leading to copies of the direct blocks |
| FsDelete.FreeDirectBlocks | src/interrupt.c:653-657 | frees exactly the direct blocks that i_blocks covers |
| FsDelete.DeleteFile | src/interrupt.c:579-714 | the result code is determined by the image; nonzero changes nothing at all, zero removes the entry and its inode and counts every freed block |
| FsDelete.OnlyDots | src/interrupt.c:789-819 | decides whether a block lists nothing but "." and ".." |
| FsDelete.DeleteDirectory | src/interrupt.c:716-886 | the same for directories, whose emptiness `FsOutcomes.DeleteDirectoryExact` says in names |
| FsMove.CopyReads | src/interrupt.c:252-297 | each byte of a copy is the source's byte as far as blocks were copied and kept, and zero behind |
| FsMove.CopySize | src/interrupt.c:252-258 | kind, size and block count of a copy are those of its source, as far as the record reaches the disk |
| FsMove.CopyFaithful | src/interrupt.c:252-297 | a copy equals its source if and only if its record reaches the disk (or the source is empty) and the source is zero behind the kept blocks |
| FsMove.SmallCopyFaithful | src/interrupt.c:252-297 | every file of at most 12 blocks is copied byte for byte into an inode up to 29 |
| FsMove.CopyKeepsOthers | src/interrupt.c:127-373 | the source and every other live inode but the parent are untouched by a copy |
| FsMove.RemovalSucceeds | src/builtin_commands.c:827-831 | after a successful copy the removal of the source cannot fail |
| FsMove.MovedMap | src/builtin_commands.c:811-842 | a move rebinds the source name to the destination and changes no other binding in any directory |
| FsMove.MovedInodes | src/builtin_commands.c:811-842 | the old inode is free, the new one live and as copied, all others untouched |
| FsMove.MovedLive | src/builtin_commands.c:811-842 | the number of live inodes is the same before and after a move |
| FsMove.MovedBlocks | src/builtin_commands.c:811-842 | the number of used blocks is the same if and only if the copy took as many direct blocks as the removal gave back |
| FsMove.SmallMove | src/builtin_commands.c:811-842 | moving a file of at most 12 blocks into an inode up to 29 carries its content and leaves the numbers of used blocks and of live inodes as they were |
| FsMove.HandleMv | src/builtin_commands.c:811-842 | a failed move changes nothing visible, a successful one is a copy followed by a removal and keeps the file system healthy |
| FsMove.RemovalLeaks | src/interrupt.c:653-657 | of a removed inode no block is reachable any more, and a block stays marked exactly when it is not a direct one that i_blocks covers |
| FsFormat.CreateExt2 | src/ext2.c:862-975 | whatever was on the disk, the result is formatted and healthy, with the initial counters and the exact bytes of the root |
| FsFormat.FormattedHealthy | src/ext2.c:862-975 | a formatted image satisfies the invariant of all later runs |
| FsFormat.DirectoryTable | src/ext2.c:73-97 | the block laid out with 12 and 500 byte records lists "." and "..", the second of which starts at 12 |
| FsFormat.FormattedLayout | src/ext2.c:862-975 | what formatting leaves on the disk, byte for byte: bitmaps, the record of the root and its two entries |
| FsWrite.Build | src/ext2.c:505-542 | the new inode's tree consists of the fresh blocks, as many as its size asks for, and holds the data, or the two dot records |
| FsWrite.Write | src/ext2.c:423-565 | the result code is determined by the image; nonzero changes neither disk nor counters, zero adds the inode with its data, enters its name if there is room, and counts it |
| FsWrite.WrittenHealthy | src/ext2.c:597-660 | a write keeps the file system healthy if and only if the entry does not fit or the parent lists at least two records |
| FsWrite.Read | src/ext2.c:1319-1404 | success fills the start of the caller's buffer with the whole file, failure leaves it alone |
| FsWrite.WriteThenRead | src/ext2.c:423-565 | what was written is read back under that name, for every size and every large enough buffer, if and only if the record fitted and the inode survives the disk as far as the data needs it |
| FsWrite.WriteLosesFile | src/ext2.c:637-641 | a successful write leads to a named file if and only if the entry fitted |
| FsWrite.Delete | src/ext2.c:1242-1273 | nonzero changes nothing, zero removes the record, the inode and exactly the listed blocks, and counts it |
| FsWrite.EmptyMeansAlone | src/ext2.c:662-671 | a directory counts as empty exactly when it lists nothing but its first record |
| FsWrite.FreshNotDeletable | src/ext2.c:1256-1261 | a directory that was just made never counts as empty, so it cannot be deleted as a directory |
| FsRuns.Execute | src/interrupt.c:127-886 | each of the four system calls, of write and of delete makes a step of the specification |
| FsRuns.StepHealthy | src/interrupt.c:127-886 | every step from a healthy image leads to a healthy image, unless a write takes the place of the only record of a directory |
| FsRuns.RunHealthy | src/interrupt.c:127-886 | over every run of the six calls from a formatted disk every image is healthy |
| FsOutcomes.CreateExact | src/interrupt.c:374-577 | each result of create_directory holds if and only if: parent, name, free inode, free block and room are, in this order, the first thing missing; zero if none is |
| FsOutcomes.CopyExact | src/interrupt.c:127-373 | each result of copy_file under exactly its condition, in terms of the names of the directory, live inodes, blocks in use and room |
| FsOutcomes.DeleteFileExact | src/interrupt.c:579-714 | each result of delete_file under exactly its condition; zero if and only if the name is bound to an entry not marked as a directory |
| FsOutcomes.DeleteDirectoryExact | src/interrupt.c:716-886 | each result of delete_directory under exactly its condition; zero if and only if the directory holds no names but "." and ".." |
| FsOutcomes.WriteExact | src/ext2.c:423-565 | each result of write under exactly its condition; zero if and only if the parent is a directory without that name, the size is in range and an inode is free |
| FsOutcomes.ReadExact | src/ext2.c:1319-1404 | each result of read under exactly its condition |
| FsOutcomes.DeleteExact | src/ext2.c:1242-1273 | each result of delete; a directory goes if and only if it holds no name but "." |
| FsOutcomes.RoomInBytes | src/interrupt.c:528-531 | the room in a directory in bytes, for the system calls and for write |
| FsFresh.CreatedIsMade | src/interrupt.c:469-494 | create_directory makes a directory that lists its two dot entries, with all the room behind, if and only if its inode is at most 30; its record says one block of 512 bytes |
| FsFresh.WrittenIsMade | src/ext2.c:513-522 | so does write, with ".." at byte 12, for an inode up to 30 |
| FsFresh.FormattedIsMade | src/ext2.c:862-975 | so does formatting, with the root |
| FsFresh.MadeRoom | src/interrupt.c:507-534 | in a directory just made every name finds room: a record of len characters if and only if len is at most 492 less the start of ".." |
| FsFresh.MadeTakes | src/interrupt.c:374-577 | there create_directory is never refused for want of room and succeeds for every proper name while inodes and blocks last, write while inodes last; copy_file finds nothing to copy |
| FsFresh.AddedThenRemoved | src/interrupt.c:579-714 | removing what was just added restores the entries in order and the live inodes, and the used blocks as far as the record led to them |
| FsFresh.MadeThenRemoved | src/interrupt.c:716-886 | removing a directory just made always succeeds and restores names and live inodes, and the block bitmap byte for byte if and only if its inode is at most 30 |
| FsFresh.CopiedThenRemoved | src/interrupt.c:579-714 | removing a copy just made always succeeds and restores names and live inodes, and the block bitmap for an inode up to 29 |
| FsBoot.BootOutcome | src/ext2.c:423-565 | on a formatted disk exactly the names that are not empty and no dots, and files up to the maximum, can be written to the root |
| FsBoot.BootImage | src/ext2.c:597-660 | a formatted disk with a file written to its root is healthy; the root lists "." and the file, which has inode 1 and reads back |
| FsBoot.BootBytes | src/ext2.c:645-655 | the bytes of the record that write puts behind "." in the root |
| FsBoot.BootNode | src/ext2.c:524-545 | the bytes of kind and size in the record of inode 1 after that write |
| FsBoot.BootRun | src/ext2.c:862-975 | formatting followed by that write is a run of the kind the run theorems are about |
| FsBoot.BootCopy | src/interrupt.c:127-373 | there the file can be copied to every new name that finds room, unless the blocks run out |
| FsBoot.BootMove | src/builtin_commands.c:811-842 | there all that mv asks for is met |
| FsBoot.BootMoved | src/builtin_commands.c:811-842 | after format, write and mv of a file of at most 12 blocks the root lists "." and the new name, which leads to the data that was written, and no block is lost |
| FsBoot.DiskFull | src/interrupt.c:252-297 | a file of 4053 blocks fills a formatted disk to the last block; from then on every copy of it fails for want of blocks and changes nothing |
| FsLow.ModestLawful | src/ext2.c:789-800 | as long as the blocks in use and the demand of a call stay within the 1024 of the group, whatever a call frees lies in the group |
| FsLow.RunLow | src/ext2.c:567-589 | over every such run from a formatted disk every image is healthy, every block in use lies in the group, and all that the calls rely on holds |
| FsTidy.OneName | src/interrupt.c:374-577 | in a tree every live inode but the root has exactly one name |
| FsTidy.WrittenTidy | src/ext2.c:597-660 | a write keeps the tree if and only if its entry is a proper name that takes the place of a dot entry other than ".", and the inode does not read as a directory |
| FsTidy.StepTidy | src/interrupt.c:127-886 | every system call with proper new names keeps the tree |
| FsTidy.RunTidy | src/interrupt.c:127-886 | over every run of such calls from a formatted disk each live inode is reached from the root by exactly one name, "." names its own directory and ".." the one above |
| FsBooks.WriteThenDelete | src/ext2.c:1028-1047 | deleting what a write entered restores the set of live inodes, and the block bitmap byte for byte if and only if the record still led to all its blocks |
| FsBooks.BookedKept | src/ext2.c:552-553 | each write or delete keeps both free-inode counters exact and what every operation keeps |
| FsBooks.LedgerKept | src/ext2.c:862-1047 | over every run from formatting on, the superblock counts exactly the clear inode bits and the group descriptor one more |
| FsBooks.Carry | src/ext2.c:423-565 | one write or delete on the volume makes a step of the specification and keeps the books |
| Paging.AvailableExact | src/paging.c:71-75 | the check answers whether that many bytes are free if and only if rounding up does not wrap |
| Paging.FramesConserved | src/paging.c:77-184 | free frames plus mapped user slots are always 31 |
| Paging.TablesDetermineFrames | src/paging.c:77-184 | frame map and counter are a function of the page tables |
| Paging.ExactlyOneOwner | src/paging.c:77-184 | a frame from 1 on is marked if and only if one slot of one directory in use maps it, and frame 0 is never mapped |
| Paging.CallKeeps | src/paging.c:77-384 | each call keeps ownership exact and leaves the mappings of every other directory alone |
| Paging.RunConsistent | src/paging.c:77-384 | over every run ownership is exact and frames are conserved |
| Paging.UserReachesOwn | src/paging.c:77-139 | by the bits of its entries user mode reaches exactly the frames its directory owns, through writable pages, and never the frame of the kernel |
| Paging.KernelMapped | src/paging.c:287-333 | from entry 768 on a directory in use has one entry, for frame 0, which is present, writable and closed to user mode |
| Paging.RunProtected | src/paging.c:77-384 | the same over every run of the four calls |
| Paging.Perform | src/paging.c:77-384 | one call on the page manager makes a step of the specification |
| Paging.PageManager.constructor | src/paging.c:26-30 | the initial data is consistent, with 31 free frames and no directory in use |
| Paging.PageManager.AllocateUserFrame | src/paging.c:77-139 | succeeds exactly when the slot is a vacant user slot and the counter is positive, with the least free frame |
| Paging.PageManager.FreeUserFrame | src/paging.c:141-185 | succeeds exactly when the directory maps that user slot, and frees its frame |
| Paging.PageManager.CreateDirectory | src/paging.c:287-333 | hands out the first directory not in use, with one entry for the kernel that is closed to user mode and nothing else, or null |
| Paging.PageManager.FreeDirectory | src/paging.c:335-384 | gives back a directory in use together with exactly the frames it mapped, and refuses anything else |
| Process.DirectoryAvailable | src/process.c:104 | 16 processes cannot exhaust 32 directories, so creation never gets a null directory |
| Process.CreatedSane | src/process.c:75-129 | creation keeps pids unique, counts exact, directories held one each |
| Process.CreatedPcb | src/process.c:75-129 | a new process is ready and active, starts at the address that was asked for, and its pages follow one another from there |
| Process.StartsInOwnPage | src/process.c:104-114 | when at least one page is asked for and one frame is free, a new process starts in a page that it owns |
| Process.CreateOutcomeExact | src/process.c:75-97 | each result under exactly its condition in numbers: 16 processes, the kernel half, and, apart from the size that wraps to no frame at all, no free frame or more than eight asked for |
| Process.FramesNeededLeast | src/process.c:92 | the frame count is the least that covers image and stack |
| Process.DestroyedSane | src/process.c:151-176 | destroying keeps the table in order if and only if the slot that carries the pid is active |
| Process.DestroyedPcb | src/process.c:60-73 | a destroyed slot is off and its addresses are wiped; the machine is switched off exactly when no process is left |
| Process.LoadedMaps | src/process.c:107-111 | loading maps a run of consecutive user slots, as many as frames and user space allow, and nothing else |
| Process.LoadedWhole | src/process.c:107-111 | the whole image is mapped if and only if the frames suffice and it ends below 3 GiB |
| Process.CheckIsByteCount | src/process.c:93 | the memory check refuses exactly when no frame at all is free |
| Process.ShortageAccepted | src/process.c:91-97 | creation succeeds without enough memory if and only if some, but fewer than the needed frames are free |
| Process.FramesNeededExact | src/process.c:92 | the frame count covers image and stack if and only if the size does not overflow |
| Process.CreateThenDestroy | src/process.c:75-176 | creating a process and destroying it restores the same memory and leaves every other process as it was |
| Process.OthersUntouched | src/process.c:75-176 | a live process keeps its control block and page directory through creation and destruction of others |
| Process.OneProcessPerFrame | src/process.c:75-176 | a marked frame is mapped by one slot of one live process, and by no other |
| Process.ReachesApart | src/process.c:75-176 | in user mode two live processes never reach the same frame, and none reaches the frame of the kernel |
| Process.DestroyedSpares | src/process.c:151-176 | destroying a slot leaves the memory of a live process alone if and only if the slot does not carry the same page directory; otherwise all of it is gone |
| Process.ProcessManager.constructor | src/process.c:7-13 | the empty table is in order: no active process, no current slot, no pid given out |
| Process.ChosenPlace | src/process.c:28-48 | the slot for a new process, by its index: all slots between it and the current one are active, or, when it lies above, all below the current one and all above itself |
| Process.ProcessManager.InactiveIndex | src/process.c:28-48 | slot 0 in an empty table, otherwise the nearest inactive slot going down from the current one |
| Process.ProcessManager.Create | src/process.c:75-129 | each error code under exactly its condition and without a change; success creates one process, active, ready and with the entry point that was asked for |
| Process.ProcessManager.ReleaseMemory | src/process.c:55-73 | the directory and all its frames return to the pool, other directories stay, the page directory register ends as it was |
| Process.ProcessManager.Destroy | src/process.c:151-176 | works on the first slot with the pid, alive or not; false exactly when there is none |
| Scheduler.ScanHas | src/scheduler.c:32-36 | a scan of n slots contains exactly the active ones among them |
| Scheduler.ScanOrdered | src/scheduler.c:32-36 | it lists them in cyclic order, none twice |
| Scheduler.PicksFollowScan | src/scheduler.c:29-42 | the slots picked by repeated switches are those of one scan around the table |
| Scheduler.RoundRobin | src/scheduler.c:29-42 | as many switches as active processes pick each exactly once, in cyclic order, and return to the start |
| Scheduler.TicksPick | src/scheduler.c:29-42 | the current slots along a run of switches are those picks |
| Scheduler.SwitchedSane | src/scheduler.c:37-42 | after a switch the picked process is the only active running one and its directory, in use, is loaded; the one before it, if another, is ready, and all others are as they were |
| Scheduler.FindNext | src/scheduler.c:32-36 | the circular search ends, at the next active slot |
| Scheduler.SwitchToNext | src/scheduler.c:29-42 | picks the next active slot, sets the old one ready and the new one running |
| Scheduler.Handle | src/process.c:75-176 | one event on the process manager makes a step of the specification |
| Scheduler.RunSane | src/process.c:75-176 | over every run of creating, destroying and switching, table, pids, directories and frames stay in order |
| Scheduler.RunIsolated | src/process.c:75-176 | over every such run a process starts below the kernel, reaches only frames it owns, and none that another one reaches |
| StalePids.StaleReachable | src/process.c:155-158 | seven legal events lead from the initial state to one where an emptied slot still carries the page directory of a live process, and destroying its pid takes that directory away |
| Paths.SegmentsJoin | src/builtin_commands.c:94-106 | joining two texts with a slash joins their lists of segments |
| Paths.RenderRoundTrip | src/builtin_commands.c:131-141 | reading the segments of a rendered stack gives the stack |
| Paths.NormaliseCanonical | src/builtin_commands.c:92-145 | the result is always canonical, and canonical paths are exactly the fixed points |
| Paths.NormaliseIdempotent | src/builtin_commands.c:92-145 | normalising twice is normalising once |
| Paths.NormaliseJoin | src/builtin_commands.c:70-146 | normalising the first part before joining makes no difference |
| Paths.UpUndoesDown | src/builtin_commands.c:108-128 | a directory name followed by ".." cancels |
| Paths.NameAppends | src/builtin_commands.c:131-141 | a proper name is appended to the normalised path |
| Paths.DotStays | src/builtin_commands.c:106-130 | "." and an empty name change nothing |
| Paths.RootStays | src/builtin_commands.c:108-128 | the empty text is the root, and ".." stays there |
| Paths.RelativeMeansJoined | src/builtin_commands.c:78-90 | with a canonical working directory a relative path means the two joined with a slash, an absolute one itself |
| Paths.Ascend | src/builtin_commands.c:108-128 | truncating at the last slash pops the stack of names, and stays at the root |
| Paths.Descend | src/builtin_commands.c:131-141 | appending to the buffer pushes the name |
| Paths.ResolvePathDisplay | src/builtin_commands.c:70-146 | the buffer edited in place ends up holding the stack folded over the segments |

## Left out

- Superblock and group descriptor blocks: the counters are fields of the volume, their encoding into blocks 1 and 2 and `sync_superblock` are not part of this model.
- Free-block counters on the write and set_block_free path: the code does not maintain them (`src/ext2.c:567-589`, `src/ext2.c:789-800`).
- Truncation.DeallocateLogicalBlockRange: takes one past the last block as its end argument, where the source takes the last block.
- Several block groups: `GROUPS_COUNT` is 1, so the preferred group is dropped.
- Volume.Volume.SetBlockFree: leaves out block numbers from 1024 on, which the source turns into a group index behind its table; the same holds of Volume.Volume.DeallocateBlock and the teardowns.
- FileStore.AllocateLogicalBlock: leaves out a disk too full for the path, where the source stores -1 and writes far behind the disk.
- FsWrite.Write: does not model a null data pointer, because the data is a value here.
- FsMove.HandleMv: takes the removal to be that of a file, because the shell's own search for the kind of the target (`find_for_rm`) is not part of this model.
- `move_file`, `read_directory`, `allocate_node_blocks`, `is_block_allocated`: unused, or easy members beside what is here.
- `find_recursive`, the string library, printing, and the shell's parsing: user interface.
- Disk, keyboard, clock, speaker and interrupt ports, segment tables, assembly, TLB flushes: hardware; of the processor only the page directory register remains.
- `paging_map_user_page`: maps frames that nobody owns, by design.
- Paging.PageManager.AllocateUserFrame: takes a directory of the pool; the kernel's own directory, whose first slot is taken so that the one call for it is refused, is not part of this model.
- Page directory entries: bit fields that are always zero, and the accessed and dirty bits set by the hardware.
- Process control blocks: name, registers and flags; loading the executable's bytes into the mapped pages.
- Process.ProcessManager.Create: pids are unbounded integers here, the counter's overflow after 2^31 processes is not modelled.
- The virtual machine's power-off when the last process ends is a flag; the model goes on.
- Scheduler.SwitchToNext: skips the one store to slot -1 that the very first switch would make (`src/scheduler.c:37`), and the jump into the process.
- Paths.ResolvePathDisplay: leaves out the branch for an empty result, which cannot occur.
