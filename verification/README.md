# Pintos, modelled and proved in Dafny

A model of the parts of the Pintos teaching kernel in which something can go wrong in more than one
place at once: its containers, its allocators, its file system, its scheduler and its locks, and the
library routines below them. Code that the kernel writes as loops and updates in place is written so
here too, as methods of classes and on arrays, and proved against specification functions; what the
kernel is for is then proved about those functions, over all inputs and over all runs.

`dafny verify dfyconfig.toml` checks everything.

| files | what they model |
|---|---|
| Common, Nonlinear, Bits | shared definitions; facts about products, quotients and the bits of words |
| Lists, Orders | the intrusive doubly linked list and its natural merge sort |
| Arithmetic | 64-bit division built on a 64-by-32-bit divide instruction |
| Bitmaps | bitmaps as arrays of 32-bit words |
| HashTable | the chained hash table that resizes itself |
| HeapSort | heap sort and binary search |
| Printf, Ustar | integer formatting, and tar headers written and read with it |
| RunQueue, Synch, SemaAccounts, Alarm | the run queue by priority; semaphores and locks as a system of steps, and what the steps add up to; the alarm clock |
| PageAlloc, Malloc | pools of pages, and arenas of blocks and big blocks on top of them |
| Swap | swap slots with a high-water mark and a sorted free list |
| ClockSweep, CacheSteps, SessionReads, BufferCache, InodeIo | the write-back cache with clock eviction, its agreement with an uncached disk, and reading and writing inodes through it |
| FileSystem, FileRuns, FileAccounts | the free map, inodes, the directory, and files that are removed while they are open, with whatever the reads of the directory return |
| DirectorySlots, FailingRun | the directory's slots behind the cache, and what comes of it |

## What turned out to be false, and when it is true

Some things that one would expect of the kernel do not hold of its code. The model keeps the code as
it is. For each there is a case that fails, and the exact condition under which it does not.

- Wake-ups. `sema_up` unblocks a waiter before it increments the value, and the waiter may run in
  between, find the value zero and queue up again. Mutual exclusion survives this
  (`Synch.MutualExclusion`). A wake-up can be lost (`Synch.WakeupLost`), although with fixed priorities
  no ready thread ever outranks the running one (`Synch.RunKeepsTop`); none is if and only if all
  priorities are equal (`Synch.NoneLostIffEqual`).
- The buffer cache. Entries are looked up by exact offset, so that two offsets in one sector have two
  entries (`CacheSteps.StaleRead`). Cached reads are right in every run if and only if no two offsets
  in use are in one sector (`CacheSteps.AgreesIffOneOffset`). Entries that only read-ahead makes do
  no harm. Even byte ranges that do not overlap lose writes when they share a sector
  (`CacheSteps.LostUpdate`): what was written reaches the disk in every run if and only if none do
  (`CacheSteps.DurableIffOneRange`).
- Such ranges are also read wrongly without a restart. Where what is read ahead is among them, every
  read of every run is right if and only if none share a sector or the cache has an entry for each
  (`SessionReads.SessionRightIff`).
- The directory. Its slots are such ranges: the root directory has sixteen of them in one sector, and
  they would be safe if and only if they were a sector apart (`DirectorySlots.DurableIffSectorApart`,
  `RootDirectoryNotDurable`, `RecordedIffSectorApart`). A name that was removed, and written to the
  disk as removed, can come back when another is removed (`DirectorySlots.SlotComesBack`).
- Files. So files do not stay disjoint over every run. There is a run from a formatted disk in which a
  removed name comes back and a block of an open file is given to another
  (`FailingRun.NameComesBack`, `SlotIsBack`). Creating a file is harmless whatever is read. Opening and
  removing are harmless under conditions on the record that was read and on the files there are
  (`FileSystem.OpenedIff`, `RemovedIff`), and a run keeps the files disjoint if and only if all its
  operations are harmless (`FileRuns.ThroughoutIff`, `History`), as they are when the directory is
  read as it was written (`FileRuns.RightIsHarmless`).
- Addresses. Cache entries are known by the address of their inode and outlive it. A file at the
  address of another one can be read as that one was (`CacheSteps.ReusedAddress`). The cache agrees
  with the disk if and only if the entries that are known by the address, if there are any, hold
  what the new file has there (`CacheSteps.ReuseAgreesIff`). So a new file is zero on the disk, but
  need not be read so.
- Big blocks. The size of a big block and its header are added in 32 bits. `malloc` gives a block that
  is too small if and only if 2^32 - 11 bytes or more are asked for (`Malloc.Allocator.Malloc`).
- Remainders. `umod64` and `smod64` return 32 bits. They are exact for every dividend if and only if
  the divisor's magnitude is at most 2^32 and 2^31 (`Arithmetic.UModExactIff`, `SModExactIff`).
- Swap. The limit is counted in sectors. Filling the partition ends in the overflow panic if and only
  if its size is a multiple of eight sectors (`Swap.FillUp`).
- The alarm clock wakes one sleeper a tick. A sleeper is as late as its place in the queue says if and
  only if nobody asks for a negative number of ticks (`Alarm.OnTimeIffNotNegative`). Waking a thread in
  the interrupt stops the kernel if it outranks the running one, and no run stops if and only if no
  sleeper can (`Alarm.NeverStopsIff`).
- Tar headers. A negative size prints as a large unsigned number, and the header is refused when it
  is read back (`Ustar.MakeThenParse`).
- A file whose name the directory refuses leaves its data sectors marked (`FileSystem.Files.Create`):
  sectors of files are always marked, but marked sectors need not belong to a file.

Where the code and its comments disagree, the model follows the code. `bitmap_scan_and_flip` with a count
of 0 returns its start, where the comment says 0. `free_map_allocate` fails when no sectors are available,
where the comment says the opposite. The hash table does not use its constants for the least and the
most elements in a bucket: it resizes whenever its best size is another one.

## Model

| member | source | states |
|---|---|---|
| `Lists.Splice` | pintos/src/lib/kernel/list.c:183-204 | the nodes of a range leave their list and stand, in order, just before `before`, in the same list or another; both lists are well linked both ways and their ends are untouched |
| `Lists.List.constructor` | pintos/src/lib/kernel/list.c:60-68 | a well linked list without elements |
| `Lists.List.Insert` | pintos/src/lib/kernel/list.c:168-178 | the element stands at the given place and all the others keep theirs |
| `Lists.List.Remove` | pintos/src/lib/kernel/list.c:256-263 | the element is gone, the others keep their order, and the element that followed it is returned |
| `Lists.List.Reverse` | pintos/src/lib/kernel/list.c:333-345 | the same nodes in the opposite order, well linked both ways |
| `Lists.List.IsSorted` | pintos/src/lib/kernel/list.c:349-358 | true if and only if no element of the range is less than the one before it |
| `Lists.List.FindEndOfRun` | pintos/src/lib/kernel/list.c:365-380 | the end of the nondecreasing run at the start of a range |
| `Lists.List.InplaceMerge` | pintos/src/lib/kernel/list.c:387-407 | two adjacent ranges become their merge, by splicing, and the list stays well linked |
| `Lists.List.SortPass` | pintos/src/lib/kernel/list.c:412-448 | one pass merges adjacent runs two by two and returns how many runs are left |
| `Lists.List.Sort` | pintos/src/lib/kernel/list.c:412-448 | for every list and strict weak order the sort ends, with the same nodes, sorted and in stable order, in a well linked list |
| `Lists.List.InsertOrdered` | pintos/src/lib/kernel/list.c:453-467 | the element is put before the first one that it is less than |
| `Orders.MergedIsSorted` | pintos/src/lib/kernel/list.c:387-407 | merging two sorted ranges gives one sorted range, keeps equivalent elements in order and touches nothing else |
| `Orders.PassHalvesRuns` | pintos/src/lib/kernel/list.c:412-448 | a pass is stable and at least halves the number of maximal runs, rounded up, and the number that it returns is that half; hence the sort ends |
| `Orders.StepwiseIsSorted` | pintos/src/lib/kernel/list.c:349-358 | comparing neighbours decides whether a range is sorted, if and only if |
| `Orders.InsertedSorted` | pintos/src/lib/kernel/list.c:453-467 | ordered insertion keeps a list sorted and puts the element behind its equivalents |
| `Arithmetic.Nlz` | pintos/src/lib/arithmetic.c:41-73 | the shift by `n` that brings the highest set bit of a word to the top |
| `Arithmetic.WideEstimate` | pintos/src/lib/arithmetic.c:77-127 | in the branch for wide divisors the divide instruction does not trap, and the estimate is the quotient or one more |
| `Arithmetic.PickIsQuotient` | pintos/src/lib/arithmetic.c:77-127 | the final comparison picks the quotient, although its arithmetic wraps around |
| `Arithmetic.NarrowIsQuotient` | pintos/src/lib/arithmetic.c:77-127 | in the branch for narrow divisors two divide instructions, neither of which traps, give the quotient |
| `Arithmetic.UDiv64` | pintos/src/lib/arithmetic.c:77-127 | the rounded-down quotient for every dividend and nonzero divisor, and a divide error for zero only |
| `Arithmetic.UMod64` | pintos/src/lib/arithmetic.c:131-135 | the remainder cut to 32 bits |
| `Arithmetic.UModExactIff` | pintos/src/lib/arithmetic.c:131-135 | the remainder is exact for every dividend if and only if the divisor is at most 2^32 |
| `Arithmetic.TruncationUnique` | pintos/src/lib/arithmetic.c:139-146 | section 6.5.5 of C99 allows one quotient only |
| `Arithmetic.SDiv64` | pintos/src/lib/arithmetic.c:139-146 | the quotient truncated toward zero, as in section 6.5.5 of C99; the most negative dividend by -1 wraps around to itself |
| `Arithmetic.SMod64` | pintos/src/lib/arithmetic.c:150-154 | the remainder of that division cut to a signed 32-bit number |
| `Arithmetic.SModExactIff` | pintos/src/lib/arithmetic.c:150-154 | that remainder is exact for every dividend if and only if the divisor's magnitude is at most 2^31 |
| `ClockSweep.SweepStops` | pintos/src/filesys/buf_cache.c:46-78 | from any position of the hand, if some entry can be taken, the hand stops within two sweeps at an entry that can be taken and whose accessed bit is clear; only accessed bits of entries that can be taken were cleared |
| `ClockSweep.SecondChance` | pintos/src/filesys/buf_cache.c:46-78 | an entry in use is taken only if all that could be taken are in use; otherwise the first unused one that the hand meets is |
| `ClockSweep.NearestTaken` | pintos/src/filesys/buf_cache.c:46-78 | whatever the marks, the entry taken is the nearest to the hand that can be, where one in use counts as a round farther away |
| `BufferCache.Cache.constructor` | pintos/src/filesys/buf_cache.c:23-30 | an empty cache over a disk |
| `BufferCache.Cache.SelectVictim` | pintos/src/filesys/buf_cache.c:46-78 | the loop ends and leaves the entries and the hand as the clock sweep does |
| `BufferCache.Cache.GetEntry` | pintos/src/filesys/buf_cache.c:84-154 | a new entry at the front of the list, or in the place of a victim that is written behind first if it is dirty; none past the end of the inode or without memory |
| `BufferCache.Cache.LookUp` | pintos/src/filesys/buf_cache.c:158-183 | the first entry with exactly this inode and offset |
| `BufferCache.Cache.WriteBehind` | pintos/src/filesys/buf_cache.c:185-197 | the sector of the entry gets its data, and the entry is clean and unmarked |
| `BufferCache.Cache.WriteBehindAll` | pintos/src/filesys/buf_cache.c:200-228 | every entry is clean and unmarked, every dirty one was written to its sector, and keys, data and the hand are as before |
| `BufferCache.Cache.WriteBehindInode` | pintos/src/filesys/buf_cache.c:231-259 | no entry of the inode is dirty, those that were have been written and unmarked, and neither the other entries nor the sectors of other inodes have changed |
| `BufferCache.Cache.Write` | pintos/src/filesys/buf_cache.c:286-317 | the step of a cached write; the thread exits if there is no entry to be had |
| `BufferCache.Cache.Read` | pintos/src/filesys/buf_cache.c:319-358 | the step of a cached read with its read-ahead; the thread exits if there is no entry to be had |
| `CacheSteps.SelectedSound` | pintos/src/filesys/buf_cache.c:46-78 | choosing a victim changes nothing but accessed bits and the hand |
| `CacheSteps.FindAgrees` | pintos/src/filesys/buf_cache.c:84-183 | finding or making an entry, with any eviction, keeps the cache in agreement with the uncached disk |
| `CacheSteps.WriteAgrees` | pintos/src/filesys/buf_cache.c:286-317 | after a cached write the cache agrees with the disk that the same uncached write makes |
| `CacheSteps.ReadAgrees` | pintos/src/filesys/buf_cache.c:319-358 | a cached read returns the bytes of the uncached disk, and read-ahead keeps the agreement |
| `CacheSteps.BehindAllAgrees` | pintos/src/filesys/buf_cache.c:200-228 | after everything is written behind, the disk equals the logical contents |
| `CacheSteps.BehindInodeAgrees` | pintos/src/filesys/buf_cache.c:231-259 | writing one inode behind keeps the agreement with the uncached disk |
| `CacheSteps.BehindInodeCleans` | pintos/src/filesys/buf_cache.c:231-259 | after one inode was written behind none of its entries is dirty; those that were are unmarked too, all others are as they were, and only sectors of that inode have changed |
| `CacheSteps.BehindInodeSettles` | pintos/src/filesys/buf_cache.c:231-259 | every sector of the inode then has its logical contents on the disk |
| `CacheSteps.BehindAllCleans` | pintos/src/filesys/buf_cache.c:200-228 | after everything was written behind every entry is clean and unmarked, and otherwise as before |
| `CacheSteps.FindFailsIff` | pintos/src/filesys/buf_cache.c:84-104 | there is no entry to be had if and only if the offset is past the end of the inode, or a new one is needed, the cache is not full and there is no memory |
| `CacheSteps.FindEvictsOne` | pintos/src/filesys/buf_cache.c:84-154 | an entry that is found changes nothing; a new one comes to the front while there is room, and the hand stays at its entry; afterwards it takes the place of one victim, where the hand stops, which is written if it is dirty and was in use only if all were |
| `CacheSteps.AccessMarks` | pintos/src/filesys/buf_cache.c:286-340 | an entry that was read or written is marked as used |
| `CacheSteps.ReadsAhead` | pintos/src/filesys/buf_cache.c:344-350 | after a read the same place in the next sector has an entry, if the inode goes so far and memory suffices |
| `CacheSteps.ResidentEntries` | pintos/src/filesys/buf_cache.c:84-183 | at most one entry is resident for a sector, and a clean entry equals its sector |
| `CacheSteps.AgreeingRun` | pintos/src/filesys/buf_cache.c:84-358 | in every run of reads, writes, evictions and write-behinds every read returns what an uncached disk would; at its end the cache agrees with that disk, and writing everything behind leaves the disk with the same contents |
| `CacheSteps.StaleRead` | pintos/src/filesys/buf_cache.c:158-183 | a run that fails: with two offsets in one sector, a write at the lower one is not seen by a read at the higher |
| `CacheSteps.AgreesIffOneOffset` | pintos/src/filesys/buf_cache.c:84-358 | over fixed open inodes with disjoint extents, all reads of all runs at a set of offsets are right if and only if no two of the offsets are in one sector of an inode |
| `CacheSteps.AlignedIsOneOffset` | pintos/src/filesys/buf_cache.c:84-94 | sector-aligned offsets, which the commented-out assertion asks for, are such a set |
| `CacheSteps.LostUpdate` | pintos/src/filesys/buf_cache.c:200-228 | a run that fails: of two writes at different offsets of one sector, whatever the bytes, the later one is lost when everything is written behind |
| `CacheSteps.LostAfterRestart` | pintos/src/filesys/buf_cache.c:200-228 | if the two byte ranges do not overlap, the second one holds on the disk what it held before it was written |
| `CacheSteps.DurableIffOneRange` | pintos/src/filesys/buf_cache.c:84-358 | for accesses to given byte ranges that do not overlap, what was written reaches the disk in every run that ends with a write-behind, if and only if no two of the ranges are in one sector |
| `CacheSteps.RestartRightIffOneRange` | pintos/src/filesys/buf_cache.c:84-358 | under the same condition, and only then, all reads of all runs from an empty cache over the disk that such a run leaves are right |
| `SessionReads.SessionRightIff` | pintos/src/filesys/buf_cache.c:84-358 | for accesses to given byte ranges that do not overlap, with what is read ahead among them, every read of every run is right if and only if no two of the ranges are in one sector or the cache has an entry for each |
| `SessionReads.OwnRun` | pintos/src/filesys/buf_cache.c:84-358 | as long as nothing is evicted, an entry has the bytes of its own range as they should be, and so have the disk and all entries those of a range without one; every read is right |
| `SessionReads.SomeReadWrong` | pintos/src/filesys/buf_cache.c:46-183 | a run that fails: the cache is filled up, everything is written behind, the entry of the range that was written last is evicted, and the range is read as it was before |
| `CacheSteps.ReusedAddress` | pintos/src/filesys/buf_cache.c:158-183 | a run that fails: a file is read and closed, and another one opened at the same address; a read of it returns the bytes of the first |
| `CacheSteps.ReuseAgreesIff` | pintos/src/filesys/buf_cache.c:158-183 | when an address is given to another file, while the entries known by it are clean, the cache agrees with the disk as before if and only if those entries, if there are any, hold what the other file has there |
| `InodeIo.ChunkFits` | pintos/src/filesys/inode.c:213-235 | a chunk lies in one sector and in the inode, and ends the transfer, the inode or the sector |
| `InodeIo.HeldIsSlice` | pintos/src/filesys/inode.c:47-55 | the bytes of a chunk in its sector are that slice of the inode's flat contents |
| `InodeIo.WrittenIsOverlaid` | pintos/src/filesys/inode.c:47-55 | writing a chunk changes that range of the inode's flat contents and no byte of any other inode |
| `InodeIo.ChunkTransferred` | pintos/src/filesys/inode.c:260-271 | writing a chunk changes those bytes of its sector and no others on the disk |
| `InodeIo.Store.ReadAt` | pintos/src/filesys/inode.c:207-238 | over any sectors and at any offset, returns exactly the slice of min(size, max(0, length - offset)) bytes at the offset; the loop ends |
| `InodeIo.Store.WriteAt` | pintos/src/filesys/inode.c:245-279 | over any sectors and at any offset, overwrites exactly that many bytes at the offset and no other byte of any sector; nothing while writes are denied; the loop ends |
| `InodeIo.WriteThenRead` | pintos/src/filesys/inode.c:207-279 | reading where something was written gives as much of it as the inode had room for |
| `InodeIo.ReadAt` | pintos/src/filesys/inode.c:207-238 | the same through the cache: returns exactly the slice of min(size, max(0, length - offset)) bytes at the offset, through the cache, unless memory runs out |
| `InodeIo.WriteAt` | pintos/src/filesys/inode.c:245-279 | the same through the cache: overwrites exactly that many bytes at the offset and no other byte of any sector; nothing while writes are denied |
| `FileSystem.Files.constructor` | pintos/src/filesys/filesys.c:97-107 | a formatted disk: the free map and the root directory have their inodes in the first two sectors and their data behind them, the map's file is open, there is no other file, and the files are disjoint |
| `FileSystem.FormattedConsistent` | pintos/src/filesys/filesys.c:97-107 | on a formatted disk the files are disjoint, the free map's file has a bit for every sector and the root directory the bytes of all its entries |
| `FileSystem.ExtentHoldsBytes` | pintos/src/filesys/inode.c:25-55 | the number of sectors is rounded up: every byte of a file is in a sector of its extent, where `byte_to_sector` finds it, and every sector of the extent has a byte of the file |
| `FileSystem.BlocksHaveBytes` | pintos/src/filesys/inode.c:25-30 | a file has a block with a number if and only if that block has a byte of it |
| `FileSystem.Files.FreeMapAllocate` | pintos/src/filesys/free-map.c:26-40 | the first run of free sectors is marked, or nothing changes |
| `FileSystem.Files.FreeMapRelease` | pintos/src/filesys/free-map.c:43-49 | exactly the given sectors become free; the kernel stops if and only if one of them is not marked |
| `FileSystem.Files.InodeCreate` | pintos/src/filesys/inode.c:73-107 | an inode with a zeroed extent on the first free run of sectors, with a sector for every byte and none without one; fails exactly without memory, map write or room, and then nothing changes |
| `FileSystem.Files.InodeOpen` | pintos/src/filesys/inode.c:112-146 | one opener more of this inode and of no other, whatever the sector holds; an open inode is opened again, not twice; the kernel stops if and only if a sector that is not on the disk is to be read |
| `FileSystem.Files.InodeReopen` | pintos/src/filesys/inode.c:149-155 | one opener more of this open inode, and nothing else changes |
| `FileSystem.Files.InodeClose` | pintos/src/filesys/inode.c:167-193 | one opener less; while the files are disjoint nothing stops it, they stay so, and the sectors of the file, and no others, are freed if and only if that was the last opener of a removed file; a removed file is one without a name, if the directory was always read as it was written |
| `FileSystem.Files.Lookup` | pintos/src/filesys/directory.c:91-112 | the first slot that is read as in use with this name, whatever the reads return |
| `FileSystem.Files.DirAdd` | pintos/src/filesys/directory.c:141-179 | writes the first slot that is read as free, if and only if the name is short, is not read as in use and there is one |
| `FileSystem.Files.RemoveEntry` | pintos/src/filesys/directory.c:184-216 | the slot gets the record that was read in it, erased; the file that the record leads to is marked as removed if it is open and given back if it is not; the kernel stops where a sector to be given back is free already |
| `FileSystem.Files.Create` | pintos/src/filesys/filesys.c:49-63 | whatever the reads of the directory return: succeeds if and only if memory, room, both writes of the map and the reads allow; the files stay disjoint, no marked sector changes, the new file is on sectors that were not marked, has one for each of its bytes, and its data on the disk is zero; a failure leaves the directory and, unless the reads refused the name, the map as they were |
| `FileSystem.Files.Open` | pintos/src/filesys/filesys.c:70-81 | one opener more of the file that the reads lead to, if and only if they lead to one and memory suffices; with right reads the files stay disjoint and nothing stops it |
| `FileSystem.Files.FileOpen` | pintos/src/filesys/file.c:17-34 | without memory for the file structure the inode is closed again |
| `FileSystem.Files.Reopen` | pintos/src/filesys/file.c:37-42 | one opener more of an open file, removed or not, or without memory none |
| `FileSystem.Files.Remove` | pintos/src/filesys/filesys.c:87-95 | with right reads the name is gone and the files stay disjoint; the sectors of the file, and no others, are unmarked at once if and only if there is no opener; with wrong reads what the records lead to is done |
| `FileSystem.Files.WriteBlock` | pintos/src/filesys/inode.c:245-279 | if the open file has a byte in that block, the sector where `byte_to_sector` finds it gets the bytes, and otherwise nothing changes; no other sector ever does; the kernel stops if and only if the sector is not on the disk |
| `FileSystem.WriteElsewhere` | pintos/src/filesys/filesys.c:49-63 | writing and marking sectors that are not marked harms no file |
| `FileSystem.BlockConsistent` | pintos/src/filesys/inode.c:245-279 | data can be written anywhere but over the inode of a file without harm to any |
| `FileSystem.CreateConsistent` | pintos/src/filesys/filesys.c:49-63 | creating a file keeps the files disjoint, whatever the reads of the directory return |
| `FileSystem.CreateChanges` | pintos/src/filesys/filesys.c:49-63 | creating changes no marked sector; the new file has the name in the first slot that was read as free and as many zero bytes as were asked for; a failure leaves its inode sector unmarked |
| `FileSystem.OpenedIff` | pintos/src/filesys/inode.c:112-146 | opening what a record leads to keeps the files disjoint if and only if that is a file that exists, or one whose sectors are marked and no other file's |
| `FileSystem.RemovedIff` | pintos/src/filesys/directory.c:184-216 | removing by whatever record was read keeps the files disjoint if and only if no file that still exists has a sector of the one that is given back, or, if that is open, it has no other name |
| `FileSystem.ClosedConsistent` | pintos/src/filesys/inode.c:167-193 | closing keeps the files disjoint; both assertions of the release hold, and it frees the sectors of the file and no others |
| `FileSystem.RightRemoval` | pintos/src/filesys/directory.c:184-216 | removing a file by the record that is in its slot keeps the files disjoint and gives its sectors back if and only if nobody has it open |
| `FileRuns.StepKeepsIff` | pintos/src/filesys/filesys.c:49-95 | every operation that does not stop the kernel keeps the invariant if and only if it is harmless, whatever its reads return |
| `FileRuns.DisjointIff` | pintos/src/filesys/inode.c:167-193 | the files are disjoint after an operation, and however many openers leave after it, if and only if it is harmless |
| `FileRuns.LastCloseHarms` | pintos/src/filesys/inode.c:167-193 | a file that was marked as removed although it has a name is given back by its last opener |
| `FileRuns.RightIsHarmless` | pintos/src/filesys/filesys.c:49-95 | operations for which the directory is read as it was written are harmless and stop nowhere |
| `FileRuns.RightKeepsTidy` | pintos/src/filesys/directory.c:91-216 | with right reads no name is used twice and an open file is marked as removed if and only if it has no name |
| `FileRuns.ThroughoutIff` | pintos/src/filesys/filesys.c:49-95 | a run keeps the invariant in all its states if and only if all its operations are harmless |
| `FileRuns.Perform` | pintos/src/filesys/filesys.c:49-95 | the code of every operation does the step that the rest is about |
| `FileRuns.History` | pintos/src/filesys/filesys.c:49-107 | from every formatted disk, over every run of the code: the files are disjoint in all states, and none with a name is going to be given back, if and only if every operation is harmless; if the directory is read as it was written they are, and nothing stops the kernel |
| `FileRuns.Run` | pintos/src/filesys/filesys.c:49-95 | over every run of harmless operations a file with an opener keeps its inode, its data and its sectors, removed or not, whatever else is created, opened, removed, written and closed |
| `FileAccounts.StepOpeners` | pintos/src/filesys/inode.c:112-193 | every operation changes the number of openers of every file by those who open it and those who leave it, whatever the reads of the directory return |
| `FileAccounts.OpenersAccounted` | pintos/src/filesys/inode.c:112-193 | over every run every file has the openers that it had at first, and those who came, less those who left |
| `FileAccounts.StepBlocks` | pintos/src/filesys/inode.c:245-279 | a write to a block of an open file leaves its bytes there, and no other harmless operation changes the block or its place |
| `FileAccounts.BlocksAccounted` | pintos/src/filesys/filesys.c:49-95 | over every run of harmless operations that leaves a file open each of its blocks holds what was written there last, whatever else is created, opened, removed, written and closed |
| `FileAccounts.RightLed` | pintos/src/filesys/directory.c:91-112 | with right reads a name leads to its file, and only a name in use leads anywhere |
| `FileAccounts.StepNames` | pintos/src/filesys/filesys.c:49-95 | with right reads every operation does to the directory what it does to a map from names to sectors: creating adds a name if it is short and new, there is room and a slot is free, removing takes it away, and nothing else changes it |
| `FileAccounts.NamesAccounted` | pintos/src/filesys/filesys.c:49-95 | over every run with right reads the directory is that map, and nothing stops the kernel |
| `FileAccounts.FromFormatted` | pintos/src/filesys/filesys.c:49-107 | both from every formatted disk on, which starts without names and with the map's file open |
| `FailingRun.NameComesBack` | pintos/src/filesys/directory.c:184-216 | a run from every formatted disk of eight sectors that fails: with right reads but for one slot, which is read as it was before it was erased, a removal gives away a block of an open file, and the next file that is created has its inode there |
| `FailingRun.SlotIsBack` | pintos/src/filesys/buf_cache.c:231-259 | the erasures and the write of that run, done through the cache, leave that slot on the disk so, with nothing left to be written |
| `DirectorySlots.DurableIffSectorApart` | pintos/src/filesys/directory.c:91-216 | the contents of a directory's slots reach the disk in every run, and are read again after it, if and only if the slots are at least a sector apart |
| `DirectorySlots.RootDirectoryNotDurable` | pintos/src/filesys/directory.c:15-30 | the sixteen slots of 20 bytes of the root directory are not: some run loses what was written into a slot |
| `DirectorySlots.DecodedEncoded` | pintos/src/filesys/directory.c:16-22 | a record is read from a slot as it was written |
| `DirectorySlots.AccessIsInside` | pintos/src/filesys/inode.c:47-55 | an access within the length of a file goes to a sector of its extent and not to its inode |
| `DirectorySlots.RecordedIffSectorApart` | pintos/src/filesys/directory.c:91-216 | after every run that writes records, the records that the slots hold are those written last, if and only if the slots are at least a sector apart |
| `DirectorySlots.FirstSlotAgain` | pintos/src/filesys/directory.c:184-216 | slot 1 is erased, then slot 0, and then a record is written into slot 0, with the directory closed after each: slot 1 is back on the disk, whatever the records |
| `DirectorySlots.SlotComesBack` | pintos/src/filesys/directory.c:184-216 | two slots are looked at, one is erased and the directory closed, then the other is erased and the directory closed: the first is back on the disk as it was before, whatever the slots and the bytes |
| `Synch.StepPlaced` | pintos/src/threads/synch.c:60-121 | every step keeps each runnable thread on the run queue or running and each waiting one on the list of its semaphore, none of them twice |
| `Synch.StepLocksOk` | pintos/src/threads/synch.c:192-236 | every step keeps the accounts of every lock, also a switch inside sema_up between the unblock and the increment |
| `Synch.RunKeepsLocks` | pintos/src/threads/synch.c:60-236 | both hold in every state of every run |
| `Synch.MutualExclusion` | pintos/src/threads/synch.c:192-236 | in every run a lock's value plus the number of threads between a completed down and the matching increment is exactly 1, and no thread's list element is on two lists |
| `Synch.PlacedOnOneList` | pintos/src/threads/thread.h:78-83 | a thread's list element is on the run queue or on one waiter list, not both |
| `Synch.Best` | pintos/src/threads/thread.c:567-587 | the scheduler takes the oldest ready thread of the highest priority |
| `Synch.StepTop` | pintos/src/threads/thread.c:255-281 | every step but a change of priority keeps that no ready thread outranks the running one |
| `Synch.RunKeepsTop` | pintos/src/threads/thread.c:255-281 | with fixed priorities that holds in every state of every run |
| `Synch.StepNoneLost` | pintos/src/threads/synch.c:60-121 | a step that does not preempt sema_up keeps, while threads wait, the value at most the number of woken threads that have not rechecked; what the value is, `SemaAccounts.StepAccounted` says |
| `Synch.RunLosesNothing` | pintos/src/threads/synch.c:60-121 | in every run in which sema_up is never preempted no wake-up is lost, whoever else barges in |
| `Synch.WakeupLost` | pintos/src/threads/thread.c:255-281 | a run, from a state in which no ready thread outranks the running one, in which the yield inside sema_up loses a wake-up: the lock is free with value 1 and no holder, one thread waits for it, no thread has been woken for it and none is inside sema_up |
| `Synch.NoneLostIffEqual` | pintos/src/threads/thread.c:255-281 | with fixed priorities no run loses a wake-up if and only if all priorities are equal |
| `SemaAccounts.StepAccounted` | pintos/src/threads/synch.c:60-121 | every step, on every semaphore, lock or not: the value rises by one at the end of an up, falls by one when a down gets through, and changes nowhere else; a down that finds zero queues its thread up last, an up wakes the first waiter, and a try-down never waits |
| `SemaAccounts.SemaphoreAccounts` | pintos/src/threads/synch.c:60-121 | over every run, from any state, the value of every semaphore is its first value plus the completed ups less the downs that got through, and its waiters are woken in the order in which they came |
| `SemaAccounts.StepPriority` | pintos/src/threads/thread.c:381-385 | a thread's priority changes only when it sets it |
| `SemaAccounts.StepSwitches` | pintos/src/threads/thread.c:255-360 | every step: a woken thread goes to the end of the run queue, a thread that gives way behind it; the processor changes hands if and only if its thread blocks, sleeps, yields or has woken one of higher priority, and then goes to the first ready thread of the highest priority, or is idle if there is none |
| `RunQueue.PrioArray.Insert` | pintos/src/threads/thread.c:714-720 | the thread comes last among the arrivals; count, bitmap and the queue of its priority follow |
| `RunQueue.PrioArray.Remove` | pintos/src/threads/thread.c:721-738 | the oldest thread of the highest priority is taken; count, bitmap and queues follow |
| `RunQueue.PrioArray.FirstBitIsTop` | pintos/src/threads/thread.c:721-738 | the first bit set is that of the highest priority present |
| `RunQueue.OldestHeadsQueue` | pintos/src/threads/thread.c:721-738 | taking the oldest thread of the highest priority takes the head off its queue and leaves the others alone |
| `RunQueue.RunQueues.ActiveInsert` | pintos/src/threads/thread.c:741-745 | the thread comes last among the active ones |
| `RunQueue.RunQueues.ExpiredInsert` | pintos/src/threads/thread.c:749-754 | the thread comes last among the expired ones, with a new time slice |
| `RunQueue.RunQueues.NextThreadToRun` | pintos/src/threads/thread.c:567-587 | the idle thread if and only if no thread is ready; otherwise the oldest one of the highest priority, of the active threads while there are any and then of the expired ones, which become the active ones; the others keep their order |
| `RunQueue.ChoosesBest` | pintos/src/threads/thread.c:567-587 | what the plain lists hand out is that thread, if and only if there is one |
| `RunQueue.Run` | pintos/src/threads/thread.c:682-773 | any sequence of insertions and switches gets what two plain lists would give |
| `RunQueue.NoneGoesMissing` | pintos/src/threads/thread.c:682-773 | over every sequence of insertions and switches each thread is handed out as often as it was put in, less the times it is still there |
| `RunQueue.ExpiredWait` | pintos/src/threads/thread.c:567-587 | as long as there are active threads for all switches only they are handed out, and all that expired are still there |
| `Swap.SwapArea.constructor` | pintos/src/vm/swap.c:22-38 | a partition without live slots |
| `Swap.SwapArea.WriteSwap` | pintos/src/vm/swap.c:42-86 | the page is stored in the first free slot or above the mark, unless all slots are live; then a clean overflow or, for a partition that is not a multiple of 8 sectors, a write past its end |
| `Swap.SwapArea.ReadSwap` | pintos/src/vm/swap.c:88-108 | returns the page of the slot and frees it |
| `Swap.SwapArea.FreeSlot` | pintos/src/vm/swap.c:110-139 | the slot is no longer live; live and free slots still divide the range below the mark, the free list ascends, and the slot below the mark is live |
| `Swap.SwapArea.Retreat` | pintos/src/vm/swap.c:110-139 | the mark goes down past free slots until the slot below it is live |
| `Swap.DividedCount` | pintos/src/vm/swap.c:110-139 | live and free slots together are all slots below the mark |
| `Swap.FillUp` | pintos/src/vm/swap.c:42-86 | filling the partition ends in the clean overflow if and only if its size is a multiple of 8 sectors |
| `Swap.Session` | pintos/src/vm/swap.c:42-139 | every proper run goes through if and only if it never saves a page while all slots are in use, and then every load gives exactly the page saved |
| `PageAlloc.Pools.constructor` | pintos/src/threads/palloc.c:48-69 | the pools are disjoint from each other and from the pages that hold their maps, and fill the free memory |
| `PageAlloc.MapFits` | pintos/src/threads/palloc.c:160-180 | the pages for a pool's map are enough for it, and one less would not be |
| `PageAlloc.Pools.GetMultiple` | pintos/src/threads/palloc.c:77-108 | the first run of free pages of the chosen pool is marked and nothing else changes; null if and only if there is none or none is asked for |
| `PageAlloc.Pools.FreeMultiple` | pintos/src/threads/palloc.c:124-149 | exactly the given pages become free, in the pool that they are from |
| `PageAlloc.GetThenFree` | pintos/src/threads/palloc.c:77-149 | getting pages and giving them back restores both pools |
| `Malloc.MallocInit` | pintos/src/threads/malloc.c:71-85 | the block sizes are the powers of two from 16 that are below half a page |
| `Malloc.BlocksFillPage` | pintos/src/threads/malloc.c:71-85 | as many blocks as fit behind the header of an arena |
| `Malloc.BlockAddress` | pintos/src/threads/malloc.c:284-294 | a block lies in the page of its arena past the header, and its number can be read off its address |
| `Malloc.BlockIsAt` | pintos/src/threads/malloc.c:266-282 | an address that passes the assertions on alignment is that of a block |
| `Malloc.PageCountSuffices` | pintos/src/threads/malloc.c:105-110 | the page count in 32-bit arithmetic is enough, and no more than needed, or zero, up to 2^32 - 12 bytes; from 2^32 - 11 on it is one |
| `Malloc.Allocator.Malloc` | pintos/src/threads/malloc.c:89-154 | a block that overlaps none handed out; it has room for `size` bytes if and only if `size` < 2^32 - 11 and is of the smallest size that does; null only for size 0 or when the pages cannot be had; no other block changes |
| `Malloc.Allocator.MallocSmall` | pintos/src/threads/malloc.c:122-154 | a block of the descriptor's size, from the free list or a new arena |
| `Malloc.Allocator.MallocBig` | pintos/src/threads/malloc.c:105-120 | a block of whole pages |
| `Malloc.Allocator.Free` | pintos/src/threads/malloc.c:218-264 | the block is no longer handed out, the others are as before, and an arena goes with its last block |
| `Malloc.Allocator.FreeArena` | pintos/src/threads/malloc.c:241-253 | the assertion on a wholly free arena holds, all its blocks are on the free list and leave it, and its page is free |
| `Malloc.PopConsistent` | pintos/src/threads/malloc.c:148-153 | taking a block keeps every arena's count equal to the number of its blocks on the free list |
| `Malloc.PushConsistent` | pintos/src/threads/malloc.c:238-242 | giving a block back keeps it too |
| `Malloc.DropConsistent` | pintos/src/threads/malloc.c:241-253 | giving an arena up keeps it too, for all others |
| `Malloc.LiveInArena` | pintos/src/threads/malloc.c:89-154 | a block that is handed out lies past its arena's header and in its pages |
| `Malloc.LiveApart` | pintos/src/threads/malloc.c:89-154 | blocks that are handed out do not overlap |
| `Malloc.LiveNotOwn` | pintos/src/threads/malloc.c:49-61 | no byte of a block that is handed out is in an arena header or a free block, where the allocator keeps its own data |
| `Malloc.NothingLeaks` | pintos/src/threads/malloc.c:218-264 | when nothing is handed out no arena is left |
| `Malloc.Run` | pintos/src/threads/malloc.c:89-264 | over every run of requests and valid frees the blocks held, told from the requests and the replies, are those handed out; they do not overlap and have room; and if none is held all pages have been given back |
| `Bitmaps.SetBit` | pintos/src/lib/kernel/bitmap.c:157-167 | sets this bit of a word and no other |
| `Bitmaps.ClearBit` | pintos/src/lib/kernel/bitmap.c:170-180 | clears this bit of a word and no other |
| `Bitmaps.FlipBit` | pintos/src/lib/kernel/bitmap.c:185-195 | inverts this bit of a word and no other |
| `Bitmaps.Bitmap.constructor` | pintos/src/lib/kernel/bitmap.c:99-110 | all bits are clear, whatever the storage held |
| `Bitmaps.Bitmap.Mark` | pintos/src/lib/kernel/bitmap.c:157-167 | sets exactly this bit |
| `Bitmaps.Bitmap.Reset` | pintos/src/lib/kernel/bitmap.c:170-180 | clears exactly this bit |
| `Bitmaps.Bitmap.Flip` | pintos/src/lib/kernel/bitmap.c:185-195 | inverts exactly this bit |
| `Bitmaps.Bitmap.Test` | pintos/src/lib/kernel/bitmap.c:198-204 | the value of the bit |
| `Bitmaps.Bitmap.SetMultiple` | pintos/src/lib/kernel/bitmap.c:218-229 | sets exactly the bits of the range to the value |
| `Bitmaps.Bitmap.Contains` | pintos/src/lib/kernel/bitmap.c:251-264 | true if and only if some bit of the range has the value |
| `Bitmaps.ScanIsLeast` | pintos/src/lib/kernel/bitmap.c:296-311 | a scan returns the least start of a run of equal bits, and fails if and only if there is none |
| `Bitmaps.Bitmap.FirstGroup` | pintos/src/lib/kernel/bitmap.c:296-311 | the scan of the words is the scan of the bits |
| `Bitmaps.Bitmap.ScanAndFlip` | pintos/src/lib/kernel/bitmap.c:320-327 | flips exactly the run found, or nothing |
| `Bitmaps.Bitmap.Write` | pintos/src/lib/kernel/bitmap.c:356-361 | the words over the beginning of the file; succeeds if and only if it is long enough |
| `Bitmaps.Bitmap.Read` | pintos/src/lib/kernel/bitmap.c:341-352 | the bits of the file's words, and unused bits are clear |
| `Bitmaps.SaveThenLoad` | pintos/src/lib/kernel/bitmap.c:341-361 | writing a bitmap and reading it into another of the same size copies the bits |
| `HashTable.TurnOffKeepsTop` | pintos/src/lib/kernel/hash.c:329-333 | turning off the lowest set bit keeps the highest, and gives zero exactly for a power of two |
| `HashTable.BestCount` | pintos/src/lib/kernel/hash.c:364-372 | the loop ends with a power of two of at least 4, more than a quarter of the elements and, above 4, at most half of them |
| `HashTable.BucketIsRemainder` | pintos/src/lib/kernel/hash.c:305-310 | with a power of two of buckets, masking the hash takes it modulo their number |
| `HashTable.Table.constructor` | pintos/src/lib/kernel/hash.c:25-42 | an empty table of four buckets |
| `HashTable.Table.FindElem` | pintos/src/lib/kernel/hash.c:305-326 | the one bucket that is searched holds an equal element if and only if the table does |
| `HashTable.Table.InsertElem` | pintos/src/lib/kernel/hash.c:416-421 | the set gains the element, in the bucket for its hash |
| `HashTable.Table.RemoveElem` | pintos/src/lib/kernel/hash.c:424-429 | the set loses the element |
| `HashTable.Table.Move` | pintos/src/lib/kernel/hash.c:395-410 | every element is kept, once, in its new bucket |
| `HashTable.Table.Rehash` | pintos/src/lib/kernel/hash.c:351-413 | every element is kept in its bucket, and when memory allows the load is balanced |
| `HashTable.Table.Insert` | pintos/src/lib/kernel/hash.c:98-110 | adds the element if and only if no equal one is there, and returns that one |
| `HashTable.Table.Replace` | pintos/src/lib/kernel/hash.c:114-127 | takes the place of the equal element, which is returned |
| `HashTable.Table.Find` | pintos/src/lib/kernel/hash.c:131-135 | the equal element, if any |
| `HashTable.Table.Delete` | pintos/src/lib/kernel/hash.c:144-154 | removes and returns the equal element, if any |
| `HashTable.OneAnswer` | pintos/src/lib/kernel/hash.c:314-326 | among elements of which no two are equal a search has one answer |
| `HashTable.Run` | pintos/src/lib/kernel/hash.c:98-154 | over every run, for every lawful hash and whenever memory runs out, the table replies as a set without equal elements does, and stays balanced if memory never runs out |
| `HashTable.Iterator.constructor` | pintos/src/lib/kernel/hash.c:199-208 | iteration starts before the first element |
| `HashTable.Iterator.Next` | pintos/src/lib/kernel/hash.c:218-235 | the next element, or none exactly at the end |
| `HashTable.Visit` | pintos/src/lib/kernel/hash.c:199-235 | iteration visits each element exactly once and ends |
| `Printf.ParseConversion` | pintos/src/lib/stdio.c:339-460 | the flags, the width and the precision that a conversion specification with literal numbers asks for, and where it ends |
| `Printf.EndsAreFirst` | pintos/src/lib/stdio.c:339-400 | flags and numbers go as far as there are flag characters and digits |
| `Printf.DigitsReadBack` | pintos/src/lib/stdio.c:501-513 | the digits of a number stand for it, in every base, with or without groups |
| `Printf.DigitsFit` | pintos/src/lib/stdio.c:475-513 | the digits and commas of a 64-bit number fit in the buffer |
| `Printf.BodyReadsBack` | pintos/src/lib/stdio.c:501-524 | so does what precision and flags make of them |
| `Printf.DigitsTop` | pintos/src/lib/stdio.c:501-513 | the digits of a number have no leading zero and no leading comma |
| `Printf.DigitsGrouped` | pintos/src/lib/stdio.c:501-513 | a comma stands exactly between full groups of digits |
| `Printf.DecimalAndOctal` | pintos/src/lib/stdio.c:138-141 | the digits of one number in bases 10 and 8 |
| `Printf.BothHexes` | pintos/src/lib/stdio.c:138-141 | and in base 16, with small and with capital letters |
| `Printf.BodyShape` | pintos/src/lib/stdio.c:501-524 | the digits, padded with zeros to the precision as far as the buffer allows; with the flag # an octal number starts with a zero |
| `Printf.RenderedPadding` | pintos/src/lib/stdio.c:526-547 | the output is as long as the width, or as the text if that is longer; the padding is spaces on the right, spaces on the left, or zeros behind sign and prefix, as the flags say |
| `Printf.BareMarks` | pintos/src/lib/stdio.c:483-499 | a minus sign is there if and only if the number is signed and negative, plus sign, space and prefix exactly as the flags ask for |
| `Printf.FillBuffer` | pintos/src/lib/stdio.c:501-524 | the buffer holds the digits, the precision and the leading zero, and never overflows |
| `Printf.FormatInteger` | pintos/src/lib/stdio.c:469-547 | outputs padding, sign, prefix, zeros and digits in order, and stays inside the buffer given |
| `Printf.Sink.Put` | pintos/src/lib/stdio.c:45-52 | the character is output, and stored if there is room |
| `Printf.Snprintf` | pintos/src/lib/stdio.c:25-42 | stores at most size - 1 characters of the text and a terminator, nothing beyond, and returns the full length |
| `Printf.ZeroPaddedOctal` | pintos/src/lib/stdio.c:469-547 | a number of at most `w` octal digits comes out as `w` octal digits that stand for it |
| `Ustar.StripIsSociable` | pintos/src/lib/ustar.c:65-73 | a stripped name has no dangerous prefix, stripping is idempotent, and it changes exactly the names that have one |
| `Ustar.StripTakesDots` | pintos/src/lib/ustar.c:65-73 | what is stripped is made of slashes and dots alone, up to a slash, and the rest is the name, or a dot if nothing or two dots are left |
| `Ustar.StripAntisocialPrefixes` | pintos/src/lib/ustar.c:65-73 | the loop strips the name |
| `Ustar.CalculateChksum` | pintos/src/lib/ustar.c:36-54 | the sum of the octets of the header with spaces in place of its checksum field |
| `Ustar.ParseOctalField` | pintos/src/lib/ustar.c:129-162 | the number of an octal field, or failure for overflow, a bad character, an empty or an unterminated field |
| `Ustar.ParsesDigits` | pintos/src/lib/ustar.c:129-162 | reading an octal field gives the number that its digits stand for |
| `Ustar.ParsesIff` | pintos/src/lib/ustar.c:129-162 | a field is read as a number if and only if it has octal digits for it, less than 2^32, at its start and a space or a null behind them |
| `Ustar.MakeHeader` | pintos/src/lib/ustar.c:82-118 | a header whose every character is as the format demands, if and only if the stripped name has at most 99 characters |
| `Ustar.ParseHeader` | pintos/src/lib/ustar.c:181-227 | the checks in their order and what they return |
| `Ustar.AcceptedIff` | pintos/src/lib/ustar.c:181-227 | a header is accepted if and only if magic, version, checksum, name, type and size are all as they should be, and is the end of the archive if and only if it is all zeros; the name, type and size are those of its fields |
| `Ustar.RoundTrip` | pintos/src/lib/ustar.c:82-227 | parsing the header made for a file gives its stripped name, type and size, 0 for a directory; a negative size of a regular file is refused as too large |
| `Ustar.MakeThenParse` | pintos/src/lib/ustar.c:82-227 | making and parsing gives the file back if and only if it is a directory or its size is not negative |
| `Ustar.DamageDetected` | pintos/src/lib/ustar.c:200-207 | a valid header with one character changed, outside the checksum field, is refused |
| `HeapSort.RootIsGreatest` | pintos/src/lib/stdlib.c:96-123 | in a heap no element is greater than the first |
| `HeapSort.Heapify` | pintos/src/lib/stdlib.c:96-123 | heap order from the start position on, by a permutation of the first `n` elements |
| `HeapSort.DoSwap` | pintos/src/lib/stdlib.c:66-79 | exactly the two elements are exchanged |
| `HeapSort.BuildHeap` | pintos/src/lib/stdlib.c:131-152 | the first loop makes the whole array a heap |
| `HeapSort.MoveRoot` | pintos/src/lib/stdlib.c:131-152 | a turn of the second loop extends the sorted end by the greatest of the rest |
| `HeapSort.Sort` | pintos/src/lib/stdlib.c:131-152 | a sorted permutation, for every array and total preorder |
| `HeapSort.BinarySearch` | pintos/src/lib/stdlib.c:184-207 | finds a match in a sorted array if and only if there is one |
| `Alarm.AlarmClock.TimerSleep` | pintos/src/devices/timer.c:105-130 | a sleeper with a deadline as many ticks from now as were asked for goes behind all with no later deadline, and all others keep their places |
| `Alarm.AlarmClock.TimerInterrupt` | pintos/src/devices/timer.c:203-211 | one tick more, and the first sleeper is woken if it is due, at most one; the kernel stops if it outranks a running thread other than idle |
| `Alarm.SleepKeepsOrder` | pintos/src/devices/timer.c:308-318 | the list stays ordered by deadline, and the one that was put in stands behind all with no later deadline and before all others |
| `Alarm.RunKeepsOrder` | pintos/src/devices/timer.c:292-318 | in every run the list stays ordered and nobody is woken before the deadline |
| `Alarm.EveryRequestServed` | pintos/src/devices/timer.c:105-130 | in every run from the start the requests for each thread, priority and deadline, told from the ticks asked for, are those still in line and those woken |
| `Alarm.WakeupWasAsked` | pintos/src/devices/timer.c:292-307 | every thread that is woken had asked for it, `n` ticks or more before |
| `Alarm.SleeperOnTime` | pintos/src/devices/timer.c:292-307 | a sleeper with `k` others ahead of it when it is due is woken exactly `k` ticks after its deadline, in every run that gets there |
| `Alarm.NegativeRequestDelays` | pintos/src/devices/timer.c:105-130 | a run from the start in which a negative request gets ahead of a sleeper that is due, which is then late |
| `Alarm.OnTimeIffNotNegative` | pintos/src/devices/timer.c:105-130 | sleepers are on time in every run from the start, as far as it goes, if and only if no request is negative |
| `Alarm.NeverStopsIff` | pintos/src/threads/thread.c:276-278 | waking stops the kernel in no run if and only if no sleeper can outrank a thread that can be running |

## Left out

- list_unique, list_max, list_min, the list accessors and pushing and popping at the ends: easy beside the operations that are modelled.
- bitmap_count, bitmap_any, bitmap_none, bitmap_all, bitmap_dump: loops like the one of `bitmap_contains`; the atomicity of the bit operations, which is the hardware's.
- hash_clear, hash_destroy, hash_apply, a failed allocation in hash_init and the hash functions themselves: the table is proved for every hash function that respects equality. Elements are values, not nodes linked through a field.
- sort: elements are values, and the copying of their bytes is not modelled.
- Printf.Snprintf: models a format that is one unsigned conversion, as the tar headers use it. Literal text, other conversions, widths and precisions given as arguments and length modifiers are left out, and a width is not limited to 32 bits.
- Printf.ParseConversion: widths and precisions given as arguments and length modifiers are left out.
- Ustar.StripAntisocialPrefixes: the comparisons of the source may read past the end of a short name; a name is a sequence here.
- Synch: condition variables, thread exit, and `sema_up` from an interrupt handler. Threads that come or go are threads that sleep: a thread that is created, and may take the processor from its creator at once, is one that the running thread starts.
- Synch.NoneLostIffEqual: is about runs in which no thread changes its priority.
- RunQueue: `expired_insert` is modelled although the kernel does not call it; the time slices only as far as it sets them.
- Alarm: putting a thread on the list is one step; the calibration, delays and the clock itself are the hardware's.
- Swap: the device is an array of sectors.
- PageAlloc: filling pages with zeros or 0xcc, and the locks of the pools. The panics on too little memory are preconditions.
- Malloc: the bytes in blocks, so that `calloc` and the copying of `realloc`, which only put these operations together, are left out; the locks of the descriptors; the magic number, which holds of every arena in the model.
- BufferCache.Cache.GetEntry: memory for an entry comes with memory for its sector; the source does not notice if the second allocation alone fails.
- CacheSteps: accesses are atomic, so that no entry has an active accessor between steps. The locks of the entries alone do not make them so: the look-up gives up the lock of the list before the entry is locked, and making an entry takes no lock of the list. The system calls hold one lock around file operations. The set of open inodes is fixed. `buffer_cache_flush`, which ends the use of the cache, and the periodic write-behind are left out.
- CacheSteps.ReuseAgreesIff: an entry that is known by the address is within the length of the other file, too.
- InodeIo.ReadAt: through the cache, the offsets of the accesses must be ones at which the cache agrees with the disk; without it (`InodeIo.Store.ReadAt`) there is no such condition. Offsets are not negative.
- InodeIo.WriteAt: the same.
- FileSystem: what the reads of the directory return is a parameter of each operation, a list of records, and not computed by the cache; DirectorySlots and SessionReads say of the bytes when it can differ from what was written. Opening and closing the root directory in each operation leaves no trace and is an outcome only; reading and writing the directory does not fail; the write-behind of a closed inode is the matter of BufferCache and DirectorySlots. `WriteBlock` writes whole blocks; the bytes are the matter of InodeIo. What the free map's file and the root directory hold is `freeMap` and `dir`, and not blocks of the disk.
- FileSystem.Files.InodeOpen: a block that is taken for an inode has no negative length; the number of its sectors is not cut to 32 bits.
- FileSystem.Files.Create: the size is not negative, as `inode_create` asserts.
- FileRuns.Run: is not about the free map's file and the root directory, which have an inode but no blocks of their own in the model.
- SessionReads.SessionRightIff: is about ranges whose places in the next sector, as far as the inode has them, are places of ranges, too.
- DirectorySlots.RecordedIffSectorApart: a name ends with zeros; the source leaves what was in the slot behind the end of the name.
- Device drivers, interrupts, context switches, page tables, user processes and system calls, frames and memory maps.
