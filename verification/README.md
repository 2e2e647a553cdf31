# Verification of the seekos kernel core

This project models the parts of the seekos kernel that carry its hardest promises and proves them with Dafny 4.11.
`dafny verify dfyconfig.toml` checks everything.

| files | what they model |
|---|---|
| `Base` | the option type and sequences without repetition |
| `Bits`, `BuddyBlocks`, `Pmm` | the buddy allocator for page frames |
| `FatDisk`, `FatTable`, `FatVolume`, `FatChains` | a FAT32 volume: write-back sector buffer, allocation table, cluster chains |
| `FatFile` | open files as byte sequences with a cursor |
| `FatNames`, `FatAdd`, `FatEntries`, `FatSearch`, `FatRemove`, `FatDir` | directories: long names, searching, adding, removing |
| `PagingAddr`, `PageWalk`, `PageRange`, `Paging` | recursive page tables |
| `SchedModel`, `SchedInv`, `SchedRun`, `SchedEffect`, `Sched` | the scheduler, as a state machine and as the code that takes its steps |
| `SlabModel`, `SlabHeap` | the slab allocator over shared memory |
| `VmArea`, `CopyCount`, `MmCopy` | vm-area lists and copying an address space |
| `LinkedList` | the circular list that all of them use |

Code that changes state is modelled by classes whose methods have the loops and branches of the source; each is proved
against a function or predicate of the old and the new state. Ghost fields carry the abstract state: the set of free
blocks, the set of chains, the objects that are out, the tree of tables. A class invariant that every method keeps is a
statement about every run. The scheduler interleaves on several processors, so its runs are sequences of steps, one step
per critical section, and its theorems are about all such sequences.

## How the parts fit the source

- Integers are unbounded; wrap-around is written out where the source has it: the free count of a volume, file offsets,
  the 32-bit byte count of the page-table loops, deadlines, ends of vm areas.
- Clocks, the frames that the page-frame allocator hands out, the pages for a new slab and time stamps are parameters or
  supplies given from outside. A kernel panic, a page fault, or running out of frames, is a failed result.
- Lists are sequences; `LinkedList` proves that the ring operations act on them that way.
- A scheduler step is enabled only where the source can execute it; `GoSleep` and `EndWait` need an event record because
  the code dereferences the pointer.

## What turned out differently from what one would expect

Each of these is a lemma or a clause below, with the exact condition under which the code does what is wanted.

- `remove_chain` on cluster 0 zeroes the media entry and counts a cluster that was not freed (`FatTable.RemoveFromZero`,
  `FatTable.RemoveCountsWhen`).
- `stretch_chain` reports a full volume although the last used cluster is free (`FatVolume.Fat.StretchChain`,
  `FatTable.FullWithFree`). At a refused entry its scan returns the flags of the entry read before in place of an error
  code, and can so report success without a cluster (`FatTable.PickedNothing`, `FatTable.NothingReported`).
- A failed seek leaves the cluster cursor at the end of the chain (`FatFile.File.Seek`). A short write reports success and
  counts a chunk that the file does not show (`FatFile.File.Write`). A read up to the end can allocate a cluster, and fail
  for want of one (`FatFile.File.Read`).
- `dir_next` needs a data region aligned to the cluster size (`FatDir.AlignmentNeeded`, `FatDir.MisalignedVolume`). The
  0xff test of `parse_lfn_name` compares a signed character and never succeeds.
- `ptm_map_pages` up to the very last page maps nothing (`PageRange.LastPage`). Its table loops, and those that prepare the
  direct mapping and the kernel area at start-up, see the page count modulo 2^20 (`PageRange.TableEndPage`,
  `PageRange.BootRanges`), so that a longer range can fault (`PageRange.LongRangeFaults`, `PageRange.ShortRange`). When the
  whole range gets mapped is a clause of `Paging.PageTables.MapPages`.
- After `sched_wait_event` a task has no event record, and `sched_sleep` then dereferences null; `SchedRun.SleepEnabled`
  says when it does not, `SchedRun.SleepFaultReached` is a run where it does. A spawned task cannot wait for a task it
  spawns (`SchedRun.SpawnedNeverLeads`, `SchedRun.GrandchildLost`). An event published before the waiter is switched away
  is lost (`SchedRun.WakeNeedsTick`). A sleep whose deadline wraps to 0 never ends (`SchedRun.SleepsToDeadline`).
- The range test of `slab_cache_free` runs past the slab, which is harmless for objects (`SlabModel.RangeOvershoots`,
  `SlabModel.RangeIsOwn`).
- The overlap test for fixed vm areas misses an area strictly inside the request (`VmArea.RefusedMeans`,
  `VmArea.EnclosingAccepted`), and the end of an area may wrap around (`VmArea.AreaList.FindSpace`,
  `VmArea.WrapAccepted`). User requests above 60 KiB are refused (`VmArea.AreaList.Reserve`).

## Model

| member | source | states |
|---|---|---|
| `Pmm.Kmem.constructor` | kernel/src/mm/pmm.c:306-342 | blank frame records, nothing free |
| `Pmm.Kmem.BuddyInit` | kernel/src/mm/pmm.c:348-370 | from any bitmap: the allocator is valid, and the usable and free frames are exactly those whose bit, f mod 64 of word f / 64, is 0 |
| `Pmm.Kmem.Alloc` | kernel/src/mm/pmm.c:372-407 | null exactly when the request exceeds 1024 pages or no aligned, fully free run of the least sufficient order exists; else the block was free, is now handed out, and the frames stay partitioned; on null nothing changes |
| `Pmm.Kmem.Free` | kernel/src/mm/pmm.c:409-446 | a handed-out block becomes free, all frames stay partitioned, and no two buddies below the top order are both free |
| `Pmm.Kmem.Coalesce` | kernel/src/mm/pmm.c:409-446 | the merging loop: the free frames grow by exactly the block, and the free set is fully merged again |
| `Pmm.Kmem.PageIsBuddy` | kernel/src/mm/pmm.c:448-462 | for any two frames: the record test answers exactly whether the second heads a free block of that order and is the buddy of the first |
| `Pmm.Kmem.Split` | kernel/src/mm/pmm.c:472-483 | halving down to the wanted order conserves the frames and keeps the free set disjoint and merged |
| `Pmm.Kmem.AddToFreeList` | kernel/src/mm/pmm.c:485-491 | lists, records and counters match the free set with the block added |
| `Pmm.Kmem.GetFromFreeArea` | kernel/src/mm/pmm.c:493-519 | lists, records and counters match the free set with the block taken |
| `Pmm.Kmem.AllocThenFree` | kernel/src/mm/pmm.c:372-446 | allocating and freeing again restores the same free blocks, handed-out blocks and counters |
| `Pmm.HistoryIndependent` | kernel/src/mm/pmm.c:348-519 | two allocators with the same usable and handed-out frames have the same free blocks in every order and the same counters, whatever splits and merges came before |
| `BuddyBlocks.CanonicalUnique` | kernel/src/mm/pmm.c:419-438 | a fully merged set of blocks is determined by the frames it covers |
| `BuddyBlocks.RunInOneBlock` | kernel/src/mm/pmm.c:372-407 | in a fully merged set every aligned free run lies inside one block, which is why allocation is complete |
| `FatVolume.Fat.constructor` | kernel/src/fs/fat32.c:1114-1171 | a mounted volume shows the raw disk |
| `FatVolume.Fat.SyncBuf` | kernel/src/fs/fat32.c:277-287 | the view of the volume is unchanged and equals the disk |
| `FatVolume.Fat.UpdateBuf` | kernel/src/fs/fat32.c:290-305 | the view is unchanged; the buffer holds the wanted sector |
| `FatVolume.Fat.SyncFs` | kernel/src/fs/fat32.c:308-333 | afterwards the disk equals the view; a stale information sector gets the free count at byte 488 and the last used cluster at byte 492, low byte first, and no other byte of the disk differs from the view |
| `FatVolume.Fat.GetFat` | kernel/src/fs/fat32.c:336-365 | the entry is the low 28 bits of the four bytes at 4 * clust of the table; free is 0, bad 0x0ffffff7, end of chain above that, a link 2 up to the cluster count, and everything else BROKEN; the view is unchanged |
| `FatTable.ClassifyIs` | kernel/src/fs/fat32.c:348-359 | the five ranges of entry values, both ways |
| `FatVolume.Fat.PutFat2` | kernel/src/fs/fat32.c:368-383 | changes the low 28 bits of one entry of one copy and nothing else in the view |
| `FatVolume.Fat.PutFat` | kernel/src/fs/fat32.c:386-396 | the table changes in that entry only, and mirrored copies stay equal |
| `FatVolume.Fat.ClustClear` | kernel/src/fs/fat32.c:501-521 | exactly the sectors of the cluster become zero |
| `FatVolume.Fat.StretchChain` | kernel/src/fs/fat32.c:430-492 | on any table: BROKEN exactly if the entry behind the chain is refused, FULL exactly if that is not free and the scan round the ring meets neither a free nor a refused entry, the flags of the entry read before if a refused one comes first; else the next cluster, going round from the last to 2, or the first free one behind the last used one, is linked, the table after each single write is as specified, and the free count stays the number of zero entries; without refused entries FULL exactly if no cluster but the last used one is free |
| `FatVolume.Fat.Scan` | kernel/src/fs/fat32.c:452-472 | the scan round the ring ends at the first free or refused entry behind the last used cluster, or back there |
| `FatVolume.PutDiskIs` | kernel/src/fs/fat32.c:386-396 | writing an entry to both copies replaces it in the table, keeps all data and keeps mirrored copies equal |
| `FatVolume.AvailStretch` | kernel/src/fs/fat32.c:430-492 | each successful extension uses up one of the clusters that could be hung in |
| `FatTable.AvailTaken` | kernel/src/fs/fat32.c:452-472 | once the last used cluster is taken, the table counts as full exactly if no cluster is free |
| `FatTable.FullWithFree` | kernel/src/fs/fat32.c:452-472 | a table with one free cluster, the last used one, that counts as full |
| `FatTable.PickedMeans` | kernel/src/fs/fat32.c:430-472 | what the search finds is free and the right one on any table; without refused entries it fails only with FULL, and exactly when only the last used cluster may be free |
| `FatTable.ChosenIs` | kernel/src/fs/fat32.c:439-472 | which cluster is taken, by cluster numbers: the next one if free, else the first free one above the last used, else the first one from 2 |
| `FatTable.PickedNothing` | kernel/src/fs/fat32.c:464-466 | success without a cluster is reported exactly if a new chain is started, the entry behind the last used cluster is refused, and the uninitialised flags happen to be 0 |
| `FatTable.NothingReported` | kernel/src/fs/fat32.c:464-466 | a table with a free cluster on which that happens |
| `FatVolume.Fat.RemoveChain` | kernel/src/fs/fat32.c:399-427 | on every table, cyclic ones included, terminates with the specified error and the specified table after each write; the free count stays right when it starts at a real cluster |
| `FatDisk.WithEntryTable` | kernel/src/fs/fat32.c:368-383 | writing one entry replaces it in that table copy, keeps its upper four bits, every other word of its sector and every other sector |
| `FatTable.RemoveCounts` | kernel/src/fs/fat32.c:399-427 | for any table: the number of writes is the number of clusters that became free |
| `FatTable.RemovePath` | kernel/src/fs/fat32.c:399-427 | on any table: the clusters along the links are freed, each once, and nothing else; it ends well exactly at an end of chain, and with BROKEN at a cluster it freed itself or a free, bad or refused entry |
| `FatTable.RemoveCountsWhen` | kernel/src/fs/fat32.c:399-427 | the free count stays right exactly if the removal starts at a cluster number of at least 2 or at an entry it refuses |
| `FatTable.RemoveFromZero` | kernel/src/fs/fat32.c:399-427 | started at entry 0 the removal zeroes the media entry and counts a cluster that was never freed |
| `FatChains.ChainNoDup` | kernel/src/fs/fat32.c:399-492 | chains of a well-formed table are acyclic |
| `FatChains.StartChain` | kernel/src/fs/fat32.c:475-477 | the first write of an extension keeps a set of disjoint chains and lowers the free count by one |
| `FatChains.JoinChains` | kernel/src/fs/fat32.c:479-485 | the second write joins two chains and leaves all others alone |
| `FatChains.StretchSteps` | kernel/src/fs/fat32.c:430-492 | after each of the two writes the table is a set of disjoint acyclic chains; in the end exactly that cluster has joined exactly that chain |
| `FatChains.DropHead` | kernel/src/fs/fat32.c:406-424 | one write of a removal drops the head of that chain only |
| `FatChains.RemoveSteps` | kernel/src/fs/fat32.c:399-427 | after write number k exactly the clusters up to position k of that chain are free and every other chain is as before |
| `FatChains.RemoveFrees` | kernel/src/fs/fat32.c:399-427 | in the end exactly that chain is gone and the free count has grown by its length |
| `FatFile.File.constructor` | kernel/src/fs/fat32.c:1903-1927 | opening positions at offset 0 of the file, with the first sector in the buffer |
| `FatFile.File.Seek` | kernel/src/fs/fat32.c:1433-1512 | from the start, the cursor or the end of the file: the cursor comes to exactly that position plus the distance, EOF exactly if that does not fit 32 bits, FULL exactly if it needs more clusters than the chain and the clusters that can still be hung in; no byte of the file changes; after FULL the chain has grown that far, and the file stays usable exactly if the old offset lies in the last cluster |
| `FatFile.File.SeekTo` | kernel/src/fs/fat32.c:1458-1512 | the same once the target is known, across sectors, clusters and going back |
| `FatFile.File.Follow` | kernel/src/fs/fat32.c:1472-1492 | follows links and extends the chain at its end; FULL exactly if the links and the clusters to be had do not reach that far; nothing of the file changes |
| `FatFile.File.Land` | kernel/src/fs/fat32.c:1494-1512 | writes the old sector back if it is dirty and reads the new one; the bytes of the file are the same |
| `FatFile.File.Read` | kernel/src/fs/fat32.c:1351-1384 | returns exactly the bytes from the cursor up to the end or the length; FULL exactly if the end of the read needs a cluster that is not to be had; the contents, the size and all other chains and data are unchanged |
| `FatFile.File.Write` | kernel/src/fs/fat32.c:1387-1430 | exactly if the end fits 32 bits and the clusters to be had before the call reach it, the contents become the old ones with the data laid over them at the cursor, the size the larger end; otherwise what a short write leaves behind is stated, and that success is still reported |
| `FatFile.File.WriteThenRead` | kernel/src/fs/fat32.c:1351-1512 | what is written and fits is read back byte for byte after a seek to its start |
| `FatFile.ByteAt` | kernel/src/fs/fat32.c:265-274 | byte i of a file is byte i mod 512 of sector i / 512, which lies in its cluster of the chain, clusters following each other from cluster 2 at the start of the data region |
| `FatFile.ClustersIs` | kernel/src/fs/fat32.c:1458-1461 | the cluster index of an offset is the offset divided by the cluster size |
| `FatFile.RoomStretch` | kernel/src/fs/fat32.c:430-492 | the length a chain can reach is not changed by extending it |
| `FatFile.SectAtInjective` | kernel/src/fs/fat32.c:265-274 | different sectors of a file are different sectors of the disk |
| `FatFile.DataWrite` | kernel/src/fs/fat32.c:1500-1505 | writing file data touches neither table copy |
| `FatNames.TakeChars` | kernel/src/fs/fat32.c:716-760 | one long-name entry adds exactly its characters to the name buffer |
| `FatNames.PutSfnName` | kernel/src/fs/fat32.c:656-673 | the loops build stem and extension in capitals, each padded |
| `FatNames.SfnBytes` | kernel/src/fs/fat32.c:656-673 | for any name, byte by byte: up to eight characters in front of the first dot, then up to three behind the next dot, blanks elsewhere |
| `FatNames.SfnCharIs` | kernel/src/fs/fat32.c:636-653 | letters become capitals, digits and the allowed signs stay, all else is an underscore |
| `FatNames.CrcStep` | kernel/src/fs/fat32.c:226-227 | each byte rotates the sum right by one bit and is added modulo 256 |
| `FatNames.CrcKnown` | kernel/src/fs/fat32.c:223-229 | the checksum of README.TXT |
| `FatNames.GetCrc` | kernel/src/fs/fat32.c:223-229 | the checksum is the rotate-and-add of all bytes |
| `FatAdd.PutFrag` | kernel/src/fs/fat32.c:693-713 | the thirteen characters at their places, two bytes each: the part, a zero, and 0xffff; the other fields stay; read back, it is the part |
| `FatAdd.MakeLfn` | kernel/src/fs/fat32.c:983-992 | a long-name entry carries its part, order number, mark and checksum, and zero type and cluster fields |
| `FatAdd.SfnRoundTrip` | kernel/src/fs/fat32.c:1006-1020 | name, attribute, start cluster, size 0 and the three dates and two times are read back from the new short entry |
| `FatAdd.NewGroup` | kernel/src/fs/fat32.c:976-1020 | the entries written for a name form one group that spells the name |
| `FatAdd.BeforeNew` | kernel/src/fs/fat32.c:763-815 | walking towards the new group passes everything in front of it as before |
| `FatAdd.AddThenSearch` | kernel/src/fs/fat32.c:763-1023 | the directory stays well formed, and its live files are the earlier ones, unchanged, and the new one; a name that was not found before is found at its new short entry |
| `FatAdd.NotThere` | kernel/src/fs/fat32.c:763-815 | what the search does not find is not among the live files |
| `FatAdd.ItemsLive` | kernel/src/fs/fat32.c:763-815 | no live file starts at a free entry |
| `FatSearch.GroupParse` | kernel/src/fs/fat32.c:716-760 | reading a group leaves exactly its long name, whatever the name buffer held before |
| `FatSearch.WalkIsSearch` | kernel/src/fs/fat32.c:763-815 | on a well-formed directory the walk of the code gives the result of the specification, whatever the name buffer held |
| `FatSearch.WalkAtLong` | kernel/src/fs/fat32.c:795-808 | on any directory: at a long name whose entries are not as many as announced, of one checksum, of at most 255 characters and in front of a short entry with that checksum, the search stops with an error; else it compares and goes on behind it |
| `FatSearch.ParseOnIs` | kernel/src/fs/fat32.c:716-760 | a parse succeeds exactly if the announced number of entries follow with one checksum and at most 255 characters; EOF exactly if the entries end first |
| `FatSearch.SearchMeans` | kernel/src/fs/fat32.c:763-815 | the search gives the first file whose long name agrees letter by letter up to case, or that has none and the wanted short name; EOF exactly if there is no such file |
| `FatSearch.NameEqIs` | kernel/src/fs/fat32.c:188-196 | names are equal exactly if they have the same length and the same characters up to the case of letters |
| `FatSearch.ShortIsFile` | kernel/src/fs/fat32.c:608-623 | every short entry in use in front of the end mark is a file |
| `FatSearch.FileIsShort` | kernel/src/fs/fat32.c:608-623 | every file is a short entry in use in front of the end mark, with long-name entries right before it |
| `FatRemove.DeleteItem` | kernel/src/fs/fat32.c:880-905 | marking the entries of a file as deleted takes that file out of the directory and leaves every other one |
| `FatRemove.OneAt` | kernel/src/fs/fat32.c:763-815 | two files do not end at the same entry |
| `FatEntries.EntryPut` | kernel/src/fs/fat32.c:602-605 | writing the entry under the cursor changes that entry of the directory only |
| `FatEntries.EntriesGrow` | kernel/src/fs/fat32.c:586-599 | a cleared cluster at the end of the chain appends zero entries |
| `FatDir.Dir.constructor` | kernel/src/fs/fat32.c:524-540 | the cursor stands at the first entry, of the root for cluster 0 |
| `FatDir.Dir.DirNext` | kernel/src/fs/fat32.c:543-571 | moves to the next entry across sectors and clusters; EOF exactly behind the last one |
| `FatDir.AlignmentNeeded` | kernel/src/fs/fat32.c:543-555 | the mask test finds cluster ends and nothing else exactly if the data region starts at a multiple of the cluster size |
| `FatDir.MisalignedVolume` | kernel/src/fs/fat32.c:543-555 | a volume in order whose data region is not aligned, where a cluster seems to end after its first sector |
| `FatDir.Dir.NextStretch` | kernel/src/fs/fat32.c:586-599 | behind the last entry the directory grows by one cluster of zero entries; FULL exactly if it cannot grow any more |
| `FatDir.Dir.ParseLfn` | kernel/src/fs/fat32.c:716-760 | on any entries exactly the specified outcome: the name buffer, length and checksum with the entry reached, or BROKEN or EOF |
| `FatDir.Dir.DirSearch` | kernel/src/fs/fat32.c:763-815 | on any directory exactly the result of the specified walk, with its error codes; on a well-formed one the first file that matches, or EOF if none does; the cursor stands at its short entry, and the place of its first entry is returned |
| `FatDir.Dir.RemoveEntries` | kernel/src/fs/fat32.c:880-905 | every entry from the given place up to the cursor gets the deleted mark, across sectors and clusters, and nothing else changes |
| `FatDir.Dir.Unlink` | kernel/src/fs/fat32.c:763-905 | the first file that matches is gone and every other one as before, or no file matches and nothing has changed |
| `FatDir.AddThenUnlink` | kernel/src/fs/fat32.c:763-1023 | adding a file under a new name and unlinking that name gives back the files there were |
| `FatDir.Dir.MatchLong` | kernel/src/fs/fat32.c:792-808 | a long name is compared only when the short entry behind it carries its checksum |
| `FatDir.Dir.FindRun` | kernel/src/fs/fat32.c:924-950 | a run of entries that may be overwritten is found, across sectors and appended clusters; FULL exactly if the first such run would end behind the last entry the directory can get |
| `FatDir.StopMeans` | kernel/src/fs/fat32.c:924-950 | the search for a run fails exactly if no run of that many entries that are free, behind the end mark or new, ends below the last entry the directory can get |
| `FatDir.SameItems` | kernel/src/fs/fat32.c:924-950 | a directory that only grew behind its end is well formed as before and has the same files |
| `FatDir.Dir.DirAdd` | kernel/src/fs/fat32.c:911-1023 | PARAM exactly for names not of 1 to 255 bytes, FULL exactly if no run of usable entries for the name can be had, and then the files are unchanged; else the directory is well formed, its files are the earlier ones and the new one, and if no file matched the name before, the search finds it at the new short entry under the cursor |
| `PagingAddr.PtrForms` | kernel/include/mm/mm.h:330-355 | the four pointer maps as arithmetic: base plus eight times the table position |
| `PagingAddr.PointerIteration` | kernel/include/mm/mm.h:330-355 | the PDE, PDPTE and PML4E pointers are two, three and four iterations of the PTE pointer |
| `PagingAddr.PteRoundTrip` | kernel/include/mm/mm.h:350-371 | mi_pte_to_ptr undoes mi_ptr_to_pte up to the page, with the sign extended, for every address |
| `PagingAddr.UpperRoundTrips` | kernel/include/mm/mm.h:330-367 | the three higher inverses give the first address under the entry |
| `PagingAddr.PageOfCanonical` | kernel/include/mm/mm.h:369-371 | for a canonical address the round trip gives the address of its page |
| `PagingAddr.PtePlace` | kernel/include/mm/mm.h:350-355 | where the entry of an address lies, and that this address is canonical |
| `PagingAddr.UpIndices` | kernel/include/mm/mm.h:126-140 | the indices of the entry page are those of the page moved one level down behind index 0x1fe |
| `PageWalk.OneTurn` | kernel/src/mm/ptm.c:73-78 | a walk through the recursive entry is the walk one level shorter |
| `PageWalk.EntryPage` | kernel/include/mm/mm.h:330-355 | the four-level walk of an entry pointer lands on the table that holds the entry, for every level |
| `PageWalk.WalkIsTable` | kernel/include/mm/mm.h:135-140 | the processor's walk with the four index fields is the level-by-level walk |
| `PageWalk.StoreLeaf` | kernel/src/mm/ptm.c:299-310 | storing a page entry changes the translation of that page only |
| `PageWalk.Attached` | kernel/src/mm/ptm.c:193-209 | hanging in a fresh frame and zeroing it adds one empty table and moves nothing else at any level |
| `PageRange.EntryAt` | kernel/include/mm/mm.h:330-355 | the word an entry pointer translates to is the word the walk consults |
| `PageRange.TableAt` | kernel/src/mm/ptm.c:206-206 | the page cleared through mi_pte_to_ptr is exactly the table the entry leads to |
| `PageRange.EndPage` | kernel/src/mm/ptm.c:279-283 | the entry loop ends at the page behind the range, modulo the size of the address space |
| `PageRange.TableEndPage` | kernel/src/mm/ptm.c:184-189 | the table loops end n mod 2^20 pages behind the start, for every n |
| `PageRange.LastPage` | kernel/src/mm/ptm.c:279-283 | for a range that ends with the last page the entry loop does not run, and below 2^20 pages the call returns |
| `PageRange.ShortRange` | kernel/src/mm/ptm.c:275-316 | below 2^20 pages and below the last page a mapping never faults, and returns exactly if every page was unmapped and the frames last for the missing tables |
| `PageRange.BootRanges` | kernel/src/mm/vmm.c:44-44 | the calls at start-up for 2^27 and 2^28 pages (also vmalloc.c, line 17) leave every level-2 table but that of the first page as it was, and take at most one frame |
| `PageRange.LongRangeFaults` | kernel/src/mm/ptm.c:275-316 | a longer range with a page that has no table behind the reach of the table loops is never mapped |
| `PageRange.ChildTree` | kernel/src/mm/vmalloc.c:25-43 | a directory with the upper half of the kernel's and its own recursive entry is a valid tree |
| `Paging.PageTables.constructor` | kernel/src/mm/ptm.c:73-78 | a root table with its recursive entry is a valid tree |
| `Paging.PageTables.Child` | kernel/src/mm/ptm.c:73-78 | the tables of a new address space: valid, and no user page is translated |
| `Paging.PageTables.FetchEntry` | kernel/src/mm/ptm.c:193-194 | reading through the window reads the word the walk consults |
| `Paging.PageTables.LinkFrame` | kernel/src/mm/ptm.c:195-207 | takes one frame, makes it the empty table of that prefix and moves nothing else |
| `Paging.PageTables.AllocRange` | kernel/src/mm/ptm.c:192-209 | every prefix of the range gets a table, none if it is empty; succeeds exactly if the frames last for the missing ones and uses exactly that many |
| `Paging.PageTables.AllocPml4es` | kernel/src/mm/ptm.c:184-211 | for every page count n: level-3 tables for exactly the pages from the first to n mod 2^20 pages on, if the frames last for the missing ones |
| `Paging.PageTables.AllocPdptes` | kernel/src/mm/ptm.c:214-242 | for every page count n: level-2 tables for exactly the pages from the first to n mod 2^20 pages on, if the frames last for the missing ones |
| `Paging.PageTables.AllocPdes` | kernel/src/mm/ptm.c:244-272 | for every page count n: level-1 tables for exactly the pages from the first to n mod 2^20 pages on, if the frames last for the missing ones |
| `Paging.PageTables.MapPages` | kernel/src/mm/ptm.c:275-316 | for every page count: returns exactly if the frames last for the missing tables and every page of the entry loop is unmapped and has a table, old or new; otherwise panics or faults at the first page that is in the way; the whole range gets mapped exactly if the call returns and the range ends below the last page; up to the last page no translation changes; every other page keeps its translation in any case, and no frame but tables changes |
| `Paging.PageTables.MapRange` | kernel/src/mm/ptm.c:286-313 | the entry loop: consecutive frames, or the first page that is mapped or has no table |
| `Paging.PageTables.UnmapPages` | kernel/src/mm/ptm.c:318-348 | returns exactly if every page of the entry loop was mapped; then none is, and the frames are given back in order; otherwise panics at the first unmapped page, or faults if that has no table; every other page keeps its translation |
| `Paging.PageTables.MapThenUnmap` | kernel/src/mm/ptm.c:275-348 | mapping and unmapping restores every translation and gives back the mapped frames; the unmapping never stops |
| `Sched.Scheduler.constructor` | kernel/src/proc/sched.c:40-55 | the initial state: idle tasks only |
| `Sched.Scheduler.NextAvailable` | kernel/src/proc/sched.c:92-122 | takes the first task that is ready, as it is, or whose sleep is over, with its kind and deadline cleared; null exactly if there is none; never meets a waiting task without an event record |
| `Sched.Scheduler.SchedAgain` | kernel/src/proc/sched.c:124-159 | is the specified step of the state machine and keeps the invariant |
| `Sched.Scheduler.KernelEnd` | kernel/src/proc/sched.c:189-217 | is the exit step: the task keeps the code it exits with, becomes a zombie at the end of the cleanup list and leaves its processor |
| `Sched.Scheduler.BeginWait` | kernel/src/proc/sched.c:238-246 | is the wait step up to the switch |
| `Sched.Scheduler.FinishWait` | kernel/src/proc/sched.c:249-250 | returns the data of the event and leaves the task without an event record |
| `Sched.Scheduler.ResumeEvent` | kernel/src/proc/sched.c:253-282 | wakes exactly the waiters of that kind in the active list, each with the data of the event, and tells whether there was one |
| `Sched.Scheduler.AddTask` | kernel/src/proc/sched.c:300-306 | a created task joins the end of the active list |
| `Sched.Scheduler.GoToSleep` | kernel/src/proc/sched.c:410-424 | sets the deadline and the state of the current task |
| `Sched.Scheduler.CreateTask` | kernel/src/proc/task.c:21-28 | a task gets an id that no task ever had |
| `Sched.Scheduler.Replace` | kernel/src/proc/task.c:300-336 | the current task becomes ready with a blank event record |
| `Sched.Scheduler.SearchZombie` | kernel/src/proc/sched.c:455-488 | finds the zombie exactly if id and group match, returns the code in its record, removes it for good, and never panics |
| `SchedInv.StepInv` | kernel/src/proc/sched.c:70-514 | every step of every processor keeps the invariant |
| `SchedInv.ExactlyOnePlace` | kernel/src/proc/sched.c:124-217 | every task but the idle ones is current on exactly one processor or stands exactly once in exactly one list |
| `SchedInv.IdleNeverQueued` | kernel/src/proc/sched.c:137-146 | idle tasks are in no list and on no other processor |
| `SchedRun.RunInv` | kernel/src/proc/sched.c:70-514 | the invariant holds after every run |
| `SchedRun.NoPanic` | kernel/src/proc/sched.c:465-470 | in every reachable state the cleanup list holds zombies only, and every waiting task in the active list has an event record |
| `SchedRun.ReapedOnce` | kernel/src/proc/sched.c:455-488 | in every run each exit code is handed out at most once |
| `SchedEffect.CodeReturned` | kernel/src/proc/sched.c:189-217 | over every run from the start: the code a wait returns for a task is the argument of a sched_exit that this task has called |
| `SchedEffect.DataDelivered` | kernel/src/proc/sched.c:238-282 | over every run: the data a wait returns is that of the event that woke the task, whatever is published later |
| `SchedRun.BoundedBypass` | kernel/src/proc/sched.c:92-159 | with k tasks ahead, a ready task or an expired sleeper is dispatched by tick k + 1 at the latest, whatever happens in between on any processor |
| `SchedRun.ReadyRuns` | kernel/src/proc/sched.c:92-159 | over every run: a ready task with k tasks ahead of it runs by tick k + 1 |
| `SchedRun.SleeperWakes` | kernel/src/proc/sched.c:92-159 | over every run: a sleeper whose deadline is past, with k tasks ahead of it, runs by tick k + 1 |
| `SchedRun.PickedTask` | kernel/src/proc/sched.c:100-113 | a tick takes only a ready task, which keeps its event record, or a sleeper whose time has come, which loses kind and deadline |
| `SchedEffect.TickTakes` | kernel/src/proc/sched.c:124-159 | with a task to take at position i: it runs and leaves the list, a running task goes to the end as ready, and nothing else changes |
| `SchedEffect.TickStays` | kernel/src/proc/sched.c:124-159 | with nobody to take: a running task goes on and nothing changes; else the idle task runs and a stopped task joins the list |
| `SchedRun.SleepBegins` | kernel/src/proc/sched.c:410-424 | after sched_sleep the task sleeps until now plus the time, modulo 2^64 |
| `SchedRun.SleepsToDeadline` | kernel/src/proc/sched.c:92-122 | in every run without a published sleep event a sleeper is not dispatched before its deadline, and with deadline 0 never |
| `SchedRun.WaitFinds` | kernel/src/proc/sched.c:455-488 | one search of sched_wait succeeds exactly if the zombie is there and in the group of the waiter |
| `SchedRun.SpawnedWait` | kernel/src/proc/sched.c:489-514 | over every run: a parent can reap a task it spawned exactly if the parent leads its own group |
| `SchedRun.SpawnedNeverLeads` | kernel/src/proc/sched.c:489-514 | over every run: a spawned task keeps the id of its parent as its group and never leads its own |
| `SchedRun.GrandchildLost` | kernel/src/proc/sched.c:455-514 | so over every run the wait of a spawned task for a task it spawned finds nothing, even when that is a zombie |
| `SchedRun.ForkedWait` | kernel/src/proc/sched.c:428-453 | over every run: a parent can reap a task it forked |
| `SchedRun.GroupKept` | kernel/src/proc/task.c:95-100 | over every run the group of a task never changes |
| `SchedRun.WaitLosesEvent` | kernel/src/proc/sched.c:249-250 | after a wait has ended the task has no event record |
| `SchedRun.SleepFaults` | kernel/src/proc/sched.c:410-424 | over every run: without an event record, until the task waits again or replaces its image, sched_sleep cannot be executed |
| `SchedRun.SleepEnabled` | kernel/src/proc/sched.c:410-424 | over every run from the start: sched_sleep can be executed exactly if the last creation, image replacement or wait for an event of the task is later than its last end of a wait |
| `SchedRun.RecordKept` | kernel/src/proc/sched.c:238-250 | over every run: a task has an event record exactly if it got one and has not ended a wait since |
| `SchedRun.SleepFaultReached` | kernel/src/proc/sched.c:410-424 | a run from the start after which a task acts and cannot execute sched_sleep |
| `SchedRun.WakeNeedsTick` | kernel/src/proc/sched.c:238-282 | over every run: the first event of the awaited kind wakes the waiter exactly if a tick of its processor came in between; before that it is lost |
| `SlabHeap.SizesFit` | kernel/src/mm/vmm.c:14-26 | every size class has room for an object in a slab |
| `SlabHeap.ClassFor` | kernel/src/mm/vmm.c:14-26 | there is a class exactly for requests of up to 8192 bytes: the least power of two from 8 on that is large enough, with one, two or four pages |
| `SlabHeap.Heap.constructor` | kernel/src/mm/vmm.c:112-126 | the caches before their first growth |
| `SlabHeap.Heap.SlabCreate` | kernel/src/mm/vmm.c:128-158 | threads the objects of new pages into one free list in address order and touches no other memory |
| `SlabHeap.Heap.Growth` | kernel/src/mm/vmm.c:171-181 | the new slab is the first of its cache; counters and all other slabs stay right |
| `SlabHeap.Heap.CacheAlloc` | kernel/src/mm/vmm.c:183-211 | null exactly for requests above the object size; else an object that was not out before, even when nothing was free and the cache had to grow |
| `SlabHeap.Heap.CacheFree` | kernel/src/mm/vmm.c:213-235 | finds a live object in the cache it came from and in no other, and puts it back on its own slab |
| `SlabHeap.Heap.Alloc` | kernel/src/mm/vmm.c:250-267 | null exactly if no size class is large enough; else the object comes from the first one that is, all other caches are unchanged, and it was not out before |
| `SlabHeap.Heap.FirstClass` | kernel/src/mm/vmm.c:250-262 | the first size class that is large enough |
| `SlabHeap.Heap.Free` | kernel/src/mm/vmm.c:269-287 | every live object returns to the slab it came from, whatever the order of caches and slabs; a foreign pointer is refused without effect |
| `SlabHeap.Heap.UserWrite` | kernel/src/mm/vmm.c:183-211 | writes of an owner inside its object never disturb the allocator |
| `SlabHeap.Conserved` | kernel/src/mm/vmm.c:171-235 | in every cache the free objects and those that are out make up the total |
| `SlabModel.LiveApart` | kernel/src/mm/vmm.c:128-235 | objects that are out overlap neither each other nor a free object nor a header, across all slabs and caches |
| `SlabModel.RangeIsOwn` | kernel/src/mm/vmm.c:219-222 | the range test holds of an object for its own slab only |
| `SlabModel.CountFits` | kernel/src/mm/vmm.c:136-141 | a slab holds as many objects as fit behind the header, one right behind the other |
| `SlabModel.RangeOvershoots` | kernel/src/mm/vmm.c:219-222 | the test accepts every address of the header-sized stretch behind the slab |
| `SlabModel.HeapUpdate` | kernel/src/mm/vmm.c:194-206 | a change of one free list keeps the whole heap in order |
| `SlabModel.HeapGrow` | kernel/src/mm/vmm.c:171-181 | a new slab keeps the whole heap in order |
| `VmArea.AreaList.constructor` | kernel/src/mm/vmalloc.c:16-22 | an empty list is in order |
| `VmArea.AreaList.FindFixed` | kernel/src/mm/vmalloc.c:70-94 | for every address and size, the end taken modulo 2^64: accepted exactly below the window end and when no area refuses; a disjoint list stays disjoint exactly if no area is strictly inside the request; a request behind the tail keeps the order |
| `VmArea.RefusedMeans` | kernel/src/mm/vmalloc.c:84-88 | the overlap test sees every overlap except that with an area strictly inside the request |
| `VmArea.EnclosingAccepted` | kernel/src/mm/vmalloc.c:84-88 | a request around an area is accepted and overlaps it |
| `VmArea.AreaList.FindSpace` | kernel/src/mm/vmalloc.c:96-169 | the first gap behind an area that is large enough, with all earlier gaps too small, else behind the last one, else the window start; all other areas stay in their order; null exactly if that reaches the window end; the order is kept exactly if the end does not wrap |
| `VmArea.WrapAccepted` | kernel/src/mm/vmalloc.c:96-169 | a first kernel request whose end wraps to 0 is accepted |
| `VmArea.AreaList.GetArea` | kernel/src/mm/vmalloc.c:171-182 | takes out exactly the area that starts at the address; all other areas stay, in their order |
| `VmArea.AreaList.Reserve` | kernel/src/mm/vmalloc.c:280-304 | refused exactly if empty, not smaller than the window start after rounding in 64 bits, or by the search; an open request gets exactly the first large enough place; with the window of user space every request above 60 KiB is refused |
| `MmCopy.Machine.MapArea` | kernel/src/mm/vmm.c:65-75 | one fresh frame per page, in order, and the missing page tables from the same supply; succeeds exactly if the frames last for both |
| `MmCopy.Machine.MapOne` | kernel/src/mm/vmm.c:70-73 | one page: its frame, then the tables its mapping lacks; succeeds exactly if these frames are there |
| `MmCopy.Machine.CopyArea` | kernel/src/mm/vmalloc.c:207-212 | every page of the area holds the bytes of the source page; no frame but those of the copy changes |
| `MmCopy.Machine.FillDirectory` | kernel/src/mm/vmalloc.c:35-38 | the upper half of the kernel's root table, the lower half empty |
| `MmCopy.Machine.Create` | kernel/src/mm/vmalloc.c:25-43 | an address space without pages and tables of its own, at the cost of one frame |
| `MmCopy.Machine.CopyNext` | kernel/src/mm/vmalloc.c:190-214 | one area: copied, or the frames do not last for the whole list |
| `CopyCount.NeededIs` | kernel/src/mm/ptm.c:184-272 | with pages mapped in ascending order, a page lacks exactly the tables its predecessor does not share |
| `CopyCount.EdgeMoves` | kernel/src/mm/ptm.c:275-316 | after a page is mapped, the tables there are those up to it |
| `MmCopy.Machine.Copy` | kernel/src/mm/vmalloc.c:184-218 | succeeds exactly if the frames last for the directory, all pages and all page tables; the same areas in the same order, the same pages with the same bytes, each in a frame of its own taken from the supply; the parent is unchanged |
| `LinkedList.Lists.Init` | kernel/include/base/linkedlist.h:28-30 | a ring of one node |
| `LinkedList.Lists.AddNext` | kernel/src/base/linkedlist.c:24-30 | the entry stands behind the node; no other ring is touched |
| `LinkedList.Lists.AddPrev` | kernel/src/base/linkedlist.c:16-22 | the entry stands in front of the node, for the head at the end; no other ring is touched |
| `LinkedList.Lists.RemoveEntry` | kernel/src/base/linkedlist.c:5-14 | the entry is out of the ring and a ring of its own |
| `LinkedList.Lists.RemoveNext` | kernel/src/base/linkedlist.c:54-74 | the first entry is taken out, null exactly if there is none |
| `LinkedList.Lists.RemovePrev` | kernel/src/base/linkedlist.c:33-52 | the last entry is taken out, null exactly if there is none |
| `LinkedList.Lists.IsEmpty` | kernel/include/base/linkedlist.h:55-57 | true exactly if the ring is the head alone |
| `LinkedList.Lists.Foreach` | kernel/include/base/linkedlist.h:36-37 | visits the entries in order, each once |
| `LinkedList.OtherRing` | kernel/src/base/linkedlist.c:5-30 | rings without the touched nodes stay rings |

## Left out

- Pmm.Kmem.BuddyInit: the boot code that sizes the frame database and fills the bitmap is not modelled; the bitmap may mark free only frames that have a record.
- Pmm.Kmem.Free: freeing a frame that is not the head of a handed-out block is outside the contract, as the code does not check it.
- FatVolume.Fat.constructor: the checks of `fat_probe` and `fat_mount` are left out; the geometry they accept is taken as not overlapping and as covering every cluster the table has an entry for.
- FatVolume.Fat.UpdateBuf: disk transfers succeed; the FAT_ERR_IO paths of the whole driver are left out.
- FatFile.File.constructor: a file opened here has at least one cluster; a directory entry with start cluster 0 is not modelled. The volume buffer does not hold a sector of the file, since file data bypasses that buffer.
- FatFile.File.Seek: the table is a set of chains, so the FAT_ERR_BROKEN returns are not reached; tables that are not are covered for `RemoveChain`, `StretchChain` and `GetFat`.
- FatDir.Dir.DirNext: the table is a set of chains and the data region is aligned, as for files; the FAT_ERR_BROKEN return for a bad link is not reached.
- FatDir.Dir.DirAdd: names hold no zero byte; the directory cursor of the source's callers and the time stamps are parameters.
- Paging.PageTables.MapPages: the attribute bits of an entry are one opaque value and the contract speaks of translations only; large pages, the translation buffer and access rights are left out; the ranges lie off the recursive entry. Frames go back to the buddy allocator as a list of frames only.
- Sched.Scheduler.SchedAgain: stacks, the context switch and the event dispatch before the lock are left out; a dispatch is a step of its own.
- Sched.Scheduler.CreateTask: ids do not wrap at 2^64, and failing allocations are left out.
- SlabHeap.Heap.CacheAlloc: the new pages come from outside and are only known to be whole pages that no slab occupies.
- SlabHeap.Heap.Free: freeing twice, or a pointer into the middle of an object, is outside the contract, as the code does not check it.
- MmCopy.Machine.Copy: the parent is the current address space, as in `task_fork`; device mappings are left out, as are the heap memory for records and copy buffer and the kernel tables that map the new directory. The kernel's tables are taken as they are at the start.
- FatDir.Dir.Unlink: the test that a removed directory is empty and the removal of the file's chain are not part of it; the latter is `RemoveChain`.
- Paths, renaming, time stamps and the VFS glue: easier than what is proved.
- The event subscriber list and the semaphores: only the waking of waiters is a step here.
- Drivers, interrupts, start-up of processors, ELF loading, terminal and shell: no contract beyond the hardware's.
- Nothing was executed; the source is modelled from its text.
