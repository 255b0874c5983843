# LarvaOS kernel: a model of the memory, file and task cores

A Dafny model of the C cores of the LarvaOS kernel and proofs about them. `dafny verify dfyconfig.toml`
checks everything.

* **Kernel heap** (`HeapTable`, `HeapRuns`, `Heap`, `Kheap`). The first-fit allocator and its byte table. A
  table is read as a set of disjoint runs of blocks; the two determine each other, every operation of the code
  is an operation on runs, and every history of requests refines an allocator that knows only runs and gaps.
* **Paging** (`PageSpace`, `PageBuild`, `Paging`). Two-level page tables as little-endian words in a physical
  memory of 2^32 bytes. An address space is a map over 2^20 pages; building one takes exactly 1026 heap
  blocks, setting an entry updates the map at one page, releasing gives exactly those blocks back.
* **copy_from_user** (`UserString`, `UserCopy`, `UserSetting`, `UserWorld`, `UserProgram`). A string crosses from
  a task into the kernel through a temporarily remapped page. Maps, block table and memory are as before, except for the caller's bytes
  and the borrowed page; the caller's bytes are the user's string. Switching directories reads the chunk through
  the directory loaded at that moment. The kernel's space and those of all live tasks lie on pages of their own,
  and allocating, freeing, adding, mapping and removing tasks and copying keep that; from the start of the kernel
  to a string of a loaded program in the caller's hands it is one theorem.
* **FAT16 reading** (`DiskStream`, `FatChain`, `Fat16`, `FatPosition`, `FatFile`, `FatDirectory`, `FatOpen`).
  Byte reads over sectors, cluster reads over chains, directory counting, 8.3 names and lookup. A chain is the one that the code's walk follows through
  the entries it reads. Where it reads them, and which values end a chain, differs from FAT16; the position is a
  parameter of the reader, and the two walks are compared.
* **Paths, numbers, tasks, descriptors, segments** (`PathParser`, `Stdlib`, `Tasks`, `FileTable`, `Gdt`).

`Words`, `Memory`, `Arith` and `Options` hold machine integers, physical memory, division and optional values.
Objects that the code updates in place (heap, pager, streams, task list, tables) are classes; buffers are
arrays; physical memory is a value held in a field. Where the source is wrong about itself the code is modelled
and the exact condition under which it does what its comments promise is proved:

| what goes wrong | where | exact condition | example |
|---|---|---|---|
| freeing an inner block frees the wrong run | memory/heap.c:147-158 | `HeapTable.ReleaseInside` | `HeapTable.WrongRunFreed` |
| block numbers turn negative above 2 GiB | memory/heap.c:100-103 | `Heap.BlockNumberOfAddress` | `Heap.FarBlockNegative` |
| only the first page of a range is mapped | memory/paging.c:143-147 | `Paging.WholeRangeMapped`, `Paging.FreshRangeMapped` | `Paging.SecondPageUnmapped` |
| a sector read runs over its buffer | disk/stream.c:41-46 | `DiskStream.SafeIsExact` | `DiskStream.ReadOverSectorEnd` |
| an entry of the FAT is looked up at a product instead of a sum | fs/fat16.c:301 | `FatPosition.CodedPositionExactly` | `Fat16.FirstEntryMissed` |
| the end marks of the FAT are not recognised | fs/fat16.c:329-352 | `FatChain.StopExactly`, `FatChain.WalkIsTrueExactly` | `FatChain.EndMarkFollowed` |
| a cluster read ignores the in-cluster offset when it counts | fs/fat16.c:373-376 | `FatChain.ReadIsChainExactly` | `FatChain.UnalignedReadMisses` |
| lookup scans as many entries as are live, not up to the end mark | fs/fat16.c:164-184, 506 | `FatDirectory.EveryLiveEntryScanned` | `FatDirectory.LiveEntryMissed` |
| removing a task leaves its successor's back link | task/task.c:38-51 | `Tasks.Scheduler.Remove` | `Tasks.RemoveFirstOfTwo` |
| a file position above 2^31 becomes a negative offset and reads the first cluster | fs/fat16.c:689 | `FatChain.FarReadExactly` | `FatFile.ReadFarBeyond` |
| seeking forward leaves the file | fs/fat16.c:720-733 | `FatFile.SeekStaysInFile` | `FatFile.ReadFarBeyond` |
| kfree(NULL) frees the run at block 0 | memory/heap.c:143-158, task/process.c:168 | `HeapTable.ReleaseOutside` | `HeapTable.RunAtZeroFreed` |
| without room for a descriptor fopen gives a number that is not open | fs/file.c:41-46 | `FileTable.Table.Fopen` | `FileTable.OpenWithoutRoom` |
| descriptor 512 is issued but never found | fs/file.c:43, 65 | `FileTable.Table.OpenIsFoundExactly` | `FileTable.OpenAll` |
| negative numbers do not survive itoa | libc/src/stdlib.c:50-54 | `Stdlib.RoundTripExactly` | `Stdlib.MinusOneLost` |

## Model

| member | source | states |
|---|---|---|
| Words.PageMask | src/kernel/arch/x86/memory/paging.c:102 | the mask 0xfffff000, taken bit by bit, recovers the page frame of any entry |
| Words.OrFlags | src/kernel/arch/x86/memory/paging.c:45-47 | flags or-ed into an aligned address do not disturb it |
| Words.OrKeepsPage | src/kernel/arch/x86/memory/paging.c:53 | any 12-bit value or-ed into an entry keeps its page frame |
| Words.BitOfOr | src/kernel/arch/x86/memory/paging.c:47 | every bit of an or is set if and only if it is set in one of the operands |
| Words.BitOfAnd | src/kernel/arch/x86/memory/paging.c:102 | every bit of an and is set if and only if it is set in both |
| Memory.ReadAfterWrite | src/kernel/arch/x86/memory/paging.c:101-103 | a word written is the word read back, and every other aligned word is unchanged |
| Memory.ByteOrder | src/kernel/arch/x86/memory/paging.c:101-103 | the four bytes of a stored word, lowest first, make up the word |
| HeapTable.EntryBits | src/kernel/arch/x86/include/memory/heap.h:5-8 | the type is in bits 0 to 3 of an entry, the first flag is bit 6, the successor flag bit 7 |
| HeapTable.FirstFit | src/kernel/arch/x86/memory/heap.c:172-207 | the result is the lowest free window of n blocks; none is returned only if no window exists |
| HeapTable.FreeIsUncovered | src/kernel/arch/x86/memory/heap.c:43-56 | in a table that encodes runs, a block is free exactly if no run covers it and flagged first exactly if a run starts there |
| HeapTable.OneTable | src/kernel/arch/x86/memory/heap.c:123-137 | a set of runs has one byte table |
| HeapTable.OneSetOfRuns | src/kernel/arch/x86/memory/heap.c:123-137 | a byte table encodes one set of runs |
| HeapTable.TakeKeeps | src/kernel/arch/x86/memory/heap.c:105-141 | marking a free window adds exactly one run to the encoded set |
| HeapTable.FreeKeeps | src/kernel/arch/x86/memory/heap.c:160-169 | zeroing from the first block of a run removes exactly that run |
| HeapTable.FreeUndoesTake | src/kernel/arch/x86/memory/heap.c:209-238 | freeing what was just taken restores the table byte for byte |
| HeapTable.ReleaseInside | src/kernel/arch/x86/memory/heap.c:143-170 | freeing a block of a run frees that run if and only if the block is its first or the run starts at block 0 |
| HeapTable.WrongRunFreed | src/kernel/arch/x86/memory/heap.c:147-158 | a table in which freeing the last block of one run frees another run |
| HeapTable.ReleaseKeeps | src/kernel/arch/x86/memory/heap.c:143-170 | whatever number is released, inside the table or not, what is left is the table of the runs without at most one |
| HeapTable.ReleaseOutside | src/kernel/arch/x86/memory/heap.c:143-158 | releasing a number outside the table changes nothing if and only if the byte found in place of its entry has the first flag or no run starts at block 0 |
| HeapTable.RunAtZeroFreed | src/kernel/arch/x86/task/process.c:168 | a one-run table that freeing NULL empties |
| HeapTable.FreeCountTake | src/kernel/arch/x86/memory/heap.c:130-137 | the free-block count falls by the length of the run taken |
| HeapTable.FreeCountRelease | src/kernel/arch/x86/memory/heap.c:160-169 | the free-block count rises by the length of the run released |
| HeapTable.FreeCountFit | src/kernel/arch/x86/memory/heap.c:172-207 | a one-block request is served if and only if some block is free |
| HeapRuns.SamePlacement | src/kernel/arch/x86/memory/heap.c:172-207 | the search on bytes finds the lowest gap between the runs |
| HeapRuns.StepRefines | src/kernel/arch/x86/memory/heap.c:209-238 | each request on the table does to the encoded runs what the abstract allocator does |
| HeapRuns.HistoryRefines | src/kernel/arch/x86/memory/heap.c:105-238 | after any history of requests that frees only live runs, the table is the encoding of the abstract allocator's runs |
| HeapRuns.BalancedHistoryRestores | src/kernel/arch/x86/memory/heap.c:105-238 | a history that ends with the runs it began with ends with the same bytes |
| Heap.BlocksForIsCeiling | src/kernel/arch/x86/memory/heap.c:26-36 | malloc asks for ceil(size/4096) blocks, and for none exactly if size is 0 or above 0xfffff000, where rounding wraps |
| Heap.BlockNumberOfAddress | src/kernel/arch/x86/memory/heap.c:94-103 | block number and address are inverse if and only if the block is below 2^19 |
| Heap.Heap.Create | src/kernel/arch/x86/memory/heap.c:58-82 | -EINVAL exactly for unaligned bounds or a table of the wrong size; otherwise an empty well-formed heap with every block free |
| Heap.Heap.GetFreeBlocks | src/kernel/arch/x86/memory/heap.c:172-207 | the lowest start of `size` consecutive free blocks, -ENOMEM exactly if there is none or size is 0 |
| Heap.Heap.MarkBlocksTaken | src/kernel/arch/x86/memory/heap.c:105-141 | -EINVAL for a start out of range; otherwise every byte of the new table, with the clamp, and one run where the window fits |
| Heap.Heap.MarkBlocksFree | src/kernel/arch/x86/memory/heap.c:143-170 | the new table, for any block number, with the walk back as coded and the byte found outside the table given |
| Heap.Heap.MallocBlocks | src/kernel/arch/x86/memory/heap.c:209-226 | the lowest window becomes one run at its address, or NULL and no change |
| Heap.Heap.Malloc | src/kernel/arch/x86/memory/heap.c:228-233 | the same for the rounded number of blocks of any 32-bit size |
| Heap.Heap.Free | src/kernel/arch/x86/memory/heap.c:235-238 | for any pointer: the run whose first block holds it goes away, for others in the pool the run at block 0, for others by the byte found; the heap stays well formed |
| Kheap.KernelHeap.constructor | src/kernel/arch/x86/memory/kheap.c:9-26 | the pool of 25600 blocks at 0x01000000 is accepted and all free |
| Kheap.EmptyPoolServes | src/kernel/arch/x86/memory/kheap.c:9-26 | in the empty pool every request that fits is served at 0x01000000, and the pool ends at 0x07400000 |
| Kheap.KernelHeap.Memset | src/kernel/libc/src/string.c:3-11 | the bytes of the interval get the value and no other byte changes |
| Kheap.KernelHeap.Kmalloc | src/kernel/arch/x86/memory/kheap.c:28-31 | NULL exactly if no window fits; otherwise one new run and a free count lower by its length |
| Kheap.KernelHeap.Kzalloc | src/kernel/arch/x86/memory/kheap.c:33-43 | additionally the first `size` bytes are zero and no byte of another live allocation changes |
| Kheap.KernelHeap.Kfree | src/kernel/arch/x86/memory/kheap.c:45-48 | for any pointer, NULL included: at most the one run named goes away, the free count rises by its length, memory is untouched |
| PageSpace.EntryAddressInjective | src/kernel/arch/x86/memory/paging.c:77-78 | two pages never share an entry |
| PageSpace.SetEntryIsUpdate | src/kernel/arch/x86/memory/paging.c:101-103 | writing one entry updates the map of 2^20 pages at that page only and keeps the tables |
| PageSpace.EntryMapAt | src/kernel/arch/x86/memory/paging.c:215-218 | the map at a page is the word found through directory and table |
| PageSpace.MapUnaffected | src/kernel/arch/x86/memory/paging.c:101-103 | writes outside a directory and its tables leave its map alone |
| PageSpace.SettingBackRestores | src/kernel/arch/x86/task/task.c:206-227 | an entry set and later set back leaves memory byte for byte as it was, except for a page written in between |
| PageSpace.PresentIsLowestBit | src/kernel/arch/x86/include/memory/paging.h:8 | the present flag is the lowest bit of an entry |
| PageSpace.ProcessorWalk | src/kernel/arch/x86/memory/paging.c:77-78 | the map gives the translation and presence that the processor finds by its two-level walk, with address bits 31-22, 21-12 and 11-0 |
| PageBuild.PartialIsPresent | src/kernel/arch/x86/memory/paging.c:53 | the finished directory has all its tables present if and only if the flags have the present bit |
| PageBuild.OffsetIsPageAddress | src/kernel/arch/x86/memory/paging.c:35-50 | the signed running offset, which passes 2^31, still gives the page address as a word |
| PageBuild.FreshEntryIsOr | src/kernel/arch/x86/memory/paging.c:47 | the or of page address and flags maps the page to itself and carries the flags |
| PageBuild.DirectoryEntryIsOr | src/kernel/arch/x86/memory/paging.c:53 | the directory entry is the table's address with the flags and the write bit |
| PageBuild.PartialExtends | src/kernel/arch/x86/memory/paging.c:36-54 | one round of the constructor adds one filled table and disturbs none before it |
| PageBuild.PartialIsComplete | src/kernel/arch/x86/memory/paging.c:36-54 | after 1024 rounds every one of the 2^20 pages maps to itself |
| PageBuild.AddSinglesUndone | src/kernel/arch/x86/memory/paging.c:109-119 | adding one-block runs and removing them leaves the runs there were |
| Paging.IndexesOfPage | src/kernel/arch/x86/memory/paging.c:77-78 | the two indexes of an address are those of its page number |
| Paging.Pager.FillTable | src/kernel/arch/x86/memory/paging.c:42-48 | the 1024 entries of one table map their pages to themselves; nothing outside the table changes |
| Paging.Pager.MakeNewAddressSpace | src/kernel/arch/x86/memory/paging.c:29-60 | with 1026 free blocks, a well-formed space on exactly 1026 new blocks, disjoint from all live ones, mapping every page to itself with the flags and changing no byte outside its blocks |
| Paging.Pager.GetIndexes | src/kernel/arch/x86/memory/paging.c:68-82 | -EINVAL and untouched indexes for an unaligned address, else the indexes of its page |
| Paging.Pager.SetEntry | src/kernel/arch/x86/memory/paging.c:84-107 | -EINVAL and no change for an unaligned address, else the map is updated at its page and no other byte changes |
| Paging.Pager.GetEntry | src/kernel/arch/x86/memory/paging.c:209-219 | the map at the page of the address, at page 0 for an unaligned one |
| Paging.Pager.MapPage | src/kernel/arch/x86/memory/paging.c:121-132 | -EINVAL for unaligned addresses, else the page gets the physical address or-ed with the flags |
| Paging.Pager.MapMemoryByRange | src/kernel/arch/x86/memory/paging.c:134-154 | nothing for an empty range, -EINVAL and no change for unaligned addresses, else the first page of the range is mapped and no other |
| Paging.Pager.MapVirtualMemory | src/kernel/arch/x86/memory/paging.c:156-196 | -EINVAL exactly for unaligned or reversed bounds, else the first page of a non-empty range is mapped |
| Paging.Pager.AlignAddress | src/kernel/arch/x86/memory/paging.c:198-207 | the least page address not below the pointer, 0 where that wraps |
| Paging.Pager.SwitchToPage | src/kernel/arch/x86/memory/paging.c:62-66 | what is loaded is the first word of the chunk as the directory loaded before shows it, physical before paging is on; what is recorded is that word as the new directory shows it |
| Paging.Pager.SwitchSeesChunk | src/kernel/arch/x86/memory/paging.c:62-66 | where both directories map the chunk to itself, a switch loads and records the directory the chunk names |
| Paging.Pager.InstallKernelPage | src/kernel/arch/x86/memory/paging.c:16-22 | only the first installation counts |
| Paging.Pager.ReleaseAddressSpace | src/kernel/arch/x86/memory/paging.c:109-119 | exactly the 1026 blocks of the space are freed |
| Paging.BuildEditRelease | src/kernel/arch/x86/memory/paging.c:29-119 | building a space, setting any entries and releasing it leaves the block table byte for byte as it was |
| Paging.WholeRangeMapped | src/kernel/arch/x86/memory/paging.c:134-154 | the whole range is mapped as wanted if and only if its other pages already were |
| Paging.FreshRangeMapped | src/kernel/arch/x86/task/process.c:81-90 | in a space that maps the range to itself, a program placed elsewhere is mapped whole if and only if it has one page |
| Paging.SecondPageUnmapped | src/kernel/arch/x86/memory/paging.c:143-147 | a program of two pages whose second page is not where it was mapped |
| UserString.CutIsUnique | src/kernel/libc/src/string.c:110-136 | the bytes up to the first zero or the limit are the only string a view starts with |
| UserCopy.StrNCpy | src/kernel/libc/src/string.c:110-136 | through the loaded directory, at most 255 bytes and up to the first zero go to the destination, no other byte changes, NULL copies nothing |
| UserCopy.Fetch | src/kernel/arch/x86/task/task.c:205-232 | both switches find the directories they are meant to; the string is in the temporary page, the kernel's directory is loaded, and outside that page memory is byte for byte as before |
| UserCopy.CopyFromUser | src/kernel/arch/x86/task/task.c:184-242 | block table, runs and both address spaces as before on every exit; -EINVAL and -ENOMEM exactly as coded with nothing changed; on success the user's bytes arrive up to and with the first zero, or the smaller of size and 255 of them, and no other byte outside the borrowed page changed |
| UserCopy.CopyLengthIs | src/kernel/libc/src/string.c:119-128 | for every string and size there is one such number of bytes |
| UserCopy.SettingKept | src/kernel/arch/x86/task/task.c:184-242 | what copy_from_user leaves is again a state it can be called in |
| UserCopy.NegativeSizeNeverFits | src/kernel/arch/x86/task/task.c:188-201 | sizes below one always end in -ENOMEM |
| UserCopy.ConstructedIsIdentity | src/kernel/arch/x86/memory/paging.c:29-60 | a fresh space is a present identity mapping if and only if its flags have the present bit |
| UserSetting.InitializeVm | src/kernel/core/memory.cc:46-52 | before paging is on, with 1026 free blocks: a kernel space in live pages that maps every page to itself with flags 7, loaded and translating |
| UserSetting.NewTaskSpace | src/kernel/arch/x86/task/task.c:76-77 | an identity mapping with flags 5 on new pages makes copy_from_user callable for the task and keeps it callable for all tasks before |
| UserSetting.MappingKeepsSetting | src/kernel/arch/x86/memory/paging.c:121-132 | mapping a page of a task keeps copy_from_user callable if and only if the pages of the two chunks stay mapped to themselves |
| UserSetting.MapBinary | src/kernel/arch/x86/task/process.c:81-90 | -EINVAL exactly for an unaligned program or one whose end wraps below it, else page 0x400 gets the program's address with flags 7; copy_from_user stays callable |
| UserWorld.KzallocInWorld | src/kernel/arch/x86/memory/kheap.c:33-43 | allocating keeps the spaces of the kernel and all tasks |
| UserWorld.KfreeInWorld | src/kernel/arch/x86/memory/kheap.c:45-48 | freeing keeps them if and only if what is freed belongs to none of them |
| UserWorld.AddTask | src/kernel/arch/x86/task/task.c:76-77 | a new task's space joins them |
| UserWorld.MapProgram | src/kernel/arch/x86/task/process.c:81-90 | mapping a task's program keeps them all |
| UserWorld.RemoveTask | src/kernel/arch/x86/task/task.c:59-69 | releasing a task's space keeps all others |
| UserWorld.CopyString | src/kernel/arch/x86/task/task.c:184-242 | copy_from_user to memory apart from the spaces keeps them all |
| UserProgram.RunProgram | src/kernel/arch/x86/task/process.c:100-172 | starting the kernel, loading a program, making its task, mapping it and copying a string of its first page gives the caller the program's own string, or -ENOMEM if the program finds no room |
| DiskStream.SafeIsExact | src/kernel/arch/x86/disk/stream.c:26-59 | all reads of the sector buffer stay inside it if and only if the read starts at a sector or stays in one |
| DiskStream.ReadOverSectorEnd | src/kernel/arch/x86/disk/stream.c:41-46 | a two-byte read that leaves the buffer |
| DiskStream.SpliceDisk | src/kernel/arch/x86/disk/stream.c:51-55 | two neighbouring reads make one long read |
| DiskStream.Stream.Seek | src/kernel/arch/x86/disk/stream.c:20-24 | the position is set |
| DiskStream.Stream.Read | src/kernel/arch/x86/disk/stream.c:26-59 | the buffer gets the flat disk slice at the position, nothing else in it changes, and the position moves by total |
| FatChain.WalkFromMiddle | src/kernel/arch/x86/fs/fat16.c:326-354 | restarting the walk from its j-th cluster is continuing it, for any entry function |
| FatChain.FarReadExactly | src/kernel/arch/x86/fs/fat16.c:319-376 | where the chain does not reach a position, a read of up to a cluster fails if and only if the position is below 2^31; from there on it delivers bytes around the first cluster |
| FatChain.ReadFromIsReadPosition | src/kernel/arch/x86/fs/fat16.c:361-402 | round by round, from an offset that is not negative, the reader takes every byte from its closed-form position |
| FatChain.StopExactly | src/kernel/arch/x86/fs/fat16.c:329-352 | the stop test agrees with FAT16 on an entry if and only if it is 0 or below 0xFFF0 and none of the five 12-bit values; no value from 0xFFF0 upwards stops the walk |
| FatChain.WalkIsTrueExactly | src/kernel/arch/x86/fs/fat16.c:326-354 | the walk follows the table's chain, link for link, if and only if each entry before is judged alike |
| FatChain.EndMarkFollowed | src/kernel/arch/x86/fs/fat16.c:329-352 | a file of one cluster whose end mark is taken for a cluster |
| FatChain.ReadPositionPastCluster | src/kernel/arch/x86/fs/fat16.c:373-376 | behind a cluster end the byte read is the chain's byte if and only if the next cluster is the neighbouring one |
| FatChain.ReadIsChainExactly | src/kernel/arch/x86/fs/fat16.c:361-402 | all bytes are read from their places in the chain if and only if every cluster end crossed is followed by the neighbouring cluster |
| FatChain.UnalignedReadMisses | src/kernel/arch/x86/fs/fat16.c:373-376 | a concrete read from the middle of a cluster that takes a wrong byte |
| FatChain.WithinClusters | src/kernel/arch/x86/fs/fat16.c:361-402 | reads from a cluster boundary or inside a cluster cross no end and follow just the links to their last byte |
| FatChain.FirstClusterStart | src/kernel/arch/x86/fs/fat16.c:279-282 | the data of cluster 2 starts at the first sector behind the root directory |
| FatChain.NextClusterStart | src/kernel/arch/x86/fs/fat16.c:279-282 | a cluster starts one cluster behind another if and only if its number is one higher |
| FatChain.FlatAt | src/kernel/arch/x86/fs/fat16.c:279-282 | byte x of the concatenated clusters stands at its chain position on the disk |
| FatPosition.CodedPositionExactly | src/kernel/arch/x86/fs/fat16.c:300-301 | for 16-bit reserved sectors and clusters the position computed, wrap-around included, is that of the entry if and only if both are zero |
| Fat16.FirstEntryMissed | src/kernel/arch/x86/fs/fat16.c:300-301 | with one reserved sector the entry of cluster 2 is looked up at byte 2048 instead of 516 |
| Fat16.EntryInSector | src/kernel/arch/x86/fs/fat16.c:300-308 | for any reserved sectors and cluster, neither position makes an entry run over the end of a sector |
| Fat16.EntryReadable | src/kernel/arch/x86/fs/fat16.c:300-308 | with either position an entry can be read if and only if its two bytes lie on the disk |
| Fat16.FirstEntryOfCodedReader | src/kernel/arch/x86/fs/fat16.c:300-301 | with one reserved sector the coded reader takes the entry of cluster 2 from byte 2048 |
| Fat16.FatReader.GetFatEntry | src/kernel/arch/x86/fs/fat16.c:289-317 | the little-endian 16-bit word at the position where entries are located, for any choice of that position |
| Fat16.FatReader.GetClusterForOffset | src/kernel/arch/x86/fs/fat16.c:319-359 | the cluster of the offset in the chain, the first one for a negative offset, -EIO exactly if a stop value comes before it |
| Fat16.FatReader.ReadInternal | src/kernel/arch/x86/fs/fat16.c:361-402 | for offsets of either sign: 0 exactly if no stop value is met on the links followed; then every byte is the one at its read position; bytes outside the interval stay |
| Fat16.FatReader.ChainIsFlat | src/kernel/arch/x86/fs/fat16.c:361-402 | chain bytes fetched are the slice [offset, offset+total) of the concatenated clusters, where these lie on the disk |
| Fat16.FatReader.ReadSlice | src/kernel/arch/x86/fs/fat16.c:361-402 | a read from a cluster boundary or inside a cluster leaves that slice in the buffer, exactly if the chain reaches its last byte |
| Fat16.FatReader.ReadInCluster | src/kernel/arch/x86/fs/fat16.c:279-282 | a read inside the k-th cluster d of a chain leaves the disk slice from sector endingSector + (d - 2) * sectorsPerCluster in the buffer, -EIO exactly if the chain has no k-th cluster |
| Fat16.FatReader.WithinClusterExactly | src/kernel/arch/x86/fs/fat16.c:373-376 | a read starts at a cluster boundary or stays inside a cluster if and only if no byte of it lies behind the cluster of its round |
| Fat16.FatReader.ReadItems | src/kernel/arch/x86/fs/fat16.c:684-706 | for any 32-bit position: nmemb exactly if no item's walk meets a stop value; then every item is fetched from its offset as an int. For items that end below 2^31, at cluster boundaries or inside clusters, that is exactly if the chain reaches the last byte, and all items together are the slice of the file from the position |
| FatFile.FatDescriptor.Seek | src/kernel/arch/x86/fs/fat16.c:708-745 | -EINVAL, -EIO and the new position exactly as coded |
| FatFile.FatDescriptor.Read | src/kernel/arch/x86/fs/fat16.c:684-706 | reads from the position, which stays |
| FatFile.SeekStaysInFile | src/kernel/arch/x86/fs/fat16.c:720-733 | seeking forward from inside the file stays behind the old position and inside the file if and only if the sum is below its size |
| FatFile.ReadFarBeyond | src/kernel/arch/x86/fs/fat16.c:684-733 | in a file of 1.5 GiB with one cluster two accepted seeks lead past the end, where a read succeeds with the first cluster |
| Fat16.TotalIsProduct | src/kernel/arch/x86/fs/fat16.c:691-701 | the bytes of nmemb items are nmemb times size |
| FatDirectory.CountItems | src/kernel/arch/x86/fs/fat16.c:147-190 | the number of entries before the end mark that are not deleted |
| FatDirectory.EveryLiveEntryScanned | src/kernel/arch/x86/fs/fat16.c:502-506 | the lookup comes to every live entry if and only if no deleted entry stands before a live one |
| FatDirectory.LiveEntryMissed | src/kernel/arch/x86/fs/fat16.c:164-184 | a directory whose only live entry is not scanned |
| FatDirectory.DecodeInvertsPadding | src/kernel/arch/x86/fs/fat16.c:243-272 | a blank-padded 8.3 entry decodes to NAME or NAME.EXT, for all names and extensions that fit |
| FatDirectory.DataTxt | src/kernel/arch/x86/fs/fat16.c:262-272 | the entry of DATA.TXT, byte by byte, decodes to that name |
| FatDirectory.ToProperString | src/kernel/arch/x86/fs/fat16.c:243-260 | the field up to its first blank or zero is appended and terminated |
| FatDirectory.GetFullRelativeFilename | src/kernel/arch/x86/fs/fat16.c:262-272 | the buffer holds the decoded name as a C string |
| FatDirectory.ToLowerIsOr | src/kernel/libc/src/ctype.c:18-28 | the lower-case letter is the upper-case one with the bit 0x20 set |
| FatDirectory.SameLetter | src/kernel/libc/src/ctype.c:18-28 | two characters compare as equal if and only if they are the same or the two cases of one letter |
| FatDirectory.SameName | src/kernel/libc/src/strings.c:3-18 | names without small letters compare as equal if and only if they are the same |
| FatDirectory.SignedIs | src/kernel/libc/src/strings.c:9 | a compared character is the byte read as a signed 8-bit number |
| FatDirectory.StrCaseCmp | src/kernel/libc/src/strings.c:3-18 | zero exactly for strings equal up to the case of letters, else the first difference of signed characters |
| FatDirectory.FindItem | src/kernel/arch/x86/fs/fat16.c:502-523 | the last of the first `total` entries whose decoded name equals the query up to case, or none |
| FatOpen.ComponentsAreText | src/kernel/arch/x86/fs/path_parser.c:17-51 | components of a C string are C strings |
| FatOpen.GetDirectoryEntry | src/kernel/arch/x86/fs/fat16.c:544-574 | an item exactly for a path of one component that names an entry of the root directory |
| FatOpen.Open | src/kernel/arch/x86/fs/fat16.c:583-622 | -EROFS, -ENOMEM and -EIO in that order, success exactly for reading such a path |
| PathParser.FirstComponent | src/kernel/arch/x86/fs/path_parser.c:45-50 | a path that starts with no slash is its first component followed by the components of the rest |
| PathParser.ComponentsOfJoin | src/kernel/arch/x86/fs/path_parser.c:17-51 | joining non-empty slash-free parts with slashes and taking components gives the parts back |
| PathParser.GetAndRemovePrefix | src/kernel/arch/x86/fs/path_parser.c:17-51 | the first component and the suffix behind it, NULL exactly if there is no component |
| PathParser.ParseOne | src/kernel/arch/x86/fs/path_parser.c:53-66 | a new node for the first component, or NULL |
| PathParser.PathParse | src/kernel/arch/x86/fs/path_parser.c:82-110 | a linked list that carries the components of the path in order, NULL exactly for a path that does not start with a slash or has no components |
| PathParser.ParseOfJoin | src/kernel/arch/x86/fs/path_parser.c:9-110 | parsing inverts joining: the list carries the parts |
| Stdlib.CDivMod | src/kernel/libc/src/stdlib.c:13-15 | the quotient and remainder used are those of C, rounded towards zero |
| Stdlib.NumeralMeansValue | src/kernel/libc/src/stdlib.c:50-54 | for bases 2 to 36 the characters of a non-negative value stand for it, are digits and have no leading zero |
| Stdlib.DigitCharIs | src/kernel/libc/src/stdlib.c:14 | the characters written are 0-9 and a-z |
| Stdlib.NegativeDigitChar | src/kernel/libc/src/stdlib.c:14 | a negative remainder is written as the character that far before 0 |
| Stdlib.AsciiClasses | src/kernel/libc/src/stdlib.c:34-47 | blanks, digits and signs are those of ASCII |
| Stdlib.Itoa | src/kernel/libc/src/stdlib.c:3-27 | the buffer holds the numeral, most significant character first, and its terminator |
| Stdlib.ReverseInPlace | src/kernel/libc/src/stdlib.c:19-24 | the first n characters are turned round, the others stay |
| Stdlib.Atoi | src/kernel/libc/src/stdlib.c:29-54 | the value of the digits behind blanks and a sign, wrapped to 32 bits |
| Stdlib.WrapStep | src/kernel/libc/src/stdlib.c:47-51 | accumulating with wrap-around is wrapping the exact value |
| Stdlib.RoundTripExactly | src/kernel/libc/src/stdlib.c:3-54 | atoi undoes itoa in base ten if and only if the number is not negative |
| Stdlib.SignedMeaning | src/kernel/libc/src/stdlib.c:29-54 | atoi of the numeral of n behind blanks and a sign is n or -n |
| Stdlib.MinusOneLost | src/kernel/libc/src/stdlib.c:3-54 | -1 is written as the character before 0 and read back as 0 |
| Tasks.OneRound | src/kernel/arch/x86/task/task.c:21-29 | n steps in a circle of n meet every position once and come back |
| Tasks.Scheduler.GetNextTask | src/kernel/arch/x86/task/task.c:21-29 | the successor of the current task in the circle of listed tasks |
| Tasks.Scheduler.Append | src/kernel/arch/x86/task/task.c:110-120 | the task becomes the last of a list whose links mirror each other; the first task becomes current |
| Tasks.Scheduler.Remove | src/kernel/arch/x86/task/task.c:31-57 | the task leaves the forward list, a removed current task hands over to its successor, and the back links stay right if and only if it was the last |
| Tasks.RemoveFirstOfTwo | src/kernel/arch/x86/task/task.c:31-57 | two tasks of which the second still points back to the removed first |
| Tasks.Scheduler.RunOneRound | src/kernel/arch/x86/task/task.c:132-141 | as many switches to the next task as there are tasks run each exactly once and return to the start |
| Tasks.ProcessTable.GetFreeSlot | src/kernel/arch/x86/task/process.c:174-185 | the lowest free slot, -ENOMEM exactly if there is none |
| Tasks.ProcessTable.MakeNewTask | src/kernel/arch/x86/task/task.c:94-130 | a new listed task of the process, or -ENOMEM and the list as it was |
| Tasks.ProcessTable.ReleaseLast | src/kernel/arch/x86/task/task.c:59-69 | releasing the task listed last restores the list before it |
| Tasks.ProcessTable.LoadForSlot | src/kernel/arch/x86/task/process.c:100-172 | -ESRCH for a taken slot, the first error of the steps otherwise, with table and list as they were; on success the slot holds a new process paired with a new task |
| Tasks.ProcessTable.LoadProcess | src/kernel/arch/x86/task/process.c:187-203 | -ENOMEM for a full table, else the error of the first step that fails, with nothing changed, else success: the lowest free slot is filled and slots and listed tasks stay paired one to one |
| FileTable.ModeOfIs | src/kernel/arch/x86/fs/file.c:73-91 | r, w and a as first characters and no others stand for the three modes |
| FileTable.Table.OpenIsFoundExactly | src/kernel/arch/x86/fs/file.c:63-71 | an open descriptor is found if and only if it is not number 512 |
| FileTable.Table.MakeDescriptor | src/kernel/arch/x86/fs/file.c:34-53 | the lowest free slot gets the descriptor numbered one above it, -ENOMEM exactly if none is free; without room the slot stays free and the number goes to address 0 |
| FileTable.Table.Fopen | src/kernel/arch/x86/fs/file.c:145-214 | positive exactly if the disk is bound, the mode string starts with r, the path starts with a slash and has one component that names an entry, there is room for the file and a slot is free; the number is open exactly if there was room for the descriptor; else 0 and no change |
| FileTable.Table.Fclose | src/kernel/arch/x86/fs/file.c:277-299 | an open descriptor below 512 that the filesystem closes frees its slot and no other |
| FileTable.OpenAll | src/kernel/arch/x86/fs/file.c:63-71 | the last of 512 fopen calls returns 512, which is neither found nor closed |
| FileTable.OpenWithoutRoom | src/kernel/arch/x86/fs/file.c:34-53 | an fopen that gives number 1 while nothing is open |
| Gdt.AcceptedExactly | src/kernel/arch/x86/gdt_runtime/gdt.c:39-42 | the limits that do not panic are those up to 0x10000 and those that end in twelve ones |
| Gdt.Extract | src/kernel/arch/x86/gdt_runtime/gdt.c:36-64 | the eight bytes, read as the processor reads them, give back base, type, effective limit and 32-bit size of every accepted segment, with the other bits clear |
| Gdt.ExtractAll | src/kernel/arch/x86/gdt_runtime/gdt.c:66-74 | every entry of the table describes its segment |

Page-table entries follow section 4.3 (32-bit paging) and segment descriptors section 3.4.5 of the Intel 64 and
IA-32 Software Developer's Manual, Volume 3A.

## Left out

- UserCopy.CopyFromUser: is called with the kernel's directory loaded, as every system call is (src/kernel/core/syscall.cc:15); under its identity mapping the kernel's accesses to page tables and heap are physical. Under the task's directory the kernel also fetches instructions and reads its stack and its variables (the pointer to its own chunk among them); those reads are not translated in the model, the read of the chunk itself is. The user string must be present as far as it goes, and must not lie in the page that will be borrowed, in that page's table entry or in the heap's block table; the caller's bytes must not meet page tables, block table or that page. A page fault or an overlapping copy has no outcome in the code.
- UserCopy.StrNCpy: modelled for destinations that the loaded directory maps to themselves, which is how both calls of copy_from_user use it.
- Paging.Pager.MakeNewAddressSpace: needs 1026 free blocks, because the code does not look at what kzalloc returns; what happens with fewer is not modelled.
- Heap.Heap.MarkBlocksFree: a walk back from a number below 0 is followed through the wrap-around of its signed counter, which C leaves undefined.
- Kheap.KernelHeap.Kfree: the byte outside the table is read from memory, where the table itself does not stand in the model.
- Fat16.FatReader.ReadInternal: needs every round to meet the sector condition of DiskStream.Safe, outside of which the code reads past its buffer, offsets that stay within int from round to round, and table entries and clusters on the disk.
- Fat16.FatReader.ReadItems: needs sizes below 2^31, which the code passes on as int; which items other than those at cluster boundaries or inside clusters are chain bytes is FatChain.ReadIsChainExactly.
- DiskStream.Stream.Read: positions are int in the code, so reads end below 2 GiB; FatReader is for disks up to that size.
- Fat16.FatReader.GetFatEntry: needs an entry that lies on the disk.
- FatDirectory.CountItems: needs an end mark on the disk below 2 GiB, without which the loop of the code does not end or its position leaves int.
- FatDirectory.FindItem: gives the index of the entry; the copies and directories loaded for each match are not modelled.
- PathParser.PathParse: list nodes and strings are allocated without the kernel heap, so running out of memory and free_root_path are not modelled.
- Tasks.ProcessTable.MakeNewTask: the page directory, the registers and the -EIO path of a task are not modelled.
- Tasks.ProcessTable.ReleaseLast: the list part of releasing a task; freeing its address space is Paging.Pager.ReleaseAddressSpace.
- Tasks.ProcessTable.LoadProcess: built on the outcomes given to LoadForSlot.
- Tasks.ProcessTable.LoadForSlot: allocations, the binary loader and the mapping are outcomes given from outside; page directories, registers and what leaks on failure are not modelled. The kfree of NULL on the exits for a taken slot and for a failed first allocation (src/kernel/arch/x86/task/process.c:111-115, 168) is Kheap.KernelHeap.Kfree; when it is harmless is HeapTable.ReleaseOutside.
- FileTable.Table.Fopen: which of the three allocations find room is given from outside; what is stored in the descriptor besides its number is not modelled.
- FatOpen.Open: the root directory is given as loaded; the item made for a match is only there or not.
- Gdt.Extract: a limit that the code answers with a panic is excluded.
- The heap's block table is an array of its own; that it also lies in physical memory, from 0x7E00, shows only in the conditions that keep other writes apart from it.
- The cache, the TLB, page faults, and protection bits other than the present bits of directory and table entries.
- Disk hardware: a fixed sequence of bytes stands behind the sector read, and its error for a foreign disk cannot occur.
- Printing, interrupts, the system-call table, assembly code and loading of control registers.
- Loading directories below the root: the type test compares with an attribute mask and ends every path that needs one (FatOpen.GetDirectoryEntry).
- fat16_stat, time stamps and attributes: field copying.
- The C++ wrappers over these cores.
