/** paging.c: 4 GiB address spaces built from pages of the kernel heap. The kernel edits page
    tables while its own identity-mapped directory is loaded, so these accesses are physical. */
module Paging {
  import opened Words
  import opened Memory
  import opened HeapTable
  import opened Heap
  import opened PageSpace
  import opened Kheap
  import opened PageBuild

  const SPACE_BLOCKS := 1026

  /** One free block is enough for any request of up to a page. */
  lemma OneBlockFits(t: Table, size: Word)
    requires 1 <= size <= BLOCK_SIZE && FreeCount(t) >= 1
    ensures BlocksFor(size) == 1 && FirstFit(t, BlocksFor(size), 0).Some?
  {
    BlocksForIsCeiling(size);
    FreeCountFit(t);
  }

  /** A granted block is a page of its own. */
  lemma GrantIsPage(t: Table, r: Runs, t': Table, r': Runs, ptr: int)
    requires Granted(t, r, t', r', 1, ptr)
    ensures IsPage(ptr) && ptr == AddressOf(BlockAt(ptr)) && POOL_START <= ptr < POOL_START + POOL_BYTES
    ensures BlockAt(ptr) !in r && r' == r[BlockAt(ptr) := 1]
  {
    BlockAtAddress(FirstFit(t, 1, 0).value);
  }

  /** The two indexes of an aligned virtual address are those of its page number. */
  lemma IndexesOfPage(va: Word)
    ensures va / (ENTRIES_PER_TABLE * PAGE_SIZE) == PageOf(va) / ENTRIES_PER_TABLE
    ensures va % (ENTRIES_PER_TABLE * PAGE_SIZE) / PAGE_SIZE == PageOf(va) % ENTRIES_PER_TABLE
  {
    var p, k := PageOf(va), va % PAGE_SIZE;
    var i, j := p / ENTRIES_PER_TABLE, p % ENTRIES_PER_TABLE;
    assert va == i * 0x40_0000 + (j * PAGE_SIZE + k);
    assert va / 0x40_0000 == i && va % 0x40_0000 == j * PAGE_SIZE + k;
  }

  class Pager {
    const kheap: KernelHeap
    var kernelDirectory: Word     // chunk of the kernel, 0 until installed
    var currentDirectory: Word
    var loadedDirectory: Word     // what the processor translates with ...
    var pagingOn: bool            // ... once paging is enabled

    constructor (kheap: KernelHeap)
      ensures this.kheap == kheap && kernelDirectory == 0 && currentDirectory == 0 && !pagingOn
    {
      this.kheap := kheap;
      kernelDirectory := 0;
      currentDirectory := 0;
      loadedDirectory := 0;
      pagingOn := false;
    }

    /** One page table of the constructor: 1024 consecutive pages from `offset`, mapped to themselves. */
    method FillTable(table: Word, i: int, offset: int, flags: Byte)
      requires IsPage(table) && 0 <= i < ENTRIES_PER_TABLE && offset == I32(i * 0x40_0000)
      modifies kheap`ram
      ensures TableFilled(kheap.ram, table, i, flags)
      ensures SameOutside(old(kheap.ram), kheap.ram, table, PAGE_SIZE)
    {
      var j := 0;
      while j < ENTRIES_PER_TABLE
        invariant 0 <= j <= ENTRIES_PER_TABLE
        invariant forall k :: 0 <= k < j ==>
                    ReadWord(kheap.ram, WordOfPage(table, k)) == FreshEntry(i * ENTRIES_PER_TABLE + k, flags)
        invariant SameOutside(old(kheap.ram), kheap.ram, table, PAGE_SIZE)
      {
        var entry := OrWords(U32(offset + j * PAGE_SIZE), flags);
        OffsetIsPageAddress(i, j);
        FreshEntryIsOr(i * ENTRIES_PER_TABLE + j, flags);
        ghost var m := kheap.ram;
        kheap.ram := WriteWord(kheap.ram, WordOfPage(table, j), entry);
        forall k | 0 <= k <= j
          ensures ReadWord(kheap.ram, WordOfPage(table, k)) == FreshEntry(i * ENTRIES_PER_TABLE + k, flags)
        {
          ReadAfterWrite(m, WordOfPage(table, j), entry, WordOfPage(table, k));
        }
        j := j + 1;
      }
    }

    /** kzalloc of at most a page, when a block is free: a page that none of the given ones is. */
    method NewPage(size: Word, ghost r0: Runs, ghost pages: seq<int>) returns (page: Word)
      requires kheap.Valid() && 1 <= size <= PAGE_SIZE && FreeCount(kheap.heap.entries[..]) >= 1
      requires Holds(r0, kheap.heap.runs, pages)
      modifies kheap`ram, kheap.heap`runs, kheap.heap.entries
      ensures kheap.Valid()
      ensures FreeCount(kheap.heap.entries[..]) == FreeCount(old(kheap.heap.entries[..])) - 1
      ensures IsPage(page) && page == AddressOf(BlockAt(page)) && page !in pages
      ensures Holds(r0, kheap.heap.runs, pages + [page])
      ensures SameOutside(old(kheap.ram), kheap.ram, page, PAGE_SIZE)
    {
      ghost var t, r := kheap.heap.entries[..], kheap.heap.runs;
      OneBlockFits(t, size);
      page := kheap.Kzalloc(size);
      GrantIsPage(t, r, kheap.heap.entries[..], kheap.heap.runs, page);
      HoldsAppend(r0, r, pages, page);
    }

    /** One round of the constructor's loop: a filled table, entered in the directory. */
    method AddTable(directory: Word, i: int, offset: int, flags: Byte,
                    ghost r0: Runs, ghost m0: Ram, ghost tables: seq<int>)
      returns (ghost table: int)
      requires kheap.Valid() && FreeCount(kheap.heap.entries[..]) >= 1
      requires 0 <= i < ENTRIES_PER_TABLE && i == |tables| && offset == I32(i * 0x40_0000)
      requires Built(r0, kheap.heap.runs, m0, kheap.ram, directory, tables, flags)
      modifies kheap`ram, kheap.heap`runs, kheap.heap.entries
      ensures kheap.Valid()
      ensures FreeCount(kheap.heap.entries[..]) == FreeCount(old(kheap.heap.entries[..])) - 1
      ensures Built(r0, kheap.heap.runs, m0, kheap.ram, directory, tables + [table], flags)
    {
      ghost var m, r := kheap.ram, kheap.heap.runs;
      var entry := NewPage(4 * ENTRIES_PER_TABLE, r0, [directory] + tables);
      FillTable(entry, i, offset, flags);
      TableAdded(r0, r, kheap.heap.runs, m0, m, kheap.ram, directory, tables, flags, entry);
      DirectoryEntryIsOr(entry, flags);
      kheap.ram := WriteWord(kheap.ram, WordOfPage(directory, i), OrWords(OrWords(entry, flags), IS_WRITEABLE));
      table := entry;
    }

    /** The constructor's loop over the 1024 tables. */
    method AddTables(directory: Word, flags: Byte, ghost r0: Runs, ghost m0: Ram) returns (ghost tables: seq<int>)
      requires kheap.Valid() && FreeCount(kheap.heap.entries[..]) >= ENTRIES_PER_TABLE
      requires Built(r0, kheap.heap.runs, m0, kheap.ram, directory, [], flags)
      modifies kheap`ram, kheap.heap`runs, kheap.heap.entries
      ensures kheap.Valid() && |tables| == ENTRIES_PER_TABLE
      ensures FreeCount(kheap.heap.entries[..]) == FreeCount(old(kheap.heap.entries[..])) - ENTRIES_PER_TABLE
      ensures Built(r0, kheap.heap.runs, m0, kheap.ram, directory, tables, flags)
    {
      tables := [];
      var offset := 0;
      var i := 0;
      while i < ENTRIES_PER_TABLE
        invariant 0 <= i <= ENTRIES_PER_TABLE && i == |tables| && offset == I32(i * 0x40_0000)
        invariant kheap.Valid()
        invariant FreeCount(kheap.heap.entries[..]) == FreeCount(old(kheap.heap.entries[..])) - i
        invariant Built(r0, kheap.heap.runs, m0, kheap.ram, directory, tables, flags)
      {
        ghost var table := AddTable(directory, i, offset, flags, r0, m0, tables);
        NextOffset(i);
        offset := I32(offset + ENTRIES_PER_TABLE * PAGE_SIZE);
        tables := tables + [table];
        i := i + 1;
      }
    }

    /** The end of the constructor: the chunk object, pointing to the directory. */
    method AddChunk(directory: Word, flags: Byte, ghost r0: Runs, ghost m0: Ram, ghost tables: seq<int>)
      returns (chunk: Word)
      requires kheap.Valid() && FreeCount(kheap.heap.entries[..]) >= 1 && |tables| == ENTRIES_PER_TABLE
      requires Built(r0, kheap.heap.runs, m0, kheap.ram, directory, tables, flags)
      modifies kheap`ram, kheap.heap`runs, kheap.heap.entries
      ensures kheap.Valid()
      ensures FreeCount(kheap.heap.entries[..]) == FreeCount(old(kheap.heap.entries[..])) - 1
      ensures Constructed(r0, kheap.heap.runs, m0, kheap.ram, chunk, flags)
    {
      ghost var m, r := kheap.ram, kheap.heap.runs;
      chunk := NewPage(4, r0, [directory] + tables);
      ChunkAdded(r0, r, kheap.heap.runs, m0, m, kheap.ram, directory, tables, flags, chunk);
      kheap.ram := WriteWord(kheap.ram, chunk, directory);
    }

    /** make_new_4GB_virtual_memory_address_space, given the 1026 free blocks it takes for granted. */
    method MakeNewAddressSpace(flags: Byte) returns (chunk: Word)
      requires kheap.Valid() && FreeCount(kheap.heap.entries[..]) >= SPACE_BLOCKS
      modifies kheap`ram, kheap.heap`runs, kheap.heap.entries
      ensures kheap.Valid()
      ensures FreeCount(kheap.heap.entries[..]) == FreeCount(old(kheap.heap.entries[..])) - SPACE_BLOCKS
      ensures Constructed(old(kheap.heap.runs), kheap.heap.runs, old(kheap.ram), kheap.ram, chunk, flags)
    {
      ghost var r0, m0 := kheap.heap.runs, kheap.ram;
      NothingHeld(r0);
      var directory := NewPage(4 * ENTRIES_PER_TABLE, r0, []);
      assert [] + [directory] == [directory];
      BuildingStarts(r0, kheap.heap.runs, m0, kheap.ram, directory, flags);
      ghost var tables := AddTables(directory, flags, r0, m0);
      chunk := AddChunk(directory, flags, r0, m0, tables);
    }

    /** paging_get_indexes: nothing is written for an unaligned address. */
    method GetIndexes(va: Word, directoryIndex: int, tableIndex: int) returns (result: int, i: int, j: int)
      ensures result == if va % PAGE_SIZE == 0 then 0 else -EINVAL
      ensures va % PAGE_SIZE == 0 ==> i == PageOf(va) / ENTRIES_PER_TABLE && j == PageOf(va) % ENTRIES_PER_TABLE
      ensures va % PAGE_SIZE != 0 ==> i == directoryIndex && j == tableIndex
    {
      i, j := directoryIndex, tableIndex;
      if va % PAGE_SIZE != 0 {
        return -EINVAL, i, j;
      }
      IndexesOfPage(va);
      i := va / (ENTRIES_PER_TABLE * PAGE_SIZE);
      j := va % (ENTRIES_PER_TABLE * PAGE_SIZE) / PAGE_SIZE;
      result := 0;
    }

    /** paging_set_entry_for_virtual_address. */
    method SetEntry(chunk: Word, va: Word, val: Word) returns (result: int)
      requires WellFormed(kheap.ram, chunk)
      modifies kheap`ram
      ensures result == if va % PAGE_SIZE == 0 then 0 else -EINVAL
      ensures result != 0 ==> kheap.ram == old(kheap.ram)
      ensures result == 0 ==> EntrySet(old(kheap.ram), kheap.ram, chunk, PageOf(va), val)
    {
      if va % PAGE_SIZE != 0 {
        return -EINVAL;
      }
      var res, i, j := GetIndexes(va, 0, 0);
      if res < 0 {
        return res;
      }
      var entry := ReadWord(kheap.ram, WordOfPage(Directory(kheap.ram, chunk), i));
      PageMask(entry);
      var table := And(entry, 0xFFFFF000);
      WriteSetsEntry(kheap.ram, chunk, PageOf(va), val);
      kheap.ram := WriteWord(kheap.ram, WordOfPage(table, j), val);
      result := 0;
    }

    /** paging_get_entry_of_address: an unaligned address gets the entry of page 0. */
    method GetEntry(chunk: Word, va: Word) returns (val: Word)
      requires WellFormed(kheap.ram, chunk)
      ensures val == EntryMap(kheap.ram, Directory(kheap.ram, chunk))[if va % PAGE_SIZE == 0 then PageOf(va) else 0]
    {
      var res, i, j := GetIndexes(va, 0, 0);
      var entry := ReadWord(kheap.ram, WordOfPage(Directory(kheap.ram, chunk), i));
      PageMask(entry);
      var table := And(entry, 0xFFFFF000);
      val := ReadWord(kheap.ram, WordOfPage(table, j));
      EntryMapAt(kheap.ram, Directory(kheap.ram, chunk));
    }

    /** paging_map_page. */
    method MapPage(chunk: Word, virt: Word, phys: Word, flags: int) returns (result: int)
      requires WellFormed(kheap.ram, chunk)
      modifies kheap`ram
      ensures result == if virt % PAGE_SIZE == 0 && phys % PAGE_SIZE == 0 then 0 else -EINVAL
      ensures result != 0 ==> kheap.ram == old(kheap.ram)
      ensures result == 0 ==> EntrySet(old(kheap.ram), kheap.ram, chunk, PageOf(virt), OrWords(phys, U32(flags)))
    {
      if virt % PAGE_SIZE != 0 || phys % PAGE_SIZE != 0 {
        return -EINVAL;
      }
      result := SetEntry(chunk, virt, OrWords(phys, U32(flags)));
    }

    /** paging_map_memory_by_range: the loop leaves after its first successful page. */
    method MapMemoryByRange(chunk: Word, virt: Word, phys: Word, totalPages: Word, flags: int) returns (result: int)
      requires WellFormed(kheap.ram, chunk)
      modifies kheap`ram
      ensures result == if totalPages == 0 || (virt % PAGE_SIZE == 0 && phys % PAGE_SIZE == 0) then 0 else -EINVAL
      ensures result != 0 || totalPages == 0 ==> kheap.ram == old(kheap.ram)
      ensures result == 0 && totalPages > 0 ==>
                EntrySet(old(kheap.ram), kheap.ram, chunk, PageOf(virt), OrWords(phys, U32(flags)))
    {
      result := 0;
      var i := 0;
      var v: Word, p: Word := virt, phys;
      while i < totalPages
        invariant 0 <= i <= totalPages && kheap.ram == old(kheap.ram)
        invariant i == 0 ==> v == virt && p == phys && result == 0
        invariant i > 0 ==> result == -EINVAL && !(virt % PAGE_SIZE == 0 && phys % PAGE_SIZE == 0)
        invariant v % PAGE_SIZE == virt % PAGE_SIZE && p % PAGE_SIZE == phys % PAGE_SIZE
      {
        result := MapPage(chunk, v, p, flags);
        if result == 0 {
          break;
        }
        NextPageAligned(v);
        NextPageAligned(p);
        v := U32(v + PAGE_SIZE);
        p := U32(p + PAGE_SIZE);
        i := i + 1;
      }
    }

    /** paging_map_virtual_memory: -EINVAL for unaligned or reversed bounds, else the first page of
        the range is mapped and only that one. */
    method MapVirtualMemory(chunk: Word, virt: Word, phys: Word, physEnd: Word, flags: int) returns (result: int)
      requires WellFormed(kheap.ram, chunk)
      modifies kheap`ram
      ensures result == if virt % PAGE_SIZE == 0 && phys % PAGE_SIZE == 0 && physEnd % PAGE_SIZE == 0 && phys <= physEnd
                        then 0 else -EINVAL
      ensures result != 0 || phys == physEnd ==> kheap.ram == old(kheap.ram)
      ensures result == 0 && phys < physEnd ==>
                EntrySet(old(kheap.ram), kheap.ram, chunk, PageOf(virt), OrWords(phys, U32(flags)))
    {
      if virt % PAGE_SIZE != 0 || phys % PAGE_SIZE != 0 || physEnd % PAGE_SIZE != 0 || physEnd < phys {
        return -EINVAL;
      }
      PagesBetween(phys, physEnd);
      var totalPages := (physEnd - phys) / PAGE_SIZE;
      result := MapMemoryByRange(chunk, virt, phys, totalPages, flags);
    }

    /** paging_align_address. */
    method AlignAddress(ptr: Word) returns (aligned: Word)
      ensures aligned == PageUp(ptr)
    {
      var unaligned := ptr % PAGE_SIZE;
      AlignUp(ptr);
      if unaligned > 0 {
        return U32(ptr + PAGE_SIZE - unaligned);
      }
      return ptr;
    }

    /** enable_paging. */
    method EnablePaging()
      modifies this`pagingOn
      ensures pagingOn
    {
      pagingOn := true;
    }

    /** The page at `page` can be read: paging is off, or the directory has its tables and it present. */
    predicate Readable(directory: Word, page: Word)
      reads this, kheap
    {
      pagingOn ==>
        IsPage(directory) && TablesPresent(kheap.ram, directory) && Present(EntryMap(kheap.ram, directory), page)
    }

    /** The first word of a page, read through a directory if paging is on. */
    function WordSeen(directory: Word, page: Word): Word
      requires IsPage(page) && Readable(directory, page)
      reads this, kheap
    {
      if pagingOn then ReadWord(kheap.ram, FrameOf(EntryMap(kheap.ram, directory), page)) else ReadWord(kheap.ram, page)
    }

    /** switch_to_page: the chunk is read through the directory loaded so far, and once more through
        the new one. */
    method SwitchToPage(chunk: Word)
      requires IsPage(chunk) && Readable(loadedDirectory, chunk)
      requires Readable(WordSeen(loadedDirectory, chunk), chunk)
      modifies this`loadedDirectory, this`currentDirectory
      ensures loadedDirectory == old(WordSeen(loadedDirectory, chunk))
      ensures currentDirectory == WordSeen(loadedDirectory, chunk)
    {
      loadedDirectory := WordSeen(loadedDirectory, chunk);
      currentDirectory := WordSeen(loadedDirectory, chunk);
    }

    /** paging_install_kernel_page: only the first installation counts. */
    method InstallKernelPage(chunk: Word)
      modifies this`kernelDirectory
      ensures kernelDirectory == if old(kernelDirectory) == 0 then chunk else old(kernelDirectory)
    {
      if kernelDirectory == 0 {
        kernelDirectory := chunk;
      }
    }

    /** switch_to_kernel_page. */
    method SwitchToKernelPage()
      requires IsPage(kernelDirectory) && Readable(loadedDirectory, kernelDirectory)
      requires Readable(WordSeen(loadedDirectory, kernelDirectory), kernelDirectory)
      modifies this`loadedDirectory, this`currentDirectory
      ensures loadedDirectory == old(WordSeen(loadedDirectory, kernelDirectory))
      ensures currentDirectory == WordSeen(loadedDirectory, kernelDirectory)
    {
      SwitchToPage(kernelDirectory);
    }

    /** Where both directories map the chunk to itself, a switch loads the directory the chunk names. */
    lemma SwitchSeesChunk(chunk: Word)
      requires IsPage(chunk) && IsPage(loadedDirectory) && MapsToItself(EntryMap(kheap.ram, loadedDirectory), chunk)
      requires IsPage(Directory(kheap.ram, chunk)) && TablesPresent(kheap.ram, loadedDirectory)
      requires TablesPresent(kheap.ram, Directory(kheap.ram, chunk))
      requires MapsToItself(EntryMap(kheap.ram, Directory(kheap.ram, chunk)), chunk)
      ensures Readable(loadedDirectory, chunk) && WordSeen(loadedDirectory, chunk) == Directory(kheap.ram, chunk)
      ensures Readable(Directory(kheap.ram, chunk), chunk)
      ensures WordSeen(Directory(kheap.ram, chunk), chunk) == Directory(kheap.ram, chunk)
    {
    }

    /** release_4GB_virtual_memory_address_space: exactly the pages of the space go back to the heap. */
    method ReleaseAddressSpace(chunk: Word)
      requires kheap.Valid() && WellFormed(kheap.ram, chunk)
      requires OwnsPages(kheap.heap.runs, SpacePages(kheap.ram, chunk))
      modifies kheap.heap`runs, kheap.heap.entries
      ensures kheap.Valid()
      ensures kheap.heap.runs == old(kheap.heap.runs) - SpaceBlocks(kheap.ram, chunk)
      ensures FreeCount(kheap.heap.entries[..]) == FreeCount(old(kheap.heap.entries[..])) + SPACE_BLOCKS
    {
      ghost var r0, pages := kheap.heap.runs, SpacePages(kheap.ram, chunk);
      SpacePagesDistinct(kheap.ram, chunk);
      var directory := Directory(kheap.ram, chunk);
      var i := 0;
      while i < ENTRIES_PER_TABLE
        invariant 0 <= i <= ENTRIES_PER_TABLE
        invariant kheap.Valid()
        invariant kheap.heap.runs == r0 - BlocksOf(pages[..i])
        invariant FreeCount(kheap.heap.entries[..]) == FreeCount(old(kheap.heap.entries[..])) + i
      {
        var entry := ReadWord(kheap.ram, WordOfPage(directory, i));
        PageMask(entry);
        var table := And(entry, 0xFFFFF000);
        assert pages[i] == table;
        ReleasePage(table, r0, pages, i);
        i := i + 1;
      }
      ReleasePage(directory, r0, pages, ENTRIES_PER_TABLE);
      ReleasePage(chunk, r0, pages, ENTRIES_PER_TABLE + 1);
      assert pages[..SPACE_BLOCKS] == pages;
    }

    /** kfree of the i-th of some distinct pages, after those before it. */
    method ReleasePage(page: Word, ghost r0: Runs, ghost pages: seq<int>, ghost i: int)
      requires kheap.Valid() && Distinct(pages) && OwnsPages(r0, pages)
      requires 0 <= i < |pages| && page == pages[i]
      requires kheap.heap.runs == r0 - BlocksOf(pages[..i])
      modifies kheap.heap`runs, kheap.heap.entries
      ensures kheap.Valid()
      ensures kheap.heap.runs == r0 - BlocksOf(pages[..i + 1])
      ensures FreeCount(kheap.heap.entries[..]) == FreeCount(old(kheap.heap.entries[..])) + 1
    {
      OneMoreReleased(r0, pages, i);
      assert BlockAt(page) in kheap.heap.runs;
      assert InRun(kheap.heap.runs, BlockAt(page), BlockAt(page));
      kheap.Kfree(page);
    }
  }

  lemma NextPageAligned(v: Word)
    ensures U32(v + PAGE_SIZE) % PAGE_SIZE == v % PAGE_SIZE
  {
    var q, k := v / PAGE_SIZE, v % PAGE_SIZE;
    assert v + PAGE_SIZE == PAGE_SIZE * (q + 1) + k;
    assert q == 0xFFFFF ==> v + PAGE_SIZE - WORD_RANGE == k;
  }

  lemma PagesBetween(phys: Word, physEnd: Word)
    requires phys % PAGE_SIZE == 0 && physEnd % PAGE_SIZE == 0 && phys <= physEnd
    ensures 0 <= (physEnd - phys) / PAGE_SIZE <= PAGES
    ensures (physEnd - phys) / PAGE_SIZE == 0 <==> phys == physEnd
  {
    var i, j := phys / PAGE_SIZE, physEnd / PAGE_SIZE;
    assert phys == PAGE_SIZE * i && physEnd == PAGE_SIZE * j;
  }

  /** The entry a caller of MapVirtualMemory wants for page p of a range that starts at page v. */
  function WantedEntry(v: int, phys: Word, flags: int, p: int): Word
    requires v <= p && phys + (p - v) * PAGE_SIZE < WORD_RANGE
  {
    OrWords(phys + (p - v) * PAGE_SIZE, U32(flags))
  }

  /** What MapVirtualMemory leaves of a range of n pages: the whole range has the wanted entries
      exactly when it has one page or its other pages had them before the call. */
  lemma WholeRangeMapped(before: seq<Word>, after: seq<Word>, v: int, phys: Word, n: int, flags: int)
    requires |before| == PAGES && 1 <= n && 0 <= v && v + n <= PAGES && phys + n * PAGE_SIZE <= WORD_RANGE
    requires after == before[v := OrWords(phys, U32(flags))]
    ensures (forall p :: v <= p < v + n ==> after[p] == WantedEntry(v, phys, flags, p))
            <==> (forall p :: v + 1 <= p < v + n ==> before[p] == WantedEntry(v, phys, flags, p))
  {
    assert forall p :: v < p < v + n ==> after[p] == before[p];
    assert after[v] == WantedEntry(v, phys, flags, v);
  }

  /** In a space that still maps the rest of the range to itself, a program placed elsewhere is
      mapped whole exactly when it fits in one page. */
  lemma FreshRangeMapped(before: seq<Word>, after: seq<Word>, v: int, phys: Word, n: int, flags: int, own: Byte)
    requires |before| == PAGES && 1 <= n && 0 <= v && v + n <= PAGES && phys + n * PAGE_SIZE <= WORD_RANGE
    requires forall p :: 0 <= p < PAGES ==> before[p] == FreshEntry(p, own)
    requires after == before[v := OrWords(phys, U32(flags))]
    requires phys % PAGE_SIZE == 0 && phys != v * PAGE_SIZE && U32(flags) < PAGE_SIZE
    ensures (forall p :: v <= p < v + n ==> PageBase(after[p]) == phys + (p - v) * PAGE_SIZE) <==> n == 1
  {
    OrKeepsPage(phys, U32(flags));
    if n > 1 {
      FreshEntryIsOr(v + 1, own);
      assert after[v + 1] == before[v + 1];
    }
  }

  /** For example: a program of two pages at 32 MiB. Its second page stays where a fresh space has it. */
  lemma SecondPageUnmapped(before: seq<Word>, after: seq<Word>, own: Byte)
    requires |before| == PAGES && forall p :: 0 <= p < PAGES ==> before[p] == FreshEntry(p, own)
    requires after == before[0x400 := OrWords(0x200_0000, 7)]
    ensures PageBase(after[0x401]) == 0x40_1000 != 0x200_1000
  {
    FreshEntryIsOr(0x401, own);
  }

  /** A space that is built, edited in any way through SetEntry and released leaves the block table
      of the heap byte for byte as it was. */
  method BuildEditRelease(p: Pager, flags: Byte, edits: seq<(Word, Word)>)
    requires p.kheap.Valid() && FreeCount(p.kheap.heap.entries[..]) >= SPACE_BLOCKS
    modifies p.kheap`ram, p.kheap.heap`runs, p.kheap.heap.entries
    ensures p.kheap.Valid()
    ensures p.kheap.heap.runs == old(p.kheap.heap.runs)
    ensures p.kheap.heap.entries[..] == old(p.kheap.heap.entries[..])
  {
    ghost var t, r := p.kheap.heap.entries[..], p.kheap.heap.runs;
    var chunk := p.MakeNewAddressSpace(flags);
    ghost var pages := SpacePages(p.kheap.ram, chunk);
    var i := 0;
    while i < |edits|
      modifies p.kheap`ram
      invariant 0 <= i <= |edits|
      invariant WellFormed(p.kheap.ram, chunk) && SpacePages(p.kheap.ram, chunk) == pages
    {
      var _ := p.SetEntry(chunk, edits[i].0, edits[i].1);
      i := i + 1;
    }
    p.ReleaseAddressSpace(chunk);
    AddSinglesUndone(r, BlocksOf(pages));
    OneTable(p.kheap.heap.entries[..], t, r);
  }

  lemma AlignUp(ptr: Word)
    ensures PageUp(ptr) == if ptr % PAGE_SIZE == 0 then ptr else U32(ptr + PAGE_SIZE - ptr % PAGE_SIZE)
  {
    var q, k := ptr / PAGE_SIZE, ptr % PAGE_SIZE;
    var up := PageUp(ptr) / PAGE_SIZE;
    assert ptr == PAGE_SIZE * q + k && q <= 0xFFFFF && PageUp(ptr) == PAGE_SIZE * up;
  }

  lemma OneMoreReleased(r0: Runs, pages: seq<int>, i: int)
    requires Distinct(pages) && OwnsPages(r0, pages) && 0 <= i < |pages|
    ensures var r := r0 - BlocksOf(pages[..i]);
            && BlockAt(pages[i]) in r && r[BlockAt(pages[i])] == 1
            && r - {BlockAt(pages[i])} == r0 - BlocksOf(pages[..i + 1])
  {
    var b := BlockAt(pages[i]);
    forall p | p in pages[..i] ensures BlockAt(p) != b {
      var k :| 0 <= k < i && pages[k] == p;
      assert pages[k] != pages[i];
    }
    assert pages[..i + 1] == pages[..i] + [pages[i]];
    BlocksOfAppend(pages[..i], pages[i]);
  }
}
