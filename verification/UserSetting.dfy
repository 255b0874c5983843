/** How the kernel comes to a state in which copy_from_user can be called: the start of paging, the
    address space of a new task, and the mapping of its program. */
module UserSetting {
  import opened Words
  import opened Memory
  import opened HeapTable
  import opened Heap
  import opened PageSpace
  import opened Kheap
  import opened PageBuild
  import opened Paging
  import opened UserCopy

  const KERNEL_FLAGS := IS_WRITEABLE + IS_PRESENT + ACCESS_FROM_ALL
  const TASK_FLAGS := IS_PRESENT + ACCESS_FROM_ALL
  const PROGRAM_VIRTUAL_ADDRESS := 0x40_0000

  lemma PresentFlags()
    ensures KERNEL_FLAGS % 2 == 1 && TASK_FLAGS % 2 == 1
  {
  }

  /** The kernel's address space, in live pages, maps every page to itself. */
  ghost predicate KernelSpace(m: Ram, r: Runs, kernel: int)
  {
    && WellFormed(m, kernel) && OwnsPages(r, SpacePages(m, kernel))
    && IsIdentity(SpaceOf(m, kernel)) && TablesPresent(m, Directory(m, kernel))
  }

  /** It is in place and translates. */
  ghost predicate KernelReady(p: Pager)
    reads p, p.kheap, p.kheap.heap
  {
    KernelSpace(p.kheap.ram, p.kheap.heap.runs, p.kernelDirectory) && InKernel(p)
  }

  /** vm::initialize. */
  method InitializeVm(p: Pager)
    requires p.kheap.Valid() && FreeCount(p.kheap.heap.entries[..]) >= SPACE_BLOCKS
    requires p.kernelDirectory == 0 && !p.pagingOn
    modifies p, p.kheap`ram, p.kheap.heap`runs, p.kheap.heap.entries
    ensures p.kheap.Valid() && KernelReady(p)
    ensures forall q :: 0 <= q < 0x10_0000 ==> SpaceOf(p.kheap.ram, p.kernelDirectory)[q] == q * 4096 + 7
    ensures FreeCount(p.kheap.heap.entries[..]) == FreeCount(old(p.kheap.heap.entries[..])) - 1026
  {
    ghost var m, r := p.kheap.ram, p.kheap.heap.runs;
    PresentFlags();
    var kernel := p.MakeNewAddressSpace(KERNEL_FLAGS);
    ConstructedIsIdentity(r, p.kheap.heap.runs, m, p.kheap.ram, kernel, KERNEL_FLAGS);
    p.InstallKernelPage(kernel);
    p.SwitchToKernelPage();
    p.EnablePaging();
  }

  /** A space whose pages are untouched is untouched. */
  lemma SpaceOfSamePages(m: Ram, m': Ram, chunk: int)
    requires WellFormed(m, chunk)
    requires forall i :: 0 <= i < |SpacePages(m, chunk)| ==>
               IsPage(SpacePages(m, chunk)[i]) && SamePage(m, m', SpacePages(m, chunk)[i])
    ensures SameSpace(m, m', chunk)
  {
    var dir, pages := Directory(m, chunk), SpacePages(m, chunk);
    assert pages[ENTRIES_PER_TABLE] == dir && pages[ENTRIES_PER_TABLE + 1] == chunk;
    forall i | 0 <= i < ENTRIES_PER_TABLE ensures SamePage(m, m', TableAt(m, dir, i)) {
      assert pages[i] == TableAt(m, dir, i);
    }
    SamePageSameWord(m, m', chunk, chunk);
    MapUnaffected(m, m', dir);
    TablesStayPresent(m, m', dir);
  }

  /** Writing only to blocks that no live run has leaves a space in live pages alone. */
  lemma SpaceOutsideBlocks(m: Ram, m': Ram, r: Runs, chunk: int, bs: set<int>)
    requires WellFormed(m, chunk) && OwnsPages(r, SpacePages(m, chunk))
    requires r.Keys !! bs && SameOutsideBlocks(m, m', bs)
    ensures SameSpace(m, m', chunk)
  {
    SpacePagesDistinct(m, chunk);
    forall i | 0 <= i < |SpacePages(m, chunk)| ensures SamePage(m, m', SpacePages(m, chunk)[i]) {
      OwnedPageKept(m, m', r, SpacePages(m, chunk), i, bs);
    }
    SpaceOfSamePages(m, m', chunk);
  }

  lemma OwnedPageKept(m: Ram, m': Ram, r: Runs, pages: seq<int>, i: int, bs: set<int>)
    requires OwnsPages(r, pages) && 0 <= i < |pages| && IsPage(pages[i])
    requires r.Keys !! bs && SameOutsideBlocks(m, m', bs)
    ensures SamePage(m, m', pages[i])
  {
    var p, b := pages[i], BlockAt(pages[i]);
    forall x | p <= x < p + PAGE_SIZE ensures m'[x] == m[x] {
      assert AddressOf(b) <= x < AddressOf(b) + BLOCK_SIZE;
      assert BlockAt(x) == b;
    }
  }

  /** More allocations keep the pages of a space owned. */
  lemma StillOwned(r: Runs, bs: set<int>, pages: seq<int>)
    requires OwnsPages(r, pages) && r.Keys !! bs
    ensures OwnsPages(AddSingles(r, bs), pages)
  {
  }

  /** A constructed space shares no page with one in pages that were live before. */
  lemma NewSpaceApart(r0: Runs, r: Runs, pages: seq<int>, others: seq<int>)
    requires Holds(r0, r, pages) && OwnsPages(r0, others)
    ensures forall q :: q in pages ==> q !in others
  {
    forall q | q in pages ensures q !in others {
      assert BlockAt(q) in BlocksOf(pages);
      assert forall i :: 0 <= i < |others| ==> BlockAt(others[i]) in r0;
    }
  }

  /** Constructing another space keeps a setting. */
  lemma ConstructionKeepsSetting(m: Ram, m': Ram, r: Runs, r': Runs, chunk: int, flags: Byte, task: int, kernel: int)
    requires Setting(m, r, task, kernel) && Constructed(r, r', m, m', chunk, flags)
    ensures Setting(m', r', task, kernel)
  {
    SpaceOutsideBlocks(m, m', r, task, SpaceBlocks(m', chunk));
    SpaceOutsideBlocks(m, m', r, kernel, SpaceBlocks(m', chunk));
    StillOwned(r, SpaceBlocks(m', chunk), SpacePages(m, task));
    StillOwned(r, SpaceBlocks(m', chunk), SpacePages(m, kernel));
  }

  /** A space constructed with the present flag beside the kernel's makes a setting. */
  lemma ConstructionMakesSetting(m: Ram, m': Ram, r: Runs, r': Runs, task: int, flags: Byte, kernel: int)
    requires KernelSpace(m, r, kernel)
    requires Constructed(r, r', m, m', task, flags) && flags % 2 == 1
    ensures Setting(m', r', task, kernel) && SameSpace(m, m', kernel)
  {
    SpaceOutsideBlocks(m, m', r, kernel, SpaceBlocks(m', task));
    StillOwned(r, SpaceBlocks(m', task), SpacePages(m, kernel));
    NewSpaceApart(r, r', SpacePages(m', task), SpacePages(m, kernel));
    ConstructedIsIdentity(r, r', m, m', task, flags);
    IdentityMapsToItself(SpaceOf(m', task), task);
    IdentityMapsToItself(SpaceOf(m', task), kernel);
  }

  /** The address space that task_init gives a task: copy_from_user can be called for it, and still
      for every task for which it could be called before. */
  method NewTaskSpace(p: Pager) returns (task: Word)
    requires p.kheap.Valid() && FreeCount(p.kheap.heap.entries[..]) >= SPACE_BLOCKS && KernelReady(p)
    modifies p.kheap`ram, p.kheap.heap`runs, p.kheap.heap.entries
    ensures p.kheap.Valid() && KernelReady(p)
    ensures FreeCount(p.kheap.heap.entries[..]) == FreeCount(old(p.kheap.heap.entries[..])) - SPACE_BLOCKS
    ensures Constructed(old(p.kheap.heap.runs), p.kheap.heap.runs, old(p.kheap.ram), p.kheap.ram, task, TASK_FLAGS)
    ensures forall q :: 0 <= q < 0x10_0000 ==> SpaceOf(p.kheap.ram, task)[q] == q * 4096 + 5
    ensures Setting(p.kheap.ram, p.kheap.heap.runs, task, p.kernelDirectory)
    ensures forall other :: Setting(old(p.kheap.ram), old(p.kheap.heap.runs), other, p.kernelDirectory) ==>
                              Setting(p.kheap.ram, p.kheap.heap.runs, other, p.kernelDirectory)
  {
    ghost var m, r := p.kheap.ram, p.kheap.heap.runs;
    PresentFlags();
    task := p.MakeNewAddressSpace(TASK_FLAGS);
    ConstructionMakesSetting(m, p.kheap.ram, r, p.kheap.heap.runs, task, TASK_FLAGS, p.kernelDirectory);
    forall other | Setting(m, r, other, p.kernelDirectory)
      ensures Setting(p.kheap.ram, p.kheap.heap.runs, other, p.kernelDirectory)
    {
      ConstructionKeepsSetting(m, p.kheap.ram, r, p.kheap.heap.runs, task, TASK_FLAGS, other, p.kernelDirectory);
    }
  }

  /** Mapping a page of a task keeps the setting exactly when the two chunks stay mapped to themselves. */
  lemma MappingKeepsSetting(m: Ram, m': Ram, r: Runs, task: int, kernel: int, page: int, val: Word)
    requires Setting(m, r, task, kernel) && EntrySet(m, m', task, page, val)
    ensures Setting(m', r, task, kernel) <==>
              (page == PageOf(task) || page == PageOf(kernel) ==> PageBase(val) == page * PAGE_SIZE && IsPresent(val))
    ensures SameSpace(m, m', kernel)
  {
    OtherSpaceKept(m, m', task, page, val, kernel);
    SamePageNumber(task, task);
    SamePageNumber(kernel, kernel);
    assert SpaceOf(m', task) == SpaceOf(m, task)[page := val];
  }

  /** A live page lies in the pool, far above the program. */
  lemma ChunkAboveProgram(t: Table, r: Runs, m: Ram, chunk: int)
    requires WellFormed(m, chunk) && Represents(t, r) && OwnsPages(r, SpacePages(m, chunk))
    ensures PageOf(chunk) != PageOf(PROGRAM_VIRTUAL_ADDRESS)
  {
    assert SpacePages(m, chunk)[ENTRIES_PER_TABLE + 1] == chunk;
    assert BlockAt(chunk) in r;
    SamePageNumber(chunk, chunk);
  }

  /** process_map_binary: the first page of a program is mapped, or -EINVAL. copy_from_user can still
      be called for the task. */
  method MapBinary(p: Pager, task: Word, binary: Word, size: Word) returns (result: int)
    requires p.kheap.Valid() && Setting(p.kheap.ram, p.kheap.heap.runs, task, p.kernelDirectory) && InKernel(p)
    modifies p.kheap`ram
    ensures Setting(p.kheap.ram, p.kheap.heap.runs, task, p.kernelDirectory) && InKernel(p)
    ensures result == if binary % PAGE_SIZE == 0 && binary <= PageUp(U32(binary + size)) then 0 else -EINVAL
    ensures result != 0 || binary == PageUp(U32(binary + size)) ==> p.kheap.ram == old(p.kheap.ram)
    ensures result == 0 && binary < PageUp(U32(binary + size)) ==>
              && EntrySet(old(p.kheap.ram), p.kheap.ram, task, PageOf(PROGRAM_VIRTUAL_ADDRESS), OrWords(binary, COPY_FLAGS))
              && SpaceOf(p.kheap.ram, task)[0x400] == binary + 7
  {
    ghost var m, r := p.kheap.ram, p.kheap.heap.runs;
    var end := p.AlignAddress(U32(binary + size));
    result := p.MapVirtualMemory(task, PROGRAM_VIRTUAL_ADDRESS, binary, end, COPY_FLAGS);
    ChunkAboveProgram(p.kheap.heap.entries[..], r, m, task);
    ChunkAboveProgram(p.kheap.heap.entries[..], r, m, p.kernelDirectory);
    if result == 0 && binary < end {
      MappingKeepsSetting(m, p.kheap.ram, r, task, p.kernelDirectory, PageOf(PROGRAM_VIRTUAL_ADDRESS),
                          OrWords(binary, U32(COPY_FLAGS)));
      OrFlags(binary, COPY_FLAGS);
      assert PageOf(PROGRAM_VIRTUAL_ADDRESS) == 0x400;
    }
  }
}
