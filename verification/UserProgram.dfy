/** From the start of the kernel to a string of a running program: paging is started, a program is
    loaded and mapped for a new task, and copy_from_user fetches a string from it. */
module UserProgram {
  import opened Words
  import opened Memory
  import opened HeapTable
  import opened Heap
  import opened PageSpace
  import opened Kheap
  import opened PageBuild
  import opened Paging
  import opened UserString
  import opened UserCopy
  import opened UserSetting
  import opened UserWorld

  /** The bytes of a program from `offset`, as far as a copy of `limit` bytes takes them. */
  function ProgramString(program: seq<Byte>, offset: nat, limit: nat): seq<Byte>
    requires offset + limit <= |program|
  {
    Cut(program[offset..offset + limit])
  }

  /** The first page of the program, as far as it has one, stands in the block at `binary`. */
  ghost predicate ProgramAt(m: Ram, r: Runs, binary: Word, program: seq<Byte>)
  {
    && IsPage(binary) && POOL_START <= binary < POOL_START + POOL_BYTES && binary == AddressOf(BlockAt(binary))
    && BlockAt(binary) in r
    && forall x :: binary <= x < binary + PAGE_SIZE && x < binary + |program| ==> m[x] == program[x - binary]
  }

  /** The file is read into fresh memory. */
  method LoadBinary(p: Pager, program: seq<Byte>) returns (binary: Word)
    requires World(p, []) && 0 < |program| < WORD_RANGE
    modifies p.kheap`ram, p.kheap.heap`runs, p.kheap.heap.entries
    ensures World(p, [])
    ensures binary != 0 ==>
              && ProgramAt(p.kheap.ram, p.kheap.heap.runs, binary, program)
              && binary + |program| <= POOL_START + POOL_BYTES
              && FreeCount(p.kheap.heap.entries[..]) == FreeCount(old(p.kheap.heap.entries[..])) - BlocksFor(|program|)
  {
    ghost var m, t, r := p.kheap.ram, p.kheap.heap.entries[..], p.kheap.heap.runs;
    binary := p.kheap.Kzalloc(|program|);
    if binary == 0 {
      return;
    }
    ghost var t', r' := p.kheap.heap.entries[..], p.kheap.heap.runs;
    GrantFits(t, r, t', r', |program|, binary);
    GrantIsBlock(t, r, t', r', BlocksFor(|program|), binary);
    StoreBytes(p, binary, program);
    GrantKeepsOthers(t, r, t', r', |program|, binary, m, p.kheap.ram);
    AllocationKeeps(m, p.kheap.ram, t, r, t', r', BlocksFor(|program|), binary, p.kernelDirectory, []);
  }

  lemma GrantIsBlock(t: Table, r: Runs, t': Table, r': Runs, n: int, ptr: int)
    requires Granted(t, r, t', r', n, ptr)
    ensures IsPage(ptr) && ptr == AddressOf(BlockAt(ptr)) && BlockAt(ptr) in r'
    ensures POOL_START <= ptr < POOL_START + POOL_BYTES
  {
    BlockAtAddress(FirstFit(t, n, 0).value);
  }

  /** What reading the file leaves at `binary`. */
  method StoreBytes(p: Pager, binary: Word, program: seq<Byte>)
    requires binary + |program| <= WORD_RANGE
    modifies p.kheap`ram
    ensures StandsAt(p.kheap.ram, binary, program)
    ensures SameOutside(old(p.kheap.ram), p.kheap.ram, binary, |program|)
  {
    var i := 0;
    while i < |program|
      invariant 0 <= i <= |program|
      invariant forall x :: binary <= x < binary + i ==> p.kheap.ram[x] == program[x - binary]
      invariant SameOutside(old(p.kheap.ram), p.kheap.ram, binary, i)
    {
      p.kheap.ram := WriteByte(p.kheap.ram, binary + i, program[i]);
      i := i + 1;
    }
  }

  /** A new address space does not touch the program ... */
  lemma StillLoaded(m: Ram, m': Ram, r: Runs, r': Runs, task: int, flags: Byte, binary: Word, program: seq<Byte>)
    requires ProgramAt(m, r, binary, program) && Constructed(r, r', m, m', task, flags)
    ensures ProgramAt(m', r', binary, program) && BlockAt(binary) !in SpaceBlocks(m', task)
  {
    var b := BlockAt(binary);
    forall x | binary <= x < binary + PAGE_SIZE && x < binary + |program| ensures m'[x] == m[x] {
      assert BlockAt(x) == b;
    }
  }

  /** ... and neither does mapping it. */
  lemma LoadedAfterMapping(m: Ram, m': Ram, r: Runs, task: int, page: int, val: Word, binary: Word, program: seq<Byte>)
    requires ProgramAt(m, r, binary, program) && EntrySet(m, m', task, page, val)
    requires OwnsPages(r, SpacePages(m, task)) && BlockAt(binary) !in SpaceBlocks(m, task)
    ensures ProgramAt(m', r, binary, program)
  {
    NotInSpace(m, task, binary);
    EntryOutsidePage(m, m', task, page, val, binary);
  }

  lemma NotInSpace(m: Ram, task: int, binary: Word)
    requires WellFormed(m, task) && BlockAt(binary) !in SpaceBlocks(m, task)
    ensures binary !in SpacePages(m, task)
  {
    forall q | q in SpacePages(m, task) ensures BlockAt(q) in SpaceBlocks(m, task) {
    }
  }

  /** The program's first page is where the task finds it. */
  lemma ProgramSeen(space: Space, binary: Word, k: nat)
    requires IsPage(binary) && space[PageOf(PROGRAM_VIRTUAL_ADDRESS)] == OrWords(binary, COPY_FLAGS) && k < PAGE_SIZE
    ensures var va := Ahead(PROGRAM_VIRTUAL_ADDRESS, k);
            PageOf(va) == PageOf(PROGRAM_VIRTUAL_ADDRESS) && Translate(space, va) == binary + k && Present(space, va)
  {
    TemporaryEntry(binary);
    SamePageNumber(PROGRAM_VIRTUAL_ADDRESS, PROGRAM_VIRTUAL_ADDRESS + k);
  }

  /** The string the task has at an address of its first page is that of the program. */
  lemma {:induction false} StringIsProgram(m: Ram, r: Runs, space: Space, binary: Word, program: seq<Byte>, offset: nat, limit: nat)
    requires ProgramAt(m, r, binary, program) && space[PageOf(PROGRAM_VIRTUAL_ADDRESS)] == OrWords(binary, COPY_FLAGS)
    requires offset + limit <= |program| && offset + limit <= PAGE_SIZE
    ensures CString(m, space, PROGRAM_VIRTUAL_ADDRESS + offset, limit) == ProgramString(program, offset, limit)
  {
    var v, w := View(m, space, PROGRAM_VIRTUAL_ADDRESS + offset, limit), program[offset..offset + limit];
    forall k | 0 <= k < limit ensures v[k] == w[k] {
      ProgramSeen(space, binary, offset + k);
      assert Ahead(PROGRAM_VIRTUAL_ADDRESS + offset, k) == Ahead(PROGRAM_VIRTUAL_ADDRESS, offset + k);
      assert m[binary + (offset + k)] == program[offset + k];
    }
    assert v == w;
  }

  /** All bytes of it may be copied through a page that is not live. */
  lemma {:induction false} ProgramPermitted(m: Ram, r: Runs, task: int, kernel: int, binary: Word, program: seq<Byte>, offset: nat,
                         to: Word, limit: nat, tmp: Word)
    requires Setting(m, r, task, kernel) && ProgramAt(m, r, binary, program) && BlockAt(binary) !in SpaceBlocks(m, task)
    requires SpaceOf(m, task)[PageOf(PROGRAM_VIRTUAL_ADDRESS)] == OrWords(binary, COPY_FLAGS)
    requires 1 <= limit && offset + limit <= |program| && offset + limit <= PAGE_SIZE
    requires IsPage(tmp) && BlockAt(tmp) !in r && POOL_START <= tmp < POOL_START + POOL_BYTES
    requires tmp == AddressOf(BlockAt(tmp)) && OutsideKernelMemory(to, limit) && RunsInPool(r)
    ensures Permitted(m, task, kernel, PROGRAM_VIRTUAL_ADDRESS + offset, to, limit, tmp)
  {
    var a := TemporarySlot(m, task, tmp);
    SlotApart(m, task, tmp, binary);
    PagesDisjoint(tmp, binary);
    ProgramBytesMapped(m, SpaceOf(m, task), binary, offset, limit, tmp, a);
    TargetOutside(m, r, task, kernel, tmp, to, limit);
  }

  lemma TargetOutside(m: Ram, r: Runs, task: int, kernel: int, tmp: Word, to: Word, limit: nat)
    requires WellFormed(m, task) && OwnsPages(r, SpacePages(m, task)) && RunsInPool(r)
    requires WellFormed(m, kernel) && OwnsPages(r, SpacePages(m, kernel)) && OutsideKernelMemory(to, limit)
    requires tmp == AddressOf(BlockAt(tmp)) && POOL_START <= tmp < POOL_START + POOL_BYTES
    ensures TargetApart(m, task, kernel, tmp, to, limit)
  {
    LiveInPool(m, r, task, to, limit);
    LiveInPool(m, r, kernel, to, limit);
    BlockInPool(tmp);
  }

  lemma BlockInPool(a: int)
    requires a == AddressOf(BlockAt(a)) && POOL_START <= a < POOL_START + POOL_BYTES
    ensures a + PAGE_SIZE <= POOL_START + POOL_BYTES
  {
  }

  lemma {:induction false} ProgramBytesMapped(m: Ram, space: Space, binary: Word, offset: nat, limit: nat, tmp: Word, a: int)
    requires space[PageOf(PROGRAM_VIRTUAL_ADDRESS)] == OrWords(binary, COPY_FLAGS) && offset + limit <= PAGE_SIZE
    requires IsPage(binary) && IsPage(tmp) && POOL_START <= binary && POOL_START <= tmp
    requires a + 4 <= binary || binary + PAGE_SIZE <= a
    requires tmp + PAGE_SIZE <= binary || binary + PAGE_SIZE <= tmp
    ensures UserBytesMapped(m, space, PROGRAM_VIRTUAL_ADDRESS + offset, limit, tmp, a)
  {
    var userPtr := PROGRAM_VIRTUAL_ADDRESS + offset;
    forall k | 0 <= k < |CString(m, space, userPtr, limit)| ensures UserByteMapped(space, userPtr, k, tmp, a) {
      ProgramByteMapped(space, binary, offset, k, tmp, a);
    }
  }

  lemma ProgramByteMapped(space: Space, binary: Word, offset: nat, k: nat, tmp: Word, a: int)
    requires space[PageOf(PROGRAM_VIRTUAL_ADDRESS)] == OrWords(binary, COPY_FLAGS) && offset + k < PAGE_SIZE
    requires IsPage(binary) && IsPage(tmp) && POOL_START <= binary && POOL_START <= tmp
    requires a + 4 <= binary || binary + PAGE_SIZE <= a
    requires tmp + PAGE_SIZE <= binary || binary + PAGE_SIZE <= tmp
    ensures UserByteMapped(space, PROGRAM_VIRTUAL_ADDRESS + offset, k, tmp, a)
  {
    ProgramSeen(space, binary, offset + k);
    SamePageNumber(tmp, tmp);
    SamePageNumber(PROGRAM_VIRTUAL_ADDRESS, PROGRAM_VIRTUAL_ADDRESS);
    assert Ahead(PROGRAM_VIRTUAL_ADDRESS + offset, k) == Ahead(PROGRAM_VIRTUAL_ADDRESS, offset + k);
  }

  lemma SlotApart(m: Ram, task: int, tmp: Word, binary: Word)
    requires WellFormed(m, task) && IsPage(binary) && BlockAt(binary) !in SpaceBlocks(m, task)
    ensures var a := TemporarySlot(m, task, tmp); a + 4 <= binary || binary + PAGE_SIZE <= a
  {
    NotInSpace(m, task, binary);
    EntryInSpace(m, task, PageOf(tmp));
    PagesDisjoint(TableAt(m, Directory(m, task), PageOf(tmp) / ENTRIES_PER_TABLE), binary);
  }

  /** Memory that is neither in the heap's pool nor in its block table. */
  predicate OutsideKernelMemory(to: Word, n: nat)
  {
    && to + n <= WORD_RANGE
    && (to + n <= POOL_START || POOL_START + POOL_BYTES <= to)
    && (to + n <= HEAP_TABLE || HEAP_TABLE + POOL_BLOCKS <= to)
  }

  ghost predicate RunsInPool(r: Runs)
  {
    forall b :: b in r ==> 0 <= b < POOL_BLOCKS
  }

  lemma LiveRunsInPool(t: Table, r: Runs)
    requires Represents(t, r) && |t| == POOL_BLOCKS
    ensures RunsInPool(r)
  {
  }

  /** Live pages lie in the pool. */
  lemma LiveInPool(m: Ram, r: Runs, chunk: int, to: Word, n: nat)
    requires WellFormed(m, chunk) && OwnsPages(r, SpacePages(m, chunk)) && OutsideKernelMemory(to, n) && RunsInPool(r)
    ensures ApartFrom(SpacePages(m, chunk), to, n)
  {
    forall q | q in SpacePages(m, chunk) ensures to + n <= q || q + PAGE_SIZE <= to {
      var i :| 0 <= i < |SpacePages(m, chunk)| && SpacePages(m, chunk)[i] == q;
      assert BlockAt(SpacePages(m, chunk)[i]) in r;
    }
  }

  /** The whole way. Unless there is no room for the program, the caller ends up with the program's
      own string, and the kernel's space and the task's are in order. */
  method RunProgram(p: Pager, program: seq<Byte>, offset: nat, to: Word, size: int) returns (result: int, task: Word)
    requires p.kheap.Valid() && p.kernelDirectory == 0 && !p.pagingOn
    requires 1 <= size < PAGE_SIZE && offset + Limit(size) <= |program| < WORD_RANGE && offset + Limit(size) <= PAGE_SIZE
    requires FreeCount(p.kheap.heap.entries[..]) > 2 * SPACE_BLOCKS + BlocksFor(|program|)
    requires to != 0 && OutsideKernelMemory(to, Limit(size))
    modifies p, p.kheap`ram, p.kheap.heap`runs, p.kheap.heap.entries
    ensures result == 0 || result == -ENOMEM
    ensures result == 0 ==> World(p, [task]) && StandsAt(p.kheap.ram, to, ProgramString(program, offset, Limit(size)))
    ensures result != 0 ==> World(p, [])
  {
    task := 0;
    InitializeVm(p);
    var binary := LoadBinary(p, program);
    if binary == 0 {
      return -ENOMEM, 0;
    }
    task := StartProgram(p, binary, program);
    result := CopyFromProgram(p, task, binary, program, offset, to, size);
  }

  /** A task for the program in memory. */
  method StartProgram(p: Pager, binary: Word, program: seq<Byte>) returns (task: Word)
    requires World(p, []) && ProgramAt(p.kheap.ram, p.kheap.heap.runs, binary, program)
    requires 0 < |program| && binary + |program| <= POOL_START + POOL_BYTES
    requires FreeCount(p.kheap.heap.entries[..]) >= SPACE_BLOCKS
    modifies p.kheap`ram, p.kheap.heap`runs, p.kheap.heap.entries
    ensures World(p, [task]) && ProgramAt(p.kheap.ram, p.kheap.heap.runs, binary, program)
    ensures WellFormed(p.kheap.ram, task) && BlockAt(binary) !in SpaceBlocks(p.kheap.ram, task)
    ensures SpaceOf(p.kheap.ram, task)[PageOf(PROGRAM_VIRTUAL_ADDRESS)] == OrWords(binary, COPY_FLAGS)
    ensures FreeCount(p.kheap.heap.entries[..]) == FreeCount(old(p.kheap.heap.entries[..])) - SPACE_BLOCKS
  {
    ghost var m, r := p.kheap.ram, p.kheap.heap.runs;
    task := AddTask(p, []);
    NoneAndOne(task);
    StillLoaded(m, p.kheap.ram, r, p.kheap.heap.runs, task, TASK_FLAGS, binary, program);
    MapLoaded(p, task, binary, program);
  }

  lemma NoneAndOne(task: Word)
    ensures [] + [task] == [task]
  {
  }

  /** The program is mapped for the task. */
  method MapLoaded(p: Pager, task: Word, binary: Word, program: seq<Byte>)
    requires World(p, [task]) && ProgramAt(p.kheap.ram, p.kheap.heap.runs, binary, program)
    requires 0 < |program| && binary + |program| <= POOL_START + POOL_BYTES
    requires WellFormed(p.kheap.ram, task) && BlockAt(binary) !in SpaceBlocks(p.kheap.ram, task)
    modifies p.kheap`ram
    ensures World(p, [task]) && ProgramAt(p.kheap.ram, p.kheap.heap.runs, binary, program)
    ensures WellFormed(p.kheap.ram, task) && BlockAt(binary) !in SpaceBlocks(p.kheap.ram, task)
    ensures SpaceOf(p.kheap.ram, task)[PageOf(PROGRAM_VIRTUAL_ADDRESS)] == OrWords(binary, COPY_FLAGS)
  {
    ghost var m, r := p.kheap.ram, p.kheap.heap.runs;
    assert Setting(m, r, [task][0], p.kernelDirectory);
    var result := MapProgram(p, [task], 0, task, binary, |program|);
    LoadedAfterMapping(m, p.kheap.ram, r, task, PageOf(PROGRAM_VIRTUAL_ADDRESS), OrWords(binary, COPY_FLAGS),
                       binary, program);
  }

  /** And a string of it is copied. */
  method CopyFromProgram(p: Pager, task: Word, binary: Word, program: seq<Byte>, offset: nat, to: Word, size: int)
    returns (result: int)
    requires World(p, [task]) && ProgramAt(p.kheap.ram, p.kheap.heap.runs, binary, program)
    requires WellFormed(p.kheap.ram, task) && BlockAt(binary) !in SpaceBlocks(p.kheap.ram, task)
    requires SpaceOf(p.kheap.ram, task)[PageOf(PROGRAM_VIRTUAL_ADDRESS)] == OrWords(binary, COPY_FLAGS)
    requires 1 <= size < PAGE_SIZE && offset + Limit(size) <= |program| && offset + Limit(size) <= PAGE_SIZE
    requires FreeCount(p.kheap.heap.entries[..]) >= 1
    requires to != 0 && OutsideKernelMemory(to, Limit(size))
    modifies p`loadedDirectory, p`currentDirectory, p.kheap`ram, p.kheap.heap`runs, p.kheap.heap.entries
    ensures result == 0 && World(p, [task])
    ensures StandsAt(p.kheap.ram, to, ProgramString(program, offset, Limit(size)))
  {
    ghost var m, r, t := p.kheap.ram, p.kheap.heap.runs, p.kheap.heap.entries[..];
    assert Setting(m, r, [task][0], p.kernelDirectory);
    FreeCountFit(t);
    TemporaryIsFree(t, r);
    LiveRunsInPool(t, r);
    ProgramPermitted(m, r, task, p.kernelDirectory, binary, program, offset, to, Limit(size), TemporaryAddress(t));
    LiveInPool(m, r, task, to, Limit(size));
    StringIsProgram(m, r, SpaceOf(m, task), binary, program, offset, Limit(size));
    result := CopyString(p, [task], 0, task, PROGRAM_VIRTUAL_ADDRESS + offset, to, size);
  }
}
