/** The kernel's address space and those of all live tasks together: they lie on pages of their own,
    and every operation on memory keeps them so. */
module UserWorld {
  import opened Words
  import opened Memory
  import opened HeapTable
  import opened Heap
  import opened PageSpace
  import opened Kheap
  import opened PageBuild
  import opened Paging
  import opened UserString
  import opened UserCopy
  import opened UserSetting

  /** The spaces of two chunks have no page in common. */
  ghost predicate Apart(m: Ram, a: int, b: int)
    requires WellFormed(m, a) && WellFormed(m, b)
  {
    forall q :: q in SpacePages(m, a) ==> q !in SpacePages(m, b)
  }

  /** copy_from_user can be called for every task, and no two spaces share a page. */
  ghost predicate Spaces(m: Ram, r: Runs, kernel: int, tasks: seq<Word>)
  {
    && KernelSpace(m, r, kernel)
    && (forall i :: 0 <= i < |tasks| ==> Setting(m, r, tasks[i], kernel))
    && (forall i, j :: 0 <= i < j < |tasks| ==> Apart(m, tasks[i], tasks[j]))
  }

  /** The kernel is running, with these tasks. */
  ghost predicate World(p: Pager, tasks: seq<Word>)
    reads p, p.kheap, p.kheap.heap, p.kheap.heap.entries
  {
    p.kheap.Valid() && Spaces(p.kheap.ram, p.kheap.heap.runs, p.kernelDirectory, tasks) && InKernel(p)
  }

  // ----- what keeps the spaces -----

  /** Where every space is untouched and its pages are still live, all is as before. */
  lemma SpacesKept(m: Ram, m': Ram, r: Runs, r': Runs, kernel: int, tasks: seq<Word>)
    requires Spaces(m, r, kernel, tasks)
    requires SameSpace(m, m', kernel) && OwnsPages(r', SpacePages(m, kernel))
    requires forall i :: 0 <= i < |tasks| ==> SameSpace(m, m', tasks[i]) && OwnsPages(r', SpacePages(m, tasks[i]))
    ensures Spaces(m', r', kernel, tasks)
  {
    forall i | 0 <= i < |tasks| ensures Setting(m', r', tasks[i], kernel) {
      assert Setting(m, r, tasks[i], kernel);
    }
    forall i, j | 0 <= i < j < |tasks| ensures Apart(m', tasks[i], tasks[j]) {
      assert Apart(m, tasks[i], tasks[j]);
    }
  }

  /** Changes outside live allocations leave a space in live pages alone. */
  lemma SpaceInAllocations(m: Ram, m': Ram, t: Table, r: Runs, chunk: int)
    requires WellFormed(m, chunk) && OwnsPages(r, SpacePages(m, chunk)) && Represents(t, r) && |t| == POOL_BLOCKS
    requires forall s, x :: InAllocation(r, s, x) ==> m'[x] == m[x]
    ensures SameSpace(m, m', chunk)
  {
    var pages := SpacePages(m, chunk);
    SpacePagesDistinct(m, chunk);
    forall i | 0 <= i < |pages| ensures SamePage(m, m', pages[i]) {
      var b := BlockAt(pages[i]);
      assert b in r && r[b] == 1;
      forall x | pages[i] <= x < pages[i] + PAGE_SIZE ensures m'[x] == m[x] {
        assert InAllocation(r, b, x);
      }
    }
    SpaceOfSamePages(m, m', chunk);
  }

  lemma OwnedWithMore(r: Runs, b: int, n: int, pages: seq<int>)
    requires OwnsPages(r, pages) && b !in r
    ensures OwnsPages(r[b := n], pages)
  {
  }

  lemma OwnedExactly(r: Runs, bs: set<int>, pages: seq<int>)
    requires OwnsPages(r, pages)
    ensures OwnsPages(r - bs, pages) <==> bs !! BlocksOf(pages)
  {
    if bs !! BlocksOf(pages) {
      forall i | 0 <= i < |pages| ensures BlockAt(pages[i]) in r - bs {
        assert BlockAt(pages[i]) in BlocksOf(pages);
      }
    } else {
      var b :| b in bs && b in BlocksOf(pages);
      var p :| p in pages && BlockAt(p) == b;
      var i :| 0 <= i < |pages| && pages[i] == p;
      assert BlockAt(pages[i]) !in r - bs;
    }
  }

  /** An allocation keeps the spaces. */
  lemma AllocationKeeps(m: Ram, m': Ram, t: Table, r: Runs, t': Table, r': Runs, n: int, ptr: int,
                        kernel: int, tasks: seq<Word>)
    requires Spaces(m, r, kernel, tasks) && Represents(t, r) && |t| == POOL_BLOCKS && Granted(t, r, t', r', n, ptr)
    requires forall s, x :: InAllocation(r, s, x) ==> m'[x] == m[x]
    ensures Spaces(m', r', kernel, tasks) && Directory(m', kernel) == Directory(m, kernel)
  {
    var b := FirstFit(t, n, 0).value;
    SpaceInAllocations(m, m', t, r, kernel);
    OwnedWithMore(r, b, n, SpacePages(m, kernel));
    forall i | 0 <= i < |tasks|
      ensures SameSpace(m, m', tasks[i]) && OwnsPages(r[b := n], SpacePages(m, tasks[i]))
    {
      assert Setting(m, r, tasks[i], kernel);
      SpaceInAllocations(m, m', t, r, tasks[i]);
      OwnedWithMore(r, b, n, SpacePages(m, tasks[i]));
    }
    SpacesKept(m, m', r, r[b := n], kernel, tasks);
  }

  /** None of the blocks belongs to a space. */
  ghost predicate NotOfSpaces(m: Ram, bs: set<int>, kernel: int, tasks: seq<Word>)
  {
    && WellFormed(m, kernel) && bs !! SpaceBlocks(m, kernel)
    && forall i :: 0 <= i < |tasks| ==> WellFormed(m, tasks[i]) && bs !! SpaceBlocks(m, tasks[i])
  }

  /** Releasing blocks keeps the spaces exactly if they are of no space. */
  lemma ReleaseKeepsExactly(m: Ram, r: Runs, bs: set<int>, kernel: int, tasks: seq<Word>)
    requires Spaces(m, r, kernel, tasks)
    ensures Spaces(m, r - bs, kernel, tasks) <==> NotOfSpaces(m, bs, kernel, tasks)
  {
    OwnedExactly(r, bs, SpacePages(m, kernel));
    forall i | 0 <= i < |tasks|
      ensures WellFormed(m, tasks[i]) && SameSpace(m, m, tasks[i])
      ensures OwnsPages(r - bs, SpacePages(m, tasks[i])) <==> bs !! SpaceBlocks(m, tasks[i])
      ensures Setting(m, r - bs, tasks[i], kernel) ==> OwnsPages(r - bs, SpacePages(m, tasks[i]))
    {
      assert Setting(m, r, tasks[i], kernel);
      OwnedExactly(r, bs, SpacePages(m, tasks[i]));
    }
    if NotOfSpaces(m, bs, kernel, tasks) {
      SpacesKept(m, m, r, r - bs, kernel, tasks);
    }
  }

  /** Constructing another space keeps the spaces. */
  lemma ConstructionKeepsSpaces(m: Ram, m': Ram, r: Runs, r': Runs, task: Word, flags: Byte, kernel: int, tasks: seq<Word>)
    requires Spaces(m, r, kernel, tasks) && Constructed(r, r', m, m', task, flags) && flags % 2 == 1
    ensures Spaces(m', r', kernel, tasks)
  {
    ConstructionMakesSetting(m, m', r, r', task, flags, kernel);
    forall i | 0 <= i < |tasks| ensures Setting(m', r', tasks[i], kernel) {
      assert Setting(m, r, tasks[i], kernel);
      ConstructionKeepsSetting(m, m', r, r', task, flags, tasks[i], kernel);
    }
    forall i, j | 0 <= i < j < |tasks| ensures Apart(m', tasks[i], tasks[j]) {
      assert Setting(m, r, tasks[i], kernel) && Setting(m, r, tasks[j], kernel) && Apart(m, tasks[i], tasks[j]);
      StillApart(m, m', r, r', task, flags, tasks[i], tasks[j]);
    }
  }

  /** It then joins them. */
  lemma ConstructionJoins(m: Ram, m': Ram, r: Runs, r': Runs, task: Word, flags: Byte, kernel: int, tasks: seq<Word>)
    requires Spaces(m, r, kernel, tasks) && Constructed(r, r', m, m', task, flags) && flags % 2 == 1
    ensures Spaces(m', r', kernel, tasks + [task])
  {
    ConstructionKeepsSpaces(m, m', r, r', task, flags, kernel, tasks);
    ConstructionMakesSetting(m, m', r, r', task, flags, kernel);
    forall i | 0 <= i < |tasks| ensures Setting(m', r', tasks[i], kernel) && Apart(m', tasks[i], task) {
      assert Setting(m, r, tasks[i], kernel) && Setting(m', r', tasks[i], kernel);
      ApartFromNew(m, m', r, r', task, flags, tasks[i]);
    }
    OneMore(m', r', kernel, tasks, task);
  }

  lemma OneMore(m: Ram, r: Runs, kernel: int, tasks: seq<Word>, task: Word)
    requires Spaces(m, r, kernel, tasks) && Setting(m, r, task, kernel)
    requires forall i :: 0 <= i < |tasks| ==> Setting(m, r, tasks[i], kernel) && Apart(m, tasks[i], task)
    ensures Spaces(m, r, kernel, tasks + [task])
  {
    var all := tasks + [task];
    forall i, j | 0 <= i < j < |all| ensures Apart(m, all[i], all[j]) {
      assert i < |tasks| && Setting(m, r, tasks[i], kernel);
      assert j < |tasks| ==> Apart(m, tasks[i], tasks[j]);
    }
  }

  lemma StillApart(m: Ram, m': Ram, r: Runs, r': Runs, task: Word, flags: Byte, a: Word, b: Word)
    requires WellFormed(m, a) && WellFormed(m, b) && Apart(m, a, b) && Constructed(r, r', m, m', task, flags)
    requires OwnsPages(r, SpacePages(m, a)) && OwnsPages(r, SpacePages(m, b))
    ensures WellFormed(m', a) && WellFormed(m', b) && Apart(m', a, b)
  {
    SpaceOutsideBlocks(m, m', r, a, SpaceBlocks(m', task));
    SpaceOutsideBlocks(m, m', r, b, SpaceBlocks(m', task));
  }

  lemma ApartFromNew(m: Ram, m': Ram, r: Runs, r': Runs, task: Word, flags: Byte, a: Word)
    requires WellFormed(m, a) && OwnsPages(r, SpacePages(m, a)) && Constructed(r, r', m, m', task, flags)
    ensures WellFormed(m', a) && Apart(m', a, task)
  {
    SpaceOutsideBlocks(m, m', r, a, SpaceBlocks(m', task));
    NewSpaceApart(r, r', SpacePages(m', task), SpacePages(m, a));
  }

  /** Setting an entry of one task, away from the chunks, keeps the spaces. */
  lemma MappingKeepsSpaces(m: Ram, m': Ram, r: Runs, kernel: int, tasks: seq<Word>, k: nat, page: int, val: Word)
    requires Spaces(m, r, kernel, tasks) && k < |tasks| && EntrySet(m, m', tasks[k], page, val)
    requires Setting(m', r, tasks[k], kernel)
    ensures Spaces(m', r, kernel, tasks)
  {
    assert Setting(m, r, tasks[k], kernel);
    OtherSpaceKept(m, m', tasks[k], page, val, kernel);
    forall i | 0 <= i < |tasks|
      ensures Setting(m', r, tasks[i], kernel) && SpacePages(m', tasks[i]) == SpacePages(m, tasks[i])
    {
      assert Setting(m, r, tasks[i], kernel);
      if i != k {
        assert if i < k then Apart(m, tasks[i], tasks[k]) else Apart(m, tasks[k], tasks[i]);
        OtherSpaceKept(m, m', tasks[k], page, val, tasks[i]);
      }
    }
    forall i, j | 0 <= i < j < |tasks| ensures Apart(m', tasks[i], tasks[j]) {
      assert Apart(m, tasks[i], tasks[j]);
    }
  }

  /** Delivering a string apart from a space, through a page that is not live, leaves the space alone. */
  lemma DeliveryKeepsSpace(m: Ram, m': Ram, r: Runs, chunk: int, tmp: Word, to: Word, str: seq<Byte>, limit: nat)
    requires WellFormed(m, chunk) && OwnsPages(r, SpacePages(m, chunk))
    requires IsPage(tmp) && BlockAt(tmp) !in r && |str| <= limit && to + limit <= WORD_RANGE
    requires ApartFrom(SpacePages(m, chunk), to, limit) && Delivered(m, m', tmp, to, str)
    ensures SameSpace(m, m', chunk)
  {
    var pages := SpacePages(m, chunk);
    SpacePagesDistinct(m, chunk);
    NewPageOutsideSpace(m, r, chunk, tmp);
    forall i | 0 <= i < |pages| ensures SamePage(m, m', pages[i]) {
      assert pages[i] in pages;
    }
    SpaceOfSamePages(m, m', chunk);
  }

  // ----- the operations -----

  /** kzalloc. */
  method KzallocInWorld(p: Pager, size: Word, ghost tasks: seq<Word>) returns (ptr: Word)
    requires World(p, tasks)
    modifies p.kheap`ram, p.kheap.heap`runs, p.kheap.heap.entries
    ensures World(p, tasks)
    ensures ptr == 0 ==> p.kheap.ram == old(p.kheap.ram) && p.kheap.heap.runs == old(p.kheap.heap.runs)
                         && p.kheap.heap.entries[..] == old(p.kheap.heap.entries[..])
    ensures ptr != 0 ==>
              && Granted(old(p.kheap.heap.entries[..]), old(p.kheap.heap.runs),
                         p.kheap.heap.entries[..], p.kheap.heap.runs, BlocksFor(size), ptr)
              && SameOutside(old(p.kheap.ram), p.kheap.ram, ptr, size)
  {
    ghost var m, t, r := p.kheap.ram, p.kheap.heap.entries[..], p.kheap.heap.runs;
    ptr := p.kheap.Kzalloc(size);
    if ptr != 0 {
      AllocationKeeps(m, p.kheap.ram, t, r, p.kheap.heap.entries[..], p.kheap.heap.runs, BlocksFor(size), ptr,
                      p.kernelDirectory, tasks);
    }
  }

  /** kfree keeps the world exactly if what it frees is of no space. */
  method KfreeInWorld(p: Pager, ptr: Word, ghost tasks: seq<Word>)
    requires World(p, tasks)
    modifies p.kheap.heap`runs, p.kheap.heap.entries
    ensures World(p, tasks) <==> NotOfSpaces(p.kheap.ram, old(p.kheap.Freed(ptr)), p.kernelDirectory, tasks)
    ensures p.kheap.Valid()
  {
    ReleaseKeepsExactly(p.kheap.ram, p.kheap.heap.runs, p.kheap.Freed(ptr), p.kernelDirectory, tasks);
    p.kheap.Kfree(ptr);
  }

  /** A new task joins. */
  method AddTask(p: Pager, ghost tasks: seq<Word>) returns (task: Word)
    requires World(p, tasks) && FreeCount(p.kheap.heap.entries[..]) >= SPACE_BLOCKS
    modifies p.kheap`ram, p.kheap.heap`runs, p.kheap.heap.entries
    ensures World(p, tasks + [task])
    ensures FreeCount(p.kheap.heap.entries[..]) == FreeCount(old(p.kheap.heap.entries[..])) - SPACE_BLOCKS
    ensures Constructed(old(p.kheap.heap.runs), p.kheap.heap.runs, old(p.kheap.ram), p.kheap.ram, task, TASK_FLAGS)
  {
    ghost var m, r := p.kheap.ram, p.kheap.heap.runs;
    task := NewTaskSpace(p);
    PresentFlags();
    ConstructionJoins(m, p.kheap.ram, r, p.kheap.heap.runs, task, TASK_FLAGS, p.kernelDirectory, tasks);
  }

  /** The program of a task is mapped. */
  method MapProgram(p: Pager, ghost tasks: seq<Word>, ghost k: nat, task: Word, binary: Word, size: Word)
    returns (result: int)
    requires World(p, tasks) && k < |tasks| && tasks[k] == task
    modifies p.kheap`ram
    ensures World(p, tasks)
    ensures result == if binary % PAGE_SIZE == 0 && binary <= PageUp(U32(binary + size)) then 0 else -EINVAL
    ensures result != 0 || binary == PageUp(U32(binary + size)) ==> p.kheap.ram == old(p.kheap.ram)
    ensures result == 0 && binary < PageUp(U32(binary + size)) ==>
              EntrySet(old(p.kheap.ram), p.kheap.ram, task, PageOf(PROGRAM_VIRTUAL_ADDRESS), OrWords(binary, COPY_FLAGS))
  {
    ghost var m, r := p.kheap.ram, p.kheap.heap.runs;
    assert Setting(m, r, tasks[k], p.kernelDirectory);
    result := MapBinary(p, task, binary, size);
    if result == 0 && binary < PageUp(U32(binary + size)) {
      MappingKeepsSpaces(m, p.kheap.ram, r, p.kernelDirectory, tasks, k, PageOf(PROGRAM_VIRTUAL_ADDRESS),
                         OrWords(binary, COPY_FLAGS));
    }
  }

  /** A task goes. */
  method RemoveTask(p: Pager, ghost tasks: seq<Word>, ghost k: nat, task: Word)
    requires World(p, tasks) && k < |tasks| && tasks[k] == task
    modifies p.kheap.heap`runs, p.kheap.heap.entries
    ensures World(p, tasks[..k] + tasks[k + 1..])
    ensures FreeCount(p.kheap.heap.entries[..]) == FreeCount(old(p.kheap.heap.entries[..])) + SPACE_BLOCKS
  {
    ghost var m, r, kernel := p.kheap.ram, p.kheap.heap.runs, p.kernelDirectory;
    ghost var others := tasks[..k] + tasks[k + 1..];
    assert Setting(m, r, tasks[k], kernel);
    OthersApart(m, r, kernel, tasks, k);
    ReleaseKeepsExactly(m, r, SpaceBlocks(m, task), kernel, others);
    p.ReleaseAddressSpace(task);
  }

  lemma OthersApart(m: Ram, r: Runs, kernel: int, tasks: seq<Word>, k: nat)
    requires Spaces(m, r, kernel, tasks) && k < |tasks| && WellFormed(m, tasks[k])
    ensures var others := tasks[..k] + tasks[k + 1..];
            Spaces(m, r, kernel, others) && NotOfSpaces(m, SpaceBlocks(m, tasks[k]), kernel, others)
  {
    OthersStay(m, r, kernel, tasks, k);
    var others := tasks[..k] + tasks[k + 1..];
    assert Setting(m, r, tasks[k], kernel);
    BlocksApart(m, r, tasks[k], kernel);
    forall i | 0 <= i < |others|
      ensures Setting(m, r, others[i], kernel) && SpaceBlocks(m, tasks[k]) !! SpaceBlocks(m, others[i])
    {
      var o := if i < k then i else i + 1;
      assert others[i] == tasks[o] && Setting(m, r, tasks[o], kernel);
      if o < k {
        assert Apart(m, tasks[o], tasks[k]);
      } else {
        assert Apart(m, tasks[k], tasks[o]);
      }
      BlocksApart(m, r, tasks[k], tasks[o]);
    }
  }

  lemma OthersStay(m: Ram, r: Runs, kernel: int, tasks: seq<Word>, k: nat)
    requires Spaces(m, r, kernel, tasks) && k < |tasks|
    ensures Spaces(m, r, kernel, tasks[..k] + tasks[k + 1..])
  {
    var others := tasks[..k] + tasks[k + 1..];
    forall i | 0 <= i < |others| ensures Setting(m, r, others[i], kernel) {
      var o := if i < k then i else i + 1;
      assert others[i] == tasks[o] && Setting(m, r, tasks[o], kernel);
    }
    forall i, j | 0 <= i < j < |others| ensures Apart(m, others[i], others[j]) {
      var a, b := if i < k then i else i + 1, if j < k then j else j + 1;
      assert others[i] == tasks[a] && others[j] == tasks[b] && Apart(m, tasks[a], tasks[b]);
    }
  }

  /** Spaces without common pages have no common blocks. */
  lemma BlocksApart(m: Ram, r: Runs, a: int, b: int)
    requires WellFormed(m, a) && WellFormed(m, b) && (Apart(m, a, b) || Apart(m, b, a))
    requires OwnsPages(r, SpacePages(m, a)) && OwnsPages(r, SpacePages(m, b))
    ensures SpaceBlocks(m, a) !! SpaceBlocks(m, b)
  {
    var u, v := SpacePages(m, a), SpacePages(m, b);
    forall p, q | p in u && q in v ensures BlockAt(p) != BlockAt(q) {
      var i :| 0 <= i < |u| && u[i] == p;
      var j :| 0 <= j < |v| && v[j] == q;
      assert u[i] == AddressOf(BlockAt(u[i])) && v[j] == AddressOf(BlockAt(v[j]));
    }
  }

  /** The caller's bytes are apart from the spaces of all tasks. */
  ghost predicate TargetApartFromAll(m: Ram, tasks: seq<Word>, to: Word, limit: nat)
  {
    forall i :: 0 <= i < |tasks| ==> WellFormed(m, tasks[i]) && ApartFrom(SpacePages(m, tasks[i]), to, limit)
  }

  /** A string is copied from a task. */
  method CopyString(p: Pager, ghost tasks: seq<Word>, ghost k: nat, task: Word, userPtr: Word, to: Word, size: int)
    returns (result: int)
    requires World(p, tasks) && k < |tasks| && tasks[k] == task && -0x8000_0000 <= size < 0x8000_0000
    requires Setting(p.kheap.ram, p.kheap.heap.runs, task, p.kernelDirectory)
    requires 1 <= size < PAGE_SIZE && FirstFit(p.kheap.heap.entries[..], 1, 0).Some? ==>
               && Permitted(p.kheap.ram, task, p.kernelDirectory, userPtr, to, Limit(size),
                            TemporaryAddress(p.kheap.heap.entries[..]))
               && TargetApartFromAll(p.kheap.ram, tasks, to, Limit(size))
    modifies p`loadedDirectory, p`currentDirectory, p.kheap`ram, p.kheap.heap`runs, p.kheap.heap.entries
    ensures World(p, tasks)
    ensures result == if size >= PAGE_SIZE then -EINVAL
                      else if size <= 0 || FirstFit(old(p.kheap.heap.entries[..]), 1, 0).None? then -ENOMEM
                      else 0
    ensures result == 0 ==>
              CopyDone(old(p.kheap.ram), p.kheap.ram, task, p.kernelDirectory,
                       TemporaryAddress(old(p.kheap.heap.entries[..])), userPtr, to, size)
  {
    ghost var m, t, r := p.kheap.ram, p.kheap.heap.entries[..], p.kheap.heap.runs;
    result := CopyFromUser(p, task, userPtr, to, size);
    if result == 0 {
      CopyKeepsAll(m, p.kheap.ram, t, r, p.kernelDirectory, tasks, task, userPtr, to, size);
    }
  }

  lemma CopyKeepsAll(m: Ram, m': Ram, t: Table, r: Runs, kernel: int, tasks: seq<Word>, task: Word,
                     userPtr: Word, to: Word, size: Word)
    requires Spaces(m, r, kernel, tasks) && Represents(t, r) && |t| == POOL_BLOCKS && FirstFit(t, 1, 0).Some?
    requires WellFormed(m, task) && 1 <= size < PAGE_SIZE && to + Limit(size) <= WORD_RANGE
    requires CopyDone(m, m', task, kernel, TemporaryAddress(t), userPtr, to, size)
    requires TargetApartFromAll(m, tasks, to, Limit(size))
    ensures Spaces(m', r, kernel, tasks)
  {
    var tmp := TemporaryAddress(t);
    TemporaryIsFree(t, r);
    forall i | 0 <= i < |tasks| ensures SameSpace(m, m', tasks[i]) && OwnsPages(r, SpacePages(m, tasks[i])) {
      assert Setting(m, r, tasks[i], kernel);
      DeliveryKeepsSpace(m, m', r, tasks[i], tmp, to, Fetched(m, SpaceOf(m, task), userPtr, Limit(size)), Limit(size));
    }
    SpacesKept(m, m', r, r, kernel, tasks);
  }

  lemma TemporaryIsFree(t: Table, r: Runs)
    requires Represents(t, r) && |t| == POOL_BLOCKS && FirstFit(t, 1, 0).Some?
    ensures var tmp := TemporaryAddress(t);
            && IsPage(tmp) && POOL_START <= tmp < POOL_START + POOL_BYTES && tmp == AddressOf(BlockAt(tmp))
            && BlockAt(tmp) !in r
  {
    var b := FirstFit(t, 1, 0).value;
    BlockAtAddress(b);
    WindowIsGap(t, r, b, 1);
  }
}
