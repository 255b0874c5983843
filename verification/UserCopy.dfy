/** copy_from_user of task.c: a string is carried from a task's address space into the kernel
    through a temporary page that the task's directory maps to itself for the time of the copy. */
module UserCopy {
  import opened Words
  import opened Memory
  import opened HeapTable
  import opened Heap
  import opened PageSpace
  import opened Kheap
  import opened PageBuild
  import opened Paging
  import opened UserString

  /** The byte b stands, present, at virtual address va, outside the n bytes at d. */
  ghost predicate SourceByte(m: Ram, space: Space, va: Word, b: Byte, d: int, n: int)
  {
    && m[Translate(space, va)] == b
    && Present(space, va)
    && !(d <= Translate(space, va) < d + n)
  }

  /** The bytes of str stand, present, at virtual address s, outside the n bytes at d. */
  ghost predicate Source(m: Ram, space: Space, s: Word, str: seq<Byte>, d: int, n: int)
  {
    forall k :: 0 <= k < |str| ==> SourceByte(m, space, Ahead(s, k), str[k], d, n)
  }

  /** The n bytes at d are mapped to themselves, present. */
  ghost predicate IdentityOn(space: Space, d: Word, n: int)
    requires d + n <= WORD_RANGE
  {
    forall x :: d <= x < d + n ==> Translate(space, x) == x && Present(space, x)
  }

  /** The first n bytes of str stand at physical address d, and nothing else differs from m0. */
  ghost predicate Copied(m0: Ram, m: Ram, d: int, str: seq<Byte>, n: int)
    requires 0 <= d && 0 <= n <= |str| && d + n <= WORD_RANGE
  {
    SameOutside(m0, m, d, n) && forall x :: d <= x < d + n ==> m[x] == str[x - d]
  }

  /** str stands at physical address d. */
  ghost predicate StandsAt(m: Ram, d: int, str: seq<Byte>)
    requires 0 <= d && d + |str| <= WORD_RANGE
  {
    forall x :: d <= x < d + |str| ==> m[x] == str[x - d]
  }

  /** One byte of the copy: what is read is the next byte of the string, it lands behind the
      bytes copied so far, and reading it again gives the same. */
  lemma CopyStep(m0: Ram, m: Ram, space: Space, d: Word, s: Word, count: Word, str: seq<Byte>, n: Word)
    requires d + n <= WORD_RANGE && 0 <= count < |str| <= n
    requires Translate(space, d + count) == d + count
    requires SourceByte(m0, space, Ahead(s, count), str[count], d, n)
    requires Copied(m0, m, d, str, count)
    ensures m[Translate(space, Ahead(s, count))] == str[count]
    ensures var m' := WriteByte(m, d + count, str[count]);
            && Copied(m0, m', d, str, count + 1) && SameOutside(m0, m', d, n)
            && m'[Translate(space, Ahead(s, count))] == str[count]
  {
    var from := Translate(space, Ahead(s, count));
    assert m[from] == m0[from];
  }

  /** The number of bytes strncpy copies at most. */
  function Limit(n: Word): Word
  {
    if n > COPY_LIMIT then COPY_LIMIT else n
  }

  /** The map the processor translates with. */
  function Loaded(p: Pager): Space
    requires IsPage(p.loadedDirectory)
    reads p, p.kheap
  {
    EntryMap(p.kheap.ram, p.loadedDirectory)
  }

  /** A byte read through the loaded directory. */
  method LoadByte(p: Pager, va: Word) returns (b: Byte)
    requires IsPage(p.loadedDirectory)
    ensures b == p.kheap.ram[Translate(Loaded(p), va)]
  {
    b := p.kheap.ram[Translate(Loaded(p), va)];
  }

  /** A byte written through the loaded directory. */
  method StoreByte(p: Pager, va: Word, b: Byte)
    requires IsPage(p.loadedDirectory)
    modifies p.kheap`ram
    ensures p.kheap.ram == WriteByte(old(p.kheap.ram), Translate(old(Loaded(p)), va), b)
  {
    p.kheap.ram := WriteByte(p.kheap.ram, Translate(Loaded(p), va), b);
  }

  /** One round of strncpy: a byte goes from s ahead by count to d + count and is read again. */
  method CopyByte(p: Pager, d: Word, s: Word, count: Word, ghost m0: Ram, ghost str: seq<Byte>, ghost n: Word)
    returns (b: Byte)
    requires IsPage(p.loadedDirectory) && d + n <= WORD_RANGE && 0 <= count < |str| <= n
    requires ApartFrom(Tables(m0, p.loadedDirectory) + [p.loadedDirectory], d, n)
    requires var space := EntryMap(m0, p.loadedDirectory);
             Loaded(p) == space && Translate(space, d + count) == d + count
             && SourceByte(m0, space, Ahead(s, count), str[count], d, n)
    requires Copied(m0, p.kheap.ram, d, str, count)
    modifies p.kheap`ram
    ensures Loaded(p) == EntryMap(m0, p.loadedDirectory)
    ensures Copied(m0, p.kheap.ram, d, str, count + 1)
    ensures b == str[count]
  {
    ghost var space, m := Loaded(p), p.kheap.ram;
    CopyStep(m0, m, space, d, s, count, str, n);
    b := LoadByte(p, Ahead(s, count));
    assert b == str[count];
    StoreByte(p, d + count, b);
    assert p.kheap.ram == WriteByte(m, d + count, str[count]);
    WriteKeepsMap(m0, p.kheap.ram, p.loadedDirectory, d, n);
    b := LoadByte(p, Ahead(s, count));
  }

  lemma ZeroIsLast(str: seq<Byte>, limit: nat, count: nat)
    requires IsCString(str, limit) && count < |str|
    ensures str[count] == 0 ==> count + 1 == |str|
    ensures str[count] != 0 && count + 1 == |str| ==> count + 1 == limit
  {
  }

  /** strncpy under the loaded directory. */
  method StrNCpy(p: Pager, d: Word, s: Word, n: Word, ghost str: seq<Byte>)
    requires IsPage(p.loadedDirectory) && TablesPresent(p.kheap.ram, p.loadedDirectory) && d + Limit(n) <= WORD_RANGE
    requires IsCString(str, Limit(n))
    requires d != 0 && s != 0 ==>
               && ApartFrom(Tables(p.kheap.ram, p.loadedDirectory) + [p.loadedDirectory], d, Limit(n))
               && IdentityOn(Loaded(p), d, Limit(n))
               && Source(p.kheap.ram, Loaded(p), s, str, d, Limit(n))
    modifies p.kheap`ram
    ensures d == 0 || s == 0 ==> p.kheap.ram == old(p.kheap.ram)
    ensures d != 0 && s != 0 ==> Copied(old(p.kheap.ram), p.kheap.ram, d, str, |str|)
  {
    if d == 0 || s == 0 {
      return;
    }
    var limit := if n > COPY_LIMIT then COPY_LIMIT else n;
    ghost var space := Loaded(p);
    var count := 0;
    while count < limit
      invariant 0 <= count <= |str|
      invariant count == |str| ==> count == limit
      invariant Loaded(p) == space
      invariant Copied(old(p.kheap.ram), p.kheap.ram, d, str, count)
    {
      assert SourceByte(old(p.kheap.ram), space, Ahead(s, count), str[count], d, limit);
      var b := CopyByte(p, d, s, count, old(p.kheap.ram), str, limit);
      ZeroIsLast(str, limit, count);
      if b == 0 {
        break;
      }
      count := count + 1;
    }
  }

  // ----- the copy from a task -----

  const COPY_FLAGS := IS_WRITEABLE + IS_PRESENT + ACCESS_FROM_ALL

  /** What the caller gets: the user's string, or the empty one for a NULL pointer. */
  function Fetched(m: Ram, space: Space, userPtr: Word, limit: nat): (str: seq<Byte>)
    requires limit >= 1
    ensures IsCString(str, limit)
  {
    if userPtr == 0 then [0] else CString(m, space, userPtr, limit)
  }

  /** The user's bytes are mapped, outside the temporary page, not the temporary page's own table
      entry, which stands at address a, and not the heap's block table. */
  ghost predicate UserBytesMapped(m: Ram, space: Space, userPtr: Word, limit: nat, tmp: Word, a: int)
  {
    userPtr != 0 ==>
      forall k :: 0 <= k < |CString(m, space, userPtr, limit)| ==> UserByteMapped(space, userPtr, k, tmp, a)
  }

  ghost predicate UserByteMapped(space: Space, userPtr: Word, k: nat, tmp: Word, a: int)
  {
    var va := Ahead(userPtr, k);
    && Present(space, va) && PageOf(va) != PageOf(tmp)
    && !(tmp <= Translate(space, va) < tmp + PAGE_SIZE)
    && !(a <= Translate(space, va) < a + 4)
    && !(HEAP_TABLE <= Translate(space, va) < HEAP_TABLE + POOL_BLOCKS)
  }

  /** The temporary mapping shows the temporary page at its own address. */
  lemma TemporaryPageIsIdentity(space: Space, tmp: Word, limit: nat)
    requires IsPage(tmp) && limit <= PAGE_SIZE && space[PageOf(tmp)] == OrWords(tmp, COPY_FLAGS)
    ensures IdentityOn(space, tmp, limit)
  {
    TemporaryEntry(tmp);
    forall x | tmp <= x < tmp + limit ensures Translate(space, x) == x && Present(space, x) {
      SamePageNumber(tmp, x);
      IdentityTranslates(space, x);
    }
  }

  lemma TemporaryEntry(tmp: Word)
    requires IsPage(tmp)
    ensures PageBase(OrWords(tmp, COPY_FLAGS)) == tmp && IsPresent(OrWords(tmp, COPY_FLAGS))
  {
    OrFlags(tmp, COPY_FLAGS);
    OrKeepsPage(tmp, COPY_FLAGS);
    var q := tmp / PAGE_SIZE;
    assert tmp == PAGE_SIZE * q;
    Odd(tmp + COPY_FLAGS, 2048 * q + 3);
  }

  /** Under the temporary mapping the user's bytes are still seen where they were. */
  lemma UserBytesStay(m: Ram, m': Ram, space: Space, space': Space, userPtr: Word, limit: nat, tmp: Word, a: int, entry: Word)
    requires userPtr != 0 && limit <= PAGE_SIZE
    requires UserBytesMapped(m, space, userPtr, limit, tmp, a)
    requires space' == space[PageOf(tmp) := entry] && SameOutside(m, m', a, 4)
    ensures Source(m', space', userPtr, CString(m, space, userPtr, limit), tmp, limit)
  {
    var str := CString(m, space, userPtr, limit);
    forall k | 0 <= k < |str| ensures SourceByte(m', space', Ahead(userPtr, k), str[k], tmp, limit) {
      var va := Ahead(userPtr, k);
      assert UserByteMapped(space, userPtr, k, tmp, a);
      assert space'[PageOf(va)] == space[PageOf(va)];
    }
  }

  /** The entry of a page of the space stands in one of the pages of the space. */
  lemma EntryInSpace(m: Ram, chunk: int, page: int)
    requires WellFormed(m, chunk) && 0 <= page < PAGES
    ensures var t := TableAt(m, Directory(m, chunk), page / ENTRIES_PER_TABLE);
            && t in SpacePages(m, chunk)
            && t <= EntryAddress(m, Directory(m, chunk), page)
            && EntryAddress(m, Directory(m, chunk), page) + 4 <= t + PAGE_SIZE
  {
    var i := page / ENTRIES_PER_TABLE;
    assert SpacePages(m, chunk)[i] == TableAt(m, Directory(m, chunk), i);
  }

  /** Setting an entry of a space touches no page outside the space. */
  lemma EntryOutsidePage(m: Ram, m': Ram, chunk: int, page: int, val: Word, e: Word)
    requires EntrySet(m, m', chunk, page, val) && IsPage(e) && e !in SpacePages(m, chunk)
    ensures SamePage(m, m', e)
    ensures var a := EntryAddress(m, Directory(m, chunk), page); a + 4 <= e || e + PAGE_SIZE <= a
  {
    EntryInSpace(m, chunk, page);
    PagesDisjoint(TableAt(m, Directory(m, chunk), page / ENTRIES_PER_TABLE), e);
  }

  /** Where the temporary page's own entry stands in the task's tables. */
  function TemporarySlot(m: Ram, task: int, tmp: Word): int
    requires IsPage(task) && IsPage(Directory(m, task))
  {
    EntryAddress(m, Directory(m, task), PageOf(tmp))
  }

  function SpaceOf(m: Ram, chunk: int): Space
    requires IsPage(chunk) && IsPage(Directory(m, chunk))
  {
    EntryMap(m, Directory(m, chunk))
  }

  /** A task and the kernel with address spaces apart. The kernel maps every page to itself, and the
      task maps the two chunks to themselves, so that switching between the two finds them. */
  ghost predicate TwoSpaces(m: Ram, task: int, kernel: int)
  {
    && WellFormed(m, task) && WellFormed(m, kernel)
    && (forall q :: q in SpacePages(m, task) ==> q !in SpacePages(m, kernel))
    && TablesPresent(m, Directory(m, task)) && TablesPresent(m, Directory(m, kernel))
    && IsIdentity(SpaceOf(m, kernel))
    && MapsToItself(SpaceOf(m, task), task) && MapsToItself(SpaceOf(m, task), kernel)
  }

  /** A page of neither space. */
  ghost predicate TemporaryPage(m: Ram, task: int, kernel: int, tmp: Word)
    requires WellFormed(m, task) && WellFormed(m, kernel)
  {
    IsPage(tmp) && tmp != 0 && tmp !in SpacePages(m, task) && tmp !in SpacePages(m, kernel)
  }

  /** The processor translates with the kernel's directory. */
  predicate InKernel(p: Pager)
    requires IsPage(p.kernelDirectory)
    reads p, p.kheap
  {
    p.pagingOn && p.loadedDirectory == Directory(p.kheap.ram, p.kernelDirectory)
  }

  /** With the temporary mapping in place, all that a copy through the task's directory needs. */
  lemma MappedForCopy(m: Ram, m1: Ram, task: int, tmp: Word, userPtr: Word, limit: nat)
    requires WellFormed(m, task) && IsPage(tmp) && tmp !in SpacePages(m, task) && limit <= PAGE_SIZE
    requires EntrySet(m, m1, task, PageOf(tmp), OrWords(tmp, COPY_FLAGS))
    requires UserBytesMapped(m, SpaceOf(m, task), userPtr, limit, tmp, TemporarySlot(m, task, tmp))
    ensures ApartFrom(SpacePages(m1, task), tmp, PAGE_SIZE)
    ensures ApartFrom(Tables(m1, Directory(m1, task)) + [Directory(m1, task)], tmp, limit)
    ensures IdentityOn(SpaceOf(m1, task), tmp, limit)
    ensures userPtr != 0 ==>
              Source(m1, SpaceOf(m1, task), userPtr, CString(m, SpaceOf(m, task), userPtr, limit), tmp, limit)
    ensures SamePage(m, m1, tmp)
  {
    EntryOutsidePage(m, m1, task, PageOf(tmp), OrWords(tmp, COPY_FLAGS), tmp);
    SpacePagesDistinct(m1, task);
    OtherPageApart(SpacePages(m1, task), tmp);
    SpaceUnaffected(m1, m1, task, tmp, PAGE_SIZE);
    TemporaryPageIsIdentity(SpaceOf(m1, task), tmp, limit);
    if userPtr != 0 {
      UserBytesStay(m, m1, SpaceOf(m, task), SpaceOf(m1, task), userPtr, limit, tmp, TemporarySlot(m, task, tmp),
                    OrWords(tmp, COPY_FLAGS));
    }
  }

  /** Setting an entry of one space leaves a space on other pages alone. */
  lemma OtherSpaceKept(m: Ram, m': Ram, chunk: int, page: int, val: Word, other: int)
    requires EntrySet(m, m', chunk, page, val) && WellFormed(m, other)
    requires forall q :: q in SpacePages(m, chunk) ==> q !in SpacePages(m, other)
    ensures SameSpace(m, m', other)
  {
    var a, t := EntryAddress(m, Directory(m, chunk), page), TableAt(m, Directory(m, chunk), page / ENTRIES_PER_TABLE);
    EntryInSpace(m, chunk, page);
    SpacePagesDistinct(m, other);
    OtherPageApart(SpacePages(m, other), t);
    SameSpaceOutside(m, m', other, a, 4);
  }

  /** A page other than the one whose entry is set is mapped as before. */
  lemma StillMapsToItself(space: Space, page: Word, val: Word, other: Word)
    requires IsPage(page) && IsPage(other) && page != other && MapsToItself(space, other)
    ensures MapsToItself(space[PageOf(page) := val], other)
  {
    SamePageNumber(page, page);
    SamePageNumber(other, other);
  }

  /** With the temporary mapping in place, the spaces are still as they must be for the switches. */
  lemma MappedForSwitch(m: Ram, m1: Ram, task: int, kernel: int, tmp: Word)
    requires TwoSpaces(m, task, kernel) && TemporaryPage(m, task, kernel, tmp)
    requires EntrySet(m, m1, task, PageOf(tmp), OrWords(tmp, COPY_FLAGS))
    ensures TwoSpaces(m1, task, kernel) && TemporaryPage(m1, task, kernel, tmp) && SameSpace(m, m1, kernel)
  {
    assert SpacePages(m, task)[ENTRIES_PER_TABLE + 1] == task;
    assert SpacePages(m, kernel)[ENTRIES_PER_TABLE + 1] == kernel;
    OtherSpaceKept(m, m1, task, PageOf(tmp), OrWords(tmp, COPY_FLAGS), kernel);
    StillMapsToItself(SpaceOf(m, task), tmp, OrWords(tmp, COPY_FLAGS), task);
    StillMapsToItself(SpaceOf(m, task), tmp, OrWords(tmp, COPY_FLAGS), kernel);
  }

  /** What is written to the temporary page changes neither space. */
  lemma CopyKeepsSpaces(m: Ram, m': Ram, task: int, kernel: int, tmp: Word)
    requires TwoSpaces(m, task, kernel) && TemporaryPage(m, task, kernel, tmp) && SameOutside(m, m', tmp, PAGE_SIZE)
    ensures TwoSpaces(m', task, kernel) && TemporaryPage(m', task, kernel, tmp)
    ensures SameSpace(m, m', task) && SameSpace(m, m', kernel)
  {
    PageOutsideSpace(m, m', task, tmp);
    PageOutsideSpace(m, m', kernel, tmp);
  }

  /** switch_to_page to the task, from the kernel. */
  method EnterTask(p: Pager, task: Word)
    requires TwoSpaces(p.kheap.ram, task, p.kernelDirectory) && InKernel(p)
    modifies p`loadedDirectory, p`currentDirectory
    ensures p.loadedDirectory == p.currentDirectory == Directory(p.kheap.ram, task)
  {
    IdentityMapsToItself(SpaceOf(p.kheap.ram, p.kernelDirectory), task);
    p.SwitchSeesChunk(task);
    p.SwitchToPage(task);
  }

  /** switch_to_kernel_page, from the task. */
  method EnterKernel(p: Pager, ghost task: Word)
    requires TwoSpaces(p.kheap.ram, task, p.kernelDirectory)
    requires p.pagingOn && p.loadedDirectory == Directory(p.kheap.ram, task)
    modifies p`loadedDirectory, p`currentDirectory
    ensures p.loadedDirectory == p.currentDirectory == Directory(p.kheap.ram, p.kernelDirectory)
  {
    IdentityMapsToItself(SpaceOf(p.kheap.ram, p.kernelDirectory), p.kernelDirectory);
    p.SwitchSeesChunk(p.kernelDirectory);
    p.SwitchToKernelPage();
  }

  /** The temporary mapping and the copy with the task's directory loaded. */
  method CopyUnderMapping(p: Pager, task: Word, tmp: Word, userPtr: Word, size: Word) returns (ghost m1: Ram)
    requires TwoSpaces(p.kheap.ram, task, p.kernelDirectory) && InKernel(p)
    requires TemporaryPage(p.kheap.ram, task, p.kernelDirectory, tmp) && p.kheap.ram[tmp] == 0
    requires 1 <= size < PAGE_SIZE
    requires UserBytesMapped(p.kheap.ram, SpaceOf(p.kheap.ram, task), userPtr, Limit(size), tmp,
                             TemporarySlot(p.kheap.ram, task, tmp))
    modifies p`loadedDirectory, p`currentDirectory, p.kheap`ram
    ensures EntrySet(old(p.kheap.ram), m1, task, PageOf(tmp), OrWords(tmp, COPY_FLAGS))
    ensures SameOutside(m1, p.kheap.ram, tmp, PAGE_SIZE)
    ensures p.loadedDirectory == Directory(m1, task)
    ensures var str := Fetched(old(p.kheap.ram), SpaceOf(old(p.kheap.ram), task), userPtr, Limit(size));
            tmp + |str| <= WORD_RANGE && StandsAt(p.kheap.ram, tmp, str)
  {
    ghost var m := p.kheap.ram;
    ghost var str := CString(m, SpaceOf(m, task), userPtr, Limit(size));
    SamePageNumber(tmp, tmp);
    var _ := p.MapPage(task, tmp, tmp, COPY_FLAGS);
    m1 := p.kheap.ram;
    MappedForSwitch(m, m1, task, p.kernelDirectory, tmp);
    MappedForCopy(m, m1, task, tmp, userPtr, Limit(size));
    EnterTask(p, task);
    StrNCpy(p, tmp, userPtr, size, str);
    CopyStands(m1, p.kheap.ram, tmp, userPtr, str, Fetched(m, SpaceOf(m, task), userPtr, Limit(size)));
  }

  lemma StandsOnPage(m: Ram, m': Ram, page: int, str: seq<Byte>)
    requires IsPage(page) && |str| <= PAGE_SIZE && SamePage(m, m', page) && StandsAt(m, page, str)
    ensures StandsAt(m', page, str)
  {
  }

  /** The copy, or the zero byte that was there for a NULL pointer. */
  lemma CopyStands(m1: Ram, m2: Ram, tmp: Word, userPtr: Word, str: seq<Byte>, fetched: seq<Byte>)
    requires fetched == if userPtr == 0 then [0] else str
    requires IsPage(tmp) && |fetched| <= PAGE_SIZE && m1[tmp] == 0
    requires if userPtr == 0 then m2 == m1 else tmp + |str| <= WORD_RANGE && Copied(m1, m2, tmp, str, |str|)
    ensures tmp + |fetched| <= WORD_RANGE && StandsAt(m2, tmp, fetched)
    ensures SameOutside(m1, m2, tmp, PAGE_SIZE)
  {
  }

  /** After the copy under the temporary mapping the two spaces are as the switch back needs them. */
  lemma SpacesDuringCopy(m: Ram, m1: Ram, m2: Ram, task: int, kernel: int, tmp: Word)
    requires TwoSpaces(m, task, kernel) && TemporaryPage(m, task, kernel, tmp)
    requires EntrySet(m, m1, task, PageOf(tmp), OrWords(tmp, COPY_FLAGS)) && SameOutside(m1, m2, tmp, PAGE_SIZE)
    ensures TwoSpaces(m2, task, kernel) && Directory(m2, kernel) == Directory(m, kernel)
    ensures Directory(m2, task) == Directory(m1, task) == Directory(m, task)
    ensures SpacePages(m2, task) == SpacePages(m, task)
  {
    MappedForSwitch(m, m1, task, kernel, tmp);
    CopyKeepsSpaces(m1, m2, task, kernel, tmp);
  }

  /** Setting the old entry back leaves memory as it was but for the temporary page. */
  lemma MappingUndone(m: Ram, m1: Ram, m2: Ram, m3: Ram, task: int, tmp: Word, was: Word, str: seq<Byte>)
    requires EntrySet(m, m1, task, PageOf(tmp), OrWords(tmp, COPY_FLAGS)) && EntrySet(m2, m3, task, PageOf(tmp), was)
    requires was == SpaceOf(m, task)[PageOf(tmp)] && SameOutside(m1, m2, tmp, PAGE_SIZE)
    requires Directory(m2, task) == Directory(m, task) && SpacePages(m2, task) == SpacePages(m, task)
    requires IsPage(tmp) && tmp !in SpacePages(m, task) && |str| <= PAGE_SIZE && StandsAt(m2, tmp, str)
    ensures SameOutside(m, m3, tmp, PAGE_SIZE) && StandsAt(m3, tmp, str)
  {
    SettingBackRestores(m, m1, m2, m3, task, PageOf(tmp), OrWords(tmp, COPY_FLAGS), was, tmp);
    EntryOutsidePage(m2, m3, task, PageOf(tmp), was, tmp);
    StandsOnPage(m2, m3, tmp, str);
  }

  /** The string is in the temporary page, the kernel's directory is loaded again, and outside that
      page memory is as it was. */
  method Fetch(p: Pager, task: Word, tmp: Word, userPtr: Word, size: Word) returns (result: int)
    requires TwoSpaces(p.kheap.ram, task, p.kernelDirectory) && InKernel(p)
    requires TemporaryPage(p.kheap.ram, task, p.kernelDirectory, tmp) && p.kheap.ram[tmp] == 0
    requires 1 <= size < PAGE_SIZE
    requires UserBytesMapped(p.kheap.ram, SpaceOf(p.kheap.ram, task), userPtr, Limit(size), tmp,
                             TemporarySlot(p.kheap.ram, task, tmp))
    modifies p`loadedDirectory, p`currentDirectory, p.kheap`ram
    ensures result == 0
    ensures p.loadedDirectory == p.currentDirectory == Directory(old(p.kheap.ram), p.kernelDirectory)
    ensures SameOutside(old(p.kheap.ram), p.kheap.ram, tmp, PAGE_SIZE)
    ensures var str := Fetched(old(p.kheap.ram), SpaceOf(old(p.kheap.ram), task), userPtr, Limit(size));
            tmp + |str| <= WORD_RANGE && StandsAt(p.kheap.ram, tmp, str)
  {
    ghost var m := p.kheap.ram;
    var oldEntry := p.GetEntry(task, tmp);
    SamePageNumber(tmp, tmp);
    ghost var m1 := CopyUnderMapping(p, task, tmp, userPtr, size);
    result := BackToKernel(p, task, tmp, oldEntry, m, m1, Fetched(m, SpaceOf(m, task), userPtr, Limit(size)));
  }

  /** The switch back, and the end of the temporary mapping. */
  method BackToKernel(p: Pager, task: Word, tmp: Word, oldEntry: Word, ghost m: Ram, ghost m1: Ram, ghost str: seq<Byte>)
    returns (result: int)
    requires p.pagingOn && TwoSpaces(m, task, p.kernelDirectory) && TemporaryPage(m, task, p.kernelDirectory, tmp)
    requires EntrySet(m, m1, task, PageOf(tmp), OrWords(tmp, COPY_FLAGS)) && oldEntry == SpaceOf(m, task)[PageOf(tmp)]
    requires SameOutside(m1, p.kheap.ram, tmp, PAGE_SIZE) && p.loadedDirectory == Directory(m1, task)
    requires |str| <= PAGE_SIZE && tmp + |str| <= WORD_RANGE && StandsAt(p.kheap.ram, tmp, str)
    modifies p`loadedDirectory, p`currentDirectory, p.kheap`ram
    ensures result == 0
    ensures p.loadedDirectory == p.currentDirectory == Directory(m, p.kernelDirectory)
    ensures SameOutside(m, p.kheap.ram, tmp, PAGE_SIZE) && StandsAt(p.kheap.ram, tmp, str)
  {
    ghost var m2 := p.kheap.ram;
    SpacesDuringCopy(m, m1, m2, task, p.kernelDirectory, tmp);
    EnterKernel(p, task);
    SamePageNumber(tmp, tmp);
    result := p.SetEntry(task, tmp, oldEntry);
    MappingUndone(m, m1, m2, p.kheap.ram, task, tmp, oldEntry, str);
  }

  /** Two spaces as above, in live heap pages. */
  ghost predicate Setting(m: Ram, r: Runs, task: int, kernel: int)
  {
    TwoSpaces(m, task, kernel) && OwnsPages(r, SpacePages(m, task)) && OwnsPages(r, SpacePages(m, kernel))
  }

  /** The space of a chunk is untouched. */
  ghost predicate SameSpace(m: Ram, m': Ram, chunk: int)
    requires WellFormed(m, chunk)
  {
    && WellFormed(m', chunk) && Directory(m', chunk) == Directory(m, chunk)
    && SpacePages(m', chunk) == SpacePages(m, chunk) && SpaceOf(m', chunk) == SpaceOf(m, chunk)
    && (TablesPresent(m', Directory(m, chunk)) <==> TablesPresent(m, Directory(m, chunk)))
  }

  /** A change confined to a page outside a space, or to bytes apart from it, leaves it alone. */
  lemma SameSpaceOutside(m: Ram, m': Ram, chunk: int, d: int, n: int)
    requires WellFormed(m, chunk) && ApartFrom(SpacePages(m, chunk), d, n) && SameOutside(m, m', d, n)
    ensures SameSpace(m, m', chunk)
  {
    SpaceUnaffected(m, m', chunk, d, n);
  }

  lemma NewPageOutsideSpace(m: Ram, r: Runs, chunk: int, tmp: Word)
    requires WellFormed(m, chunk) && OwnsPages(r, SpacePages(m, chunk))
    requires IsPage(tmp) && BlockAt(tmp) !in r
    ensures tmp !in SpacePages(m, chunk) && ApartFrom(SpacePages(m, chunk), tmp, PAGE_SIZE)
  {
    SpacePagesDistinct(m, chunk);
    forall i | 0 <= i < |SpacePages(m, chunk)| ensures SpacePages(m, chunk)[i] != tmp {
      assert BlockAt(SpacePages(m, chunk)[i]) in r;
    }
    OtherPageApart(SpacePages(m, chunk), tmp);
  }

  /** The user's string is seen unchanged after a change inside the temporary page. */
  lemma StringKept(m: Ram, m': Ram, task: int, tmp: Word, userPtr: Word, limit: nat)
    requires WellFormed(m, task) && SameSpace(m, m', task) && IsPage(tmp) && SameOutside(m, m', tmp, PAGE_SIZE)
    requires 1 <= limit
    requires UserBytesMapped(m, SpaceOf(m, task), userPtr, limit, tmp, TemporarySlot(m, task, tmp))
    ensures UserBytesMapped(m', SpaceOf(m', task), userPtr, limit, tmp, TemporarySlot(m', task, tmp))
    ensures Fetched(m', SpaceOf(m', task), userPtr, limit) == Fetched(m, SpaceOf(m, task), userPtr, limit)
  {
    var space := SpaceOf(m, task);
    TablesOfSpace(m, task);
    TablesOfSpace(m', task);
    SameEntryAddress(m, m', Directory(m, task), PageOf(tmp));
    if userPtr != 0 {
      var str := CString(m, space, userPtr, limit);
      forall k | 0 <= k < |str| ensures str[k] == m'[Translate(space, Ahead(userPtr, k))] {
        assert UserByteMapped(space, userPtr, k, tmp, TemporarySlot(m, task, tmp));
      }
      CStringShown(m', space, userPtr, limit, str);
    }
  }

  /** What the second copy, from the temporary page to the caller, needs under the kernel's map. */
  lemma ReadyToDeliver(m: Ram, kernel: int, tmp: Word, to: Word, limit: nat, str: seq<Byte>)
    requires WellFormed(m, kernel) && IsIdentity(SpaceOf(m, kernel))
    requires IsCString(str, limit) && limit <= COPY_LIMIT && IsPage(tmp) && to + limit <= WORD_RANGE
    requires ApartFrom(SpacePages(m, kernel), to, limit) && (to + limit <= tmp || tmp + PAGE_SIZE <= to)
    requires StandsAt(m, tmp, str)
    ensures ApartFrom(Tables(m, Directory(m, kernel)) + [Directory(m, kernel)], to, limit)
    ensures IdentityOn(SpaceOf(m, kernel), to, limit)
    ensures Source(m, SpaceOf(m, kernel), tmp, str, to, limit)
  {
    SpaceUnaffected(m, m, kernel, to, limit);
    var space := SpaceOf(m, kernel);
    forall x: Word ensures Translate(space, x) == x && Present(space, x) {
      IdentityTranslates(space, x);
    }
    forall k | 0 <= k < |str| ensures SourceByte(m, space, Ahead(tmp, k), str[k], to, limit) {
      var x := Ahead(tmp, k);
      assert Translate(space, x) == x && m[x] == str[x - tmp];
    }
  }

  /** Sizes below one never get a block: they round to no block or to more than the pool has. */
  lemma NegativeSizeNeverFits(t: Table, size: int)
    requires |t| == POOL_BLOCKS && -0x8000_0000 <= size <= 0
    ensures BlocksFor(U32(size)) == 0 || FirstFit(t, BlocksFor(U32(size)), 0).None?
  {
    BlocksForIsCeiling(U32(size));
    if BlocksFor(U32(size)) > 0 {
      assert U32(size) >= 0x8000_0000;
      assert BlocksFor(U32(size)) > POOL_BLOCKS;
    }
  }

  /** The bytes the caller may be given do not meet the two spaces, the temporary page or the heap's
      block table. */
  ghost predicate TargetApart(m: Ram, task: int, kernel: int, tmp: Word, to: Word, limit: nat)
    requires WellFormed(m, task) && WellFormed(m, kernel)
  {
    && to + limit <= WORD_RANGE
    && ApartFrom(SpacePages(m, task), to, limit) && ApartFrom(SpacePages(m, kernel), to, limit)
    && (to + limit <= tmp || tmp + PAGE_SIZE <= to)
    && (to + limit <= HEAP_TABLE || HEAP_TABLE + POOL_BLOCKS <= to)
  }

  /** The string stands at `to`, unless that is NULL, and apart from it and from the temporary page
      no byte of memory has changed. */
  ghost predicate Delivered(m: Ram, m': Ram, tmp: Word, to: Word, str: seq<Byte>)
    requires to + |str| <= WORD_RANGE
  {
    && (to != 0 ==> StandsAt(m', to, str))
    && (forall x :: 0 <= x < WORD_RANGE && !(tmp <= x < tmp + PAGE_SIZE) && (to == 0 || !(to <= x < to + |str|)) ==>
          m'[x] == m[x])
  }

  /** Both copies, once the temporary page is there. */
  method Carry(p: Pager, task: Word, tmp: Word, userPtr: Word, to: Word, size: Word) returns (result: int)
    requires 1 <= size < PAGE_SIZE
    requires Prepared(p.kheap.ram, task, p.kernelDirectory, tmp, userPtr, to, size) && InKernel(p)
    modifies p`loadedDirectory, p`currentDirectory, p.kheap`ram
    ensures result == 0
    ensures p.loadedDirectory == p.currentDirectory == Directory(old(p.kheap.ram), p.kernelDirectory)
    ensures SameSpace(old(p.kheap.ram), p.kheap.ram, task)
    ensures SameSpace(old(p.kheap.ram), p.kheap.ram, p.kernelDirectory)
    ensures Delivered(old(p.kheap.ram), p.kheap.ram, tmp, to,
                      Fetched(old(p.kheap.ram), SpaceOf(old(p.kheap.ram), task), userPtr, Limit(size)))
  {
    ghost var m := p.kheap.ram;
    ghost var str := Fetched(m, SpaceOf(m, task), userPtr, Limit(size));
    result := Fetch(p, task, tmp, userPtr, size);
    if result < 0 {
      return -EIO;
    }
    CopyKeepsSpaces(m, p.kheap.ram, task, p.kernelDirectory, tmp);
    Deliver(p, task, tmp, to, size, m, str);
  }

  /** The second copy, from the temporary page to the caller. */
  method Deliver(p: Pager, ghost task: int, tmp: Word, to: Word, size: Word, ghost m: Ram, ghost str: seq<Byte>)
    requires WellFormed(m, task) && WellFormed(m, p.kernelDirectory) && IsIdentity(SpaceOf(m, p.kernelDirectory))
    requires TablesPresent(m, Directory(m, p.kernelDirectory))
    requires SameSpace(m, p.kheap.ram, task) && SameSpace(m, p.kheap.ram, p.kernelDirectory)
    requires SameOutside(m, p.kheap.ram, tmp, PAGE_SIZE) && p.loadedDirectory == Directory(m, p.kernelDirectory)
    requires IsPage(tmp) && tmp != 0 && IsCString(str, Limit(size)) && StandsAt(p.kheap.ram, tmp, str)
    requires TargetApart(m, task, p.kernelDirectory, tmp, to, Limit(size))
    modifies p.kheap`ram
    ensures SameSpace(m, p.kheap.ram, task) && SameSpace(m, p.kheap.ram, p.kernelDirectory)
    ensures Delivered(m, p.kheap.ram, tmp, to, str)
  {
    ghost var m4 := p.kheap.ram;
    ReadyToDeliver(m4, p.kernelDirectory, tmp, to, Limit(size), str);
    StrNCpy(p, to, tmp, size, str);
    Delivery(m, m4, p.kheap.ram, task, p.kernelDirectory, tmp, to, str, Limit(size));
  }

  /** The copy to the caller leaves both spaces alone and completes the delivery. */
  lemma Delivery(m: Ram, m4: Ram, m5: Ram, task: int, kernel: int, tmp: Word, to: Word, str: seq<Byte>, limit: nat)
    requires WellFormed(m, task) && WellFormed(m, kernel) && SameSpace(m, m4, task) && SameSpace(m, m4, kernel)
    requires SameOutside(m, m4, tmp, PAGE_SIZE) && |str| <= limit && TargetApart(m, task, kernel, tmp, to, limit)
    requires if to == 0 then m5 == m4 else Copied(m4, m5, to, str, |str|)
    ensures SameSpace(m, m5, task) && SameSpace(m, m5, kernel) && Delivered(m, m5, tmp, to, str)
  {
    SameSpaceOutside(m4, m5, task, to, limit);
    SameSpaceOutside(m4, m5, kernel, to, limit);
  }

  lemma PageOutsideSpace(m: Ram, m': Ram, chunk: int, tmp: Word)
    requires WellFormed(m, chunk) && IsPage(tmp) && tmp !in SpacePages(m, chunk) && SameOutside(m, m', tmp, PAGE_SIZE)
    ensures SameSpace(m, m', chunk)
  {
    SpacePagesDistinct(m, chunk);
    OtherPageApart(SpacePages(m, chunk), tmp);
    SameSpaceOutside(m, m', chunk, tmp, PAGE_SIZE);
  }

  /** The page kzalloc will give for the copy, when it gives one. */
  function TemporaryAddress(t: Table): Word
    requires |t| == POOL_BLOCKS && FirstFit(t, 1, 0).Some?
  {
    AddressOf(FirstFit(t, 1, 0).value)
  }

  /** What the caller of copy_from_user must see to: a readable string in the task, and room for it
      apart from page tables and from the page that will be borrowed. */
  ghost predicate Permitted(m: Ram, task: int, kernel: int, userPtr: Word, to: Word, limit: nat, tmp: Word)
    requires WellFormed(m, task) && WellFormed(m, kernel)
  {
    && UserBytesMapped(m, SpaceOf(m, task), userPtr, limit, tmp, TemporarySlot(m, task, tmp))
    && TargetApart(m, task, kernel, tmp, to, limit)
  }

  /** Everything Carry needs. */
  ghost predicate Prepared(m: Ram, task: int, kernel: int, tmp: Word, userPtr: Word, to: Word, size: Word)
  {
    && TwoSpaces(m, task, kernel) && TemporaryPage(m, task, kernel, tmp)
    && m[tmp] == 0
    && Permitted(m, task, kernel, userPtr, to, Limit(size), tmp)
  }

  /** After the temporary page is allocated, everything is in place and the string is the same. */
  lemma AllocationPrepares(m: Ram, m': Ram, t: Table, r: Runs, t': Table, r': Runs, task: int, kernel: int,
                           tmp: Word, size: Word, userPtr: Word, to: Word)
    requires Setting(m, r, task, kernel) && 1 <= size < PAGE_SIZE && |t| == POOL_BLOCKS
    requires Granted(t, r, t', r', 1, tmp) && SameOutside(m, m', tmp, size) && m'[tmp] == 0
    requires Permitted(m, task, kernel, userPtr, to, Limit(size), TemporaryAddress(t))
    ensures POOL_START <= tmp < POOL_START + POOL_BYTES && BlockAt(tmp) !in r && r' == r[BlockAt(tmp) := 1]
    ensures Prepared(m', task, kernel, tmp, userPtr, to, size)
    ensures SameSpace(m, m', task) && SameSpace(m, m', kernel)
    ensures Fetched(m', SpaceOf(m', task), userPtr, Limit(size)) == Fetched(m, SpaceOf(m, task), userPtr, Limit(size))
  {
    GrantIsPage(t, r, t', r', tmp);
    NewPageOutsideSpace(m, r, task, tmp);
    NewPageOutsideSpace(m, r, kernel, tmp);
    PageOutsideSpace(m, m', task, tmp);
    PageOutsideSpace(m, m', kernel, tmp);
    StringKept(m, m', task, tmp, userPtr, Limit(size));
  }

  /** The byte that the task sees k bytes behind its pointer. */
  function UserByte(m: Ram, task: int, userPtr: Word, k: nat): Byte
    requires WellFormed(m, task)
  {
    m[Translate(SpaceOf(m, task), Ahead(userPtr, k))]
  }

  /** n is the number of bytes to be copied: up to and with the first zero, or the smaller of size and
      255 of them. A NULL pointer stands for the empty string. */
  ghost predicate CopyLength(m: Ram, task: int, userPtr: Word, size: int, n: nat)
    requires WellFormed(m, task)
  {
    if userPtr == 0 then n == 1
    else
      && 1 <= n <= size && n <= 255
      && (forall k :: 0 <= k < n - 1 ==> UserByte(m, task, userPtr, k) != 0)
      && (n < size && n < 255 ==> UserByte(m, task, userPtr, n - 1) == 0)
  }

  /** Those bytes are at `to`, unless that is NULL, and nothing else has changed outside page tmp. */
  ghost predicate BytesArrived(m: Ram, m': Ram, task: int, tmp: Word, userPtr: Word, to: Word, n: nat)
    requires WellFormed(m, task)
  {
    && to + n <= WORD_RANGE
    && (to != 0 ==>
          forall k :: 0 <= k < n ==> m'[to + k] == if userPtr == 0 then 0 else UserByte(m, task, userPtr, k))
    && (forall x :: 0 <= x < WORD_RANGE && !(tmp <= x < tmp + PAGE_SIZE) && (to == 0 || !(to <= x < to + n)) ==>
          m'[x] == m[x])
  }

  /** What is delivered are just those bytes. */
  lemma {:induction false} DeliveredBytes(m: Ram, m': Ram, task: int, kernel: int, tmp: Word, userPtr: Word, to: Word, size: Word, n: nat)
    requires WellFormed(m, task) && WellFormed(m, kernel) && size >= 1 && to + Limit(size) <= WORD_RANGE
    requires CopyDone(m, m', task, kernel, tmp, userPtr, to, size) && CopyLength(m, task, userPtr, size, n)
    ensures BytesArrived(m, m', task, tmp, userPtr, to, n)
  {
    var str := Fetched(m, SpaceOf(m, task), userPtr, Limit(size));
    FetchedLength(m, task, userPtr, size, n);
    forall k | 0 <= k < n && to != 0
      ensures m'[to + k] == if userPtr == 0 then 0 else UserByte(m, task, userPtr, k)
    {
      var x := to + k;
      assert m'[x] == str[x - to];
    }
  }

  lemma {:induction false} FetchedLength(m: Ram, task: int, userPtr: Word, size: Word, n: nat)
    requires WellFormed(m, task) && size >= 1 && CopyLength(m, task, userPtr, size, n)
    ensures |Fetched(m, SpaceOf(m, task), userPtr, Limit(size))| == n
  {
    if userPtr != 0 {
      var str := CString(m, SpaceOf(m, task), userPtr, Limit(size));
      assert forall k :: 0 <= k < |str| ==> str[k] == UserByte(m, task, userPtr, k);
    }
  }

  /** What copy_from_user leaves behind on success. */
  ghost predicate CopyDone(m: Ram, m': Ram, task: int, kernel: int, tmp: Word, userPtr: Word, to: Word, size: Word)
    requires WellFormed(m, task) && WellFormed(m, kernel) && size >= 1
    requires to + Limit(size) <= WORD_RANGE
  {
    && SameSpace(m, m', task) && SameSpace(m, m', kernel)
    && Delivered(m, m', tmp, to, Fetched(m, SpaceOf(m, task), userPtr, Limit(size)))
  }

  /** A change of the temporary page alone before the copy does not show after it. */
  lemma CopyDoneFrom(m: Ram, m1: Ram, m': Ram, task: int, kernel: int, tmp: Word, userPtr: Word, to: Word, size: Word)
    requires WellFormed(m, task) && WellFormed(m, kernel) && 1 <= size < PAGE_SIZE
    requires to + Limit(size) <= WORD_RANGE
    requires SameSpace(m, m1, task) && SameSpace(m, m1, kernel) && SameOutside(m, m1, tmp, size)
    requires Fetched(m1, SpaceOf(m1, task), userPtr, Limit(size)) == Fetched(m, SpaceOf(m, task), userPtr, Limit(size))
    requires CopyDone(m1, m', task, kernel, tmp, userPtr, to, size)
    ensures CopyDone(m, m', task, kernel, tmp, userPtr, to, size)
  {
  }

  lemma AddedAndRemoved(r: Runs, b: int)
    requires b !in r
    ensures r[b := 1] - {b} == r
  {
  }

  /** The two copies and the return of the temporary page. */
  method CarryAndFree(p: Pager, task: Word, tmp: Word, userPtr: Word, to: Word, size: Word, ghost t: Table, ghost r: Runs)
    returns (result: int)
    requires p.kheap.Valid() && 1 <= size < PAGE_SIZE
    requires Prepared(p.kheap.ram, task, p.kernelDirectory, tmp, userPtr, to, size) && InKernel(p)
    requires |t| == POOL_BLOCKS && Represents(t, r)
    requires POOL_START <= tmp < POOL_START + POOL_BYTES
    requires BlockAt(tmp) !in r && p.kheap.heap.runs == r[BlockAt(tmp) := 1]
    modifies p`loadedDirectory, p`currentDirectory, p.kheap`ram, p.kheap.heap`runs, p.kheap.heap.entries
    ensures p.kheap.Valid() && p.kheap.heap.runs == r && p.kheap.heap.entries[..] == t
    ensures result == 0
    ensures p.loadedDirectory == p.currentDirectory == Directory(old(p.kheap.ram), p.kernelDirectory)
    ensures CopyDone(old(p.kheap.ram), p.kheap.ram, task, p.kernelDirectory, tmp, userPtr, to, size)
  {
    result := Carry(p, task, tmp, userPtr, to, size);
    p.kheap.Kfree(tmp);
    AddedAndRemoved(r, BlockAt(tmp));
    OneTable(p.kheap.heap.entries[..], t, r);
  }

  /** The rest of copy_from_user once kzalloc has given a page. */
  method CopyThroughPage(p: Pager, task: Word, tmp: Word, userPtr: Word, to: Word, size: Word,
                         ghost m: Ram, ghost t: Table, ghost r: Runs)
    returns (result: int)
    requires p.kheap.Valid() && 1 <= size < PAGE_SIZE && |t| == POOL_BLOCKS && Represents(t, r)
    requires Setting(m, r, task, p.kernelDirectory)
    requires Granted(t, r, p.kheap.heap.entries[..], p.kheap.heap.runs, 1, tmp)
    requires SameOutside(m, p.kheap.ram, tmp, size) && p.kheap.ram[tmp] == 0
    requires p.pagingOn && p.loadedDirectory == Directory(m, p.kernelDirectory)
    requires Permitted(m, task, p.kernelDirectory, userPtr, to, Limit(size), TemporaryAddress(t))
    modifies p`loadedDirectory, p`currentDirectory, p.kheap`ram, p.kheap.heap`runs, p.kheap.heap.entries
    ensures p.kheap.Valid() && p.kheap.heap.runs == r && p.kheap.heap.entries[..] == t
    ensures result == 0
    ensures p.loadedDirectory == p.currentDirectory == Directory(m, p.kernelDirectory)
    ensures CopyDone(m, p.kheap.ram, task, p.kernelDirectory, tmp, userPtr, to, size)
  {
    ghost var m1 := p.kheap.ram;
    AllocationPrepares(m, m1, t, r, p.kheap.heap.entries[..], p.kheap.heap.runs, task, p.kernelDirectory,
                       tmp, size, userPtr, to);
    result := CarryAndFree(p, task, tmp, userPtr, to, size, t, r);
    CopyDoneFrom(m, m1, p.kheap.ram, task, p.kernelDirectory, tmp, userPtr, to, size);
  }

  /** kzalloc of the temporary page: one block for sizes of up to a page, none for others. */
  method AllocateTemporary(kheap: KernelHeap, size: int) returns (tmp: Word)
    requires kheap.Valid() && -0x8000_0000 <= size < PAGE_SIZE
    modifies kheap`ram, kheap.heap`runs, kheap.heap.entries
    ensures kheap.Valid()
    ensures tmp == 0 <==> size <= 0 || FirstFit(old(kheap.heap.entries[..]), 1, 0).None?
    ensures tmp == 0 ==> kheap.ram == old(kheap.ram) && kheap.heap.runs == old(kheap.heap.runs)
                         && kheap.heap.entries[..] == old(kheap.heap.entries[..])
    ensures tmp != 0 ==>
              && Granted(old(kheap.heap.entries[..]), old(kheap.heap.runs), kheap.heap.entries[..], kheap.heap.runs, 1, tmp)
              && SameOutside(old(kheap.ram), kheap.ram, tmp, size) && kheap.ram[tmp] == 0
  {
    if size <= 0 {
      NegativeSizeNeverFits(kheap.heap.entries[..], size);
    } else {
      BlocksForIsCeiling(size);
    }
    tmp := kheap.Kzalloc(U32(size));
  }

  /** copy_from_user. */
  method CopyFromUser(p: Pager, task: Word, userPtr: Word, to: Word, size: int) returns (result: int)
    requires p.kheap.Valid() && -0x8000_0000 <= size < 0x8000_0000
    requires Setting(p.kheap.ram, p.kheap.heap.runs, task, p.kernelDirectory) && InKernel(p)
    requires 1 <= size < PAGE_SIZE && FirstFit(p.kheap.heap.entries[..], 1, 0).Some? ==>
               Permitted(p.kheap.ram, task, p.kernelDirectory, userPtr, to, Limit(size),
                         TemporaryAddress(p.kheap.heap.entries[..]))
    modifies p`loadedDirectory, p`currentDirectory, p.kheap`ram, p.kheap.heap`runs, p.kheap.heap.entries
    ensures p.kheap.Valid()
    ensures p.kheap.heap.runs == old(p.kheap.heap.runs) && p.kheap.heap.entries[..] == old(p.kheap.heap.entries[..])
    ensures result == if size >= 4096 then -22
                      else if size <= 0 || FirstFit(old(p.kheap.heap.entries[..]), 1, 0).None? then -12
                      else 0
    ensures result != 0 ==> p.kheap.ram == old(p.kheap.ram)
                            && p.loadedDirectory == old(p.loadedDirectory) && p.currentDirectory == old(p.currentDirectory)
    ensures result == 0 ==>
              && p.loadedDirectory == p.currentDirectory == Directory(p.kheap.ram, p.kernelDirectory)
              && CopyDone(old(p.kheap.ram), p.kheap.ram, task, p.kernelDirectory,
                          TemporaryAddress(old(p.kheap.heap.entries[..])), userPtr, to, size)
              && forall n :: CopyLength(old(p.kheap.ram), task, userPtr, size, n) ==>
                   BytesArrived(old(p.kheap.ram), p.kheap.ram, task,
                                TemporaryAddress(old(p.kheap.heap.entries[..])), userPtr, to, n)
  {
    if size >= PAGE_SIZE {
      return -EINVAL;
    }
    ghost var m, t, r := p.kheap.ram, p.kheap.heap.entries[..], p.kheap.heap.runs;
    var tmp := AllocateTemporary(p.kheap, size);
    if tmp == 0 {
      return -ENOMEM;
    }
    result := CopyThroughPage(p, task, tmp, userPtr, to, size, m, t, r);
    AllDeliveredBytes(m, p.kheap.ram, task, p.kernelDirectory, tmp, userPtr, to, size);
  }

  lemma {:induction false} AllDeliveredBytes(m: Ram, m': Ram, task: int, kernel: int, tmp: Word, userPtr: Word, to: Word, size: Word)
    requires WellFormed(m, task) && WellFormed(m, kernel) && size >= 1 && to + Limit(size) <= WORD_RANGE
    requires CopyDone(m, m', task, kernel, tmp, userPtr, to, size)
    ensures forall n :: CopyLength(m, task, userPtr, size, n) ==> BytesArrived(m, m', task, tmp, userPtr, to, n)
  {
    forall n | CopyLength(m, task, userPtr, size, n) ensures BytesArrived(m, m', task, tmp, userPtr, to, n) {
      DeliveredBytes(m, m', task, kernel, tmp, userPtr, to, size, n);
    }
  }

  /** There is one such number. */
  lemma {:induction false} CopyLengthIs(m: Ram, task: int, userPtr: Word, size: Word)
    requires WellFormed(m, task) && size >= 1
    ensures forall n :: CopyLength(m, task, userPtr, size, n)
                        <==> n == |Fetched(m, SpaceOf(m, task), userPtr, Limit(size))|
  {
    var space := SpaceOf(m, task);
    var str := Fetched(m, space, userPtr, Limit(size));
    assert userPtr != 0 ==> forall k :: 0 <= k < |str| ==> str[k] == UserByte(m, task, userPtr, k);
    assert CopyLength(m, task, userPtr, size, |str|);
    forall n | CopyLength(m, task, userPtr, size, n) ensures n == |str| {
      FetchedLength(m, task, userPtr, size, n);
    }
  }

  /** What CopyFromUser leaves is again a setting it can be called in. */
  lemma SettingKept(m: Ram, m': Ram, r: Runs, task: int, kernel: int)
    requires Setting(m, r, task, kernel) && SameSpace(m, m', task) && SameSpace(m, m', kernel)
    ensures Setting(m', r, task, kernel)
  {
  }

  /** A freshly constructed space is an identity mapping of present pages exactly when its flags
      have the present bit, as the kernel's must. */
  lemma ConstructedIsIdentity(r0: Runs, r: Runs, m0: Ram, m: Ram, chunk: int, flags: Byte)
    requires Constructed(r0, r, m0, m, chunk, flags)
    ensures IsIdentity(SpaceOf(m, chunk)) <==> flags % 2 == 1
  {
    var space := SpaceOf(m, chunk);
    forall q | 0 <= q < PAGES
      ensures PageBase(space[q]) == q * PAGE_SIZE && (IsPresent(space[q]) <==> flags % 2 == 1)
    {
      FreshEntryParts(q, flags);
    }
    assert IsPresent(space[0]) <==> flags % 2 == 1;
  }

  lemma FreshEntryParts(q: int, flags: Byte)
    requires 0 <= q < PAGES
    ensures PageBase(FreshEntry(q, flags)) == q * PAGE_SIZE
    ensures IsPresent(FreshEntry(q, flags)) <==> flags % 2 == 1
  {
    FreshEntryIsOr(q, flags);
    assert FreshEntry(q, flags) == 2 * (2048 * q) + flags;
  }
}
