/** How the constructor of paging.c fills memory: the state after some of the page tables are
    in place, and what the finished state maps. */
module PageBuild {
  import opened Words
  import opened Memory
  import opened PageSpace
  import opened HeapTable
  import opened Kheap

  /** The entry of a page mapped to itself. */
  function FreshEntry(page: int, flags: Byte): Word
    requires 0 <= page < PAGES
  {
    page * PAGE_SIZE + flags
  }

  /** Or-ing the flags into the page address gives that entry, and frame and flags do not mix. */
  lemma FreshEntryIsOr(page: int, flags: Byte)
    requires 0 <= page < PAGES
    ensures OrWords(page * PAGE_SIZE, flags) == FreshEntry(page, flags)
    ensures PageBase(FreshEntry(page, flags)) == page * PAGE_SIZE
  {
    OrFlags(page * PAGE_SIZE, flags);
    OrKeepsPage(page * PAGE_SIZE, flags);
  }

  /** The directory entry for a table: its address, the flags, and the write bit set. */
  function DirectoryEntry(table: int, flags: Byte): (e: Word)
    requires IsPage(table)
    ensures PageBase(e) == table
  {
    var low := if flags / 2 % 2 == 1 then flags else flags + 2;
    InPage(table, low);
    table + low
  }

  lemma DirectoryEntryIsOr(table: Word, flags: Byte)
    requires IsPage(table)
    ensures OrWords(OrWords(table, flags), IS_WRITEABLE) == DirectoryEntry(table, flags)
  {
    OrFlags(table, flags);
    LowBits(table + flags);
    SecondBit(table, flags);
  }

  lemma DirectoryEntryPresent(table: int, flags: Byte)
    requires IsPage(table)
    ensures IsPresent(DirectoryEntry(table, flags)) <==> flags % 2 == 1
  {
    var q := table / PAGE_SIZE;
    assert table == PAGE_SIZE * q;
    var low := DirectoryEntry(table, flags) - table;
    assert low == flags || low == flags + 2;
    assert DirectoryEntry(table, flags) == 2 * (2048 * q) + low;
  }

  /** The signed running offset of the constructor passes 2^31, yet as a word it is the page address. */
  lemma OffsetIsPageAddress(i: int, j: int)
    requires 0 <= i < ENTRIES_PER_TABLE && 0 <= j < ENTRIES_PER_TABLE
    ensures U32(I32(i * 0x40_0000) + j * PAGE_SIZE) == (i * ENTRIES_PER_TABLE + j) * PAGE_SIZE
  {
    var x := i * 0x40_0000;
    assert U32(I32(x)) == U32(x) == x;
    assert I32(x) == x || I32(x) == x - WORD_RANGE;
  }

  lemma NextOffset(i: int)
    requires 0 <= i < ENTRIES_PER_TABLE
    ensures I32(I32(i * 0x40_0000) + ENTRIES_PER_TABLE * PAGE_SIZE) == I32((i + 1) * 0x40_0000)
  {
    var x := i * 0x40_0000;
    assert I32(x) == if i < 512 then x else x - WORD_RANGE;
    assert I32(x + 0x40_0000) == if i < 511 then x + 0x40_0000 else x + 0x40_0000 - WORD_RANGE;
  }

  /** All 1024 entries of the i-th table map their pages to themselves. */
  ghost predicate TableFilled(m: Ram, table: int, i: int, flags: Byte)
    requires IsPage(table) && 0 <= i < ENTRIES_PER_TABLE
  {
    forall j :: 0 <= j < ENTRIES_PER_TABLE ==>
      ReadWord(m, WordOfPage(table, j)) == FreshEntry(i * ENTRIES_PER_TABLE + j, flags)
  }

  /** The first |tables| page tables are filled and entered in the directory. */
  ghost predicate Partial(m: Ram, dir: int, tables: seq<int>, flags: Byte)
  {
    && IsPage(dir) && |tables| <= ENTRIES_PER_TABLE && dir !in tables && Distinct(tables)
    && (forall k :: 0 <= k < |tables| ==> IsPage(tables[k]))
    && (forall k :: 0 <= k < |tables| ==> TableFilled(m, tables[k], k, flags))
    && (forall k :: 0 <= k < |tables| ==> ReadWord(m, WordOfPage(dir, k)) == DirectoryEntry(tables[k], flags))
  }

  lemma OutsidePage(m: Ram, m': Ram, e: int, p: int)
    requires IsPage(e) && IsPage(p) && e != p && SameOutside(m, m', e, PAGE_SIZE)
    ensures SamePage(m, m', p)
  {
    PagesDisjoint(e, p);
  }

  lemma TableUnaffected(m: Ram, m': Ram, table: int, i: int, flags: Byte)
    requires IsPage(table) && 0 <= i < ENTRIES_PER_TABLE
    requires TableFilled(m, table, i, flags) && SamePage(m, m', table)
    ensures TableFilled(m', table, i, flags)
  {
    forall j | 0 <= j < ENTRIES_PER_TABLE
      ensures ReadWord(m', WordOfPage(table, j)) == FreshEntry(i * ENTRIES_PER_TABLE + j, flags)
    {
      SamePageSameWord(m, m', table, WordOfPage(table, j));
    }
  }

  /** Filling another page keeps what is in place. */
  lemma PartialUnaffected(m: Ram, m': Ram, dir: int, tables: seq<int>, flags: Byte, e: int)
    requires Partial(m, dir, tables, flags)
    requires IsPage(e) && e != dir && e !in tables && SameOutside(m, m', e, PAGE_SIZE)
    ensures Partial(m', dir, tables, flags)
  {
    OutsidePage(m, m', e, dir);
    forall k | 0 <= k < |tables|
      ensures TableFilled(m', tables[k], k, flags)
      ensures ReadWord(m', WordOfPage(dir, k)) == DirectoryEntry(tables[k], flags)
    {
      OutsidePage(m, m', e, tables[k]);
      TableUnaffected(m, m', tables[k], k, flags);
      SamePageSameWord(m, m', dir, WordOfPage(dir, k));
    }
  }

  /** Entering a filled table in the directory extends what is in place by one. */
  lemma PartialExtends(m: Ram, dir: int, tables: seq<int>, flags: Byte, e: int)
    requires Partial(m, dir, tables, flags) && |tables| < ENTRIES_PER_TABLE
    requires IsPage(e) && e != dir && e !in tables && TableFilled(m, e, |tables|, flags)
    ensures Partial(WriteWord(m, WordOfPage(dir, |tables|), DirectoryEntry(e, flags)), dir, tables + [e], flags)
  {
    var a, w := WordOfPage(dir, |tables|), DirectoryEntry(e, flags);
    var m', tables' := WriteWord(m, a, w), tables + [e];
    forall k | 0 <= k < |tables'|
      ensures TableFilled(m', tables'[k], k, flags)
    {
      WriteKeepsOtherPage(m, a, w, dir, tables'[k]);
      TableUnaffected(m, m', tables'[k], k, flags);
    }
    forall k | 0 <= k < |tables'|
      ensures ReadWord(m', WordOfPage(dir, k)) == DirectoryEntry(tables'[k], flags)
    {
      ReadAfterWrite(m, a, w, WordOfPage(dir, k));
    }
  }

  /** With all tables in place the directory is well formed and maps every page to itself. */
  lemma PartialIsComplete(m: Ram, dir: int, tables: seq<int>, flags: Byte)
    requires Partial(m, dir, tables, flags) && |tables| == ENTRIES_PER_TABLE
    ensures Tables(m, dir) == tables
    ensures DirectoryWellFormed(m, dir)
    ensures forall p :: 0 <= p < PAGES ==> EntryMap(m, dir)[p] == FreshEntry(p, flags)
  {
    forall k | 0 <= k < ENTRIES_PER_TABLE ensures TableAt(m, dir, k) == tables[k] {
      assert PageBase(DirectoryEntry(tables[k], flags)) == tables[k];
    }
    assert Tables(m, dir) == tables;
    EntryMapAt(m, dir);
    forall p | 0 <= p < PAGES ensures EntryMap(m, dir)[p] == FreshEntry(p, flags) {
      EntryOfFilled(m, dir, tables, flags, p);
    }
  }

  /** The directory has its tables present if the flags say so. */
  lemma PartialIsPresent(m: Ram, dir: int, tables: seq<int>, flags: Byte)
    requires Partial(m, dir, tables, flags) && |tables| == ENTRIES_PER_TABLE
    ensures TablesPresent(m, dir) <==> flags % 2 == 1
  {
    forall k | 0 <= k < ENTRIES_PER_TABLE ensures IsPresent(ReadWord(m, WordOfPage(dir, k))) <==> flags % 2 == 1 {
      DirectoryEntryPresent(tables[k], flags);
    }
    assert IsPresent(ReadWord(m, WordOfPage(dir, 0))) <==> flags % 2 == 1;
    PresentExactly(m, dir, ENTRIES_PER_TABLE);
  }

  lemma EntryOfFilled(m: Ram, dir: int, tables: seq<int>, flags: Byte, p: int)
    requires Partial(m, dir, tables, flags) && |tables| == ENTRIES_PER_TABLE
    requires 0 <= p < PAGES && Tables(m, dir) == tables
    ensures Entry(m, dir, p) == FreshEntry(p, flags)
  {
    var i, j := p / ENTRIES_PER_TABLE, p % ENTRIES_PER_TABLE;
    assert p == i * ENTRIES_PER_TABLE + j;
    assert TableAt(m, dir, i) == tables[i];
    assert TableFilled(m, tables[i], i, flags);
  }

  // ----- the heap blocks behind pages -----

  /** The runs after a one-block allocation of every block of bs. */
  function AddSingles(r: Runs, bs: set<int>): Runs
  {
    r + map b | b in bs :: 1
  }

  function BlocksOf(pages: seq<int>): set<int>
  {
    set p | p in pages :: BlockAt(p)
  }

  /** The heap blocks an address space occupies. */
  function SpaceBlocks(m: Ram, chunk: int): set<int>
    requires IsPage(chunk) && IsPage(Directory(m, chunk))
  {
    BlocksOf(SpacePages(m, chunk))
  }

  /** Every page of the list is a live one-block allocation. */
  ghost predicate OwnsPages(r: Runs, pages: seq<int>)
  {
    forall i :: 0 <= i < |pages| ==>
      pages[i] == AddressOf(BlockAt(pages[i])) && BlockAt(pages[i]) in r && r[BlockAt(pages[i])] == 1
  }

  /** m' differs from m only inside the given blocks. */
  ghost predicate SameOutsideBlocks(m: Ram, m': Ram, bs: set<int>)
  {
    forall x :: 0 <= x < WORD_RANGE && BlockAt(x) !in bs ==> m'[x] == m[x]
  }

  lemma BlocksOfAppend(pages: seq<int>, e: int)
    ensures BlocksOf(pages + [e]) == BlocksOf(pages) + {BlockAt(e)}
  {
    forall b | b in BlocksOf(pages) + {BlockAt(e)} ensures b in BlocksOf(pages + [e]) {
      if b == BlockAt(e) {
        assert e in pages + [e];
      } else {
        var p :| p in pages && BlockAt(p) == b;
        assert p in pages + [e];
      }
    }
  }

  lemma AddSinglesAppend(r: Runs, bs: set<int>, b: int)
    ensures AddSingles(r, bs + {b}) == AddSingles(r, bs)[b := 1]
  {
  }

  /** Taking one-block runs away again leaves the runs there were. */
  lemma AddSinglesUndone(r: Runs, bs: set<int>)
    requires r.Keys !! bs
    ensures AddSingles(r, bs) - bs == r
  {
  }

  /** The runs are r0 and one-block allocations for exactly the given pages. */
  ghost predicate Holds(r0: Runs, r: Runs, pages: seq<int>)
  {
    r == AddSingles(r0, BlocksOf(pages)) && r0.Keys !! BlocksOf(pages) && OwnsPages(r, pages)
  }

  lemma HoldsAppend(r0: Runs, r: Runs, pages: seq<int>, e: int)
    requires Holds(r0, r, pages) && e == AddressOf(BlockAt(e)) && BlockAt(e) !in r
    ensures Holds(r0, r[BlockAt(e) := 1], pages + [e])
    ensures e !in pages
  {
    BlocksOfAppend(pages, e);
    AddSinglesAppend(r0, BlocksOf(pages), BlockAt(e));
  }

  /** The order in which the pages were taken does not matter. */
  lemma SamePagesHold(r0: Runs, r: Runs, pages: seq<int>, pages': seq<int>)
    requires Holds(r0, r, pages)
    requires forall p :: p in pages <==> p in pages'
    ensures BlocksOf(pages) == BlocksOf(pages')
    ensures Holds(r0, r, pages')
  {
    forall i | 0 <= i < |pages'|
      ensures pages'[i] == AddressOf(BlockAt(pages'[i])) && BlockAt(pages'[i]) in r && r[BlockAt(pages'[i])] == 1
    {
      assert pages'[i] in pages';
    }
  }

  /** A change inside one of the pages is a change inside their blocks. */
  lemma ChangeInPages(m0: Ram, m: Ram, m': Ram, pages: seq<int>, pages': seq<int>, e: int)
    requires SameOutsideBlocks(m0, m, BlocksOf(pages)) && SameOutside(m, m', e, PAGE_SIZE)
    requires e in pages' && e == AddressOf(BlockAt(e)) && pages <= pages'
    ensures SameOutsideBlocks(m0, m', BlocksOf(pages'))
  {
    assert BlockAt(e) in BlocksOf(pages');
    forall p | p in pages ensures p in pages' {
    }
    forall x | 0 <= x < WORD_RANGE && BlockAt(x) !in BlocksOf(pages') ensures m'[x] == m0[x] {
      assert BlockAt(x) !in BlocksOf(pages);
      assert BlockAt(x) != BlockAt(e);
    }
  }

  lemma WriteInPage(m: Ram, p: int, i: int, w: Word)
    requires IsPage(p) && 0 <= i < ENTRIES_PER_TABLE
    ensures SameOutside(m, WriteWord(m, WordOfPage(p, i), w), p, PAGE_SIZE)
  {
  }

  /** The constructor's state: some tables in place, exactly their pages and the directory taken
      from the heap, no other byte changed. */
  ghost predicate Built(r0: Runs, r: Runs, m0: Ram, m: Ram, dir: int, tables: seq<int>, flags: Byte)
  {
    && Partial(m, dir, tables, flags)
    && Holds(r0, r, [dir] + tables)
    && SameOutsideBlocks(m0, m, BlocksOf([dir] + tables))
  }

  lemma NothingHeld(r0: Runs)
    ensures Holds(r0, r0, [])
  {
    assert BlocksOf([]) == {};
  }

  lemma BuildingStarts(r0: Runs, r: Runs, m0: Ram, m: Ram, dir: int, flags: Byte)
    requires IsPage(dir) && Holds(r0, r, [dir]) && SameOutside(m0, m, dir, PAGE_SIZE)
    ensures Built(r0, r, m0, m, dir, [], flags)
  {
    assert [dir] + [] == [dir];
    DirectoryOwned(r0, r, dir, []);
    ChangeInPages(m0, m0, m, [], [dir], dir);
  }

  lemma DirectoryOwned(r0: Runs, r: Runs, dir: int, tables: seq<int>)
    requires Holds(r0, r, [dir] + tables)
    ensures dir == AddressOf(BlockAt(dir))
  {
    assert ([dir] + tables)[0] == dir;
  }

  lemma TableAdded(r0: Runs, r: Runs, r': Runs, m0: Ram, m: Ram, m': Ram, dir: int, tables: seq<int>, flags: Byte, table: int)
    requires Built(r0, r, m0, m, dir, tables, flags) && |tables| < ENTRIES_PER_TABLE
    requires IsPage(table) && table == AddressOf(BlockAt(table)) && table !in [dir] + tables
    requires Holds(r0, r', [dir] + tables + [table])
    requires SameOutside(m, m', table, PAGE_SIZE) && TableFilled(m', table, |tables|, flags)
    ensures Built(r0, r', m0, WriteWord(m', WordOfPage(dir, |tables|), DirectoryEntry(table, flags)),
                  dir, tables + [table], flags)
  {
    var pages := [dir] + tables;
    var pages' := [dir] + (tables + [table]);
    assert pages' == pages + [table];
    ChangeInPages(m0, m, m', pages, pages', table);
    PartialUnaffected(m, m', dir, tables, flags, table);
    PartialExtends(m', dir, tables, flags, table);
    WriteInPage(m', dir, |tables|, DirectoryEntry(table, flags));
    DirectoryOwned(r0, r, dir, tables);
    ChangeInPages(m0, m', WriteWord(m', WordOfPage(dir, |tables|), DirectoryEntry(table, flags)), pages', pages', dir);
  }

  /** A complete address space that took exactly its pages from the heap and maps every page to itself. */
  ghost predicate Constructed(r0: Runs, r: Runs, m0: Ram, m: Ram, chunk: int, flags: Byte)
  {
    && WellFormed(m, chunk)
    && Holds(r0, r, SpacePages(m, chunk))
    && SameOutsideBlocks(m0, m, SpaceBlocks(m, chunk))
    && (TablesPresent(m, Directory(m, chunk)) <==> flags % 2 == 1)
    && forall p :: 0 <= p < PAGES ==> EntryMap(m, Directory(m, chunk))[p] == FreshEntry(p, flags)
  }

  lemma ChunkAdded(r0: Runs, r: Runs, r': Runs, m0: Ram, m: Ram, m': Ram, dir: int, tables: seq<int>, flags: Byte, chunk: int)
    requires Built(r0, r, m0, m, dir, tables, flags) && |tables| == ENTRIES_PER_TABLE
    requires IsPage(chunk) && chunk == AddressOf(BlockAt(chunk)) && chunk !in [dir] + tables
    requires Holds(r0, r', [dir] + tables + [chunk])
    requires SameOutside(m, m', chunk, PAGE_SIZE)
    ensures Constructed(r0, r', m0, WriteWord(m', chunk, dir), chunk, flags)
  {
    var pages := [dir] + tables;
    var m2 := WriteWord(m', chunk, dir);
    ChangeInPages(m0, m, m', pages, pages + [chunk], chunk);
    PartialUnaffected(m, m', dir, tables, flags, chunk);
    ChunkCompletes(m', dir, tables, flags, chunk);
    WriteInPage(m', chunk, 0, dir);
    ChangeInPages(m0, m', m2, pages + [chunk], pages + [chunk], chunk);
    ReadAfterWrite(m', chunk, dir, chunk);
    SamePagesHold(r0, r', pages + [chunk], SpacePages(m2, chunk));
  }

  /** Storing the directory in a new chunk page completes the address space. */
  lemma ChunkCompletes(m: Ram, dir: int, tables: seq<int>, flags: Byte, chunk: int)
    requires Partial(m, dir, tables, flags) && |tables| == ENTRIES_PER_TABLE
    requires IsPage(chunk) && chunk != dir && chunk !in tables
    ensures var m' := WriteWord(m, chunk, dir);
            && WellFormed(m', chunk) && SpacePages(m', chunk) == tables + [dir, chunk]
            && (TablesPresent(m', dir) <==> flags % 2 == 1)
            && forall p :: 0 <= p < PAGES ==> EntryMap(m', dir)[p] == FreshEntry(p, flags)
  {
    var m' := WriteWord(m, chunk, dir);
    WriteInPage(m, chunk, 0, dir);
    PartialUnaffected(m, m', dir, tables, flags, chunk);
    PartialIsComplete(m', dir, tables, flags);
    PartialIsPresent(m', dir, tables, flags);
    ReadAfterWrite(m, chunk, dir, chunk);
  }
}
