/** The two-level page tables of paging.c as a value in physical memory: where the entry of a
    page lives, which pages a 4 GiB address space occupies, and what a write to it changes. */
module PageSpace {
  import opened Words
  import opened Memory

  const PAGE_SIZE := 4096
  const ENTRIES_PER_TABLE := 1024
  const PAGES := 0x10_0000

  const IS_PRESENT := 1
  const IS_WRITEABLE := 2
  const ACCESS_FROM_ALL := 4

  /** A page that lies in memory. */
  predicate IsPage(a: int): (yes: bool)
    ensures yes ==> IsWordAddress(a) && a + PAGE_SIZE <= WORD_RANGE
  {
    var q := a / PAGE_SIZE;
    assert a == PAGE_SIZE * q + a % PAGE_SIZE;
    assert a % PAGE_SIZE == 0 ==> a == 4 * (1024 * q);
    0 <= a < WORD_RANGE && a % PAGE_SIZE == 0
  }

  /** The least page address not below a, or 0 where that wraps. */
  function PageUp(a: Word): (up: Word)
    ensures up % PAGE_SIZE == 0
    ensures a <= 0xFFFFF000 ==> a <= up < a + PAGE_SIZE
    ensures a > 0xFFFFF000 ==> up == 0
  {
    PageBase(U32(a + PAGE_SIZE - 1))
  }

  /** Where the i-th word of a page lives. */
  function WordOfPage(page: int, i: int): (a: int)
    requires IsPage(page) && 0 <= i < ENTRIES_PER_TABLE
    ensures IsWordAddress(a) && page <= a && a + 4 <= page + PAGE_SIZE
  {
    var q := page / PAGE_SIZE;
    assert page == PAGE_SIZE * q && q < PAGES;
    assert page + 4 * i == 4 * (1024 * q + i);
    page + 4 * i
  }

  /** The i-th page table of a directory. */
  function TableAt(m: Ram, dir: int, i: int): (t: Word)
    requires IsPage(dir) && 0 <= i < ENTRIES_PER_TABLE
    ensures IsPage(t)
  {
    PageBase(ReadWord(m, WordOfPage(dir, i)))
  }

  function Tables(m: Ram, dir: int): (s: seq<int>)
    requires IsPage(dir)
    ensures |s| == ENTRIES_PER_TABLE
    ensures forall i :: 0 <= i < ENTRIES_PER_TABLE ==> s[i] == TableAt(m, dir, i)
  {
    seq(ENTRIES_PER_TABLE, i requires 0 <= i < ENTRIES_PER_TABLE => TableAt(m, dir, i))
  }

  /** Where the entry of a virtual page lives. */
  function EntryAddress(m: Ram, dir: int, page: int): (a: int)
    requires IsPage(dir) && 0 <= page < PAGES
    ensures IsWordAddress(a)
    ensures var t := TableAt(m, dir, page / ENTRIES_PER_TABLE); t <= a && a + 4 <= t + PAGE_SIZE
  {
    WordOfPage(TableAt(m, dir, page / ENTRIES_PER_TABLE), page % ENTRIES_PER_TABLE)
  }

  /** The entry of a virtual page. */
  function Entry(m: Ram, dir: int, page: int): Word
    requires IsPage(dir) && 0 <= page < PAGES
  {
    ReadWord(m, EntryAddress(m, dir, page))
  }

  /** A map from the 2^20 virtual pages to their entries. */
  type Space = s: seq<Word> | |s| == PAGES ghost witness seq(PAGES, _ => 0)

  /** The entries of the first n virtual pages. */
  function EntriesBelow(m: Ram, dir: int, n: int): (s: seq<Word>)
    requires IsPage(dir) && 0 <= n <= PAGES
    ensures |s| == n
  {
    if n == 0 then [] else EntriesBelow(m, dir, n - 1) + [Entry(m, dir, n - 1)]
  }

  /** The address space as such a map. */
  function EntryMap(m: Ram, dir: int): Space
    requires IsPage(dir)
  {
    EntriesBelow(m, dir, PAGES)
  }

  lemma {:induction false} EntriesAt(m: Ram, dir: int, n: int)
    requires IsPage(dir) && 0 <= n <= PAGES
    ensures forall p :: 0 <= p < n ==> EntriesBelow(m, dir, n)[p] == Entry(m, dir, p)
  {
    if n > 0 {
      EntriesAt(m, dir, n - 1);
    }
  }

  /** Looking a page up in the map is reading its entry from the tables. */
  lemma EntryMapAt(m: Ram, dir: int)
    requires IsPage(dir)
    ensures forall p :: 0 <= p < PAGES ==> EntryMap(m, dir)[p] == Entry(m, dir, p)
  {
    EntriesAt(m, dir, PAGES);
  }

  /** The directory a chunk object points to. */
  function Directory(m: Ram, chunk: int): Word
    requires IsPage(chunk)
  {
    ReadWord(m, chunk)
  }

  /** The pages an address space occupies: its 1024 tables, its directory and its chunk. */
  function SpacePages(m: Ram, chunk: int): seq<int>
    requires IsPage(chunk) && IsPage(Directory(m, chunk))
  {
    Tables(m, Directory(m, chunk)) + [Directory(m, chunk), chunk]
  }

  predicate Distinct(s: seq<int>)
  {
    forall i, j :: 0 <= i < j < |s| ==> s[i] != s[j]
  }

  /** A directory and its tables are distinct pages. */
  ghost predicate DirectoryWellFormed(m: Ram, dir: int)
  {
    IsPage(dir) && Distinct(Tables(m, dir) + [dir])
  }

  /** The chunk, its directory and its tables are distinct pages. */
  ghost predicate WellFormed(m: Ram, chunk: int)
  {
    && IsPage(chunk)
    && DirectoryWellFormed(m, Directory(m, chunk))
    && chunk != Directory(m, chunk)
    && chunk !in Tables(m, Directory(m, chunk))
  }

  lemma TablesDistinct(m: Ram, dir: int, i: int, j: int)
    requires DirectoryWellFormed(m, dir)
    requires 0 <= i < ENTRIES_PER_TABLE && 0 <= j < ENTRIES_PER_TABLE
    ensures TableAt(m, dir, i) != dir
    ensures i != j ==> TableAt(m, dir, i) != TableAt(m, dir, j)
  {
    var s := Tables(m, dir) + [dir];
    assert s[i] == TableAt(m, dir, i) && s[j] == TableAt(m, dir, j) && s[ENTRIES_PER_TABLE] == dir;
  }

  /** Two virtual pages never share an entry. */
  lemma EntryAddressInjective(m: Ram, dir: int, p: int, q: int)
    requires DirectoryWellFormed(m, dir) && 0 <= p < PAGES && 0 <= q < PAGES && p != q
    ensures EntryAddress(m, dir, p) != EntryAddress(m, dir, q)
  {
    var i, j := p / ENTRIES_PER_TABLE, q / ENTRIES_PER_TABLE;
    if i != j {
      TablesDistinct(m, dir, i, j);
      PagesDisjoint(TableAt(m, dir, i), TableAt(m, dir, j));
    } else {
      assert p % ENTRIES_PER_TABLE != q % ENTRIES_PER_TABLE;
    }
  }

  // ----- what a change of memory leaves alone -----

  /** m' equals m on the page at p. */
  ghost predicate SamePage(m: Ram, m': Ram, p: int)
    requires IsPage(p)
  {
    forall x :: p <= x < p + PAGE_SIZE ==> m'[x] == m[x]
  }

  lemma SamePageSameWord(m: Ram, m': Ram, p: int, a: int)
    requires IsPage(p) && IsWordAddress(a) && p <= a && a + 4 <= p + PAGE_SIZE
    requires SamePage(m, m', p)
    ensures ReadWord(m', a) == ReadWord(m, a)
  {
    assert m'[a] == m[a] && m'[a + 1] == m[a + 1] && m'[a + 2] == m[a + 2] && m'[a + 3] == m[a + 3];
  }

  /** Different pages have no byte in common, so a write to one leaves the other alone. */
  lemma WriteKeepsOtherPage(m: Ram, a: int, w: Word, p: int, q: int)
    requires IsPage(p) && IsPage(q) && p != q
    requires IsWordAddress(a) && p <= a && a + 4 <= p + PAGE_SIZE
    ensures SamePage(m, WriteWord(m, a, w), q)
  {
    PagesDisjoint(p, q);
  }

  lemma PagesDisjoint(p: int, q: int)
    requires IsPage(p) && IsPage(q) && p != q
    ensures p + PAGE_SIZE <= q || q + PAGE_SIZE <= p
  {
    var i, j := p / PAGE_SIZE, q / PAGE_SIZE;
    assert p == PAGE_SIZE * i && q == PAGE_SIZE * j;
  }

  /** The directory has its first n tables present. */
  predicate PresentBelow(m: Ram, dir: int, n: int)
    requires IsPage(dir) && 0 <= n <= ENTRIES_PER_TABLE
  {
    n == 0 || (PresentBelow(m, dir, n - 1) && IsPresent(ReadWord(m, WordOfPage(dir, n - 1))))
  }

  /** It has every table present. */
  predicate TablesPresent(m: Ram, dir: int)
    requires IsPage(dir)
  {
    PresentBelow(m, dir, ENTRIES_PER_TABLE)
  }

  lemma {:induction false} PresentExactly(m: Ram, dir: int, n: int)
    requires IsPage(dir) && 0 <= n <= ENTRIES_PER_TABLE
    ensures PresentBelow(m, dir, n) <==> forall i :: 0 <= i < n ==> IsPresent(ReadWord(m, WordOfPage(dir, i)))
  {
    if n > 0 {
      PresentExactly(m, dir, n - 1);
    }
  }

  lemma TablesStayPresent(m: Ram, m': Ram, dir: int)
    requires IsPage(dir) && SamePage(m, m', dir)
    ensures TablesPresent(m', dir) <==> TablesPresent(m, dir)
  {
    PresentExactly(m, dir, ENTRIES_PER_TABLE);
    PresentExactly(m', dir, ENTRIES_PER_TABLE);
    forall i | 0 <= i < ENTRIES_PER_TABLE ensures ReadWord(m', WordOfPage(dir, i)) == ReadWord(m, WordOfPage(dir, i)) {
      SamePageSameWord(m, m', dir, WordOfPage(dir, i));
    }
  }

  lemma TablesUnaffected(m: Ram, m': Ram, dir: int)
    requires IsPage(dir) && SamePage(m, m', dir)
    ensures Tables(m', dir) == Tables(m, dir)
  {
    forall i | 0 <= i < ENTRIES_PER_TABLE ensures TableAt(m', dir, i) == TableAt(m, dir, i) {
      SamePageSameWord(m, m', dir, WordOfPage(dir, i));
    }
  }

  lemma EntryUnaffected(m: Ram, m': Ram, dir: int, q: int)
    requires IsPage(dir) && 0 <= q < PAGES && Tables(m', dir) == Tables(m, dir)
    requires SamePage(m, m', TableAt(m, dir, q / ENTRIES_PER_TABLE))
    ensures Entry(m', dir, q) == Entry(m, dir, q)
  {
    SameEntryAddress(m, m', dir, q);
    SamePageSameWord(m, m', TableAt(m, dir, q / ENTRIES_PER_TABLE), EntryAddress(m, dir, q));
  }

  lemma SameEntryAddress(m: Ram, m': Ram, dir: int, q: int)
    requires IsPage(dir) && 0 <= q < PAGES && Tables(m', dir) == Tables(m, dir)
    ensures EntryAddress(m', dir, q) == EntryAddress(m, dir, q)
  {
    var i := q / ENTRIES_PER_TABLE;
    assert Tables(m', dir)[i] == TableAt(m', dir, i);
  }

  /** A change outside the directory and its tables leaves the map alone. */
  lemma MapUnaffected(m: Ram, m': Ram, dir: int)
    requires IsPage(dir) && SamePage(m, m', dir)
    requires forall i :: 0 <= i < ENTRIES_PER_TABLE ==> SamePage(m, m', TableAt(m, dir, i))
    ensures Tables(m', dir) == Tables(m, dir)
    ensures EntryMap(m', dir) == EntryMap(m, dir)
  {
    TablesUnaffected(m, m', dir);
    EntryMapAt(m, dir);
    EntryMapAt(m', dir);
    forall q | 0 <= q < PAGES ensures EntryMap(m', dir)[q] == EntryMap(m, dir)[q] {
      EntryUnaffected(m, m', dir, q);
    }
  }

  /** One write to one entry updates one page of the map and nothing else. */
  lemma SetEntryIsUpdate(m: Ram, dir: int, page: int, val: Word)
    requires DirectoryWellFormed(m, dir) && 0 <= page < PAGES
    ensures var m' := WriteWord(m, EntryAddress(m, dir, page), val);
            && Tables(m', dir) == Tables(m, dir)
            && DirectoryWellFormed(m', dir)
            && EntryMap(m', dir) == EntryMap(m, dir)[page := val]
  {
    var m' := WriteWord(m, EntryAddress(m, dir, page), val);
    SetEntryKeepsTables(m, dir, page, val);
    EntryMapAt(m, dir);
    EntryMapAt(m', dir);
    forall q | 0 <= q < PAGES ensures EntryMap(m', dir)[q] == EntryMap(m, dir)[page := val][q] {
      EntryAfterWrite(m, dir, page, val, q);
    }
  }

  lemma SetEntryKeepsTables(m: Ram, dir: int, page: int, val: Word)
    requires DirectoryWellFormed(m, dir) && 0 <= page < PAGES
    ensures Tables(WriteWord(m, EntryAddress(m, dir, page), val), dir) == Tables(m, dir)
  {
    var i := page / ENTRIES_PER_TABLE;
    var a := EntryAddress(m, dir, page);
    TablesDistinct(m, dir, i, i);
    WriteKeepsOtherPage(m, a, val, TableAt(m, dir, i), dir);
    TablesUnaffected(m, WriteWord(m, a, val), dir);
  }

  lemma EntryAfterWrite(m: Ram, dir: int, page: int, val: Word, q: int)
    requires DirectoryWellFormed(m, dir) && 0 <= page < PAGES && 0 <= q < PAGES
    requires Tables(WriteWord(m, EntryAddress(m, dir, page), val), dir) == Tables(m, dir)
    ensures Entry(WriteWord(m, EntryAddress(m, dir, page), val), dir, q) == if q == page then val else Entry(m, dir, q)
  {
    var a := EntryAddress(m, dir, page);
    SameEntryAddress(m, WriteWord(m, a, val), dir, q);
    ReadAfterWrite(m, a, val, EntryAddress(m, dir, q));
    if q != page {
      EntryAddressInjective(m, dir, q, page);
    }
  }

  lemma SpacePagesDistinct(m: Ram, chunk: int)
    requires WellFormed(m, chunk)
    ensures Distinct(SpacePages(m, chunk))
    ensures forall i :: 0 <= i < |SpacePages(m, chunk)| ==> IsPage(SpacePages(m, chunk)[i])
  {
    var dir := Directory(m, chunk);
    var s, u := SpacePages(m, chunk), Tables(m, dir) + [dir];
    assert s == u + [chunk];
    forall i, j | 0 <= i < j < |s| ensures s[i] != s[j] {
      assert s[i] == u[i];
      if j < |u| {
        assert s[j] == u[j];
      } else if i < ENTRIES_PER_TABLE {
        assert s[i] == Tables(m, dir)[i];
      }
    }
  }

  /** m' is m with the entry of one page of one address space set: the map is updated there, the
      space stays well formed on the same pages, and no byte outside that entry differs. */
  ghost predicate EntrySet(m: Ram, m': Ram, chunk: int, page: int, val: Word)
  {
    && WellFormed(m, chunk) && WellFormed(m', chunk) && 0 <= page < PAGES
    && Directory(m', chunk) == Directory(m, chunk)
    && SpacePages(m', chunk) == SpacePages(m, chunk)
    && EntryMap(m', Directory(m, chunk)) == EntryMap(m, Directory(m, chunk))[page := val]
    && (TablesPresent(m', Directory(m, chunk)) <==> TablesPresent(m, Directory(m, chunk)))
    && SameOutside(m, m', EntryAddress(m, Directory(m, chunk), page), 4)
  }

  lemma WriteSetsEntry(m: Ram, chunk: int, page: int, val: Word)
    requires WellFormed(m, chunk) && 0 <= page < PAGES
    ensures EntrySet(m, WriteWord(m, EntryAddress(m, Directory(m, chunk), page), val), chunk, page, val)
  {
    var dir := Directory(m, chunk);
    var a := EntryAddress(m, dir, page);
    var t := TableAt(m, dir, page / ENTRIES_PER_TABLE);
    assert t == Tables(m, dir)[page / ENTRIES_PER_TABLE];
    SetEntryIsUpdate(m, dir, page, val);
    WriteKeepsOtherPage(m, a, val, t, chunk);
    SamePageSameWord(m, WriteWord(m, a, val), chunk, chunk);
    TablesDistinct(m, dir, page / ENTRIES_PER_TABLE, page / ENTRIES_PER_TABLE);
    WriteKeepsOtherPage(m, a, val, t, dir);
    TablesStayPresent(m, WriteWord(m, a, val), dir);
    ReadAfterWrite(m, a, val, a);
  }

  /** Setting an entry and later setting it back restores memory, byte for byte, except for what
      was written to page p in between. */
  lemma SettingBackRestores(m: Ram, m1: Ram, m2: Ram, m3: Ram, chunk: int, page: int, val: Word, was: Word, p: int)
    requires EntrySet(m, m1, chunk, page, val) && EntrySet(m2, m3, chunk, page, was)
    requires was == EntryMap(m, Directory(m, chunk))[page]
    requires SameOutside(m1, m2, p, PAGE_SIZE) && Directory(m2, chunk) == Directory(m, chunk)
    requires SpacePages(m2, chunk) == SpacePages(m, chunk)
    ensures forall x :: 0 <= x < WORD_RANGE && !(p <= x < p + PAGE_SIZE) ==> m3[x] == m[x]
  {
    var dir := Directory(m, chunk);
    var a := EntryAddress(m, dir, page);
    TablesOfSpace(m, chunk);
    TablesOfSpace(m2, chunk);
    TablesOfSpace(m3, chunk);
    SameEntryAddress(m, m2, dir, page);
    SameEntryAddress(m, m3, dir, page);
    EntryMapAt(m, dir);
    EntryMapAt(m3, dir);
    assert EntryMap(m3, dir)[page] == was;
    WordFixesBytes(m, m3, a);
    forall x | 0 <= x < WORD_RANGE && !(p <= x < p + PAGE_SIZE) ensures m3[x] == m[x] {
      if a <= x < a + 4 {
        assert x == a || x == a + 1 || x == a + 2 || x == a + 3;
      } else {
        assert m1[x] == m[x] && m2[x] == m1[x];
      }
    }
  }

  lemma TablesOfSpace(m: Ram, chunk: int)
    requires WellFormed(m, chunk)
    ensures Tables(m, Directory(m, chunk)) == SpacePages(m, chunk)[..ENTRIES_PER_TABLE]
  {
  }

  lemma WordFixesBytes(m: Ram, m': Ram, a: int)
    requires IsWordAddress(a) && ReadWord(m', a) == ReadWord(m, a)
    ensures m'[a] == m[a] && m'[a + 1] == m[a + 1] && m'[a + 2] == m[a + 2] && m'[a + 3] == m[a + 3]
  {
    var b1, b2, b3 := m[a + 1] as int, m[a + 2] as int, m[a + 3] as int;
    var c1, c2, c3 := m'[a + 1] as int, m'[a + 2] as int, m'[a + 3] as int;
    SameDigits(m[a], m'[a], b1 + 0x100 * b2 + 0x1_0000 * b3, c1 + 0x100 * c2 + 0x1_0000 * c3);
    SameDigits(m[a + 1], m'[a + 1], b2 + 0x100 * b3, c2 + 0x100 * c3);
    SameDigits(m[a + 2], m'[a + 2], b3, c3);
  }

  lemma SameDigits(low: Byte, low': Byte, high: int, high': int)
    requires low + 0x100 * high == low' + 0x100 * high'
    ensures low == low' && high == high'
  {
  }

  /** The n bytes from address d meet none of the pages. */
  ghost predicate ApartFrom(pages: seq<int>, d: int, n: int)
  {
    forall p :: p in pages ==> d + n <= p || p + PAGE_SIZE <= d
  }

  lemma OtherPageApart(pages: seq<int>, e: int)
    requires IsPage(e) && e !in pages && forall p :: p in pages ==> IsPage(p)
    ensures ApartFrom(pages, e, PAGE_SIZE)
  {
    forall p | p in pages ensures e + PAGE_SIZE <= p || p + PAGE_SIZE <= e {
      PagesDisjoint(e, p);
    }
  }

  lemma ApartSamePage(m: Ram, m': Ram, pages: seq<int>, d: int, n: int, i: int)
    requires ApartFrom(pages, d, n) && SameOutside(m, m', d, n) && 0 <= i < |pages| && IsPage(pages[i])
    ensures SamePage(m, m', pages[i])
  {
    assert pages[i] in pages;
  }

  /** Writing apart from a directory and its tables leaves the map alone. */
  lemma WriteKeepsMap(m: Ram, m': Ram, dir: int, d: int, n: int)
    requires IsPage(dir) && ApartFrom(Tables(m, dir) + [dir], d, n) && SameOutside(m, m', d, n)
    ensures Tables(m', dir) == Tables(m, dir) && EntryMap(m', dir) == EntryMap(m, dir)
    ensures TablesPresent(m', dir) <==> TablesPresent(m, dir)
  {
    var pages := Tables(m, dir) + [dir];
    assert pages[ENTRIES_PER_TABLE] == dir;
    ApartSamePage(m, m', pages, d, n, ENTRIES_PER_TABLE);
    TablesStayPresent(m, m', dir);
    forall i | 0 <= i < ENTRIES_PER_TABLE ensures SamePage(m, m', TableAt(m, dir, i)) {
      assert pages[i] == TableAt(m, dir, i);
      ApartSamePage(m, m', pages, d, n, i);
    }
    MapUnaffected(m, m', dir);
  }

  /** Writing apart from all pages of a space leaves the space alone. */
  lemma SpaceUnaffected(m: Ram, m': Ram, chunk: int, d: int, n: int)
    requires WellFormed(m, chunk) && ApartFrom(SpacePages(m, chunk), d, n) && SameOutside(m, m', d, n)
    ensures WellFormed(m', chunk) && Directory(m', chunk) == Directory(m, chunk)
    ensures SpacePages(m', chunk) == SpacePages(m, chunk)
    ensures EntryMap(m', Directory(m, chunk)) == EntryMap(m, Directory(m, chunk))
    ensures TablesPresent(m', Directory(m, chunk)) <==> TablesPresent(m, Directory(m, chunk))
    ensures ApartFrom(Tables(m, Directory(m, chunk)) + [Directory(m, chunk)], d, n)
  {
    var dir := Directory(m, chunk);
    var pages := SpacePages(m, chunk);
    assert pages[ENTRIES_PER_TABLE] == dir && pages[ENTRIES_PER_TABLE + 1] == chunk;
    ApartSamePage(m, m', pages, d, n, ENTRIES_PER_TABLE);
    TablesStayPresent(m, m', dir);
    ApartSamePage(m, m', pages, d, n, ENTRIES_PER_TABLE + 1);
    SamePageSameWord(m, m', chunk, chunk);
    forall p | p in Tables(m, dir) + [dir] ensures p in pages {
    }
    WriteKeepsMap(m, m', dir, d, n);
  }

  // ----- address translation -----

  /** The number of the page an address lies in. */
  function PageOf(va: Word): (p: int)
    ensures 0 <= p < PAGES && p * PAGE_SIZE <= va < p * PAGE_SIZE + PAGE_SIZE
  {
    va / PAGE_SIZE
  }

  /** The physical address behind a virtual one, under a map of pages to entries. */
  function Translate(space: Space, va: Word): (pa: Word)
  {
    var frame := PageBase(space[PageOf(va)]);
    assert IsPage(frame);
    frame + (va - PageOf(va) * PAGE_SIZE)
  }

  /** The directory entry that the processor uses for an address: bits 31 to 22 select it. */
  function DirectoryEntryFor(m: Ram, cr3: Word, va: Word): Word
    requires IsPage(cr3)
  {
    var i := va / 0x40_0000;
    assert IsWordAddress(cr3 + 4 * i) by { assert WordOfPage(cr3, i) == cr3 + 4 * i; }
    ReadWord(m, cr3 + 4 * i)
  }

  /** The table entry: bits 21 to 12 select it in the table that the directory entry points to. */
  function TableEntryFor(m: Ram, cr3: Word, va: Word): Word
    requires IsPage(cr3)
  {
    var table := PageBase(DirectoryEntryFor(m, cr3, va));
    var i := va / 0x1000 % 0x400;
    assert IsWordAddress(table + 4 * i) by { assert WordOfPage(table, i) == table + 4 * i; }
    ReadWord(m, table + 4 * i)
  }

  /** The two levels of the processor's walk give the translation and the presence of the map. */
  lemma {:induction false} ProcessorWalk(m: Ram, cr3: Word, va: Word)
    requires IsPage(cr3)
    ensures Translate(EntryMap(m, cr3), va) == And(TableEntryFor(m, cr3, va), 0xFFFFF000) + va % 0x1000
    ensures Present(EntryMap(m, cr3), va) <==> And(TableEntryFor(m, cr3, va), 1) != 0
    ensures TablesPresent(m, cr3) ==> And(DirectoryEntryFor(m, cr3, va), 1) != 0
  {
    EntryOfAddress(m, cr3, va);
    EntryMapAt(m, cr3);
    PageMask(TableEntryFor(m, cr3, va));
    LowBits(TableEntryFor(m, cr3, va));
    LowBits(DirectoryEntryFor(m, cr3, va));
    PresentExactly(m, cr3, ENTRIES_PER_TABLE);
    BitsOfAddress(va);
  }

  lemma {:induction false} EntryOfAddress(m: Ram, cr3: Word, va: Word)
    requires IsPage(cr3)
    ensures Entry(m, cr3, PageOf(va)) == TableEntryFor(m, cr3, va)
    ensures DirectoryEntryFor(m, cr3, va) == ReadWord(m, WordOfPage(cr3, PageOf(va) / ENTRIES_PER_TABLE))
  {
    BitsOfAddress(va);
    assert WordOfPage(cr3, va / 0x40_0000) == cr3 + 4 * (va / 0x40_0000);
  }

  lemma {:induction false} BitsOfAddress(va: Word)
    ensures PageOf(va) / ENTRIES_PER_TABLE == va / 0x40_0000
    ensures PageOf(va) % ENTRIES_PER_TABLE == va / 0x1000 % 0x400
    ensures va - PageOf(va) * PAGE_SIZE == va % 0x1000
  {
    var p, i, k := va / 0x1000, va / 0x40_0000, va % 0x1000;
    assert PageOf(va) == p && va == 0x1000 * p + k;
    var j := p - 0x400 * i;
    assert va == 0x40_0000 * i + va % 0x40_0000;
    assert 0 <= 0x1000 * j + k < 0x40_0000;
  }

  /** The present flag of an entry. */
  predicate IsPresent(entry: Word)
  {
    entry % 2 == 1
  }

  lemma PresentIsLowestBit(entry: Word)
    ensures And(entry, IS_PRESENT) != 0 <==> IsPresent(entry)
  {
    LowBits(entry);
  }

  predicate Present(space: Space, va: Word)
  {
    IsPresent(space[PageOf(va)])
  }

  /** The page at p is mapped to itself, and is present. */
  predicate MapsToItself(space: Space, p: int)
    requires IsPage(p)
  {
    PageBase(space[PageOf(p)]) == p && IsPresent(space[PageOf(p)])
  }

  /** Every virtual page is mapped to the physical page of the same address, and is present. */
  ghost predicate IsIdentity(space: Space)
  {
    forall p :: 0 <= p < PAGES ==> PageBase(space[p]) == p * PAGE_SIZE && IsPresent(space[p])
  }

  lemma IdentityMapsToItself(space: Space, p: int)
    requires IsIdentity(space) && IsPage(p)
    ensures MapsToItself(space, p)
  {
    SamePageNumber(p, p);
  }

  lemma SamePageNumber(page: Word, x: Word)
    requires IsPage(page) && page <= x < page + PAGE_SIZE
    ensures PageOf(x) == PageOf(page) && PageOf(page) * PAGE_SIZE == page
  {
    var q := page / PAGE_SIZE;
    assert page == PAGE_SIZE * q;
  }

  /** The frame a page is mapped to. */
  function FrameOf(space: Space, page: Word): (frame: Word)
    requires IsPage(page)
    ensures IsPage(frame) && frame == Translate(space, page)
  {
    SamePageNumber(page, page);
    PageBase(space[PageOf(page)])
  }

  lemma IdentityTranslates(space: Space, va: Word)
    requires PageBase(space[PageOf(va)]) == PageOf(va) * PAGE_SIZE
    ensures Translate(space, va) == va
  {
  }
}
