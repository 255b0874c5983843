/** The one kernel heap of kheap.c: its fixed pool, and allocation over physical memory. */
module Kheap {
  import opened Words
  import opened Memory
  import opened HeapTable
  import opened Heap

  const POOL_START := 0x0100_0000
  const POOL_BYTES := 0x0640_0000
  const POOL_BLOCKS := 25600
  const HEAP_TABLE := 0x7E00      // where the code keeps the block table

  /** The address of a block of the pool. */
  function AddressOf(b: int): int
  {
    POOL_START + BLOCK_SIZE * b
  }

  /** The block an address of the pool lies in. */
  function BlockAt(a: int): (b: int)
    ensures AddressOf(b) <= a < AddressOf(b) + BLOCK_SIZE
  {
    (a - POOL_START) / BLOCK_SIZE
  }

  lemma BlockAtAddress(b: int)
    ensures BlockAt(AddressOf(b)) == b
  {
  }

  /** The pool address x lies in one of the blocks of the run at s. */
  predicate InAllocation(r: Runs, s: int, x: int)
  {
    s in r && AddressOf(s) <= x < AddressOf(s + r[s]) && POOL_START <= x < POOL_START + POOL_BYTES
  }

  /** In the empty pool every request that fits is served at 16 MiB. The pool ends at 116 MiB. */
  lemma {:induction false} EmptyPoolServes(t: Table, n: int)
    requires Represents(t, map[]) && |t| == POOL_BLOCKS && 1 <= n <= 25600
    ensures FirstFit(t, n, 0).Some? && AddressOf(FirstFit(t, n, 0).value) == 0x0100_0000
    ensures AddressOf(25600) == POOL_START + POOL_BYTES == 0x0740_0000
  {
    forall i | 0 <= i < n ensures IsFree(t[i]) {
      assert !Covered(map[], i);
    }
    assert Window(t, 0, n);
  }

  /** The lowest gap of n blocks became a run, whose address is ptr. */
  ghost predicate Granted(t: Table, r: Runs, t': Table, r': Runs, n: int, ptr: int)
  {
    && n >= 1 && FirstFit(t, n, 0).Some?
    && var b := FirstFit(t, n, 0).value;
       && ptr == AddressOf(b) && 0 <= b && b + n <= POOL_BLOCKS
       && b !in r && r' == r[b := n]
       && t' == TakeRun(t, b, n) && FreeCount(t') == FreeCount(t) - n
  }

  class KernelHeap {
    const heap: Heap
    var ram: Ram

    ghost predicate Valid()
      reads this, heap, heap.entries
    {
      heap.Valid() && heap.start == POOL_START && heap.entries.Length == POOL_BLOCKS
    }

    /** kheap_init: the whole pool is free. */
    constructor (memory: Ram)
      ensures Valid() && fresh(heap) && fresh(heap.entries)
      ensures ram == memory && heap.runs == map[] && |heap.entries[..]| == FreeCount(heap.entries[..]) == 25600
    {
      heap := new Heap(POOL_BYTES / BLOCK_SIZE);
      ram := memory;
      new;
      var result := heap.Create(POOL_START, POOL_START + POOL_BYTES);
    }

    /** memset, on an interval of memory. */
    method Memset(ptr: Word, c: Byte, size: Word)
      requires ptr + size <= WORD_RANGE
      modifies this`ram
      ensures forall x :: ptr <= x < ptr + size ==> ram[x] == c
      ensures SameOutside(old(ram), ram, ptr, size)
    {
      var i := 0;
      while i < size
        invariant 0 <= i <= size
        invariant forall x :: ptr <= x < ptr + i ==> ram[x] == c
        invariant SameOutside(old(ram), ram, ptr, i)
      {
        ram := WriteByte(ram, ptr + i, c);
        i := i + 1;
      }
    }

    /** kmalloc. */
    method Kmalloc(size: Word) returns (ptr: Word)
      requires Valid()
      modifies heap`runs, heap.entries
      ensures Valid()
      ensures ptr == 0 <==> BlocksFor(size) == 0 || FirstFit(old(heap.entries[..]), BlocksFor(size), 0).None?
      ensures ptr == 0 ==> heap.runs == old(heap.runs) && heap.entries[..] == old(heap.entries[..])
      ensures ptr != 0 ==>
                Granted(old(heap.entries[..]), old(heap.runs), heap.entries[..], heap.runs, BlocksFor(size), ptr)
    {
      ghost var t := heap.entries[..];
      ptr := heap.Malloc(size);
      if ptr != 0 {
        FreeCountTake(t, FirstFit(t, BlocksFor(size), 0).value, BlocksFor(size));
      }
    }

    /** kzalloc: additionally zeroes the first `size` bytes, and touches no other live allocation. */
    method Kzalloc(size: Word) returns (ptr: Word)
      requires Valid()
      modifies this`ram, heap`runs, heap.entries
      ensures Valid()
      ensures ptr == 0 <==> BlocksFor(size) == 0 || FirstFit(old(heap.entries[..]), BlocksFor(size), 0).None?
      ensures ptr == 0 ==>
                ram == old(ram) && heap.runs == old(heap.runs) && heap.entries[..] == old(heap.entries[..])
      ensures ptr != 0 ==>
                Granted(old(heap.entries[..]), old(heap.runs), heap.entries[..], heap.runs, BlocksFor(size), ptr)
      ensures ptr != 0 ==> forall x :: ptr <= x < ptr + size ==> ram[x] == 0
      ensures ptr != 0 ==> SameOutside(old(ram), ram, ptr, size)
      ensures ptr != 0 ==>
                forall s, x :: InAllocation(old(heap.runs), s, x) ==> ram[x] == old(ram[x])
    {
      ghost var t, r, m := heap.entries[..], heap.runs, ram;
      ptr := Kmalloc(size);
      if ptr != 0 {
        ghost var t', r' := heap.entries[..], heap.runs;
        GrantFits(t, r, t', r', size, ptr);
        Memset(ptr, 0, size);
        GrantKeepsOthers(t, r, t', r', size, ptr, m, ram);
      }
    }

    /** The byte that stands where the entry of a block would be. */
    function EntryByte(num: int): (b: bv8)
      reads this`ram
      ensures b == ram[(0x7E00 + num) % 0x1_0000_0000] as bv8
    {
      ram[U32(HEAP_TABLE + num)] as bv8
    }

    /** The first block of the run that freeing a pointer takes away, if there is such a run. */
    ghost function Freed(ptr: Word): set<int>
      reads this, heap
    {
      var num := BlockNumber(POOL_START, ptr);
      if 0 <= num < POOL_BLOCKS then {if num in heap.runs then num else 0}
      else if IsFirst(EntryByte(num)) then {} else {0}
    }

    /** kfree, for any pointer; memory outside the table is not touched. */
    method Kfree(ptr: Word)
      requires Valid()
      modifies heap`runs, heap.entries
      ensures Valid()
      ensures POOL_START <= ptr < POOL_START + POOL_BYTES ==>
                var b := BlockAt(ptr); heap.runs == old(heap.runs) - {if b in old(heap.runs) then b else 0}
      ensures POOL_START <= ptr < POOL_START + POOL_BYTES && BlockAt(ptr) in old(heap.runs) ==>
                FreeCount(heap.entries[..]) == FreeCount(old(heap.entries[..])) + old(heap.runs)[BlockAt(ptr)]
      ensures heap.runs == old(heap.runs) - old(Freed(ptr))
      ensures ptr == 0 ==>
                heap.runs == old(heap.runs) - if ram[0x6E00] as bv8 & 0x40 != 0 then {} else {0}
    {
      ghost var t, r, b := heap.entries[..], heap.runs, BlockAt(ptr);
      var num := BlockNumber(POOL_START, ptr);
      heap.Free(ptr, EntryByte(num));
      if POOL_START <= ptr < POOL_START + POOL_BYTES && b in r {
        FreeCountRelease(t, r, b);
        FreeKeeps(t, r, b);
        OneTable(heap.entries[..], FreeFrom(t, b), heap.runs);
      }
    }
  }

  /** A run granted for `size` bytes has room for them inside the pool. */
  lemma GrantFits(t: Table, r: Runs, t': Table, r': Runs, size: Word, ptr: int)
    requires Granted(t, r, t', r', BlocksFor(size), ptr)
    ensures POOL_START <= ptr && ptr + size <= POOL_START + POOL_BYTES
    ensures size <= BLOCK_SIZE * BlocksFor(size) < size + BLOCK_SIZE
  {
    BlocksForIsCeiling(size);
  }

  /** Writing inside a run granted last changes no byte of the runs before. */
  lemma GrantKeepsOthers(t: Table, r: Runs, t': Table, r': Runs, size: Word, ptr: int, m: Ram, m': Ram)
    requires Granted(t, r, t', r', BlocksFor(size), ptr) && Represents(t', r')
    requires SameOutside(m, m', ptr, size)
    ensures forall s, x :: InAllocation(r, s, x) ==> m'[x] == m[x]
  {
    GrantFits(t, r, t', r', size, ptr);
    forall s, x | InAllocation(r, s, x) ensures m'[x] == m[x] {
      assert s in r' && BlockAt(ptr) in r' && r'[s] == r[s];
    }
  }
}
