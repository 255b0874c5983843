/** The first-fit block allocator of heap.c over its byte table. */
module Heap {
  import opened Words
  import opened Options
  import opened HeapTable

  const BLOCK_SIZE := 4096

  /** `size` rounded up to a whole number of blocks, in 32-bit arithmetic. */
  function AlignValueToUpper(value: Word): Word
  {
    var remainder := value % BLOCK_SIZE;
    if remainder == 0 then value else U32(value - remainder + BLOCK_SIZE)
  }

  /** The number of blocks malloc asks for. */
  function BlocksFor(size: Word): nat
  {
    AlignValueToUpper(size) / BLOCK_SIZE
  }

  /** The request is for just enough blocks, except that a size above 0xfffff000 wraps to none. */
  lemma BlocksForIsCeiling(size: Word)
    ensures BlocksFor(size) == 0 <==> size == 0 || size > 0xFFFFF000
    ensures size <= 0xFFFFF000 ==> (BlocksFor(size) - 1) * BLOCK_SIZE < size <= BlocksFor(size) * BLOCK_SIZE
  {
    var q, remainder := size / BLOCK_SIZE, size % BLOCK_SIZE;
    assert size == BLOCK_SIZE * q + remainder;
    if remainder != 0 {
      assert U32(size - remainder + BLOCK_SIZE) == if q == 0xFFFFF then 0 else BLOCK_SIZE * (q + 1);
    }
  }

  /** Pointer difference to block number, through the signed 32-bit cast of the source. */
  function BlockNumber(start: Word, address: Word): (num: int)
    ensures -0x8000_0000 <= num < 0x8000_0000
    ensures 0 <= address - start < 0x8000_0000 ==> num == (address - start) / BLOCK_SIZE
  {
    var distance := I32(address - start);
    if distance >= 0 then distance / BLOCK_SIZE else -(-distance / BLOCK_SIZE)
  }

  /** Block numbers survive the trip through an address exactly below block 2^19: above
      that, the signed cast makes the distance negative. */
  lemma BlockNumberOfAddress(start: Word, b: nat)
    requires start + BLOCK_SIZE * b < WORD_RANGE
    ensures BlockNumber(start, start + BLOCK_SIZE * b) == b <==> b < 0x8_0000
  {
    assert BLOCK_SIZE * b < 0x8000_0000 <==> b < 0x8_0000;
  }

  /** For example: the block 2 GiB behind the start of the kernel's pool. */
  lemma FarBlockNegative()
    ensures BlockNumber(0x0100_0000, 0x0100_0000 + BLOCK_SIZE * 0x8_0000) == -0x8_0000
  {
  }

  class Heap {
    const entries: array<bv8>   // heap->table->entries, table->total of them
    var start: Word             // heap->start_address
    ghost var runs: Runs

    /** The pool fits the address space and the table encodes the live runs. */
    ghost predicate Valid()
      reads this, entries
    {
      && start % BLOCK_SIZE == 0
      && start + BLOCK_SIZE * entries.Length <= WORD_RANGE
      && Represents(entries[..], runs)
    }

    constructor (total: nat)
      ensures entries.Length == total && fresh(entries)
    {
      entries := new bv8[total];
      start := 0;
    }

    /** heap_create: -EINVAL for unaligned bounds or a table of the wrong size, else an empty heap. */
    method Create(startAddress: Word, endAddress: Word) returns (result: int)
      modifies this, entries
      ensures result == -EINVAL || result == 0
      ensures result == 0 <==> (&& startAddress % BLOCK_SIZE == 0 && endAddress % BLOCK_SIZE == 0
                                && U32(endAddress - startAddress) / BLOCK_SIZE == entries.Length)
      ensures result != 0 ==> entries[..] == old(entries[..])
      ensures start == if startAddress % BLOCK_SIZE == 0 && endAddress % BLOCK_SIZE == 0 then startAddress else old(start)
      ensures result == 0 && startAddress <= endAddress ==>
                Valid() && start == startAddress && runs == map[] && FreeCount(entries[..]) == entries.Length
    {
      if startAddress % BLOCK_SIZE != 0 || endAddress % BLOCK_SIZE != 0 {
        return -EINVAL;
      }
      start := startAddress;
      if U32(endAddress - startAddress) / BLOCK_SIZE != entries.Length {
        return -EINVAL;
      }
      var i := 0;
      while i < entries.Length
        modifies entries
        invariant 0 <= i <= entries.Length
        invariant forall k :: 0 <= k < i ==> entries[k] == ENTRY_FREE
      {
        entries[i] := ENTRY_FREE;
        i := i + 1;
      }
      runs := map[];
      FreeCountUniform(entries[..], true);
      return 0;
    }

    /** get_free_blocks: the lowest start of `size` consecutive free blocks, or -ENOMEM. */
    method GetFreeBlocks(size: Word) returns (blockNumber: int)
      ensures blockNumber == -ENOMEM || 0 <= blockNumber
      ensures blockNumber >= 0 ==> size >= 1 && Window(entries[..], blockNumber, size)
      ensures forall x :: 0 <= x && (0 <= blockNumber ==> x < blockNumber) ==> size == 0 || !Window(entries[..], x, size)
    {
      ghost var t := entries[..];
      var freeBlockCount: int := 0;
      blockNumber := -ENOMEM;
      var i := 0;
      while i < entries.Length
        invariant 0 <= i <= entries.Length && 0 <= freeBlockCount <= i
        invariant size >= 1 ==> freeBlockCount < size
        invariant blockNumber == if freeBlockCount == 0 then -ENOMEM else i - freeBlockCount
        invariant forall k :: i - freeBlockCount <= k < i ==> IsFree(t[k])
        invariant size >= 1 ==> forall x :: 0 <= x < i - freeBlockCount ==> !Window(t, x, size)
      {
        if IsFree(entries[i]) {
          if blockNumber == -ENOMEM {
            blockNumber := i;
          }
          freeBlockCount := freeBlockCount + 1;
          if freeBlockCount == size {
            assert blockNumber == i + 1 - freeBlockCount;
            break;
          }
        } else {
          forall x | 0 <= x < i + 1 && size >= 1 ensures !Window(t, x, size) {
            if i - freeBlockCount <= x {
              assert x <= i < x + size && !IsFree(t[i]);
            }
          }
          freeBlockCount := 0;
          blockNumber := -ENOMEM;
        }
        i := i + 1;
      }
      if freeBlockCount != size {
        blockNumber := -ENOMEM;
      }
    }

    /** mark_blocks_taken, with its unsigned comparisons and its clamp to the end of the table. */
    method MarkBlocksTaken(startBlock: int, size: int) returns (result: int)
      requires entries.Length >= 1
      requires -0x8000_0000 <= startBlock < 0x8000_0000 && -0x8000_0000 <= size < 0x8000_0000
      requires entries.Length < 0x8000_0000
      modifies entries
      ensures result == if 0 <= startBlock < entries.Length then 0 else -EINVAL
      ensures result != 0 ==> entries[..] == old(entries[..])
      ensures result == 0 && 1 <= size <= entries.Length - startBlock ==>
                entries[..] == TakeRun(old(entries[..]), startBlock, size)
      ensures result == 0 ==>
                var end := if U32(startBlock + size - 1) < entries.Length then startBlock + size else entries.Length;
                && entries[startBlock] == ENTRY_TAKEN | IS_FIRST | (if size > 1 then HAS_NEXT else 0)
                && forall k :: 0 <= k < entries.Length && k != startBlock ==>
                     entries[k] == if startBlock < k < end then Mark(k - startBlock, end - startBlock) else old(entries[k])
    {
      var last := entries.Length - 1;
      if U32(startBlock) > last {
        return -EINVAL;
      }
      var endBlock := startBlock + size - 1;
      if U32(endBlock) > last {
        endBlock := last;
      }
      ghost var t := entries[..];
      entries[startBlock] := ENTRY_TAKEN | IS_FIRST;
      if size > 1 {
        entries[startBlock] := entries[startBlock] | HAS_NEXT;
      }
      var i := startBlock + 1;
      while i <= endBlock
        invariant startBlock + 1 <= i
        invariant i <= endBlock + 1 || i == startBlock + 1
        invariant entries[startBlock] == ENTRY_TAKEN | IS_FIRST | (if size > 1 then HAS_NEXT else 0)
        invariant forall k :: 0 <= k < entries.Length && k != startBlock ==>
                    entries[k] == if startBlock < k < i then Mark(k - startBlock, endBlock + 1 - startBlock) else t[k]
      {
        entries[i] := ENTRY_TAKEN;
        if i != endBlock {
          entries[i] := entries[i] | HAS_NEXT;
        }
        i := i + 1;
      }
      return 0;
    }

    /** mark_blocks_free: the walk back tests entries[num] at every step, so it stops at once or at
        block 0, for numbers below 0 by way of the wrap-around. */
    method MarkBlocksFree(num: int, outside: bv8)
      requires -0x8000_0000 <= num < 0x8000_0000 && entries.Length < 0x8000_0000
      modifies entries
      ensures entries[..] == Released(old(entries[..]), num, outside)
    {
      ghost var t := entries[..];
      var first := num;
      while first != 0
        invariant -0x8000_0000 <= first < 0x8000_0000 && entries[..] == t
        invariant first == num || !IsFirst(if 0 <= num < |t| then t[num] else outside)
        decreases U32(first)
      {
        if IsFirst(if 0 <= num < entries.Length then entries[num] else outside) {
          break;
        }
        StepDown(first);
        first := I32(first - 1);
      }
      if first < 0 {
        BelowZero(first);
      }
      ZeroFrom(first);
    }

    /** The zeroing loop of mark_blocks_free; the comparison with the table's size is unsigned. */
    method ZeroFrom(first: int)
      requires -0x8000_0000 <= first < 0x8000_0000 && entries.Length < 0x8000_0000
      requires first < 0 ==> U32(first) >= 0x8000_0000
      modifies entries
      ensures entries[..] == if first < 0 then old(entries[..]) else FreeFrom(old(entries[..]), first)
    {
      ghost var t := entries[..];
      var i := first;
      while U32(i) < entries.Length
        invariant first <= i && (i == first || 0 <= i <= entries.Length)
        invariant i < 0 ==> entries[..] == t
        invariant i >= 0 ==> first >= 0 && FreeFrom(entries[..], i) == FreeFrom(t, first)
      {
        var entry := entries[i];
        ghost var before := entries[..];
        entries[i] := ENTRY_FREE;
        assert entries[..] == before[i := ENTRY_FREE];
        if !HasNext(entry) {
          return;
        }
        i := i + 1;
      }
    }

    /** get_physical_address_from_block_number. */
    function AddressOfBlock(num: int): Word
      reads this
    {
      if 0 <= num < entries.Length then U32(start + BLOCK_SIZE * num) else 0
    }

    /** malloc_blocks: the lowest gap becomes a run, or nothing changes and NULL is returned. */
    method MallocBlocks(size: Word) returns (address: Word)
      requires Valid()
      modifies this`runs, entries
      ensures Valid()
      ensures size == 0 || FirstFit(old(entries[..]), size, 0).None? ==>
                address == 0 && runs == old(runs) && entries[..] == old(entries[..])
      ensures size > 0 && FirstFit(old(entries[..]), size, 0).Some? ==>
                var b := FirstFit(old(entries[..]), size, 0).value;
                && b !in old(runs) && runs == old(runs)[b := size]
                && entries[..] == TakeRun(old(entries[..]), b, size)
                && address == start + BLOCK_SIZE * b < WORD_RANGE
    {
      address := 0;
      var startBlock := GetFreeBlocks(size);
      ghost var t := entries[..];
      if startBlock < 0 {
        return;
      }
      assert Window(t, startBlock, size);
      assert FirstFit(t, size, 0) == Some(startBlock) by {
        var fit := FirstFit(t, size, 0);
        assert fit.None? ==> !Window(t, startBlock, size);
      }
      address := AddressOfBlock(startBlock);
      TakeKeeps(t, runs, startBlock, size);
      var _ := MarkBlocksTaken(startBlock, size);
      runs := runs[startBlock := size];
    }

    /** malloc. */
    method Malloc(size: Word) returns (address: Word)
      requires Valid()
      modifies this`runs, entries
      ensures Valid()
      ensures BlocksFor(size) == 0 || FirstFit(old(entries[..]), BlocksFor(size), 0).None? ==>
                address == 0 && runs == old(runs) && entries[..] == old(entries[..])
      ensures BlocksFor(size) > 0 && FirstFit(old(entries[..]), BlocksFor(size), 0).Some? ==>
                var b := FirstFit(old(entries[..]), BlocksFor(size), 0).value;
                && b !in old(runs) && runs == old(runs)[b := BlocksFor(size)]
                && entries[..] == TakeRun(old(entries[..]), b, BlocksFor(size))
                && address == start + BLOCK_SIZE * b < WORD_RANGE
    {
      var alignedSize := AlignValueToUpper(size);
      var totalBlocks := alignedSize / BLOCK_SIZE;
      address := MallocBlocks(totalBlocks);
    }

    /** free, for any pointer. One into the first block of a live run releases that run; any other
        pointer into the pool releases the run at block 0 if there is one; for others it depends on
        the byte `outside` that stands where their entry would be. */
    method Free(ptr: Word, outside: bv8)
      requires Valid() && entries.Length < 0x8000_0000
      modifies this`runs, entries
      ensures Valid()
      ensures var num := BlockNumber(start, ptr);
              && entries[..] == Released(old(entries[..]), num, outside)
              && runs == old(runs) - (if 0 <= num < entries.Length then {if num in old(runs) then num else 0}
                                      else if IsFirst(outside) then {} else {0})
    {
      var num := BlockNumber(start, ptr);
      ghost var t := entries[..];
      if 0 <= num < |t| {
        FreeIsUncovered(t, runs, num);
      }
      ReleaseKeeps(t, runs, num, outside);
      MarkBlocksFree(num, outside);
      runs := runs - ReleasedRun(t, num, outside);
    }
  }

  lemma StepDown(x: int)
    requires -0x8000_0000 <= x < 0x8000_0000 && x != 0
    ensures U32(I32(x - 1)) == U32(x) - 1
  {
    if x < 0 {
      BelowZero(x);
      BelowZero(x - 1);
    }
  }

  lemma BelowZero(x: int)
    requires -WORD_RANGE <= x < 0
    ensures U32(x) == x + WORD_RANGE
  {
  }
}
