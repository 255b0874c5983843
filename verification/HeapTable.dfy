/** The block table of the kernel heap as a value: what a table means, and the pure forms of
    the search, taking and releasing that heap.c performs on it. */
module HeapTable {
  import opened Options

  const ENTRY_FREE: bv8 := 0x00
  const ENTRY_TAKEN: bv8 := 0x01
  const IS_FIRST: bv8 := 0x40
  const HAS_NEXT: bv8 := 0x80

  type Table = seq<bv8>

  /** Runs of blocks: first block number to number of blocks. */
  type Runs = map<int, int>

  predicate IsFree(e: bv8)
  {
    e & 0x0F == ENTRY_FREE
  }

  predicate HasNext(e: bv8)
  {
    e & HAS_NEXT != 0
  }

  predicate IsFirst(e: bv8)
  {
    e & IS_FIRST != 0
  }

  /** Bits 0 to 3 hold the type, bit 6 the first flag, bit 7 the successor flag. */
  lemma EntryBits(e: bv8)
    ensures IsFree(e) <==> e << 4 == 0
    ensures IsFirst(e) <==> (e << 1) >> 7 == 1
    ensures HasNext(e) <==> e >= 0x80
  {
  }

  /** The byte of block i of a run of n blocks. */
  function Mark(i: int, n: int): (e: bv8)
    ensures !IsFree(e)
    ensures IsFirst(e) <==> i == 0
    ensures HasNext(e) <==> i != n - 1
  {
    if i == 0 then
      if n == 1 then ENTRY_TAKEN | IS_FIRST else ENTRY_TAKEN | IS_FIRST | HAS_NEXT
    else if i == n - 1 then ENTRY_TAKEN else ENTRY_TAKEN | HAS_NEXT
  }

  predicate InRun(r: Runs, s: int, i: int)
  {
    s in r && s <= i < s + r[s]
  }

  ghost predicate Covered(r: Runs, i: int)
  {
    exists s :: InRun(r, s, i)
  }

  /** Runs are not empty, lie inside a table of `total` blocks and are disjoint. */
  ghost predicate Disjoint(r: Runs, total: int)
  {
    && (forall s :: s in r ==> 0 <= s && 1 <= r[s] && s + r[s] <= total)
    && (forall s, u :: s in r && u in r && s < u ==> s + r[s] <= u)
  }

  /** The table is exactly the encoding of the runs: marks inside them, zero elsewhere. */
  ghost predicate Represents(t: Table, r: Runs)
  {
    && Disjoint(r, |t|)
    && (forall s, i :: InRun(r, s, i) ==> t[i] == Mark(i - s, r[s]))
    && (forall i :: 0 <= i < |t| && !Covered(r, i) ==> t[i] == ENTRY_FREE)
  }

  /** Blocks b .. b+n-1 exist and are free. */
  predicate Window(t: Table, b: int, n: int)
  {
    0 <= b && b + n <= |t| && forall i :: b <= i < b + n ==> IsFree(t[i])
  }

  /** The lowest start, not below `from`, of n consecutive free blocks. */
  function FirstFit(t: Table, n: int, from: nat): (b: Option<int>)
    requires 1 <= n
    ensures b.Some? ==> from <= b.value && Window(t, b.value, n)
    ensures b.Some? ==> forall x :: from <= x < b.value ==> !Window(t, x, n)
    ensures b.None? ==> forall x :: from <= x ==> !Window(t, x, n)
    decreases |t| - from
  {
    if Window(t, from, n) then Some(from)
    else if from >= |t| then None
    else FirstFit(t, n, from + 1)
  }

  /** The table after marking blocks b .. b+n-1 as one run. */
  function TakeRun(t: Table, b: int, n: int): (t': Table)
    requires 0 <= b && 1 <= n && b + n <= |t|
    ensures |t'| == |t|
    ensures forall i :: 0 <= i < |t| ==> t'[i] == if b <= i < b + n then Mark(i - b, n) else t[i]
  {
    t[..b] + seq(n, i => Mark(i, n)) + t[b + n..]
  }

  /** The table after zeroing from block i to the first block without a successor flag. */
  function FreeFrom(t: Table, i: int): (t': Table)
    requires 0 <= i
    ensures |t'| == |t|
    decreases |t| - i
  {
    if i >= |t| then t
    else if HasNext(t[i]) then FreeFrom(t[i := ENTRY_FREE], i + 1)
    else t[i := ENTRY_FREE]
  }

  /** The block at which releasing block `num` starts zeroing. */
  function ReleaseStart(t: Table, num: int): int
    requires 0 <= num < |t|
  {
    if IsFirst(t[num]) then num else 0
  }

  /** The table after releasing block `num`, where `outside` is the byte the code finds in memory in
      place of the entry of a number outside the table. */
  function Released(t: Table, num: int, outside: bv8): Table
  {
    if 0 <= num < |t| then FreeFrom(t, ReleaseStart(t, num))
    else if IsFirst(outside) then t else FreeFrom(t, 0)
  }

  /** The first block of the run that this takes away, if there is such a run. */
  function ReleasedRun(t: Table, num: int, outside: bv8): set<int>
  {
    if 0 <= num < |t| then {ReleaseStart(t, num)}
    else if IsFirst(outside) then {} else {0}
  }

  // ----- what the encoding determines -----

  /** A free block lies in no run. */
  lemma {:induction false} FreeIsUncovered(t: Table, r: Runs, i: int)
    requires Represents(t, r) && 0 <= i < |t|
    ensures IsFree(t[i]) <==> !Covered(r, i)
    ensures IsFirst(t[i]) <==> i in r
  {
    if Covered(r, i) {
      var s :| InRun(r, s, i);
      assert t[i] == Mark(i - s, r[s]);
      if i in r {
        assert i == s;
      }
    } else if i in r {
      assert InRun(r, i, i);
    }
  }

  /** A set of runs has one table ... */
  lemma {:induction false} OneTable(t: Table, t': Table, r: Runs)
    requires Represents(t, r) && Represents(t', r) && |t| == |t'|
    ensures t == t'
  {
    forall i | 0 <= i < |t| ensures t[i] == t'[i] {
      if Covered(r, i) {
        var s :| InRun(r, s, i);
        assert t[i] == Mark(i - s, r[s]) == t'[i];
      }
    }
  }

  /** ... and a table has one set of runs. */
  lemma {:induction false} OneSetOfRuns(t: Table, r: Runs, r': Runs)
    requires Represents(t, r) && Represents(t, r')
    ensures r == r'
  {
    forall s | s in r || s in r' ensures s in r && s in r' {
      assert 0 <= s < |t|;
      FreeIsUncovered(t, r, s);
      FreeIsUncovered(t, r', s);
    }
    forall s | s in r && s in r' ensures r[s] == r'[s] {
      RunNotLonger(t, r, r', s);
      RunNotLonger(t, r', r, s);
    }
  }

  lemma {:induction false} RunNotLonger(t: Table, r: Runs, r': Runs, s: int)
    requires Represents(t, r) && Represents(t, r') && s in r && s in r'
    ensures r'[s] <= r[s]
  {
    var last := s + r[s] - 1;
    assert InRun(r, s, last);
    assert !HasNext(t[last]);
    if r[s] < r'[s] {
      assert InRun(r', s, last);
    }
  }

  // ----- taking and releasing -----

  /** A free window lies between the runs. */
  lemma {:induction false} WindowIsGap(t: Table, r: Runs, b: int, n: int)
    requires Represents(t, r) && 1 <= n && Window(t, b, n)
    ensures b !in r && forall s :: s in r ==> s + r[s] <= b || b + n <= s
    ensures Disjoint(r[b := n], |t|)
  {
    forall i | b <= i < b + n ensures !Covered(r, i) && i !in r {
      FreeIsUncovered(t, r, i);
    }
    forall s | s in r ensures s + r[s] <= b || b + n <= s {
      assert s < b < s + r[s] ==> InRun(r, s, b);
    }
  }

  lemma {:induction false} TakeKeeps(t: Table, r: Runs, b: int, n: int)
    requires Represents(t, r) && 1 <= n && Window(t, b, n)
    ensures b !in r
    ensures Represents(TakeRun(t, b, n), r[b := n])
  {
    var t', r' := TakeRun(t, b, n), r[b := n];
    WindowIsGap(t, r, b, n);
    forall s, i | InRun(r', s, i) ensures t'[i] == Mark(i - s, r'[s]) {
      if s != b {
        assert InRun(r, s, i);
      }
    }
    forall i | 0 <= i < |t'| && !Covered(r', i) ensures t'[i] == ENTRY_FREE {
      assert b <= i < b + n ==> InRun(r', b, i);
      assert forall s :: InRun(r, s, i) ==> InRun(r', s, i);
    }
  }

  /** Releasing from the first block of a run zeroes exactly that run. */
  lemma {:induction false} FreeClearsRun(t: Table, s: int, i: int, end: int)
    requires 0 <= s <= i < end <= |t|
    requires forall k :: i <= k < end ==> (HasNext(t[k]) <==> k != end - 1)
    ensures forall k :: 0 <= k < |t| ==> FreeFrom(t, i)[k] == if i <= k < end then ENTRY_FREE else t[k]
    decreases end - i
  {
    if i < end - 1 {
      FreeClearsRun(t[i := ENTRY_FREE], s, i + 1, end);
    }
  }

  lemma {:induction false} FreeKeeps(t: Table, r: Runs, s: int)
    requires Represents(t, r) && s in r
    ensures Represents(FreeFrom(t, s), r - {s})
  {
    var t', r' := FreeFrom(t, s), r - {s};
    forall k | s <= k < s + r[s] ensures HasNext(t[k]) <==> k != s + r[s] - 1 {
      assert InRun(r, s, k);
    }
    FreeClearsRun(t, s, s, s + r[s]);
    forall u, i | InRun(r', u, i) ensures t'[i] == Mark(i - u, r'[u]) {
      assert InRun(r, u, i);
    }
    forall i | 0 <= i < |t'| && !Covered(r', i) ensures t'[i] == ENTRY_FREE {
      if Covered(r, i) {
        var u :| InRun(r, u, i);
        if u != s {
          assert InRun(r', u, i);
        }
      }
    }
  }

  /** Taking a run and releasing it gives the table back. */
  lemma {:induction false} FreeUndoesTake(t: Table, r: Runs, b: int, n: int)
    requires Represents(t, r) && 1 <= n && Window(t, b, n)
    ensures FreeFrom(TakeRun(t, b, n), b) == t
  {
    TakeKeeps(t, r, b, n);
    FreeKeeps(TakeRun(t, b, n), r[b := n], b);
    assert r[b := n] - {b} == r;
    OneTable(FreeFrom(TakeRun(t, b, n), b), t, r);
  }

  /** Exactly when releasing a block of a run releases that run: the block is the first one,
      or the run starts at block 0. Any other inner block releases the wrong thing. */
  lemma {:induction false} ReleaseInside(t: Table, r: Runs, s: int, num: int)
    requires Represents(t, r) && InRun(r, s, num)
    ensures 0 <= num < |t|
    ensures Represents(FreeFrom(t, ReleaseStart(t, num)), r - {s}) <==> num == s || s == 0
  {
    assert t[num] == Mark(num - s, r[s]);
    if num == s || s == 0 {
      FreeKeeps(t, r, s);
    } else {
      var t' := FreeFrom(t, 0);
      if 0 in r {
        FreeKeeps(t, r, 0);
        assert s in (r - {0}) && s !in (r - {s});
        if Represents(t', r - {s}) {
          OneSetOfRuns(t', r - {0}, r - {s});
        }
      } else {
        assert !Covered(r, 0);
        assert t[0 := ENTRY_FREE] == t;
        assert s in r && s !in (r - {s});
        if Represents(t', r - {s}) {
          OneSetOfRuns(t', r, r - {s});
        }
      }
    }
  }

  /** For example: a run of one block and one of two behind it. Freeing the last block frees the
      first run. */
  lemma {:induction false} WrongRunFreed()
    ensures var t: Table, r: Runs := [0x41, 0xC1, 0x01], map[0 := 1, 1 := 2];
            && Represents(t, r) && InRun(r, 1, 2)
            && Represents(FreeFrom(t, ReleaseStart(t, 2)), map[1 := 2])
  {
    var t: Table, r: Runs := [0x41, 0xC1, 0x01], map[0 := 1, 1 := 2];
    assert InRun(r, 0, 0) && InRun(r, 1, 1) && InRun(r, 1, 2);
    assert Represents(t, r);
    assert ReleaseStart(t, 2) == 0;
    FreeKeeps(t, r, 0);
    assert r - {0} == map[1 := 2];
  }

  /** Whatever block is released, the table encodes the runs without the one taken away. */
  lemma ReleaseKeeps(t: Table, r: Runs, num: int, outside: bv8)
    requires Represents(t, r)
    ensures Represents(Released(t, num, outside), r - ReleasedRun(t, num, outside))
  {
    if 0 <= num < |t| {
      FreeIsUncovered(t, r, num);
      ReleaseFrom(t, r, ReleaseStart(t, num));
    } else if IsFirst(outside) {
      assert r - {} == r;
    } else if t != [] {
      ReleaseFrom(t, r, 0);
    } else {
      assert r - {0} == r;
    }
  }

  lemma ReleaseFrom(t: Table, r: Runs, first: int)
    requires Represents(t, r) && 0 <= first < |t| && (first in r || first == 0)
    ensures Represents(FreeFrom(t, first), r - {first})
    ensures first !in r ==> FreeFrom(t, first) == t
  {
    if first in r {
      FreeKeeps(t, r, first);
    } else {
      assert r - {first} == r;
      forall s | s in r ensures !InRun(r, s, 0) {
        assert s != 0;
      }
      assert t[0] == ENTRY_FREE && t[0 := ENTRY_FREE] == t;
    }
  }

  /** Releasing a number outside the table changes nothing exactly if the byte found there carries the
      first flag or no run starts at block 0. */
  lemma ReleaseOutside(t: Table, r: Runs, num: int, outside: bv8)
    requires Represents(t, r) && !(0 <= num < |t|)
    ensures Released(t, num, outside) == t <==> IsFirst(outside) || 0 !in r
  {
    ReleaseKeeps(t, r, num, outside);
    if 0 in r {
      assert 0 !in r - {0};
      if !IsFirst(outside) && Released(t, num, outside) == t {
        OneSetOfRuns(t, r, r - {0});
      }
    } else if t != [] {
      ReleaseFrom(t, r, 0);
    }
  }

  /** For example: NULL lies 4096 blocks before the pool. Where its byte has no first flag, freeing
      it frees the run at block 0. */
  lemma RunAtZeroFreed()
    ensures Represents([0x41], map[0 := 1]) && Released([0x41], -4096, 0) == [ENTRY_FREE]
  {
    var t: Table, r: Runs := [0x41], map[0 := 1];
    assert InRun(r, 0, 0);
  }

  // ----- counting free blocks -----

  function FreeCount(t: Table): nat
  {
    if t == [] then 0
    else FreeCount(t[..|t| - 1]) + (if IsFree(t[|t| - 1]) then 1 else 0)
  }

  lemma {:induction false} FreeCountConcat(t: Table, u: Table)
    ensures FreeCount(t + u) == FreeCount(t) + FreeCount(u)
  {
    if u == [] {
      assert t + u == t;
    } else {
      assert (t + u)[..|t + u| - 1] == t + u[..|u| - 1];
      FreeCountConcat(t, u[..|u| - 1]);
    }
  }

  lemma {:induction false} FreeCountUniform(t: Table, free: bool)
    requires forall i :: 0 <= i < |t| ==> IsFree(t[i]) == free
    ensures FreeCount(t) == if free then |t| else 0
  {
    if t != [] {
      FreeCountUniform(t[..|t| - 1], free);
    }
  }

  /** Taking n blocks lowers the number of free blocks by n. */
  lemma {:induction false} FreeCountTake(t: Table, b: int, n: int)
    requires 1 <= n && Window(t, b, n)
    ensures FreeCount(TakeRun(t, b, n)) == FreeCount(t) - n
  {
    var marks := seq(n, i => Mark(i, n));
    assert t == t[..b] + t[b..b + n] + t[b + n..];
    FreeCountConcat(t[..b] + t[b..b + n], t[b + n..]);
    FreeCountConcat(t[..b], t[b..b + n]);
    FreeCountConcat(t[..b] + marks, t[b + n..]);
    FreeCountConcat(t[..b], marks);
    FreeCountUniform(t[b..b + n], true);
    FreeCountUniform(marks, false);
  }

  /** Releasing a run raises it by the length of the run. */
  lemma {:induction false} FreeCountRelease(t: Table, r: Runs, s: int)
    requires Represents(t, r) && s in r
    ensures FreeCount(FreeFrom(t, s)) == FreeCount(t) + r[s]
  {
    var t', r' := FreeFrom(t, s), r - {s};
    FreeKeeps(t, r, s);
    forall i | s <= i < s + r[s] ensures IsFree(t'[i]) {
      forall u | u in r' ensures !InRun(r', u, i) {
        assert u in r && u != s;
      }
      FreeIsUncovered(t', r', i);
    }
    TakeKeeps(t', r', s, r[s]);
    assert r'[s := r[s]] == r;
    OneTable(TakeRun(t', s, r[s]), t, r);
    FreeCountTake(t', s, r[s]);
  }

  /** One free block is enough for a request of one block. */
  lemma {:induction false} FreeCountFit(t: Table)
    ensures FirstFit(t, 1, 0).Some? <==> FreeCount(t) >= 1
  {
    if FreeCount(t) >= 1 {
      var i := SomeFree(t);
      assert Window(t, i, 1);
    } else if FirstFit(t, 1, 0).Some? {
      FreeCountTake(t, FirstFit(t, 1, 0).value, 1);
    }
  }

  lemma {:induction false} SomeFree(t: Table) returns (i: int)
    requires FreeCount(t) >= 1
    ensures 0 <= i < |t| && IsFree(t[i])
  {
    if IsFree(t[|t| - 1]) {
      i := |t| - 1;
    } else {
      i := SomeFree(t[..|t| - 1]);
    }
  }
}
