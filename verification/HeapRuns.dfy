/** The allocator seen from outside: sets of disjoint runs and lowest-gap placement, with no
    table in sight. Every history of requests on the table is a history of this allocator. */
module HeapRuns {
  import opened Options
  import opened HeapTable

  datatype Request = Allocate(blocks: nat) | Release(block: int)

  /** Blocks b .. b+n-1 exist and belong to no run. */
  ghost predicate Gap(r: Runs, total: int, b: int, n: int)
  {
    0 <= b && b + n <= total && forall i :: b <= i < b + n ==> !Covered(r, i)
  }

  /** The lowest gap of n blocks at or above `from`. */
  ghost function LowestGap(r: Runs, total: int, n: int, from: nat): Option<int>
    decreases total - from
  {
    if Gap(r, total, from, n) then Some(from)
    else if from >= total then None
    else LowestGap(r, total, n, from + 1)
  }

  /** What a request does to the set of runs. */
  ghost function RunsStep(r: Runs, total: int, q: Request): Runs
  {
    match q
    case Allocate(n) =>
      if n == 0 then r
      else (match LowestGap(r, total, n, 0)
            case None => r
            case Some(b) => r[b := n])
    case Release(b) => r - {b}
  }

  /** What heap.c does to the table for the same request. */
  function TableStep(t: Table, q: Request): (t': Table)
    ensures |t'| == |t|
  {
    match q
    case Allocate(n) =>
      if n == 0 then t
      else (match FirstFit(t, n, 0)
            case None => t
            case Some(b) => TakeRun(t, b, n))
    case Release(b) =>
      if 0 <= b < |t| then FreeFrom(t, ReleaseStart(t, b)) else t
  }

  ghost function RunsAfter(r: Runs, total: int, qs: seq<Request>): Runs
    decreases |qs|
  {
    if qs == [] then r else RunsAfter(RunsStep(r, total, qs[0]), total, qs[1..])
  }

  function TableAfter(t: Table, qs: seq<Request>): Table
    decreases |qs|
  {
    if qs == [] then t else TableAfter(TableStep(t, qs[0]), qs[1..])
  }

  /** Only first blocks of live runs are ever released. */
  ghost predicate Legal(r: Runs, total: int, qs: seq<Request>)
    decreases |qs|
  {
    qs == [] ||
    (&& (qs[0].Release? ==> qs[0].block in r)
     && Legal(RunsStep(r, total, qs[0]), total, qs[1..]))
  }

  lemma {:induction false} GapIsWindow(t: Table, r: Runs, b: int, n: int)
    requires Represents(t, r)
    ensures Gap(r, |t|, b, n) <==> Window(t, b, n)
  {
    forall i | 0 <= i < |t| ensures IsFree(t[i]) <==> !Covered(r, i) {
      FreeIsUncovered(t, r, i);
    }
  }

  lemma {:induction false} SamePlacement(t: Table, r: Runs, n: int, from: nat)
    requires Represents(t, r) && 1 <= n
    ensures LowestGap(r, |t|, n, from) == FirstFit(t, n, from)
    decreases |t| - from
  {
    GapIsWindow(t, r, from, n);
    if from < |t| && !Window(t, from, n) {
      SamePlacement(t, r, n, from + 1);
    }
  }

  lemma {:induction false} StepRefines(t: Table, r: Runs, q: Request)
    requires Represents(t, r) && (q.Release? ==> q.block in r)
    ensures Represents(TableStep(t, q), RunsStep(r, |t|, q))
  {
    match q
    case Allocate(n) =>
      if n > 0 {
        SamePlacement(t, r, n, 0);
        var fit := FirstFit(t, n, 0);
        if fit.Some? {
          TakeKeeps(t, r, fit.value, n);
        }
      }
    case Release(b) =>
      FreeIsUncovered(t, r, b);
      FreeKeeps(t, r, b);
  }

  /** Over any history that releases only live runs, the byte table stays the encoding of
      the runs that the abstract allocator has at that moment. */
  lemma {:induction false} HistoryRefines(t: Table, r: Runs, qs: seq<Request>)
    requires Represents(t, r) && Legal(r, |t|, qs)
    ensures |TableAfter(t, qs)| == |t|
    ensures Represents(TableAfter(t, qs), RunsAfter(r, |t|, qs))
    decreases |qs|
  {
    if qs != [] {
      StepRefines(t, r, qs[0]);
      HistoryRefines(TableStep(t, qs[0]), RunsStep(r, |t|, qs[0]), qs[1..]);
    }
  }

  /** A history of requests that leaves the runs it found also leaves the table it found,
      byte for byte. */
  lemma {:induction false} BalancedHistoryRestores(t: Table, r: Runs, qs: seq<Request>)
    requires Represents(t, r) && Legal(r, |t|, qs)
    requires RunsAfter(r, |t|, qs) == r
    ensures TableAfter(t, qs) == t
  {
    HistoryRefines(t, r, qs);
    OneTable(TableAfter(t, qs), t, r);
  }
}
