/** The task list of task.c and the process table of process.c. */
module Tasks {
  import opened Words

  const MAX_PROCESSES := 20

  class Process {
    var id: int
    var task: Task?

    constructor ()
      ensures id == 0 && task == null
    {
      id := 0;
      task := null;
    }
  }

  class Task {
    var next: Task?
    var prev: Task?
    var proc: Process?

    constructor (proc: Process)
      ensures next == null && prev == null && this.proc == proc
    {
      next := null;
      prev := null;
      this.proc := proc;
    }
  }

  // ----- the cyclic order -----

  /** The position after i in a circle of n. */
  function NextIndex(n: nat, i: nat): (j: nat)
    requires i < n
    ensures j < n
  {
    if i + 1 == n then 0 else i + 1
  }

  /** The position k steps after i. */
  function StepsFrom(n: nat, i: nat, k: nat): (j: nat)
    requires i < n
    ensures j < n
  {
    if k == 0 then i else NextIndex(n, StepsFrom(n, i, k - 1))
  }

  lemma {:induction false} StepsAre(n: nat, i: nat, k: nat)
    requires i < n && k <= n
    ensures StepsFrom(n, i, k) == if i + k < n then i + k else i + k - n
  {
    if k > 0 {
      StepsAre(n, i, k - 1);
    }
  }

  /** n steps in a circle of n come back to the start and meet every position exactly once. */
  lemma OneRound(n: nat, i: nat)
    requires i < n
    ensures StepsFrom(n, i, n) == i
    ensures forall a, b :: 0 <= a < b < n ==> StepsFrom(n, i, a) != StepsFrom(n, i, b)
    ensures forall j :: 0 <= j < n ==> Met(n, i, j)
  {
    forall k | 0 <= k <= n ensures StepsFrom(n, i, k) == if i + k < n then i + k else i + k - n {
      StepsAre(n, i, k);
    }
    forall j | 0 <= j < n ensures Met(n, i, j) {
      var k := if j >= i then j - i else j - i + n;
      assert StepsFrom(n, i, k) == j;
    }
  }

  /** Position j is met in the first n steps from i. */
  ghost predicate Met(n: nat, i: nat, j: nat)
    requires i < n
  {
    exists k :: 0 <= k < n && StepsFrom(n, i, k) == j
  }

  // ----- the task list -----

  class Scheduler {
    var head: Task?
    var tail: Task?
    var current: Task?
    ghost var tasks: seq<Task>

    constructor ()
      ensures tasks == [] && Valid()
    {
      head := null;
      tail := null;
      current := null;
      tasks := [];
    }

    /** The list of the tasks, with the running task in it. */
    ghost predicate Linked()
      reads this, set t | t in tasks
    {
      Chained() && if tasks == [] then current == null else current in tasks
    }

    /** The list from head along the next links and its last element. */
    ghost predicate Chained()
      reads this`tasks, this`head, this`tail, set t | t in tasks
    {
      && (forall i, j :: 0 <= i < j < |tasks| ==> tasks[i] != tasks[j])
      && (forall i :: 0 <= i < |tasks| ==> NextIs(i))
      && (if tasks == [] then head == null && tail == null
          else head == tasks[0] && tail == tasks[|tasks| - 1])
    }

    /** The prev links are the next links read backwards. */
    ghost predicate Mirrored()
      reads this`tasks, set t | t in tasks
    {
      forall i :: 0 <= i < |tasks| ==> PrevIs(i)
    }

    ghost predicate NextIs(i: nat)
      requires i < |tasks|
      reads this`tasks, tasks[i]
    {
      tasks[i].next == if i + 1 < |tasks| then tasks[i + 1] else null
    }

    ghost predicate PrevIs(i: nat)
      requires i < |tasks|
      reads this`tasks, tasks[i]
    {
      tasks[i].prev == if i > 0 then tasks[i - 1] else null
    }

    ghost predicate Valid()
      reads this, set t | t in tasks
    {
      Linked() && Mirrored()
    }

    /** The place of a task in the list. */
    ghost function IndexOf(t: Task?): (i: nat)
      requires t in tasks
      reads this
      ensures i < |tasks| && tasks[i] == t
    {
      var i :| 0 <= i < |tasks| && tasks[i] == t;
      i
    }

    /** get_next_task: the task after the current one, in a circle. */
    method GetNextTask() returns (next: Task)
      requires Linked() && tasks != []
      ensures IndexOf(current) < |tasks| && next == tasks[NextIndex(|tasks|, IndexOf(current))]
    {
      ghost var i := IndexOf(current);
      assert NextIs(i);
      if current.next == null {
        return head;
      }
      return current.next;
    }

    /** The list part of make_new_task. */
    method Append(task: Task)
      requires Valid() && task !in tasks && task.next == null && task.prev == null
      modifies this, task, tail
      ensures Valid() && tasks == old(tasks) + [task] && task.proc == old(task.proc)
      ensures current == if old(tasks) == [] then task else old(current)
      ensures forall t :: t in old(tasks) ==> t.proc == old(t.proc)
    {
      if head == null {
        head := task;
        tail := task;
        current := task;
        tasks := [task];
        return;
      }
      ghost var before := tasks;
      tail.next := task;
      task.prev := tail;
      tail := task;
      tasks := tasks + [task];
      forall i | 0 <= i < |before| ensures PrevIs(i) && NextIs(i) {
        assert tasks[i] == before[i] && old(PrevIs(i)) && old(NextIs(i));
      }
      assert PrevIs(|before|) && NextIs(|before|);
    }

    /** The links past the k-th task. */
    method Unhook(task: Task, ghost k: nat)
      requires Valid() && k < |tasks| && tasks[k] == task
      modifies this`head, this`tail, this`tasks, task.prev
      ensures forall t :: t in old(tasks) ==> t.prev == old(t.prev) && t.proc == old(t.proc)
      ensures task.next == if k + 1 < |old(tasks)| then old(tasks)[k + 1] else null
      ensures Chained() && tasks == old(tasks[..k]) + old(tasks[k + 1..])
      ensures Mirrored() <==> k == |old(tasks)| - 1
    {
      ghost var before := tasks;
      assert PrevIs(k) && NextIs(k);
      if task.prev != null {
        task.prev.next := task.next;
      }
      if task == head {
        head := task.next;
      }
      if task == tail {
        tail := task.prev;
      }
      tasks := tasks[..k] + tasks[k + 1..];
      forall i | 0 <= i < |tasks| ensures NextIs(i) {
        var o := if i < k then i else i + 1;
        assert tasks[i] == before[o] && old(NextIs(o));
      }
      if k < |tasks| {
        assert tasks[k] == before[k + 1] && old(PrevIs(k + 1));
        assert !PrevIs(k);
      }
      forall i | 0 <= i < |tasks| && i < k ensures PrevIs(i) {
        assert tasks[i] == before[i] && old(PrevIs(i));
      }
    }

    /** remove_task_from_linked_list, for the k-th task: the list along the next links stays right, a
        removed current task hands over to its successor, and the prev links stay right exactly when
        the task was the last one. */
    method Remove(task: Task, ghost k: nat)
      requires Valid() && k < |tasks| && tasks[k] == task
      modifies this, task.prev
      ensures forall t :: t in old(tasks) ==> t.prev == old(t.prev) && t.proc == old(t.proc)
      ensures Linked() && tasks == old(tasks[..k]) + old(tasks[k + 1..])
      ensures Mirrored() <==> k == |old(tasks)| - 1
      ensures old(current) != task ==> current == old(current)
      ensures old(current) == task && |old(tasks)| > 1 ==> current == old(tasks)[NextIndex(|old(tasks)|, k)]
    {
      ghost var before := tasks;
      Unhook(task, k);
      if task == current {
        if current.next == null {
          current := head;
        } else {
          current := current.next;
          assert tasks[k] == before[k + 1];
        }
      }
    }

    /** task_switch. */
    method TaskSwitch(task: Task)
      requires Valid() && task in tasks
      modifies this`current
      ensures Valid() && current == task
    {
      current := task;
    }

    /** One turn of the scheduler. */
    method SwitchToNext(ghost i: nat)
      requires Valid() && i < |tasks| && current == tasks[i]
      modifies this`current
      ensures Valid() && current == tasks[NextIndex(|tasks|, i)]
    {
      var next := GetNextTask();
      assert IndexOf(current) == i;
      TaskSwitch(next);
    }

    /** As many switches to the next task as there are tasks run every task exactly once and come back
        to the one that was running. */
    method RunOneRound(n: nat) returns (ghost visited: seq<Task>)
      requires Valid() && tasks != [] && n == |tasks|
      modifies this`current
      ensures Valid() && current == old(current)
      ensures |visited| == |tasks| && (forall t :: t in tasks ==> t in visited)
      ensures forall a, b :: 0 <= a < b < |visited| ==> visited[a] != visited[b]
    {
      ghost var start := IndexOf(current);
      visited := RunTurns(n, start);
      OneRound(n, start);
      TurnsAreAll(tasks, start);
    }

    /** n switches to the next task, from position `start`. */
    method RunTurns(n: nat, ghost start: nat) returns (ghost visited: seq<Task>)
      requires Valid() && start < |tasks| == n && current == tasks[start]
      modifies this`current
      ensures Valid() && current == tasks[StepsFrom(n, start, n)] && visited == Turns(tasks, start, n)
    {
      visited := [];
      var k := 0;
      while k < n
        invariant 0 <= k <= n && Valid()
        invariant current == tasks[StepsFrom(n, start, k)]
        invariant visited == Turns(tasks, start, k)
      {
        ghost var running := tasks[StepsFrom(n, start, k)];
        visited := visited + [running];
        SwitchToNext(StepsFrom(n, start, k));
        k := k + 1;
      }
    }
  }

  /** For example: of two tasks the first is removed, and the second still points back to it. */
  method RemoveFirstOfTwo(proc: Process) returns (s: Scheduler, a: Task, b: Task)
    ensures s.Linked() && s.tasks == [b] && b.prev == a && !s.Mirrored()
  {
    s := new Scheduler();
    a := new Task(proc);
    b := new Task(proc);
    s.Append(a);
    assert s.tasks == [a];
    s.Append(b);
    assert s.tasks == [a, b] && s.PrevIs(0) && s.PrevIs(1);
    s.Remove(a, 0);
  }

  /** The tasks of k turns from position `start` on. */
  ghost function Turns(tasks: seq<Task>, start: nat, k: nat): (v: seq<Task>)
    requires start < |tasks|
    ensures |v| == k
    ensures forall a :: 0 <= a < k ==> v[a] == tasks[StepsFrom(|tasks|, start, a)]
  {
    if k == 0 then [] else Turns(tasks, start, k - 1) + [tasks[StepsFrom(|tasks|, start, k - 1)]]
  }

  lemma TurnsAreAll(tasks: seq<Task>, start: nat)
    requires start < |tasks| && forall i, j :: 0 <= i < j < |tasks| ==> tasks[i] != tasks[j]
    ensures var v := Turns(tasks, start, |tasks|);
            && (forall t :: t in tasks ==> t in v)
            && (forall a, b :: 0 <= a < b < |v| ==> v[a] != v[b])
  {
    var n := |tasks|;
    var v := Turns(tasks, start, n);
    OneRound(n, start);
    forall t | t in tasks ensures t in v {
      var j :| 0 <= j < n && tasks[j] == t;
      assert Met(n, start, j);
      var a :| 0 <= a < n && StepsFrom(n, start, a) == j;
      assert v[a] == t;
    }
    forall a, b | 0 <= a < b < n ensures v[a] != v[b] {
      var i, j := StepsFrom(n, start, a), StepsFrom(n, start, b);
      assert i != j && v[a] == tasks[i] && v[b] == tasks[j];
      assert if i < j then tasks[i] != tasks[j] else tasks[j] != tasks[i];
    }
  }

  // ----- the process table -----

  /** What the parts of process_load_for_slot that are not modelled come to: the two allocations, the
      binary loader, make_new_task's allocation and the mapping of the binary. */
  datatype Outcomes = Outcomes(processAllocated: bool, loaded: int, stackAllocated: bool, taskAllocated: bool, mapped: int)
  {
    predicate Succeed()
    {
      processAllocated && loaded >= 0 && stackAllocated && taskAllocated && mapped >= 0
    }

    /** The error of the first part that fails: the loader's or the mapping's own, else -ENOMEM. */
    function FirstError(): (e: int)
      requires !Succeed()
      ensures e < 0
      ensures processAllocated && loaded < 0 ==> e == loaded
      ensures processAllocated && loaded >= 0 && stackAllocated && taskAllocated ==> e == mapped
      ensures !processAllocated || (loaded >= 0 && !(stackAllocated && taskAllocated)) ==> e == -12
    {
      if !processAllocated then -ENOMEM
      else if loaded < 0 then loaded
      else if !stackAllocated then -ENOMEM
      else if !taskAllocated then -ENOMEM
      else mapped
    }
  }

  class ProcessTable {
    const processes: array<Process?>
    const scheduler: Scheduler

    constructor ()
      ensures Valid() && scheduler.tasks == []
      ensures processes.Length == 20 && forall i :: 0 <= i < 20 ==> processes[i] == null
    {
      processes := new Process?[MAX_PROCESSES](_ => null);
      scheduler := new Scheduler();
    }

    /** The process in slot i carries the number of the slot, and it and its listed task point at each other. */
    ghost predicate SlotOk(i: nat)
      requires processes.Length == MAX_PROCESSES && i < MAX_PROCESSES
      reads processes, scheduler, processes[i], set t | t in scheduler.tasks
    {
      var p := processes[i];
      p != null ==> p.id == i && p.task != null && p.task in scheduler.tasks && p.task.proc == p
    }

    /** The k-th listed task belongs to a process of the table, and that process to it. */
    ghost predicate TaskOk(k: nat)
      requires processes.Length == MAX_PROCESSES && k < |scheduler.tasks|
      reads processes, scheduler, scheduler.tasks[k], set p | p in processes[..]
    {
      var t := scheduler.tasks[k];
      t.proc != null && t.proc in processes[..] && t.proc.task == t
    }

    /** Slots and listed tasks correspond one to one. */
    ghost predicate Paired()
      requires processes.Length == MAX_PROCESSES
      reads processes, scheduler, set p | p in processes[..], set t | t in scheduler.tasks
    {
      && (forall i :: 0 <= i < MAX_PROCESSES ==> SlotOk(i))
      && (forall k :: 0 <= k < |scheduler.tasks| ==> TaskOk(k))
    }

    ghost predicate Valid()
      reads processes, scheduler, set p | p in processes[..], set t | t in scheduler.tasks
    {
      processes.Length == MAX_PROCESSES && scheduler.Valid() && Paired()
    }

    /** process_get_free_slot. */
    method GetFreeSlot() returns (slot: int)
      requires processes.Length == MAX_PROCESSES
      ensures slot == -ENOMEM || 0 <= slot < MAX_PROCESSES
      ensures slot >= 0 ==> processes[slot] == null
      ensures forall i :: 0 <= i < MAX_PROCESSES && (slot >= 0 ==> i < slot) ==> processes[i] != null
    {
      var i := 0;
      while i < MAX_PROCESSES
        invariant 0 <= i <= MAX_PROCESSES && forall k :: 0 <= k < i ==> processes[k] != null
      {
        if processes[i] == null {
          return i;
        }
        i := i + 1;
      }
      return -ENOMEM;
    }

    /** make_new_task, given whether there is memory for it: a new listed task of the process, or nothing. */
    method MakeNewTask(proc: Process, hasMemory: bool) returns (res: int, task: Task?)
      requires scheduler.Valid()
      modifies scheduler, scheduler.tail
      ensures scheduler.Valid()
      ensures hasMemory ==> res == 0 && task != null && fresh(task) && task.proc == proc
                            && scheduler.tasks == old(scheduler.tasks) + [task]
                            && scheduler.current == if old(scheduler.tasks) == [] then task else old(scheduler.current)
      ensures !hasMemory ==> res == -ENOMEM && scheduler.tasks == old(scheduler.tasks)
                             && scheduler.current == old(scheduler.current)
      ensures forall t :: t in old(scheduler.tasks) ==> t.proc == old(t.proc)
    {
      if !hasMemory {
        return -ENOMEM, null;
      }
      task := new Task(proc);
      scheduler.Append(task);
      res := 0;
    }

    /** release_task of the task that was listed last takes it off the list again. */
    method ReleaseLast(task: Task)
      requires scheduler.Valid() && scheduler.tasks != [] && scheduler.tail == task
      modifies scheduler, task.prev
      ensures scheduler.Valid() && scheduler.tasks == old(scheduler.tasks[..|scheduler.tasks| - 1])
      ensures old(scheduler.current) != task ==> scheduler.current == old(scheduler.current)
      ensures forall t :: t in old(scheduler.tasks) ==> t.proc == old(t.proc)
    {
      scheduler.Remove(task, |scheduler.tasks| - 1);
    }

    /** The new task of a process, mapped, or no trace of it in the list. */
    method StartTask(p: Process, o: Outcomes) returns (res: int)
      requires scheduler.Valid()
      modifies scheduler, scheduler.tail, p
      ensures scheduler.Valid() && p.id == old(p.id)
      ensures res == if !o.taskAllocated then -ENOMEM else o.mapped
      ensures res < 0 ==> scheduler.tasks == old(scheduler.tasks) && scheduler.current == old(scheduler.current)
      ensures res >= 0 ==> p.task != null && fresh(p.task) && p.task.proc == p
                           && scheduler.tasks == old(scheduler.tasks) + [p.task]
                           && scheduler.current == if old(scheduler.tasks) == [] then p.task else old(scheduler.current)
      ensures forall t :: t in old(scheduler.tasks) ==> t.proc == old(t.proc)
    {
      var task;
      res, task := MakeNewTask(p, o.taskAllocated);
      if res < 0 {
        return;
      }
      p.task := task;
      res := o.mapped;
      if res < 0 {
        assert scheduler.tasks[|scheduler.tasks| - 1] == task && scheduler.PrevIs(|scheduler.tasks| - 1);
        ReleaseLast(task);
      }
    }

    /** process_load_for_slot. */
    method LoadForSlot(slot: nat, o: Outcomes) returns (res: int, process: Process?)
      requires Valid() && slot < MAX_PROCESSES
      modifies processes, scheduler, scheduler.tail
      ensures Valid()
      ensures res == if old(processes[slot]) != null then -3 else if o.Succeed() then o.mapped else o.FirstError()
      ensures res < 0 ==> process == null && processes[..] == old(processes[..])
                          && scheduler.tasks == old(scheduler.tasks) && scheduler.current == old(scheduler.current)
      ensures res >= 0 ==> process != null && fresh(process) && process.task != null && fresh(process.task)
                           && process.id == slot && processes[..] == old(processes[..])[slot := process]
                           && scheduler.tasks == old(scheduler.tasks) + [process.task]
                           && scheduler.current == if old(scheduler.tasks) == [] then process.task else old(scheduler.current)
    {
      process := null;
      if processes[slot] != null {
        return -ESRCH, null;
      }
      if !o.processAllocated {
        return -ENOMEM, null;
      }
      var p := new Process();
      if o.loaded < 0 {
        return o.loaded, null;
      }
      if !o.stackAllocated {
        return -ENOMEM, null;
      }
      p.id := slot;
      res := StartTask(p, o);
      if res < 0 {
        StillPaired();
        return;
      }
      processes[slot] := p;
      process := p;
      PairedWith(slot, p);
    }

    /** Nothing that pairs slots and tasks has changed. */
    twostate lemma StillPaired()
      requires old(Valid()) && scheduler.tasks == old(scheduler.tasks)
      requires processes[..] == old(processes[..])
      requires forall t :: t in old(scheduler.tasks) ==> t.proc == old(t.proc)
      requires forall p :: p in old(processes[..]) && p != null ==> p.id == old(p.id) && p.task == old(p.task)
      ensures Paired()
    {
      forall i | 0 <= i < MAX_PROCESSES ensures SlotOk(i) {
        assert old(SlotOk(i)) && processes[i] == processes[..][i] && processes[i] == old(processes[i]);
      }
      forall k | 0 <= k < |scheduler.tasks| ensures TaskOk(k) {
        assert old(TaskOk(k));
      }
    }

    /** A new process in a free slot and its task at the end of the list make one more pair. */
    twostate lemma PairedWith(slot: nat, new p: Process)
      requires old(Valid()) && slot < MAX_PROCESSES && old(processes[slot]) == null
      requires p.id == slot && p.task != null && p.task.proc == p
      requires processes[..] == old(processes[..])[slot := p]
      requires scheduler.tasks == old(scheduler.tasks) + [p.task]
      requires forall t :: t in old(scheduler.tasks) ==> t.proc == old(t.proc)
      requires forall q :: q in old(processes[..]) && q != null ==> q.id == old(q.id) && q.task == old(q.task)
      ensures Paired()
    {
      forall i | 0 <= i < MAX_PROCESSES ensures SlotOk(i) {
        assert processes[i] == processes[..][i];
        if i != slot {
          assert old(SlotOk(i)) && processes[i] == old(processes[i]);
        }
      }
      forall k | 0 <= k < |scheduler.tasks| ensures TaskOk(k) {
        var n := |old(scheduler.tasks)|;
        if k < n {
          assert old(TaskOk(k));
          var t := old(scheduler.tasks)[k];
          var j :| 0 <= j < MAX_PROCESSES && old(processes[..])[j] == t.proc;
          assert processes[..][j] == t.proc;
        } else {
          assert processes[..][slot] == p;
        }
      }
    }

    /** load_process: the lowest free slot is filled, or everything stays as it was. */
    method LoadProcess(o: Outcomes) returns (res: int, process: Process?)
      requires Valid()
      modifies processes, scheduler, scheduler.tail
      ensures Valid()
      ensures res < 0 ==> process == null && processes[..] == old(processes[..])
                          && scheduler.tasks == old(scheduler.tasks) && scheduler.current == old(scheduler.current)
      ensures res >= 0 <==> o.Succeed() && null in old(processes[..])
      ensures res == if null !in old(processes[..]) then -12 else if o.Succeed() then o.mapped else o.FirstError()
      ensures res >= 0 ==> process != null && process.task != null
                           && 0 <= process.id < MAX_PROCESSES
                           && processes[..] == old(processes[..])[process.id := process]
                           && scheduler.tasks == old(scheduler.tasks) + [process.task]
                           && scheduler.current == (if old(scheduler.tasks) == [] then process.task else old(scheduler.current))
                           && old(processes[..])[process.id] == null
                           && forall i :: 0 <= i < process.id ==> old(processes[..])[i] != null
    {
      var slot := GetFreeSlot();
      assert forall i :: 0 <= i < MAX_PROCESSES ==> processes[..][i] == processes[i];
      if slot < 0 {
        return slot, null;
      }
      res, process := LoadForSlot(slot, o);
    }
  }
}
