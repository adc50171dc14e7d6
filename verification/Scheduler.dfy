/** core/kernel/processes/scheduler.c in place: ring buffers, the task pool and the per-CPU fields,
    each entry point proved to take the step that SchedulerSpec gives it. */
module Scheduler {
  import opened SchedulerSpec

  /** The slot at offset i from start, around the end of the ring. */
  function Slot(start: nat, i: nat): (k: nat)
    requires start < MAX_TASKS && i <= MAX_TASKS
    ensures k == (start + i) % MAX_TASKS
  {
    if start + i < MAX_TASKS then start + i else start + i - MAX_TASKS
  }

  /** task_queue_t: a ring of 256 slots; -1 is NULL. */
  class TaskQueue {
    const list: array<int>
    var count: nat
    var start: nat
    var end: nat
    ghost var contents: seq<nat>    // the queued tasks, front first

    ghost predicate Valid()
      reads this, list
    {
      && list.Length == MAX_TASKS && |contents| == count <= MAX_TASKS && start < MAX_TASKS
      && end == Slot(start, count)
      && forall i :: 0 <= i < |contents| ==> list[Slot(start, i)] == contents[i]
    }

    /** initialize_task_queue */
    constructor ()
      ensures Valid() && contents == [] && fresh(list)
    {
      list := new int[MAX_TASKS](_ => -1);
      count, start, end, contents := 0, 0, 0, [];
    }

    /** task_queue_push */
    method Push(t: nat)
      requires Valid()
      modifies this`count, this`end, this`contents, list
      ensures Valid()
      ensures contents == if |old(contents)| < MAX_TASKS then old(contents) + [t] else old(contents)
    {
      if count >= MAX_TASKS { return; }
      list[end] := t;
      end := (end + 1) % MAX_TASKS;
      count := count + 1;
      contents := contents + [t];
    }

    /** task_queue_pop; -1 for an empty queue. */
    method Pop() returns (t: int)
      requires Valid()
      modifies this`count, this`start, this`contents, list
      ensures Valid()
      ensures old(contents) == [] ==> t == -1 && contents == []
      ensures old(contents) != [] ==> t == old(contents)[0] && contents == old(contents)[1..]
    {
      if count == 0 { return -1; }
      assert list[Slot(start, 0)] == contents[0];
      t := list[start];
      list[start] := -1;
      start := (start + 1) % MAX_TASKS;
      count := count - 1;
      contents := contents[1..];
      assert forall i :: 0 <= i < |contents| ==> contents[i] == old(contents)[i + 1];
    }
  }

  ghost predicate Apart(qs: seq<TaskQueue>, arrays: set<object>) {
    && (forall i :: 0 <= i < |qs| ==> qs[i].list in arrays)
    && (forall i, j :: 0 <= i < j < |qs| ==> qs[i] != qs[j] && qs[i].list != qs[j].list)
    && (forall q :: q in qs ==> q as object !in arrays)
  }

  method MakeQueues() returns (qs: seq<TaskQueue>, ghost arrays: set<object>)
    ensures |qs| == LEVELS && fresh(qs) && fresh(arrays) && Apart(qs, arrays)
    ensures forall i :: 0 <= i < LEVELS ==> qs[i].Valid() && qs[i].contents == []
  {
    qs, arrays := [], {};
    while |qs| < LEVELS
      invariant |qs| <= LEVELS && fresh(qs) && fresh(arrays) && Apart(qs, arrays)
      invariant forall i :: 0 <= i < |qs| ==> qs[i].Valid() && qs[i].contents == []
    {
      var q := new TaskQueue();
      qs, arrays := qs + [q], arrays + {q.list};
    }
  }

  /** One CPU's scheduler: task_pool, ready_queues, current_task, idle_task, next_task_id and stack_index. */
  class Scheduler {
    const pool: array<Task>
    const queues: seq<TaskQueue>
    var current: Current
    var idle: nat
    var nextTaskId: nat
    var stacks: nat

    ghost const lists: set<object>

    ghost predicate Valid()
      reads this, queues, lists
    {
      && |queues| == LEVELS && pool.Length == MAX_TASKS && nextTaskId == stacks + 1
      && Apart(queues, lists)
      && (forall i :: 0 <= i < LEVELS ==> queues[i].list in lists && queues[i].Valid())
      && pool as object !in lists && this as object !in lists
    }

    ghost function Levels(): (qs: Queues)
      reads queues
      ensures |qs| == |queues| && forall i :: 0 <= i < |queues| ==> qs[i] == queues[i].contents
    {
      seq(|queues|, i requires 0 <= i < |queues| reads queues => queues[i].contents)
    }

    ghost function Abs(): State
      reads this, pool, queues
    {
      State(pool[..], Levels(), current, idle, stacks)
    }

    /** initialize_scheduler */
    constructor ()
      ensures Valid() && Abs() == Initial()
    {
      pool := new Task[MAX_TASKS](_ => Task(0, Ready, 0, 0));
      var qs, arrays := MakeQueues();
      queues, lists := qs, arrays;
      current, idle, nextTaskId, stacks := Nobody, 0, 1, 0;
      new;
      assert Abs() == Zeroed();
      StartIdle();
    }

    /** Lines 48-53 of initialize_scheduler: the idle task is created, and made current as well. */
    method StartIdle()
      requires Valid() && Abs() == Zeroed()
      modifies this, pool, queues, lists
      ensures Valid() && Abs() == Initial()
    {
      hide Create, Valid, Zeroed;
      ZeroedShaped();
      var task := CreateNewTask(0);
      Install(task);
    }

    method Install(task: nat)
      requires Valid() && task < pool.Length
      modifies this`idle, this`current, pool
      ensures Valid() && Abs() == old(Abs()).(idle := task, current := Somebody(task),
                                              pool := old(pool[..])[task := old(pool[task]).(status := Running)])
    {
      idle := task;
      current := Somebody(task);
      pool[task] := pool[task].(status := Running);
      assert Levels() == old(Levels());
    }

    /** task_queue_push on level p. */
    method PushLevel(p: nat, t: nat)
      requires Valid() && p < LEVELS
      modifies queues, lists
      ensures Valid() && Levels() == Push(old(Levels()), p, t) && pool[..] == old(pool[..])
    {
      queues[p].Push(t);
    }

    /** task_queue_pop_priority; -1 when every queue is empty. */
    method PopPriority() returns (t: int)
      requires Valid()
      modifies queues, lists
      ensures Valid() && Levels() == Popped(old(Levels())) && pool[..] == old(pool[..])
      ensures var p := Top(old(Levels()), 0);
              t == if p == LEVELS then -1 else old(Levels())[p][0]
    {
      for p := 0 to LEVELS
        invariant Top(Levels(), 0) == Top(Levels(), p)
        invariant Valid() && Levels() == old(Levels())
      {
        if queues[p].count > 0 {
          t := queues[p].Pop();
          return;
        }
      }
      t := -1;
    }

    /** perform_scheduling, up to the context switch. */
    method PerformScheduling()
      requires Valid() && Shaped(Abs())
      modifies this`current, pool, queues, lists
      ensures Valid() && Abs() == Schedule(old(Abs()))
    {
      hide Valid, Top, Shaped, Popped, Push;
      NextBound(Abs());
      var popped := PopPriority();
      var next := if popped < 0 then idle else popped;
      SwitchTo(next);
    }

    /** perform_scheduling from the comparison with current_task on. */
    method SwitchTo(next: nat)
      requires Valid() && pool.Length == MAX_TASKS && |queues| == LEVELS && next < MAX_TASKS
      requires current.Somebody? ==> current.task < MAX_TASKS && pool[current.task].priority < LEVELS
      modifies this`current, pool, queues, lists
      ensures Valid() && Abs() == Switched(old(Abs()), next)
    {
      hide Valid, Push;
      if current == Somebody(next) {
        Touch(next, pool[next].(ticks := TIME_SLICE));
        return;
      }
      var oldTask := current;
      if oldTask.Somebody? && pool[oldTask.task].status == Running {
        Touch(oldTask.task, pool[oldTask.task].(status := Ready));
        PushLevel(pool[oldTask.task].priority, oldTask.task);
      }
      Resume(next);
    }

    method Touch(t: nat, task: Task)
      requires Valid() && t < pool.Length
      modifies pool
      ensures Valid() && Abs() == old(Abs()).(pool := old(pool[..])[t := task])
    {
      pool[t] := task;
      assert Levels() == old(Levels());
    }

    method Resume(next: nat)
      requires Valid() && next < pool.Length
      modifies this`current, pool
      ensures Valid() && current == Somebody(next)
      ensures var task := old(pool[next]).(status := Running, ticks := TIME_SLICE);
              Abs() == old(Abs()).(current := Somebody(next), pool := old(pool[..])[next := task])
    {
      current := Somebody(next);
      pool[next] := pool[next].(status := Running, ticks := TIME_SLICE);
      assert Levels() == old(Levels());
    }

    /** create_new_task; -1 is NULL. */
    method CreateNewTask(priority: nat) returns (task: int)
      requires Valid() && Shaped(Abs()) && priority < LEVELS
      modifies this`nextTaskId, this`stacks, pool, queues, lists
      ensures Valid() && Abs() == Create(old(Abs()), priority)
      ensures task == (if FreeSlot(old(pool[..]), 0) == MAX_TASKS || old(stacks) >= MAX_TASKS then -1 else FreeSlot(old(pool[..]), 0))
    {
      hide Push;
      var i := 0;
      while i < MAX_TASKS && pool[i].status != Terminated && pool[i].Used()
        invariant 0 <= i <= MAX_TASKS && FreeSlot(pool[..], 0) == FreeSlot(pool[..], i)
      {
        i := i + 1;
      }
      if i == MAX_TASKS { return -1; }
      if stacks >= MAX_TASKS { return -1; }
      StartTask(i, priority);
      task := i;
    }

    /** create_new_task from the identifier on, for slot i. */
    method StartTask(i: nat, priority: nat)
      requires Valid() && i < pool.Length && priority < LEVELS
      modifies this`nextTaskId, this`stacks, pool, queues, lists
      ensures Valid()
      ensures Abs() == old(Abs()).(pool := old(pool[..])[i := Task(old(stacks) + 1, Ready, priority, TIME_SLICE)],
                                   queues := Push(old(Levels()), priority, i), stacks := old(stacks) + 1)
    {
      hide Push;
      Touch(i, Task(nextTaskId, Ready, priority, TIME_SLICE));
      nextTaskId := nextTaskId + 1;
      stacks := stacks + 1;
      assert Levels() == old(Levels());
      PushLevel(priority, i);
    }

    /** yield_current_task */
    method YieldCurrentTask()
      requires Valid() && Shaped(Abs()) && current.Somebody?
      modifies this`current, pool, queues, lists
      ensures Valid() && Abs() == Step(old(Abs()), Yield)
    {
      PerformScheduling();
    }

    /** handle_scheduler_timer */
    method HandleSchedulerTimer()
      requires Valid() && Shaped(Abs()) && current.Somebody?
      modifies this`current, pool, queues, lists
      ensures Valid() && Abs() == Step(old(Abs()), Tick)
    {
      var c := current.task;
      assert pool.Length == MAX_TASKS;
      hide Valid, Schedule, Step;
      TickIs(Abs());
      if pool[c].ticks > 0 {
        Touch(c, pool[c].(ticks := pool[c].ticks - 1));
      }
      if pool[c].ticks == 0 { PerformScheduling(); }
    }

    method BlockCurrentTask()
      requires Valid() && Shaped(Abs()) && current.Somebody?
      modifies this`current, pool, queues, lists
      ensures Valid() && Abs() == Step(old(Abs()), Block)
    {
      var c := current.task;
      pool[c] := pool[c].(status := Blocked);
      PerformScheduling();
    }

    method UnblockTask(t: nat)
      requires Valid() && Shaped(Abs()) && current.Somebody? && Callable(Abs(), Unblock(t))
      modifies pool, queues, lists
      ensures Valid() && Abs() == Step(old(Abs()), Unblock(t))
    {
      if pool[t].status != Blocked { return; }
      pool[t] := pool[t].(status := Ready);
      PushLevel(pool[t].priority, t);
    }

    method TerminateTask(t: nat)
      requires Valid() && Shaped(Abs()) && current.Somebody? && Callable(Abs(), Terminate(t))
      modifies this`current, pool, queues, lists
      ensures Valid() && Abs() == Step(old(Abs()), Terminate(t))
    {
      Touch(t, pool[t].(status := Terminated));
      if current == Somebody(t) {
        Forget();
        hide Valid, Schedule;
        PerformScheduling();
      }
    }

    method Forget()
      requires Valid()
      modifies this`current
      ensures Valid() && Abs() == old(Abs()).(current := Nobody)
    {
      current := Nobody;
      assert Levels() == old(Levels());
    }
  }
}
