/** What each entry point of the scheduler does to the tasks and the queues, spelled out,
    and how long a dispatched task keeps the processor. */
module SchedulerEffects {
  import opened SchedulerSpec
  import opened SchedulerLaws

  /** Task c gives up the processor and is left as gone. The front of the first non-empty level, or else idle, runs for 10 ticks;
      c goes to the back of its level when it stays ready, and nobody else is touched. */
  ghost predicate GivesUp(s: State, c: nat, gone: Task, r: State)
    requires Shaped(s) && c < MAX_TASKS && gone.priority < LEVELS
  {
    && |r.pool| == MAX_TASKS && |r.queues| == LEVELS && r.idle == s.idle && r.stacks == s.stacks
    && r.current.Somebody? && r.current.task < MAX_TASKS
    && var t, top := r.current.task, Top(s.queues, 0);
       && t == (if top == LEVELS then s.idle else s.queues[top][0])
       && r.pool[t].status == Running && r.pool[t].ticks == 10
       && r.pool[t].id == s.pool[t].id && r.pool[t].priority == s.pool[t].priority
       && (t != c ==> r.pool[c] == gone)
       && (forall u :: 0 <= u < MAX_TASKS && u != t && u != c ==> r.pool[u] == s.pool[u])
       && forall p :: 0 <= p < LEVELS ==>
            r.queues[p] == (if p == top then s.queues[p][1..] else s.queues[p])
                           + if t != c && gone.status == Ready && p == gone.priority then [c] else []
  }

  /** Nobody is dispatched: task t becomes task, and joins the back of its level when queued is set. */
  ghost predicate Becomes(s: State, t: nat, task: Task, queued: bool, r: State)
    requires Shaped(s) && t < MAX_TASKS && task.priority < LEVELS
  {
    && |r.pool| == MAX_TASKS && |r.queues| == LEVELS && r.idle == s.idle && r.current == s.current
    && r.pool[t] == task
    && (forall u :: 0 <= u < MAX_TASKS && u != t ==> r.pool[u] == s.pool[u])
    && forall p :: 0 <= p < LEVELS ==> r.queues[p] == s.queues[p] + if queued && p == task.priority then [t] else []
  }

  /** A slot of task_pool that create_new_task may take. */
  ghost predicate Reusable(s: State, t: int)
    requires |s.pool| == MAX_TASKS
  {
    0 <= t < MAX_TASKS && (s.pool[t].status == Terminated || s.pool[t].id == 0)
  }

  ghost predicate Effect(s: State, op: Op, r: State)
    requires Shaped(s) && s.current.Somebody? && Callable(s, op)
  {
    var c := s.current.task;
    var task := s.pool[c];
    match op
    case Yield => GivesUp(s, c, Task(task.id, Ready, task.priority, task.ticks), r)
    case Tick =>
      if task.ticks <= 1 then GivesUp(s, c, Task(task.id, Ready, task.priority, 0), r)
      else Becomes(s, c, Task(task.id, Running, task.priority, task.ticks - 1), false, r) && r.stacks == s.stacks
    case Block => r.current != s.current && GivesUp(s, c, Task(task.id, Blocked, task.priority, task.ticks), r)
    case Unblock(t) =>
      if s.pool[t].status == Blocked
      then Becomes(s, t, Task(s.pool[t].id, Ready, s.pool[t].priority, s.pool[t].ticks), true, r) && r.stacks == s.stacks
      else r == s
    case Terminate(t) =>
      var dead := Task(s.pool[t].id, Terminated, s.pool[t].priority, s.pool[t].ticks);
      if t == c then r.current != s.current && GivesUp(s, c, dead, r)
      else Becomes(s, t, dead, false, r) && r.stacks == s.stacks
    case New(p) =>
      if s.stacks < 256 && exists t :: Reusable(s, t)
      then r.stacks == s.stacks + 1
           && exists t: nat :: Reusable(s, t) && (forall u: nat :: u < t ==> !Reusable(s, u))
                               && Becomes(s, t, Task(s.stacks + 1, Ready, p, 10), true, r)
      else r == s
  }

  /** The pop takes the front of the first non-empty level. */
  lemma PoppedAt(qs: Queues, p: nat)
    requires p < |qs|
    ensures Popped(qs)[p] == if p == Top(qs, 0) then qs[p][1..] else qs[p]
  {
  }

  /** perform_scheduling entered with the queues of s, when the current task has been left as now. */
  ghost predicate Left(s: State, e: State, c: nat, gone: Task) {
    && Shaped(s) && Entering(e) && c < MAX_TASKS
    && e.queues == s.queues && e.idle == s.idle && e.stacks == s.stacks
    && (forall u :: 0 <= u < MAX_TASKS && u != c ==> e.pool[u] == s.pool[u])
    && e.pool[c].id == s.pool[c].id && e.pool[c].priority == s.pool[c].priority == gone.priority
    && if e.pool[c].status == Running then e.current == Somebody(c) && gone == e.pool[c].(status := Ready)
       else gone == e.pool[c] && gone.status != Ready && (e.current == Nobody || e.current == Somebody(c))
  }

  lemma ScheduleEffect(s: State, e: State, c: nat, gone: Task)
    requires Left(s, e, c, gone)
    ensures GivesUp(s, c, gone, Schedule(e))
    ensures gone.status != Ready ==> Schedule(e).current != Somebody(c)
  {
    NextFacts(e);
    NextBound(e);
    LeftPool(s, e, c, gone);
    LeftQueues(s, e, c, gone);
    forall p | 0 <= p < LEVELS ensures Popped(s.queues)[p] == if p == Top(s.queues, 0) then s.queues[p][1..] else s.queues[p] {
      PoppedAt(s.queues, p);
    }
    hide Entering, Schedule, Popped;
  }

  lemma LeftPool(s: State, e: State, c: nat, gone: Task)
    requires Left(s, e, c, gone)
    ensures var r, t := Schedule(e), Next(e);
            && r.idle == s.idle && r.stacks == s.stacks && r.current == Somebody(t) && |r.pool| == MAX_TASKS && t < MAX_TASKS
            && r.pool[t].status == Running && r.pool[t].ticks == 10
            && r.pool[t].id == s.pool[t].id && r.pool[t].priority == s.pool[t].priority
            && (t != c ==> r.pool[c] == gone)
            && (forall u :: 0 <= u < MAX_TASKS && u != t && u != c ==> r.pool[u] == s.pool[u])
  {
    NextFacts(e);
    NextBound(e);
    hide Popped, Next, Push, QueueOk, Queued;
  }

  lemma LeftQueues(s: State, e: State, c: nat, gone: Task)
    requires Left(s, e, c, gone)
    ensures var r, t := Schedule(e), Next(e);
            |r.queues| == LEVELS == |Popped(s.queues)|
            && forall p :: 0 <= p < LEVELS ==>
              r.queues[p] == Popped(s.queues)[p] + if t != c && gone.status == Ready && p == gone.priority then [c] else []
  {
    var t, qs := Next(e), Popped(e.queues);
    NextFacts(e);
    NextBound(e);
    if e.pool[c].status == Running && t != c {
      PoppedClean(e);
      var mid := e.pool[c := gone];
      hide Popped, Next, Push, QueueOk, Queued, Clean;
      forall p | 0 <= p < LEVELS ensures Clean(mid, qs[p], p) && c !in qs[p] {
        NotRunning(e.pool, qs[p], p, c);
        CleanElsewhere(e.pool, mid, qs[p], p, c);
      }
      PushClean(mid, qs, c);
      assert Schedule(e).queues == Push(qs, gone.priority, c);
    } else {
      assert Schedule(e).queues == qs;
    }
  }

  /** Every legal step has exactly that effect. */
  lemma StepEffect(s: State, op: Op)
    requires Inv(s) && Legal(s, op)
    ensures Effect(s, op, Step(s, op))
  {
    hide Inv, Entering, Schedule, Push, Booted, QueueOk, GivesUp, Becomes, Reusable, Queued;
    InvEntering(s);
    InvCurrent(s);
    StepKeeps(s, op);
    var c := s.current.task;
    match op
    case Yield => ScheduleEffect(s, s, c, s.pool[c].(status := Ready));
    case Tick =>
      TickKeeps(s, 0);
      if s.pool[c].ticks <= 1 {
        ScheduleEffect(s, s.(pool := s.pool[c := s.pool[c].(ticks := 0)]), c, s.pool[c].(status := Ready, ticks := 0));
      } else {
        TickEffect(s);
      }
    case Block =>
      SetStatusEntering(s, c, Blocked);
      ScheduleEffect(s, SetStatus(s, c, Blocked), c, s.pool[c].(status := Blocked));
    case Unblock(t) => UnblockEffect(s, t);
    case Terminate(t) => TerminateEffect(s, t);
    case New(p) => NewEffect(s, p);
  }

  lemma TickEffect(s: State)
    requires Inv(s) && s.pool[s.current.task].ticks > 1
    ensures Effect(s, Tick, Step(s, Tick))
  {
    InvCurrent(s);
    hide Inv;
  }

  lemma UnblockEffect(s: State, t: nat)
    requires Inv(s) && Legal(s, Unblock(t))
    ensures Effect(s, Unblock(t), Step(s, Unblock(t)))
  {
    InvCurrent(s);
    if s.pool[t].status == Blocked {
      NotReadyNotQueued(s, t);
      EnqueueKeeps(s, t, s.pool[t].(status := Ready), s.stacks);
      hide Inv;
    }
  }

  lemma TerminateEffect(s: State, t: nat)
    requires Inv(s) && Legal(s, Terminate(t))
    ensures Effect(s, Terminate(t), Step(s, Terminate(t)))
  {
    InvCurrent(s);
    var dead := SetStatus(s, t, Terminated);
    SetStatusEntering(s, t, Terminated);
    StepKeeps(s, Terminate(t));
    if s.current == Somebody(t) {
      ScheduleEffect(s, dead.(current := Nobody), t, dead.pool[t]);
    }
    hide Inv, Entering, Schedule, GivesUp;
  }

  lemma NewEffect(s: State, p: nat)
    requires Inv(s) && p < LEVELS
    ensures Effect(s, New(p), Step(s, New(p)))
  {
    InvCurrent(s);
    var t := FreeSlot(s.pool, 0);
    if t < MAX_TASKS && s.stacks < MAX_TASKS {
      NotReadyNotQueued(s, t);
      EnqueueKeeps(s, t, Task(s.stacks + 1, Ready, p, TIME_SLICE), s.stacks + 1);
      assert Reusable(s, t);
    }
    hide Inv;
  }

  // ---------- the time slice ----------

  /** How many of the first n calls are timer ticks. */
  function Ticks(ops: seq<Op>, n: nat): (k: nat)
    requires n <= |ops|
  {
    if n == 0 then 0 else Ticks(ops, n - 1) + if ops[n - 1].Tick? then 1 else 0
  }

  /** A call with which task c does not give up the processor by itself. */
  predicate Stays(c: nat, op: Op) { op != Yield && op != Block && op != Terminate(c) }

  lemma StaysStep(s: State, op: Op, c: nat)
    requires Inv(s) && Legal(s, op) && s.current == Somebody(c) && Stays(c, op) && (op == Tick ==> s.pool[c].ticks > 1)
    ensures var r := Step(s, op);
            Inv(r) && r.current == s.current && r.pool[c].ticks == s.pool[c].ticks - if op == Tick then 1 else 0
  {
    StepKeeps(s, op);
    StepEffect(s, op);
    InvCurrent(s);
    hide Inv, Legal, Step;
  }

  /** Whatever else happens, the current task keeps the processor until its ticks are used up, and the last of them dispatches. */
  lemma {:induction false} SliceExact(ss: seq<State>, ops: seq<Op>, n: nat, c: nat)
    requires Runs(ss, ops) && n <= |ops| && Inv(ss[0]) && ss[0].current == Somebody(c)
    requires forall i :: 0 <= i < n ==> Stays(c, ops[i])
    requires Ticks(ops, n) < ss[0].pool[c].ticks
    ensures Inv(ss[n]) && ss[n].current == Somebody(c)
    ensures ss[n].pool[c].ticks == ss[0].pool[c].ticks - Ticks(ops, n)
    ensures n < |ops| && ops[n] == Tick ==> (Dispatches(ss[n], Tick) <==> Ticks(ops, n) + 1 == ss[0].pool[c].ticks)
    decreases n
  {
    hide Inv, Legal, Step;
    if n > 0 {
      SliceExact(ss, ops, n - 1, c);
      assert Moves(ss[n - 1], ops[n - 1], ss[n]);
      StaysStep(ss[n - 1], ops[n - 1], c);
    }
    InvCurrent(ss[n]);
  }

  /** A dispatched task that does not give up the processor by itself keeps it for 9 ticks and is preempted by the 10th. */
  lemma TenthTick(ss: seq<State>, ops: seq<Op>, n: nat, c: nat)
    requires Runs(ss, ops) && 0 < n < |ops| && Inv(ss[0]) && Legal(ss[0], ops[0]) && Dispatches(ss[0], ops[0])
    requires ss[1].current == Somebody(c) && ops[n] == Tick
    requires forall i :: 0 < i < n ==> Stays(c, ops[i])
    requires Ticks(ops[1..], n - 1) <= 9
    ensures Inv(ss[n]) && ss[n].current == Somebody(c)
    ensures Dispatches(ss[n], Tick) <==> Ticks(ops[1..], n - 1) == 9
  {
    assert Moves(ss[0], ops[0], ss[1]);
    StepKeeps(ss[0], ops[0]);
    StepEffect(ss[0], ops[0]);
    assert ss[1].pool[c].ticks == 10;
    hide Inv, Legal, Step, Effect, Dispatches;
    assert Runs(ss[1..], ops[1..]) by {
      forall i | 0 <= i < |ops| - 1 ensures Moves(ss[1..][i], ops[1..][i], ss[1..][i + 1]) {
        assert Moves(ss[i + 1], ops[i + 1], ss[i + 2]);
      }
    }
    SliceExact(ss[1..], ops[1..], n - 1, c);
  }
}
