/** core/kernel/processes/scheduler.c on one CPU, as a state machine: one step per entry point.
    A task is its index in task_pool; queue p is the sequence of tasks in ready_queues[p], front first. */
module SchedulerSpec {
  const MAX_TASKS: nat := 256
  const LEVELS: nat := 32
  const TIME_SLICE: nat := 10

  datatype Status = Ready | Running | Blocked | Terminated
  // identifier 0 marks a slot of task_pool that was never used
  datatype Task = Task(id: nat, status: Status, priority: nat, ticks: nat) {
    predicate Used() { id != 0 }
  }

  type Queues = seq<seq<nat>>

  // current is None between terminate_task's write of NULL and the scheduling that follows.
  datatype Current = Nobody | Somebody(task: nat)

  datatype State = State(pool: seq<Task>, queues: Queues, current: Current, idle: nat, stacks: nat)

  predicate Shaped(s: State) {
    |s.pool| == MAX_TASKS && |s.queues| == LEVELS && s.idle < MAX_TASKS
    && (s.current.Somebody? ==> s.current.task < MAX_TASKS)
    && (forall p :: 0 <= p < LEVELS ==> forall i :: 0 <= i < |s.queues[p]| ==> s.queues[p][i] < MAX_TASKS)
    && (forall t :: 0 <= t < MAX_TASKS ==> s.pool[t].priority < LEVELS)
  }

  // ---------- steps ----------

  /** task_queue_push: a full queue drops the task. */
  function Push(qs: Queues, p: nat, t: nat): (r: Queues)
    requires p < |qs|
    ensures |r| == |qs|
  {
    if |qs[p]| >= MAX_TASKS then qs else qs[p := qs[p] + [t]]
  }

  /** The level that task_queue_pop_priority pops from, or |qs| when all are empty. */
  function Top(qs: Queues, from: nat): (p: nat)
    requires from <= |qs|
    ensures from <= p <= |qs|
    ensures p < |qs| ==> qs[p] != []
    ensures forall q :: from <= q < p ==> qs[q] == []
    decreases |qs| - from
  {
    if from == |qs| || qs[from] != [] then from else Top(qs, from + 1)
  }

  function Popped(qs: Queues): (r: Queues)
    ensures |r| == |qs|
  {
    var p := Top(qs, 0);
    if p == |qs| then qs else qs[p := qs[p][1..]]
  }

  function Next(s: State): nat {
    var p := Top(s.queues, 0);
    if p == |s.queues| then s.idle else s.queues[p][0]
  }

  /** perform_scheduling once the next task is chosen and popped. */
  function Switched(s: State, next: nat): (r: State)
    requires |s.pool| == MAX_TASKS && |s.queues| == LEVELS && next < MAX_TASKS
    requires s.current.Somebody? ==> s.current.task < MAX_TASKS && s.pool[s.current.task].priority < LEVELS
    ensures |r.pool| == |s.pool| && |r.queues| == |s.queues|
  {
    if s.current == Somebody(next) then
      s.(pool := s.pool[next := s.pool[next].(ticks := TIME_SLICE)])
    else
      var preempt := s.current.Somebody? && s.pool[s.current.task].status == Running;
      var pool := if preempt then s.pool[s.current.task := s.pool[s.current.task].(status := Ready)] else s.pool;
      var queues := if preempt then Push(s.queues, s.pool[s.current.task].priority, s.current.task) else s.queues;
      s.(queues := queues, current := Somebody(next), pool := pool[next := pool[next].(status := Running, ticks := TIME_SLICE)])
  }

  /** perform_scheduling */
  function Schedule(s: State): (r: State)
    requires Shaped(s)
    ensures |r.pool| == |s.pool| && |r.queues| == |s.queues|
  {
    NextBound(s);
    Switched(s.(queues := Popped(s.queues)), Next(s))
  }

  lemma NextBound(s: State)
    requires Shaped(s)
    ensures |s.pool| == MAX_TASKS && |s.queues| == LEVELS && Next(s) < MAX_TASKS
    ensures s.current.Somebody? ==> s.current.task < MAX_TASKS && s.pool[s.current.task].priority < LEVELS
    ensures Next(s) == if Top(s.queues, 0) == LEVELS then s.idle else s.queues[Top(s.queues, 0)][0]
  {
  }

  /** The first reusable slot of task_pool, or |pool|. */
  function FreeSlot(pool: seq<Task>, from: nat): (i: nat)
    requires from <= |pool|
    ensures from <= i <= |pool|
    ensures i < |pool| ==> pool[i].status == Terminated || !pool[i].Used()
    ensures forall j :: from <= j < i ==> pool[j].status != Terminated && pool[j].Used()
    decreases |pool| - from
  {
    if from == |pool| || pool[from].status == Terminated || !pool[from].Used() then from else FreeSlot(pool, from + 1)
  }

  /** create_new_task; identifiers count the stacks handed out, which are never given back. */
  function Create(s: State, priority: nat): (r: State)
    requires Shaped(s) && priority < LEVELS
  {
    var t := FreeSlot(s.pool, 0);
    if t == |s.pool| || s.stacks >= MAX_TASKS then s
    else s.(pool := s.pool[t := Task(s.stacks + 1, Ready, priority, TIME_SLICE)],
            queues := Push(s.queues, priority, t), stacks := s.stacks + 1)
  }

  function SetStatus(s: State, t: nat, status: Status): State
    requires t < |s.pool|
  {
    s.(pool := s.pool[t := s.pool[t].(status := status)])
  }

  datatype Op = Yield | Tick | Block | Unblock(task: nat) | Terminate(task: nat) | New(priority: nat)

  /** What the source leaves to its callers: existing tasks and priorities below 32. */
  predicate Callable(s: State, op: Op) {
    match op
    case Unblock(t) => t < MAX_TASKS && t < |s.pool| && s.pool[t].Used()
    case Terminate(t) => t < MAX_TASKS && t < |s.pool| && s.pool[t].Used()
    case New(p) => p < LEVELS
    case _ => true
  }

  /** Does the call reach perform_scheduling? */
  predicate Dispatches(s: State, op: Op)
    requires Shaped(s) && s.current.Somebody? && Callable(s, op)
  {
    match op
    case Yield => true
    case Tick => s.pool[s.current.task].ticks <= 1
    case Block => true
    case Terminate(t) => s.current == Somebody(t)
    case _ => false
  }

  function Step(s: State, op: Op): State
    requires Shaped(s) && s.current.Somebody? && Callable(s, op)
  {
    var c := s.current.task;
    match op
    case Yield => Schedule(s)
    case Tick =>
      var left := if s.pool[c].ticks > 0 then s.pool[c].ticks - 1 else 0;
      var s' := s.(pool := s.pool[c := s.pool[c].(ticks := left)]);
      if left == 0 then Schedule(s') else s'
    case Block => Schedule(SetStatus(s, c, Blocked))
    case Unblock(t) =>
      if s.pool[t].status != Blocked then s
      else SetStatus(s, t, Ready).(queues := Push(s.queues, s.pool[t].priority, t))
    case Terminate(t) =>
      var s' := SetStatus(s, t, Terminated);
      if t == c then Schedule(s'.(current := Nobody)) else s'
    case New(p) => Create(s, p)
  }

  /** A tick, by what it leaves of the slice. */
  lemma TickIs(s: State)
    requires Shaped(s) && s.current.Somebody?
    ensures var c, task := s.current.task, s.pool[s.current.task];
            && (task.ticks == 0 ==> Step(s, Tick) == Schedule(s))
            && (task.ticks == 1 ==> Step(s, Tick) == Schedule(s.(pool := s.pool[c := task.(ticks := 0)])))
            && (task.ticks > 1 ==> Step(s, Tick) == s.(pool := s.pool[c := task.(ticks := task.ticks - 1)]))
  {
    var c := s.current.task;
    if s.pool[c].ticks == 0 { assert s.pool[c := s.pool[c].(ticks := 0)] == s.pool; }
    hide Schedule;
  }

  // ---------- the invariant ----------

  ghost predicate NoDuplicates(q: seq<nat>) {
    forall i, j :: 0 <= i < j < |q| ==> q[i] != q[j]
  }

  ghost predicate Queued(s: State, t: nat)
    requires Shaped(s) && t < MAX_TASKS
  {
    t in s.queues[s.pool[t].priority]
  }

  /** Queue p holds only used tasks of priority p, each at most once; they are ready,
      except that until the first scheduling the running idle task is at the front of queue 0. */
  ghost predicate QueueOk(s: State, p: nat)
    requires Shaped(s) && p < LEVELS
  {
    var q := s.queues[p];
    && NoDuplicates(q)
    && forall i :: 0 <= i < |q| ==>
         var t := q[i];
         s.pool[t].Used() && s.pool[t].priority == p
         && (s.pool[t].status == Ready || (s.current == Somebody(t) && t == s.idle && i == 0))
  }

  ghost predicate Inv(s: State) {
    && Shaped(s)
    && s.current.Somebody?
    && (forall p :: 0 <= p < LEVELS ==> QueueOk(s, p))
    // every ready task waits in its queue
    && (forall t :: 0 <= t < MAX_TASKS && s.pool[t].Used() && s.pool[t].status == Ready ==> Queued(s, t))
    // exactly the current task runs
    && s.pool[s.current.task].Used()
    && (forall t :: 0 <= t < MAX_TASKS && s.pool[t].Used() ==> (s.pool[t].status == Running <==> s.current == Somebody(t)))
    // the idle task is always ready or running, at level 0
    && s.pool[s.idle].Used() && s.pool[s.idle].priority == 0
    && (s.pool[s.idle].status == Ready || s.pool[s.idle].status == Running)
  }

  /** The first scheduling is over: the idle task waits exactly when it does not run. */
  ghost predicate Booted(s: State)
    requires Shaped(s)
  {
    Queued(s, s.idle) <==> s.current != Somebody(s.idle)
  }

  // ---------- start ----------

  /** task_pool and the queues before initialize_scheduler. */
  function Zeroed(): State {
    State(seq(MAX_TASKS, i => Task(0, Ready, 0, 0)), seq(LEVELS, i => []), Nobody, 0, 0)
  }

  /** initialize_scheduler: the idle task is created, which queues it, and is also made current. */
  function Initial(): State
  {
    ZeroedShaped();
    var s := Create(Zeroed(), 0);
    var t := FreeSlot(Zeroed().pool, 0);
    s.(idle := t, current := Somebody(t), pool := s.pool[t := s.pool[t].(status := Running)])
  }

  lemma ZeroedShaped()
    ensures Shaped(Zeroed()) && FreeSlot(Zeroed().pool, 0) == 0
    ensures |Create(Zeroed(), 0).pool| == MAX_TASKS
  {
  }
}
