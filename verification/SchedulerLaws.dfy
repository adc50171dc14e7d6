/** Safety of the scheduler over every run, and how long a ready task waits. */
module SchedulerLaws {
  import opened SchedulerSpec

  // ---------- pigeonhole: a push never meets a full queue ----------

  ghost function Elements(q: seq<nat>): (s: set<nat>)
    ensures forall t :: t in s <==> t in q
  {
    set t | t in q
  }

  ghost function Below(n: nat): (s: set<nat>)
    ensures |s| == n && forall t: nat :: t in s <==> t < n
  {
    if n == 0 then {} else Below(n - 1) + {n - 1}
  }

  lemma {:induction false} DistinctSize(q: seq<nat>)
    requires NoDuplicates(q)
    ensures |Elements(q)| == |q|
    decreases |q|
  {
    if q == [] {
      assert Elements(q) == {};
    } else {
      var n := |q| - 1;
      DistinctSize(q[..n]);
      assert Elements(q) == Elements(q[..n]) + {q[n]};
    }
  }

  lemma SubsetSize(a: set<nat>, b: set<nat>)
    requires a <= b
    ensures |a| <= |b|
  {
    if a != b {
      assert b == a + (b - a);
    }
  }

  /** A queue of distinct pool slots that misses one slot has room for it. */
  lemma Room(q: seq<nat>, t: nat)
    requires NoDuplicates(q) && t < MAX_TASKS && t !in q && forall u :: u in q ==> u < MAX_TASKS
    ensures |q| < MAX_TASKS
  {
    var a, b := Elements(q), Below(MAX_TASKS);
    DistinctSize(q);
    assert a + {t} <= b && t !in a;
    hide Elements, Below, NoDuplicates;
    OneMore(a, t);
    SubsetSize(a + {t}, b);
  }

  lemma OneMore(a: set<nat>, t: nat)
    requires t !in a
    ensures |a + {t}| == |a| + 1
  {
  }

  // ---------- perform_scheduling ----------

  /** The invariant as it stands when perform_scheduling is entered: the current task may have been
      blocked, terminated or forgotten, but then it is neither idle nor queued. */
  ghost predicate Entering(s: State) {
    && Shaped(s)
    && (forall p :: 0 <= p < LEVELS ==> QueueOk(s, p))
    && (forall t :: 0 <= t < MAX_TASKS && s.pool[t].Used() && s.pool[t].status == Ready ==> Queued(s, t))
    && (forall t :: 0 <= t < MAX_TASKS && s.pool[t].Used() && s.pool[t].status == Running ==> s.current == Somebody(t))
    && (s.current.Somebody? ==> var c := s.current.task;
                                s.pool[c].Used() && s.pool[c].status != Ready
                                && (s.pool[c].status != Running ==> c != s.idle && !Queued(s, c)))
    && s.pool[s.idle].Used() && s.pool[s.idle].priority == 0
    && (s.pool[s.idle].status == Ready || s.pool[s.idle].status == Running)
  }

  /** The task that is dispatched: a queued one at the front of its queue, or idle when nothing is queued. */
  lemma NextFacts(s: State)
    requires Entering(s)
    ensures var t := Next(s);
            && t < MAX_TASKS && s.pool[t].Used() && s.pool[t].priority < LEVELS
            && (Top(s.queues, 0) < LEVELS ==> s.queues[s.pool[t].priority] != [] && s.queues[s.pool[t].priority][0] == t
                                              && Popped(s.queues) == s.queues[s.pool[t].priority := s.queues[s.pool[t].priority][1..]])
            && (Top(s.queues, 0) == LEVELS ==> t == s.idle && Popped(s.queues) == s.queues && s.current == Somebody(s.idle)
                                               && forall p :: 0 <= p < LEVELS ==> s.queues[p] == [])
            && (s.current == Somebody(t) ==> t == s.idle)
            && (s.current != Somebody(t) ==> s.pool[t].status == Ready)
  {
    var p := Top(s.queues, 0);
    if p < LEVELS {
      assert QueueOk(s, p);
      assert s.queues[p][0] == Next(s);
    } else {
      assert !Queued(s, s.idle);
    }
  }

  /** Queue p holds distinct ready tasks of its own level. */
  ghost predicate Clean(pool: seq<Task>, q: seq<nat>, p: nat)
    requires |pool| == MAX_TASKS
  {
    NoDuplicates(q)
    && forall i :: 0 <= i < |q| ==> q[i] < MAX_TASKS && pool[q[i]].Used() && pool[q[i]].priority == p && pool[q[i]].status == Ready
  }

  /** After the pop every queue is clean and does not hold the popped task. */
  lemma PoppedClean(s: State)
    requires Entering(s)
    ensures forall p :: 0 <= p < LEVELS ==> Clean(s.pool, Popped(s.queues)[p], p) && Next(s) !in Popped(s.queues)[p]
    ensures forall t :: 0 <= t < MAX_TASKS && s.pool[t].Used() && s.pool[t].status == Ready && t != Next(s) ==>
                          t in Popped(s.queues)[s.pool[t].priority]
  {
    NextFacts(s);
    var qs, t := Popped(s.queues), Next(s);
    forall p | 0 <= p < LEVELS ensures Clean(s.pool, qs[p], p) && t !in qs[p] {
      assert QueueOk(s, p);
      assert QueueOk(s, 0);
    }
    forall u | 0 <= u < MAX_TASKS && s.pool[u].Used() && s.pool[u].status == Ready && u != t
      ensures u in qs[s.pool[u].priority]
    {
      assert Queued(s, u);
    }
  }

  /** Pushing a task that has just been made ready onto clean queues drops nothing. */
  lemma PushClean(pool: seq<Task>, qs: Queues, c: nat)
    requires |pool| == MAX_TASKS && |qs| == LEVELS && c < MAX_TASKS
    requires pool[c].Used() && pool[c].status == Ready && pool[c].priority < LEVELS
    requires forall p :: 0 <= p < LEVELS ==> Clean(pool, qs[p], p) && c !in qs[p]
    ensures var r := Push(qs, pool[c].priority, c);
            && r == qs[pool[c].priority := qs[pool[c].priority] + [c]]
            && forall p :: 0 <= p < LEVELS ==> Clean(pool, r[p], p)
  {
    var q := qs[pool[c].priority];
    assert Clean(pool, q, pool[c].priority);
    Room(q, c);
  }

  lemma CleanElsewhere(pool: seq<Task>, pool': seq<Task>, q: seq<nat>, p: nat, t: nat)
    requires |pool| == MAX_TASKS == |pool'| && Clean(pool, q, p) && t !in q
    requires forall u :: 0 <= u < MAX_TASKS && u != t ==> pool'[u] == pool[u]
    ensures Clean(pool', q, p)
  {
    forall i | 0 <= i < |q| ensures pool'[q[i]] == pool[q[i]] { assert q[i] in q; }
  }

  /** The invariant in a state whose queues are clean. */
  lemma CleanInv(s: State)
    requires Shaped(s) && s.current.Somebody?
    requires forall p :: 0 <= p < LEVELS ==> Clean(s.pool, s.queues[p], p)
    requires forall t :: 0 <= t < MAX_TASKS && s.pool[t].Used() && s.pool[t].status == Ready ==> Queued(s, t)
    requires s.pool[s.current.task].Used()
    requires forall t :: 0 <= t < MAX_TASKS && s.pool[t].Used() ==> (s.pool[t].status == Running <==> s.current == Somebody(t))
    requires s.pool[s.idle].Used() && s.pool[s.idle].priority == 0
    requires s.pool[s.idle].status == Ready || s.pool[s.idle].status == Running
    ensures Inv(s) && Booted(s)
  {
    forall p | 0 <= p < LEVELS ensures QueueOk(s, p) { assert Clean(s.pool, s.queues[p], p); }
    assert Clean(s.pool, s.queues[0], 0);
  }

  /** perform_scheduling restores the invariant, ends the boot phase, and runs the dispatched task. */
  lemma ScheduleKeeps(s: State)
    requires Entering(s)
    ensures Inv(Schedule(s)) && Booted(Schedule(s)) && Schedule(s).current == Somebody(Next(s))
    ensures Schedule(s).idle == s.idle
    ensures forall p :: 0 <= p < LEVELS ==> Popped(s.queues)[p] <= Schedule(s).queues[p]
  {
    hide Clean, Popped, Next, QueueOk;
    NextFacts(s);
    PoppedClean(s);
    var t, qs, r := Next(s), Popped(s.queues), Schedule(s);
    if s.current == Somebody(t) {
      forall p | 0 <= p < LEVELS ensures Clean(r.pool, qs[p], p) { CleanElsewhere(s.pool, r.pool, qs[p], p, t); }
    } else {
      var c := s.current;
      if c.Somebody? && s.pool[c.task].status == Running {
        var mid := s.pool[c.task := s.pool[c.task].(status := Ready)];
        forall p | 0 <= p < LEVELS ensures Clean(mid, qs[p], p) && c.task !in qs[p] {
          NotRunning(s.pool, qs[p], p, c.task);
          CleanElsewhere(s.pool, mid, qs[p], p, c.task);
        }
        PushClean(mid, qs, c.task);
        forall p | 0 <= p < LEVELS ensures Clean(r.pool, r.queues[p], p) {
          CleanElsewhere(mid, r.pool, r.queues[p], p, t);
        }
      } else {
        forall p | 0 <= p < LEVELS ensures Clean(r.pool, qs[p], p) { CleanElsewhere(s.pool, r.pool, qs[p], p, t); }
      }
    }
    CleanShaped(r);
    CleanInv(r);
  }

  lemma NotRunning(pool: seq<Task>, q: seq<nat>, p: nat, t: nat)
    requires |pool| == MAX_TASKS && t < MAX_TASKS && Clean(pool, q, p) && pool[t].status == Running
    ensures t !in q
  {
  }

  lemma CleanShaped(s: State)
    requires |s.pool| == MAX_TASKS && |s.queues| == LEVELS && s.idle < MAX_TASKS
    requires s.current.Somebody? && s.current.task < MAX_TASKS
    requires forall t :: 0 <= t < MAX_TASKS ==> s.pool[t].priority < LEVELS
    requires forall p :: 0 <= p < LEVELS ==> Clean(s.pool, s.queues[p], p)
    ensures Shaped(s)
  {
    forall p | 0 <= p < LEVELS ensures forall i :: 0 <= i < |s.queues[p]| ==> s.queues[p][i] < MAX_TASKS {
      assert Clean(s.pool, s.queues[p], p);
    }
  }

  // ---------- steps ----------

  /** The uses that keep the invariant: the idle task is never blocked or terminated,
      and no task is terminated while it waits in a queue. */
  predicate Legal(s: State, op: Op)
    requires Shaped(s) && s.current.Somebody?
  {
    && Callable(s, op)
    && (op == Block ==> s.current.task != s.idle)
    && (op.Terminate? ==> op.task != s.idle && s.pool[op.task].status != Ready)
  }

  lemma InvEntering(s: State)
    requires Inv(s)
    ensures Entering(s)
  {
  }

  /** In the invariant only ready tasks are queued, apart from the idle task before the first scheduling. */
  lemma QueuedReady(s: State, p: nat, t: nat)
    requires Inv(s) && p < LEVELS && t in s.queues[p]
    ensures t < MAX_TASKS && s.pool[t].Used() && s.pool[t].priority == p
    ensures s.pool[t].status == Ready || (s.current == Somebody(t) && t == s.idle && p == 0 && s.queues[0][0] == t)
  {
    assert QueueOk(s, p);
  }

  /** Changing the status of a task that is not queued, to one that is not ready. */
  lemma SetStatusEntering(s: State, t: nat, status: Status)
    requires Inv(s) && t < MAX_TASKS && t != s.idle && s.pool[t].Used() && s.pool[t].status != Ready
    requires status == Blocked || status == Terminated
    ensures var r := SetStatus(s, t, status);
            && (forall p :: 0 <= p < LEVELS ==> QueueOk(r, p))
            && (s.current == Somebody(t) ==> Entering(r) && Entering(r.(current := Nobody)))
            && (s.current != Somebody(t) ==> Inv(r))
  {
    var r := SetStatus(s, t, status);
    forall p | 0 <= p < LEVELS
      ensures t !in s.queues[p] && QueueOk(r, p) && (s.current == Somebody(t) ==> QueueOk(r.(current := Nobody), p))
    {
      if t in s.queues[p] { QueuedReady(s, p, t); }
      assert QueueOk(s, p);
    }
    forall u | 0 <= u < MAX_TASKS && r.pool[u].Used() && r.pool[u].status == Ready ensures Queued(r, u) {
      assert Queued(s, u);
    }
  }

  /** A task that becomes ready, in an old slot or a new one, joins the back of its queue and nothing is dropped. */
  lemma EnqueueKeeps(s: State, t: nat, task: Task, stacks: nat)
    requires Inv(s) && t < MAX_TASKS && t != s.idle && s.current != Somebody(t)
    requires task.Used() && task.status == Ready && task.priority < LEVELS
    requires forall p :: 0 <= p < LEVELS ==> t !in s.queues[p]
    ensures var r := s.(pool := s.pool[t := task], queues := Push(s.queues, task.priority, t), stacks := stacks);
            && Inv(r) && (Booted(s) ==> Booted(r))
            && r.queues == s.queues[task.priority := s.queues[task.priority] + [t]]
  {
    var level := task.priority;
    assert QueueOk(s, level);
    Room(s.queues[level], t);
    var r := s.(pool := s.pool[t := task], queues := Push(s.queues, level, t), stacks := stacks);
    forall p | 0 <= p < LEVELS ensures QueueOk(r, p) {
      assert QueueOk(s, p);
      EnqueueQueue(s, r, t, p);
    }
    forall u | 0 <= u < MAX_TASKS && r.pool[u].Used() && r.pool[u].status == Ready ensures Queued(r, u) {
      if u == t {
        assert r.queues[level][|s.queues[level]|] == t;
      } else {
        assert Queued(s, u);
        QueuedStays(s.queues, level, t, u, s.pool[u].priority);
      }
    }
    if Booted(s) {
      assert Queued(r, s.idle) <==> Queued(s, s.idle);
    }
  }

  lemma QueuedStays(qs: Queues, level: nat, t: nat, u: nat, p: nat)
    requires level < |qs| && p < |qs| && u in qs[p]
    ensures u in qs[level := qs[level] + [t]][p]
  {
  }

  lemma EnqueueQueue(s: State, r: State, t: nat, p: nat)
    requires Shaped(s) && Shaped(r) && p < LEVELS && t < MAX_TASKS && QueueOk(s, p) && t !in s.queues[p] && t != s.idle
    requires r.current == s.current && r.idle == s.idle
    requires forall u :: 0 <= u < MAX_TASKS && u != t ==> r.pool[u] == s.pool[u]
    requires r.pool[t].Used() && r.pool[t].status == Ready
    requires r.queues[p] == if p == r.pool[t].priority then s.queues[p] + [t] else s.queues[p]
    ensures QueueOk(r, p)
  {
  }

  /** A slot that is blocked, terminated or unused is in no queue. */
  lemma NotReadyNotQueued(s: State, t: nat)
    requires Inv(s) && t < MAX_TASKS && (s.pool[t].status == Blocked || s.pool[t].status == Terminated || !s.pool[t].Used())
    ensures forall p :: 0 <= p < LEVELS ==> t !in s.queues[p]
    ensures t != s.idle && s.current != Somebody(t)
  {
    forall p | 0 <= p < LEVELS ensures t !in s.queues[p] {
      if t in s.queues[p] { QueuedReady(s, p, t); }
    }
  }

  /** Every legal step keeps the invariant; once booted, always booted; and any step that schedules ends the boot phase. */
  lemma StepKeeps(s: State, op: Op)
    requires Inv(s) && Legal(s, op)
    ensures Inv(Step(s, op)) && Step(s, op).idle == s.idle
    ensures Booted(s) || Dispatches(s, op) ==> Booted(Step(s, op))
  {
    hide Inv, Entering, Schedule, Push, Booted, QueueOk;
    InvEntering(s);
    InvCurrent(s);
    var c := s.current.task;
    match op
    case Yield => ScheduleKeeps(s);
    case Tick =>
      var left := if s.pool[c].ticks > 0 then s.pool[c].ticks - 1 else 0;
      TickKeeps(s, left);
      if left == 0 { ScheduleKeeps(s.(pool := s.pool[c := s.pool[c].(ticks := left)])); }
    case Block =>
      SetStatusEntering(s, c, Blocked);
      ScheduleKeeps(SetStatus(s, c, Blocked));
    case Unblock(t) =>
      if s.pool[t].status == Blocked {
        NotReadyNotQueued(s, t);
        EnqueueKeeps(s, t, s.pool[t].(status := Ready), s.stacks);
      }
    case Terminate(t) =>
      SetStatusEntering(s, t, Terminated);
      var s' := SetStatus(s, t, Terminated);
      if t == c { ScheduleKeeps(s'.(current := Nobody)); } else { BootedStays(s, t, Terminated); }
    case New(p) =>
      var t := FreeSlot(s.pool, 0);
      if t < MAX_TASKS && s.stacks < MAX_TASKS {
        NotReadyNotQueued(s, t);
        EnqueueKeeps(s, t, Task(s.stacks + 1, Ready, p, TIME_SLICE), s.stacks + 1);
      }
  }

  lemma InvCurrent(s: State)
    requires Inv(s)
    ensures Shaped(s) && s.current.Somebody? && s.pool[s.current.task].Used() && s.pool[s.current.task].status == Running
  {
  }

  lemma TickKeeps(s: State, left: nat)
    requires Inv(s)
    ensures var c := s.current.task;
            var r := s.(pool := s.pool[c := s.pool[c].(ticks := left)]);
            Inv(r) && Entering(r) && (Booted(s) ==> Booted(r))
  {
    var c := s.current.task;
    var r := s.(pool := s.pool[c := s.pool[c].(ticks := left)]);
    forall p | 0 <= p < LEVELS ensures QueueOk(r, p) { assert QueueOk(s, p); }
    forall t | 0 <= t < MAX_TASKS && r.pool[t].Used() && r.pool[t].status == Ready ensures Queued(r, t) { assert Queued(s, t); }
  }

  lemma BootedStays(s: State, t: nat, status: Status)
    requires Shaped(s) && t < MAX_TASKS && t != s.idle
    ensures Booted(s) ==> Booted(SetStatus(s, t, status))
  {
  }

  lemma InitialInv()
    ensures Inv(Initial()) && Queued(Initial(), Initial().idle)
  {
    ZeroedShaped();
    var s := Initial();
    assert s.pool[0] == Task(1, Running, 0, TIME_SLICE) && s.idle == 0;
    assert s.queues[0] == [0];
    forall p | 0 <= p < LEVELS ensures QueueOk(s, p) {
      assert p > 0 ==> s.queues[p] == [];
    }
  }

  /** The states along a run of legal steps. */
  ghost predicate Runs(ss: seq<State>, ops: seq<Op>) {
    |ss| == |ops| + 1 && forall i :: 0 <= i < |ops| ==> Moves(ss[i], ops[i], ss[i + 1])
  }

  ghost predicate Moves(s: State, op: Op, s': State) {
    Shaped(s) && s.current.Somebody? && Legal(s, op) && s' == Step(s, op)
  }

  /** Every state of every run: each ready task is in exactly one queue exactly once, blocked and terminated tasks
      are in none, exactly the current task runs, and from the first scheduling on idle waits iff it does not run. */
  lemma {:induction false} RunInv(ss: seq<State>, ops: seq<Op>, n: nat)
    requires Runs(ss, ops) && n <= |ops| && Inv(ss[0])
    ensures Inv(ss[n]) && ss[n].idle == ss[0].idle
    ensures Booted(ss[0]) || Dispatched(ss, ops, n) > 0 ==> Booted(ss[n])
    decreases n
  {
    hide Inv, Booted, Legal, Step;
    if n > 0 {
      RunInv(ss, ops, n - 1);
      DispatchedNext(ss, ops, n);
      StepKeeps(ss[n - 1], ops[n - 1]);
    }
  }

  /** Counting: a task occurs once in its own queue when it is ready, and nowhere otherwise. */
  lemma QueuedExactlyOnce(s: State, t: nat)
    requires Inv(s) && t < MAX_TASKS && s.pool[t].Used() && t != s.idle
    ensures s.pool[t].status == Ready <==> exists p, i :: 0 <= p < LEVELS && 0 <= i < |s.queues[p]| && s.queues[p][i] == t
    ensures forall p, i, q, j | 0 <= p < LEVELS && 0 <= i < |s.queues[p]| && 0 <= q < LEVELS && 0 <= j < |s.queues[q]| ::
              s.queues[p][i] == t && s.queues[q][j] == t ==> p == q && i == j
  {
    if s.pool[t].status == Ready { assert Queued(s, t); }
    forall p, i, q, j | 0 <= p < LEVELS && 0 <= i < |s.queues[p]| && 0 <= q < LEVELS && 0 <= j < |s.queues[q]|
                        && s.queues[p][i] == t && s.queues[q][j] == t
      ensures p == q && i == j
    {
      QueuedReady(s, p, t);
      QueuedReady(s, q, t);
      assert QueueOk(s, p);
    }
    if p, i :| 0 <= p < LEVELS && 0 <= i < |s.queues[p]| && s.queues[p][i] == t { QueuedReady(s, p, t); }
  }

  // ---------- where the invariant ends ----------

  /** Blocking keeps the invariant exactly when the current task is not the idle task. */
  lemma BlockExact(s: State)
    requires Inv(s)
    ensures Inv(Step(s, Block)) <==> s.current.task != s.idle
  {
    if s.current.task != s.idle {
      StepKeeps(s, Block);
    } else {
      var m := SetStatus(s, s.idle, Blocked);
      IdleGone(m, Blocked);
    }
  }

  /** Scheduling never wakes an idle task that is blocked. */
  lemma IdleGone(m: State, status: Status)
    requires Shaped(m) && m.current == Somebody(m.idle) && m.pool[m.idle].status == Blocked
    ensures !Inv(Schedule(m))
  {
  }

  /** Terminating a task other than idle keeps the invariant exactly when the task is not waiting in a queue:
      the source leaves a queued task where it is, to be dispatched after its end. */
  lemma TerminateExact(s: State, t: nat)
    requires Inv(s) && t < MAX_TASKS && s.pool[t].Used() && t != s.idle
    ensures Inv(Step(s, Terminate(t))) <==> s.pool[t].status != Ready
  {
    if s.pool[t].status != Ready {
      StepKeeps(s, Terminate(t));
    } else {
      var r := Step(s, Terminate(t));
      assert Queued(s, t);
      var p := s.pool[t].priority;
      var i :| 0 <= i < |s.queues[p]| && s.queues[p][i] == t;
      assert !QueueOk(r, p);
    }
  }

  /** Terminating idle keeps the invariant exactly when idle runs and the scheduler picks it again, which wakes it. */
  lemma TerminateIdleExact(s: State)
    requires Inv(s)
    ensures Inv(Step(s, Terminate(s.idle))) <==> s.current == Somebody(s.idle) && Next(s) == s.idle
  {
    var t, r := s.idle, Step(s, Terminate(s.idle));
    InvCurrent(s);
    if s.current == Somebody(t) {
      var m := SetStatus(s, t, Terminated).(current := Nobody);
      SameQueues(s, m);
      NextBound(m);
      assert r == Switched(m.(queues := Popped(s.queues)), Next(s));
      if Next(s) == t {
        InvEntering(s);
        PoppedClean(s);
        hide Clean, Popped, Next;
        forall p | 0 <= p < LEVELS ensures Clean(r.pool, r.queues[p], p) { CleanElsewhere(s.pool, r.pool, r.queues[p], p, t); }
        CleanShaped(r);
        CleanInv(r);
      } else {
        assert r.pool[t].status == Terminated;
      }
    } else {
      assert r.pool[t].status == Terminated;
    }
  }

  // ---------- waiting ----------

  /** A step that schedules dispatches Next and pops exactly it; every other queue only grows at the back. */
  lemma DispatchStep(s: State, op: Op)
    requires Inv(s) && Legal(s, op) && Dispatches(s, op)
    ensures Step(s, op).current == Somebody(Next(s))
    ensures |Step(s, op).queues| == LEVELS == |Popped(s.queues)|
    ensures forall p :: 0 <= p < LEVELS ==> Popped(s.queues)[p] <= Step(s, op).queues[p]
  {
    hide Inv, Entering, Schedule, Push, Popped, Next, Top, Booted, QueueOk;
    InvEntering(s);
    InvCurrent(s);
    var c := s.current.task;
    match op
    case Yield => ScheduleKeeps(s);
    case Tick =>
      TickKeeps(s, 0);
      var m := s.(pool := s.pool[c := s.pool[c].(ticks := 0)]);
      SameQueues(s, m);
      ScheduleKeeps(m);
    case Block =>
      SetStatusEntering(s, c, Blocked);
      SameQueues(s, SetStatus(s, c, Blocked));
      ScheduleKeeps(SetStatus(s, c, Blocked));
    case Terminate(t) =>
      SetStatusEntering(s, t, Terminated);
      var m := SetStatus(s, t, Terminated).(current := Nobody);
      SameQueues(s, m);
      ScheduleKeeps(m);
  }

  lemma SameQueues(s: State, m: State)
    requires m.queues == s.queues && m.idle == s.idle
    ensures Next(m) == Next(s)
  {
  }

  /** A step that does not schedule leaves the current task, and every queue only grows at the back. */
  lemma QuietStep(s: State, op: Op)
    requires Inv(s) && Legal(s, op) && !Dispatches(s, op)
    ensures Step(s, op).current == s.current && |Step(s, op).queues| == LEVELS
    ensures forall p :: 0 <= p < LEVELS ==> s.queues[p] <= Step(s, op).queues[p]
  {
    InvCurrent(s);
  }

  /** How many of the first n steps reach perform_scheduling. */
  ghost function Dispatched(ss: seq<State>, ops: seq<Op>, n: nat): nat
    requires Runs(ss, ops) && n <= |ops|
  {
    if n == 0 then 0
    else
      assert Moves(ss[n - 1], ops[n - 1], ss[n]);
      Dispatched(ss, ops, n - 1) + if Dispatches(ss[n - 1], ops[n - 1]) then 1 else 0
  }

  lemma DispatchedNext(ss: seq<State>, ops: seq<Op>, n: nat)
    requires Runs(ss, ops) && 0 < n <= |ops|
    ensures Moves(ss[n - 1], ops[n - 1], ss[n])
    ensures Dispatched(ss, ops, n) == Dispatched(ss, ops, n - 1) + if Dispatches(ss[n - 1], ops[n - 1]) then 1 else 0
  {
    assert Moves(ss[n - 1], ops[n - 1], ss[n]);
  }

  lemma FifoStep(s: State, op: Op, k: nat, t: nat)
    requires Inv(s) && Legal(s, op) && k < |s.queues[0]| && s.queues[0][k] == t
    ensures var r := Step(s, op);
            && |r.queues| == LEVELS
            && (Dispatches(s, op) && k == 0 ==> r.current == Somebody(t))
            && (Dispatches(s, op) && k > 0 ==> k - 1 < |r.queues[0]| && r.queues[0][k - 1] == t)
            && (!Dispatches(s, op) ==> k < |r.queues[0]| && r.queues[0][k] == t)
  {
    InvCurrent(s);
    assert Callable(s, op);
    hide Inv, Step, Legal;
    if Dispatches(s, op) {
      DispatchStep(s, op);
      assert Top(s.queues, 0) == 0;
      assert Popped(s.queues)[0] == s.queues[0][1..];
    } else {
      QuietStep(s, op);
    }
  }

  /** Strict priority and FIFO: a task at position k of level 0 moves up by one with every scheduling call,
      whatever else happens, and the (k + 1)-th call dispatches it. */
  lemma {:induction false} LevelZeroWait(ss: seq<State>, ops: seq<Op>, n: nat, k: nat, t: nat)
    requires Runs(ss, ops) && n <= |ops| && Inv(ss[0]) && k < |ss[0].queues[0]| && ss[0].queues[0][k] == t
    ensures |ss[n].queues| == LEVELS
    ensures var d := Dispatched(ss, ops, n);
            d <= k ==> k - d < |ss[n].queues[0]| && ss[n].queues[0][k - d] == t
    ensures n > 0 && Dispatched(ss, ops, n - 1) == k && Dispatched(ss, ops, n) == k + 1 ==> ss[n].current == Somebody(t)
    decreases n
  {
    hide Inv, Booted, Legal, Step, Dispatches;
    RunInv(ss, ops, n);
    InvCurrent(ss[n]);
    if n > 0 {
      LevelZeroWait(ss, ops, n - 1, k, t);
      RunInv(ss, ops, n - 1);
      assert Moves(ss[n - 1], ops[n - 1], ss[n]);
      var d := Dispatched(ss, ops, n - 1);
      if d <= k { FifoStep(ss[n - 1], ops[n - 1], k - d, t); }
    }
  }

  /** Apart from idle, every task has priority p. */
  ghost predicate OneLevel(s: State, p: nat)
    requires Shaped(s)
  {
    0 < p < LEVELS && forall t :: 0 <= t < MAX_TASKS && s.pool[t].Used() && t != s.idle ==> s.pool[t].priority == p
  }

  /** Scheduling calls until the task at position k of the shared level runs: idle, when it waits, goes first. */
  function Wait(s: State, k: nat): nat
    requires |s.queues| == LEVELS
  {
    2 * k + if s.queues[0] == [] then 1 else 2
  }

  /** With one shared level, queue 0 holds at most idle and the levels other than 0 and p are empty. */
  lemma OneLevelQueues(s: State, p: nat)
    requires Inv(s) && OneLevel(s, p)
    ensures forall q :: 0 < q < LEVELS && q != p ==> s.queues[q] == []
    ensures s.queues[0] == [] || s.queues[0] == [s.idle]
    ensures Booted(s) ==> (s.queues[0] == [] <==> s.current == Somebody(s.idle))
  {
    forall q | 0 < q < LEVELS && q != p ensures s.queues[q] == [] {
      if s.queues[q] != [] { QueuedReady(s, q, s.queues[q][0]); }
    }
    assert QueueOk(s, 0);
    forall i | 0 <= i < |s.queues[0]| ensures s.queues[0][i] == s.idle {
      QueuedReady(s, 0, s.queues[0][i]);
    }
    if |s.queues[0]| > 1 { FirstTwoDiffer(s.queues[0]); }
  }

  lemma FirstTwoDiffer(q: seq<nat>)
    requires NoDuplicates(q) && |q| > 1
    ensures q[0] != q[1]
  {
  }

  lemma OneLevelStays(s: State, op: Op, p: nat)
    requires Inv(s) && Legal(s, op) && OneLevel(s, p) && (op.New? ==> op.priority == p)
    ensures Inv(Step(s, op)) && OneLevel(Step(s, op), p)
  {
    StepKeeps(s, op);
    PrioritiesKept(s, op);
  }

  /** No step changes the priority of a used task or takes a slot out of use; only New puts one into use. */
  lemma PrioritiesKept(s: State, op: Op)
    requires Inv(s) && Legal(s, op)
    ensures var r := Step(s, op);
            && |r.pool| == MAX_TASKS
            && forall t :: 0 <= t < MAX_TASKS && r.pool[t].Used() ==>
                 (s.pool[t].Used() && r.pool[t].priority == s.pool[t].priority)
                 || (op.New? && r.pool[t].priority == op.priority)
  {
    InvCurrent(s);
  }

  lemma OneLevelStep(s: State, op: Op, p: nat, k: nat, t: nat)
    requires Inv(s) && Legal(s, op) && OneLevel(s, p) && (op.New? ==> op.priority == p)
    requires k < |s.queues[p]| && s.queues[p][k] == t
    ensures var r := Step(s, op);
            && |r.queues| == LEVELS
            && (Dispatches(s, op) && Wait(s, k) == 1 ==> r.current == Somebody(t))
            && (Dispatches(s, op) && Wait(s, k) > 1 ==>
                  var j := if s.queues[0] == [] then k - 1 else k;
                  0 <= j < |r.queues[p]| && r.queues[p][j] == t && Wait(r, j) == Wait(s, k) - 1)
            && (!Dispatches(s, op) ==> k < |r.queues[p]| && r.queues[p][k] == t && Wait(r, k) == Wait(s, k))
  {
    InvCurrent(s);
    assert Callable(s, op);
    hide Inv, Step, Legal, Booted;
    var r := Step(s, op);
    StepKeeps(s, op);
    OneLevelStays(s, op, p);
    OneLevelQueues(s, p);
    OneLevelQueues(r, p);
    if Dispatches(s, op) {
      DispatchStep(s, op);
      if s.queues[0] == [] {
        assert Top(s.queues, 0) == p;
        assert Popped(s.queues)[p] == s.queues[p][1..];
        TopIsFirst(s, p);
      } else {
        assert Top(s.queues, 0) == 0 && Next(s) == s.idle;
      }
    } else {
      QuietStep(s, op);
      QuietIdle(s, op, p);
    }
  }

  lemma TopIsFirst(s: State, p: nat)
    requires Inv(s) && OneLevel(s, p) && s.queues[p] != []
    ensures s.queues[p][0] != s.idle
  {
    QueuedReady(s, p, s.queues[p][0]);
  }

  /** Without scheduling, queue 0 stays as it is when no other task has level 0. */
  lemma QuietIdle(s: State, op: Op, p: nat)
    requires Inv(s) && Legal(s, op) && OneLevel(s, p) && (op.New? ==> op.priority == p) && !Dispatches(s, op)
    ensures Step(s, op).queues[0] == s.queues[0]
  {
    InvCurrent(s);
  }

  /** Task t of level p runs at the left-th scheduling call from here, or runs now. */
  ghost predicate Due(s: State, p: nat, t: nat, left: nat) {
    && |s.queues| == LEVELS && p < LEVELS
    && if left == 0 then s.current == Somebody(t)
       else exists j :: 0 <= j < |s.queues[p]| && s.queues[p][j] == t && Wait(s, j) == left
  }

  /** One step of the count-down. */
  lemma DueStep(s: State, op: Op, p: nat, t: nat, left: nat)
    requires Inv(s) && Legal(s, op) && OneLevel(s, p) && (op.New? ==> op.priority == p)
    requires Due(s, p, t, left) && (left == 0 ==> !Dispatches(s, op))
    ensures Due(Step(s, op), p, t, if Dispatches(s, op) then left - 1 else left)
  {
    if left == 0 {
      QuietStep(s, op);
    } else {
      var j :| 0 <= j < |s.queues[p]| && s.queues[p][j] == t && Wait(s, j) == left;
      OneLevelStep(s, op, p, j, t);
      hide Inv, Legal, Step, OneLevel, Dispatches, Wait;
    }
  }

  /** A task at position k of the shared level is due within 2(k + 1) scheduling calls. */
  lemma DueAtPosition(s: State, p: nat, k: nat, t: nat)
    requires Inv(s) && p < LEVELS && k < |s.queues[p]| && s.queues[p][k] == t
    ensures 1 <= Wait(s, k) <= 2 * (k + 1) && Due(s, p, t, Wait(s, k))
  {
    hide Inv;
    InvCurrent(s);
  }

  /** With every task but idle on one level p > 0, the count-down is exact: after d scheduling calls of a run
      a task that was due after w is due after w - d, so it runs at the w-th call, although idle takes every second turn. */
  lemma {:induction false} OneLevelWait(ss: seq<State>, ops: seq<Op>, n: nat, p: nat, t: nat, w: nat)
    requires Runs(ss, ops) && n <= |ops| && Inv(ss[0]) && OneLevel(ss[0], p) && Due(ss[0], p, t, w)
    requires forall i :: 0 <= i < |ops| && ops[i].New? ==> ops[i].priority == p
    ensures Inv(ss[n]) && OneLevel(ss[n], p)
    ensures Dispatched(ss, ops, n) <= w ==> Due(ss[n], p, t, w - Dispatched(ss, ops, n))
    decreases n
  {
    hide Inv, Legal, Step, OneLevel, Due, Dispatches, Dispatched, Shaped, Callable;
    if n == 0 {
      assert Dispatched(ss, ops, 0) == 0 by { DispatchedNone(ss, ops); }
    } else {
      OneLevelWait(ss, ops, n - 1, p, t, w);
      DispatchedNext(ss, ops, n);
      CountDown(ss[n - 1], ops[n - 1], p, t, w, Dispatched(ss, ops, n - 1), Dispatched(ss, ops, n));
    }
  }

  lemma DispatchedNone(ss: seq<State>, ops: seq<Op>)
    requires Runs(ss, ops)
    ensures Dispatched(ss, ops, 0) == 0
  {
  }

  lemma CountDown(s: State, op: Op, p: nat, t: nat, w: nat, d: nat, d': nat)
    requires Inv(s) && Legal(s, op) && OneLevel(s, p) && (op.New? ==> op.priority == p)
    requires d' == d + if Dispatches(s, op) then 1 else 0
    requires d <= w ==> Due(s, p, t, w - d)
    ensures Inv(Step(s, op)) && OneLevel(Step(s, op), p)
    ensures d' <= w ==> Due(Step(s, op), p, t, w - d')
  {
    hide Inv, Step, OneLevel, Due, Dispatches;
    OneLevelStays(s, op, p);
    if d' <= w { DueStep(s, op, p, t, w - d); }
  }
}
