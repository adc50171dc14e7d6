/** How often each timer subscription fires over a run of ticks and further subscriptions. */
module TimerLaws {
  import opened Arith
  import opened Timer

  datatype State = State(table: seq<Sub>, now: nat, nextTag: nat)

  datatype Op = Tick | Add(event: Event)

  /** The contracts of Timer.HandleInterrupt (once started) and Timer.Subscribe. */
  function Step(s: State, op: Op): State {
    match op
    case Tick => State(AllAfter(s.table, s.now + 1), s.now + 1, s.nextTag)
    case Add(e) =>
      if e.handler == 0 || |s.table| >= MAX_SUBSCRIBERS then s
      else State(s.table + [Sub(s.nextTag, e.(next := s.now + e.interval))], s.now, s.nextTag + 1)
  }

  function Called(s: State, op: Op): seq<Sub> {
    if op == Tick then AllCalls(s.table, s.now + 1) else []
  }

  /** What Timer.HandleInterrupt ensures once the timer is initialized is a tick, and its calls are the tick's. */
  lemma TickIsStep(s: State, table': seq<Sub>, now': nat, calls: seq<Event>)
    requires now' == s.now + 1 && table' == AllAfter(s.table, now') && calls == EventsOf(AllCalls(s.table, now'))
    ensures State(table', now', s.nextTag) == Step(s, Tick) && calls == EventsOf(Called(s, Tick))
  {
  }

  /** What Timer.Subscribe ensures, with the event it makes of its arguments, is the addition of that event;
      a refused subscription changes nothing. */
  lemma SubscribeIsStep(s: State, table': seq<Sub>, nextTag': nat, id: int, e: Event)
    requires |s.table| <= MAX_SUBSCRIBERS && e.id == |s.table| + 1
    requires id == -1 <==> e.handler == 0 || |s.table| == MAX_SUBSCRIBERS
    requires id == -1 ==> table' == s.table && nextTag' == s.nextTag
    requires id != -1 ==> table' == s.table + [Sub(s.nextTag, e.(next := s.now + e.interval))] && nextTag' == s.nextTag + 1
    ensures State(table', s.now, nextTag') == Step(s, Add(e))
  {
  }

  function Run(s: State, ops: seq<Op>): State
    decreases |ops|
  {
    if ops == [] then s else Step(Run(s, ops[..|ops| - 1]), ops[|ops| - 1])
  }

  function Ticks(ops: seq<Op>): nat {
    if ops == [] then 0 else Ticks(ops[..|ops| - 1]) + if ops[|ops| - 1] == Tick then 1 else 0
  }

  /** How often the subscription with this tag is called during the run. */
  function Fired(s: State, ops: seq<Op>, tag: nat): nat
    decreases |ops|
  {
    if ops == [] then 0
    else Fired(s, ops[..|ops| - 1], tag) + |OfTag(Called(Run(s, ops[..|ops| - 1]), ops[|ops| - 1]), tag)|
  }

  // ---------- one tick ----------

  ghost predicate DueEntry(table: seq<Sub>, now: nat, s: Sub) { s in table && now >= s.event.next }

  lemma TaggedMore(a: seq<Sub>, b: seq<Sub>, tag: nat, nextTag: nat)
    requires Tagged(a, tag) && tag < nextTag && |b| <= 1 && (b != [] ==> b[0].tag == tag)
    ensures Tagged(a + b, nextTag)
  {
  }

  /** A tick calls exactly the due entries that have a handler, in the order of their subscription. */
  lemma {:induction false} CallsExact(table: seq<Sub>, now: nat, nextTag: nat)
    requires Tagged(table, nextTag)
    ensures Tagged(AllCalls(table, now), nextTag)
    ensures forall s :: s in AllCalls(table, now) <==> DueEntry(table, now, s) && s.event.handler != 0
    decreases |table|
  {
    if table != [] {
      var n := |table| - 1;
      var pre, last := AllCalls(table[..n], now), Calls(table[n], now);
      CallsExact(table[..n], now, table[n].tag);
      TaggedMore(pre, last, table[n].tag, nextTag);
      forall s ensures s in pre + last <==> DueEntry(table, now, s) && s.event.handler != 0 {
        assert s in table <==> s in table[..n] || s == table[n];
      }
    }
  }

  /** The entry s of the table after a tick comes from the entry u before it: not due and left alone, or due, recurring and moved. */
  ghost predicate ComesFrom(s: Sub, u: Sub, now: nat) {
    if now < u.event.next then s == u
    else u.event.recurring && s == Sub(u.tag, u.event.(next := now + u.event.interval))
  }

  /** A tick leaves exactly the entries that were not due, and the due recurring ones with their next time moved. */
  lemma {:induction false} AfterExact(table: seq<Sub>, now: nat, nextTag: nat)
    requires Tagged(table, nextTag)
    ensures Tagged(AllAfter(table, now), nextTag)
    ensures forall s :: s in AllAfter(table, now) <==> exists u :: u in table && ComesFrom(s, u, now)
    decreases |table|
  {
    if table != [] {
      var n := |table| - 1;
      var pre, last := AllAfter(table[..n], now), After(table[n], now);
      AfterExact(table[..n], now, table[n].tag);
      TaggedMore(pre, last, table[n].tag, nextTag);
      assert forall s :: s in last <==> ComesFrom(s, table[n], now);
      forall s ensures s in pre + last <==> exists u :: u in table && ComesFrom(s, u, now) {
        assert forall u :: u in table <==> u in table[..n] || u == table[n];
      }
    }
  }

  // ---------- one subscription at a time ----------

  function OfTag(subs: seq<Sub>, tag: nat): seq<Sub> {
    if subs == [] then []
    else OfTag(subs[..|subs| - 1], tag) + if subs[|subs| - 1].tag == tag then [subs[|subs| - 1]] else []
  }

  lemma {:induction false} OfTagConcat(a: seq<Sub>, b: seq<Sub>, tag: nat)
    ensures OfTag(a + b, tag) == OfTag(a, tag) + OfTag(b, tag)
    decreases |b|
  {
    if b == [] {
      assert a + b == a;
    } else {
      assert (a + b)[..|a + b| - 1] == a + b[..|b| - 1];
      OfTagConcat(a, b[..|b| - 1], tag);
    }
  }

  lemma OfTagNone(tag: nat)
    ensures OfTag([], tag) == []
  {
  }

  lemma OfTagOne(s: Sub, tag: nat)
    ensures OfTag([s], tag) == if s.tag == tag then [s] else []
  {
    assert [s][..0] == [];
  }

  lemma {:induction false} AfterConcat(a: seq<Sub>, b: seq<Sub>, now: nat)
    ensures AllAfter(a + b, now) == AllAfter(a, now) + AllAfter(b, now)
    decreases |b|
  {
    hide After;
    if b == [] {
      assert a + b == a;
    } else {
      assert (a + b)[..|a + b| - 1] == a + b[..|b| - 1];
      AfterConcat(a, b[..|b| - 1], now);
    }
  }

  lemma {:induction false} CallsConcat(a: seq<Sub>, b: seq<Sub>, now: nat)
    ensures AllCalls(a + b, now) == AllCalls(a, now) + AllCalls(b, now)
    decreases |b|
  {
    hide Calls;
    if b == [] {
      assert a + b == a;
    } else {
      assert (a + b)[..|a + b| - 1] == a + b[..|b| - 1];
      CallsConcat(a, b[..|b| - 1], now);
    }
  }

  lemma AllOne(s: Sub, now: nat)
    ensures AllAfter([s], now) == After(s, now) && AllCalls([s], now) == Calls(s, now)
  {
    assert [s][..0] == [];
  }

  /** Subscriptions do not disturb one another: what a tick does to one tag depends on that tag's entries alone. */
  lemma {:induction false} TickByTag(table: seq<Sub>, now: nat, tag: nat)
    ensures OfTag(AllAfter(table, now), tag) == AllAfter(OfTag(table, tag), now)
    ensures OfTag(AllCalls(table, now), tag) == AllCalls(OfTag(table, tag), now)
    decreases |table|
  {
    if table != [] {
      var pre, s := table[..|table| - 1], table[|table| - 1];
      TickByTag(pre, now, tag);
      OfTagConcat(AllAfter(pre, now), After(s, now), tag);
      OfTagConcat(AllCalls(pre, now), Calls(s, now), tag);
      OneByTag(s, now, tag);
      AfterConcat(OfTag(pre, tag), if s.tag == tag then [s] else [], now);
      CallsConcat(OfTag(pre, tag), if s.tag == tag then [s] else [], now);
    }
  }

  lemma OneByTag(s: Sub, now: nat, tag: nat)
    ensures var own := if s.tag == tag then [s] else [];
            && OfTag(After(s, now), tag) == AllAfter(own, now)
            && OfTag(Calls(s, now), tag) == AllCalls(own, now)
  {
    OfTagOne(s, tag);
    OfTagOne(s.(event := s.event.(next := now + s.event.interval)), tag);
    AllOne(s, now);
  }

  /** A step from a state where the tag is not the next one to be given out. */
  lemma StepByTag(s: State, op: Op, tag: nat)
    requires tag < s.nextTag
    ensures tag < Step(s, op).nextTag
    ensures OfTag(Step(s, op).table, tag) == if op == Tick then AllAfter(OfTag(s.table, tag), s.now + 1) else OfTag(s.table, tag)
    ensures OfTag(Called(s, op), tag) == if op == Tick then AllCalls(OfTag(s.table, tag), s.now + 1) else []
  {
    hide OfTag, AllAfter, AllCalls;
    OfTagNone(tag);
    match op
    case Tick => TickByTag(s.table, s.now + 1, tag);
    case Add(e) => AddByTag(s.table, Sub(s.nextTag, e.(next := s.now + e.interval)), tag);
  }

  lemma AddByTag(table: seq<Sub>, sub: Sub, tag: nat)
    requires tag != sub.tag
    ensures OfTag(table + [sub], tag) == OfTag(table, tag)
  {
    hide OfTag;
    OfTagConcat(table, [sub], tag);
    OfTagOne(sub, tag);
  }

  // ---------- firing counts ----------

  /** Where a recurring subscription stands after m ticks and f calls, when it was first due r ticks after start. */
  ghost predicate Stands(e: State, sub: Sub, start: nat, r: nat, m: nat, f: nat) {
    var k := sub.event.interval;
    && sub.tag < e.nextTag && e.now == start + m
    && OfTag(e.table, sub.tag) == [Armed(sub, start + r + Times(k, f))]
    && m < r + Times(k, f) && (f > 0 ==> r + Times(k, f - 1) <= m)
  }

  function Armed(sub: Sub, next: nat): Sub { sub.(event := sub.event.(next := next)) }

  lemma RecurringStep(e: State, op: Op, sub: Sub, start: nat, r: nat, m: nat, f: nat)
    requires Stands(e, sub, start, r, m, f)
    requires sub.event.recurring && sub.event.handler != 0 && sub.event.interval >= 1
    ensures Stands(Step(e, op), sub, start, r, m + (if op == Tick then 1 else 0), f + |OfTag(Called(e, op), sub.tag)|)
  {
    var next := start + r + Times(sub.event.interval, f);
    ArmedStep(e, op, sub, next);
    hide OfTag, Step, Called;
    if op == Tick && next <= e.now + 1 {
      assert next == e.now + 1;
      assert Times(sub.event.interval, f + 1) == Times(sub.event.interval, f) + sub.event.interval;
    }
  }

  /** What one step does to the entry of a recurring subscription armed for next, and how often it calls it. */
  lemma ArmedStep(e: State, op: Op, sub: Sub, next: nat)
    requires OfTag(e.table, sub.tag) == [Armed(sub, next)] && sub.tag < e.nextTag
    requires sub.event.recurring && sub.event.handler != 0
    ensures var fires := op == Tick && next <= e.now + 1;
            && OfTag(Step(e, op).table, sub.tag) == [Armed(sub, if fires then e.now + 1 + sub.event.interval else next)]
            && |OfTag(Called(e, op), sub.tag)| == (if fires then 1 else 0)
            && Step(e, op).now == e.now + (if op == Tick then 1 else 0)
            && sub.tag < Step(e, op).nextTag
  {
    hide OfTag, AllAfter, AllCalls;
    StepByTag(e, op, sub.tag);
    AllOne(Armed(sub, next), e.now + 1);
  }

  lemma StandsAtStart(s: State, sub: Sub, r: nat)
    requires sub.tag < s.nextTag && OfTag(s.table, sub.tag) == [sub] && r >= 1 && sub.event.next == s.now + r
    ensures Stands(Run(s, []), sub, s.now, r, Ticks([]), Fired(s, [], sub.tag))
  {
    assert Armed(sub, s.now + r) == sub;
  }

  lemma RunNext(s: State, ops: seq<Op>, tag: nat)
    requires ops != []
    ensures var pre, op := ops[..|ops| - 1], ops[|ops| - 1];
            && Run(s, ops) == Step(Run(s, pre), op)
            && Ticks(ops) == Ticks(pre) + (if op == Tick then 1 else 0)
            && Fired(s, ops, tag) == Fired(s, pre, tag) + |OfTag(Called(Run(s, pre), op), tag)|
  {
  }

  lemma {:induction false} RecurringAfter(s: State, ops: seq<Op>, sub: Sub, r: nat)
    requires sub.tag < s.nextTag && OfTag(s.table, sub.tag) == [sub]
    requires sub.event.recurring && sub.event.handler != 0 && sub.event.interval >= 1 && r >= 1
    requires sub.event.next == s.now + r
    ensures Stands(Run(s, ops), sub, s.now, r, Ticks(ops), Fired(s, ops, sub.tag))
    decreases |ops|
  {
    hide Stands, Step, OfTag, Called, Run, Ticks, Fired;
    if ops == [] {
      StandsAtStart(s, sub, r);
    } else {
      var pre, op := ops[..|ops| - 1], ops[|ops| - 1];
      RecurringAfter(s, pre, sub, r);
      RunNext(s, ops, sub.tag);
      RecurringStep(Run(s, pre), op, sub, s.now, r, Ticks(pre), Fired(s, pre, sub.tag));
    }
  }

  // ---------- every table that can arise ----------

  /** timer_system_initialize */
  const START := State([], 1, 0)

  /** A tick keeps the order of the tags. */
  lemma {:induction false} TickTagged(table: seq<Sub>, now: nat, nextTag: nat)
    requires Tagged(table, nextTag)
    ensures Tagged(AllAfter(table, now), nextTag)
    decreases |table|
  {
    if table != [] {
      TickTagged(table[..|table| - 1], now, table[|table| - 1].tag);
    }
  }

  lemma StepTagged(s: State, op: Op)
    requires Tagged(s.table, s.nextTag)
    ensures Tagged(Step(s, op).table, Step(s, op).nextTag)
  {
    if op == Tick { TickTagged(s.table, s.now + 1, s.nextTag); }
  }

  /** In every run the tags stay in order, so every entry is alone under its tag and the next tag is unused. */
  lemma {:induction false} RunTagged(ops: seq<Op>)
    ensures Tagged(Run(START, ops).table, Run(START, ops).nextTag)
    decreases |ops|
  {
    if ops != [] {
      RunTagged(ops[..|ops| - 1]);
      StepTagged(Run(START, ops[..|ops| - 1]), ops[|ops| - 1]);
    }
  }

  ghost predicate Lacks(table: seq<Sub>, tag: nat) { forall i :: 0 <= i < |table| ==> table[i].tag != tag }

  lemma {:induction false} UnusedTag(table: seq<Sub>, tag: nat)
    requires Lacks(table, tag)
    ensures OfTag(table, tag) == []
    decreases |table|
  {
    if table != [] { UnusedTag(table[..|table| - 1], tag); }
  }

  lemma AloneUnderTag(table: seq<Sub>, nextTag: nat, i: nat)
    requires Tagged(table, nextTag) && i < |table|
    ensures OfTag(table, table[i].tag) == [table[i]]
  {
    var pre, sub, post := table[..i], table[i], table[i + 1..];
    OthersTags(table, nextTag, i);
    hide OfTag, Tagged, Lacks;
    UnusedTag(pre, sub.tag);
    UnusedTag(post, sub.tag);
    OfTagOne(sub, sub.tag);
    OfTagConcat(pre, [sub], sub.tag);
    OfTagConcat(pre + [sub], post, sub.tag);
    assert table == pre + [sub] + post;
  }

  lemma OthersTags(table: seq<Sub>, nextTag: nat, i: nat)
    requires Tagged(table, nextTag) && i < |table|
    ensures Lacks(table[..i], table[i].tag) && Lacks(table[i + 1..], table[i].tag)
  {
  }

  /** After any run from initialization, a recurring event with interval k >= 1 that the table has room for
      fires exactly floor(m / k) times in the m ticks after it is subscribed, whatever else is subscribed. */
  lemma RecurringFires(before: seq<Op>, e: Event, ops: seq<Op>)
    requires |Run(START, before).table| < MAX_SUBSCRIBERS
    requires e.recurring && e.handler != 0 && e.interval >= 1
    ensures var s := Run(START, before); Fired(Step(s, Add(e)), ops, s.nextTag) == Ticks(ops) / e.interval
  {
    var s := Run(START, before);
    var sub := Sub(s.nextTag, e.(next := s.now + e.interval));
    var s' := Step(s, Add(e));
    Subscribed(before, e);
    RecurringAfter(s', ops, sub, e.interval);
    hide OfTag, Run, Fired, Ticks, Step;
    Floor(Ticks(ops), e.interval, Fired(s', ops, s.nextTag));
  }

  /** One whose interval rounds to 0 ticks fires on every tick. */
  lemma ZeroIntervalFires(before: seq<Op>, e: Event, ops: seq<Op>)
    requires |Run(START, before).table| < MAX_SUBSCRIBERS
    requires e.recurring && e.handler != 0 && e.interval == 0
    ensures var s := Run(START, before); Fired(Step(s, Add(e)), ops, s.nextTag) == Ticks(ops)
  {
    Subscribed(before, e);
    var s := Run(START, before);
    ZeroIntervalAfter(Step(s, Add(e)), ops, Sub(s.nextTag, e.(next := s.now + e.interval)));
  }

  /** A one-shot fires at the tick when it is due, at the first one if its interval is 0, and never again. */
  lemma OneShotFires(before: seq<Op>, e: Event, ops: seq<Op>)
    requires |Run(START, before).table| < MAX_SUBSCRIBERS
    requires !e.recurring && e.handler != 0
    ensures var s := Run(START, before);
            Fired(Step(s, Add(e)), ops, s.nextTag) == if Ticks(ops) >= 1 && Ticks(ops) >= e.interval then 1 else 0
  {
    Subscribed(before, e);
    var s := Run(START, before);
    OneShotAfter(Step(s, Add(e)), ops, Sub(s.nextTag, e.(next := s.now + e.interval)), if e.interval == 0 then 1 else e.interval);
  }

  lemma Subscribed(before: seq<Op>, e: Event)
    requires |Run(START, before).table| < MAX_SUBSCRIBERS && e.handler != 0
    ensures var s := Run(START, before);
            var s' := Step(s, Add(e));
            s.nextTag < s'.nextTag && OfTag(s'.table, s.nextTag) == [Sub(s.nextTag, e.(next := s.now + e.interval))] && s'.now == s.now
  {
    hide Run, OfTag, Tagged;
    RunTagged(before);
    var s := Run(START, before);
    StepTagged(s, Add(e));
    AloneUnderTag(Step(s, Add(e)).table, s.nextTag + 1, |s.table|);
  }

  lemma Floor(m: nat, k: nat, f: nat)
    requires k >= 1 && m < k + Times(k, f) && (f > 0 ==> k + Times(k, f - 1) <= m)
    ensures m / k == f
  {
    TimesIsProduct(k, f);
    QuotientIs(m, k, f, m - Times(k, f));
  }

  /** Where a recurring subscription whose interval rounds to 0 stands after any run. */
  lemma {:induction false} ZeroIntervalAfter(s: State, ops: seq<Op>, sub: Sub)
    requires sub.tag < s.nextTag && OfTag(s.table, sub.tag) == [sub]
    requires sub.event.recurring && sub.event.handler != 0 && sub.event.interval == 0 && sub.event.next <= s.now
    ensures Fired(s, ops, sub.tag) == Ticks(ops)
    ensures var e := Run(s, ops);
            && sub.tag < e.nextTag
            && exists next: nat :: next <= e.now && OfTag(e.table, sub.tag) == [Armed(sub, next)]
    decreases |ops|
  {
    hide Step, OfTag, Called;
    if ops == [] {
      assert Armed(sub, sub.event.next) == sub;
    } else {
      var pre, op := ops[..|ops| - 1], ops[|ops| - 1];
      ZeroIntervalAfter(s, pre, sub);
      var e := Run(s, pre);
      var next: nat :| next <= e.now && OfTag(e.table, sub.tag) == [Armed(sub, next)];
      ArmedStep(e, op, sub, next);
      RunNext(s, ops, sub.tag);
    }
  }

  /** A one-shot event due in r ticks fires once, at that tick, and is gone from then on. */
  lemma {:induction false} OneShotAfter(s: State, ops: seq<Op>, sub: Sub, r: nat)
    requires sub.tag < s.nextTag && OfTag(s.table, sub.tag) == [sub]
    requires !sub.event.recurring && sub.event.handler != 0 && r >= 1
    requires sub.event.next == s.now + r || (r == 1 && sub.event.next <= s.now)
    ensures Fired(s, ops, sub.tag) == if Ticks(ops) >= r then 1 else 0
    ensures var e := Run(s, ops);
            && sub.tag < e.nextTag && e.now == s.now + Ticks(ops)
            && OfTag(e.table, sub.tag) == if Ticks(ops) >= r then [] else [sub]
    decreases |ops|
  {
    if ops != [] {
      OneShotAfter(s, ops[..|ops| - 1], sub, r);
      var e := Run(s, ops[..|ops| - 1]);
      StepByTag(e, ops[|ops| - 1], sub.tag);
      AllOne(sub, e.now + 1);
    }
  }
}
