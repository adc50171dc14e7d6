/** core/kernel/interrupts/timer/timer.c: the subscriber table, compacted while it is walked.
    Handlers do not alter the table; a call is recorded instead of made. Subscriptions carry a ghost tag,
    since the source's ids can repeat after removals. */
module Timer {
  import opened Memory

  const MAX_SUBSCRIBERS: nat := 16

  // handler 0 is NULL
  datatype Event = Event(id: nat, handler: nat, data: nat, interval: nat, next: nat, recurring: bool)
  datatype Sub = Sub(tag: nat, event: Event)

  predicate Due(s: Sub, now: nat) { now >= s.event.next }

  // ---------- one tick, subscriber by subscriber ----------

  /** What one tick makes of one subscription: rearmed, removed, or left alone. */
  function After(s: Sub, now: nat): seq<Sub> {
    if !Due(s, now) then [s]
    else if s.event.recurring then [s.(event := s.event.(next := now + s.event.interval))]
    else []
  }

  function Calls(s: Sub, now: nat): seq<Sub> {
    if Due(s, now) && s.event.handler != 0 then [s] else []
  }

  /** The table after a tick: every subscription of the table before it is treated once, in order. */
  function AllAfter(table: seq<Sub>, now: nat): seq<Sub> {
    if table == [] then [] else AllAfter(table[..|table| - 1], now) + After(table[|table| - 1], now)
  }

  /** The calls of a tick, in table order. */
  function AllCalls(table: seq<Sub>, now: nat): seq<Sub> {
    if table == [] then [] else AllCalls(table[..|table| - 1], now) + Calls(table[|table| - 1], now)
  }

  /** Tags grow along the table and are below the next one to be given out, so no two entries share a tag. */
  ghost predicate Tagged(table: seq<Sub>, nextTag: nat) {
    && (forall i :: 0 <= i < |table| ==> table[i].tag < nextTag)
    && (forall i, j :: 0 <= i < j < |table| ==> table[i].tag < table[j].tag)
  }

  class Timer {
    const subscribers: array<Event>
    var count: nat
    var totalTicks: nat
    ghost var table: seq<Sub>
    ghost var nextTag: nat

    ghost predicate Valid()
      reads this, subscribers
    {
      && subscribers.Length == MAX_SUBSCRIBERS && |table| == count <= MAX_SUBSCRIBERS
      && (forall i :: 0 <= i < |table| ==> table[i].event == subscribers[i])
      && Tagged(table, nextTag)
    }

    /** timer_system_initialize */
    constructor ()
      ensures Valid() && table == [] && totalTicks == 1
    {
      subscribers := new Event[MAX_SUBSCRIBERS](_ => Event(0, 0, 0, 0, 0, false));
      count, totalTicks, table, nextTag := 0, 1, [], 0;
    }

    /** timer_subscribe_event; the id, or -1. */
    method Subscribe(callback: nat, data: nat, intervalMs: nat, repeat: bool) returns (id: int)
      requires Valid() && intervalMs < U64
      modifies this`count, this`table, this`nextTag, subscribers
      ensures Valid()
      ensures id == -1 <==> callback == 0 || old(count) == MAX_SUBSCRIBERS
      ensures id == -1 ==> table == old(table) && nextTag == old(nextTag)
      ensures id != -1 ==>
                var interval := intervalMs * 300 % U64 / 1000;
                table == old(table) + [Sub(old(nextTag), Event(old(count) + 1, callback, data, interval, totalTicks + interval, repeat))]
                && nextTag == old(nextTag) + 1 && id == old(count) + 1
    {
      if callback == 0 || count >= MAX_SUBSCRIBERS { return -1; }
      var interval := intervalMs * 300 % U64 / 1000;
      subscribers[count] := Event(count + 1, callback, data, interval, totalTicks + interval, repeat);
      table := table + [Sub(nextTag, subscribers[count])];
      nextTag := nextTag + 1;
      count := count + 1;
      id := count;
    }

    /** The inner loop of timer_handle_interrupt: entry i leaves the table. */
    method Remove(i: nat)
      requires Valid() && i < count
      modifies this`count, this`table, subscribers
      ensures Valid() && table == old(table)[..i] + old(table)[i + 1..]
    {
      ghost var was := table;
      ghost var shifted := was[..i] + was[i + 1..];
      for j := i to count - 1
        invariant count == |was| && table == was
        invariant forall k :: 0 <= k < j ==> subscribers[k] == shifted[k].event
        invariant forall k :: j < k < count ==> subscribers[k] == was[k].event
      {
        assert shifted[j] == was[j + 1];
        subscribers[j] := subscribers[j + 1];
      }
      count := count - 1;
      table := shifted;
    }

    /** The loop body of timer_handle_interrupt for entry i; the next entry is then at i'. */
    method Visit(i: nat) returns (called: seq<Event>, i': nat)
      requires Valid() && i < count
      modifies this`count, this`table, subscribers
      ensures Valid()
      ensures var s := old(table)[i];
              && table == old(table)[..i] + After(s, totalTicks) + old(table)[i + 1..]
              && i' == i + |After(s, totalTicks)|
              && called == if Due(s, totalTicks) && s.event.handler != 0 then [s.event] else []
    {
      var event := subscribers[i];
      called, i' := [], i + 1;
      if totalTicks >= event.next {
        if event.handler != 0 { called := [event]; }
        if event.recurring {
          subscribers[i] := event.(next := totalTicks + event.interval);
          table := table[i := table[i].(event := subscribers[i])];
        } else {
          Remove(i);
          i' := i;
        }
      }
    }

    /** timer_handle_interrupt: every due subscriber is called exactly once, in table order,
        although one-shot entries are removed while the table is walked. */
    method HandleInterrupt() returns (calls: seq<Event>)
      requires Valid()
      modifies this`count, this`table, this`totalTicks, subscribers
      ensures Valid()
      ensures old(totalTicks) == 0 ==> totalTicks == 0 && table == old(table) && calls == []
      ensures old(totalTicks) != 0 ==>
                totalTicks == old(totalTicks) + 1
                && table == AllAfter(old(table), totalTicks)
                && calls == EventsOf(AllCalls(old(table), totalTicks))
    {
      hide AllAfter, AllCalls, EventsOf, After, Calls, Due, Tagged;
      calls := [];
      if totalTicks == 0 { return; }
      totalTicks := totalTicks + 1;
      ghost var was, p := table, 0;
      ghost var now := totalTicks;
      NothingYet(was, now);
      var i := 0;
      ghost var done: seq<Sub> := [];
      while i < count
        invariant Valid() && 0 <= i <= count && 0 <= p <= |was| && totalTicks == now == old(totalTicks) + 1
        invariant done == AllAfter(was[..p], now) && i == |done| && table == done + was[p..]
        invariant calls == EventsOf(AllCalls(was[..p], now))
        decreases |was| - p
      {
        OneMore(was, p, now);
        Splice(done, was, p, After(was[p], now));
        done := done + After(was[p], now);
        var called;
        called, i := Visit(i);
        calls := calls + called;
        p := p + 1;
      }
      assert p == |was| && was[..p] == was;
    }
  }

  lemma Splice(done: seq<Sub>, was: seq<Sub>, p: nat, after: seq<Sub>)
    requires p < |was|
    ensures var table := done + was[p..];
            && table[|done|] == was[p]
            && table[..|done|] + after + table[|done| + 1..] == done + after + was[p + 1..]
  {
  }

  lemma NothingYet(was: seq<Sub>, now: nat)
    ensures AllAfter(was[..0], now) == [] && EventsOf(AllCalls(was[..0], now)) == [] && was[0..] == was
  {
  }

  /** One more subscription of the old table. */
  lemma OneMore(was: seq<Sub>, p: nat, now: nat)
    requires p < |was|
    ensures AllAfter(was[..p + 1], now) == AllAfter(was[..p], now) + After(was[p], now)
    ensures EventsOf(AllCalls(was[..p + 1], now)) == EventsOf(AllCalls(was[..p], now)) + EventsOf(Calls(was[p], now))
    ensures EventsOf(Calls(was[p], now)) == if Due(was[p], now) && was[p].event.handler != 0 then [was[p].event] else []
  {
    assert was[..p + 1][..p] == was[..p];
  }

  function EventsOf(subs: seq<Sub>): (es: seq<Event>)
    ensures |es| == |subs| && forall i :: 0 <= i < |es| ==> es[i] == subs[i].event
  {
    seq(|subs|, i requires 0 <= i < |subs| => subs[i].event)
  }
}
