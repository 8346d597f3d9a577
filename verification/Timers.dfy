/** The timer queue: pending timers in order of their trigger times, and callbacks that may queue more. */
module Timers {
  import opened Counting
  import opened Wrappers

  const NS_PER_S := 1_000_000_000

  /** The timer device: what its n-th reading shows, its frequency, and the shortest period worth setting. */
  datatype Device = Device(clock: nat -> nat, frequency: nat, estimate: nat)

  /** A timer that was queued; the stamp counts queueings. */
  datatype Entry = Entry(id: nat, trigger: nat, stamp: nat)

  predicate Before(a: Entry, b: Entry) {
    a.trigger < b.trigger || (a.trigger == b.trigger && a.stamp < b.stamp)
  }

  /** By trigger time, with ties in the order of queueing. */
  ghost predicate Sorted(s: seq<Entry>) { forall i, j :: 0 <= i < j < |s| ==> Before(s[i], s[j]) }

  /** Where a timer goes: before the first that triggers later. */
  function Place(s: seq<Entry>, trigger: nat): (k: nat)
    ensures k <= |s| && (k < |s| ==> trigger < s[k].trigger)
    ensures forall i :: 0 <= i < k ==> s[i].trigger <= trigger
  {
    if s == [] || trigger < s[0].trigger then 0 else 1 + Place(s[1..], trigger)
  }

  function Inserted(s: seq<Entry>, e: Entry): (r: seq<Entry>)
    ensures |r| == |s| + 1 && r[Place(s, e.trigger)] == e
    ensures forall i :: 0 <= i < Place(s, e.trigger) ==> r[i] == s[i]
    ensures forall i :: Place(s, e.trigger) < i < |r| ==> r[i] == s[i - 1]
  {
    var k := Place(s, e.trigger);
    s[..k] + [e] + s[k..]
  }

  lemma InsertedSorted(s: seq<Entry>, e: Entry)
    requires Sorted(s) && forall i :: 0 <= i < |s| ==> s[i].stamp < e.stamp
    ensures Sorted(Inserted(s, e))
  {
    hide Inserted;
    var k := Place(s, e.trigger);
    var r := Inserted(s, e);
    forall i | k <= i < |s| ensures Before(e, s[i]) {
      assert i == k || Before(s[k], s[i]);
    }
    forall i | 0 <= i < k ensures Before(s[i], e) {
      assert s[i].trigger <= e.trigger && s[i].stamp < e.stamp;
    }
    forall i, j | 0 <= i < j < |r| ensures Before(r[i], r[j]) {
      assert i != k && j != k ==> Before(s[if i < k then i else i - 1], s[if j < k then j else j - 1]);
    }
  }

  lemma InsertedHolds(s: seq<Entry>, e: Entry)
    ensures multiset(Inserted(s, e)) == multiset(s) + multiset{e}
  {
    var k := Place(s, e.trigger);
    assert s == s[..k] + s[k..];
  }

  ghost predicate DistinctIds(s: seq<Entry>) { forall i, j :: 0 <= i < j < |s| ==> s[i].id != s[j].id }

  lemma InsertedIds(s: seq<Entry>, e: Entry)
    requires DistinctIds(s) && forall i :: 0 <= i < |s| ==> s[i].id != e.id
    ensures DistinctIds(Inserted(s, e))
  {
    hide Inserted;
    var k := Place(s, e.trigger);
    var r := Inserted(s, e);
    forall i, j | 0 <= i < j < |r| ensures r[i].id != r[j].id {
      assert i != k && j != k ==> s[if i < k then i else i - 1].id != s[if j < k then j else j - 1].id;
    }
  }

  // ----- The queue and its calls -----------------------------------------------------------------------------

  /** What a callback does: queues timers of its own, then asks to be run again after so many nanoseconds or,
      with a negative number, not at all. */
  datatype Action = Action(schedules: seq<nat>, again: int)

  datatype Firing = Firing(entry: Entry, ticks: nat)

  /** The queue, with the tick the device is to interrupt at, how often the clock was read, how many timers were
      created, and what was queued and what was run so far. */
  datatype Queue = Queue(
    pending: seq<Entry>, armed: Option<nat>, readings: nat, ids: nat, queued: seq<Entry>, fired: seq<Firing>)

  function Ticks(d: Device, ns: nat): (n: nat) { ns * d.frequency / NS_PER_S }

  /** So many nanoseconds are this many whole ticks. */
  predicate InTicks(d: Device, ns: nat, n: nat) {
    n * 1_000_000_000 <= ns * d.frequency < (n + 1) * 1_000_000_000
  }

  lemma TicksExactly(d: Device, ns: nat)
    ensures forall n: nat :: InTicks(d, ns, n) <==> Ticks(d, ns) == n
  {
    var t := ns * d.frequency;
    forall n: nat ensures n * NS_PER_S <= t < (n + 1) * NS_PER_S <==> t / NS_PER_S == n {
      assert t == t / NS_PER_S * NS_PER_S + t % NS_PER_S;
    }
  }

  /** The device is to interrupt after so many ticks, from when it reads its clock. */
  function Armed(d: Device, q: Queue, ticks: nat): (r: Queue) {
    q.(armed := Some(ticks + d.clock(q.readings)), readings := q.readings + 1)
  }

  /** A timer's trigger is set from the clock and it is queued. */
  function Queued(d: Device, q: Queue, id: nat, period: nat): (r: Queue) {
    var e := Entry(id, d.clock(q.readings) + period, |q.queued|);
    q.(readings := q.readings + 1, pending := Inserted(q.pending, e), queued := q.queued + [e])
  }

  /** The device is set if the timer comes first. */
  function QueueNode(d: Device, q: Queue, id: nat, period: nat): (r: Queue) {
    var after := Queued(d, q, id, period);
    if Place(q.pending, d.clock(q.readings) + period) == 0 then Armed(d, after, period) else after
  }

  function Schedule(d: Device, q: Queue, ns: nat): (r: Queue) {
    QueueNode(d, q.(ids := q.ids + 1), q.ids, Max(Ticks(d, ns), d.estimate))
  }

  function ScheduleAll(d: Device, q: Queue, list: seq<nat>): (r: Queue) {
    if list == [] then q else Schedule(d, ScheduleAll(d, q, list[..|list| - 1]), list[|list| - 1])
  }

  /** The first timer is taken off and its callback run. */
  function Popped(q: Queue, ticks: nat): (r: Queue)
    requires q.pending != []
  {
    q.(pending := q.pending[1..], fired := q.fired + [Firing(q.pending[0], ticks)])
  }

  function Fire(d: Device, q: Queue, ticks: nat, a: Action): (r: Queue)
    requires q.pending != []
  {
    var after := ScheduleAll(d, Popped(q, ticks), a.schedules);
    if a.again >= 0 then QueueNode(d, after, q.pending[0].id, Ticks(d, a.again)) else after
  }

  predicate Due(q: Queue, ticks: nat) { q.pending != [] && q.pending[0].trigger < ticks }

  function NextAction(script: seq<Action>): (a: Action) { if script == [] then Action([], -1) else script[0] }

  function Later(script: seq<Action>): (s: seq<Action>) { if script == [] then [] else script[1..] }

  /** Runs callbacks while the first timer is due. The script says what each callback does in turn; after its
      end callbacks do nothing. */
  function Trigger(d: Device, q: Queue, ticks: nat, script: seq<Action>): (r: (Queue, nat))
    decreases |script|, |q.pending|
  {
    if !Due(q, ticks) then (q, ticks)
    else
      var f := Fire(d, q, ticks, NextAction(script));
      Trigger(d, f.(readings := f.readings + 1), d.clock(f.readings), Later(script))
  }

  // ----- When timers trigger ------------------------------------------------------------------------------------

  /** A timer scheduled for so many nanoseconds is queued once, to trigger so many whole ticks after the clock as it is
      read then, or after the shortest period if that is longer. */
  lemma ScheduledTrigger(d: Device, q: Queue, ns: nat, n: nat)
    requires InTicks(d, ns, n)
    ensures var r := Schedule(d, q, ns);
      var e := Entry(q.ids, d.clock(q.readings) + (if n < d.estimate then d.estimate else n), |q.queued|);
      && r.queued == q.queued + [e] && multiset(r.pending) == multiset(q.pending) + multiset{e}
      && r.ids == q.ids + 1 && r.fired == q.fired
      && (r.readings == q.readings + 1 || r.readings == q.readings + 2)
  {
    hide InTicks;
    hide Inserted;
    hide Place;
    TicksExactly(d, ns);
    InsertedHolds(q.pending, Entry(q.ids, d.clock(q.readings) + Max(Ticks(d, ns), d.estimate), |q.queued|));
  }

  /** The entry triggers so many ticks after one of these readings of the clock. */
  ghost predicate SetFrom(d: Device, e: Entry, from: nat, upTo: nat, period: nat) {
    exists k: nat :: from <= k < upTo && e.trigger == d.clock(k) + period
  }

  lemma {:induction false} ScheduledTriggers(d: Device, q: Queue, list: seq<nat>)
    ensures var r := ScheduleAll(d, q, list);
      && |r.queued| == |q.queued| + |list| && q.queued <= r.queued && q.readings <= r.readings && r.fired == q.fired
      && forall j, n: nat :: 0 <= j < |list| && InTicks(d, list[j], n) ==>
           SetFrom(d, r.queued[|q.queued| + j], q.readings, r.readings, Max(n, d.estimate))
  {
    hide Schedule;
    hide InTicks;
    hide SetFrom;
    if list != [] {
      var front, last := list[..|list| - 1], list[|list| - 1];
      ScheduledTriggers(d, q, front);
      TicksExactly(d, last);
      var before := ScheduleAll(d, q, front);
      ScheduledTrigger(d, before, last, Ticks(d, last));
      var r := ScheduleAll(d, q, list);
      forall j, n: nat | 0 <= j < |list| && InTicks(d, list[j], n)
        ensures SetFrom(d, r.queued[|q.queued| + j], q.readings, r.readings, Max(n, d.estimate))
      {
        if j < |front| {
          assert front[j] == list[j] && r.queued[|q.queued| + j] == before.queued[|q.queued| + j];
          SetStill(d, before.queued[|q.queued| + j], q.readings, before.readings, r.readings, Max(n, d.estimate));
        } else {
          SetNow(d, r.queued[|q.queued| + j], q.readings, before.readings, r.readings, Max(n, d.estimate));
        }
      }
    }
  }

  /** What one firing queues: the timers its callback schedules, in order, and then the timer itself if it is to be
      run again, after so many whole ticks and without a shortest period. */
  lemma FireQueues(d: Device, q: Queue, ticks: nat, a: Action)
    requires q.pending != []
    ensures Queues(d, q, a, Fire(d, q, ticks, a))
  {
    hide InTicks;
    hide Schedule;
    hide Inserted;
    hide SetFrom;
    var p := Popped(q, ticks);
    ScheduledTriggers(d, p, a.schedules);
    var after, r := ScheduleAll(d, p, a.schedules), Fire(d, q, ticks, a);
    assert p.queued == q.queued && p.readings == q.readings;
    assert after.queued <= r.queued;
    if a.again >= 0 {
      TicksExactly(d, a.again);
      SetNow(d, r.queued[|after.queued|], q.readings, after.readings, r.readings, Ticks(d, a.again));
    }
    forall j, n: nat | 0 <= j < |a.schedules| && InTicks(d, a.schedules[j], n)
      ensures SetFrom(d, r.queued[|q.queued| + j], q.readings, r.readings, Max(n, d.estimate))
    {
      assert r.queued[|q.queued| + j] == after.queued[|q.queued| + j];
      SetStill(d, after.queued[|q.queued| + j], q.readings, after.readings, r.readings, Max(n, d.estimate));
    }
  }

  lemma SetNow(d: Device, e: Entry, from: nat, k: nat, upTo: nat, period: nat)
    requires from <= k < upTo && e.trigger == d.clock(k) + period
    ensures SetFrom(d, e, from, upTo, period)
  {
  }

  lemma SetStill(d: Device, e: Entry, from: nat, upTo: nat, later: nat, period: nat)
    requires SetFrom(d, e, from, upTo, period) && upTo <= later
    ensures SetFrom(d, e, from, later, period)
  {
  }

  ghost predicate Queues(d: Device, q: Queue, a: Action, r: Queue)
    requires q.pending != []
  {
    && |r.queued| == |q.queued| + |a.schedules| + (if a.again >= 0 then 1 else 0) && q.queued <= r.queued
    && (forall j, n: nat :: 0 <= j < |a.schedules| && InTicks(d, a.schedules[j], n) ==>
          SetFrom(d, r.queued[|q.queued| + j], q.readings, r.readings, Max(n, d.estimate)))
    && (a.again >= 0 ==>
          var e := r.queued[|r.queued| - 1];
          e.id == q.pending[0].id
          && forall n: nat :: InTicks(d, a.again, n) ==> SetFrom(d, e, q.readings, r.readings, n))
  }

  // ----- What every call keeps ---------------------------------------------------------------------------------

  function Entries(fs: seq<Firing>): (r: seq<Entry>)
    ensures |r| == |fs|
  {
    seq(|fs|, i requires 0 <= i < |fs| => fs[i].entry)
  }

  ghost predicate Inv(q: Queue) {
    && Sorted(q.pending)
    && (forall i :: 0 <= i < |q.queued| ==> q.queued[i].stamp == i)
    && multiset(q.queued) == multiset(Entries(q.fired)) + multiset(q.pending)
    && DistinctIds(q.pending)
    && (forall i :: 0 <= i < |q.pending| ==> q.pending[i].id < q.ids)
    && (forall i :: 0 <= i < |q.fired| ==> q.fired[i].entry.trigger < q.fired[i].ticks)
  }

  /** Nobody pending has this identity. */
  ghost predicate Unused(q: Queue, id: nat) { forall i :: 0 <= i < |q.pending| ==> q.pending[i].id != id }

  lemma StampsBelow(q: Queue, x: Entry)
    requires Inv(q) && x in q.pending
    ensures x.stamp < |q.queued|
  {
    assert x in multiset(q.queued);
    assert x in q.queued;
  }

  lemma QueueNodeInv(d: Device, q: Queue, id: nat, period: nat)
    requires Inv(q) && Unused(q, id) && id < q.ids
    ensures Inv(QueueNode(d, q, id, period))
    ensures forall other: nat :: other != id && Unused(q, other) ==> Unused(QueueNode(d, q, id, period), other)
  {
    hide Inv, Queued;
    QueuedInv(d, q, id, period);
    KeepsInv(Queued(d, q, id, period), QueueNode(d, q, id, period));
    assert QueueNode(d, q, id, period).pending == Queued(d, q, id, period).pending;
    forall other: nat | other != id && Unused(q, other) ensures Unused(QueueNode(d, q, id, period), other) {
      assert Unused(Queued(d, q, id, period), other);
    }
  }

  lemma QueuedInv(d: Device, q: Queue, id: nat, period: nat)
    requires Inv(q) && Unused(q, id) && id < q.ids
    ensures Inv(Queued(d, q, id, period))
    ensures forall other: nat :: other != id && Unused(q, other) ==> Unused(Queued(d, q, id, period), other)
  {
    hide Inserted, Sorted, DistinctIds, Place, Entries;
    var e := Entry(id, d.clock(q.readings) + period, |q.queued|);
    forall i | 0 <= i < |q.pending| ensures q.pending[i].stamp < e.stamp { StampsBelow(q, q.pending[i]); }
    InsertedSorted(q.pending, e);
    InsertedIds(q.pending, e);
    Balanced(q.queued, Entries(q.fired), q.pending, e);
  }

  lemma Balanced(queued: seq<Entry>, run: seq<Entry>, pending: seq<Entry>, e: Entry)
    requires multiset(queued) == multiset(run) + multiset(pending)
    ensures multiset(queued + [e]) == multiset(run) + multiset(Inserted(pending, e))
  {
    hide Inserted;
    InsertedHolds(pending, e);
    assert multiset(queued + [e]) == multiset(queued) + multiset{e};
  }

  lemma ScheduleInv(d: Device, q: Queue, ns: nat)
    requires Inv(q)
    ensures Inv(Schedule(d, q, ns)) && Schedule(d, q, ns).ids == q.ids + 1
    ensures forall id: nat :: id < q.ids && Unused(q, id) ==> Unused(Schedule(d, q, ns), id)
  {
    hide QueueNode;
    var fresh_ := q.(ids := q.ids + 1);
    QueueNodeIds(d, fresh_, q.ids, Max(Ticks(d, ns), d.estimate));
    QueueNodeInv(d, fresh_, q.ids, Max(Ticks(d, ns), d.estimate));
  }

  lemma QueueNodeIds(d: Device, q: Queue, id: nat, period: nat)
    ensures QueueNode(d, q, id, period).ids == q.ids && QueueNode(d, q, id, period).fired == q.fired
  {
  }

  lemma {:induction false} ScheduleAllInv(d: Device, q: Queue, list: seq<nat>)
    requires Inv(q)
    ensures Inv(ScheduleAll(d, q, list)) && ScheduleAll(d, q, list).ids >= q.ids
    ensures forall id: nat :: id < q.ids && Unused(q, id) ==> Unused(ScheduleAll(d, q, list), id)
  {
    hide Schedule, Inv, Unused;
    if list != [] {
      ScheduleAllInv(d, q, list[..|list| - 1]);
      ScheduleInv(d, ScheduleAll(d, q, list[..|list| - 1]), list[|list| - 1]);
    }
  }

  lemma PoppedInv(q: Queue, ticks: nat)
    requires Inv(q) && Due(q, ticks)
    ensures Inv(Popped(q, ticks)) && Unused(Popped(q, ticks), q.pending[0].id)
    ensures forall i :: 0 < i < |q.pending| ==> Before(q.pending[0], q.pending[i])
  {
    var r := Popped(q, ticks);
    assert q.pending == [q.pending[0]] + r.pending;
    assert Entries(r.fired) == Entries(q.fired) + [q.pending[0]];
  }

  lemma FireInv(d: Device, q: Queue, ticks: nat, a: Action)
    requires Inv(q) && Due(q, ticks)
    ensures Inv(Fire(d, q, ticks, a))
  {
    hide QueueNode, ScheduleAll;
    PoppedInv(q, ticks);
    ScheduleAllInv(d, Popped(q, ticks), a.schedules);
    var after := ScheduleAll(d, Popped(q, ticks), a.schedules);
    if a.again >= 0 { QueueNodeInv(d, after, q.pending[0].id, Ticks(d, a.again)); }
  }

  /** Running the due timers keeps all this, and when it stops no pending timer is due. */
  lemma {:induction false} TriggerInv(d: Device, q: Queue, ticks: nat, script: seq<Action>)
    requires Inv(q)
    ensures var (r, now) := Trigger(d, q, ticks, script);
      Inv(r) && forall i :: 0 <= i < |r.pending| ==> r.pending[i].trigger >= now
    decreases |script|, |q.pending|
  {
    hide Fire;
    if Due(q, ticks) {
      var f := Fire(d, q, ticks, NextAction(script));
      FireInv(d, q, ticks, NextAction(script));
      FireShrinks(d, q, ticks);
      TriggerInv(d, f.(readings := f.readings + 1), d.clock(f.readings), Later(script));
    } else {
      forall i | 0 <= i < |q.pending| ensures q.pending[i].trigger >= ticks {
        assert i == 0 || Before(q.pending[0], q.pending[i]);
      }
    }
  }

  lemma FireShrinks(d: Device, q: Queue, ticks: nat)
    requires q.pending != []
    ensures Fire(d, q, ticks, Action([], -1)).pending == q.pending[1..]
  {
  }

  // ----- Whole runs ----------------------------------------------------------------------------------------------

  datatype Call = ScheduleCall(ns: nat) | TriggerCall(script: seq<Action>)

  function Apply(d: Device, q: Queue, c: Call): (r: Queue) {
    match c
    case ScheduleCall(ns) => Schedule(d, q, ns)
    case TriggerCall(script) =>
      var (r, now) := Trigger(d, q.(readings := q.readings + 1), d.clock(q.readings), script);
      if r.pending == [] then r.(armed := None) else Armed(d, r, Wait(d, r.pending[0].trigger, now))
  }

  /** How long the device is to wait for a timer that is not due. */
  function Wait(d: Device, trigger: nat, now: nat): (n: nat) {
    Max(if trigger < now then 0 else trigger - now, d.estimate)
  }

  function Run(d: Device, calls: seq<Call>): (q: Queue) {
    if calls == [] then Queue([], None, 0, 0, [], [])
    else Apply(d, Run(d, calls[..|calls| - 1]), calls[|calls| - 1])
  }

  /** In every run, the queue is sorted with ties in the order of queueing, a callback runs only when due, and
      what was queued is, each once, what has run and what is pending. */
  lemma {:induction false} EveryRunSorted(d: Device, calls: seq<Call>)
    ensures Inv(Run(d, calls))
  {
    hide Schedule, Trigger;
    if calls != [] {
      var q := Run(d, calls[..|calls| - 1]);
      EveryRunSorted(d, calls[..|calls| - 1]);
      match calls[|calls| - 1] {
        case ScheduleCall(ns) => ScheduleInv(d, q, ns);
        case TriggerCall(script) =>
          var (r, now) := Trigger(d, q.(readings := q.readings + 1), d.clock(q.readings), script);
          TriggerInv(d, q.(readings := q.readings + 1), d.clock(q.readings), script);
          KeepsInv(r, Run(d, calls));
      }
    }
  }

  /** The device waits for the first timer, or for the shortest period if that is longer, and is late by no more than
      the time between two readings of the clock; with no timer it does not interrupt. */
  ghost predicate OnTime(d: Device, q: Queue) {
    if q.pending == [] then q.armed == None
    else q.armed.Some? && exists n: nat :: n + 1 < q.readings && Set(d, q, n)
  }

  ghost predicate Set(d: Device, q: Queue, n: nat)
    requires q.pending != [] && q.armed.Some?
  {
    q.armed.value + d.clock(n) == Max(q.pending[0].trigger, d.clock(n) + d.estimate) + d.clock(n + 1)
  }

  lemma ScheduleOnTime(d: Device, q: Queue, ns: nat)
    requires OnTime(d, q)
    ensures OnTime(d, Schedule(d, q, ns))
  {
    hide Inserted;
    hide Ticks;
    var r := Schedule(d, q, ns);
    var trigger := d.clock(q.readings) + Max(Ticks(d, ns), d.estimate);
    if Place(q.pending, trigger) == 0 {
      assert Set(d, r, q.readings);
    } else {
      var n: nat :| n + 1 < q.readings && Set(d, q, n);
      assert r.pending[0] == q.pending[0] && Set(d, r, n);
    }
  }

  /** The last reading of a round of callbacks is the tick at which nothing was due. */
  lemma {:induction false} TriggerReads(d: Device, q: Queue, n: nat, script: seq<Action>)
    requires q.readings == n + 1
    ensures var (r, now) := Trigger(d, q, d.clock(n), script); r.readings > 0 && now == d.clock(r.readings - 1)
    decreases |script|, |q.pending|
  {
    hide Fire;
    if Due(q, d.clock(n)) {
      var f := Fire(d, q, d.clock(n), NextAction(script));
      FireShrinks(d, q, d.clock(n));
      TriggerReads(d, f.(readings := f.readings + 1), f.readings, Later(script));
    }
  }

  lemma TriggerOnTime(d: Device, q: Queue, script: seq<Action>)
    requires Inv(q)
    ensures OnTime(d, Apply(d, q, TriggerCall(script)))
  {
    hide Inv;
    hide Trigger;
    var q1 := q.(readings := q.readings + 1);
    KeepsInv(q, q1);
    TriggerInv(d, q1, d.clock(q.readings), script);
    TriggerReads(d, q1, q.readings, script);
    var (r, now) := Trigger(d, q1, d.clock(q.readings), script);
    if r.pending != [] {
      assert r.pending[0].trigger >= now;
      assert Set(d, Apply(d, q, TriggerCall(script)), r.readings - 1);
    }
  }

  lemma KeepsInv(q: Queue, r: Queue)
    requires Inv(q) && r == q.(armed := r.armed, readings := r.readings)
    ensures Inv(r)
  {
  }

  /** No timer is forgotten: in every run, whenever a timer is pending the device is set to interrupt for it. */
  lemma {:induction false} EveryRunOnTime(d: Device, calls: seq<Call>)
    ensures OnTime(d, Run(d, calls))
  {
    hide Schedule, Trigger, OnTime;
    if calls == [] {
      StartsOnTime(d);
    } else {
      var front := calls[..|calls| - 1];
      EveryRunOnTime(d, front);
      EveryRunSorted(d, front);
      match calls[|calls| - 1] {
        case ScheduleCall(ns) => ScheduleOnTime(d, Run(d, front), ns);
        case TriggerCall(script) => TriggerOnTime(d, Run(d, front), script);
      }
    }
  }

  lemma StartsOnTime(d: Device)
    ensures OnTime(d, Run(d, []))
  {
  }

  /** If the clock never runs backwards, the device never interrupts before the first timer is to trigger. */
  lemma NeverEarly(d: Device, q: Queue)
    requires OnTime(d, q) && q.pending != [] && forall m: nat, n: nat :: m <= n ==> d.clock(m) <= d.clock(n)
    ensures q.pending[0].trigger <= q.armed.value
  {
    var n: nat :| n + 1 < q.readings && Set(d, q, n);
    assert d.clock(n) <= d.clock(n + 1);
  }

  /** No queueing is run twice: in every run the stamps of the callbacks run are different. */
  lemma FiredOnce(q: Queue, i: nat, j: nat)
    requires Inv(q) && i < j < |q.fired|
    ensures q.fired[i].entry.stamp != q.fired[j].entry.stamp
  {
    var es := Entries(q.fired);
    var e := es[i];
    if e.stamp == es[j].stamp {
      assert es[i] in multiset(q.queued) && es[j] in multiset(q.queued);
      assert es[i] in q.queued && es[j] in q.queued;
      assert es[i] == es[j];
      TwoCopies(es, i, j);
      OneCopy(q.queued, e.stamp);
      assert false;
    }
  }

  lemma TwoCopies(s: seq<Entry>, i: nat, j: nat)
    requires i < j < |s| && s[i] == s[j]
    ensures multiset(s)[s[i]] >= 2
  {
    assert s == s[..j] + s[j..];
    assert s[i] in s[..j] && s[i] in s[j..];
    assert multiset(s) == multiset(s[..j]) + multiset(s[j..]);
  }

  lemma {:induction false} OneCopy(s: seq<Entry>, k: nat)
    requires (forall i :: 0 <= i < |s| ==> s[i].stamp == i) && k < |s|
    ensures multiset(s)[s[k]] == 1
  {
    assert s == s[..k] + [s[k]] + s[k + 1..];
    assert s[k] !in s[..k] && s[k] !in s[k + 1..];
    assert multiset(s) == multiset(s[..k]) + multiset{s[k]} + multiset(s[k + 1..]);
  }
}
