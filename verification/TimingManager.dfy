/** The timing manager as it is run, over a linked list of pending timers. */
module TimingManagement {
  import opened IntrusiveLists
  import opened Timers
  import opened Counting
  import opened Wrappers

  /** A timer in memory: its period and the tick it triggers at. */
  datatype Timer = Timer(period: nat, trigger: nat)

  ghost predicate Known(ids: seq<nat>, timers: map<nat, Timer>, stamps: map<nat, nat>) {
    forall i :: 0 <= i < |ids| ==> ids[i] in timers && ids[i] in stamps
  }

  /** The queue the list stands for. */
  ghost function PendingOf(ids: seq<nat>, timers: map<nat, Timer>, stamps: map<nat, nat>): (r: seq<Entry>)
    requires Known(ids, timers, stamps)
    ensures |r| == |ids|
    ensures forall i :: 0 <= i < |ids| ==> r[i] == Entry(ids[i], timers[ids[i]].trigger, stamps[ids[i]])
  {
    seq(|ids|, i requires 0 <= i < |ids| => Entry(ids[i], timers[ids[i]].trigger, stamps[ids[i]]))
  }

  lemma {:induction false} PlaceIs(s: seq<Entry>, trigger: nat, k: nat)
    requires k <= |s| && (k < |s| ==> trigger < s[k].trigger)
    requires forall i :: 0 <= i < k ==> s[i].trigger <= trigger
    ensures k == Place(s, trigger)
  {
  }

  /** Putting a timer into the list where the search stopped inserts it into the queue. */
  lemma PendingWith(ids: seq<nat>, timers: map<nat, Timer>, stamps: map<nat, nat>, k: nat, id: nat, t: Timer,
                    stamp: nat)
    requires Known(ids, timers, stamps) && k <= |ids| && id !in ids
    requires Place(PendingOf(ids, timers, stamps), t.trigger) == k
    ensures Known(With(ids, k, id), timers[id := t], stamps[id := stamp])
    ensures PendingOf(With(ids, k, id), timers[id := t], stamps[id := stamp]) ==
            Inserted(PendingOf(ids, timers, stamps), Entry(id, t.trigger, stamp))
  {
    hide With, Inserted, PendingOf;
    var before := PendingOf(ids, timers, stamps);
    var now := With(ids, k, id);
    forall i | 0 <= i < |now| && i != k ensures now[i] == ids[if i < k then i else i - 1] && now[i] != id {
      assert now[i] in ids;
    }
    var after := PendingOf(now, timers[id := t], stamps[id := stamp]);
    var expected := Inserted(before, Entry(id, t.trigger, stamp));
    forall i | 0 <= i < |now| ensures after[i] == expected[i] {
      assert i != k ==> expected[i] == before[if i < k then i else i - 1];
    }
  }

  lemma ItemsWith(spine: seq<Node<nat>>, k: nat, n: Node<nat>)
    requires k <= |spine|
    ensures Items(With(spine, k, n)) == With(Items(spine), k, n.item)
  {
  }

  lemma WithAtEnd(s: seq<Node<nat>>, n: Node<nat>)
    ensures With(s, |s|, n) == s + [n]
  {
  }

  class TimingManager {
    const device: Device
    const pendingTimers: IntrusiveList<nat>
    var timers: map<nat, Timer>
    var nodes: map<nat, Node<nat>>
    var armed: Option<nat>
    var readings: nat
    var ids: nat
    ghost var stamps: map<nat, nat>
    ghost var queued: seq<Entry>
    ghost var fired: seq<Firing>

    /** The list is well formed, and a timer's node is found from its address. */
    ghost predicate ListOk()
      reads this`nodes, this`ids, pendingTimers, pendingTimers.spine
    {
      && pendingTimers.Valid()
      && (forall n :: n in pendingTimers.spine ==> n.item in nodes && nodes[n.item] == n)
      && (forall id :: id in nodes ==> id < ids && nodes[id].item == id)
    }

    ghost predicate Linked()
      reads this`nodes, this`ids, this`timers, this`stamps, pendingTimers, pendingTimers.spine
    {
      ListOk() && Known(Items(pendingTimers.spine), timers, stamps)
    }

    ghost function View(): (q: Queue)
      requires Linked()
      reads this, pendingTimers, pendingTimers.spine
    {
      Queue(PendingOf(Items(pendingTimers.spine), timers, stamps), armed, readings, ids, queued, fired)
    }

    ghost predicate Valid()
      reads this, pendingTimers, pendingTimers.spine
    {
      Linked() && Inv(View())
    }

    constructor (device: Device)
      ensures Valid() && fresh(pendingTimers) && this.device == device && View() == Queue([], None, 0, 0, [], [])
    {
      this.device := device;
      pendingTimers := new IntrusiveList();
      timers, nodes, armed, readings, ids := map[], map[], None, 0, 0;
      stamps, queued, fired := map[], [], [];
    }

    method GetTicks() returns (t: nat)
      modifies this`readings
      ensures t == device.clock(old(readings)) && readings == old(readings) + 1
    {
      t := device.clock(readings);
      readings := readings + 1;
    }

    /** The device is set to interrupt after so many ticks. */
    method SetNextTick(ticks: nat)
      modifies this`armed, this`readings
      ensures armed == Some(ticks + device.clock(old(readings))) && readings == old(readings) + 1
    {
      var now := GetTicks();
      armed := Some(ticks + now);
    }

    /** The first pending timer that triggers later, and where it stands. */
    method FindLater(trigger: nat) returns (later: Node?<nat>, ghost k: nat)
      requires Linked()
      ensures k == Place(View().pending, trigger) && k <= |pendingTimers.spine|
      ensures later == if k < |pendingTimers.spine| then pendingTimers.spine[k] else null
    {
      hide Place;
      later, k := pendingTimers.first, 0;
      ghost var spine, pending := pendingTimers.spine, View().pending;
      while later != null
        invariant k <= |spine| && later == if k < |spine| then spine[k] else null
        invariant forall i :: 0 <= i < k ==> pending[i].trigger <= trigger
        decreases |spine| - k
      {
        assert pending[k].trigger == timers[later.item].trigger;
        if trigger < timers[later.item].trigger { break; }
        later, k := later.next, k + 1;
      }
      PlaceIs(pending, trigger, k);
    }

    /** Links a timer in at the place found for it. */
    method LinkIn(id: nat, later: Node?<nat>, ghost k: nat)
      requires ListOk() && id in nodes && nodes[id].head == null && k <= |pendingTimers.spine|
      requires later == if k < |pendingTimers.spine| then pendingTimers.spine[k] else null
      modifies pendingTimers, pendingTimers.spine, nodes[id]
      ensures ListOk() && Items(pendingTimers.spine) == With(old(Items(pendingTimers.spine)), k, id)
      ensures Footprint(pendingTimers.spine, old(pendingTimers.spine), nodes[id])
    {
      hide With;
      var n := nodes[id];
      ItemsWith(pendingTimers.spine, k, n);
      if later != null {
        pendingTimers.InsertBefore(later, n, k);
      } else {
        WithAtEnd(pendingTimers.spine, n);
        pendingTimers.Append(n);
      }
    }

    /** Sets a timer's trigger from the clock and queues it. */
    method InsertTimer(id: nat, period: nat)
      requires Linked() && id in nodes && nodes[id].head == null && id !in Items(pendingTimers.spine)
      modifies this`timers, this`stamps, this`queued, this`readings, pendingTimers, pendingTimers.spine, nodes[id]
      ensures Linked() && View() == Queued(device, old(View()), id, period)
      ensures Footprint(pendingTimers.spine, old(pendingTimers.spine), nodes[id])
    {
      hide With, Place, PendingOf, Inserted, ListOk, Footprint, Known;
      ghost var was, before := View(), Items(pendingTimers.spine);
      var ticks := GetTicks();
      var t := Timer(period, ticks + period);
      var later, k := FindLater(t.trigger);
      PendingWith(before, timers, stamps, k, id, t, |queued|);
      LinkIn(id, later, k);
      timers := timers[id := t];
      stamps := stamps[id := |queued|];
      queued := queued + [Entry(id, t.trigger, |queued|)];
      assert View() == Queued(device, was, id, period);
    }

    /** Queues a timer and, if it comes first, sets the device. */
    method QueueTimer(id: nat, period: nat)
      requires Linked() && id in nodes && nodes[id].head == null && id !in Items(pendingTimers.spine)
      modifies this`timers, this`stamps, this`queued, this`readings, this`armed
      modifies pendingTimers, pendingTimers.spine, nodes[id]
      ensures Linked() && View() == QueueNode(device, old(View()), id, period)
      ensures Footprint(pendingTimers.spine, old(pendingTimers.spine), nodes[id])
    {
      hide PendingOf, Inserted, ListOk, Footprint, Known, Place;
      ghost var was := View();
      NotPending(was, Items(pendingTimers.spine), timers, stamps, id);
      InsertTimer(id, period);
      FirstIs(device, was, id, period);
      var first := IsFirst(id);
      if first {
        SetNextTick(period);
      }
    }

    method IsFirst(id: nat) returns (r: bool)
      requires Linked() && pendingTimers.spine != []
      ensures r <==> View().pending[0].id == id
    {
      r := pendingTimers.first.item == id;
    }

    method NewNode() returns (id: nat)
      requires Linked()
      modifies this`nodes, this`ids
      ensures Linked() && id == old(ids) && ids == old(ids) + 1 && id !in Items(pendingTimers.spine)
      ensures id in nodes && fresh(nodes[id]) && nodes[id].head == null && nodes == old(nodes)[id := nodes[id]]
      ensures id !in old(nodes)
    {
      id := ids;
      assert forall n :: n in pendingTimers.spine ==> n.item < ids;
      var n := new Node(id);
      nodes := nodes[id := n];
      ids := ids + 1;
    }

    /** A new timer, to trigger so many nanoseconds, in whole ticks, from the clock as it is read now, or after the
        shortest period if that is longer. */
    method ScheduleCallback(ns: nat)
      requires Valid()
      modifies this, pendingTimers, pendingTimers.spine
      ensures Valid() && View() == Schedule(device, old(View()), ns)
      ensures forall n: nat :: InTicks(device, ns, n) ==>
        var period := if n < device.estimate then device.estimate else n;
        var e := Entry(old(ids), device.clock(old(readings)) + period, |old(queued)|);
        queued == old(queued) + [e] && multiset(View().pending) == old(multiset(View().pending)) + multiset{e}
      ensures Extends(nodes, old(nodes)) && fired == old(fired)
      ensures forall i :: 0 <= i < |pendingTimers.spine| ==>
        pendingTimers.spine[i] in old(pendingTimers.spine) || fresh(pendingTimers.spine[i])
    {
      hide ListOk, Known, PendingOf, Inv, QueueNode, InTicks, Ticks;
      ScheduleInv(device, View(), ns);
      TicksExactly(device, ns);
      ScheduledTrigger(device, View(), ns, Ticks(device, ns));
      var period := Max(Ticks(device, ns), device.estimate);
      var id := NewNode();
      QueueTimer(id, period);
    }

    /** Takes the first timer out of the list. */
    method UnlinkFront() returns (id: nat)
      requires ListOk() && pendingTimers.spine != []
      modifies pendingTimers, pendingTimers.spine
      ensures ListOk() && id == old(Items(pendingTimers.spine))[0]
      ensures Items(pendingTimers.spine) == old(Items(pendingTimers.spine))[1..]
      ensures id in nodes && nodes[id].head == null && nodes[id] in old(pendingTimers.spine)
      ensures nodes[id] !in pendingTimers.spine
      ensures forall i :: 0 <= i < |pendingTimers.spine| ==> pendingTimers.spine[i] in old(pendingTimers.spine)
    {
      var n := pendingTimers.PopFront();
      id := n.item;
    }

    /** Unlinks the first timer. */
    method TakeFront(ghost ticks: nat) returns (id: nat)
      requires Linked() && pendingTimers.spine != []
      modifies this`fired, pendingTimers, pendingTimers.spine
      ensures Linked() && id == old(View()).pending[0].id && View() == Popped(old(View()), ticks)
      ensures id in nodes && nodes[id].head == null && nodes[id] in old(pendingTimers.spine)
      ensures nodes[id] !in pendingTimers.spine
      ensures forall i :: 0 <= i < |pendingTimers.spine| ==> pendingTimers.spine[i] in old(pendingTimers.spine)
    {
      hide ListOk, PendingOf, Known;
      ghost var was := View();
      PendingTail(Items(pendingTimers.spine), timers, stamps);
      id := UnlinkFront();
      fired := fired + [Firing(was.pending[0], ticks)];
    }

    /** What a callback queues while it runs. */
    method RunCallback(list: seq<nat>)
      requires Valid()
      modifies this, pendingTimers, pendingTimers.spine
      ensures Valid() && View() == ScheduleAll(device, old(View()), list) && Extends(nodes, old(nodes))
      ensures forall i :: 0 <= i < |pendingTimers.spine| ==>
        pendingTimers.spine[i] in old(pendingTimers.spine) || fresh(pendingTimers.spine[i])
    {
      hide ListOk, Linked, Inv, Schedule;
      for i := 0 to |list|
        invariant Valid() && View() == ScheduleAll(device, old(View()), list[..i]) && Extends(nodes, old(nodes))
        invariant forall i :: 0 <= i < |pendingTimers.spine| ==>
        pendingTimers.spine[i] in old(pendingTimers.spine) || fresh(pendingTimers.spine[i])
      {
        ScheduleCallback(list[i]);
        assert list[..i + 1][..i] == list[..i];
      }
      assert list[..|list|] == list;
    }

    /** A timer that is not queued is given back. */
    method Forget(id: nat)
      requires Linked() && id !in Items(pendingTimers.spine)
      modifies this`timers, this`nodes
      ensures Linked() && View() == old(View())
    {
      hide PendingOf, Known;
      PendingForget(Items(pendingTimers.spine), timers, stamps, id);
      forall n | n in pendingTimers.spine ensures n.item in Items(pendingTimers.spine) {
        var i :| 0 <= i < |pendingTimers.spine| && pendingTimers.spine[i] == n;
        assert Items(pendingTimers.spine)[i] == n.item;
      }
      timers := timers - {id};
      nodes := nodes - {id};
    }

    lemma NotListed(id: nat)
      requires Linked() && Unused(View(), id)
      ensures id !in Items(pendingTimers.spine)
    {
      UnusedItems(Items(pendingTimers.spine), timers, stamps, View(), id);
    }

    /** When the first timer triggers. */
    method FrontTrigger() returns (front: Option<nat>)
      requires Linked()
      ensures front == if View().pending == [] then None else Some(View().pending[0].trigger)
    {
      front := if pendingTimers.first == null then None else Some(timers[pendingTimers.first.item].trigger);
    }

    /** After its callback a timer is queued again, or given back. */
    method Settle(id: nat, again: int)
      requires Linked() && id in nodes && nodes[id].head == null && id !in Items(pendingTimers.spine)
      modifies this, pendingTimers, pendingTimers.spine, nodes[id]
      ensures Linked()
      ensures View() == if again >= 0 then QueueNode(device, old(View()), id, Ticks(device, again)) else old(View())
      ensures Footprint(pendingTimers.spine, old(pendingTimers.spine), old(nodes[id]))
    {
      hide ListOk, Linked, QueueNode, Known;
      if again >= 0 {
        QueueTimer(id, Ticks(device, again));
      } else {
        Forget(id);
      }
    }

    /** Runs the first timer's callback, which may queue others, and queues it again or gives it back. */
    method FireFront(ticks: nat, a: Action)
      requires Valid() && Due(View(), ticks)
      modifies this, pendingTimers, pendingTimers.spine
      ensures Valid() && View() == Fire(device, old(View()), ticks, a) && Queues(device, old(View()), a, View())
      ensures forall i :: 0 <= i < |pendingTimers.spine| ==>
        pendingTimers.spine[i] in old(pendingTimers.spine) || fresh(pendingTimers.spine[i])
    {
      hide ListOk, Linked, Inv, ScheduleAll, QueueNode, Unused, Known, Queues;
      ghost var was := View();
      FireQueues(device, was, ticks, a);
      FireInv(device, was, ticks, a);
      PoppedInv(was, ticks);
      ScheduleAllInv(device, Popped(was, ticks), a.schedules);
      FrontBelow(was);
      var id := TakeFront(ticks);
      var n := nodes[id];
      RunCallback(a.schedules);
      NotListed(id);
      Settle(id, a.again);
    }

    method FireAndRead(ticks: nat, a: Action) returns (now: nat)
      requires Valid() && Due(View(), ticks)
      modifies this, pendingTimers, pendingTimers.spine
      ensures Valid() && var f := Fire(device, old(View()), ticks, a);
        View() == f.(readings := f.readings + 1) && now == device.clock(f.readings)
      ensures forall i :: 0 <= i < |pendingTimers.spine| ==>
        pendingTimers.spine[i] in old(pendingTimers.spine) || fresh(pendingTimers.spine[i])
    {
      hide ListOk, Linked, Inv, Fire, Known, PendingOf;
      FireFront(ticks, a);
      ghost var after := View();
      now := GetTicks();
      InvReadings(after, readings);
    }

    /** Runs callbacks while the first timer is due, and says how long until the next one, or -1 for none. */
    method OnTrigger(script: seq<Action>) returns (again: int, ghost now: nat)
      requires Valid()
      modifies this, pendingTimers, pendingTimers.spine
      ensures Valid()
      ensures (View(), now) ==
        Trigger(device, old(View()).(readings := old(readings) + 1), device.clock(old(readings)), script)
      ensures forall i :: 0 <= i < |View().pending| ==> View().pending[i].trigger >= now
      ensures again == if View().pending == [] then -1 else Max(View().pending[0].trigger - now, device.estimate)
    {
      hide ListOk, Linked, Inv, Fire, Trigger, Known, PendingOf;
      ghost var start := View();
      var ticks := GetTicks();
      ghost var first, tick0 := View(), ticks;
      InvReadings(start, readings);
      TriggerInv(device, first, ticks, script);
      var left := script;
      var front := FrontTrigger();
      while front.Some? && front.value < ticks
        invariant Valid() && front == if View().pending == [] then None else Some(View().pending[0].trigger)
        invariant Trigger(device, View(), ticks, left) == Trigger(device, first, tick0, script)
        invariant forall i :: 0 <= i < |pendingTimers.spine| ==>
        pendingTimers.spine[i] in old(pendingTimers.spine) || fresh(pendingTimers.spine[i])
        decreases |left|, |View().pending|
      {
        TriggerStep(device, View(), ticks, left);
        ticks := FireAndRead(ticks, NextAction(left));
        left := Later(left);
        front := FrontTrigger();
      }
      TriggerStops(device, View(), ticks, left);
      now := ticks;
      again := if front.None? then -1 else Max(front.value - ticks, device.estimate);
    }

    /** The device's interrupt: the callbacks, and then the device is set again or switched off. */
    method Interrupt(script: seq<Action>)
      requires Valid()
      modifies this, pendingTimers, pendingTimers.spine
      ensures Valid() && View() == Apply(device, old(View()), TriggerCall(script))
    {
      hide ListOk, Linked, Inv, Trigger, Known, PendingOf;
      var again, now := OnTrigger(script);
      ghost var was := View();
      if again >= 0 {
        SetNextTick(again);
      } else {
        armed := None;
      }
      KeepsInv(was, View());
    }
  }

  lemma PendingForget(ids: seq<nat>, timers: map<nat, Timer>, stamps: map<nat, nat>, id: nat)
    requires Known(ids, timers, stamps) && id !in ids
    ensures Known(ids, timers - {id}, stamps) && PendingOf(ids, timers - {id}, stamps) == PendingOf(ids, timers, stamps)
  {
  }

  lemma TriggerStep(d: Device, q: Queue, ticks: nat, script: seq<Action>)
    requires Due(q, ticks)
    ensures var f := Fire(d, q, ticks, NextAction(script));
      && Trigger(d, q, ticks, script) == Trigger(d, f.(readings := f.readings + 1), d.clock(f.readings), Later(script))
      && (script == [] ==> |f.pending| < |q.pending|)
  {
    FireShrinks(d, q, ticks);
  }

  /** The new timer is the first exactly when it goes before all others. */
  lemma FirstIs(d: Device, q: Queue, id: nat, period: nat)
    requires Unused(q, id)
    ensures Queued(d, q, id, period).pending != []
    ensures Queued(d, q, id, period).pending[0].id == id <==> Place(q.pending, d.clock(q.readings) + period) == 0
  {
    hide Inserted;
  }

  lemma NotPending(q: Queue, ids: seq<nat>, timers: map<nat, Timer>, stamps: map<nat, nat>, id: nat)
    requires Known(ids, timers, stamps) && q.pending == PendingOf(ids, timers, stamps) && id !in ids
    ensures Unused(q, id)
  {
  }

  lemma TriggerStops(d: Device, q: Queue, ticks: nat, script: seq<Action>)
    requires !Due(q, ticks)
    ensures Trigger(d, q, ticks, script) == (q, ticks)
  {
  }

  lemma InvReadings(q: Queue, n: nat)
    requires Inv(q)
    ensures Inv(q.(readings := n))
  {
  }

  lemma FrontBelow(q: Queue)
    requires Inv(q) && q.pending != []
    ensures q.pending[0].id < q.ids
  {
  }

  lemma UnusedItems(ids: seq<nat>, timers: map<nat, Timer>, stamps: map<nat, nat>, q: Queue, id: nat)
    requires Known(ids, timers, stamps) && q.pending == PendingOf(ids, timers, stamps) && Unused(q, id)
    ensures id !in ids
  {
  }

  lemma PendingTail(ids: seq<nat>, timers: map<nat, Timer>, stamps: map<nat, nat>)
    requires Known(ids, timers, stamps) && ids != []
    ensures Known(ids[1..], timers, stamps)
    ensures PendingOf(ids[1..], timers, stamps) == PendingOf(ids, timers, stamps)[1..]
  {
  }

  /** Nodes stay where they are while others are added. */
  ghost predicate Extends(now: map<nat, Node<nat>>, before: map<nat, Node<nat>>) {
    forall id :: id in before ==> id in now && now[id] == before[id]
  }

  /** Only nodes that were in the list, and the one put in. */
  ghost predicate Footprint(now: seq<Node<nat>>, before: seq<Node<nat>>, n: Node<nat>) {
    forall i :: 0 <= i < |now| ==> now[i] in before || now[i] == n
  }
}
