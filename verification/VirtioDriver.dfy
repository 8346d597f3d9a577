/** The virtqueue object: the driver's methods, the device's, and a driver's processing loop whose
    callbacks may post further transfers while the device goes on working. */
module VirtioDriver {
  import opened Modular
  import opened VirtioModel
  import opened VirtioQueue

  /** What else happens while a callback runs. */
  datatype Action = Submit(transfer: Transfer) | DeviceTakes | DeviceCompletes(completion: Completion)

  /** The device remembers the first descriptor of every transfer it has taken, and which it completed. */
  ghost predicate DeviceKnows(heads: seq<nat>, done: set<nat>, q: Queue) {
    && |heads| == q.taken
    && (forall t :: t in q.chains && t < q.taken ==> |q.chains[t]| > 0 && heads[t] == q.chains[t][0])
    && (forall k :: 0 <= k < |q.completed| ==> q.completed[k].id in done)
    && (forall t :: t in done ==> exists k :: 0 <= k < |q.completed| && q.completed[k].id == t)
  }

  // ----- what callbacks and the device do, on the queue as the steps see it -----

  function Performed(q: Queue, action: Action): (r: Queue) {
    match action
    case Submit(transfer) => if Enabled(q, Post(transfer)) then Apply(q, Post(transfer)) else q
    case DeviceTakes => if q.taken % U16 != |q.transfers| % U16 then Apply(q, Take) else q
    case DeviceCompletes(c) => if Enabled(q, Complete(c)) then Apply(q, Complete(c)) else q
  }

  function PerformedAll(q: Queue, actions: seq<Action>): (r: Queue) {
    if actions == [] then q else Performed(PerformedAll(q, actions[..|actions| - 1]), actions[|actions| - 1])
  }

  function FirstOf(script: seq<seq<Action>>): (r: seq<Action>) { if script == [] then [] else script[0] }

  function RestOf(script: seq<seq<Action>>): (r: seq<seq<Action>>) { if script == [] then [] else script[1..] }

  /** Completions are processed one by one, with the script's actions after each, until none is left. */
  function Drained(q: Queue, script: seq<seq<Action>>): (r: Queue)
    decreases |script|, |q.completed| - q.seen
  {
    var p := Apply(q, Process);
    if q.seen >= |q.completed| || p.seen <= q.seen then q
    else Drained(PerformedAll(p, FirstOf(script)), RestOf(script))
  }

  lemma DeviceStillKnows(heads: seq<nat>, done: set<nat>, q: Queue, step: Step)
    requires DeviceKnows(heads, done, q) && Enabled(q, step) && q.taken <= |q.transfers|
    ensures step.Post? || step.Process? ==> DeviceKnows(heads, done, Apply(q, step))
    ensures step.Take? && q.taken in q.chains && |q.chains[q.taken]| > 0 ==>
              DeviceKnows(heads + [q.chains[q.taken][0]], done, Apply(q, step))
    ensures step.Complete? ==> DeviceKnows(heads, done + {step.completion.id}, Apply(q, step))
  {
    if step.Complete? {
      var now := Apply(q, step).completed;
      assert now[|q.completed|].id == step.completion.id;
      forall t | t in done ensures exists k :: 0 <= k < |now| && now[k].id == t {
        var k :| 0 <= k < |q.completed| && q.completed[k].id == t;
        assert now[k].id == t;
      }
    }
  }

  class SplitVQ {
    const desc: array<Descriptor>
    const available: array<nat>
    const used: array<UsedEntry>
    var callbacks: map<nat, nat>
    var nextFree: nat
    var freeCount: nat
    var availableIdx: nat
    var usedIdx: nat
    var lastSeen: nat
    var log: seq<(nat, nat)>
    var deviceHeads: seq<nat>
    var deviceDone: set<nat>
    ghost var queue: Queue
    ghost var history: seq<Step>

    ghost function Contents(): Memory
      reads this, desc, available, used
    {
      Memory(desc[..], available[..], used[..], callbacks, nextFree, freeCount, availableIdx, usedIdx, lastSeen, log)
    }

    ghost predicate Valid()
      reads this, desc, available, used
    {
      && Represents(Contents(), queue)
      && desc.Length == available.Length == used.Length == queue.num
      && DeviceKnows(deviceHeads, deviceDone, queue)
      && Legal(desc.Length, history) && queue == Run(desc.Length, history)
    }

    /** The memory now holds the state after one more step of the run. */
    twostate predicate Stepped(step: Step)
      reads this
    {
      && Enabled(old(queue), step) && queue == Apply(old(queue), step)
      && history == old(history) + [step]
    }

    /** All descriptors start on the free list, each linked to the next. */
    constructor (num: nat)
      requires 0 < num < U16 && U16 % num == 0
      ensures Valid() && desc.Length == num && queue == Start(num) && log == []
      ensures fresh(desc) && fresh(available) && fresh(used)
    {
      desc := new Descriptor[num](i => Descriptor(0, 0, false, false, i + 1));
      available := new nat[num](_ => 0);
      used := new UsedEntry[num](_ => UsedEntry(0, 0));
      callbacks, nextFree, freeCount, availableIdx, usedIdx, lastSeen := map[], 0, num, 0, 0, 0;
      log, deviceHeads, deviceDone := [], [], {};
      queue, history := Start(num), [];
      new;
      StartInv(num);
    }

    /** Takes the first descriptor off the free list. */
    method AllocateDescriptor() returns (idx: nat)
      requires nextFree < desc.Length
      modifies this`nextFree, this`freeCount, desc
      requires freeCount > 0
      ensures idx == old(nextFree) && freeCount == old(freeCount) - 1
      ensures nextFree == old(desc[idx].next)
      ensures desc[..] == old(desc[..])[idx := old(desc[idx]).(next := desc.Length)]
    {
      freeCount := freeCount - 1;
      idx := nextFree;
      nextFree := desc[idx].next;
      desc[idx] := desc[idx].(next := desc.Length);
    }

    /** Fills the next free descriptor with an element and links it behind `last`. */
    method AppendElement(e: Element, linked: bool, last: nat) returns (idx: nat)
      requires nextFree < desc.Length && freeCount > 0 && (linked ==> last < desc.Length && last != nextFree)
      modifies this`nextFree, this`freeCount, desc
      ensures idx == old(nextFree) && nextFree == old(desc[nextFree]).next && freeCount == old(freeCount) - 1
      ensures desc[..] == Filled(old(desc[..]), linked, last, idx, e)
    {
      idx := AllocateDescriptor();
      if linked {
        desc[last] := desc[last].(next := idx, more := true);
      }
      desc[idx] := desc[idx].(address := e.address, length := e.length, deviceWrites := e.deviceWrites, more := false);
    }

    /** Writes the elements into descriptors taken off the free list, linking each to the next. */
    method WriteChain(elements: seq<Element>) returns (start: nat)
      requires Valid() && 1 <= |elements| <= freeCount
      modifies this`nextFree, this`freeCount, desc
      ensures |elements| <= |queue.free| && start == queue.free[0]
      ensures OnlyChanged(old(desc[..]), desc[..], queue.free[..|elements|])
      ensures ChainHolds(desc[..], queue.free[..|elements|], elements)
      ensures FreeLinked(desc[..], nextFree, queue.free[|elements|..])
      ensures freeCount == old(freeCount) - |elements|
    {
      hide Inv;
      hide ChainHolds;
      hide ChainsHold;
      hide AvailableHolds;
      hide UsedHolds;
      hide CallbacksHold;
      hide Filled;
      ghost var free, before := queue.free, desc[..];
      FreeFacts(queue);
      EmptyChain(desc[..]);
      start := 0;
      var last := 0;
      for k := 0 to |elements|
        invariant nextFree == At(free, k, desc.Length) && freeCount == |free| - k
        invariant Building(before, desc[..], free, elements, k)
        invariant last == (if k > 0 then free[k - 1] else 0) && (k > 0 ==> start == free[0])
      {
        assert desc[free[k]] == before[free[k]] by {
          assert free[k] !in free[..k];
        }
        BuildStep(before, desc[..], free, elements, k);
        last := AppendElement(elements[k], k > 0, last);
        if k == 0 {
          start := last;
        }
      }
      Built(before, desc[..], old(nextFree), free, elements, nextFree);
    }

    method PlaceAvailable(index: nat)
      requires available.Length > 0
      modifies this`availableIdx, available
      ensures available[..] == old(available[..])[Slot(old(availableIdx), available.Length) := index]
      ensures availableIdx == (old(availableIdx) + 1) % U16
    {
      available[Slot(availableIdx, available.Length)] := index;
      availableIdx := (availableIdx + 1) % U16;
    }

    /** Posts a transfer if enough descriptors are free.  Taking a descriptor never fails, and the callback
        table never holds an entry for the transfer's first descriptor already. */
    method QueueTransfer(transfer: Transfer) returns (ok: bool)
      requires Valid() && |transfer.elements| > 0
      modifies this, desc, available
      ensures Valid() && ok == (|transfer.elements| <= |old(queue).free|)
      ensures if ok then Stepped(Post(transfer)) else unchanged(this, desc, available)
    {
      hide Run;
      hide Legal;
      hide Represents;
      hide FreeLinked;
      hide ChainHolds;
      hide Slot;
      hide Apply;
      hide DeviceKnows;
      hide Calls;
      Counters(Contents(), queue);
      if freeCount < |transfer.elements| {
        return false;
      }
      ghost var m := Contents();
      var start := WriteChain(transfer.elements);
      PostRep(m, queue, transfer, desc[..], nextFree);
      assert start !in callbacks;
      callbacks := callbacks[start := transfer.callback];
      SlotOfIndex(|queue.transfers|, queue.num);
      PlaceAvailable(start);
      Extend(desc.Length, history, Post(transfer));
      DeviceStillKnows(deviceHeads, deviceDone, queue, Post(transfer));
      queue, history := Apply(queue, Post(transfer)), history + [Post(transfer)];
      ok := true;
    }

    // ----- the device -----

    /** The device takes the next transfer and reads its chain: exactly the elements that were posted. */
    method DeviceTake() returns (elements: seq<Element>)
      requires Valid() && Enabled(queue, Take)
      modifies this`queue, this`history, this`deviceHeads
      ensures Valid() && Stepped(Take)
      ensures elements == queue.transfers[old(queue).taken].elements
    {
      hide Run;
      hide Legal;
      hide Inv;
      hide FreeLinked;
      hide ChainsHold;
      hide AvailableHolds;
      hide UsedHolds;
      hide CallbacksHold;
      hide Slot;
      TakeRep(Contents(), queue);
      ghost var t := queue.taken;
      ghost var chain := queue.chains[t];
      var d := available[Slot(|deviceHeads| % U16, available.Length)];
      CompletedWerePosted(queue);
      DeviceStillKnows(deviceHeads, deviceDone, queue, Take);
      deviceHeads := deviceHeads + [d];
      elements := [Element(desc[d].address, desc[d].length, desc[d].deviceWrites)];
      while desc[d].more
        invariant 1 <= |elements| <= |chain| && d == chain[|elements| - 1]
        invariant elements == queue.transfers[t].elements[..|elements|]
        decreases |chain| - |elements|
      {
        assert chain[|elements|] < desc.Length;
        d := desc[d].next;
        elements := elements + [Element(desc[d].address, desc[d].length, desc[d].deviceWrites)];
      }
      Extend(desc.Length, history, Take);
      queue, history := Apply(queue, Take), history + [Take];
    }

    /** The device posts a completion of a transfer it has taken and not completed yet. */
    method DeviceComplete(c: Completion)
      requires Valid() && Enabled(queue, Complete(c))
      modifies this`queue, this`history, this`usedIdx, this`deviceDone, used
      ensures Valid() && Stepped(Complete(c))
      ensures used.Length > 0 && forall i :: 0 <= i < used.Length && i != Slot(|old(queue).completed|, used.Length) ==>
        used[i] == old(used[i])
    {
      hide Run;
      hide Legal;
      hide Represents;
      hide Slot;
      hide Apply;
      Counters(Contents(), queue);
      CompleteRep(Contents(), queue, c);
      SlotOfIndex(|queue.completed|, queue.num);
      used[Slot(usedIdx, used.Length)] := UsedEntry(deviceHeads[c.id], c.length);
      usedIdx := (usedIdx + 1) % U16;
      DeviceStillKnows(deviceHeads, deviceDone, queue, Complete(c));
      deviceDone := deviceDone + {c.id};
      Extend(desc.Length, history, Complete(c));
      queue, history := Apply(queue, Complete(c)), history + [Complete(c)];
    }

    // ----- the driver's interrupt handler -----

    /** Follows the NEXT flags to the end of a chain, counting its descriptors. */
    method ChainEnd(head: nat, ghost chain: seq<nat>, ghost elements: seq<Element>) returns (last: nat, count: nat)
      requires ChainHolds(desc[..], chain, elements) && |chain| > 0 && head == chain[0]
      ensures last == chain[|chain| - 1] && count == |chain| && last < desc.Length
    {
      count, last := 1, head;
      while desc[last].more
        invariant 1 <= count <= |chain| && last == chain[count - 1] && last < desc.Length
        decreases |chain| - count
      {
        assert chain[count] < desc.Length;
        last := desc[last].next;
        count := count + 1;
      }
    }

    /** Puts a chain back in front of the free list and forgets its callback. */
    method FreeChain(head: nat, last: nat, count: nat)
      requires last < desc.Length
      modifies desc, this`callbacks, this`nextFree, this`freeCount
      ensures Contents() == old(Contents()).(
                desc := old(desc[..])[last := old(desc[last]).(next := old(nextFree))], nextFree := head,
                freeCount := old(freeCount) + count, callbacks := old(callbacks) - {head})
    {
      desc[last] := desc[last].(next := nextFree);
      callbacks, nextFree, freeCount := callbacks - {head}, head, freeCount + count;
    }

    /** The body of the processing loop: frees the chain that starts at the entry's descriptor and runs the callback
        found for it, if any. */
    method ProcessEntry(ghost chain: seq<nat>, ghost elements: seq<Element>)
      requires used.Length > 0 && |chain| > 0 && ChainHolds(desc[..], chain, elements)
      requires used[Slot(lastSeen, used.Length)].id == chain[0]
      modifies this`callbacks, this`nextFree, this`freeCount, this`lastSeen, this`log, desc
      ensures chain[|chain| - 1] < desc.Length
      ensures var last, entry := chain[|chain| - 1], used[Slot(old(lastSeen), used.Length)];
        var callback := if entry.id in old(callbacks) then old(callbacks)[entry.id] else 0;
        Contents() == old(Contents()).(
          desc := old(desc[..])[last := old(desc[last]).(next := old(nextFree))], nextFree := entry.id,
          freeCount := old(freeCount) + |chain|, callbacks := old(callbacks) - {entry.id},
          lastSeen := (old(lastSeen) + 1) % U32,
          log := old(log) + if callback != 0 then [(callback, entry.length)] else [])
    {
      hide ChainHolds;
      hide Slot;
      var entry := used[Slot(lastSeen, used.Length)];
      var callback := if entry.id in callbacks then callbacks[entry.id] else 0;
      var d, count := ChainEnd(entry.id, chain, elements);
      FreeChain(entry.id, d, count);
      lastSeen := (lastSeen + 1) % U32;
      log := log + (if callback != 0 then [(callback, entry.length)] else []);
    }

    /** Processes the completion at the front of the used ring: frees its chain and runs its callback. */
    method ProcessOne()
      requires Valid() && Enabled(queue, Process)
      modifies this, desc
      ensures Valid() && Stepped(Process)
      ensures queue.seen == old(queue).seen + 1 && queue.completed == old(queue).completed
      ensures queue.transfers == old(queue).transfers
      ensures var c := old(queue).completed[old(queue).seen];
        && c.id < |queue.transfers|
        && var callback := queue.transfers[c.id].callback;
        log == old(log) + if callback != 0 then [(callback, c.length)] else []
      ensures forall d :: 0 <= d < desc.Length ==> desc[d].more == old(desc[d].more)
    {
      hide Run;
      hide Legal;
      hide Represents;
      hide ChainHolds;
      hide Slot;
      hide Apply;
      hide DeviceKnows;
      hide Calls;
      ghost var m := Contents();
      Counters(m, queue);
      ProcessedFacts(m, queue);
      ghost var id := queue.completed[queue.seen].id;
      PendingChain(m, queue);
      ghost var chain := queue.chains[id];
      ProcessRep(m, queue, chain[|chain| - 1]);
      SlotOfIndex(queue.seen, queue.num);
      Extend(desc.Length, history, Process);
      DeviceStillKnows(deviceHeads, deviceDone, queue, Process);
      ProcessEntry(chain, queue.transfers[id].elements);
      assert forall d :: 0 <= d < desc.Length ==> desc[..][d].more == m.desc[d].more;
      queue, history := Apply(queue, Process), history + [Process];
      Shown(Contents(), queue);
    }

    /** One thing that happens while a callback runs; what is not possible at the moment does not happen. */
    method Perform(action: Action)
      requires Valid()
      modifies this, desc, available, used
      ensures Valid() && queue == Performed(old(queue), action)
    {
      hide Represents;
      hide Legal;
      hide Run;
      Counters(Contents(), queue);
      match action {
        case Submit(transfer) =>
          if |transfer.elements| > 0 {
            var ok := QueueTransfer(transfer);
          }
        case DeviceTakes =>
          if |deviceHeads| % U16 != availableIdx {
            var elements := DeviceTake();
          }
        case DeviceCompletes(c) =>
          if c.id < |deviceHeads| && c.id !in deviceDone {
            DeviceComplete(c);
          }
      }
    }

    method PerformAll(actions: seq<Action>)
      requires Valid()
      modifies this, desc, available, used
      ensures Valid() && queue == PerformedAll(old(queue), actions)
    {
      hide Represents, Legal, Run, DeviceKnows, Performed;
      for i := 0 to |actions|
        invariant Valid() && queue == PerformedAll(old(queue), actions[..i])
      {
        Perform(actions[i]);
        assert actions[..i + 1][..i] == actions[..i];
      }
      assert actions[..|actions|] == actions;
    }

    /** The interrupt handler: processes completions until the ring is drained.  While the k-th callback
        runs, the actions of script[k] happen: the callback may post transfers and the device goes on.  The loop
        stops on the drained ring if the count of completions is by then below 2^16, modulo 2^32. */
    method ProcessUsed(script: seq<seq<Action>>)
      requires Valid() && Drained(queue, script).seen % U32 < U16
      modifies this, desc, available, used
      ensures Valid()
      ensures queue.seen == |queue.completed| && queue == Drained(old(queue), script)
    {
      hide Represents, Legal, Run, DeviceKnows, Apply, PerformedAll;
      var left := script;
      Waiting(Contents(), queue);
      DrainedNow(queue, left);
      while lastSeen != usedIdx
        invariant Valid() && queue.seen <= |queue.completed|
        invariant lastSeen != usedIdx <==> queue.seen < |queue.completed| || queue.seen % U32 >= U16
        invariant Drained(queue, left) == Drained(old(queue), script)
        invariant queue.seen == |queue.completed| ==> Drained(queue, left) == queue
        decreases |left|, |queue.completed| - queue.seen
      {
        ProcessOne();
        PerformedNone(queue);
        if left != [] {
          PerformAll(left[0]);
          left := left[1..];
        }
        Waiting(Contents(), queue);
        DrainedNow(queue, left);
      }
    }
  }

  /** What the loop guard says of a queue in memory. */
  lemma Waiting(m: Memory, q: Queue)
    requires Represents(m, q)
    ensures q.seen <= |q.completed|
    ensures m.lastSeen != m.usedIdx <==> q.seen < |q.completed| || q.seen % U32 >= U16
  {
    hide Inv;
    Counters(m, q);
    RingsNeverOverrun(q);
    GuardExactly(q.seen, |q.completed|, q.num);
  }

  lemma ProcessedFacts(m: Memory, q: Queue)
    requires Represents(m, q) && Enabled(q, Process)
    ensures var c, r := q.completed[q.seen], Apply(q, Process);
      && c.id < |q.transfers| && r.transfers == q.transfers && r.seen == q.seen + 1 && r.completed == q.completed
      && var callback := q.transfers[c.id].callback;
        Calls(r, r.seen) == m.log + if callback != 0 then [(callback, c.length)] else []
  {
    hide Represents;
    Shown(m, q);
    CallsKept(q, q.seen);
  }

  /** Processing changes neither transfers nor completions. */
  lemma {:induction false} CallsKept(q: Queue, n: nat)
    requires n <= |q.completed|
    ensures n <= |Apply(q, Process).completed| && Calls(Apply(q, Process), n) == Calls(q, n)
  {
    if n > 0 {
      CallsKept(q, n - 1);
    }
  }

  lemma DrainedNow(q: Queue, script: seq<seq<Action>>)
    ensures q.seen >= |q.completed| ==> Drained(q, script) == q
  {
  }

  lemma PerformedNone(q: Queue)
    ensures PerformedAll(q, []) == q
  {
  }

  lemma Shown(m: Memory, q: Queue)
    requires Represents(m, q)
    ensures Inv(q) && q.seen <= |q.completed| && m.log == Calls(q, q.seen)
  {
  }

  datatype Event = Happens(action: Action) | Interrupt(script: seq<seq<Action>>)

  /** The queue after a sequence of events from its construction. */
  function RunEvents(num: nat, events: seq<Event>): (q: Queue) {
    if events == [] then Start(num)
    else
      var q := RunEvents(num, events[..|events| - 1]);
      match events[|events| - 1]
      case Happens(action) => Performed(q, action)
      case Interrupt(script) => Drained(q, script)
  }

  /** The handler comes to an end each time it runs. */
  predicate Settles(num: nat, events: seq<Event>) {
    events != [] ==>
      var front, last := events[..|events| - 1], events[|events| - 1];
      Settles(num, front) && (last.Interrupt? ==> Drained(RunEvents(num, front), last.script).seen % U32 < U16)
  }

  /** Any run of the queue from its construction: whatever is posted, taken, completed and processed, in
      whatever order and however callbacks re-enter, the callbacks run are those of the processed
      completions, each its own transfer's, once each, in completion order. */
  method RunQueue(num: nat, events: seq<Event>) returns (log: seq<(nat, nat)>, ghost steps: seq<Step>)
    requires 0 < num < U16 && U16 % num == 0 && Settles(num, events)
    ensures Legal(num, steps) && RunEvents(num, events) == Run(num, steps) && Inv(Run(num, steps))
    ensures RunEvents(num, events).seen <= |RunEvents(num, events).completed|
    ensures log == Calls(RunEvents(num, events), RunEvents(num, events).seen)
  {
    hide Drained, Performed, Represents, DeviceKnows, Run, Legal;
    var vq := new SplitVQ(num);
    assert events[..0] == [];
    SettlesBefore(num, events);
    for i := 0 to |events|
      invariant vq.Valid() && vq.desc.Length == num
      invariant vq.queue == RunEvents(num, events[..i])
      invariant fresh(vq) && fresh(vq.desc) && fresh(vq.available) && fresh(vq.used)
    {
      assert events[..i + 1][..i] == events[..i];
      assert Settles(num, events[..i + 1]);
      match events[i] {
        case Happens(action) => vq.Perform(action);
        case Interrupt(script) => vq.ProcessUsed(script);
      }
    }
    assert events[..|events|] == events;
    Shown(vq.Contents(), vq.queue);
    log, steps := vq.log, vq.history;
  }

  lemma {:induction false} SettlesBefore(num: nat, events: seq<Event>)
    requires Settles(num, events)
    ensures forall i :: 0 <= i <= |events| ==> Settles(num, events[..i])
    decreases |events|
  {
    assert events[..|events|] == events;
    if events != [] {
      var front := events[..|events| - 1];
      SettlesBefore(num, front);
      forall i | 0 <= i < |events| ensures Settles(num, events[..i]) {
        assert events[..i] == front[..i];
      }
    }
  }

  /** Below 2^16 completions in all, it does. */
  lemma {:induction false} FewSettle(num: nat, events: seq<Event>)
    requires |RunEvents(num, events).completed| < U16
    ensures Settles(num, events)
    decreases |events|
  {
    hide Performed;
    if events != [] {
      var front, last := events[..|events| - 1], events[|events| - 1];
      var q := RunEvents(num, front);
      SeenBelow(num, front);
      match last {
        case Happens(action) => PerformedGrows(q, action);
        case Interrupt(script) => DrainedGrows(q, script);
      }
      FewSettle(num, front);
    }
  }

  lemma PerformedGrows(q: Queue, action: Action)
    ensures |q.completed| <= |Performed(q, action).completed| && Performed(q, action).seen == q.seen
  {
  }

  lemma {:induction false} PerformedAllGrows(q: Queue, actions: seq<Action>)
    ensures |q.completed| <= |PerformedAll(q, actions).completed| && PerformedAll(q, actions).seen == q.seen
  {
    hide Performed;
    if actions != [] {
      PerformedAllGrows(q, actions[..|actions| - 1]);
      PerformedGrows(PerformedAll(q, actions[..|actions| - 1]), actions[|actions| - 1]);
    }
  }

  lemma {:induction false} DrainedGrows(q: Queue, script: seq<seq<Action>>)
    ensures var r := Drained(q, script);
      |q.completed| <= |r.completed| && (q.seen <= |q.completed| ==> r.seen <= |r.completed|)
    decreases |script|, |q.completed| - q.seen
  {
    hide Performed;
    var p := Apply(q, Process);
    if q.seen < |q.completed| && p.seen > q.seen {
      PerformedAllGrows(p, FirstOf(script));
      DrainedGrows(PerformedAll(p, FirstOf(script)), RestOf(script));
    }
  }

  lemma {:induction false} SeenBelow(num: nat, events: seq<Event>)
    ensures RunEvents(num, events).seen <= |RunEvents(num, events).completed|
    decreases |events|
  {
    hide Performed;
    if events != [] {
      var front, last := events[..|events| - 1], events[|events| - 1];
      SeenBelow(num, front);
      match last
      case Happens(action) => PerformedGrows(RunEvents(num, front), action);
      case Interrupt(script) => DrainedGrows(RunEvents(num, front), script);
    }
  }

  // ----- a run that outgrows the ring index -----

  /** Every transfer posted so far has been taken, completed and processed. */
  ghost predicate Idle(q: Queue, num: nat, count: nat) {
    && q.num == num && q.free == Start(num).free && q.chains == map[]
    && |q.transfers| == q.taken == |q.completed| == q.seen == count
  }

  /** One transfer of one element, there and back, takes descriptor 0 and gives it back. */
  lemma RoundSteps(q: Queue, num: nat, count: nat, t: Transfer)
    requires Inv(q) && Idle(q, num, count) && num > 0 && |t.elements| == 1
    ensures
      var done := Completion(count, 0);
      var q1 := Apply(q, Post(t));
      var q2 := Apply(q1, Take);
      var q3 := Apply(q2, Complete(done));
      && Enabled(q, Post(t)) && Enabled(q1, Take) && Enabled(q2, Complete(done)) && Enabled(q3, Process)
      && q1.chains == q2.chains == q3.chains == map[count := [0]] && |q2.completed| == count
      && q1.transfers == q2.transfers == q3.transfers == q.transfers + [t]
      && q2.taken == count + 1 && q3.completed == q.completed + [done] && q3.seen == count
      && Idle(Apply(q3, Process), num, count + 1)
  {
    assert q.free[..1] == [0] && [0] + q.free[1..] == q.free;
    assert map[count := [0]] - {count} == map[];
  }

  method Round(vq: SplitVQ, element: Element, ghost count: nat)
    requires vq.Valid() && vq.desc.Length > 0 && Idle(vq.queue, vq.desc.Length, count)
    modifies vq, vq.desc, vq.available, vq.used
    ensures vq.Valid() && Idle(vq.queue, vq.desc.Length, count + 1)
    ensures !vq.desc[0].more && vq.used.Length > 0 && vq.used[Slot(count, vq.used.Length)].id == 0
    ensures forall i :: 0 <= i < vq.used.Length && i != Slot(count, vq.used.Length) ==> vq.used[i] == old(vq.used[i])
  {
    hide Run, Legal, DeviceKnows, Slot, Inv, Apply, Represents, Enabled;
    var transfer := Transfer([element], 0);
    Shown(vq.Contents(), vq.queue);
    RoundSteps(vq.queue, vq.desc.Length, count, transfer);
    PostRoom(vq.queue, transfer);
    var ok := vq.QueueTransfer(transfer);
    SingleChain(vq.Contents(), vq.queue, count, element);
    var elements := vq.DeviceTake();
    TakenCount(vq.deviceHeads, vq.deviceDone, vq.queue, count);
    vq.DeviceComplete(Completion(|vq.deviceHeads| - 1, 0));
    LastUsed(vq.Contents(), vq.queue, count);
    vq.ProcessOne();
  }

  lemma PostRoom(q: Queue, t: Transfer)
    requires Enabled(q, Post(t))
    ensures |t.elements| <= |q.free|
  {
  }

  lemma SingleChain(m: Memory, q: Queue, t: nat, element: Element)
    requires Represents(m, q) && q.chains == map[t := [0]] && |q.transfers| == t + 1
    requires q.transfers[t].elements == [element]
    ensures |m.desc| > 0 && !m.desc[0].more
  {
    hide Inv;
    assert ChainHolds(m.desc, q.chains[t], q.transfers[t].elements);
    assert q.chains[t][0] == 0;
  }

  lemma TakenCount(heads: seq<nat>, done: set<nat>, q: Queue, count: nat)
    requires DeviceKnows(heads, done, q) && q.taken == count + 1
    ensures |heads| == count + 1
  {
  }

  lemma LastUsed(m: Memory, q: Queue, count: nat)
    requires Represents(m, q) && q.seen == count && |q.completed| == count + 1 && q.completed[count].id == count
    requires q.chains == map[count := [0]]
    ensures |m.used| > 0 && m.used[Slot(count, |m.used|)].id == 0
  {
    hide Inv;
    hide Slot;
  }

  /** A legal run of 2^16 transfers, each completed and processed, after which every descriptor is free and nothing
      waits, and yet the loop goes on: its next pass frees descriptor 0 once more, so that there are more free
      descriptors than descriptors and the free list leads from descriptor 0 to itself. */
  method WrappedRun(num: nat, element: Element)
    returns (guard: bool, counted: nat, head: nat, next: nat, ghost steps: seq<Step>)
    requires 0 < num < U16 && U16 % num == 0
    ensures Legal(num, steps) && Idle(Run(num, steps), num, U16)
    ensures guard && counted == num + 1 && head == next == 0
  {
    hide Run, Legal, DeviceKnows, Represents, Inv;
    var vq := new SplitVQ(num);
    for i := 0 to U16
      invariant fresh(vq) && fresh(vq.desc) && fresh(vq.available) && fresh(vq.used)
      invariant vq.Valid() && vq.desc.Length == vq.used.Length == num && Idle(vq.queue, num, i)
      invariant i > 0 ==> !vq.desc[0].more && vq.used[0].id == 0
    {
      FirstSlot(num);
      Round(vq, element, i);
    }
    steps := vq.history;
    FirstSlot(num);
    Counters(vq.Contents(), vq.queue);
    guard := vq.lastSeen != vq.usedIdx;
    ghost var d := vq.desc[0];
    assert Slot(vq.lastSeen, num) == 0;
    FrontOfList(vq.Contents(), vq.queue);
    vq.ProcessEntry([0], [Element(d.address, d.length, d.deviceWrites)]);
    counted, head := vq.freeCount, vq.nextFree;
    assert vq.desc[..][0].next == 0;
    next := vq.desc[0].next;
  }

  lemma FirstSlot(num: nat)
    requires num > 0 && U16 % num == 0
    ensures Slot(0, num) == 0 && Slot(U16, num) == 0
  {
  }

  lemma FrontOfList(m: Memory, q: Queue)
    requires Represents(m, q) && q.free == Start(q.num).free
    ensures m.nextFree == 0 && m.freeCount == q.num
  {
  }
}
