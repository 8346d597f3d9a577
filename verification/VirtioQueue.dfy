/** The split virtqueue in memory: descriptor table, available ring, used ring and callback table, the
    driver's methods on them and the device's. */
module VirtioQueue {
  import opened Modular
  import opened VirtioModel

  /** A descriptor; `more` is its NEXT flag and `deviceWrites` its WRITE flag. */
  datatype Descriptor = Descriptor(address: int, length: int, deviceWrites: bool, more: bool, next: nat)

  datatype UsedEntry = UsedEntry(id: nat, length: nat)

  function At(s: seq<nat>, i: nat, end: nat): nat {
    if i < |s| then s[i] else end
  }

  /** Following `next` from `head` visits the free list and ends at `num`. */
  ghost predicate FreeLinked(desc: seq<Descriptor>, head: nat, free: seq<nat>) {
    && head == At(free, 0, |desc|)
    && forall i :: 0 <= i < |free| ==> free[i] < |desc| && desc[free[i]].next == At(free, i + 1, |desc|)
  }

  /** Walking NEXT flags along `chain` spells out `elements`. */
  ghost predicate ChainHolds(desc: seq<Descriptor>, chain: seq<nat>, elements: seq<Element>) {
    && |chain| == |elements|
    && forall i :: 0 <= i < |chain| ==>
         && chain[i] < |desc|
         && desc[chain[i]].address == elements[i].address
         && desc[chain[i]].length == elements[i].length
         && desc[chain[i]].deviceWrites == elements[i].deviceWrites
         && desc[chain[i]].more == (i + 1 < |chain|)
         && (i + 1 < |chain| ==> desc[chain[i]].next == chain[i + 1])
  }

  ghost predicate ChainsHold(desc: seq<Descriptor>, q: Queue) {
    forall t :: t in q.chains && t < |q.transfers| ==> ChainHolds(desc, q.chains[t], q.transfers[t].elements)
  }

  /** The available ring holds the first descriptor of every transfer the device has yet to take. */
  ghost predicate AvailableHolds(available: seq<nat>, q: Queue) {
    |available| > 0 && forall t: nat :: q.taken <= t < |q.transfers| ==>
      t in q.chains && |q.chains[t]| > 0 && available[Slot(t, |available|)] == q.chains[t][0]
  }

  /** The used ring holds every completion the driver has yet to process. */
  ghost predicate UsedHolds(used: seq<UsedEntry>, q: Queue) {
    |used| > 0 && forall k :: q.seen <= k < |q.completed| ==>
      && q.completed[k].id in q.chains && |q.chains[q.completed[k].id]| > 0
      && used[Slot(k, |used|)] == UsedEntry(q.chains[q.completed[k].id][0], q.completed[k].length)
  }

  /** The callback table maps the first descriptor of each unprocessed transfer to its callback. */
  ghost predicate CallbacksHold(callbacks: map<nat, nat>, q: Queue) {
    && (forall t :: t in q.chains && t < |q.transfers| && |q.chains[t]| > 0 ==>
          q.chains[t][0] in callbacks && callbacks[q.chains[t][0]] == q.transfers[t].callback)
    && (forall h :: h in callbacks ==> exists t :: t in q.chains && |q.chains[t]| > 0 && q.chains[t][0] == h)
  }

  /** The calls the first `n` completions call for: each its own transfer's callback, if not empty. */
  function Calls(q: Queue, n: nat): seq<(nat, nat)>
    requires n <= |q.completed|
  {
    if n == 0 then [] else
      var c := q.completed[n - 1];
      var callback := if c.id < |q.transfers| then q.transfers[c.id].callback else 0;
      Calls(q, n - 1) + (if callback != 0 then [(callback, c.length)] else [])
  }

  datatype Memory = Memory(
    desc: seq<Descriptor>, available: seq<nat>, used: seq<UsedEntry>, callbacks: map<nat, nat>,
    nextFree: nat, freeCount: nat, availableIdx: nat, usedIdx: nat, lastSeen: nat, log: seq<(nat, nat)>)

  ghost predicate Represents(m: Memory, q: Queue) {
    && Inv(q)
    && 0 < q.num < U16 && U16 % q.num == 0 && |m.desc| == |m.available| == |m.used| == q.num
    && FreeLinked(m.desc, m.nextFree, q.free) && m.freeCount == |q.free|
    && ChainsHold(m.desc, q)
    && AvailableHolds(m.available, q)
    && UsedHolds(m.used, q)
    && CallbacksHold(m.callbacks, q)
    && m.availableIdx == |q.transfers| % U16
    && m.usedIdx == |q.completed| % U16
    && m.lastSeen == q.seen % U32
    && m.log == Calls(q, q.seen)
  }

  /** The counters a representing memory shows. */
  lemma Counters(m: Memory, q: Queue)
    requires Represents(m, q)
    ensures 0 < q.num < U16 && U16 % q.num == 0 && |m.desc| == |m.available| == |m.used| == q.num
    ensures m.freeCount == |q.free|
    ensures m.availableIdx == |q.transfers| % U16 && m.usedIdx == |q.completed| % U16 && m.lastSeen == q.seen % U32
    ensures q.seen <= |q.completed| && q.taken <= |q.transfers| && m.log == Calls(q, q.seen)
  {
  }

  /** Ring slots agree between full counts and 16-bit indices because the queue size divides 2^16. */
  lemma SlotOfIndex(count: nat, num: nat)
    requires num > 0 && U16 % num == 0
    ensures Slot(count % U16, num) == Slot(count, num) && Slot(count % U32, num) == Slot(count, num)
  {
    var m, q := U16 / num, count / U16;
    assert count == q * U16 + count % U16;
    assert count == num * (q * m) + count % U16;
    ModShift(num, q * m, count % U16);
    var r := count / U32;
    assert count == num * (r * U16 * m) + count % U32;
    ModShift(num, r * U16 * m, count % U32);
  }

  // ----- each step on memory performs the step of the model -----

  /** Descriptors outside the transfer's own chain are as they were. */
  ghost predicate OnlyChanged(desc: seq<Descriptor>, desc': seq<Descriptor>, changed: seq<nat>) {
    |desc'| == |desc| && forall d :: 0 <= d < |desc| && d !in changed ==> desc'[d] == desc[d]
  }

  lemma ChainUntouched(desc: seq<Descriptor>, desc': seq<Descriptor>, changed: seq<nat>,
                       chain: seq<nat>, elements: seq<Element>)
    requires ChainHolds(desc, chain, elements) && OnlyChanged(desc, desc', changed) && Separate(chain, changed)
    ensures ChainHolds(desc', chain, elements)
  {
    forall i | 0 <= i < |chain| ensures desc'[chain[i]] == desc[chain[i]] {
      assert chain[i] in chain;
    }
  }

  lemma PostChains(desc: seq<Descriptor>, desc': seq<Descriptor>, q: Queue, t: Transfer)
    requires Inv(q) && Enabled(q, Post(t)) && ChainsHold(desc, q)
    requires OnlyChanged(desc, desc', q.free[..|t.elements|])
    requires ChainHolds(desc', q.free[..|t.elements|], t.elements)
    ensures ChainsHold(desc', Apply(q, Post(t)))
  {
    hide ChainHolds;
    var q' := Apply(q, Post(t));
    SliceDisjoint(q.free, |t.elements|);
    forall u | u in q'.chains && u < |q'.transfers|
      ensures ChainHolds(desc', q'.chains[u], q'.transfers[u].elements)
    {
      if u in q.chains && u != |q.transfers| {
        assert Unprocessed(q, u);
        ChainUntouched(desc, desc', q.free[..|t.elements|], q.chains[u], q.transfers[u].elements);
      }
    }
  }

  lemma PostAvailable(available: seq<nat>, q: Queue, t: Transfer)
    requires Inv(q) && Enabled(q, Post(t)) && AvailableHolds(available, q) && |available| == q.num
    ensures AvailableHolds(available[Slot(|q.transfers|, |available|) := q.free[0]], Apply(q, Post(t)))
  {
    var q' := Apply(q, Post(t));
    StepInv(q, Post(t));
    RingsNeverOverrun(q');
    hide Inv;
    forall u: nat | q'.taken <= u < |q.transfers|
      ensures Slot(u, |available|) != Slot(|q.transfers|, |available|)
    {
      SlotsDiffer(u, |q.transfers|, |available|);
    }
  }

  lemma PostUsed(used: seq<UsedEntry>, q: Queue, t: Transfer)
    requires Inv(q) && Enabled(q, Post(t)) && UsedHolds(used, q)
    ensures UsedHolds(used, Apply(q, Post(t)))
  {
    assert forall k :: 0 <= k < |q.completed| ==> q.completed[k].id < |q.transfers|;
  }

  /** An unprocessed transfer was posted, and starts at a descriptor of its own that is not free. */
  lemma HeadFacts(q: Queue, t: nat)
    requires Inv(q) && t in q.chains
    ensures t < |q.transfers| && |q.chains[t]| > 0 && q.chains[t][0] < q.num
    ensures q.chains[t][0] in q.chains[t] && q.chains[t][0] !in q.free
    ensures forall u :: u in q.chains && u != t ==> q.chains[t][0] !in q.chains[u]
  {
    assert Unprocessed(q, t);
    assert q.chains[t][0] in q.chains[t];
  }

  lemma PostHeads(q: Queue, t: Transfer)
    requires Inv(q) && Enabled(q, Post(t))
    ensures forall u :: u in q.chains ==>
      u < |q.transfers| && |q.chains[u]| > 0 && q.chains[u][0] != q.free[0]
  {
    hide Inv;
    assert q.free[0] in q.free;
    forall u | u in q.chains
      ensures u < |q.transfers| && |q.chains[u]| > 0 && q.chains[u][0] != q.free[0]
    {
      HeadFacts(q, u);
    }
  }

  lemma PostCallbacks(callbacks: map<nat, nat>, q: Queue, t: Transfer)
    requires Inv(q) && Enabled(q, Post(t)) && CallbacksHold(callbacks, q)
    ensures q.free[0] !in callbacks
    ensures CallbacksHold(callbacks[q.free[0] := t.callback], Apply(q, Post(t)))
  {
    hide Inv;
    PostHeads(q, t);
    var q' := Apply(q, Post(t));
    assert q'.chains[|q.transfers|][0] == q.free[0];
    forall h | h in callbacks ensures exists u :: u in q'.chains && |q'.chains[u]| > 0 && q'.chains[u][0] == h {
      var u :| u in q.chains && |q.chains[u]| > 0 && q.chains[u][0] == h;
      assert u in q'.chains && q'.chains[u] == q.chains[u];
    }
  }

  lemma {:induction false} CallsKept(q: Queue, q': Queue, n: nat)
    requires n <= |q.completed| && q.completed <= q'.completed && q.transfers <= q'.transfers
    requires forall k :: 0 <= k < |q.completed| ==> q.completed[k].id < |q.transfers|
    ensures Calls(q', n) == Calls(q, n)
  {
    if n > 0 {
      CallsKept(q, q', n - 1);
    }
  }

  /** Memory after a transfer has been written and placed on the available ring. */
  lemma PostRep(m: Memory, q: Queue, t: Transfer, desc: seq<Descriptor>, nextFree: nat)
    requires Represents(m, q) && Enabled(q, Post(t))
    requires OnlyChanged(m.desc, desc, q.free[..|t.elements|])
    requires ChainHolds(desc, q.free[..|t.elements|], t.elements)
    requires FreeLinked(desc, nextFree, q.free[|t.elements|..])
    ensures q.free[0] !in m.callbacks
    ensures Represents(
              m.(desc := desc, nextFree := nextFree, freeCount := m.freeCount - |t.elements|,
                 available := m.available[Slot(|q.transfers|, q.num) := q.free[0]],
                 availableIdx := (m.availableIdx + 1) % U16,
                 callbacks := m.callbacks[q.free[0] := t.callback]),
              Apply(q, Post(t)))
  {
    hide Inv;
    hide FreeLinked;
    hide ChainHolds;
    hide ChainsHold;
    hide AvailableHolds;
    hide UsedHolds;
    hide CallbacksHold;
    hide Slot;
    StepInv(q, Post(t));
    PostChains(m.desc, desc, q, t);
    PostAvailable(m.available, q, t);
    PostUsed(m.used, q, t);
    PostCallbacks(m.callbacks, q, t);
    NextIndex(|q.transfers|);
    CompletedWerePosted(q);
    CallsKept(q, Apply(q, Post(t)), q.seen);
  }

  lemma CompletedWerePosted(q: Queue)
    requires Inv(q)
    ensures q.seen <= |q.completed| && q.taken <= |q.transfers|
    ensures forall k :: 0 <= k < |q.completed| ==> q.completed[k].id < |q.transfers|
  {
  }

  /** The device takes the next transfer: the ring gives its first descriptor, whose chain spells out
      its elements. */
  lemma TakeRep(m: Memory, q: Queue)
    requires Represents(m, q) && Enabled(q, Take)
    ensures q.taken in q.chains && |q.chains[q.taken]| > 0
    ensures m.available[Slot(q.taken % U16, q.num)] == q.chains[q.taken][0]
    ensures ChainHolds(m.desc, q.chains[q.taken], q.transfers[q.taken].elements)
    ensures Represents(m, Apply(q, Take))
  {
    hide Inv;
    hide FreeLinked;
    hide ChainHolds;
    hide Slot;
    StepInv(q, Take);
    SlotOfIndex(q.taken, q.num);
    CompletedWerePosted(q);
    CallsKept(q, Apply(q, Take), q.seen);
  }

  lemma CompleteUsed(used: seq<UsedEntry>, q: Queue, c: Completion)
    requires Inv(q) && Enabled(q, Complete(c)) && UsedHolds(used, q) && |used| == q.num
    ensures c.id in q.chains && |q.chains[c.id]| > 0
    ensures UsedHolds(used[Slot(|q.completed|, |used|) := UsedEntry(q.chains[c.id][0], c.length)],
                      Apply(q, Complete(c)))
  {
    var q' := Apply(q, Complete(c));
    assert Unprocessed(q, c.id);
    StepInv(q, Complete(c));
    RingsNeverOverrun(q');
    forall k | q'.seen <= k < |q.completed| ensures Slot(k, |used|) != Slot(|q.completed|, |used|) {
      SlotsDiffer(k, |q.completed|, |used|);
    }
  }

  lemma CompleteOthers(m: Memory, q: Queue, c: Completion)
    requires ChainsHold(m.desc, q) && AvailableHolds(m.available, q) && CallbacksHold(m.callbacks, q)
    ensures var q' := Apply(q, Complete(c));
      ChainsHold(m.desc, q') && AvailableHolds(m.available, q') && CallbacksHold(m.callbacks, q')
  {
    hide ChainHolds;
  }

  lemma NextIndex(count: nat)
    ensures (count % U16 + 1) % U16 == (count + 1) % U16 && (count % U32 + 1) % U32 == (count + 1) % U32
  {
    ModShift(U16, count / U16, count % U16 + 1);
    ModShift(U32, count / U32, count % U32 + 1);
  }

  /** The device posts a completion of a transfer it has taken. */
  lemma CompleteRep(m: Memory, q: Queue, c: Completion)
    requires Represents(m, q) && Enabled(q, Complete(c))
    ensures c.id in q.chains && |q.chains[c.id]| > 0
    ensures Represents(
              m.(used := m.used[Slot(|q.completed|, q.num) := UsedEntry(q.chains[c.id][0], c.length)],
                 usedIdx := (m.usedIdx + 1) % U16),
              Apply(q, Complete(c)))
  {
    hide Inv;
    hide FreeLinked;
    hide ChainsHold;
    hide AvailableHolds;
    hide UsedHolds;
    hide CallbacksHold;
    hide Slot;
    StepInv(q, Complete(c));
    CompleteUsed(m.used, q, c);
    CompleteOthers(m, q, c);
    NextIndex(|q.completed|);
    CompletedWerePosted(q);
    CallsKept(q, Apply(q, Complete(c)), q.seen);
  }

  // ----- processing a completion -----

  lemma ProcessChains(desc: seq<Descriptor>, desc': seq<Descriptor>, q: Queue, last: nat)
    requires Inv(q) && Enabled(q, Process) && ChainsHold(desc, q)
    requires var id := q.completed[q.seen].id;
      id in q.chains && last in q.chains[id] && OnlyChanged(desc, desc', [last])
    ensures ChainsHold(desc', Apply(q, Process))
  {
    hide ChainHolds;
    var q' := Apply(q, Process);
    forall u | u in q'.chains && u < |q'.transfers|
      ensures ChainHolds(desc', q'.chains[u], q'.transfers[u].elements)
    {
      ChainUntouched(desc, desc', [last], q.chains[u], q.transfers[u].elements);
    }
  }

  /** Linking the end of a chain to the free list puts the chain in front of it. */
  lemma ProcessFree(desc: seq<Descriptor>, head: nat, free: seq<nat>, chain: seq<nat>, elements: seq<Element>)
    requires FreeLinked(desc, head, free) && ChainHolds(desc, chain, elements) && |chain| > 0
    requires Counting.Distinct(chain) && Separate(chain, free)
    ensures var last := chain[|chain| - 1];
      FreeLinked(desc[last := desc[last].(next := head)], chain[0], chain + free)
  {
    var last := chain[|chain| - 1];
    var desc', list := desc[last := desc[last].(next := head)], chain + free;
    assert last in chain;
    forall i | 0 <= i < |list| ensures list[i] < |desc'| && desc'[list[i]].next == At(list, i + 1, |desc'|) {
      if i >= |chain| {
        assert list[i] == free[i - |chain|] && free[i - |chain|] in free;
      }
    }
  }

  lemma ProcessUsed(used: seq<UsedEntry>, q: Queue)
    requires Inv(q) && Enabled(q, Process) && UsedHolds(used, q)
    ensures UsedHolds(used, Apply(q, Process))
  {
    ProcessBookkeeping(q);
    var q' := Apply(q, Process);
    assert forall k :: q'.seen <= k < |q.completed| ==> q.completed[k].id in q'.chains;
  }

  lemma ProcessAvailable(available: seq<nat>, q: Queue)
    requires Inv(q) && Enabled(q, Process) && AvailableHolds(available, q)
    ensures AvailableHolds(available, Apply(q, Process))
  {
    ProcessBookkeeping(q);
    assert q.completed[q.seen].id < q.taken;
  }

  lemma ProcessCallbacks(callbacks: map<nat, nat>, q: Queue)
    requires Inv(q) && Enabled(q, Process) && CallbacksHold(callbacks, q)
    ensures var id := q.completed[q.seen].id;
      && id in q.chains && |q.chains[id]| > 0
      && q.chains[id][0] in callbacks && callbacks[q.chains[id][0]] == q.transfers[id].callback
      && CallbacksHold(callbacks - {q.chains[id][0]}, Apply(q, Process))
  {
    hide Inv;
    var id := q.completed[q.seen].id;
    PendingIsUnprocessed(q);
    var q' := Apply(q, Process);
    HeadFacts(q, id);
    forall u | u in q'.chains ensures u < |q.transfers| && |q.chains[u]| > 0 && q.chains[u][0] != q.chains[id][0] {
      HeadFacts(q, u);
    }
    forall h | h in callbacks && h != q.chains[id][0]
      ensures exists u :: u in q'.chains && |q'.chains[u]| > 0 && q'.chains[u][0] == h
    {
      var u :| u in q.chains && |q.chains[u]| > 0 && q.chains[u][0] == h;
      assert u in q'.chains;
    }
  }

  lemma PendingIsUnprocessed(q: Queue)
    requires Inv(q) && Enabled(q, Process)
    ensures q.completed[q.seen].id in q.chains
  {
    ProcessBookkeeping(q);
  }

  /** Memory after the completion at the front of the used ring has been processed. */
  lemma ProcessRep(m: Memory, q: Queue, last: nat)
    requires Represents(m, q) && Enabled(q, Process)
    requires var id := q.completed[q.seen].id;
      id in q.chains && |q.chains[id]| > 0 && last == q.chains[id][|q.chains[id]| - 1] && last < |m.desc|
    ensures var c := q.completed[q.seen];
      var head := q.chains[c.id][0];
      && c.id < |q.transfers| && head in m.callbacks && m.callbacks[head] == q.transfers[c.id].callback
      && m.used[Slot(q.seen, q.num)] == UsedEntry(head, c.length)
      && Apply(q, Process).seen == q.seen + 1 && Apply(q, Process).completed == q.completed
      && Represents(
           m.(desc := m.desc[last := m.desc[last].(next := m.nextFree)], nextFree := head,
              freeCount := m.freeCount + |q.chains[c.id]|, callbacks := m.callbacks - {head},
              lastSeen := (m.lastSeen + 1) % U32,
              log := m.log + (if m.callbacks[head] != 0 then [(m.callbacks[head], c.length)] else [])),
           Apply(q, Process))
  {
    hide Inv;
    hide FreeLinked;
    hide ChainHolds;
    hide AvailableHolds;
    hide CallbacksHold;
    hide Slot;
    var id := q.completed[q.seen].id;
    NextIndex(q.seen);
    StepInv(q, Process);
    HeadFacts(q, id);
    ProcessCallbacks(m.callbacks, q);
    ProcessAvailable(m.available, q);
    ProcessUsed(m.used, q);
    ChainFacts(q, id);
    ProcessFree(m.desc, m.nextFree, q.free, q.chains[id], q.transfers[id].elements);
    ProcessChains(m.desc, m.desc[last := m.desc[last].(next := m.nextFree)], q, last);
    CompletedWerePosted(q);
    CallsKept(q, Apply(q, Process), q.seen);
  }

  lemma ChainFacts(q: Queue, t: nat)
    requires Inv(q) && t in q.chains
    ensures Counting.Distinct(q.chains[t]) && Separate(q.chains[t], q.free)
  {
  }

  lemma FreeFacts(q: Queue)
    requires Inv(q)
    ensures Counting.Distinct(q.free) && forall d :: d in q.free ==> d < q.num
  {
  }

  lemma EmptyChain(desc: seq<Descriptor>)
    ensures ChainHolds(desc, [], [])
  {
  }

  /** The descriptor table after `idx` has been filled with an element and linked behind `last`. */
  function Filled(desc: seq<Descriptor>, linked: bool, last: nat, idx: nat, e: Element): seq<Descriptor>
    requires idx < |desc| && (linked ==> last < |desc|)
  {
    (if linked then desc[last := desc[last].(next := idx, more := true)] else desc)
      [idx := Descriptor(e.address, e.length, e.deviceWrites, false, |desc|)]
  }

  /** The chain written so far, the free list left over, and nothing else changed. */
  ghost predicate Building(before: seq<Descriptor>, desc: seq<Descriptor>, free: seq<nat>,
                           elements: seq<Element>, k: nat)
  {
    && k <= |elements| <= |free|
    && OnlyChanged(before, desc, free[..k])
    && ChainHolds(desc, free[..k], elements[..k])
  }

  lemma BuildChain(desc: seq<Descriptor>, chain: seq<nat>, elements: seq<Element>, idx: nat, e: Element)
    requires ChainHolds(desc, chain, elements) && Counting.Distinct(chain) && idx < |desc| && idx !in chain
    ensures |chain| > 0 ==> chain[|chain| - 1] < |desc|
    ensures ChainHolds(Filled(desc, |chain| > 0, if |chain| > 0 then chain[|chain| - 1] else 0, idx, e),
                       chain + [idx], elements + [e])
  {
    var k := |chain|;
    var desc' := Filled(desc, k > 0, if k > 0 then chain[k - 1] else 0, idx, e);
    forall i | 0 <= i < k ensures chain[i] != idx && (i + 1 < k ==> desc'[chain[i]] == desc[chain[i]]) {
      assert chain[i] in chain;
    }
  }

  lemma BuildStep(before: seq<Descriptor>, desc: seq<Descriptor>, free: seq<nat>, elements: seq<Element>, k: nat)
    requires Counting.Distinct(free) && (forall d :: d in free ==> d < |desc|)
    requires k < |elements| && Building(before, desc, free, elements, k)
    ensures (k > 0 ==> free[k - 1] < |desc|) && free[k] < |desc|
    ensures Building(before, Filled(desc, k > 0, if k > 0 then free[k - 1] else 0, free[k], elements[k]),
                     free, elements, k + 1)
  {
    hide ChainHolds;
    assert free[k] in free && (k > 0 ==> free[k - 1] in free && free[k - 1] in free[..k]);
    assert free[..k + 1] == free[..k] + [free[k]] && elements[..k + 1] == elements[..k] + [elements[k]];
    assert free[k] !in free[..k];
    BuildChain(desc, free[..k], elements[..k], free[k], elements[k]);
  }

  /** Once the chain is written, the rest of the free list is still linked. */
  lemma Built(before: seq<Descriptor>, desc: seq<Descriptor>, head: nat, free: seq<nat>, elements: seq<Element>,
              head': nat)
    requires Counting.Distinct(free) && FreeLinked(before, head, free)
    requires Building(before, desc, free, elements, |elements|) && head' == At(free, |elements|, |desc|)
    ensures ChainHolds(desc, free[..|elements|], elements)
    ensures FreeLinked(desc, head', free[|elements|..])
  {
    var n := |elements|;
    assert elements[..n] == elements;
    SliceDisjoint(free, n);
    forall i | 0 <= i < |free| - n
      ensures free[n..][i] < |desc| && desc[free[n..][i]].next == At(free[n..], i + 1, |desc|)
    {
      assert free[n..][i] == free[n + i] && free[n..][i] in free[n..];
    }
  }

  /** The transfer whose completion is next has a chain in memory. */
  lemma PendingChain(m: Memory, q: Queue)
    requires Represents(m, q) && Enabled(q, Process)
    ensures var id := q.completed[q.seen].id;
      && id in q.chains && id < |q.transfers| && |q.chains[id]| > 0
      && ChainHolds(m.desc, q.chains[id], q.transfers[id].elements)
      && q.chains[id][|q.chains[id]| - 1] < |m.desc|
  {
    PendingIsUnprocessed(q);
    HeadFacts(q, q.completed[q.seen].id);
  }
}
