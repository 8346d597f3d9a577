/** The driver side of a virtio split virtqueue (section 2.7 of VIRTIO 1.2) and the device it talks to,
    as interleaved steps: posting a transfer, the device taking it, the device completing it, and the
    driver processing the completion. */
module VirtioModel {
  import opened Counting
  import Modular

  /** Indices in the rings are 16 bits wide; the driver's count of processed completions has 32. */
  const U16 := 0x1_0000
  const U32 := 0x1_0000_0000

  datatype Element = Element(address: int, length: int, deviceWrites: bool)

  /** A transfer and its callback; 0 stands for an empty callback. */
  datatype Transfer = Transfer(elements: seq<Element>, callback: nat)

  datatype Completion = Completion(id: nat, length: nat)

  /** A queue of `num` descriptors.  Transfers are numbered in posting order. */
  datatype Queue = Queue(
    num: nat,
    free: seq<nat>,               // the free list, front first
    chains: map<nat, seq<nat>>,   // unprocessed transfers: number -> descriptors, in order
    transfers: seq<Transfer>,     // every transfer ever posted
    taken: nat,                   // how many of them the device has taken
    completed: seq<Completion>,   // every completion ever posted by the device
    seen: nat)                    // how many completions the driver has processed

  datatype Step =
    | Post(transfer: Transfer)
    | Take
    | Complete(completion: Completion)
    | Process

  function Start(num: nat): Queue {
    Queue(num, seq(num, i => i), map[], [], 0, [], 0)
  }

  predicate Enabled(q: Queue, step: Step) {
    match step
    case Post(t) => 1 <= |t.elements| <= |q.free|
    case Take => q.taken < |q.transfers|
    // the device returns each transfer it has taken once, in any order
    case Complete(c) => c.id < q.taken && forall k :: 0 <= k < |q.completed| ==> q.completed[k].id != c.id
    case Process => q.seen < |q.completed|
  }

  function Apply(q: Queue, step: Step): Queue {
    match step
    case Post(t) =>
      if |t.elements| <= |q.free| then
        q.(free := q.free[|t.elements|..],
           chains := q.chains[|q.transfers| := q.free[..|t.elements|]],
           transfers := q.transfers + [t])
      else q
    case Take => q.(taken := q.taken + 1)
    case Complete(c) => q.(completed := q.completed + [c])
    case Process =>
      if q.seen < |q.completed| && q.completed[q.seen].id in q.chains then
        var id := q.completed[q.seen].id;
        q.(free := q.chains[id] + q.free, chains := q.chains - {id}, seen := q.seen + 1)
      else q
  }

  // ----- the invariant -----

  ghost predicate Separate(s: seq<nat>, t: seq<nat>) {
    forall d :: d in s ==> d !in t
  }

  /** The free list and the chains of unprocessed transfers partition the descriptors. */
  ghost predicate Partition(q: Queue) {
    && Distinct(q.free)
    && (forall t :: t in q.chains ==> Distinct(q.chains[t]) && Separate(q.chains[t], q.free))
    && (forall t, u :: t in q.chains && u in q.chains && t != u ==> Separate(q.chains[t], q.chains[u]))
    && (forall d :: d in q.free ==> d < q.num)
    && (forall t, d :: t in q.chains && d in q.chains[t] ==> d < q.num)
    && (forall d: nat :: d < q.num ==> d in q.free || exists t :: t in q.chains && d in q.chains[t])
  }

  ghost predicate Unprocessed(q: Queue, t: nat) {
    t < |q.transfers| && forall k :: 0 <= k < q.seen && k < |q.completed| ==> q.completed[k].id != t
  }

  /** A transfer keeps one descriptor per element until its completion is processed. */
  ghost predicate Bookkeeping(q: Queue) {
    && (forall t :: t in q.chains <==> Unprocessed(q, t))
    && (forall t :: t in q.chains ==> |q.chains[t]| == |q.transfers[t].elements| >= 1)
    && q.taken <= |q.transfers| && q.seen <= |q.completed|
    && (forall k :: 0 <= k < |q.completed| ==> q.completed[k].id < q.taken)
    && (forall j, k :: 0 <= j < k < |q.completed| ==> q.completed[j].id != q.completed[k].id)
  }

  ghost predicate Inv(q: Queue) { Partition(q) && Bookkeeping(q) }

  lemma SliceDisjoint(s: seq<nat>, n: nat)
    requires Distinct(s) && n <= |s|
    ensures Distinct(s[..n]) && Distinct(s[n..]) && Separate(s[..n], s[n..])
    ensures forall d :: d in s <==> d in s[..n] || d in s[n..]
  {
    assert s == s[..n] + s[n..];
    forall d | d in s[..n] ensures d !in s[n..] {
      var i :| 0 <= i < n && s[i] == d;
      assert forall j :: 0 <= j < |s| - n ==> s[n..][j] == s[n + j];
    }
  }

  lemma JoinDistinct(s: seq<nat>, t: seq<nat>)
    requires Distinct(s) && Distinct(t) && Separate(s, t)
    ensures Distinct(s + t)
    ensures forall d :: d in s + t <==> d in s || d in t
  {
    forall i, j | 0 <= i < j < |s + t| ensures (s + t)[i] != (s + t)[j] {
      if i < |s| <= j {
        assert s[i] in s && t[j - |s|] in t;
      }
    }
  }

  lemma PostPartition(q: Queue, t: Transfer)
    requires Inv(q) && Enabled(q, Post(t))
    ensures Partition(Apply(q, Post(t)))
  {
    var q' := Apply(q, Post(t));
    var n, id := |t.elements|, |q.transfers|;
    SliceDisjoint(q.free, n);
    assert id !in q.chains;
    forall d: nat | d < q'.num ensures d in q'.free || exists u :: u in q'.chains && d in q'.chains[u] {
      if d in q.free[..n] {
        assert id in q'.chains && d in q'.chains[id];
      } else if d !in q.free {
        var u :| u in q.chains && d in q.chains[u];
        assert u in q'.chains && d in q'.chains[u];
      }
    }
  }

  lemma PostBookkeeping(q: Queue, t: Transfer)
    requires Bookkeeping(q) && Enabled(q, Post(t))
    ensures Bookkeeping(Apply(q, Post(t)))
  {
    var q' := Apply(q, Post(t));
    forall u ensures u in q'.chains <==> Unprocessed(q', u) {
      assert u in q.chains <==> Unprocessed(q, u);
    }
  }

  lemma ProcessPartition(q: Queue)
    requires Inv(q) && Enabled(q, Process)
    ensures Partition(Apply(q, Process))
  {
    var q' := Apply(q, Process);
    var id := q.completed[q.seen].id;
    assert Unprocessed(q, id);
    JoinDistinct(q.chains[id], q.free);
    forall d: nat | d < q'.num ensures d in q'.free || exists u :: u in q'.chains && d in q'.chains[u] {
      if d !in q'.free {
        var u :| u in q.chains && d in q.chains[u];
        assert u in q'.chains && d in q'.chains[u];
      }
    }
  }

  lemma ProcessBookkeeping(q: Queue)
    requires Bookkeeping(q) && Enabled(q, Process)
    ensures Bookkeeping(Apply(q, Process))
    ensures q.completed[q.seen].id in q.chains
  {
    var q' := Apply(q, Process);
    var id := q.completed[q.seen].id;
    assert Unprocessed(q, id);
    forall u ensures u in q'.chains <==> Unprocessed(q', u) {
      assert u in q.chains <==> Unprocessed(q, u);
    }
  }

  lemma StepInv(q: Queue, step: Step)
    requires Inv(q) && Enabled(q, step)
    ensures Inv(Apply(q, step)) && Apply(q, step).num == q.num
  {
    match step
    case Post(t) =>
      PostPartition(q, t);
      PostBookkeeping(q, t);
    case Take =>
      assert forall t :: Unprocessed(Apply(q, step), t) <==> Unprocessed(q, t);
    case Complete(c) =>
      assert forall k :: 0 <= k < |q.completed| ==> (q.completed + [c])[k] == q.completed[k];
      assert forall t :: Unprocessed(Apply(q, step), t) <==> Unprocessed(q, t);
    case Process =>
      ProcessPartition(q);
      ProcessBookkeeping(q);
  }

  // ----- whole runs -----

  /** A transfer can be posted exactly when it has elements and there is a free descriptor for each.  It goes behind the
      others, and its chain takes the first free descriptors, in order. */
  lemma PostedExactly(q: Queue, t: Transfer)
    ensures Enabled(q, Post(t)) <==> 1 <= |t.elements| <= |q.free|
    ensures Enabled(q, Post(t)) ==>
      var r := Apply(q, Post(t));
      && r.transfers == q.transfers + [t] && |q.transfers| in r.chains
      && r.chains[|q.transfers|] + r.free == q.free && |r.chains[|q.transfers|]| == |t.elements|
      && (forall u :: u in q.chains && u != |q.transfers| ==> u in r.chains && r.chains[u] == q.chains[u])
      && r.taken == q.taken && r.completed == q.completed && r.seen == q.seen && r.num == q.num
  {
  }

  function Run(num: nat, steps: seq<Step>): Queue {
    if steps == [] then Start(num) else Apply(Run(num, steps[..|steps| - 1]), steps[|steps| - 1])
  }

  predicate Legal(num: nat, steps: seq<Step>) {
    steps != [] ==>
      Legal(num, steps[..|steps| - 1]) && Enabled(Run(num, steps[..|steps| - 1]), steps[|steps| - 1])
  }

  lemma Extend(num: nat, steps: seq<Step>, step: Step)
    requires Legal(num, steps) && Enabled(Run(num, steps), step)
    ensures Legal(num, steps + [step]) && Run(num, steps + [step]) == Apply(Run(num, steps), step)
    ensures Apply(Run(num, steps), step).num == Run(num, steps).num
  {
    assert (steps + [step])[..|steps|] == steps;
  }

  lemma StartInv(num: nat)
    ensures Inv(Start(num))
  {
    forall d: nat | d < num ensures d in Start(num).free {
      assert Start(num).free[d] == d;
    }
  }

  /** In every interleaving the free list and the chains in flight partition the descriptors, each
      transfer holding one descriptor per element until its single completion is processed. */
  lemma {:induction false} EveryRunPartitions(num: nat, steps: seq<Step>)
    requires Legal(num, steps)
    ensures Inv(Run(num, steps)) && Run(num, steps).num == num
  {
    if steps == [] {
      StartInv(num);
    } else {
      EveryRunPartitions(num, steps[..|steps| - 1]);
      StepInv(Run(num, steps[..|steps| - 1]), steps[|steps| - 1]);
    }
  }

  // ----- the rings are never overrun -----

  /** Unprocessed transfers start at different descriptors, so there are at most `num` of them. */
  lemma FewUnprocessed(q: Queue, ids: seq<nat>)
    requires Inv(q) && Distinct(ids) && forall t :: t in ids ==> t in q.chains
    ensures |ids| <= q.num
  {
    var heads := seq(|ids|, i requires 0 <= i < |ids| => q.chains[ids[i]][0]);
    forall i | 0 <= i < |ids| ensures ids[i] in q.chains && heads[i] in q.chains[ids[i]] {
      assert ids[i] in ids;
    }
    DistinctBelow(heads, q.num);
  }

  lemma WaitingIsUnprocessed(q: Queue, t: nat)
    requires Inv(q)
    ensures q.taken <= t < |q.transfers| ==> t in q.chains
    ensures q.seen <= t < |q.completed| ==> q.completed[t].id in q.chains
  {
    if q.taken <= t < |q.transfers| {
      assert Unprocessed(q, t);
    }
    if q.seen <= t < |q.completed| {
      assert Unprocessed(q, q.completed[t].id);
    }
  }

  lemma AvailableFits(q: Queue)
    requires Inv(q)
    ensures |q.transfers| - q.taken <= q.num
  {
    hide Partition;
    var waiting := seq(|q.transfers| - q.taken, i requires 0 <= i < |q.transfers| - q.taken => q.taken + i);
    forall t | t in waiting ensures t in q.chains {
      WaitingIsUnprocessed(q, t);
    }
    FewUnprocessed(q, waiting);
  }

  lemma UsedFits(q: Queue)
    requires Inv(q)
    ensures |q.completed| - q.seen <= q.num
  {
    hide Partition;
    var done := seq(|q.completed| - q.seen,
                    i requires 0 <= i < |q.completed| - q.seen => q.completed[q.seen + i].id);
    forall t | t in done ensures t in q.chains {
      var i :| 0 <= i < |done| && done[i] == t;
      WaitingIsUnprocessed(q, q.seen + i);
    }
    FewUnprocessed(q, done);
  }

  /** What waits in the available ring, and what waits in the used ring, fits the ring: no entry is
      overwritten before the other side has read it. */
  lemma RingsNeverOverrun(q: Queue)
    requires Inv(q)
    ensures |q.transfers| - q.taken <= q.num
    ensures |q.completed| - q.seen <= q.num
  {
    AvailableFits(q);
    UsedFits(q);
  }

  // ----- the 32-bit count against the 16-bit index -----

  /** The guard of the processing loop, on the widths the code uses. */
  predicate LoopGuard(seen: nat, completed: nat) { seen % U32 != completed % U16 }

  /** The loop stops at a drained ring exactly while the count of completions is below 2^16 (modulo 2^32):
      the count of processed completions is not wrapped to the width of the ring index. */
  lemma LoopStopsExactly(completed: nat)
    ensures !LoopGuard(completed, completed) <==> completed % U32 < U16
  {
    var c := completed % U32;
    assert completed == U16 * (completed / U32 * U16) + c;
    Modular.ModShift(U16, completed / U32 * U16, c);
  }

  /** With at most `num` completions waiting, the loop goes on exactly when one is waiting, or when the count of
      processed ones has outgrown the ring index. */
  lemma GuardExactly(seen: nat, completed: nat, num: nat)
    requires seen <= completed <= seen + num && num < U16
    ensures LoopGuard(seen, completed) <==> seen < completed || seen % U32 >= U16
  {
    LoopStopsExactly(seen);
    if seen < completed {
      Modular.SlotsDiffer(seen, completed, U16);
    }
  }
}
