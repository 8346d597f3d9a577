/** Whole runs of a command or transfer ring: the driver pushes, the controller reads and reports completions at its
    own pace, and each report runs the callback that waits on the slot it names. */
module XhciRuns {
  import opened XhciStream
  import opened XhciRings

  datatype RingEvent = Push(trb: TRB, callback: nat) | Consume | Report(address: nat)

  // ----- how far the driver may get ahead -----

  /** The test a driver can make before pushing: how many TRBs are unread, and whether the controller still
      stands on a Link TRB. */
  predicate MayPush(unread: int, onLink: bool) { unread + 1 <= 126 || (unread + 1 == 127 && !onLink) }

  /** Where the producer stands after a push at position p. */
  function PushTo(p: nat): nat { if IsLink(p + 1) then p + 2 else p + 1 }

  /** Pushing keeps the controller in step exactly when the test allows it. */
  lemma MayPushExactly(p: nat, c: nat)
    requires c <= p <= c + RING_SIZE && !IsLink(p)
    ensures MayPush(DataBelow(p) - DataBelow(c), IsLink(c)) <==> PushTo(p) <= c + RING_SIZE
  {
    NextPosition(p);
    NextPosition(p + 1);
    WindowExactly(c, PushTo(p));
  }

  /** A push whatever the controller has read.  It stays in step exactly when the test would have allowed the
      push; otherwise it takes the ring for empty, with TRBs unread. */
  method PushUntested(r: ProducerRing, controller: Controller, trb: TRB, callback: nat)
    requires r.Valid() && controller.Follows(r) && TypeOf(trb) != LINK_TYPE
    modifies r, r.ring, r.completions
    ensures r.Valid() && |r.items| == PushTo(|old(r.items)|) && controller.dequeueIndex < r.ring.Length
    ensures MayPush(DataBelow(|old(r.items)|) - DataBelow(controller.position), IsLink(controller.position))
            <==> controller.Follows(r)
    ensures !controller.Follows(r) ==> !controller.Sees(r) && controller.position < |r.items|
  {
    hide SlotAt, CycleAt, Holds, Strip, TypeOf, WithCycle, Raw;
    MayPushExactly(|r.items|, controller.position);
    ghost var before := r.items;
    ghost var dropped := r.PushCommand(trb, callback);
    assert r.items[..controller.position] == before[..controller.position];
    if |r.items| > controller.position + RING_SIZE {
      OverrunConsumerStalls(r.ring[..], r.items, controller.position);
    }
  }

  /** Pushes a TRB so many times. */
  method PushMany(r: ProducerRing, trb: TRB, count: nat)
    requires r.Valid() && TypeOf(trb) != LINK_TYPE && SlotAt(|r.items|) + count < RING_SIZE
    modifies r, r.ring, r.completions
    ensures r.Valid() && old(r.items) <= r.items
    ensures |r.items| == |old(r.items)| + count + if SlotAt(|old(r.items)|) + count == RING_SIZE - 1 then 1 else 0
  {
    hide Holds, TypeOf, WithCycle, Raw, Strip, Marked, LinksAtLapEnds, SlotAt, CycleAt, LinkTo, IsLink;
    SlotIsLink(|r.items|);
    for i := 0 to count
      invariant r.Valid() && old(r.items) <= r.items
      invariant |r.items| == |old(r.items)| + i + if SlotAt(|old(r.items)|) + i == RING_SIZE - 1 then 1 else 0
    {
      SlotsOn(|old(r.items)|, i + 1);
      ghost var dropped := r.PushCommand(trb, 0);
    }
  }

  lemma SlotsOn(p: nat, i: nat)
    requires SlotAt(p) + i < RING_SIZE
    ensures IsLink(p + i) <==> SlotAt(p) + i == RING_SIZE - 1
  {
  }

  /** Such a run: the controller reads 127 TRBs and stands on the Link TRB it has yet to follow when the driver,
      with 126 TRBs unread, pushes one more.  The link is overwritten, and the controller reads no more. */
  method StalledRun(base: nat, trb: TRB) returns (unread: nat, sees: bool)
    requires TypeOf(trb) != LINK_TYPE
    ensures unread == 127 && !sees
  {
    hide Holds, TypeOf, WithCycle, Raw, Strip, Marked, LinksAtLapEnds, CycleAt;
    var r := new ProducerRing(base);
    var controller := new Controller(r);
    assert SlotAt(0) == 0;
    PushMany(r, trb, 127);
    StartFollows(r, controller);
    for i := 0 to 127
      invariant r.Valid() && controller.Follows(r) && controller.position == i && |r.items| == 128
    {
      var found := controller.Advance(r);
    }
    StripLength(r.items[..127]);
    var read := |controller.log|;
    assert read == 127 by {
      assert DataBelow(127) == 127;
    }
    ghost var before := r.items;
    PushMany(r, trb, 126);
    assert r.items[..127] == before[..127];
    assert |r.items| == 254 && IsLink(127) && IsLink(255) && DataBelow(254) == 253;
    PushUntested(r, controller, trb, 0);
    unread, sees := 127 + 126 + 1 - read, controller.Sees(r);
  }

  lemma StartFollows(r: ProducerRing, controller: Controller)
    requires |r.items| <= RING_SIZE && controller.position == 0 && controller.log == []
    requires controller.dequeueIndex == SlotAt(0) && controller.cycleState == CycleAt(0)
    ensures controller.Follows(r)
  {
  }

  // ----- callbacks -----

  /** How far both ends have come, Link TRBs included; the TRBs pushed so far; for every position the callback it
      was given, 0 if none; the positions reported; the callbacks run, with their positions; the positions whose
      callback was lost, because a push took its place in the table before it was run. */
  datatype Progress = Progress(
    written: nat, read: nat, pushed: seq<TRB>,
    given: seq<nat>, reported: set<nat>, log: seq<(nat, nat)>, lost: set<nat>, failed: bool)

  /** The callback of position p has been given and not been run. */
  predicate Unrun(w: Progress, p: nat) { p < |w.given| && w.given[p] != 0 && p !in w.reported }

  predicate TestPasses(w: Progress) { MayPush(DataBelow(w.written) - DataBelow(w.read), IsLink(w.read)) }

  function AfterPush(w: Progress, trb: TRB, callback: nat): Progress {
    var link, replaced := IsLink(w.written + 1), w.written - RING_SIZE;
    w.(written := PushTo(w.written), pushed := w.pushed + [trb],
       given := w.given + [callback] + (if link then [0] else []),
       lost := if replaced >= 0 && Unrun(w, replaced) then w.lost + {replaced} else w.lost)
  }

  /** A report runs the callback of the TRB last written to the slot it names; outside the ring it is an error. */
  function AfterReport(w: Progress, index: nat): Progress
    requires |w.given| == w.written
  {
    if index >= RING_SIZE then w.(failed := true)
    else if index >= w.written then w
    else
      var p := LastIn(index, w.written);
      w.(reported := w.reported + {p}, log := if Unrun(w, p) then w.log + [(p, w.given[p])] else w.log)
  }

  /** What becomes of a run: a push goes ahead exactly when the test allows it. */
  function After(base: nat, events: seq<RingEvent>): (w: Progress)
    ensures w.read <= w.written && |w.given| == w.written
  {
    if events == [] then Progress(0, 0, [], [], {}, [], {}, false) else
      var w := After(base, events[..|events| - 1]);
      if w.failed then w else
        match events[|events| - 1]
        case Push(trb, callback) => if TestPasses(w) then AfterPush(w, trb, callback) else w
        case Consume => if w.read < w.written then w.(read := w.read + 1) else w
        case Report(address) => AfterReport(w, EventIndex(base, address))
  }

  /** Every callback run is that of its own TRB and none is run twice. */
  ghost predicate OwnCallbacks(w: Progress) {
    && (forall i :: 0 <= i < |w.log| ==>
          w.log[i].0 in w.reported && w.log[i].0 < |w.given| && w.log[i].1 == w.given[w.log[i].0] != 0)
    && (forall i, j :: 0 <= i < j < |w.log| ==> w.log[i].0 != w.log[j].0)
    && (forall p :: p in w.reported && p < |w.given| && w.given[p] != 0 ==> (p, w.given[p]) in w.log)
  }

  /** A callback that has not been run either still waits in the table, at a position less than a ring back, or was
      lost, and then the controller had read its TRB. */
  ghost predicate Accounted(w: Progress) {
    && (forall p :: p in w.reported ==> p < w.written)
    && (forall p :: p in w.lost ==> Unrun(w, p) && p < w.read && p + RING_SIZE < w.written)
    && (forall p: nat :: Unrun(w, p) ==> p in w.lost || w.written <= p + RING_SIZE)
  }

  ghost predicate RingInv(w: Progress) {
    && |w.given| == w.written && w.read <= w.written <= w.read + RING_SIZE && !IsLink(w.written)
    && (forall p: nat :: p < w.written && IsLink(p) ==> w.given[p] == 0)
    && OwnCallbacks(w) && Accounted(w)
  }

  lemma PushInv(w: Progress, trb: TRB, callback: nat)
    requires RingInv(w) && TestPasses(w)
    ensures RingInv(AfterPush(w, trb, callback))
  {
    hide OwnCallbacks;
    hide IsLink;
    hide DataBelow;
    MayPushExactly(w.written, w.read);
    LinksApart(w.written);
    var w' := AfterPush(w, trb, callback);
    PushOwn(w, trb, callback);
    forall p: nat | Unrun(w', p) ensures p in w'.lost || w'.written <= p + RING_SIZE {
      if p < w.written {
        assert Unrun(w, p);
        if w'.written == w.written + 2 && p + RING_SIZE == w.written + 1 {
          LinkLapBack(w.written + 1);
        }
      }
    }
  }

  lemma LinksApart(p: nat)
    requires !IsLink(p)
    ensures !IsLink(PushTo(p))
  {
  }

  lemma LinkLapBack(p: nat)
    requires p >= RING_SIZE
    ensures IsLink(p - RING_SIZE) == IsLink(p)
  {
  }

  lemma PushOwn(w: Progress, trb: TRB, callback: nat)
    requires OwnCallbacks(w) && |w.given| == w.written && forall p :: p in w.reported ==> p < w.written
    ensures OwnCallbacks(AfterPush(w, trb, callback))
  {
  }

  lemma ReportInv(w: Progress, index: nat)
    requires RingInv(w)
    ensures RingInv(AfterReport(w, index))
  {
    hide LastIn;
    hide IsLink;
    if index < RING_SIZE && index < w.written {
      var p := LastIn(index, w.written);
      var w' := AfterReport(w, index);
      assert forall q: nat :: Unrun(w', q) <==> Unrun(w, q) && q != p;
      ReportOwn(w, p);
    }
  }

  lemma ReportOwn(w: Progress, p: nat)
    requires OwnCallbacks(w) && p < |w.given|
    ensures OwnCallbacks(w.(reported := w.reported + {p},
                            log := if Unrun(w, p) then w.log + [(p, w.given[p])] else w.log))
  {
    var log' := if Unrun(w, p) then w.log + [(p, w.given[p])] else w.log;
    if Unrun(w, p) {
      assert log'[|w.log|] == (p, w.given[p]);
    }
    forall q | q in w.reported + {p} && q < |w.given| && w.given[q] != 0 ensures (q, w.given[q]) in log' {
      if q in w.reported {
        assert (q, w.given[q]) in w.log;
      }
    }
  }

  /** In every run each callback is run at most once, on a report of its own TRB; every callback given has been run,
      waits in the table, or was lost after the controller had read its TRB. */
  lemma {:induction false} EveryRunAccounted(base: nat, events: seq<RingEvent>)
    ensures RingInv(After(base, events))
  {
    hide RingInv;
    hide TestPasses;
    if events == [] {
      StartInv(base);
    } else {
      var front, e := events[..|events| - 1], events[|events| - 1];
      var w := After(base, front);
      EveryRunAccounted(base, front);
      if !w.failed {
        match e
        case Push(trb, callback) =>
          if TestPasses(w) {
            PushInv(w, trb, callback);
          }
        case Consume => ConsumeInv(w);
        case Report(address) => ReportInv(w, EventIndex(base, address));
      }
    }
  }

  lemma StartInv(base: nat)
    ensures RingInv(After(base, []))
  {
  }

  lemma ConsumeInv(w: Progress)
    requires RingInv(w)
    ensures w.read < w.written ==> RingInv(w.(read := w.read + 1))
  {
    hide OwnCallbacks;
    if w.read < w.written {
      var w' := w.(read := w.read + 1);
      assert forall p: nat :: Unrun(w', p) <==> Unrun(w, p);
      ReadOwn(w);
    }
  }

  lemma ReadOwn(w: Progress)
    requires OwnCallbacks(w)
    ensures OwnCallbacks(w.(read := w.read + 1))
  {
  }

  /** A report of a TRB that has not been overwritten and was not reported before runs its callback. */
  lemma ReportRuns(w: Progress, p: nat)
    requires |w.given| == w.written && p < w.written <= p + RING_SIZE && Unrun(w, p)
    ensures AfterReport(w, SlotAt(p)).log == w.log + [(p, w.given[p])]
  {
    hide LastIn;
    LastPositions(w.written);
  }

  /** In every run, a report of any of the 16 bytes of the TRB at a position not yet overwritten runs that TRB's
      callback, if it has one that was not run before; and a report fails exactly outside the 2048 bytes of the
      ring. */
  lemma ReportedExactly(base: nat, events: seq<RingEvent>, address: nat)
    requires !After(base, events).failed
    ensures var w, w' := After(base, events), After(base, events + [Report(address)]);
      && (w'.failed <==> !exists offset: nat :: offset < 2048 && IsByte(base, offset, address))
      && (w'.failed ==> w'.log == w.log && w'.reported == w.reported)
      && (forall p: nat, offset: nat ::
            p < w.written <= p + 128 && 16 * SlotAt(p) <= offset < 16 * SlotAt(p) + 16
            && IsByte(base, offset, address) ==>
              && w'.log == w.log + (if w.given[p] != 0 && p !in w.reported then [(p, w.given[p])] else [])
              && w'.reported == w.reported + {p})
  {
    hide SlotAt;
    hide LastIn;
    hide EventIndex;
    hide IsByte;
    hide AfterPush;
    hide TestPasses;
    assert (events + [Report(address)])[..|events|] == events;
    IndexExactly(base, address);
    LastPositions(After(base, events).written);
  }

  /** In every run a push loses a callback exactly when 127 TRBs or more were pushed from a TRB on whose callback
      still waits: the window counts TRBs not yet reported, not TRBs not yet read. */
  lemma PushLosesExactly(base: nat, events: seq<RingEvent>, trb: TRB, callback: nat)
    ensures var w := After(base, events);
      AfterPush(w, trb, callback).lost == w.lost <==>
      forall p: nat :: Unrun(w, p) && p !in w.lost ==> DataBelow(w.written) - DataBelow(p) <= 126
  {
    hide OwnCallbacks;
    hide DataBelow;
    hide IsLink;
    var w := After(base, events);
    EveryRunAccounted(base, events);
    forall p: nat | Unrun(w, p) && p !in w.lost
      ensures DataBelow(w.written) - DataBelow(p) <= 126 <==> w.written < p + RING_SIZE
    {
      ReportedWindow(p, w.written);
    }
    var replaced := w.written - RING_SIZE;
    if replaced >= 0 && Unrun(w, replaced) {
      assert replaced !in w.lost;
    }
  }

  lemma ReportedWindow(p: nat, n: nat)
    requires p < n <= p + RING_SIZE && !IsLink(p) && !IsLink(n)
    ensures DataBelow(n) - DataBelow(p) <= 126 <==> n < p + RING_SIZE
  {
  }

  /** A driver that keeps one TRB in flight: it waits for a callback on the first, then has the controller read a TRB
      before it pushes the next, and asks for no more callbacks. */
  function OneInFlight(trb: TRB, callback: nat, more: nat): (events: seq<RingEvent>)
    ensures events != []
  {
    if more == 0 then [Push(trb, callback)] else OneInFlight(trb, callback, more - 1) + [Consume, Push(trb, 0)]
  }

  lemma AfterPair(base: nat, front: seq<RingEvent>, trb: TRB)
    ensures var w := After(base, front);
      !w.failed && w.read < w.written ==>
      var c := w.(read := w.read + 1);
      After(base, front + [Consume, Push(trb, 0)]) == if TestPasses(c) then AfterPush(c, trb, 0) else c
  {
    hide AfterPush;
    hide TestPasses;
    hide AfterReport;
    var all := front + [Consume, Push(trb, 0)];
    assert all[..|all| - 1] == front + [Consume];
    assert (front + [Consume])[..|front|] == front;
  }

  /** How far such a run has come within the first lap, its Link TRB included, with nothing reported. */
  ghost predicate FirstLap(w: Progress, callback: nat, more: nat) {
    && w.written == (if more == 126 then 128 else more + 1) && w.read == more && |w.pushed| == more + 1
    && |w.given| == w.written && w.given[0] == callback
    && w.reported == {} && w.log == [] && w.lost == {} && !w.failed
  }

  lemma FirstLapNext(w: Progress, trb: TRB, callback: nat, more: nat)
    requires FirstLap(w, callback, more) && more < 126
    ensures var c := w.(read := w.read + 1);
      TestPasses(c) && FirstLap(AfterPush(c, trb, 0), callback, more + 1)
  {
    assert DataBelow(more + 1) == more + 1;
  }

  lemma FirstLapStart(base: nat, trb: TRB, callback: nat)
    ensures FirstLap(After(base, OneInFlight(trb, callback, 0)), callback, 0)
  {
    assert [Push(trb, callback)][..0] == [];
  }

  lemma {:induction false} OneInFlightProgress(base: nat, trb: TRB, callback: nat, more: nat)
    requires more <= 126
    ensures FirstLap(After(base, OneInFlight(trb, callback, more)), callback, more)
  {
    hide AfterPush;
    hide TestPasses;
    hide AfterReport;
    if more == 0 {
      FirstLapStart(base, trb, callback);
    } else {
      var front := OneInFlight(trb, callback, more - 1);
      OneInFlightProgress(base, trb, callback, more - 1);
      AfterPair(base, front, trb);
      FirstLapNext(After(base, front), trb, callback, more - 1);
    }
  }

  lemma ReplaceFirst(w: Progress, trb: TRB, callback: nat)
    requires FirstLap(w, callback, 126) && callback != 0
    ensures var c := w.(read := w.read + 1);
      TestPasses(c) && AfterPush(c, trb, 0) == c.(written := 129, pushed := w.pushed + [trb], given := w.given + [0],
                                                  lost := {0})
  {
  }

  /** Such a run: with never more than one TRB unread and none reported, the 128th push takes the place of the first
      callback.  All 128 pushes go ahead. */
  lemma LostRun(base: nat, trb: TRB, callback: nat)
    requires callback != 0
    ensures var w := After(base, OneInFlight(trb, callback, 127));
      |w.pushed| == 128 && w.given != [] && w.given[0] == callback && w.log == [] && w.lost == {0} && !w.failed
  {
    hide AfterPush;
    hide TestPasses;
    hide AfterReport;
    var front := OneInFlight(trb, callback, 126);
    OneInFlightProgress(base, trb, callback, 126);
    AfterPair(base, front, trb);
    ReplaceFirst(After(base, front), trb, callback);
  }

  // ----- the objects -----

  function Callbacks(log: seq<(nat, nat)>): (r: seq<nat>)
    ensures |r| == |log| && forall i :: 0 <= i < |r| ==> r[i] == log[i].1
  {
    seq(|log|, i requires 0 <= i < |log| => log[i].1)
  }

  /** A push by a driver that makes the test first.  The callback whose place it takes, if any waited there, is that
      of a TRB the controller has read. */
  method PushIfRoom(r: ProducerRing, controller: Controller, trb: TRB, callback: nat, pushed: nat)
    returns (ok: bool, ghost dropped: nat)
    requires r.Valid() && controller.Follows(r) && pushed == |Strip(r.items)| && TypeOf(trb) != LINK_TYPE
    modifies r, r.ring, r.completions
    ensures r.Valid() && controller.Follows(r)
    ensures ok <==> MayPush(DataBelow(|old(r.items)|) - DataBelow(controller.position), IsLink(controller.position))
    ensures ok ==> |r.items| == PushTo(|old(r.items)|)
    ensures ok ==> Raw(Strip(r.items)) == old(Raw(Strip(r.items))) + [WithCycle(trb, false)]
    ensures ok ==> r.pending == old(r.pending) + [callback] + if IsLink(|old(r.items)| + 1) then [0] else []
    ensures ok && dropped != 0 ==>
      RING_SIZE <= |old(r.items)| < controller.position + RING_SIZE &&
      dropped == old(r.pending)[|old(r.items)| - RING_SIZE]
    ensures !ok ==> r.items == old(r.items) && r.pending == old(r.pending) && dropped == 0
  {
    hide SlotAt, CycleAt, Holds, Strip, TypeOf, WithCycle, Raw;
    StripLength(r.items);
    StripLength(r.items[..controller.position]);
    MayPushExactly(|r.items|, controller.position);
    SlotIsLink(controller.position);
    ok := MayPush(pushed - |controller.log|, controller.dequeueIndex == RING_SIZE - 1);
    dropped := 0;
    if ok {
      ghost var before := r.items;
      dropped := r.PushCommand(trb, callback);
      assert r.items[..controller.position] == before[..controller.position];
    }
  }

  lemma SlotIsLink(p: nat)
    ensures SlotAt(p) == RING_SIZE - 1 <==> IsLink(p)
  {
  }

  /** The table of the ring holds what has been given and not been run. */
  ghost predicate Shows(pending: seq<nat>, w: Progress) {
    && |pending| == |w.given| == w.written
    && forall p: nat :: p < |pending| ==> pending[p] == if Unrun(w, p) then w.given[p] else 0
  }

  lemma PushShows(pending: seq<nat>, w: Progress, trb: TRB, callback: nat)
    requires Shows(pending, w) && forall p :: p in w.reported ==> p < w.written
    ensures Shows(pending + [callback] + (if IsLink(w.written + 1) then [0] else []), AfterPush(w, trb, callback))
  {
  }

  /** The driver's part of a report: its callback, if one waits, is run. */
  method ReportOne(r: ProducerRing, address: nat, log: seq<nat>, ghost w: Progress)
    returns (failed: bool, log': seq<nat>)
    requires r.Valid() && RingInv(w) && !w.failed && w.written == |r.items|
    requires Shows(r.pending, w) && log == Callbacks(w.log)
    modifies r`pending, r.completions
    ensures r.Valid()
    ensures var w' := AfterReport(w, EventIndex(r.base, address));
      && w'.written == w.written && w'.read == w.read && w'.pushed == w.pushed && w'.failed == failed
      && Shows(r.pending, w') && log' == Callbacks(w'.log)
  {
    hide SlotAt, CycleAt, Holds, TypeOf, Marked, LinksAtLapEnds, Shows, AfterReport, RingInv, LastIn, Callbacks;
    hide EventIndex, IsByte;
    ReportStep(w, r.pending, EventIndex(r.base, address));
    var ok, callback := r.ProcessCompletion(address);
    failed, log' := !ok, log;
    if ok && callback != 0 {
      log' := log + [callback];
    }
  }

  /** Any run in which the driver pushes while the test allows it, the controller reads and reports at its
      own pace, and at last reads what is left: it has read exactly the TRBs pushed, in order, and the callbacks run
      are those of the run as specified. */
  method RunRing(base: nat, events: seq<RingEvent>) returns (pushed: seq<TRB>, read: seq<TRB>, log: seq<nat>)
    requires forall e :: e in events && e.Push? ==> TypeOf(e.trb) != LINK_TYPE
    ensures pushed == After(base, events).pushed && Raw(read) == Raw(pushed)
    ensures log == Callbacks(After(base, events).log)
  {
    hide SlotAt, CycleAt, Holds, Strip, TypeOf, WithCycle, Raw, MayPush, DataBelow, Marked, LinksAtLapEnds, Shows;
    hide AfterPush, AfterReport, RingInv, LastIn, Callbacks, EventIndex, IsByte;
    var r := new ProducerRing(base);
    var controller := new Controller(r);
    var i, failed := 0, false;
    pushed, log := [], [];
    EmptyShows();
    while i < |events| && !failed
      invariant 0 <= i <= |events|
      invariant var w := After(base, events[..i]);
        && w.written == |r.items| && w.read == controller.position && w.pushed == pushed && w.failed == failed
        && Shows(r.pending, w) && log == Callbacks(w.log)
      invariant r.Valid() && controller.Follows(r) && Raw(Strip(r.items)) == Raw(pushed) && r.base == base
      invariant fresh(r) && fresh(r.ring) && fresh(r.completions) && fresh(controller)
    {
      assert events[..i + 1][..i] == events[..i];
      ghost var w := After(base, events[..i]);
      EveryRunAccounted(base, events[..i]);
      match events[i] {
        case Push(trb, callback) =>
          assert |Raw(Strip(r.items))| == |Raw(pushed)|;
          PushStep(w, r.pending, trb, callback);
          ghost var dropped;
          var ok;
          ok, dropped := PushIfRoom(r, controller, trb, callback, |pushed|);
          if ok {
            RawAppend(pushed, trb, false);
            pushed := pushed + [trb];
          }
        case Consume =>
          ReadShows(w, r.pending);
          var found := controller.Advance(r);
        case Report(address) =>
          failed, log := ReportOne(r, address, log, w);
      }
      i := i + 1;
    }
    FailedForGood(base, events, i);
    controller.Drain(r);
    assert r.items[..controller.position] == r.items;
    read := controller.log;
  }

  lemma EmptyShows()
    ensures forall base: nat :: Shows([], After(base, [])) && Callbacks(After(base, []).log) == []
  {
  }

  lemma PushStep(w: Progress, pending: seq<nat>, trb: TRB, callback: nat)
    requires RingInv(w) && Shows(pending, w)
    ensures var w' := AfterPush(w, trb, callback);
      && w'.written == PushTo(w.written) && w'.read == w.read && w'.pushed == w.pushed + [trb] && w'.log == w.log
      && w'.failed == w.failed
      && Shows(pending + [callback] + (if IsLink(w.written + 1) then [0] else []), w')
  {
    hide IsLink;
    hide OwnCallbacks;
    PushShows(pending, w, trb, callback);
  }

  lemma ReadShows(w: Progress, pending: seq<nat>)
    requires Shows(pending, w)
    ensures Shows(pending, w.(read := w.read + 1))
  {
  }

  lemma ReportStep(w: Progress, pending: seq<nat>, index: nat)
    requires RingInv(w) && Shows(pending, w)
    ensures |pending| == w.written
    ensures var w' := AfterReport(w, index);
      && w'.written == w.written && w'.read == w.read && w'.pushed == w.pushed
      && (index >= RING_SIZE ==> w'.failed && w'.log == w.log && Shows(pending, w'))
      && (index < RING_SIZE ==> w'.failed == w.failed)
      && (index < RING_SIZE && index >= |pending| ==> w'.log == w.log && Shows(pending, w'))
      && (index < RING_SIZE && index < |pending| ==>
            var p := LastIn(index, |pending|);
            && Shows(pending[p := 0], w')
            && Callbacks(w'.log) == Callbacks(w.log) + if pending[p] != 0 then [pending[p]] else [])
  {
    hide LastIn;
    hide IsLink;
    hide OwnCallbacks;
    if index < RING_SIZE && index < |pending| {
      var p := LastIn(index, |pending|);
      var w' := AfterReport(w, index);
      assert forall q: nat :: Unrun(w', q) <==> Unrun(w, q) && q != p;
    }
  }

  lemma {:induction false} FailedForGood(base: nat, events: seq<RingEvent>, i: nat)
    requires i <= |events| && (i == |events| || After(base, events[..i]).failed)
    ensures After(base, events) == After(base, events[..i])
    decreases |events|
  {
    if i < |events| {
      var front := events[..|events| - 1];
      assert front[..i] == events[..i];
      FailedForGood(base, front, i);
    } else {
      assert events[..i] == events;
    }
  }
}
