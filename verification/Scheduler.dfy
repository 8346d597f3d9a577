/** The scheduler: every process has a counter of ticks it is owed; a call zeroes the caller's, picks the
    first running process with the largest counter, and hands a tick to everybody when nobody running is
    owed one. */
module Scheduling {
  import opened Counting

  datatype State = Unready | Stopped | Running | Waiting | AwaitingDeath

  /** A slot of the process table. A process is suspended while it sits inside its own call of the
      scheduler, which it leaves, ending the critical section, once it is switched back to. */
  datatype Proc = Gone | Proc(counter: nat, state: State, preempt: int, suspended: bool)

  predicate Runnable(p: Proc) { p.Proc? && p.state.Running? }

  ghost predicate SomeRunning(ps: seq<Proc>) { exists i :: 0 <= i < |ps| && Runnable(ps[i]) }

  /** A process is owed a tick: the test `max_counter > 0`. */
  predicate Owed(ps: seq<Proc>) { exists i :: 0 <= i < |ps| && Runnable(ps[i]) && ps[i].counter > 0 }

  /** The first running process with the largest counter. */
  ghost predicate Best(ps: seq<Proc>, b: int) {
    && 0 <= b < |ps| && Runnable(ps[b])
    && (forall i :: 0 <= i < |ps| && Runnable(ps[i]) ==> ps[i].counter <= ps[b].counter)
    && (forall i :: 0 <= i < b && Runnable(ps[i]) ==> ps[i].counter < ps[b].counter)
  }

  lemma {:induction false} BestExists(ps: seq<Proc>) returns (b: nat)
    requires SomeRunning(ps)
    ensures Best(ps, b)
  {
    var n := |ps| - 1;
    var front := ps[..n];
    if SomeRunning(front) {
      b := BestExists(front);
      if Runnable(ps[n]) && ps[n].counter > ps[b].counter { b := n; }
    } else {
      assert forall i :: 0 <= i < n ==> front[i] == ps[i];
      b := n;
    }
  }

  /** Everybody gets a tick. */
  function Ticked(ps: seq<Proc>): (r: seq<Proc>)
    ensures |r| == |ps|
  {
    seq(|ps|, i requires 0 <= i < |ps| => if ps[i].Gone? then Gone else ps[i].(counter := ps[i].counter + 1))
  }

  /** The process table and the process being run. */
  datatype Sched = Sched(ps: seq<Proc>, cur: nat)

  predicate Valid(s: Sched) { s.cur < |s.ps| && s.ps[s.cur].Proc? }

  /** The table at the moment the choice is made: the caller's counter zeroed, and a tick handed out if
      nobody running was owed one. */
  function Charged(s: Sched): (ps: seq<Proc>)
    requires Valid(s)
    ensures |ps| == |s.ps|
  {
    var zeroed := s.ps[s.cur := s.ps[s.cur].(counter := 0)];
    if Owed(zeroed) then zeroed else Ticked(zeroed)
  }

  /** One pass and at most one tick decide the call whenever somebody is running, */
  lemma TwoPasses(s: Sched)
    requires Valid(s) && SomeRunning(s.ps)
    ensures Owed(Charged(s))
    ensures exists b :: Best(Charged(s), b)
  {
    var zeroed := s.ps[s.cur := s.ps[s.cur].(counter := 0)];
    var i :| 0 <= i < |s.ps| && Runnable(s.ps[i]);
    assert Runnable(zeroed[i]);
    var ps := Charged(s);
    assert Runnable(ps[i]);
    var b := BestExists(ps);
    if !Owed(zeroed) { assert Runnable(Ticked(zeroed)[i]) && Ticked(zeroed)[i].counter > 0; }
  }

  function Ticks(ps: seq<Proc>, n: nat): (r: seq<Proc>)
    ensures |r| == |ps|
  {
    if n == 0 then ps else Ticked(Ticks(ps, n - 1))
  }

  /** and no number of ticks decides it when nobody is: the selection loop ends, and then within two
      passes, exactly when some process is running. */
  lemma {:induction false} LoopEndsExactly(ps: seq<Proc>)
    ensures (exists n: nat :: Owed(Ticks(ps, n))) <==> SomeRunning(ps)
    ensures SomeRunning(ps) ==> Owed(Ticks(ps, 0)) || Owed(Ticks(ps, 1))
  {
    if SomeRunning(ps) {
      var i :| 0 <= i < |ps| && Runnable(ps[i]);
      assert Ticks(ps, 1) == Ticked(Ticks(ps, 0)) == Ticked(ps);
      assert Runnable(Ticks(ps, 1)[i]) && Ticks(ps, 1)[i].counter > 0;
    }
    forall n: nat | Owed(Ticks(ps, n)) ensures SomeRunning(ps) {
      TicksKeepStates(ps, n);
    }
  }

  lemma {:induction false} TicksKeepStates(ps: seq<Proc>, n: nat)
    ensures forall i :: 0 <= i < |ps| ==> Runnable(Ticks(ps, n)[i]) == Runnable(ps[i])
  {
    if n > 0 { TicksKeepStates(ps, n - 1); }
  }

  // ----- Critical sections -----------------------------------------------------------------------------

  /** The preempt counters as they are between calls: the process being run is not suspended, and any other
      holds just the section it entered in the call that switched away from it, if there was one. */
  ghost predicate Parked(s: Sched) {
    && Valid(s) && !s.ps[s.cur].suspended
    && (forall i :: 0 <= i < |s.ps| && i != s.cur && s.ps[i].Proc? ==>
          s.ps[i].preempt == if s.ps[i].suspended then 1 else 0)
  }

  /** Leaving `from` for `to` inside the scheduler: `from` keeps its section while it is suspended; `to`, if
      it was suspended in turn, resumes and leaves its own. */
  function Switched(ps: seq<Proc>, from: nat, to: nat): (r: seq<Proc>)
    requires from < |ps| && ps[from].Proc? && to < |ps| && ps[to].Proc?
    ensures |r| == |ps|
  {
    if from == to then ps
    else
      var left := ps[from := ps[from].(preempt := ps[from].preempt + 1, suspended := true)];
      if left[to].suspended then left[to := left[to].(preempt := left[to].preempt - 1, suspended := false)]
      else left
  }

  /** One call of the scheduler, up to the point where whichever process it switches to goes on: refused
      inside a critical section, and otherwise charged and switched. */
  ghost predicate Scheduled(s: Sched, t: Sched, effective: bool) {
    && Valid(s)
    && effective == (s.ps[s.cur].preempt == 0)
    && if effective then
         var ps := Charged(s);
         Best(ps, t.cur) && ChargedKeeps(s) && t.ps == Switched(ps, s.cur, t.cur)
       else t == s
  }

  /** The choice in full: outside critical sections the caller loses its ticks; if then no running process has any,
      everybody gets one; and the process switched to is running, has the most ticks of those running, and is the
      first of several. */
  lemma ScheduledExactly(s: Sched, t: Sched)
    requires Scheduled(s, t, true)
    ensures s.ps[s.cur].preempt == 0 && |t.ps| == |s.ps| && 0 <= t.cur < |t.ps|
    ensures var extra := if exists i :: 0 <= i < |s.ps| && i != s.cur && Ready(s.ps[i]) then 0 else 1;
      forall i :: 0 <= i < |s.ps| ==>
        (t.ps[i].Gone? <==> s.ps[i].Gone?)
        && (s.ps[i].Proc? ==>
              && t.ps[i].state == s.ps[i].state
              && t.ps[i].counter == (if i == s.cur then 0 else s.ps[i].counter) + extra)
    ensures t.ps[t.cur].Proc? && t.ps[t.cur].state.Running?
    ensures forall i :: 0 <= i < |t.ps| && t.ps[i].Proc? && t.ps[i].state.Running? ==>
      t.ps[i].counter < t.ps[t.cur].counter || (t.ps[i].counter == t.ps[t.cur].counter && t.cur <= i)
  {
    var zeroed := s.ps[s.cur := s.ps[s.cur].(counter := 0)];
    assert Owed(zeroed) <==> exists i :: 0 <= i < |s.ps| && i != s.cur && Ready(s.ps[i]) by {
      if Owed(zeroed) {
        var i :| 0 <= i < |zeroed| && Runnable(zeroed[i]) && zeroed[i].counter > 0;
        assert i != s.cur && Ready(s.ps[i]);
      }
      if i :| 0 <= i < |s.ps| && i != s.cur && Ready(s.ps[i]) {
        assert Runnable(zeroed[i]) && zeroed[i].counter > 0;
      }
    }
    SwitchedKeeps(Charged(s), s.cur, t.cur);
    assert forall i :: 0 <= i < |t.ps| && t.ps[i].Proc? && t.ps[i].state.Running? ==> Runnable(Charged(s)[i]);
  }

  predicate Ready(p: Proc) { p.Proc? && p.state.Running? && p.counter > 0 }

  lemma SwitchedKeeps(ps: seq<Proc>, from: nat, to: nat)
    requires from < |ps| && ps[from].Proc? && to < |ps| && ps[to].Proc?
    ensures forall i :: 0 <= i < |ps| ==>
      var p := Switched(ps, from, to)[i];
      if ps[i].Gone? then p.Gone? else p.Proc? && p.counter == ps[i].counter && p.state == ps[i].state
  {
  }

  lemma ChargedFacts(s: Sched)
    requires Valid(s)
    ensures ChargedKeeps(s)
  {
  }

  /** Charging touches counters only. */
  ghost predicate ChargedKeeps(s: Sched)
    requires Valid(s)
  {
    forall i :: 0 <= i < |s.ps| ==>
      if s.ps[i].Gone? then Charged(s)[i].Gone?
      else Charged(s)[i].Proc? && s.ps[i] == Charged(s)[i].(counter := s.ps[i].counter)
  }

  datatype Event =
    | Enter
    | Exit
    | Schedule(effective: bool)
    | Register(proc: Proc, slot: nat)
    | RefusedRegister
    | Reap(pid: nat)
    | SetState(pid: nat, state: State)

  function Placed(ps: seq<Proc>, slot: nat, p: Proc): (r: seq<Proc>)
    requires slot <= |ps|
    ensures |r| == (if slot < |ps| then |ps| else |ps| + 1)
  {
    if slot < |ps| then ps[slot := p] else ps + [p]
  }

  /** One step of the process manager. A refused registration returns inside its critical section. */
  ghost predicate Step(s: Sched, e: Event, t: Sched) {
    && Valid(s)
    && match e
       case Enter => t == s.(ps := s.ps[s.cur := s.ps[s.cur].(preempt := s.ps[s.cur].preempt + 1)])
       case Exit => t == s.(ps := s.ps[s.cur := s.ps[s.cur].(preempt := s.ps[s.cur].preempt - 1)])
       case Schedule(effective) => Scheduled(s, t, effective)
       case Register(p, slot) =>
         && p.Proc? && p.preempt == 0 && !p.suspended
         && slot <= |s.ps| && (slot < |s.ps| ==> s.ps[slot].Gone?)
         && t == s.(ps := Placed(s.ps, slot, p))
       case RefusedRegister => t == s.(ps := s.ps[s.cur := s.ps[s.cur].(preempt := s.ps[s.cur].preempt + 1)])
       case Reap(pid) => pid < |s.ps| && pid != s.cur && t == s.(ps := s.ps[pid := Gone])
       case SetState(pid, state) =>
         && pid < |s.ps| && s.ps[pid].Proc?
         && t == s.(ps := s.ps[pid := s.ps[pid].(state := state)])
  }

  lemma StepParked(s: Sched, e: Event, t: Sched)
    requires Parked(s) && Step(s, e, t)
    ensures Parked(t)
    ensures e.Schedule? && e.effective ==> t.ps[t.cur].preempt == 0
  {
  }

  /** The sections the process being run holds: what its counter shows. A step that keeps the same process
      changes it by one for a section entered or left, and by one for a refused registration. */
  function Held(s: Sched): (h: int)
    requires Valid(s)
  {
    s.ps[s.cur].preempt
  }

  ghost predicate Trace(ss: seq<Sched>, es: seq<Event>) {
    && |ss| == |es| + 1
    && (forall i, j :: 0 <= i < |es| && j == i + 1 ==> Step(ss[i], es[i], ss[j]))
  }

  /** In every run, everybody but the process being run is parked. */
  lemma {:induction false} EveryRunParked(ss: seq<Sched>, es: seq<Event>, k: nat)
    requires Trace(ss, es) && Parked(ss[0]) && k < |ss|
    ensures Parked(ss[k])
    ensures k > 0 && es[k - 1].Schedule? && es[k - 1].effective ==> Held(ss[k]) == 0
  {
    if k > 0 {
      EveryRunParked(ss, es, k - 1);
      StepParked(ss[k - 1], es[k - 1], ss[k]);
    }
  }

  /** Critical sections entered and not left in a run, and registrations refused in it. */
  function Sections(es: seq<Event>): (h: int) {
    if es == [] then 0
    else
      var last := es[|es| - 1];
      Sections(es[..|es| - 1]) + (if last.Enter? then 1 else if last.Exit? then -1 else 0)
  }

  function Refusals(es: seq<Event>): (h: nat) {
    if es == [] then 0
    else Refusals(es[..|es| - 1]) + if es[|es| - 1].RefusedRegister? then 1 else 0
  }

  predicate Effective(e: Event) { e.Schedule? && e.effective }

  /** Until a call of the scheduler is effective nobody else is run, and a call is effective exactly when
      the sections and the refused registrations balance. */
  lemma {:induction false} EffectiveExactly(ss: seq<Sched>, es: seq<Event>, k: nat)
    requires |ss| == |es| + 1 && Trace(ss, es) && Valid(ss[0]) && Held(ss[0]) == 0 && k <= |es|
    requires forall i :: 0 <= i < k ==> !Effective(es[i])
    ensures Valid(ss[k]) && ss[k].cur == ss[0].cur && Held(ss[k]) == Sections(es[..k]) + Refusals(es[..k])
    ensures k < |es| && es[k].Schedule? ==> (es[k].effective <==> Sections(es[..k]) + Refusals(es[..k]) == 0)
  {
    if k > 0 {
      EffectiveExactly(ss, es, k - 1);
      assert es[..k][..k - 1] == es[..k - 1];
      assert Step(ss[k - 1], es[k - 1], ss[k]);
    }
    if k < |es| { assert Step(ss[k], es[k], ss[k + 1]); }
  }

  lemma {:induction false} RefusalsGrow(es: seq<Event>, r: nat, k: nat)
    requires r < k <= |es| && es[r].RefusedRegister?
    ensures Refusals(es[..k]) >= 1
  {
    assert es[..k][..k - 1] == es[..k - 1];
    if r < k - 1 { RefusalsGrow(es, r, k - 1); }
  }

  /** One refused registration, and the process that asked for it is never switched away from again, as long
      as sections are left only after they were entered. */
  lemma {:induction false} RefusalStopsScheduling(ss: seq<Sched>, es: seq<Event>, r: nat, k: nat)
    requires |ss| == |es| + 1 && Trace(ss, es) && Valid(ss[0]) && Held(ss[0]) == 0
    requires r < k <= |es| && es[r].RefusedRegister?
    requires forall i :: 0 <= i <= r ==> !Effective(es[i])
    requires forall i :: 0 <= i <= |es| ==> Sections(es[..i]) >= 0
    ensures ss[k].cur == ss[0].cur && forall i :: 0 <= i < k ==> !Effective(es[i])
  {
    hide Trace, Step, Sections, Refusals;
    if k > r + 1 {
      RefusalStopsScheduling(ss, es, r, k - 1);
      EffectiveExactly(ss, es, k - 1);
      RefusalsGrow(es, r, k - 1);
      assert Sections(es[..k - 1]) >= 0;
    }
    EffectiveExactly(ss, es, k);
  }


  // ----- Bounded waiting ------------------------------------------------------------------------------

  ghost function Present(ps: seq<Proc>): (r: set<nat>)
    ensures forall i: nat :: i in r <==> i < |ps| && ps[i].Proc?
  {
    set i: nat | i < |ps| && ps[i].Proc?
  }

  /** Those that may be chosen before p because they are already owed a tick. */
  ghost function Ahead(s: Sched, p: nat): (r: set<nat>) {
    set i | i in Present(s.ps) && i != p && i != s.cur && s.ps[i].counter > 0
  }

  /** How many more calls can pass before p is chosen. */
  ghost function Wait(s: Sched, p: nat): (r: nat)
    requires p in Present(s.ps)
    ensures r >= 1
  {
    if p != s.cur && s.ps[p].counter > 0 then |Ahead(s, p)| + 1
    else SubsetSize({p}, Present(s.ps)); |Present(s.ps)| + |Ahead(s, p)|
  }

  /** Every effective call that chooses somebody else brings p closer, */
  lemma WaitFalls(s: Sched, t: Sched, p: nat)
    requires Scheduled(s, t, true) && p < |s.ps| && Runnable(s.ps[p]) && t.cur != p
    ensures Present(t.ps) == Present(s.ps) && p in Present(s.ps)
    ensures Wait(t, p) < Wait(s, p)
  {
    var zeroed := s.ps[s.cur := s.ps[s.cur].(counter := 0)];
    assert Runnable(zeroed[p]);
    assert Present(t.ps) == Present(s.ps);
    if Owed(zeroed) {
      OvertakenOnce(s, t, p);
    } else {
      LastRound(s, t, p);
    }
  }

  /** While somebody is owed a tick, whoever is chosen was ahead of p and is so no longer. */
  lemma OvertakenOnce(s: Sched, t: Sched, p: nat)
    requires Scheduled(s, t, true) && p < |s.ps| && Runnable(s.ps[p]) && t.cur != p
    requires Owed(s.ps[s.cur := s.ps[s.cur].(counter := 0)])
    ensures t.cur in Ahead(s, p) && Ahead(t, p) == Ahead(s, p) - {t.cur}
  {
    var zeroed := s.ps[s.cur := s.ps[s.cur].(counter := 0)];
    assert Runnable(zeroed[p]);
  }

  /** Otherwise everybody gets a tick, p among them, and neither p nor whoever is chosen is ahead of p. */
  lemma LastRound(s: Sched, t: Sched, p: nat)
    requires Scheduled(s, t, true) && p < |s.ps| && Runnable(s.ps[p]) && t.cur != p
    requires !Owed(s.ps[s.cur := s.ps[s.cur].(counter := 0)]) && Present(t.ps) == Present(s.ps)
    ensures t.ps[p].counter > 0 && |Ahead(t, p)| + 2 <= |Present(s.ps)|
  {
    var zeroed, q := s.ps[s.cur := s.ps[s.cur].(counter := 0)], t.cur;
    assert Runnable(zeroed[p]);
    assert Ahead(t, p) <= Present(s.ps) - {p, q};
    SubsetSize(Ahead(t, p), Present(s.ps) - {p, q});
    assert {p, q} <= Present(s.ps);
    assert |Present(s.ps) - {p, q}| == |Present(s.ps)| - |{p, q}|;
  }

  /** and no other step on a fixed table makes it wait longer. */
  lemma OthersKeepWait(s: Sched, e: Event, t: Sched, p: nat)
    requires Step(s, e, t) && !Effective(e) && !e.Register? && !e.Reap? && p in Present(s.ps)
    ensures Present(t.ps) == Present(s.ps) && Wait(t, p) == Wait(s, p)
  {
    assert Present(t.ps) == Present(s.ps);
    assert Ahead(t, p) == Ahead(s, p);
  }

  lemma WaitBound(s: Sched, p: nat)
    requires Valid(s) && p in Present(s.ps)
    ensures Wait(s, p) <= 2 * |Present(s.ps)| - 1
  {
    var others := Present(s.ps) - {p};
    SubsetSize(Ahead(s, p), others);
    SubsetSize({p}, Present(s.ps));
  }

  /** How many of a run's calls were effective. */
  function EffectiveCalls(es: seq<Event>): (n: nat) {
    if es == [] then 0 else EffectiveCalls(es[..|es| - 1]) + if Effective(es[|es| - 1]) then 1 else 0
  }

  ghost predicate FixedTable(es: seq<Event>) {
    forall i :: 0 <= i < |es| ==> !es[i].Register? && !es[i].Reap?
  }

  ghost predicate StaysRunning(ss: seq<Sched>, p: nat) {
    forall i :: 0 <= i < |ss| ==> p < |ss[i].ps| && Runnable(ss[i].ps[p])
  }

  /** Some effective call of the run chose p. */
  ghost predicate Chosen(ss: seq<Sched>, es: seq<Event>, p: nat) {
    exists i, j :: 0 <= i < |es| && j == i + 1 && j < |ss| && Effective(es[i]) && ss[j].cur == p
  }

  lemma {:induction false} WaitedOut(ss: seq<Sched>, es: seq<Event>, p: nat, k: nat)
    requires Trace(ss, es) && FixedTable(es) && StaysRunning(ss, p) && k <= |es| && !Chosen(ss, es, p)
    ensures p in Present(ss[0].ps) && Present(ss[k].ps) == Present(ss[0].ps)
    ensures EffectiveCalls(es[..k]) + Wait(ss[k], p) <= Wait(ss[0], p)
  {
    if k > 0 {
      WaitedOut(ss, es, p, k - 1);
      assert es[..k][..k - 1] == es[..k - 1];
      var s, e, t := ss[k - 1], es[k - 1], ss[k];
      assert Step(s, e, t);
      if Effective(e) { WaitFalls(s, t, p); } else { OthersKeepWait(s, e, t, p); }
    }
  }

  /** Bounded waiting: among n processes, one that stays running is chosen within any stretch of a run that
      holds 2n - 1 effective calls, whatever states the others move through and whatever critical sections
      refuse calls in between. */
  lemma BoundedWaiting(ss: seq<Sched>, es: seq<Event>, p: nat)
    requires Trace(ss, es) && Valid(ss[0]) && FixedTable(es) && StaysRunning(ss, p)
    requires EffectiveCalls(es) >= 2 * |Present(ss[0].ps)| - 1
    ensures Chosen(ss, es, p)
  {
    if !Chosen(ss, es, p) {
      WaitedOut(ss, es, p, |es|);
      assert es[..|es|] == es;
      WaitBound(ss[0], p);
      assert false;
    }
  }

  // ----- The bound is met ------------------------------------------------------------------------------

  /** Process i after the k-th of the calls that follow the last of n processes giving way while the
      others are each owed a tick. */
  function SlowProc(n: nat, k: nat, i: nat): (p: Proc) {
    var parked := i != SlowCur(n, k);
    var owed := if k < n then k - 1 <= i < n - 1 else k - n <= i;
    Proc(if owed then 1 else 0, Running, if parked then 1 else 0, parked)
  }

  function SlowCur(n: nat, k: nat): (cur: int) {
    if k == 0 then n - 1 else if k < n then k - 1 else k - n
  }

  function Slowest(n: nat, k: nat): (s: Sched)
    requires n >= 2 && k <= 2 * n - 2
    ensures |s.ps| == n && s.cur == SlowCur(n, k)
    ensures forall i :: 0 <= i < n ==> s.ps[i] == SlowProc(n, k, i)
  {
    Sched(seq(n, i requires 0 <= i => SlowProc(n, k, i)), SlowCur(n, k))
  }

  /** No smaller bound will do: for every n there is a run of 2n - 2 effective calls, with everybody running
      throughout, in which the last process is never chosen. */
  lemma BoundIsMet(n: nat) returns (ss: seq<Sched>, es: seq<Event>)
    requires n >= 2
    ensures Trace(ss, es) && Parked(ss[0]) && |Present(ss[0].ps)| == n
    ensures FixedTable(es) && forall p: nat :: p < n ==> StaysRunning(ss, p)
    ensures |es| == 2 * n - 2 && (forall i :: 0 <= i < |es| ==> Effective(es[i]))
    ensures !Chosen(ss, es, n - 1)
  {
    hide Step, Slowest, Present, Parked;
    ss := seq(2 * n - 1, k requires 0 <= k < 2 * n - 1 => Slowest(n, k));
    es := seq(2 * n - 2, k => Schedule(true));
    forall i, j | 0 <= i < |es| && j == i + 1 ensures Step(ss[i], es[i], ss[j]) && ss[j].cur != n - 1 {
      SlowestStep(n, i);
    }
    forall p: nat | p < n ensures StaysRunning(ss, p) {
      forall k | 0 <= k < |ss| ensures p < |ss[k].ps| && Runnable(ss[k].ps[p]) {
        SlowestShape(n, k);
      }
    }
    SlowestShape(n, 0);
  }

  lemma SlowestShape(n: nat, k: nat)
    requires n >= 2 && k <= 2 * n - 2
    ensures var s := Slowest(n, k);
      Parked(s) && |s.ps| == n && |Present(s.ps)| == n && forall p :: 0 <= p < n ==> Runnable(s.ps[p])
  {
    assert Present(Slowest(n, k).ps) == Below(n);
  }

  lemma SlowestStep(n: nat, k: nat)
    requires n >= 2 && k < 2 * n - 2
    ensures Step(Slowest(n, k), Schedule(true), Slowest(n, k + 1)) && Slowest(n, k + 1).cur != n - 1
  {
    var s, t := Slowest(n, k), Slowest(n, k + 1);
    var zeroed := s.ps[s.cur := s.ps[s.cur].(counter := 0)];
    if k == n - 1 {
      assert forall i :: 0 <= i < n ==> zeroed[i].counter == 0;
    } else {
      assert Runnable(zeroed[t.cur]) && zeroed[t.cur].counter > 0;
    }
    ChargedFacts(s);
    assert t.ps == Switched(Charged(s), s.cur, t.cur);
  }
}
