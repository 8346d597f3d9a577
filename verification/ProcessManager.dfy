/** The process manager itself: the table, the process being run, and the calls that change them. */
module ProcessManagement {
  import opened Scheduling

  datatype Outcome = Success | InvalidArgument

  /** The table with the current process inside its critical section is charged as without it. */
  lemma ChargedInside(s: Sched, u: Sched)
    requires Valid(s) && u == s.(ps := s.ps[s.cur := s.ps[s.cur].(preempt := s.ps[s.cur].preempt + 1)])
    ensures Charged(s)[s.cur].Proc?
    ensures Charged(u) == Charged(s)[s.cur := Charged(s)[s.cur].(preempt := s.ps[s.cur].preempt + 1)]
    ensures forall b :: Best(Charged(u), b) <==> Best(Charged(s), b)
  {
    var zs, zu := s.ps[s.cur := s.ps[s.cur].(counter := 0)], u.ps[u.cur := u.ps[u.cur].(counter := 0)];
    assert forall i :: 0 <= i < |zs| ==> Runnable(zs[i]) == Runnable(zu[i]);
    assert Owed(zs) == Owed(zu);
    var cs, cu := Charged(s), Charged(u);
    assert cu == cs[s.cur := cs[s.cur].(preempt := s.ps[s.cur].preempt + 1)];
    assert forall i :: 0 <= i < |cs| ==> Runnable(cs[i]) == Runnable(cu[i]);
    assert forall i :: 0 <= i < |cs| && Runnable(cs[i]) ==> cs[i].counter == cu[i].counter;
    forall b ensures Best(cu, b) <==> Best(cs, b) {
      if 0 <= b < |cs| && Runnable(cs[b]) { assert Runnable(cu[b]) && cs[b].counter == cu[b].counter; }
    }
  }

  /** A registration inside a critical section leaves the table as one outside it would. */
  lemma PlacedInside(s: Sched, inside: seq<Proc>, slot: nat, p: Proc)
    requires Valid(s) && slot <= |s.ps| && (slot < |s.ps| ==> s.ps[slot].Gone?) && p.Proc?
    requires inside == s.ps[s.cur := s.ps[s.cur].(preempt := s.ps[s.cur].preempt + 1)]
    ensures var placed := Placed(inside, slot, p);
      && placed[s.cur].Proc?
      && placed[s.cur := placed[s.cur].(preempt := placed[s.cur].preempt - 1)] == Placed(s.ps, slot, p)
    ensures Placed(s.ps, slot, p)[slot := p.(state := Stopped)] == Placed(s.ps, slot, p.(state := Stopped))
  {
  }

  /** What one pass over the first n slots has found. */
  ghost predicate Leading(ps: seq<Proc>, n: nat, best: int, max: int)
    requires n <= |ps|
  {
    if best == -1 then max == -1 && forall i :: 0 <= i < n ==> !Runnable(ps[i])
    else
      && 0 <= best < n && Runnable(ps[best]) && max == ps[best].counter
      && (forall i :: 0 <= i < n && Runnable(ps[i]) ==> ps[i].counter <= max)
      && (forall i :: 0 <= i < best && Runnable(ps[i]) ==> ps[i].counter < max)
  }

  class ProcessManager {
    var processes: seq<Proc>
    var current: nat

    function State(): (s: Sched)
      reads this
    {
      Sched(processes, current)
    }

    constructor (first: Proc)
      requires first.Proc?
      ensures processes == [first] && current == 0
    {
      processes, current := [first], 0;
    }

    method EnterCritical()
      requires Valid(State())
      modifies this`processes
      ensures Step(old(State()), Enter, State())
    {
      processes := processes[current := processes[current].(preempt := processes[current].preempt + 1)];
    }

    method ExitCritical()
      requires Valid(State())
      modifies this`processes
      ensures Step(old(State()), Exit, State())
    {
      processes := processes[current := processes[current].(preempt := processes[current].preempt - 1)];
    }

    /** One pass: the first running process with the largest counter, or nobody. */
    method SelectBest() returns (best: int, max: int)
      ensures Leading(processes, |processes|, best, max)
    {
      best, max := -1, -1;
      for i := 0 to |processes|
        invariant Leading(processes, i, best, max)
      {
        if Runnable(processes[i]) && processes[i].counter > max {
          best, max := i, processes[i].counter;
        }
      }
    }

    method HandOutTicks()
      modifies this`processes
      ensures processes == Ticked(old(processes))
    {
      for i := 0 to |processes|
        invariant |processes| == |old(processes)|
        invariant forall k :: 0 <= k < i ==> processes[k] == Ticked(old(processes))[k]
        invariant forall k :: i <= k < |processes| ==> processes[k] == old(processes)[k]
      {
        if processes[i].Proc? {
          processes := processes[i := processes[i].(counter := processes[i].counter + 1)];
        }
      }
    }

    /** Charges the caller and finds whom to run; the loop ends because somebody is running. */
    method Choose() returns (best: nat)
      requires Valid(State()) && SomeRunning(processes)
      modifies this`processes
      ensures processes == Charged(old(State())) && Best(processes, best)
      ensures best < |processes| && processes[best].Proc?
    {
      ghost var start := State();
      TwoPasses(start);
      processes := processes[current := processes[current].(counter := 0)];
      ghost var zeroed := processes;
      ghost var ticked := false;
      while true
        invariant Valid(State())
        invariant processes == if ticked then Ticked(zeroed) else zeroed
        invariant ticked ==> processes == Charged(start) && Owed(processes)
        decreases !ticked
      {
        var b, max := SelectBest();
        if max > 0 {
          best := b;
          assert Owed(processes);
          return;
        }
        assert !Owed(processes);
        HandOutTicks();
        ticked := true;
      }
    }

    /** Switches to the chosen process, which goes on from where it was left. */
    method SwitchContext(to: nat)
      requires Valid(State()) && processes[current].preempt == 1
      requires to < |processes| && processes[to].Proc?
      modifies this
      ensures current == to
      ensures old(current) == to ==> processes == old(processes)
      ensures old(current) != to ==>
        && var left := old(processes)[old(current) := old(processes[current]).(suspended := true)];
        && processes == if left[to].suspended then left[to := left[to].(suspended := false)] else left
    {
      if to == current { return; }
      processes := processes[current := processes[current].(suspended := true)];
      current := to;
      if processes[to].suspended {
        processes := processes[to := processes[to].(suspended := false)];
      }
    }

    method Schedule() returns (effective: bool)
      requires Valid(State())
      requires processes[current].preempt == 0 ==> SomeRunning(processes)
      modifies this
      ensures Step(old(State()), Event.Schedule(effective), State())
      ensures effective <==> old(processes[current]).preempt == 0
      ensures effective ==>
        && current < |processes| && processes[current].Proc? && processes[current].state.Running?
        && forall i :: 0 <= i < |processes| && processes[i].Proc? && processes[i].state.Running? ==>
             processes[i].counter < processes[current].counter
             || (processes[i].counter == processes[current].counter && current <= i)
    {
      hide Best, Charged;
      ghost var start := State();
      EnterCritical();
      if processes[current].preempt != 1 {
        ExitCritical();
        assert processes == old(processes);
        return false;
      }
      ghost var inside := State();
      ChargedInside(start, inside);
      ChargedFacts(start);
      assert SomeRunning(inside.ps) by {
        var i :| 0 <= i < |start.ps| && Runnable(start.ps[i]);
        assert Runnable(inside.ps[i]);
      }
      var best := Choose();
      var resumes := best == current || processes[best].suspended;
      SwitchContext(best);
      if resumes { ExitCritical(); }
      assert Best(Charged(start), best);
      assert processes == Switched(Charged(start), start.cur, best);
      ScheduledExactly(start, State());
      return true;
    }

    /** The first empty slot, or one past the end. */
    method FirstEmpty() returns (slot: nat)
      ensures slot <= |processes| && (slot < |processes| ==> processes[slot].Gone?)
      ensures forall i :: 0 <= i < slot ==> processes[i].Proc?
    {
      for i := 0 to |processes|
        invariant forall k :: 0 <= k < i ==> processes[k].Proc?
      {
        if processes[i].Gone? { return i; }
      }
      return |processes|;
    }

    /** Puts a process into the table: into the slot its identifier names, or without one into the first
        empty slot. A refusal leaves the critical section entered. */
    method RegisterProcess(pid: int, proc: Proc) returns (outcome: Outcome, slot: nat)
      requires Valid(State()) && proc.Proc? && proc.preempt == 0 && !proc.suspended
      modifies this`processes
      ensures outcome.InvalidArgument? <==>
        pid > |old(processes)| || (0 <= pid < |old(processes)| && old(processes)[pid].Proc?)
      ensures outcome.InvalidArgument? ==> Step(old(State()), RefusedRegister, State())
      ensures outcome.Success? ==>
        && Step(old(State()), Register(if proc.state.Unready? then proc.(state := Stopped) else proc, slot), State())
        && (pid >= 0 ==> slot == pid)
        && (pid < 0 ==> forall i :: 0 <= i < slot ==> old(processes)[i].Proc?)
    {
      hide Scheduled;
      EnterCritical();
      assert forall i :: 0 <= i < |processes| ==> processes[i].Proc? == old(processes)[i].Proc?;
      if pid >= 0 {
        if (pid < |processes| && processes[pid].Proc?) || pid > |processes| {
          return InvalidArgument, 0;
        }
        slot := pid;
      } else {
        slot := FirstEmpty();
        assert forall i :: 0 <= i < slot ==> processes[i].Proc?;
      }
      ghost var inside := processes;
      if slot < |processes| {
        processes := processes[slot := proc];
      } else {
        processes := processes + [proc];
      }
      ExitCritical();
      outcome := Success;
      PlacedInside(old(State()), inside, slot, proc);
      if proc.state.Unready? {
        processes := processes[slot := processes[slot].(state := Stopped)];
      }
    }

    method ReapProcess(pid: nat)
      requires Valid(State()) && pid < |processes| && processes[pid].Proc? && pid != current
      modifies this`processes
      ensures Step(old(State()), Reap(pid), State())
    {
      processes := processes[pid := Gone];
    }
  }
}
