/** The boot memory map: lists of memory and reserved regions, in any order and overlapping as they like, are
    swept into one ordered list that says of every address what it is. */
module MemoryMap {
  import opened Counting

  const LIMIT := 0x1_0000_0000_0000
  const NOWHERE := 0xFFFF_FFFF_FFFF_FFFF

  datatype Region = Region(start: nat, size: nat) {
    function End(): nat { start + size }
    predicate Holds(a: nat) { start <= a < start + size }
  }

  datatype Kind = Memory | Reserved | Unknown
  datatype Annotated = Annotated(region: Region, kind: Kind)

  function Intersection(r: Region, other: Region): (x: Region)
    ensures forall a: nat :: x.Holds(a) <==> r.Holds(a) && other.Holds(a)
    ensures x.size > 0 ==> r.start <= x.start && x.End() <= r.End()
  {
    var start, end := Max(r.start, other.start), Min(r.End(), other.End());
    if end >= start then Region(start, end - start) else Region(0, 0)
  }

  ghost predicate HeldBy(rs: seq<Region>, a: nat) { exists i :: 0 <= i < |rs| && rs[i].Holds(a) }

  /** What an address is: reserved regions take priority over memory. */
  ghost function KindAt(memory: seq<Region>, reserved: seq<Region>, a: nat): Kind {
    if HeldBy(reserved, a) then Reserved else if HeldBy(memory, a) then Memory else Unknown
  }

  /** An entry says the truth about each of its addresses. */
  ghost predicate Truthful(memory: seq<Region>, reserved: seq<Region>, r: Annotated) {
    forall a: nat :: r.region.Holds(a) ==> KindAt(memory, reserved, a) == r.kind
  }

  /** Non-empty entries, each starting where the one before ends, from 0 to `end`. */
  ghost predicate Contiguous(rs: seq<Annotated>, end: nat) {
    && (forall i :: 0 <= i < |rs| ==> rs[i].region.size > 0)
    && (forall i, j :: 0 <= i < j < |rs| && j == i + 1 ==> rs[i].region.End() == rs[j].region.start)
    && if rs == [] then end == 0 else rs[0].region.start == 0 && rs[|rs| - 1].region.End() == end
  }

  lemma Append(rs: seq<Annotated>, end: nat, r: Annotated)
    requires Contiguous(rs, end) && r.region.start == end && r.region.size > 0
    ensures Contiguous(rs + [r], r.region.End())
  {
  }

  /** What the loop over reserved regions has found among the first n: the earliest stretch left. */
  ghost predicate EarliestReserved(rest: Region, reserved: seq<Region>, n: nat, next: Annotated)
    requires n <= |reserved|
  {
    && !next.kind.Memory?
    && (forall i, a: nat :: 0 <= i < n && reserved[i].Holds(a) && rest.Holds(a) ==> a >= next.region.start)
    && if next.kind.Unknown? then next.region == Region(NOWHERE, 0)
       else
         && next.region.size > 0 && rest.start <= next.region.start && next.region.End() <= rest.End()
         && forall a: nat :: next.region.Holds(a) ==> HeldBy(reserved, a)
  }

  /** What the loop over memory regions has found besides: the earliest stretch of either kind, with memory
      cut off where something found before it begins. */
  ghost predicate Earliest(rest: Region, memory: seq<Region>, n: nat, reserved: seq<Region>, next: Annotated)
    requires n <= |memory|
  {
    && (forall i, a: nat :: 0 <= i < n && memory[i].Holds(a) && rest.Holds(a) ==> a >= next.region.start)
    && (next.kind.Unknown? ==> next.region == Region(NOWHERE, 0))
    && (forall a: nat :: HeldBy(reserved, a) && rest.Holds(a) ==>
          a >= if next.kind.Memory? then next.region.End() else next.region.start)
    && (!next.kind.Unknown? ==>
          next.region.size > 0 && rest.start <= next.region.start && next.region.End() <= rest.End())
    && (forall a: nat :: next.region.Holds(a) ==>
          if next.kind.Memory? then HeldBy(memory, a) else HeldBy(reserved, a))
  }

  method NextReserved(rest: Region, reserved: seq<Region>) returns (next: Annotated)
    requires rest.End() <= LIMIT
    ensures EarliestReserved(rest, reserved, |reserved|, next)
  {
    next := Annotated(Region(NOWHERE, 0), Unknown);
    for i := 0 to |reserved|
      invariant EarliestReserved(rest, reserved, i, next)
    {
      var x := Intersection(rest, reserved[i]);
      if x.size > 0 && x.start < next.region.start {
        assert forall a: nat :: x.Holds(a) ==> reserved[i].Holds(a);
        next := Annotated(x, Reserved);
      }
    }
  }

  method NextRegion(rest: Region, memory: seq<Region>, reserved: seq<Region>) returns (next: Annotated)
    requires rest.End() <= LIMIT
    ensures Earliest(rest, memory, |memory|, reserved, next)
  {
    next := NextReserved(rest, reserved);
    for i := 0 to |memory|
      invariant Earliest(rest, memory, i, reserved, next)
    {
      var x := Intersection(rest, memory[i]);
      if x.size > 0 && x.start < next.region.start {
        if x.End() > next.region.start {
          x := x.(size := next.region.start - x.start);
        }
        assert forall a: nat :: x.Holds(a) ==> memory[i].Holds(a);
        next := Annotated(x, Memory);
      }
    }
  }

  /** Up to where the earliest stretch begins nothing is known, and the stretch is what it says. */
  lemma EarliestTruthful(rest: Region, memory: seq<Region>, reserved: seq<Region>, next: Annotated)
    requires rest.End() <= LIMIT && Earliest(rest, memory, |memory|, reserved, next)
    ensures forall a: nat :: rest.Holds(a) && a < next.region.start ==> KindAt(memory, reserved, a) == Unknown
    ensures !next.kind.Unknown? ==> Truthful(memory, reserved, next)
  {
    forall a: nat | rest.Holds(a) && a < next.region.start ensures KindAt(memory, reserved, a) == Unknown {
      assert !HeldBy(reserved, a);
      assert !HeldBy(memory, a);
    }
  }

  /** The sweep: ordered, contiguous, non-empty entries that cover [0, 2^48) and say of each address what the
      lists make it. */
  method ProcessMemoryRegions(memory: seq<Region>, reserved: seq<Region>) returns (regions: seq<Annotated>)
    ensures Contiguous(regions, 0x1_0000_0000_0000)
    ensures forall i :: 0 <= i < |regions| ==> Truthful(memory, reserved, regions[i])
  {
    hide Earliest, KindAt;
    var rest := Region(0, LIMIT);
    regions := [];
    while rest.size > 0
      invariant rest.End() == LIMIT && Contiguous(regions, rest.start)
      invariant forall i :: 0 <= i < |regions| ==> Truthful(memory, reserved, regions[i])
      decreases rest.size
    {
      var next := NextRegion(rest, memory, reserved);
      EarliestTruthful(rest, memory, reserved, next);
      EarliestShape(rest, memory, reserved, next);
      if next.region.size > 0 {
        if next.region.start != rest.start {
          var gap := Annotated(Region(rest.start, next.region.start - rest.start), Unknown);
          Append(regions, rest.start, gap);
          regions := regions + [gap];
        }
        Append(regions, next.region.start, next);
        regions := regions + [next];
        rest := Region(next.region.End(), rest.size - (next.region.End() - rest.start));
      } else {
        var gap := Annotated(rest, Unknown);
        Append(regions, rest.start, gap);
        regions := regions + [gap];
        rest := Region(rest.End(), 0);
      }
    }
  }

  lemma EarliestShape(rest: Region, memory: seq<Region>, reserved: seq<Region>, next: Annotated)
    requires rest.End() <= LIMIT && Earliest(rest, memory, |memory|, reserved, next)
    ensures next.region.size == 0 <==> next.kind.Unknown?
    ensures next.kind.Unknown? ==> next.region.start >= LIMIT
    ensures next.region.size > 0 ==> rest.start <= next.region.start && next.region.End() <= rest.End()
  {
  }

  /** So the list answers for every address, and there is only one answer. */
  lemma EveryAddressOnce(rs: seq<Annotated>, end: nat, a: nat) returns (k: nat)
    requires Contiguous(rs, end) && a < end
    ensures k < |rs| && rs[k].region.Holds(a)
    ensures forall j :: 0 <= j < |rs| && j != k ==> !rs[j].region.Holds(a)
  {
    k := 0;
    while !rs[k].region.Holds(a)
      invariant k < |rs| && rs[k].region.start <= a
      decreases |rs| - k
    {
      assert k < |rs| - 1;
      k := k + 1;
    }
    forall j | 0 <= j < |rs| && j != k ensures !rs[j].region.Holds(a) {
      if j < k { Ordered(rs, end, j, k); } else { Ordered(rs, end, k, j); }
    }
  }

  lemma {:induction false} Ordered(rs: seq<Annotated>, end: nat, i: nat, j: nat)
    requires Contiguous(rs, end) && i < j < |rs|
    ensures rs[i].region.End() <= rs[j].region.start
  {
    if i + 1 < j {
      Ordered(rs, end, i, j - 1);
      assert rs[j - 1].region.End() == rs[j].region.start;
    }
  }

  /** The order in which the regions are listed, and how they overlap, makes no difference to what any address
      is: two sweeps of lists that hold the same addresses agree everywhere. */
  lemma SweepsAgree(m1: seq<Region>, r1: seq<Region>, m2: seq<Region>, r2: seq<Region>,
                    s1: seq<Annotated>, s2: seq<Annotated>, i: nat, j: nat, a: nat)
    requires forall x: nat :: HeldBy(m1, x) == HeldBy(m2, x)
    requires forall x: nat :: HeldBy(r1, x) == HeldBy(r2, x)
    requires forall k :: 0 <= k < |s1| ==> Truthful(m1, r1, s1[k])
    requires forall k :: 0 <= k < |s2| ==> Truthful(m2, r2, s2[k])
    requires i < |s1| && j < |s2| && s1[i].region.Holds(a) && s2[j].region.Holds(a)
    ensures s1[i].kind == s2[j].kind
  {
    assert Truthful(m1, r1, s1[i]) && Truthful(m2, r2, s2[j]);
    assert HeldBy(m1, a) == HeldBy(m2, a) && HeldBy(r1, a) == HeldBy(r2, a);
  }
}
