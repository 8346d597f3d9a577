/** DMA windows in the device tree: lists of ranges read as maps between address spaces, and the list that
    takes a device's DMA addresses all the way to physical ones. */
module DmaRanges {
  import opened Counting

  /** `size` addresses from `child` on are those from `parent` on one level up. */
  datatype Range = Range(child: nat, parent: nat, size: nat)

  const IDENTITY := Range(0, 0, 0xFFFF_FFFF_FFFF_FFFF)

  /** A ranges property: missing, not a whole number of entries, or a list. */
  datatype Property = Absent | Malformed | Ranges(list: seq<Range>)

  datatype Node = Node(dmaRanges: Property, ranges: Property, parent: Link)
  datatype Link = NoParent | Parent(node: Node)

  // ----- What ranges mean ------------------------------------------------------------------------------------

  predicate Maps(r: Range, a: nat, b: nat) {
    r.child <= a < r.child + r.size && b == r.parent + (a - r.child)
  }

  ghost predicate MapsAny(rs: seq<Range>, a: nat, b: nat) {
    exists i :: 0 <= i < |rs| && Maps(rs[i], a, b)
  }

  /** An address `a` seen by a node's children is `b` at the root: through every ancestor's ranges below the
      root, where an empty list changes nothing and a missing or malformed one lets nothing through. */
  ghost predicate Reaches(link: Link, a: nat, b: nat) {
    match link
    case NoParent => a == b
    case Parent(node) =>
      if node.parent.NoParent? then a == b
      else match node.ranges
        case Absent => false
        case Malformed => false
        case Ranges(list) =>
          if list == [] then Reaches(node.parent, a, b)
          else exists m: nat :: MapsAny(list, a, m) && Reaches(node.parent, m, b)
  }

  /** A node's own step: its DMA ranges, or the identity if it has none. */
  ghost predicate FirstStep(node: Node, a: nat, b: nat) {
    match node.dmaRanges
    case Absent => Maps(IDENTITY, a, b)
    case Malformed => false
    case Ranges(list) => if list == [] then Maps(IDENTITY, a, b) else MapsAny(list, a, b)
  }

  /** DMA address `a` of a node's children is physical address `b`. */
  ghost predicate Denotes(node: Node, a: nat, b: nat) {
    if node.parent.NoParent? then Maps(IDENTITY, a, b)
    else exists m: nat :: FirstStep(node, a, m) && Reaches(node.parent, m, b)
  }

  // ----- Composing two ranges ---------------------------------------------------------------------------------

  function ApplyRange(lower: Range, upper: Range): (r: Range) {
    var start := Max(lower.parent, upper.child);
    var end := Min(lower.parent + lower.size, upper.child + upper.size);
    if end <= start then Range(0, 0, 0)
    else Range(lower.child + (start - lower.parent), upper.parent + (start - upper.child), end - start)
  }

  /** The result maps exactly what going through the one and then the other maps. */
  lemma ApplyIsComposition(lower: Range, upper: Range, a: nat, b: nat)
    ensures Maps(ApplyRange(lower, upper), a, b) <==> exists m: nat :: Maps(lower, a, m) && Maps(upper, m, b)
  {
    if Maps(ApplyRange(lower, upper), a, b) {
      var m := lower.parent + (a - lower.child);
      assert Maps(lower, a, m) && Maps(upper, m, b);
    }
  }

  // ----- Composing two lists ----------------------------------------------------------------------------------

  lemma MapsAnySplit(xs: seq<Range>, ys: seq<Range>, a: nat, b: nat)
    ensures MapsAny(xs + ys, a, b) <==> MapsAny(xs, a, b) || MapsAny(ys, a, b)
  {
    if MapsAny(xs, a, b) {
      var i :| 0 <= i < |xs| && Maps(xs[i], a, b);
      assert Maps((xs + ys)[i], a, b);
    }
    if MapsAny(ys, a, b) {
      var i :| 0 <= i < |ys| && Maps(ys[i], a, b);
      assert Maps((xs + ys)[|xs| + i], a, b);
    }
  }

  lemma MapsOne(r: Range, a: nat, b: nat)
    ensures MapsAny([r], a, b) <==> Maps(r, a, b)
  {
    assert [r][0] == r;
  }

  /** Through one range and then any of a list. */
  ghost predicate Via(r: Range, upper: seq<Range>, a: nat, b: nat) {
    exists m: nat :: Maps(r, a, m) && MapsAny(upper, m, b)
  }

  ghost predicate Composed(lower: seq<Range>, upper: seq<Range>, a: nat, b: nat) {
    exists m: nat :: MapsAny(lower, a, m) && MapsAny(upper, m, b)
  }

  /** One range applied to each of a list. */
  method ApplyAll(range: Range, upper: seq<Range>) returns (out: seq<Range>)
    ensures forall a: nat, b: nat :: MapsAny(out, a, b) <==> Via(range, upper, a, b)
    ensures forall i :: 0 <= i < |out| ==> out[i].size > 0
  {
    hide ApplyRange, Maps;
    out := [];
    for i := 0 to |upper|
      invariant forall a: nat, b: nat :: MapsAny(out, a, b) <==> Via(range, upper[..i], a, b)
      invariant forall k :: 0 <= k < |out| ==> out[k].size > 0
    {
      var r := ApplyRange(range, upper[i]);
      ghost var was := out;
      if r.size > 0 { out := out + [r]; }
      forall a: nat, b: nat ensures MapsAny(out, a, b) <==> Via(range, upper[..i + 1], a, b) {
        ApplyStep(range, upper, i, was, a, b);
      }
    }
    assert upper[..|upper|] == upper;
  }

  lemma ApplyStep(range: Range, upper: seq<Range>, i: nat, out: seq<Range>, a: nat, b: nat)
    requires i < |upper| && (MapsAny(out, a, b) <==> Via(range, upper[..i], a, b))
    ensures var r := ApplyRange(range, upper[i]);
      MapsAny(if r.size > 0 then out + [r] else out, a, b) <==> Via(range, upper[..i + 1], a, b)
  {
    var r := ApplyRange(range, upper[i]);
    ApplyIsComposition(range, upper[i], a, b);
    MapsAnySplit(out, [r], a, b);
    MapsOne(r, a, b);
    assert upper[..i + 1] == upper[..i] + [upper[i]];
    forall m: nat ensures MapsAny(upper[..i + 1], m, b) <==> MapsAny(upper[..i], m, b) || Maps(upper[i], m, b) {
      MapsAnySplit(upper[..i], [upper[i]], m, b);
      MapsOne(upper[i], m, b);
    }
    ViaStep(range, upper, i, a, b);
  }

  lemma ViaStep(range: Range, upper: seq<Range>, i: nat, a: nat, b: nat)
    requires i < |upper|
    requires forall m: nat :: MapsAny(upper[..i + 1], m, b) <==> MapsAny(upper[..i], m, b) || Maps(upper[i], m, b)
    ensures Via(range, upper[..i + 1], a, b) <==>
      Via(range, upper[..i], a, b) || exists m: nat :: Maps(range, a, m) && Maps(upper[i], m, b)
  {
    hide MapsAny, Maps;
  }

  /** Every pair of a list with another: the list of the compositions. */
  method Compose(lower: seq<Range>, upper: seq<Range>) returns (out: seq<Range>)
    ensures forall a: nat, b: nat :: MapsAny(out, a, b) <==> Composed(lower, upper, a, b)
  {
    hide MapsAny, Maps, Via, Composed;
    out := [];
    ComposedNone(upper);
    assert lower[..0] == [];
    for i := 0 to |lower|
      invariant forall a: nat, b: nat :: MapsAny(out, a, b) <==> Composed(lower[..i], upper, a, b)
    {
      var more := ApplyAll(lower[i], upper);
      forall a: nat, b: nat ensures MapsAny(out + more, a, b) <==> Composed(lower[..i + 1], upper, a, b) {
        MapsAnySplit(out, more, a, b);
        ComposedStep(lower, i, upper, a, b);
      }
      out := out + more;
    }
    assert lower[..|lower|] == lower;
  }

  lemma ComposedNone(upper: seq<Range>)
    ensures forall a: nat, b: nat :: MapsAny([], a, b) <==> Composed([], upper, a, b)
  {
  }

  lemma ComposedStep(lower: seq<Range>, i: nat, upper: seq<Range>, a: nat, b: nat)
    requires i < |lower|
    ensures Composed(lower[..i + 1], upper, a, b) <==> Composed(lower[..i], upper, a, b) || Via(lower[i], upper, a, b)
  {
    hide Maps, MapsAny;
    assert lower[..i + 1] == lower[..i] + [lower[i]];
    forall m: nat ensures MapsAny(lower[..i + 1], a, m) <==> MapsAny(lower[..i], a, m) || Maps(lower[i], a, m) {
      MapsAnySplit(lower[..i], [lower[i]], a, m);
      MapsOne(lower[i], a, m);
    }
  }

  // ----- Up to the root ---------------------------------------------------------------------------------------

  /** Through a list and then everything above. */
  ghost predicate Onward(current: seq<Range>, link: Link, a: nat, b: nat) {
    exists m: nat :: MapsAny(current, a, m) && Reaches(link, m, b)
  }

  lemma OnwardTop(current: seq<Range>, link: Link, a: nat, b: nat)
    requires link.NoParent? || link.node.parent.NoParent?
    ensures Onward(current, link, a, b) <==> MapsAny(current, a, b)
  {
    hide MapsAny;
    assert Reaches(link, b, b);
  }

  lemma OnwardStep(current: seq<Range>, node: Node, next: seq<Range>, a: nat, b: nat)
    requires node.parent.Parent? && node.ranges.Ranges? && node.ranges.list != []
    requires forall x: nat, y: nat :: MapsAny(next, x, y) <==> Composed(current, node.ranges.list, x, y)
    ensures Onward(current, Parent(node), a, b) <==> Onward(next, node.parent, a, b)
  {
    hide MapsAny;
    var list := node.ranges.list;
    if Onward(current, Parent(node), a, b) {
      var m: nat :| MapsAny(current, a, m) && Reaches(Parent(node), m, b);
      var n: nat :| MapsAny(list, m, n) && Reaches(node.parent, n, b);
      assert Composed(current, list, a, n);
      assert MapsAny(next, a, n);
    }
    if Onward(next, node.parent, a, b) {
      var n: nat :| MapsAny(next, a, n) && Reaches(node.parent, n, b);
      assert Composed(current, list, a, n);
      var m: nat :| MapsAny(current, a, m) && MapsAny(list, m, n);
      assert Reaches(Parent(node), m, b);
    }
  }

  lemma OnwardIdentity(current: seq<Range>, node: Node, a: nat, b: nat)
    requires node.parent.Parent? && node.ranges == Ranges([])
    ensures Onward(current, Parent(node), a, b) <==> Onward(current, node.parent, a, b)
  {
    hide MapsAny;
    assert forall m: nat :: Reaches(Parent(node), m, b) <==> Reaches(node.parent, m, b);
  }

  lemma OnwardBlocked(current: seq<Range>, node: Node, a: nat, b: nat)
    requires node.parent.Parent? && !node.ranges.Ranges?
    ensures !Onward(current, Parent(node), a, b)
  {
  }

  /** A node's first list denotes its own step. */
  method FirstRanges(node: Node) returns (rs: seq<Range>)
    requires !node.dmaRanges.Malformed?
    ensures forall a: nat, b: nat :: MapsAny(rs, a, b) <==> FirstStep(node, a, b)
  {
    if node.dmaRanges.Absent? || node.dmaRanges.list == [] {
      rs := [IDENTITY];
      forall a: nat, b: nat ensures MapsAny(rs, a, b) <==> Maps(IDENTITY, a, b) { MapsOne(IDENTITY, a, b); }
    } else {
      rs := node.dmaRanges.list;
    }
  }

  lemma StartOnward(node: Node, rs: seq<Range>, a: nat, b: nat)
    requires node.parent.Parent? && forall x: nat, y: nat :: MapsAny(rs, x, y) <==> FirstStep(node, x, y)
    ensures Denotes(node, a, b) <==> Onward(rs, node.parent, a, b)
  {
    hide MapsAny, FirstStep, Reaches;
  }

  /** The list returned denotes the composition of the node's own step with the ranges of every ancestor, for
      any depth of the tree and any lengths of the lists. */
  method GetDmaToPhysRanges(node: Node) returns (result: seq<Range>)
    ensures forall a: nat, b: nat :: MapsAny(result, a, b) <==> Denotes(node, a, b)
  {
    hide MapsAny, Maps, Reaches, FirstStep, Onward, Composed;
    if node.parent.NoParent? {
      forall a: nat, b: nat ensures MapsAny([IDENTITY], a, b) <==> Maps(IDENTITY, a, b) { MapsOne(IDENTITY, a, b); }
      return [IDENTITY];
    }
    if node.dmaRanges.Malformed? {
      NothingMaps(node);
      return [];
    }
    result := FirstRanges(node);
    var link := node.parent;
    forall a: nat, b: nat ensures Denotes(node, a, b) <==> Onward(result, link, a, b) {
      StartOnward(node, result, a, b);
    }
    while link.Parent? && link.node.parent.Parent?
      invariant forall a: nat, b: nat :: Denotes(node, a, b) <==> Onward(result, link, a, b)
      decreases link
    {
      var above := link.node;
      if !above.ranges.Ranges? {
        forall a: nat, b: nat ensures MapsAny([], a, b) <==> Denotes(node, a, b) {
          OnwardBlocked(result, above, a, b);
          NoRanges(a, b);
        }
        return [];
      }
      if above.ranges.list != [] {
        var next := Compose(result, above.ranges.list);
        forall a: nat, b: nat ensures Denotes(node, a, b) <==> Onward(next, above.parent, a, b) {
          OnwardStep(result, above, next, a, b);
        }
        result := next;
        if result == [] {
          forall a: nat, b: nat ensures MapsAny([], a, b) <==> Denotes(node, a, b) {
            OnwardNothing(above.parent, a, b);
            NoRanges(a, b);
          }
          return [];
        }
      } else {
        forall a: nat, b: nat ensures Denotes(node, a, b) <==> Onward(result, above.parent, a, b) {
          OnwardIdentity(result, above, a, b);
        }
      }
      link := above.parent;
    }
    forall a: nat, b: nat ensures MapsAny(result, a, b) <==> Denotes(node, a, b) {
      OnwardTop(result, link, a, b);
    }
  }

  lemma NoRanges(a: nat, b: nat)
    ensures !MapsAny([], a, b)
  {
  }

  lemma OnwardNothing(link: Link, a: nat, b: nat)
    ensures !Onward([], link, a, b)
  {
  }

  lemma NothingMaps(node: Node)
    requires node.parent.Parent? && node.dmaRanges.Malformed?
    ensures forall a: nat, b: nat :: MapsAny([], a, b) <==> Denotes(node, a, b)
  {
  }

  // ----- Consequences ------------------------------------------------------------------------------------------

  /** No address has two meanings in a list. */
  ghost predicate Functional(rs: seq<Range>) {
    forall a: nat, b: nat, c: nat :: MapsAny(rs, a, b) && MapsAny(rs, a, c) ==> b == c
  }

  ghost predicate AllFunctional(link: Link) {
    match link
    case NoParent => true
    case Parent(node) => (node.ranges.Ranges? ==> Functional(node.ranges.list)) && AllFunctional(node.parent)
  }

  lemma {:induction false} ReachesOnce(link: Link, a: nat, b: nat, c: nat)
    requires AllFunctional(link) && Reaches(link, a, b) && Reaches(link, a, c)
    ensures b == c
  {
    if link.Parent? && link.node.parent.Parent? {
      var list := link.node.ranges.list;
      if list == [] {
        ReachesOnce(link.node.parent, a, b, c);
      } else {
        var m: nat :| MapsAny(list, a, m) && Reaches(link.node.parent, m, b);
        var n: nat :| MapsAny(list, a, n) && Reaches(link.node.parent, n, c);
        assert m == n;
        ReachesOnce(link.node.parent, m, b, c);
      }
    }
  }

  /** If no list on the way is ambiguous, neither is the result: a DMA address has at most one physical one. */
  lemma DenotesOnce(node: Node, a: nat, b: nat, c: nat)
    requires AllFunctional(node.parent) && (node.dmaRanges.Ranges? ==> Functional(node.dmaRanges.list))
    requires Denotes(node, a, b) && Denotes(node, a, c)
    ensures b == c
  {
    hide Reaches, AllFunctional, FirstStep, Functional;
    if node.parent.Parent? {
      var m: nat :| FirstStep(node, a, m) && Reaches(node.parent, m, b);
      var n: nat :| FirstStep(node, a, n) && Reaches(node.parent, n, c);
      FirstStepOnce(node, a, m, n);
      ReachesOnce(node.parent, m, b, c);
    }
  }

  lemma FirstStepOnce(node: Node, a: nat, b: nat, c: nat)
    requires node.dmaRanges.Ranges? ==> Functional(node.dmaRanges.list)
    requires FirstStep(node, a, b) && FirstStep(node, a, c)
    ensures b == c
  {
    hide MapsAny;
  }

  /** The identity used where a node says nothing leaves out the last byte of the address space. */
  lemma LastByteLeftOut(a: nat)
    requires a <= 0xFFFF_FFFF_FFFF_FFFF
    ensures (exists b: nat :: Maps(IDENTITY, a, b)) <==> a != 0xFFFF_FFFF_FFFF_FFFF
  {
    if a != 0xFFFF_FFFF_FFFF_FFFF { assert Maps(IDENTITY, a, a); }
  }
}
