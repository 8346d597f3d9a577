/** A slab allocator: blocks of one object size, those with a free object on one list and the full ones on
    another. */
module Slabs {
  import opened Counting
  import opened Modular
  import opened SlabBlocks

  datatype Slab = Slab(size: nat, blockSize: nat, blocks: map<nat, Block>, frees: seq<nat>, fulls: seq<nat>)

  /** The block an address lies in. */
  function BaseOf(p: nat, blockSize: nat): (base: nat)
    requires blockSize > 0
  {
    p / blockSize * blockSize
  }

  ghost function LiveIn(live: set<nat>, base: nat, blockSize: nat): (r: set<nat>)
    requires blockSize > 0
  {
    set p | p in live && BaseOf(p, blockSize) == base
  }

  ghost predicate BlockAt(s: Slab, base: nat, live: set<nat>)
    requires base in s.blocks && s.blockSize > 0 && s.size > 0
  {
    var b := s.blocks[base];
    && base > 0 && base % s.blockSize == 0 && b.base == base && b.size == s.size
    && b.total > 0 && DataEnd(base, s.size, b.total) == base + s.blockSize
    && BlockOk(b, LiveIn(live, base, s.blockSize))
  }

  ghost predicate BlocksOk(s: Slab, live: set<nat>) {
    && Geometry(s.size, s.blockSize)
    && (forall base :: base in s.blocks ==> BlockAt(s, base, live))
    && (forall p :: p in live ==> BaseOf(p, s.blockSize) in s.blocks)
  }

  predicate Full(b: Block) { b.used == b.total }

  /** Each block is on the list it belongs on, once, and on no other. */
  ghost predicate ListsOk(s: Slab) {
    && Distinct(s.frees) && Distinct(s.fulls)
    && (forall base :: base in s.frees <==> base in s.blocks && !Full(s.blocks[base]))
    && (forall base :: base in s.fulls <==> base in s.blocks && Full(s.blocks[base]))
  }

  ghost predicate Inv(s: Slab, live: set<nat>) { BlocksOk(s, live) && ListsOk(s) }

  // ----- The steps ----------------------------------------------------------------------------------------

  /** A newly laid out block joins the allocator. */
  function Grown(s: Slab, b: Block): (r: Slab) {
    s.(blocks := s.blocks[b.base := b], frees := s.frees + [b.base])
  }

  /** A block handed over for the purpose: fresh, aligned to its size, and laid out. */
  ghost predicate Supplied(s: Slab, b: Block) {
    && s.blockSize > 0 && b.base > 0 && b.base % s.blockSize == 0 && b.base !in s.blocks
    && b.size == s.size && s.size > 0 && b.total > 0 && DataEnd(b.base, s.size, b.total) == b.base + s.blockSize
    && b.used == 0 && BlockOk(b, {})
  }

  /** An object is taken from the first block with one, which moves to the other list if that was its last. */
  function Served(s: Slab): (r: Slab)
    requires s.frees != [] && s.frees[0] in s.blocks && s.blocks[s.frees[0]].head in s.blocks[s.frees[0]].next
  {
    var base := s.frees[0];
    var b := Taken(s.blocks[base]);
    var moved := if Full(b) then s.(frees := s.frees[1..], fulls := s.fulls + [base]) else s;
    moved.(blocks := s.blocks[base := b])
  }

  function Dropped(s: seq<nat>, x: nat): (r: seq<nat>) {
    if s == [] then [] else if s[0] == x then s[1..] else [s[0]] + Dropped(s[1..], x)
  }

  /** An object comes back to its block, which moves to the other list if it was full. */
  function Restored(s: Slab, p: nat): (r: Slab)
    requires s.blockSize > 0 && BaseOf(p, s.blockSize) in s.blocks
  {
    var base := BaseOf(p, s.blockSize);
    var b := s.blocks[base];
    var moved := if Full(b) then s.(fulls := Dropped(s.fulls, base), frees := s.frees + [base]) else s;
    moved.(blocks := s.blocks[base := Returned(b, p)])
  }

  // ----- What the steps keep --------------------------------------------------------------------------------

  /** Addresses between a block's start and end belong to it. */
  lemma BaseIs(p: nat, base: nat, blockSize: nat)
    requires blockSize > 0 && base % blockSize == 0 && base <= p < base + blockSize
    ensures BaseOf(p, blockSize) == base
  {
    var k := base / blockSize;
    assert base == k * blockSize;
    QuotientIs(p, blockSize, k, p - base);
  }

  lemma ObjectInBlock(s: Slab, base: nat, live: set<nat>, p: nat)
    requires Geometry(s.size, s.blockSize) && base in s.blocks && BlockAt(s, base, live) && IsObject(s.blocks[base], p)
    ensures BaseOf(p, s.blockSize) == base
    ensures base + HEADER <= p && p + s.size <= base + s.blockSize && p % s.size == 0
  {
    CeilBounds(HEADER, s.size);
    BaseIs(p, base, s.blockSize);
    var end := base + s.blockSize;
    BaseAligned(base, s.blockSize, s.size);
    AddMultiple(base, s.blockSize / s.size, s.size);
    assert end == base + s.blockSize / s.size * s.size;
    ObjectsApart(p, end, s.size);
  }

  lemma BaseAligned(base: nat, blockSize: nat, size: nat)
    requires size > 0 && blockSize > 0 && blockSize % size == 0 && base % blockSize == 0
    ensures base % size == 0
  {
    var k, m := base / blockSize, blockSize / size;
    assert blockSize == m * size && base == k * blockSize;
    assert base == k * (m * size) == (k * m) * size;
    ModZero(k * m, size);
  }

  lemma GrownInv(s: Slab, b: Block, live: set<nat>)
    requires Inv(s, live) && Supplied(s, b)
    ensures Inv(Grown(s, b), live)
  {
    hide BlockOk;
    var t := Grown(s, b);
    forall base | base in t.blocks ensures BlockAt(t, base, live) {
      if base == b.base {
        assert LiveIn(live, base, s.blockSize) == {};
      } else {
        assert BlockAt(s, base, live);
      }
    }
  }

  /** Another block's objects are not touched. */
  lemma OtherBlocks(s: Slab, t: Slab, live: set<nat>, now: set<nat>, base: nat, p: nat, other: nat)
    requires BlocksOk(s, live) && t.size == s.size && t.blockSize == s.blockSize && base in s.blocks
    requires t.blocks.Keys == s.blocks.Keys && other in s.blocks && other != base && t.blocks[other] == s.blocks[other]
    requires BaseOf(p, s.blockSize) == base && (now == live + {p} || now == live - {p})
    ensures BlockAt(t, other, now)
  {
    hide BlockOk;
    assert BlockAt(s, other, live);
    assert LiveIn(now, other, s.blockSize) == LiveIn(live, other, s.blockSize);
  }

  lemma ServedBlocks(s: Slab, live: set<nat>, base: nat, t: Slab)
    requires BlocksOk(s, live) && base in s.blocks && s.blocks[base].head != 0
    requires s.blocks[base].head in s.blocks[base].next
    requires t.size == s.size && t.blockSize == s.blockSize && t.blocks == s.blocks[base := Taken(s.blocks[base])]
    ensures var p := s.blocks[base].head; p !in live && BlocksOk(t, live + {p})
    ensures IsObject(s.blocks[base], s.blocks[base].head)
  {
    hide BlockOk;
    var b := s.blocks[base];
    var p, now := b.head, live + {b.head};
    assert BlockAt(s, base, live);
    TakenOk(b, LiveIn(live, base, s.blockSize));
    ObjectInBlock(s, base, live, p);
    assert LiveIn(now, base, s.blockSize) == LiveIn(live, base, s.blockSize) + {p};
    forall other | other in t.blocks ensures BlockAt(t, other, now) {
      if other != base { OtherBlocks(s, t, live, now, base, p, other); }
    }
  }

  lemma RestoredBlocks(s: Slab, live: set<nat>, p: nat, t: Slab)
    requires BlocksOk(s, live) && p in live
    requires var base := BaseOf(p, s.blockSize);
      t.size == s.size && t.blockSize == s.blockSize && t.blocks == s.blocks[base := Returned(s.blocks[base], p)]
    ensures IsObject(s.blocks[BaseOf(p, s.blockSize)], p) && BlocksOk(t, live - {p})
  {
    hide BlockOk;
    var base := BaseOf(p, s.blockSize);
    assert BlockAt(s, base, live);
    ReturnedOk(s.blocks[base], LiveIn(live, base, s.blockSize), p);
    assert LiveIn(live - {p}, base, s.blockSize) == LiveIn(live, base, s.blockSize) - {p};
    forall other | other in t.blocks ensures BlockAt(t, other, live - {p}) {
      if other != base { OtherBlocks(s, t, live, live - {p}, base, p, other); }
    }
  }

  /** Serving from the first block of the list hands out an object nobody has. */
  lemma ServedInv(s: Slab, live: set<nat>)
    requires Inv(s, live) && s.frees != []
    ensures s.frees[0] in s.blocks && s.blocks[s.frees[0]].head in s.blocks[s.frees[0]].next
    ensures var p := s.blocks[s.frees[0]].head;
      && p !in live && IsObject(s.blocks[s.frees[0]], p)
      && Inv(Served(s), live + {p})
  {
    hide BlockOk;
    var base := s.frees[0];
    assert BlockAt(s, base, live);
    HeadMeansFree(s.blocks[base], LiveIn(live, base, s.blockSize));
    ServedBlocks(s, live, base, Served(s));
    ServedLists(s);
  }

  lemma ServedLists(s: Slab)
    requires ListsOk(s) && s.frees != [] && s.frees[0] in s.blocks
    requires s.blocks[s.frees[0]].head in s.blocks[s.frees[0]].next
    requires s.blocks[s.frees[0]].used < s.blocks[s.frees[0]].total
    ensures ListsOk(Served(s))
  {
    var base := s.frees[0];
    assert s.frees == [base] + s.frees[1..];
    assert base !in s.frees[1..];
  }

  lemma {:induction false} DroppedIs(s: seq<nat>, x: nat)
    requires Distinct(s)
    ensures Distinct(Dropped(s, x)) && forall y :: y in Dropped(s, x) <==> y in s && y != x
  {
    if s != [] {
      assert s == [s[0]] + s[1..];
      assert s[0] !in s[1..];
      DroppedIs(s[1..], x);
    }
  }

  lemma RestoredLists(s: Slab, p: nat)
    requires ListsOk(s) && s.blockSize > 0 && BaseOf(p, s.blockSize) in s.blocks
    requires s.blocks[BaseOf(p, s.blockSize)].used <= s.blocks[BaseOf(p, s.blockSize)].total
    ensures ListsOk(Restored(s, p))
  {
    hide BaseOf;
    DroppedIs(s.fulls, BaseOf(p, s.blockSize));
  }

  /** An object that comes back passes the tests made on it, and only it is free again. */
  lemma RestoredInv(s: Slab, live: set<nat>, p: nat)
    requires Inv(s, live) && p in live
    ensures BaseOf(p, s.blockSize) in s.blocks && IsObject(s.blocks[BaseOf(p, s.blockSize)], p)
    ensures Inv(Restored(s, p), live - {p})
  {
    hide BlockOk, ListsOk;
    var base := BaseOf(p, s.blockSize);
    assert BlockAt(s, base, live);
    HeadMeansFree(s.blocks[base], LiveIn(live, base, s.blockSize));
    RestoredBlocks(s, live, p, Restored(s, p));
    RestoredLists(s, p);
  }

  // ----- Whole runs -----------------------------------------------------------------------------------------

  datatype Op = Allocate(supply: Block) | Free(p: nat)

  /** The allocator after a call, with the objects in use; the supply matters only when no block has a free
      object. */
  ghost predicate Step(s: Slab, live: set<nat>, op: Op, t: Slab, now: set<nat>) {
    match op
    case Allocate(b) =>
      && (s.frees == [] ==> Supplied(s, b))
      && var g := if s.frees == [] then Grown(s, b) else s;
      && g.frees[0] in g.blocks && g.blocks[g.frees[0]].head in g.blocks[g.frees[0]].next
      && t == Served(g) && now == live + {g.blocks[g.frees[0]].head}
    case Free(p) =>
      && p in live && s.blockSize > 0 && BaseOf(p, s.blockSize) in s.blocks
      && t == Restored(s, p) && now == live - {p}
  }

  lemma StepInv(s: Slab, live: set<nat>, op: Op, t: Slab, now: set<nat>)
    requires Inv(s, live) && Step(s, live, op, t, now)
    ensures Inv(t, now) && t.size == s.size && t.blockSize == s.blockSize
    ensures op.Allocate? ==> |now| == |live| + 1
  {
    match op {
      case Allocate(b) =>
        if s.frees == [] { GrownInv(s, b, live); }
        ServedInv(if s.frees == [] then Grown(s, b) else s, live);
      case Free(p) => RestoredInv(s, live, p);
    }
  }

  datatype State = State(slab: Slab, live: set<nat>)

  ghost predicate Trace(ss: seq<State>, ops: seq<Op>) {
    && |ss| == |ops| + 1
    && (forall i, j :: 0 <= i < |ops| && j == i + 1 ==> Step(ss[i].slab, ss[i].live, ops[i], ss[j].slab, ss[j].live))
  }

  ghost predicate Empty(s: State, size: nat, blockSize: nat) {
    s == State(Slab(size, blockSize, map[], [], []), {})
  }

  lemma {:induction false} EveryRunInv(ss: seq<State>, ops: seq<Op>, size: nat, blockSize: nat, k: nat)
    requires Trace(ss, ops) && Geometry(size, blockSize) && Empty(ss[0], size, blockSize) && k < |ss|
    ensures Inv(ss[k].slab, ss[k].live) && ss[k].slab.size == size && ss[k].slab.blockSize == blockSize
  {
    hide Inv, Step;
    if k == 0 {
      EmptyInv(ss[0], size, blockSize);
    } else {
      EveryRunInv(ss, ops, size, blockSize, k - 1);
      StepInv(ss[k - 1].slab, ss[k - 1].live, ops[k - 1], ss[k].slab, ss[k].live);
    }
  }

  lemma EmptyInv(s: State, size: nat, blockSize: nat)
    requires Geometry(size, blockSize) && Empty(s, size, blockSize)
    ensures Inv(s.slab, s.live)
  {
  }

  /** In every run, objects in use are aligned to their size, lie in a block behind its header, and share no
      byte; a block's free list holds exactly the objects that are not in use, and the lists hold exactly the
      blocks with and without one. */
  lemma EveryRunSeparates(ss: seq<State>, ops: seq<Op>, size: nat, blockSize: nat, k: nat)
    requires Trace(ss, ops) && Geometry(size, blockSize) && Empty(ss[0], size, blockSize) && k < |ss|
    ensures forall p :: p in ss[k].live ==>
      && var base := BaseOf(p, blockSize);
      && base in ss[k].slab.blocks && base + HEADER <= p && p + size <= base + blockSize && p % size == 0
    ensures forall p, q :: p in ss[k].live && q in ss[k].live && p < q ==> p + size <= q
    ensures ListsOk(ss[k].slab)
    ensures forall base :: base in ss[k].slab.blocks ==> FreeListExact(ss[k].slab.blocks[base], ss[k].live)
  {
    hide BlockOk;
    EveryRunInv(ss, ops, size, blockSize, k);
    var s, live := ss[k].slab, ss[k].live;
    forall p | p in live ensures var base := BaseOf(p, blockSize);
      base in s.blocks && base + HEADER <= p && p + size <= base + blockSize && p % size == 0
    {
      LiveObject(s, live, p);
    }
    forall p, q | p in live && q in live && p < q ensures p + size <= q {
      LiveObject(s, live, p);
      LiveObject(s, live, q);
      ObjectsApart(p, q, size);
    }
    forall base | base in s.blocks ensures FreeListExact(s.blocks[base], live) {
      FreeListIs(s, base, live);
    }
  }

  lemma LiveObject(s: Slab, live: set<nat>, p: nat)
    requires BlocksOk(s, live) && p in live
    ensures var base := BaseOf(p, s.blockSize);
      base in s.blocks && base + HEADER <= p && p + s.size <= base + s.blockSize && p % s.size == 0
  {
    var base := BaseOf(p, s.blockSize);
    assert BlockAt(s, base, live) && p in LiveIn(live, base, s.blockSize);
    var free :| Holds(s.blocks[base], free, LiveIn(live, base, s.blockSize));
    ObjectInBlock(s, base, live, p);
  }

  /** The links from the head visit different objects of the block, none in use, and as many as its counters
      leave. */
  ghost predicate FreeListExact(b: Block, live: set<nat>) {
    exists free: seq<nat> :: Threaded(b.next, b.head, free) && Distinct(free) && |free| + b.used == b.total
                && forall p :: p in free ==> b.size > 0 && IsObject(b, p) && p !in live
  }

  lemma FreeListIs(s: Slab, base: nat, live: set<nat>)
    requires BlocksOk(s, live) && base in s.blocks
    ensures FreeListExact(s.blocks[base], live)
  {
    assert BlockAt(s, base, live);
    var b, mine := s.blocks[base], LiveIn(live, base, s.blockSize);
    var free :| Holds(b, free, mine);
    forall p | p in free ensures IsObject(b, p) && p !in live {
      ObjectInBlock(s, base, live, p);
    }
  }

  // ----- Which allocator serves a request --------------------------------------------------------------------

  const Classes: seq<nat> := [32, 64, 128, 256, 512, 1024]

  function DefaultBlockSize(size: nat): (n: nat) {
    if size <= 256 then 4096 else size / 256 * 4096
  }

  lemma ClassGeometry(i: nat)
    requires i < |Classes|
    ensures Geometry(Classes[i], DefaultBlockSize(Classes[i]))
    ensures DefaultBlockSize(Classes[i]) == [4096, 4096, 4096, 4096, 8192, 16384][i]
  {
  }

  predicate Suits(size: nat, align: nat, class_: nat) { size <= class_ && align <= class_ }

  /** The first allocator whose objects are large enough, or none. */
  ghost predicate ServedBy(size: nat, align: nat, i: nat) {
    && i <= |Classes| && (i < |Classes| ==> Suits(size, align, Classes[i]))
    && forall j :: 0 <= j < i ==> !Suits(size, align, Classes[j])
  }

  method Dispatch(size: nat, align: nat) returns (i: nat)
    ensures ServedBy(size, align, i) && i <= 6
    ensures i < 6 ==> size <= Classes[i] && align <= Classes[i]
    ensures forall j :: 0 <= j < i ==> size > Classes[j] || align > Classes[j]
  {
    for k := 0 to |Classes|
      invariant forall j :: 0 <= j < k ==> !Suits(size, align, Classes[j])
    {
      if Suits(size, align, Classes[k]) { return k; }
    }
    return |Classes|;
  }

  /** An object may come back under any size between the one asked for and the one given, with the same
      alignment, and still reaches the allocator it came from: exactly then, in fact, for sizes not below the
      one asked for. */
  lemma SameAllocator(size: nat, align: nat, i: nat, later: nat, j: nat)
    requires ServedBy(size, align, i) && i < |Classes| && ServedBy(later, align, j) && size <= later
    ensures i == j <==> later <= Classes[i]
  {
    if later <= Classes[i] {
      assert Suits(later, align, Classes[i]);
      assert j <= i;
    }
  }
}
