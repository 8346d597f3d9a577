/** Runs of the userspace heap: every sequence of allocations and frees a program can perform, small
    and huge, and what holds in every state they reach. */
module HeapRuns {
  import opened HeapArena

  datatype HugeBlock = HugeBlock(addr: int, size: int, request: int)

  datatype State = State(arena: Arena, huge: seq<HugeBlock>)

  const START := State(EMPTY, [])

  /** What one call to the allocator did. */
  datatype Step =
    | Reuse(request: int, b: int)            // a small request served from the free list
    | GrowAndTake(request: int, chunk: int)  // a small request served from a new chunk
    | FreeBlock(b: int)
    | TakeHuge(request: int, addr: int)
    | FreeHuge(j: int)
    | Nothing                                // an empty request, a refused one, a size query

  function AlignUp(n: int, alignment: int): int
    requires alignment > 0
  {
    (n + alignment - 1) / alignment * alignment
  }

  function HugeSize(request: int): (r: int)
    ensures request + HEADER <= r < request + HEADER + PAGE && r % PAGE == 0
  {
    AlignUp(request + HEADER, PAGE)
  }

  /** Requests are rounded up to the 8-byte alignment of every block. */
  function Rounded(size: nat): (r: nat)
    ensures size <= r < size + 8 && r % 8 == 0
  {
    AlignUp(size, 8)
  }

  predicate SmallRequest(request: int) { 8 <= request < PAGE && request % 8 == 0 }

  predicate Apart(a: int, n: int, b: int, m: int) { a + n <= b || b + m <= a }

  /** The kernel hands out a page-aligned region clear of everything it handed out and has not taken back. */
  ghost predicate Fresh(s: State, addr: int, size: int) {
    && addr > 0 && addr % PAGE == 0
    && (forall c :: c in s.arena.chunks ==> Apart(addr, size, c, CHUNK))
    && (forall h :: h in s.huge ==> Apart(addr, size, h.addr, h.size))
  }

  /** The sanity check made when a small block is freed or measured. */
  predicate FreeCheck(s: State, b: int) {
    b in s.arena.size && 8 <= s.arena.size[b] - HEADER < PAGE
  }

  ghost predicate Enabled(s: State, step: Step) {
    match step
    case Reuse(request, b) => SmallRequest(request) && Chosen(s.arena, request, b)
    case GrowAndTake(request, chunk) =>
      SmallRequest(request) && NoFit(s.arena, request) && Fresh(s, chunk, CHUNK)
    case FreeBlock(b) => b in s.arena.live && FreeCheck(s, b)
    case TakeHuge(request, addr) => request >= PAGE && Fresh(s, addr, HugeSize(request))
    case FreeHuge(j) => 0 <= j < |s.huge|
    case Nothing => true
  }

  ghost function Apply(s: State, step: Step): State {
    match step
    case Reuse(request, b) => if b in s.arena.size then s.(arena := Take(s.arena, b, request)) else s
    case GrowAndTake(request, chunk) => s.(arena := Take(Grow(s.arena, chunk), chunk, request))
    case FreeBlock(b) => s.(arena := Release(s.arena, b))
    case TakeHuge(request, addr) => s.(huge := [HugeBlock(addr, HugeSize(request), request)] + s.huge)
    case FreeHuge(j) => if 0 <= j < |s.huge| then s.(huge := s.huge[..j] + s.huge[j + 1..]) else s
    case Nothing => s
  }

  /** Which block serves a small request, by its size: the lowest whose size exceeds the request and its header by less
      than what a split needs, or else the smallest that is large enough, the lowest of several.  A chunk is added
      only when no block is large enough. */
  lemma ServedExactly(s: State, step: Step)
    requires Inv(s.arena) && Enabled(s, step)
    ensures var size, free := s.arena.size, s.arena.free;
      && (step.Reuse? ==>
            && step.b in free && step.b in size && size[step.b] >= step.request + 16
            && if size[step.b] < step.request + 40 then
                 forall c :: c in free && c in size && step.request + 16 <= size[c] < step.request + 40 ==> step.b <= c
               else
                 forall c :: c in free && c in size && step.request + 16 <= size[c] ==>
                   size[step.b] < size[c] || (size[step.b] == size[c] && step.b <= c))
      && (step.GrowAndTake? ==> forall c :: c in free && c in size ==> size[c] < step.request + 16)
  {
  }

  /** What it leaves: a block of at least 40 bytes more than the request is cut behind the request and its header, any
      other is handed out whole. */
  lemma TakenExactly(s: Arena, b: int, request: int)
    requires b in s.size && b in s.free && request > 0
    ensures var t := Take(s, b, request);
      && t.live == s.live[b := request] && t.chunks == s.chunks
      && if s.size[b] < request + 40 then t.size == s.size && t.free == s.free - {b}
         else
           && t.size == s.size[b := request + 16][b + 16 + request := s.size[b] - (request + 16)]
           && t.free == s.free - {b} + {b + 16 + request}
  {
  }

  /** A block serves the request exactly when one of the free ones is large enough. */
  lemma FitsExactly(a: Arena, request: int)
    requires a.free <= a.size.Keys
    ensures NoFit(a, request) <==> !exists b :: b in a.free && b in a.size && a.size[b] >= request + 16
  {
  }

  /** Huge regions hold their requests with less than a page to spare, and are clear of each other and of the
      chunks. */
  ghost predicate HugeInv(s: State) {
    && (forall h :: h in s.huge ==>
          && h.addr > 0 && h.addr % PAGE == 0 && h.request >= PAGE
          && h.request + HEADER <= h.size < h.request + HEADER + PAGE && h.size % PAGE == 0)
    && (forall h, c :: h in s.huge && c in s.arena.chunks ==> Apart(h.addr, h.size, c, CHUNK))
    && (forall i, j :: 0 <= i < j < |s.huge| ==>
          Apart(s.huge[i].addr, s.huge[i].size, s.huge[j].addr, s.huge[j].size))
  }

  ghost predicate StateInv(s: State) { Inv(s.arena) && HugeInv(s) }

  lemma ArenaStepInv(s: State, step: Step)
    requires Inv(s.arena) && Enabled(s, step)
    ensures Inv(Apply(s, step).arena)
  {
    match step
    case Reuse(request, b) =>
      TakeInv(s.arena, b, request);
    case GrowAndTake(request, chunk) =>
      GrowInv(s.arena, chunk);
      TakeInv(Grow(s.arena, chunk), chunk, request);
    case FreeBlock(b) =>
      ReleaseInv(s.arena, b);
    case TakeHuge(request, addr) =>
    case FreeHuge(j) =>
    case Nothing =>
  }

  lemma HugeStepInv(s: State, step: Step)
    requires HugeInv(s) && Enabled(s, step)
    ensures HugeInv(Apply(s, step))
  {
    var s' := Apply(s, step);
    assert s'.arena.chunks <= s.arena.chunks + (if step.GrowAndTake? then {step.chunk} else {});
    if step.FreeHuge? {
      assert forall i :: 0 <= i < |s'.huge| ==> s'.huge[i] == s.huge[if i < step.j then i else i + 1];
    }
  }

  lemma StepInv(s: State, step: Step)
    requires StateInv(s) && Enabled(s, step)
    ensures StateInv(Apply(s, step))
  {
    ArenaStepInv(s, step);
    HugeStepInv(s, step);
  }

  // ----- whole runs -----

  ghost function Run(steps: seq<Step>): State {
    if steps == [] then START else Apply(Run(steps[..|steps| - 1]), steps[|steps| - 1])
  }

  /** Each step was possible when it was taken. */
  ghost predicate Legal(steps: seq<Step>) {
    steps != [] ==>
      Legal(steps[..|steps| - 1]) && Enabled(Run(steps[..|steps| - 1]), steps[|steps| - 1])
  }

  /** In every run, free and live blocks tile the chunks exactly, free blocks are coalesced, every live
      block holds its request, and huge regions are clear of everything else. */
  lemma {:induction false} EveryRunTiles(steps: seq<Step>)
    requires Legal(steps)
    ensures StateInv(Run(steps))
  {
    if steps != [] {
      EveryRunTiles(steps[..|steps| - 1]);
      StepInv(Run(steps[..|steps| - 1]), steps[|steps| - 1]);
    }
  }

  ghost predicate Reached(s: State) {
    exists steps :: Legal(steps) && Run(steps) == s
  }

  lemma ReachedInv(s: State)
    requires Reached(s)
    ensures StateInv(s) && Inv(s.arena)
  {
    var steps :| Legal(steps) && Run(steps) == s;
    EveryRunTiles(steps);
  }

  lemma ReachedStep(s: State, step: Step)
    requires Reached(s) && Enabled(s, step)
    ensures Reached(Apply(s, step))
  {
    var steps :| Legal(steps) && Run(steps) == s;
    assert (steps + [step])[..|steps|] == steps;
    assert Legal(steps + [step]) && Run(steps + [step]) == Apply(s, step);
  }

  lemma StartIsReached()
    ensures Reached(START)
  {
    assert Legal([]) && Run([]) == START;
  }

  /** Every byte of every chunk belongs to exactly one block, which is free or live and not both. */
  lemma EveryByteOwnedOnce(s: State, a: int) returns (b: int)
    requires Reached(s) && InChunks(s.arena.chunks, a)
    ensures Holds(s.arena.size, b, a) && (b in s.arena.free) != (b in s.arena.live)
    ensures forall c :: Holds(s.arena.size, c, a) ==> c == b
  {
    ReachedInv(s);
    b :| Holds(s.arena.size, b, a);
  }

  // ----- the check made on free -----

  const CARVED := Arena(
    map[4096 := 2056, 6152 := 2056, 8208 := 24, 8232 := 61400], {8232},
    map[4096 := 2040, 6152 := 2040, 8208 := 8], {4096})

  const HALF_FREED := CARVED.(free := {4096, 8232}, live := map[6152 := 2040, 8208 := 8])

  const AWKWARD := Arena(
    map[4096 := 4112, 8208 := 24, 8232 := 61400], {4096, 8232}, map[8208 := 8], {4096})

  lemma FirstTake(request: int)
    requires SmallRequest(request)
    ensures Reached(State(Arena(map[4096 := 16 + request, 4112 + request := 65520 - request],
                                {4112 + request}, map[4096 := request], {4096}), []))
  {
    hide Reached;
    StartIsReached();
    ReachedStep(START, GrowAndTake(request, 4096));
    assert Grow(EMPTY, 4096) == Arena(map[4096 := 65536], {4096}, map[], {4096});
    assert Apply(START, GrowAndTake(request, 4096)) ==
      State(Arena(map[4096 := 16 + request, 4112 + request := 65520 - request],
                  {4112 + request}, map[4096 := request], {4096}), []);
  }

  const TWICE_TAKEN := Arena(
    map[4096 := 2056, 6152 := 2056, 8208 := 61424], {8208}, map[4096 := 2040, 6152 := 2040], {4096})

  lemma SecondTake()
    ensures Reached(State(TWICE_TAKEN, []))
  {
    hide Reached;
    FirstTake(2040);
    var a := Arena(map[4096 := 2056, 6152 := 63480], {6152}, map[4096 := 2040], {4096});
    ReachedStep(State(a, []), Reuse(2040, 6152));
    assert Take(a, 6152, 2040) == TWICE_TAKEN;
  }

  lemma ThirdTake()
    ensures Take(TWICE_TAKEN, 8208, 8) == CARVED
  {
    assert Take(TWICE_TAKEN, 8208, 8).size == CARVED.size;
  }

  lemma CarvedIsReached()
    ensures Reached(State(CARVED, []))
  {
    hide Reached;
    SecondTake();
    ThirdTake();
    ReachedStep(State(TWICE_TAKEN, []), Reuse(8, 8208));
  }

  lemma FirstRelease()
    ensures Release(CARVED, 4096) == HALF_FREED
  {
    assert Listed(CARVED, 4096) == HALF_FREED;
    assert forall p :: !FreeBefore(HALF_FREED, p, 4096);
  }

  lemma SecondRelease()
    ensures Release(HALF_FREED, 6152) == AWKWARD
  {
    var s := Listed(HALF_FREED, 6152);
    assert s == CARVED.(free := {4096, 6152, 8232}, live := map[8208 := 8]);
    assert FreeBefore(s, 4096, 6152) && forall p :: FreeBefore(s, p, 6152) ==> p == 4096;
    assert Merge(s.size, 4096) == AWKWARD.size;
    assert MergeNext(s, 4096) == AWKWARD;
  }

  /** Some run leaves a free block of exactly 4112 bytes. */
  lemma AwkwardIsReached()
    ensures Reached(State(AWKWARD, []))
  {
    hide Reached;
    CarvedIsReached();
    FirstRelease();
    ReachedStep(State(CARVED, []), FreeBlock(4096));
    SecondRelease();
    ReachedStep(State(HALF_FREED, []), FreeBlock(6152));
  }

  /** In every run the check on free passes for a block of that request exactly when the rounded request
      is at most 4072 bytes: a larger small request can be handed a block with a page or more of data. */
  lemma FreeCheckExactly(request: int)
    requires SmallRequest(request)
    ensures (forall s, b ::
               Reached(s) && b in s.arena.live && s.arena.live[b] == request ==> FreeCheck(s, b))
            <==> request <= 4072
  {
    hide Reached;
    if request <= 4072 {
      forall s, b | Reached(s) && b in s.arena.live && s.arena.live[b] == request
        ensures FreeCheck(s, b)
      {
        ReachedInv(s);
        LiveShaped(s.arena, b);
      }
    } else {
      AwkwardIsReached();
      assert Tight(AWKWARD.size, 4096, request);
      ReachedStep(State(AWKWARD, []), Reuse(request, 4096));
      var s := Apply(State(AWKWARD, []), Reuse(request, 4096));
      assert 4096 in s.arena.live && s.arena.live[4096] == request && !FreeCheck(s, 4096);
    }
  }

  // ----- alignment -----

  lemma MultipleHasNoRemainder(a: int, n: int)
    requires a > 0
    ensures (n * a) % a == 0
  {
    var q, r := (n * a) / a, (n * a) % a;
    assert (n - q) * a == r;
    assert n - q >= 1 ==> (n - q) * a >= a;
    assert n - q <= -1 ==> (n - q) * a <= -a;
  }

  lemma LinearCombination(a: int, x: int, y: int, m: int, n: int)
    requires a > 0 && x % a == 0 && y % a == 0
    ensures (m * x + n * y) % a == 0
  {
    var p, q := x / a, y / a;
    assert x == p * a && y == q * a;
    assert m * x == (m * p) * a && n * y == (n * q) * a;
    assert m * x + n * y == (m * p + n * q) * a;
    MultipleHasNoRemainder(a, m * p + n * q);
  }

  lemma DivisorsOfEight(align: int)
    requires align > 0
    ensures 4112 % align == 0 && 4136 % align == 0 ==> 8 % align == 0
    ensures 8 % align == 0 ==> forall p :: p % 8 == 0 ==> p % align == 0
  {
    if 4112 % align == 0 && 4136 % align == 0 {
      LinearCombination(align, 4112, 4136, 172, -171);
    }
    if 8 % align == 0 {
      forall p | p % 8 == 0 ensures p % align == 0 {
        LinearCombination(align, 8, 8, p / 8, 0);
      }
    }
  }

  lemma TwoSmallBlocks() returns (s: State)
    ensures Reached(s) && 4096 in s.arena.live && 4120 in s.arena.live
  {
    hide Reached;
    FirstTake(8);
    var s1 := State(Arena(map[4096 := 24, 4120 := 65512], {4120}, map[4096 := 8], {4096}), []);
    ReachedStep(s1, Reuse(8, 4120));
    s := Apply(s1, Reuse(8, 4120));
  }

  lemma LiveAligned(s: State, b: int)
    requires Reached(s) && b in s.arena.live
    ensures (b + HEADER) % 8 == 0
  {
    hide Inv;
    hide StateInv;
    ReachedInv(s);
    LiveShaped(s.arena, b);
  }

  ghost predicate AlwaysAligned(align: int)
    requires align > 0
  {
    forall s, b :: Reached(s) && b in s.arena.live ==> (b + HEADER) % align == 0
  }

  /** The alignment argument is not used: small pointers of every run are aligned to `align` exactly when
      `align` divides 8. */
  lemma AlignmentExactly(align: int)
    requires align > 0
    ensures AlwaysAligned(align) <==> 8 % align == 0
  {
    hide Reached;
    DivisorsOfEight(align);
    if 8 % align == 0 {
      forall s, b | Reached(s) && b in s.arena.live
        ensures (b + HEADER) % align == 0
      {
        LiveAligned(s, b);
      }
    }
    if AlwaysAligned(align) {
      var s := TwoSmallBlocks();
    }
  }
}
