/** The pointer-level allocator: block headers in memory, the free list and the list of huge blocks
    threaded through them.  Each method performs one step of a run of the abstract heap. */
module HeapClass {
  import opened HeapArena
  import opened HeapRuns

  const NULL := 0

  /** The header in front of every block, small or huge. */
  datatype Header = Header(next: int, size: int)

  /** The answer of the kernel's allocate call. */
  datatype Answer = Refused | Granted(addr: int)

  type Memory = map<int, Header>

  // ----- the address-sorted free list -----

  /** `n` is the least member of `free` above `b`, or null when there is none. */
  ghost predicate Follows(free: set<int>, b: int, n: int) {
    && (forall c :: c in free && c > b ==> n != NULL && n <= c)
    && (n != NULL ==> n in free && n > b)
  }

  /** Following `next` from `head` visits the members of `free` in address order. */
  ghost predicate Linked(mem: Memory, head: int, free: set<int>) {
    && (forall b :: b in free ==> b > NULL && b in mem && Follows(free, b, mem[b].next))
    && Follows(free, NULL, head)
  }

  /** The link out of `b`, which is the list head when `b` is null. */
  function LinkOf(mem: Memory, head: int, b: int): int
    requires b == NULL || b in mem
  {
    if b == NULL then head else mem[b].next
  }

  function SetNext(mem: Memory, b: int, n: int): Memory
    requires b in mem
  {
    mem[b := Header(n, mem[b].size)]
  }

  /** The memory and head after the link out of `p` is redirected to `n`. */
  function Redirect(mem: Memory, p: int, n: int): Memory
    requires p == NULL || p in mem
  {
    if p == NULL then mem else SetNext(mem, p, n)
  }

  ghost predicate Precedes(free: set<int>, p: int, b: int) {
    && (p == NULL || p in free) && p < b
    && forall c :: c in free && c < b ==> c <= p
  }

  lemma FollowsInsert(free: set<int>, p: int, x: int, n: int)
    requires x > NULL && x !in free && Precedes(free, p, x) && Follows(free, p, n)
    ensures Follows(free + {x}, p, x) && Follows(free + {x}, x, n)
  {
  }

  lemma FollowsKept(free: set<int>, p: int, x: int, b: int, n: int)
    requires x !in free && Precedes(free, p, x) && Follows(free, b, n)
    requires b == NULL || b in free
    requires b != p && p >= NULL && b >= NULL
    ensures Follows(free + {x}, b, n)
  {
  }

  lemma LinkedInsert(mem: Memory, head: int, free: set<int>, p: int, x: int)
    requires Linked(mem, head, free) && x > NULL && x in mem && x !in free && Precedes(free, p, x)
    ensures
      Linked(Redirect(SetNext(mem, x, LinkOf(mem, head, p)), p, x),
             if p == NULL then x else head, free + {x})
  {
    var mem' := Redirect(SetNext(mem, x, LinkOf(mem, head, p)), p, x);
    FollowsInsert(free, p, x, LinkOf(mem, head, p));
    forall b | b in free + {x} ensures b > NULL && b in mem' && Follows(free + {x}, b, mem'[b].next) {
      if b != x && b != p {
        FollowsKept(free, p, x, b, mem[b].next);
      }
    }
    if p != NULL {
      FollowsKept(free, p, x, NULL, head);
    }
  }

  lemma FollowsRemove(free: set<int>, p: int, x: int, n: int)
    requires x in free && Precedes(free, p, x) && Follows(free, x, n) && p >= NULL
    ensures Follows(free - {x}, p, n)
  {
  }

  lemma FollowsStill(free: set<int>, p: int, x: int, b: int, n: int)
    requires x in free && Precedes(free, p, x) && Follows(free, b, n)
    requires (b == NULL || b in free) && b != x && b != p && b >= NULL && p >= NULL
    ensures Follows(free - {x}, b, n)
  {
  }

  lemma LinkedRemove(mem: Memory, head: int, free: set<int>, p: int, x: int)
    requires Linked(mem, head, free) && x in free && Precedes(free, p, x)
    ensures Linked(Redirect(mem, p, mem[x].next), if p == NULL then mem[x].next else head, free - {x})
  {
    var mem' := Redirect(mem, p, mem[x].next);
    FollowsRemove(free, p, x, mem[x].next);
    forall b | b in free - {x} ensures b > NULL && b in mem' && Follows(free - {x}, b, mem'[b].next) {
      if b != p {
        FollowsStill(free, p, x, b, mem[b].next);
      }
    }
    if p != NULL {
      FollowsStill(free, p, x, NULL, head);
    }
  }

  /** The list depends only on the next fields of its own members. */
  lemma LinkedFrame(mem: Memory, mem': Memory, head: int, free: set<int>)
    requires Linked(mem, head, free)
    requires forall a :: a in free ==> a in mem && a in mem' && mem'[a].next == mem[a].next
    ensures Linked(mem', head, free)
  {
  }

  // ----- memory against the arena -----

  /** Memory holds the arena: the free list is threaded through the free blocks and every block's header
      carries its size. */
  ghost predicate Stores(mem: Memory, head: int, a: Arena) {
    && Linked(mem, head, a.free)
    && forall b :: b in a.size ==> b in mem && mem[b].size == a.size[b]
  }

  lemma StoresFrame(mem: Memory, mem': Memory, head: int, a: Arena)
    requires Stores(mem, head, a) && a.free <= a.size.Keys
    requires forall b :: b in a.size ==> b in mem && b in mem' && mem'[b] == mem[b]
    ensures Stores(mem', head, a)
  {
  }

  /** Splitting `b` puts the rest right behind it in the list. */
  lemma LinkedSplit(mem: Memory, head: int, free: set<int>, b: int, rest: int, first: int, second: int)
    requires Linked(mem, head, free) && b in free && rest > b && rest !in free
    requires forall c :: c in free && c < rest ==> c <= b
    ensures Linked(mem[b := Header(rest, first)][rest := Header(mem[b].next, second)], head, free + {rest})
  {
    var mem1 := mem[b := Header(mem[b].next, first)][rest := Header(mem[b].next, second)];
    LinkedFrame(mem, mem1, head, free);
    LinkedInsert(mem1, head, free, b, rest);
    assert Redirect(SetNext(mem1, rest, mem1[b].next), b, rest) ==
      mem[b := Header(rest, first)][rest := Header(mem[b].next, second)];
  }

  /** No free block starts inside another block. */
  lemma NothingInside(a: Arena, b: int, c: int)
    requires Shaped(a.size) && Disjoint(a.size) && b in a.size && c in a.size && c < b + a.size[b]
    ensures c <= b
  {
  }

  /** Nothing but headers of the arena's blocks differs. */
  ghost predicate OnlyBlocksChanged(mem: Memory, mem': Memory, size: map<int, int>) {
    forall x :: x in mem && x !in size ==> x in mem' && mem'[x] == mem[x]
  }

  /** Unlinking `b` and clearing its own link. */
  lemma LinkedTake(mem: Memory, head: int, free: set<int>, p: int, b: int)
    requires Linked(mem, head, free) && b in free && Precedes(free, p, b)
    ensures Linked(Redirect(SetNext(mem, b, NULL), p, mem[b].next),
                   if p == NULL then mem[b].next else head, free - {b})
  {
    LinkedRemove(mem, head, free, p, b);
    LinkedFrame(Redirect(mem, p, mem[b].next), Redirect(SetNext(mem, b, NULL), p, mem[b].next),
                if p == NULL then mem[b].next else head, free - {b});
  }

  /** The best block among the free blocks up to `last`, none of which was tight. */
  ghost predicate BestSoFar(a: Arena, request: int, best: int, last: int) {
    if best == NULL then
      forall c :: c in a.free && c <= last ==> !Fits(a.size, c, request)
    else
      && best in a.free && best <= last
      && Fits(a.size, best, request) && !Tight(a.size, best, request)
      && forall c :: c in a.free && c <= last && c != best && Fits(a.size, c, request) ==>
           a.size[best] < a.size[c] || (a.size[best] == a.size[c] && best < c)
  }

  lemma FirstTightIsChosen(a: Arena, request: int, best: int, last: int, next: int)
    requires BestSoFar(a, request, best, last) && next != NULL && Follows(a.free, last, next)
    requires Tight(a.size, next, request)
    ensures Chosen(a, request, next)
  {
  }

  lemma BestAdvances(a: Arena, request: int, best: int, last: int, next: int)
    requires BestSoFar(a, request, best, last) && next != NULL && Follows(a.free, last, next)
    requires next in a.size
    ensures (if Fits(a.size, next, request) && (best == NULL || a.size[best] > a.size[next])
             then !Tight(a.size, next, request) ==> BestSoFar(a, request, next, next)
             else BestSoFar(a, request, best, next))
  {
  }

  /** A block whose header is in place joins the list. */
  lemma InsertStores(mem: Memory, head: int, a: Arena, p: int, x: int)
    requires Stores(mem, head, a) && a.free <= a.size.Keys
    requires x > NULL && x in a.size && x !in a.free && Precedes(a.free, p, x)
    ensures p == NULL || p in mem
    ensures var mem' := Redirect(SetNext(mem, x, LinkOf(mem, head, p)), p, x);
      && Stores(mem', if p == NULL then x else head, a.(free := a.free + {x}))
      && OnlyBlocksChanged(mem, mem', a.size)
      && Precedes(a.free + {x}, p, x)
  {
    hide Follows;
    LinkedInsert(mem, head, a.free, p, x);
  }

  lemma LinkFollows(mem: Memory, head: int, free: set<int>, b: int)
    requires Linked(mem, head, free) && b in free
    ensures b in mem && Follows(free, b, mem[b].next)
  {
  }

  /** In a list threaded through disjoint blocks, the block behind `b` is linked to it exactly when it
      is free. */
  lemma NextTouches(mem: Memory, head: int, a: Arena, b: int)
    requires Stores(mem, head, a) && Shaped(a.size) && Disjoint(a.size)
    requires a.free <= a.size.Keys && b in a.free
    ensures mem[b].next == b + a.size[b] <==> b + a.size[b] in a.free
    ensures b + a.size[b] in a.free ==> Precedes(a.free, b, b + a.size[b])
  {
    hide Linked;
    LinkFollows(mem, head, a.free, b);
    if b + a.size[b] in a.free {
      forall c | c in a.free && c < b + a.size[b] ensures c <= b {
        NothingInside(a, b, c);
      }
    }
  }

  /** `b` absorbs the free block behind it. */
  lemma MergeStores(mem: Memory, head: int, a: Arena, b: int)
    requires Stores(mem, head, a) && Shaped(a.size) && Disjoint(a.size)
    requires a.free <= a.size.Keys && b in a.free && b + a.size[b] in a.free
    ensures
      var n := b + a.size[b];
      n in mem && b != n && Stores(mem[b := Header(mem[n].next, mem[b].size + mem[n].size)], head, MergeNext(a, b))
  {
    hide Follows;
    var n := b + a.size[b];
    NextTouches(mem, head, a, b);
    LinkedRemove(mem, head, a.free, b, n);
    LinkedFrame(Redirect(mem, b, mem[n].next), mem[b := Header(mem[n].next, mem[b].size + mem[n].size)],
                head, a.free - {n});
  }

  /** The free block that ends at `b`, if any, is its predecessor in the list. */
  lemma OnlyPreviousTouches(a: Arena, p: int, b: int)
    requires Shaped(a.size) && Disjoint(a.size) && a.free <= a.size.Keys && b in a.free
    requires Precedes(a.free, p, b)
    ensures MergePrevious(a, b) == if p in a.free && p + a.size[p] == b then MergeNext(a, p) else a
  {
    forall q | FreeBefore(a, q, b) ensures q == p {
      assert q <= p;
      NothingInside(a, q, p);
    }
    if p in a.free && p + a.size[p] == b {
      assert FreeBefore(a, p, b);
    }
  }

  lemma MergeNextKeeps(a: Arena, p: int, b: int)
    requires Shaped(a.size) && b in a.free && Precedes(a.free, p, b)
    ensures MergeNext(a, b).size.Keys <= a.size.Keys
    ensures b in MergeNext(a, b).free && Precedes(MergeNext(a, b).free, p, b)
  {
  }

  // ----- the list of huge blocks -----

  function AddrAt(huge: seq<HugeBlock>, j: nat): int {
    if j < |huge| then huge[j].addr else NULL
  }

  /** Following `next` from `head` visits the huge blocks in order. */
  ghost predicate HugeLinked(mem: Memory, head: int, huge: seq<HugeBlock>) {
    && head == AddrAt(huge, 0)
    && forall j :: 0 <= j < |huge| ==>
         huge[j].addr in mem && mem[huge[j].addr] == Header(AddrAt(huge, j + 1), huge[j].size)
  }

  /** No huge block starts inside a chunk. */
  lemma HugeOutsideArena(s: State)
    requires StateInv(s)
    ensures forall h :: h in s.huge ==> h.addr !in s.arena.size
  {
    forall h | h in s.huge ensures h.addr !in s.arena.size {
      assert h.addr in s.arena.size && s.arena.size[h.addr] > 0 ==> Holds(s.arena.size, h.addr, h.addr);
    }
  }

  /** A fresh region starts no block, small or huge. */
  lemma FreshIsUnused(s: State, addr: int, size: int)
    requires StateInv(s) && Fresh(s, addr, size) && size > 0
    ensures addr !in s.arena.size && addr !in s.arena.free
    ensures forall j :: 0 <= j < |s.huge| ==> s.huge[j].addr != addr
  {
    assert addr in s.arena.size && s.arena.size[addr] > 0 ==> Holds(s.arena.size, addr, addr);
  }

  lemma HugeUntouched(mem: Memory, mem': Memory, head: int, s: State)
    requires StateInv(s) && HugeLinked(mem, head, s.huge) && OnlyBlocksChanged(mem, mem', s.arena.size)
    ensures HugeLinked(mem', head, s.huge)
  {
    HugeOutsideArena(s);
    forall j | 0 <= j < |s.huge|
      ensures s.huge[j].addr in mem' && mem'[s.huge[j].addr] == Header(AddrAt(s.huge, j + 1), s.huge[j].size)
    {
      assert s.huge[j] in s.huge;
    }
  }

  lemma HugeRemove(mem: Memory, head: int, huge: seq<HugeBlock>, j: nat)
    requires HugeLinked(mem, head, huge) && j < |huge|
    requires forall i, k :: 0 <= i < k < |huge| ==> huge[i].addr != huge[k].addr
    requires forall i :: 0 <= i < |huge| ==> huge[i].addr != NULL
    ensures HugeLinked(Redirect(mem, if j == 0 then NULL else huge[j - 1].addr, AddrAt(huge, j + 1)),
                       if j == 0 then AddrAt(huge, 1) else head, huge[..j] + huge[j + 1..])
  {
    hide Redirect;
    var huge', p := huge[..j] + huge[j + 1..], if j == 0 then NULL else huge[j - 1].addr;
    var mem' := Redirect(mem, p, AddrAt(huge, j + 1));
    forall i | 0 <= i < |huge'|
      ensures huge'[i].addr in mem' && mem'[huge'[i].addr] == Header(AddrAt(huge', i + 1), huge'[i].size)
    {
      HugeNext(huge, j, i);
      HugeLeft(mem, head, huge, j, if i < j then i else i + 1);
    }
  }

  /** Every block but block j keeps its header, and the one before j is linked to the one behind. */
  lemma HugeLeft(mem: Memory, head: int, huge: seq<HugeBlock>, j: nat, k: nat)
    requires HugeLinked(mem, head, huge) && j < |huge| && k < |huge| && k != j
    requires forall i, k :: 0 <= i < k < |huge| ==> huge[i].addr != huge[k].addr
    requires forall i :: 0 <= i < |huge| ==> huge[i].addr != NULL
    ensures var mem' := Redirect(mem, if j == 0 then NULL else huge[j - 1].addr, AddrAt(huge, j + 1));
      && huge[k].addr in mem'
      && mem'[huge[k].addr] == Header(if k + 1 == j then AddrAt(huge, j + 1) else AddrAt(huge, k + 1), huge[k].size)
  {
    hide AddrAt;
  }

  /** What comes after a block once block j is gone. */
  lemma HugeNext(huge: seq<HugeBlock>, j: nat, i: nat)
    requires j < |huge| && i < |huge| - 1
    ensures AddrAt(huge[..j] + huge[j + 1..], i + 1) == AddrAt(huge, if i + 1 < j then i + 1 else i + 2)
  {
    var huge' := huge[..j] + huge[j + 1..];
    if i + 1 < |huge'| {
      assert huge'[i + 1] == huge[if i + 1 < j then i + 1 else i + 2];
    }
  }

  lemma ApplyHuge(s: State, j: nat)
    requires j < |s.huge|
    ensures Enabled(s, FreeHuge(j))
    ensures Apply(s, FreeHuge(j)) == s.(huge := s.huge[..j] + s.huge[j + 1..])
    ensures forall h :: h in Apply(s, FreeHuge(j)).huge ==> h in s.huge
  {
  }

  lemma ApplyNothing(s: State)
    ensures Enabled(s, Nothing) && Apply(s, Nothing) == s
  {
  }

  lemma ApplyTakeHuge(s: State, request: int, addr: int)
    ensures Apply(s, TakeHuge(request, addr)) ==
            s.(huge := [HugeBlock(addr, HugeSize(request), request)] + s.huge)
  {
  }

  lemma HugeDistinct(s: State)
    requires StateInv(s)
    ensures forall i, k :: 0 <= i < k < |s.huge| ==> s.huge[i].addr != s.huge[k].addr
    ensures forall i :: 0 <= i < |s.huge| ==> s.huge[i].addr != NULL && s.huge[i].addr !in s.arena.size
    ensures s.arena.free <= s.arena.size.Keys
  {
    HugeOutsideArena(s);
    assert forall i :: 0 <= i < |s.huge| ==> s.huge[i] in s.huge;
  }

  /** Every pointer handed out lies within the tracked range. */
  ghost predicate Tracked(s: State, lo: int, hi: int) {
    && (forall b :: b in s.arena.live ==> 0 < lo <= b + HEADER <= hi)
    && (forall h :: h in s.huge ==> 0 < lo <= h.addr + HEADER <= hi)
  }

  /** Memory, list heads and range tracker represent the abstract heap `s`. */
  ghost predicate Represents(mem: Memory, freeHead: int, hugeHead: int, lo: int, hi: int, s: State) {
    && StateInv(s)
    && Stores(mem, freeHead, s.arena)
    && HugeLinked(mem, hugeHead, s.huge)
    && Tracked(s, lo, hi)
  }

  /** The tracked range after a pointer has been handed out. */
  predicate Widened(lo: int, hi: int, lo': int, hi': int, ptr: int) {
    lo' == (if lo == NULL || ptr < lo then ptr else lo) && hi' == (if hi == NULL || ptr > hi then ptr else hi)
  }

  lemma TakeHugeRep(mem: Memory, freeHead: int, hugeHead: int, lo: int, hi: int, s: State,
                    request: int, addr: int, lo': int, hi': int)
    requires Represents(mem, freeHead, hugeHead, lo, hi, s) && Enabled(s, TakeHuge(request, addr))
    requires Widened(lo, hi, lo', hi', addr + HEADER) && addr > NULL && lo >= NULL && hi >= NULL
    ensures Represents(mem[addr := Header(hugeHead, HugeSize(request))], freeHead, addr, lo', hi',
                       Apply(s, TakeHuge(request, addr)))
  {
    hide StateInv;
    hide Follows;
    hide HugeSize;
    hide Apply;
    StepInv(s, TakeHuge(request, addr));
    ApplyTakeHuge(s, request, addr);
    FreshIsUnused(s, addr, HugeSize(request));
    LinkedFrame(mem, mem[addr := Header(hugeHead, HugeSize(request))], freeHead, s.arena.free);
  }

  /** A small block has gone live. */
  lemma TakeSmallRep(mem: Memory, freeHead: int, hugeHead: int, lo: int, hi: int, s: State, step: Step, b: int,
                     mem': Memory, freeHead': int, lo': int, hi': int)
    requires Represents(mem, freeHead, hugeHead, lo, hi, s) && Enabled(s, step)
    requires (step.Reuse? && step.b == b) || (step.GrowAndTake? && step.chunk == b)
    requires Stores(mem', freeHead', Apply(s, step).arena) && OnlyBlocksChanged(mem, mem', Apply(s, step).arena.size)
    requires Widened(lo, hi, lo', hi', b + HEADER) && b > NULL && lo >= NULL && hi >= NULL
    ensures Represents(mem', freeHead', hugeHead, lo', hi', Apply(s, step))
  {
    hide StateInv, Stores, HugeLinked, Split, Chosen, NoFit, Fresh;
    StepInv(s, step);
    HugeUntouched(mem, mem', hugeHead, Apply(s, step));
    TakeFrame(s, step, b);
  }

  lemma TakeFrame(s: State, step: Step, b: int)
    requires Enabled(s, step) && ((step.Reuse? && step.b == b) || (step.GrowAndTake? && step.chunk == b))
    ensures Apply(s, step).huge == s.huge
    ensures forall c :: c in Apply(s, step).arena.live ==> c == b || c in s.arena.live
  {
  }

  lemma FreeHugeRep(mem: Memory, freeHead: int, hugeHead: int, lo: int, hi: int, s: State, j: nat)
    requires Represents(mem, freeHead, hugeHead, lo, hi, s) && j < |s.huge|
    ensures var p := if j == 0 then NULL else s.huge[j - 1].addr;
      && (p == NULL || p in mem) && (j > 0 ==> p != NULL)
      && Represents(Redirect(mem, p, AddrAt(s.huge, j + 1)), freeHead,
                    if j == 0 then AddrAt(s.huge, 1) else hugeHead, lo, hi, Apply(s, FreeHuge(j)))
  {
    hide StateInv;
    hide Linked;
    hide Apply;
    HugeDistinct(s);
    var p := if j == 0 then NULL else s.huge[j - 1].addr;
    assert p == NULL || p in mem;
    var mem' := Redirect(mem, p, AddrAt(s.huge, j + 1));
    assert forall b :: b in s.arena.size ==> b in mem && b in mem' && mem'[b] == mem[b];
    HugeRemove(mem, hugeHead, s.huge, j);
    StoresFrame(mem, mem', freeHead, s.arena);
    hide HugeLinked;
    hide Stores;
    ApplyHuge(s, j);
    StepInv(s, FreeHuge(j));
  }

  lemma FreeSmallRep(mem: Memory, freeHead: int, hugeHead: int, lo: int, hi: int, s: State, b: int,
                     mem': Memory, freeHead': int)
    requires Represents(mem, freeHead, hugeHead, lo, hi, s) && Enabled(s, FreeBlock(b))
    requires Stores(mem', freeHead', Release(s.arena, b)) && OnlyBlocksChanged(mem, mem', s.arena.size)
    ensures Represents(mem', freeHead', hugeHead, lo, hi, Apply(s, FreeBlock(b)))
  {
    hide StateInv;
    hide Stores;
    hide HugeLinked;
    hide Release;
    StepInv(s, FreeBlock(b));
    HugeUntouched(mem, mem', hugeHead, s);
    ReleaseFrame(s.arena, b);
  }

  lemma ReleaseFrame(a: Arena, b: int)
    ensures Release(a, b).live == a.live - {b} && Release(a, b).chunks == a.chunks
  {
  }

  lemma ChunkStores(mem: Memory, head: int, a: Arena, chunk: int)
    requires Inv(a) && Stores(mem, head, a) && FreshChunk(a, chunk)
    ensures chunk > NULL && chunk !in a.free && a.free <= a.size.Keys
    ensures Stores(mem[chunk := Header(NULL, CHUNK)], head, a.(size := a.size[chunk := CHUNK]))
    ensures Linked(mem[chunk := Header(NULL, CHUNK)], head, a.free)
  {
    hide Follows;
    hide Coalesced;
    GrowTiles(a, chunk);
    LinkedFrame(mem, mem[chunk := Header(NULL, CHUNK)], head, a.free);
  }

  /** Splitting leaves the block where it was in the list. */
  lemma SplitKeepsList(a: Arena, p: int, b: int, request: int)
    requires Inv(a) && b in a.free && Precedes(a.free, p, b) && Fits(a.size, b, request) && SmallRequest(request)
    ensures Shaped(a.size) && Disjoint(a.size) && a.free <= a.size.Keys
    ensures Split(a, b, request).free <= Split(a, b, request).size.Keys
    ensures Precedes(Split(a, b, request).free, p, b) && b in Split(a, b, request).free
  {
    SplitTiles(a, b, request);
  }

  lemma PointerFacts(s: State)
    requires StateInv(s)
    ensures Inv(s.arena) && forall h :: h in s.huge ==> h.addr > NULL
  {
    hide Inv;
  }

  lemma ArenaShaped(a: Arena)
    requires Inv(a)
    ensures Shaped(a.size) && Disjoint(a.size) && a.free <= a.size.Keys
  {
  }

  lemma ChosenFits(a: Arena, request: int, best: int)
    requires Chosen(a, request, best) && a.free <= a.size.Keys
    ensures best in a.free && best in a.size && Fits(a.size, best, request) && !NoFit(a, request)
  {
  }

  lemma ChunkFits(chunk: int, request: int)
    requires SmallRequest(request)
    ensures Fits(map[chunk := CHUNK], chunk, request)
  {
  }

  lemma TakeFacts(a: Arena, best: int, request: int)
    requires Inv(a) && best in a.free && Fits(a.size, best, request) && SmallRequest(request)
    ensures best in Take(a, best, request).size && Take(a, best, request).size[best] - HEADER >= request
    ensures a.size.Keys <= Take(a, best, request).size.Keys
  {
  }

  lemma ChangedTwice(mem: Memory, mem1: Memory, mem2: Memory, size: map<int, int>, size': map<int, int>)
    requires OnlyBlocksChanged(mem, mem1, size) && OnlyBlocksChanged(mem1, mem2, size') && size.Keys <= size'.Keys
    ensures OnlyBlocksChanged(mem, mem2, size')
  {
  }

  /** The region the kernel is asked for, should it be asked. */
  function KernelRegion(request: int): int {
    if request >= PAGE then HugeSize(request) else CHUNK
  }

  class Heap {
    var mem: Memory
    var freeHead: int
    var hugeHead: int
    var heapStart: nat
    var heapEnd: nat
    ghost var state: State

    ghost predicate Valid()
      reads this
    {
      Represents(mem, freeHead, hugeHead, heapStart, heapEnd, state)
    }

    constructor ()
      ensures Valid() && state == START
    {
      mem, freeHead, hugeHead, heapStart, heapEnd := map[], NULL, NULL, NULL, NULL;
      state := START;
    }

    /** Links a block into the free list in address order; returns its predecessor. */
    method InsertBlock(block: int, ghost free: set<int>) returns (previous: int)
      requires Linked(mem, freeHead, free) && block > NULL && block in mem && block !in free
      modifies this`mem, this`freeHead
      ensures Precedes(free, previous, block)
      ensures previous in free ==> previous in old(mem)
      ensures mem == Redirect(SetNext(old(mem), block, LinkOf(old(mem), old(freeHead), previous)), previous, block)
      ensures freeHead == if previous == NULL then block else old(freeHead)
    {
      var next := freeHead;
      previous := NULL;
      ghost var ahead := free;
      while next != NULL
        invariant previous == NULL || previous in free
        invariant previous < block && Follows(free, previous, next)
        invariant next == LinkOf(mem, freeHead, previous)
        invariant forall c :: c in ahead <==> c in free && c > previous
        decreases ahead
      {
        if next > block {
          break;
        }
        ahead := ahead - {next};
        previous := next;
        next := mem[next].next;
      }
      mem := mem[block := Header(next, mem[block].size)];
      if previous != NULL {
        mem := mem[previous := Header(block, mem[previous].size)];
      } else {
        freeHead := block;
      }
    }

    /** The best-fit search: it settles on the chosen block, or finds that nothing fits. */
    method FindBest(request: int, ghost a: Arena) returns (best: int, previous: int)
      requires Stores(mem, freeHead, a) && a.free <= a.size.Keys
      ensures best == NULL ==> NoFit(a, request)
      ensures best != NULL ==> Chosen(a, request, best) && Precedes(a.free, previous, best)
    {
      best, previous := NULL, NULL;
      var next, last := freeHead, NULL;
      ghost var ahead := a.free;
      while next != NULL
        invariant last == NULL || last in a.free
        invariant last >= NULL && Follows(a.free, last, next)
        invariant BestSoFar(a, request, best, last)
        invariant best != NULL ==> Precedes(a.free, previous, best)
        invariant forall c :: c in ahead <==> c in a.free && c > last
        decreases ahead
      {
        BestAdvances(a, request, best, last, next);
        if mem[next].size - HEADER >= request {
          if best == NULL || mem[best].size > mem[next].size {
            if !CanSplit(mem[next].size, request) {
              FirstTightIsChosen(a, request, best, last, next);
              return next, last;
            }
            best, previous := next, last;
          }
        }
        ahead := ahead - {next};
        last := next;
        next := mem[next].next;
      }
    }

    method SplitBlock(block: int, request: int, ghost a: Arena)
      requires Shaped(a.size) && Disjoint(a.size) && Stores(mem, freeHead, a)
      requires block in a.free && a.free <= a.size.Keys && request >= 0 && CanSplit(a.size[block], request)
      modifies this`mem
      ensures Stores(mem, freeHead, Split(a, block, request))
      ensures OnlyBlocksChanged(old(mem), mem, Split(a, block, request).size)
    {
      hide Follows;
      ghost var rest := block + HEADER + request;
      forall c | c in a.free && c < rest ensures c <= block {
        NothingInside(a, block, c);
      }
      LinkedSplit(mem, freeHead, a.free, block, rest, HEADER + request, a.size[block] - (HEADER + request));
      var second := mem[block].size - HEADER - request;
      var next := mem[block].next;
      mem := mem[block := Header(block + HEADER + request, HEADER + request)];
      mem := mem[block + HEADER + request := Header(next, second)];
    }

    method Unlink(block: int, previous: int, ghost a: Arena)
      requires Stores(mem, freeHead, a) && block in a.free && Precedes(a.free, previous, block)
      requires a.free <= a.size.Keys
      modifies this`mem, this`freeHead
      ensures Stores(mem, freeHead, a.(free := a.free - {block}))
      ensures OnlyBlocksChanged(old(mem), mem, a.size)
    {
      hide Follows;
      LinkedTake(mem, freeHead, a.free, previous, block);
      var following := mem[block].next;
      mem := mem[block := Header(NULL, mem[block].size)];
      if previous != NULL {
        mem := mem[previous := Header(following, mem[previous].size)];
      } else {
        freeHead := following;
      }
    }

    /** Splits the chosen block when it is large enough and unlinks it. */
    method TakeBlock(best: int, previous: int, request: int, ghost a: Arena) returns (got: int)
      requires Inv(a) && Stores(mem, freeHead, a)
      requires best in a.free && Precedes(a.free, previous, best) && Fits(a.size, best, request)
      requires SmallRequest(request)
      modifies this`mem, this`freeHead
      ensures Stores(mem, freeHead, Take(a, best, request))
      ensures OnlyBlocksChanged(old(mem), mem, Take(a, best, request).size)
      ensures got == Take(a, best, request).size[best] - HEADER
    {
      hide Inv, Linked, Follows, Precedes;
      SplitKeepsList(a, previous, best, request);
      if CanSplit(mem[best].size, request) {
        SplitBlock(best, request, a);
      }
      Unlink(best, previous, Split(a, best, request));
      got := mem[best].size - HEADER;
    }

    method TrackRange(ptr: int)
      requires ptr > 0
      modifies this`heapStart, this`heapEnd
      ensures Widened(old(heapStart), old(heapEnd), heapStart, heapEnd, ptr)
      ensures heapStart == if old(heapStart) == 0 || ptr < old(heapStart) then ptr else old(heapStart)
      ensures heapEnd == if ptr > old(heapEnd) then ptr else old(heapEnd)
    {
      if heapStart == NULL || ptr < heapStart {
        heapStart := ptr;
      }
      if heapEnd == NULL || ptr > heapEnd {
        heapEnd := ptr;
      }
    }

    /** A fresh chunk is written as one block and linked into the list. */
    method AddChunk(chunk: int, ghost a: Arena) returns (previous: int)
      requires Inv(a) && Stores(mem, freeHead, a) && FreshChunk(a, chunk)
      modifies this`mem, this`freeHead
      ensures Precedes(Grow(a, chunk).free, previous, chunk)
      ensures Stores(mem, freeHead, Grow(a, chunk))
      ensures OnlyBlocksChanged(old(mem), mem, Grow(a, chunk).size)
    {
      hide Inv, Linked, FreshChunk, Precedes;
      ChunkStores(mem, freeHead, a, chunk);
      mem := mem[chunk := Header(NULL, CHUNK)];
      ghost var before, head := mem, freeHead;
      previous := InsertBlock(chunk, a.free);
      InsertStores(before, head, a.(size := a.size[chunk := CHUNK]), previous, chunk);
    }

    /** Looks for the block to take, adding a chunk if nothing fits. */
    method FindOrGrow(request: int, answer: Answer) returns (best: int, previous: int, ghost a: Arena, ghost step: Step)
      requires Valid() && SmallRequest(request)
      requires answer.Granted? ==> Fresh(state, answer.addr, CHUNK)
      modifies this`mem, this`freeHead
      ensures best == NULL ==>
        answer.Refused? && NoFit(state.arena, request) && mem == old(mem) && freeHead == old(freeHead)
      ensures best != NULL ==>
        && Inv(a) && best in a.free && best > NULL && Fits(a.size, best, request) && Precedes(a.free, previous, best)
        && Stores(mem, freeHead, a) && OnlyBlocksChanged(old(mem), mem, a.size)
        && Enabled(state, step) && Apply(state, step).arena == Take(a, best, request)
        && (step == Reuse(request, best) || step == GrowAndTake(request, best))
      ensures best != NULL && step.Reuse? <==>
        exists b :: b in state.arena.free && b in state.arena.size && state.arena.size[b] >= request + 16
    {
      hide Stores, HugeLinked, Inv, Precedes, Take, NoFit;
      a := state.arena;
      ArenaShaped(a);
      FitsExactly(a, request);
      best, previous := FindBest(request, a);
      step := Reuse(request, best);
      if best != NULL {
        ChosenFits(a, request, best);
      } else if answer.Granted? {
        best := answer.addr;
        step := GrowAndTake(request, best);
        GrowInv(a, best);
        ChunkFits(best, request);
        previous := AddChunk(best, a);
        a := Grow(a, best);
      }
    }

    method AllocateSmall(request: int, answer: Answer) returns (ptr: int, got: int, ghost step: Step)
      requires Valid() && SmallRequest(request)
      requires answer.Granted? ==> Fresh(state, answer.addr, CHUNK)
      modifies this
      ensures Valid() && Enabled(old(state), step) && state == Apply(old(state), step)
      ensures ptr == NULL ==> got == 0 && step == Nothing && answer.Refused? && NoFit(state.arena, request)
      ensures ptr != NULL ==>
        && (step == Reuse(request, ptr - HEADER) || step == GrowAndTake(request, ptr - HEADER))
        && got >= request && ptr - HEADER in state.arena.size
        && got == state.arena.size[ptr - HEADER] - HEADER
      ensures step.Reuse? <==>
        exists b :: b in old(state).arena.free && b in old(state).arena.size &&
          old(state).arena.size[b] >= request + 16
    {
      hide Represents, Stores, Inv, Precedes, Enabled, Apply, NoFit, Fresh, OnlyBlocksChanged, Take;
      var best, previous;
      ghost var a;
      best, previous, a, step := FindOrGrow(request, answer);
      if best == NULL {
        ApplyNothing(state);
        return NULL, 0, Nothing;
      }
      ghost var grown := mem;
      TakeFacts(a, best, request);
      got := TakeBlock(best, previous, request, a);
      ChangedTwice(old(mem), grown, mem, a.size, Take(a, best, request).size);
      TrackRange(best + HEADER);
      TakeSmallRep(old(mem), old(freeHead), hugeHead, old(heapStart), old(heapEnd), state, step, best,
                   mem, freeHead, heapStart, heapEnd);
      state := Apply(state, step);
      ptr := best + HEADER;
    }

    method AllocateHuge(request: int, answer: Answer) returns (ptr: int, got: int, ghost step: Step)
      requires Valid() && request >= PAGE
      requires answer.Granted? ==> Fresh(state, answer.addr, HugeSize(request))
      modifies this
      ensures Valid() && Enabled(old(state), step) && state == Apply(old(state), step)
      ensures ptr == NULL ==> got == 0 && step == Nothing && answer.Refused?
      ensures ptr != NULL ==>
        && step == TakeHuge(request, ptr - HEADER) && got == HugeSize(request) - HEADER
        && request <= got < request + 4096 && (got + 16) % 4096 == 0
    {
      if answer.Refused? {
        return NULL, 0, Nothing;
      }
      hide Represents;
      hide HugeSize;
      hide Apply;
      var hugeSize := HugeSize(request);
      step := TakeHuge(request, answer.addr);
      mem := mem[answer.addr := Header(hugeHead, hugeSize)];
      hugeHead := answer.addr;
      TrackRange(answer.addr + HEADER);
      TakeHugeRep(old(mem), freeHead, old(hugeHead), old(heapStart), old(heapEnd), state,
                  request, answer.addr, heapStart, heapEnd);
      state := Apply(state, step);
      return answer.addr + HEADER, hugeSize - HEADER, step;
    }

    /** Serves a request from the free list, from a new chunk or with a region of its own.  The alignment
        is checked and otherwise unused. */
    method Allocate(size: nat, align: nat, answer: Answer) returns (ptr: int, got: int, ghost step: Step)
      requires Valid() && align <= PAGE
      requires answer.Granted? ==> Fresh(state, answer.addr, KernelRegion(Rounded(size)))
      modifies this
      ensures Valid() && Enabled(old(state), step) && state == Apply(old(state), step)
      ensures ptr == NULL ==>
        && got == 0 && step == Nothing
        && (size == 0 || (answer.Refused? && (Rounded(size) < PAGE ==> NoFit(state.arena, Rounded(size)))))
      ensures ptr != NULL ==>
        && got >= size > 0
        && (if Rounded(size) >= PAGE then
              step == TakeHuge(Rounded(size), ptr - HEADER) && got == HugeSize(Rounded(size)) - HEADER
            else
              && (step == Reuse(Rounded(size), ptr - HEADER) || step == GrowAndTake(Rounded(size), ptr - HEADER))
              && ptr - HEADER in state.arena.size && got == state.arena.size[ptr - HEADER] - HEADER)
    {
      hide Valid;
      hide Rounded;
      hide Fresh;
      hide NoFit;
      if size == 0 {
        return NULL, 0, Nothing;
      }
      var request := Rounded(size);
      if request >= PAGE {
        ptr, got, step := AllocateHuge(request, answer);
      } else {
        ptr, got, step := AllocateSmall(request, answer);
      }
    }

    /** Unlinks the j-th huge block, reached from `previous`. */
    method UnlinkHuge(previous: int, next: int, ghost j: nat)
      requires Valid() && j < |state.huge| && next == state.huge[j].addr
      requires previous == if j == 0 then NULL else state.huge[j - 1].addr
      modifies this
      ensures Valid() && state == Apply(old(state), FreeHuge(j))
    {
      assert next in mem && mem[next].next == AddrAt(state.huge, j + 1);
      FreeHugeRep(mem, freeHead, hugeHead, heapStart, heapEnd, state, j);
      hide Represents;
      hide Apply;
      if previous != NULL {
        mem := mem[previous := Header(mem[next].next, mem[previous].size)];
      } else {
        hugeHead := mem[next].next;
      }
      state := Apply(state, FreeHuge(j));
    }

    /** Removes the huge block whose data starts at `ptr`, if there is one. */
    method TryFreeHuge(ptr: int) returns (found: bool, ghost j: nat)
      requires Valid()
      modifies this
      ensures Valid()
      ensures found ==>
        && j < |old(state).huge| && old(state).huge[j].addr + HEADER == ptr
        && state == Apply(old(state), FreeHuge(j))
      ensures !found ==> unchanged(this) && forall h :: h in state.huge ==> h.addr + HEADER != ptr
    {
      hide StateInv;
      hide Stores;
      hide Apply;
      hide Tracked;
      HugeDistinct(state);
      var previous, next := NULL, hugeHead;
      j := 0;
      while next != NULL
        invariant j <= |state.huge| && next == AddrAt(state.huge, j)
        invariant previous == if j == 0 then NULL else state.huge[j - 1].addr
        invariant forall i :: 0 <= i < j ==> state.huge[i].addr + HEADER != ptr
        decreases |state.huge| - j
      {
        if ptr == next + HEADER {
          UnlinkHuge(previous, next, j);
          return true, j;
        }
        previous := next;
        next := mem[next].next;
        j := j + 1;
      }
      found := false;
    }

    /** Absorbs the block behind `header` when that one is free. */
    method CoalesceNext(header: int, ghost a: Arena)
      requires Stores(mem, freeHead, a) && Shaped(a.size) && Disjoint(a.size)
      requires a.free <= a.size.Keys && header in a.free
      modifies this`mem
      ensures Stores(mem, freeHead, MergeNext(a, header))
      ensures OnlyBlocksChanged(old(mem), mem, a.size)
    {
      hide Linked;
      NextTouches(mem, freeHead, a, header);
      if mem[header].next == header + mem[header].size {
        MergeStores(mem, freeHead, a, header);
        var next := mem[header].next;
        mem := mem[header := Header(mem[next].next, mem[header].size + mem[next].size)];
      }
    }

    /** The block in front of `header` absorbs it when the two touch. */
    method CoalescePrevious(previous: int, header: int, ghost a: Arena)
      requires Stores(mem, freeHead, a) && Shaped(a.size) && Disjoint(a.size)
      requires a.free <= a.size.Keys && header in a.free && Precedes(a.free, previous, header)
      modifies this`mem
      ensures Stores(mem, freeHead, MergePrevious(a, header))
      ensures OnlyBlocksChanged(old(mem), mem, a.size)
    {
      hide Linked;
      hide MergePrevious;
      OnlyPreviousTouches(a, previous, header);
      if previous != NULL && header == previous + mem[previous].size {
        MergeStores(mem, freeHead, a, previous);
        mem := mem[previous := Header(mem[header].next, mem[previous].size + mem[header].size)];
      }
    }

    /** Returns a live block to the list and coalesces it with its neighbours. */
    method ReleaseBlock(header: int, ghost a: Arena)
      requires Inv(a) && Stores(mem, freeHead, a) && header in a.live
      modifies this`mem, this`freeHead
      ensures Stores(mem, freeHead, Release(a, header))
      ensures OnlyBlocksChanged(old(mem), mem, a.size)
    {
      hide Covers;
      hide Coalesced;
      hide Linked;
      hide MergePrevious;
      hide MergeNext;
      ghost var head, s1 := freeHead, Listed(a, header);
      MergeTiles(s1, header);
      MergeNextAccounted(s1, header);
      var previous := InsertBlock(header, a.free);
      InsertStores(old(mem), head, a, previous, header);
      assert Stores(mem, freeHead, s1);
      MergeNextKeeps(s1, previous, header);
      CoalesceNext(header, s1);
      CoalescePrevious(previous, header, MergeNext(s1, header));
    }

    ghost predicate SmallPointer(ptr: int)
      reads this
    {
      ptr - HEADER in state.arena.live
    }

    ghost predicate HugePointer(ptr: int)
      reads this
    {
      exists h :: h in state.huge && h.addr + HEADER == ptr
    }

    method FreeSmall(ptr: int) returns (ok: bool)
      requires Valid() && SmallPointer(ptr)
      modifies this
      ensures Valid() && ok == FreeCheck(old(state), ptr - HEADER)
      ensures if ok then state == Apply(old(state), FreeBlock(ptr - HEADER)) else unchanged(this)
    {
      hide Apply;
      hide Inv;
      hide HugeInv;
      hide Linked;
      var header := ptr - HEADER;
      LiveShaped(state.arena, header);
      if !(8 <= mem[header].size - HEADER < PAGE) {
        return false;
      }
      ReleaseBlock(header, state.arena);
      FreeSmallRep(old(mem), old(freeHead), hugeHead, heapStart, heapEnd, state, header, mem, freeHead);
      state := Apply(state, FreeBlock(header));
      ok := true;
    }

    /** Frees a live pointer.  `ok` is false when a check fails; the range check never does. */
    method Free(ptr: int) returns (ok: bool, ghost step: Step)
      requires Valid() && (ptr == NULL || SmallPointer(ptr) || HugePointer(ptr))
      modifies this
      ensures Valid()
      ensures ok ==> Enabled(old(state), step) && state == Apply(old(state), step)
      ensures ok && ptr != NULL ==>
        step == FreeBlock(ptr - HEADER) || (step.FreeHuge? && old(state).huge[step.j].addr + HEADER == ptr)
      ensures !ok <==> ptr != NULL && !old(HugePointer(ptr)) && !FreeCheck(old(state), ptr - HEADER)
      ensures !ok ==> unchanged(this)
    {
      hide StateInv;
      hide Stores;
      hide HugeLinked;
      hide Apply;
      if ptr == NULL {
        ApplyNothing(state);
        return true, Nothing;
      }
      if !(heapStart <= ptr <= heapEnd) {
        assert false;
        return false, Nothing;
      }
      var found;
      ghost var j;
      found, j := TryFreeHuge(ptr);
      if found {
        assert old(state).huge[j] in old(state).huge;
        return true, FreeHuge(j);
      }
      ok := FreeSmall(ptr);
      step := FreeBlock(ptr - HEADER);
    }

    /** Looks for a huge block by its pointer. */
    method FindHuge(ptr: int) returns (found: int, ghost j: nat)
      requires Valid()
      ensures found == NULL ==> forall h :: h in state.huge ==> h.addr + HEADER != ptr
      ensures found != NULL ==> j < |state.huge| && found == state.huge[j].addr == ptr - HEADER && found in mem
      ensures found != NULL ==> mem[found].size == state.huge[j].size
    {
      hide StateInv, Stores, Tracked;
      found, j := hugeHead, 0;
      while found != NULL && ptr != found + HEADER
        invariant j <= |state.huge| && found == AddrAt(state.huge, j)
        invariant forall i :: 0 <= i < j ==> state.huge[i].addr + HEADER != ptr
        decreases |state.huge| - j
      {
        found := mem[found].next;
        j := j + 1;
      }
      HugeDistinct(state);
    }

    /** The size of the data behind a live pointer, or the failure of the sanity check. */
    method SizeOf(ptr: int) returns (ok: bool, size: int)
      requires Valid() && (ptr == NULL || SmallPointer(ptr) || HugePointer(ptr))
      ensures ptr == NULL ==> ok && size == 0
      ensures forall h :: h in state.huge && h.addr + HEADER == ptr ==> ok && size == h.size - HEADER
      ensures ptr != NULL && !HugePointer(ptr) ==>
        && ok == FreeCheck(state, ptr - HEADER)
        && (ok ==> size == state.arena.size[ptr - HEADER] - HEADER)
    {
      hide StateInv, HugeLinked, Tracked, Linked, Inv;
      PointerFacts(state);
      if ptr == NULL {
        return true, 0;
      }
      var found, j := FindHuge(ptr);
      if found != NULL {
        HugeDistinct(state);
        return true, mem[found].size - HEADER;
      }
      LiveShaped(state.arena, ptr - HEADER);
      var header := ptr - HEADER;
      if !(8 <= mem[header].size - HEADER < PAGE) {
        return false, 0;
      }
      return true, mem[header].size - HEADER;
    }
  }
}
