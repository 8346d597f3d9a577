/** The slab allocator's blocks: a header, and behind it objects of one size with the free ones threaded into
    a list through their own first words. */
module SlabBlocks {
  import opened Counting
  import opened Modular

  const HEADER := 48

  function CeilDiv(a: nat, b: nat): (r: nat)
    requires b > 0
  {
    (a + b - 1) / b
  }

  /** A block at address `base`. The head and the links are addresses, 0 for none. */
  datatype Block = Block(base: nat, size: nat, head: nat, next: map<nat, nat>, used: int, total: nat)

  /** Sizes that fit together: objects divide the block, and at least one fits behind the header. */
  predicate Geometry(size: nat, blockSize: nat) {
    size > 0 && blockSize % size == 0 && blockSize >= HEADER + size
  }

  function DataBegin(base: nat, size: nat): (p: nat)
    requires size > 0
  {
    base + CeilDiv(HEADER, size) * size
  }

  function DataEnd(base: nat, size: nat, total: nat): (p: nat)
    requires size > 0
  {
    DataBegin(base, size) + total * size
  }

  function TotalObjects(size: nat, blockSize: nat): (n: nat)
    requires size > 0 && blockSize >= HEADER
  {
    (blockSize - HEADER) / size
  }

  /** An address that passes the tests made when an object comes back. */
  predicate IsObject(b: Block, p: nat)
    requires b.size > 0
  {
    DataBegin(b.base, b.size) <= p < DataEnd(b.base, b.size, b.total) && p % b.size == 0
  }

  /** The objects start behind the header, as close as a whole number of objects allows, end with the block, and there
      is at least one. */
  lemma ObjectsFit(base: nat, size: nat, blockSize: nat)
    requires Geometry(size, blockSize)
    ensures base + 48 <= DataBegin(base, size) < base + 48 + size
    ensures DataEnd(base, size, TotalObjects(size, blockSize)) == base + blockSize
    ensures TotalObjects(size, blockSize) > 0
  {
    var k, first := blockSize / size, CeilDiv(HEADER, size);
    assert blockSize == k * size;
    CeilBounds(HEADER, size);
    assert first > k ==> (first - 1) * size >= k * size;
    var total := k - first;
    assert blockSize - HEADER == total * size + (first * size - HEADER);
    QuotientIs(blockSize - HEADER, size, total, first * size - HEADER);
    assert total * size + first * size == k * size;
    assert total == 0 ==> k * size == first * size < HEADER + size;
  }

  lemma CeilBounds(a: nat, b: nat)
    requires b > 0
    ensures a <= CeilDiv(a, b) * b < a + b
  {
    var q, r := (a + b - 1) / b, (a + b - 1) % b;
    assert a + b - 1 == q * b + r;
  }

  /** The free objects in list order, following the links from the head. */
  ghost predicate Threaded(next: map<nat, nat>, head: nat, free: seq<nat>)
    decreases |free|
  {
    if free == [] then head == 0
    else head == free[0] && head != 0 && head in next && Threaded(next, next[head], free[1..])
  }

  lemma {:induction false} ThreadedFrame(next: map<nat, nat>, head: nat, free: seq<nat>, p: nat, v: nat)
    requires Threaded(next, head, free) && p !in free
    ensures Threaded(next[p := v], head, free)
    decreases |free|
  {
    if free != [] { ThreadedFrame(next, next[head], free[1..], p, v); }
  }

  /** A block's free list and the objects handed out make up its objects, each once. */
  ghost predicate Holds(b: Block, free: seq<nat>, live: set<nat>) {
    && b.size > 0 && b.base > 0 && b.base % b.size == 0
    && Threaded(b.next, b.head, free) && Distinct(free)
    && (forall p :: p in free ==> IsObject(b, p) && p !in live)
    && (forall p :: p in live ==> IsObject(b, p))
    && |free| + |live| == b.total && b.used == |live|
  }

  ghost predicate BlockOk(b: Block, live: set<nat>) {
    exists free :: Holds(b, free, live)
  }

  // ----- Taking an object from a block and putting it back ------------------------------------------------

  function Taken(b: Block): (r: Block)
    requires b.head in b.next
  {
    b.(used := b.used + 1, head := b.next[b.head])
  }

  function Returned(b: Block, p: nat): (r: Block) {
    b.(used := b.used - 1, next := b.next[p := b.head], head := p)
  }

  /** The list is empty exactly when everything is handed out. */
  lemma HeadMeansFree(b: Block, live: set<nat>)
    requires BlockOk(b, live)
    ensures b.head == 0 <==> b.used == b.total
    ensures b.head != 0 ==> b.head in b.next
    ensures 0 <= b.used <= b.total && b.used == |live|
  {
    var free :| Holds(b, free, live);
  }

  lemma TakenOk(b: Block, live: set<nat>)
    requires BlockOk(b, live) && b.head != 0
    ensures b.head in b.next && IsObject(b, b.head) && b.head !in live
    ensures BlockOk(Taken(b), live + {b.head})
  {
    var free :| Holds(b, free, live);
    var rest := free[1..];
    assert b.head == free[0] && free == [b.head] + rest;
    assert forall p :: p in rest ==> p in free;
    assert b.head !in rest;
    assert Holds(Taken(b), rest, live + {b.head});
  }

  lemma ReturnedOk(b: Block, live: set<nat>, p: nat)
    requires BlockOk(b, live) && p in live
    ensures IsObject(b, p) && BlockOk(Returned(b, p), live - {p})
  {
    var free :| Holds(b, free, live);
    var all := [p] + free;
    ThreadedFrame(b.next, b.head, free, p, b.head);
    assert all[1..] == free;
    DataPositive(b, p);
    assert Holds(Returned(b, p), all, live - {p});
  }

  lemma DataPositive(b: Block, p: nat)
    requires b.size > 0 && b.base > 0 && IsObject(b, p)
    ensures p > 0
  {
  }

  /** Lays out a block: every object on the free list, the last one first. */
  method NewBlock(base: nat, size: nat, blockSize: nat) returns (b: Block)
    requires Geometry(size, blockSize) && base > 0 && base % size == 0
    ensures b.base == base && b.size == size && b.total == TotalObjects(size, blockSize)
    ensures BlockOk(b, {}) && b.used == 0
  {
    var total := TotalObjects(size, blockSize);
    var begin := DataBegin(base, size);
    AddMultiple(base, CeilDiv(HEADER, size), size);
    ghost var free: seq<nat> := [];
    var head: nat, next: map<nat, nat> := 0, map[];
    for i := 0 to total
      invariant |free| == i && Threaded(next, head, free) && Distinct(free)
      invariant forall p :: p in free ==> begin <= p < begin + i * size && p % size == 0
    {
      var p := begin + i * size;
      ThreadedFrame(next, head, free, p, head);
      AddMultiple(begin, i, size);
      assert begin + (i + 1) * size == p + size;
      next, head := next[p := head], p;
      assert ([p] + free)[1..] == free;
      free := [p] + free;
    }
    b := Block(base, size, head, next, 0, total);
    assert Holds(b, free, {});
  }

  lemma AddMultiple(a: nat, k: nat, n: nat)
    requires n > 0 && a % n == 0
    ensures (a + k * n) % n == 0
  {
    var q := a / n;
    assert a == q * n;
    assert a + k * n == (q + k) * n;
    ModZero(q + k, n);
  }

  lemma ModZero(k: nat, n: nat)
    requires n > 0
    ensures (k * n) % n == 0
  {
    QuotientIs(k * n, n, k, 0);
  }

  /** Different objects do not share a byte. */
  lemma ObjectsApart(p: nat, q: nat, size: nat)
    requires size > 0 && p % size == 0 && q % size == 0 && p < q
    ensures p + size <= q
  {
    var d := q / size - p / size;
    assert q - p == size * d;
    assert d <= 0 ==> size * d <= 0;
    assert d >= 1 ==> size * d >= size;
  }
}
