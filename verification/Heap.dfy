/** The userspace heap as an arena of blocks: best-fit search, splitting, coalescing and growth by
    kernel-supplied chunks, and the proof that every step keeps the chunks exactly tiled.

    An `Arena` records every block of every chunk with its size, which of them are free, and the
    request each live block was taken for.  The free list of the code is the free set in address order. */
module HeapArena {
  const HEADER := 16
  const MIN_BLOCK := 8
  const PAGE := 4096
  const CHUNK := 65536

  datatype Arena = Arena(
    size: map<int, int>,    // every block, free or live: address of its header -> whole size
    free: set<int>,         // the free blocks
    live: map<int, int>,    // live blocks: address of header -> rounded request
    chunks: set<int>)       // start addresses of the kernel-supplied chunks

  const EMPTY := Arena(map[], {}, map[], {})

  // ----- the invariant -----

  ghost predicate InChunks(chunks: set<int>, a: int) {
    exists c :: c in chunks && c <= a < c + CHUNK
  }

  ghost predicate Holds(size: map<int, int>, b: int, a: int) {
    b in size && b <= a < b + size[b]
  }

  ghost predicate Shaped(size: map<int, int>) {
    forall b :: b in size ==>
      b > 0 && b % 8 == 0 && size[b] % 8 == 0 && size[b] >= HEADER + MIN_BLOCK
  }

  ghost predicate Disjoint(size: map<int, int>) {
    forall b, c :: b in size && c in size && b < c ==> b + size[b] <= c
  }

  /** The bytes of the blocks are exactly the bytes of the chunks. */
  ghost predicate Covers(size: map<int, int>, chunks: set<int>) {
    && (forall b, a :: Holds(size, b, a) ==> InChunks(chunks, a))
    && (forall a :: InChunks(chunks, a) ==> exists b :: Holds(size, b, a))
  }

  ghost predicate ChunksApart(chunks: set<int>) {
    forall c, d :: c in chunks && d in chunks && c < d ==> c + CHUNK <= d
  }

  /** The blocks tile the chunks: aligned, disjoint, inside the chunks, and covering every byte. */
  ghost predicate Tiles(s: Arena) {
    && Shaped(s.size)
    && Disjoint(s.size)
    && Covers(s.size, s.chunks)
    && ChunksApart(s.chunks)
  }

  predicate CanSplit(blockSize: int, request: int) {
    blockSize >= 2 * HEADER + request + MIN_BLOCK
  }

  /** Every block is free or live and not both; a live block holds its request and is too tight to split. */
  ghost predicate Accounted(s: Arena) {
    && s.size.Keys == s.free + s.live.Keys
    && s.free !! s.live.Keys
    && (forall b :: b in s.live ==>
          && 8 <= s.live[b] < PAGE
          && s.live[b] + HEADER <= s.size[b]
          && !CanSplit(s.size[b], s.live[b]))
  }

  /** Two free blocks touch only where the later one starts a chunk. */
  ghost predicate Coalesced(s: Arena) {
    forall b :: b in s.free && b in s.size && b + s.size[b] in s.free ==> b + s.size[b] in s.chunks
  }

  ghost predicate Inv(s: Arena) {
    Tiles(s) && Accounted(s) && Coalesced(s)
  }

  // ----- choosing a block -----

  predicate Fits(size: map<int, int>, b: int, request: int) {
    b in size && size[b] - HEADER >= request
  }

  predicate Tight(size: map<int, int>, b: int, request: int) {
    Fits(size, b, request) && !CanSplit(size[b], request)
  }

  /** The block the search settles on: the lowest tight fit if there is one, otherwise the lowest of the
      smallest fits. */
  ghost predicate Chosen(s: Arena, request: int, b: int) {
    && b in s.free
    && Fits(s.size, b, request)
    && if Tight(s.size, b, request)
       then forall c :: c in s.free && c < b ==> !Tight(s.size, c, request)
       else forall c :: c in s.free && c != b && Fits(s.size, c, request) ==>
              s.size[b] < s.size[c] || (s.size[b] == s.size[c] && b < c)
  }

  ghost predicate NoFit(s: Arena, request: int) {
    forall c :: c in s.free ==> !Fits(s.size, c, request)
  }

  // ----- the steps -----

  /** The kernel hands out page-aligned regions clear of the chunks it handed out before. */
  ghost predicate FreshChunk(s: Arena, c: int) {
    c > 0 && c % PAGE == 0 && forall d :: d in s.chunks ==> c + CHUNK <= d || d + CHUNK <= c
  }

  /** A fresh chunk becomes one free block. */
  function Grow(s: Arena, c: int): Arena {
    s.(size := s.size[c := CHUNK], free := s.free + {c}, chunks := s.chunks + {c})
  }

  /** A block large enough for the request and another block is split into the two. */
  function Split(s: Arena, b: int, request: int): Arena
    requires b in s.size
  {
    if CanSplit(s.size[b], request) then
      var rest := b + HEADER + request;
      s.(size := s.size[b := HEADER + request][rest := s.size[b] - (HEADER + request)],
         free := s.free + {rest})
    else s
  }

  /** A free block goes live, split first when it is large enough. */
  function Take(s: Arena, b: int, request: int): Arena
    requires b in s.size
  {
    var t := Split(s, b, request);
    t.(free := t.free - {b}, live := t.live[b := request])
  }

  /** Block `b` absorbs the block that starts where it ends. */
  function Merge(size: map<int, int>, b: int): map<int, int>
    requires b in size && b + size[b] in size
  {
    map c | c in size && c != b + size[b] ::
      if c == b then size[b] + size[b + size[b]] else size[c]
  }

  /** Block `b` absorbs its successor when that one is free. */
  function MergeNext(s: Arena, b: int): Arena {
    if b in s.size && b + s.size[b] in s.size && b + s.size[b] in s.free
    then s.(size := Merge(s.size, b), free := s.free - {b + s.size[b]})
    else s
  }

  ghost predicate FreeBefore(s: Arena, p: int, b: int) {
    p in s.free && p in s.size && p + s.size[p] == b
  }

  /** The free block that ends where `b` starts absorbs `b`. */
  ghost function MergePrevious(s: Arena, b: int): Arena {
    if p :| FreeBefore(s, p, b) then MergeNext(s, p) else s
  }

  function Listed(s: Arena, b: int): Arena {
    s.(free := s.free + {b}, live := s.live - {b})
  }

  /** A live block becomes free and is merged with its successor, then into its predecessor. */
  ghost function Release(s: Arena, b: int): Arena {
    MergePrevious(MergeNext(Listed(s, b), b), b)
  }

  // ----- every step keeps the invariant -----

  lemma SplitCovers(size: map<int, int>, chunks: set<int>, b: int, t: int)
    requires Covers(size, chunks) && b in size && 0 < t < size[b] && b + t !in size
    ensures Covers(size[b := t][b + t := size[b] - t], chunks)
  {
    var split := size[b := t][b + t := size[b] - t];
    forall c, a | Holds(split, c, a) ensures InChunks(chunks, a) {
      assert Holds(size, if c == b + t then b else c, a);
    }
    forall a | InChunks(chunks, a) ensures exists c :: Holds(split, c, a) {
      var c :| Holds(size, c, a);
      assert Holds(split, if c == b && a >= b + t then b + t else c, a);
    }
  }

  lemma SplitDisjoint(size: map<int, int>, b: int, t: int)
    requires Disjoint(size) && b in size && 0 < t < size[b] && forall c :: c in size ==> size[c] > 0
    ensures b + t !in size && Disjoint(size[b := t][b + t := size[b] - t])
  {
    var split := size[b := t][b + t := size[b] - t];
    forall x, y | x in split && y in split && x < y ensures x + split[x] <= y {
      var x0, y0 := if x == b + t then b else x, if y == b + t then b else y;
      assert x0 < y0 ==> x0 + size[x0] <= y0;
    }
  }

  lemma SplitShaped(size: map<int, int>, b: int, t: int)
    requires Shaped(size) && b in size && t % 8 == 0
    requires HEADER + MIN_BLOCK <= t <= size[b] - HEADER - MIN_BLOCK
    ensures Shaped(size[b := t][b + t := size[b] - t])
  {
    assert (b + t) % 8 == 0 && (size[b] - t) % 8 == 0;
  }

  lemma SplitPacked(size: map<int, int>, b: int, t: int)
    requires Shaped(size) && Disjoint(size) && b in size && t % 8 == 0
    requires HEADER + MIN_BLOCK <= t <= size[b] - HEADER - MIN_BLOCK
    ensures b + t !in size
    ensures Shaped(size[b := t][b + t := size[b] - t]) && Disjoint(size[b := t][b + t := size[b] - t])
  {
    hide Disjoint;
    SplitDisjoint(size, b, t);
    SplitShaped(size, b, t);
  }

  lemma SplitTiles(s: Arena, b: int, request: int)
    requires Tiles(s) && b in s.size && request % 8 == 0 && request >= MIN_BLOCK
    ensures CanSplit(s.size[b], request) ==> b + HEADER + request !in s.size
    ensures Tiles(Split(s, b, request))
  {
    if CanSplit(s.size[b], request) {
      assert b + HEADER + request == b + (HEADER + request);
      SplitPacked(s.size, b, HEADER + request);
      SplitCovers(s.size, s.chunks, b, HEADER + request);
    }
  }

  lemma TakeInv(s: Arena, b: int, request: int)
    requires Inv(s) && b in s.free && Fits(s.size, b, request)
    requires 8 <= request < PAGE && request % 8 == 0
    ensures Inv(Take(s, b, request))
  {
    SplitTiles(s, b, request);
  }

  lemma MergeCovers(size: map<int, int>, chunks: set<int>, b: int)
    requires Covers(size, chunks) && Shaped(size) && b in size && b + size[b] in size
    ensures Covers(Merge(size, b), chunks)
  {
    var next, merged := b + size[b], Merge(size, b);
    forall c, a | Holds(merged, c, a) ensures InChunks(chunks, a) {
      assert Holds(size, if c == b && a >= next then next else c, a);
    }
    forall a | InChunks(chunks, a) ensures exists c :: Holds(merged, c, a) {
      var c :| Holds(size, c, a);
      assert Holds(merged, if c == next then b else c, a);
    }
  }

  lemma MergePacked(size: map<int, int>, b: int)
    requires Shaped(size) && Disjoint(size) && b in size && b + size[b] in size
    ensures Shaped(Merge(size, b)) && Disjoint(Merge(size, b))
  {
    var merged := Merge(size, b);
    forall c | c in merged ensures c in size && merged[c] % 8 == 0 && merged[c] >= HEADER + MIN_BLOCK {
      MultiplesAdd(size[b], size[b + size[b]]);
    }
    forall c, d | c in merged && d in merged && c < d ensures c + merged[c] <= d {
      assert c in size && d in size && d != b + size[b];
      if c == b {
        assert b + size[b] < d;
      }
    }
  }

  lemma MultiplesAdd(m: int, n: int)
    ensures m % 8 == 0 && n % 8 == 0 ==> (m + n) % 8 == 0
  {
  }

  lemma MergeTiles(s: Arena, b: int)
    requires Tiles(s)
    ensures Tiles(MergeNext(s, b))
  {
    if b in s.size && b + s.size[b] in s.size && b + s.size[b] in s.free {
      MergeCovers(s.size, s.chunks, b);
      MergePacked(s.size, b);
    }
  }

  lemma OutsideFreshChunk(s: Arena, c: int, b: int)
    requires Tiles(s) && FreshChunk(s, c) && b in s.size
    ensures b + s.size[b] <= c || c + CHUNK <= b
  {
    if b < c + CHUNK && c < b + s.size[b] {
      assert Holds(s.size, b, if b <= c then c else b);
      assert false;
    }
  }

  lemma GrowCovers(size: map<int, int>, chunks: set<int>, c: int)
    requires Covers(size, chunks) && c !in size
    ensures Covers(size[c := CHUNK], chunks + {c})
  {
    var size', chunks' := size[c := CHUNK], chunks + {c};
    assert c in chunks' && Holds(size', c, c);
    forall b, a | Holds(size', b, a) ensures InChunks(chunks', a) {
      if b != c {
        assert Holds(size, b, a);
        var d :| d in chunks && d <= a < d + CHUNK;
        assert d in chunks';
      }
    }
    forall a | InChunks(chunks', a) ensures exists b :: Holds(size', b, a) {
      if InChunks(chunks, a) {
        var b :| Holds(size, b, a);
        assert Holds(size', b, a);
      } else {
        assert Holds(size', c, a);
      }
    }
  }

  lemma PageAligned(c: int)
    requires c % PAGE == 0
    ensures c % 8 == 0
  {
    assert c == 8 * (512 * (c / PAGE));
  }

  lemma GrowPacked(size: map<int, int>, c: int)
    requires Shaped(size) && Disjoint(size) && c > 0 && c % 8 == 0
    requires forall b :: b in size ==> b + size[b] <= c || c + CHUNK <= b
    ensures Shaped(size[c := CHUNK]) && Disjoint(size[c := CHUNK])
  {
  }

  lemma GrowTiles(s: Arena, c: int)
    requires Tiles(s) && FreshChunk(s, c)
    ensures c !in s.size
    ensures Tiles(Grow(s, c))
  {
    forall b | b in s.size ensures b + s.size[b] <= c || c + CHUNK <= b {
      OutsideFreshChunk(s, c, b);
    }
    PageAligned(c);
    GrowPacked(s.size, c);
    GrowCovers(s.size, s.chunks, c);
  }

  /** A block right behind a fresh chunk starts a chunk. */
  lemma ChunkEdge(s: Arena, c: int)
    requires Tiles(s) && FreshChunk(s, c) && c + CHUNK in s.size
    ensures c + CHUNK in s.chunks
  {
    assert Holds(s.size, c + CHUNK, c + CHUNK);
    var d :| d in s.chunks && d <= c + CHUNK < d + CHUNK;
  }

  lemma GrowInv(s: Arena, c: int)
    requires Inv(s) && FreshChunk(s, c)
    ensures Inv(Grow(s, c))
  {
    GrowTiles(s, c);
    if c + CHUNK in s.free {
      ChunkEdge(s, c);
    }
  }

  /** `Coalesced`, except for a free block that ends at `b`. */
  ghost predicate CoalescedBut(s: Arena, b: int) {
    forall c :: c in s.free && c in s.size && c + s.size[c] in s.free && c + s.size[c] != b ==>
      c + s.size[c] in s.chunks
  }

  lemma MergeNextAccounted(s: Arena, b: int)
    requires Accounted(s) && b in s.free
    ensures Accounted(MergeNext(s, b))
  {
  }

  /** Once the successor is absorbed, only the predecessor of `b` may still touch it. */
  lemma MergeNextCoalesces(s: Arena, b: int)
    requires Coalesced(s) && Tiles(s) && Accounted(s) && b in s.live
    ensures CoalescedBut(MergeNext(Listed(s, b), b), b)
  {
  }

  lemma MergePreviousCoalesces(s: Arena, p: int, b: int)
    requires CoalescedBut(s, b) && Tiles(s) && Accounted(s) && b in s.free && FreeBefore(s, p, b)
    ensures Coalesced(MergeNext(s, p))
  {
  }

  lemma NoPreviousCoalesced(s: Arena, b: int)
    requires CoalescedBut(s, b) && forall p :: !FreeBefore(s, p, b)
    ensures Coalesced(s)
  {
    forall c | c in s.free && c in s.size && c + s.size[c] in s.free
      ensures c + s.size[c] in s.chunks
    {
      assert !FreeBefore(s, c, b);
    }
  }

  lemma ReleaseInv(s: Arena, b: int)
    requires Inv(s) && b in s.live
    ensures Inv(Release(s, b))
  {
    var s2 := MergeNext(Listed(s, b), b);
    MergeTiles(Listed(s, b), b);
    MergeNextAccounted(Listed(s, b), b);
    MergeNextCoalesces(s, b);
    if exists p :: FreeBefore(s2, p, b) {
      var p :| FreeBefore(s2, p, b) && MergePrevious(s2, b) == MergeNext(s2, p);
      MergeTiles(s2, p);
      MergeNextAccounted(s2, p);
      MergePreviousCoalesces(s2, p, b);
    } else {
      NoPreviousCoalesced(s2, b);
    }
  }

  /** What the invariant says of one live block. */
  lemma LiveShaped(s: Arena, b: int)
    requires Inv(s) && b in s.live
    ensures b in s.size && b > 0 && b % 8 == 0 && s.size[b] % 8 == 0
    ensures s.live[b] <= s.size[b] - HEADER < s.live[b] + HEADER + MIN_BLOCK
    ensures InChunks(s.chunks, b)
  {
    assert Holds(s.size, b, b);
  }

  /** A merge keeps the blocks that are not free, and its own block only grows. */
  lemma MergeKeeps(s: Arena, b: int)
    requires s.free <= s.size.Keys && b in s.free && forall c :: c in s.size ==> s.size[c] > 0
    ensures var r := MergeNext(s, b);
      && r.live == s.live && r.chunks == s.chunks && b in r.free && b in r.size && r.size[b] >= s.size[b]
      && r.free <= r.size.Keys && r.free <= s.free && (forall c :: c in r.size ==> r.size[c] > 0)
      && forall c :: c in s.size && c !in s.free ==> c in r.size && r.size[c] == s.size[c]
  {
  }

  /** What a release does for the others: the block is no longer live, every other live block is as it was, and the
      bytes of the block now lie in one free block. */
  lemma ReleasedExactly(s: Arena, b: int)
    requires Inv(s) && b in s.live
    ensures var r := Release(s, b);
      && r.live == s.live - {b} && r.chunks == s.chunks
      && (forall c :: c in s.live && c != b ==> c in s.size && c in r.size && r.size[c] == s.size[c])
      && b in s.size && exists f :: f in r.free && f in r.size && f <= b && b + s.size[b] <= f + r.size[f]
  {
    hide Coalesced;
    hide Covers;
    hide MergeNext;
    var s1 := Listed(s, b);
    var s2 := MergeNext(s1, b);
    MergeKeeps(s1, b);
    if exists p :: FreeBefore(s2, p, b) {
      var p :| FreeBefore(s2, p, b) && MergePrevious(s2, b) == MergeNext(s2, p);
      MergeKeeps(s2, p);
      AbsorbsNext(s2, p, b);
      assert p in Release(s, b).free;
    } else {
      assert b in Release(s, b).free;
    }
  }

  lemma AbsorbsNext(s: Arena, p: int, b: int)
    requires FreeBefore(s, p, b) && b in s.free && b in s.size && s.size[p] > 0
    ensures p in MergeNext(s, p).size && MergeNext(s, p).size[p] == s.size[p] + s.size[b]
  {
  }
}
