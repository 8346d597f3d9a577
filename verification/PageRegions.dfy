/** The page allocator as it is run: a region with its two bitmaps, and the regions tried in turn. */
module PageRegions {
  import opened Bitmap
  import opened PageBook
  import opened Wrappers

  class RegionPageAllocator {
    const start: nat
    const pages: nat
    const freeBits: array<bv8>
    const contBits: array<bv8>
    var lastFreed: nat
    ghost var live: map<nat, nat>

    /** What the bitmaps say. */
    ghost function View(): (b: Book)
      reads this, freeBits, contBits
    {
      Book(pages, Marked(freeBits[..]), Marked(contBits[..]), lastFreed, live)
    }

    ghost predicate Shaped() {
      && pages > 0 && freeBits != contBits
      && freeBits.Length == BytesPerBitmap(pages) && contBits.Length == BytesPerBitmap(pages)
    }

    ghost predicate Valid()
      reads this, freeBits, contBits
    {
      Shaped() && Inv(View())
    }

    /** A region of at least one page over memory that is zero where the bitmaps go. */
    constructor (start: nat, pages: nat)
      requires pages > 0 && start % PAGE == 0
      ensures Valid() && View() == Fresh(pages) && this.start == start
      ensures fresh(freeBits) && fresh(contBits)
    {
      var bytes := BytesPerBitmap(pages);
      var needed := PagesNeeded(pages);
      this.start, this.pages, lastFreed, live := start, pages, 0, map[];
      freeBits := new bv8[bytes](i => 0);
      contBits := new bv8[bytes](i => 0);
      new;
      BitmapsFit(pages);
      NothingMarked(freeBits[..]);
      NothingMarked(contBits[..]);
      MarkAsReserved(0, needed);
      FreshInv(pages);
    }

    method MarkPage(i: nat, last: bool)
      requires Shaped() && i < pages
      modifies freeBits, contBits
      ensures Marked(freeBits[..]) == old(Marked(freeBits[..])) + {i}
      ensures Marked(contBits[..]) == if last then old(Marked(contBits[..])) - {i} else old(Marked(contBits[..])) + {i}
    {
      hide Marked;
      BitmapsFit(pages);
      Set(freeBits, i);
      if last {
        Clear(contBits, i);
      } else {
        Set(contBits, i);
      }
    }

    method MarkAsReserved(index: nat, count: nat)
      requires Shaped() && count > 0 && index + count <= pages
      modifies this`live, freeBits, contBits
      ensures View() == Reserved(old(View()), index, count)
    {
      hide Marked, Run, BytesPerBitmap;
      ghost var was := View();
      var i, end := index, index + count;
      RunNone(was.reserved, index);
      RunNone(was.continues, index);
      while i < end
        invariant index <= i <= end && live == was.live
        invariant Marked(freeBits[..]) == was.reserved + Run(index, i - index)
        invariant i < end ==> Marked(contBits[..]) == was.continues + Run(index, i - index)
        invariant i == end ==> Marked(contBits[..]) == was.continues + Run(index, count - 1) - {end - 1}
      {
        MarkPage(i, i + 1 == end);
        RunNext(was.reserved, index, i - index);
        RunNext(was.continues, index, i - index);
        i := i + 1;
      }
      live := live[index := count];
    }

    /** Clears from the first page on until one does not continue. */
    method MarkRegionAsFree(index: nat)
      requires Valid() && index in live && index != 0
      modifies this`lastFreed, this`live, freeBits
      ensures Valid() && PageBook.Step(old(View()), Free(index), Nothing, View())
    {
      hide Marked, Inv, Run, BytesPerBitmap, Step;
      ghost var was := View();
      ghost var last := index + live[index] - 1;
      LiveBounds(was, index);
      WalkIsRun(was, index, last);
      BitmapsFit(pages);
      RunNone(was.reserved, index);
      lastFreed := index;
      ClearWhileContinuing(index, was, last);
      live := live - {index};
      FreedInv(was, index, last);
      FreeStep(was, index, last);
    }

    method ClearWhileContinuing(index: nat, ghost was: Book, ghost last: nat)
      requires Shaped() && last < pages && WalkEnds(was, index, last)
      requires Marked(freeBits[..]) == was.reserved && Marked(contBits[..]) == was.continues
      modifies freeBits
      ensures Marked(freeBits[..]) == was.reserved - Run(index, last + 1 - index)
    {
      hide Marked, Run, BytesPerBitmap;
      var i := index;
      BitmapsFit(pages);
      RunNone(was.reserved, index);
      while true
        invariant index <= i <= last
        invariant Marked(freeBits[..]) == was.reserved - Run(index, i - index)
        decreases last - i
      {
        Clear(freeBits, i);
        RunNext(was.reserved, index, i - index);
        var continues := IsSet(contBits, i);
        if !continues { return; }
        i := i + 1;
      }
    }

    /** The first run of `count` free pages from the page freed last on. */
    method SearchForFree(count: nat) returns (found: Option<nat>)
      requires Valid()
      ensures found.None? && count > 0 ==> forall s :: s >= lastFreed ==> !Fits(View(), s, count)
      ensures found.Some? ==>
        && count > 0 && found.value >= lastFreed && Fits(View(), found.value, count)
        && forall s :: lastFreed <= s < found.value ==> !Fits(View(), s, count)
    {
      hide Marked;
      BitmapsFit(pages);
      var begin, size := lastFreed, 0;
      for index := lastFreed to pages
        invariant begin + size == index && (count > 0 ==> size < count) && lastFreed <= begin
        invariant forall i :: begin <= i < index ==> i !in View().reserved
        invariant forall s :: lastFreed <= s < begin ==> !Fits(View(), s, count) || count == 0
      {
        var taken := IsSet(freeBits, index);
        if taken {
          forall s | begin <= s <= index ensures !Fits(View(), s, count) || count == 0 {
            if s + count > index { assert index in View().reserved; }
          }
          size, begin := 0, index + 1;
        } else {
          size := size + 1;
          if size == count { return Some(begin); }
        }
      }
      return None;
    }

    method AllocatePages(count: nat) returns (found: Option<nat>, ghost o: Outcome)
      requires Valid()
      modifies this`live, freeBits, contBits
      ensures Valid() && PageBook.Step(old(View()), Allocate(count), o, View())
      ensures found == if o.At? then Some(start + o.start * PAGE) else None
    {
      hide Marked, Inv;
      var index := SearchForFree(count);
      if index.None? { return None, Nothing; }
      o := Outcome.At(index.value);
      ReservedInv(View(), index.value, count);
      MarkAsReserved(index.value, count);
      found := Some(start + index.value * PAGE);
    }

    /** Any address inside the first page of a run will do. */
    method FreeRegion(address: nat)
      requires Valid() && start % PAGE == 0 && address >= start
      requires (address - start) / PAGE in live && (address - start) / PAGE != 0
      modifies this`lastFreed, this`live, freeBits
      ensures Valid() && PageBook.Step(old(View()), Free((address - start) / PAGE), Nothing, View())
    {
      var base := address / PAGE * PAGE;
      var index := (base - start) / PAGE;
      PageIndex(start, address);
      MarkRegionAsFree(index);
    }
  }

  /** Up to four regions of memory, tried in order. */
  class PageAllocator {
    var regions: seq<RegionPageAllocator>

    ghost predicate Valid()
      reads this, regions, set r | r in regions :: r.freeBits, set r | r in regions :: r.contBits
    {
      && |regions| <= MAX_REGIONS
      && (forall i :: 0 <= i < |regions| ==> regions[i].Valid() && regions[i].start % PAGE == 0)
      && (forall i, j :: 0 <= i < j < |regions| ==> Apart(regions[i], regions[j]))
    }

    constructor ()
      ensures Valid() && regions == []
    {
      regions := [];
    }

    /** Takes a region in behind the others.  It is an error exactly if it overlaps one of them or there are four
        already. */
    method RegisterNewRegion(start: nat, pages: nat) returns (ok: bool)
      requires Valid() && pages > 0 && start % PAGE == 0
      modifies this
      ensures Valid()
      ensures ok <==> |old(regions)| < 4 && forall r :: r in old(regions) ==>
        start + pages * 4096 <= r.start || r.start + r.pages * 4096 <= start
      ensures !ok ==> regions == old(regions)
      ensures ok ==>
        && |regions| == |old(regions)| + 1 && regions[..|old(regions)|] == old(regions)
        && var r := regions[|old(regions)|]; fresh(r) && r.start == start && r.View() == Fresh(pages)
    {
      hide Inv, Marked, Fresh;
      for i := 0 to |regions|
        invariant forall j :: 0 <= j < i ==> !Overlaps(regions[j], start, pages)
      {
        if Overlaps(regions[i], start, pages) {
          return false;
        }
      }
      if |regions| == MAX_REGIONS {
        return false;
      }
      var r := new RegionPageAllocator(start, pages);
      FreshPages(pages);
      regions := regions + [r];
      ok := true;
    }

    method TryRegion(i: nat, count: nat) returns (found: Option<nat>, ghost o: Outcome)
      requires Valid() && i < |regions|
      modifies regions, set r | r in regions :: r.freeBits, set r | r in regions :: r.contBits
      ensures Valid() && forall j :: 0 <= j < |regions| && j != i ==> regions[j].View() == old(regions[j].View())
      ensures PageBook.Step(old(regions[i].View()), Allocate(count), o, regions[i].View())
      ensures found == if o.At? then Some(regions[i].start + o.start * PAGE) else None
    {
      hide Inv, Step, Marked;
      assert forall j :: 0 <= j < |regions| && j != i ==>
        Apart(regions[i], regions[j]) || Apart(regions[j], regions[i]);
      found, o := regions[i].AllocatePages(count);
    }

    /** Allocates from the first region that has a run; every region before it has none, and no region
        but that one changes. */
    method AllocateRegion(count: nat) returns (found: Option<nat>, ghost k: nat, ghost o: Outcome)
      requires Valid()
      modifies regions, set r | r in regions :: r.freeBits, set r | r in regions :: r.contBits
      ensures Valid() && k <= |regions| && (found.None? <==> k == |regions|)
      ensures forall j :: 0 <= j < k ==> PageBook.Step(regions[j].View(), Allocate(count), Nothing, regions[j].View())
      ensures forall j :: 0 <= j < |regions| && j != k ==> regions[j].View() == old(regions[j].View())
      ensures k < |regions| ==>
        && PageBook.Step(old(regions[k].View()), Allocate(count), o, regions[k].View())
        && o.At? && found == Some(regions[k].start + o.start * PAGE)
    {
      hide Inv, Step, Marked;
      o := Nothing;
      for i := 0 to |regions|
        invariant Valid()
        invariant forall j :: 0 <= j < |regions| ==> regions[j].View() == old(regions[j].View())
        invariant forall j :: 0 <= j < i ==>
          PageBook.Step(regions[j].View(), Allocate(count), Nothing, regions[j].View())
      {
        found, o := TryRegion(i, count);
        k := i;
        if found.Some? { return; }
        StepNothing(old(regions[i].View()), count, regions[i].View());
      }
      found, k := None, |regions|;
    }

    /** Frees in the region the address lies in; there is one, so the loop never falls through. */
    method FreeRegion(address: nat, ghost k: nat)
      requires Valid() && k < |regions|
      requires regions[k].start <= address < regions[k].start + regions[k].pages * PAGE
      requires var index := (address - regions[k].start) / PAGE; index in regions[k].live && index != 0
      modifies regions, set r | r in regions :: r.freeBits, set r | r in regions :: r.contBits
      ensures Valid()
      ensures forall j :: 0 <= j < |regions| && j != k ==> regions[j].View() == old(regions[j].View())
      ensures
        PageBook.Step(old(regions[k].View()), Free((address - regions[k].start) / PAGE), Nothing, regions[k].View())
    {
      hide Inv, Step, Marked;
      for i := 0 to |regions|
        invariant i <= k
        invariant Valid() && forall j :: 0 <= j < |regions| ==> regions[j].View() == old(regions[j].View())
        invariant (address - regions[k].start) / PAGE in regions[k].live
      {
        if Within(regions[i], address) {
          assert i < k ==> Apart(regions[i], regions[k]);
          regions[i].FreeRegion(address);
          return;
        }
      }
    }
  }

  const MAX_REGIONS := 4

  predicate Overlaps(r: RegionPageAllocator, start: nat, pages: nat) {
    start < r.start + r.pages * PAGE && start + pages * PAGE > r.start
  }

  lemma FreshPages(pages: nat)
    requires pages > 0
    ensures Fresh(pages).pages == pages
  {
  }

  predicate Within(r: RegionPageAllocator, address: nat) {
    r.start <= address < r.start + r.pages * PAGE
  }

  /** Different objects over different memory. */
  ghost predicate Apart(a: RegionPageAllocator, b: RegionPageAllocator) {
    && a != b && a.freeBits != b.freeBits && a.contBits != b.contBits
    && a.freeBits != b.contBits && a.contBits != b.freeBits
    && (a.start + a.pages * PAGE <= b.start || b.start + b.pages * PAGE <= a.start)
  }

  /** No two runs in use share a byte, in one region or across them, and each lies inside its region. */
  lemma RunsApart(a: RegionPageAllocator, s: nat, b: RegionPageAllocator, t: nat)
    requires a.Valid() && b.Valid() && s in a.live && t in b.live
    requires Apart(a, b) || (a == b && s != t)
    ensures a.start + s * PAGE + a.live[s] * PAGE <= a.start + a.pages * PAGE
    ensures a.start + s * PAGE + a.live[s] * PAGE <= b.start + t * PAGE
         || b.start + t * PAGE + b.live[t] * PAGE <= a.start + s * PAGE
  {
  }

  lemma StepNothing(b: Book, count: nat, c: Book)
    requires PageBook.Step(b, Allocate(count), Nothing, c)
    ensures c == b
  {
  }

  method IsSet(a: array<bv8>, i: nat) returns (r: bool)
    requires i < 8 * a.Length
    ensures r <==> i in Marked(a[..])
  {
    r := Bit(a[i / 8], i % 8);
  }

  lemma NothingMarked(bytes: seq<bv8>)
    requires forall i :: 0 <= i < |bytes| ==> bytes[i] == 0
    ensures Marked(bytes) == {}
  {
    forall i: nat | i < 8 * |bytes| ensures !Bitmap.At(bytes, i) {
      assert bytes[i / 8] == 0;
    }
  }

  lemma RunNone(a: set<nat>, s: nat)
    ensures a + Run(s, 0) == a && a - Run(s, 0) == a
  {
  }

  lemma RunNext(a: set<nat>, s: nat, k: nat)
    ensures a + Run(s, k + 1) == (a + Run(s, k)) + {s + k} && a - Run(s, k + 1) == (a - Run(s, k)) - {s + k}
  {
  }

  lemma FreeStep(b: Book, s: nat, e: nat)
    requires WalkEnds(b, s, e)
    ensures PageBook.Step(b, Free(s), Nothing, Freed(b, s, e))
  {
  }

  lemma LiveBounds(b: Book, s: nat)
    requires Inv(b) && s in b.live
    ensures b.live[s] > 0 && s + b.live[s] <= b.pages
  {
  }

  lemma PageIndex(start: nat, address: nat)
    requires start % PAGE == 0 && address >= start
    ensures address / PAGE * PAGE >= start
    ensures (address / PAGE * PAGE - start) / PAGE == (address - start) / PAGE
  {
  }
}
