/** Bits packed eight to a byte. */
module Bitmap {
  /** `1 << b`. */
  function Mask(b: nat): (m: bv8)
    requires b < 8
  {
    if b == 0 then 1 else if b == 1 then 2 else if b == 2 then 4 else if b == 3 then 8
    else if b == 4 then 16 else if b == 5 then 32 else if b == 6 then 64 else 128
  }

  /** Bits are counted from the least significant one. */
  lemma MaskExactly(b: nat)
    requires b < 8
    ensures Mask(b) == 1 << b
  {
  }

  predicate Bit(x: bv8, b: nat)
    requires b < 8
  {
    x & Mask(b) != 0
  }

  lemma SetBit(x: bv8, b: nat, c: nat)
    requires b < 8 && c < 8
    ensures Bit(x | Mask(b), c) == (b == c || Bit(x, c))
  {
  }

  lemma ClearBit(x: bv8, b: nat, c: nat)
    requires b < 8 && c < 8
    ensures Bit(x & !Mask(b), c) == (b != c && Bit(x, c))
  {
  }

  predicate At(bytes: seq<bv8>, i: nat)
    requires i < 8 * |bytes|
  {
    Bit(bytes[i / 8], i % 8)
  }

  /** The numbers whose bits are set. */
  ghost function Marked(bytes: seq<bv8>): (s: set<nat>)
  {
    set i: nat | i < 8 * |bytes| && At(bytes, i)
  }

  lemma SetMarks(bytes: seq<bv8>, i: nat)
    requires i < 8 * |bytes|
    ensures Marked(bytes[i / 8 := bytes[i / 8] | Mask(i % 8)]) == Marked(bytes) + {i}
  {
    hide Bit, Mask;
    var after := bytes[i / 8 := bytes[i / 8] | Mask(i % 8)];
    forall j: nat | j < 8 * |bytes| ensures At(after, j) == (i == j || At(bytes, j)) {
      if j / 8 == i / 8 { SetBit(bytes[i / 8], i % 8, j % 8); }
    }
  }

  lemma ClearMarks(bytes: seq<bv8>, i: nat)
    requires i < 8 * |bytes|
    ensures Marked(bytes[i / 8 := bytes[i / 8] & !Mask(i % 8)]) == Marked(bytes) - {i}
  {
    hide Bit, Mask;
    var after := bytes[i / 8 := bytes[i / 8] & !Mask(i % 8)];
    forall j: nat | j < 8 * |bytes| ensures At(after, j) == (i != j && At(bytes, j)) {
      if j / 8 == i / 8 { ClearBit(bytes[i / 8], i % 8, j % 8); }
    }
  }

  method Set(a: array<bv8>, i: nat)
    requires i < 8 * a.Length
    modifies a
    ensures Marked(a[..]) == old(Marked(a[..])) + {i}
  {
    hide Bit, Mask, Marked;
    SetMarks(a[..], i);
    ghost var was := a[..];
    a[i / 8] := a[i / 8] | Mask(i % 8);
    assert a[..] == was[i / 8 := was[i / 8] | Mask(i % 8)];
  }

  method Clear(a: array<bv8>, i: nat)
    requires i < 8 * a.Length
    modifies a
    ensures Marked(a[..]) == old(Marked(a[..])) - {i}
  {
    hide Bit, Mask, Marked;
    ClearMarks(a[..], i);
    ghost var was := a[..];
    a[i / 8] := a[i / 8] & !Mask(i % 8);
    assert a[..] == was[i / 8 := was[i / 8] & !Mask(i % 8)];
  }
}

/** The page allocator's book-keeping: which pages are reserved, and which of them continue into the next. */
module PageBook {
  const PAGE := 4096

  /** One region of `pages` pages, with the runs handed out: first page to number of pages. */
  datatype Book = Book(pages: nat, reserved: set<nat>, continues: set<nat>, lastFreed: nat, live: map<nat, nat>)

  ghost function Run(start: nat, count: nat): (s: set<nat>)
    ensures forall i: nat :: i in s <==> start <= i < start + count
  {
    if count == 0 then {} else Run(start, count - 1) + {start + count - 1}
  }

  /** The two bitmaps take the first pages of the region. */
  function BytesPerBitmap(pages: nat): (n: nat)
    requires pages > 0
  {
    (pages - 1) / 8 + 1
  }

  function PagesNeeded(pages: nat): (n: nat)
    requires pages > 0
  {
    (BytesPerBitmap(pages) * 2 - 1) / PAGE + 1
  }

  /** They hold a bit for every page, fit the pages set aside for them but not one page fewer, and those
      pages exist. */
  lemma BitmapsFit(pages: nat)
    requires pages > 0
    ensures 8 * (BytesPerBitmap(pages) - 1) < pages <= 8 * BytesPerBitmap(pages)
    ensures PAGE * (PagesNeeded(pages) - 1) < 2 * BytesPerBitmap(pages) <= PAGE * PagesNeeded(pages)
    ensures 1 <= PagesNeeded(pages) <= pages
  {
  }

  /** What every run keeps. */
  ghost predicate Inv(b: Book) {
    && b.pages > 0 && b.lastFreed < b.pages
    && 0 in b.live && b.live[0] == PagesNeeded(b.pages)
    && (forall s :: s in b.live ==> b.live[s] > 0 && s + b.live[s] <= b.pages && RunMarked(b, s))
    && (forall i :: i in b.reserved ==> Owned(b, i))
    && (forall s, t :: s in b.live && t in b.live && s < t ==> s + b.live[s] <= t)
  }

  /** A live run is reserved throughout, and continues on all its pages but the last. */
  ghost predicate RunMarked(b: Book, s: nat)
    requires s in b.live
  {
    forall i :: s <= i < s + b.live[s] ==> i in b.reserved && (i in b.continues <==> i + 1 < s + b.live[s])
  }

  ghost predicate Owned(b: Book, i: nat) {
    exists s :: s in b.live && s <= i < s + b.live[s]
  }

  /** A run of `count` free pages. */
  ghost predicate Fits(b: Book, s: nat, count: nat) {
    s + count <= b.pages && forall i :: s <= i < s + count ==> i !in b.reserved
  }

  datatype Op = Allocate(count: nat) | Free(start: nat)
  datatype Outcome = Nothing | At(start: nat)

  /** Marking a run reserved. */
  ghost function Reserved(b: Book, s: nat, count: nat): (r: Book)
    requires count > 0
  {
    b.(reserved := b.reserved + Run(s, count),
       continues := b.continues + Run(s, count - 1) - {s + count - 1},
       live := b.live[s := count])
  }

  /** Where the walk over continuation bits ends: the first page from s on without one. */
  ghost predicate WalkEnds(b: Book, s: nat, e: nat) {
    s <= e < b.pages && e !in b.continues && forall i :: s <= i < e ==> i in b.continues
  }

  /** One call. An allocation takes the first run that fits at or after the page freed last; freeing walks the
      continuation bits from the run's first page. */
  ghost predicate Step(b: Book, op: Op, o: Outcome, c: Book) {
    match op
    case Allocate(count) =>
      if o.Nothing? then c == b && (count > 0 ==> forall s :: s >= b.lastFreed ==> !Fits(b, s, count))
      else
        && count > 0 && o.start >= b.lastFreed && Fits(b, o.start, count)
        && (forall s :: b.lastFreed <= s < o.start ==> !Fits(b, s, count))
        && c == Reserved(b, o.start, count)
    case Free(s) =>
      && o.Nothing?
      && exists e :: WalkEnds(b, s, e) && c == Freed(b, s, e)
  }

  ghost function Freed(b: Book, s: nat, e: nat): (r: Book)
    requires s <= e
  {
    b.(reserved := b.reserved - Run(s, e + 1 - s), lastFreed := s, live := b.live - {s})
  }

  /** Freeing is for runs handed out and not freed since; the bitmaps' own pages are nobody's to free. */
  ghost predicate Permitted(b: Book, op: Op) {
    op.Free? ==> op.start in b.live && op.start != 0
  }

  /** A free run meets no live one. */
  lemma FitsApart(b: Book, s: nat, count: nat, t: nat)
    requires Inv(b) && count > 0 && Fits(b, s, count) && t in b.live
    ensures t + b.live[t] <= s || s + count <= t
  {
    assert RunMarked(b, t);
    assert t in b.reserved;
    assert t < s < t + b.live[t] ==> s in b.reserved;
  }

  lemma ReservedMarked(b: Book, s: nat, count: nat, t: nat)
    requires Inv(b) && count > 0 && Fits(b, s, count) && t in Reserved(b, s, count).live
    ensures RunMarked(Reserved(b, s, count), t)
  {
    if t != s {
      FitsApart(b, s, count, t);
      assert RunMarked(b, t);
    }
  }

  lemma ReservedOwned(b: Book, s: nat, count: nat, i: nat)
    requires Inv(b) && count > 0 && s !in b.live && i in Reserved(b, s, count).reserved
    ensures Owned(Reserved(b, s, count), i)
  {
    var c := Reserved(b, s, count);
    if i in b.reserved {
      assert Owned(b, i);
      var t :| t in b.live && t <= i < t + b.live[t];
      assert t in c.live && c.live[t] == b.live[t];
    } else {
      assert s in c.live && s <= i < s + c.live[s];
    }
  }

  lemma ReservedInv(b: Book, s: nat, count: nat)
    requires Inv(b) && count > 0 && Fits(b, s, count)
    ensures Inv(Reserved(b, s, count)) && s !in b.live
  {
    hide RunMarked, Owned, Run;
    var c := Reserved(b, s, count);
    forall t | t in b.live ensures t + b.live[t] <= s || s + count <= t { FitsApart(b, s, count, t); }
    forall t | t in c.live ensures RunMarked(c, t) { ReservedMarked(b, s, count, t); }
    forall i | i in c.reserved ensures Owned(c, i) { ReservedOwned(b, s, count, i); }
  }

  /** The walk ends where the run does: freeing a run frees exactly its pages. */
  lemma WalkIsRun(b: Book, s: nat, e: nat)
    requires Inv(b) && s in b.live
    ensures WalkEnds(b, s, e) <==> e + 1 == s + b.live[s]
  {
    assert RunMarked(b, s);
    var last := s + b.live[s] - 1;
    assert last !in b.continues;
  }

  /** The runs left keep their marks, */
  lemma FreedMarked(b: Book, s: nat, e: nat, t: nat)
    requires Inv(b) && s in b.live && e + 1 == s + b.live[s] && t in b.live && t != s
    ensures RunMarked(Freed(b, s, e), t)
  {
    assert RunMarked(b, t);
    assert if s < t then s + b.live[s] <= t else t + b.live[t] <= s;
  }

  /** and the pages still reserved are theirs. */
  lemma FreedOwned(b: Book, s: nat, e: nat, i: nat)
    requires Inv(b) && s in b.live && e + 1 == s + b.live[s] && i in Freed(b, s, e).reserved
    ensures Owned(Freed(b, s, e), i)
  {
    hide RunMarked;
    assert Owned(b, i);
    var t :| t in b.live && t <= i < t + b.live[t];
    assert t != s && t in Freed(b, s, e).live;
  }

  lemma FreedInv(b: Book, s: nat, e: nat)
    requires Inv(b) && s in b.live && s != 0 && WalkEnds(b, s, e)
    ensures Inv(Freed(b, s, e)) && Freed(b, s, e).reserved == b.reserved - Run(s, b.live[s])
  {
    hide RunMarked, Owned, Run;
    WalkIsRun(b, s, e);
    var c := Freed(b, s, e);
    forall t | t in c.live ensures RunMarked(c, t) { FreedMarked(b, s, e, t); }
    forall i | i in c.reserved ensures Owned(c, i) { FreedOwned(b, s, e, i); }
  }

  lemma StepInv(b: Book, op: Op, o: Outcome, c: Book)
    requires Inv(b) && Permitted(b, op) && Step(b, op, o, c)
    ensures Inv(c) && c.pages == b.pages
    ensures op.Allocate? && o.At? ==> o.start !in b.live && c.live == b.live[o.start := op.count]
    ensures op.Free? ==> c.live == b.live - {op.start}
  {
    match op {
      case Allocate(count) => if o.At? { ReservedInv(b, o.start, count); }
      case Free(s) =>
        var e :| WalkEnds(b, s, e) && c == Freed(b, s, e);
        FreedInv(b, s, e);
    }
  }

  /** A fresh region: zeroed bitmaps, and their own pages reserved. */
  ghost function Fresh(pages: nat): (b: Book)
    requires pages > 0
  {
    Reserved(Book(pages, {}, {}, 0, map[]), 0, PagesNeeded(pages))
  }

  lemma FreshInv(pages: nat)
    requires pages > 0
    ensures Inv(Fresh(pages))
  {
    BitmapsFit(pages);
    var b := Fresh(pages);
    assert b.live[0] == PagesNeeded(pages) && b.live.Keys == {0};
    forall i | i in b.reserved ensures Owned(b, i) { assert 0 in b.live && 0 <= i < 0 + b.live[0]; }
  }

  ghost predicate Trace(bs: seq<Book>, ops: seq<Op>, os: seq<Outcome>) {
    && |bs| == |ops| + 1 && |os| == |ops|
    && (forall i :: 0 <= i < |ops| ==> TraceStep(bs, ops, os, i))
  }

  ghost predicate TraceStep(bs: seq<Book>, ops: seq<Op>, os: seq<Outcome>, i: nat)
    requires i < |ops| == |os| && |bs| == |ops| + 1
  {
    Permitted(bs[i], ops[i]) && Step(bs[i], ops[i], os[i], bs[i + 1])
  }

  lemma {:induction false} EveryRunInv(bs: seq<Book>, ops: seq<Op>, os: seq<Outcome>, k: nat)
    requires Trace(bs, ops, os) && bs[0].pages > 0 && bs[0] == Fresh(bs[0].pages) && k < |bs|
    ensures Inv(bs[k]) && bs[k].pages == bs[0].pages
  {
    if k == 0 {
      FreshInv(bs[0].pages);
    } else {
      EveryRunInv(bs, ops, os, k - 1);
      assert TraceStep(bs, ops, os, k - 1);
      StepInv(bs[k - 1], ops[k - 1], os[k - 1], bs[k]);
    }
  }

  /** In every run from zeroed bitmaps, the runs in use lie inside the region, clear of the bitmaps' pages and
      of each other, and a page is marked reserved exactly when it is the bitmaps' or in use. */
  lemma EveryRunSeparates(bs: seq<Book>, ops: seq<Op>, os: seq<Outcome>, k: nat)
    requires Trace(bs, ops, os) && bs[0].pages > 0 && bs[0] == Fresh(bs[0].pages) && k < |bs|
    ensures forall s :: s in bs[k].live && s != 0 ==>
      PagesNeeded(bs[0].pages) <= s && bs[k].live[s] > 0 && s + bs[k].live[s] <= bs[0].pages
    ensures forall s, t :: s in bs[k].live && t in bs[k].live && s != t ==>
      Run(s, bs[k].live[s]) !! Run(t, bs[k].live[t])
    ensures forall i: nat :: i in bs[k].reserved <==> Owned(bs[k], i)
  {
    EveryRunInv(bs, ops, os, k);
    var b := bs[k];
    forall s, t | s in b.live && t in b.live && s != t ensures Run(s, b.live[s]) !! Run(t, b.live[t]) {
      if s < t { assert s + b.live[s] <= t; } else { assert t + b.live[t] <= s; }
    }
    forall i: nat | Owned(b, i) ensures i in b.reserved {
      var s :| s in b.live && s <= i < s + b.live[s];
      assert RunMarked(b, s);
    }
  }

  /** The search never looks below the page freed last: an allocation is refused although a run would fit
      exactly when every run that fits lies, at least in part, below that page. */
  lemma RefusedExactly(b: Book, count: nat, o: Outcome, c: Book)
    requires Inv(b) && Step(b, Allocate(count), o, c)
    ensures o.Nothing? <==> count == 0 || forall s: nat :: Fits(b, s, count) ==> s < b.lastFreed
  {
    if count == 0 { assert o.Nothing?; }
  }

  /** After the only two runs are freed, the lower one first, two pages are free and not found. */
  lemma LowPageForgotten() returns (bs: seq<Book>, ops: seq<Op>, os: seq<Outcome>)
    ensures Trace(bs, ops, os) && bs[0].pages > 0 && bs[0] == Fresh(bs[0].pages)
    ensures |ops| == 5 && ops[4] == Allocate(2) && os[4] == Nothing && Fits(bs[4], 1, 2)
  {
    hide Step;
    var b0 := Book(3, {0}, {}, 0, map[0 := 1]);
    var b1 := Book(3, {0, 1}, {}, 0, map[0 := 1, 1 := 1]);
    var b2 := Book(3, {0, 1, 2}, {}, 0, map[0 := 1, 1 := 1, 2 := 1]);
    var b3 := Book(3, {0, 2}, {}, 1, map[0 := 1, 2 := 1]);
    var b4 := Book(3, {0}, {}, 2, map[0 := 1]);
    ForgottenSteps(b0, b1, b2, b3, b4);
    bs := [b0, b1, b2, b3, b4, b4];
    ops := [Allocate(1), Allocate(1), Free(1), Free(2), Allocate(2)];
    os := [At(1), At(2), Nothing, Nothing, Nothing];
    assert TraceStep(bs, ops, os, 0) && TraceStep(bs, ops, os, 1);
    assert TraceStep(bs, ops, os, 2) && TraceStep(bs, ops, os, 3);
    assert TraceStep(bs, ops, os, 4);
  }

  lemma ForgottenSteps(b0: Book, b1: Book, b2: Book, b3: Book, b4: Book)
    requires b0 == Book(3, {0}, {}, 0, map[0 := 1])
    requires b1 == Book(3, {0, 1}, {}, 0, map[0 := 1, 1 := 1])
    requires b2 == Book(3, {0, 1, 2}, {}, 0, map[0 := 1, 1 := 1, 2 := 1])
    requires b3 == Book(3, {0, 2}, {}, 1, map[0 := 1, 2 := 1])
    requires b4 == Book(3, {0}, {}, 2, map[0 := 1])
    ensures b0 == Fresh(3) && Step(b0, Allocate(1), At(1), b1) && Step(b1, Allocate(1), At(2), b2)
    ensures Step(b2, Free(1), Nothing, b3) && Step(b3, Free(2), Nothing, b4) && Step(b4, Allocate(2), Nothing, b4)
  {
    assert PagesNeeded(3) == 1;
    assert Run(0, 0) == Run(1, 0) == Run(2, 0) == {};
    assert Run(0, 1) == {0} && Run(1, 1) == {1} && Run(2, 1) == {2};
    assert 0 in b0.reserved && !Fits(b0, 0, 1) && Reserved(b0, 1, 1) == b1;
    assert 0 in b1.reserved && !Fits(b1, 0, 1) && 1 in b1.reserved && !Fits(b1, 1, 1) && Reserved(b1, 2, 1) == b2;
    assert WalkEnds(b2, 1, 1) && Freed(b2, 1, 1) == b3;
    assert WalkEnds(b3, 2, 2) && Freed(b3, 2, 2) == b4;
  }
}
