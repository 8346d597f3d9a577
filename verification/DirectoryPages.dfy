/** Directory listings as the kernel writes them: pages of variable-length items, each with the distance to the
    next. */
module DirectoryPages {
  import opened Words
  import opened Wrappers

  const HEADER := 24
  const NAME := 17

  datatype Error = EInval

  datatype Entry = Entry(name: seq<byte>, size: nat, directory: bool)

  /** Names are strings, and sizes fit their field. */
  ghost predicate Listable(es: seq<Entry>) {
    forall i :: 0 <= i < |es| ==> EntryListable(es[i])
  }

  ghost predicate EntryListable(e: Entry) { 0 !in e.name && e.size < 0x1_0000_0000_0000_0000 }

  /** The bytes an item takes up without padding. */
  function WholeSize(e: Entry): (n: nat) { HEADER - 7 + |e.name| + 1 }

  function AlignUp8(n: nat): (r: nat)
    ensures n <= r < n + 8 && r % 8 == 0
  {
    (n + 7) / 8 * 8
  }

  function HeaderBytes(next: nat, e: Entry): (s: seq<byte>)
    ensures |s| == HEADER
  {
    ToBytes(next, 8) + ToBytes(e.size, 8) + [if e.directory then 1 else 0] + [0, 0, 0, 0, 0, 0, 0]
  }

  ghost predicate Zero(b: seq<byte>, from: nat) { forall i :: from <= i < |b| ==> b[i] == 0 }

  /** An item for e lies at `at`: its fields, its name and the terminator. */
  ghost predicate Holds(b: seq<byte>, at: nat, e: Entry, next: nat) {
    && at + WholeSize(e) <= |b| && at + HEADER <= |b|
    && U64(b, at) == next && U64(b, at + 8) == e.size && b[at + 16] == (if e.directory then 1 else 0)
    && b[at + NAME..at + NAME + |e.name|] == e.name && b[at + NAME + |e.name|] == 0
  }

  lemma HeaderFields(next: nat, e: Entry)
    ensures var h := HeaderBytes(next, e);
      && h[0..8] == ToBytes(next, 8) && h[8..16] == ToBytes(e.size, 8) && h[16] == (if e.directory then 1 else 0)
      && forall i :: NAME <= i < HEADER ==> h[i] == 0
  {
  }

  /** Writing the header and then the name into cleared memory makes an item there, leaves everything before
      it alone, and leaves everything after it clear. */
  lemma PlacedHolds(b: seq<byte>, at: nat, e: Entry, next: nat)
    requires EntryListable(e) && next < 0x1_0000_0000_0000_0000 && Zero(b, at)
    requires at + WholeSize(e) <= |b| && at + HEADER <= |b|
    ensures var r := Splice(Splice(b, at, HeaderBytes(next, e)), at + NAME, e.name);
      && Holds(r, at, e, next) && |r| == |b| && r[..at] == b[..at] && Zero(r, at + AlignUp8(WholeSize(e)))
  {
    hide HeaderBytes, ToBytes, FromBytes, Pow256;
    var h := HeaderBytes(next, e);
    var c := Splice(b, at, h);
    var r := Splice(c, at + NAME, e.name);
    HeaderFields(next, e);
    WordSizes();
    assert c[at..at + HEADER] == h;
    assert r[at..at + NAME] == c[at..at + NAME] == h[..NAME];
    Field(r, at, h[..NAME], 0, 8, next) by { assert h[..NAME][0..8] == h[0..8]; }
    Field(r, at, h[..NAME], 8, 8, e.size) by { assert h[..NAME][8..16] == h[8..16]; }
    assert r[at + 16] == h[..NAME][16] by { assert r[at..at + NAME][16] == r[at + 16]; }
    assert r[at + NAME..at + NAME + |e.name|] == e.name;
    var end := at + NAME + |e.name|;
    assert r[end] == c[end];
    if |e.name| < 7 {
      assert c[end] == c[at..at + HEADER][end - at] == h[end - at];
    } else {
      assert c[end] == b[end];
    }
    assert r[..at] == b[..at];
    forall i | at + AlignUp8(WholeSize(e)) <= i < |r| ensures r[i] == 0 {
      assert r[i] == c[i] == b[i];
    }
  }

  /** An item is untouched by what is written behind it. */
  lemma HoldsKept(b: seq<byte>, c: seq<byte>, at: nat, e: Entry, next: nat, end: nat)
    requires Holds(b, at, e, next) && |c| == |b| && at + WholeSize(e) <= end <= |b| && at + HEADER <= end
    requires c[..end] == b[..end]
    ensures Holds(c, at, e, next)
  {
    var to := at + NAME + |e.name|;
    SamePrefix(b, c, end, at, at + 8);
    SamePrefix(b, c, end, at + 8, at + 16);
    SamePrefix(b, c, end, at + NAME, to);
    assert c[at + 16] == c[..end][at + 16] && b[at + 16] == b[..end][at + 16];
    assert c[to] == c[..end][to] && b[to] == b[..end][to];
  }

  lemma SamePrefix(b: seq<byte>, c: seq<byte>, end: nat, lo: nat, hi: nat)
    requires lo <= hi <= end <= |b| && end <= |c| && c[..end] == b[..end]
    ensures c[lo..hi] == b[lo..hi]
  {
    assert c[lo..hi] == c[..end][lo..hi] && b[lo..hi] == b[..end][lo..hi];
  }

  // ----- A page --------------------------------------------------------------------------------------------------

  datatype Slot = Slot(at: nat, next: nat)

  /** The slots of the entries from `from` on, one after the other from the start of the page to `end`. */
  ghost predicate Chained(slots: seq<Slot>, es: seq<Entry>, from: nat, end: nat) {
    && from + |slots| <= |es|
    && (if slots == [] then end == 0 else slots[0].at == 0 && slots[|slots| - 1].at + slots[|slots| - 1].next == end)
    && (forall i, j :: 0 <= i < j < |slots| && j == i + 1 ==> slots[i].at + slots[i].next == slots[j].at)
    && (forall i :: 0 <= i < |slots| ==> slots[i].next >= WholeSize(es[from + i]) && slots[i].next >= HEADER)
  }

  lemma {:induction false} ChainedEnds(slots: seq<Slot>, es: seq<Entry>, from: nat, end: nat, i: nat)
    requires Chained(slots, es, from, end) && i < |slots|
    ensures slots[i].at + slots[i].next <= end
    decreases |slots| - i
  {
    if i + 1 < |slots| {
      ChainedEnds(slots, es, from, end, i + 1);
      assert slots[i].at + slots[i].next == slots[i + 1].at;
    }
  }

  ghost predicate AllHold(b: seq<byte>, slots: seq<Slot>, es: seq<Entry>, from: nat)
    requires from + |slots| <= |es|
  {
    forall i :: 0 <= i < |slots| ==> Holds(b, slots[i].at, es[from + i], slots[i].next)
  }

  /** A finished page for the entries from `from` up to `to`: items one after the other, the last of which
      says 0 if it is the directory's last and otherwise points just past the page. */
  ghost predicate Page(b: seq<byte>, slots: seq<Slot>, es: seq<Entry>, from: nat, to: nat) {
    && from < to <= |es| && |slots| == to - from && slots[0].at == 0
    && AllHold(b, slots, es, from)
    && (forall i, j :: 0 <= i < j < |slots| && j == i + 1 ==> slots[i].at + slots[i].next == slots[j].at)
    && (forall i :: 0 <= i < |slots| - 1 ==> slots[i].next > 0)
    && slots[|slots| - 1].next == (if to == |es| then 0 else |b| - slots[|slots| - 1].at)
    && (forall i :: 0 <= i < |slots| && slots[i].next > 0 ==>
          slots[i].next >= WholeSize(es[from + i]) && slots[i].at + slots[i].next <= |b|)
  }

  /** The distance written for entry i at `at`. */
  function NextOffset(es: seq<Entry>, i: nat, at: nat, size: nat): (n: int)
    requires i < |es|
  {
    var next := AlignUp8(WholeSize(es[i]));
    if i + 1 == |es| then 0
    else if at + next + WholeSize(es[i + 1]) > size then size - at
    else next
  }

  /** Between two entries of a page being filled. */
  ghost predicate Filling(b: seq<byte>, slots: seq<Slot>, es: seq<Entry>, from: nat, at: nat, size: nat) {
    && |b| == size && Chained(slots, es, from, at) && AllHold(b, slots, es, from) && Zero(b, at)
    && from + |slots| < |es|
    && (at % 8 == 0 || at == size) && at <= size
    && (slots != [] ==> at == size || at + WholeSize(es[from + |slots|]) <= size)
  }

  lemma FillNext(b: seq<byte>, slots: seq<Slot>, es: seq<Entry>, from: nat, at: nat, size: nat)
    requires Listable(es) && Filling(b, slots, es, from, at, size) && size < 0x1_0000_0000_0000_0000
    requires at + WholeSize(es[from + |slots|]) <= size && at + HEADER <= size
    ensures var i := from + |slots|;
      var next := NextOffset(es, i, at, size);
      && next >= 0
      && var c := Splice(Splice(b, at, HeaderBytes(next, es[i])), at + NAME, es[i].name);
      && var more := slots + [Slot(at, next)];
      && |c| == size
      && (i + 1 < |es| ==> Filling(c, more, es, from, at + next, size))
      && (i + 1 == |es| ==> Page(c, more, es, from, i + 1))
  {
    hide Holds, HeaderBytes, Splice, Zero, AlignUp8;
    var i := from + |slots|;
    var e, next := es[i], NextOffset(es, i, at, size);
    var whole := AlignUp8(WholeSize(e));
    PlacedHolds(b, at, e, next);
    var c := Splice(Splice(b, at, HeaderBytes(next, e)), at + NAME, e.name);
    var more := slots + [Slot(at, next)];
    KeptBehind(b, c, slots, es, from, at);
    assert AllHold(c, more, es, from);
    if i + 1 < |es| {
      ZeroFurther(c, at + whole, at + next);
      ChainedNext(slots, es, from, at, next);
      AlignedSum(at, whole);
    } else {
      PageComplete(c, slots, es, from, at);
    }
  }

  lemma AlignedSum(at: nat, whole: nat)
    ensures at % 8 == 0 && whole % 8 == 0 ==> (at + whole) % 8 == 0
  {
  }

  lemma ZeroFurther(b: seq<byte>, from: nat, later: nat)
    requires Zero(b, from) && (from <= later || later >= |b|)
    ensures Zero(b, later)
  {
  }

  lemma KeptBehind(b: seq<byte>, c: seq<byte>, slots: seq<Slot>, es: seq<Entry>, from: nat, at: nat)
    requires Chained(slots, es, from, at) && AllHold(b, slots, es, from) && at <= |b| == |c| && c[..at] == b[..at]
    ensures AllHold(c, slots, es, from)
  {
    hide Holds;
    forall i | 0 <= i < |slots| ensures Holds(c, slots[i].at, es[from + i], slots[i].next) {
      ChainedEnds(slots, es, from, at, i);
      HoldsKept(b, c, slots[i].at, es[from + i], slots[i].next, at);
    }
  }

  lemma ChainedNext(slots: seq<Slot>, es: seq<Entry>, from: nat, at: nat, next: nat)
    requires Chained(slots, es, from, at) && from + |slots| < |es|
    requires next >= WholeSize(es[from + |slots|]) && next >= HEADER
    ensures Chained(slots + [Slot(at, next)], es, from, at + next)
  {
  }

  lemma PageComplete(b: seq<byte>, slots: seq<Slot>, es: seq<Entry>, from: nat, at: nat)
    requires Chained(slots, es, from, at) && from + |slots| + 1 == |es| && at <= |b|
    requires AllHold(b, slots + [Slot(at, 0)], es, from)
    ensures Page(b, slots + [Slot(at, 0)], es, from, |es|)
  {
    hide Holds;
    forall i | 0 <= i < |slots| ensures slots[i].at + slots[i].next <= |b| { ChainedEnds(slots, es, from, at, i); }
  }

  lemma PageFull(b: seq<byte>, slots: seq<Slot>, es: seq<Entry>, from: nat)
    requires Filling(b, slots, es, from, |b|, |b|) && slots != []
    ensures Page(b, slots, es, from, from + |slots|)
  {
    hide Holds;
    forall i | 0 <= i < |slots| ensures slots[i].at + slots[i].next <= |b| { ChainedEnds(slots, es, from, |b|, i); }
  }

  /** Where entry i goes if the page starts with entry `from`: behind the others, each of 17 bytes, a name and a
      terminator, rounded up to 8 bytes. */
  ghost function Laid(es: seq<Entry>, from: nat, i: nat): (at: nat)
    requires i <= |es|
    decreases i
  {
    if i <= from then 0 else Laid(es, from, i - 1) + (17 + |es[i - 1].name| + 1 + 7) / 8 * 8
  }

  /** Entry i fits a page that starts with entry `from`. */
  ghost predicate Fits(es: seq<Entry>, from: nat, i: nat, size: nat)
    requires i < |es|
  {
    Laid(es, from, i) + 17 + |es[i].name| + 1 <= size
  }

  /** The next entry goes where it is laid, or the page ended before it because it does not fit. */
  ghost predicate Reached(es: seq<Entry>, from: nat, i: nat, at: nat, size: nat)
    requires i < |es|
  {
    at == Laid(es, from, i) || (at == size && !Fits(es, from, i, size))
  }

  /** The slots hold entries that fit, where they are laid, and the page goes on with entry i at `at`. */
  ghost predicate Laying(es: seq<Entry>, from: nat, slots: seq<Slot>, i: nat, at: nat, size: nat) {
    Placed(es, from, slots, i, size) && (i < |es| ==> Reached(es, from, i, at, size))
  }

  ghost predicate Placed(es: seq<Entry>, from: nat, slots: seq<Slot>, i: nat, size: nat) {
    && i == from + |slots| <= |es|
    && forall k :: 0 <= k < |slots| ==>
         slots[k].at == Laid(es, from, from + k) && Fits(es, from, from + k, size)
  }

  /** A page takes all that fit: it ends with the directory or before the first entry that does not. */
  ghost predicate TakesAll(es: seq<Entry>, from: nat, slots: seq<Slot>, end: nat, size: nat) {
    Placed(es, from, slots, end, size) && (end < |es| ==> !Fits(es, from, end, size))
  }

  lemma LaidNext(es: seq<Entry>, from: nat, i: nat, at: nat, size: nat)
    requires from <= i < |es| && Reached(es, from, i, at, size)
    ensures at + WholeSize(es[i]) <= size <==> Fits(es, from, i, size)
    ensures at + WholeSize(es[i]) <= size ==>
      && at == Laid(es, from, i)
      && (i + 1 < |es| ==>
            var next := NextOffset(es, i, at, size); next >= 0 && Reached(es, from, i + 1, at + next, size))
  {
  }

  lemma LayingStarts(es: seq<Entry>, from: nat, size: nat)
    requires from <= |es|
    ensures Laying(es, from, [], from, 0, size)
  {
  }

  lemma LayingNext(es: seq<Entry>, from: nat, slots: seq<Slot>, i: nat, at: nat, size: nat)
    requires Laying(es, from, slots, i, at, size) && i < |es|
    ensures at + WholeSize(es[i]) > size ==> TakesAll(es, from, slots, i, size)
    ensures at + WholeSize(es[i]) <= size ==>
      var next := NextOffset(es, i, at, size);
      next >= 0 && Laying(es, from, slots + [Slot(at, next)], i + 1, at + next, size)
  {
    hide Reached, NextOffset;
    LaidNext(es, from, i, at, size);
    NextAtEnd(es, i, at, size);
    if at + WholeSize(es[i]) <= size {
      PlacedNext(es, from, slots, i, at, NextOffset(es, i, at, size), size);
    }
  }

  lemma PlacedNext(es: seq<Entry>, from: nat, slots: seq<Slot>, i: nat, at: nat, next: nat, size: nat)
    requires Placed(es, from, slots, i, size) && i < |es| && at == Laid(es, from, i) && Fits(es, from, i, size)
    ensures Placed(es, from, slots + [Slot(at, next)], i + 1, size)
  {
  }

  lemma NextAtEnd(es: seq<Entry>, i: nat, at: nat, size: nat)
    requires i < |es|
    ensures i + 1 == |es| ==> NextOffset(es, i, at, size) == 0
  {
  }

  lemma LayingEnds(es: seq<Entry>, from: nat, slots: seq<Slot>, i: nat, at: nat, size: nat)
    requires Laying(es, from, slots, i, at, size)
    ensures i >= |es| ==> TakesAll(es, from, slots, i, size)
  {
  }

  /** The system call: fills the caller's buffer from entry `offset` on and returns the first entry left out: the first
      that does not fit behind the others.  A buffer of a multiple of eight bytes is never too short for an item's
      header. */
  method GetDirectoryEntries(es: seq<Entry>, offset: nat, size: nat)
    returns (r: Result<nat, Error>, b: seq<byte>, ghost slots: seq<Slot>)
    requires Listable(es) && size < 0x1_0000_0000_0000_0000
    ensures size % 8 == 0 ==> r.Ok?
    ensures |b| == size
    ensures r.Ok? && r.value != offset ==> Page(b, slots, es, offset, r.value)
    ensures r.Ok? && r.value == offset ==> Zero(b, 0)
    ensures r.Ok? ==> (r.value == offset <==> offset >= |es| || WholeSize(es[offset]) > size)
    ensures r.Ok? && offset <= |es| ==> TakesAll(es, offset, slots, r.value, size)
  {
    hide Holds, HeaderBytes, Splice, Zero, AlignUp8, Listable, Laying, TakesAll;
    b := seq(size, i => 0);
    ZeroCleared(b);
    slots := [];
    if offset <= |es| {
      LayingStarts(es, offset, size);
    }
    var at: nat, i: nat := 0, offset;
    while i < |es|
      invariant |b| == size
      invariant offset < |es| ==> i == offset + |slots| <= |es|
      invariant offset >= |es| ==> slots == [] && i == offset
      invariant slots == [] ==> Zero(b, 0) && at == 0
      invariant i < |es| ==> Filling(b, slots, es, offset, at, size)
      invariant i == |es| && slots != [] ==> Page(b, slots, es, offset, i)
      invariant slots != [] ==> WholeSize(es[offset]) <= size
      invariant offset <= |es| ==> Laying(es, offset, slots, i, at, size)
      decreases |es| - i
    {
      LayingNext(es, offset, slots, i, at, size);
      if at + WholeSize(es[i]) > size {
        if slots != [] { PageFull(b, slots, es, offset); }
        return Ok(i), b, slots;
      }
      var next := NextOffset(es, i, at, size);
      if at + HEADER > size {
        HeaderFits(at, WholeSize(es[i]), size);
        return Err(EInval), b, slots;
      }
      FillNext(b, slots, es, offset, at, size);
      b := Splice(b, at, HeaderBytes(next, es[i]));
      b := Splice(b, at + NAME, es[i].name);
      slots := slots + [Slot(at, next)];
      at := at + next;
      i := i + 1;
    }
    if offset <= |es| {
      LayingEnds(es, offset, slots, i, at, size);
    }
    return Ok(i), b, slots;
  }

  lemma ZeroCleared(b: seq<byte>)
    requires forall i :: 0 <= i < |b| ==> b[i] == 0
    ensures Zero(b, 0)
  {
  }

  lemma HeaderFits(at: nat, whole: nat, size: nat)
    ensures at + whole <= size && whole >= 18 && size % 8 == 0 && at % 8 == 0 ==> at + HEADER <= size
  {
  }
}
