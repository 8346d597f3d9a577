/** Directory listings as userspace reads them back. */
module DirectoryStreams {
  import opened Words
  import opened DirectoryPages

  const LONGEST_LAST_NAME := 1024

  /** The length of a string up to a terminator or a limit. */
  function StrLen(b: seq<byte>, at: nat, limit: nat): (n: nat)
    requires at <= |b|
    ensures n <= limit && at + n <= |b|
    decreases limit
  {
    if limit == 0 || at == |b| || b[at] == 0 then 0 else 1 + StrLen(b, at + 1, limit - 1)
  }

  lemma {:induction false} StrLenIs(b: seq<byte>, at: nat, name: seq<byte>, limit: nat)
    requires at + |name| < |b| && b[at..at + |name|] == name && 0 !in name && b[at + |name|] == 0
    ensures StrLen(b, at, limit) == if |name| < limit then |name| else limit
    decreases limit
  {
    if limit > 0 && name != [] {
      assert b[at] == name[0] && name[0] in name;
      assert b[at + 1..at + 1 + |name[1..]|] == name[1..];
      StrLenIs(b, at + 1, name[1..], limit - 1);
    }
  }

  /** The entry userspace makes of the item at `at`. */
  function ReadItem(b: seq<byte>, at: nat): (e: Entry)
    requires at + HEADER <= |b|
  {
    var next := U64(b, at);
    var limit := if next == 0 then LONGEST_LAST_NAME else if next >= NAME then next - NAME else 0;
    Entry(b[at + NAME..at + NAME + StrLen(b, at + NAME, limit)], U64(b, at + 8), b[at + 16] != 0)
  }

  function Cut(name: seq<byte>, n: nat): (r: seq<byte>) { if |name| <= n then name else name[..n] }

  /** What is read back of entry i: itself, but for the last one's name, which is cut. */
  function Seen(es: seq<Entry>, i: nat): (e: Entry)
    requires i < |es|
  {
    if i + 1 == |es| then es[i].(name := Cut(es[i].name, LONGEST_LAST_NAME)) else es[i]
  }

  lemma ReadHeld(b: seq<byte>, at: nat, e: Entry, next: nat)
    requires Holds(b, at, e, next) && EntryListable(e) && (next == 0 || next >= WholeSize(e))
    ensures ReadItem(b, at) == if next == 0 then e.(name := Cut(e.name, LONGEST_LAST_NAME)) else e
  {
    hide EntryListable, FromBytes;
    NameListable(e);
    var limit := if next == 0 then LONGEST_LAST_NAME else next - NAME;
    StrLenIs(b, at + NAME, e.name, limit);
    var n := StrLen(b, at + NAME, limit);
    assert b[at + NAME..at + NAME + n] == b[at + NAME..at + NAME + |e.name|][..n];
    assert n == |e.name| ==> e.name[..n] == e.name;
  }

  lemma NameListable(e: Entry)
    requires EntryListable(e)
    ensures 0 !in e.name
  {
  }

  /** Reading any slot of a page gives back its entry. */
  lemma ReadSlot(b: seq<byte>, slots: seq<Slot>, es: seq<Entry>, from: nat, to: nat, k: nat)
    requires Listable(es) && Page(b, slots, es, from, to) && k < |slots|
    ensures slots[k].at + HEADER <= |b| && U64(b, slots[k].at) == slots[k].next
    ensures ReadItem(b, slots[k].at) == Seen(es, from + k)
    ensures slots[k].next == 0 <==> from + k + 1 == |es|
    ensures slots[k].next > 0 ==> (slots[k].at + slots[k].next >= |b| <==> k + 1 == |slots|)
    ensures k + 1 < |slots| ==> slots[k].at + slots[k].next == slots[k + 1].at
  {
    hide ReadItem, U64;
    var s, e := slots[k], es[from + k];
    assert Holds(b, s.at, e, s.next) && EntryListable(e);
    if k + 1 < |slots| { assert Holds(b, slots[k + 1].at, es[from + k + 1], slots[k + 1].next); }
    ReadHeld(b, s.at, e, s.next);
  }

  /** Every entry fits a page by itself. */
  ghost predicate EachFits(es: seq<Entry>, size: nat) {
    forall i :: 0 <= i < |es| ==> WholeSize(es[i]) <= size
  }

  /** The first entry from i on that does not fit a page by itself. */
  function Reach(es: seq<Entry>, size: nat, i: nat): (n: nat)
    requires i <= |es|
    ensures i <= n <= |es| && (n < |es| ==> WholeSize(es[n]) > size)
    ensures forall j :: i <= j < n ==> WholeSize(es[j]) <= size
    decreases |es| - i
  {
    if i == |es| || WholeSize(es[i]) > size then i else Reach(es, size, i + 1)
  }

  /** What userspace makes of a cleared page. */
  const NOTHING := Entry([], 0, false)

  /** What iterating over a stream yields: the entries up to the first that does not fit, and then, or if there are
      none at all, one that does not exist. */
  ghost function AllSeen(es: seq<Entry>, size: nat): (r: seq<Entry>)
    ensures var n := Reach(es, size, 0);
      && |r| == (if n < |es| || n == 0 then n + 1 else n) && (|r| > n ==> r[n] == NOTHING)
      && forall i :: 0 <= i < n ==> r[i] == Seen(es, i)
  {
    var n := Reach(es, size, 0);
    seq(n, i requires 0 <= i < n => Seen(es, i)) + if n < |es| || n == 0 then [NOTHING] else []
  }

  /** A page of a stream that got as far as its first entry holds entries that fit only. */
  lemma PageReach(b: seq<byte>, slots: seq<Slot>, es: seq<Entry>, from: nat, to: nat)
    requires Page(b, slots, es, from, to) && from <= Reach(es, |b|, 0)
    ensures to <= Reach(es, |b|, 0)
  {
    hide Reach;
    forall i | from <= i < to ensures WholeSize(es[i]) <= |b| {
      assert Holds(b, slots[i - from].at, es[from + (i - from)], slots[i - from].next);
    }
  }

  /** A stream over a directory that does not change. */
  class DirectoryStream {
    const es: seq<Entry>
    const size: nat
    var buffer: seq<byte>
    var offsetInBuffer: nat
    var nextOsOffset: nat
    ghost var slots: seq<Slot>
    ghost var from: nat
    ghost var k: nat

    ghost predicate Suitable() {
      Listable(es) && HEADER <= size < 0x1_0000_0000_0000_0000 && size % 8 == 0
    }

    /** The stream stands on entry `from + k`, or on a cleared page with no slots in place of the entry `from`. */
    ghost predicate Valid()
      reads this
    {
      && Suitable() && |buffer| == size
      && if slots == [] then
           Zero(buffer, 0) && offsetInBuffer == 0 && k == 0 && from == Reach(es, size, 0) && (from < |es| || from == 0)
         else
           && Page(buffer, slots, es, from, nextOsOffset) && nextOsOffset <= Reach(es, size, 0)
           && k < |slots| && offsetInBuffer == slots[k].at
    }

    ghost function Position(): (i: nat)
      reads this
    {
      from + k
    }

    constructor (es: seq<Entry>, size: nat)
      requires Listable(es) && HEADER <= size < 0x1_0000_0000_0000_0000 && size % 8 == 0
      ensures this.es == es && this.size == size && Valid() && Position() == 0
    {
      hide Page, Listable;
      this.es, this.size := es, size;
      var r, b, slots := GetDirectoryEntries(es, 0, size);
      buffer, offsetInBuffer, nextOsOffset := b, 0, r.value;
      this.slots, from, k := if r.value == 0 then [] else slots, 0, 0;
      if r.value != 0 {
        PageBounds(b, slots, es, 0, r.value);
        PageReach(b, slots, es, 0, r.value);
      }
    }

    /** Moves to the next item, fetching the next page when this one is used up; false at the end. */
    method Advance() returns (more: bool)
      requires Valid()
      modifies this
      ensures Valid()
      ensures more <==> old(Position()) + 1 < |AllSeen(es, size)|
      ensures Position() == if more then old(Position()) + 1 else old(Position())
    {
      hide Page, Listable, ReadItem, U64, Zero, Reach, Seen;
      Distance();
      var next := U64(buffer, offsetInBuffer);
      if next == 0 { return false; }
      if offsetInBuffer + next >= |buffer| {
        var r, b, fetched := GetDirectoryEntries(es, nextOsOffset, |buffer|);
        ghost var listed := r.value != nextOsOffset;
        if listed {
          PageBounds(b, fetched, es, nextOsOffset, r.value);
          PageReach(b, fetched, es, nextOsOffset, r.value);
        }
        from, slots, k := nextOsOffset, if listed then fetched else [], 0;
        buffer, nextOsOffset, offsetInBuffer := b, r.value, 0;
      } else {
        offsetInBuffer := offsetInBuffer + next;
        k := k + 1;
      }
      return true;
    }

    /** What the distance in the item stood on says. */
    lemma Distance()
      requires Valid()
      ensures offsetInBuffer + HEADER <= |buffer| && Position() < |AllSeen(es, size)|
      ensures var next := U64(buffer, offsetInBuffer);
        && (next == 0 <==> Position() + 1 == |AllSeen(es, size)|)
        && (next != 0 ==> slots != [] && from < nextOsOffset <= |es| && |slots| == nextOsOffset - from)
        && (next != 0 && offsetInBuffer + next >= |buffer| ==> k + 1 == |slots| && nextOsOffset < |es|)
        && (next != 0 && offsetInBuffer + next < |buffer| ==>
              k + 1 < |slots| && offsetInBuffer + next == slots[k + 1].at)
    {
      hide Page, Listable, ReadItem, Reach, Seen;
      if slots == [] {
        ZeroWord(buffer[0..8]);
      } else {
        ReadSlot(buffer, slots, es, from, nextOsOffset, k);
        PageBounds(buffer, slots, es, from, nextOsOffset);
      }
    }

    method Current() returns (e: Entry)
      requires Valid()
      ensures Position() < |AllSeen(es, size)| && e == AllSeen(es, size)[Position()]
    {
      hide ReadItem, U64, Reach, Page;
      Distance();
      if slots == [] {
        BlankItem(buffer);
      } else {
        ReadSlot(buffer, slots, es, from, nextOsOffset, k);
        PageBounds(buffer, slots, es, from, nextOsOffset);
      }
      e := ReadItem(buffer, offsetInBuffer);
    }
  }

  lemma PageBounds(b: seq<byte>, slots: seq<Slot>, es: seq<Entry>, from: nat, to: nat)
    requires Page(b, slots, es, from, to)
    ensures from < to <= |es| && |slots| == to - from && slots[0].at == 0
  {
  }

  lemma BlankItem(b: seq<byte>)
    requires HEADER <= |b| && Zero(b, 0)
    ensures ReadItem(b, 0) == NOTHING
  {
    ZeroWord(b[0..8]);
    ZeroWord(b[8..16]);
  }

  lemma {:induction false} ZeroWord(s: seq<byte>)
    requires forall i :: 0 <= i < |s| ==> s[i] == 0
    ensures FromBytes(s) == 0
  {
    if s != [] { ZeroWord(s[1..]); }
  }

  /** Walks a whole directory: every entry once, in order, up to the first that does not fit the buffer. */
  method Walk(es: seq<Entry>, size: nat) returns (out: seq<Entry>)
    requires Listable(es) && HEADER <= size < 0x1_0000_0000_0000_0000 && size % 8 == 0
    ensures out == AllSeen(es, size)
  {
    hide Page, ReadItem, Listable, AllSeen, Reach;
    var stream := new DirectoryStream(es, size);
    var e := stream.Current();
    out := [e];
    var more := stream.Advance();
    while more
      invariant stream.Valid() && fresh(stream) && stream.es == es && stream.size == size
      invariant |out| == if more then stream.Position() else |AllSeen(es, size)|
      invariant out <= AllSeen(es, size)
      decreases |AllSeen(es, size)| - |out|
    {
      e := stream.Current();
      out := out + [e];
      more := stream.Advance();
    }
  }

  /** The listing reads back exactly unless the directory is empty, an entry does not fit the buffer, or the last
      name is over 1024 bytes long, */
  lemma ExactlyWhen(es: seq<Entry>, size: nat)
    requires HEADER <= size
    ensures AllSeen(es, size) == es <==>
            es != [] && EachFits(es, size) && |es[|es| - 1].name| <= LONGEST_LAST_NAME
  {
    hide Reach;
    var all, n := AllSeen(es, size), Reach(es, size, 0);
    if n == |es| && n > 0 {
      var last := n - 1;
      assert all[last] == Seen(es, last);
      if |es[last].name| <= LONGEST_LAST_NAME {
        assert all == es;
      } else {
        assert |Seen(es, last).name| != |es[last].name|;
      }
    } else if n < |es| {
      assert all[n] == NOTHING && es[n] != NOTHING;
    }
  }

  /** which a buffer rules out for all directories whose entries fit it exactly up to 1042 bytes. */
  lemma NeverCut(size: nat)
    requires HEADER <= size
    ensures (forall es :: es != [] && Listable(es) && EachFits(es, size) ==> AllSeen(es, size) == es) <==> size <= 1042
  {
    hide AllSeen;
    if size <= 1042 {
      forall es | es != [] && Listable(es) && EachFits(es, size) ensures AllSeen(es, size) == es {
        ExactlyWhen(es, size);
        assert WholeSize(es[|es| - 1]) <= size;
      }
    } else {
      var es := [Entry(seq(1025, i => 1), 0, false)];
      assert es != [] && Listable(es) && EachFits(es, size);
      ExactlyWhen(es, size);
    }
  }
}
