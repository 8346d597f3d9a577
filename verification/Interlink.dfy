/** Interlink messages: a message travels as a buffer that starts with a header and a table of payload items
    and, between the two ends, as one queue entry per item with its bytes in a ring. */
module InterlinkWire {
  import opened Words

  const HEADER := 16
  const ITEM := 32
  const DATA := 0

  /** A message of data items: what it means, apart from any buffer. */
  datatype Message = Message(id: nat, payloads: seq<seq<byte>>)

  function ItemAt(i: nat): (at: nat)
    ensures at == HEADER + i * ITEM
  {
    HEADER + i * ITEM
  }

  function Count(b: seq<byte>): (n: nat)
    requires HEADER <= |b|
  {
    U32(b, 8)
  }

  function Offset(b: seq<byte>, i: nat): (v: nat)
    requires ItemAt(i) + ITEM <= |b|
  {
    U64(b, ItemAt(i) + 8)
  }

  function Length(b: seq<byte>, i: nat): (v: nat)
    requires ItemAt(i) + ITEM <= |b|
  {
    U64(b, ItemAt(i) + 16)
  }

  /** Payload item i lies in the buffer and passes the bounds test of a send. */
  predicate ItemAccepted(b: seq<byte>, i: nat) {
    ItemAt(i) + ITEM <= |b| && Offset(b, i) < |b| && Length(b, i) + Offset(b, i) <= |b|
  }

  /** The tests a send makes before it looks at the ring. */
  predicate Acceptable(b: seq<byte>) {
    && HEADER <= |b| && U64(b, 0) <= |b| && Count(b) * ITEM <= |b|
    && forall i :: 0 <= i < Count(b) ==> ItemAccepted(b, i)
  }

  /** Every payload item that lies in the buffer is a data item. */
  predicate DataOnly(b: seq<byte>) {
    forall i :: HEADER <= |b| && 0 <= i < Count(b) && ItemAt(i) + ITEM <= |b| ==> U32(b, ItemAt(i)) == DATA
  }

  function Payload(b: seq<byte>, i: nat): (s: seq<byte>)
    requires ItemAccepted(b, i)
    ensures |s| == Length(b, i)
  {
    b[Offset(b, i)..Offset(b, i) + Length(b, i)]
  }

  function MessageIn(b: seq<byte>): (m: Message)
    requires Acceptable(b)
    ensures |m.payloads| == Count(b) && m.id == U32(b, 12)
    ensures forall i :: 0 <= i < Count(b) ==> m.payloads[i] == Payload(b, i)
  {
    Message(U32(b, 12), seq(Count(b), i requires 0 <= i < Count(b) => Payload(b, i)))
  }

  /** What a reader of the buffer finds in it: the number of items at byte 8, the identifier at byte 12 and, from
      byte 16 on, 32 bytes for each item. */
  ghost predicate Describes(b: seq<byte>, m: Message) {
    && 16 <= |b| && U32(b, 8) == |m.payloads| && U32(b, 12) == m.id
    && forall i :: 0 <= i < |m.payloads| ==> ItemDescribes(b, i, m.payloads[i])
  }

  /** The entry of an item: its kind, 0 for data, and at bytes 8 and 16 where its bytes lie and how many they are. */
  ghost predicate ItemDescribes(b: seq<byte>, i: nat, payload: seq<byte>) {
    && 16 + 32 * i + 32 <= |b| && U32(b, 16 + 32 * i) == 0
    && U64(b, 16 + 32 * i + 16) == |payload|
    && var at := U64(b, 16 + 32 * i + 8); at + |payload| <= |b| && b[at..at + |payload|] == payload
  }

  /** The data of the items follows the table, item after item. */
  ghost predicate Packed(b: seq<byte>, m: Message) {
    forall i :: 0 <= i < |m.payloads| ==>
      16 + 32 * i + 32 <= |b| &&
      U64(b, 16 + 32 * i + 8) == 16 + 32 * |m.payloads| + |Concat(m.payloads[..i])|
  }

  /** A buffer describes at most one message, */
  lemma DescribesOne(b: seq<byte>, m: Message, n: Message)
    requires Describes(b, m) && Describes(b, n)
    ensures m == n
  {
    forall i | 0 <= i < |m.payloads| ensures m.payloads[i] == n.payloads[i] {
      assert ItemDescribes(b, i, m.payloads[i]) && ItemDescribes(b, i, n.payloads[i]);
    }
    assert m.payloads == n.payloads;
  }

  /** and one that a send accepts describes the message it is taken for. */
  lemma AcceptedDescribes(b: seq<byte>)
    requires Acceptable(b) && DataOnly(b)
    ensures Describes(b, MessageIn(b))
  {
    var m := MessageIn(b);
    forall i | 0 <= i < |m.payloads| ensures ItemDescribes(b, i, m.payloads[i]) {
      assert ItemAccepted(b, i);
    }
  }

  /** A buffer of data items is accepted exactly when it describes a message, does not claim to be longer than it is,
      and no item starts at its end or behind it. */
  lemma AcceptedExactly(b: seq<byte>)
    requires DataOnly(b)
    ensures Acceptable(b) <==>
      && (exists m :: Describes(b, m)) && U64(b, 0) <= |b|
      && forall i :: 0 <= i < U32(b, 8) ==> ItemStarts(b, i)
  {
    hide FromBytes;
    if Acceptable(b) {
      AcceptedDescribes(b);
      forall i | 0 <= i < U32(b, 8) ensures ItemStarts(b, i) {
        assert ItemAccepted(b, i);
      }
    }
    if (exists m :: Describes(b, m)) && U64(b, 0) <= |b| && forall i :: 0 <= i < U32(b, 8) ==> ItemStarts(b, i) {
      var m :| Describes(b, m);
      forall i | 0 <= i < Count(b) ensures ItemAccepted(b, i) {
        assert ItemDescribes(b, i, m.payloads[i]) && ItemStarts(b, i);
      }
      if |m.payloads| > 0 {
        assert ItemDescribes(b, |m.payloads| - 1, m.payloads[|m.payloads| - 1]);
      }
    }
  }

  ghost predicate ItemStarts(b: seq<byte>, i: nat) {
    16 + 32 * i + 32 <= |b| && U64(b, 16 + 32 * i + 8) < |b|
  }

  // ----- The buffer a receive fills ---------------------------------------------------------------------

  function Concat(ps: seq<seq<byte>>): (s: seq<byte>) {
    if ps == [] then [] else Concat(ps[..|ps| - 1]) + ps[|ps| - 1]
  }

  lemma ConcatNext(ps: seq<seq<byte>>, i: nat)
    requires i < |ps|
    ensures Concat(ps[..i + 1]) == Concat(ps[..i]) + ps[i]
  {
    assert ps[..i + 1][..i] == ps[..i];
  }

  lemma {:induction false} ConcatPrefix(ps: seq<seq<byte>>, i: nat)
    requires i <= |ps|
    ensures |Concat(ps[..i])| <= |Concat(ps)| && Concat(ps)[..|Concat(ps[..i])|] == Concat(ps[..i])
    decreases |ps| - i
  {
    if i == |ps| { assert ps[..i] == ps; } else {
      ConcatPrefix(ps, i + 1);
      ConcatNext(ps, i);
    }
  }

  /** Where the data starts, and how much room a receive asks for. */
  function DataStart(n: nat): (at: nat) { HEADER + n * ITEM }

  function Required(m: Message): (n: nat) { DataStart(|m.payloads|) + |Concat(m.payloads)| }

  function HeaderBytes(total: nat, count: nat, id: nat): (s: seq<byte>)
    ensures |s| == HEADER
  {
    ToBytes(total, 8) + ToBytes(count, 4) + ToBytes(id, 4)
  }

  function ItemBytes(offset: nat, length: nat): (s: seq<byte>)
    ensures |s| == ITEM
  {
    ToBytes(DATA, 8) + ToBytes(offset, 8) + ToBytes(length, 8) + ToBytes(0, 8)
  }

  /** Numbers that fit their fields. */
  ghost predicate Representable(m: Message) {
    m.id < 0x1_0000_0000 && |m.payloads| < 0x1_0000_0000 && Required(m) < 0x1_0000_0000_0000_0000
  }

  /** A buffer filled for the first i items of m. */
  ghost predicate FilledTo(b: seq<byte>, m: Message, i: nat, was: seq<byte>)
    requires i <= |m.payloads|
  {
    var start, end := DataStart(|m.payloads|), DataStart(|m.payloads|) + |Concat(m.payloads[..i])|;
    && |b| == |was| && Required(m) <= |b| && end <= |b|
    && b[..HEADER] == HeaderBytes(Required(m), |m.payloads|, m.id)
    && (forall k :: 0 <= k < i ==> ItemFilled(b, m, k))
    && b[start..end] == Concat(m.payloads[..i])
    && b[end..] == was[end..]
  }

  ghost predicate ItemFilled(b: seq<byte>, m: Message, k: nat)
    requires k < |m.payloads|
  {
    && ItemAt(k) + ITEM <= |b|
    && b[ItemAt(k)..ItemAt(k) + ITEM] ==
       ItemBytes(DataStart(|m.payloads|) + |Concat(m.payloads[..k])|, |m.payloads[k]|)
  }

  lemma ItemsApart(i: nat, k: nat, n: nat)
    requires i < n && k < n
    ensures ItemAt(i) + ITEM <= DataStart(n)
    ensures i < k ==> ItemAt(i) + ITEM <= ItemAt(k)
  {
  }

  lemma EarlierItem(b: seq<byte>, m: Message, i: nat, k: nat, at: nat, entry: seq<byte>)
    requires k < i < |m.payloads| && DataStart(|m.payloads|) <= at && at + |m.payloads[i]| <= |b|
    requires |entry| == ITEM && ItemFilled(b, m, k)
    ensures ItemAt(i) + ITEM <= |b|
    ensures ItemFilled(Splice(Splice(b, at, m.payloads[i]), ItemAt(i), entry), m, k)
  {
    hide Splice, ItemBytes, Concat;
    ItemsApart(k, i, |m.payloads|);
    ItemsApart(i, i, |m.payloads|);
    SpliceElsewhere(b, at, m.payloads[i], ItemAt(k), ItemAt(k) + ITEM);
    SpliceElsewhere(Splice(b, at, m.payloads[i]), ItemAt(i), entry, ItemAt(k), ItemAt(k) + ITEM);
  }

  /** The data written so far, and what lies behind it, once the bytes of item i and its entry are written. */
  lemma DataNext(b: seq<byte>, was: seq<byte>, start: nat, at: nat, payload: seq<byte>, entryAt: nat,
                 entry: seq<byte>)
    requires HEADER <= entryAt && entryAt + |entry| <= start <= at && at + |payload| <= |b| == |was|
    requires b[at..] == was[at..]
    ensures var d := Splice(Splice(b, at, payload), entryAt, entry);
      && d[..HEADER] == b[..HEADER] && d[start..at + |payload|] == b[start..at] + payload
      && d[entryAt..entryAt + |entry|] == entry && d[at + |payload|..] == was[at + |payload|..]
  {
    hide Splice;
    var c, end := Splice(b, at, payload), at + |payload|;
    SpliceAt(b, at, payload);
    SpliceAt(c, entryAt, entry);
    SpliceElsewhere(b, at, payload, 0, HEADER);
    SpliceElsewhere(c, entryAt, entry, 0, HEADER);
    SpliceElsewhere(b, at, payload, start, at);
    SpliceElsewhere(c, entryAt, entry, start, end);
    SpliceElsewhere(c, entryAt, entry, end, |b|);
    assert c[start..end] == c[start..at] + c[at..end];
    assert b[at..][|payload|..] == b[end..] && was[at..][|payload|..] == was[end..];
  }

  /** Writing item i's bytes after the others, and its entry into the table, fills one item more. */
  lemma FillNext(b: seq<byte>, m: Message, i: nat, was: seq<byte>)
    requires i < |m.payloads| && FilledTo(b, m, i, was)
    requires Required(m) <= |b|
    ensures var at := DataStart(|m.payloads|) + |Concat(m.payloads[..i])|;
      && at + |m.payloads[i]| <= |b| && ItemAt(i) + ITEM <= |b|
      && FilledTo(Splice(Splice(b, at, m.payloads[i]), ItemAt(i), ItemBytes(at, |m.payloads[i]|)), m, i + 1, was)
  {
    hide Splice, ItemBytes, HeaderBytes, Concat;
    var n := |m.payloads|;
    var start, payload := DataStart(n), m.payloads[i];
    var at := start + |Concat(m.payloads[..i])|;
    ConcatNext(m.payloads, i);
    ConcatPrefix(m.payloads, i + 1);
    ItemsApart(i, i, n);
    var entry := ItemBytes(at, |payload|);
    var d := Splice(Splice(b, at, payload), ItemAt(i), entry);
    DataNext(b, was, start, at, payload, ItemAt(i), entry);
    forall k | 0 <= k < i + 1 ensures ItemFilled(d, m, k) {
      if k < i {
        assert ItemFilled(b, m, k);
        EarlierItem(b, m, i, k, at, entry);
      }
    }
  }

  /** A buffer filled for all of m describes m, its data packed behind the table, says how long it is, and is the old
      one after that. */
  lemma FilledDescribes(b: seq<byte>, m: Message, was: seq<byte>)
    requires Representable(m) && FilledTo(b, m, |m.payloads|, was)
    ensures Describes(b, m) && U64(b, 0) == Required(m) && b[Required(m)..] == was[Required(m)..]
    ensures Packed(b, m)
  {
    var n := |m.payloads|;
    assert m.payloads[..n] == m.payloads;
    WordSizes();
    var h := HeaderBytes(Required(m), n, m.id);
    assert b[0..HEADER] == h;
    Field(b, 0, h, 0, 8, Required(m));
    Field(b, 0, h, 8, 4, n);
    Field(b, 0, h, 12, 4, m.id);
    forall i | 0 <= i < n
      ensures ItemDescribes(b, i, m.payloads[i])
      ensures U64(b, 16 + 32 * i + 8) == 16 + 32 * n + |Concat(m.payloads[..i])|
    {
      assert ItemFilled(b, m, i);
      FilledItemDescribes(b, m, i, was);
    }
  }

  lemma FilledItemDescribes(b: seq<byte>, m: Message, i: nat, was: seq<byte>)
    requires Representable(m) && i < |m.payloads| && FilledTo(b, m, |m.payloads|, was) && ItemFilled(b, m, i)
    ensures ItemDescribes(b, i, m.payloads[i])
    ensures U64(b, 16 + 32 * i + 8) == 16 + 32 * |m.payloads| + |Concat(m.payloads[..i])|
  {
    hide ItemBytes, HeaderBytes, Concat, ToBytes, FromBytes, Pow256;
    var n := |m.payloads|;
    assert m.payloads[..n] == m.payloads;
    WordSizes();
    ConcatNext(m.payloads, i);
    ConcatPrefix(m.payloads, i);
    ConcatPrefix(m.payloads, i + 1);
    var before := |Concat(m.payloads[..i])|;
    var offset, length := DataStart(n) + before, |m.payloads[i]|;
    var entry := ItemBytes(offset, length);
    DataEntry(offset, length);
    Field(b, ItemAt(i), entry, 0, 4, DATA);
    Field(b, ItemAt(i), entry, 8, 8, offset);
    Field(b, ItemAt(i), entry, 16, 8, length);
    var all := Concat(m.payloads);
    SubSlice(b, DataStart(n), |all|, before, length);
    assert all[..before + length] == all[..before] + m.payloads[i];
    assert all[before..before + length] == all[..before + length][before..];
  }

  lemma DataEntry(offset: nat, length: nat)
    ensures ItemBytes(offset, length)[0..4] == ToBytes(DATA, 4)
    ensures ItemBytes(offset, length)[8..16] == ToBytes(offset, 8)
    ensures ItemBytes(offset, length)[16..24] == ToBytes(length, 8)
  {
    assert ToBytes(0, 8)[..4] == ToBytes(0, 4) by {
      assert ToBytes(0, 2) == [0, 0];
      assert ToBytes(0, 4) == [0, 0, 0, 0];
      assert ToBytes(0, 6) == [0, 0, 0, 0, 0, 0];
      assert ToBytes(0, 8) == [0, 0, 0, 0, 0, 0, 0, 0];
    }
  }

  // ----- The buffer a sender may build --------------------------------------------------------------------

  /** A buffer that describes a message of items that are not empty is accepted, and taken for that message. */
  lemma DescribedAccepted(b: seq<byte>, m: Message)
    requires Describes(b, m) && U64(b, 0) <= |b| && forall i :: 0 <= i < |m.payloads| ==> m.payloads[i] != []
    ensures Acceptable(b) && DataOnly(b) && MessageIn(b) == m
  {
    hide FromBytes;
    var n := |m.payloads|;
    forall i | 0 <= i < n ensures ItemAccepted(b, i) && U32(b, ItemAt(i)) == DATA && Payload(b, i) == m.payloads[i] {
      assert ItemDescribes(b, i, m.payloads[i]);
    }
    if n > 0 {
      assert ItemAccepted(b, n - 1);
    }
    assert MessageIn(b).payloads == m.payloads;
  }

  /** Header, one table entry, and the bytes of the one item. */
  function OneItem(id: nat, data: seq<byte>): (b: seq<byte>)
    ensures |b| == DataStart(1) + |data|
  {
    HeaderBytes(DataStart(1) + |data|, 1, id) + ItemBytes(DataStart(1), |data|) + data
  }

  lemma OneItemAccepted(id: nat, data: seq<byte>)
    requires id < 0x1_0000_0000 && data != [] && DataStart(1) + |data| < 0x1_0000_0000_0000_0000
    ensures var b := OneItem(id, data);
      Acceptable(b) && DataOnly(b) && MessageIn(b) == Message(id, [data])
  {
    hide HeaderBytes, ItemBytes, Describes, Acceptable, DataOnly;
    var b, m := OneItem(id, data), Message(id, [data]);
    assert Concat([data]) == data && Concat([]) == [] by {
      assert [data][..0] == [];
    }
    assert m.payloads[..0] == [] && m.payloads[..1] == m.payloads;
    assert ItemFilled(b, m, 0);
    FilledDescribes(b, m, b);
    DescribedAccepted(b, m);
  }
}
