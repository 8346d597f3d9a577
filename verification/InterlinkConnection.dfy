/** One direction of a connection, as it is run. */
module InterlinkConnection {
  import opened Words
  import opened Wrappers
  import opened RingBuffers
  import opened InterlinkWire
  import opened InterlinkQueue

  /** Whatever is queued came from a buffer and fits the ring, so its numbers fit their fields. */
  ghost predicate Storable(ms: seq<Message>) {
    forall i :: 0 <= i < |ms| ==> ms[i].id < 0x1_0000_0000 && |ms[i].payloads| < 0x1_0000_0000
  }

  lemma HeadStorable(ms: seq<Message>)
    requires Storable(ms) && ms != [] && |AllBytes(ms)| < 0x1000_0000_0000_0000
    ensures Representable(ms[0])
  {
    assert |Concat(ms[0].payloads)| <= |AllBytes(ms)|;
  }

  lemma AcceptedStorable(b: seq<byte>)
    requires Acceptable(b)
    ensures MessageIn(b).id < 0x1_0000_0000 && |MessageIn(b).payloads| < 0x1_0000_0000
  {
    WordSizes();
    assert |b[8..12]| == 4 && |b[12..16]| == 4;
  }

  /** What a receive learns by scanning the queue for the first final entry. */
  lemma {:induction false} HeadEntry(ms: seq<Message>, i: nat)
    requires Wellformed(ms) && ms != [] && i < |ms[0].payloads|
    ensures i < |AllItems(ms)|
    ensures AllItems(ms)[i] == Item(i + 1 == |ms[0].payloads|, ms[0].id, |ms[0].payloads[i]|)
  {
    assert AllItems(ms)[i] == Items(ms[0])[i];
  }

  class Channel {
    const ring: RingBuffer
    var queue: seq<Item>
    ghost var pending: seq<Message>

    ghost predicate Valid()
      reads this, ring, ring.buffer
    {
      && ring.Valid() && ring.buffer.Length < 0x1000_0000_0000_0000
      && Framed(queue, ring.Contents(), pending) && Storable(pending)
    }

    constructor (size: nat)
      requires 0 < size < 0x1000_0000_0000_0000
      ensures Valid() && pending == [] && fresh(ring) && fresh(ring.buffer) && ring.buffer.Length == size
    {
      ring := new RingBuffer(size);
      queue, pending := [], [];
    }

    /** The first loop of a send: whether the buffer is a message, and the size of its data. */
    method Examine(b: seq<byte>) returns (accepted: bool, total: nat)
      ensures accepted <==> Acceptable(b)
      ensures accepted ==> HEADER <= |b| && total == |Concat(MessageIn(b).payloads)|
    {
      hide U64, U32, FromBytes, Offset, Length, Payload;
      total := 0;
      if |b| < HEADER { return false, 0; }
      if U64(b, 0) > |b| { return false, 0; }
      if Count(b) * ITEM > |b| { return false, 0; }
      ghost var payloads: seq<seq<byte>> := [];
      for i := 0 to Count(b)
        invariant forall k :: 0 <= k < i ==> ItemAccepted(b, k)
        invariant |payloads| == i && forall k :: 0 <= k < i ==> payloads[k] == Payload(b, k)
        invariant total == |Concat(payloads)|
      {
        if ItemAt(i) + ITEM > |b| {
          assert !ItemAccepted(b, i);
          return false, 0;
        }
        total := total + Length(b, i);
        if Offset(b, i) >= |b| || Length(b, i) + Offset(b, i) > |b| {
          assert !ItemAccepted(b, i);
          return false, 0;
        }
        ghost var was := payloads;
        payloads := payloads + [Payload(b, i)];
        assert payloads[..|payloads| - 1] == was;
      }
      accepted := true;
      assert payloads == MessageIn(b).payloads;
    }

    /** One item's bytes into the ring, and its entry into the queue. */
    method EnqueueItem(b: seq<byte>, i: nat)
      requires ring.Valid() && HEADER <= |b| && i < Count(b) && ItemAccepted(b, i)
      requires Length(b, i) <= ring.FreeBytes()
      modifies this`queue, ring`writeIdx, ring.buffer
      ensures ring.Valid() && ring.Contents() == old(ring.Contents()) + Payload(b, i)
      ensures queue == old(queue) + [Item(i + 1 == Count(b), U32(b, 12), |Payload(b, i)|)]
    {
      hide Unread, ItemAccepted;
      var data := Payload(b, i);
      var result, _ := ring.WriteTo(data, false);
      assert data[..|data|] == data;
      queue := queue + [Item(i + 1 == Count(b), U32(b, 12), result.value)];
    }

    /** The second loop of a send. */
    method Enqueue(b: seq<byte>)
      requires ring.Valid() && HEADER <= |b| && Acceptable(b)
      requires |Concat(MessageIn(b).payloads)| <= ring.FreeBytes()
      modifies this`queue, ring`writeIdx, ring.buffer
      ensures ring.Valid() && queue == old(queue) + Items(MessageIn(b))
      ensures ring.Contents() == old(ring.Contents()) + Concat(MessageIn(b).payloads)
    {
      hide Concat, Items, Unread, Acceptable, MessageIn, ItemAccepted;
      ghost var m, start, entries := MessageIn(b), ring.Contents(), queue;
      NothingYet(m, start, entries);
      for i := 0 to Count(b)
        invariant ring.Valid() && queue == entries + Items(m)[..i]
        invariant ring.Contents() == start + Concat(m.payloads[..i])
      {
        ConcatNext(m.payloads, i);
        ConcatPrefix(m.payloads, i + 1);
        NextItem(b, i);
        EnqueueItem(b, i);
        ItemsNext(entries, Items(m), i);
        Regroup(start, Concat(m.payloads[..i]), m.payloads[i]);
      }
      assert m.payloads[..Count(b)] == m.payloads && Items(m)[..Count(b)] == Items(m);
    }

    /** Queues a message if its data fits the free bytes of the ring, whatever is queued already. */
    method Send(b: seq<byte>) returns (r: Result<nat, Error>)
      requires Valid() && DataOnly(b)
      modifies this, ring`writeIdx, ring.buffer
      ensures Valid()
      ensures StepOk(old(pending), ring.buffer.Length, Command.Send(b), Sent(r), pending)
      ensures r == Err(EInval) <==> !Acceptable(b)
      ensures Acceptable(b) ==>
        var total, free := |Concat(MessageIn(b).payloads)|, ring.buffer.Length - 1 - |old(ring.Contents())|;
        && (r == Ok(total) <==> total <= free)
        && (r == Err(EOverflow) <==> total > ring.buffer.Length)
        && (r == Err(EAgain) <==> free < total <= ring.buffer.Length)
      ensures r.Ok? ==> Acceptable(b) && ring.Contents() == old(ring.Contents()) + Concat(MessageIn(b).payloads)
      ensures r.Err? ==> queue == old(queue) && ring.Contents() == old(ring.Contents())
    {
      hide Concat, Items, AllItems, AllBytes, Acceptable, MessageIn, Unread, DataOnly;
      var accepted, total := Examine(b);
      if !accepted { return Err(EInval); }
      if ring.buffer.Length < total { return Err(EOverflow); }
      if ring.FreeBytes() < total { return Err(EAgain); }
      Enqueue(b);
      ghost var m := MessageIn(b);
      AcceptedStorable(b);
      AppendMessage(pending, m);
      NoItems(m);
      if m.payloads != [] { pending := pending + [m]; }
      return Ok(total);
    }

    /** The first loop of a receive: the entries up to the first final one. */
    method Measure() returns (items: nat, total: nat, id: nat)
      requires Valid() && pending != []
      ensures items == |pending[0].payloads| && total == |Concat(pending[0].payloads)| && id == pending[0].id
    {
      hide Concat, AllItems, AllBytes, Unread;
      items, total, id := 0, 0, 0;
      ghost var payloads := pending[0].payloads;
      NothingYet(pending[0], [], []);
      while items < |queue|
        invariant items < |payloads| && total == |Concat(payloads[..items])|
      {
        HeadEntry(pending, items);
        ConcatNext(payloads, items);
        var entry := queue[items];
        items, total, id := items + 1, total + entry.size, entry.id;
        if entry.final {
          assert payloads[..items] == payloads;
          return;
        }
      }
      HeadEntry(pending, items);
      assert false;
    }

    /** One item out of the queue and its bytes out of the ring. */
    method DequeueItem() returns (data: seq<byte>)
      requires ring.Valid() && queue != [] && queue[0].size <= ring.PendingBytes()
      modifies this`queue, ring`readIdx
      ensures ring.Valid() && queue == old(queue)[1..]
      ensures |data| == old(queue)[0].size && data + ring.Contents() == old(ring.Contents())
    {
      hide Unread;
      var item := queue[0];
      queue := queue[1..];
      var result, _ := ring.ReadTo(item.size, false);
      data := result.value;
    }

    /** The second loop of a receive: fills the caller's buffer item by item. */
    method Dequeue(b: seq<byte>, items: nat, required: nat, id: nat, ghost m: Message, ghost rest: seq<Item>,
                   ghost after: seq<byte>)
      returns (out: seq<byte>, end: nat)
      requires ring.Valid() && Required(m) <= |b| && items == |m.payloads| && id == m.id && required == Required(m)
      requires queue == Items(m) + rest && ring.Contents() == Concat(m.payloads) + after
      modifies this`queue, ring`readIdx
      ensures ring.Valid() && queue == rest && ring.Contents() == after
      ensures end == Required(m) && |out| == |b| && FilledTo(out, m, |m.payloads|, b)
    {
      hide Concat, Items, Unread, FilledTo, ItemFilled, ItemBytes, HeaderBytes, Splice;
      out := Splice(b, 0, HeaderBytes(required, items, id));
      end := DataStart(items);
      FillNone(b, m);
      RemainingAll(m);
      for i := 0 to items
        invariant ring.Valid() && queue == Items(m)[i..] + rest && |out| == |b|
        invariant ring.Contents() == Remaining(m, i) + after
        invariant end == DataStart(items) + |Concat(m.payloads[..i])| && FilledTo(out, m, i, b)
      {
        RemainingNext(m, i, rest, after);
        var data := DequeueItem();
        SameHead(data, m.payloads[i], ring.Contents(), Remaining(m, i + 1) + after);
        FillNext(out, m, i, b);
        ConcatNext(m.payloads, i);
        out := Splice(out, end, data);
        out := Splice(out, ItemAt(i), ItemBytes(end, |data|));
        end := end + |data|;
      }
      RemainingNone(m, rest, after);
      assert m.payloads[..items] == m.payloads;
    }

    /** Takes the first message if the buffer has room for header, table and data. */
    method Receive(b: seq<byte>) returns (r: Result<nat, Error>, out: seq<byte>)
      requires Valid()
      modifies this, ring`readIdx
      ensures Valid()
      ensures StepOk(old(pending), ring.buffer.Length, Command.Receive(b), Received(r, out), pending)
      ensures r == Err(EAgain) <==> old(pending) == []
      ensures old(pending) != [] ==>
        var m := old(pending)[0];
        var needed := 16 + 32 * |m.payloads| + |Concat(m.payloads)|;
        && (r == Ok(needed) <==> needed <= |b|) && (r == Err(EOverflow) <==> needed > |b|)
        && (r.Ok? ==> Packed(out, m))
    {
      hide Concat, Items, AllItems, AllBytes, Unread, Describes, FilledTo;
      if |queue| == 0 {
        EmptyQueue(pending);
        return Err(EAgain), b;
      }
      HasMessage(pending);
      var items, total, id := Measure();
      var required := DataStart(items) + total;
      if |b| < required { return Err(EOverflow), b; }
      ghost var m, rest := pending[0], pending[1..];
      assert ring.PendingBytes() == |ring.Contents()|;
      HeadStorable(pending);
      HeadFrame(pending);
      var end;
      out, end := Dequeue(b, items, required, id, m, AllItems(rest), AllBytes(rest));
      FilledDescribes(out, m, b);
      pending := rest;
      return Ok(end), out;
    }
  }

  lemma NothingYet(m: Message, bytes: seq<byte>, entries: seq<Item>)
    ensures bytes == bytes + Concat(m.payloads[..0]) && entries == entries + Items(m)[..0]
  {
  }

  lemma {:induction false} EmptyQueue(ms: seq<Message>)
    requires Wellformed(ms) && AllItems(ms) == []
    ensures ms == []
  {
  }

  lemma HasMessage(ms: seq<Message>)
    requires AllItems(ms) != []
    ensures ms != []
  {
  }

  lemma {:induction false} HeadFrame(ms: seq<Message>)
    requires Wellformed(ms) && Storable(ms) && ms != []
    ensures AllItems(ms) == Items(ms[0]) + AllItems(ms[1..])
    ensures AllBytes(ms) == Concat(ms[0].payloads) + AllBytes(ms[1..])
    ensures Wellformed(ms[1..]) && Storable(ms[1..])
  {
  }

  /** The bytes of the items from i on. */
  ghost function Remaining(m: Message, i: nat): (s: seq<byte>)
    requires i <= |m.payloads|
  {
    ConcatPrefix(m.payloads, i);
    Concat(m.payloads)[|Concat(m.payloads[..i])|..]
  }

  lemma RemainingNext(m: Message, i: nat, rest: seq<Item>, after: seq<byte>)
    requires i < |m.payloads|
    ensures Remaining(m, i) + after == m.payloads[i] + (Remaining(m, i + 1) + after)
    ensures Items(m)[i..] + rest == [Item(i + 1 == |m.payloads|, m.id, |m.payloads[i]|)] + (Items(m)[i + 1..] + rest)
  {
    hide Concat;
    var all := Concat(m.payloads);
    ConcatNext(m.payloads, i);
    ConcatPrefix(m.payloads, i);
    ConcatPrefix(m.payloads, i + 1);
    PayloadAt(m, all, i);
    var from := |Concat(m.payloads[..i])|;
    var upTo := from + |m.payloads[i]|;
    assert all[from..] == all[from..upTo] + all[upTo..];
    assert Items(m)[i..] == [Items(m)[i]] + Items(m)[i + 1..];
  }

  lemma RemainingNone(m: Message, rest: seq<Item>, after: seq<byte>)
    ensures Items(m)[|m.payloads|..] + rest == rest && Remaining(m, |m.payloads|) + after == after
  {
    assert m.payloads[..|m.payloads|] == m.payloads;
  }

  lemma RemainingAll(m: Message)
    ensures Remaining(m, 0) == Concat(m.payloads) && Items(m)[0..] == Items(m)
  {
  }

  /** Writing the header starts filling the buffer. */
  lemma FillNone(b: seq<byte>, m: Message)
    requires Required(m) <= |b|
    ensures |Concat(m.payloads[..0])| == 0
    ensures FilledTo(Splice(b, 0, HeaderBytes(Required(m), |m.payloads|, m.id)), m, 0, b)
  {
  }

  lemma SameHead(a: seq<byte>, b: seq<byte>, x: seq<byte>, y: seq<byte>)
    requires a + x == b + y && |a| == |b|
    ensures a == b && x == y
  {
    assert a == (a + x)[..|a|] && b == (b + y)[..|b|];
    assert x == (a + x)[|a|..] && y == (b + y)[|b|..];
  }

  lemma ItemsNext(a: seq<Item>, b: seq<Item>, i: nat)
    requires i < |b|
    ensures a + b[..i] + [b[i]] == a + b[..i + 1]
  {
  }

  lemma NextItem(b: seq<byte>, i: nat)
    requires Acceptable(b) && i < Count(b)
    ensures ItemAccepted(b, i) && MessageIn(b).payloads[i] == Payload(b, i)
    ensures Items(MessageIn(b))[i] == Item(i + 1 == Count(b), U32(b, 12), |Payload(b, i)|)
  {
  }

  lemma NoItems(m: Message)
    ensures m.payloads == [] ==> Items(m) == [] && Concat(m.payloads) == []
  {
  }

  lemma RunNext(ms: seq<Message>, size: nat, cs: seq<Command>, i: nat, rs: seq<Reply>, mid: seq<Message>,
                r: Reply, after: seq<Message>)
    requires i < |cs| && Runs(ms, size, cs[..i], rs, mid) && StepOk(mid, size, cs[i], r, after)
    ensures Runs(ms, size, cs[..i + 1], rs + [r], after)
  {
    hide StepOk;
    assert cs[..i + 1][..i] == cs[..i] && (rs + [r])[..i] == rs;
  }

  /** Any interleaving of sends and receives: the channel answers as the queue of messages does. */
  method RunChannel(channel: Channel, cs: seq<Command>) returns (rs: seq<Reply>)
    requires channel.Valid() && AllData(cs)
    modifies channel, channel.ring, channel.ring.buffer
    ensures channel.Valid()
    ensures Runs(old(channel.pending), channel.ring.buffer.Length, cs, rs, channel.pending)
    ensures channel.ring.PendingBytes() == |AllBytes(channel.pending)|
  {
    hide StepOk, Runs, Framed, DataOnly, Unread;
    rs := [];
    RunNothing(channel.pending, channel.ring.buffer.Length);
    assert cs[..0] == [];
    for i := 0 to |cs|
      invariant channel.Valid()
      invariant Runs(old(channel.pending), channel.ring.buffer.Length, cs[..i], rs, channel.pending)
    {
      ghost var mid := channel.pending;
      var reply;
      match cs[i] {
        case Send(b) =>
          var r := channel.Send(b);
          reply := Sent(r);
        case Receive(b) =>
          var r, out := channel.Receive(b);
          reply := Received(r, out);
      }
      RunNext(old(channel.pending), channel.ring.buffer.Length, cs, i, rs, mid, reply, channel.pending);
      rs := rs + [reply];
    }
    assert cs[..|cs|] == cs;
    FramedBytes(channel.queue, channel.ring.Contents(), channel.pending);
  }

  lemma FramedBytes(queue: seq<Item>, bytes: seq<byte>, ms: seq<Message>)
    requires Framed(queue, bytes, ms)
    ensures bytes == AllBytes(ms)
  {
  }

  lemma RunNothing(ms: seq<Message>, size: nat)
    ensures Runs(ms, size, [], [], ms)
  {
  }
}
