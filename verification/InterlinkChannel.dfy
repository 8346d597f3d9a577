/** One direction of a connection: the queue of items and the byte ring, and what they stand for: a queue of
    whole messages. */
module InterlinkQueue {
  import opened Words
  import opened Wrappers
  import opened RingBuffers
  import opened InterlinkWire

  datatype Item = Item(final: bool, id: nat, size: nat)

  function Items(m: Message): (s: seq<Item>)
    ensures |s| == |m.payloads|
  {
    var n := |m.payloads|;
    seq(n, i requires 0 <= i < n => Item(i + 1 == n, m.id, |m.payloads[i]|))
  }

  function AllItems(ms: seq<Message>): (s: seq<Item>) {
    if ms == [] then [] else Items(ms[0]) + AllItems(ms[1..])
  }

  function AllBytes(ms: seq<Message>): (s: seq<byte>) {
    if ms == [] then [] else Concat(ms[0].payloads) + AllBytes(ms[1..])
  }

  ghost predicate Wellformed(ms: seq<Message>) {
    forall i :: 0 <= i < |ms| ==> |ms[i].payloads| > 0
  }

  /** The queue entries and the pending bytes are those of the messages, in order. */
  ghost predicate Framed(queue: seq<Item>, bytes: seq<byte>, ms: seq<Message>) {
    Wellformed(ms) && queue == AllItems(ms) && bytes == AllBytes(ms)
  }

  lemma {:induction false} AppendMessage(ms: seq<Message>, m: Message)
    ensures AllItems(ms + [m]) == AllItems(ms) + Items(m)
    ensures AllBytes(ms + [m]) == AllBytes(ms) + Concat(m.payloads)
  {
    hide Items, Concat;
    if ms == [] {
      assert ms + [m] == [m] && [m][1..] == [] && [m][0] == m;
      assert AllItems([]) == [] && AllBytes([]) == [];
      assert AllItems([m]) == Items(m) + AllItems([]);
      assert AllBytes([m]) == Concat(m.payloads) + AllBytes([]);
    } else {
      AppendMessage(ms[1..], m);
      assert (ms + [m])[1..] == ms[1..] + [m];
      var first, items, bytes := ms[0], AllItems(ms[1..]), AllBytes(ms[1..]);
      assert Items(first) + (items + Items(m)) == (Items(first) + items) + Items(m);
      var start, end := Concat(first.payloads), Concat(m.payloads);
      assert start + (bytes + end) == (start + bytes) + end;
    }
  }

  /** The framing loses nothing: a queue and its bytes stand for one sequence of messages only. */
  lemma {:induction false} FramedOnce(queue: seq<Item>, bytes: seq<byte>, ms: seq<Message>, ns: seq<Message>)
    requires Framed(queue, bytes, ms) && Framed(queue, bytes, ns)
    ensures ms == ns
  {
    if ms == [] || ns == [] {
      assert ms == [] ==> ns == [];
    } else {
      var m, n := ms[0], ns[0];
      assert queue == Items(m) + AllItems(ms[1..]) == Items(n) + AllItems(ns[1..]);
      SameLength(queue, m, n);
      assert Items(m) == queue[..|Items(m)|] == Items(n);
      assert bytes == Concat(m.payloads) + AllBytes(ms[1..]) == Concat(n.payloads) + AllBytes(ns[1..]);
      SamePayloads(m, n, bytes);
      var rest, tail := queue[|Items(m)|..], bytes[|Concat(m.payloads)|..];
      assert Framed(rest, tail, ms[1..]) && Framed(rest, tail, ns[1..]);
      FramedOnce(rest, tail, ms[1..], ns[1..]);
      assert ms == [m] + ms[1..] && ns == [n] + ns[1..];
    }
  }

  /** The first final entry marks the end of the first message. */
  lemma SameLength(queue: seq<Item>, m: Message, n: Message)
    requires |m.payloads| > 0 && |n.payloads| > 0
    requires Items(m) <= queue && Items(n) <= queue
    ensures |m.payloads| == |n.payloads|
  {
    var a, b := |m.payloads|, |n.payloads|;
    assert queue[a - 1] == Items(m)[a - 1] && queue[b - 1] == Items(n)[b - 1];
  }

  lemma SamePayloads(m: Message, n: Message, bytes: seq<byte>)
    requires Items(m) == Items(n) && |m.payloads| > 0
    requires Concat(m.payloads) <= bytes && Concat(n.payloads) <= bytes
    ensures m == n
  {
    assert Items(m)[0] == Items(n)[0];
    forall i | 0 <= i <= |m.payloads| ensures m.payloads[..i] == n.payloads[..i] {
      SamePrefix(m, n, bytes, i);
    }
    assert m.payloads == m.payloads[..|m.payloads|] == n.payloads;
  }

  lemma {:induction false} SamePrefix(m: Message, n: Message, bytes: seq<byte>, i: nat)
    requires Items(m) == Items(n) && i <= |m.payloads|
    requires Concat(m.payloads) <= bytes && Concat(n.payloads) <= bytes
    ensures |m.payloads| == |n.payloads| && m.payloads[..i] == n.payloads[..i]
  {
    assert |Items(m)| == |Items(n)|;
    if i > 0 {
      SamePrefix(m, n, bytes, i - 1);
      assert Items(m)[i - 1] == Items(n)[i - 1];
      PayloadAt(m, bytes, i - 1);
      PayloadAt(n, bytes, i - 1);
      assert m.payloads[..i] == m.payloads[..i - 1] + [m.payloads[i - 1]];
      assert n.payloads[..i] == n.payloads[..i - 1] + [n.payloads[i - 1]];
    }
  }

  /** Where a payload's bytes lie. */
  lemma PayloadAt(m: Message, bytes: seq<byte>, i: nat)
    requires i < |m.payloads| && Concat(m.payloads) <= bytes
    ensures var from := |Concat(m.payloads[..i])|;
      from + |m.payloads[i]| <= |bytes| && bytes[from..from + |m.payloads[i]|] == m.payloads[i]
  {
    hide Concat;
    ConcatPrefix(m.payloads, i + 1);
    ConcatNext(m.payloads, i);
    var from, all := |Concat(m.payloads[..i])|, Concat(m.payloads);
    var upTo := from + |m.payloads[i]|;
    assert bytes[..upTo] == all[..upTo] == Concat(m.payloads[..i]) + m.payloads[i];
    assert bytes[from..upTo] == bytes[..upTo][from..];
  }

  // ----- The channel as a queue of messages ----------------------------------------------------------------

  datatype Command = Send(buffer: seq<byte>) | Receive(buffer: seq<byte>)

  /** What a command returns; a receive also leaves the caller's buffer behind. */
  datatype Reply = Sent(result: Result<nat, Error>) | Received(result: Result<nat, Error>, buffer: seq<byte>)

  /** A send to a channel with a ring of `size` bytes: refused for good if malformed or larger than the ring,
      refused for now while there is no room, and otherwise queued. */
  function SendReply(ms: seq<Message>, size: nat, b: seq<byte>): (r: Result<nat, Error>) {
    if !Acceptable(b) then Err(EInval)
    else
      var total := |Concat(MessageIn(b).payloads)|;
      if size < total then Err(EOverflow)
      else if size - 1 - |AllBytes(ms)| < total then Err(EAgain)
      else Ok(total)
  }

  /** What a send is told, by the bytes that are queued: a message is queued exactly when its data fits the free bytes
      of the ring at the moment, refused for good exactly when it is larger than the ring, and otherwise for now. */
  lemma SendExactly(ms: seq<Message>, size: nat, b: seq<byte>)
    requires |AllBytes(ms)| < size
    ensures SendReply(ms, size, b) == Err(EInval) <==> !Acceptable(b)
    ensures Acceptable(b) ==>
      var total, free := |Concat(MessageIn(b).payloads)|, size - 1 - |AllBytes(ms)|;
      && (SendReply(ms, size, b) == Ok(total) <==> total <= free)
      && (SendReply(ms, size, b) == Err(EOverflow) <==> total > size)
      && (SendReply(ms, size, b) == Err(EAgain) <==> free < total <= size)
  {
    hide Acceptable;
    hide Concat;
  }

  /** A message of no items is accepted and never delivered. */
  function AfterSend(ms: seq<Message>, size: nat, b: seq<byte>): (r: seq<Message>) {
    if SendReply(ms, size, b).Ok? && MessageIn(b).payloads != [] then ms + [MessageIn(b)] else ms
  }

  ghost predicate StepOk(ms: seq<Message>, size: nat, c: Command, reply: Reply, after: seq<Message>) {
    match c
    case Send(b) => reply == Sent(SendReply(ms, size, b)) && after == AfterSend(ms, size, b)
    case Receive(b) =>
      if ms == [] then reply == Received(Err(EAgain), b) && after == ms
      else if |b| < Required(ms[0]) then reply == Received(Err(EOverflow), b) && after == ms
      else
        && reply.Received? && reply.result == Ok(Required(ms[0])) && after == ms[1..]
        && Describes(reply.buffer, ms[0]) && |reply.buffer| == |b|
        && U64(reply.buffer, 0) == Required(ms[0])
        && reply.buffer[Required(ms[0])..] == b[Required(ms[0])..]
  }

  /** The replies to a sequence of commands, and the messages left. */
  ghost predicate Runs(ms: seq<Message>, size: nat, cs: seq<Command>, rs: seq<Reply>, after: seq<Message>)
    decreases |cs|
  {
    && |rs| == |cs|
    && if cs == [] then after == ms
       else
         var n := |cs| - 1;
         exists mid :: Runs(ms, size, cs[..n], rs[..n], mid) && StepOk(mid, size, cs[n], rs[n], after)
  }

  /** A send that was accepted with at least one item, and a receive that was served. */
  predicate Queues(c: Command, r: Reply) {
    c.Send? && r.result.Ok? && HEADER <= |c.buffer| && Count(c.buffer) > 0
  }

  predicate Serves(c: Command, r: Reply) { c.Receive? && r.Received? && r.result.Ok? }

  /** The messages a run's sends queued, and those its receives delivered, as read from the buffers alone. */
  ghost predicate Accepted(cs: seq<Command>, rs: seq<Reply>, ms: seq<Message>)
    requires |cs| == |rs|
    decreases |cs|
  {
    if cs == [] then ms == []
    else
      var n := |cs| - 1;
      if Queues(cs[n], rs[n]) then
        |ms| > 0 && Describes(cs[n].buffer, ms[|ms| - 1]) && Accepted(cs[..n], rs[..n], ms[..|ms| - 1])
      else Accepted(cs[..n], rs[..n], ms)
  }

  ghost predicate Delivered(cs: seq<Command>, rs: seq<Reply>, ms: seq<Message>)
    requires |cs| == |rs|
    decreases |cs|
  {
    if cs == [] then ms == []
    else
      var n := |cs| - 1;
      if Serves(cs[n], rs[n]) then
        |ms| > 0 && Describes(rs[n].buffer, ms[|ms| - 1]) && Delivered(cs[..n], rs[..n], ms[..|ms| - 1])
      else Delivered(cs[..n], rs[..n], ms)
  }

  ghost predicate AllData(cs: seq<Command>) {
    forall i :: 0 <= i < |cs| ==> cs[i].Send? ==> DataOnly(cs[i].buffer)
  }

  /** One command moves at most one message, into the back or out of the front. */
  lemma StepMoves(ms: seq<Message>, size: nat, c: Command, r: Reply, after: seq<Message>) returns (m: Message)
    requires StepOk(ms, size, c, r, after) && (c.Send? ==> DataOnly(c.buffer))
    ensures Queues(c, r) ==> !Serves(c, r) && Describes(c.buffer, m) && after == ms + [m]
    ensures Serves(c, r) ==> Describes(r.buffer, m) && ms == [m] + after
    ensures !Queues(c, r) && !Serves(c, r) ==> after == ms
  {
    hide Describes;
    m := Message(0, []);
    if Queues(c, r) {
      AcceptedDescribes(c.buffer);
      m := MessageIn(c.buffer);
    } else if Serves(c, r) {
      m := ms[0];
    }
  }

  /** First in, first out, in every run: whatever was queued at the start and accepted since is what was
      delivered, in order and byte for byte, followed by what is still queued. */
  lemma {:induction false} FirstInFirstOut(ms: seq<Message>, size: nat, cs: seq<Command>, rs: seq<Reply>,
                                           after: seq<Message>)
    returns (sent: seq<Message>, got: seq<Message>)
    requires Runs(ms, size, cs, rs, after) && AllData(cs)
    ensures Accepted(cs, rs, sent) && Delivered(cs, rs, got)
    ensures ms + sent == got + after
    decreases |cs|
  {
    hide Describes, Queues, Serves, StepOk, DataOnly;
    if cs == [] {
      sent, got := [], [];
    } else {
      var n := |cs| - 1;
      var mid :| Runs(ms, size, cs[..n], rs[..n], mid) && StepOk(mid, size, cs[n], rs[n], after);
      var sent0, got0 := FirstInFirstOut(ms, size, cs[..n], rs[..n], mid);
      var m := StepMoves(mid, size, cs[n], rs[n], after);
      sent := if Queues(cs[n], rs[n]) then sent0 + [m] else sent0;
      got := if Serves(cs[n], rs[n]) then got0 + [m] else got0;
      assert (sent0 + [m])[..|sent0|] == sent0 && (got0 + [m])[..|got0|] == got0;
      if Queues(cs[n], rs[n]) {
        assert ms + (sent0 + [m]) == (ms + sent0) + [m] == got0 + (mid + [m]);
      } else if Serves(cs[n], rs[n]) {
        assert got0 + ([m] + after) == (got0 + [m]) + after;
      }
    }
  }

  /** A message the ring can never hold: on an empty channel a well-formed message is told to try again
      exactly when its data is as large as the ring, so it is refused for now for ever. */
  lemma RetryOnEmptyExactly(size: nat, b: seq<byte>)
    requires size > 0
    ensures SendReply([], size, b) == Err(EAgain) <==> Acceptable(b) && |Concat(MessageIn(b).payloads)| == size
  {
  }

  lemma NeverFits(ms: seq<Message>, size: nat, b: seq<byte>)
    requires SendReply([], size, b) == Err(EAgain)
    ensures SendReply(ms, size, b) == Err(EAgain)
  {
  }

  /** Such a message, for every ring and every content: one item with as many bytes as the ring has, whatever the
      channel holds. */
  lemma WholeRingRetried(ms: seq<Message>, id: nat, data: seq<byte>)
    requires id < 0x1_0000_0000 && data != [] && DataStart(1) + |data| < 0x1_0000_0000_0000_0000
    ensures DataOnly(OneItem(id, data)) && SendReply(ms, |data|, OneItem(id, data)) == Err(EAgain)
  {
    hide OneItem, Acceptable, DataOnly;
    var b := OneItem(id, data);
    OneItemAccepted(id, data);
    assert Concat([data]) == data by {
      assert [data][..0] == [] && Concat([]) == [];
    }
    RetryOnEmptyExactly(|data|, b);
    NeverFits(ms, |data|, b);
  }
}
