/** xHCI rings (section 4.9 of the xHCI specification): a producer that marks its TRBs with a cycle bit and
    ends each lap with a Link TRB that toggles it, and a consumer that trusts nothing but that bit.

    Slots are numbered along the whole run: position p is slot p % 128 of lap p / 128, and holds a Link TRB
    exactly when it is the last slot of its lap. */
module XhciStream {
  const RING_SIZE := 128

  /** A transfer request block: four 32-bit words; the cycle bit is bit 0 of the last one. */
  datatype TRB = TRB(parameter0: nat, parameter1: nat, status: nat, control: nat)

  const ZERO := TRB(0, 0, 0, 0)

  const LINK_TYPE := 6

  predicate Cycle(t: TRB) { t.control % 2 == 1 }

  function WithCycle(t: TRB, c: bool): (r: TRB)
    ensures Cycle(r) == c && r.control / 2 == t.control / 2
    ensures r.parameter0 == t.parameter0 && r.parameter1 == t.parameter1 && r.status == t.status
  {
    t.(control := t.control - t.control % 2 + if c then 1 else 0)
  }

  function TypeOf(t: TRB): nat { t.control / 1024 % 64 }

  /** The Link TRB back to the start of the ring, with its toggle-cycle bit set. */
  function LinkTo(base: nat, c: bool): (r: TRB)
    ensures Cycle(r) == c && TypeOf(r) == LINK_TYPE && r.control / 2 % 2 == 1
    ensures r.parameter0 + 0x1_0000_0000 * r.parameter1 == base && r.parameter0 < 0x1_0000_0000
  {
    TRB(base % 0x1_0000_0000, base / 0x1_0000_0000, 0, LINK_TYPE * 1024 + 2 + if c then 1 else 0)
  }

  function SlotAt(p: nat): (r: nat)
    ensures r < RING_SIZE
  {
    p % RING_SIZE
  }

  /** The cycle state of the lap position p belongs to; the first lap has it set. */
  predicate CycleAt(p: nat) { (p / RING_SIZE) % 2 == 0 }

  predicate IsLink(p: nat) { SlotAt(p) == RING_SIZE - 1 }

  lemma NextPosition(p: nat)
    ensures SlotAt(p + 1) == if IsLink(p) then 0 else SlotAt(p) + 1
    ensures CycleAt(p + 1) == if IsLink(p) then !CycleAt(p) else CycleAt(p)
  {
  }

  lemma NextLap(p: nat)
    ensures SlotAt(p + RING_SIZE) == SlotAt(p) && CycleAt(p + RING_SIZE) == !CycleAt(p)
    ensures IsLink(p + RING_SIZE) == IsLink(p)
  {
  }

  lemma SlotsApart(p: nat, q: nat)
    requires p < q < p + RING_SIZE
    ensures SlotAt(p) != SlotAt(q)
  {
  }

  // ----- what the ring holds -----

  /** Each slot holds the item last written to it; a slot never written holds `empty`. */
  ghost predicate Holds<T>(ring: seq<T>, items: seq<T>, empty: T) {
    && |ring| == RING_SIZE
    && (forall p: nat :: |items| - RING_SIZE <= p < |items| ==> ring[SlotAt(p)] == items[p])
    && (forall p: nat :: |items| <= p < RING_SIZE ==> ring[SlotAt(p)] == empty)
  }

  /** Every item carries the cycle state of its lap. */
  ghost predicate Marked(items: seq<TRB>) {
    forall p :: 0 <= p < |items| ==> Cycle(items[p]) == CycleAt(p)
  }

  lemma WriteHolds<T>(ring: seq<T>, items: seq<T>, empty: T, t: T)
    requires Holds(ring, items, empty)
    ensures Holds(ring[SlotAt(|items|) := t], items + [t], empty)
  {
    hide SlotAt;
    var ring', items' := ring[SlotAt(|items|) := t], items + [t];
    forall p: nat | |items'| - RING_SIZE <= p < |items'| ensures ring'[SlotAt(p)] == items'[p] {
      if p < |items| {
        SlotsApart(p, |items|);
      }
    }
    forall p: nat | |items'| <= p < RING_SIZE ensures ring'[SlotAt(p)] == empty {
      SlotsApart(|items|, p);
    }
  }

  lemma UpdateHolds<T>(ring: seq<T>, items: seq<T>, empty: T, c: nat, t: T)
    requires Holds(ring, items, empty) && |items| - RING_SIZE <= c < |items|
    ensures Holds(ring[SlotAt(c) := t], items[c := t], empty)
  {
    hide SlotAt;
    var ring', items' := ring[SlotAt(c) := t], items[c := t];
    forall p: nat | |items'| - RING_SIZE <= p < |items'| ensures ring'[SlotAt(p)] == items'[p] {
      if p < c {
        SlotsApart(p, c);
      } else if c < p {
        SlotsApart(c, p);
      }
    }
    forall p: nat | |items'| <= p < RING_SIZE ensures ring'[SlotAt(p)] == empty {
      SlotsApart(c, p);
    }
  }

  /** What the slot about to be written holds: the item a lap earlier. */
  lemma PreviousOccupant<T>(ring: seq<T>, items: seq<T>, empty: T)
    requires Holds(ring, items, empty)
    ensures ring[SlotAt(|items|)] == if |items| >= RING_SIZE then items[|items| - RING_SIZE] else empty
  {
    hide SlotAt;
    if |items| >= RING_SIZE {
      NextLap(|items| - RING_SIZE);
    }
  }

  /** The slot about to be written still carries the previous lap's cycle bit. */
  lemma NextSlotIsStale(ring: seq<TRB>, items: seq<TRB>)
    requires Holds(ring, items, ZERO) && Marked(items)
    ensures Cycle(ring[SlotAt(|items|)]) != CycleAt(|items|)
  {
    hide SlotAt;
    hide CycleAt;
    PreviousOccupant(ring, items, ZERO);
    if |items| >= RING_SIZE {
      NextLap(|items| - RING_SIZE);
    } else {
      FirstLap(|items|);
    }
  }

  lemma FirstLap(p: nat)
    ensures p < RING_SIZE ==> CycleAt(p)
  {
  }

  /** A consumer no more than a whole ring behind finds its next item by the cycle bit alone. */
  lemma ConsumerSees(ring: seq<TRB>, items: seq<TRB>, c: nat)
    requires Holds(ring, items, ZERO) && Marked(items) && c <= |items| <= c + RING_SIZE
    ensures Cycle(ring[SlotAt(c)]) == CycleAt(c) <==> c < |items|
    ensures c < |items| ==> ring[SlotAt(c)] == items[c]
  {
    if c == |items| {
      NextSlotIsStale(ring, items);
    }
  }

  /** A consumer further behind, but not a second lap, takes the ring for empty. */
  lemma OverrunConsumerStalls(ring: seq<TRB>, items: seq<TRB>, c: nat)
    requires Holds(ring, items, ZERO) && Marked(items) && c + RING_SIZE < |items| <= c + 2 * RING_SIZE
    ensures Cycle(ring[SlotAt(c)]) != CycleAt(c)
  {
    hide SlotAt;
    hide CycleAt;
    NextLap(c);
    assert ring[SlotAt(c + RING_SIZE)] == items[c + RING_SIZE];
  }

  lemma FirstLapSlot(p: nat)
    requires p < RING_SIZE
    ensures SlotAt(p) == p
  {
  }

  /** The last position below n that falls into a slot. */
  function LastIn(slot: nat, n: nat): (p: nat)
    requires slot < RING_SIZE && slot < n
    ensures n - RING_SIZE <= p < n && SlotAt(p) == slot
  {
    n - 1 - (n - 1 - slot) % RING_SIZE
  }

  /** Every position that has not been overwritten is the last one in its slot. */
  lemma LastPositions(n: nat)
    ensures forall p: nat :: p < n <= p + RING_SIZE ==> SlotAt(p) < n && LastIn(SlotAt(p), n) == p
  {
    hide LastIn;
    hide SlotAt;
    forall p: nat | p < n <= p + RING_SIZE ensures SlotAt(p) < n && LastIn(SlotAt(p), n) == p {
      SlotBelow(p);
      LastInIs(p, n);
    }
  }

  lemma SlotBelow(p: nat)
    ensures SlotAt(p) <= p
  {
  }

  lemma LastInIs(p: nat, n: nat)
    requires p < n <= p + RING_SIZE && SlotAt(p) <= p
    ensures LastIn(SlotAt(p), n) == p
  {
    hide SlotAt;
    var q := LastIn(SlotAt(p), n);
    if q < p {
      SlotsApart(q, p);
    } else if p < q {
      SlotsApart(p, q);
    }
  }

  // ----- counting TRBs and slots -----

  /** How many of the positions below p hold no link. */
  function DataBelow(p: nat): nat { p - p / RING_SIZE }

  /** The producer may be as far ahead as the ring is long exactly while at most 126 TRBs are unread, or
      127 of them and the consumer does not still have a Link TRB to follow. */
  lemma WindowExactly(c: nat, p: nat)
    requires c <= p && !IsLink(p)
    ensures p <= c + RING_SIZE <==>
            var unread := DataBelow(p) - DataBelow(c); unread <= 126 || (unread == 127 && !IsLink(c))
  {
  }

  // ----- the stream of TRBs -----

  /** The items that are not at link positions. */
  ghost function Strip<T>(items: seq<T>): seq<T> {
    if items == [] then [] else
      var n := |items| - 1;
      Strip(items[..n]) + if IsLink(n) then [] else [items[n]]
  }

  lemma {:induction false} StripAppend<T>(items: seq<T>, t: T)
    ensures Strip(items + [t]) == Strip(items) + if IsLink(|items|) then [] else [t]
  {
    hide IsLink;
    assert (items + [t])[..|items|] == items;
  }

  lemma {:induction false} StripTake<T>(items: seq<T>, c: nat)
    requires c < |items|
    ensures Strip(items[..c + 1]) == Strip(items[..c]) + if IsLink(c) then [] else [items[c]]
  {
    assert items[..c + 1] == items[..c] + [items[c]];
    StripAppend(items[..c], items[c]);
  }

  lemma {:induction false} StripLength<T>(items: seq<T>)
    ensures |Strip(items)| == DataBelow(|items|)
  {
    if items != [] {
      StripLength(items[..|items| - 1]);
    }
  }

  /** TRBs without their cycle bits. */
  function Raw(trbs: seq<TRB>): (r: seq<TRB>)
    ensures |r| == |trbs| && forall i :: 0 <= i < |r| ==> r[i] == WithCycle(trbs[i], false)
  {
    seq(|trbs|, i requires 0 <= i < |trbs| => WithCycle(trbs[i], false))
  }

  lemma RawAppend(trbs: seq<TRB>, t: TRB, c: bool)
    ensures Raw(trbs + [WithCycle(t, c)]) == Raw(trbs) + [WithCycle(t, false)]
    ensures Raw(trbs + [t]) == Raw(trbs) + [WithCycle(t, false)]
  {
    assert WithCycle(WithCycle(t, c), false) == WithCycle(t, false);
  }

  lemma TypeIgnoresCycle(t: TRB, c: bool)
    ensures TypeOf(WithCycle(t, c)) == TypeOf(t)
  {
    var k := t.control / 2;
    LastBit(k, t.control % 2);
    LastBit(k, if c then 1 else 0);
  }

  /** The lowest bit does not reach the type. */
  lemma LastBit(k: nat, bit: nat)
    requires bit < 2
    ensures (2 * k + bit) / 1024 == k / 512
  {
    var q, m := k / 512, k % 512;
    assert k == 512 * q + m && 2 * k + bit == 1024 * q + (2 * m + bit);
  }
}

/** The two rings of the driver.  The other end of each, the controller, follows the same specification. */
module XhciRings {
  import opened Modular
  import opened XhciStream

  /** Link TRBs stand at the ends of laps and nowhere else, and no callback waits on them. */
  ghost predicate LinksAtLapEnds(items: seq<TRB>, pending: seq<nat>, base: nat) {
    |pending| == |items| && forall p :: 0 <= p < |items| ==>
      if IsLink(p) then items[p] == LinkTo(base, CycleAt(p)) && pending[p] == 0
      else TypeOf(items[p]) != LINK_TYPE
  }

  lemma SameLength(items: seq<TRB>, pending: seq<nat>, base: nat)
    requires LinksAtLapEnds(items, pending, base)
    ensures |pending| == |items|
  {
  }

  /** Nothing ever waits on the link's slot, so writing a link leaves the completions as they are. */
  lemma LinkHasNoCallback(completions: seq<nat>, items: seq<TRB>, pending: seq<nat>, base: nat)
    requires Holds(completions, pending, 0) && LinksAtLapEnds(items, pending, base) && IsLink(|items|)
    ensures Holds(completions, pending + [0], 0)
  {
    hide SlotAt;
    PreviousOccupant(completions, pending, 0);
    if |items| >= RING_SIZE {
      NextLap(|items| - RING_SIZE);
    }
    WriteHolds(completions, pending, 0, 0);
    assert completions[SlotAt(|items|) := 0] == completions;
  }

  /** The first word of a control request; the top bit of the request type is the direction of its data. */
  datatype SetupPacket = SetupPacket(requestType: nat, request: nat, value: nat, index: nat, dataLength: nat) {
    predicate DeviceToHost() { requestType / 0x80 % 2 == 1 }
  }

  function Create(kind: nat, parameter0: nat, parameter1: nat, status: nat, flags: nat): TRB {
    TRB(parameter0, parameter1, status, kind * 1024 + flags)
  }

  /** A TRB is of the type it is created with, whatever its other fields. */
  lemma CreatedType(kind: nat, parameter0: nat, parameter1: nat, status: nat, low: nat, high: nat)
    requires kind < 64 && low < 0x400
    ensures TypeOf(Create(kind, parameter0, parameter1, status, low + 0x1_0000 * high)) == kind
  {
    var control := kind * 0x400 + (low + 0x1_0000 * high);
    assert control == 0x400 * (kind + 64 * high) + low;
    assert control / 0x400 == kind + 64 * high;
  }

  function MakeSetup(packet: SetupPacket, dataStage: bool, dataIn: bool): TRB {
    Create(2, packet.requestType + packet.request * 0x100 + packet.value * 0x1_0000,
           packet.index + packet.dataLength * 0x1_0000, 8,
           0x40 + (if dataStage then if dataIn then 3 else 2 else 0) * 0x1_0000)
  }

  function MakeDataStage(address: nat, length: nat, dataIn: bool): TRB {
    Create(3, address % 0x1_0000_0000, address / 0x1_0000_0000, length % 0x2_0000, if dataIn then 0x1_0000 else 0)
  }

  function MakeStatus(statusIn: bool, interrupt: bool): TRB {
    Create(4, 0, 0, 0, (if statusIn then 0x1_0000 else 0) + (if interrupt then 0x20 else 0))
  }

  /** The TRBs of one control transfer, in order. */
  function ControlStages(packet: SetupPacket, address: nat, size: nat, interrupt: bool): seq<TRB> {
    [MakeSetup(packet, size > 0, packet.DeviceToHost())]
    + (if size > 0 then [MakeDataStage(address, size, packet.DeviceToHost())] else [])
    + [MakeStatus(size == 0 || !packet.DeviceToHost(), interrupt)]
  }

  /** What a controller decodes from a setup TRB: the request, immediate data of 8 bytes, and whether data follows
      and which way. */
  ghost predicate DecodesSetup(t: TRB, packet: SetupPacket, size: nat) {
    && t.parameter0 % 0x100 == packet.requestType && t.parameter0 / 0x100 % 0x100 == packet.request
    && t.parameter0 / 0x1_0000 == packet.value
    && t.parameter1 % 0x1_0000 == packet.index && t.parameter1 / 0x1_0000 == packet.dataLength
    && t.status % 0x2_0000 == 8 && t.control / 0x40 % 2 == 1 && t.control / 0x400 % 0x40 == 2
    && t.control / 0x1_0000 % 4 == (if size == 0 then 0 else if packet.requestType < 0x80 then 2 else 3)
  }

  /** From a data TRB: the buffer, its length, and the direction. */
  ghost predicate DecodesData(t: TRB, packet: SetupPacket, address: nat, size: nat) {
    && t.parameter0 + 0x1_0000_0000 * t.parameter1 == address && t.parameter0 < 0x1_0000_0000
    && t.status % 0x2_0000 == size && t.control / 0x400 % 0x40 == 3 && t.control / 0x10 % 2 == 0
    && t.control / 0x1_0000 % 2 == (if packet.requestType < 0x80 then 0 else 1)
  }

  /** From a status TRB: the opposite direction, or in when there is no data, and whether to interrupt. */
  ghost predicate DecodesStatus(t: TRB, packet: SetupPacket, size: nat, interrupt: bool) {
    && t.control / 0x400 % 0x40 == 4 && t.control / 0x20 % 2 == (if interrupt then 1 else 0)
    && t.control / 0x1_0000 % 2 == (if size > 0 && packet.requestType >= 0x80 then 0 else 1)
  }

  /** The fields of the request fit their widths. */
  predicate Encodable(packet: SetupPacket) {
    && packet.requestType < 0x100 && packet.request < 0x100
    && packet.value < 0x1_0000 && packet.index < 0x1_0000 && packet.dataLength < 0x1_0000
  }

  ghost predicate Decodes(stages: seq<TRB>, packet: SetupPacket, address: nat, size: nat, interrupt: bool) {
    && |stages| == (if size > 0 then 3 else 2)
    && DecodesSetup(stages[0], packet, size)
    && (size > 0 ==> DecodesData(stages[1], packet, address, size))
    && DecodesStatus(stages[|stages| - 1], packet, size, interrupt)
  }

  /** A controller decodes from the stages what was asked for. */
  lemma StagesDecode(packet: SetupPacket, address: nat, size: nat, interrupt: bool)
    requires Encodable(packet) && size <= 0x1_0000
    ensures Decodes(ControlStages(packet, address, size, interrupt), packet, address, size, interrupt)
  {
    var stages := ControlStages(packet, address, size, interrupt);
    SetupDecodes(packet, size);
    assert stages[0] == MakeSetup(packet, size > 0, packet.DeviceToHost());
    assert size > 0 ==> stages[1] == MakeDataStage(address, size, packet.DeviceToHost());
    assert stages[|stages| - 1] == MakeStatus(size == 0 || !packet.DeviceToHost(), interrupt);
  }

  lemma StagesQueued(before: seq<TRB>, now: seq<TRB>, packet: SetupPacket, address: nat, size: nat, interrupt: bool)
    requires size <= 0x1_0000 && Raw(now) == Raw(before) + ControlStages(packet, address, size, interrupt)
    ensures |before| <= |now|
    ensures Encodable(packet) ==> Decodes(Raw(now)[|before|..], packet, address, size, interrupt)
  {
    hide Decodes;
    hide Encodable;
    hide ControlStages;
    if Encodable(packet) {
      StagesDecode(packet, address, size, interrupt);
    }
    assert Raw(now)[|before|..] == ControlStages(packet, address, size, interrupt);
  }

  lemma SetupDecodes(packet: SetupPacket, size: nat)
    requires Encodable(packet)
    ensures DecodesSetup(MakeSetup(packet, size > 0, packet.DeviceToHost()), packet, size)
  {
    var p := packet;
    Parts(p.requestType, p.request + 0x100 * p.value, 0x100);
    Parts(p.request, p.value, 0x100);
    Parts(p.requestType + 0x100 * p.request, p.value, 0x1_0000);
    Parts(p.index, p.dataLength, 0x1_0000);
    var t := MakeSetup(p, size > 0, p.DeviceToHost());
    assert t.parameter0 == p.requestType + 0x100 * (p.request + 0x100 * p.value);
    assert t.parameter0 == p.requestType + 0x100 * p.request + 0x1_0000 * p.value;
    assert t.parameter1 == p.index + 0x1_0000 * p.dataLength;
  }

  lemma Parts(low: nat, high: nat, weight: nat)
    requires low < weight
    ensures (low + weight * high) % weight == low && (low + weight * high) / weight == high
  {
    QuotientIs(low + weight * high, weight, high, low);
  }

  lemma StageTypes(packet: SetupPacket, address: nat, size: nat, interrupt: bool)
    ensures forall t :: t in ControlStages(packet, address, size, interrupt) ==>
      TypeOf(t) != LINK_TYPE && WithCycle(t, false) == t
  {
  }

  /** The slot an event's address points into, on 64-bit addresses. */
  function EventIndex(base: nat, address: nat): nat { (address - base) % 0x1_0000_0000_0000_0000 / 16 }

  /** The address is that of the byte so many bytes behind the start of the ring. */
  predicate IsByte(base: nat, offset: nat, address: nat) {
    (base + offset) % 0x1_0000_0000_0000_0000 == address % 0x1_0000_0000_0000_0000
  }

  /** An event's address leads to the slot whose 16 bytes it points into, and to none exactly outside the 2048 bytes
      of the ring. */
  lemma IndexExactly(base: nat, address: nat)
    ensures forall offset: nat :: offset < 2048 && IsByte(base, offset, address) ==>
      EventIndex(base, address) == offset / 16
    ensures EventIndex(base, address) < 128 <==> exists offset: nat :: offset < 2048 && IsByte(base, offset, address)
  {
    forall offset: nat | offset < 2048 && IsByte(base, offset, address)
      ensures EventIndex(base, address) == offset / 16
    {
      OffsetOf(base, offset, address);
    }
    var offset := (address - base) % 0x1_0000_0000_0000_0000;
    OffsetBack(base, address);
    assert IsByte(base, offset, address);
  }

  lemma OffsetOf(base: nat, offset: nat, address: nat)
    requires offset < 0x1_0000_0000_0000_0000 && IsByte(base, offset, address)
    ensures (address - base) % 0x1_0000_0000_0000_0000 == offset
  {
    var m := 0x1_0000_0000_0000_0000;
    var a, b := address / m, (base + offset) / m;
    assert address - base == (a - b) * m + offset;
  }

  lemma OffsetBack(base: nat, address: nat)
    ensures IsByte(base, (address - base) % 0x1_0000_0000_0000_0000, address)
  {
    var m := 0x1_0000_0000_0000_0000;
    var q, r := (address - base) / m, (address - base) % m;
    assert address == base + r + q * m;
  }

  /** The command or transfer ring: the driver pushes, the controller consumes and reports completions. */
  class ProducerRing {
    const ring: array<TRB>
    const completions: array<nat>    // the callback waiting on each slot, 0 if there is none
    const base: nat                  // bus address of slot 0
    var enqueueIndex: nat
    var cycleState: bool
    ghost var items: seq<TRB>        // everything written, links included
    ghost var pending: seq<nat>      // per item, the callback it still waits to run

    ghost predicate Valid()
      reads this, ring, completions
    {
      && Written() && !IsLink(|items|)
      && enqueueIndex == SlotAt(|items|) && cycleState == CycleAt(|items|)
    }

    constructor (base: nat)
      ensures Valid() && items == [] && pending == [] && this.base == base && fresh(ring) && fresh(completions)
    {
      ring := new TRB[RING_SIZE](_ => ZERO);
      completions := new nat[RING_SIZE](_ => 0);
      this.base := base;
      enqueueIndex, cycleState := 0, true;
      items, pending := [], [];
    }

    /** What the slots and the table of callbacks hold; true also between a TRB and the link that ends its lap. */
    ghost predicate Written()
      reads this, ring, completions
    {
      && ring.Length == completions.Length == RING_SIZE
      && Holds(ring[..], items, ZERO) && Marked(items) && Holds(completions[..], pending, 0)
      && LinksAtLapEnds(items, pending, base)
    }

    /** Writes a TRB in the next slot.  The check that the slot still carries the old cycle bit never fails. */
    method WriteSlot(trb: TRB, callback: nat) returns (ghost dropped: nat)
      requires Valid() && TypeOf(trb) != LINK_TYPE
      modifies this`items, this`pending, ring, completions
      ensures Written() && items == old(items) + [WithCycle(trb, cycleState)] && pending == old(pending) + [callback]
      ensures dropped == if |old(items)| >= RING_SIZE then old(pending)[|old(items)| - RING_SIZE] else 0
    {
      hide SlotAt;
      hide CycleAt;
      hide Holds;
      hide LinkTo;
      hide TypeOf;
      hide WithCycle;
      TypeIgnoresCycle(trb, cycleState);
      PreviousOccupant(completions[..], pending, 0);
      WriteHolds(completions[..], pending, 0, callback);
      NextSlotIsStale(ring[..], items);
      dropped := completions[enqueueIndex];
      completions[enqueueIndex] := callback;
      var marked := WithCycle(trb, cycleState);
      assert Cycle(ring[enqueueIndex]) != cycleState;
      WriteHolds(ring[..], items, ZERO, marked);
      ring[enqueueIndex] := marked;
      items, pending := items + [marked], pending + [callback];
    }

    /** Writes a TRB in the next slot, followed by a Link TRB when that was the last one of the lap.  A callback is
        dropped exactly when the TRB a lap earlier still waits to run one. */
    method PushCommand(trb: TRB, callback: nat) returns (ghost dropped: nat)
      requires Valid() && TypeOf(trb) != LINK_TYPE
      modifies this, ring, completions
      ensures Valid()
      ensures Raw(Strip(items)) == old(Raw(Strip(items))) + [WithCycle(trb, false)]
      ensures Strip(pending) == old(Strip(pending)) + [callback]
      ensures items == old(items) + [WithCycle(trb, CycleAt(|old(items)|))]
                + (if IsLink(|old(items)| + 1) then [LinkTo(base, CycleAt(|old(items)| + 1))] else [])
      ensures pending == old(pending) + [callback] + (if IsLink(|old(items)| + 1) then [0] else [])
      ensures dropped == if |old(items)| >= RING_SIZE then old(pending)[|old(items)| - RING_SIZE] else 0
    {
      hide SlotAt, CycleAt, Holds, LinkTo, TypeOf, WithCycle, Marked, LinksAtLapEnds, Strip, Raw;
      StripAppend(items, WithCycle(trb, cycleState));
      RawAppend(Strip(items), trb, cycleState);
      StripAppend(pending, callback);
      NextPosition(|items|);
      SameLength(items, pending, base);
      dropped := WriteSlot(trb, callback);
      enqueueIndex := enqueueIndex + 1;
      if enqueueIndex == RING_SIZE - 1 {
        WriteLink();
      }
    }

    /** Ends the lap. */
    method WriteLink()
      requires Written() && IsLink(|items|)
      requires enqueueIndex == SlotAt(|items|) && cycleState == CycleAt(|items|)
      modifies this, ring
      ensures Valid()
      ensures items == old(items) + [LinkTo(base, CycleAt(|old(items)|))] && pending == old(pending) + [0]
      ensures Strip(items) == old(Strip(items)) && Strip(pending) == old(Strip(pending))
    {
      hide SlotAt;
      hide CycleAt;
      hide Holds;
      hide LinkTo;
      StripAppend(items, LinkTo(base, cycleState));
      StripAppend(pending, 0);
      var link := LinkTo(base, cycleState);
      WriteHolds(ring[..], items, ZERO, link);
      LinkHasNoCallback(completions[..], items, pending, base);
      NextPosition(|items|);
      ring[enqueueIndex] := link;
      items, pending := items + [link], pending + [0];
      enqueueIndex := 0;
      cycleState := !cycleState;
    }

    /** Runs the callback waiting on the TRB an event points at, and no longer waits: a report of any of the 16 bytes
        of the TRB last written to a slot runs its callback.  It fails exactly on an address outside the 2048 bytes of
        the ring. */
    method ProcessCompletion(trbAddress: nat) returns (ok: bool, callback: nat)
      requires Valid()
      modifies this`pending, completions
      ensures Valid() && ok == (EventIndex(base, trbAddress) < RING_SIZE)
      ensures ok && EventIndex(base, trbAddress) < |items| ==>
        var p := LastIn(EventIndex(base, trbAddress), |items|);
        callback == old(pending)[p] && pending == old(pending)[p := 0]
      ensures ok && EventIndex(base, trbAddress) >= |items| ==> callback == 0 && pending == old(pending)
      ensures !ok ==> pending == old(pending)
      ensures ok <==> exists offset: nat :: offset < 2048 && IsByte(base, offset, trbAddress)
      ensures forall p: nat, offset: nat ::
        p < |old(pending)| <= p + 128 && 16 * SlotAt(p) <= offset < 16 * SlotAt(p) + 16
        && IsByte(base, offset, trbAddress) ==>
          callback == old(pending)[p] && pending == old(pending)[p := 0]
    {
      hide SlotAt;
      hide CycleAt;
      hide LinkTo;
      hide LastIn;
      hide EventIndex;
      hide IsByte;
      IndexExactly(base, trbAddress);
      LastPositions(|pending|);
      var index := EventIndex(base, trbAddress);
      if index >= RING_SIZE {
        return false, 0;
      }
      callback := completions[index];
      if index < |items| {
        ghost var p := LastIn(index, |items|);
        UpdateHolds(completions[..], pending, 0, p, 0);
        pending := pending[p := 0];
      } else {
        FirstLapSlot(index);
        assert completions[..][index := 0] == completions[..];
      }
      completions[index] := 0;
      ok := true;
    }

    /** Queues the stages of a control transfer: setup, data when there is any, and status, which alone
        carries the callback. */
    method PushControlTransfer(packet: SetupPacket, dataAddress: nat, dataSize: nat, callback: nat)
      requires Valid() && dataSize <= 0x1_0000 && dataSize == packet.dataLength
      modifies this, ring, completions
      ensures Valid() && |old(Strip(items))| <= |Strip(items)|
      ensures Encodable(packet) ==>
        Decodes(Raw(Strip(items))[|old(Strip(items))|..], packet, dataAddress, dataSize, callback != 0)
      ensures Raw(Strip(items)) == old(Raw(Strip(items))) + ControlStages(packet, dataAddress, dataSize, callback != 0)
      ensures Strip(pending) == old(Strip(pending)) + (if dataSize > 0 then [0, 0] else [0]) + [callback]
    {
      hide Strip;
      hide Raw;
      hide TypeOf;
      hide WithCycle;
      hide CycleAt;
      hide IsLink;
      hide LinkTo;
      hide Valid;
      hide MakeSetup;
      hide MakeDataStage;
      hide MakeStatus;
      hide Decodes;
      hide Encodable;
      ghost var before := Strip(items);
      var dataStage, dataIn := dataSize > 0, packet.DeviceToHost();
      StageTypes(packet, dataAddress, dataSize, callback != 0);
      ghost var dropped := PushCommand(MakeSetup(packet, dataStage, dataIn), 0);
      if dataStage {
        dropped := PushCommand(MakeDataStage(dataAddress, dataSize, dataIn), 0);
      }
      dropped := PushCommand(MakeStatus(dataSize == 0 || !dataIn, callback != 0), callback);
      StagesQueued(before, Strip(items), packet, dataAddress, dataSize, callback != 0);
    }
  }

  /** The controller's end of a command or transfer ring: it reads slots, trusting the cycle bit, and
      follows Link TRBs where they lead, toggling its own cycle state if they say so. */
  class Controller {
    var dequeueIndex: nat
    var cycleState: bool
    var log: seq<TRB>
    ghost var position: nat

    /** In step with the ring: at most a ring's length behind, having read what was pushed so far. */
    ghost predicate Follows(r: ProducerRing)
      reads this, r
    {
      && position <= |r.items| <= position + RING_SIZE
      && dequeueIndex == SlotAt(position) && cycleState == CycleAt(position)
      && log == Strip(r.items[..position])
    }

    constructor (r: ProducerRing)
      requires r.items == []
      ensures Follows(r) && position == 0 && log == []
    {
      dequeueIndex, cycleState, log := 0, true, [];
      position := 0;
    }

    /** The slot the controller stands on looks valid to it. */
    predicate Sees(r: ProducerRing)
      requires dequeueIndex < r.ring.Length
      reads this, r.ring
    {
      Cycle(r.ring[dequeueIndex]) == cycleState
    }

    /** Reads one slot.  A valid one is the next TRB or link in order; the ring looks empty exactly when
        nothing is left. */
    method Advance(r: ProducerRing) returns (found: bool)
      requires r.Valid() && Follows(r)
      modifies this
      ensures Follows(r) && found == (old(position) < |r.items|)
      ensures position == old(position) + if found then 1 else 0
    {
      hide SlotAt;
      hide CycleAt;
      hide LinkTo;
      hide TypeOf;
      hide Holds;
      hide Strip;
      ConsumerSees(r.ring[..], r.items, position);
      var trb := r.ring[dequeueIndex];
      found := Sees(r);
      if found {
        StripTake(r.items, position);
        NextPosition(position);
        if TypeOf(trb) == LINK_TYPE {
          var target := trb.parameter0 + 0x1_0000_0000 * trb.parameter1;
          dequeueIndex := (target - r.base) / 16;
          if trb.control / 2 % 2 == 1 {
            cycleState := !cycleState;
          }
        } else {
          dequeueIndex, log := dequeueIndex + 1, log + [trb];
        }
        position := position + 1;
      }
    }

    /** Reads until the ring looks empty. */
    method Drain(r: ProducerRing)
      requires r.Valid() && Follows(r)
      modifies this
      ensures Follows(r) && position == |r.items|
    {
      var found := true;
      while found
        invariant Follows(r)
        invariant !found ==> position == |r.items|
        decreases |r.items| - position, found
      {
        found := Advance(r);
      }
    }
  }

  /** The event ring: the controller posts, the driver processes.  It has no links. */
  class EventRing {
    const ring: array<TRB>
    var dequeueIndex: nat
    var cycleState: bool
    ghost var items: seq<TRB>
    ghost var position: nat

    ghost predicate Valid()
      reads this, ring
    {
      && ring.Length == RING_SIZE && Holds(ring[..], items, ZERO) && Marked(items)
      && position <= |items| <= position + RING_SIZE
      && dequeueIndex == SlotAt(position) && cycleState == CycleAt(position)
    }

    constructor ()
      ensures Valid() && items == [] && position == 0 && fresh(ring)
    {
      ring := new TRB[RING_SIZE](_ => ZERO);
      dequeueIndex, cycleState := 0, true;
      items, position := [], 0;
    }

    /** The controller posts an event with the cycle bit of its lap, while the ring is not full. */
    method Post(trb: TRB, count: nat)
      requires Valid() && count == |items| < position + RING_SIZE
      modifies this`items, ring
      ensures Valid() && items == old(items) + [WithCycle(trb, CycleAt(|old(items)|))]
    {
      hide SlotAt;
      hide CycleAt;
      hide Holds;
      hide WithCycle;
      var marked := WithCycle(trb, CycleAt(count));
      WriteHolds(ring[..], items, ZERO, marked);
      ring[SlotAt(count)] := marked;
      items := items + [marked];
    }

    /** Takes the next event, if there is one. */
    method Process() returns (found: bool, trb: TRB)
      requires Valid()
      modifies this`dequeueIndex, this`cycleState, this`position
      ensures Valid() && found == (old(position) < |items|)
      ensures found ==> trb == items[old(position)]
      ensures position == old(position) + if found then 1 else 0
    {
      hide CycleAt;
      hide Holds;
      ConsumerSees(ring[..], items, position);
      trb := ring[dequeueIndex];
      found := Cycle(trb) == cycleState;
      if found {
        NextPosition(position);
        dequeueIndex := dequeueIndex + 1;
        if dequeueIndex == RING_SIZE {
          dequeueIndex, cycleState := 0, !cycleState;
        }
        position := position + 1;
      }
    }

    /** Calls `Process` a number of times. */
    method ProcessSome(times: nat) returns (events: seq<TRB>)
      requires Valid()
      modifies this`dequeueIndex, this`cycleState, this`position
      ensures Valid() && old(position) <= position && events == items[old(position)..position]
      ensures position == if old(position) + times <= |items| then old(position) + times else |items|
    {
      events := [];
      for k := 0 to times
        invariant Valid() && old(position) <= position && events == items[old(position)..position]
        invariant position == if old(position) + k <= |items| then old(position) + k else |items|
      {
        var found, trb := Process();
        if found {
          events := events + [trb];
        }
      }
    }
  }

  /** What becomes of a run: each event is posted if the ring has room, and then the driver processes so
      many times. */
  function Posted(posts: seq<(TRB, nat)>): (w: (seq<TRB>, nat))
    ensures w.1 <= |w.0|
  {
    if posts == [] then ([], 0) else
      var (posted, read) := Posted(posts[..|posts| - 1]);
      var (trb, times) := posts[|posts| - 1];
      var now := if |posted| - read < RING_SIZE then posted + [trb] else posted;
      (now, if read + times <= |now| then read + times else |now|)
  }

  /** While the driver processes nothing the first 128 events are posted and no more. */
  lemma {:induction false} PostedFull(posts: seq<(TRB, nat)>)
    requires forall i :: 0 <= i < |posts| ==> posts[i].1 == 0
    ensures Posted(posts).1 == 0 && |Posted(posts).0| == if |posts| < 128 then |posts| else 128
    ensures forall i :: 0 <= i < |Posted(posts).0| ==> Posted(posts).0[i] == posts[i].0
  {
    if posts != [] {
      PostedFull(posts[..|posts| - 1]);
    }
  }

  method PostRaw(r: EventRing, trb: TRB, posted: seq<TRB>)
    requires r.Valid() && |posted| == |r.items| && |r.items| < r.position + RING_SIZE && Raw(posted) == Raw(r.items)
    modifies r`items, r.ring
    ensures r.Valid() && |r.items| == |old(r.items)| + 1 && r.items[..r.position] == old(r.items)[..r.position]
    ensures Raw(posted + [trb]) == Raw(r.items)
  {
    hide SlotAt, CycleAt, Holds, WithCycle, Marked, Raw;
    ghost var before := r.items;
    RawAppend(before, trb, CycleAt(|before|));
    RawAppend(posted, trb, false);
    r.Post(trb, |posted|);
  }

  /** Any interleaving of a controller that posts while the event ring has room and a driver that
      processes, ending when the driver finds nothing more: the driver got exactly what was posted. */
  method RunEvents(posts: seq<(TRB, nat)>) returns (posted: seq<TRB>, received: seq<TRB>)
    ensures posted == Posted(posts).0 && Raw(received) == Raw(posted)
  {
    hide SlotAt, CycleAt, Holds, WithCycle, Marked, Raw;
    var r := new EventRing();
    posted, received := [], [];
    for i := 0 to |posts|
      invariant (posted, r.position) == Posted(posts[..i])
      invariant r.Valid() && fresh(r) && fresh(r.ring)
      invariant |posted| == |r.items| && Raw(posted) == Raw(r.items) && received == r.items[..r.position]
    {
      assert posts[..i + 1][..i] == posts[..i];
      if |posted| - |received| < RING_SIZE {
        PostRaw(r, posts[i].0, posted);
        posted := posted + [posts[i].0];
      }
      var events := r.ProcessSome(posts[i].1);
      received := received + events;
    }
    assert posts[..|posts|] == posts;
    var events := r.ProcessSome(|posted|);
    received := received + events;
    assert received == r.items;
  }
}
