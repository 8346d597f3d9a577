/** The open-addressing hash table: wrap-around linear probing, tombstones and doubling, against the finite
    map it stands for.  Keys are integers under an arbitrary hash function. */
module Hashtable {
  import opened Counting

  type Key = int
  type Value = int
  type Hash = Key -> nat

  datatype Slot = Empty | Deleted | Filled(key: Key, value: Value)

  datatype Table = Table(slots: seq<Slot>, load: nat)

  /** The j-th slot probed from `home` in a table of `capacity` slots. */
  function Probe(home: nat, j: nat, capacity: nat): nat
    requires home < capacity && j < capacity
  {
    if home + j < capacity then home + j else home + j - capacity
  }

  function Home(h: Hash, key: Key, capacity: nat): (r: nat)
    requires capacity > 0
    ensures r < capacity
  {
    h(key) % capacity
  }

  predicate Stops(slot: Slot, key: Key, inserting: bool) {
    slot.Empty? || (slot.Deleted? && inserting) || (slot.Filled? && slot.key == key)
  }

  /** The number of the first probe from `j` on at which the search stops, or the capacity if none does. */
  function Search(slots: seq<Slot>, home: nat, key: Key, inserting: bool, j: nat): (r: nat)
    requires home < |slots| && j <= |slots|
    ensures j <= r <= |slots|
    ensures forall i :: j <= i < r ==> !Stops(slots[Probe(home, i, |slots|)], key, inserting)
    ensures r < |slots| ==> Stops(slots[Probe(home, r, |slots|)], key, inserting)
    decreases |slots| - j
  {
    if j == |slots| || Stops(slots[Probe(home, j, |slots|)], key, inserting) then j
    else Search(slots, home, key, inserting, j + 1)
  }

  datatype Found = At(index: nat) | Unreachable

  /** The slot of the key or, failing that, where it could be inserted; the code asserts there is one. */
  function Lookup(h: Hash, slots: seq<Slot>, key: Key, inserting: bool): (r: Found)
    requires |slots| > 0
    ensures r.At? ==> r.index < |slots| && Stops(slots[r.index], key, inserting)
  {
    var home := Home(h, key, |slots|);
    var j := Search(slots, home, key, inserting, 0);
    if j == |slots| then Unreachable else At(Probe(home, j, |slots|))
  }

  // ----- the table and the map -----

  /** Every entry can be reached from its home slot without crossing an empty one. */
  ghost predicate Reachable(h: Hash, slots: seq<Slot>) {
    forall i :: 0 <= i < |slots| && slots[i].Filled? ==>
      forall j :: 0 <= j < |slots| && Before(Home(h, slots[i].key, |slots|), j, i, |slots|) ==>
        !slots[Probe(Home(h, slots[i].key, |slots|), j, |slots|)].Empty?
  }

  /** Probe j from `home` comes before the probe that hits slot i. */
  predicate Before(home: nat, j: nat, i: nat, capacity: nat) {
    j < (if i >= home then i - home else i + capacity - home)
  }

  ghost predicate OneSlotEach(slots: seq<Slot>) {
    forall i, j :: 0 <= i < j < |slots| && slots[i].Filled? && slots[j].Filled? ==> slots[i].key != slots[j].key
  }

  /** The entries of the table are those of the map. */
  ghost predicate Entries(slots: seq<Slot>, m: map<Key, Value>) {
    && (forall i :: 0 <= i < |slots| && slots[i].Filled? ==>
          slots[i].key in m && m[slots[i].key] == slots[i].value)
    && (forall k :: k in m ==> Filled(k, m[k]) in slots)
  }

  ghost predicate Good(h: Hash, t: Table, m: map<Key, Value>) {
    && |t.slots| > 0
    && Reachable(h, t.slots) && OneSlotEach(t.slots) && Entries(t.slots, m)
    && t.load == |m|
  }

  lemma ProbeHits(home: nat, i: nat, capacity: nat) returns (d: nat)
    requires home < capacity && i < capacity
    ensures d < capacity && Probe(home, d, capacity) == i
    ensures forall j :: 0 <= j < capacity ==> (Before(home, j, i, capacity) <==> j < d)
  {
    d := if i >= home then i - home else i + capacity - home;
  }

  /** The slot of a key that is present is found. */
  lemma LookupPresent(h: Hash, t: Table, m: map<Key, Value>, key: Key)
    requires Good(h, t, m) && key in m
    ensures var r := Lookup(h, t.slots, key, false); r.At? && t.slots[r.index] == Filled(key, m[key])
  {
    var slots, home := t.slots, Home(h, key, |t.slots|);
    var j := Search(slots, home, key, false, 0);
    var i :| 0 <= i < |slots| && slots[i] == Filled(key, m[key]);
    var d := ProbeHits(home, i, |slots|);
    assert Stops(slots[Probe(home, d, |slots|)], key, false);
    if j < d {
      assert Before(home, j, i, |slots|);
      assert !slots[Probe(home, j, |slots|)].Empty?;
    }
  }

  /** A lookup ends, at the key's slot when the map has it and at an empty slot otherwise, exactly when the key
      is present or an empty slot is left. */
  lemma LookupExactly(h: Hash, t: Table, m: map<Key, Value>, key: Key)
    requires Good(h, t, m)
    ensures var r := Lookup(h, t.slots, key, false);
      && (r.At? <==> key in m || Empty in t.slots)
      && (r.At? ==> t.slots[r.index] == if key in m then Filled(key, m[key]) else Empty)
  {
    var r := Lookup(h, t.slots, key, false);
    if key in m {
      LookupPresent(h, t, m, key);
    } else {
      if Empty in t.slots {
        StopsAtEmpty(h, t.slots, key);
      }
      assert r.At? ==> t.slots[r.index] in t.slots;
    }
  }

  lemma StopsAtEmpty(h: Hash, slots: seq<Slot>, key: Key)
    requires |slots| > 0 && Empty in slots
    ensures Lookup(h, slots, key, true).At? && Lookup(h, slots, key, false).At?
  {
    var i :| 0 <= i < |slots| && slots[i] == Empty;
    var d := ProbeHits(Home(h, key, |slots|), i, |slots|);
    assert Stops(slots[Probe(Home(h, key, |slots|), d, |slots|)], key, true);
  }

  // ----- inserting -----

  datatype PutResult = Done(table: Table, inserted: bool) | Stuck

  /** Stores an entry in the slot a lookup for insertion gives. */
  function Put(h: Hash, t: Table, key: Key, value: Value, overwrite: bool): (r: PutResult)
    requires |t.slots| > 0
    ensures r.Done? ==> |r.table.slots| == |t.slots|
  {
    match Lookup(h, t.slots, key, true)
    case Unreachable => Stuck
    case At(i) =>
      if t.slots[i].Filled? then
        if overwrite then Done(t.(slots := t.slots[i := Filled(key, value)]), true) else Done(t, false)
      else Done(Table(t.slots[i := Filled(key, value)], t.load + 1), true)
  }

  /** A lookup for insertion does not stop at a tombstone in front of the key's own slot. */
  predicate Unobstructed(h: Hash, t: Table, m: map<Key, Value>, key: Key)
    requires |t.slots| > 0
  {
    var r := Lookup(h, t.slots, key, true);
    key !in m || (r.At? && t.slots[r.index].Filled?)
  }

  function MapPut(m: map<Key, Value>, key: Key, value: Value, overwrite: bool): map<Key, Value> {
    if key in m && !overwrite then m else m[key := value]
  }

  lemma FillKeepsReachable(h: Hash, slots: seq<Slot>, i: nat, key: Key, value: Value)
    requires Reachable(h, slots) && i < |slots|
    requires forall j :: 0 <= j < |slots| && Before(Home(h, key, |slots|), j, i, |slots|) ==>
      !slots[Probe(Home(h, key, |slots|), j, |slots|)].Empty?
    ensures Reachable(h, slots[i := Filled(key, value)])
  {
    hide Home;
    hide Before;
    var slots' := slots[i := Filled(key, value)];
    forall n, j | 0 <= n < |slots'| && slots'[n].Filled? && 0 <= j < |slots'|
                  && Before(Home(h, slots'[n].key, |slots'|), j, n, |slots'|)
      ensures !slots'[Probe(Home(h, slots'[n].key, |slots'|), j, |slots'|)].Empty?
    {
      if n != i {
        assert slots'[n] == slots[n];
      }
    }
  }

  lemma FillKeepsEntries(slots: seq<Slot>, m: map<Key, Value>, i: nat, key: Key, value: Value)
    requires Entries(slots, m) && OneSlotEach(slots) && i < |slots|
    requires if slots[i].Filled? then slots[i].key == key else key !in m
    ensures Entries(slots[i := Filled(key, value)], m[key := value])
  {
    var slots', m' := slots[i := Filled(key, value)], m[key := value];
    assert slots'[i] == Filled(key, value);
    forall k | k in m' ensures Filled(k, m'[k]) in slots' {
      if k != key {
        var j :| 0 <= j < |slots| && slots[j] == Filled(k, m[k]);
        assert slots'[j] == Filled(k, m[k]);
      }
    }
  }

  lemma LookupPath(h: Hash, slots: seq<Slot>, key: Key)
    requires |slots| > 0
    ensures var r := Lookup(h, slots, key, true);
      r.At? ==> forall j :: 0 <= j < |slots| && Before(Home(h, key, |slots|), j, r.index, |slots|) ==>
        slots[Probe(Home(h, key, |slots|), j, |slots|)].Filled?
  {
    var r := Lookup(h, slots, key, true);
    if r.At? {
      var home := Home(h, key, |slots|);
      var d := ProbeHits(home, r.index, |slots|);
      var s := Search(slots, home, key, true, 0);
      assert Probe(home, s, |slots|) == Probe(home, d, |slots|);
    }
  }

  /** Storing an entry is storing it in the map, if no tombstone stands in front of the key. */
  lemma PutAgrees(h: Hash, t: Table, m: map<Key, Value>, key: Key, value: Value, overwrite: bool)
    requires Good(h, t, m) && Lookup(h, t.slots, key, true).At? && Unobstructed(h, t, m, key)
    ensures var r := Put(h, t, key, value, overwrite);
      && r.Done? && r.inserted == (key !in m || overwrite)
      && Good(h, r.table, MapPut(m, key, value, overwrite))
      && (Deleted !in t.slots ==> Deleted !in r.table.slots) && |r.table.slots| == |t.slots|
  {
    hide Lookup;
    hide Reachable;
    var i := Lookup(h, t.slots, key, true).index;
    LookupPath(h, t.slots, key);
    assert t.slots[i].Filled? ==> key in m by {
      assert t.slots[i] in t.slots;
    }
    if overwrite || !t.slots[i].Filled? {
      FillKeepsReachable(h, t.slots, i, key, value);
      FillKeepsEntries(t.slots, m, i, key, value);
      assert key !in m ==> |m[key := value]| == |m| + 1;
      FillKeepsOneSlot(t.slots, m, i, key, value);
    }
  }

  lemma FillKeepsOneSlot(slots: seq<Slot>, m: map<Key, Value>, i: nat, key: Key, value: Value)
    requires Entries(slots, m) && OneSlotEach(slots) && i < |slots|
    requires if slots[i].Filled? then slots[i].key == key else key !in m
    ensures OneSlotEach(slots[i := Filled(key, value)])
  {
  }

  /** It is not otherwise: a tombstone in front of the key's slot gets a second entry for the key. */
  lemma PutExactly(h: Hash, t: Table, m: map<Key, Value>, key: Key, value: Value, overwrite: bool)
    requires Good(h, t, m) && Lookup(h, t.slots, key, true).At?
    ensures var r := Put(h, t, key, value, overwrite);
      r.Done? && (Good(h, r.table, MapPut(m, key, value, overwrite)) <==> Unobstructed(h, t, m, key))
  {
    hide Lookup;
    hide Reachable;
    if Unobstructed(h, t, m, key) {
      PutAgrees(h, t, m, key, value, overwrite);
    } else {
      var i := Lookup(h, t.slots, key, true).index;
      var n :| 0 <= n < |t.slots| && t.slots[n] == Filled(key, m[key]);
      var slots' := Put(h, t, key, value, overwrite).table.slots;
      assert n != i && slots'[n] == t.slots[n] && slots'[i] == Filled(key, value);
      assert !OneSlotEach(slots') by {
        assert slots'[if i < n then i else n].key == slots'[if i < n then n else i].key;
      }
    }
  }

  // ----- extracting -----

  lemma ExtractAgrees(h: Hash, t: Table, m: map<Key, Value>, key: Key, i: nat)
    requires Good(h, t, m) && i < |t.slots| && t.slots[i].Filled? && t.slots[i].key == key
    ensures Good(h, Table(t.slots[i := Deleted], t.load - 1), m - {key})
    ensures Empty in t.slots ==> Empty in t.slots[i := Deleted]
  {
    var slots' := t.slots[i := Deleted];
    assert t.slots[i] in t.slots;
    assert (m - {key}).Keys == m.Keys - {key};
    assert |(m - {key}).Keys| == |m.Keys| - 1;
    DeleteKeepsReachable(h, t.slots, i);
    DeleteKeepsEntries(t.slots, m, i, key);
    if Empty in t.slots {
      var n :| 0 <= n < |t.slots| && t.slots[n] == Empty;
      assert slots'[n] == Empty;
    }
  }

  lemma DeleteKeepsReachable(h: Hash, slots: seq<Slot>, i: nat)
    requires Reachable(h, slots) && i < |slots|
    ensures Reachable(h, slots[i := Deleted])
  {
    hide Home;
    hide Before;
    var slots' := slots[i := Deleted];
    forall n, j | 0 <= n < |slots'| && slots'[n].Filled? && 0 <= j < |slots'|
                  && Before(Home(h, slots'[n].key, |slots'|), j, n, |slots'|)
      ensures !slots'[Probe(Home(h, slots'[n].key, |slots'|), j, |slots'|)].Empty?
    {
      assert slots'[n] == slots[n];
    }
  }

  lemma DeleteKeepsEntries(slots: seq<Slot>, m: map<Key, Value>, i: nat, key: Key)
    requires Entries(slots, m) && OneSlotEach(slots) && i < |slots| && slots[i].Filled? && slots[i].key == key
    ensures Entries(slots[i := Deleted], m - {key})
  {
    var slots' := slots[i := Deleted];
    forall k | k in m - {key} ensures Filled(k, m[k]) in slots' {
      var j :| 0 <= j < |slots| && slots[j] == Filled(k, m[k]);
      assert slots'[j] == Filled(k, m[k]);
    }
  }

  // ----- growing -----

  /** Moves the entries of an old slot array, from slot i on, into a table. */
  function Refill(h: Hash, before: seq<Slot>, i: nat, t: Table): (r: PutResult)
    requires i <= |before| && |t.slots| > 0
    ensures r.Done? ==> |r.table.slots| == |t.slots|
    decreases |before| - i
  {
    if i == |before| then Done(t, true)
    else if !before[i].Filled? then Refill(h, before, i + 1, t)
    else
      match Put(h, t, before[i].key, before[i].value, false)
      case Stuck => Stuck
      case Done(t', _) => Refill(h, before, i + 1, t')
  }

  function Fresh(capacity: nat): Table { Table(seq(capacity, _ => Empty), 0) }

  /** The capacity of a table after the check that precedes a store. */
  function Grown(load: nat, capacity: nat): nat { if load * 2 > capacity then capacity * 2 else capacity }

  /** Doubles the table when it is more than half full. */
  function CheckSize(h: Hash, t: Table): (r: PutResult)
    requires |t.slots| > 0
    ensures r.Done? ==> |r.table.slots| == Grown(t.load, |t.slots|)
  {
    if t.load * 2 > |t.slots| then Refill(h, t.slots, 0, Fresh(|t.slots| * 2)) else Done(t, true)
  }

  /** The entries in the slots below i. */
  ghost function MapBelow(slots: seq<Slot>, i: nat): (m: map<Key, Value>)
    requires i <= |slots|
    ensures |m| <= i
  {
    if i == 0 then map[]
    else if slots[i - 1].Filled? then MapBelow(slots, i - 1)[slots[i - 1].key := slots[i - 1].value]
    else MapBelow(slots, i - 1)
  }

  lemma {:induction false} MapBelowFrom(slots: seq<Slot>, i: nat, k: Key) returns (j: nat)
    requires i <= |slots| && k in MapBelow(slots, i)
    ensures j < i && slots[j] == Filled(k, MapBelow(slots, i)[k])
  {
    if slots[i - 1].Filled? && slots[i - 1].key == k {
      j := i - 1;
    } else {
      j := MapBelowFrom(slots, i - 1, k);
    }
  }

  lemma {:induction false} MapBelowHas(slots: seq<Slot>, i: nat, j: nat)
    requires j < i <= |slots| && OneSlotEach(slots) && slots[j].Filled?
    ensures slots[j].key in MapBelow(slots, i) && MapBelow(slots, i)[slots[j].key] == slots[j].value
  {
    if j < i - 1 {
      MapBelowHas(slots, i - 1, j);
    }
  }

  lemma {:induction false} MapBelowAll(slots: seq<Slot>, m: map<Key, Value>)
    requires OneSlotEach(slots) && Entries(slots, m)
    ensures MapBelow(slots, |slots|) == m
  {
    var all := MapBelow(slots, |slots|);
    forall k | k in all ensures k in m && m[k] == all[k] {
      var j := MapBelowFrom(slots, |slots|, k);
    }
    forall k | k in m ensures k in all {
      var j :| 0 <= j < |slots| && slots[j] == Filled(k, m[k]);
      MapBelowHas(slots, |slots|, j);
    }
  }

  lemma {:induction false} MapBelowStep(slots: seq<Slot>, i: nat)
    requires i < |slots| && OneSlotEach(slots)
    ensures MapBelow(slots, i + 1) ==
      if slots[i].Filled? then MapPut(MapBelow(slots, i), slots[i].key, slots[i].value, false) else MapBelow(slots, i)
    ensures slots[i].Filled? ==> slots[i].key !in MapBelow(slots, i)
  {
    if slots[i].Filled? && slots[i].key in MapBelow(slots, i) {
      var j := MapBelowFrom(slots, i, slots[i].key);
      assert false;
    }
  }

  // ----- slots in use -----

  /** The slots that are not empty: entries and tombstones. */
  ghost function Used(slots: seq<Slot>): set<nat> { set i | 0 <= i < |slots| && !slots[i].Empty? }

  /** The slots below i that hold an entry. */
  ghost function FilledSlots(slots: seq<Slot>, i: nat): (s: set<nat>)
    requires i <= |slots|
  {
    set j | 0 <= j < i && slots[j].Filled?
  }

  lemma FilledNext(slots: seq<Slot>, i: nat)
    requires i < |slots|
    ensures |FilledSlots(slots, i + 1)| == |FilledSlots(slots, i)| + if slots[i].Filled? then 1 else 0
  {
    var before := FilledSlots(slots, i);
    assert i !in before;
    assert FilledSlots(slots, i + 1) == if slots[i].Filled? then before + {i} else before;
  }

  lemma {:induction false} FilledBelow(slots: seq<Slot>, i: nat)
    requires i <= |slots| && OneSlotEach(slots)
    ensures |FilledSlots(slots, i)| == |MapBelow(slots, i)|
  {
    hide FilledSlots;
    hide OneSlotEach;
    if i == 0 {
      NoneFilled(slots);
    } else {
      FilledBelow(slots, i - 1);
      FilledNext(slots, i - 1);
      MapBelowStep(slots, i - 1);
    }
  }

  lemma NoneFilled(slots: seq<Slot>)
    ensures FilledSlots(slots, 0) == {}
  {
  }

  /** Without tombstones every slot in use holds an entry of the map. */
  lemma UsedClean(h: Hash, t: Table, m: map<Key, Value>)
    requires Good(h, t, m) && Deleted !in t.slots
    ensures |Used(t.slots)| == |m|
  {
    forall i | 0 <= i < |t.slots| ensures t.slots[i].Empty? || t.slots[i].Filled? {
      assert t.slots[i] in t.slots;
    }
    assert Used(t.slots) == FilledSlots(t.slots, |t.slots|);
    FilledBelow(t.slots, |t.slots|);
    MapBelowAll(t.slots, m);
  }

  lemma EntriesUsed(h: Hash, t: Table, m: map<Key, Value>)
    requires Good(h, t, m)
    ensures |m| <= |Used(t.slots)|
  {
    var filled := FilledSlots(t.slots, |t.slots|);
    FilledBelow(t.slots, |t.slots|);
    MapBelowAll(t.slots, m);
    SubsetSize(filled, Used(t.slots));
  }

  lemma UsedLeavesRoom(slots: seq<Slot>)
    ensures Empty in slots <==> |Used(slots)| < |slots|
  {
    var all := Below(|slots|);
    SubsetSize(Used(slots), all);
    if Empty in slots {
      var i: nat :| i < |slots| && slots[i] == Empty;
      SubsetSize(Used(slots), all - {i});
    } else {
      forall i | 0 <= i < |slots| ensures i in Used(slots) {
        assert slots[i] in slots;
      }
      SubsetSize(all, Used(slots));
    }
  }

  /** A table without tombstones and with fewer entries than slots has an empty slot. */
  lemma RoomLeft(h: Hash, t: Table, m: map<Key, Value>)
    requires Good(h, t, m) && Deleted !in t.slots && |m| < |t.slots|
    ensures Empty in t.slots
  {
    UsedClean(h, t, m);
    UsedLeavesRoom(t.slots);
  }

  /** With fewer entries than slots a lookup for insertion always ends. */
  lemma PlaceLeft(h: Hash, t: Table, m: map<Key, Value>, key: Key)
    requires Good(h, t, m) && |m| < |t.slots|
    ensures Lookup(h, t.slots, key, true).At?
  {
    if Lookup(h, t.slots, key, true).Unreachable? {
      forall i | 0 <= i < |t.slots| ensures t.slots[i].Filled? {
        var d := ProbeHits(Home(h, key, |t.slots|), i, |t.slots|);
      }
      if Deleted in t.slots {
        assert false;
      }
      RoomLeft(h, t, m);
    }
  }

  lemma FreshGood(h: Hash, capacity: nat)
    requires capacity > 0
    ensures Good(h, Fresh(capacity), map[]) && Deleted !in Fresh(capacity).slots
  {
  }

  /** Refilling a table twice the size ends and gives a table for the same map, without tombstones. */
  lemma {:induction false} RefillAgrees(h: Hash, before: seq<Slot>, i: nat, t: Table)
    requires OneSlotEach(before) && i <= |before| && |t.slots| == 2 * |before| > 0
    requires Good(h, t, MapBelow(before, i)) && Deleted !in t.slots
    ensures var r := Refill(h, before, i, t);
      && r.Done? && Good(h, r.table, MapBelow(before, |before|))
      && Deleted !in r.table.slots && |r.table.slots| == 2 * |before|
    decreases |before| - i
  {
    hide Good;
    hide Lookup;
    hide Put;
    hide MapBelow;
    hide MapPut;
    hide OneSlotEach;
    if i < |before| {
      MapBelowStep(before, i);
      if before[i].Filled? {
        var key, value, m := before[i].key, before[i].value, MapBelow(before, i);
        RoomLeft(h, t, m);
        StopsAtEmpty(h, t.slots, key);
        PutAgrees(h, t, m, key, value, false);
        RefillAgrees(h, before, i + 1, Put(h, t, key, value, false).table);
      } else {
        RefillAgrees(h, before, i + 1, t);
      }
    }
  }

  /** Growing when needed keeps the map, clears the tombstones, and leaves fewer entries than slots. */
  lemma CheckSizeAgrees(h: Hash, t: Table, m: map<Key, Value>)
    requires Good(h, t, m)
    ensures var r := CheckSize(h, t);
      && r.Done? && Good(h, r.table, m) && |m| < |r.table.slots|
      && (if |m| * 2 > |t.slots| then Deleted !in r.table.slots else r.table == t)
  {
    if t.load * 2 > |t.slots| {
      FreshGood(h, |t.slots| * 2);
      RefillAgrees(h, t.slots, 0, Fresh(|t.slots| * 2));
      MapBelowAll(t.slots, m);
    }
  }

  // ----- operations and runs -----

  datatype Operation =
    | Insert(key: Key, value: Value)
    | Assign(key: Key, value: Value)
    | Find(key: Key)
    | Extract(key: Key)
  {
    predicate Stores() { Insert? || Assign? }
  }

  datatype Output = Stored(inserted: bool) | Absent | Present(value: Value) | Crash

  function Store(h: Hash, t: Table, key: Key, value: Value, overwrite: bool): (r: (Table, Output))
    requires |t.slots| > 0
    ensures |r.0.slots| > 0
  {
    match CheckSize(h, t)
    case Stuck => (t, Crash)
    case Done(t1, _) =>
      match Put(h, t1, key, value, overwrite)
      case Stuck => (t, Crash)
      case Done(t2, inserted) => (t2, Stored(inserted))
  }

  function Step(h: Hash, t: Table, op: Operation): (r: (Table, Output))
    requires |t.slots| > 0
    ensures |r.0.slots| > 0
  {
    match op
    case Insert(key, value) => Store(h, t, key, value, false)
    case Assign(key, value) => Store(h, t, key, value, true)
    case Find(key) =>
      (match Lookup(h, t.slots, key, false)
       case Unreachable => (t, Crash)
       case At(i) => (t, if t.slots[i].Filled? then Present(t.slots[i].value) else Absent))
    case Extract(key) =>
      (match Lookup(h, t.slots, key, false)
       case Unreachable => (t, Crash)
       case At(i) =>
         if t.slots[i].Filled? then
           (Table(t.slots[i := Deleted], if t.load > 0 then t.load - 1 else 0), Present(t.slots[i].value))
         else (t, Absent))
  }

  /** The same operation on a map. */
  function MapStep(m: map<Key, Value>, op: Operation): (map<Key, Value>, Output) {
    match op
    case Insert(key, value) => (MapPut(m, key, value, false), Stored(key !in m))
    case Assign(key, value) => (MapPut(m, key, value, true), Stored(true))
    case Find(key) => (m, if key in m then Present(m[key]) else Absent)
    case Extract(key) => (m - {key}, if key in m then Present(m[key]) else Absent)
  }

  /** The outputs of a run; a search that runs off the end is the last thing that happens. */
  function RunTable(h: Hash, t: Table, ops: seq<Operation>): seq<Output>
    requires |t.slots| > 0
    decreases |ops|
  {
    if ops == [] then [] else
      var (t', out) := Step(h, t, ops[0]);
      [out] + if out.Crash? then [] else RunTable(h, t', ops[1..])
  }

  function RunMap(m: map<Key, Value>, ops: seq<Operation>): seq<Output>
    decreases |ops|
  {
    if ops == [] then [] else
      var (m', out) := MapStep(m, ops[0]);
      [out] + RunMap(m', ops[1..])
  }

  /** When the answer to an operation is the map's: storing needs that, after growing, no tombstone stands in
      front of a key that is present; looking up needs the key or an empty slot. */
  ghost predicate Answerable(h: Hash, t: Table, m: map<Key, Value>, op: Operation)
    requires |t.slots| > 0
  {
    if op.Stores() then CheckSize(h, t).Done? && Unobstructed(h, CheckSize(h, t).table, m, op.key)
    else op.key in m || Empty in t.slots
  }

  /** Exactly then an operation answers as the map does and leaves a table for the map it leaves. */
  lemma StepExactly(h: Hash, t: Table, m: map<Key, Value>, op: Operation)
    requires Good(h, t, m)
    ensures Answerable(h, t, m, op) <==>
      Step(h, t, op).1 == MapStep(m, op).1 && Good(h, Step(h, t, op).0, MapStep(m, op).0)
  {
    hide Good;
    hide Put;
    hide CheckSize;
    hide Lookup;
    hide Unobstructed;
    HasSlots(h, t, m);
    if op.Stores() {
      CheckSizeAgrees(h, t, m);
      var t1 := CheckSize(h, t).table;
      PlaceLeft(h, t1, m, op.key);
      PutExactly(h, t1, m, op.key, op.value, op.Assign?);
      if Unobstructed(h, t1, m, op.key) {
        PutAgrees(h, t1, m, op.key, op.value, op.Assign?);
      }
    } else {
      LookupExactly(h, t, m, op.key);
      var r := Lookup(h, t.slots, op.key, false);
      if op.Extract? && op.key in m {
        ExtractAgrees(h, t, m, op.key, r.index);
        LoadIsSize(h, t, m);
      } else if op.Extract? {
        assert m - {op.key} == m;
      }
    }
  }

  /** Storing a key that is absent always works. */
  lemma StoreAbsent(h: Hash, t: Table, m: map<Key, Value>, op: Operation)
    requires Good(h, t, m) && op.Stores() && op.key !in m
    ensures Answerable(h, t, m, op)
  {
    hide Good;
    CheckSizeAgrees(h, t, m);
  }

  lemma LoadIsSize(h: Hash, t: Table, m: map<Key, Value>)
    requires Good(h, t, m)
    ensures t.load == |m|
  {
  }

  /** Without tombstones a lookup for insertion finds the key itself. */
  lemma CleanIsUnobstructed(h: Hash, t: Table, m: map<Key, Value>, key: Key)
    requires Good(h, t, m) && Empty in t.slots && Deleted !in t.slots
    ensures Unobstructed(h, t, m, key)
  {
    LookupExactly(h, t, m, key);
    SearchCleanSame(t.slots, Home(h, key, |t.slots|), key, 0);
  }

  lemma {:induction false} SearchCleanSame(slots: seq<Slot>, home: nat, key: Key, j: nat)
    requires home < |slots| && j <= |slots| && Deleted !in slots
    ensures Search(slots, home, key, true, j) == Search(slots, home, key, false, j)
    decreases |slots| - j
  {
    if j < |slots| {
      assert slots[Probe(home, j, |slots|)] in slots;
      SearchCleanSame(slots, home, key, j + 1);
    }
  }

  // ----- runs, as the caller can count them -----

  /** What a caller can know of a table by counting: its capacity, a bound on the slots in use, and whether
      nothing was extracted since it last grew. */
  datatype Ledger = Ledger(capacity: nat, used: nat, clean: bool)

  function BeforeStore(l: Ledger, m: map<Key, Value>): Ledger {
    if |m| * 2 > l.capacity then Ledger(l.capacity * 2, |m|, true) else l
  }

  function Next(l: Ledger, m: map<Key, Value>, op: Operation): Ledger {
    if op.Stores() then
      var grown := BeforeStore(l, m);
      if op.key in m then grown else grown.(used := grown.used + 1)
    else if op.Extract? && op.key in m then l.(clean := false)
    else l
  }

  /** A key that is present is stored only into a clean table, and a key that is absent is looked for only
      while fewer slots were used than there are. */
  predicate Allowed(l: Ledger, m: map<Key, Value>, op: Operation) {
    if op.Stores() then op.key !in m || (BeforeStore(l, m).clean && |m| < BeforeStore(l, m).capacity)
    else op.key in m || l.used < l.capacity
  }

  predicate AllowedRun(l: Ledger, m: map<Key, Value>, ops: seq<Operation>)
    decreases |ops|
  {
    ops != [] ==> Allowed(l, m, ops[0]) && AllowedRun(Next(l, m, ops[0]), MapStep(m, ops[0]).0, ops[1..])
  }

  /** The count is true of a table. */
  ghost predicate Tracks(h: Hash, t: Table, m: map<Key, Value>, l: Ledger) {
    && Good(h, t, m) && |t.slots| == l.capacity
    && |Used(t.slots)| <= l.used && (l.clean ==> Deleted !in t.slots)
  }

  lemma TracksGrowth(h: Hash, t: Table, m: map<Key, Value>, l: Ledger)
    requires Tracks(h, t, m, l)
    ensures CheckSize(h, t).Done? && Tracks(h, CheckSize(h, t).table, m, BeforeStore(l, m))
  {
    hide Good;
    hide CheckSize;
    CheckSizeAgrees(h, t, m);
    LoadIsSize(h, t, m);
    if |m| * 2 > l.capacity {
      UsedClean(h, CheckSize(h, t).table, m);
    }
  }

  lemma FillUses(slots: seq<Slot>, i: nat, key: Key, value: Value)
    requires i < |slots|
    ensures |Used(slots[i := Filled(key, value)])| <= |Used(slots)| + if slots[i].Filled? then 0 else 1
  {
    assert Used(slots[i := Filled(key, value)]) == Used(slots) + {i};
  }

  lemma PutUses(h: Hash, t: Table, m: map<Key, Value>, key: Key, value: Value, overwrite: bool)
    requires Good(h, t, m) && Lookup(h, t.slots, key, true).At? && Unobstructed(h, t, m, key)
    ensures |Used(Put(h, t, key, value, overwrite).table.slots)| <= |Used(t.slots)| + if key in m then 0 else 1
  {
    hide Lookup;
    hide Used;
    hide Good;
    var i := Lookup(h, t.slots, key, true).index;
    FillUses(t.slots, i, key, value);
  }

  lemma TracksStep(h: Hash, t: Table, m: map<Key, Value>, l: Ledger, op: Operation)
    requires Tracks(h, t, m, l) && Allowed(l, m, op)
    ensures Step(h, t, op).1 == MapStep(m, op).1
    ensures Tracks(h, Step(h, t, op).0, MapStep(m, op).0, Next(l, m, op))
  {
    hide Good;
    hide Put;
    hide CheckSize;
    hide Lookup;
    hide Unobstructed;
    hide Used;
    HasSlots(h, t, m);
    if op.Stores() {
      TracksGrowth(h, t, m, l);
      var t1 := CheckSize(h, t).table;
      if op.key in m {
        RoomLeft(h, t1, m);
        CleanIsUnobstructed(h, t1, m, op.key);
      } else {
        StoreAbsent(h, t, m, op);
      }
      StepExactly(h, t, m, op);
      CheckSizeAgrees(h, t, m);
      PlaceLeft(h, t1, m, op.key);
      PutUses(h, t1, m, op.key, op.value, op.Assign?);
      PutAgrees(h, t1, m, op.key, op.value, op.Assign?);
    } else {
      UsedLeavesRoom(t.slots);
      StepExactly(h, t, m, op);
      LookupExactly(h, t, m, op.key);
      if op.Extract? && op.key in m {
        DeleteUses(t.slots, Lookup(h, t.slots, op.key, false).index);
      }
    }
  }

  lemma DeleteUses(slots: seq<Slot>, i: nat)
    requires i < |slots| && slots[i].Filled?
    ensures Used(slots[i := Deleted]) == Used(slots)
  {
  }

  /** On every run the counts allow the table answers as the map does, through every rehash, and never runs
      off the end of a search. */
  lemma {:induction false} AllowedRunsAgree(h: Hash, t: Table, m: map<Key, Value>, l: Ledger, ops: seq<Operation>)
    requires Tracks(h, t, m, l) && AllowedRun(l, m, ops)
    ensures |t.slots| > 0 && RunTable(h, t, ops) == RunMap(m, ops)
    decreases |ops|
  {
    hide Good;
    hide Step;
    hide MapStep;
    hide Used;
    hide Next;
    hide Allowed;
    HasSlots(h, t, m);
    if ops != [] {
      TracksStep(h, t, m, l, ops[0]);
      MapStepNeverCrashes(m, ops[0]);
      AllowedRunsAgree(h, Step(h, t, ops[0]).0, MapStep(m, ops[0]).0, Next(l, m, ops[0]), ops[1..]);
    }
  }

  lemma HasSlots(h: Hash, t: Table, m: map<Key, Value>)
    requires Good(h, t, m)
    ensures |t.slots| > 0
  {
  }

  lemma MapStepNeverCrashes(m: map<Key, Value>, op: Operation)
    ensures MapStep(m, op).1 != Crash
  {
  }

  // ----- runs that are always allowed -----

  /** Without extraction nothing but the capacity matters. */
  lemma {:induction false} CleanRunAllowed(l: Ledger, m: map<Key, Value>, ops: seq<Operation>)
    requires l.clean && l.used == |m| < l.capacity && l.capacity >= 3 && forall op :: op in ops ==> !op.Extract?
    ensures AllowedRun(l, m, ops)
    decreases |ops|
  {
    if ops != [] {
      assert ops[0] in ops && forall op :: op in ops[1..] ==> op in ops;
      var m' := MapStep(m, ops[0]).0;
      assert ops[0].Stores() ==> |m'| == |m| + if ops[0].key in m then 0 else 1;
      CleanRunAllowed(Next(l, m, ops[0]), m', ops[1..]);
    }
  }

  /** On every run of insertions, assignments and lookups the table answers as the map does. */
  lemma RunsAgree(h: Hash, capacity: nat, ops: seq<Operation>)
    requires capacity >= 3 && forall op :: op in ops ==> !op.Extract?
    ensures RunTable(h, Fresh(capacity), ops) == RunMap(map[], ops)
  {
    hide AllowedRun;
    FreshTracks(h, capacity);
    CleanRunAllowed(Ledger(capacity, 0, true), map[], ops);
    AllowedRunsAgree(h, Fresh(capacity), map[], Ledger(capacity, 0, true), ops);
  }

  lemma FreshTracks(h: Hash, capacity: nat)
    requires capacity > 0
    ensures Tracks(h, Fresh(capacity), map[], Ledger(capacity, 0, true))
  {
    FreshGood(h, capacity);
    assert Used(Fresh(capacity).slots) == {};
  }

  /** Only absent keys are stored and only present ones looked up, as in a table of callbacks waiting for
      their completion. */
  predicate Paired(m: map<Key, Value>, ops: seq<Operation>)
    decreases |ops|
  {
    ops != [] ==> (ops[0].Stores() <==> ops[0].key !in m) && Paired(MapStep(m, ops[0]).0, ops[1..])
  }

  lemma {:induction false} PairedAllowed(l: Ledger, m: map<Key, Value>, ops: seq<Operation>)
    requires Paired(m, ops)
    ensures AllowedRun(l, m, ops)
    decreases |ops|
  {
    if ops != [] {
      PairedAllowed(Next(l, m, ops[0]), MapStep(m, ops[0]).0, ops[1..]);
    }
  }

  /** Such runs agree with the map from any table for it, with or without an empty slot. */
  lemma PairedRunsAgree(h: Hash, t: Table, m: map<Key, Value>, ops: seq<Operation>)
    requires Good(h, t, m) && Paired(m, ops)
    ensures RunTable(h, t, ops) == RunMap(m, ops)
  {
    hide AllowedRun;
    hide Good;
    var l := Ledger(|t.slots|, |Used(t.slots)|, false);
    PairedAllowed(l, m, ops);
    AllowedRunsAgree(h, t, m, l, ops);
  }

  // ----- tombstones use a table up -----

  function StoreCount(ops: seq<Operation>): nat {
    if ops == [] then 0 else (if ops[0].Stores() then 1 else 0) + StoreCount(ops[1..])
  }

  /** After every run of that kind with so many stores at most, looking for a key that is absent is answered. */
  ghost predicate FindsAfter(h: Hash, capacity: nat, stores: nat)
    requires capacity > 0
  {
    forall ops: seq<Operation>, key: Key ::
      Paired(map[], ops) && StoreCount(ops) <= stores && key !in MapAfter(map[], ops) ==>
        RunTable(h, Fresh(capacity), ops + [Find(key)]) == RunMap(map[], ops + [Find(key)])
  }

  function MapAfter(m: map<Key, Value>, ops: seq<Operation>): map<Key, Value>
    decreases |ops|
  {
    if ops == [] then m else MapAfter(MapStep(m, ops[0]).0, ops[1..])
  }

  lemma {:induction false} FewStoresAllowed(l: Ledger, m: map<Key, Value>, ops: seq<Operation>, key: Key)
    requires Paired(m, ops) && l.used + StoreCount(ops) < l.capacity && |m| <= l.used
    requires key !in MapAfter(m, ops)
    ensures AllowedRun(l, m, ops + [Find(key)])
    decreases |ops|
  {
    var all := ops + [Find(key)];
    if ops == [] {
      assert all[1..] == [];
    } else {
      assert all[0] == ops[0] && all[1..] == ops[1..] + [Find(key)];
      var m' := MapStep(m, ops[0]).0;
      assert ops[0].Stores() ==> |m'| == |m| + 1;
      assert ops[0].Extract? ==> m'.Keys <= m.Keys;
      SubsetSize(if ops[0].Extract? then m'.Keys else {}, m.Keys);
      FewStoresAllowed(Next(l, m, ops[0]), m', ops[1..], key);
    }
  }

  /** Keys, one for each slot as its home. */
  predicate OnePerHome(h: Hash, capacity: nat, keys: seq<Key>)
    requires capacity > 0
  {
    |keys| == capacity && forall i :: 0 <= i < capacity ==> Home(h, keys[i], capacity) == i
  }

  /** Each of the keys from the i-th on is stored and extracted again. */
  function InAndOut(keys: seq<Key>, i: nat): seq<Operation>
    requires i <= |keys|
    decreases |keys| - i
  {
    if i == |keys| then [] else [Insert(keys[i], 0), Extract(keys[i])] + InAndOut(keys, i + 1)
  }

  /** The table in which the first n slots are tombstones and the others empty. */
  function WornOut(capacity: nat, n: nat): Table
    requires n <= capacity
  {
    Table(seq(capacity, i => if i < n then Deleted else Empty), 0)
  }

  /** A key goes to its home slot and out again, and leaves a tombstone there. */
  lemma WearStep(h: Hash, capacity: nat, n: nat, key: Key)
    requires n < capacity && Home(h, key, capacity) == n
    ensures
      var t1 := Step(h, WornOut(capacity, n), Insert(key, 0));
      var t2 := Step(h, t1.0, Extract(key));
      t1.1 == Stored(true) && t2 == (WornOut(capacity, n + 1), Present(0))
  {
    var t := WornOut(capacity, n);
    assert Probe(n, 0, capacity) == n;
    assert Search(t.slots, n, key, true, 0) == 0;
    var t1 := Step(h, t, Insert(key, 0)).0;
    assert t1 == Table(t.slots[n := Filled(key, 0)], 1);
    assert Search(t1.slots, n, key, false, 0) == 0;
    assert t1.slots[n := Deleted] == WornOut(capacity, n + 1).slots;
  }

  lemma {:induction false} WearRun(h: Hash, capacity: nat, keys: seq<Key>, i: nat, key: Key)
    requires capacity > 0 && OnePerHome(h, capacity, keys) && i <= capacity
    ensures Crash in RunTable(h, WornOut(capacity, i), InAndOut(keys, i) + [Find(key)])
    decreases capacity - i
  {
    hide Step;
    hide Home;
    var t, ops := WornOut(capacity, i), InAndOut(keys, i) + [Find(key)];
    if i == capacity {
      assert ops == [Find(key)];
      WornOutCrashes(h, capacity, key);
    } else {
      WearStep(h, capacity, i, keys[i]);
      var t1 := Step(h, t, Insert(keys[i], 0)).0;
      assert ops[0] == Insert(keys[i], 0) && ops[1..][0] == Extract(keys[i]);
      assert ops[1..][1..] == InAndOut(keys, i + 1) + [Find(key)];
      WearRun(h, capacity, keys, i + 1, key);
      assert RunTable(h, t1, ops[1..]) == [Present(0)] + RunTable(h, WornOut(capacity, i + 1), ops[1..][1..]);
    }
  }

  lemma WornOutCrashes(h: Hash, capacity: nat, key: Key)
    requires capacity > 0
    ensures Step(h, WornOut(capacity, capacity), Find(key)).1 == Crash
  {
  }

  lemma {:induction false} InAndOutPaired(keys: seq<Key>, i: nat)
    requires i <= |keys|
    ensures Paired(map[], InAndOut(keys, i)) && MapAfter(map[], InAndOut(keys, i)) == map[]
    ensures StoreCount(InAndOut(keys, i)) == |keys| - i
    decreases |keys| - i
  {
    if i < |keys| {
      var ops := InAndOut(keys, i);
      assert ops[1..][0] == Extract(keys[i]) && ops[1..][1..] == InAndOut(keys, i + 1);
      assert map[keys[i] := 0] - {keys[i]} == map[];
      InAndOutPaired(keys, i + 1);
      assert MapStep(map[], ops[0]).0 == map[keys[i] := 0];
      assert MapStep(map[keys[i] := 0], ops[1]).0 == map[];
    }
  }

  /** Tombstones are cleared by growing only, and a table grows by its entries, not by its tombstones.  If every
      slot is some key's home, looking for an absent key is safe after every run of so many stores of absent
      keys and removals of present ones exactly when the stores are fewer than the slots the table started
      with: storing and extracting one key after another wears the table out. */
  lemma StoresExactly(h: Hash, capacity: nat, keys: seq<Key>, stores: nat)
    requires capacity > 0 && OnePerHome(h, capacity, keys)
    ensures FindsAfter(h, capacity, stores) <==> stores < capacity
  {
    hide RunTable;
    hide AllowedRun;
    hide Paired;
    if stores < capacity {
      FreshTracks(h, capacity);
      forall ops: seq<Operation>, key: Key
        | Paired(map[], ops) && StoreCount(ops) <= stores && key !in MapAfter(map[], ops)
        ensures RunTable(h, Fresh(capacity), ops + [Find(key)]) == RunMap(map[], ops + [Find(key)])
      {
        FewStoresAllowed(Ledger(capacity, 0, true), map[], ops, key);
        AllowedRunsAgree(h, Fresh(capacity), map[], Ledger(capacity, 0, true), ops + [Find(key)]);
      }
    } else {
      assert Fresh(capacity) == WornOut(capacity, 0);
      WearRun(h, capacity, keys, 0, 0);
      InAndOutPaired(keys, 0);
      MapNeverCrashes(map[], InAndOut(keys, 0) + [Find(0)]);
    }
  }

  // ----- how small a table may be -----

  lemma FullLookup(h: Hash, slots: seq<Slot>, key: Key, inserting: bool)
    requires |slots| > 0 && forall i :: 0 <= i < |slots| ==> slots[i].Filled? && slots[i].key != key
    ensures Lookup(h, slots, key, inserting).Unreachable?
  {
  }

  /** With one slot free, storing a new key fills it, and then a search for a third key never stops. */
  lemma LastSlotFills(h: Hash, t: Table)
    requires |t.slots| == 2 && t.load == 1
    requires t.slots == [Filled(1, 0), Empty] || t.slots == [Empty, Filled(1, 0)]
    ensures RunTable(h, t, [Insert(2, 0), Find(3)]) == [Stored(true), Crash]
  {
    var ops := [Insert(2, 0), Find(3)];
    assert t.slots[0] == Empty || t.slots[1] == Empty;
    StopsAtEmpty(h, t.slots, 2);
    var t' := Step(h, t, ops[0]).0;
    assert |t'.slots| == 2 && forall i :: 0 <= i < 2 ==> t'.slots[i].Filled? && t'.slots[i].key != 3;
    FullLookup(h, t'.slots, 3, false);
    assert Step(h, t', Find(3)).1 == Crash;
    assert ops[1..] == [Find(3)];
    assert RunTable(h, t', [Find(3)]) == [Crash];
  }

  lemma OneSlotCrashes(h: Hash)
    ensures RunTable(h, Fresh(1), [Insert(1, 0), Find(3)]) == [Stored(true), Crash]
  {
    var ops := [Insert(1, 0), Find(3)];
    var t := Fresh(1);
    assert t.slots[0] == Empty;
    StopsAtEmpty(h, t.slots, 1);
    var t' := Step(h, t, ops[0]).0;
    assert t'.slots == [Filled(1, 0)];
    FullLookup(h, t'.slots, 3, false);
    assert ops[1..] == [Find(3)];
    assert RunTable(h, t', [Find(3)]) == [Crash];
  }

  lemma TwoSlotsCrash(h: Hash)
    ensures RunTable(h, Fresh(2), [Insert(1, 0), Insert(2, 0), Find(3)]) == [Stored(true), Stored(true), Crash]
  {
    var ops := [Insert(1, 0), Insert(2, 0), Find(3)];
    var t := Fresh(2);
    assert t.slots[0] == Empty && t.slots[1] == Empty;
    StopsAtEmpty(h, t.slots, 1);
    var t' := Step(h, t, ops[0]).0;
    assert t'.slots == [Filled(1, 0), Empty] || t'.slots == [Empty, Filled(1, 0)];
    LastSlotFills(h, t');
    assert ops[1..] == [Insert(2, 0), Find(3)];
  }

  ghost predicate AlwaysAgrees(h: Hash, capacity: nat)
    requires capacity > 0
  {
    forall ops: seq<Operation> :: (forall op :: op in ops ==> !op.Extract?) ==>
      RunTable(h, Fresh(capacity), ops) == RunMap(map[], ops)
  }

  /** A table that starts empty agrees with the map on every run without extraction exactly when it starts
      with at least three slots: smaller ones fill up before they grow. */
  lemma CapacityExactly(h: Hash, capacity: nat)
    requires capacity > 0
    ensures AlwaysAgrees(h, capacity) <==> capacity >= 3
  {
    hide RunTable;
    if capacity >= 3 {
      forall ops: seq<Operation> | forall op :: op in ops ==> !op.Extract?
        ensures RunTable(h, Fresh(capacity), ops) == RunMap(map[], ops)
      {
        RunsAgree(h, capacity, ops);
      }
    } else {
      var ops := if capacity == 1 then [Insert(1, 0), Find(3)] else [Insert(1, 0), Insert(2, 0), Find(3)];
      OneSlotCrashes(h);
      TwoSlotsCrash(h);
      MapNeverCrashes(map[], ops);
      assert Crash in RunTable(h, Fresh(capacity), ops);
      assert forall op :: op in ops ==> !op.Extract?;
    }
  }

  lemma {:induction false} MapNeverCrashes(m: map<Key, Value>, ops: seq<Operation>)
    ensures Crash !in RunMap(m, ops)
    decreases |ops|
  {
    if ops != [] {
      MapNeverCrashes(MapStep(m, ops[0]).0, ops[1..]);
    }
  }

  /** A run that shows it: behind a tombstone, a key that is present is inserted a second time. */
  lemma TombstoneDuplicates(h: Hash)
    requires h(1) == 0 && h(2) == 0
    ensures var ops := [Insert(1, 10), Insert(2, 20), Extract(1), Insert(2, 30)];
      && RunTable(h, Fresh(4), ops) == [Stored(true), Stored(true), Present(10), Stored(true)]
      && RunMap(map[], ops) == [Stored(true), Stored(true), Present(10), Stored(false)]
  {
    var ops := [Insert(1, 10), Insert(2, 20), Extract(1), Insert(2, 30)];
    var t := TwoInserted(h);
    var t' := Table([Deleted, Filled(2, 20), Empty, Empty], 1);
    assert Search(t.slots, 0, 1, false, 0) == 0 && t.slots[0 := Deleted] == t'.slots;
    assert Step(h, t, ops[2]) == (t', Present(10));
    assert Search(t'.slots, 0, 2, true, 0) == 0;
    assert Step(h, t', ops[3]).1 == Stored(true);
    assert ops[1..][0] == ops[1] && ops[1..][1..] == ops[2..] && ops[2..][1..] == ops[3..] && ops[3..][1..] == [];
    assert RunTable(h, t', ops[3..]) == [Stored(true)];
    assert RunTable(h, t, ops[2..]) == [Present(10), Stored(true)];
  }

  lemma TwoInserted(h: Hash) returns (t: Table)
    requires h(1) == 0 && h(2) == 0
    ensures t == Table([Filled(1, 10), Filled(2, 20), Empty, Empty], 2)
    ensures var t1 := Step(h, Fresh(4), Insert(1, 10));
      t1.1 == Stored(true) && Step(h, t1.0, Insert(2, 20)) == (t, Stored(true))
  {
    t := Table([Filled(1, 10), Filled(2, 20), Empty, Empty], 2);
    var t1 := Table([Filled(1, 10), Empty, Empty, Empty], 1);
    assert Search(Fresh(4).slots, 0, 1, true, 0) == 0 && Fresh(4).slots[0 := Filled(1, 10)] == t1.slots;
    assert Step(h, Fresh(4), Insert(1, 10)) == (t1, Stored(true));
    assert Search(t1.slots, 0, 2, true, 0) == Search(t1.slots, 0, 2, true, 1) == 1;
    assert t1.slots[1 := Filled(2, 20)] == t.slots;
  }
}

/** The table as an object: an array of slots that is replaced when it grows. */
module HashtableClass {
  import opened Hashtable

  class HashTable {
    const hash: Hash
    var slots: array<Slot>
    var load: nat

    ghost function Contents(): Table
      reads this, slots
    {
      Table(slots[..], load)
    }

    constructor (hash: Hash, capacity: nat)
      requires capacity > 0
      ensures Contents() == Fresh(capacity) && this.hash == hash && fresh(slots)
    {
      this.hash := hash;
      slots := new Slot[capacity](_ => Empty);
      load := 0;
      new;
      assert slots[..] == Fresh(capacity).slots;
    }

    /** Two scans, from the home slot to the end and from the start to the home slot. */
    method UncheckedLookup(key: Key, inserting: bool) returns (r: Found)
      requires slots.Length > 0
      ensures r == Lookup(hash, slots[..], key, inserting)
    {
      var index := hash(key) % slots.Length;
      for i := index to slots.Length
        invariant forall k :: index <= k < i ==> !Stops(slots[k], key, inserting)
      {
        if Stops(slots[i], key, inserting) {
          SearchIs(slots[..], index, key, inserting, i - index);
          return At(i);
        }
      }
      for i := 0 to index
        invariant forall k :: 0 <= k < i ==> !Stops(slots[k], key, inserting)
      {
        if Stops(slots[i], key, inserting) {
          SearchIs(slots[..], index, key, inserting, slots.Length - index + i);
          return At(i);
        }
      }
      SearchIs(slots[..], index, key, inserting, slots.Length);
      return Unreachable;
    }

    lemma SearchIs(s: seq<Slot>, home: nat, key: Key, inserting: bool, d: nat)
      requires home < |s| && d <= |s|
      requires forall j :: 0 <= j < d ==> !Stops(s[Probe(home, j, |s|)], key, inserting)
      requires d < |s| ==> Stops(s[Probe(home, d, |s|)], key, inserting)
      ensures Search(s, home, key, inserting, 0) == d
    {
    }

    /** Stores an entry without growing; false as the first result when the search runs off the end. */
    method UncheckedSet(key: Key, value: Value, overwrite: bool) returns (ok: bool, inserted: bool)
      requires slots.Length > 0
      modifies this`load, slots
      ensures slots.Length > 0
      ensures ok == Put(hash, old(Contents()), key, value, overwrite).Done?
      ensures ok ==> Done(Contents(), inserted) == Put(hash, old(Contents()), key, value, overwrite)
    {
      hide Lookup;
      var r := UncheckedLookup(key, true);
      match r {
        case Unreachable => return false, false;
        case At(i) =>
          if slots[i].Filled? {
            if overwrite {
              slots[i] := Filled(key, value);
              return true, true;
            }
            return true, false;
          }
          slots[i] := Filled(key, value);
          load := load + 1;
          return true, true;
      }
    }

    /** Moves to an array twice the size when more than half full. */
    method CheckSize() returns (ok: bool)
      requires slots.Length > 0
      modifies this, slots
      ensures ok == Hashtable.CheckSize(hash, old(Contents())).Done?
      ensures ok ==> slots.Length > 0 && Contents() == Hashtable.CheckSize(hash, old(Contents())).table
      ensures slots == old(slots) || fresh(slots)
    {
      hide Put;
      if load * 2 > slots.Length {
        var before := slots;
        ghost var contents := before[..];
        slots := new Slot[2 * before.Length](_ => Empty);
        load := 0;
        assert slots[..] == Fresh(before.Length * 2).slots;
        for i := 0 to before.Length
          invariant fresh(slots) && slots.Length > 0 && before[..] == contents
          invariant Refill(hash, contents, i, Contents()) == Refill(hash, contents, 0, Fresh(before.Length * 2))
        {
          if before[i].Filled? {
            var done, _ := UncheckedSet(before[i].key, before[i].value, false);
            if !done {
              return false;
            }
          }
        }
      }
      ok := true;
    }

    /** One operation, as on the table the object holds. */
    method Apply(op: Operation) returns (out: Output)
      requires slots.Length > 0
      modifies this, slots
      ensures out == Step(hash, old(Contents()), op).1
      ensures out != Crash ==> slots.Length > 0 && Contents() == Step(hash, old(Contents()), op).0
      ensures slots == old(slots) || fresh(slots)
    {
      hide Put;
      hide Hashtable.CheckSize;
      hide Lookup;
      match op {
        case Insert(key, value) =>
          out := StoreEntry(key, value, false);
        case Assign(key, value) =>
          out := StoreEntry(key, value, true);
        case Find(key) =>
          var r := UncheckedLookup(key, false);
          out := if r.Unreachable? then Crash
                 else if slots[r.index].Filled? then Present(slots[r.index].value) else Absent;
        case Extract(key) =>
          var r := UncheckedLookup(key, false);
          if r.Unreachable? {
            out := Crash;
          } else if slots[r.index].Filled? {
            out := Present(slots[r.index].value);
            slots[r.index] := Deleted;
            load := if load > 0 then load - 1 else 0;
          } else {
            out := Absent;
          }
      }
    }

    method StoreEntry(key: Key, value: Value, overwrite: bool) returns (out: Output)
      requires slots.Length > 0
      modifies this, slots
      ensures out == Store(hash, old(Contents()), key, value, overwrite).1
      ensures out != Crash ==> slots.Length > 0 && Contents() == Store(hash, old(Contents()), key, value, overwrite).0
      ensures slots == old(slots) || fresh(slots)
    {
      hide Put;
      hide Hashtable.CheckSize;
      var ok := CheckSize();
      if !ok {
        return Crash;
      }
      var done, inserted := UncheckedSet(key, value, overwrite);
      return if done then Stored(inserted) else Crash;
    }
  }

  /** Every run on a new table, to its end or to the assertion it fails, gives the outputs specified. */
  method RunObject(hash: Hash, capacity: nat, ops: seq<Operation>) returns (outputs: seq<Output>)
    requires capacity > 0
    ensures outputs == RunTable(hash, Fresh(capacity), ops)
  {
    hide Step;
    hide RunTable;
    var t := new HashTable(hash, capacity);
    outputs := [];
    assert ops[0..] == ops;
    for i := 0 to |ops|
      invariant fresh(t) && fresh(t.slots) && t.slots.Length > 0 && t.hash == hash
      invariant outputs + RunTable(hash, t.Contents(), ops[i..]) == RunTable(hash, Fresh(capacity), ops)
    {
      RunTableNext(hash, t.Contents(), ops, i, outputs);
      var out := t.Apply(ops[i]);
      outputs := outputs + [out];
      if out.Crash? {
        return;
      }
    }
    RunTableEnd(hash, t.Contents(), ops, outputs);
  }

  lemma RunTableNext(h: Hash, t: Table, ops: seq<Operation>, i: nat, before: seq<Output>)
    requires |t.slots| > 0 && i < |ops|
    ensures var (t', out) := Step(h, t, ops[i]);
      before + RunTable(h, t, ops[i..]) ==
      before + [out] + if out.Crash? then [] else RunTable(h, t', ops[i + 1..])
  {
    hide Step;
    assert ops[i..][0] == ops[i] && ops[i..][1..] == ops[i + 1..];
  }

  lemma RunTableEnd(h: Hash, t: Table, ops: seq<Operation>, outputs: seq<Output>)
    requires |t.slots| > 0
    ensures outputs + RunTable(h, t, ops[|ops|..]) == outputs
  {
  }
}
