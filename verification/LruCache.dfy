/** The least-recently-used cache: a hash table from keys to the value a use counter had when the key was last
    used, and an eviction when the table holds too many.  A run is a sequence of requests, each made while some
    keys are held by callers; an item is held exactly when it may not be evicted. */
module LruCaches {
  import opened Counting
  import opened Hashtable
  import opened Wrappers

  datatype Lru = Lru(table: Table, counter: nat)

  datatype Request = Request(key: Key, held: set<Key>)

  function Created(maxItems: nat): Lru { Lru(Fresh(2 * maxItems), 0) }

  // ----- the operations -----

  datatype Sought = Hit(lru: Lru) | Miss | Starved

  /** Finds a key and marks it used; a hit alone advances the counter. */
  function Seek(h: Hash, c: Lru, key: Key): (r: Sought)
    requires |c.table.slots| > 0
    ensures r.Hit? ==> |r.lru.table.slots| == |c.table.slots|
  {
    match Lookup(h, c.table.slots, key, false)
    case Unreachable => Starved
    case At(i) =>
      if c.table.slots[i].Filled? then
        Hit(Lru(c.table.(slots := c.table.slots[i := Filled(key, c.counter + 1)]), c.counter + 1))
      else Miss
  }

  /** The first slot below n, in the order of the table, with the least counter among the keys not held. */
  function Victim(slots: seq<Slot>, held: set<Key>, n: nat): (r: Option<nat>)
    requires n <= |slots|
    ensures r.Some? ==> r.value < n && slots[r.value].Filled? && slots[r.value].key !in held
  {
    if n == 0 then None else
      var best, slot := Victim(slots, held, n - 1), slots[n - 1];
      if slot.Filled? && slot.key !in held && (best.None? || slots[best.value].value > slot.value) then Some(n - 1)
      else best
  }

  /** Evicts one key when there are too many. */
  function Purged(h: Hash, c: Lru, maxItems: nat, held: set<Key>): (r: (Lru, Option<Key>))
    requires |c.table.slots| > 0
    ensures |r.0.table.slots| > 0
  {
    if c.table.load <= maxItems then (c, None)
    else
      match Victim(c.table.slots, held, |c.table.slots|)
      case None => (c, None)
      case Some(i) =>
        var key := c.table.slots[i].key;
        (c.(table := Step(h, c.table, Extract(key)).0), Some(key))
  }

  /** Enters a key with the counter as it stands. */
  function Entered(h: Hash, c: Lru, maxItems: nat, held: set<Key>, key: Key): (r: (Lru, Option<Key>))
    requires |c.table.slots| > 0
    ensures |r.0.table.slots| > 0
  {
    Purged(h, c.(table := Step(h, c.table, Insert(key, c.counter)).0), maxItems, held)
  }

  datatype Outcome = Running(lru: Lru, evicted: Option<Key>) | Stopped

  /** A request: the key is found, or entered and held by whoever asked. */
  function Requested(h: Hash, c: Lru, maxItems: nat, r: Request): (o: Outcome)
    requires |c.table.slots| > 0
    ensures o.Running? ==> |o.lru.table.slots| > 0
  {
    match Seek(h, c, r.key)
    case Starved => Stopped
    case Hit(c') => Running(c', None)
    case Miss =>
      var (c', evicted) := Entered(h, c, maxItems, r.held + {r.key}, r.key);
      Running(c', evicted)
  }

  /** A run of requests on a new cache, with what the last one evicted. */
  function After(h: Hash, maxItems: nat, requests: seq<Request>): (o: Outcome)
    requires maxItems > 0
    ensures o.Running? ==> |o.lru.table.slots| > 0
  {
    if requests == [] then Running(Created(maxItems), None)
    else
      match After(h, maxItems, requests[..|requests| - 1])
      case Stopped => Stopped
      case Running(c, _) => Requested(h, c, maxItems, requests[|requests| - 1])
  }

  lemma AfterNext(h: Hash, maxItems: nat, requests: seq<Request>, r: Request)
    requires maxItems > 0
    ensures var before := After(h, maxItems, requests);
      After(h, maxItems, requests + [r]) ==
      if before.Stopped? then Stopped else Requested(h, before.lru, maxItems, r)
  {
    assert (requests + [r])[..|requests|] == requests;
  }

  /** A run that has stopped does not go on. */
  lemma {:induction false} StoppedForGood(h: Hash, maxItems: nat, requests: seq<Request>, more: seq<Request>)
    requires maxItems > 0 && After(h, maxItems, requests).Stopped?
    ensures After(h, maxItems, requests + more).Stopped?
  {
    if more == [] {
      assert requests + more == requests;
    } else {
      StoppedForGood(h, maxItems, requests, more[..|more| - 1]);
      assert (requests + more)[..|requests + more| - 1] == requests + more[..|more| - 1];
    }
  }

  // ----- one request, as the map from keys to counters sees it -----

  /** The number of the last request of a key, counted from 1; 0 if there was none. */
  function LastUse(requests: seq<Request>, key: Key): (n: nat)
    ensures n <= |requests| && (n > 0 ==> requests[n - 1].key == key)
  {
    if requests == [] then 0
    else if requests[|requests| - 1].key == key then |requests|
    else LastUse(requests[..|requests| - 1], key)
  }

  lemma LastUseNext(requests: seq<Request>, r: Request, key: Key)
    ensures LastUse(requests + [r], key) == if key == r.key then |requests| + 1 else LastUse(requests, key)
  {
    assert (requests + [r])[..|requests|] == requests;
  }

  lemma SeekExactly(h: Hash, c: Lru, m: map<Key, Value>, key: Key)
    requires Good(h, c.table, m)
    ensures var r := Seek(h, c, key);
      && (r.Hit? <==> key in m) && (r.Starved? <==> key !in m && Empty !in c.table.slots)
      && (r.Hit? ==>
            && r.lru.counter == c.counter + 1 && Good(h, r.lru.table, m[key := c.counter + 1])
            && Used(r.lru.table.slots) == Used(c.table.slots)
            && (Deleted !in c.table.slots ==> Deleted !in r.lru.table.slots))
  {
    hide Lookup;
    hide Reachable;
    LookupExactly(h, c.table, m, key);
    if key in m {
      var i := Lookup(h, c.table.slots, key, false).index;
      TouchedGood(h, c.table, m, i, key, c.counter + 1);
    }
  }

  lemma TouchedGood(h: Hash, t: Table, m: map<Key, Value>, i: nat, key: Key, value: Value)
    requires Good(h, t, m) && i < |t.slots| && t.slots[i].Filled? && t.slots[i].key == key && key in m
    ensures Good(h, t.(slots := t.slots[i := Filled(key, value)]), m[key := value])
    ensures Used(t.slots[i := Filled(key, value)]) == Used(t.slots)
  {
    hide Home;
    var d := ProbeHits(Home(h, key, |t.slots|), i, |t.slots|);
    FillKeepsReachable(h, t.slots, i, key, value);
    FillKeepsEntries(t.slots, m, i, key, value);
    FillKeepsOneSlot(t.slots, m, i, key, value);
    assert m[key := value].Keys == m.Keys;
  }

  /** A key not held whose counter no other key not held undercuts. */
  predicate Least(m: map<Key, Value>, held: set<Key>, k: Key) {
    k in m && k !in held && forall j :: j in m && j !in held ==> m[k] <= m[j]
  }

  /** The victim has the least counter, and of several with the same it is the one the table lists first. */
  lemma {:induction false} VictimLeast(slots: seq<Slot>, held: set<Key>, n: nat)
    requires n <= |slots|
    ensures var v := Victim(slots, held, n);
      forall i :: 0 <= i < n && slots[i].Filled? && slots[i].key !in held ==>
        v.Some? && slots[v.value].value <= slots[i].value && (i < v.value ==> slots[v.value].value < slots[i].value)
  {
    if n > 0 {
      VictimLeast(slots, held, n - 1);
    }
  }

  lemma VictimInMap(slots: seq<Slot>, m: map<Key, Value>, held: set<Key>)
    requires Entries(slots, m)
    ensures var v := Victim(slots, held, |slots|);
      if v.Some? then Least(m, held, slots[v.value].key) else m.Keys <= held
  {
    var v := Victim(slots, held, |slots|);
    VictimLeast(slots, held, |slots|);
    forall j | j in m && j !in held ensures v.Some? && slots[v.value].value <= m[j] {
      var i :| 0 <= i < |slots| && slots[i] == Filled(j, m[j]);
    }
    if v.Some? {
      assert slots[v.value] in slots;
    }
  }

  lemma HasEntries(h: Hash, t: Table, m: map<Key, Value>)
    requires Good(h, t, m)
    ensures Entries(t.slots, m) && OneSlotEach(t.slots)
  {
  }

  /** What a request that misses leaves: the key entered and, if there are too many, a least one evicted. */
  ghost predicate EnteredMap(m: map<Key, Value>, held: set<Key>, maxItems: nat, evicted: Option<Key>,
                             m': map<Key, Value>)
  {
    match evicted
    case None => m' == m && (|m| <= maxItems || m.Keys <= held)
    case Some(k) => |m| > maxItems && Least(m, held, k) && m' == m - {k}
  }

  lemma PurgedExactly(h: Hash, c: Lru, m: map<Key, Value>, maxItems: nat, held: set<Key>)
    returns (m': map<Key, Value>)
    requires Good(h, c.table, m)
    ensures var (c', evicted) := Purged(h, c, maxItems, held);
      && c'.counter == c.counter && |c'.table.slots| == |c.table.slots| && Used(c'.table.slots) == Used(c.table.slots)
      && EnteredMap(m, held, maxItems, evicted, m') && Good(h, c'.table, m')
      && (|m| <= maxItems ==> c' == c)
  {
    hide Good;
    hide Step;
    hide Victim;
    hide Used;
    hide Least;
    HasSlots(h, c.table, m);
    LoadIsSize(h, c.table, m);
    HasEntries(h, c.table, m);
    VictimInMap(c.table.slots, m, held);
    var v := Victim(c.table.slots, held, |c.table.slots|);
    m' := m;
    if |m| > maxItems && v.Some? {
      var key := c.table.slots[v.value].key;
      LeastPresent(m, held, key);
      ExtractedPresent(h, c.table, m, key);
      m' := m - {key};
    }
  }

  lemma LeastPresent(m: map<Key, Value>, held: set<Key>, k: Key)
    requires Least(m, held, k)
    ensures k in m && k !in held
  {
  }

  lemma ExtractedPresent(h: Hash, t: Table, m: map<Key, Value>, key: Key)
    requires Good(h, t, m) && key in m
    ensures var t' := Step(h, t, Extract(key)).0;
      Good(h, t', m - {key}) && |t'.slots| == |t.slots| && Used(t'.slots) == Used(t.slots)
  {
    hide Good;
    hide Lookup;
    hide Used;
    HasSlots(h, t, m);
    StepExactly(h, t, m, Extract(key));
    LookupExactly(h, t, m, key);
    DeleteUses(t.slots, Lookup(h, t.slots, key, false).index);
  }

  lemma InsertedAbsent(h: Hash, t: Table, m: map<Key, Value>, key: Key, value: Value)
    requires Good(h, t, m) && key !in m
    ensures var (t', out) := Step(h, t, Insert(key, value));
      && out == Stored(true) && Good(h, t', m[key := value])
      && |t'.slots| >= |t.slots| && |Used(t'.slots)| <= |Used(t.slots)| + 1
      && (Deleted !in t.slots ==> Deleted !in t'.slots)
      && (|m| * 2 <= |t.slots| ==> |t'.slots| == |t.slots|)
  {
    hide Good;
    hide Step;
    hide Used;
    var l := Ledger(|t.slots|, |Used(t.slots)|, Deleted !in t.slots);
    HasSlots(h, t, m);
    EntriesUsed(h, t, m);
    TracksStep(h, t, m, l, Insert(key, value));
  }

  lemma EnteredExactly(h: Hash, c: Lru, m: map<Key, Value>, maxItems: nat, held: set<Key>, key: Key)
    returns (m': map<Key, Value>)
    requires Good(h, c.table, m) && key !in m
    ensures var (c', evicted) := Entered(h, c, maxItems, held, key);
      && c'.counter == c.counter && |c'.table.slots| >= |c.table.slots|
      && |Used(c'.table.slots)| <= |Used(c.table.slots)| + 1
      && EnteredMap(m[key := c.counter], held, maxItems, evicted, m') && Good(h, c'.table, m')
      && (|m| < maxItems && Deleted !in c.table.slots ==> Deleted !in c'.table.slots)
  {
    hide Good;
    hide Step;
    hide Used;
    hide Purged;
    hide EnteredMap;
    HasSlots(h, c.table, m);
    InsertedAbsent(h, c.table, m, key, c.counter);
    var t1 := Step(h, c.table, Insert(key, c.counter)).0;
    m' := PurgedExactly(h, c.(table := t1), m[key := c.counter], maxItems, held);
  }

  // ----- every run -----

  /** The counters never contradict the order of last use; they may fail to tell it. */
  ghost predicate Ordered(requests: seq<Request>, m: map<Key, Value>) {
    && (forall k :: k in m ==> LastUse(requests, k) > 0)
    && (forall j, k :: j in m && k in m && m[j] < m[k] ==> LastUse(requests, j) < LastUse(requests, k))
  }

  ghost predicate Consistent(h: Hash, maxItems: nat, requests: seq<Request>, c: Lru, m: map<Key, Value>) {
    && Good(h, c.table, m) && |c.table.slots| >= 2 * maxItems
    && (forall k :: k in m ==> 0 <= m[k] <= c.counter)
    && Ordered(requests, m)
  }

  /** The keys in a cache with the counter of their last use. */
  ghost function Uses(c: Lru): map<Key, Value> { MapBelow(c.table.slots, |c.table.slots|) }

  lemma UsesIs(h: Hash, c: Lru, m: map<Key, Value>)
    requires Good(h, c.table, m)
    ensures Uses(c) == m
  {
    MapBelowAll(c.table.slots, m);
  }

  lemma OrderedNext(requests: seq<Request>, m: map<Key, Value>, r: Request, value: Value)
    requires Ordered(requests, m) && forall k :: k in m && k != r.key ==> m[k] <= value
    ensures Ordered(requests + [r], m[r.key := value])
  {
    forall k | k in m[r.key := value] ensures LastUse(requests + [r], k) > 0 {
      LastUseNext(requests, r, k);
    }
    forall j, k | j in m[r.key := value] && k in m[r.key := value] && m[r.key := value][j] < m[r.key := value][k]
      ensures LastUse(requests + [r], j) < LastUse(requests + [r], k)
    {
      LastUseNext(requests, r, j);
      LastUseNext(requests, r, k);
    }
  }

  lemma ConsistentNext(h: Hash, maxItems: nat, requests: seq<Request>, c: Lru, m: map<Key, Value>, r: Request)
    requires Consistent(h, maxItems, requests, c, m) && maxItems > 0
    ensures var o := Requested(h, c, maxItems, r);
      && (o.Stopped? <==> r.key !in m && Empty !in c.table.slots)
      && (o.Running? ==> Consistent(h, maxItems, requests + [r], o.lru, Uses(o.lru)))
  {
    hide Good;
    hide Seek;
    hide Entered;
    hide Ordered;
    HasSlots(h, c.table, m);
    SeekExactly(h, c, m, r.key);
    if r.key in m {
      var o := Requested(h, c, maxItems, r);
      OrderedNext(requests, m, r, c.counter + 1);
      UsesIs(h, o.lru, m[r.key := c.counter + 1]);
    } else if Empty in c.table.slots {
      var o := Requested(h, c, maxItems, r);
      var m' := EnteredExactly(h, c, m, maxItems, r.held + {r.key}, r.key);
      UsesIs(h, o.lru, m');
      OrderedNext(requests, m, r, c.counter);
      OrderedLess(requests + [r], m[r.key := c.counter], m');
    }
  }

  lemma OrderedLess(requests: seq<Request>, m: map<Key, Value>, m': map<Key, Value>)
    requires Ordered(requests, m) && m'.Keys <= m.Keys && forall k :: k in m' ==> m'[k] == m[k]
    ensures Ordered(requests, m')
  {
  }

  /** In every run the table stands for a map, and the counters in it respect the order of last use. */
  lemma {:induction false} EveryRunConsistent(h: Hash, maxItems: nat, requests: seq<Request>)
    requires maxItems > 0 && After(h, maxItems, requests).Running?
    ensures var c := After(h, maxItems, requests).lru; Consistent(h, maxItems, requests, c, Uses(c))
  {
    hide Requested;
    hide Consistent;
    if requests == [] {
      CreatedConsistent(h, maxItems);
    } else {
      var front, r := requests[..|requests| - 1], requests[|requests| - 1];
      EveryRunConsistent(h, maxItems, front);
      var c := After(h, maxItems, front).lru;
      ConsistentNext(h, maxItems, front, c, Uses(c), r);
      assert requests == front + [r];
    }
  }

  lemma CreatedConsistent(h: Hash, maxItems: nat)
    requires maxItems > 0
    ensures Consistent(h, maxItems, [], Created(maxItems), Uses(Created(maxItems)))
  {
    FreshGood(h, 2 * maxItems);
    UsesIs(h, Created(maxItems), map[]);
  }

  // ----- when a run stops -----

  /** How many requests had to enter their key. */
  function Misses(h: Hash, maxItems: nat, requests: seq<Request>): (n: nat)
    requires maxItems > 0
    ensures n <= |requests|
  {
    if requests == [] then 0 else
      var front := requests[..|requests| - 1];
      Misses(h, maxItems, front) +
      match After(h, maxItems, front)
      case Stopped => 0
      case Running(c, _) => if Seek(h, c, requests[|requests| - 1].key).Miss? then 1 else 0
  }

  /** Every slot in use was taken by a key that was entered. */
  lemma {:induction false} UsedByMisses(h: Hash, maxItems: nat, requests: seq<Request>)
    requires maxItems > 0 && After(h, maxItems, requests).Running?
    ensures |Used(After(h, maxItems, requests).lru.table.slots)| <= Misses(h, maxItems, requests)
  {
    hide Seek;
    hide Entered;
    hide Used;
    hide Consistent;
    if requests == [] {
      CreatedUnused(maxItems);
    } else {
      var front, r := requests[..|requests| - 1], requests[|requests| - 1];
      UsedByMisses(h, maxItems, front);
      var c := After(h, maxItems, front).lru;
      EveryRunConsistent(h, maxItems, front);
      ConsistentGood(h, maxItems, front, c, Uses(c));
      SeekExactly(h, c, Uses(c), r.key);
      if r.key !in Uses(c) {
        var m' := EnteredExactly(h, c, Uses(c), maxItems, r.held + {r.key}, r.key);
      }
    }
  }

  lemma CreatedUnused(maxItems: nat)
    ensures Used(Created(maxItems).table.slots) == {}
  {
  }

  lemma ConsistentGood(h: Hash, maxItems: nat, requests: seq<Request>, c: Lru, m: map<Key, Value>)
    requires Consistent(h, maxItems, requests, c, m)
    ensures Good(h, c.table, m) && |c.table.slots| >= 2 * maxItems
  {
  }

  /** A run stops at a request exactly when its key is not there and no slot is empty. */
  lemma StopsExactly(h: Hash, maxItems: nat, requests: seq<Request>, r: Request)
    requires maxItems > 0 && After(h, maxItems, requests).Running?
    ensures var c := After(h, maxItems, requests).lru;
      After(h, maxItems, requests + [r]).Stopped? <==> r.key !in Uses(c) && Empty !in c.table.slots
  {
    hide Requested;
    hide Consistent;
    AfterNext(h, maxItems, requests, r);
    EveryRunConsistent(h, maxItems, requests);
    var c := After(h, maxItems, requests).lru;
    ConsistentNext(h, maxItems, requests, c, Uses(c), r);
  }

  /** It does not stop before twice as many keys were entered as the cache is to hold: tombstones are what the
      evicted ones leave, and they are never cleared. */
  lemma StopsLate(h: Hash, maxItems: nat, requests: seq<Request>, r: Request)
    requires maxItems > 0 && After(h, maxItems, requests).Running? && Misses(h, maxItems, requests) < 2 * maxItems
    ensures After(h, maxItems, requests + [r]).Running?
  {
    hide Misses;
    hide Consistent;
    var c := After(h, maxItems, requests).lru;
    StopsExactly(h, maxItems, requests, r);
    UsedByMisses(h, maxItems, requests);
    EveryRunConsistent(h, maxItems, requests);
    ConsistentGood(h, maxItems, requests, c, Uses(c));
    UsedLeavesRoom(c.table.slots);
  }

  lemma StartsRunning(h: Hash, maxItems: nat)
    requires maxItems > 0
    ensures After(h, maxItems, []).Running?
  {
  }

  lemma MissesGrow(h: Hash, maxItems: nat, requests: seq<Request>)
    requires maxItems > 0 && requests != []
    ensures Misses(h, maxItems, requests[..|requests| - 1]) <= Misses(h, maxItems, requests)
  {
    hide After;
    hide Seek;
  }

  /** So a run goes on if fewer keys than that had to be entered before its last request, however many requests were
      hits. */
  lemma {:induction false} FewMissesGoOn(h: Hash, maxItems: nat, requests: seq<Request>)
    requires maxItems > 0
    requires requests == [] || Misses(h, maxItems, requests[..|requests| - 1]) < 2 * maxItems
    ensures After(h, maxItems, requests).Running?
  {
    hide After;
    hide Misses;
    if requests == [] {
      StartsRunning(h, maxItems);
    } else {
      var front := requests[..|requests| - 1];
      if front != [] {
        MissesGrow(h, maxItems, front);
      }
      FewMissesGoOn(h, maxItems, front);
      StopsLate(h, maxItems, front, requests[|requests| - 1]);
      assert requests == front + [requests[|requests| - 1]];
    }
  }

  function Keys(requests: seq<Request>): set<Key> { set r | r in requests :: r.key }

  lemma KeysNext(requests: seq<Request>, r: Request)
    ensures Keys(requests + [r]) == Keys(requests) + {r.key}
  {
    assert r in requests + [r];
    assert forall q :: q in requests ==> q in requests + [r];
  }

  /** Few keys are never evicted: however long it is, a run that asks for no more of them than the cache is to
      hold goes on. */
  lemma {:induction false} FewKeysGoOn(h: Hash, maxItems: nat, requests: seq<Request>)
    requires maxItems > 0 && |Keys(requests)| <= maxItems
    ensures var o := After(h, maxItems, requests);
      o.Running? && Uses(o.lru).Keys <= Keys(requests) && Deleted !in o.lru.table.slots
  {
    hide Requested;
    hide Consistent;
    if requests == [] {
      FreshGood(h, 2 * maxItems);
      UsesIs(h, Created(maxItems), map[]);
    } else {
      var front, r := requests[..|requests| - 1], requests[|requests| - 1];
      assert requests == front + [r];
      KeysNext(front, r);
      SubsetSize(Keys(front), Keys(requests));
      FewKeysGoOn(h, maxItems, front);
      EveryRunConsistent(h, maxItems, front);
      FewKeysStep(h, maxItems, front, After(h, maxItems, front).lru, r);
    }
  }

  lemma FewKeysStep(h: Hash, maxItems: nat, requests: seq<Request>, c: Lru, r: Request)
    requires maxItems > 0 && Consistent(h, maxItems, requests, c, Uses(c))
    requires Uses(c).Keys <= Keys(requests) && Deleted !in c.table.slots
    requires |Keys(requests) + {r.key}| <= maxItems
    ensures var o := Requested(h, c, maxItems, r);
      o.Running? && Uses(o.lru).Keys <= Keys(requests) + {r.key} && Deleted !in o.lru.table.slots
  {
    hide Good;
    hide Seek;
    hide Entered;
    hide Ordered;
    var m, all := Uses(c), Keys(requests) + {r.key};
    HasSlots(h, c.table, m);
    SubsetSize(m.Keys, all);
    RoomLeft(h, c.table, m);
    SeekExactly(h, c, m, r.key);
    var o := Requested(h, c, maxItems, r);
    if r.key in m {
      UsesIs(h, o.lru, m[r.key := c.counter + 1]);
    } else {
      assert |m.Keys + {r.key}| == |m.Keys| + 1;
      SubsetSize(m.Keys + {r.key}, all);
      var m' := EnteredExactly(h, c, m, maxItems, r.held + {r.key}, r.key);
      UsesIs(h, o.lru, m');
    }
  }

  /** The cache never holds more than it is to, while each key is asked for with room for it beside the keys
      held. */
  lemma {:induction false} EveryRunWithin(h: Hash, maxItems: nat, requests: seq<Request>)
    requires maxItems > 0 && After(h, maxItems, requests).Running?
    requires forall r :: r in requests ==> |r.held + {r.key}| <= maxItems
    ensures |Uses(After(h, maxItems, requests).lru)| <= maxItems
  {
    hide Requested;
    hide Consistent;
    if requests == [] {
      FreshGood(h, 2 * maxItems);
      UsesIs(h, Created(maxItems), map[]);
    } else {
      var front, r := requests[..|requests| - 1], requests[|requests| - 1];
      assert r in requests && forall q :: q in front ==> q in requests;
      EveryRunWithin(h, maxItems, front);
      EveryRunConsistent(h, maxItems, front);
      WithinStep(h, maxItems, front, After(h, maxItems, front).lru, r);
    }
  }

  lemma WithinStep(h: Hash, maxItems: nat, requests: seq<Request>, c: Lru, r: Request)
    requires maxItems > 0 && Consistent(h, maxItems, requests, c, Uses(c))
    requires |Uses(c)| <= maxItems && |r.held + {r.key}| <= maxItems
    ensures var o := Requested(h, c, maxItems, r); o.Running? ==> |Uses(o.lru)| <= maxItems
  {
    hide Good;
    hide Seek;
    hide Entered;
    hide Ordered;
    var m := Uses(c);
    HasSlots(h, c.table, m);
    SeekExactly(h, c, m, r.key);
    if r.key in m {
      assert m[r.key := c.counter + 1].Keys == m.Keys;
      UsesIs(h, Requested(h, c, maxItems, r).lru, m[r.key := c.counter + 1]);
    } else if Empty in c.table.slots {
      var o := Requested(h, c, maxItems, r);
      var m1 := m[r.key := c.counter];
      var m' := EnteredExactly(h, c, m, maxItems, r.held + {r.key}, r.key);
      UsesIs(h, o.lru, m');
      assert |m1| == |m| + 1;
      match o.evicted
      case None =>
        if m1.Keys <= r.held + {r.key} {
          SubsetSize(m1.Keys, r.held + {r.key});
        }
      case Some(k) =>
        assert m'.Keys == m1.Keys - {k};
        assert |m'.Keys| == |m1.Keys| - 1;
    }
  }

  // ----- what is evicted -----

  /** Of these keys, k is the one whose last use lies furthest back. */
  predicate LeastRecent(requests: seq<Request>, among: set<Key>, k: Key) {
    k in among && forall j :: j in among ==> LastUse(requests, k) <= LastUse(requests, j)
  }

  /** In every run the key evicted has the least counter of those not held.  It is the least recently used of
      them exactly when no key with the same counter was used earlier: entering a key does not advance the
      counter, so keys entered between two hits are told apart by their place in the table alone. */
  lemma EvictedExactly(h: Hash, maxItems: nat, requests: seq<Request>, r: Request, k: Key)
    requires maxItems > 0 && After(h, maxItems, requests).Running?
    requires var o := After(h, maxItems, requests + [r]); o.Running? && o.evicted == Some(k)
    ensures var m := Uses(After(h, maxItems, requests).lru);
      && Least(m, r.held + {r.key}, k)
      && (LeastRecent(requests, m.Keys - (r.held + {r.key}), k) <==>
          forall j :: j in m && j !in r.held + {r.key} && m[j] == m[k] ==> LastUse(requests, k) <= LastUse(requests, j))
  {
    hide Good;
    hide Seek;
    hide Entered;
    var c := After(h, maxItems, requests).lru;
    var m := Uses(c);
    AfterNext(h, maxItems, requests, r);
    EveryRunConsistent(h, maxItems, requests);
    HasSlots(h, c.table, m);
    SeekExactly(h, c, m, r.key);
    var m' := EnteredExactly(h, c, m, maxItems, r.held + {r.key}, r.key);
    assert Least(m[r.key := c.counter], r.held + {r.key}, k);
    assert Least(m, r.held + {r.key}, k);
  }

  /** However a table lists the entries of the map, the victim is the least recently used key not held. */
  ghost predicate OldestInAnyOrder(requests: seq<Request>, m: map<Key, Value>, held: set<Key>) {
    forall slots: seq<Slot> ::
      OneSlotEach(slots) && Entries(slots, m) && Victim(slots, held, |slots|).Some? ==>
        LeastRecent(requests, m.Keys - held, slots[Victim(slots, held, |slots|).value].key)
  }

  /** This is so exactly when only one key not held has the least counter. */
  lemma OldestExactly(requests: seq<Request>, m: map<Key, Value>, held: set<Key>)
    requires Ordered(requests, m)
    ensures OldestInAnyOrder(requests, m, held) <==>
      forall j, k :: Least(m, held, j) && Least(m, held, k) ==> j == k
  {
    if forall j, k :: Least(m, held, j) && Least(m, held, k) ==> j == k {
      forall slots: seq<Slot> | OneSlotEach(slots) && Entries(slots, m) && Victim(slots, held, |slots|).Some?
        ensures LeastRecent(requests, m.Keys - held, slots[Victim(slots, held, |slots|).value].key)
      {
        VictimInMap(slots, m, held);
        OnlyLeastIsOldest(requests, m, held, slots[Victim(slots, held, |slots|).value].key);
      }
    } else {
      var j, k :| Least(m, held, j) && Least(m, held, k) && j != k;
      var later := if LastUse(requests, j) < LastUse(requests, k) then k else j;
      var slots := ListedFirst(m, later);
      VictimFirst(slots, m, held, later);
    }
  }

  lemma OnlyLeastIsOldest(requests: seq<Request>, m: map<Key, Value>, held: set<Key>, k: Key)
    requires Ordered(requests, m) && Least(m, held, k) && forall j :: Least(m, held, j) ==> j == k
    ensures LeastRecent(requests, m.Keys - held, k)
  {
    forall j | j in m.Keys - held ensures LastUse(requests, k) <= LastUse(requests, j) {
      if m[j] == m[k] {
        assert Least(m, held, j);
      }
    }
  }

  lemma VictimFirst(slots: seq<Slot>, m: map<Key, Value>, held: set<Key>, k: Key)
    requires Entries(slots, m) && slots != [] && Least(m, held, k) && slots[0] == Filled(k, m[k])
    ensures Victim(slots, held, |slots|) == Some(0)
  {
    VictimLeast(slots, held, |slots|);
    var v := Victim(slots, held, |slots|).value;
    assert slots[v].key in m && m[slots[v].key] == slots[v].value;
  }

  lemma {:induction false} Listed(m: map<Key, Value>) returns (slots: seq<Slot>)
    ensures OneSlotEach(slots) && Entries(slots, m)
    decreases |m|
  {
    slots := [];
    if k :| k in m {
      slots := ListedFirst(m, k);
    }
  }

  lemma {:induction false} ListedFirst(m: map<Key, Value>, k: Key) returns (slots: seq<Slot>)
    requires k in m
    ensures OneSlotEach(slots) && Entries(slots, m) && slots != [] && slots[0] == Filled(k, m[k])
    decreases |m|, 0
  {
    assert (m - {k}).Keys == m.Keys - {k};
    assert |(m - {k}).Keys| == |m.Keys| - 1;
    var rest := Listed(m - {k});
    slots := [Filled(k, m[k])] + rest;
    ListedMore(m, k, rest);
  }

  lemma ListedMore(m: map<Key, Value>, k: Key, rest: seq<Slot>)
    requires k in m && OneSlotEach(rest) && Entries(rest, m - {k})
    ensures OneSlotEach([Filled(k, m[k])] + rest) && Entries([Filled(k, m[k])] + rest, m)
  {
    hide OneSlotEach;
    var slots := [Filled(k, m[k])] + rest;
    assert slots[0] == Filled(k, m[k]);
    forall i | 1 <= i < |slots| && slots[i].Filled?
      ensures slots[i].key in m - {k} && (m - {k})[slots[i].key] == slots[i].value
    {
      assert slots[i] == rest[i - 1];
    }
    forall j | j in m && j != k ensures Filled(j, m[j]) in slots {
      assert Filled(j, (m - {k})[j]) in rest;
    }
    OneMore(k, m[k], rest);
  }

  lemma OneMore(k: Key, value: Value, rest: seq<Slot>)
    requires OneSlotEach(rest) && forall i :: 0 <= i < |rest| && rest[i].Filled? ==> rest[i].key != k
    ensures OneSlotEach([Filled(k, value)] + rest)
  {
    var slots := [Filled(k, value)] + rest;
    forall i, j | 0 <= i < j < |slots| && slots[i].Filled? && slots[j].Filled? ensures slots[i].key != slots[j].key {
      assert slots[j] == rest[j - 1] && (i > 0 ==> slots[i] == rest[i - 1]);
    }
  }

  // ----- runs that fail -----

  /** The keys asked for one after another, with nothing held. */
  function Reads(keys: seq<Key>): (r: seq<Request>)
    ensures |r| == |keys| && forall i :: 0 <= i < |keys| ==> r[i] == Request(keys[i], {})
  {
    seq(|keys|, i requires 0 <= i < |keys| => Request(keys[i], {}))
  }

  lemma ReadsNext(keys: seq<Key>, n: nat)
    requires n < |keys|
    ensures Reads(keys[..n + 1]) == Reads(keys[..n]) + [Request(keys[n], {})]
  {
  }

  /** A key whose home slot is empty is not there, and goes there. */
  lemma EntersAtHome(h: Hash, c: Lru, key: Key)
    requires |c.table.slots| > 0 && c.table.load * 2 <= |c.table.slots|
    requires c.table.slots[Home(h, key, |c.table.slots|)] == Empty
    ensures Seek(h, c, key) == Miss
    ensures Step(h, c.table, Insert(key, c.counter)).0 ==
      Table(c.table.slots[Home(h, key, |c.table.slots|) := Filled(key, c.counter)], c.table.load + 1)
  {
    var slots, home := c.table.slots, Home(h, key, |c.table.slots|);
    assert Probe(home, 0, |slots|) == home;
    assert Search(slots, home, key, false, 0) == 0 && Search(slots, home, key, true, 0) == 0;
  }

  /** A key in its home slot is found there. */
  lemma LeavesHome(h: Hash, t: Table, key: Key, value: Value)
    requires |t.slots| > 0 && t.load > 0 && t.slots[Home(h, key, |t.slots|)] == Filled(key, value)
    ensures Step(h, t, Extract(key)).0 == Table(t.slots[Home(h, key, |t.slots|) := Deleted], t.load - 1)
  {
    var home := Home(h, key, |t.slots|);
    assert Probe(home, 0, |t.slots|) == home;
    assert Search(t.slots, home, key, false, 0) == 0;
  }

  lemma VictimIs(slots: seq<Slot>, held: set<Key>, i: nat)
    requires i < |slots| && slots[i].Filled? && slots[i].key !in held
    requires forall j :: 0 <= j < i ==> !slots[j].Filled?
    requires forall j :: 0 <= j < |slots| && slots[j].Filled? ==> slots[i].value <= slots[j].value
    ensures Victim(slots, held, |slots|) == Some(i)
  {
    VictimLeast(slots, held, |slots|);
  }

  /** The cache after n keys at homes 0, 1, 2, ... were asked for: the oldest are tombstones. */
  function Sliding(maxItems: nat, keys: seq<Key>, n: nat): Lru
    requires n <= |keys|
  {
    var slots := seq(2 * maxItems, i =>
      if i < n - maxItems then Deleted else if 0 <= i < n then Filled(keys[i], 0) else Empty);
    Lru(Table(slots, Min(n, maxItems)), 0)
  }

  lemma SlidingStep(h: Hash, maxItems: nat, keys: seq<Key>, n: nat)
    requires n < 2 * maxItems && OnePerHome(h, 2 * maxItems, keys)
    ensures Requested(h, Sliding(maxItems, keys, n), maxItems, Request(keys[n], {})) ==
            Running(Sliding(maxItems, keys, n + 1), if n < maxItems then None else Some(keys[n - maxItems]))
  {
    hide Home;
    hide Step;
    hide Victim;
    var c := Sliding(maxItems, keys, n);
    EntersAtHome(h, c, keys[n]);
    var t := Table(c.table.slots[n := Filled(keys[n], 0)], c.table.load + 1);
    if n < maxItems {
      assert t.slots == Sliding(maxItems, keys, n + 1).table.slots;
    } else {
      var i := n - maxItems;
      assert keys[i] != keys[n];
      VictimIs(t.slots, {keys[n]}, i);
      LeavesHome(h, t, keys[i], 0);
      assert t.slots[i := Deleted] == Sliding(maxItems, keys, n + 1).table.slots;
      assert {} + {keys[n]} == {keys[n]};
    }
  }

  lemma {:induction false} SlidingRun(h: Hash, maxItems: nat, keys: seq<Key>, n: nat)
    requires 0 < maxItems && n <= 2 * maxItems && OnePerHome(h, 2 * maxItems, keys)
    ensures var o := After(h, maxItems, Reads(keys[..n])); o.Running? && o.lru == Sliding(maxItems, keys, n)
  {
    hide Requested;
    if n == 0 {
      assert Created(maxItems) == Sliding(maxItems, keys, 0);
    } else {
      SlidingRun(h, maxItems, keys, n - 1);
      SlidingStep(h, maxItems, keys, n - 1);
      ReadsNext(keys, n - 1);
      AfterNext(h, maxItems, Reads(keys[..n - 1]), Request(keys[n - 1], {}));
    }
  }

  /** Keys asked for once each, one for each slot of the table as its home, leave it without an empty slot: the
      next request of a key that is not there stops the run, though all but the last few were evicted. */
  lemma ReadsStop(h: Hash, maxItems: nat, keys: seq<Key>, key: Key)
    requires maxItems > 0 && OnePerHome(h, 2 * maxItems, keys) && key !in keys[maxItems..]
    ensures After(h, maxItems, Reads(keys)).Running? && After(h, maxItems, Reads(keys + [key])).Stopped?
  {
    hide After;
    SlidingRun(h, maxItems, keys, |keys|);
    assert keys[..|keys|] == keys;
    ReadsNext(keys + [key], |keys|);
    assert (keys + [key])[..|keys|] == keys && (keys + [key])[..|keys| + 1] == keys + [key];
    AfterNext(h, maxItems, Reads(keys), Request(key, {}));
    SlidingStarves(h, maxItems, keys, key);
  }

  lemma SlidingStarves(h: Hash, maxItems: nat, keys: seq<Key>, key: Key)
    requires maxItems > 0 && |keys| == 2 * maxItems && key !in keys[maxItems..]
    ensures Seek(h, Sliding(maxItems, keys, |keys|), key).Starved?
  {
    var slots := Sliding(maxItems, keys, |keys|).table.slots;
    forall i | 0 <= i < |slots| ensures !Stops(slots[i], key, false) {
      if i >= maxItems {
        assert keys[i] == keys[maxItems..][i - maxItems];
      }
    }
  }

  /** If every slot is some key's home, all runs of so many requests go on exactly up to twice as many requests
      as the cache is to hold. */
  lemma GoesOnExactly(h: Hash, maxItems: nat, keys: seq<Key>, count: nat)
    requires maxItems > 0 && OnePerHome(h, 2 * maxItems, keys)
    ensures (forall requests :: |requests| <= count ==> After(h, maxItems, requests).Running?) <==>
            count <= 2 * maxItems
  {
    hide After;
    if count <= 2 * maxItems {
      forall requests: seq<Request> | |requests| <= count ensures After(h, maxItems, requests).Running? {
        FewMissesGoOn(h, maxItems, requests);
      }
    } else {
      assert keys[0] !in keys[maxItems..] by {
        assert forall i :: maxItems <= i < |keys| ==> keys[i] != keys[0];
      }
      ReadsStop(h, maxItems, keys, keys[0]);
    }
  }

  /** Keys whose homes run downwards to slot 0, and one more key behind them. */
  predicate Downwards(h: Hash, maxItems: nat, keys: seq<Key>)
    requires maxItems > 0
  {
    |keys| == maxItems + 1 && Home(h, keys[maxItems], 2 * maxItems) == maxItems &&
    forall i :: 0 <= i < maxItems ==> Home(h, keys[i], 2 * maxItems) == maxItems - 1 - i
  }

  function Falling(maxItems: nat, keys: seq<Key>, n: nat): Lru
    requires n <= maxItems < |keys|
  {
    var slots := seq(2 * maxItems, i =>
      if maxItems - n <= i < maxItems then Filled(keys[maxItems - 1 - i], 0) else Empty);
    Lru(Table(slots, n), 0)
  }

  lemma {:induction false} FallingRun(h: Hash, maxItems: nat, keys: seq<Key>, n: nat)
    requires maxItems > 0 && n <= maxItems && Downwards(h, maxItems, keys)
    ensures var o := After(h, maxItems, Reads(keys[..n])); o.Running? && o.lru == Falling(maxItems, keys, n)
  {
    hide Home;
    hide Step;
    hide Seek;
    if n == 0 {
      assert Created(maxItems) == Falling(maxItems, keys, 0);
    } else {
      FallingRun(h, maxItems, keys, n - 1);
      ReadsNext(keys, n - 1);
      AfterNext(h, maxItems, Reads(keys[..n - 1]), Request(keys[n - 1], {}));
      var c := Falling(maxItems, keys, n - 1);
      EntersAtHome(h, c, keys[n - 1]);
      assert c.table.slots[maxItems - n := Filled(keys[n - 1], 0)] == Falling(maxItems, keys, n).table.slots;
    }
  }

  lemma {:induction false} ReadsLastUse(keys: seq<Key>, n: nat, i: nat)
    requires i < n <= |keys| && forall j :: i < j < n ==> keys[j] != keys[i]
    ensures LastUse(Reads(keys[..n]), keys[i]) == i + 1
  {
    ReadsNext(keys, n - 1);
    LastUseNext(Reads(keys[..n - 1]), Request(keys[n - 1], {}), keys[i]);
    if i < n - 1 {
      ReadsLastUse(keys, n - 1, i);
    }
  }

  /** A run in which the key evicted is the one used most recently of all that are not held. */
  lemma NewestEvicted(h: Hash, maxItems: nat, keys: seq<Key>)
    requires maxItems > 0 && Downwards(h, maxItems, keys)
    ensures var o := After(h, maxItems, Reads(keys)); o.Running? && o.evicted == Some(keys[maxItems - 1])
    ensures forall i :: 0 <= i < maxItems ==> LastUse(Reads(keys[..maxItems]), keys[i]) == i + 1
  {
    hide Home;
    hide Step;
    hide Victim;
    hide Seek;
    hide After;
    FallingRun(h, maxItems, keys, maxItems);
    ReadsNext(keys, maxItems);
    assert keys[..maxItems + 1] == keys;
    var c, last := Falling(maxItems, keys, maxItems), keys[maxItems];
    AfterNext(h, maxItems, Reads(keys[..maxItems]), Request(last, {}));
    EntersAtHome(h, c, last);
    var t := Table(c.table.slots[maxItems := Filled(last, 0)], maxItems + 1);
    assert t.slots[0] == Filled(keys[maxItems - 1], 0);
    VictimIs(t.slots, {} + {last}, 0);
    forall i | 0 <= i < maxItems ensures LastUse(Reads(keys[..maxItems]), keys[i]) == i + 1 {
      ReadsLastUse(keys, maxItems, i);
    }
  }
}
