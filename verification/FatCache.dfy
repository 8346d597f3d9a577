/** FAT sectors through a write-back cache: a cache of sectors that callers hold on to while they read and write
    them, in front of the disk.  While it answers, every operation acts on the table as a reader sees it exactly
    as the plain table does. */
module FatCache {
  import opened Counting
  import opened FatEntries
  import opened FatChains
  import opened FatTraces
  import opened Modular
  import opened Words
  import opened Wrappers
  import Hashtable
  import L = LruCaches

  /** A cached sector; `holders` counts the references outside the cache.  When it was last used stands in the
      hash table of the cache. */
  datatype Item = Item(data: Sector, dirty: bool, holders: nat)

  type Cache = map<nat, Item>

  // ----- what a reader sees -----

  /** Sector s as seen through the cache. */
  function Seen(disk: seq<Sector>, cache: Cache, s: nat): Sector
    requires s < |disk|
  {
    if s in cache then cache[s].data else disk[s]
  }

  /** Cached sectors exist, have the right size, and differ from the disk only when dirty. */
  ghost predicate CacheInv(info: Info, disk: seq<Sector>, cache: Cache) {
    && |disk| == info.fatSectors
    && (forall s :: 0 <= s < |disk| ==> |disk[s]| == info.sectorSize)
    && (forall s :: s in cache ==>
          && s < |disk| && |cache[s].data| == info.sectorSize
          && (!cache[s].dirty ==> cache[s].data == disk[s]))
  }

  /** Both pairs of disk and cache show a reader the same sectors. */
  ghost predicate SameView(disk: seq<Sector>, cache: Cache, disk': seq<Sector>, cache': Cache) {
    |disk'| == |disk| && forall s: nat :: s < |disk| ==> Seen(disk', cache', s) == Seen(disk, cache, s)
  }

  /** The decoded table as seen through the cache. */
  ghost function Table(info: Info, disk: seq<Sector>, cache: Cache): (fat: seq<nat>)
    requires Sound(info) && CacheInv(info, disk, cache)
    ensures |fat| == EntryCount(info)
    ensures forall c: nat :: c < |fat| ==> fat[c] == Entry(info, disk, cache, c)
  {
    seq(EntryCount(info), c requires 0 <= c < EntryCount(info) => Entry(info, disk, cache, c))
  }

  ghost function Entry(info: Info, disk: seq<Sector>, cache: Cache, c: nat): nat
    requires Sound(info) && CacheInv(info, disk, cache) && c < EntryCount(info)
  {
    Located(info, c);
    Extract(info, OffsetOf(info, c), Seen(disk, cache, SectorOf(info, c)))
  }

  lemma SameViewSameTable(info: Info, disk: seq<Sector>, cache: Cache, disk': seq<Sector>, cache': Cache)
    requires Sound(info) && CacheInv(info, disk, cache) && CacheInv(info, disk', cache')
    requires SameView(disk, cache, disk', cache')
    ensures Table(info, disk', cache') == Table(info, disk, cache)
  {
    forall c: nat | c < EntryCount(info) ensures Entry(info, disk', cache', c) == Entry(info, disk, cache, c) {
      Located(info, c);
    }
  }

  /** Writing one entry of a cached sector changes that entry of the table and no other. */
  lemma PutChangesEntry(info: Info, disk: seq<Sector>, cache: Cache, c: nat, value: nat, item: Item)
    requires Sound(info) && CacheInv(info, disk, cache) && c < EntryCount(info) && SectorOf(info, c) in cache
    requires OffsetOf(info, c) + Width(info) <= |cache[SectorOf(info, c)].data|
    requires item.data == Put(info, OffsetOf(info, c), cache[SectorOf(info, c)].data, value) && item.dirty
    ensures CacheInv(info, disk, cache[SectorOf(info, c) := item])
    ensures Table(info, disk, cache[SectorOf(info, c) := item]) ==
            Table(info, disk, cache)[c := Stored(info, value)]
  {
    var cache' := cache[SectorOf(info, c) := item];
    forall d: nat | d < EntryCount(info)
      ensures Entry(info, disk, cache', d) == if d == c then Stored(info, value) else Entry(info, disk, cache, d)
    {
      PutEntry(info, disk, cache, c, value, item, d);
    }
  }

  lemma PutEntry(info: Info, disk: seq<Sector>, cache: Cache, c: nat, value: nat, item: Item, d: nat)
    requires Sound(info) && CacheInv(info, disk, cache) && SectorOf(info, c) in cache
    requires c < EntryCount(info) && d < EntryCount(info)
    requires OffsetOf(info, c) + Width(info) <= |cache[SectorOf(info, c)].data|
    requires item.data == Put(info, OffsetOf(info, c), cache[SectorOf(info, c)].data, value) && item.dirty
    ensures Entry(info, disk, cache[SectorOf(info, c) := item], d) ==
            if d == c then Stored(info, value) else Entry(info, disk, cache, d)
  {
    hide Extract;
    hide Put;
    hide Stored;
    hide OffsetOf;
    hide SectorOf;
    var sector := cache[SectorOf(info, c)].data;
    Located(info, d);
    if d == c {
      ExtractPut(info, OffsetOf(info, c), sector, value);
    } else if SectorOf(info, d) == SectorOf(info, c) {
      EntriesApart(info, c, d);
      ExtractElsewhere(info, OffsetOf(info, c), sector, value, OffsetOf(info, d));
    }
  }

  /** Every entry of the table seen is read from the bytes of the sectors seen, where it lies in them. */
  lemma EntryDecoded(info: Info, disk: seq<Sector>, cache: Cache, c: nat, s: nat, at: nat)
    requires Sound(info) && CacheInv(info, disk, cache) && c < EntryCount(info)
    requires s * info.sectorSize + at == c * (if info.fat16 then 2 else 4) && at < info.sectorSize
    ensures s < |disk| && at + (if info.fat16 then 2 else 4) <= |Seen(disk, cache, s)|
    ensures var sector := Seen(disk, cache, s);
      Table(info, disk, cache)[c] ==
      if info.fat16 then
        var x := FromBytes(sector[at..at + 2]); if x < 0xFFF7 then x else 0x0FFF_0000 + x
      else FromBytes(sector[at..at + 4]) % 0x1000_0000
  {
    hide Extract;
    hide FromBytes;
    Located(info, c);
    QuotientIs(c * Width(info), info.sectorSize, s, at);
    assert Table(info, disk, cache)[c] == Entry(info, disk, cache, c);
    ExtractExactly(info, at, Seen(disk, cache, s));
  }

  // ----- eviction -----

  lemma EvictKeeps(info: Info, disk: seq<Sector>, cache: Cache, k: nat)
    requires CacheInv(info, disk, cache) && k in cache
    ensures k < |disk|
    ensures var disk' := if cache[k].dirty then disk[k := cache[k].data] else disk;
      CacheInv(info, disk', cache - {k}) && SameView(disk, cache, disk', cache - {k})
  {
  }

  /** The references callers hold are to cached sectors, and each sector counts its own. */
  ghost predicate HeldBy(cache: Cache, held: multiset<nat>) {
    && (forall s :: s in held ==> s in cache)
    && (forall s :: s in cache ==> cache[s].holders == held[s])
  }

  ghost function HeldSet(held: multiset<nat>): set<int> { set s | s in held }

  lemma HeldMore(held: multiset<nat>, s: nat)
    ensures HeldSet(held + multiset{s}) == HeldSet(held) + {s}
  {
  }

  lemma HeldBack(held: multiset<nat>, s: nat)
    ensures held + multiset{s} - multiset{s} == held
  {
  }

  /** The sectors in the cache are those its table lists. */
  ghost predicate SameKeys(cache: Cache, uses: map<int, int>) {
    (forall s :: s in cache ==> s in uses) && (forall s :: s in uses ==> s >= 0 && s in cache)
  }

  /** Entering a sector as it is on disk, held once. */
  lemma EnterKeeps(info: Info, disk: seq<Sector>, cache: Cache, held: multiset<nat>, s: nat)
    requires CacheInv(info, disk, cache) && HeldBy(cache, held) && s !in cache && s < |disk|
    ensures var cache' := cache[s := Item(disk[s], false, 1)];
      CacheInv(info, disk, cache') && HeldBy(cache', held + multiset{s}) && SameView(disk, cache, disk, cache')
  {
    assert s !in held;
  }

  lemma SameViewReflexive(disk: seq<Sector>, cache: Cache)
    ensures SameView(disk, cache, disk, cache)
  {
  }

  lemma SectorsOnDisk(info: Info, disk: seq<Sector>, cache: Cache)
    requires CacheInv(info, disk, cache)
    ensures |disk| == info.fatSectors
  {
  }

  lemma SameViewTransitive(disk: seq<Sector>, cache: Cache, disk1: seq<Sector>, cache1: Cache,
                           disk2: seq<Sector>, cache2: Cache)
    requires SameView(disk, cache, disk1, cache1) && SameView(disk1, cache1, disk2, cache2)
    ensures SameView(disk, cache, disk2, cache2)
  {
  }

  /** A sector nobody holds can go. */
  lemma EvictedStillHeld(cache: Cache, held: multiset<nat>, k: nat)
    requires HeldBy(cache, held) && k in cache && k !in held
    ensures HeldBy(cache - {k}, held)
  {
  }

  lemma NobodyHolds(cache: Cache, held: multiset<nat>, s: nat)
    requires HeldBy(cache, held) && s in cache
    ensures cache[s].holders == 0 <==> s !in HeldSet(held)
  {
  }

  lemma TableSize(info: Info, disk: seq<Sector>, cache: Cache)
    requires Sound(info) && CacheInv(info, disk, cache)
    ensures |Table(info, disk, cache)| == EntryCount(info)
  {
  }

  lemma FirstFreeIs(fat: seq<nat>, from: nat, c: nat)
    requires from <= c <= |fat| && (forall i :: from <= i < c ==> !TypeOf(fat[i]).Free?)
    requires c < |fat| ==> TypeOf(fat[c]).Free?
    ensures FirstFree(fat, from) == c
  {
  }

  // ----- cache and table together -----

  lemma SlotCached(h: Hashtable.Hash, lru: L.Lru, cache: Cache, i: nat)
    requires Hashtable.Good(h, lru.table, L.Uses(lru)) && SameKeys(cache, L.Uses(lru))
    requires i < |lru.table.slots| && lru.table.slots[i].Filled?
    ensures lru.table.slots[i].key >= 0 && lru.table.slots[i].key in cache && lru.table.slots[i].key in L.Uses(lru)
  {
    hide L.Uses;
    L.HasEntries(h, lru.table, L.Uses(lru));
    assert lru.table.slots[i].key in L.Uses(lru);
  }

  /** A sector goes from the table and from the cache. */
  lemma PurgeKeeps(h: Hashtable.Hash, lru: L.Lru, cache: Cache, key: nat)
    requires Hashtable.Good(h, lru.table, L.Uses(lru)) && SameKeys(cache, L.Uses(lru)) && key in L.Uses(lru)
    ensures |lru.table.slots| > 0
    ensures var lru' := lru.(table := Hashtable.Step(h, lru.table, Hashtable.Extract(key)).0);
      Hashtable.Good(h, lru'.table, L.Uses(lru')) && SameKeys(cache - {key}, L.Uses(lru'))
  {
    hide Hashtable.Good;
    hide Hashtable.Step;
    hide L.Uses;
    Hashtable.HasSlots(h, lru.table, L.Uses(lru));
    L.ExtractedPresent(h, lru.table, L.Uses(lru), key);
    var lru' := lru.(table := Hashtable.Step(h, lru.table, Hashtable.Extract(key)).0);
    L.UsesIs(h, lru', L.Uses(lru) - {key});
  }

  /** The table can take a sector that is not cached. */
  lemma EnterAnswerable(h: Hashtable.Hash, lru: L.Lru, cache: Cache, s: nat)
    requires Hashtable.Good(h, lru.table, L.Uses(lru)) && SameKeys(cache, L.Uses(lru)) && s !in cache
    ensures |lru.table.slots| > 0
    ensures Hashtable.Answerable(h, lru.table, L.Uses(lru), Hashtable.Insert(s, lru.counter))
  {
    hide Hashtable.Good;
    hide Hashtable.Answerable;
    hide L.Uses;
    Hashtable.HasSlots(h, lru.table, L.Uses(lru));
    Hashtable.StoreAbsent(h, lru.table, L.Uses(lru), Hashtable.Insert(s, lru.counter));
  }

  lemma HoldKeeps(info: Info, disk: seq<Sector>, cache: Cache, held: multiset<nat>, s: nat)
    requires CacheInv(info, disk, cache) && HeldBy(cache, held) && s in cache
    ensures var cache' := cache[s := cache[s].(holders := cache[s].holders + 1)];
      && CacheInv(info, disk, cache') && HeldBy(cache', held + multiset{s}) && SameView(disk, cache, disk, cache')
      && cache'.Keys == cache.Keys
  {
  }

  /** A lookup finds what is cached, and what it finds is marked used. */
  lemma SeekCached(h: Hashtable.Hash, lru: L.Lru, cache: Cache, s: nat)
    requires Hashtable.Good(h, lru.table, L.Uses(lru)) && SameKeys(cache, L.Uses(lru))
    ensures |lru.table.slots| > 0
    ensures var r := L.Seek(h, lru, s);
      && (r.Hit? <==> s in cache)
      && (r.Hit? ==> Hashtable.Good(h, r.lru.table, L.Uses(r.lru)) && SameKeys(cache, L.Uses(r.lru)))
  {
    hide Hashtable.Good, L.Uses, L.Seek;
    Hashtable.HasSlots(h, lru.table, L.Uses(lru));
    L.SeekExactly(h, lru, L.Uses(lru), s);
    if s in cache {
      L.UsesIs(h, L.Seek(h, lru, s).lru, L.Uses(lru)[s := lru.counter + 1]);
    }
  }

  lemma ReleaseKeeps(info: Info, disk: seq<Sector>, cache: Cache, held: multiset<nat>, s: nat)
    requires CacheInv(info, disk, cache) && HeldBy(cache, held) && s in held
    ensures s in cache && cache[s].holders > 0
    ensures var cache' := cache[s := cache[s].(holders := cache[s].holders - 1)];
      && CacheInv(info, disk, cache') && HeldBy(cache', held - multiset{s}) && SameView(disk, cache, disk, cache')
      && cache'.Keys == cache.Keys
  {
  }

  lemma SameKeysStill(cache: Cache, cache': Cache, uses: map<int, int>)
    requires SameKeys(cache, uses) && cache'.Keys == cache.Keys
    ensures SameKeys(cache', uses)
  {
    assert forall s :: s in cache' <==> s in cache'.Keys;
    assert forall s :: s in cache <==> s in cache.Keys;
  }

  lemma HeldStays(cache: Cache, held: multiset<nat>, s: nat)
    requires HeldBy(cache, held)
    ensures s in held ==> s in cache
  {
  }

  // ----- the scan for a free entry -----

  lemma ScanStart(a: nat, held: set<int>)
    ensures Scan(a, a, held) == [L.Request(a, held)]
  {
  }

  /** A scan that stops on its way does not get to its end. */
  lemma ScanStops(h: Hashtable.Hash, maxItems: nat, trace: Trace, a: nat, s: nat, b: nat, held: set<int>)
    requires maxItems > 0 && a <= s <= b && L.After(h, maxItems, trace + Scan(a, s, held)).Stopped?
    ensures L.After(h, maxItems, trace + Scan(a, b, held)).Stopped?
  {
    hide L.After;
    ScanPrefix(a, s, b, held);
    var rest := Scan(a, b, held)[|Scan(a, s, held)|..];
    assert trace + Scan(a, b, held) == trace + Scan(a, s, held) + rest;
    L.StoppedForGood(h, maxItems, trace + Scan(a, s, held), rest);
  }

  lemma ScanOn(info: Info, first: nat, candidate: nat, last: nat, held: set<int>)
    requires Sound(info) && first <= candidate <= last && candidate < EntryCount(info)
    ensures
      var a, before := SectorOf(info, first), SectorOf(info, if candidate > first then candidate - 1 else first);
      var s := SectorOf(info, candidate);
      && a <= before <= s <= SectorOf(info, last) && s < info.fatSectors
      && Scan(a, s, held) == Scan(a, before, held) + if s == before then [] else [L.Request(s, held + {before})]
  {
    hide SectorOf;
    hide Scan;
    var previous := if candidate > first then candidate - 1 else first;
    SectorsGrow(info, first, previous);
    SectorsGrow(info, candidate, last);
    Located(info, candidate);
    SectorStep(info, previous);
    ScanNext(SectorOf(info, first), SectorOf(info, previous), held);
  }

  lemma CheckedIs(fat: seq<nat>, first: nat)
    requires first < |fat|
    ensures LastChecked(fat, first) == if FirstFree(fat, first) < |fat| then FirstFree(fat, first) else |fat| - 1
  {
  }

  lemma NotBefore(fat: seq<nat>, first: nat, candidate: nat)
    requires first <= candidate < |fat| && forall i :: first <= i < candidate ==> !TypeOf(fat[i]).Free?
    ensures candidate <= LastChecked(fat, first)
  {
  }

  class FileAllocationTable {
    const info: Info
    const hash: Hashtable.Hash
    const maxItems: nat
    var disk: seq<Sector>
    var cache: Cache
    var lru: L.Lru
    var hint: nat
    ghost var held: multiset<nat>    // the sectors callers hold, once per reference
    ghost var trace: Trace           // every request answered so far

    ghost predicate Stocked()
      reads this`disk, this`cache, this`lru, this`held
    {
      && Sound(info) && CacheInv(info, disk, cache) && HeldBy(cache, held)
      && Hashtable.Good(hash, lru.table, L.Uses(lru)) && SameKeys(cache, L.Uses(lru))
    }

    ghost predicate Valid()
      reads this`disk, this`cache, this`lru, this`held, this`trace
    {
      && Stocked() && maxItems > 0
      && L.After(hash, maxItems, trace).Running? && L.After(hash, maxItems, trace).lru == lru
    }

    /** The requests so far and these are answered. */
    ghost predicate Answers(more: Trace)
      reads this`trace
      requires maxItems > 0
    {
      L.After(hash, maxItems, trace + more).Running?
    }

    ghost function Fat(): seq<nat>
      reads this`disk, this`cache, this`lru, this`held
      requires Stocked()
    {
      Table(info, disk, cache)
    }

    ghost function AsPlain(): Plain
      reads this
      requires Stocked()
    {
      Plain(Fat(), hint)
    }

    constructor (info: Info, hash: Hashtable.Hash, disk: seq<Sector>, maxItems: nat)
      requires Sound(info) && |disk| == info.fatSectors && maxItems > 0
      requires forall s :: 0 <= s < |disk| ==> |disk[s]| == info.sectorSize
      ensures Valid() && this.info == info && this.hash == hash && this.disk == disk && this.maxItems == maxItems
      ensures cache == map[] && hint == 0 && held == multiset{} && trace == []
    {
      this.info, this.hash, this.disk, this.maxItems := info, hash, disk, maxItems;
      cache, lru, hint := map[], L.Created(maxItems), 0;
      held, trace := multiset{}, [];
      new;
      Hashtable.FreshGood(hash, 2 * maxItems);
      L.UsesIs(hash, lru, map[]);
    }

    /** Looks through the table, in its order, for the least counter of a sector nobody holds. */
    method PickVictim() returns (best: Option<nat>)
      requires Stocked()
      ensures best == L.Victim(lru.table.slots, HeldSet(held), |lru.table.slots|)
    {
      hide Hashtable.Good;
      hide CacheInv;
      hide HeldBy;
      hide SameKeys;
      hide L.Uses;
      hide HeldSet;
      var slots := lru.table.slots;
      best := None;
      for i := 0 to |slots|
        invariant best == L.Victim(slots, HeldSet(held), i)
      {
        if slots[i].Filled? {
          SlotCached(hash, lru, cache, i);
          NobodyHolds(cache, held, slots[i].key);
          if cache[slots[i].key].holders == 0 && (best.None? || slots[best.value].value > slots[i].value) {
            best := Some(i);
          }
        }
      }
    }

    /** Evicts that sector when there are too many, written back first if dirty. */
    method TryPurge() returns (ghost evicted: Option<int>)
      requires Stocked()
      modifies this`disk, this`cache, this`lru
      ensures Stocked() && SameView(old(disk), old(cache), disk, cache)
      ensures |old(lru).table.slots| > 0 && (lru, evicted) == L.Purged(hash, old(lru), maxItems, HeldSet(held))
      ensures cache == if evicted.Some? then old(cache) - {evicted.value} else old(cache)
    {
      hide Hashtable.Good;
      hide CacheInv;
      hide HeldBy;
      hide SameView;
      hide SameKeys;
      hide L.Uses;
      hide L.Victim;
      hide Hashtable.Step;
      Hashtable.HasSlots(hash, lru.table, L.Uses(lru));
      SameViewReflexive(disk, cache);
      evicted := None;
      if lru.table.load > maxItems {
        var best := PickVictim();
        if best.Some? {
          var key := lru.table.slots[best.value].key;
          SlotCached(hash, lru, cache, best.value);
          PurgeKeeps(hash, lru, cache, key);
          EvictKeeps(info, disk, cache, key);
          EvictedStillHeld(cache, held, key);
          evicted := Some(key);
          lru := lru.(table := Hashtable.Step(hash, lru.table, Hashtable.Extract(key)).0);
          if cache[key].dirty {
            disk := disk[key := cache[key].data];
          }
          cache := cache - {key};
        }
      }
    }

    /** Looks for a cached sector; one that is found is held once more and used most recently.  The lookup fails
        when the sector is not cached and the table has no empty slot left. */
    method Find(s: nat) returns (found: Option<bool>)
      requires Stocked()
      modifies this`cache, this`lru, this`held
      ensures Stocked() && SameView(disk, old(cache), disk, cache)
      ensures |old(lru).table.slots| > 0
      ensures found ==
        match L.Seek(hash, old(lru), s) case Hit(_) => Some(true) case Miss => Some(false) case Starved => None
      ensures found == Some(true) ==>
        && s in old(cache) && held == old(held) + multiset{s} && lru == L.Seek(hash, old(lru), s).lru
        && cache == old(cache)[s := old(cache)[s].(holders := old(cache)[s].holders + 1)]
      ensures found != Some(true) ==> cache == old(cache) && held == old(held) && lru == old(lru)
      ensures found == Some(false) ==> s !in cache
    {
      hide Hashtable.Good, L.Uses, L.Seek, CacheInv, HeldBy, SameKeys, SameView;
      SeekCached(hash, lru, cache, s);
      SameViewReflexive(disk, cache);
      match L.Seek(hash, lru, s) {
        case Starved => return None;
        case Miss => return Some(false);
        case Hit(touched) =>
          HoldKeeps(info, disk, cache, held, s);
          lru := touched;
          cache := cache[s := cache[s].(holders := cache[s].holders + 1)];
          held := held + multiset{s};
          SameKeysStill(old(cache), cache, L.Uses(lru));
          return Some(true);
      }
    }

    /** Enters a sector read from disk, held by the caller, and makes room.  The table must be able to answer, as
        it does for a sector that is not there. */
    method Set(s: nat, data: Sector) returns (inserted: bool)
      requires Stocked() && s < |disk| && data == disk[s]
      requires |lru.table.slots| > 0
      requires Hashtable.Answerable(hash, lru.table, L.Uses(lru), Hashtable.Insert(s, lru.counter))
      modifies this`disk, this`cache, this`lru, this`held
      ensures Stocked() && SameView(old(disk), old(cache), disk, cache)
      ensures inserted == (s !in old(cache)) && held == old(held) + if inserted then multiset{s} else multiset{}
      ensures lru == L.Entered(hash, old(lru), maxItems, HeldSet(held), s).0
      ensures inserted ==> s in cache
    {
      hide Hashtable.Good;
      hide CacheInv;
      hide HeldBy;
      hide SameView;
      hide L.Uses;
      hide L.Purged;
      hide Hashtable.Step;
      hide Hashtable.Answerable;
      ghost var uses := L.Uses(lru);
      Hashtable.StepExactly(hash, lru.table, uses, Hashtable.Insert(s, lru.counter));
      var (table, out) := Hashtable.Step(hash, lru.table, Hashtable.Insert(s, lru.counter));
      inserted := out == Hashtable.Stored(true);
      ghost var uses' := Hashtable.MapStep(uses, Hashtable.Insert(s, lru.counter)).0;
      lru := lru.(table := table);
      L.UsesIs(hash, lru, uses');
      SameViewReflexive(disk, cache);
      if inserted {
        EnterKeeps(info, disk, cache, held, s);
        cache := cache[s := Item(data, false, 1)];
        held := held + multiset{s};
      }
      ghost var entered := cache;
      Hashtable.HasSlots(hash, lru.table, L.Uses(lru));
      ghost var evicted := TryPurge();
      SameViewTransitive(old(disk), old(cache), old(disk), entered, disk, cache);
      HeldStays(cache, held, s);
    }

    /** Sector s, now held once more, read from disk if it was not cached.  What a reader sees does not change. */
    method Fetch(s: nat) returns (ok: bool)
      requires Valid() && s < info.fatSectors
      modifies this`disk, this`cache, this`lru, this`held, this`trace
      ensures Valid() && SameView(old(disk), old(cache), disk, cache)
      ensures Fat() == old(Fat()) && ok == old(Answers([L.Request(s, HeldSet(held))]))
      ensures ok ==>
        && held == old(held) + multiset{s} && s in cache
        && trace == old(trace) + [L.Request(s, HeldSet(old(held)))]
      ensures !ok ==> held == old(held) && trace == old(trace)
    {
      hide SameView;
      hide CacheInv;
      hide HeldBy;
      hide SameKeys;
      hide Table;
      hide Hashtable.Good;
      hide L.Uses;
      hide L.Seek;
      hide L.Entered;
      SectorsOnDisk(info, disk, cache);
      SameViewReflexive(disk, cache);
      ghost var request := L.Request(s, HeldSet(held));
      L.AfterNext(hash, maxItems, trace, request);
      HeldMore(held, s);
      var found := Find(s);
      if found.None? {
        SameViewSameTable(info, old(disk), old(cache), disk, cache);
        return false;
      }
      var here := found.value;
      while !here
        invariant Stocked() && SameView(old(disk), old(cache), disk, cache) && trace == old(trace)
        invariant !here ==>
          lru == old(lru) && held == old(held) && disk == old(disk) && cache == old(cache) && s !in cache
        invariant here ==>
          && held == old(held) + multiset{s} && s in cache
          && L.Requested(hash, old(lru), maxItems, request).Running?
          && lru == L.Requested(hash, old(lru), maxItems, request).lru
        decreases !here
      {
        EnterAnswerable(hash, lru, cache, s);
        here := Set(s, disk[s]);
      }
      trace := trace + [request];
      SameViewSameTable(info, old(disk), old(cache), disk, cache);
      ok := true;
    }

    method Release(s: nat)
      requires Valid() && s in held
      modifies this`cache, this`held
      ensures Valid() && Fat() == old(Fat()) && held == old(held) - multiset{s}
    {
      hide Hashtable.Good, L.Uses, L.After, CacheInv, HeldBy, SameKeys, SameView, Table;
      ReleaseKeeps(info, disk, cache, held, s);
      cache := cache[s := cache[s].(holders := cache[s].holders - 1)];
      held := held - multiset{s};
      SameKeysStill(old(cache), cache, L.Uses(lru));
      SameViewSameTable(info, disk, old(cache), disk, cache);
    }

    /** Reads one entry through a sector the caller holds. */
    method ReadEntry(c: nat) returns (value: nat)
      requires Valid() && c < EntryCount(info) && SectorOf(info, c) in held
      ensures value == Fat()[c]
    {
      hide Extract;
      hide L.After;
      hide L.Uses;
      hide Hashtable.Good;
      Located(info, c);
      var s := SectorOf(info, c);
      value := Extract(info, OffsetOf(info, c), cache[s].data);
      assert value == Entry(info, disk, cache, c);
    }

    /** Writes one entry through a sector the caller holds. */
    method WriteEntry(c: nat, value: nat)
      requires Valid() && c < EntryCount(info) && SectorOf(info, c) in held
      modifies this`cache
      ensures Valid() && Fat() == old(Fat())[c := Stored(info, value)]
    {
      hide Put;
      hide L.After;
      hide L.Uses;
      hide Hashtable.Good;
      Located(info, c);
      var s := SectorOf(info, c);
      var item := cache[s].(data := Put(info, OffsetOf(info, c), cache[s].data, value), dirty := true);
      PutChangesEntry(info, disk, cache, c, value, item);
      cache := cache[s := item];
    }

    /** The entry of a cluster.  It is a panic to look outside the table, or to need a sector the cache fails to
        find. */
    method GetNextCluster(c: nat) returns (ok: bool, value: nat)
      requires Valid()
      modifies this`disk, this`cache, this`lru, this`held, this`trace
      ensures Valid() && Fat() == old(Fat())
      ensures ok == (c < EntryCount(info) && old(Answers([L.Request(SectorOf(info, c), HeldSet(held))])))
      ensures ok ==>
        && value == Fat()[c] && held == old(held)
        && trace == old(trace) + [L.Request(SectorOf(info, c), HeldSet(held))]
    {
      hide Stocked;
      hide SameView;
      hide Table;
      hide SectorOf;
      hide L.After;
      StockedSound();
      Located(info, c);
      var s := SectorOf(info, c);
      if s >= info.fatSectors {
        return false, 0;
      }
      ok := Fetch(s);
      if !ok {
        return false, 0;
      }
      value := ReadEntry(c);
      Release(s);
      HeldBack(old(held), s);
    }

    lemma StockedSound()
      requires Stocked()
      ensures Sound(info) && |Fat()| == EntryCount(info)
    {
      TableSize(info, disk, cache);
    }

    /** Holds the sector after `from` instead of it, or `from` itself still. */
    method Move(from: nat, to: nat) returns (ok: bool)
      requires Valid() && from in held && to < info.fatSectors
      modifies this`disk, this`cache, this`lru, this`held, this`trace
      ensures Valid() && Fat() == old(Fat())
      ensures ok == (to == from || old(Answers([L.Request(to, HeldSet(held))])))
      ensures ok ==>
        && held == old(held) - multiset{from} + multiset{to}
        && trace == old(trace) + if to == from then [] else [L.Request(to, HeldSet(old(held)))]
    {
      hide Stocked;
      hide Table;
      hide SameView;
      hide L.After;
      ok := true;
      if to != from {
        ok := Fetch(to);
        if ok {
          Release(from);
        }
      } else {
        assert trace + [] == trace;
      }
    }

    /** Looks at one entry of a scan that has reached the entry before it, or at the first entry. */
    method CheckEntry(first: nat, candidate: nat, sector: nat, ghost before: Trace, ghost others: multiset<nat>)
      returns (ok: bool, free: bool, now: nat)
      requires Valid() && first <= candidate < EntryCount(info) && held == others + multiset{sector}
      requires sector == SectorOf(info, if candidate > first then candidate - 1 else first)
      requires SectorOf(info, first) <= sector
      requires trace == before + Scan(SectorOf(info, first), sector, HeldSet(others))
      modifies this`disk, this`cache, this`lru, this`held, this`trace
      ensures Valid() && Fat() == old(Fat())
      ensures now == SectorOf(info, candidate) && SectorOf(info, first) <= now
      ensures ok == L.After(hash, maxItems, before + Scan(SectorOf(info, first), now, HeldSet(others))).Running?
      ensures ok ==>
        && held == others + multiset{now} && free == (Fat()[candidate] % 0x1000_0000 == 0)
        && trace == before + Scan(SectorOf(info, first), now, HeldSet(others))
    {
      hide Stocked, Table, SectorOf, TypeOf, EntryCount, SameView, L.After, Scan, HeldSet;
      ghost var base := HeldSet(others);
      HeldMore(others, sector);
      HeldBack(others, sector);
      StockedSound();
      ScanOn(info, first, candidate, candidate, base);
      now := SectorOf(info, candidate);
      ghost var a := SectorOf(info, first);
      assert before + Scan(a, now, base) ==
             trace + if now == sector then [] else [L.Request(now, base + {sector})];
      ok := Move(sector, now);
      free := false;
      if ok {
        var value := ReadEntry(candidate);
        KindExactly(value);
        free := TypeOf(value).Free?;
      }
    }

    /** Scans for a free entry, holding the sector it has reached; the scan starts in the table. */
    method FindFree(first: nat) returns (ok: bool, candidate: nat, sector: nat)
      requires Valid() && first < EntryCount(info)
      modifies this`disk, this`cache, this`lru, this`held, this`trace
      ensures Valid() && Fat() == old(Fat())
      ensures first <= LastChecked(Fat(), first) && SectorOf(info, first) <= SectorOf(info, LastChecked(Fat(), first))
      ensures ok == old(Answers(Scan(SectorOf(info, first), SectorOf(info, LastChecked(Fat(), first)), HeldSet(held))))
      ensures ok ==>
        && candidate == FirstFree(Fat(), first) && FirstZero(Fat(), first, candidate)
        && sector == SectorOf(info, LastChecked(Fat(), first)) && held == old(held) + multiset{sector}
        && trace == old(trace) + Scan(SectorOf(info, first), sector, HeldSet(old(held)))
    {
      hide Stocked, Table, SectorOf, TypeOf, EntryCount, FirstFree, SameView, L.After, Scan, LastChecked, HeldSet;
      hide FirstZero;
      ghost var base, fat := HeldSet(held), Fat();
      ghost var last := LastChecked(fat, first);
      StockedSound();
      Located(info, first);
      Located(info, last);
      SectorsGrow(info, first, last);
      sector := SectorOf(info, first);
      ghost var a, b := sector, SectorOf(info, last);
      ScanStart(a, base);
      ok := Fetch(sector);
      if !ok {
        ScanStops(hash, maxItems, old(trace), a, a, b, base);
        return false, first, sector;
      }
      candidate := first;
      while candidate < EntryCount(info)
        invariant Valid() && Fat() == fat && held == old(held) + multiset{sector}
        invariant first <= candidate <= EntryCount(info)
        invariant forall i :: first <= i < candidate ==> !TypeOf(fat[i]).Free?
        invariant a <= sector && sector == SectorOf(info, if candidate > first then candidate - 1 else first)
        invariant trace == old(trace) + Scan(a, sector, base)
      {
        NotBefore(fat, first, candidate);
        KindExactly(fat[candidate]);
        SectorsGrow(info, candidate, last);
        var answered, free, now := CheckEntry(first, candidate, sector, old(trace), old(held));
        if !answered {
          ScanStops(hash, maxItems, old(trace), a, now, b, base);
          return false, candidate, sector;
        }
        sector := now;
        if free {
          break;
        }
        candidate := candidate + 1;
      }
      FirstFreeIs(fat, first, candidate);
      FirstFreeExactly(fat, first);
      CheckedIs(fat, first);
      ok := true;
    }

    /** Makes `current` point to a candidate whose sector is held. */
    method LinkCluster(candidate: nat, current: nat) returns (ok: bool)
      requires Valid() && candidate < EntryCount(info) && SectorOf(info, candidate) in held
      modifies this`disk, this`cache, this`lru, this`held, this`trace
      ensures Valid()
      ensures ok == (current < EntryCount(info) && old(Answers([L.Request(SectorOf(info, current), HeldSet(held))])))
      ensures ok ==>
        && held == old(held) && trace == old(trace) + [L.Request(SectorOf(info, current), HeldSet(held))]
        && Fat() == old(Fat())[candidate := Stored(info, END_OF_CHAIN)][current := Stored(info, candidate)]
    {
      hide Stocked;
      hide Table;
      hide SectorOf;
      hide EntryCount;
      hide Stored;
      hide SameView;
      hide L.After;
      StockedSound();
      Located(info, current);
      WriteEntry(candidate, END_OF_CHAIN);
      var original := SectorOf(info, current);
      if original >= info.fatSectors {
        return false;
      }
      ok := Fetch(original);
      if ok {
        WriteEntry(current, candidate);
        Release(original);
        HeldBack(old(held), original);
      }
    }

    /** Allocates a cluster and links it behind `current`, exactly as on the plain table, unless the cache fails: the
        first entry from the hint on that is 0 in its low 28 bits, or none if there is none.  The sector of the
        candidate stays held, and so cached, while the sector of `current` is fetched. */
    method AllocateNextCluster(current: nat) returns (r: AllocateResult)
      requires Valid()
      modifies this`disk, this`cache, this`lru, this`held, this`trace, this`hint
      ensures Valid()
      ensures r == if old(Answers(AllocateTrace(info, AsPlain(), current, HeldSet(held))))
                   then Allocate(info, old(AsPlain()), current).1 else Panic
      ensures !r.Panic? ==>
        && AsPlain() == Allocate(info, old(AsPlain()), current).0 && held == old(held)
        && trace == old(trace) + old(AllocateTrace(info, AsPlain(), current, HeldSet(held)))
      ensures TakesFirstZero(old(AsPlain()), r)
    {
      hide Stocked, Table, SectorOf, EntryCount, FirstFree, LastChecked, Stored, L.After, Scan, HeldSet;
      hide AllocateTrace, Allocate, TakesFirstZero;
      ghost var base, p := HeldSet(held), AsPlain();
      var first, total := if hint < 2 then 2 else hint, EntryCount(info);
      StockedSound();
      AllocateTakes(info, p, current);
      Located(info, first);
      if SectorOf(info, first) >= info.fatSectors {
        NothingToCheck(info, p, current, trace, base);
        return Panic;
      }
      AllocateCases(info, hash, maxItems, trace, p, current, base);
      var ok, candidate, sector := FindFree(first);
      if !ok {
        return Panic;
      }
      HeldMore(old(held), sector);
      HeldBack(old(held), sector);
      if candidate == total {
        Release(sector);
        return Exhausted;
      }
      ok := LinkCluster(candidate, current);
      if !ok {
        return Panic;
      }
      hint := if candidate + 1 >= total then 2 else candidate + 1;
      Release(sector);
      return Allocated(candidate);
    }

    /** Extends the chain from `start` until it covers `size` bytes, exactly as on the plain table, unless the
        cache fails. */
    method ExtendFile(start: nat, size: nat) returns (r: ExtendResult)
      requires Valid()
      modifies this`disk, this`cache, this`lru, this`held, this`trace, this`hint
      ensures Valid() && ClusterBytes(info) > 0
      ensures r == if old(Answers(ExtendTrace(info, AsPlain(), start, ClusterBytes(info), size, HeldSet(held))))
                   then Extend(info, old(AsPlain()), start, ClusterBytes(info), size).1 else Failed
      ensures !r.Failed? ==>
        && AsPlain() == Extend(info, old(AsPlain()), start, ClusterBytes(info), size).0 && held == old(held)
        && trace == old(trace) + old(ExtendTrace(info, AsPlain(), start, ClusterBytes(info), size, HeldSet(held)))
    {
      hide Stocked, Table, EntryCount, Allocate, AllocateTrace, TypeOf, SectorOf, L.After, HeldSet, Extend, ExtendTrace;
      StockedSound();
      ClusterBytesPositive(info);
      hide ClusterBytes;
      var step := ClusterBytes(info);
      var covered, current := step, start;
      ghost var base := HeldSet(held);
      ghost var result := Extend(info, AsPlain(), start, step, size);
      ghost var whole := trace + ExtendTrace(info, AsPlain(), start, step, size, base);
      while covered < size
        invariant Valid() && held == old(held)
        invariant Extend(info, AsPlain(), current, covered, size) == result
        invariant trace + ExtendTrace(info, AsPlain(), current, covered, size, base) == whole
        decreases size - covered
      {
        StockedSound();
        ghost var before := AsPlain();
        var last := current;
        ExtendEnds(info, before, last, covered, size, trace, base);
        if last < |before.fat| {
          ExtendCases(info, hash, maxItems, trace, before, last, covered, size, base);
        }
        var ok;
        ok, current := GetNextCluster(last);
        if !ok {
          return Failed;
        }
        if !TypeOf(current).NextPointer? {
          var a := AllocateNextCluster(last);
          match a {
            case Allocated(c) => current := c;
            case Exhausted => return NoSpace;
            case Panic => return Failed;
          }
        }
        covered := covered + step;
      }
      ExtendEnds(info, AsPlain(), current, covered, size, trace, base);
      r := Extended;
    }
  }

  /** What an allocation does and asks for, given what the search finds. */
  lemma AllocateCases(info: Info, h: Hashtable.Hash, maxItems: nat, trace: Trace, p: Plain, current: nat,
                      held: set<int>)
    requires Sound(info) && maxItems > 0 && FirstChecked(p) < |p.fat|
    ensures
      var first := FirstChecked(p);
      var c, last := FirstFree(p.fat, first), LastChecked(p.fat, first);
      var all := trace + AllocateTrace(info, p, current, held);
      && SectorOf(info, first) <= SectorOf(info, last)
      && var scan := trace + Scan(SectorOf(info, first), SectorOf(info, last), held);
      && (L.After(h, maxItems, scan).Stopped? ==> L.After(h, maxItems, all).Stopped?)
      && (c == |p.fat| ==> Allocate(info, p, current) == (p, Exhausted) && all == scan)
      && (c < |p.fat| ==>
            && last == c
            && (current >= |p.fat| ==> Allocate(info, p, current).1 == Panic && all == scan)
            && (current < |p.fat| ==>
                  && all == scan + [L.Request(SectorOf(info, current), held + {SectorOf(info, c)})]
                  && Allocate(info, p, current) == (
                       Plain(p.fat[c := Stored(info, END_OF_CHAIN)][current := Stored(info, c)], NextHint(p, c)),
                       Allocated(c))))
  {
    hide L.After;
    hide SectorOf;
    hide Scan;
    hide Stored;
    var first := FirstChecked(p);
    var last := LastChecked(p.fat, first);
    SectorsGrow(info, first, last);
    var scan := Scan(SectorOf(info, first), SectorOf(info, last), held);
    var rest := AllocateTrace(info, p, current, held)[|scan|..];
    assert AllocateTrace(info, p, current, held) == scan + rest;
    StopsWhole(h, maxItems, trace + scan, rest, trace + AllocateTrace(info, p, current, held));
  }

  lemma NothingToCheck(info: Info, p: Plain, current: nat, trace: Trace, held: set<int>)
    requires Sound(info) && FirstChecked(p) >= |p.fat|
    ensures Allocate(info, p, current).1 == Panic && trace + AllocateTrace(info, p, current, held) == trace
  {
  }

  /** What one turn of the loop does and asks for.  Its requests come first, and if one of them stops the run it
      does not go on. */
  lemma ExtendCases(info: Info, h: Hashtable.Hash, maxItems: nat, trace: Trace, p: Plain, current: nat, covered: nat,
                    size: nat, held: set<int>)
    requires Sound(info) && ClusterBytes(info) > 0 && maxItems > 0 && covered < size && current < |p.fat|
    ensures
      var step := ClusterBytes(info);
      var read := trace + [L.Request(SectorOf(info, current), held)];
      var whole := trace + ExtendTrace(info, p, current, covered, size, held);
      && (L.After(h, maxItems, read).Stopped? ==> L.After(h, maxItems, whole).Stopped?)
      && if TypeOf(p.fat[current]).NextPointer? then
           && whole == read + ExtendTrace(info, p, p.fat[current], covered + step, size, held)
           && Extend(info, p, current, covered, size) == Extend(info, p, p.fat[current], covered + step, size)
         else
           var linked, (p', a) := read + AllocateTrace(info, p, current, held), Allocate(info, p, current);
           && (L.After(h, maxItems, linked).Stopped? ==> L.After(h, maxItems, whole).Stopped?)
           && (a.Allocated? ==>
                 && whole == linked + ExtendTrace(info, p', a.cluster, covered + step, size, held)
                 && Extend(info, p, current, covered, size) == Extend(info, p', a.cluster, covered + step, size))
           && (!a.Allocated? ==> whole == linked)
           && (a.Exhausted? ==> Extend(info, p, current, covered, size) == (p', NoSpace))
           && (a.Panic? ==> Extend(info, p, current, covered, size).1 == Failed)
  {
    hide L.After;
    hide SectorOf;
    hide AllocateTrace;
    hide Allocate;
    hide TypeOf;
    hide ClusterBytes;
    var step := ClusterBytes(info);
    var read := trace + [L.Request(SectorOf(info, current), held)];
    var whole := trace + ExtendTrace(info, p, current, covered, size, held);
    ExtendSplit(info, p, current, covered, size, held);
    assert whole == read + ExtendRest(info, p, current, covered, size, held);
    if TypeOf(p.fat[current]).NextPointer? {
      StopsWhole(h, maxItems, read, ExtendTrace(info, p, p.fat[current], covered + step, size, held), whole);
    } else {
      var linked := read + AllocateTrace(info, p, current, held);
      var (p', a) := Allocate(info, p, current);
      var rest := if a.Allocated? then ExtendTrace(info, p', a.cluster, covered + step, size, held) else [];
      assert whole == linked + rest;
      StopsWhole(h, maxItems, linked, rest, whole);
      StopsWhole(h, maxItems, read, AllocateTrace(info, p, current, held), linked);
    }
  }

  lemma ExtendEnds(info: Info, p: Plain, current: nat, covered: nat, size: nat, trace: Trace, held: set<int>)
    requires info.sectorSize > 0 && ClusterBytes(info) > 0
    ensures covered >= size ==>
      Extend(info, p, current, covered, size) == (p, Extended) &&
      trace + ExtendTrace(info, p, current, covered, size, held) == trace
    ensures covered < size && current >= |p.fat| ==>
      Extend(info, p, current, covered, size) == (p, Failed) &&
      trace + ExtendTrace(info, p, current, covered, size, held) == trace
  {
    hide ClusterBytes;
  }

  lemma StopsWhole(h: Hashtable.Hash, maxItems: nat, part: Trace, rest: Trace, whole: Trace)
    requires maxItems > 0 && whole == part + rest
    ensures L.After(h, maxItems, part).Stopped? ==> L.After(h, maxItems, whole).Stopped?
  {
    hide L.After;
    if L.After(h, maxItems, part).Stopped? {
      L.StoppedForGood(h, maxItems, part, rest);
    }
  }

  lemma ClusterBytesPositive(info: Info)
    requires Sound(info)
    ensures ClusterBytes(info) > 0
  {
  }

  // ----- whole runs -----

  method Operate(fat: FileAllocationTable, operation: Operation) returns (out: Output)
    requires fat.Valid() && ClusterBytes(fat.info) > 0 && fat.held == multiset{}
    modifies fat
    ensures fat.Valid()
    ensures out == if old(fat.Answers(OperationTrace(fat.info, fat.AsPlain(), operation)))
                   then PlainStep(fat.info, old(fat.AsPlain()), operation).1 else Panicked
    ensures !out.Panicked? ==>
      && fat.AsPlain() == PlainStep(fat.info, old(fat.AsPlain()), operation).0 && fat.held == multiset{}
      && fat.trace == old(fat.trace) + old(OperationTrace(fat.info, fat.AsPlain(), operation))
  {
    hide fat.Stocked;
    hide Table, Extend, ExtendTrace, ClusterBytes, SectorOf, L.After;
    fat.StockedSound();
    assert HeldSet(fat.held) == {};
    match operation {
      case Read(c) =>
        var ok, value := fat.GetNextCluster(c);
        out := if ok then Value(value) else Panicked;
      case Grow(start, size) =>
        var r := fat.ExtendFile(start, size);
        out := if r.Failed? then Panicked else Grown(r);
    }
  }

  /** Whatever is read and extended, in whatever order: the outputs are those of the plain table on the disk up to
      the first request the cache cannot answer, and a cache of two sectors or more never holds more than it is
      to. */
  method RunCached(info: Info, hash: Hashtable.Hash, disk: seq<Sector>, maxItems: nat, operations: seq<Operation>)
    returns (outputs: seq<Output>, cached: nat)
    requires Sound(info) && CacheInv(info, disk, map[]) && maxItems > 0
    ensures ClusterBytes(info) > 0
    ensures outputs == CachedRun(info, hash, maxItems, Plain(Table(info, disk, map[]), 0), [], operations)
    ensures maxItems >= 2 ==> cached <= maxItems
  {
    hide CacheInv, Table, ClusterBytes, PlainStep, CachedRun, L.After, OperationTrace;
    ClusterBytesPositive(info);
    DiskSectors(info, disk);
    var fat := new FileAllocationTable(info, hash, disk, maxItems);
    outputs, cached := [], 0;
    ghost var expected := CachedRun(info, hash, maxItems, fat.AsPlain(), [], operations);
    assert operations[0..] == operations;
    for i := 0 to |operations|
      invariant fat.Valid() && fresh(fat) && fat.info == info && fat.hash == hash && fat.maxItems == maxItems
      invariant fat.held == multiset{} && AllModest(info, {}, fat.trace)
      invariant expected == outputs + CachedRun(info, hash, maxItems, fat.AsPlain(), fat.trace, operations[i..])
      invariant maxItems >= 2 ==> cached <= maxItems
    {
      CachedRunNext(info, hash, maxItems, fat.AsPlain(), fat.trace, operations, i, outputs);
      fat.StockedSound();
      OperationModest(info, fat.AsPlain(), operations[i]);
      AllModestJoin(info, {}, fat.trace, OperationTrace(info, fat.AsPlain(), operations[i]));
      var out := Operate(fat, operations[i]);
      outputs := outputs + [out];
      if out.Panicked? { return; }
      StaysWithin(fat);
      cached := |fat.cache|;
    }
    CachedRunEnd(info, hash, maxItems, fat.AsPlain(), fat.trace, operations, outputs);
  }

  lemma StaysWithin(fat: FileAllocationTable)
    requires fat.Valid() && AllModest(fat.info, {}, fat.trace)
    ensures fat.maxItems >= 2 ==> |fat.cache| <= fat.maxItems
  {
    hide L.After;
    hide L.Uses;
    if fat.maxItems >= 2 {
      forall r | r in fat.trace ensures |r.held + {r.key}| <= fat.maxItems {
        assert Modest(fat.info, {}, r);
      }
      L.EveryRunWithin(fat.hash, fat.maxItems, fat.trace);
      var keys: set<int> := fat.cache.Keys;
      assert keys <= L.Uses(fat.lru).Keys;
      SubsetSize(keys, L.Uses(fat.lru).Keys);
    }
  }

  lemma CachedRunNext(info: Info, h: Hashtable.Hash, maxItems: nat, p: Plain, trace: Trace, operations: seq<Operation>,
                      i: nat, before: seq<Output>)
    requires info.sectorSize > 0 && ClusterBytes(info) > 0 && maxItems > 0 && i < |operations|
    ensures var (p', out) := PlainStep(info, p, operations[i]);
      var trace' := trace + OperationTrace(info, p, operations[i]);
      before + CachedRun(info, h, maxItems, p, trace, operations[i..]) ==
      if L.After(h, maxItems, trace').Stopped? then before + [Panicked]
      else before + [out] + if out.Panicked? then [] else CachedRun(info, h, maxItems, p', trace', operations[i + 1..])
  {
    hide PlainStep, ClusterBytes, L.After, OperationTrace;
    assert operations[i..][0] == operations[i] && operations[i..][1..] == operations[i + 1..];
  }

  lemma CachedRunEnd(info: Info, h: Hashtable.Hash, maxItems: nat, p: Plain, trace: Trace, operations: seq<Operation>,
                     outputs: seq<Output>)
    requires info.sectorSize > 0 && ClusterBytes(info) > 0 && maxItems > 0
    ensures outputs + CachedRun(info, h, maxItems, p, trace, operations[|operations|..]) == outputs
  {
  }

  lemma DiskSectors(info: Info, disk: seq<Sector>)
    requires CacheInv(info, disk, map[])
    ensures |disk| == info.fatSectors && forall s :: 0 <= s < |disk| ==> |disk[s]| == info.sectorSize
  {
  }
}
