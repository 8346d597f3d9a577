/** Which sectors of the table an operation asks the cache for, and what becomes of a run of operations for it:
    the outputs are those of the plain table up to the first request the cache cannot answer. */
module FatTraces {
  import opened Counting
  import opened FatEntries
  import opened FatChains
  import Hashtable
  import L = LruCaches
  import SectorHashes

  type Trace = seq<L.Request>

  // ----- requests made by the operations -----

  /** Sector after sector from a to b, each asked for while the one before is still held. */
  function Scan(a: nat, b: nat, held: set<int>): (t: Trace)
    requires a <= b
    ensures |t| == b - a + 1
  {
    seq(b - a + 1, i requires 0 <= i => L.Request(a + i, if i == 0 then held else held + {a + i - 1}))
  }

  lemma ScanNext(a: nat, b: nat, held: set<int>)
    requires a <= b
    ensures Scan(a, b + 1, held) == Scan(a, b, held) + [L.Request(b + 1, held + {b})]
  {
  }

  lemma ScanPrefix(a: nat, b: nat, c: nat, held: set<int>)
    requires a <= b <= c
    ensures Scan(a, b, held) <= Scan(a, c, held)
  {
  }

  /** The last entry a search for a free one looks at. */
  function LastChecked(fat: seq<nat>, first: nat): (last: nat)
    requires first < |fat|
    ensures first <= last < |fat|
  {
    var c := FirstFree(fat, first);
    if c < |fat| then c else |fat| - 1
  }

  /** The search for a free entry, and the sector of the entry that is to point to it. */
  function AllocateTrace(info: Info, p: Plain, current: nat, held: set<int>): Trace
    requires info.sectorSize > 0
  {
    var first := FirstChecked(p);
    if first >= |p.fat| then [] else
      var last := LastChecked(p.fat, first);
      SectorsGrow(info, first, last);
      Scan(SectorOf(info, first), SectorOf(info, last), held)
      + if TypeOf(p.fat[last]).Free? && current < |p.fat|
        then [L.Request(SectorOf(info, current), held + {SectorOf(info, last)})] else []
  }

  function ExtendTrace(info: Info, p: Plain, current: nat, covered: nat, size: nat, held: set<int>): Trace
    requires info.sectorSize > 0 && ClusterBytes(info) > 0
    decreases size - covered, 1
  {
    if covered >= size || current >= |p.fat| then []
    else [L.Request(SectorOf(info, current), held)] + ExtendRest(info, p, current, covered, size, held)
  }

  /** What an extension asks for after the entry of the cluster it stands on. */
  function ExtendRest(info: Info, p: Plain, current: nat, covered: nat, size: nat, held: set<int>): Trace
    requires info.sectorSize > 0 && ClusterBytes(info) > 0 && covered < size && current < |p.fat|
    decreases size - covered, 0
  {
    var step := ClusterBytes(info);
    if TypeOf(p.fat[current]).NextPointer? then ExtendTrace(info, p, p.fat[current], covered + step, size, held)
    else
      AllocateTrace(info, p, current, held) +
      match Allocate(info, p, current)
      case (p', Allocated(c)) => ExtendTrace(info, p', c, covered + step, size, held)
      case _ => []
  }

  lemma SectorsGrow(info: Info, c: nat, d: nat)
    requires info.sectorSize > 0 && c <= d
    ensures SectorOf(info, c) <= SectorOf(info, d)
  {
    assert c * Width(info) <= d * Width(info);
    DivideBelow(c * Width(info), info.sectorSize, SectorOf(info, d) + 1);
    DivideBelow(d * Width(info), info.sectorSize, SectorOf(info, d) + 1);
  }

  /** Neighbouring entries lie in the same sector or in neighbouring ones. */
  lemma SectorStep(info: Info, c: nat)
    requires Sound(info)
    ensures SectorOf(info, c) <= SectorOf(info, c + 1) <= SectorOf(info, c) + 1
  {
    SectorsGrow(info, c, c + 1);
    var w, s := Width(info), SectorOf(info, c);
    assert (c + 1) * w == c * w + w;
    DivideBelow(c * w, info.sectorSize, s + 1);
    assert (s + 2) * info.sectorSize == (s + 1) * info.sectorSize + info.sectorSize;
    DivideBelow((c + 1) * w, info.sectorSize, s + 2);
  }

  // ----- runs -----

  datatype Operation = Read(cluster: nat) | Grow(start: nat, size: nat)

  datatype Output = Value(value: nat) | Grown(result: ExtendResult) | Panicked

  /** One operation on the plain, uncached table. */
  function PlainStep(info: Info, p: Plain, operation: Operation): (r: (Plain, Output))
    requires ClusterBytes(info) > 0
  {
    match operation
    case Read(c) => (p, if c < |p.fat| then Value(p.fat[c]) else Panicked)
    case Grow(start, size) =>
      var (p', r) := Extend(info, p, start, ClusterBytes(info), size);
      (p', if r.Failed? then Panicked else Grown(r))
  }

  function OperationTrace(info: Info, p: Plain, operation: Operation): Trace
    requires info.sectorSize > 0 && ClusterBytes(info) > 0
  {
    match operation
    case Read(c) => if c < |p.fat| then [L.Request(SectorOf(info, c), {})] else []
    case Grow(start, size) => ExtendTrace(info, p, start, ClusterBytes(info), size, {})
  }

  /** What a run of operations gives on the plain table; it ends at a panic. */
  function PlainRun(info: Info, p: Plain, operations: seq<Operation>): seq<Output>
    requires ClusterBytes(info) > 0
    decreases |operations|
  {
    if operations == [] then [] else
      var (p', out) := PlainStep(info, p, operations[0]);
      [out] + if out.Panicked? then [] else PlainRun(info, p', operations[1..])
  }

  /** The requests of a run on the plain table. */
  function RunTrace(info: Info, p: Plain, operations: seq<Operation>): Trace
    requires info.sectorSize > 0 && ClusterBytes(info) > 0
    decreases |operations|
  {
    if operations == [] then [] else
      var (p', out) := PlainStep(info, p, operations[0]);
      if out.Panicked? then []
      else OperationTrace(info, p, operations[0]) + RunTrace(info, p', operations[1..])
  }

  /** What a run gives through a cache of `maxItems` sectors that has answered the requests so far. */
  function CachedRun(info: Info, h: Hashtable.Hash, maxItems: nat, p: Plain, trace: Trace, operations: seq<Operation>)
    : seq<Output>
    requires info.sectorSize > 0 && ClusterBytes(info) > 0 && maxItems > 0
    decreases |operations|
  {
    if operations == [] then [] else
      var trace' := trace + OperationTrace(info, p, operations[0]);
      if L.After(h, maxItems, trace').Stopped? then [Panicked] else
        var (p', out) := PlainStep(info, p, operations[0]);
        [out] + if out.Panicked? then [] else CachedRun(info, h, maxItems, p', trace', operations[1..])
  }

  /** The cache goes unnoticed exactly when it answers all requests of the run; otherwise the outputs are those of
      the plain table up to a panic. */
  lemma {:induction false} UnnoticedExactly(info: Info, h: Hashtable.Hash, maxItems: nat, p: Plain, trace: Trace,
                                            operations: seq<Operation>)
    requires info.sectorSize > 0 && ClusterBytes(info) > 0 && maxItems > 0
    requires L.After(h, maxItems, trace).Running?
    ensures var outputs, plain := CachedRun(info, h, maxItems, p, trace, operations), PlainRun(info, p, operations);
      && (outputs == plain <==> L.After(h, maxItems, trace + RunTrace(info, p, operations)).Running?)
      && (outputs != plain ==>
            0 < |outputs| <= |plain| && outputs == plain[..|outputs| - 1] + [Panicked])
    decreases |operations|
  {
    hide PlainStep;
    hide OperationTrace;
    hide ClusterBytes;
    hide L.After;
    if operations == [] {
      assert trace + [] == trace;
    } else {
      var (p', out) := PlainStep(info, p, operations[0]);
      var trace' := trace + OperationTrace(info, p, operations[0]);
      if out.Panicked? {
        assert trace + [] == trace;
      } else {
        var rest := RunTrace(info, p', operations[1..]);
        assert trace + (OperationTrace(info, p, operations[0]) + rest) == trace' + rest;
        if L.After(h, maxItems, trace').Stopped? {
          assert PlainRun(info, p, operations)[0] == out;
          L.StoppedForGood(h, maxItems, trace', rest);
        } else {
          UnnoticedExactly(info, h, maxItems, p', trace', operations[1..]);
          UnnoticedNext(out, CachedRun(info, h, maxItems, p', trace', operations[1..]),
                        PlainRun(info, p', operations[1..]));
        }
      }
    }
  }

  lemma UnnoticedNext(out: Output, outputs: seq<Output>, plain: seq<Output>)
    ensures [out] + outputs == [out] + plain <==> outputs == plain
    ensures 0 < |outputs| <= |plain| && outputs == plain[..|outputs| - 1] + [Panicked] ==>
      [out] + outputs == ([out] + plain)[..|outputs|] + [Panicked]
  {
    assert ([out] + outputs)[1..] == outputs && ([out] + plain)[1..] == plain;
  }

  // ----- what a trace asks for -----

  /** A request of a sector of the table, by somebody who holds at most one sector more than those in `held`. */
  ghost predicate Modest(info: Info, held: set<int>, r: L.Request) {
    0 <= r.key < info.fatSectors && |r.held| <= |held| + 1
  }

  ghost predicate AllModest(info: Info, held: set<int>, trace: Trace) {
    forall r :: r in trace ==> Modest(info, held, r)
  }

  lemma AllModestJoin(info: Info, held: set<int>, s: Trace, t: Trace)
    requires AllModest(info, held, s) && AllModest(info, held, t)
    ensures AllModest(info, held, s + t)
  {
  }

  lemma ScanModest(info: Info, a: nat, b: nat, held: set<int>)
    requires a <= b < info.fatSectors
    ensures AllModest(info, held, Scan(a, b, held))
  {
    forall r | r in Scan(a, b, held) ensures Modest(info, held, r) {
      var i :| 0 <= i < |Scan(a, b, held)| && r == Scan(a, b, held)[i];
    }
  }

  lemma AllocateModest(info: Info, p: Plain, current: nat, held: set<int>)
    requires Sound(info) && |p.fat| == EntryCount(info)
    ensures AllModest(info, held, AllocateTrace(info, p, current, held))
    ensures |Allocate(info, p, current).0.fat| == |p.fat|
  {
    hide SectorOf;
    hide EntryCount;
    if FirstChecked(p) < |p.fat| {
      var last := LastChecked(p.fat, FirstChecked(p));
      SectorsGrow(info, FirstChecked(p), last);
      Located(info, last);
      Located(info, current);
      ScanModest(info, SectorOf(info, FirstChecked(p)), SectorOf(info, last), held);
    }
  }

  lemma {:induction false} ExtendKeepsSize(info: Info, p: Plain, current: nat, covered: nat, size: nat)
    requires ClusterBytes(info) > 0
    ensures |Extend(info, p, current, covered, size).0.fat| == |p.fat|
    decreases size - covered
  {
    hide ClusterBytes;
    hide TypeOf;
    hide Stored;
    if covered < size && current < |p.fat| {
      if TypeOf(p.fat[current]).NextPointer? {
        ExtendKeepsSize(info, p, p.fat[current], covered + ClusterBytes(info), size);
      } else {
        var (p', a) := Allocate(info, p, current);
        if a.Allocated? {
          ExtendKeepsSize(info, p', a.cluster, covered + ClusterBytes(info), size);
        }
      }
    }
  }

  lemma ExtendSplit(info: Info, p: Plain, current: nat, covered: nat, size: nat, held: set<int>)
    requires info.sectorSize > 0 && ClusterBytes(info) > 0
    ensures ExtendTrace(info, p, current, covered, size, held) ==
      if covered >= size || current >= |p.fat| then []
      else [L.Request(SectorOf(info, current), held)] + ExtendRest(info, p, current, covered, size, held)
  {
    hide SectorOf;
    hide ClusterBytes;
    hide AllocateTrace;
    hide Allocate;
    hide TypeOf;
  }

  lemma {:induction false} ExtendModest(info: Info, p: Plain, current: nat, covered: nat, size: nat, held: set<int>)
    requires Sound(info) && ClusterBytes(info) > 0 && |p.fat| == EntryCount(info)
    ensures AllModest(info, held, ExtendTrace(info, p, current, covered, size, held))
    decreases size - covered
  {
    hide AllModest;
    hide SectorOf;
    hide EntryCount;
    hide ClusterBytes;
    hide AllocateTrace;
    hide Allocate;
    hide TypeOf;
    hide ExtendTrace;
    NoneModest(info, held);
    ExtendSplit(info, p, current, covered, size, held);
    if covered < size && current < |p.fat| {
      Located(info, current);
      OneModest(info, held, SectorOf(info, current));
      var step := ClusterBytes(info);
      if TypeOf(p.fat[current]).NextPointer? {
        ExtendModest(info, p, p.fat[current], covered + step, size, held);
      } else {
        AllocateModest(info, p, current, held);
        var (p', a) := Allocate(info, p, current);
        var rest := [];
        if a.Allocated? {
          ExtendModest(info, p', a.cluster, covered + step, size, held);
          rest := ExtendTrace(info, p', a.cluster, covered + step, size, held);
        }
        AllModestJoin(info, held, AllocateTrace(info, p, current, held), rest);
      }
      AllModestJoin(info, held, [L.Request(SectorOf(info, current), held)],
                    ExtendRest(info, p, current, covered, size, held));
    }
  }

  lemma NoneModest(info: Info, held: set<int>)
    ensures AllModest(info, held, [])
  {
  }

  lemma OneModest(info: Info, held: set<int>, sector: nat)
    requires sector < info.fatSectors
    ensures AllModest(info, held, [L.Request(sector, held)])
  {
  }

  lemma {:induction false} RunModest(info: Info, p: Plain, operations: seq<Operation>)
    requires Sound(info) && ClusterBytes(info) > 0 && |p.fat| == EntryCount(info)
    ensures AllModest(info, {}, RunTrace(info, p, operations))
    decreases |operations|
  {
    hide Modest;
    hide SectorOf;
    hide EntryCount;
    hide ClusterBytes;
    hide ExtendTrace;
    hide Extend;
    if operations != [] {
      OperationModest(info, p, operations[0]);
      RunModest(info, PlainStep(info, p, operations[0]).0, operations[1..]);
    }
  }

  lemma OperationModest(info: Info, p: Plain, operation: Operation)
    requires Sound(info) && ClusterBytes(info) > 0 && |p.fat| == EntryCount(info)
    ensures AllModest(info, {}, OperationTrace(info, p, operation))
    ensures |PlainStep(info, p, operation).0.fat| == |p.fat|
  {
    hide SectorOf;
    hide EntryCount;
    hide ClusterBytes;
    match operation
    case Read(c) =>
      Located(info, c);
    case Grow(start, size) =>
      ExtendModest(info, p, start, ClusterBytes(info), size, {});
      ExtendKeepsSize(info, p, start, ClusterBytes(info), size);
  }

  lemma ModestKeys(info: Info, trace: Trace)
    requires AllModest(info, {}, trace)
    ensures |L.Keys(trace)| <= info.fatSectors
  {
    var all: set<int> := Below(info.fatSectors);
    forall k | k in L.Keys(trace) ensures k in all {
      var r :| r in trace && r.key == k;
      assert Modest(info, {}, r);
    }
    SubsetSize(L.Keys(trace), all);
  }

  /** Fewer sectors than the cache's table has slots were entered before the last request. */
  predicate FewEntered(h: Hashtable.Hash, maxItems: nat, trace: Trace)
    requires maxItems > 0
  {
    trace == [] || L.Misses(h, maxItems, trace[..|trace| - 1]) < 2 * maxItems
  }

  /** A table of no more sectors than the cache is to hold is cached for good, so that no run notices; neither
      does any run that has entered fewer sectors than twice that number before its last request, whatever the size
      of the table. */
  lemma UnnoticedIf(info: Info, h: Hashtable.Hash, maxItems: nat, p: Plain, operations: seq<Operation>)
    requires Sound(info) && ClusterBytes(info) > 0 && maxItems > 0 && |p.fat| == EntryCount(info)
    requires info.fatSectors <= maxItems || FewEntered(h, maxItems, RunTrace(info, p, operations))
    ensures CachedRun(info, h, maxItems, p, [], operations) == PlainRun(info, p, operations)
  {
    hide CachedRun;
    hide RunTrace;
    hide ClusterBytes;
    hide EntryCount;
    hide L.Requested;
    var trace := RunTrace(info, p, operations);
    assert [] + trace == trace;
    L.StartsRunning(h, maxItems);
    UnnoticedExactly(info, h, maxItems, p, [], operations);
    if info.fatSectors <= maxItems {
      RunModest(info, p, operations);
      ModestKeys(info, trace);
      L.FewKeysGoOn(h, maxItems, trace);
    } else {
      L.FewMissesGoOn(h, maxItems, trace);
    }
  }

  // ----- reads that starve the cache -----

  function ReadAll(clusters: seq<nat>): (r: seq<Operation>)
    ensures |r| == |clusters| && forall i :: 0 <= i < |r| ==> r[i] == Read(clusters[i])
  {
    seq(|clusters|, i requires 0 <= i < |clusters| => Read(clusters[i]))
  }

  function Sectors(info: Info, clusters: seq<nat>): (r: seq<int>)
    requires info.sectorSize > 0
    ensures |r| == |clusters| && forall i :: 0 <= i < |r| ==> r[i] == SectorOf(info, clusters[i])
  {
    seq(|clusters|, i requires 0 <= i < |clusters| => SectorOf(info, clusters[i]))
  }

  /** Reads inside the table ask for the sector of each cluster in turn. */
  lemma {:induction false} ReadsTrace(info: Info, p: Plain, clusters: seq<nat>)
    requires info.sectorSize > 0 && ClusterBytes(info) > 0 && forall c :: c in clusters ==> c < |p.fat|
    ensures RunTrace(info, p, ReadAll(clusters)) == L.Reads(Sectors(info, clusters))
  {
    hide SectorOf;
    hide ClusterBytes;
    hide RunTrace;
    if clusters == [] {
      NoTrace(info, p);
    } else {
      assert clusters[0] in clusters && forall c :: c in clusters[1..] ==> c in clusters;
      ReadsTrace(info, p, clusters[1..]);
      ReadTrace(info, p, ReadAll(clusters));
      assert ReadAll(clusters)[1..] == ReadAll(clusters[1..]);
      ReadsFirst(info, clusters);
    }
  }

  lemma NoTrace(info: Info, p: Plain)
    requires info.sectorSize > 0 && ClusterBytes(info) > 0
    ensures RunTrace(info, p, []) == [] == L.Reads([])
  {
  }

  lemma ReadTrace(info: Info, p: Plain, operations: seq<Operation>)
    requires info.sectorSize > 0 && ClusterBytes(info) > 0
    requires operations != [] && operations[0].Read? && operations[0].cluster < |p.fat|
    ensures RunTrace(info, p, operations) ==
            [L.Request(SectorOf(info, operations[0].cluster), {})] + RunTrace(info, p, operations[1..])
  {
    hide SectorOf;
    hide ClusterBytes;
  }

  lemma ReadsFirst(info: Info, clusters: seq<nat>)
    requires info.sectorSize > 0 && clusters != []
    ensures L.Reads(Sectors(info, clusters)) ==
            [L.Request(SectorOf(info, clusters[0]), {})] + L.Reads(Sectors(info, clusters[1..]))
  {
    hide SectorOf;
  }

  /** Without a cache they give the entries. */
  lemma {:induction false} ReadsGive(info: Info, p: Plain, clusters: seq<nat>)
    requires ClusterBytes(info) > 0 && forall c :: c in clusters ==> c < |p.fat|
    ensures var plain := PlainRun(info, p, ReadAll(clusters));
      |plain| == |clusters| && forall i :: 0 <= i < |plain| ==>
        clusters[i] < |p.fat| && plain[i] == Value(p.fat[clusters[i]])
  {
    hide ClusterBytes;
    if clusters != [] {
      assert clusters[0] in clusters && forall c :: c in clusters[1..] ==> c in clusters;
      ReadsGive(info, p, clusters[1..]);
      assert ReadAll(clusters)[1..] == ReadAll(clusters[1..]);
    }
  }

  /** Reading one cluster for each slot of the cache's table as the home of its sector, and then one whose sector
      is not cached, ends in a panic, although every cluster lies in the table. */
  lemma ReadsPanic(info: Info, h: Hashtable.Hash, maxItems: nat, p: Plain, clusters: seq<nat>, last: nat)
    requires info.sectorSize > 0 && ClusterBytes(info) > 0 && maxItems > 0
    requires forall c :: c in clusters + [last] ==> c < |p.fat|
    requires Hashtable.OnePerHome(h, 2 * maxItems, Sectors(info, clusters))
    requires SectorOf(info, last) !in Sectors(info, clusters)[maxItems..]
    ensures Panicked !in PlainRun(info, p, ReadAll(clusters + [last]))
    ensures CachedRun(info, h, maxItems, p, [], ReadAll(clusters + [last])) ==
            PlainRun(info, p, ReadAll(clusters)) + [Panicked]
  {
    hide L.After;
    hide Hashtable.OnePerHome;
    hide CachedRun;
    hide PlainRun;
    hide ClusterBytes;
    hide RunTrace;
    hide SectorOf;
    var all := clusters + [last];
    assert forall c :: c in clusters ==> c in all;
    assert ReadAll(all) == ReadAll(clusters) + [Read(last)];
    assert Sectors(info, all) == Sectors(info, clusters) + [SectorOf(info, last)];
    L.ReadsStop(h, maxItems, Sectors(info, clusters), SectorOf(info, last));
    ReadsGive(info, p, all);
    ReadsGive(info, p, clusters);
    ReadsUnnoticedExactly(info, h, maxItems, p, all);
    ReadsUnnoticedExactly(info, h, maxItems, p, clusters);
    CachedPrefix(info, h, maxItems, p, [], ReadAll(clusters), [Read(last)]);
    var outputs := CachedRun(info, h, maxItems, p, [], ReadAll(all));
    assert outputs[|outputs| - 1] == Panicked;
  }

  /** If every slot of the cache's table is the home of some sector, given by one of its clusters, then all runs of so
      many requests go unnoticed exactly up to twice as many requests as the cache is to hold, and so do all runs of
      reads inside the table. */
  lemma ShortRunsUnnoticedExactly(info: Info, h: Hashtable.Hash, maxItems: nat, p: Plain, clusters: seq<nat>,
                                  count: nat)
    requires Sound(info) && ClusterBytes(info) > 0 && maxItems > 0 && |p.fat| == EntryCount(info)
    requires forall c :: c in clusters ==> c < |p.fat|
    requires Hashtable.OnePerHome(h, 2 * maxItems, Sectors(info, clusters))
    ensures (forall operations :: |RunTrace(info, p, operations)| <= count ==>
              CachedRun(info, h, maxItems, p, [], operations) == PlainRun(info, p, operations)) <==>
            count <= 2 * maxItems
    ensures (forall cs: seq<nat> :: |cs| <= count && (forall c :: c in cs ==> c < |p.fat|) ==>
              CachedRun(info, h, maxItems, p, [], ReadAll(cs)) == PlainRun(info, p, ReadAll(cs))) <==>
            count <= 2 * maxItems
  {
    hide CachedRun;
    hide PlainRun;
    hide RunTrace;
    hide ClusterBytes;
    hide EntryCount;
    hide SectorOf;
    hide Hashtable.OnePerHome;
    hide L.Misses;
    if count <= 2 * maxItems {
      forall operations | |RunTrace(info, p, operations)| <= count
        ensures CachedRun(info, h, maxItems, p, [], operations) == PlainRun(info, p, operations)
      {
        UnnoticedIf(info, h, maxItems, p, operations);
      }
      forall cs: seq<nat> | |cs| <= count && forall c :: c in cs ==> c < |p.fat|
        ensures CachedRun(info, h, maxItems, p, [], ReadAll(cs)) == PlainRun(info, p, ReadAll(cs))
      {
        ReadsTrace(info, p, cs);
      }
    } else {
      FirstNotKept(info, h, maxItems, clusters);
      var cs := clusters + [clusters[0]];
      assert forall c :: c in cs ==> c in clusters;
      ReadsPanic(info, h, maxItems, p, clusters, clusters[0]);
      ReadsTrace(info, p, cs);
      var outputs := CachedRun(info, h, maxItems, p, [], ReadAll(cs));
      assert outputs[|outputs| - 1] == Panicked;
    }
  }

  lemma FirstNotKept(info: Info, h: Hashtable.Hash, maxItems: nat, clusters: seq<nat>)
    requires info.sectorSize > 0 && maxItems > 0
    requires Hashtable.OnePerHome(h, 2 * maxItems, Sectors(info, clusters))
    ensures |clusters| == 2 * maxItems && SectorOf(info, clusters[0]) !in Sectors(info, clusters)[maxItems..]
  {
    var sectors := Sectors(info, clusters);
    assert forall i :: maxItems <= i < |sectors| ==> sectors[i] != sectors[0];
  }

  lemma ReadsUnnoticedExactly(info: Info, h: Hashtable.Hash, maxItems: nat, p: Plain, clusters: seq<nat>)
    requires info.sectorSize > 0 && ClusterBytes(info) > 0 && maxItems > 0
    requires forall c :: c in clusters ==> c < |p.fat|
    ensures var outputs, plain := CachedRun(info, h, maxItems, p, [], ReadAll(clusters)),
                                  PlainRun(info, p, ReadAll(clusters));
      && (outputs == plain <==> L.After(h, maxItems, L.Reads(Sectors(info, clusters))).Running?)
      && (outputs != plain ==> 0 < |outputs| <= |plain| && outputs == plain[..|outputs| - 1] + [Panicked])
  {
    hide L.After;
    hide CachedRun;
    hide PlainRun;
    hide RunTrace;
    L.StartsRunning(h, maxItems);
    ReadsTrace(info, p, clusters);
    UnnoticedExactly(info, h, maxItems, p, [], ReadAll(clusters));
    assert [] + RunTrace(info, p, ReadAll(clusters)) == RunTrace(info, p, ReadAll(clusters));
  }

  /** More operations do not change the outputs of the first ones. */
  lemma {:induction false} CachedPrefix(info: Info, h: Hashtable.Hash, maxItems: nat, p: Plain, trace: Trace,
                                        operations: seq<Operation>, more: seq<Operation>)
    requires info.sectorSize > 0 && ClusterBytes(info) > 0 && maxItems > 0
    ensures CachedRun(info, h, maxItems, p, trace, operations) <=
            CachedRun(info, h, maxItems, p, trace, operations + more)
    decreases |operations|
  {
    hide PlainStep;
    hide OperationTrace;
    hide ClusterBytes;
    hide L.After;
    if operations != [] {
      var all := operations + more;
      assert all[0] == operations[0] && all[1..] == operations[1..] + more;
      CachedPrefix(info, h, maxItems, PlainStep(info, p, operations[0]).0,
                   trace + OperationTrace(info, p, operations[0]), operations[1..], more);
    }
  }

  /** A small FAT32 volume: 62 sectors of 512 bytes hold its table. */
  const SMALL := Info(false, 512, 1, 62)

  /** Its clusters, one for each slot of the table of a cache of ten sectors. */
  function SpreadClusters(): (r: seq<nat>)
    ensures |r| == 20 && forall i :: 0 <= i < 20 ==> r[i] == 128 * SectorHashes.SPREAD[i]
  {
    seq(20, i requires 0 <= i < 20 => 128 * SectorHashes.SPREAD[i])
  }

  /** With the hash and the cache size of the code, reading these twenty clusters and then cluster 640 panics. */
  lemma SmallVolumePanics(p: Plain)
    requires |p.fat| == EntryCount(SMALL)
    ensures var clusters := SpreadClusters();
      && Panicked !in PlainRun(SMALL, p, ReadAll(clusters + [640]))
      && CachedRun(SMALL, SectorHashes.SectorHash, SectorHashes.SECTORS_MAX, p, [], ReadAll(clusters + [640])) ==
         PlainRun(SMALL, p, ReadAll(clusters)) + [Panicked]
  {
    hide SectorHashes.SectorHash;
    hide CachedRun;
    hide PlainRun;
    hide ReadAll;
    hide SpreadClusters;
    hide Hashtable.OnePerHome;
    SectorHashes.SpreadHomes();
    SmallGeometry();
    ReadsPanic(SMALL, SectorHashes.SectorHash, SectorHashes.SECTORS_MAX, p, SpreadClusters(), 640);
  }

  lemma SmallGeometry()
    ensures Sectors(SMALL, SpreadClusters()) == SectorHashes.SPREAD && SectorOf(SMALL, 640) == 5
    ensures SectorOf(SMALL, 640) !in SectorHashes.SPREAD[SectorHashes.SECTORS_MAX..]
    ensures forall c :: c in SpreadClusters() + [640] ==> c < EntryCount(SMALL)
    ensures ClusterBytes(SMALL) > 0
  {
    var clusters := SpreadClusters();
    forall i | 0 <= i < 20 ensures SectorOf(SMALL, clusters[i]) == SectorHashes.SPREAD[i] && clusters[i] <= 128 * 61 {}
    assert EntryCount(SMALL) == 62 * 128;
  }
}
