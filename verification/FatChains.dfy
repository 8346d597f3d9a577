/** Cluster allocation on a plain File Allocation Table: a sequence of decoded entries and the hint below
    which no free entry is left.  Files are chains through the table. */
module FatChains {
  import opened Counting
  import opened FatEntries

  datatype Plain = Plain(fat: seq<nat>, hint: nat)

  datatype AllocateResult = Allocated(cluster: nat) | Exhausted | Panic

  datatype ExtendResult = Extended | NoSpace | Failed

  /** The first free entry from `from` on, or the end of the table. */
  function FirstFree(fat: seq<nat>, from: nat): (r: nat)
    requires from <= |fat|
    ensures from <= r <= |fat|
    ensures forall i :: from <= i < r ==> !TypeOf(fat[i]).Free?
    ensures r < |fat| ==> TypeOf(fat[r]).Free?
    decreases |fat| - from
  {
    if from == |fat| || TypeOf(fat[from]).Free? then from else FirstFree(fat, from + 1)
  }

  function FirstChecked(p: Plain): nat { if p.hint < 2 then 2 else p.hint }

  function NextHint(p: Plain, cluster: nat): nat { if cluster + 1 >= |p.fat| then 2 else cluster + 1 }

  /** Takes a free cluster, marks it as an end of chain and makes `current` point to it.  Reaching outside
      the table is a panic. */
  function Allocate(info: Info, p: Plain, current: nat): (Plain, AllocateResult) {
    var first := FirstChecked(p);
    if first >= |p.fat| then (p, Panic)
    else
      var c := FirstFree(p.fat, first);
      if c == |p.fat| then (p, Exhausted)
      else if current >= |p.fat| then (p, Panic)
      else
        (Plain(p.fat[c := Stored(info, END_OF_CHAIN)][current := Stored(info, c)], NextHint(p, c)), Allocated(c))
  }

  /** What an allocation takes, by the values of the entries: the first from the hint on that is 0 in its low 28
      bits.  It becomes an end of chain, and the hint goes behind it or back to the start. */
  lemma AllocateExactly(info: Info, p: Plain, current: nat)
    ensures var first, (p', r) := if p.hint < 2 then 2 else p.hint, Allocate(info, p, current);
      && (r.Exhausted? <==> first < |p.fat| && forall i :: first <= i < |p.fat| ==> p.fat[i] % 0x1000_0000 != 0)
      && (r.Panic? <==> first >= |p.fat| || (current >= |p.fat| && !r.Exhausted?))
      && (r.Allocated? ==>
            && first <= r.cluster < |p.fat| && current < |p.fat| && p.fat[r.cluster] % 0x1000_0000 == 0
            && (forall i :: first <= i < r.cluster ==> p.fat[i] % 0x1000_0000 != 0)
            && (r.cluster != current ==> p'.fat[r.cluster] == 0x0FFF_FFFF) && p'.fat[current] == Stored(info, r.cluster)
            && (forall i :: 0 <= i < |p.fat| && i != r.cluster && i != current ==> p'.fat[i] == p.fat[i])
            && p'.hint == if r.cluster + 1 == |p.fat| then 2 else r.cluster + 1)
      && (!r.Allocated? ==> p' == p) && |p'.fat| == |p.fat|
  {
    hide TypeOf;
    hide Stored;
    StoredEnd(info);
    forall i | 0 <= i < |p.fat| ensures TypeOf(p.fat[i]).Free? <==> p.fat[i] % 0x1000_0000 == 0 {
      KindExactly(p.fat[i]);
    }
  }

  /** The first entry from `first` on that is 0 in its low 28 bits, or the end of the table if there is none. */
  ghost predicate FirstZero(fat: seq<nat>, first: nat, c: nat) {
    && first <= c <= |fat| && (forall i :: first <= i < c ==> fat[i] % 0x1000_0000 != 0)
    && (c < |fat| ==> fat[c] % 0x1000_0000 == 0)
  }

  /** Unless it panics, an allocation takes that entry, or finds that there is none. */
  ghost predicate TakesFirstZero(p: Plain, r: AllocateResult) {
    var first := if p.hint < 2 then 2 else p.hint;
    && (r.Allocated? ==> r.cluster < |p.fat| && FirstZero(p.fat, first, r.cluster))
    && (r.Exhausted? ==> FirstZero(p.fat, first, |p.fat|))
  }

  lemma FirstFreeExactly(fat: seq<nat>, first: nat)
    requires first <= |fat|
    ensures FirstZero(fat, first, FirstFree(fat, first))
  {
    hide TypeOf;
    forall i | 0 <= i < |fat| ensures TypeOf(fat[i]).Free? <==> fat[i] % 0x1000_0000 == 0 {
      KindExactly(fat[i]);
    }
  }

  lemma AllocateTakes(info: Info, p: Plain, current: nat)
    ensures TakesFirstZero(p, Allocate(info, p, current).1) && TakesFirstZero(p, Panic)
  {
    hide FirstZero;
    if FirstChecked(p) < |p.fat| {
      FirstFreeExactly(p.fat, FirstChecked(p));
    }
  }

  function ClusterBytes(info: Info): nat { info.sectorSize * info.sectorsPerCluster }

  /** Walks from `current`, which covers the first `covered` bytes, allocating where the chain ends. */
  function Extend(info: Info, p: Plain, current: nat, covered: nat, size: nat): (Plain, ExtendResult)
    requires ClusterBytes(info) > 0
    decreases size - covered
  {
    var step := ClusterBytes(info);
    if covered >= size then (p, Extended)
    else if current >= |p.fat| then (p, Failed)
    else if TypeOf(p.fat[current]).NextPointer? then Extend(info, p, p.fat[current], covered + step, size)
    else
      match Allocate(info, p, current)
      case (p', Allocated(c)) => Extend(info, p', c, covered + step, size)
      case (p', Exhausted) => (p', NoSpace)
      case (p', Panic) => (p', Failed)
  }

  // ----- chains -----

  /** A simple path through the table that ends in an end-of-chain entry. */
  ghost predicate IsChain(fat: seq<nat>, chain: seq<nat>) {
    && chain != [] && Distinct(chain)
    && (forall i :: 0 <= i < |chain| ==> 2 <= chain[i] < |fat|)
    && (forall i, j :: 0 <= i < j < |chain| && j == i + 1 ==>
          fat[chain[i]] == chain[j] && TypeOf(chain[j]).NextPointer?)
    && TypeOf(fat[chain[|chain| - 1]]).EndOfChain?
  }

  ghost predicate Separate(s: seq<nat>, t: seq<nat>) {
    forall c :: c in s ==> c !in t
  }

  /** Every file is a chain and no two share a cluster. */
  ghost predicate Files(fat: seq<nat>, files: seq<seq<nat>>) {
    && (forall f :: 0 <= f < |files| ==> IsChain(fat, files[f]))
    && (forall f, g :: 0 <= f < |files| && 0 <= g < |files| && f != g ==> Separate(files[f], files[g]))
  }

  /** No free entry lies below the hint, and the hint lies in the table. */
  ghost predicate HintInv(p: Plain) {
    && (p.hint <= 2 || p.hint < |p.fat|)
    && forall i :: 2 <= i < p.hint && i < |p.fat| ==> !TypeOf(p.fat[i]).Free?
  }

  ghost predicate FullTable(fat: seq<nat>) {
    forall i :: 2 <= i < |fat| ==> !TypeOf(fat[i]).Free?
  }

  /** Table sizes whose entry numbers are all stored faithfully as pointers. */
  predicate Addressable(info: Info, count: nat) { count <= if info.fat16 then 0xFFF7 else 0x0FFF_FFF0 }

  /** A stored entry number reads back as a pointer to that entry exactly when it is below the limit of the
      entry format: on a table with more entries, allocation can cut the chain it meant to extend. */
  lemma PointerExactly(info: Info, c: nat)
    requires c >= 2
    ensures Stored(info, c) == c && TypeOf(c).NextPointer? <==> Addressable(info, c + 1)
  {
  }

  lemma StoredEnd(info: Info)
    ensures Stored(info, END_OF_CHAIN) == END_OF_CHAIN && TypeOf(END_OF_CHAIN).EndOfChain?
  {
  }

  lemma ChainMembersTaken(fat: seq<nat>, chain: seq<nat>, c: nat)
    requires IsChain(fat, chain) && c in chain
    ensures c < |fat| && !TypeOf(fat[c]).Free?
  {
    var i :| 0 <= i < |chain| && chain[i] == c;
    if i < |chain| - 1 {
      assert fat[chain[i]] == chain[i + 1];
    }
  }

  /** A chain none of whose clusters is written stays the same chain. */
  lemma ChainUntouched(fat: seq<nat>, fat': seq<nat>, chain: seq<nat>)
    requires IsChain(fat, chain) && |fat'| == |fat|
    requires forall c :: c in chain && c < |fat| ==> fat'[c] == fat[c]
    ensures IsChain(fat', chain)
  {
    assert forall i :: 0 <= i < |chain| ==> chain[i] in chain;
    forall i, j | 0 <= i < j < |chain| && j == i + 1
      ensures fat'[chain[i]] == chain[j] && TypeOf(chain[j]).NextPointer?
    {
      assert fat[chain[i]] == chain[j];
    }
  }

  lemma ChainExtended(fat: seq<nat>, chain: seq<nat>, c: nat)
    requires IsChain(fat, chain) && 2 <= c < |fat| && c !in chain && TypeOf(c).NextPointer?
    ensures IsChain(fat[c := END_OF_CHAIN][chain[|chain| - 1] := c], chain + [c])
  {
    var last := chain[|chain| - 1];
    var fat', chain' := fat[c := END_OF_CHAIN][last := c], chain + [c];
    assert last in chain;
    forall i | 0 <= i < |chain| ensures chain'[i] == chain[i] && chain[i] in chain && 2 <= chain[i] < |fat| {}
    forall i | 0 <= i < |chain| - 1 ensures chain[i] != last && fat'[chain[i]] == fat[chain[i]] {}
    assert c != last && chain'[|chain|] == c && fat'[c] == END_OF_CHAIN && TypeOf(END_OF_CHAIN).EndOfChain?;
    forall i, j | 0 <= i < j < |chain'| && j == i + 1
      ensures fat'[chain'[i]] == chain'[j] && TypeOf(chain'[j]).NextPointer?
    {
      if j < |chain| {
        assert fat[chain[i]] == chain[j];
      }
    }
    assert IsChain(fat', chain');
  }

  /** Allocation lengthens the one chain it was asked to and leaves every other alone, exactly when the number of
      the cluster it takes can be stored as a pointer.  It takes the first entry from the hint on whose value is 0 in
      its low 28 bits, and finds none exactly when there is none from entry 2 on. */
  lemma AllocateKeepsFiles(info: Info, p: Plain, files: seq<seq<nat>>, f: nat)
    requires HintInv(p) && Files(p.fat, files) && f < |files|
    ensures var (p', r) := Allocate(info, p, files[f][|files[f]| - 1]);
      && |p'.fat| == |p.fat| && ((r.Allocated? ==> Addressable(info, r.cluster + 1)) ==> HintInv(p'))
      && (r.Panic? <==> |p.fat| <= 2)
      && (r.Exhausted? ==> p' == p && FullTable(p.fat))
      && (r.Exhausted? <==> |p.fat| > 2 && forall i :: 2 <= i < |p.fat| ==> p.fat[i] % 0x1000_0000 != 0)
      && (r.Allocated? ==>
            && 2 <= r.cluster < |p.fat| && p.hint <= r.cluster && p.fat[r.cluster] % 0x1000_0000 == 0
            && (forall i :: 2 <= i < r.cluster ==> p.fat[i] % 0x1000_0000 != 0)
            && (Files(p'.fat, files[f := files[f] + [r.cluster]]) <==> Addressable(info, r.cluster + 1)))
  {
    hide IsChain;
    hide Stored;
    ChainLast(p.fat, files[f]);
    var last := files[f][|files[f]| - 1];
    ChainMembersTaken(p.fat, files[f], last);
    AllocateExactly(info, p, last);
    HintExactly(p);
    var (p', r) := Allocate(info, p, last);
    if r.Allocated? {
      if Addressable(info, r.cluster + 1) {
        AllocatedHint(info, p, r.cluster, last);
        AllocatedFiles(info, p, files, f, r.cluster);
      } else {
        LinkLost(info, p'.fat, files[f], r.cluster);
        assert files[f := files[f] + [r.cluster]][f] == files[f] + [r.cluster];
      }
    }
  }

  /** The hint invariant by values. */
  lemma HintExactly(p: Plain)
    ensures HintInv(p) <==>
      && (p.hint <= 2 || p.hint < |p.fat|)
      && forall i :: 2 <= i < p.hint && i < |p.fat| ==> p.fat[i] % 0x1000_0000 != 0
    ensures FullTable(p.fat) <==> forall i :: 2 <= i < |p.fat| ==> p.fat[i] % 0x1000_0000 != 0
  {
    hide TypeOf;
    forall i | 0 <= i < |p.fat| ensures TypeOf(p.fat[i]).Free? <==> p.fat[i] % 0x1000_0000 == 0 {
      KindExactly(p.fat[i]);
    }
  }

  /** Nothing below the next hint is free. */
  lemma AllocatedHint(info: Info, p: Plain, c: nat, last: nat)
    requires HintInv(p) && FirstChecked(p) < |p.fat| && c == FirstFree(p.fat, FirstChecked(p)) < |p.fat|
    requires last < |p.fat| && !TypeOf(p.fat[last]).Free? && Addressable(info, c + 1)
    ensures HintInv(Plain(p.fat[c := Stored(info, END_OF_CHAIN)][last := Stored(info, c)], NextHint(p, c)))
  {
    hide TypeOf;
    hide Stored;
    StoredEnd(info);
    PointerExactly(info, c);
    var fat' := p.fat[c := Stored(info, END_OF_CHAIN)][last := Stored(info, c)];
    forall i | 2 <= i < NextHint(p, c) && i < |p.fat| ensures !TypeOf(fat'[i]).Free? {
      assert i == last ==> fat'[i] == c;
    }
  }

  /** A number that is not addressable does not lead to its cluster. */
  lemma LinkLost(info: Info, fat': seq<nat>, chain: seq<nat>, c: nat)
    requires chain != [] && c >= 2 && !Addressable(info, c + 1)
    requires chain[|chain| - 1] < |fat'| && fat'[chain[|chain| - 1]] == Stored(info, c)
    ensures !IsChain(fat', chain + [c])
  {
    hide TypeOf;
    hide Stored;
    PointerExactly(info, c);
    var i := |chain| - 1;
    assert (chain + [c])[i] == chain[i] && (chain + [c])[i + 1] == c;
  }

  lemma AllocatedFiles(info: Info, p: Plain, files: seq<seq<nat>>, f: nat, c: nat)
    requires Files(p.fat, files) && f < |files|
    requires 2 <= c < |p.fat| && Addressable(info, c + 1) && TypeOf(p.fat[c]).Free?
    ensures var fat' := p.fat[c := Stored(info, END_OF_CHAIN)][files[f][|files[f]| - 1] := Stored(info, c)];
      Files(fat', files[f := files[f] + [c]])
  {
    hide IsChain;
    hide TypeOf;
    hide Stored;
    ChainLast(p.fat, files[f]);
    var last := files[f][|files[f]| - 1];
    var fat' := p.fat[c := Stored(info, END_OF_CHAIN)][last := Stored(info, c)];
    PointerExactly(info, c);
    StoredEnd(info);
    forall g | 0 <= g < |files| ensures c !in files[g] {
      if c in files[g] {
        ChainMembersTaken(p.fat, files[g], c);
      }
    }
    ChainExtended(p.fat, files[f], c);
    forall g | 0 <= g < |files| && g != f ensures IsChain(fat', files[g]) {
      assert Separate(files[f], files[g]);
      ChainUntouched(p.fat, fat', files[g]);
    }
  }

  lemma ChainLast(fat: seq<nat>, chain: seq<nat>)
    requires IsChain(fat, chain)
    ensures chain != [] && 2 <= chain[|chain| - 1] < |fat| && chain[|chain| - 1] in chain
  {
  }

  // ----- extending a file -----

  /** The bytes in `k` clusters. */
  function Bytes(info: Info, k: nat): nat { k * ClusterBytes(info) }

  lemma BytesGrow(info: Info, j: nat, k: nat)
    requires j <= k
    ensures Bytes(info, j) <= Bytes(info, k) && Bytes(info, j + 1) == Bytes(info, j) + ClusterBytes(info)
  {
    var step := ClusterBytes(info);
    assert (k - j) * step >= 0;
    assert (j + 1) * step == j * step + step;
  }

  /** `k` clusters reach `size` bytes. */
  predicate Reaches(info: Info, k: nat, size: nat) { Bytes(info, k) >= size }

  /** The outcome of extending file f: its chain has grown at the end only, every other chain is as it was.
      On success it is long enough, and no longer than it was or than needed; otherwise it is still too
      short and no free entry is left. */
  ghost predicate Outcome(info: Info, p: Plain, files: seq<seq<nat>>, f: nat, size: nat,
                          p': Plain, chain': seq<nat>, r: ExtendResult)
    requires f < |files|
  {
    && HintInv(p') && |p'.fat| == |p.fat|
    && files[f] <= chain' && Files(p'.fat, files[f := chain'])
    && (r.Extended? ==> Reaches(info, |chain'|, size)
                        && (|chain'| > |files[f]| ==> !Reaches(info, |chain'| - 1, size)))
    && (r.NoSpace? ==> !Reaches(info, |chain'|, size) && FullTable(p'.fat))
    && !r.Failed?
  }

  lemma {:induction false} ExtendFrom(info: Info, p: Plain, files: seq<seq<nat>>, f: nat, k: nat, size: nat)
    returns (chain': seq<nat>)
    requires ClusterBytes(info) > 0 && Addressable(info, |p.fat|) && HintInv(p) && Files(p.fat, files)
    requires f < |files| && k < |files[f]| && |p.fat| > 2
    ensures
      var (p', r) := Extend(info, p, files[f][k], Bytes(info, k + 1), size);
      Outcome(info, p, files, f, size, p', chain', r)
    decreases size - Bytes(info, k + 1)
  {
    hide Files;
    hide IsChain;
    hide Bytes;
    hide ClusterBytes;
    hide Allocate;
    hide HintInv;
    hide FullTable;
    hide TypeOf;
    var chain := files[f];
    BytesGrow(info, k + 1, |chain|);
    chain' := chain;
    assert files[f := chain] == files;
    if Bytes(info, k + 1) < size {
      AtPosition(p.fat, files, f, k);
      if k + 1 < |chain| {
        chain' := ExtendFrom(info, p, files, f, k + 1, size);
      } else {
        AllocateKeepsFiles(info, p, files, f);
        var (p1, r) := Allocate(info, p, chain[k]);
        if r.Allocated? {
          var files1 := files[f := chain + [r.cluster]];
          chain' := ExtendFrom(info, p1, files1, f, k + 1, size);
          assert files1[f := chain'] == files[f := chain'];
        }
      }
    }
  }

  /** Extending a file from its first cluster: the whole promise of the operation.  On success the file has the
      larger of its old length and the least number of clusters that hold `size` bytes. */
  lemma ExtendKeepsFiles(info: Info, p: Plain, files: seq<seq<nat>>, f: nat, size: nat)
    returns (chain': seq<nat>)
    requires ClusterBytes(info) > 0 && Addressable(info, |p.fat|) && HintInv(p) && Files(p.fat, files)
    requires f < |files|
    ensures files[f] != []
    ensures
      var (p', r) := Extend(info, p, files[f][0], ClusterBytes(info), size);
      Outcome(info, p, files, f, size, p', chain', r)
    ensures Extend(info, p, files[f][0], ClusterBytes(info), size).1.Extended? ==>
      var bytes := info.sectorSize * info.sectorsPerCluster;
      && |chain'| * bytes >= size && |chain'| >= |files[f]|
      && (|chain'| > |files[f]| ==> (|chain'| - 1) * bytes < size)
  {
    assert IsChain(p.fat, files[f]);
    chain' := ExtendFrom(info, p, files, f, 0, size);
    assert Bytes(info, 1) == ClusterBytes(info);
  }

  /** On success the chain has exactly the larger of its old length and the least number of clusters, of so many
      sectors of so many bytes, that hold `size` bytes. */
  lemma ExtendedLength(info: Info, before: nat, now: nat, size: nat, needed: nat)
    requires 0 < before <= now && Reaches(info, now, size) && (now > before ==> !Reaches(info, now - 1, size))
    requires needed * (info.sectorSize * info.sectorsPerCluster) >= size
    requires needed > 0 ==> (needed - 1) * (info.sectorSize * info.sectorsPerCluster) < size
    ensures now == if before >= needed then before else needed
  {
    if now < needed {
      BytesGrow(info, now, needed - 1);
      assert false;
    }
    if now > before && now > needed {
      BytesGrow(info, needed, now - 1);
      assert false;
    }
  }

  lemma AtPosition(fat: seq<nat>, files: seq<seq<nat>>, f: nat, k: nat)
    requires Files(fat, files) && f < |files| && k < |files[f]|
    ensures files[f][k] < |fat|
    ensures k + 1 < |files[f]| ==> fat[files[f][k]] == files[f][k + 1] && TypeOf(fat[files[f][k]]).NextPointer?
    ensures k + 1 == |files[f]| ==> !TypeOf(fat[files[f][k]]).NextPointer?
  {
    assert IsChain(fat, files[f]);
  }

  // ----- how large a table may be -----

  /** Extending any file of any table of so many entries does what it should. */
  ghost predicate ExtendsWell(info: Info, count: nat)
    requires ClusterBytes(info) > 0
  {
    forall p: Plain, files: seq<seq<nat>>, f: nat, size: nat ::
      |p.fat| == count && HintInv(p) && Files(p.fat, files) && f < |files| && files[f] != [] ==>
        Extends(info, p, files, f, size)
  }

  ghost predicate Extends(info: Info, p: Plain, files: seq<seq<nat>>, f: nat, size: nat)
    requires ClusterBytes(info) > 0 && f < |files| && files[f] != []
  {
    var (p', r) := Extend(info, p, files[f][0], ClusterBytes(info), size);
    exists chain' :: Outcome(info, p, files, f, size, p', chain', r)
  }

  /** A table with one file of one cluster, and one free entry: the last. */
  function AlmostFull(count: nat): Plain
    requires count > 3
  {
    Plain(seq(count, i => if i == 2 then END_OF_CHAIN else if i == count - 1 then 0 else 1), 2)
  }

  lemma AlmostFullFile(count: nat)
    requires count > 3
    ensures HintInv(AlmostFull(count)) && Files(AlmostFull(count).fat, [[2]])
    ensures FirstFree(AlmostFull(count).fat, 2) == count - 1
  {
    var fat := AlmostFull(count).fat;
    assert TypeOf(END_OF_CHAIN).EndOfChain? && TypeOf(0).Free? && TypeOf(1).Reserved?;
    assert IsChain(fat, [2]);
    var r := FirstFree(fat, 2);
    assert TypeOf(fat[count - 1]).Free?;
  }

  /** Extending that file by a cluster takes the last entry and reports success. */
  lemma AlmostFullExtended(info: Info, count: nat)
    requires count > 3 && ClusterBytes(info) > 0
    ensures var (p', r) := Extend(info, AlmostFull(count), 2, ClusterBytes(info), 2 * ClusterBytes(info));
      && r == Extended && |p'.fat| == count && p'.fat[2] == Stored(info, count - 1)
      && forall i :: 3 <= i < count - 1 ==> p'.fat[i] == 1
  {
    hide ClusterBytes;
    hide Stored;
    AlmostFullFile(count);
    var p, step := AlmostFull(count), ClusterBytes(info);
    assert !TypeOf(p.fat[2]).NextPointer?;
    var (p1, a) := Allocate(info, p, 2);
    assert a == Allocated(count - 1);
    assert Extend(info, p1, count - 1, step + step, 2 * step) == (p1, Extended);
  }

  /** With a number too large to be stored, nothing comes after the first cluster. */
  lemma ChainCut(info: Info, count: nat, fat: seq<nat>, chain: seq<nat>)
    requires count > 3 && !Addressable(info, count) && |fat| == count && fat[2] == Stored(info, count - 1)
    requires forall i :: 3 <= i < count - 1 ==> fat[i] == 1
    requires |chain| > 1 && chain[0] == 2
    ensures !IsChain(fat, chain)
  {
    hide Stored;
    PointerExactly(info, count - 1);
    var d, e := chain[1], if |chain| > 2 then chain[2] else 0;
    assert e == 1 ==> !TypeOf(e).NextPointer?;
    assert fat[2] == d && TypeOf(d).NextPointer? ==> d != count - 1;
    assert 3 <= d < count - 1 ==> fat[d] == 1 && TypeOf(fat[d]).Reserved?;
  }

  /** Extending works on all tables of a size exactly when all its entry numbers can be stored as pointers. */
  lemma ExtendsWellExactly(info: Info, count: nat)
    requires ClusterBytes(info) > 0 && count > 3
    ensures ExtendsWell(info, count) <==> Addressable(info, count)
  {
    hide Extend;
    hide ClusterBytes;
    if Addressable(info, count) {
      forall p: Plain, files: seq<seq<nat>>, f: nat, size: nat
        | |p.fat| == count && HintInv(p) && Files(p.fat, files) && f < |files| && files[f] != []
        ensures Extends(info, p, files, f, size)
      {
        var chain' := ExtendKeepsFiles(info, p, files, f, size);
      }
    } else if ExtendsWell(info, count) {
      CutContradicts(info, count);
    }
  }

  lemma CutContradicts(info: Info, count: nat)
    requires ClusterBytes(info) > 0 && count > 3 && !Addressable(info, count)
    ensures !ExtendsWell(info, count)
  {
    hide Extend;
    hide ClusterBytes;
    var p, files, size := AlmostFull(count), [[2]], 2 * ClusterBytes(info);
    AlmostFullFile(count);
    AlmostFullExtended(info, count);
    var (p', r) := Extend(info, p, files[0][0], ClusterBytes(info), size);
    assert Bytes(info, 1) == ClusterBytes(info);
    if ExtendsWell(info, count) {
      assert Extends(info, p, files, 0, size);
      var chain' :| Outcome(info, p, files, 0, size, p', chain', r);
      assert files[0 := chain'][0] == chain' && IsChain(p'.fat, chain');
      if |chain'| > 1 {
        ChainCut(info, count, p'.fat, chain');
        assert false;
      }
    }
  }

  /** On a FAT16 table of 65536 entries the last entry number reads back as an end of chain: the cluster is taken
      and marked, and the file that was to have it ends where it did. */
  lemma LargeFat16Cuts(info: Info)
    requires info.fat16
    ensures var p := AlmostFull(0x1_0000);
      var (p', r) := Allocate(info, p, 2);
      r == Allocated(0xFFFF) && IsChain(p.fat, [2]) && IsChain(p'.fat, [2]) && IsChain(p'.fat, [0xFFFF])
  {
    var p := AlmostFull(0x1_0000);
    AlmostFullFile(0x1_0000);
    StoredEnd(info);
    var (p', r) := Allocate(info, p, 2);
    assert p'.fat[2] == END_OF_CHAIN && p'.fat[0xFFFF] == END_OF_CHAIN;
  }

  // ----- whole runs -----

  datatype Request = Request(start: nat, size: nat)

  function RunExtends(info: Info, p: Plain, requests: seq<Request>): Plain
    requires ClusterBytes(info) > 0
    decreases |requests|
  {
    if requests == [] then p else
      RunExtends(info, Extend(info, p, requests[0].start, ClusterBytes(info), requests[0].size).0, requests[1..])
  }

  /** However files are extended, and whether or not space runs out, every file stays a chain that begins as
      it did, no two share a cluster, and no free entry hides below the hint. */
  lemma {:induction false} EveryRunKeepsFiles(info: Info, p: Plain, files: seq<seq<nat>>, requests: seq<Request>)
    returns (files': seq<seq<nat>>)
    requires ClusterBytes(info) > 0 && Addressable(info, |p.fat|) && HintInv(p) && Files(p.fat, files)
    requires forall r :: r in requests ==> exists f :: 0 <= f < |files| && files[f] != [] && files[f][0] == r.start
    ensures var p' := RunExtends(info, p, requests);
      HintInv(p') && |p'.fat| == |p.fat| && Files(p'.fat, files')
    ensures |files'| == |files| && forall f :: 0 <= f < |files| ==> files[f] <= files'[f]
    decreases |requests|
  {
    hide Files;
    hide HintInv;
    hide Addressable;
    hide ClusterBytes;
    files' := files;
    if requests != [] {
      assert requests[0] in requests;
      var f :| 0 <= f < |files| && files[f] != [] && files[f][0] == requests[0].start;
      var chain' := ExtendKeepsFiles(info, p, files, f, requests[0].size);
      var files1 := files[f := chain'];
      assert forall g :: 0 <= g < |files| && files[g] != [] ==> files1[g] != [] && files1[g][0] == files[g][0];
      forall r | r in requests[1..]
        ensures exists g :: 0 <= g < |files1| && files1[g] != [] && files1[g][0] == r.start
      {
        assert r in requests;
        var g :| 0 <= g < |files| && files[g] != [] && files[g][0] == r.start;
        assert files1[g][0] == r.start;
      }
      files' := EveryRunKeepsFiles(info, Extend(info, p, requests[0].start, ClusterBytes(info), requests[0].size).0,
                                   files1, requests[1..]);
    }
  }
}
