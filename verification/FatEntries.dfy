/** Entries of a File Allocation Table: their classification, their place in the sectors of the table, and
    their encoding in two bytes (FAT16) or the low 28 bits of four (every other kind). */
module FatEntries {
  import opened Modular
  import opened Words

  type Sector = seq<byte>

  /** The geometry of a volume's table. */
  datatype Info = Info(fat16: bool, sectorSize: nat, sectorsPerCluster: nat, fatSectors: nat)

  datatype ClusterType = NextPointer | Free | EndOfChain | Corrupt | Reserved

  const END_OF_CHAIN := 0x0FFF_FFFF

  function TypeOf(value: nat): ClusterType {
    var n := value % 0x1000_0000;
    if 1 < n <= 0x0FFF_FFEF then NextPointer
    else if n == 0 then Free
    else if n >= 0x0FFF_FFF8 then EndOfChain
    else if n == 0x0FFF_FFF7 then Corrupt
    else Reserved
  }

  /** The kinds of entries by the low 28 bits of their values. */
  lemma KindExactly(value: nat)
    ensures TypeOf(value).Free? <==> value % 0x1000_0000 == 0
    ensures TypeOf(value).NextPointer? <==> 2 <= value % 0x1000_0000 <= 0x0FFF_FFEF
    ensures TypeOf(value).Corrupt? <==> value % 0x1000_0000 == 0x0FFF_FFF7
    ensures TypeOf(value).EndOfChain? <==> value % 0x1000_0000 >= 0x0FFF_FFF8
    ensures TypeOf(value).Reserved? <==>
            value % 0x1000_0000 == 1 || 0x0FFF_FFF0 <= value % 0x1000_0000 <= 0x0FFF_FFF6
  {
  }

  function Width(info: Info): nat { if info.fat16 then 2 else 4 }

  /** A table of whole sectors, each of whole entries. */
  predicate Sound(info: Info) {
    info.sectorSize > 0 && info.sectorSize % 4 == 0 && info.sectorsPerCluster > 0
  }

  function EntryCount(info: Info): nat { info.fatSectors * info.sectorSize / Width(info) }

  function SectorOf(info: Info, cluster: nat): nat
    requires info.sectorSize > 0
  {
    cluster * Width(info) / info.sectorSize
  }

  function OffsetOf(info: Info, cluster: nat): nat
    requires info.sectorSize > 0
  {
    cluster * Width(info) % info.sectorSize
  }

  lemma DivideBelow(a: nat, n: nat, m: nat)
    requires n > 0
    ensures a < m * n <==> a / n < m
  {
    var q, r := a / n, a % n;
    assert a == q * n + r;
    if q < m {
      assert (q + 1) * n <= m * n;
    } else {
      assert q * n >= m * n;
    }
  }

  lemma QuarterAndHalf(m: nat)
    ensures (4 * m) / 2 == 2 * m && (4 * m) / 4 == m
  {
    QuotientIs(4 * m, 2, 2 * m, 0);
    QuotientIs(4 * m, 4, m, 0);
  }

  lemma EntriesFillSectors(info: Info)
    requires Sound(info)
    ensures EntryCount(info) * Width(info) == info.fatSectors * info.sectorSize
  {
    var k := info.sectorSize / 4;
    var m := info.fatSectors * k;
    assert info.fatSectors * info.sectorSize == 4 * m by {
      assert info.sectorSize == 4 * k;
    }
    QuarterAndHalf(m);
  }

  /** The remainder of a multiple of w by a multiple of w leaves room for another w. */
  lemma WidthFits(w: nat, k: nat, c: nat)
    requires (w == 2 || w == 4) && k > 0
    ensures (c * w) % (w * k) + w <= w * k && ((c * w) % (w * k)) % w == 0
  {
    var q, r := (c * w) / (w * k), (c * w) % (w * k);
    assert c * w == q * (w * k) + r;
    assert r == w * (c - q * k);
  }

  /** An entry lies in the table exactly when its number is below the entry count, never straddles a sector
      boundary, and entries follow each other through the table without a gap. */
  lemma Located(info: Info, cluster: nat)
    requires Sound(info)
    ensures cluster < EntryCount(info) <==> SectorOf(info, cluster) < info.fatSectors
    ensures OffsetOf(info, cluster) + Width(info) <= info.sectorSize
    ensures OffsetOf(info, cluster) % Width(info) == 0
    ensures SectorOf(info, cluster) * info.sectorSize + OffsetOf(info, cluster) == cluster * if info.fat16 then 2 else 4
  {
    EntriesFillSectors(info);
    DivideBelow(cluster * Width(info), info.sectorSize, info.fatSectors);
    var k := info.sectorSize / Width(info);
    assert info.sectorSize == Width(info) * k;
    WidthFits(Width(info), k, cluster);
  }

  /** Entries in the same sector lie at least a width apart. */
  lemma EntriesApart(info: Info, c: nat, d: nat)
    requires Sound(info) && c != d && SectorOf(info, c) == SectorOf(info, d)
    ensures OffsetOf(info, c) + Width(info) <= OffsetOf(info, d) || OffsetOf(info, d) + Width(info) <= OffsetOf(info, c)
  {
    var w, s := Width(info), SectorOf(info, c);
    assert c * w == s * info.sectorSize + OffsetOf(info, c);
    assert d * w == s * info.sectorSize + OffsetOf(info, d);
    assert c * w - d * w == w * (c - d);
  }

  // ----- encoding -----

  function Word16(s: Sector, at: nat): nat
    requires at + 2 <= |s|
  {
    (s[at] as int) + 0x100 * (s[at + 1] as int)
  }

  function Word32(s: Sector, at: nat): nat
    requires at + 4 <= |s|
  {
    (s[at] as int) + 0x100 * (s[at + 1] as int) + 0x1_0000 * (s[at + 2] as int) + 0x100_0000 * (s[at + 3] as int)
  }

  function Digit(v: nat, weight: nat): byte
    requires weight > 0
  {
    (v / weight % 0x100) as byte
  }

  function PutWord16(s: Sector, at: nat, v: nat): (r: Sector)
    requires at + 2 <= |s|
    ensures |r| == |s|
  {
    s[at := Digit(v, 1)][at + 1 := Digit(v, 0x100)]
  }

  function PutWord32(s: Sector, at: nat, v: nat): (r: Sector)
    requires at + 4 <= |s|
    ensures |r| == |s|
  {
    s[at := Digit(v, 1)][at + 1 := Digit(v, 0x100)][at + 2 := Digit(v, 0x1_0000)][at + 3 := Digit(v, 0x100_0000)]
  }

  /** FAT16 values from 0xFFF7 up are lifted to their FAT32 equivalents. */
  function Extract(info: Info, at: nat, s: Sector): nat
    requires at + Width(info) <= |s|
  {
    if info.fat16 then
      var x := Word16(s, at);
      if x < 0xFFF7 then x else x + 0x0FFF_0000
    else
      Word32(s, at) % 0x1000_0000
  }

  /** Entries are stored least significant byte first. */
  lemma ExtractExactly(info: Info, at: nat, s: Sector)
    requires at + (if info.fat16 then 2 else 4) <= |s|
    ensures Extract(info, at, s) ==
            if info.fat16 then
              var x := FromBytes(s[at..at + 2]); if x < 0xFFF7 then x else 0x0FFF_0000 + x
            else FromBytes(s[at..at + 4]) % 0x1000_0000
  {
    hide FromBytes;
    FromTwo(s[at..at + 2]);
    if !info.fat16 {
      var four := s[at..at + 4];
      FromNext(four);
      FromNext(four[1..]);
      FromTwo(four[2..]);
      assert four[1..][1..] == four[2..];
    }
  }

  lemma FromNext(s: seq<byte>)
    requires s != []
    ensures FromBytes(s) == s[0] as nat + 256 * FromBytes(s[1..])
  {
  }

  lemma FromTwo(s: seq<byte>)
    requires |s| == 2
    ensures FromBytes(s) == s[0] as nat + 256 * s[1] as nat
  {
    assert FromBytes(s[1..][1..]) == 0;
  }

  /** Stores a value, truncated to 16 bits on FAT16 and keeping the top 4 bits of the entry otherwise. */
  function Put(info: Info, at: nat, s: Sector, value: nat): (r: Sector)
    requires at + Width(info) <= |s|
    ensures |r| == |s|
  {
    if info.fat16 then PutWord16(s, at, value % 0x1_0000)
    else PutWord32(s, at, Word32(s, at) / 0x1000_0000 * 0x1000_0000 + value % 0x1000_0000)
  }

  /** What reads back after a value has been stored. */
  function Stored(info: Info, value: nat): nat {
    if info.fat16 then
      var x := value % 0x1_0000;
      if x < 0xFFF7 then x else x + 0x0FFF_0000
    else value % 0x1000_0000
  }

  lemma Digits(v: nat)
    requires v < 0x1_0000_0000
    ensures v == v % 0x100 + 0x100 * (v / 0x100 % 0x100) + 0x1_0000 * (v / 0x1_0000 % 0x100)
                 + 0x100_0000 * (v / 0x100_0000 % 0x100)
  {
    var a := v / 0x100;
    var b := a / 0x100;
    assert v / 0x1_0000 == b && v / 0x100_0000 == b / 0x100;
    assert v == v % 0x100 + 0x100 * a;
    assert a == a % 0x100 + 0x100 * b;
  }

  lemma WordsBack(s: Sector, at: nat, v: nat)
    ensures at + 2 <= |s| && v < 0x1_0000 ==> Word16(PutWord16(s, at, v), at) == v
    ensures at + 4 <= |s| && v < 0x1_0000_0000 ==> Word32(PutWord32(s, at, v), at) == v
  {
    if v < 0x1_0000_0000 {
      Digits(v);
    }
  }

  lemma ExtractPut(info: Info, at: nat, s: Sector, value: nat)
    requires at + Width(info) <= |s|
    ensures Extract(info, at, Put(info, at, s, value)) == Stored(info, value)
    ensures !info.fat16 ==> Word32(Put(info, at, s, value), at) / 0x1000_0000 == Word32(s, at) / 0x1000_0000
  {
    hide PutWord16;
    hide PutWord32;
    hide Word16;
    if info.fat16 {
      WordsBack(s, at, value % 0x1_0000);
    } else {
      WordsBack(s, at, Word32(s, at) / 0x1000_0000 * 0x1000_0000 + value % 0x1000_0000);
    }
  }

  lemma ExtractElsewhere(info: Info, at: nat, s: Sector, value: nat, other: nat)
    requires at + Width(info) <= |s| && other + Width(info) <= |s|
    requires at + Width(info) <= other || other + Width(info) <= at
    ensures Extract(info, other, Put(info, at, s, value)) == Extract(info, other, s)
  {
  }

  /** A value survives being stored exactly when it fits the entry: on FAT16 below 0xFFF7 or one of the lifted
      values from 0x0FFFFFF7 to 0x0FFFFFFF, otherwise below 2^28. */
  lemma RoundTripExactly(info: Info, value: nat)
    ensures Stored(info, value) == value <==>
            if info.fat16 then value < 0xFFF7 || 0x0FFF_FFF7 <= value <= 0x0FFF_FFFF else value < 0x1000_0000
  {
  }
}
