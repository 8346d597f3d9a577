/** The hash of the sector cache, on the 64-bit words the code computes with, and what it makes of a cache of
    ten sectors. */
module SectorHashes {
  import opened Hashtable
  import opened LruCaches
  import opened Wrappers

  const SECTORS_MAX := 10

  function Mix(x: bv64): bv64 {
    var y := (x ^ (x >> 30)) * 0xbf58_476d_1ce4_e5b9;
    var z := (y ^ (y >> 27)) * 0x94d0_49bb_1331_11eb;
    z ^ (z >> 31)
  }

  /** Sector numbers have 32 bits. */
  function SectorHash(key: Key): nat {
    if 0 <= key < 0x1_0000_0000 then Mix(key as bv64) as nat else 0
  }

  /** Twenty sector numbers, one for each slot of the table as its home. */
  const SPREAD: seq<Key> := [0, 13, 17, 9, 7, 16, 30, 22, 48, 1, 2, 19, 4, 15, 20, 39, 3, 10, 35, 61]

  /** Their hashes. */
  const HASHES: seq<nat> := [
    0x0, 0xdcfa9555b5f881d1, 0x302b8631721c51be, 0x826c6abf7fdd5ad7, 0x12ae30237b17df14,
    0xd9844bcecca4a8bd, 0x724ea9269d42a72, 0xfd95fa4db404dd7b, 0xa630657cb8c7f164, 0x5692161d100b05e5,
    0xdbd238973a2b148a, 0xe34a1ed09841f857, 0xb7a4712c74562914, 0x392754934ea1539, 0xeb90a3352640af2,
    0x271c93c147c4cd83, 0x1e535eede31428f0, 0x75c8519a9320579, 0x43e7cefc06c022be, 0x926465ef67d04f3f
  ]

  lemma SpreadMixed()
    ensures Mix(0) == 0x0 && Mix(13) == 0xdcfa9555b5f881d1
    ensures Mix(17) == 0x302b8631721c51be && Mix(9) == 0x826c6abf7fdd5ad7
    ensures Mix(7) == 0x12ae30237b17df14 && Mix(16) == 0xd9844bcecca4a8bd
    ensures Mix(30) == 0x724ea9269d42a72 && Mix(22) == 0xfd95fa4db404dd7b
    ensures Mix(48) == 0xa630657cb8c7f164 && Mix(1) == 0x5692161d100b05e5
    ensures Mix(2) == 0xdbd238973a2b148a && Mix(19) == 0xe34a1ed09841f857
    ensures Mix(4) == 0xb7a4712c74562914 && Mix(15) == 0x392754934ea1539
    ensures Mix(20) == 0xeb90a3352640af2 && Mix(39) == 0x271c93c147c4cd83
    ensures Mix(3) == 0x1e535eede31428f0 && Mix(10) == 0x75c8519a9320579
    ensures Mix(35) == 0x43e7cefc06c022be && Mix(61) == 0x926465ef67d04f3f
  {
  }

  lemma Hashed(key: Key, word: bv64)
    requires 0 <= key < 0x1_0000_0000 && key as bv64 == word
    ensures SectorHash(key) == Mix(word) as nat
  {
  }

  lemma SpreadHash(i: nat)
    requires i < |SPREAD|
    ensures SectorHash(SPREAD[i]) == HASHES[i]
  {
    hide SectorHash;
    hide Mix;
    SpreadMixed();
    Hashed(0, 0); Hashed(13, 13); Hashed(17, 17); Hashed(9, 9); Hashed(7, 7);
    Hashed(16, 16); Hashed(30, 30); Hashed(22, 22); Hashed(48, 48); Hashed(1, 1);
    Hashed(2, 2); Hashed(19, 19); Hashed(4, 4); Hashed(15, 15); Hashed(20, 20);
    Hashed(39, 39); Hashed(3, 3); Hashed(10, 10); Hashed(35, 35); Hashed(61, 61);
  }

  lemma SpreadHomes()
    ensures OnePerHome(SectorHash, 2 * SECTORS_MAX, SPREAD)
  {
    hide SectorHash;
    forall i | 0 <= i < |SPREAD| ensures Home(SectorHash, SPREAD[i], 2 * SECTORS_MAX) == i {
      SpreadHash(i);
    }
  }

  /** Twenty reads, each of another sector, after which a read of any sector not among the last ten fails. */
  lemma SpreadStops(key: Key)
    requires key !in SPREAD[SECTORS_MAX..]
    ensures After(SectorHash, SECTORS_MAX, Reads(SPREAD)).Running?
    ensures After(SectorHash, SECTORS_MAX, Reads(SPREAD + [key])).Stopped?
  {
    hide SectorHash;
    hide After;
    SpreadHomes();
    ReadsStop(SectorHash, SECTORS_MAX, SPREAD, key);
  }

  /** Eleven reads, the last of which evicts sector 0, the sector used most recently of the ten not held. */
  lemma SpreadEvictsNewest()
    ensures var sectors := [1, 48, 22, 30, 16, 7, 9, 17, 13, 0, 2];
      var o := After(SectorHash, SECTORS_MAX, Reads(sectors));
      o.Running? && o.evicted == Some(0) &&
      forall i :: 0 <= i < 10 ==> LastUse(Reads(sectors[..10]), sectors[i]) == i + 1
  {
    hide SectorHash;
    hide After;
    hide LastUse;
    SpreadHomes();
    var sectors: seq<Key> := [1, 48, 22, 30, 16, 7, 9, 17, 13, 0, 2];
    forall i | 0 <= i < 10 ensures Home(SectorHash, sectors[i], 20) == 9 - i {
      assert sectors[i] == SPREAD[9 - i];
    }
    assert Home(SectorHash, SPREAD[10], 20) == 10;
    NewestEvicted(SectorHash, SECTORS_MAX, sectors);
  }
}
