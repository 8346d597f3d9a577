/** Bytes, and numbers stored in them least significant byte first. */
module Words {
  newtype byte = x: int | 0 <= x < 256

  function Pow256(n: nat): (p: nat)
    ensures p >= 1
  {
    if n == 0 then 1 else 256 * Pow256(n - 1)
  }

  function ToBytes(v: nat, n: nat): (s: seq<byte>)
    ensures |s| == n
  {
    if n == 0 then [] else [(v % 256) as byte] + ToBytes(v / 256, n - 1)
  }

  function FromBytes(s: seq<byte>): (v: nat)
    ensures v < Pow256(|s|)
  {
    if s == [] then 0 else s[0] as nat + 256 * FromBytes(s[1..])
  }

  lemma {:induction false} WordRoundTrip(v: nat, n: nat)
    requires v < Pow256(n)
    ensures FromBytes(ToBytes(v, n)) == v
  {
    if n > 0 {
      WordRoundTrip(v / 256, n - 1);
      assert ToBytes(v, n)[1..] == ToBytes(v / 256, n - 1);
    }
  }

  lemma WordSizes()
    ensures Pow256(4) == 0x1_0000_0000 && Pow256(8) == 0x1_0000_0000_0000_0000
  {
    assert Pow256(2) == 0x1_0000;
    assert Pow256(4) == 0x1_0000_0000;
    assert Pow256(6) == 0x1_0000_0000_0000;
  }

  function U32(b: seq<byte>, at: nat): (v: nat)
    requires at + 4 <= |b|
  {
    FromBytes(b[at..at + 4])
  }

  function U64(b: seq<byte>, at: nat): (v: nat)
    requires at + 8 <= |b|
  {
    FromBytes(b[at..at + 8])
  }

  /** Overwriting a stretch of a buffer. */
  function Splice(b: seq<byte>, at: nat, s: seq<byte>): (r: seq<byte>)
    requires at + |s| <= |b|
    ensures |r| == |b|
  {
    b[..at] + s + b[at + |s|..]
  }

  lemma SpliceAt(b: seq<byte>, at: nat, s: seq<byte>)
    requires at + |s| <= |b|
    ensures Splice(b, at, s)[at..at + |s|] == s
    ensures Splice(b, at, s)[at + |s|..] == b[at + |s|..]
  {
  }

  lemma SpliceElsewhere(b: seq<byte>, at: nat, s: seq<byte>, lo: nat, hi: nat)
    requires at + |s| <= |b| && lo <= hi <= |b| && (hi <= at || at + |s| <= lo)
    ensures Splice(b, at, s)[lo..hi] == b[lo..hi]
  {
  }

  lemma SubSlice(b: seq<byte>, at: nat, length: nat, from: nat, n: nat)
    requires at + length <= |b| && from + n <= length
    ensures b[at..at + length][from..from + n] == b[at + from..at + from + n]
  {
    var whole := b[at..at + length];
    var x, y := whole[from..from + n], b[at + from..at + from + n];
    assert forall k :: 0 <= k < n ==> x[k] == y[k];
  }

  lemma Field(b: seq<byte>, at: nat, s: seq<byte>, from: nat, n: nat, v: nat)
    requires at + |s| <= |b| && b[at..at + |s|] == s
    requires from + n <= |s| && s[from..from + n] == ToBytes(v, n) && v < Pow256(n)
    ensures FromBytes(b[at + from..at + from + n]) == v
  {
    SubSlice(b, at, |s|, from, n);
    WordRoundTrip(v, n);
  }
}
