/** The byte ring: one slot is kept empty, so that equal indices mean an empty ring. */
module RingBuffers {
  import opened Counting
  import opened Words
  import opened Wrappers

  datatype Error = EInval | EAgain | EOverflow

  /** The bytes between the read and the write index, around the end of the buffer. */
  function Unread(buf: seq<byte>, r: nat, w: nat): (s: seq<byte>)
    requires r < |buf| && w < |buf|
  {
    if w >= r then buf[r..w] else buf[r..] + buf[..w]
  }

  function Advance(i: nat, n: nat, size: nat): nat { if i + n == size then 0 else i + n }

  /** Moving the read index over bytes before the end of the buffer takes them off the front. */
  lemma ReadSegment(buf: seq<byte>, r: nat, w: nat, n: nat)
    requires r < |buf| && w < |buf|
    requires n <= (if w >= r then w - r else |buf| - r)
    ensures n <= |Unread(buf, r, w)| && buf[r..r + n] == Unread(buf, r, w)[..n]
    ensures Unread(buf, Advance(r, n, |buf|), w) == Unread(buf, r, w)[n..]
  {
  }

  /** Storing bytes at the write index, before the end and before the read index, appends them. */
  lemma WriteSegment(buf: seq<byte>, r: nat, w: nat, data: seq<byte>, after: seq<byte>)
    requires r < |buf| && w < |buf|
    requires |data| <= if w < r then r - w - 1 else if r == 0 then |buf| - w - 1 else |buf| - w
    requires after == buf[..w] + data + buf[w + |data|..]
    ensures Unread(after, r, Advance(w, |data|, |buf|)) == Unread(buf, r, w) + data
  {
    var v := Advance(w, |data|, |buf|);
    assert |after| == |buf|;
    if w < r {
      assert after[r..] == buf[r..];
      assert after[..v] == buf[..w] + data;
    } else {
      assert after[r..w] == buf[r..w];
      if v == w + |data| {
        assert after[r..v] == buf[r..w] + data;
      } else {
        assert after[r..] == buf[r..w] + data;
        assert r > 0 ==> after[..v] == [];
      }
    }
  }

  lemma Regroup(a: seq<byte>, b: seq<byte>, c: seq<byte>)
    ensures (a + b) + c == a + (b + c)
  {
  }

  lemma Cut(all: seq<byte>, a: seq<byte>, b: seq<byte>)
    requires a + b == all
    ensures a == all[..|a|] && b == all[|a|..]
  {
  }

  lemma Extend(a: seq<byte>, b: seq<byte>, i: nat, n: nat)
    requires i + n <= |b|
    ensures a + b[..i] + b[i..i + n] == a + b[..i + n]
  {
  }

  class RingBuffer {
    const buffer: array<byte>
    var readIdx: nat
    var writeIdx: nat

    ghost predicate Valid()
      reads this
    {
      readIdx < buffer.Length && writeIdx < buffer.Length
    }

    ghost function Contents(): (s: seq<byte>)
      requires Valid()
      reads this, buffer
    {
      Unread(buffer[..], readIdx, writeIdx)
    }

    constructor (size: nat)
      requires size > 0
      ensures Valid() && fresh(buffer) && buffer.Length == size && Contents() == []
    {
      buffer := new byte[size](i => 0);
      readIdx, writeIdx := 0, 0;
    }

    function PendingBytes(): (n: nat)
      requires Valid()
      reads this, buffer
      ensures n == |Contents()|
    {
      if writeIdx >= readIdx then writeIdx - readIdx else buffer.Length - readIdx + writeIdx
    }

    function FreeBytes(): (n: nat)
      requires Valid()
      reads this, buffer
      ensures n == buffer.Length - 1 - |Contents()|
    {
      if writeIdx >= readIdx then buffer.Length - writeIdx + readIdx - 1 else readIdx - writeIdx - 1
    }

    /** One pass of a read: up to the end of the buffer, the end of what is pending or of what is wanted. */
    method TakeSegment(want: nat) returns (chunk: seq<byte>)
      requires Valid() && want > 0 && PendingBytes() > 0
      modifies this`readIdx
      ensures Valid() && chunk + Contents() == old(Contents()) && 0 < |chunk| <= want
      ensures |chunk| == want || Contents() == [] || (old(readIdx) > 0 && readIdx == 0)
    {
      hide Unread;
      var segment := if writeIdx >= readIdx then writeIdx - readIdx else buffer.Length - readIdx;
      var n := Min(segment, want);
      ReadSegment(buffer[..], readIdx, writeIdx, n);
      chunk := buffer[..][readIdx..readIdx + n];
      readIdx := readIdx + n;
      if readIdx == buffer.Length { readIdx := 0; }
      assert PendingBytes() == |Contents()|;
    }

    /** Takes `want` bytes off the front, or refuses; a partial read takes what there is. */
    method ReadTo(want: nat, partial: bool) returns (r: Result<seq<byte>, Error>, ghost passes: nat)
      requires Valid() && (partial || want < buffer.Length)
      modifies this`readIdx
      ensures Valid() && passes <= 2
      ensures !partial && |old(Contents())| < want ==> r == Err(EAgain) && Contents() == old(Contents())
      ensures partial || want <= |old(Contents())| ==>
        && r == Ok(old(Contents())[..Min(want, |old(Contents())|)])
        && Contents() == old(Contents())[Min(want, |old(Contents())|)..]
    {
      hide Unread;
      passes := 0;
      var readSpace := PendingBytes();
      if !partial && readSpace < want { return Err(EAgain), passes; }
      var data: seq<byte> := [];
      ghost var all := Contents();
      while readSpace > 0 && |data| < want
        invariant Valid() && |data| <= want && readSpace == |Contents()|
        invariant data + Contents() == all
        invariant passes <= 2 && (passes == 1 ==> readIdx == 0 || readSpace == 0 || |data| == want)
        invariant passes == 2 ==> readSpace == 0 || |data| == want
        decreases want - |data|
      {
        var chunk := TakeSegment(want - |data|);
        Regroup(data, chunk, Contents());
        data := data + chunk;
        readSpace := PendingBytes();
        passes := passes + 1;
      }
      Cut(all, data, Contents());
      return Ok(data), passes;
    }

    /** Copies a stretch of the data to the write index. */
    method StoreAt(data: seq<byte>, from: nat, n: nat)
      requires Valid() && from + n <= |data|
      requires n <= if writeIdx < readIdx then readIdx - writeIdx - 1
                    else if readIdx == 0 then buffer.Length - writeIdx - 1 else buffer.Length - writeIdx
      modifies buffer
      ensures Unread(buffer[..], readIdx, Advance(writeIdx, n, buffer.Length)) ==
              old(Contents()) + data[from..from + n]
    {
      ghost var was := buffer[..];
      forall k | 0 <= k < n {
        buffer[writeIdx + k] := data[from + k];
      }
      assert buffer[..] == was[..writeIdx] + data[from..from + n] + was[writeIdx + n..];
      WriteSegment(was, readIdx, writeIdx, data[from..from + n], buffer[..]);
    }

    /** One pass of a write: up to the end of the buffer, the last free byte or the end of the data. */
    method StoreSegment(data: seq<byte>, from: nat) returns (n: nat)
      requires Valid() && from < |data| && FreeBytes() > 0
      modifies this`writeIdx, buffer
      ensures Valid() && 0 < n <= |data| - from && Contents() == old(Contents()) + data[from..from + n]
      ensures from + n == |data| || FreeBytes() == 0 || (old(writeIdx) >= old(readIdx) && writeIdx < readIdx)
    {
      var segment := if writeIdx >= readIdx then buffer.Length - writeIdx else readIdx - writeIdx - 1;
      if readIdx == 0 { segment := segment - 1; }
      n := Min(segment, |data| - from);
      StoreAt(data, from, n);
      writeIdx := writeIdx + n;
      if writeIdx == buffer.Length { writeIdx := 0; }
    }

    /** Appends the bytes, or refuses; a partial write appends what fits. */
    method WriteTo(data: seq<byte>, partial: bool) returns (r: Result<nat, Error>, ghost passes: nat)
      requires Valid()
      modifies this`writeIdx, buffer
      ensures Valid() && passes <= 2
      ensures !partial && old(FreeBytes()) < |data| ==> r == Err(EAgain) && Contents() == old(Contents())
      ensures partial || |data| <= old(FreeBytes()) ==>
        && r == Ok(Min(|data|, old(FreeBytes())))
        && Contents() == old(Contents()) + data[..Min(|data|, old(FreeBytes()))]
    {
      hide Unread;
      passes := 0;
      var writeSpace := FreeBytes();
      if writeSpace < |data| && !partial { return Err(EAgain), passes; }
      var done: nat := 0;
      ghost var before := Contents();
      while writeSpace > 0 && done < |data|
        invariant Valid() && done <= |data| && writeSpace == FreeBytes()
        invariant Contents() == before + data[..done]
        invariant passes <= 2 && (passes == 1 ==> (writeIdx < readIdx) || writeSpace == 0 || done == |data|)
        invariant passes == 2 ==> writeSpace == 0 || done == |data|
        decreases |data| - done
      {
        var n := StoreSegment(data, done);
        Extend(before, data, done, n);
        done := done + n;
        writeSpace := FreeBytes();
        passes := passes + 1;
      }
      return Ok(done), passes;
    }
  }
}
