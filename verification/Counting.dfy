/** Counting facts shared by the models: how many different numbers fit below a bound. */
module Counting {
  function Max(a: nat, b: nat): nat { if a < b then b else a }

  function Min(a: nat, b: nat): nat { if b < a then b else a }

  ghost predicate Distinct<T>(s: seq<T>) {
    forall i, j :: 0 <= i < j < |s| ==> s[i] != s[j]
  }

  ghost function Below(n: nat): (r: set<nat>)
    ensures |r| == n && forall d: nat :: d in r <==> d < n
  {
    if n == 0 then {} else Below(n - 1) + {n - 1}
  }

  lemma {:induction false} SubsetSize<T>(s: set<T>, t: set<T>)
    requires s <= t
    ensures |s| <= |t|
  {
    if s != {} {
      var x :| x in s;
      SubsetSize(s - {x}, t - {x});
    }
  }

  lemma {:induction false} ElementCount<T>(s: seq<T>)
    requires Distinct(s)
    ensures |set d | d in s| == |s|
  {
    if s != [] {
      var front, last := s[..|s| - 1], s[|s| - 1];
      ElementCount(front);
      assert last !in front;
      assert forall d :: d in s <==> d in front || d == last by {
        assert s == front + [last];
      }
      assert (set d | d in s) == (set d | d in front) + {last};
    }
  }

  /** Different numbers below `n` are at most `n` many. */
  lemma DistinctBelow(s: seq<nat>, n: nat)
    requires Distinct(s) && forall d :: d in s ==> d < n
    ensures |s| <= n
  {
    ElementCount(s);
    SubsetSize((set d | d in s), Below(n));
  }
}

/** Facts about slots of a ring: positions taken modulo its size. */
module Modular {
  function Slot(position: nat, size: nat): (r: nat)
    requires size > 0
    ensures r < size
  {
    position % size
  }

  /** A position so many slots into a lap lies in that slot, whatever the lap. */
  lemma SlotExactly(lap: nat, slot: nat, size: nat)
    requires slot < size
    ensures Slot(lap * size + slot, size) == slot
  {
    QuotientIs(lap * size + slot, size, lap, slot);
  }

  lemma ModShift(n: int, k: int, r: int)
    requires n > 0
    ensures (n * k + r) % n == r % n
  {
    var q1, r1 := (n * k + r) / n, (n * k + r) % n;
    var q2, r2 := r / n, r % n;
    assert n * (q1 - k - q2) == r2 - r1;
    assert q1 - k - q2 >= 1 ==> n * (q1 - k - q2) >= n;
    assert q1 - k - q2 <= -1 ==> n * (q1 - k - q2) <= -n;
  }

  /** Positions less than a whole turn apart lie in different slots. */
  lemma SlotsDiffer(a: int, b: int, n: int)
    requires n > 0 && a < b < a + n
    ensures a % n != b % n
  {
    var d := b / n - a / n;
    assert b - a == n * d + (b % n - a % n);
    assert d >= 1 ==> n * d >= n;
    assert d <= -1 ==> n * d <= -n;
  }

  lemma QuotientIs(a: int, n: int, q: int, r: int)
    requires n > 0 && 0 <= r < n && a == n * q + r
    ensures a / n == q && a % n == r
  {
    var d := a / n - q;
    assert n * d == r - a % n;
    assert d >= 1 ==> n * d >= n;
    assert d <= -1 ==> n * d <= -n;
  }
}
