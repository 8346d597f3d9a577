/** Doubly linked lists whose links live in the items. */
module IntrusiveLists {
  class Node<T> {
    const item: T
    var head: IntrusiveList?<T>
    var next: Node?<T>
    var prev: Node?<T>

    constructor (item: T)
      ensures this.item == item && head == null && next == null && prev == null
    {
      this.item, head, next, prev := item, null, null, null;
    }
  }

  ghost function Without<T>(s: seq<T>, k: nat): (r: seq<T>)
    requires k < |s|
    ensures |r| == |s| - 1
    ensures forall i :: 0 <= i < |r| ==> r[i] == s[if i < k then i else i + 1]
  {
    s[..k] + s[k + 1..]
  }

  ghost function With<T>(s: seq<T>, k: nat, x: T): (r: seq<T>)
    requires k <= |s|
    ensures |r| == |s| + 1 && r[k] == x
    ensures forall i :: 0 <= i < |r| && i != k ==> r[i] == s[if i < k then i else i - 1]
  {
    s[..k] + [x] + s[k..]
  }

  /** The items of a list of nodes, in order. */
  ghost function Items<T>(spine: seq<Node<T>>): (r: seq<T>)
    ensures |r| == |spine| && forall i :: 0 <= i < |spine| ==> r[i] == spine[i].item
  {
    seq(|spine|, i requires 0 <= i < |spine| => spine[i].item)
  }

  class IntrusiveList<T> {
    var first: Node?<T>
    var last: Node?<T>
    ghost var spine: seq<Node<T>>

    /** The links are those of the spine, both ways. */
    ghost predicate Valid()
      reads this, spine
    {
      && (forall i, j :: 0 <= i < j < |spine| ==> spine[i] != spine[j])
      && (forall i :: 0 <= i < |spine| ==> spine[i].head == this)
      && (forall i, j :: 0 <= i < j < |spine| && j == i + 1 ==> spine[i].next == spine[j] && spine[j].prev == spine[i])
      && (if spine == [] then first == null && last == null
          else
            && first == spine[0] && first.prev == null
            && last == spine[|spine| - 1] && last.next == null)
    }

    constructor ()
      ensures Valid() && spine == []
    {
      first, last, spine := null, null, [];
    }

    predicate Empty()
      requires Valid()
      reads this, spine
      ensures Empty() <==> spine == []
    {
      first == null
    }

    method Append(n: Node<T>)
      requires Valid() && n.head == null
      modifies this, spine, n
      ensures Valid() && spine == old(spine) + [n]
    {
      n.head := this;
      n.prev := last;
      n.next := null;
      if last != null { last.next := n; }
      last := n;
      if first == null { first := n; }
      spine := spine + [n];
    }

    method InsertBefore(before: Node<T>, n: Node<T>, ghost k: nat)
      requires Valid() && n.head == null && k < |spine| && spine[k] == before
      modifies this, spine, n
      ensures Valid() && spine == With(old(spine), k, n)
    {
      hide With;
      ghost var was := spine;
      assert k > 0 ==> before.prev == was[k - 1];
      n.head := this;
      n.next := before;
      n.prev := before.prev;
      if before.prev != null { before.prev.next := n; }
      before.prev := n;
      if first == before { first := n; }
      spine := With(spine, k, n);
    }

    method Remove(n: Node<T>, ghost k: nat)
      requires Valid() && k < |spine| && spine[k] == n
      modifies this, spine
      ensures Valid() && spine == Without(old(spine), k)
      ensures n.head == null
    {
      hide Without;
      ghost var was := spine;
      assert k > 0 ==> n.prev == was[k - 1];
      assert k + 1 < |was| ==> n.next == was[k + 1];
      if first == n { first := n.next; }
      if last == n { last := n.prev; }
      if n.next != null { n.next.prev := n.prev; }
      if n.prev != null { n.prev.next := n.next; }
      n.head := null;
      n.next, n.prev := null, null;
      spine := Without(spine, k);
    }

    method PopFront() returns (n: Node<T>)
      requires Valid() && spine != []
      modifies this, spine
      ensures Valid() && n == old(spine)[0] && spine == old(spine)[1..] && n.head == null
    {
      n := first;
      Remove(n, 0);
    }
  }
}
