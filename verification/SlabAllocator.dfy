/** The slab allocator as it is run, with its two linked lists of blocks. */
module SlabAllocators {
  import opened Counting
  import opened SlabBlocks
  import opened Slabs
  import opened IntrusiveLists

  lemma {:induction false} DroppedAt(s: seq<nat>, k: nat)
    requires Distinct(s) && k < |s|
    ensures Dropped(s, s[k]) == s[..k] + s[k + 1..]
  {
    if k > 0 {
      assert s[0] != s[k];
      DroppedAt(s[1..], k - 1);
      assert s[1..][k - 1] == s[k];
    }
  }

  lemma ItemsAppended(spine: seq<Node<nat>>, n: Node<nat>)
    ensures Items(spine + [n]) == Items(spine) + [n.item]
  {
  }

  lemma ItemsDropped(spine: seq<Node<nat>>, k: nat)
    requires Distinct(Items(spine)) && k < |spine|
    ensures Items(Without(spine, k)) == Dropped(Items(spine), spine[k].item)
  {
    DroppedAt(Items(spine), k);
  }

  lemma ItemsTail(spine: seq<Node<nat>>)
    requires spine != []
    ensures Items(Without(spine, 0)) == Items(spine)[1..] && Items(spine)[0] == spine[0].item
  {
  }

  lemma ItemAt(spine: seq<Node<nat>>, x: nat) returns (k: nat)
    requires x in Items(spine)
    ensures k < |spine| && spine[k].item == x
  {
    k :| 0 <= k < |spine| && Items(spine)[k] == x;
  }

  class SlabAllocator {
    const size: nat
    const blockSize: nat
    const freeBlocks: IntrusiveList<nat>
    const fullBlocks: IntrusiveList<nat>
    /** Block headers in memory, by address, and the list node inside each. */
    var blocks: map<nat, Block>
    var nodes: map<nat, Node<nat>>
    ghost var live: set<nat>

    ghost function View(): (s: Slab)
      reads this, freeBlocks, fullBlocks
    {
      Slab(size, blockSize, blocks, Items(freeBlocks.spine), Items(fullBlocks.spine))
    }

    ghost predicate Valid()
      reads this, freeBlocks, fullBlocks, freeBlocks.spine, fullBlocks.spine
    {
      Linked() && Inv(View(), live)
    }

    /** The lists are well formed, and a block's node is found from its address. */
    ghost predicate Linked()
      reads this`nodes, freeBlocks, fullBlocks, freeBlocks.spine, fullBlocks.spine
    {
      && freeBlocks != fullBlocks && freeBlocks.Valid() && fullBlocks.Valid()
      && (forall n :: n in freeBlocks.spine ==> n.item in nodes && nodes[n.item] == n)
      && (forall n :: n in fullBlocks.spine ==> n.item in nodes && nodes[n.item] == n)
    }

    constructor (size: nat, blockSize: nat)
      requires Geometry(size, blockSize)
      ensures Valid() && live == {} && View() == Slab(size, blockSize, map[], [], [])
      ensures fresh(freeBlocks) && fresh(fullBlocks)
    {
      this.size, this.blockSize, blocks, nodes, live := size, blockSize, map[], map[], {};
      freeBlocks := new IntrusiveList();
      fullBlocks := new IntrusiveList();
    }

    method AddNode(base: nat) returns (n: Node<nat>)
      requires Linked() && freeBlocks.spine == [] && base !in Items(fullBlocks.spine)
      modifies this`nodes, freeBlocks
      ensures Linked() && fresh(n) && n.item == base && freeBlocks.spine == [n]
    {
      assert forall m :: m in fullBlocks.spine ==> m.item in Items(fullBlocks.spine);
      n := new Node(base);
      freeBlocks.Append(n);
      nodes := nodes[base := n];
    }

    /** Lays out another block and puts it on the list. */
    method Grow(supply: nat) returns (b: Block)
      requires Valid() && freeBlocks.spine == []
      requires supply > 0 && supply % blockSize == 0 && supply !in blocks
      modifies this`blocks, this`nodes, freeBlocks, freeBlocks.spine
      ensures Valid() && fresh(freeBlocks.spine)
      ensures Supplied(old(View()), b) && View() == Grown(old(View()), b)
    {
      hide BlockOk, ListsOk, BlocksOk, Inv, Linked;
      ghost var was := View();
      InvGeometry(was, live);
      BaseAligned(supply, blockSize, size);
      ObjectsFit(supply, size, blockSize);
      b := NewBlock(supply, size, blockSize);
      assert Supplied(was, b);
      GrownInv(was, b, live);
      FullsElsewhere(was, live, supply);
      var n := AddNode(supply);
      ItemsAppended([], n);
      blocks := blocks[supply := b];
      assert View() == Grown(was, b);
    }

    /** The first block with free objects moves to the full ones. */
    method MoveToFull()
      requires Linked() && freeBlocks.spine != []
      modifies freeBlocks, fullBlocks, freeBlocks.spine, fullBlocks.spine
      ensures Linked() && freeBlocks.spine == Without(old(freeBlocks.spine), 0)
      ensures fullBlocks.spine == old(fullBlocks.spine) + [old(freeBlocks.spine)[0]]
    {
      hide Without;
      var n := freeBlocks.first;
      assert n !in fullBlocks.spine;
      freeBlocks.Remove(n, 0);
      fullBlocks.Append(n);
    }

    /** A full block moves to those with free objects. */
    method MoveToFree(base: nat, ghost k: nat)
      requires Linked() && k < |fullBlocks.spine| && fullBlocks.spine[k].item == base
      modifies freeBlocks, fullBlocks, freeBlocks.spine, fullBlocks.spine
      ensures Linked() && fullBlocks.spine == Without(old(fullBlocks.spine), k)
      ensures freeBlocks.spine == old(freeBlocks.spine) + [old(fullBlocks.spine)[k]]
    {
      hide Without;
      var n := nodes[base];
      assert n == fullBlocks.spine[k] && n !in freeBlocks.spine;
      fullBlocks.Remove(n, k);
      freeBlocks.Append(n);
    }

    method FirstBlock() returns (base: nat)
      requires Linked() && freeBlocks.spine != []
      ensures base == freeBlocks.spine[0].item
    {
      base := freeBlocks.first.item;
    }

    /** Takes an object from the first block that has one. */
    method Serve() returns (p: nat)
      requires Valid() && freeBlocks.spine != []
      modifies this`blocks, this`live, freeBlocks, fullBlocks, freeBlocks.spine, fullBlocks.spine
      ensures Valid() && old(View().frees[0] in blocks && blocks[View().frees[0]].head in blocks[View().frees[0]].next)
      ensures View() == Served(old(View())) && p == old(blocks[View().frees[0]].head)
      ensures live == old(live) + {p}
    {
      hide BlockOk, ListsOk, BlocksOk, Inv, Without, Linked;
      ghost var was := View();
      ServedInv(was, live);
      var base := FirstBlock();
      ItemsTail(freeBlocks.spine);
      ItemsAppended(fullBlocks.spine, freeBlocks.spine[0]);
      var b := blocks[base];
      p := b.head;
      blocks := blocks[base := Taken(b)];
      if Taken(b).used == b.total { MoveToFull(); }
      live := live + {p};
      assert View() == Served(was);
    }

    /** One allocation; `supply` is the memory handed over if another block is needed. */
    method Allocate(supply: nat) returns (p: nat, ghost b: Block)
      requires Valid()
      requires freeBlocks.Empty() ==> supply > 0 && supply % blockSize == 0 && supply !in blocks
      modifies this, freeBlocks, fullBlocks, freeBlocks.spine, fullBlocks.spine
      ensures Valid() && p !in old(live) && live == old(live) + {p}
      ensures Step(old(View()), old(live), Op.Allocate(b), View(), live)
    {
      hide BlockOk, ListsOk, BlocksOk, Inv, Without, Grown, Served, Supplied;
      ghost var was := View();
      b := Block(0, 0, 0, map[], 0, 0);
      if freeBlocks.Empty() {
        b := Grow(supply);
        GrownFrees(was, b);
      }
      ServedInv(View(), live);
      p := Serve();
    }

    /** An object comes back; the tests made on it pass. */
    method Free(p: nat)
      requires Valid() && p in live
      modifies this`blocks, this`live, freeBlocks, fullBlocks, freeBlocks.spine, fullBlocks.spine
      ensures Valid() && live == old(live) - {p}
      ensures Step(old(View()), old(live), Op.Free(p), View(), live)
    {
      hide BlockOk, ListsOk, BlocksOk, Inv, Without, Linked;
      ghost var was := View();
      InvGeometry(was, live);
      RestoredInv(was, live, p);
      var base := p / blockSize * blockSize;
      var b := blocks[base];
      if b.used == b.total {
        FullListed(was, live, base);
        ghost var k := ItemAt(fullBlocks.spine, base);
        ItemsDropped(fullBlocks.spine, k);
        ItemsAppended(freeBlocks.spine, fullBlocks.spine[k]);
        MoveToFree(base, k);
      }
      assert IsObject(b, p);
      blocks := blocks[base := Returned(b, p)];
      live := live - {p};
      assert View() == Restored(was, p);
    }
  }

  lemma GrownFrees(s: Slab, b: Block)
    ensures Grown(s, b).frees != []
  {
  }

  lemma FullListed(s: Slab, live: set<nat>, base: nat)
    requires Inv(s, live) && base in s.blocks && Full(s.blocks[base])
    ensures base in s.fulls && Distinct(s.fulls)
  {
  }

  lemma InvGeometry(s: Slab, live: set<nat>)
    requires Inv(s, live)
    ensures Geometry(s.size, s.blockSize)
  {
  }

  lemma FullsElsewhere(s: Slab, live: set<nat>, base: nat)
    requires Inv(s, live) && base !in s.blocks
    ensures base !in s.fulls
  {
  }
}
