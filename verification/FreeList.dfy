// The singly linked list of free blocks, threaded through their headers.
module FreeLists {
  import opened Bytes
  import opened BlockTable
  import opened Blocks
  import opened HeapModel
  import opened VirtualMemories

  function LinkTo(order: seq<nat>, i: nat): nat {
    if i < |order| then order[i] else 0
  }

  function LinkBefore(order: seq<nat>, i: nat): nat
    requires i <= |order|
  {
    if i == 0 then 0 else order[i - 1]
  }

  /** Following FNextFree from head visits exactly `order`. */
  ghost predicate Linked(m: seq<byte>, head: nat, order: seq<nat>) {
    && head == LinkTo(order, 0)
    && (forall i {:trigger order[i]} :: 0 <= i < |order| ==> order[i] + BLOCK <= |m|)
    && (forall i {:trigger NextFree(m, order[i])} :: 0 <= i < |order| ==> NextFree(m, order[i]) == LinkTo(order, i + 1))
  }

  /** The list runs through distinct blocks of the table. */
  ghost predicate Threads(t: Table, large: nat, order: seq<nat>) {
    && Distinct(order)
    && forall i {:trigger order[i]} :: 0 <= i < |order| ==> order[i] in t && order[i] != large
  }

  lemma KeepsLinked(t: Table, large: nat, order: seq<nat>, head: nat, m: seq<byte>, m': seq<byte>)
    requires Threads(t, large, order) && Linked(m, head, order) && Keeps(t, m, m')
    ensures Linked(m', head, order)
  {
  }

  lemma InsertLinked(t: Table, large: nat, order: seq<nat>, i: nat, b: nat,
                     m: seq<byte>, head: nat, m': seq<byte>, head': nat)
    requires Threads(t, large, order) && Linked(m, head, order) && i <= |order| && |m'| == |m|
    requires b in t && b != large && b !in order && b + BLOCK <= |m|
    requires NextFree(m', b) == LinkTo(order, i)
    requires if i == 0 then head' == b else head' == head && NextFree(m', order[i - 1]) == b
    requires forall k {:trigger NextFree(m', order[k])} :: 0 <= k < |order| && k != i - 1 ==> NextFree(m', order[k]) == NextFree(m, order[k])
    ensures Threads(t, large, order[..i] + [b] + order[i..])
    ensures Linked(m', head', order[..i] + [b] + order[i..])
  {
    var order' := order[..i] + [b] + order[i..];
    assert forall k :: 0 <= k < |order'| ==>
      order'[k] == if k < i then order[k] else if k == i then b else order[k - 1];
    hide NextFree;
    forall k {:trigger NextFree(m', order'[k])} | 0 <= k < |order'|
      ensures order'[k] + BLOCK <= |m'| && NextFree(m', order'[k]) == LinkTo(order', k + 1)
    {
      if k < i {
        assert NextFree(m, order[k]) == LinkTo(order, k + 1);
      } else if i < k {
        assert NextFree(m, order[k - 1]) == LinkTo(order, k);
      }
    }
  }

  lemma RemoveLinked(t: Table, large: nat, order: seq<nat>, i: nat,
                     m: seq<byte>, head: nat, m': seq<byte>, head': nat)
    requires Threads(t, large, order) && Linked(m, head, order) && i < |order| && |m'| == |m|
    requires if i == 0 then head' == LinkTo(order, 1)
             else head' == head && NextFree(m', order[i - 1]) == LinkTo(order, i + 1)
    requires forall k {:trigger NextFree(m', order[k])} :: 0 <= k < |order| && k != i - 1 ==> NextFree(m', order[k]) == NextFree(m, order[k])
    ensures Threads(t, large, Without(order, i))
    ensures Linked(m', head', Without(order, i))
  {
    var order' := Without(order, i);
    assert forall k :: 0 <= k < |order'| ==> order'[k] == if k < i then order[k] else order[k + 1];
    forall k {:trigger NextFree(m', order'[k])} | 0 <= k < |order'|
      ensures order'[k] + BLOCK <= |m'| && NextFree(m', order'[k]) == LinkTo(order', k + 1)
    {
      if k < i {
        assert NextFree(m, order[k]) == LinkTo(order, k + 1);
      } else {
        assert NextFree(m, order[k + 1]) == LinkTo(order, k + 2);
      }
    }
  }

  /** A link written into block x disturbs no header, no other link and nothing
      a client owns. */
  lemma LinkFrame(base: nat, large: nat, t: Table, x: nat, m: seq<byte>, m': seq<byte>)
    requires Tiled(t, base, large) && large + LARGE <= |m| && x in t
    requires SameOutside(m, m', x, x + 8)
    requires Represents(m, t)
    ensures Represents(m', t)
    ensures forall a {:trigger NextFree(m', a)} :: a in t && a != x && a + BLOCK <= |m| ==> NextFree(m', a) == NextFree(m, a)
    ensures KeepsContents(t, m, m')
    ensures RemainingSize(m', large) == RemainingSize(m, large)
  {
    TiledPlaced(t, base, large, x);
    forall a | a in t
      ensures a + BLOCK <= |m| && End(t, a) <= |m| && HeaderIs(m', a, t[a])
      ensures a != x ==> NextFree(m', a) == NextFree(m, a)
      ensures Payload(m', t, a) == Payload(m, t, a)
    {
      TiledPlaced(t, base, large, a);
      TiledApart(t, base, large, a, large);
      TiledApart(t, base, large, a, x);
      TiledApart(t, base, large, x, a);
      assert HeaderIs(m, a, t[a]);
    }
  }

  method SetNextFree(vm: VirtualMemory, a: nat, next: nat, ghost t: Table, ghost large: nat)
    requires vm.Valid() && Tiled(t, vm.base, large) && large + LARGE <= vm.base + vm.commitSize
    requires Represents(vm.bytes, t) && a in t && next < 0x1_0000_0000_0000_0000
    modifies vm`bytes
    ensures vm.Valid() && Represents(vm.bytes, t)
    ensures a + BLOCK <= |vm.bytes| && NextFree(vm.bytes, a) == next
    ensures KeepsContents(t, old(vm.bytes), vm.bytes) && large + LARGE <= |vm.bytes|
    ensures forall b {:trigger NextFree(vm.bytes, b)} :: b in t && b != a && b + BLOCK <= |vm.bytes| ==>
              NextFree(vm.bytes, b) == old(NextFree(vm.bytes, b))
    ensures RemainingSize(vm.bytes, large) == old(RemainingSize(vm.bytes, large))
  {
    HeaderBounds(vm, t, large, a);
    vm.Store(a, 8, next);
    LinkFrame(vm.base, large, t, a, old(vm.bytes), vm.bytes);
  }
}
