// Block headers in memory: reading them, writing them, splitting and merging.
module Blocks {
  import opened Bytes
  import opened BlockTable
  import opened VirtualMemories

  // The fields of a header

  function NextFree(m: seq<byte>, a: nat): nat
    requires a + BLOCK <= |m|
  {
    Load(m, a, 8)
  }

  function SizeAndFreeBit(m: seq<byte>, a: nat): nat
    requires a + BLOCK <= |m|
  {
    Load(m, a + 8, 4)
  }

  function OffsetToPreviousBlock(m: seq<byte>, a: nat): nat
    requires a + BLOCK <= |m|
  {
    Load(m, a + 12, 4)
  }

  function Size(m: seq<byte>, a: nat): nat
    requires a + BLOCK <= |m|
  {
    SizeAndFreeBit(m, a) % FREE_BIT
  }

  predicate IsFree(m: seq<byte>, a: nat)
    requires a + BLOCK <= |m|
  {
    SizeAndFreeBit(m, a) / FREE_BIT % 2 == 1
  }

  predicate IsLargeBlock(m: seq<byte>, a: nat)
    requires a + BLOCK <= |m|
  {
    IsFree(m, a) && Size(m, a) == 0
  }

  function LeftBlock(m: seq<byte>, a: nat): int
    requires a + BLOCK <= |m|
  {
    if OffsetToPreviousBlock(m, a) == 0 then 0 else a - OffsetToPreviousBlock(m, a)
  }

  function RightBlock(m: seq<byte>, a: nat): nat
    requires a + BLOCK <= |m|
  {
    a + BLOCK + Size(m, a)
  }

  ghost predicate HeaderIs(m: seq<byte>, a: nat, info: Info) {
    && a + BLOCK <= |m|
    && Size(m, a) == info.size
    && IsFree(m, a) == info.free
    && LeftBlock(m, a) == info.left
  }

  /** What stands in the two words of a header: the size with the free bit in front,
      and how far it is to the left neighbour. */
  lemma HeaderWords(m: seq<byte>, a: nat, info: Info)
    requires a + 16 <= |m| && HeaderIs(m, a, info)
    ensures Load(m, a + 8, 4) == info.size + if info.free then 0x8000_0000 else 0
    ensures info.left == 0 ==> Load(m, a + 12, 4) == 0 || Load(m, a + 12, 4) == a
    ensures info.left != 0 ==> Load(m, a + 12, 4) == a - info.left
  {
    FromBytesBound(m[a + 8..a + 12], 0);
  }

  /** The memory holds the headers the table says. */
  ghost predicate Represents(m: seq<byte>, t: Table) {
    forall a {:trigger HeaderIs(m, a, t[a])} :: a in t ==> HeaderIs(m, a, t[a])
  }

  /** No other header overlaps the one at b. */
  ghost predicate Clear(t: Table, b: nat) {
    forall a {:trigger a in t} :: a in t && a != b ==> a + BLOCK <= b || b + BLOCK <= a
  }

  /** A write into b's header leaves the other headers as they are. */
  lemma OtherHeaders(m: seq<byte>, m': seq<byte>, t: Table, b: nat, hi: nat)
    requires Represents(m, t) && Clear(t, b) && b + 8 <= hi
    requires SameOutside(m, m', b + 8, hi) && (hi <= b + BLOCK || forall a <- t :: a <= b)
    ensures forall a {:trigger HeaderIs(m', a, t[a])} :: a in t && a != b ==> HeaderIs(m', a, t[a])
  {
    forall a {:trigger HeaderIs(m', a, t[a])} | a in t && a != b ensures HeaderIs(m', a, t[a]) {
      assert HeaderIs(m, a, t[a]);
    }
  }

  /** The header at a is inside the committed pages. */
  ghost predicate Reachable(vm: VirtualMemory, a: nat)
    reads vm
  {
    vm.Valid() && vm.base <= a && a + BLOCK <= vm.base + vm.commitSize
  }

  // Writing one header

  method SetSize(vm: VirtualMemory, a: nat, newSize: nat, ghost t: Table)
    requires Reachable(vm, a) && Represents(vm.bytes, t) && a in t && Clear(t, a)
    requires newSize < INT_MAX
    modifies vm`bytes
    ensures vm.Valid()
    ensures SameOutside(old(vm.bytes), vm.bytes, a + 8, a + 12)
    ensures Represents(vm.bytes, t[a := t[a].(size := newSize)])
  {
    assert HeaderIs(vm.bytes, a, t[a]);
    FromBytesBound(vm.bytes[a + 8..a + 12], 0);
    vm.Store(a + 8, 4, SizeAndFreeBit(vm.bytes, a) - Size(vm.bytes, a) + newSize);
    OtherHeaders(old(vm.bytes), vm.bytes, t, a, a + 12);
  }

  method SetFree(vm: VirtualMemory, a: nat, newFree: bool, ghost t: Table)
    requires Reachable(vm, a) && Represents(vm.bytes, t) && a in t && Clear(t, a)
    modifies vm`bytes
    ensures vm.Valid()
    ensures SameOutside(old(vm.bytes), vm.bytes, a + 8, a + 12)
    ensures Represents(vm.bytes, SetFreeTable(t, a, newFree))
  {
    assert HeaderIs(vm.bytes, a, t[a]);
    FromBytesBound(vm.bytes[a + 8..a + 12], 0);
    vm.Store(a + 8, 4, Size(vm.bytes, a) + if newFree then FREE_BIT else 0);
    OtherHeaders(old(vm.bytes), vm.bytes, t, a, a + 12);
  }

  /** a.FOffsetToPreviousBlock = a.CalculateOffset(left) */
  method SetLeft(vm: VirtualMemory, a: nat, left: nat, ghost t: Table)
    requires Reachable(vm, a) && Represents(vm.bytes, t) && a in t && Clear(t, a)
    requires 0 < left < a && a - left <= 0xFFFF_FFFF
    modifies vm`bytes
    ensures vm.Valid()
    ensures SameOutside(old(vm.bytes), vm.bytes, a + 12, a + 16)
    ensures Represents(vm.bytes, t[a := t[a].(left := left)])
  {
    assert HeaderIs(vm.bytes, a, t[a]);
    vm.Store(a + 12, 4, a - left);
    OtherHeaders(old(vm.bytes), vm.bytes, t, a, a + 16);
  }

  /** The constructor of Block at address a; left == a stands for no block on
      the left. FNextFree keeps whatever was there. */
  method NewBlock(vm: VirtualMemory, a: nat, spaceAvailable: nat, left: nat, free: bool, ghost t: Table)
    requires Reachable(vm, a) && Represents(vm.bytes, t) && Clear(t, a)
    requires BLOCK <= spaceAvailable <= INT_MAX + BLOCK
    requires 0 < left <= a && a - left <= 0xFFFF_FFFF
    modifies vm`bytes
    ensures vm.Valid()
    ensures SameOutside(old(vm.bytes), vm.bytes, a + 8, a + 16)
    ensures Represents(vm.bytes, t[a := Info(spaceAvailable - BLOCK, free, if left == a then 0 else left)])
  {
    vm.Store(a + 8, 4, spaceAvailable - BLOCK + if free then FREE_BIT else 0);
    vm.Store(a + 12, 4, a - left);
    OtherHeaders(old(vm.bytes), vm.bytes, t, a, a + 16);
  }

  // Splitting and merging among the blocks of a table

  /** What lies behind a block's header. */
  function Payload(m: seq<byte>, t: Table, a: nat): seq<byte>
    requires a in t && End(t, a) <= |m|
  {
    m[a + BLOCK..End(t, a)]
  }

  /** The bytes of the blocks in use are what they were. */
  ghost predicate KeepsContents(t: Table, m: seq<byte>, m': seq<byte>) {
    && |m| == |m'|
    && forall a {:trigger Payload(m', t, a)} ::
         a in t && End(t, a) <= |m| && !t[a].free ==> Payload(m', t, a) == Payload(m, t, a)
  }

  /** So are the free-list links of all blocks. */
  ghost predicate Keeps(t: Table, m: seq<byte>, m': seq<byte>) {
    && KeepsContents(t, m, m')
    && forall a {:trigger NextFree(m', a)} :: a in t && a + BLOCK <= |m| ==> NextFree(m', a) == NextFree(m, a)
  }

  lemma KeepsContentsTwice(t: Table, m0: seq<byte>, m1: seq<byte>, m2: seq<byte>)
    requires KeepsContents(t, m0, m1) && KeepsContents(t, m1, m2)
    ensures KeepsContents(t, m0, m2)
  {
    forall a {:trigger Payload(m2, t, a)} | a in t && End(t, a) <= |m0| && !t[a].free
      ensures Payload(m2, t, a) == Payload(m0, t, a)
    {
      assert Payload(m1, t, a) == Payload(m0, t, a);
    }
  }

  lemma KeepsContentsAcross(t: Table, t': Table, m: seq<byte>, m': seq<byte>)
    requires KeepsContents(t', m, m')
    requires forall a {:trigger t[a]} :: a in t && !t[a].free ==> a in t' && !t'[a].free && t'[a].size == t[a].size
    ensures KeepsContents(t, m, m')
  {
    forall a {:trigger Payload(m', t, a)} | a in t && End(t, a) <= |m| && !t[a].free
      ensures Payload(m', t, a) == Payload(m, t, a)
    {
      assert Payload(m', t', a) == Payload(m, t', a);
    }
  }

  lemma HeaderBounds(vm: VirtualMemory, t: Table, large: nat, a: nat)
    requires vm.Valid() && Tiled(t, vm.base, large) && large + LARGE <= vm.base + vm.commitSize
    requires a in t
    ensures Placed(t, vm.base, large, a) && Reachable(vm, a) && End(t, a) <= large + BLOCK
    ensures Clear(t, a)
  {
    TiledPlaced(t, vm.base, large, a);
    TiledApart(t, vm.base, large, a, large);
    forall b | b in t && b != a ensures b + BLOCK <= a || a + BLOCK <= b {
      TiledApart(t, vm.base, large, a, b);
      TiledApart(t, vm.base, large, b, a);
    }
  }

  function RemainingSize(m: seq<byte>, large: nat): nat
    requires large + LARGE <= |m|
  {
    Load(m, large + BLOCK, 8)
  }

  /** A write behind x's link, inside x's header or, when x is free, anywhere
      up to its end, disturbs no link and nothing a client owns. */
  lemma WriteFrame(base: nat, large: nat, t: Table, x: nat, lo: nat, hi: nat, m: seq<byte>, m': seq<byte>)
    requires Tiled(t, base, large) && large + LARGE <= |m|
    requires x in t && x + 8 <= lo <= hi <= if t[x].free then End(t, x) else x + BLOCK
    requires SameOutside(m, m', lo, hi)
    ensures Keeps(t, m, m')
    ensures RemainingSize(m', large) == RemainingSize(m, large)
  {
    TiledPlaced(t, base, large, x);
    TiledApart(t, base, large, x, large);
    forall a | a in t
      ensures a + BLOCK <= |m| && End(t, a) <= |m| && NextFree(m', a) == NextFree(m, a)
      ensures !t[a].free ==> Payload(m', t, a) == Payload(m, t, a)
    {
      TiledPlaced(t, base, large, a);
      TiledApart(t, base, large, a, large);
      TiledApart(t, base, large, a, x);
      TiledApart(t, base, large, x, a);
    }
  }

  lemma KeepsTwice(t: Table, m0: seq<byte>, m1: seq<byte>, m2: seq<byte>)
    requires Keeps(t, m0, m1) && Keeps(t, m1, m2)
    ensures Keeps(t, m0, m2)
  {
    KeepsContentsTwice(t, m0, m1, m2);
    forall a {:trigger NextFree(m2, a)} | a in t && a + BLOCK <= |m0| ensures NextFree(m2, a) == NextFree(m0, a) {
      assert NextFree(m1, a) == NextFree(m0, a);
    }
  }

  /** SpliceTable one header at a time. */
  lemma SpliceInSteps(t: Table, base: nat, large: nat, b: nat, keep: nat, t1: Table, t2: Table)
    requires Tiled(t, base, large) && b in t && b != large && Placed(t, base, large, b)
    requires 0 < keep && keep % ALIGNMENT == 0 && keep + BLOCK < t[b].size
    requires t1 == t[b := t[b].(size := keep)]
    requires t2 == t1[b + BLOCK + keep := Info(t[b].size - keep - BLOCK, true, b)]
    ensures End(t2, b + BLOCK + keep) == End(t, b) && End(t, b) in t2
    ensures t2[End(t, b) := t2[End(t, b)].(left := b + BLOCK + keep)] == SpliceTable(t, b, keep)
    ensures Clear(t1, b + BLOCK + keep)
    ensures Clear(t2, End(t, b))
  {
    var rest, right := b + BLOCK + keep, End(t, b);
    assert t1.Keys == t.Keys && t2.Keys == t.Keys + {rest};
    forall a | a in t ensures a == b || a + BLOCK <= b || right <= a
                      ensures a != right ==> a + BLOCK <= right || right + BLOCK <= a
    {
      TiledApart(t, base, large, b, a);
      TiledApart(t, base, large, a, b);
      TiledApart(t, base, large, right, a);
      TiledApart(t, base, large, a, right);
    }
  }

  method Splice(vm: VirtualMemory, b: nat, sizeToKeep: nat, ghost t: Table, ghost large: nat) returns (rest: nat)
    requires vm.Valid() && Tiled(t, vm.base, large) && large + LARGE <= vm.base + vm.commitSize
    requires Represents(vm.bytes, t) && b in t && b != large && t[b].free
    requires Placed(t, vm.base, large, b)
    requires 0 < sizeToKeep && sizeToKeep % ALIGNMENT == 0 && sizeToKeep + BLOCK < t[b].size
    modifies vm`bytes
    ensures vm.Valid()
    ensures rest == b + BLOCK + sizeToKeep
    ensures Represents(vm.bytes, SpliceTable(t, b, sizeToKeep))
    ensures Keeps(t, old(vm.bytes), vm.bytes)
    ensures large + LARGE <= |vm.bytes| && RemainingSize(vm.bytes, large) == old(RemainingSize(vm.bytes, large))
  {
    HeaderBounds(vm, t, large, b);
    HeaderBounds(vm, t, large, End(t, b));
    assert HeaderIs(vm.bytes, b, t[b]);
    var newBlockAmount := Size(vm.bytes, b) - sizeToKeep;
    rest := b + BLOCK + sizeToKeep;
    ghost var m0, t1: Table := vm.bytes, t[b := t[b].(size := sizeToKeep)];
    ghost var t2: Table := t1[rest := Info(newBlockAmount - BLOCK, true, b)];
    SpliceInSteps(t, vm.base, large, b, sizeToKeep, t1, t2);
    SetSize(vm, b, sizeToKeep, t);
    ghost var m1 := vm.bytes;
    NewBlock(vm, rest, newBlockAmount, b, true, t1);
    ghost var m2 := vm.bytes;
    assert HeaderIs(m2, rest, t2[rest]);
    var right := RightBlock(vm.bytes, rest);
    SetLeft(vm, right, rest, t2);
    WriteFrame(vm.base, large, t, b, b + 8, b + 12, m0, m1);
    WriteFrame(vm.base, large, t, b, rest + 8, rest + 16, m1, m2);
    WriteFrame(vm.base, large, t, right, right + 12, right + 16, m2, vm.bytes);
    KeepsTwice(t, m0, m1, m2);
    KeepsTwice(t, m0, m2, vm.bytes);
  }

  /** SetFree on a block of a tiled table. */
  method Mark(vm: VirtualMemory, b: nat, newFree: bool, ghost t: Table, ghost large: nat)
    requires vm.Valid() && Tiled(t, vm.base, large) && large + LARGE <= vm.base + vm.commitSize
    requires Represents(vm.bytes, t) && b in t
    modifies vm`bytes
    ensures vm.Valid()
    ensures Represents(vm.bytes, SetFreeTable(t, b, newFree))
    ensures Keeps(t, old(vm.bytes), vm.bytes)
    ensures large + LARGE <= |vm.bytes| && RemainingSize(vm.bytes, large) == old(RemainingSize(vm.bytes, large))
  {
    HeaderBounds(vm, t, large, b);
    SetFree(vm, b, newFree, t);
    WriteFrame(vm.base, large, t, b, b + 8, b + 12, old(vm.bytes), vm.bytes);
  }

  lemma RepresentsLess(m: seq<byte>, t: Table, c: nat)
    requires Represents(m, t)
    ensures Represents(m, t - {c})
  {
    forall a {:trigger HeaderIs(m, a, (t - {c})[a])} | a in t - {c} ensures HeaderIs(m, a, (t - {c})[a]) {
      assert HeaderIs(m, a, t[a]);
    }
  }

  /** MergeTable one header at a time. */
  lemma MergeInSteps(t: Table, base: nat, large: nat, c: nat, t1: Table, t2: Table)
    requires Tiled(t, base, large) && c in t && c != large && c != base
    requires Placed(t, base, large, c)
    requires t1 == t - {c}
    requires t2 == t1[t[c].left := t[t[c].left].(size := t[t[c].left].size + t[c].size + BLOCK)]
    ensures t[c].left in t1 && t[c].left < c < End(t, c) && End(t2, t[c].left) == End(t, c) && End(t, c) in t2
    ensures t2[End(t, c) := t2[End(t, c)].(left := t[c].left)] == MergeTable(t, c)
    ensures forall b {:trigger Clear(t1, b)} :: Clear(t, b) ==> Clear(t1, b)
    ensures forall b {:trigger Clear(t2, b)} :: Clear(t, b) ==> Clear(t2, b)
  {
    assert t.Keys == t1.Keys + {c} && t1.Keys == t2.Keys;
  }

  /** The source asserts that c is no sentinel, has a block on its left whose
      right neighbour it is, and that the sum of the sizes stays below INT_MAX. */
  method EatLeftBlock(vm: VirtualMemory, c: nat, ghost t: Table, ghost large: nat) returns (left: nat)
    requires vm.Valid() && Tiled(t, vm.base, large) && large + LARGE <= vm.base + vm.commitSize
    requires Represents(vm.bytes, t) && c in t && c != large && c != vm.base
    requires Placed(t, vm.base, large, c)
    requires t[t[c].left].size + t[c].size + BLOCK < INT_MAX
    modifies vm`bytes
    ensures vm.Valid()
    ensures left == t[c].left
    ensures Represents(vm.bytes, MergeTable(t, c))
    ensures Keeps(t, old(vm.bytes), vm.bytes)
    ensures large + LARGE <= |vm.bytes| && RemainingSize(vm.bytes, large) == old(RemainingSize(vm.bytes, large))
  {
    HeaderBounds(vm, t, large, c);
    HeaderBounds(vm, t, large, t[c].left);
    HeaderBounds(vm, t, large, End(t, c));
    assert HeaderIs(vm.bytes, c, t[c]) && HeaderIs(vm.bytes, t[c].left, t[t[c].left]);
    left := LeftBlock(vm.bytes, c);
    assert !IsLargeBlock(vm.bytes, c) && left != 0 && RightBlock(vm.bytes, left) == c;
    var newSize := Size(vm.bytes, left) + Size(vm.bytes, c) + BLOCK;
    ghost var m0, t1: Table := vm.bytes, t - {c};
    ghost var t2: Table := t1[left := t[left].(size := newSize)];
    RepresentsLess(m0, t, c);
    MergeInSteps(t, vm.base, large, c, t1, t2);
    SetSize(vm, left, newSize, t1);
    ghost var m1 := vm.bytes;
    assert HeaderIs(m1, left, t2[left]);
    var right := RightBlock(vm.bytes, left);
    SetLeft(vm, right, left, t2);
    WriteFrame(vm.base, large, t, left, left + 8, left + 12, m0, m1);
    WriteFrame(vm.base, large, t, right, right + 12, right + 16, m1, vm.bytes);
    KeepsTwice(t, m0, m1, vm.bytes);
  }

  // The sentinel

  /** A write behind the sentinel's link disturbs no link and nothing a client
      owns. */
  lemma TailFrame(base: nat, large: nat, t: Table, lo: nat, hi: nat, m: seq<byte>, m': seq<byte>)
    requires Tiled(t, base, large) && large + LARGE <= |m|
    requires large + 8 <= lo <= hi && SameOutside(m, m', lo, hi)
    ensures Keeps(t, m, m')
  {
    forall a | a in t
      ensures a + BLOCK <= |m| && End(t, a) <= |m| && NextFree(m', a) == NextFree(m, a)
      ensures !t[a].free ==> Payload(m', t, a) == Payload(m, t, a)
    {
      TiledPlaced(t, base, large, a);
      TiledApart(t, base, large, a, large);
    }
  }

  method SetRemainingSize(vm: VirtualMemory, large: nat, newSize: nat, ghost t: Table)
    requires vm.Valid() && Tiled(t, vm.base, large) && large + LARGE <= vm.base + vm.commitSize
    requires Represents(vm.bytes, t) && newSize < 0x1_0000_0000_0000_0000
    modifies vm`bytes
    ensures vm.Valid()
    ensures Represents(vm.bytes, t) && Keeps(t, old(vm.bytes), vm.bytes)
    ensures large + LARGE <= |vm.bytes| && RemainingSize(vm.bytes, large) == newSize
  {
    HeaderBounds(vm, t, large, large);
    ghost var m := vm.bytes;
    vm.Store(large + BLOCK, 8, newSize);
    TailFrame(vm.base, large, t, large + BLOCK, large + LARGE, m, vm.bytes);
    forall a {:trigger HeaderIs(vm.bytes, a, t[a])} | a in t ensures HeaderIs(vm.bytes, a, t[a]) {
      assert HeaderIs(m, a, t[a]);
      TiledPlaced(t, vm.base, large, a);
    }
  }

  /** The constructor of LargeBlock at address a; left == 0 stands for no block
      on the left. */
  method NewLargeBlock(vm: VirtualMemory, a: nat, spaceAvailable: nat, left: nat, ghost t: Table)
    requires vm.Valid() && vm.base <= a && a + LARGE <= vm.base + vm.commitSize
    requires Represents(vm.bytes, t) && Clear(t, a) && forall b <- t :: b <= a
    requires spaceAvailable < 0x1_0000_0000_0000_0000
    requires left < a && (left != 0 ==> a - left <= 0xFFFF_FFFF)
    modifies vm`bytes
    ensures vm.Valid()
    ensures SameOutside(old(vm.bytes), vm.bytes, a + 8, a + LARGE)
    ensures Represents(vm.bytes, t[a := Info(0, true, left)])
    ensures RemainingSize(vm.bytes, a) == spaceAvailable
  {
    NewBlock(vm, a, BLOCK, if left == 0 then a else left, true, t);
    ghost var m, t' := vm.bytes, t[a := Info(0, true, left)];
    vm.Store(a + BLOCK, 8, spaceAvailable);
    forall b {:trigger HeaderIs(vm.bytes, b, t'[b])} | b in t' ensures HeaderIs(vm.bytes, b, t'[b]) {
      assert HeaderIs(m, b, t'[b]);
    }
  }

  /** Every header lies in front of the sentinel's. */
  lemma BeforeSentinel(t: Table, base: nat, large: nat)
    requires Tiled(t, base, large)
    ensures forall a <- t :: a == large || a + BLOCK <= large
  {
    forall a | a in t ensures a == large || a + BLOCK <= large {
      TiledPlaced(t, base, large, a);
      TiledApart(t, base, large, a, large);
    }
  }

  /** The source asserts that the sentinel has more than size + sizeof(Block)
      bytes left. */
  method AllocateBlock(vm: VirtualMemory, large: nat, size: nat, ghost t: Table) returns (block: nat, newLarge: nat)
    requires vm.Valid() && Tiled(t, vm.base, large) && large + LARGE <= vm.base + vm.commitSize
    requires Represents(vm.bytes, t)
    requires 0 < size < INT_MAX && size % ALIGNMENT == 0
    requires size + BLOCK < RemainingSize(vm.bytes, large)
    requires large + LARGE + RemainingSize(vm.bytes, large) == vm.base + vm.commitSize
    modifies vm`bytes
    ensures vm.Valid()
    ensures block == large && newLarge == large + BLOCK + size
    ensures Represents(vm.bytes, CarveTable(t, large, size))
    ensures Keeps(t, old(vm.bytes), vm.bytes)
    ensures newLarge + LARGE <= |vm.bytes|
    ensures RemainingSize(vm.bytes, newLarge) == old(RemainingSize(vm.bytes, large)) - size - BLOCK
  {
    HeaderBounds(vm, t, large, large);
    BeforeSentinel(t, vm.base, large);
    assert HeaderIs(vm.bytes, large, t[large]);
    var sizeWithBlock := size + BLOCK;
    var originalSize := RemainingSize(vm.bytes, large);
    var left := LeftBlock(vm.bytes, large);
    if left != 0 {
      HeaderBounds(vm, t, large, left);
    }
    block, newLarge := large, large + sizeWithBlock;
    ghost var m0, t1: Table := vm.bytes, t[large := Info(size, false, t[large].left)];
    NewBlock(vm, large, sizeWithBlock, if left == 0 then large else left, false, t);
    ghost var m1 := vm.bytes;
    NewLargeBlock(vm, newLarge, originalSize - sizeWithBlock, block, t1);
    TailFrame(vm.base, large, t, large + 8, large + 16, m0, m1);
    assert CarveTable(t, large, size) == t1[newLarge := Info(0, true, block)];
    TailFrame(vm.base, large, t, newLarge + 8, newLarge + LARGE, m1, vm.bytes);
    KeepsTwice(t, m0, m1, vm.bytes);
  }

  /** LargeBlock::EatLeftBlock; no operation of the heap calls it. */
  method EatLeftOfLargeBlock(vm: VirtualMemory, large: nat, ghost t: Table) returns (newLarge: nat)
    requires vm.Valid() && Tiled(t, vm.base, large) && large + LARGE <= vm.base + vm.commitSize
    requires Represents(vm.bytes, t) && large != vm.base && Placed(t, vm.base, large, large)
    requires large + LARGE + RemainingSize(vm.bytes, large) == vm.base + vm.commitSize
    modifies vm`bytes
    ensures vm.Valid()
    ensures newLarge == t[large].left
    ensures Represents(vm.bytes, UncarveTable(t, large))
    ensures Keeps(UncarveTable(t, large), old(vm.bytes), vm.bytes)
    ensures newLarge + LARGE <= |vm.bytes|
    ensures newLarge + LARGE + RemainingSize(vm.bytes, newLarge) == vm.base + vm.commitSize
  {
    assert HeaderIs(vm.bytes, large, t[large]);
    newLarge := LeftBlock(vm.bytes, large);
    HeaderBounds(vm, t, large, newLarge);
    assert HeaderIs(vm.bytes, newLarge, t[newLarge]);
    if newLarge != vm.base {
      HeaderBounds(vm, t, large, t[newLarge].left);
    }
    RepresentsLess(vm.bytes, t, large);
    forall a | a in t && a != large ensures a <= newLarge {
      TiledApart(t, vm.base, large, a, large);
      TiledApart(t, vm.base, large, newLarge, a);
      TiledPlaced(t, vm.base, large, a);
    }
    NewLargeBlock(vm, newLarge, RemainingSize(vm.bytes, large) + Size(vm.bytes, newLarge) + BLOCK,
                  LeftBlock(vm.bytes, newLarge), t - {large});
    UncarveKeepsTiling(t, vm.base, large);
    TailFrame(vm.base, newLarge, UncarveTable(t, large), newLarge + 8, newLarge + LARGE, old(vm.bytes), vm.bytes);
  }
}
