// A heap as a value, and what each of its operations makes of it.
module HeapModel {
  import opened BlockTable
  import opened Wrappers

  const MINIMUM_BLOCK_SIZE: nat := 16
  const COMMIT_SLACK: nat := 1000
  const MAX_REQUEST: nat := 2047 * 1024 * 1024

  /** The block table, the free list in list order, the sentinel's address and
      the bytes it has left. */
  datatype HeapState = HeapState(base: nat, large: nat, remaining: nat, blocks: Table, order: seq<nat>)

  // Sequences without repetition

  ghost predicate Distinct(s: seq<nat>) {
    forall i, j :: 0 <= i < j < |s| ==> s[i] != s[j]
  }

  function Without(s: seq<nat>, i: nat): seq<nat>
    requires i < |s|
  {
    s[..i] + s[i + 1..]
  }

  function IndexOf(s: seq<nat>, x: nat): (i: nat)
    requires x in s
    ensures i < |s| && s[i] == x
  {
    if s[0] == x then 0 else 1 + IndexOf(s[1..], x)
  }

  // The invariant

  predicate IsFreeBlock(h: HeapState, a: nat) {
    a in h.blocks && a != h.large && h.blocks[a].free
  }

  /** The free list holds exactly the free blocks, each once. */
  ghost predicate FreeListOk(h: HeapState) {
    && Distinct(h.order)
    && (forall a {:trigger a in h.order} :: a in h.order <==> IsFreeBlock(h, a))
  }

  ghost predicate WellFormed(h: HeapState) {
    && Tiled(h.blocks, h.base, h.large)
    && FreeListOk(h)
  }

  /** The live allocations: the blocks in use, with their sizes. */
  function Live(h: HeapState): map<nat, nat> {
    map a | a in h.blocks && !h.blocks[a].free :: h.blocks[a].size
  }

  function Committed(h: HeapState): int {
    h.large + LARGE + h.remaining - h.base
  }

  /** In the free list, no block stands behind a block that starts where it
      ends. */
  ghost predicate Ordered(h: HeapState) {
    forall i, j | 0 <= i < |h.order| && 0 <= j < |h.order| && h.order[i] in h.blocks ::
      End(h.blocks, h.order[i]) == h.order[j] ==> i < j
  }

  /** The same for the blocks too small for a request only. */
  ghost predicate OrderedFor(h: HeapState, need: nat) {
    forall i, j | 0 <= i < |h.order| && 0 <= j < |h.order| && h.order[i] in h.blocks && h.order[j] in h.blocks ::
      End(h.blocks, h.order[i]) == h.order[j] && h.blocks[h.order[j]].size < need ==> i < j
  }

  // Merging during the scan

  predicate LeftIsFree(h: HeapState, b: nat)
    requires b in h.blocks
  {
    var l := h.blocks[b].left;
    l != 0 && l in h.blocks && h.blocks[l].free
  }

  predicate CanMerge(h: HeapState, c: nat)
    requires c in h.blocks
  {
    LeftIsFree(h, c) && h.blocks[c].size + h.blocks[h.blocks[c].left].size + BLOCK <= INT_MAX
  }

  function Merge(h: HeapState, i: nat): HeapState
    requires i < |h.order| && h.order[i] in h.blocks
    requires h.blocks[h.order[i]].left in h.blocks && End(h.blocks, h.order[i]) in h.blocks
  {
    h.(blocks := MergeTable(h.blocks, h.order[i]), order := Without(h.order, i))
  }

  lemma WithoutFacts(s: seq<nat>, i: nat)
    requires i < |s| && Distinct(s)
    ensures Distinct(Without(s, i))
    ensures forall x :: x in Without(s, i) <==> x in s && x != s[i]
  {
    var w := Without(s, i);
    assert forall k :: 0 <= k < |w| ==> w[k] == if k < i then s[k] else s[k + 1];
    forall x | x in s && x != s[i] ensures x in w {
      var k :| 0 <= k < |s| && s[k] == x;
      assert w[if k < i then k else k - 1] == x;
    }
  }

  lemma MergeKeepsFreeList(h: HeapState, i: nat)
    requires FreeListOk(h) && i < |h.order|
    requires h.order[i] in h.blocks && h.order[i] != h.large
    requires CanMerge(h, h.order[i]) && h.blocks[h.order[i]].left != h.order[i]
    requires End(h.blocks, h.order[i]) in h.blocks && End(h.blocks, h.order[i]) != h.order[i]
    requires End(h.blocks, h.order[i]) != h.blocks[h.order[i]].left
    ensures FreeListOk(Merge(h, i))
    ensures Live(Merge(h, i)) == Live(h)
  {
    WithoutFacts(h.order, i);
    var h' := Merge(h, i);
    assert h.order[i] in h.order;
    forall a {:trigger a in h'.order} ensures a in h'.order <==> IsFreeBlock(h', a) {
      assert a in h.order <==> IsFreeBlock(h, a);
    }
  }

  lemma MergeKeepsWellFormed(h: HeapState, i: nat)
    requires WellFormed(h) && i < |h.order| && h.order[i] in h.blocks
    requires CanMerge(h, h.order[i])
    ensures Placed(h.blocks, h.base, h.large, h.order[i]) && h.order[i] != h.large
    ensures h.blocks[h.order[i]].left in Without(h.order, i)
    ensures WellFormed(Merge(h, i))
    ensures Live(Merge(h, i)) == Live(h)
  {
    var c := h.order[i];
    assert c in h.order;
    TiledPlaced(h.blocks, h.base, h.large, c);
    var l := h.blocks[c].left;
    TiledPlaced(h.blocks, h.base, h.large, l);
    assert l in h.order;
    WithoutFacts(h.order, i);
    MergeKeepsTiling(h.blocks, h.base, h.large, c);
    MergeKeepsFreeList(h, i);
  }

  /** An index into the list from which entry i has been taken, and the index its
      entry had before. */
  function Before(i: nat, x: nat): nat {
    if x < i then x else x + 1
  }

  /** Two neighbours after the merge were neighbours before it, or the merged block
      and the right neighbour of its right part. */
  lemma MergedNeighbours(h: HeapState, i: nat, x: nat, y: nat)
    requires WellFormed(h) && i < |h.order| && h.order[i] in h.blocks && CanMerge(h, h.order[i])
    requires Placed(h.blocks, h.base, h.large, h.order[i]) && h.order[i] != h.large
    requires x < |h.order| - 1 && y < |h.order| - 1
    requires var h' := Merge(h, i); h'.order[x] in h'.blocks && End(h'.blocks, h'.order[x]) == h'.order[y]
    ensures var h' := Merge(h, i);
            && h.order[Before(i, x)] in h.blocks
            && h'.order[y] == h.order[Before(i, y)] && h.order[Before(i, y)] in h.blocks
            && (h'.order[y] in h'.blocks ==> h.blocks[h.order[Before(i, y)]].size <= h'.blocks[h'.order[y]].size)
            && if h.order[Before(i, x)] == h.blocks[h.order[i]].left
               then End(h.blocks, h.order[i]) == h.order[Before(i, y)]
               else End(h.blocks, h.order[Before(i, x)]) == h.order[Before(i, y)]
  {
    WithoutFacts(h.order, i);
    assert h.order[Before(i, x)] in h.order && h.order[Before(i, y)] in h.order;
  }

  /** The left neighbour of a block that is merged stands before it. */
  lemma MergeGoesBack(h: HeapState, i: nat, need: nat)
    requires WellFormed(h) && OrderedFor(h, need) && i < |h.order| && h.order[i] in h.blocks
    requires CanMerge(h, h.order[i]) && h.blocks[h.order[i]].size < need
    requires Placed(h.blocks, h.base, h.large, h.order[i]) && h.blocks[h.order[i]].left in Without(h.order, i)
    ensures IndexOf(Without(h.order, i), h.blocks[h.order[i]].left) < i
  {
    var l := h.blocks[h.order[i]].left;
    WithoutFacts(h.order, i);
    var k := IndexOf(h.order, l);
    assert End(h.blocks, h.order[k]) == h.order[i];
    assert Without(h.order, i)[k] == l;
  }

  lemma MergeKeepsOrder(h: HeapState, i: nat, need: nat)
    requires WellFormed(h) && i < |h.order| && h.order[i] in h.blocks
    requires CanMerge(h, h.order[i]) && h.blocks[h.order[i]].size < need
    requires Placed(h.blocks, h.base, h.large, h.order[i]) && h.order[i] != h.large
    requires h.blocks[h.order[i]].left in Without(h.order, i)
    ensures Ordered(h) ==> Ordered(Merge(h, i))
    ensures OrderedFor(h, need) ==> OrderedFor(Merge(h, i), need)
  {
    hide Tiled, IndexOf;
    var h' := Merge(h, i);
    WithoutFacts(h.order, i);
    if OrderedFor(h, need) {
      MergeGoesBack(h, i, need);
    }
    forall x: nat, y: nat | x < |h'.order| && y < |h'.order| && h'.order[x] in h'.blocks
                  && End(h'.blocks, h'.order[x]) == h'.order[y]
      ensures Ordered(h) ==> x < y
      ensures OrderedFor(h, need) && h'.order[y] in h'.blocks && h'.blocks[h'.order[y]].size < need ==> x < y
    {
      MergedNeighbours(h, i, x, y);
    }
  }

  // The search of the free list

  datatype ScanResult = ScanResult(heap: HeapState, hit: Option<nat>)

  /** The cursor stands at index i of the free list. A block that is too small
      is merged into its free left neighbour, and the cursor moves behind that
      neighbour wherever in the list it is; it is not looked at again. */
  function Scan(h: HeapState, i: nat, need: nat): ScanResult
    requires WellFormed(h) && i <= |h.order|
    decreases |h.order|, |h.order| - i
  {
    if i == |h.order| then
      ScanResult(h, None)
    else
      var c := h.order[i];
      assert c in h.order;
      if h.blocks[c].size >= need then
        ScanResult(h, Some(i))
      else if CanMerge(h, c) then
        MergeKeepsWellFormed(h, i);
        Scan(Merge(h, i), IndexOf(Without(h.order, i), h.blocks[c].left) + 1, need)
      else
        Scan(h, i + 1, need)
  }

  /** One turn of the scan past a block that is too small: the cursor then stands
      behind entry i'. */
  lemma ScanStep(h: HeapState, i: nat, need: nat, h': HeapState, last: nat) returns (i': nat)
    requires WellFormed(h) && i < |h.order| && h.order[i] in h.blocks
    requires h.blocks[h.order[i]].size < need
    requires Placed(h.blocks, h.base, h.large, h.order[i]) && h.order[i] != h.large
    requires if CanMerge(h, h.order[i])
             then h' == Merge(h, i) && last == h.blocks[h.order[i]].left
             else h' == h && last == h.order[i]
    ensures WellFormed(h') && i' < |h'.order| && h'.order[i'] == last
    ensures Scan(h', i' + 1, need) == Scan(h, i, need)
    ensures h'.large == h.large && h'.remaining == h.remaining
    ensures |h'.order| < |h.order| || (|h'.order| == |h.order| && i' == i)
  {
    i' := i;
    if CanMerge(h, h.order[i]) {
      MergeKeepsWellFormed(h, i);
      i' := IndexOf(Without(h.order, i), last);
    }
  }

  lemma {:induction false} ScanKeeps(h: HeapState, i: nat, need: nat)
    requires WellFormed(h) && i <= |h.order|
    ensures var r := Scan(h, i, need);
            && WellFormed(r.heap) && Live(r.heap) == Live(h)
            && r.heap.base == h.base && r.heap.large == h.large && r.heap.remaining == h.remaining
            && (Ordered(h) ==> Ordered(r.heap))
            && (r.hit.Some? ==>
                  && r.hit.value < |r.heap.order|
                  && r.heap.order[r.hit.value] in r.heap.blocks
                  && r.heap.blocks[r.heap.order[r.hit.value]].size >= need)
    decreases |h.order|, |h.order| - i
  {
    if i < |h.order| {
      var c := h.order[i];
      assert c in h.order;
      if h.blocks[c].size < need {
        if CanMerge(h, c) {
          MergeKeepsWellFormed(h, i);
          MergeKeepsOrder(h, i, need);
          ScanKeeps(Merge(h, i), IndexOf(Without(h.order, i), h.blocks[c].left) + 1, need);
        } else {
          ScanKeeps(h, i + 1, need);
        }
      }
    }
  }

  /** A merge leaves the other blocks, or makes one larger. */
  lemma FitSurvives(h: HeapState, i: nat, k: nat)
    requires WellFormed(h) && i < k < |h.order| && h.order[i] in h.blocks && h.order[k] in h.blocks
    requires CanMerge(h, h.order[i])
    requires Placed(h.blocks, h.base, h.large, h.order[i]) && h.order[i] != h.large
    ensures var h' := Merge(h, i);
            && h'.order[k - 1] == h.order[k] && h.order[k] in h'.blocks
            && h'.blocks[h.order[k]].size >= h.blocks[h.order[k]].size
  {
    assert h.order[k] != h.order[i];
  }

  /** While the blocks too small for the request are ordered the cursor only ever
      jumps back, so a block that is large enough is found. */
  lemma {:induction false} ScanFinds(h: HeapState, i: nat, need: nat, k: nat)
    requires WellFormed(h) && OrderedFor(h, need)
    requires i <= k < |h.order| && h.order[k] in h.blocks
    requires h.blocks[h.order[k]].size >= need
    ensures Scan(h, i, need).hit.Some?
    decreases |h.order|, |h.order| - i
  {
    hide OrderedFor, Ordered, IndexOf, Tiled;
    var c := h.order[i];
    assert c in h.order;
    if h.blocks[c].size < need {
      if CanMerge(h, c) {
        MergeKeepsWellFormed(h, i);
        MergeKeepsOrder(h, i, need);
        MergeGoesBack(h, i, need);
        FitSurvives(h, i, k);
        ScanFinds(Merge(h, i), IndexOf(Without(h.order, i), h.blocks[c].left) + 1, need, k - 1);
      } else {
        ScanFinds(h, i + 1, need, k);
      }
    }
  }

  // Allocation

  function Align(n: nat): nat {
    n + (ALIGNMENT - n % ALIGNMENT)
  }

  predicate Splits(h: HeapState, b: nat, need: nat)
    requires b in h.blocks
  {
    h.blocks[b].size >= need + MINIMUM_BLOCK_SIZE + BLOCK
  }

  function TakenSize(h: HeapState, b: nat, need: nat): nat
    requires b in h.blocks
  {
    if Splits(h, b, need) then need else h.blocks[b].size
  }

  /** The block at index i of the free list is taken; what is left of it, if
      that is worth a block, stays free in its place. */
  function Take(h: HeapState, i: nat, need: nat): HeapState
    requires i < |h.order| && h.order[i] in h.blocks
    requires need <= h.blocks[h.order[i]].size && End(h.blocks, h.order[i]) in h.blocks
  {
    var b := h.order[i];
    if Splits(h, b, need) then
      h.(blocks := SetFreeTable(SpliceTable(h.blocks, b, need), b, false),
         order := h.order[i := b + BLOCK + need])
    else
      h.(blocks := SetFreeTable(h.blocks, b, false), order := Without(h.order, i))
  }

  lemma TakeSplitKeeps(h: HeapState, i: nat, need: nat)
    requires WellFormed(h) && i < |h.order| && h.order[i] in h.blocks && h.order[i] != h.large
    requires Placed(h.blocks, h.base, h.large, h.order[i])
    requires 0 < need && need % ALIGNMENT == 0 && Splits(h, h.order[i], need)
    ensures WellFormed(Take(h, i, need))
    ensures Live(Take(h, i, need)) == Live(h)[h.order[i] := need]
  {
    var b := h.order[i];
    var h' := Take(h, i, need);
    var rest := b + BLOCK + need;
    assert b in h.order;
    SpliceKeepsTiling(h.blocks, h.base, h.large, b, need);
    SetFreeKeepsTiling(SpliceTable(h.blocks, b, need), h.base, h.large, b, false);
    assert rest !in h.order;
    forall a {:trigger a in h'.order} ensures a in h'.order <==> IsFreeBlock(h', a) {
      assert a in h.order <==> IsFreeBlock(h, a);
      if a in h'.order && a != rest {
        assert a in h.order && a != b;
      }
      if a in h.order && a != b {
        var k := IndexOf(h.order, a);
        assert h'.order[k] == a;
      }
      assert h'.order[i] == rest;
    }
    assert Live(h') == Live(h)[b := need];
  }

  lemma TakeKeeps(h: HeapState, i: nat, need: nat)
    requires WellFormed(h) && i < |h.order| && h.order[i] in h.blocks
    requires 0 < need <= h.blocks[h.order[i]].size && need % ALIGNMENT == 0
    ensures Placed(h.blocks, h.base, h.large, h.order[i]) && h.order[i] != h.large
    ensures WellFormed(Take(h, i, need))
    ensures h.order[i] !in Live(h)
    ensures need <= TakenSize(h, h.order[i], need) < need + MINIMUM_BLOCK_SIZE + BLOCK
    ensures Live(Take(h, i, need)) == Live(h)[h.order[i] := TakenSize(h, h.order[i], need)]
  {
    var b := h.order[i];
    assert b in h.order;
    TiledPlaced(h.blocks, h.base, h.large, b);
    WithoutFacts(h.order, i);
    var h' := Take(h, i, need);
    if Splits(h, b, need) {
      TakeSplitKeeps(h, i, need);
    } else {
      SetFreeKeepsTiling(h.blocks, h.base, h.large, b, false);
      forall a {:trigger a in h'.order} ensures a in h'.order <==> IsFreeBlock(h', a) {
        assert a in h.order <==> IsFreeBlock(h, a);
      }
    }
  }

  /** With a spare of 32 bytes, for a header and at least 16 bytes, the block is
      split: it has the wanted size and its rest has its place in the list. With
      less it is taken whole. */
  lemma TakeSplitsIff(h: HeapState, i: nat, need: nat)
    requires WellFormed(h) && i < |h.order| && h.order[i] in h.blocks
    requires 0 < need <= h.blocks[h.order[i]].size && need % ALIGNMENT == 0
    ensures Placed(h.blocks, h.base, h.large, h.order[i]) && h.order[i] != h.large
    ensures var b, h' := h.order[i], Take(h, i, need);
            var spare := h.blocks[b].size - need;
            && b in h'.blocks
            && if spare >= 32
               then
                 && h'.order == h.order[..i] + [b + 16 + need] + h.order[i + 1..]
                 && b + 16 + need in h'.blocks && h'.blocks[b + 16 + need].size == spare - 16 >= 16
                 && h'.blocks[b].size == need
               else h'.order == h.order[..i] + h.order[i + 1..] && h'.blocks[b].size == h.blocks[b].size
  {
    TakeKeeps(h, i, need);
  }

  lemma TakeKeepsOrder(h: HeapState, i: nat, need: nat)
    requires WellFormed(h) && Ordered(h) && i < |h.order| && h.order[i] in h.blocks
    requires 0 < need <= h.blocks[h.order[i]].size && need % ALIGNMENT == 0
    requires Placed(h.blocks, h.base, h.large, h.order[i]) && h.order[i] != h.large
    ensures Ordered(Take(h, i, need))
  {
    var b, h' := h.order[i], Take(h, i, need);
    var split, rest := Splits(h, b, need), b + BLOCK + need;
    forall x, y | 0 <= x < |h'.order| && 0 <= y < |h'.order| && h'.order[x] in h'.blocks
      ensures End(h'.blocks, h'.order[x]) == h'.order[y] ==> x < y
    {
      var x0 := if split || x < i then x else x + 1;
      var y0 := if split || y < i then y else y + 1;
      assert h.order[x0] in h.order && h.order[y0] in h.order;
      TiledApart(h.blocks, h.base, h.large, h.order[x0], b);
      TiledApart(h.blocks, h.base, h.large, b, h.order[x0]);
      TiledApart(h.blocks, h.base, h.large, b, h.order[y0]);
    }
  }

  // The sentinel

  /** The sentinel gets more than `needed` bytes and a header; None when the
      pages are refused. */
  function Grow(h: HeapState, needed: nat, reservation: nat, protect: bool): Option<HeapState> {
    var required := needed + LARGE;
    if h.remaining <= required then
      var extra := required - h.remaining + COMMIT_SLACK;
      if Committed(h) + extra > reservation || !protect then None
      else Some(h.(remaining := h.remaining + extra))
    else
      Some(h)
  }

  function Carve(h: HeapState, size: nat): HeapState
    requires h.large in h.blocks && size + BLOCK <= h.remaining
  {
    h.(blocks := CarveTable(h.blocks, h.large, size),
       large := h.large + BLOCK + size,
       remaining := h.remaining - size - BLOCK)
  }

  lemma CarveKeeps(h: HeapState, size: nat)
    requires WellFormed(h) && size + BLOCK <= h.remaining
    requires 0 < size < INT_MAX && size % ALIGNMENT == 0
    ensures WellFormed(Carve(h, size))
    ensures h.large !in Live(h) && Live(Carve(h, size)) == Live(h)[h.large := size]
    ensures Committed(Carve(h, size)) == Committed(h)
    ensures Ordered(h) ==> Ordered(Carve(h, size))
  {
    var h' := Carve(h, size);
    CarveKeepsTiling(h.blocks, h.base, h.large, size);
    forall a {:trigger a in h'.order} ensures a in h'.order <==> IsFreeBlock(h', a) {
      assert a in h.order <==> IsFreeBlock(h, a);
    }
    if Ordered(h) {
      forall i, j | 0 <= i < |h'.order| && 0 <= j < |h'.order| && h'.order[i] in h'.blocks
        ensures End(h'.blocks, h'.order[i]) == h'.order[j] ==> i < j
      {
        assert h.order[i] in h.order;
      }
    }
  }

  // Alloc

  datatype AllocResult = AllocResult(heap: HeapState, block: Option<nat>)

  function Allocate(h: HeapState, n: nat, reservation: nat, protect: bool): AllocResult
    requires WellFormed(h)
  {
    var need := Align(n);
    var found := Scan(h, 0, need);
    ScanKeeps(h, 0, need);
    match found.hit
    case Some(i) =>
      TakeKeeps(found.heap, i, need);
      AllocResult(Take(found.heap, i, need), Some(found.heap.order[i]))
    case None =>
      match Grow(found.heap, need, reservation, protect)
      case None => AllocResult(found.heap, None)
      case Some(grown) => AllocResult(Carve(grown, need), Some(h.large))
  }

  lemma AlignFacts(n: nat)
    ensures n < Align(n) <= n + 8 && Align(n) % 8 == 0
  {
  }

  lemma TakeAligned(h: HeapState, i: nat, need: nat)
    requires WellFormed(h) && i < |h.order| && h.order[i] in h.blocks
    requires 0 < need <= h.blocks[h.order[i]].size && need % ALIGNMENT == 0
    ensures TakenSize(h, h.order[i], need) <= need + 24
  {
    assert h.order[i] in h.order;
    TiledPlaced(h.blocks, h.base, h.large, h.order[i]);
  }

  /** Every allocation gives a fresh block that exceeds the request by 1 to 32
      bytes and leaves the live ones alone; a failed one changes none. */
  lemma AllocateKeeps(h: HeapState, n: nat, reservation: nat, protect: bool)
    requires WellFormed(h) && n + ALIGNMENT < INT_MAX
    ensures var r := Allocate(h, n, reservation, protect);
            && WellFormed(r.heap) && r.heap.base == h.base
            && (Ordered(h) ==> Ordered(r.heap))
            && (r.block.None? ==>
                  && Live(r.heap) == Live(h)
                  && r.heap.large == h.large && r.heap.remaining == h.remaining)
            && (r.block.Some? ==>
                  && r.block.value !in Live(h)
                  && r.block.value in Live(r.heap)
                  && n < Live(r.heap)[r.block.value] <= n + 32
                  && Live(r.heap) == Live(h)[r.block.value := Live(r.heap)[r.block.value]])
  {
    var need := Align(n);
    var found := Scan(h, 0, need);
    ScanKeeps(h, 0, need);
    match found.hit
    case Some(i) =>
      TakeKeeps(found.heap, i, need);
      if Ordered(h) {
        TakeKeepsOrder(found.heap, i, need);
      }
      TakeAligned(found.heap, i, need);
    case None =>
      match Grow(found.heap, need, reservation, protect)
      case None =>
      case Some(grown) =>
        CarveKeeps(grown, need);
  }

  /** A block from the sentinel has the wanted size; a free one that is found has
      it too, or less than 32 bytes to spare. */
  predicate Tight(found: ScanResult, n: nat, size: nat) {
    var need := n + (8 - n % 8);
    match found.hit
    case None => size == need
    case Some(i) =>
      && i < |found.heap.order| && found.heap.order[i] in found.heap.blocks
      && var whole := found.heap.blocks[found.heap.order[i]].size;
         size == if whole < need + 32 then whole else need
  }

  lemma AllocateTight(h: HeapState, n: nat, reservation: nat, protect: bool)
    requires WellFormed(h) && n + ALIGNMENT < INT_MAX
    ensures var r := Allocate(h, n, reservation, protect);
            r.block.Some? ==>
              r.block.value in Live(r.heap) && Tight(Scan(h, 0, Align(n)), n, Live(r.heap)[r.block.value])
  {
    var found := Scan(h, 0, Align(n));
    ScanKeeps(h, 0, Align(n));
    match found.hit
    case Some(i) =>
      TakeKeeps(found.heap, i, Align(n));
    case None =>
      match Grow(found.heap, Align(n), reservation, protect)
      case None =>
      case Some(grown) => CarveKeeps(grown, Align(n));
  }

  /** What must be committed before `need` bytes and a header can come from the
      sentinel: up to 24 bytes for its own header, and 1000 more. */
  function Shortage(h: HeapState, need: nat): nat {
    if h.remaining <= need + 24 then need + 24 - h.remaining + 1000 else 0
  }

  predicate Affordable(h: HeapState, need: nat, reservation: nat, protect: bool) {
    Shortage(h, need) == 0 || (Committed(h) + Shortage(h, need) <= reservation && protect)
  }

  /** An allocation for which no free block is found fails exactly when memory must
      be committed and is not to be had, and else commits exactly that much. */
  lemma AllocateFromEndIff(h: HeapState, n: nat, reservation: nat, protect: bool)
    requires WellFormed(h) && n + ALIGNMENT < INT_MAX && Scan(h, 0, Align(n)).hit == None
    ensures var r, need := Allocate(h, n, reservation, protect), n + (8 - n % 8);
            && (r.block.Some? <==> Affordable(h, need, reservation, protect))
            && (r.block.Some? ==> r.block == Some(h.large) && Committed(r.heap) == Committed(h) + Shortage(h, need))
  {
    ScanKeeps(h, 0, Align(n));
  }

  /** Memory is never committed, nor the sentinel moved, while a free block would
      do and the blocks too small for the request are ordered. */
  lemma AllocateReuses(h: HeapState, n: nat, reservation: nat, protect: bool, b: nat)
    requires WellFormed(h) && OrderedFor(h, Align(n))
    requires IsFreeBlock(h, b) && h.blocks[b].size >= Align(n)
    ensures var r := Allocate(h, n, reservation, protect);
            r.block.Some? && r.heap.large == h.large && r.heap.remaining == h.remaining
  {
    assert b in h.order;
    ScanKeeps(h, 0, Align(n));
    ScanFinds(h, 0, Align(n), IndexOf(h.order, b));
  }

  /** Whatever the free list looks like, a request succeeds when the reservation
      has room for it and the system grants pages. */
  lemma AllocateSucceeds(h: HeapState, n: nat, reservation: nat)
    requires WellFormed(h)
    requires Committed(h) + Align(n) + LARGE + COMMIT_SLACK <= reservation
    ensures Allocate(h, n, reservation, true).block.Some?
  {
    ScanKeeps(h, 0, Align(n));
  }

  // Free

  /** FreeImpl merges without looking at the size, so the assertion in
      EatLeftBlock fails, and HCF is reached, exactly here. */
  predicate FreeHalts(h: HeapState, b: nat)
    requires b in h.blocks
  {
    LeftIsFree(h, b) && h.blocks[h.blocks[b].left].size + h.blocks[b].size + BLOCK >= INT_MAX
  }

  ghost predicate SomeFreeHalts(h: HeapState) {
    exists b :: b in Live(h) && b in h.blocks && FreeHalts(h, b)
  }

  /** The block becomes part of its free left neighbour, or the head of the
      free list. */
  function Release(h: HeapState, b: nat): HeapState
    requires b in h.blocks && End(h.blocks, b) in h.blocks
  {
    if LeftIsFree(h, b) then
      h.(blocks := MergeTable(h.blocks, b))
    else
      h.(blocks := SetFreeTable(h.blocks, b, true), order := [b] + h.order)
  }

  lemma ReleaseKeeps(h: HeapState, b: nat)
    requires WellFormed(h) && b in Live(h) && !FreeHalts(h, b)
    ensures Placed(h.blocks, h.base, h.large, b)
    ensures WellFormed(Release(h, b))
    ensures Live(Release(h, b)) == Live(h) - {b}
  {
    TiledPlaced(h.blocks, h.base, h.large, b);
    var h' := Release(h, b);
    assert b !in h.order;
    if LeftIsFree(h, b) {
      var l := h.blocks[b].left;
      TiledPlaced(h.blocks, h.base, h.large, l);
      MergeKeepsTiling(h.blocks, h.base, h.large, b);
      forall a {:trigger a in h'.order} ensures a in h'.order <==> IsFreeBlock(h', a) {
        assert a in h.order <==> IsFreeBlock(h, a);
      }
    } else {
      SetFreeKeepsTiling(h.blocks, h.base, h.large, b, true);
      forall a {:trigger a in h'.order} ensures a in h'.order <==> IsFreeBlock(h', a) {
        assert a in h.order <==> IsFreeBlock(h, a);
        assert h'.order[0] == b;
        assert h'.order[1..] == h.order;
      }
    }
  }

  /** A freed block without a free left neighbour is the next to be taken by a
      request that it is large enough for. */
  lemma FreedIsNext(h: HeapState, b: nat, n: nat, reservation: nat, protect: bool)
    requires WellFormed(h) && b in Live(h) && !LeftIsFree(h, b) && Align(n) <= Live(h)[b]
    ensures !FreeHalts(h, b) && Placed(h.blocks, h.base, h.large, b) && WellFormed(Release(h, b))
    ensures Allocate(Release(h, b), n, reservation, protect).block == Some(b)
    ensures Release(h, b).order == [b] + h.order && Release(h, b).blocks.Keys == h.blocks.Keys
  {
    ReleaseKeeps(h, b);
  }

  /** One with a free left neighbour makes that larger, which keeps its place in
      the list; the block on the right is left alone. */
  lemma FreedJoinsLeft(h: HeapState, b: nat)
    requires WellFormed(h) && b in Live(h) && LeftIsFree(h, b) && !FreeHalts(h, b)
    ensures Placed(h.blocks, h.base, h.large, b)
    ensures var l, right, h' := h.blocks[b].left, End(h.blocks, b), Release(h, b);
            && h'.order == h.order && b !in h'.blocks
            && l in h'.blocks && h'.blocks[l].size == h.blocks[l].size + 16 + h.blocks[b].size
            && right in h'.blocks && h'.blocks[right].size == h.blocks[right].size && h'.blocks[right].free == h.blocks[right].free
  {
    ReleaseKeeps(h, b);
    TiledPlaced(h.blocks, h.base, h.large, h.blocks[b].left);
  }

  /** None when HCF is reached. */
  function FreeResult(h: HeapState, b: nat): Option<HeapState>
    requires WellFormed(h) && b in Live(h)
  {
    if FreeHalts(h, b) then None
    else
      ReleaseKeeps(h, b);
      Some(Release(h, b))
  }

  /** The one way an ordered heap loses its order: a block is freed between two
      free neighbours of which the right one is earlier in the list. */
  predicate BridgesBackwards(h: HeapState, b: nat)
    requires b in h.blocks
  {
    && LeftIsFree(h, b)
    && End(h.blocks, b) in h.order && h.blocks[b].left in h.order
    && IndexOf(h.order, End(h.blocks, b)) < IndexOf(h.order, h.blocks[b].left)
  }

  lemma ReleaseMergesInOrder(h: HeapState, b: nat)
    requires WellFormed(h) && Ordered(h) && b in Live(h) && LeftIsFree(h, b)
    requires Placed(h.blocks, h.base, h.large, b)
    requires !BridgesBackwards(h, b)
    ensures Ordered(Release(h, b))
  {
    var h' := Release(h, b);
    var l, right := h.blocks[b].left, End(h.blocks, b);
    assert b !in h.order;
    forall x, y | 0 <= x < |h'.order| && 0 <= y < |h'.order| && h'.order[x] in h'.blocks
      ensures End(h'.blocks, h'.order[x]) == h'.order[y] ==> x < y
    {
      assert h.order[x] in h.order && h.order[y] in h.order;
      if h.order[x] == l {
        if h.order[y] == right {
          assert x == IndexOf(h.order, l) && y == IndexOf(h.order, right);
        }
      } else {
        assert h'.blocks[h.order[x]].size == h.blocks[h.order[x]].size;
      }
    }
  }

  lemma ReleaseAtHeadInOrder(h: HeapState, b: nat)
    requires WellFormed(h) && Ordered(h) && b in Live(h) && !LeftIsFree(h, b)
    requires Placed(h.blocks, h.base, h.large, b)
    ensures Ordered(Release(h, b))
  {
    var h' := Release(h, b);
    forall x, y | 0 <= x < |h'.order| && 0 <= y < |h'.order| && h'.order[x] in h'.blocks
      ensures End(h'.blocks, h'.order[x]) == h'.order[y] ==> x < y
    {
      if 0 < x {
        assert h.order[x - 1] in h.order;
        TiledPlaced(h.blocks, h.base, h.large, h.order[x - 1]);
      }
    }
  }

  lemma ReleaseKeepsOrderIff(h: HeapState, b: nat)
    requires WellFormed(h) && Ordered(h) && b in Live(h) && !FreeHalts(h, b)
    requires Placed(h.blocks, h.base, h.large, b)
    ensures Ordered(Release(h, b)) <==> !BridgesBackwards(h, b)
  {
    var h' := Release(h, b);
    if BridgesBackwards(h, b) {
      var x, y := IndexOf(h.order, h.blocks[b].left), IndexOf(h.order, End(h.blocks, b));
      assert h'.order[x] in h'.blocks && End(h'.blocks, h'.order[x]) == h'.order[y];
    } else if LeftIsFree(h, b) {
      ReleaseMergesInOrder(h, b);
    } else {
      ReleaseAtHeadInOrder(h, b);
    }
  }

  // Realloc in place

  lemma StretchCarves(h: HeapState, b: nat, lacking: nat)
    requires WellFormed(h) && b in Live(h) && End(h.blocks, b) == h.large
    requires 0 < lacking < INT_MAX && lacking % ALIGNMENT == 0 && lacking + BLOCK <= h.remaining
    ensures var carved := Carve(h, lacking);
            && WellFormed(carved) && Placed(carved.blocks, carved.base, carved.large, h.large)
            && carved.blocks[h.large].left == b && h.large != carved.base
  {
    TiledPlaced(h.blocks, h.base, h.large, b);
    CarveKeeps(h, lacking);
    var carved := Carve(h, lacking);
    TiledPlaced(carved.blocks, carved.base, carved.large, h.large);
  }

  /** A block is carved from the sentinel and merged into b, the last one. */
  function Stretch(h: HeapState, b: nat, lacking: nat): HeapState
    requires WellFormed(h) && b in Live(h) && End(h.blocks, b) == h.large
    requires 0 < lacking < INT_MAX && lacking % ALIGNMENT == 0 && lacking + BLOCK <= h.remaining
  {
    StretchCarves(h, b, lacking);
    var carved := Carve(h, lacking);
    carved.(blocks := MergeTable(carved.blocks, h.large))
  }

  lemma AbsorbKeeps(h: HeapState, c: nat)
    requires WellFormed(h) && c in Live(h) && Placed(h.blocks, h.base, h.large, c) && c != h.base
    requires h.blocks[c].left in Live(h)
    requires h.blocks[h.blocks[c].left].size + h.blocks[c].size + BLOCK < INT_MAX
    ensures var h' := h.(blocks := MergeTable(h.blocks, c));
            && WellFormed(h')
            && Live(h') == (Live(h) - {c})[h.blocks[c].left := h.blocks[h.blocks[c].left].size + h.blocks[c].size + BLOCK]
            && (Ordered(h) ==> Ordered(h'))
  {
    MergeKeepsTiling(h.blocks, h.base, h.large, c);
    var h' := h.(blocks := MergeTable(h.blocks, c));
    forall a {:trigger a in h'.order} ensures a in h'.order <==> IsFreeBlock(h', a) {
      assert a in h.order <==> IsFreeBlock(h, a);
    }
    if Ordered(h) {
      forall i, j | 0 <= i < |h'.order| && 0 <= j < |h'.order| && h'.order[i] in h'.blocks
        ensures End(h'.blocks, h'.order[i]) == h'.order[j] ==> i < j
      {
        assert h.order[i] in h.order;
        assert End(h'.blocks, h'.order[i]) == End(h.blocks, h.order[i]);
      }
    }
  }

  lemma StretchKeeps(h: HeapState, b: nat, lacking: nat)
    requires WellFormed(h) && b in Live(h) && End(h.blocks, b) == h.large
    requires 0 < lacking && lacking % ALIGNMENT == 0 && lacking + BLOCK <= h.remaining
    requires h.blocks[b].size + lacking + BLOCK < INT_MAX
    ensures var h' := Stretch(h, b, lacking);
            && WellFormed(h') && h'.base == h.base && Committed(h') == Committed(h)
            && (Ordered(h) ==> Ordered(h'))
            && Live(h') == Live(h)[b := h.blocks[b].size + lacking + BLOCK]
  {
    StretchCarves(h, b, lacking);
    CarveKeeps(h, lacking);
    AbsorbKeeps(Carve(h, lacking), h.large);
  }

  lemma LackingFacts(size: nat, n: nat)
    requires size < n && size % ALIGNMENT == 0
    ensures 0 < Align(n) - size && (Align(n) - size) % ALIGNMENT == 0
  {
    AlignFacts(n);
  }

  /** What b lacks comes from the sentinel, which grows first if it must. */
  function Extend(h: HeapState, b: nat, n: nat, reservation: nat, protect: bool): Option<HeapState>
    requires WellFormed(h) && b in Live(h) && End(h.blocks, b) == h.large
    requires h.blocks[b].size < n && n + ALIGNMENT < INT_MAX
  {
    TiledPlaced(h.blocks, h.base, h.large, b);
    LackingFacts(h.blocks[b].size, n);
    var lacking: nat := Align(n) - h.blocks[b].size;
    match Grow(h, lacking, reservation, protect)
    case None => None
    case Some(grown) => Some(Stretch(grown, b, lacking))
  }

  /** Growing the sentinel, then stretching the block. */
  lemma ExtendFacts(h: HeapState, b: nat, n: nat, reservation: nat, protect: bool)
    requires WellFormed(h) && b in Live(h) && End(h.blocks, b) == h.large
    requires h.blocks[b].size < n && n + ALIGNMENT < INT_MAX
    ensures var lacking := Align(n) - h.blocks[b].size;
            && 0 < lacking < INT_MAX && lacking % ALIGNMENT == 0
            && var g := Grow(h, lacking, reservation, protect);
               if g.None? then Extend(h, b, n, reservation, protect) == None
               else
                 && WellFormed(g.value) && Live(g.value) == Live(h) && g.value.blocks == h.blocks && g.value.large == h.large
                 && lacking + BLOCK < g.value.remaining
                 && Extend(h, b, n, reservation, protect) == Some(Stretch(g.value, b, lacking))
  {
    TiledPlaced(h.blocks, h.base, h.large, b);
    LackingFacts(h.blocks[b].size, n);
  }

  lemma GrowKeepsOrder(h: HeapState, needed: nat, reservation: nat, protect: bool)
    ensures var g := Grow(h, needed, reservation, protect);
            g.Some? ==> g.value.base == h.base && (Ordered(h) ==> Ordered(g.value))
  {
  }

  /** The block ends up exactly one header larger than the aligned request. */
  lemma ExtendKeeps(h: HeapState, b: nat, n: nat, reservation: nat, protect: bool)
    requires WellFormed(h) && b in Live(h) && End(h.blocks, b) == h.large
    requires h.blocks[b].size < n && Align(n) + BLOCK < INT_MAX && n + ALIGNMENT < INT_MAX
    ensures var r := Extend(h, b, n, reservation, protect);
            r.Some? ==>
              && WellFormed(r.value) && r.value.base == h.base
              && (Ordered(h) ==> Ordered(r.value))
              && Live(r.value) == Live(h)[b := Align(n) + BLOCK]
  {
    hide Extend, Stretch, Grow, WellFormed, Ordered;
    ExtendFacts(h, b, n, reservation, protect);
    var lacking: nat := Align(n) - h.blocks[b].size;
    var g := Grow(h, lacking, reservation, protect);
    if g.Some? {
      GrowKeepsOrder(h, lacking, reservation, protect);
      StretchKeeps(g.value, b, lacking);
    }
  }

  // Realloc

  datatype ReallocPlan =
    | Stay
    | Extended(heap: HeapState)
    | Moved(block: nat, heap: HeapState)   // b is still live in the heap
    | Refused(heap: HeapState)

  /** What a reallocation of b to n bytes does while it holds the lock. The move
      aligns the request a second time. */
  function PlanRealloc(h: HeapState, b: nat, n: nat, reservation: nat, protect: bool): (plan: ReallocPlan)
    requires WellFormed(h) && b in Live(h) && n <= MAX_REQUEST
    ensures plan.Moved? ==> WellFormed(plan.heap) && b in Live(plan.heap) && plan.block !in Live(h)
  {
    AlignFacts(n);
    if n <= h.blocks[b].size then Stay
    else if End(h.blocks, b) == h.large then
      match Extend(h, b, n, reservation, protect)
      case None => Refused(h)
      case Some(h') => Extended(h')
    else
      AllocateKeeps(h, Align(n), reservation, protect);
      var a := Allocate(h, Align(n), reservation, protect);
      if a.block.None? then Refused(a.heap) else Moved(a.block.value, a.heap)
  }

  /** A block grows in place exactly when it is too small and borders the
      sentinel, and then without a copy. */
  lemma PlanIff(h: HeapState, b: nat, n: nat, reservation: nat, protect: bool)
    requires WellFormed(h) && b in Live(h) && b in h.blocks && n <= MAX_REQUEST
    ensures n > Live(h)[b] ==> n + (8 - n % 8) > Live(h)[b]
    ensures var plan := PlanRealloc(h, b, n, reservation, protect);
            && (plan.Stay? <==> n <= Live(h)[b])
            && (plan.Extended? <==>
                  && n > Live(h)[b] && End(h.blocks, b) == h.large
                  && Affordable(h, n + (8 - n % 8) - Live(h)[b], reservation, protect))
            && (plan.Moved? <==>
                  && n > Live(h)[b] && End(h.blocks, b) != h.large
                  && (Scan(h, 0, Align(Align(n))).hit.Some? || Affordable(h, n + (8 - n % 8) + 8, reservation, protect)))
            && (plan.Extended? ==> b in Live(plan.heap) && Live(plan.heap) == Live(h)[b := n + (8 - n % 8) + 16])
            && (plan.Moved? ==>
                  && plan.block in Live(plan.heap) && plan.block != b
                  && Live(plan.heap) == Live(h)[plan.block := Live(plan.heap)[plan.block]]
                  && Tight(Scan(h, 0, Align(Align(n))), n + (8 - n % 8), Live(plan.heap)[plan.block]))
  {
    AlignFacts(n);
    if n > h.blocks[b].size {
      if End(h.blocks, b) == h.large {
        ExtendKeeps(h, b, n, reservation, protect);
        ExtendFacts(h, b, n, reservation, protect);
      } else {
        AllocateKeeps(h, Align(n), reservation, protect);
        AllocateTight(h, Align(n), reservation, protect);
        ScanKeeps(h, 0, Align(Align(n)));
      }
    }
  }

  /** A heap over a fresh commit is one sentinel. */
  function Initial(base: nat, commit: nat): HeapState
    requires LARGE <= commit
  {
    HeapState(base, base, commit - LARGE, map[base := Info(0, true, 0)], [])
  }

  lemma InitialWellFormed(base: nat, commit: nat)
    requires LARGE <= commit && 0 < base && base % ALIGNMENT == 0
    ensures WellFormed(Initial(base, commit)) && Ordered(Initial(base, commit))
    ensures Live(Initial(base, commit)) == map[] && Committed(Initial(base, commit)) == commit
  {
  }
}
