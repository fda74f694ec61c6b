// What the heap's invariant means, over every run of its operations, and where
// the code falls short of it.
module HeapProperties {
  import opened BlockTable
  import opened FirstFits
  import opened HeapModel
  import opened Wrappers

  // The blocks as a walk from the left

  /** The blocks met by following RightBlock from a up to the sentinel. */
  ghost function WalkFrom(t: Table, base: nat, large: nat, a: nat): seq<nat>
    requires Tiled(t, base, large) && a in t && a <= large
    decreases large - a
  {
    if a == large then [] else
      TiledPlaced(t, base, large, a);
      TiledPlaced(t, base, large, End(t, a));
      [a] + WalkFrom(t, base, large, End(t, a))
  }

  ghost function Footprints(t: Table, blocks: seq<nat>): nat
    requires forall b <- blocks :: b in t
  {
    if blocks == [] then 0 else BLOCK + t[blocks[0]].size + Footprints(t, blocks[1..])
  }

  /** A walk meets every block from its start on, once, in address order, and
      nothing but blocks. */
  lemma {:induction false} WalkMeetsAll(t: Table, base: nat, large: nat, a: nat)
    requires Tiled(t, base, large) && a in t && a <= large
    ensures forall b {:trigger b in WalkFrom(t, base, large, a)} ::
              b in WalkFrom(t, base, large, a) <==> b in t && a <= b < large
    ensures var w := WalkFrom(t, base, large, a); forall i, j :: 0 <= i < j < |w| ==> w[i] < w[j]
    ensures Footprints(t, WalkFrom(t, base, large, a)) == large - a
    decreases large - a
  {
    if a < large {
      TiledPlaced(t, base, large, a);
      var right := End(t, a);
      TiledPlaced(t, base, large, right);
      WalkMeetsAll(t, base, large, right);
      var w, rest := WalkFrom(t, base, large, a), WalkFrom(t, base, large, right);
      assert w == [a] + rest && w[1..] == rest;
      forall b ensures b in w <==> b in t && a <= b < large {
        if b in t && a <= b < large && b != a {
          TiledApart(t, base, large, a, b);
          assert b in rest;
        }
        if b in rest {
          assert b in t && right <= b < large;
        }
      }
      forall i | 0 <= i < |rest| ensures a < rest[i] {
        assert rest[i] in rest;
      }
    }
  }

  /** Every committed byte belongs to a block, to the sentinel's header or to
      the space the sentinel has left. */
  lemma Conservation(h: HeapState)
    requires WellFormed(h)
    ensures h.base <= h.large
    ensures var w := WalkFrom(h.blocks, h.base, h.large, h.base);
            && (forall b {:trigger b in w} :: b in w <==> b in h.blocks && b != h.large)
            && Footprints(h.blocks, w) + LARGE + h.remaining == Committed(h)
  {
    TiledPlaced(h.blocks, h.base, h.large, h.large);
    WalkMeetsAll(h.blocks, h.base, h.large, h.base);
    forall b ensures b in h.blocks && b != h.large <==> b in h.blocks && h.base <= b < h.large {
      if b in h.blocks {
        TiledPlaced(h.blocks, h.base, h.large, b);
      }
    }
  }

  /** The payloads of two live blocks have no byte in common, and all lie in the
      committed part of the reservation, on multiples of 8. */
  lemma LiveRegionsDisjoint(h: HeapState, a: nat, b: nat)
    requires WellFormed(h) && a in Live(h) && b in Live(h) && a < b
    ensures a + BLOCK + Live(h)[a] <= b
    ensures h.base <= a && b + BLOCK + Live(h)[b] <= h.large < h.base + Committed(h) - h.remaining
    ensures (a + BLOCK) % ALIGNMENT == 0 && Live(h)[a] % ALIGNMENT == 0
  {
    TiledPlaced(h.blocks, h.base, h.large, a);
    TiledPlaced(h.blocks, h.base, h.large, b);
    TiledPlaced(h.blocks, h.base, h.large, End(h.blocks, b));
    TiledApart(h.blocks, h.base, h.large, a, b);
  }

  /** The guard of MergeBlockIfPossible allows a sum of INT_MAX, the assertion in
      EatLeftBlock does not; they agree because no sum of block sizes is odd. */
  lemma MergeGuardIsAssertion(h: HeapState, c: nat)
    requires WellFormed(h) && IsFreeBlock(h, c) && LeftIsFree(h, c)
    ensures CanMerge(h, c) <==> h.blocks[c].size + h.blocks[h.blocks[c].left].size + 16 < 0x7FFF_FFFF
  {
    TiledPlaced(h.blocks, h.base, h.large, c);
    TiledPlaced(h.blocks, h.base, h.large, h.blocks[c].left);
  }

  /** Sizes fit the 31 bits and left offsets the 32 bits their fields have. */
  lemma FieldsFit(h: HeapState, a: nat)
    requires WellFormed(h) && a in h.blocks
    ensures h.blocks[a].size < FREE_BIT
    ensures h.blocks[a].left != 0 ==> 0 < a - h.blocks[a].left < 2 * FREE_BIT
  {
    TiledPlaced(h.blocks, h.base, h.large, a);
    if a != h.base {
      TiledPlaced(h.blocks, h.base, h.large, h.blocks[a].left);
    }
  }

  // Runs

  /** One call, as it acts under the heap's lock. A reallocation that moves is a
      CallAlloc of the aligned size followed by a CallFree. */
  datatype Call =
    | CallAlloc(numBytes: nat, protect: bool)
    | CallFree(block: nat)
    | CallExtend(block: nat, newSize: nat, protect: bool)

  /** None when HCF is reached. A call its contract forbids changes nothing. */
  function Step(h: HeapState, call: Call, reservation: nat): Option<HeapState>
    requires WellFormed(h)
  {
    match call
    case CallAlloc(n, protect) =>
      Some(if 0 < n <= MAX_REQUEST + ALIGNMENT then Allocate(h, n, reservation, protect).heap else h)
    case CallFree(b) =>
      if b !in Live(h) then Some(h)
      else FreeResult(h, b)
    case CallExtend(b, n, protect) =>
      if b in Live(h) && n <= MAX_REQUEST && h.blocks[b].size < n && End(h.blocks, b) == h.large
      then match Extend(h, b, n, reservation, protect) case Some(h') => Some(h') case None => Some(h)
      else Some(h)
  }

  lemma AllocateCommits(h: HeapState, n: nat, reservation: nat, protect: bool)
    requires WellFormed(h) && Committed(h) <= reservation && n + ALIGNMENT < INT_MAX
    ensures Committed(h) <= Committed(Allocate(h, n, reservation, protect).heap) <= reservation
  {
    ScanKeeps(h, 0, Align(n));
  }

  lemma ExtendCommits(h: HeapState, b: nat, n: nat, reservation: nat, protect: bool)
    requires WellFormed(h) && Committed(h) <= reservation && b in Live(h) && End(h.blocks, b) == h.large
    requires h.blocks[b].size < n && Align(n) + BLOCK < INT_MAX && n + ALIGNMENT < INT_MAX
    ensures var r := Extend(h, b, n, reservation, protect);
            r.Some? ==> Committed(h) <= Committed(r.value) <= reservation
  {
    TiledPlaced(h.blocks, h.base, h.large, b);
    LackingFacts(h.blocks[b].size, n);
    var lacking: nat := Align(n) - h.blocks[b].size;
    var g := Grow(h, lacking, reservation, protect);
    if g.Some? {
      assert Extend(h, b, n, reservation, protect) == Some(Stretch(g.value, b, lacking));
    }
  }

  lemma StepKeeps(h: HeapState, call: Call, reservation: nat)
    requires WellFormed(h) && Committed(h) <= reservation
    ensures var r := Step(h, call, reservation);
            r.Some? ==>
              && WellFormed(r.value) && r.value.base == h.base
              && Committed(h) <= Committed(r.value) <= reservation
  {
    match call
    case CallAlloc(n, protect) =>
      if 0 < n <= MAX_REQUEST + ALIGNMENT {
        AllocateKeeps(h, n, reservation, protect);
        AllocateCommits(h, n, reservation, protect);
      }
    case CallFree(b) =>
      if b in Live(h) && !FreeHalts(h, b) {
        ReleaseKeeps(h, b);
      }
    case CallExtend(b, n, protect) =>
      if b in Live(h) && n <= MAX_REQUEST && h.blocks[b].size < n && End(h.blocks, b) == h.large {
        AlignFacts(n);
        ExtendKeeps(h, b, n, reservation, protect);
        ExtendCommits(h, b, n, reservation, protect);
      }
  }

  function Run(h: HeapState, calls: seq<Call>, reservation: nat): Option<HeapState>
    requires WellFormed(h) && Committed(h) <= reservation
    decreases |calls|
  {
    if calls == [] then Some(h)
    else
      StepKeeps(h, calls[0], reservation);
      match Step(h, calls[0], reservation)
      case None => None
      case Some(h') => Run(h', calls[1..], reservation)
  }

  /** Whatever is called in whatever order, a heap that has not halted is well
      formed, keeps within its reservation and never gives memory back. */
  lemma {:induction false} EveryRunKeeps(h: HeapState, calls: seq<Call>, reservation: nat)
    requires WellFormed(h) && Committed(h) <= reservation
    ensures var r := Run(h, calls, reservation);
            r.Some? ==> WellFormed(r.value) && r.value.base == h.base && Committed(h) <= Committed(r.value) <= reservation
    decreases |calls|
  {
    if calls != [] {
      StepKeeps(h, calls[0], reservation);
      var r := Step(h, calls[0], reservation);
      if r.Some? {
        EveryRunKeeps(r.value, calls[1..], reservation);
      }
    }
  }

  // Where the code falls short

  lemma AllocateFromSentinel(h: HeapState, n: nat, reservation: nat, protect: bool)
    requires WellFormed(h) && h.order == []
    ensures Allocate(h, n, reservation, protect) ==
            match Grow(h, Align(n), reservation, protect)
            case None => AllocResult(h, None)
            case Some(grown) => AllocResult(Carve(grown, Align(n)), Some(h.large))
  {
  }

  /** What every heap reserves. */
  const QUARTER_TERABYTE: nat := 0x40_0000_0000

  /** Free can fail an assertion, and reach HCF, on valid pointers: of two
      neighbours of 1.2 GB the left one is freed first. */
  lemma FreeCanHalt()
    ensures WellFormed(Initial(4096, 25)) && Committed(Initial(4096, 25)) <= QUARTER_TERABYTE
    ensures Run(Initial(4096, 25),
                [CallAlloc(1_200_000_000, true), CallAlloc(1_200_000_000, true), CallFree(4096), CallFree(1_200_004_120)],
                QUARTER_TERABYTE) == None
  {
    var h0 := Initial(4096, 25);
    InitialWellFormed(4096, 25);
    var calls := [CallAlloc(1_200_000_000, true), CallAlloc(1_200_000_000, true), CallFree(4096), CallFree(1_200_004_120)];
    AllocateFromSentinel(h0, 1_200_000_000, QUARTER_TERABYTE, true);
    StepKeeps(h0, calls[0], QUARTER_TERABYTE);
    var h1 := Step(h0, calls[0], QUARTER_TERABYTE).value;
    assert h1.order == [] && h1.large == 1_200_004_120;
    AllocateFromSentinel(h1, 1_200_000_000, QUARTER_TERABYTE, true);
    StepKeeps(h1, calls[1], QUARTER_TERABYTE);
    var h2 := Step(h1, calls[1], QUARTER_TERABYTE).value;
    assert h2.blocks[4096] == Info(1_200_000_008, false, 0) && h2.blocks[1_200_004_120] == Info(1_200_000_008, false, 4096);
    StepKeeps(h2, calls[2], QUARTER_TERABYTE);
    var h3 := Step(h2, calls[2], QUARTER_TERABYTE).value;
    assert h3.blocks[4096].free && h3.blocks[1_200_004_120] == h2.blocks[1_200_004_120];
    assert FreeHalts(h3, 1_200_004_120);
    assert calls[1..][1..][1..] == [calls[3]];
    assert calls[1..][1..] == calls[2..];
  }

  lemma {:induction false} RunConcat(h: HeapState, first: seq<Call>, second: seq<Call>, reservation: nat)
    requires WellFormed(h) && Committed(h) <= reservation
    requires Run(h, first, reservation).Some?
    ensures var mid := Run(h, first, reservation).value;
            && WellFormed(mid) && Committed(mid) <= reservation
            && Run(h, first + second, reservation) == Run(mid, second, reservation)
    decreases |first|
  {
    EveryRunKeeps(h, first, reservation);
    if first == [] {
      assert first + second == second;
    } else {
      StepKeeps(h, first[0], reservation);
      assert (first + second)[1..] == first[1..] + second;
      RunConcat(Step(h, first[0], reservation).value, first[1..], second, reservation);
    }
  }

  /** An allocation for which the sentinel has room. */
  lemma OneBlock(h: HeapState, n: nat) returns (h': HeapState)
    requires WellFormed(h) && h.order == [] && h.remaining > Align(n) + LARGE && Committed(h) <= QUARTER_TERABYTE
    requires 0 < n <= MAX_REQUEST
    ensures Run(h, [CallAlloc(n, false)], QUARTER_TERABYTE) == Some(h')
    ensures WellFormed(h') && Committed(h') == Committed(h) && h' == Carve(h, Align(n))
  {
    AlignFacts(n);
    CarveKeeps(h, Align(n));
    AllocateFromSentinel(h, n, QUARTER_TERABYTE, false);
    StepKeeps(h, CallAlloc(n, false), QUARTER_TERABYTE);
    h' := Step(h, CallAlloc(n, false), QUARTER_TERABYTE).value;
  }

    const FIVE_ALLOCS: seq<Call> := seq(4, _ => CallAlloc(20, false)) + [CallAlloc(40, false)]
  const FOUR_FREES: seq<Call> := [CallFree(4256)] + [CallFree(4096)] + [CallFree(4176)] + [CallFree(4136)]

  /** What calls make of a fresh heap. */
  ghost predicate After(commit: nat, calls: seq<Call>, h: HeapState) {
    && LARGE <= commit
    && WellFormed(h) && WellFormed(Initial(4096, commit)) && commit <= QUARTER_TERABYTE && Committed(h) <= QUARTER_TERABYTE
    && Run(Initial(4096, commit), calls, QUARTER_TERABYTE) == Some(h)
  }

  lemma ThenRun(commit: nat, calls: seq<Call>, h: HeapState, more: seq<Call>, h': HeapState)
    requires After(commit, calls, h) && Run(h, more, QUARTER_TERABYTE) == Some(h')
    requires WellFormed(h') && Committed(h') <= QUARTER_TERABYTE
    ensures After(commit, calls + more, h')
  {
    RunConcat(Initial(4096, commit), calls, more, QUARTER_TERABYTE);
  }

  lemma ThenBlock(commit: nat, calls: seq<Call>, h: HeapState, n: nat) returns (h': HeapState)
    requires After(commit, calls, h) && h.order == [] && h.remaining > Align(n) + LARGE && 0 < n <= MAX_REQUEST
    ensures After(commit, calls + [CallAlloc(n, false)], h') && h' == Carve(h, Align(n))
  {
    h' := OneBlock(h, n);
    ThenRun(commit, calls, h, [CallAlloc(n, false)], h');
  }

  lemma Fresh(commit: nat) returns (h: HeapState)
    requires LARGE <= commit <= QUARTER_TERABYTE
    ensures After(commit, [], h) && h == Initial(4096, commit)
  {
    InitialWellFormed(4096, commit);
    h := Initial(4096, commit);
  }

  /** Four blocks of 24 bytes at 4096, 4136, 4176 and 4216 and one of 48 bytes at
      4256; the sentinel is left with 24 bytes. */
  lemma FiveBlocks() returns (h: HeapState)
    ensures After(272, FIVE_ALLOCS, h)
    ensures h.order == [] && h.large == 4320 && h.remaining == 24 && h.base == 4096
    ensures {4096, 4136, 4176, 4216, 4256} <= h.blocks.Keys
    ensures h.blocks[4096] == Info(24, false, 0) && h.blocks[4136] == Info(24, false, 4096)
    ensures h.blocks[4176] == Info(24, false, 4136) && h.blocks[4216] == Info(24, false, 4176)
    ensures h.blocks[4256] == Info(48, false, 4216)
  {
    hide After;
    var call := CallAlloc(20, false);
    var h0 := Fresh(272);
    var h1 := ThenBlock(272, [], h0, 20);
    var h2 := ThenBlock(272, [] + [call], h1, 20);
    var h3 := ThenBlock(272, [] + [call] + [call], h2, 20);
    var h4 := ThenBlock(272, [] + [call] + [call] + [call], h3, 20);
    h := ThenBlock(272, [] + [call] + [call] + [call] + [call], h4, 40);
    assert [] + [call] + [call] + [call] + [call] + [CallAlloc(40, false)] == FIVE_ALLOCS;
  }

  lemma FreeOne(commit: nat, calls: seq<Call>, h: HeapState, b: nat) returns (h': HeapState)
    requires After(commit, calls, h) && b in Live(h) && !FreeHalts(h, b)
    ensures Placed(h.blocks, h.base, h.large, b)
    ensures h' == Release(h, b) && After(commit, calls + [CallFree(b)], h')
  {
    ReleaseKeeps(h, b);
    h' := Release(h, b);
    assert [CallFree(b)][1..] == [];
    assert Step(h, CallFree(b), QUARTER_TERABYTE) == Some(h');
    StepKeeps(h, CallFree(b), QUARTER_TERABYTE);
    assert Run(h, [CallFree(b)], QUARTER_TERABYTE) == Some(h');
    ThenRun(commit, calls, h, [CallFree(b)], h');
  }

  /** The block at 4136 has been freed between its free neighbours, of which the
      right one is earlier in the list. */
  lemma BridgedHeap() returns (h: HeapState)
    ensures After(272, FIVE_ALLOCS + FOUR_FREES, h)
    ensures h.order == [4176, 4096, 4256] && h.large == 4320 && h.remaining == 24
    ensures {4096, 4176, 4216, 4256} <= h.blocks.Keys
    ensures h.blocks[4096] == Info(64, true, 0) && h.blocks[4176] == Info(24, true, 4096)
    ensures h.blocks[4216] == Info(24, false, 4176) && h.blocks[4256] == Info(48, true, 4216)
  {
    hide After;
    var h0 := FiveBlocks();
    var h1 := FreeOne(272, FIVE_ALLOCS, h0, 4256);
    var h2 := FreeOne(272, FIVE_ALLOCS + [CallFree(4256)], h1, 4096);
    var h3 := FreeOne(272, FIVE_ALLOCS + [CallFree(4256)] + [CallFree(4096)], h2, 4176);
    h := FreeOne(272, FIVE_ALLOCS + [CallFree(4256)] + [CallFree(4096)] + [CallFree(4176)], h3, 4136);
    assert FIVE_ALLOCS + [CallFree(4256)] + [CallFree(4096)] + [CallFree(4176)] + [CallFree(4136)] == FIVE_ALLOCS + FOUR_FREES;
  }

  /** In that heap the scan merges the block at 4176 into the one at 4096 and jumps
      behind that one. */
  lemma JumpAhead(h: HeapState, need: nat) returns (merged: HeapState)
    requires After(272, FIVE_ALLOCS + FOUR_FREES, h) && h.order == [4176, 4096, 4256]
    requires {4096, 4176, 4216, 4256} <= h.blocks.Keys && 24 < need
    requires h.blocks[4096] == Info(64, true, 0) && h.blocks[4176] == Info(24, true, 4096)
    requires h.blocks[4216] == Info(24, false, 4176) && h.blocks[4256] == Info(48, true, 4216)
    ensures WellFormed(merged) && merged.order == [4096, 4256] && Scan(h, 0, need) == Scan(merged, 1, need)
    ensures {4216, 4256} <= merged.blocks.Keys && merged.blocks[4256] == h.blocks[4256]
    ensures !merged.blocks[4216].free && merged.remaining == h.remaining
  {
    assert h.order[0] == 4176;
    MergeKeepsWellFormed(h, 0);
    merged := Merge(h, 0);
    assert Without(h.order, 0) == [4096, 4256];
  }

  /** An allocation can fail although a free block is large enough: of 64 bytes at
      4096, for a request of 48. */
  lemma FittingBlockSkipped()
    ensures exists h: HeapState ::
              && After(272, FIVE_ALLOCS + FOUR_FREES, h) && !OrderedFor(h, Align(48))
              && IsFreeBlock(h, 4096) && h.blocks[4096].size >= Align(48)
              && Allocate(h, 48, QUARTER_TERABYTE, false).block == None
  {
    var h := BridgedHeap();
    assert h.order[1] == 4096 && h.order[0] == 4176;
    assert End(h.blocks, h.order[1]) == h.order[0];
    var merged := JumpAhead(h, 56);
    assert merged.order[1] == 4256;
    assert Scan(merged, 2, 56) == ScanResult(merged, None);
    assert Scan(merged, 1, 56) == Scan(merged, 2, 56);
  }

  /** An allocation can take another block than the first in the list that is large
      enough: that is the one at 4096, and the one at 4256 is taken. */
  lemma AnotherFitTaken()
    ensures exists h: HeapState ::
              && After(272, FIVE_ALLOCS + FOUR_FREES, h)
              && h.order == [4176, 4096, 4256] && IsFirstFit(h, 0, Align(40), 1)
              && Allocate(h, 40, QUARTER_TERABYTE, false).block == Some(4256)
  {
    var h := BridgedHeap();
    assert h.order[0] == 4176 && h.order[1] == 4096;
    var merged := JumpAhead(h, 48);
    assert merged.order[1] == 4256;
    assert Scan(merged, 1, 48) == ScanResult(merged, Some(1));
  }

  const SEVEN_ALLOCS: seq<Call> := seq(6, _ => CallAlloc(20, false)) + [CallAlloc(40, false)]
  const FIVE_FREES: seq<Call> := [CallFree(4336)] + [CallFree(4136)] + [CallFree(4256)] + [CallFree(4216)] + [CallFree(4096)]

  /** Blocks of 24 bytes at 4096, 4136, 4176, 4216, 4256 and 4296 and one of 48
      bytes at 4336. */
  lemma SevenBlocks() returns (h: HeapState)
    ensures After(400, SEVEN_ALLOCS, h) && h.order == [] && h.large == 4400 && h.base == 4096
    ensures {4096, 4136, 4176, 4216, 4256, 4296, 4336} <= h.blocks.Keys
    ensures h.blocks[4096] == Info(24, false, 0) && h.blocks[4136] == Info(24, false, 4096)
    ensures h.blocks[4176] == Info(24, false, 4136) && h.blocks[4216] == Info(24, false, 4176)
    ensures h.blocks[4256] == Info(24, false, 4216) && h.blocks[4296] == Info(24, false, 4256)
    ensures h.blocks[4336] == Info(48, false, 4296)
  {
    hide After;
    var call := CallAlloc(20, false);
    var h0 := Fresh(400);
    var h1 := ThenBlock(400, [], h0, 20);
    var h2 := ThenBlock(400, [] + [call], h1, 20);
    var h3 := ThenBlock(400, [] + [call] + [call], h2, 20);
    var h4 := ThenBlock(400, [] + [call] + [call] + [call], h3, 20);
    var h5 := ThenBlock(400, [] + [call] + [call] + [call] + [call], h4, 20);
    var h6 := ThenBlock(400, [] + [call] + [call] + [call] + [call] + [call], h5, 20);
    h := ThenBlock(400, [] + [call] + [call] + [call] + [call] + [call] + [call], h6, 40);
    assert [] + [call] + [call] + [call] + [call] + [call] + [call] + [CallAlloc(40, false)] == SEVEN_ALLOCS;
  }

  ghost predicate Nested(h: HeapState) {
    && h.order == [4096, 4216, 4256, 4136, 4336]
    && {4096, 4136, 4176, 4216, 4256, 4296, 4336} <= h.blocks.Keys
    && h.blocks[4096] == Info(24, true, 0) && h.blocks[4136] == Info(24, true, 4096)
    && h.blocks[4176] == Info(24, false, 4136) && h.blocks[4216] == Info(24, true, 4176)
    && h.blocks[4256] == Info(24, true, 4216) && h.blocks[4296] == Info(24, false, 4256)
    && h.blocks[4336] == Info(48, true, 4296)
  }

  /** After the first three frees. */
  lemma HalfNestedHeap() returns (h: HeapState)
    ensures After(400, SEVEN_ALLOCS + [CallFree(4336)] + [CallFree(4136)] + [CallFree(4256)], h)
    ensures h.order == [4256, 4136, 4336] && h.large == 4400 && h.base == 4096
    ensures {4096, 4136, 4176, 4216, 4256, 4296, 4336} <= h.blocks.Keys
    ensures h.blocks[4096] == Info(24, false, 0) && h.blocks[4136] == Info(24, true, 4096)
    ensures h.blocks[4176] == Info(24, false, 4136) && h.blocks[4216] == Info(24, false, 4176)
    ensures h.blocks[4256] == Info(24, true, 4216) && h.blocks[4296] == Info(24, false, 4256)
    ensures h.blocks[4336] == Info(48, true, 4296)
  {
    hide After;
    var h0 := SevenBlocks();
    var a := SEVEN_ALLOCS;
    var h1 := FreeOne(400, a, h0, 4336);
    var h2 := FreeOne(400, a + [CallFree(4336)], h1, 4136);
    var h3 := FreeOne(400, a + [CallFree(4336)] + [CallFree(4136)], h2, 4256);
    h := h3;
  }

  /** Two pairs of free neighbours, one pair inside the other in the list. */
  lemma NestedHeap() returns (h: HeapState)
    ensures After(400, SEVEN_ALLOCS + FIVE_FREES, h) && Nested(h)
  {
    hide After;
    var a := SEVEN_ALLOCS;
    var h3 := HalfNestedHeap();
    var h4 := FreeOne(400, a + [CallFree(4336)] + [CallFree(4136)] + [CallFree(4256)], h3, 4216);
    h := FreeOne(400, a + [CallFree(4336)] + [CallFree(4136)] + [CallFree(4256)] + [CallFree(4216)], h4, 4096);
    assert a + [CallFree(4336)] + [CallFree(4136)] + [CallFree(4256)] + [CallFree(4216)] + [CallFree(4096)] == a + FIVE_FREES;
  }

  lemma NestedLooks(h: HeapState)
    requires Nested(h)
    ensures Ordered(h) && IsFirstFit(h, 0, 48, 4)
  {
    var o := h.order;
    assert o[0] == 4096 && o[1] == 4216 && o[2] == 4256 && o[3] == 4136 && o[4] == 4336;
  }

  lemma NestedSearch(h: HeapState)
    requires Nested(h)
    ensures Backward(h, 4) && Bounded(h, 4) && Overtaken(h, 48, 4)
  {
    var o := h.order;
    assert o[0] == 4096 && o[1] == 4216 && o[2] == 4256 && o[3] == 4136 && o[4] == 4336;
    assert o[..2][1] == 4216 && o[..3][0] == 4096;
    assert Head(h, 4096) == 4096 && Head(h, 4216) == 4216;
    assert Head(h, 4256) == 4216 && Head(h, 4136) == 4096;
    assert Overtakes(h, 48, 4, 2, 3, 1, 0);
  }

  /** Also an ordered list does not save the first fit, at 4336: the blocks at 4216
      and 4256 become one that is large enough, and the merge of 4136 into 4096
      sends the cursor back to before it. */
  lemma FirstFitOvertaken()
    ensures exists h: HeapState ::
              && After(400, SEVEN_ALLOCS + FIVE_FREES, h) && h.order == [4096, 4216, 4256, 4136, 4336]
              && Ordered(h) && IsFirstFit(h, 0, Align(40), 4) && Overtaken(h, Align(40), 4)
              && Allocate(h, 40, QUARTER_TERABYTE, false).block != Some(4336)
  {
    var h := NestedHeap();
    NestedLooks(h);
    NestedSearch(h);
    hide After, Ordered, Overtaken, IsFirstFit, Scan, Allocate;
    FirstFitTakenIff(h, 48, 4);
    AllocateTakes(h, 40, QUARTER_TERABYTE, false);
  }
}
