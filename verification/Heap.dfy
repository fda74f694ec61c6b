// The heap: a free list and a sentinel over one reservation.
module Heaps {
  import opened Bytes
  import opened BlockTable
  import opened Blocks
  import opened FreeLists
  import opened HeapModel
  import opened Locking
  import opened OtherThreads
  import opened VirtualMemories
  import opened Wrappers

  /** What the clients of a heap see: the blocks in use with their bytes. */
  ghost function ContentsOf(m: seq<byte>, t: Table): map<nat, seq<byte>> {
    map a | a in t && !t[a].free && End(t, a) <= |m| :: Payload(m, t, a)
  }

  /** A live block of the same size in both states. */
  lemma SameBlock(h: HeapState, m: seq<byte>, h': HeapState, m': seq<byte>, a: nat)
    requires KeepsContents(h.blocks, m, m')
    requires a in Live(h) && a in Live(h') && Live(h)[a] == Live(h')[a]
    ensures a in ContentsOf(m, h.blocks) <==> a in ContentsOf(m', h'.blocks)
    ensures a in ContentsOf(m, h.blocks) ==> ContentsOf(m, h.blocks)[a] == ContentsOf(m', h'.blocks)[a]
  {
    assert End(h.blocks, a) <= |m| ==> Payload(m', h.blocks, a) == Payload(m, h.blocks, a);
  }

  lemma OnlyLive(h: HeapState, m: seq<byte>, a: nat)
    ensures a in ContentsOf(m, h.blocks) ==> a in Live(h)
  {
  }

  /** The clients' view depends on the sizes of the live blocks and on the bytes
      in them, not on the rest of the table. */
  lemma ContentsUnchanged(h: HeapState, m: seq<byte>, h': HeapState, m': seq<byte>)
    requires Live(h') == Live(h) && KeepsContents(h.blocks, m, m')
    ensures ContentsOf(m', h'.blocks) == ContentsOf(m, h.blocks)
  {
    var c, c' := ContentsOf(m, h.blocks), ContentsOf(m', h'.blocks);
    forall a ensures a in c <==> a in c'
             ensures a in c ==> c[a] == c'[a]
    {
      assert a in Live(h) <==> a in Live(h');
      if a in Live(h) {
        assert Live(h)[a] == Live(h')[a];
        SameBlock(h, m, h', m', a);
      }
      OnlyLive(h, m, a);
      OnlyLive(h', m', a);
    }
  }

  lemma ContentsGrown(h: HeapState, m: seq<byte>, h': HeapState, m': seq<byte>, b: nat, size: nat)
    requires Live(h') == Live(h)[b := size] && b !in Live(h) && b + BLOCK + size <= |m|
    requires KeepsContents(h.blocks, m, m')
    ensures var c, c' := ContentsOf(m, h.blocks), ContentsOf(m', h'.blocks);
            b !in c && b in c' && |c'[b]| == size && c' == c[b := c'[b]]
  {
    var c, c' := ContentsOf(m, h.blocks), ContentsOf(m', h'.blocks);
    assert b in Live(h') && Live(h')[b] == size;
    forall a | a != b
      ensures a in c <==> a in c'
      ensures a in c ==> c[a] == c'[a]
    {
      assert a in Live(h) <==> a in Live(h');
      if a in Live(h) {
        assert Live(h)[a] == Live(h')[a];
        SameBlock(h, m, h', m', a);
      }
      OnlyLive(h, m, a);
      OnlyLive(h', m', a);
    }
  }

  /** One live block disappears from the clients' view. */
  lemma ContentsShrunk(h: HeapState, m: seq<byte>, h': HeapState, m': seq<byte>, b: nat)
    requires Live(h') == Live(h) - {b} && KeepsContents(h.blocks, m, m')
    ensures ContentsOf(m', h'.blocks) == ContentsOf(m, h.blocks) - {b}
  {
    var c, c' := ContentsOf(m, h.blocks), ContentsOf(m', h'.blocks);
    forall a | a != b
      ensures a in c <==> a in c'
      ensures a in c ==> c[a] == c'[a]
    {
      assert a in Live(h) <==> a in Live(h');
      if a in Live(h) {
        assert Live(h)[a] == Live(h')[a];
        SameBlock(h, m, h', m', a);
      }
      OnlyLive(h, m, a);
      OnlyLive(h', m', a);
    }
    assert b !in Live(h');
  }

  /** A live block takes in the live block on its right. */
  lemma ContentsAbsorbed(h: HeapState, m: seq<byte>, h': HeapState, m': seq<byte>, b: nat, c: nat, size: nat)
    requires b in Live(h) && c in Live(h) && b != c && Live(h)[b] <= size && b + BLOCK + size <= |m|
    requires Live(h') == (Live(h) - {c})[b := size] && KeepsContents(h.blocks, m, m')
    ensures var view, view' := ContentsOf(m, h.blocks), ContentsOf(m', h'.blocks);
            && b in view && b in view' && view[b] <= view'[b] && |view'[b]| == size
            && view' == (view - {c})[b := view'[b]]
  {
    var view, view' := ContentsOf(m, h.blocks), ContentsOf(m', h'.blocks);
    assert b in Live(h') && Live(h')[b] == size && Live(h)[b] == h.blocks[b].size;
    assert Payload(m', h.blocks, b) == Payload(m, h.blocks, b);
    assert Payload(m', h'.blocks, b)[..h.blocks[b].size] == Payload(m', h.blocks, b);
    assert c !in Live(h');
    OnlyLive(h', m', c);
    hide ContentsOf, Live, KeepsContents;
    forall a | a != b && a != c
      ensures a in view <==> a in view'
      ensures a in view ==> view[a] == view'[a]
    {
      assert a in Live(h) <==> a in Live(h');
      if a in Live(h) {
        assert Live(h)[a] == Live(h')[a];
        SameBlock(h, m, h', m', a);
      }
      OnlyLive(h, m, a);
      OnlyLive(h', m', a);
    }
  }

  /** A client's write into its own block reaches no header, no link and no
      other block. */
  lemma PayloadWrite(base: nat, large: nat, t: Table, b: nat, x: nat, v: byte, m: seq<byte>, m': seq<byte>)
    requires Tiled(t, base, large) && large + LARGE <= |m| && Represents(m, t)
    requires b in t && b != large && b + BLOCK <= x < End(t, b)
    requires x < |m| && m' == m[x := v]
    ensures Represents(m', t) && RemainingSize(m', large) == RemainingSize(m, large)
    ensures forall a {:trigger NextFree(m', a)} :: a in t && a + BLOCK <= |m| ==> NextFree(m', a) == NextFree(m, a)
    ensures forall a {:trigger Payload(m', t, a)} :: a in t && a != b && End(t, a) <= |m| ==> Payload(m', t, a) == Payload(m, t, a)
  {
    TiledPlaced(t, base, large, b);
    TiledApart(t, base, large, b, large);
    forall lo, hi {:trigger m'[lo..hi]} | 0 <= lo <= hi <= |m| && (hi <= x || x < lo) ensures m'[lo..hi] == m[lo..hi] {
    }
    forall a | a in t
      ensures a + BLOCK <= |m| && HeaderIs(m', a, t[a]) && NextFree(m', a) == NextFree(m, a)
      ensures a != b && End(t, a) <= |m| ==> Payload(m', t, a) == Payload(m, t, a)
    {
      TiledPlaced(t, base, large, a);
      TiledApart(t, base, large, a, b);
      TiledApart(t, base, large, b, a);
      assert HeaderIs(m, a, t[a]);
    }
  }

  /** Take one step at a time, for a block that is split. */
  lemma TakeInSteps(h: HeapState, i: nat, need: nat, t1: Table, order1: seq<nat>)
    requires WellFormed(h) && i < |h.order| && h.order[i] in h.blocks && h.order[i] != h.large
    requires Placed(h.blocks, h.base, h.large, h.order[i])
    requires Splits(h, h.order[i], need) && 0 < need && need % ALIGNMENT == 0
    requires t1 == SpliceTable(h.blocks, h.order[i], need) && order1 == Without(h.order, i)
    requires Threads(h.blocks, h.large, order1)
    ensures var rest := h.order[i] + BLOCK + need;
            && rest in t1 && rest != h.large && rest !in order1
            && Take(h, i, need).order == order1[..i] + [rest] + order1[i..]
    ensures Take(h, i, need).blocks == SetFreeTable(t1, h.order[i], false)
    ensures Tiled(t1, h.base, h.large) && Threads(t1, h.large, order1)
    ensures LinkBefore(order1, i) == LinkBefore(h.order, i)
    ensures forall a {:trigger h.blocks[a]} :: a in h.blocks && !h.blocks[a].free ==>
              a in t1 && !t1[a].free && t1[a].size == h.blocks[a].size
  {
    var b := h.order[i];
    assert b in h.order;
    SpliceKeepsTiling(h.blocks, h.base, h.large, b, need);
    assert t1.Keys == h.blocks.Keys + {b + BLOCK + need};
    assert order1[..i] + [b + BLOCK + need] + order1[i..] == h.order[i := b + BLOCK + need];
  }

  datatype HeapError =
    | HeapAllocationFailure
    | NegativeHeapAllocation
    | UnsupportedAllocationAmount
    | MemoryCommitalFailure

  /** b is a new block of more than n bytes; nothing else has changed. */
  ghost predicate Allocates(before: map<nat, seq<byte>>, after: map<nat, seq<byte>>, b: nat, n: int) {
    && b !in before && b in after
    && n < |after[b]| <= n + 32
    && after == before[b := after[b]]
  }

  /** c takes over from b: it has at least n bytes, at most 40 more than that if
      it had to grow, and b's bytes are its first. */
  ghost predicate Reallocates(before: map<nat, seq<byte>>, after: map<nat, seq<byte>>, b: nat, c: nat, n: int) {
    && b in before && c in after && (c == b || b !in after)
    && before[b] <= after[c]
    && if n <= |before[b]| then c == b && |after[c]| == |before[b]| else n < |after[c]| <= n + 40
  }

  /** How a block that is too small grows. One that borders the sentinel stays where
      it is and gets the aligned request and a header, without a copy; any other
      moves, to a block for the request aligned twice. */
  ghost predicate Regrown(h: HeapState, before: map<nat, seq<byte>>, after: map<nat, seq<byte>>, b: nat, c: nat, n: nat)
    requires WellFormed(h) && b in h.blocks
  {
    var need := n + (8 - n % 8);
    && c in after
    && if End(h.blocks, b) == h.large
       then c == b && |after[b]| == need + 16 && after == before[b := after[b]]
       else c != b && Tight(Scan(h, 0, need + 8), need, |after[c]|)
  }

  lemma AlignTwice(n: nat)
    ensures Align(n) == n + (8 - n % 8) && Align(Align(n)) == Align(n) + 8
  {
  }

  /** The result of a reallocation and the state it leaves, after what the other
      threads have done when it has dropped the lock. */
  ghost predicate FollowsPlan(plan: ReallocPlan, r: Outcome<Result<nat, HeapError>>, b: nat, now: HeapState,
                              others: set<nat>, schedule: seq<seq<Action>>, reservation: nat) {
    match plan
    case Stay => r == Done(Success(b + BLOCK))
    case Extended(h) => r == Done(Success(b + BLOCK)) && now == h
    case Refused(h) => r == Done(Failure(HeapAllocationFailure)) && now == h
    case Moved(c, h) =>
      && Fair(Shared(h, others)) && b in Live(h) && b !in others
      && match MoveResult(Shared(h, others), b, schedule, reservation)
         case None => r == Halted
         case Some(h') => r == Done(Success(c + BLOCK)) && now == h'
  }

  /** The first i bytes of b have reached c. */
  ghost predicate Copied(before: map<nat, seq<byte>>, now: map<nat, seq<byte>>, b: nat, c: nat, i: nat) {
    && b in before && c in before && i <= |before[b]| <= |before[c]|
    && b in now && now[b] == before[b]
    && c in now && |now[c]| == |before[c]| && now[c][..i] == before[b][..i]
  }

  ghost predicate ChangesOnly(before: map<nat, seq<byte>>, after: map<nat, seq<byte>>, c: nat) {
    c in after && after == before[c := after[c]]
  }

  lemma CopiedByte(before: map<nat, seq<byte>>, now: map<nat, seq<byte>>, b: nat, c: nat, i: nat)
    requires Copied(before, now, b, c, i) && b != c && i < |before[b]|
    ensures Copied(before, now[c := SetByte(now[c], i, now[b][i])], b, c, i + 1)
  {
    var s := SetByte(now[c], i, now[b][i]);
    assert s[..i + 1] == s[..i] + [s[i]] && s[..i] == now[c][..i];
    assert before[b][..i + 1] == before[b][..i] + [before[b][i]];
  }

  /** Nothing but b and c is involved. */
  ghost predicate Moves(before: map<nat, seq<byte>>, after: map<nat, seq<byte>>, b: nat, c: nat) {
    c in after && after == (before - {b})[c := after[c]]
  }

  /** b is gone and c begins with its bytes. */
  ghost predicate Inherits(before: map<nat, seq<byte>>, after: map<nat, seq<byte>>, b: nat, c: nat) {
    && b in before && c in before && b !in after
    && c in after && before[b] <= after[c] && |after[c]| == |before[c]|
  }

  lemma FreedSource(before: map<nat, seq<byte>>, copied: map<nat, seq<byte>>, b: nat, c: nat)
    requires b in before && Copied(before, copied, b, c, |before[b]|) && b != c
    ensures Inherits(before, copied - {b}, b, c)
    ensures ChangesOnly(before, copied, c) ==> Moves(before, copied - {b}, b, c)
  {
    assert before[b] <= copied[c] by {
      assert before[b][..|before[b]|] == before[b];
    }
  }

  lemma MovedBlock(before: map<nat, seq<byte>>, mid: map<nat, seq<byte>>, after: map<nat, seq<byte>>, b: nat, c: nat, n: nat)
    requires Allocates(before, mid, c, Align(n)) && b in before && Inherits(mid, after, b, c)
    requires |before[b]| < n
    ensures Reallocates(before, after, b, c, n)
    ensures Moves(mid, after, b, c) ==> Moves(before, after, b, c)
  {
    AlignFacts(n);
  }

  // What Walk counts

  ghost function FreeBelow(t: Table, x: nat): set<nat> {
    set a | a in t && a < x && t[a].free
  }

  lemma FreeBelowBase(t: Table, base: nat, large: nat)
    requires Tiled(t, base, large)
    ensures FreeBelow(t, base) == {}
  {
    forall a | a in t ensures base <= a {
      TiledPlaced(t, base, large, a);
    }
  }

  lemma FreeBelowNext(t: Table, base: nat, large: nat, a: nat)
    requires Tiled(t, base, large) && a in t && a != large
    ensures FreeBelow(t, End(t, a)) == if t[a].free then FreeBelow(t, a) + {a} else FreeBelow(t, a)
  {
    forall b | b in t && a < b ensures End(t, a) <= b {
      TiledApart(t, base, large, a, b);
    }
  }

  ghost function ElementsOf(s: seq<nat>): set<nat> {
    set x | x in s
  }

  lemma {:induction false} DistinctCount(s: seq<nat>)
    requires Distinct(s)
    ensures |ElementsOf(s)| == |s|
  {
    if s != [] {
      var last, front := s[|s| - 1], s[..|s| - 1];
      DistinctCount(front);
      assert s == front + [last] && last !in front;
      assert ElementsOf(s) == ElementsOf(front) + {last};
    }
  }

  lemma FreeListCount(h: HeapState)
    requires WellFormed(h)
    ensures |FreeBelow(h.blocks, h.large)| == |h.order|
  {
    DistinctCount(h.order);
    forall a ensures a in FreeBelow(h.blocks, h.large) <==> a in h.order {
      assert a in h.order <==> IsFreeBlock(h, a);
      if a in h.blocks {
        TiledPlaced(h.blocks, h.base, h.large, a);
      }
    }
    assert FreeBelow(h.blocks, h.large) == ElementsOf(h.order);
  }

  /** The blocks that are not in `others` are still there, with their bytes. */
  ghost predicate Undisturbed(before: map<nat, seq<byte>>, after: map<nat, seq<byte>>, others: set<nat>) {
    forall k :: k in before && k !in others ==> k in after && after[k] == before[k]
  }

  lemma UndisturbedTwice(before: map<nat, seq<byte>>, mid: map<nat, seq<byte>>, after: map<nat, seq<byte>>,
                         others: set<nat>, others': set<nat>, others'': set<nat>, mine: set<nat>)
    requires Undisturbed(before, mid, others + mine) && others' * before.Keys <= others
    requires Undisturbed(mid, after, others' + mine) && others'' * mid.Keys <= others' && others'' !! mine
    ensures Undisturbed(before, after, others + mine) && others'' * before.Keys <= others
  {
    forall k | k in before && k !in others + mine ensures k in mid && k !in others' + mine && after[k] == before[k] {
      assert k in mid && mid[k] == before[k];
      assert k in others' ==> k in others' * before.Keys;
    }
    forall k | k in others'' * before.Keys ensures k in others {
      assert k !in others ==> k in mid && k in others'' * mid.Keys;
    }
  }

  /** What a step of the other threads, who use the blocks in `others`, does. An
      allocation succeeds when it can be afforded, at the latest; so does growing
      in place, exactly then. */
  ghost predicate Effect(h: HeapState, reservation: nat, before: map<nat, seq<byte>>, after: map<nat, seq<byte>>, a: Action, others: set<nat>)
    requires others <= before.Keys
  {
    match a
    case OtherAlloc(n, protect) =>
      var need := n + (8 - n % 8);
      || (exists c :: Allocates(before, after, c, n))
      || (after == before && (n == 0 || need + 24 >= 0x7FFF_FFFF || !Affordable(h, need, reservation, protect)))
    case OtherExtend(b, n, protect) =>
      var need := n + (8 - n % 8);
      if && b in others && b in h.blocks && End(h.blocks, b) == h.large
         && |before[b]| < n && need + 24 < 0x7FFF_FFFF
         && Affordable(h, need - |before[b]|, reservation, protect)
      then b in after && before[b] <= after[b] && |after[b]| == need + 16 && after == before[b := after[b]]
      else after == before
    case OtherFree(b) => after == if b in others then before - {b} else before
    case OtherWrite(b, i, v) =>
      after == if b in others && i < |before[b]| then before[b := SetByte(before[b], i, v)] else before
  }

  /** A block as its caller gets it: GetData, or the exception. */
  function Pointer(r: Outcome<Option<nat>>): Outcome<Result<nat, HeapError>> {
    match r
    case Halted => Halted
    case Done(None) => Done(Failure(HeapAllocationFailure))
    case Done(Some(b)) => Done(Success(b + BLOCK))
  }

  function InitialCommitSize(initialCommitSize: nat): nat {
    if initialCommitSize >= LARGE + 1 then initialCommitSize else LARGE + 1
  }

  class Heap {
    const vm: VirtualMemory
    const mutex: Mutex
    var freeList: nat
    var largeBlock: nat
    ghost var state: HeapState

    ghost predicate Valid()
      reads this, vm
    {
      && vm.Valid()
      && WellFormed(state) && state.base == vm.base && state.large == largeBlock
      && Committed(state) == vm.commitSize
      && Represents(vm.bytes, state.blocks)
      && RemainingSize(vm.bytes, largeBlock) == state.remaining
      && Linked(vm.bytes, freeList, state.order)
    }

    ghost function Contents(): map<nat, seq<byte>>
      reads this, vm
    {
      ContentsOf(vm.bytes, state.blocks)
    }

    /** The part of the constructor that follows the first commit: the whole
        commit becomes the sentinel. */
    constructor (reservation: VirtualMemory, lock: Mutex)
      requires reservation.Valid() && LARGE < reservation.commitSize
      modifies reservation`bytes
      ensures Valid() && vm == reservation && mutex == lock
      ensures state == Initial(vm.base, vm.commitSize)
    {
      vm, mutex := reservation, lock;
      freeList, largeBlock := 0, reservation.base;
      state := Initial(reservation.base, reservation.commitSize);
      new;
      NewLargeBlock(vm, largeBlock, vm.commitSize - LARGE, 0, map[]);
      InitialWellFormed(vm.base, vm.commitSize);
    }

    /** The constructor as a whole: a heap, or the exception of a refused
        commit. */
    static method Create(reservation: VirtualMemory, initialCommitSize: nat, protect: bool)
      returns (r: Result<Heap, HeapError>)
      requires reservation.Valid() && reservation.commitSize == 0
      modifies reservation
      ensures var commit := if initialCommitSize >= 25 then initialCommitSize else 25;
              if commit <= reservation.reservationSize && protect then
                && r.Success? && fresh(r.value) && fresh(r.value.mutex) && !r.value.mutex.locked
                && r.value.Valid() && r.value.vm == reservation
                && r.value.state == Initial(reservation.base, commit)
                && r.value.Contents() == map[]
              else
                r == Failure(MemoryCommitalFailure)
    {
      var committed := reservation.Commit(InitialCommitSize(initialCommitSize), protect);
      if !committed {
        return Failure(MemoryCommitalFailure);
      }
      var lock := new Mutex();
      var heap := new Heap(reservation, lock);
      r := Success(heap);
    }

    // The free list

    method AddToFreeList(b: nat, previousEntry: nat, ghost t: Table, ghost large: nat, ghost order: seq<nat>, ghost i: nat)
      requires vm.Valid() && Tiled(t, vm.base, large) && large + LARGE <= vm.base + vm.commitSize
      requires Represents(vm.bytes, t) && Threads(t, large, order) && Linked(vm.bytes, freeList, order)
      requires i <= |order| && previousEntry == LinkBefore(order, i)
      requires b in t && b != large && b !in order
      modifies this`freeList, vm`bytes
      ensures vm.Valid() && Represents(vm.bytes, t)
      ensures Threads(t, large, order[..i] + [b] + order[i..])
      ensures Linked(vm.bytes, freeList, order[..i] + [b] + order[i..])
      ensures KeepsContents(t, old(vm.bytes), vm.bytes) && large + LARGE <= |vm.bytes|
      ensures RemainingSize(vm.bytes, large) == old(RemainingSize(vm.bytes, large))
    {
      HeaderBounds(vm, t, large, b);
      if previousEntry == 0 {
        assert i == 0 by { if 0 < i { HeaderBounds(vm, t, large, order[i - 1]); } }
        SetNextFree(vm, b, freeList, t, large);
        freeList := b;
      } else {
        HeaderBounds(vm, t, large, previousEntry);
        assert NextFree(vm.bytes, order[i - 1]) == LinkTo(order, i);
        SetNextFree(vm, b, NextFree(vm.bytes, previousEntry), t, large);
        SetNextFree(vm, previousEntry, b, t, large);
      }
      InsertLinked(t, large, order, i, b, old(vm.bytes), old(freeList), vm.bytes, freeList);
    }

    method RemoveFromFreeList(b: nat, previousEntry: nat, ghost t: Table, ghost large: nat, ghost order: seq<nat>, ghost i: nat)
      requires vm.Valid() && Tiled(t, vm.base, large) && large + LARGE <= vm.base + vm.commitSize
      requires Represents(vm.bytes, t) && Threads(t, large, order) && Linked(vm.bytes, freeList, order)
      requires i < |order| && b == order[i] && previousEntry == LinkBefore(order, i)
      modifies this`freeList, vm`bytes
      ensures vm.Valid() && Represents(vm.bytes, t)
      ensures Threads(t, large, Without(order, i))
      ensures Linked(vm.bytes, freeList, Without(order, i))
      ensures KeepsContents(t, old(vm.bytes), vm.bytes) && large + LARGE <= |vm.bytes|
      ensures RemainingSize(vm.bytes, large) == old(RemainingSize(vm.bytes, large))
    {
      HeaderBounds(vm, t, large, b);
      assert NextFree(vm.bytes, order[i]) == LinkTo(order, i + 1);
      if previousEntry == 0 {
        assert i == 0 by { if 0 < i { HeaderBounds(vm, t, large, order[i - 1]); } }
        freeList := NextFree(vm.bytes, freeList);
      } else {
        SetNextFree(vm, previousEntry, NextFree(vm.bytes, b), t, large);
      }
      RemoveLinked(t, large, order, i, old(vm.bytes), old(freeList), vm.bytes, freeList);
    }

    /** The free list is what the state's invariant calls a thread of the table. */
    lemma Threaded()
      requires Valid()
      ensures Threads(state.blocks, state.large, state.order)
      ensures largeBlock + LARGE <= vm.base + vm.commitSize
    {
      forall i {:trigger state.order[i]} | 0 <= i < |state.order|
        ensures state.order[i] in state.blocks && state.order[i] != state.large
      {
        assert state.order[i] in state.order;
      }
    }

    /** The innermost branch of MergeBlockIfPossible. */
    method Coalesce(b: nat, lastFreeListEntry: nat, ghost i: nat) returns (merged: nat)
      requires Valid()
      requires i < |state.order| && b == state.order[i] && lastFreeListEntry == LinkBefore(state.order, i)
      requires b in state.blocks && CanMerge(state, b) && Placed(state.blocks, vm.base, largeBlock, b) && b != largeBlock
      modifies this, vm`bytes
      ensures Valid() && Contents() == old(Contents())
      ensures state == Merge(old(state), i) && merged == old(state.blocks[b].left)
    {
      ghost var h := state;
      Threaded();
      MergeKeepsWellFormed(h, i);
      HeaderBounds(vm, h.blocks, largeBlock, h.blocks[b].left);
      RemoveFromFreeList(b, lastFreeListEntry, h.blocks, largeBlock, h.order, i);
      ghost var m := vm.bytes;
      merged := EatLeftBlock(vm, b, h.blocks, largeBlock);
      state := Merge(h, i);
      KeepsLinked(h.blocks, largeBlock, state.order, freeList, m, vm.bytes);
      ContentsUnchanged(h, old(vm.bytes), state, vm.bytes);
    }

    method MergeBlockIfPossible(b: nat, lastFreeListEntry: nat, ghost i: nat) returns (merged: nat)
      requires Valid()
      requires i < |state.order| && b == state.order[i] && lastFreeListEntry == LinkBefore(state.order, i)
      modifies this, vm`bytes
      ensures Valid() && Contents() == old(Contents())
      ensures b in old(state.blocks) && b != old(state.large)
      ensures Placed(old(state.blocks), vm.base, old(state.large), b)
      ensures if CanMerge(old(state), b)
              then state == Merge(old(state), i) && merged == old(state.blocks[b].left)
              else state == old(state) && merged == b
    {
      merged := b;
      Threaded();
      HeaderBounds(vm, state.blocks, largeBlock, b);
      assert b in state.order && HeaderIs(vm.bytes, b, state.blocks[b]) && IsFree(vm.bytes, b);
      var left := LeftBlock(vm.bytes, b);
      if left != 0 {
        HeaderBounds(vm, state.blocks, largeBlock, left);
        assert HeaderIs(vm.bytes, left, state.blocks[left]);
        if IsFree(vm.bytes, left) {
          var newSize := Size(vm.bytes, b) + Size(vm.bytes, left) + BLOCK;
          if newSize <= INT_MAX {
            merged := Coalesce(b, lastFreeListEntry, i);
          }
        }
      }
    }

    /** The block has left the free list; its rest takes its place there. */
    method SpliceFit(b: nat, lastFreeListEntry: nat, need: nat, ghost h: HeapState, ghost i: nat)
      requires vm.Valid() && WellFormed(h) && h.base == vm.base && h.large == largeBlock
      requires largeBlock + LARGE <= vm.base + vm.commitSize
      requires Represents(vm.bytes, h.blocks)
      requires i < |h.order| && b == h.order[i] && lastFreeListEntry == LinkBefore(h.order, i)
      requires b in h.blocks && b != h.large && Placed(h.blocks, h.base, h.large, b)
      requires Splits(h, b, need) && 0 < need && need % ALIGNMENT == 0
      requires Threads(h.blocks, h.large, Without(h.order, i)) && Linked(vm.bytes, freeList, Without(h.order, i))
      modifies this`freeList, vm`bytes
      ensures vm.Valid() && KeepsContents(h.blocks, old(vm.bytes), vm.bytes)
      ensures Represents(vm.bytes, Take(h, i, need).blocks)
      ensures Linked(vm.bytes, freeList, Take(h, i, need).order)
      ensures h.large + LARGE <= |vm.bytes| && RemainingSize(vm.bytes, h.large) == old(RemainingSize(vm.bytes, h.large))
    {
      ghost var m0, order1, taken := vm.bytes, Without(h.order, i), Take(h, i, need);
      ghost var t1: Table := SpliceTable(h.blocks, b, need);
      TakeInSteps(h, i, need, t1, order1);
      var newBlock := Splice(vm, b, need, h.blocks, largeBlock);
      ghost var m1 := vm.bytes;
      KeepsLinked(h.blocks, h.large, order1, freeList, m0, m1);
      AddToFreeList(newBlock, lastFreeListEntry, t1, largeBlock, order1, i);
      ghost var m2 := vm.bytes;
      Mark(vm, b, false, t1, largeBlock);
      KeepsLinked(t1, h.large, taken.order, freeList, m2, vm.bytes);
      KeepsContentsTwice(t1, m1, m2, vm.bytes);
      KeepsContentsAcross(h.blocks, t1, m1, vm.bytes);
      KeepsContentsTwice(h.blocks, m0, m1, vm.bytes);
    }

    /** AllocImpl's branch for a block that fits. */
    method TakeFit(b: nat, lastFreeListEntry: nat, need: nat, ghost i: nat)
      requires Valid()
      requires i < |state.order| && b == state.order[i] && lastFreeListEntry == LinkBefore(state.order, i)
      requires b in state.blocks && 0 < need <= state.blocks[b].size && need % ALIGNMENT == 0
      modifies this, vm`bytes
      ensures Valid()
      ensures Placed(old(state.blocks), vm.base, old(state.large), b)
      ensures state == Take(old(state), i, need)
      ensures b !in old(Contents()) && b in Contents()
      ensures need <= |Contents()[b]| <= need + 24
      ensures var size := old(state).blocks[b].size; |Contents()[b]| == if size < need + 32 then size else need
      ensures Contents() == old(Contents())[b := Contents()[b]]
    {
      hide Linked, ContentsOf, KeepsContents;
      ghost var h := state;
      Threaded();
      TakeKeeps(h, i, need);
      HeaderBounds(vm, h.blocks, largeBlock, b);
      RemoveFromFreeList(b, lastFreeListEntry, h.blocks, largeBlock, h.order, i);
      assert HeaderIs(vm.bytes, b, h.blocks[b]);
      ghost var m := vm.bytes;
      if Size(vm.bytes, b) - need >= MINIMUM_BLOCK_SIZE + BLOCK {
        SpliceFit(b, lastFreeListEntry, need, h, i);
      } else {
        Mark(vm, b, false, h.blocks, largeBlock);
        KeepsLinked(h.blocks, largeBlock, Without(h.order, i), freeList, m, vm.bytes);
      }
      state := Take(h, i, need);
      TakeAligned(h, i, need);
      KeepsContentsTwice(h.blocks, old(vm.bytes), m, vm.bytes);
      ContentsGrown(h, old(vm.bytes), state, vm.bytes, b, TakenSize(h, b, need));
    }

    // The sentinel

    /** Fails, changing nothing, when the pages are refused. */
    method LargeBlockNeedsAtLeast(requiredNumBytes: nat, protect: bool) returns (ok: bool)
      requires Valid()
      requires requiredNumBytes + LARGE < INT_MAX
      modifies this, vm
      ensures Valid() && Contents() == old(Contents())
      ensures var grown := Grow(old(state), requiredNumBytes, vm.reservationSize, protect);
              ok == grown.Some? && state == if ok then grown.value else old(state)
      ensures ok <==> Affordable(old(state), requiredNumBytes, vm.reservationSize, protect)
      ensures vm.commitSize == old(vm.commitSize) + if ok then Shortage(old(state), requiredNumBytes) else 0
    {
      Threaded();
      var required := requiredNumBytes + LARGE;
      if RemainingSize(vm.bytes, largeBlock) <= required {
        var sizeDifference := required - RemainingSize(vm.bytes, largeBlock);
        ok := vm.Commit(vm.commitSize + sizeDifference + COMMIT_SLACK, protect);
        if !ok {
          return;
        }
        var newSize := RemainingSize(vm.bytes, largeBlock) + sizeDifference + COMMIT_SLACK;
        SetRemainingSize(vm, largeBlock, newSize, state.blocks);
        KeepsLinked(state.blocks, largeBlock, state.order, freeList, old(vm.bytes), vm.bytes);
        ghost var h := state;
        state := state.(remaining := newSize);
        ContentsUnchanged(h, old(vm.bytes), state, vm.bytes);
      }
      ok := true;
    }

    /** AllocateBlock on the heap's sentinel. */
    method CarveSentinel(size: nat) returns (block: nat)
      requires Valid()
      requires 0 < size < INT_MAX && size % ALIGNMENT == 0 && size + BLOCK < state.remaining
      modifies this, vm`bytes
      ensures Valid()
      ensures block == old(largeBlock) && state == Carve(old(state), size)
      ensures block !in old(Contents()) && block in Contents() && |Contents()[block]| == size
      ensures Contents() == old(Contents())[block := Contents()[block]]
    {
      Threaded();
      CarveKeeps(state, size);
      ghost var h := state;
      block, largeBlock := AllocateBlock(vm, largeBlock, size, h.blocks);
      KeepsLinked(h.blocks, h.large, h.order, freeList, old(vm.bytes), vm.bytes);
      state := Carve(h, size);
      ContentsGrown(h, old(vm.bytes), state, vm.bytes, block, size);
    }

    // Alloc

    /** The header under the cursor is readable and says what the table says. */
    lemma HeadInTable(i: nat)
      requires Valid() && i < |state.order|
      ensures var c := state.order[i];
              && c in state.order && c in state.blocks && c + BLOCK <= |vm.bytes|
              && HeaderIs(vm.bytes, c, state.blocks[c])
              && NextFree(vm.bytes, c) == LinkTo(state.order, i + 1)
    {
      Threaded();
      HeaderBounds(vm, state.blocks, largeBlock, state.order[i]);
    }

    /** The rest of the body of AllocImpl's loop, for a block that is too small. */
    method PassBlock(current: nat, last: nat, need: nat, ghost i: nat) returns (current': nat, last': nat, ghost i': nat)
      requires Valid()
      requires i < |state.order| && current == state.order[i] && last == LinkBefore(state.order, i)
      requires current in state.blocks && state.blocks[current].size < need
      modifies this, vm`bytes
      ensures Valid() && Contents() == old(Contents())
      ensures i' <= |state.order| && current' == LinkTo(state.order, i') && last' == LinkBefore(state.order, i')
      ensures Scan(state, i', need) == Scan(old(state), i, need)
      ensures state.large == old(state).large && state.remaining == old(state).remaining
      ensures |state.order| < |old(state).order| || (|state.order| == |old(state).order| && i' == i + 1)
    {
      hide Contents, Scan;
      ghost var h := state;
      last' := MergeBlockIfPossible(current, last, i);
      hide Valid, WellFormed, Merge, CanMerge, Represents, Linked;
      i' := ScanStep(h, i, need, state, last');
      HeadInTable(i');
      current' := NextFree(vm.bytes, last');
      i' := i' + 1;
    }

    lemma EndOfList(i: nat)
      requires Valid() && i <= |state.order| && LinkTo(state.order, i) == 0
      ensures i == |state.order|
    {
      if i < |state.order| {
        HeadInTable(i);
        TiledPlaced(state.blocks, state.base, state.large, state.order[i]);
      }
    }

    method AllocImpl(numBytes: nat, protect: bool, lock: LockGuard) returns (block: Option<nat>)
      requires Valid() && lock.Holds(mutex)
      requires 0 < numBytes && Align(numBytes) + LARGE < INT_MAX
      modifies this, vm
      ensures Valid()
      ensures var r := Allocate(old(state), numBytes, vm.reservationSize, protect);
              state == r.heap && block == r.block
      ensures block.None? ==> Contents() == old(Contents()) && vm.commitSize == old(vm.commitSize)
      ensures block.Some? ==> Allocates(old(Contents()), Contents(), block.value, numBytes)
      ensures WellFormed(old(state))
      ensures block.Some? ==> Tight(Scan(old(state), 0, Align(numBytes)), numBytes, |Contents()[block.value]|)
      ensures block.Some? <==>
                || Scan(old(state), 0, Align(numBytes)).hit.Some?
                || Affordable(old(state), numBytes + (8 - numBytes % 8), vm.reservationSize, protect)
    {
      hide Contents, Represents;
      var need := Align(numBytes);
      AlignFacts(numBytes);
      var current, last := freeList, 0;
      ghost var i: nat := 0;
      while current != 0
        invariant Valid() && Contents() == old(Contents())
        invariant i <= |state.order| && current == LinkTo(state.order, i) && last == LinkBefore(state.order, i)
        invariant Scan(state, i, need) == Scan(old(state), 0, need)
        invariant state.large == old(state).large && state.remaining == old(state).remaining && state.base == old(state).base
        invariant vm.commitSize == old(vm.commitSize)
        decreases |state.order|, |state.order| - i
      {
        HeadInTable(i);
        if Size(vm.bytes, current) >= need {
          TakeFit(current, last, need, i);
          return Some(current);
        }
        current, last, i := PassBlock(current, last, need, i);
      }
      EndOfList(i);
      var ok := LargeBlockNeedsAtLeast(need, protect);
      if !ok {
        return None;
      }
      var b := CarveSentinel(need);
      return Some(b);
    }

    // Free

    method FreeIntoLeft(b: nat)
      requires Valid()
      requires b in state.blocks && b in Live(state) && LeftIsFree(state, b) && !FreeHalts(state, b)
      requires Placed(state.blocks, vm.base, largeBlock, b)
      modifies this, vm`bytes
      ensures Valid()
      ensures state == Release(old(state), b) && Contents() == old(Contents()) - {b}
    {
      ghost var h := state;
      Threaded();
      ReleaseKeeps(h, b);
      var left := EatLeftBlock(vm, b, h.blocks, largeBlock);
      KeepsLinked(h.blocks, h.large, h.order, freeList, old(vm.bytes), vm.bytes);
      state := Release(h, b);
      ContentsShrunk(h, old(vm.bytes), state, vm.bytes, b);
    }

    method FreeToHead(b: nat)
      requires Valid()
      requires b in state.blocks && b in Live(state) && !LeftIsFree(state, b)
      requires Placed(state.blocks, vm.base, largeBlock, b)
      modifies this, vm`bytes
      ensures Valid()
      ensures state == Release(old(state), b) && Contents() == old(Contents()) - {b}
    {
      ghost var h := state;
      Threaded();
      ReleaseKeeps(h, b);
      AddToFreeList(b, 0, h.blocks, h.large, h.order, 0);
      ghost var m := vm.bytes;
      assert h.order[..0] + [b] + h.order[0..] == [b] + h.order;
      Mark(vm, b, true, h.blocks, largeBlock);
      KeepsLinked(h.blocks, h.large, [b] + h.order, freeList, m, vm.bytes);
      KeepsContentsTwice(h.blocks, old(vm.bytes), m, vm.bytes);
      state := Release(h, b);
      ContentsShrunk(h, old(vm.bytes), state, vm.bytes, b);
    }

    /** When the merged size would reach INT_MAX the assertion in EatLeftBlock
        fails, before anything has been written. */
    method FreeImpl(b: nat, lock: LockGuard) returns (halted: bool)
      requires Valid() && lock.Holds(mutex)
      requires b in Contents()
      modifies this, vm`bytes
      ensures Valid()
      ensures b in Live(old(state))
      ensures b in old(state).blocks
      ensures halted <==> LeftIsFree(old(state), b) &&
                          old(state).blocks[old(state).blocks[b].left].size + 16 + old(state).blocks[b].size >= 0x7FFF_FFFF
      ensures match FreeResult(old(state), b)
              case None => halted && state == old(state) && Contents() == old(Contents())
              case Some(h') => !halted && state == h' && Contents() == old(Contents()) - {b}
    {
      Threaded();
      HeaderBounds(vm, state.blocks, largeBlock, b);
      assert HeaderIs(vm.bytes, b, state.blocks[b]);
      var left := LeftBlock(vm.bytes, b);
      if left != 0 {
        HeaderBounds(vm, state.blocks, largeBlock, left);
        assert HeaderIs(vm.bytes, left, state.blocks[left]);
      }
      if left != 0 && IsFree(vm.bytes, left) {
        if Size(vm.bytes, left) + Size(vm.bytes, b) + BLOCK >= INT_MAX {
          return true;
        }
        FreeIntoLeft(b);
      } else {
        FreeToHead(b);
      }
      halted := false;
    }

    // Realloc in place

    lemma LiveIsContents(b: nat)
      requires Valid() && b in Live(state)
      ensures b in Contents() && |Contents()[b]| == Live(state)[b]
    {
      Threaded();
      HeaderBounds(vm, state.blocks, largeBlock, b);
    }

    /** EatLeftBlock between two live blocks. */
    method Absorb(b: nat, c: nat)
      requires Valid()
      requires b in Live(state) && c in Live(state) && c in state.blocks && c != vm.base
      requires Placed(state.blocks, vm.base, largeBlock, c) && state.blocks[c].left == b
      requires state.blocks[b].size + state.blocks[c].size + BLOCK < INT_MAX
      modifies this, vm`bytes
      ensures Valid()
      ensures Placed(old(state).blocks, vm.base, old(state).large, c) && c != old(state).large
      ensures state == old(state).(blocks := MergeTable(old(state).blocks, c))
      ensures b in old(Contents()) && b in Contents() && old(Contents())[b] <= Contents()[b]
      ensures |Contents()[b]| == old(state).blocks[b].size + old(state).blocks[c].size + BLOCK
      ensures Contents() == (old(Contents()) - {c})[b := Contents()[b]]
    {
      hide MergeTable, Linked, ContentsOf, KeepsContents;
      ghost var h := state;
      Threaded();
      AbsorbKeeps(h, c);
      HeaderBounds(vm, h.blocks, largeBlock, b);
      HeaderBounds(vm, h.blocks, largeBlock, c);
      var left := EatLeftBlock(vm, c, h.blocks, largeBlock);
      KeepsLinked(h.blocks, h.large, h.order, freeList, old(vm.bytes), vm.bytes);
      state := h.(blocks := MergeTable(h.blocks, c));
      ContentsAbsorbed(h, old(vm.bytes), state, vm.bytes, b, c, h.blocks[b].size + h.blocks[c].size + BLOCK);
    }

    /** The sentinel is large enough now. */
    method StretchBlock(b: nat, lacking: nat)
      requires Valid()
      requires b in Live(state) && End(state.blocks, b) == largeBlock
      requires 0 < lacking && lacking % ALIGNMENT == 0 && lacking + BLOCK < state.remaining
      requires state.blocks[b].size + lacking + BLOCK < INT_MAX
      modifies this, vm`bytes
      ensures Valid()
      ensures b in Live(old(state)) && state == Stretch(old(state), b, lacking)
      ensures b in old(Contents()) && b in Contents() && old(Contents())[b] <= Contents()[b]
      ensures |Contents()[b]| == old(state).blocks[b].size + lacking + BLOCK
      ensures Contents() == old(Contents())[b := Contents()[b]]
    {
      hide Contents, WellFormed, Tiled, MergeTable, Represents, Linked;
      StretchCarves(state, b, lacking);
      CarveKeeps(state, lacking);
      LiveIsContents(b);
      var block := CarveSentinel(lacking);
      Absorb(b, block);
    }

    lemma ContentsIsLive(b: nat)
      requires Valid() && b in Contents()
      ensures WellFormed(state) && state.large == largeBlock
      ensures b in Live(state) && b in state.blocks && state.blocks[b].size == |Contents()[b]|
    {
    }

    method SizeOf(b: nat) returns (size: nat)
      requires Valid() && b in Contents()
      ensures size == |Contents()[b]|
    {
      Threaded();
      HeaderBounds(vm, state.blocks, largeBlock, b);
      assert HeaderIs(vm.bytes, b, state.blocks[b]);
      size := Size(vm.bytes, b);
    }

    method ExtendInPlace(b: nat, numBytes: nat, protect: bool, lock: LockGuard) returns (ok: bool)
      requires Valid() && lock.Holds(mutex)
      requires b in Contents() && b in state.blocks && End(state.blocks, b) == largeBlock
      requires |Contents()[b]| < numBytes && Align(numBytes) + LARGE < INT_MAX
      modifies this, vm
      ensures Valid()
      ensures b in Live(old(state)) && old(state).blocks[b].size < numBytes
      ensures var r := Extend(old(state), b, numBytes, vm.reservationSize, protect);
              ok == r.Some? && state == if ok then r.value else old(state)
      ensures if ok then
                && b in Contents() && old(Contents())[b] <= Contents()[b]
                && |Contents()[b]| == Align(numBytes) + BLOCK
                && Contents() == old(Contents())[b := Contents()[b]]
              else
                Contents() == old(Contents()) && vm.commitSize == old(vm.commitSize)
      ensures ok <==> Affordable(old(state), Align(numBytes) - |old(Contents())[b]|, vm.reservationSize, protect)
    {
      hide Valid, Contents, Live, WellFormed, Extend, Stretch, Grow;
      ContentsIsLive(b);
      ghost var h := state;
      var size := SizeOf(b);
      AlignFacts(numBytes);
      ExtendFacts(h, b, numBytes, vm.reservationSize, protect);
      var lacking := Align(numBytes) - size;
      ok := LargeBlockNeedsAtLeast(lacking, protect);
      if ok {
        ContentsIsLive(b);
        StretchBlock(b, lacking);
      }
    }

    // What clients do

    /** A client stores one byte into memory it owns. */
    method Write(b: nat, i: nat, v: byte)
      requires Valid() && b in Contents() && i < |Contents()[b]|
      modifies vm`bytes
      ensures Valid()
      ensures Contents() == old(Contents())[b := SetByte(old(Contents())[b], i, v)]
    {
      Threaded();
      HeaderBounds(vm, state.blocks, largeBlock, b);
      var x := b + BLOCK + i;
      vm.StoreByte(x, v);
      ghost var m, t := old(vm.bytes), state.blocks;
      PayloadWrite(vm.base, largeBlock, t, b, x, v, m, vm.bytes);
      assert Payload(vm.bytes, t, b) == SetByte(Payload(m, t, b), i, v);
      forall a ensures a in ContentsOf(vm.bytes, t) <==> a in ContentsOf(m, t)
               ensures a in ContentsOf(m, t) && a != b ==> ContentsOf(vm.bytes, t)[a] == ContentsOf(m, t)[a]
      {
        if a in ContentsOf(m, t) && a != b {
          assert Payload(vm.bytes, t, a) == Payload(m, t, a);
        }
      }
    }

    lemma LiveAligned(b: nat)
      requires Valid() && b in Contents()
      ensures 0 < b && b % ALIGNMENT == 0
    {
      TiledPlaced(state.blocks, state.base, state.large, b);
    }

    /** Alloc with a sensible size. */
    method AllocBlock(numBytes: nat, protect: bool) returns (r: Result<nat, HeapError>)
      requires Valid() && !mutex.locked
      requires 0 < numBytes <= MAX_REQUEST
      modifies this, vm, mutex
      ensures Valid() && !mutex.locked
      ensures var a := Allocate(old(state), numBytes, vm.reservationSize, protect);
              && state == a.heap
              && r == if a.block.None? then Failure(HeapAllocationFailure) else Success(a.block.value + BLOCK)
      ensures WellFormed(old(state))
      ensures r.Success? <==>
                || Scan(old(state), 0, Align(numBytes)).hit.Some?
                || Affordable(old(state), numBytes + (8 - numBytes % 8), vm.reservationSize, protect)
      ensures r.Failure? ==> Contents() == old(Contents()) && vm.commitSize == old(vm.commitSize)
      ensures r.Success? ==>
                && BLOCK < r.value && r.value % ALIGNMENT == 0
                && Allocates(old(Contents()), Contents(), r.value - BLOCK, numBytes)
                && Tight(Scan(old(state), 0, Align(numBytes)), numBytes, |Contents()[r.value - BLOCK]|)
    {
      hide Valid, Contents;
      var lock := new LockGuard(mutex, false);
      AlignFacts(numBytes);
      var block := AllocImpl(numBytes, protect, lock);
      lock.Release();
      if block.None? {
        return Failure(HeapAllocationFailure);
      }
      LiveAligned(block.value);
      return Success(block.value + BLOCK);
    }

    lemma KeysAreLive()
      requires Valid()
      ensures WellFormed(state) && Contents().Keys == Live(state).Keys
    {
      forall b ensures b in Contents() <==> b in Live(state) {
        if b in Live(state) {
          LiveIsContents(b);
        }
      }
    }

    method Alloc(numBytes: int, protect: bool) returns (r: Result<nat, HeapError>)
      requires Valid() && !mutex.locked
      modifies this, vm, mutex
      ensures Valid() && !mutex.locked
      ensures numBytes == 0 ==> r == Success(0)
      ensures numBytes < 0 ==> r == Failure(NegativeHeapAllocation)
      ensures numBytes > 2047 * 1024 * 1024 ==> r == Failure(UnsupportedAllocationAmount)
      ensures WellFormed(old(state))
      ensures 0 < numBytes <= 2047 * 1024 * 1024 ==>
                var a := Allocate(old(state), numBytes, vm.reservationSize, protect);
                && state == a.heap
                && r == if a.block.None? then Failure(HeapAllocationFailure) else Success(a.block.value + BLOCK)
      ensures 0 < numBytes <= 2047 * 1024 * 1024 ==>
                (r.Success? <==>
                   || Scan(old(state), 0, Align(numBytes)).hit.Some?
                   || Affordable(old(state), numBytes + (8 - numBytes % 8), vm.reservationSize, protect))
      ensures r.Failure? || r.value == 0 ==>
                Contents() == old(Contents()) && vm.commitSize == old(vm.commitSize)
      ensures r.Success? && r.value != 0 ==>
                && BLOCK <= r.value && r.value % ALIGNMENT == 0
                && Allocates(old(Contents()), Contents(), r.value - BLOCK, numBytes)
                && Tight(Scan(old(state), 0, Align(numBytes)), numBytes, |Contents()[r.value - BLOCK]|)
    {
      KeysAreLive();
      hide Valid, Contents, Tight, Scan, WellFormed;
      if numBytes != 0 {
        if numBytes > 0 {
          if numBytes <= MAX_REQUEST {
            r := AllocBlock(numBytes, protect);
          } else {
            r := Failure(UnsupportedAllocationAmount);
          }
        } else {
          r := Failure(NegativeHeapAllocation);
        }
      } else {
        r := Success(0);
      }
    }

    method Free(previousAllocation: nat) returns (halted: bool)
      requires Valid() && !mutex.locked
      requires previousAllocation != 0 ==> BLOCK <= previousAllocation && previousAllocation - BLOCK in Contents()
      modifies this, vm`bytes, mutex
      ensures Valid() && (!halted ==> !mutex.locked)
      ensures previousAllocation == 0 ==> !halted && Contents() == old(Contents()) && state == old(state)
      ensures previousAllocation != 0 ==>
                var b := previousAllocation - BLOCK;
                && b in Live(old(state))
                && match FreeResult(old(state), b)
                   case None => halted && state == old(state) && Contents() == old(Contents())
                   case Some(h') => !halted && state == h' && Contents() == old(Contents()) - {b}
    {
      halted := false;
      if previousAllocation != 0 {
        var lock := new LockGuard(mutex, false);
        halted := FreeImpl(previousAllocation - BLOCK, lock);
        if !halted {
          lock.Release();
        }
      }
    }

    /** Free, of a block that is there. */
    method FreeBlock(b: nat) returns (halted: bool)
      requires Valid() && !mutex.locked && b in Contents()
      modifies this, vm`bytes, mutex
      ensures Valid() && (!halted ==> !mutex.locked)
      ensures b in Live(old(state))
      ensures match FreeResult(old(state), b)
              case None => halted && SomeFreeHalts(state) && Contents() == old(Contents())
              case Some(h') => !halted && state == h' && Contents() == old(Contents()) - {b}
    {
      halted := Free(b + BLOCK);
    }

    // The other threads

    method BordersSentinel(b: nat) returns (last: bool)
      requires Valid() && b in Contents()
      ensures b in state.blocks && last == (End(state.blocks, b) == largeBlock)
    {
      Threaded();
      HeaderBounds(vm, state.blocks, largeBlock, b);
      HeaderBounds(vm, state.blocks, largeBlock, End(state.blocks, b));
      assert HeaderIs(vm.bytes, b, state.blocks[b]);
      assert HeaderIs(vm.bytes, End(state.blocks, b), state.blocks[End(state.blocks, b)]);
      last := IsLargeBlock(vm.bytes, RightBlock(vm.bytes, b));
    }

    method PerformExtend(b: nat, newSize: nat, protect: bool, ghost others: set<nat>)
      requires Valid() && !mutex.locked && b in Contents() && b in others && others <= Contents().Keys
      modifies this, vm, mutex
      ensures Valid() && !mutex.locked && b in Contents() && old(Contents())[b] <= Contents()[b]
      ensures Contents() == old(Contents())[b := Contents()[b]]
      ensures Effect(old(state), vm.reservationSize, old(Contents()), Contents(), OtherExtend(b, newSize, protect), others)
      ensures Fair(Shared(old(state), others))
      ensures Act(Shared(old(state), others), OtherExtend(b, newSize, protect), vm.reservationSize) == Some(Shared(state, others))
    {
      hide Valid, Contents, Extend, WellFormed, Live;
      KeysAreLive();
      ContentsIsLive(b);
      var size := SizeOf(b);
      var last := BordersSentinel(b);
      if last && size < newSize && Align(newSize) + LARGE < INT_MAX {
        var lock := new LockGuard(mutex, false);
        var ok := ExtendInPlace(b, newSize, protect, lock);
        lock.Release();
      }
    }

    /** One step of a thread that uses only the blocks in `others`; a step that
        names any other block is none of theirs and is skipped. */
    method Perform(a: Action, others: set<nat>) returns (halted: bool, others': set<nat>)
      requires Valid() && !mutex.locked
      requires others <= Contents().Keys
      modifies this, vm, mutex
      ensures Valid() && (!halted ==> !mutex.locked) && others' <= Contents().Keys
      ensures Fair(Shared(old(state), others))
      ensures Act(Shared(old(state), others), a, vm.reservationSize) == if halted then None else Some(Shared(state, others'))
      ensures halted ==> a.OtherFree? && a.block in others && SomeFreeHalts(state) && Contents() == old(Contents())
      ensures !halted ==> Effect(old(state), vm.reservationSize, old(Contents()), Contents(), a, others)
      ensures Undisturbed(old(Contents()), Contents(), others)
      ensures others' * old(Contents()).Keys <= others
    {
      hide Valid, Contents, Allocate, Extend, WellFormed, Live;
      KeysAreLive();
      halted, others' := false, others;
      match a
      case OtherAlloc(numBytes, protect) =>
        if 0 < numBytes && Align(numBytes) + LARGE < INT_MAX {
          var lock := new LockGuard(mutex, false);
          var block := AllocImpl(numBytes, protect, lock);
          lock.Release();
          if block.Some? {
            others' := others + {block.value};
          }
          assert others + {} == others;
        }
      case OtherExtend(b, newSize, protect) =>
        if b in others {
          PerformExtend(b, newSize, protect, others);
        }
      case OtherFree(b) =>
        if b in others {
          halted := FreeBlock(b);
          if !halted {
            others' := others - {b};
          }
        }
      case OtherWrite(b, i, v) =>
        if b in others {
          var size := SizeOf(b);
          if i < size {
            Write(b, i, v);
          }
        }
    }

    method Interfere(actions: seq<Action>, others: set<nat>) returns (halted: bool, others': set<nat>)
      requires Valid() && !mutex.locked
      requires others <= Contents().Keys
      modifies this, vm, mutex
      ensures Valid() && (!halted ==> !mutex.locked) && others' <= Contents().Keys
      ensures Fair(Shared(old(state), others))
      ensures ActAll(Shared(old(state), others), actions, vm.reservationSize) == if halted then None else Some(Shared(state, others'))
      ensures halted ==> SomeFreeHalts(state)
      ensures Undisturbed(old(Contents()), Contents(), others)
      ensures others' * old(Contents()).Keys <= others
      ensures actions == [] ==> !halted && Contents() == old(Contents()) && state == old(state) && others' == others
    {
      hide Valid, Contents, Act, SomeFreeHalts, WellFormed, Live;
      KeysAreLive();
      halted, others' := false, others;
      for k := 0 to |actions|
        invariant Valid() && !mutex.locked && others' <= Contents().Keys
        invariant Fair(Shared(old(state), others)) && Fair(Shared(state, others'))
        invariant ActAll(Shared(state, others'), actions[k..], vm.reservationSize)
                  == ActAll(Shared(old(state), others), actions, vm.reservationSize)
        invariant Undisturbed(old(Contents()), Contents(), others)
        invariant others' * old(Contents()).Keys <= others
        invariant k == 0 ==> Contents() == old(Contents()) && state == old(state) && others' == others
      {
        assert actions[k..][1..] == actions[k + 1..];
        halted, others' := Perform(actions[k], others');
        if halted {
          return;
        }
        KeysAreLive();
      }
    }

    // Realloc

    method Read(b: nat, i: nat) returns (v: byte)
      requires Valid() && b in Contents() && i < |Contents()[b]|
      ensures v == Contents()[b][i]
    {
      Threaded();
      HeaderBounds(vm, state.blocks, largeBlock, b);
      v := vm.bytes[b + BLOCK + i];
    }

    method CopyByte(b: nat, c: nat, i: nat, others: set<nat>, actions: seq<Action>, ghost before: map<nat, seq<byte>>)
      returns (halted: bool, others': set<nat>)
      requires Valid() && !mutex.locked
      requires Copied(before, Contents(), b, c, i) && b != c && i < |before[b]|
      requires others <= Contents().Keys && b !in others && c !in others
      modifies this, vm, mutex
      ensures Valid() && (!halted ==> !mutex.locked) && others' <= Contents().Keys && b !in others' && c !in others'
      ensures Fair(Shared(old(state), others))
      ensures ActAll(Shared(old(state), others), actions, vm.reservationSize) == if halted then None else Some(Shared(state, others'))
      ensures halted ==> SomeFreeHalts(state)
      ensures !halted ==> Copied(before, Contents(), b, c, i + 1)
      ensures Undisturbed(old(Contents()), Contents(), others + {c}) && others' * old(Contents()).Keys <= others
      ensures actions == [] ==> !halted && others' == others && state == old(state) && ChangesOnly(old(Contents()), Contents(), c)
    {
      hide Valid, Contents, ActAll, SomeFreeHalts, Fair;
      halted, others' := Interfere(actions, others);
      if !halted {
        ghost var now := Contents();
        assert Copied(before, now, b, c, i);
        var v := Read(b, i);
        Write(c, i, v);
        CopiedByte(before, now, b, c, i);
      }
    }

    /** Copies the payload of b to the larger block c while the other threads go
        on: before every byte they take the steps the schedule gives them. */
    method Copy(b: nat, c: nat, size: nat, others: set<nat>, schedule: seq<seq<Action>>)
      returns (halted: bool, others': set<nat>)
      requires Valid() && !mutex.locked
      requires b in Contents() && c in Contents() && b != c && size == |Contents()[b]| <= |Contents()[c]|
      requires others <= Contents().Keys && b !in others && c !in others
      modifies this, vm, mutex
      ensures Valid() && (!halted ==> !mutex.locked) && others' <= Contents().Keys && b !in others' && c !in others'
      ensures Fair(Shared(old(state), others)) && Fair(Shared(state, others'))
      ensures ActAt(Shared(old(state), others), schedule, 0, size + 1, vm.reservationSize)
              == if halted then None else ActAt(Shared(state, others'), schedule, size, size + 1, vm.reservationSize)
      ensures halted ==> SomeFreeHalts(state)
      ensures !halted ==> Copied(old(Contents()), Contents(), b, c, size)
      ensures Undisturbed(old(Contents()), Contents(), others + {c}) && others' * old(Contents()).Keys <= others
      ensures schedule == [] ==> !halted && others' == others && state == old(state) && ChangesOnly(old(Contents()), Contents(), c)
    {
      hide Valid, Contents, ActAll, SomeFreeHalts, Live, WellFormed;
      ghost var before := Contents();
      KeysAreLive();
      halted, others' := false, others;
      for i := 0 to size
        invariant Valid() && !mutex.locked && others' <= Contents().Keys && b !in others' && c !in others'
        invariant Fair(Shared(old(state), others)) && Fair(Shared(state, others'))
        invariant ActAt(Shared(state, others'), schedule, i, size + 1, vm.reservationSize)
                  == ActAt(Shared(old(state), others), schedule, 0, size + 1, vm.reservationSize)
        invariant Copied(before, Contents(), b, c, i)
        invariant Undisturbed(before, Contents(), others + {c}) && others' * before.Keys <= others
        invariant schedule == [] ==> others' == others && state == old(state) && ChangesOnly(before, Contents(), c)
      {
        ghost var mid, others1 := Contents(), others';
        halted, others' := CopyByte(b, c, i, others', StepsAt(schedule, i), before);
        UndisturbedTwice(before, mid, Contents(), others, others1, others', {c});
        KeysAreLive();
        if halted {
          return;
        }
      }
    }

    /** Copy, unlocked, then free. */
    method MoveBlock(b: nat, c: nat, others: set<nat>, schedule: seq<seq<Action>>) returns (r: Outcome<Option<nat>>)
      requires Valid() && !mutex.locked
      requires b in Contents() && c in Contents() && b != c && |Contents()[b]| <= |Contents()[c]|
      requires others <= Contents().Keys && b !in others && c !in others
      modifies this, vm, mutex
      ensures r.Halted? || r == Done(Some(c))
      ensures r.Halted? ==> Valid() && SomeFreeHalts(state) && Undisturbed(old(Contents()), Contents(), others + {c})
      ensures r.Done? ==> Valid() && !mutex.locked && Inherits(old(Contents()), Contents(), b, c)
      ensures r.Done? ==> Undisturbed(old(Contents()), Contents(), others + {b, c})
      ensures r.Done? && schedule == [] ==> Moves(old(Contents()), Contents(), b, c)
      ensures Fair(Shared(old(state), others)) && b in Live(old(state))
      ensures match MoveResult(Shared(old(state), others), b, schedule, vm.reservationSize)
              case None => r.Halted?
              case Some(h') => r.Done? && state == h'
    {
      hide Valid, Contents, ActAll, ActAt, SomeFreeHalts, WellFormed, Live;
      ghost var before := Contents();
      KeysAreLive();
      LiveIsContents(b);
      var size := SizeOf(b);
      var halted, others' := Copy(b, c, size, others, schedule);
      if !halted {
        ghost var mid, others1 := Contents(), others';
        LastPoint(Shared(state, others'), schedule, size, vm.reservationSize);
        halted, others' := Interfere(StepsAt(schedule, size), others');
        UndisturbedTwice(before, mid, Contents(), others, others1, others', {c});
      }
      if !halted {
        ghost var copied := Contents();
        assert Copied(before, copied, b, c, size);
        halted := FreeBlock(b);
        FreedSource(before, copied, b, c);
      }
      r := if halted then Halted else Done(Some(c));
    }

    /** The call as its caller sees it: the block it gets holds the old bytes as
        a prefix. `others` and `schedule` are the other threads' blocks and their
        steps after the lock has been released. */
    method ReallocImpl(b: nat, numBytes: nat, protect: bool, lock: LockGuard, others: set<nat>, schedule: seq<seq<Action>>)
      returns (r: Outcome<Option<nat>>)
      requires Valid() && lock.Holds(mutex)
      requires b in Contents() && |Contents()[b]| < numBytes <= MAX_REQUEST
      requires others <= Contents().Keys && b !in others
      modifies this, vm, lock, mutex
      ensures r.Done? ==> Valid() && if lock.mutex == null then !mutex.locked else lock.Holds(mutex)
      ensures r == Done(None) ==> Contents() == old(Contents()) && vm.commitSize == old(vm.commitSize)
      ensures r.Done? && r.value.Some? ==> Reallocates(old(Contents()), Contents(), b, r.value.value, numBytes)
      ensures WellFormed(old(state)) && b in old(state).blocks
      ensures End(old(state).blocks, b) == old(largeBlock) ==> r.Done? && lock.Holds(mutex)
      ensures r.Done? && r.value.Some? ==> Regrown(old(state), old(Contents()), Contents(), b, r.value.value, numBytes)
      ensures r.Done? ==> Undisturbed(old(Contents()), Contents(), others + {b})
      ensures r.Halted? ==> Valid() && SomeFreeHalts(state) && Undisturbed(old(Contents()), Contents(), others)
      ensures r.Done? && r.value.Some? && schedule == [] ==> Moves(old(Contents()), Contents(), b, r.value.value)
      ensures b in Live(old(state))
      ensures FollowsPlan(PlanRealloc(old(state), b, numBytes, vm.reservationSize, protect), Pointer(r), b, state,
                          others, schedule, vm.reservationSize)
    {
      hide Valid, Contents, Allocate, Extend, WellFormed, Live, MoveResult, SomeFreeHalts;
      ghost var before, h := Contents(), state;
      ContentsIsLive(b);
      AlignFacts(numBytes);
      AlignFacts(Align(numBytes));
      AlignTwice(numBytes);
      hide Align, Scan, Tight;
      var last := BordersSentinel(b);
      if !last {
        var block := AllocImpl(Align(numBytes), protect, lock);
        if block.None? {
          return Done(None);
        }
        ghost var mid := Contents();
        lock.Release();
        r := MoveBlock(b, block.value, others, schedule);
        if r.Done? {
          MovedBlock(before, mid, Contents(), b, block.value, numBytes);
        }
      } else {
        var ok := ExtendInPlace(b, numBytes, protect, lock);
        r := Done(if ok then Some(b) else None);
      }
    }

    /** Realloc with a sensible size. */
    method ReallocBlock(b: nat, numBytes: nat, protect: bool, others: set<nat>, schedule: seq<seq<Action>>)
      returns (r: Outcome<Result<nat, HeapError>>)
      requires Valid() && !mutex.locked
      requires b in Contents() && 0 < numBytes <= MAX_REQUEST
      requires others <= Contents().Keys && b !in others
      modifies this, vm, mutex
      ensures r.Done? ==> Valid() && !mutex.locked
      ensures r.Done? && r.value.Failure? ==> Contents() == old(Contents()) && vm.commitSize == old(vm.commitSize)
      ensures r.Done? ==> Undisturbed(old(Contents()), Contents(), others + {b})
      ensures r.Halted? ==> Valid() && SomeFreeHalts(state) && Undisturbed(old(Contents()), Contents(), others)
      ensures b in Live(old(state)) && WellFormed(old(state)) && b in old(state).blocks
      ensures FollowsPlan(PlanRealloc(old(state), b, numBytes, vm.reservationSize, protect), r, b, state,
                          others, schedule, vm.reservationSize)
      ensures |old(Contents())[b]| >= numBytes ==> r == Done(Success(b + BLOCK)) && Contents() == old(Contents())
      ensures End(old(state).blocks, b) == old(largeBlock) ==> r.Done?
      ensures r.Done? && r.value.Success? && |old(Contents())[b]| < numBytes ==>
                BLOCK <= r.value.value && Regrown(old(state), old(Contents()), Contents(), b, r.value.value - BLOCK, numBytes)
      ensures r.Done? && r.value.Success? ==>
                && BLOCK <= r.value.value
                && Reallocates(old(Contents()), Contents(), b, r.value.value - BLOCK, numBytes)
                && (schedule == [] ==> Moves(old(Contents()), Contents(), b, r.value.value - BLOCK))
    {
      hide Valid, Contents, Allocate, Extend, WellFormed, Live, Regrown;
      ContentsIsLive(b);
      var size := SizeOf(b);
      if size >= numBytes {
        return Done(Success(b + BLOCK));
      }
      var lock := new LockGuard(mutex, false);
      var moved := ReallocImpl(b, numBytes, protect, lock, others, schedule);
      match moved
      case Halted =>
        r := Halted;
      case Done(block) =>
        lock.Release();
        r := Pointer(moved);
    }

    method Realloc(previousAllocation: nat, numBytes: int, protect: bool, others: set<nat>, schedule: seq<seq<Action>>)
      returns (r: Outcome<Result<nat, HeapError>>)
      requires Valid() && !mutex.locked
      requires previousAllocation != 0 ==> BLOCK <= previousAllocation && previousAllocation - BLOCK in Contents()
      requires others <= Contents().Keys && previousAllocation - BLOCK !in others
      modifies this, vm, mutex
      ensures r.Done? ==> Valid() && !mutex.locked
      ensures r.Done? && r.value.Failure? ==> Contents() == old(Contents()) && vm.commitSize == old(vm.commitSize)
      ensures r.Done? && previousAllocation != 0 ==>
                Undisturbed(old(Contents()), Contents(), others + {previousAllocation - BLOCK})
      ensures r.Halted? ==> Valid() && SomeFreeHalts(state) && Undisturbed(old(Contents()), Contents(), others)
      ensures previousAllocation == 0 ==> r.Done?
      ensures previousAllocation == 0 && r.value.Success? && r.value.value != 0 ==>
                BLOCK <= r.value.value && Allocates(old(Contents()), Contents(), r.value.value - BLOCK, numBytes)
      ensures numBytes < 0 ==> r == Done(Failure(NegativeHeapAllocation))
      ensures previousAllocation == 0 && numBytes == 0 ==> r == Done(Success(0))
      ensures previousAllocation == 0 && 0 < numBytes <= 2047 * 1024 * 1024 ==>
                var a := Allocate(old(state), numBytes, vm.reservationSize, protect);
                && state == a.heap
                && r == Done(if a.block.None? then Failure(HeapAllocationFailure) else Success(a.block.value + BLOCK))
      ensures numBytes > 2047 * 1024 * 1024 ==> r == Done(Failure(UnsupportedAllocationAmount))
      ensures previousAllocation != 0 && numBytes == 0 ==>
                var b := previousAllocation - BLOCK;
                && b in Live(old(state))
                && match FreeResult(old(state), b)
                   case None => r.Halted?
                   case Some(h') => r == Done(Success(0)) && state == h' && Contents() == old(Contents()) - {b}
      ensures previousAllocation != 0 && 0 < numBytes <= 2047 * 1024 * 1024 ==>
                var b := previousAllocation - BLOCK;
                && b in Live(old(state)) && WellFormed(old(state)) && b in old(state).blocks
                && (|old(Contents())[b]| >= numBytes ==>
                      r == Done(Success(previousAllocation)) && Contents() == old(Contents()))
                && (End(old(state).blocks, b) == old(largeBlock) ==> r.Done?)
                && (r.Done? && r.value.Success? && |old(Contents())[b]| < numBytes ==>
                      BLOCK <= r.value.value && Regrown(old(state), old(Contents()), Contents(), b, r.value.value - BLOCK, numBytes))
                && FollowsPlan(PlanRealloc(old(state), b, numBytes, vm.reservationSize, protect), r, b, state,
                               others, schedule, vm.reservationSize)
                && (r.Done? && r.value.Success? ==>
                      && BLOCK <= r.value.value
                      && Reallocates(old(Contents()), Contents(), b, r.value.value - BLOCK, numBytes)
                      && (schedule == [] ==> Moves(old(Contents()), Contents(), b, r.value.value - BLOCK)))
    {
      hide Valid, Contents, Regrown, Allocate, Live, FollowsPlan, WellFormed;
      if previousAllocation != 0 {
        ContentsIsLive(previousAllocation - BLOCK);
      }
      if previousAllocation == 0 {
        var a := Alloc(numBytes, protect);
        return Done(a);
      }
      var b := previousAllocation - BLOCK;
      if numBytes < 0 {
        return Done(Failure(NegativeHeapAllocation));
      } else if numBytes > MAX_REQUEST {
        return Done(Failure(UnsupportedAllocationAmount));
      } else if numBytes == 0 {
        var halted := FreeBlock(b);
        return if halted then Halted else Done(Success(0));
      }
      r := ReallocBlock(b, numBytes, protect, others, schedule);
    }

    // Walk

    lemma FirstHeader()
      requires Valid()
      ensures Tiled(state.blocks, vm.base, largeBlock) && vm.base in state.blocks && vm.base <= largeBlock
      ensures vm.base + BLOCK <= |vm.bytes| && HeaderIs(vm.bytes, vm.base, state.blocks[vm.base])
      ensures state.blocks[vm.base].left == 0
    {
      Threaded();
      HeaderBounds(vm, state.blocks, largeBlock, vm.base);
    }

    /** RightBlock finds the next header, which points back; one more free block is
        behind. */
    lemma NextHeader(a: nat)
      requires Valid() && a in state.blocks && a < largeBlock
      requires a + BLOCK <= |vm.bytes| && HeaderIs(vm.bytes, a, state.blocks[a])
      ensures var right := RightBlock(vm.bytes, a);
              && right in state.blocks && a < right <= largeBlock && state.blocks[right].left == a
              && right + BLOCK <= |vm.bytes| && HeaderIs(vm.bytes, right, state.blocks[right])
              && |FreeBelow(state.blocks, right)| == |FreeBelow(state.blocks, a)| + if IsFree(vm.bytes, a) then 1 else 0
    {
      Threaded();
      HeaderBounds(vm, state.blocks, largeBlock, a);
      FreeBelowNext(state.blocks, vm.base, largeBlock, a);
      HeaderBounds(vm, state.blocks, largeBlock, End(state.blocks, a));
      assert a !in FreeBelow(state.blocks, a);
    }

    lemma LastHeader(a: nat)
      requires Valid() && a in state.blocks && a <= largeBlock
      requires a + BLOCK <= |vm.bytes| && HeaderIs(vm.bytes, a, state.blocks[a]) && IsLargeBlock(vm.bytes, a)
      ensures a == largeBlock
    {
      Threaded();
      HeaderBounds(vm, state.blocks, largeBlock, a);
    }

    /** The blocks from the left; free ones are counted. */
    method WalkBlocks() returns (ok: bool, expectedFreeListSize: nat)
      requires Valid()
      ensures ok && expectedFreeListSize == |state.order|
    {
      var current, previous := vm.base, 0;
      expectedFreeListSize := 0;
      FirstHeader();
      ghost var t := state.blocks;
      FreeBelowBase(t, vm.base, largeBlock);
      while !IsLargeBlock(vm.bytes, current)
        invariant current in t && current + BLOCK <= |vm.bytes| && HeaderIs(vm.bytes, current, t[current])
        invariant current <= largeBlock && previous == t[current].left
        invariant expectedFreeListSize == |FreeBelow(t, current)|
        decreases largeBlock - current
      {
        hide Valid, FreeBelow;
        if LeftBlock(vm.bytes, current) != previous {
          return false, expectedFreeListSize;
        }
        NextHeader(current);
        expectedFreeListSize := expectedFreeListSize + if IsFree(vm.bytes, current) then 1 else 0;
        previous, current := current, RightBlock(vm.bytes, current);
      }
      LastHeader(current);
      FreeListCount(state);
      ok := true;
    }

    /** The free list, against the count. */
    method WalkFreeList(expected: nat) returns (ok: bool)
      requires Valid()
      ensures ok <==> expected == |state.order|
    {
      var current := freeList;
      var expectedFreeListSize: int := expected;
      ghost var i: nat := 0;
      while current != 0
        invariant i <= |state.order| && current == LinkTo(state.order, i)
        invariant expectedFreeListSize == expected - i
        decreases |state.order| - i
      {
        HeadInTable(i);
        assert state.order[i] in state.order;
        if !IsFree(vm.bytes, current) {
          return false;
        }
        current, expectedFreeListSize := NextFree(vm.bytes, current), expectedFreeListSize - 1;
        i := i + 1;
      }
      EndOfList(i);
      ok := expectedFreeListSize == 0;
    }

    /** False as soon as one of the assertions would fail. */
    method WalkImpl() returns (ok: bool)
      requires Valid()
      ensures ok
    {
      var expectedFreeListSize;
      ok, expectedFreeListSize := WalkBlocks();
      if ok {
        ok := WalkFreeList(expectedFreeListSize);
      }
    }
  }
}
