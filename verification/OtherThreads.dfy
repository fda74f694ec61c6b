// What other threads do to a heap while a reallocation copies without the lock.
module OtherThreads {
  import opened BlockTable
  import opened Bytes
  import opened HeapModel
  import opened Wrappers

  /** One atomic step of another thread on the heap. A reallocation elsewhere is
      an OtherExtend, or an OtherAlloc, some OtherWrites and an OtherFree. */
  datatype Action =
    | OtherAlloc(numBytes: nat, protect: bool)
    | OtherExtend(block: nat, newSize: nat, protect: bool)
    | OtherFree(block: nat)
    | OtherWrite(block: nat, index: nat, value: byte)

  /** What the other threads do at the k-th point where they can. */
  function StepsAt(schedule: seq<seq<Action>>, k: nat): seq<Action> {
    if k < |schedule| then schedule[k] else []
  }

  /** A heap and the blocks of the other threads in it. */
  datatype Shared = Shared(heap: HeapState, others: set<nat>)

  ghost predicate Fair(s: Shared) {
    WellFormed(s.heap) && s.others <= Live(s.heap).Keys
  }

  /** The blocks that are not theirs stay as they are. */
  ghost predicate Spares(s: Shared, s': Shared) {
    forall b {:trigger b in Live(s'.heap)} {:trigger b in s'.others} :: b in Live(s.heap) && b !in s.others ==>
      b in Live(s'.heap) && b !in s'.others && Live(s'.heap)[b] == Live(s.heap)[b]
  }

  predicate MayExtend(s: Shared, b: nat, newSize: nat) {
    && b in s.others && b in Live(s.heap) && b in s.heap.blocks
    && End(s.heap.blocks, b) == s.heap.large
    && s.heap.blocks[b].size < newSize && Align(newSize) + LARGE < INT_MAX
  }

  /** None when the step reaches HCF, which only a free can. A step that names a
      block that is not theirs, or an impossible size, is skipped. */
  function Act(s: Shared, a: Action, reservation: nat): (r: Option<Shared>)
    requires Fair(s)
    ensures r.Some? ==> Fair(r.value) && Spares(s, r.value)
  {
    match a
    case OtherAlloc(n, protect) =>
      if 0 < n && Align(n) + LARGE < INT_MAX then
        AllocateKeeps(s.heap, n, reservation, protect);
        var r := Allocate(s.heap, n, reservation, protect);
        Some(Shared(r.heap, s.others + if r.block.Some? then {r.block.value} else {}))
      else Some(s)
    case OtherExtend(b, n, protect) =>
      if MayExtend(s, b, n) then
        AlignFacts(n);
        ExtendKeeps(s.heap, b, n, reservation, protect);
        match Extend(s.heap, b, n, reservation, protect)
        case None => Some(s)
        case Some(h') => Some(Shared(h', s.others))
      else Some(s)
    case OtherFree(b) =>
      if b in s.others then
        match FreeResult(s.heap, b)
        case None => None
        case Some(h') =>
          ReleaseKeeps(s.heap, b);
          Some(Shared(h', s.others - {b}))
      else Some(s)
    case OtherWrite(_, _, _) => Some(s)
  }

  function ActAll(s: Shared, actions: seq<Action>, reservation: nat): (r: Option<Shared>)
    requires Fair(s)
    ensures r.Some? ==> Fair(r.value) && Spares(s, r.value)
    decreases |actions|
  {
    if actions == [] then Some(s)
    else
      match Act(s, actions[0], reservation)
      case None => None
      case Some(s') => ActAll(s', actions[1..], reservation)
  }

  /** The points i to n - 1 of a schedule. */
  function ActAt(s: Shared, schedule: seq<seq<Action>>, i: nat, n: nat, reservation: nat): (r: Option<Shared>)
    requires Fair(s) && i <= n
    ensures r.Some? ==> Fair(r.value) && Spares(s, r.value)
    decreases n - i
  {
    if i == n then Some(s)
    else
      match ActAll(s, StepsAt(schedule, i), reservation)
      case None => None
      case Some(s') => ActAt(s', schedule, i + 1, n, reservation)
  }

  lemma LastPoint(s: Shared, schedule: seq<seq<Action>>, i: nat, reservation: nat)
    requires Fair(s)
    ensures ActAt(s, schedule, i, i + 1, reservation) == ActAll(s, StepsAt(schedule, i), reservation)
  {
  }

  /** The end of a reallocation that moves: the others' steps before each of the
      bytes copied and before the free, then the free. */
  function MoveResult(s: Shared, b: nat, schedule: seq<seq<Action>>, reservation: nat): Option<HeapState>
    requires Fair(s) && b in Live(s.heap) && b !in s.others
  {
    match ActAt(s, schedule, 0, Live(s.heap)[b] + 1, reservation)
    case None => None
    case Some(s') => FreeResult(s'.heap, b)
  }
}
