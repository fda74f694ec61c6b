// The logger as a state machine: producers, drainers and flushers interleaved
// over the queue and its two locks. A step is what a thread does between two
// points where it may have to wait or where the outside world decides.
module LoggerModel {
  import opened LogFormat
  import opened Wrappers

  type Thread = nat

  // Where messages end up

  /** What became of a drained message: written whole; written in part when the
      write failed, and then logged to the emergency logger; or, behind a failed
      one, sent to the emergency logger only. */
  datatype Delivery =
    | Whole(record: Record)
    | Torn(record: Record, written: nat, more: bool)
    | Redirected(record: Record)

  datatype EmergencyLine = EmergencyLine(text: string, level: Level)

  const WRITE_FAILED := EmergencyLine("Failed to write to primary log. Message follows:", ERR)
  const REST_FOLLOWS := EmergencyLine("Remaining entries follow:", INFO)

  function Records(ds: seq<Delivery>): (rs: seq<Record>)
    ensures |rs| == |ds|
  {
    seq(|ds|, i requires 0 <= i < |ds| => ds[i].record)
  }

  /** The bytes a delivery leaves in the file. */
  function FilePart(d: Delivery): string {
    match d
    case Whole(r) => Line(r)
    case Torn(r, written, _) => if written <= |Line(r)| then Line(r)[..written] else Line(r)
    case Redirected(_) => ""
  }

  function FileImage(ds: seq<Delivery>): string {
    if ds == [] then "" else FileImage(ds[..|ds| - 1]) + FilePart(ds[|ds| - 1])
  }

  /** The calls a delivery makes on the emergency logger. */
  function EmergencyPart(d: Delivery): seq<EmergencyLine> {
    match d
    case Whole(_) => []
    case Torn(r, _, more) =>
      [WRITE_FAILED, EmergencyLine(Line(r), r.level)] + if more then [REST_FOLLOWS] else []
    case Redirected(r) => [EmergencyLine(Stripped(Line(r)), r.level)]
  }

  function EmergencyImage(ds: seq<Delivery>): seq<EmergencyLine> {
    if ds == [] then [] else EmergencyImage(ds[..|ds| - 1]) + EmergencyPart(ds[|ds| - 1])
  }

  function Redirections(rs: seq<Record>): (ds: seq<Delivery>)
    ensures |ds| == |rs|
  {
    seq(|rs|, i requires 0 <= i < |rs| => Redirected(rs[i]))
  }

  /** A write of nothing: the first message of the batch is torn, the others
      follow it to the emergency logger. */
  function Failed(batch: seq<Record>, offset: nat): seq<Delivery>
    requires batch != []
  {
    [Torn(batch[0], offset, |batch| > 1)] + Redirections(batch[1..])
  }

  predicate AllWhole(ds: seq<Delivery>) {
    forall d <- ds :: d.Whole?
  }

  function Lines(rs: seq<Record>): string {
    if rs == [] then "" else Lines(rs[..|rs| - 1]) + Line(rs[|rs| - 1])
  }

  lemma RecordsConcat(a: seq<Delivery>, b: seq<Delivery>)
    ensures Records(a + b) == Records(a) + Records(b)
  {
  }

  lemma {:induction false} FileImageConcat(a: seq<Delivery>, b: seq<Delivery>)
    ensures FileImage(a + b) == FileImage(a) + FileImage(b)
  {
    hide FilePart;
    if b == [] {
      assert a + b == a;
    } else {
      FileImageConcat(a, b[..|b| - 1]);
      assert (a + b)[..|a + b| - 1] == a + b[..|b| - 1];
    }
  }

  lemma {:induction false} EmergencyImageConcat(a: seq<Delivery>, b: seq<Delivery>)
    ensures EmergencyImage(a + b) == EmergencyImage(a) + EmergencyImage(b)
  {
    hide EmergencyPart;
    if b == [] {
      assert a + b == a;
    } else {
      EmergencyImageConcat(a, b[..|b| - 1]);
      assert (a + b)[..|a + b| - 1] == a + b[..|b| - 1];
    }
  }

  lemma {:induction false} RedirectionsLeaveNoBytes(rs: seq<Record>)
    ensures FileImage(Redirections(rs)) == ""
  {
    if rs != [] {
      RedirectionsLeaveNoBytes(rs[..|rs| - 1]);
      assert Redirections(rs)[..|rs| - 1] == Redirections(rs[..|rs| - 1]);
    }
  }

  lemma FailedBatch(batch: seq<Record>, offset: nat)
    requires batch != [] && offset <= |Line(batch[0])|
    ensures Records(Failed(batch, offset)) == batch
    ensures FileImage(Failed(batch, offset)) == Line(batch[0])[..offset]
  {
    var torn := Torn(batch[0], offset, |batch| > 1);
    assert FileImage([torn]) == FilePart(torn) by { assert [torn][..0] == []; }
    FileImageConcat([torn], Redirections(batch[1..]));
    RedirectionsLeaveNoBytes(batch[1..]);
  }

  lemma {:induction false} WholeImage(ds: seq<Delivery>)
    requires AllWhole(ds)
    ensures FileImage(ds) == Lines(Records(ds)) && EmergencyImage(ds) == []
  {
    if ds != [] {
      var front, last := ds[..|ds| - 1], ds[|ds| - 1];
      assert last in ds;
      WholeImage(front);
      assert Records(ds)[..|ds| - 1] == Records(front);
    }
  }

  // The machine

  /** Draining, Flushing and Pausing threads hold the queue's lock and are about
      to take the file's; a Writing thread holds the file's. */
  datatype Pc =
    | Idle
    | Draining(batch: seq<Record>)
    | Writing(batch: seq<Record>, offset: nat)
    | FlushWaits
    | Flushing
    | Pausing

  datatype State = State(pcs: map<Thread, Pc>, queueLock: Option<Thread>, fileLock: Option<Thread>,
                         queue: seq<Record>, file: string, emergency: seq<EmergencyLine>,
                         history: seq<Record>, delivered: seq<Delivery>)

  const INITIAL: State := State(map[], None, None, [], "", [], [], [])

  function PcOf(s: State, t: Thread): Pc {
    if t in s.pcs then s.pcs[t] else Idle
  }

  datatype Event =
    | Append(thread: Thread, record: Record)     // Log, under the queue's lock
    | Detach(thread: Thread)                     // EmptyQueue takes the queue's lock and the queue
    | TakeFile(thread: Thread)                   // ... then the file's lock, and drops the queue's
    | WriteSome(thread: Thread, count: nat)      // one call of Write
    | WriteFails(thread: Thread)                 // ... that writes nothing
    | Finish(thread: Thread)                     // the end of EmptyQueue
    | BeginFlush(thread: Thread)
    | LockForFlush(thread: Thread)               // one turn of Flush's loop
    | CheckFlush(thread: Thread)
    | LockForPause(thread: Thread)
    | FinishPause(thread: Thread)

  predicate Enabled(s: State, e: Event) {
    match e
    case Append(t, r) => PcOf(s, t) == Idle && s.queueLock == None
    case Detach(t) => PcOf(s, t) == Idle && s.queueLock == None
    case TakeFile(t) => PcOf(s, t).Draining? && s.fileLock == None
    case WriteSome(t, k) =>
      && PcOf(s, t).Writing? && PcOf(s, t).batch != []
      && 0 < k && PcOf(s, t).offset + k <= |Line(PcOf(s, t).batch[0])|
    case WriteFails(t) => PcOf(s, t).Writing? && PcOf(s, t).batch != []
    case Finish(t) => PcOf(s, t).Writing? && PcOf(s, t).batch == []
    case BeginFlush(t) => PcOf(s, t) == Idle
    case LockForFlush(t) => PcOf(s, t) == FlushWaits && s.queueLock == None
    case CheckFlush(t) => PcOf(s, t) == Flushing && s.fileLock == None
    case LockForPause(t) => PcOf(s, t) == Idle && s.queueLock == None
    case FinishPause(t) => PcOf(s, t) == Pausing && s.fileLock == None
  }

  function Move(s: State, t: Thread, pc: Pc): State {
    s.(pcs := s.pcs[t := pc])
  }

  function Apply(s: State, e: Event): State
    requires Enabled(s, e)
  {
    match e
    case Append(t, r) => s.(queue := s.queue + [r], history := s.history + [r])
    case Detach(t) => Move(s, t, Draining(s.queue)).(queueLock := Some(t), queue := [])
    case TakeFile(t) => Move(s, t, Writing(PcOf(s, t).batch, 0)).(queueLock := None, fileLock := Some(t))
    case WriteSome(t, k) =>
      var Writing(batch, offset) := PcOf(s, t);
      var line := Line(batch[0]);
      var written := s.(file := s.file + line[offset..offset + k]);
      if offset + k < |line| then Move(written, t, Writing(batch, offset + k))
      else Move(written, t, Writing(batch[1..], 0)).(delivered := s.delivered + [Whole(batch[0])])
    case WriteFails(t) =>
      var Writing(batch, offset) := PcOf(s, t);
      var ds := Failed(batch, offset);
      Move(s, t, Idle).(fileLock := None, delivered := s.delivered + ds, emergency := s.emergency + EmergencyImage(ds))
    case Finish(t) => Move(s, t, Idle).(fileLock := None)
    case BeginFlush(t) => Move(s, t, FlushWaits)
    case LockForFlush(t) => Move(s, t, Flushing).(queueLock := Some(t))
    case CheckFlush(t) => Move(s, t, if s.queue == [] then Idle else FlushWaits).(queueLock := None)
    case LockForPause(t) => Move(s, t, Pausing).(queueLock := Some(t))
    case FinishPause(t) => Move(s, t, Idle).(queueLock := None)
  }

  // The invariant

  /** The batch held under the file's lock, the batch held under the queue's. */
  function InFile(s: State): seq<Record> {
    if s.fileLock.Some? && PcOf(s, s.fileLock.value).Writing? then PcOf(s, s.fileLock.value).batch else []
  }

  function Offset(s: State): nat {
    if s.fileLock.Some? && PcOf(s, s.fileLock.value).Writing? then PcOf(s, s.fileLock.value).offset else 0
  }

  function InHand(s: State): seq<Record> {
    if s.queueLock.Some? && PcOf(s, s.queueLock.value).Draining? then PcOf(s, s.queueLock.value).batch else []
  }

  predicate HoldsQueue(pc: Pc) {
    pc.Draining? || pc.Flushing? || pc.Pausing?
  }

  ghost predicate Locks(s: State) {
    forall t: Thread {:trigger PcOf(s, t)} ::
      && (HoldsQueue(PcOf(s, t)) <==> s.queueLock == Some(t))
      && (PcOf(s, t).Writing? <==> s.fileLock == Some(t))
  }

  /** Every message is in exactly one place, in the order of the calls; file and
      emergency log hold what the deliveries say, and the file also the first
      bytes of the message being written. */
  ghost predicate Accounts(history: seq<Record>, delivered: seq<Delivery>, inFile: seq<Record>, offset: nat,
                           inHand: seq<Record>, queue: seq<Record>, file: string, emergency: seq<EmergencyLine>) {
    && (if inFile == [] then offset == 0 else offset < |Line(inFile[0])|)
    && Records(delivered) + inFile + inHand + queue == history
    && file == FileImage(delivered) + (if inFile == [] then "" else Line(inFile[0])[..offset])
    && emergency == EmergencyImage(delivered)
  }

  ghost predicate Inv(s: State) {
    && Locks(s)
    && Accounts(s.history, s.delivered, InFile(s), Offset(s), InHand(s), s.queue, s.file, s.emergency)
  }

  lemma OneDelivery(d: Delivery)
    ensures FileImage([d]) == FilePart(d) && EmergencyImage([d]) == EmergencyPart(d)
  {
    assert [d][..0] == [];
  }

  /** The bytes of one write. */
  lemma WriteAccounts(history: seq<Record>, delivered: seq<Delivery>, batch: seq<Record>, offset: nat, k: nat,
                      inHand: seq<Record>, queue: seq<Record>, file: string, emergency: seq<EmergencyLine>)
    requires Accounts(history, delivered, batch, offset, inHand, queue, file, emergency)
    requires batch != [] && 0 < k && offset + k <= |Line(batch[0])|
    ensures var line := Line(batch[0]);
            var file' := file + line[offset..offset + k];
            if offset + k < |line| then Accounts(history, delivered, batch, offset + k, inHand, queue, file', emergency)
            else Accounts(history, delivered + [Whole(batch[0])], batch[1..], 0, inHand, queue, file', emergency)
  {
    hide Line, FileImage, EmergencyImage;
    var line := Line(batch[0]);
    assert line[..offset] + line[offset..offset + k] == line[..offset + k];
    if offset + k == |line| {
      var d := Whole(batch[0]);
      OneDelivery(d);
      FileImageConcat(delivered, [d]);
      EmergencyImageConcat(delivered, [d]);
      RecordsConcat(delivered, [d]);
      assert batch == [batch[0]] + batch[1..];
      assert line[..offset + k] == line;
      var b, c := Records(delivered), batch[1..];
      assert Records([d]) == [batch[0]];
      assert b + batch + inHand + queue == b + [batch[0]] + c + inHand + queue;
    }
  }

  lemma FailAccounts(history: seq<Record>, delivered: seq<Delivery>, batch: seq<Record>, offset: nat,
                     inHand: seq<Record>, queue: seq<Record>, file: string, emergency: seq<EmergencyLine>)
    requires Accounts(history, delivered, batch, offset, inHand, queue, file, emergency) && batch != []
    ensures Accounts(history, delivered + Failed(batch, offset), [], 0, inHand, queue, file,
                     emergency + EmergencyImage(Failed(batch, offset)))
  {
    hide Line, Failed, Records, FileImage, EmergencyImage;
    var ds := Failed(batch, offset);
    FailedBatch(batch, offset);
    FileImageConcat(delivered, ds);
    EmergencyImageConcat(delivered, ds);
    RecordsConcat(delivered, ds);
  }

  /** A step moves one thread, which takes or gives up locks for itself only. */
  lemma MoveKeepsLocks(s: State, s': State, t: Thread)
    requires Locks(s) && s'.pcs == s.pcs[t := PcOf(s', t)]
    requires HoldsQueue(PcOf(s', t)) <==> s'.queueLock == Some(t)
    requires PcOf(s', t).Writing? <==> s'.fileLock == Some(t)
    requires s'.queueLock == s.queueLock || {s.queueLock, s'.queueLock} <= {None, Some(t)}
    requires s'.fileLock == s.fileLock || {s.fileLock, s'.fileLock} <= {None, Some(t)}
    ensures Locks(s')
  {
    forall u: Thread {:trigger PcOf(s', u)}
      ensures HoldsQueue(PcOf(s', u)) <==> s'.queueLock == Some(u)
      ensures PcOf(s', u).Writing? <==> s'.fileLock == Some(u)
    {
      assert u != t ==> PcOf(s', u) == PcOf(s, u);
    }
  }

  /** The steps that write. */
  lemma WriteKeeps(s: State, t: Thread, e: Event)
    requires Inv(s) && Enabled(s, e)
    requires e == WriteFails(t) || (e.WriteSome? && e.thread == t)
    ensures Inv(Apply(s, e))
  {
    hide Line, Accounts, Failed;
    var s' := Apply(s, e);
    var Writing(batch, offset) := PcOf(s, t);
    assert s.fileLock == Some(t);
    MoveKeepsLocks(s, s', t);
    assert InHand(s') == InHand(s);
    if e.WriteSome? {
      WriteAccounts(s.history, s.delivered, batch, offset, e.count, InHand(s), s.queue, s.file, s.emergency);
    } else {
      FailAccounts(s.history, s.delivered, batch, offset, InHand(s), s.queue, s.file, s.emergency);
    }
  }

  lemma Reassociate(a: seq<Record>, b: seq<Record>, c: seq<Record>, d: seq<Record>)
    ensures a + b + c + d == a + (b + c + d)
  {
  }

  /** The steps that only pass messages on, or nothing. */
  lemma PassKeeps(s: State, t: Thread, e: Event)
    requires Inv(s) && Enabled(s, e)
    requires e in {Detach(t), TakeFile(t), Finish(t), BeginFlush(t), LockForFlush(t), CheckFlush(t), LockForPause(t), FinishPause(t)}
    ensures Inv(Apply(s, e))
  {
    hide Line, FileImage, EmergencyImage, Records;
    var s' := Apply(s, e);
    MoveKeepsLocks(s, s', t);
    assert s.queueLock.Some? && s.queueLock != Some(t) ==> PcOf(s', s.queueLock.value) == PcOf(s, s.queueLock.value);
    assert s.fileLock.Some? && s.fileLock != Some(t) ==> PcOf(s', s.fileLock.value) == PcOf(s, s.fileLock.value);
    assert InFile(s') + InHand(s') + s'.queue == InFile(s) + InHand(s) + s.queue;
    Reassociate(Records(s.delivered), InFile(s), InHand(s), s.queue);
    Reassociate(Records(s.delivered), InFile(s'), InHand(s'), s'.queue);
  }

  /** Every step of every thread keeps the messages together, in order and in one
      place each, also when the file can no longer be written. */
  lemma StepKeeps(s: State, e: Event)
    requires Inv(s) && Enabled(s, e)
    ensures Inv(Apply(s, e))
  {
    hide Line, FileImage, EmergencyImage, Records;
    var s' := Apply(s, e);
    match e
    case WriteSome(t, k) => WriteKeeps(s, t, e);
    case WriteFails(t) => WriteKeeps(s, t, e);
    case Append(t, r) =>
      assert forall u: Thread {:trigger PcOf(s', u)} :: PcOf(s', u) == PcOf(s, u);
    case _ => PassKeeps(s, e.thread, e);
  }

  // Runs

  ghost predicate Runs(s: State, events: seq<Event>, end: State)
    decreases |events|
  {
    if events == [] then s == end
    else Enabled(s, events[0]) && Runs(Apply(s, events[0]), events[1..], end)
  }

  lemma {:induction false} EveryRunKeeps(s: State, events: seq<Event>, end: State)
    requires Inv(s) && Runs(s, events, end)
    ensures Inv(end) && s.history <= end.history
    decreases |events|
  {
    if events != [] {
      StepKeeps(s, events[0]);
      assert s.history <= Apply(s, events[0]).history;
      EveryRunKeeps(Apply(s, events[0]), events[1..], end);
    }
  }

  lemma InitialInv()
    ensures Inv(INITIAL)
  {
  }

  /** The invariant holds in every state that the logger reaches. */
  lemma ReachableStates(events: seq<Event>, s: State)
    requires Runs(INITIAL, events, s)
    ensures Inv(s)
  {
    hide Inv, Runs;
    InitialInv();
    EveryRunKeeps(INITIAL, events, s);
  }

  lemma {:induction false} LinesConcat(a: seq<Record>, b: seq<Record>)
    ensures Lines(a + b) == Lines(a) + Lines(b)
  {
    hide Line;
    if b == [] {
      assert a + b == a;
    } else {
      LinesConcat(a, b[..|b| - 1]);
      assert (a + b)[..|a + b| - 1] == a + b[..|b| - 1];
    }
  }

  /** What is still to be written of a batch of which the first message has
      reached `offset`. */
  function Unwritten(batch: seq<Record>, offset: nat): string
    requires batch != [] ==> offset <= |Line(batch[0])|
  {
    if batch == [] then "" else Line(batch[0])[offset..] + Lines(batch[1..])
  }

  lemma OneLine(r: Record)
    ensures Lines([r]) == Line(r)
  {
    assert [r][..0] == [];
  }

  lemma OneLineEach(batch: seq<Record>)
    ensures Lines(batch) == if batch == [] then "" else Line(batch[0]) + Lines(batch[1..])
  {
    hide Line;
    if batch != [] {
      LinesConcat([batch[0]], batch[1..]);
      OneLine(batch[0]);
      assert batch == [batch[0]] + batch[1..];
    }
  }

  lemma BatchLines(batch: seq<Record>, offset: nat)
    requires batch != [] ==> offset <= |Line(batch[0])|
    ensures (if batch == [] then "" else Line(batch[0])[..offset]) + Unwritten(batch, offset) == Lines(batch)
  {
    OneLineEach(batch);
    hide Line, Lines;
    if batch != [] {
      var line := Line(batch[0]);
      assert line == line[..offset] + line[offset..];
      assert line[..offset] + (line[offset..] + Lines(batch[1..])) == line + Lines(batch[1..]);
    }
  }

  lemma Append4(f: string, p: string, u: string, l: string, h: string, q: string)
    requires p + u == l
    ensures f + p + u + h + q == f + l + h + q
  {
    assert f + p + u == f + l;
  }

  lemma PendingLines(s: State)
    requires Inv(s) && AllWhole(s.delivered)
    ensures InFile(s) != [] ==> Offset(s) <= |Line(InFile(s)[0])|
    ensures s.file + Unwritten(InFile(s), Offset(s)) + Lines(InHand(s)) + Lines(s.queue) == Lines(s.history)
    ensures s.emergency == []
  {
    hide Line, Lines, FileImage, EmergencyImage, Records, Unwritten;
    var done, batch, held, offset := Records(s.delivered), InFile(s), InHand(s), Offset(s);
    WholeImage(s.delivered);
    LinesConcat(done + batch + held, s.queue);
    LinesConcat(done + batch, held);
    LinesConcat(done, batch);
    BatchLines(batch, offset);
    Append4(Lines(done), if batch == [] then "" else Line(batch[0])[..offset], Unwritten(batch, offset),
            Lines(batch), Lines(held), Lines(s.queue));
  }

  /** In every reachable state, unless a write has failed: the file, what a drainer
      still has to write, what the next drainer holds and what is queued are, in
      this order, all messages ever logged. */
  lemma FileAndPending(events: seq<Event>, s: State)
    requires Runs(INITIAL, events, s) && AllWhole(s.delivered)
    ensures InFile(s) != [] ==> Offset(s) <= |Line(InFile(s)[0])|
    ensures s.file + Unwritten(InFile(s), Offset(s)) + Lines(InHand(s)) + Lines(s.queue) == Lines(s.history)
    ensures s.emergency == []
  {
    ReachableStates(events, s);
    PendingLines(s);
  }

  /** Where nobody holds the file's lock and a flusher holds the queue's, an empty
      queue means that nothing is on its way. */
  lemma FlushSeesAll(s: State, t: Thread)
    requires Inv(s) && Enabled(s, CheckFlush(t)) && s.queue == []
    ensures Records(s.delivered) == s.history
    ensures AllWhole(s.delivered) ==> s.file == Lines(s.history)
  {
    assert s.queueLock == Some(t);
    if AllWhole(s.delivered) {
      WholeImage(s.delivered);
    }
  }

  /** Flush is called in a reachable state s and returns in state `end`: every
      message logged before the call has been delivered, and is in the file unless
      a write has failed. */
  lemma FlushDelivers(before: seq<Event>, s: State, events: seq<Event>, end: State, t: Thread)
    requires Runs(INITIAL, before, s) && Runs(s, events, end)
    requires Enabled(end, CheckFlush(t)) && PcOf(Apply(end, CheckFlush(t)), t) == Idle
    ensures s.history <= Records(end.delivered)
    ensures AllWhole(end.delivered) ==> Lines(s.history) <= end.file
  {
    hide Line, Lines, FileImage, EmergencyImage, Records, Accounts;
    ReachableStates(before, s);
    EveryRunKeeps(s, events, end);
    FlushSeesAll(end, t);
    LinesConcat(s.history, end.history[|s.history|..]);
    assert end.history == s.history + end.history[|s.history|..];
  }

  /** The messages behind a failed one reach the emergency logger as a blank and
      the text they were logged with. */
  lemma RedirectedText(r: Record)
    requires ValidRecord(r)
    ensures EmergencyPart(Redirected(r)) == [EmergencyLine(" " + r.message, r.level)]
  {
    StrippedLine(r);
  }

  lemma {:induction false} RedirectedTexts(rs: seq<Record>)
    requires forall r <- rs :: ValidRecord(r)
    ensures EmergencyImage(Redirections(rs)) ==
            seq(|rs|, i requires 0 <= i < |rs| => EmergencyLine(" " + rs[i].message, rs[i].level))
  {
    hide Line, Stripped;
    if rs != [] {
      var front, last := rs[..|rs| - 1], rs[|rs| - 1];
      RedirectedTexts(front);
      assert last in rs;
      RedirectedText(last);
      assert Redirections(rs)[..|rs| - 1] == Redirections(front);
    }
  }

  /** What the emergency logger gets when nothing can be written any more. */
  lemma FailedText(batch: seq<Record>, offset: nat)
    requires batch != [] && forall r <- batch :: ValidRecord(r)
    ensures EmergencyImage(Failed(batch, offset)) ==
            [EmergencyLine("Failed to write to primary log. Message follows:", ERR), EmergencyLine(Line(batch[0]), batch[0].level)]
            + (if |batch| > 1 then [EmergencyLine("Remaining entries follow:", INFO)] else [])
            + seq(|batch| - 1, i requires 0 <= i < |batch| - 1 => EmergencyLine(" " + batch[i + 1].message, batch[i + 1].level))
  {
    hide Line, Stripped, EmergencyImage;
    var torn, rest := Torn(batch[0], offset, |batch| > 1), batch[1..];
    OneDelivery(torn);
    EmergencyImageConcat([torn], Redirections(rest));
    RedirectedTexts(rest);
    assert seq(|rest|, i requires 0 <= i < |rest| => EmergencyLine(" " + rest[i].message, rest[i].level)) ==
           seq(|batch| - 1, i requires 0 <= i < |batch| - 1 => EmergencyLine(" " + batch[i + 1].message, batch[i + 1].level));
  }

  // No deadlock

  /** Only t moves. */
  ghost predicate By(events: seq<Event>, t: Thread) {
    forall e <- events :: e.thread == t
  }

  lemma {:induction false} RunsConcat(s: State, first: seq<Event>, mid: State, second: seq<Event>, end: State)
    requires Runs(s, first, mid) && Runs(mid, second, end)
    ensures Runs(s, first + second, end)
    decreases |first|
  {
    if first == [] {
      assert first + second == second;
    } else {
      assert (first + second)[1..] == first[1..] + second;
      RunsConcat(Apply(s, first[0]), first[1..], mid, second, end);
    }
  }

  lemma OneStep(s: State, e: Event)
    requires Enabled(s, e)
    ensures Runs(s, [e], Apply(s, e))
  {
    assert [e][1..] == [];
  }

  lemma OffsetInside(s: State, t: Thread)
    requires Inv(s) && s.fileLock == Some(t) && PcOf(s, t).Writing? && PcOf(s, t).batch != []
    ensures PcOf(s, t).offset < |Line(PcOf(s, t).batch[0])|
  {
  }

  /** The thread with the file's lock never waits: it can write to the end of its
      batch and let go. */
  lemma {:induction false} WriterFinishes(s: State, t: Thread) returns (events: seq<Event>, end: State)
    requires Inv(s) && s.fileLock == Some(t)
    ensures Runs(s, events, end) && Inv(end) && By(events, t)
    ensures end.fileLock == None && end.queueLock == s.queueLock
    decreases |PcOf(s, t).batch|
  {
    hide Accounts, Line;
    assert PcOf(s, t).Writing?;
    var Writing(batch, offset) := PcOf(s, t);
    if batch == [] {
      events, end := [Finish(t)], Apply(s, Finish(t));
      OneStep(s, Finish(t));
      StepKeeps(s, Finish(t));
    } else {
      OffsetInside(s, t);
      var e := WriteSome(t, |Line(batch[0])| - offset);
      OneStep(s, e);
      StepKeeps(s, e);
      var mid := Apply(s, e);
      assert PcOf(mid, t) == Writing(batch[1..], 0);
      events, end := WriterFinishes(mid, t);
      RunsConcat(s, [e], mid, events, end);
      events := [e] + events;
    }
  }

  /** From every reachable state the threads that hold locks can go on until both
      locks are free: the queue's lock is taken before the file's everywhere, so
      the two cannot wait for each other. */
  lemma LocksCanBeFreed(before: seq<Event>, s: State) returns (events: seq<Event>, end: State)
    requires Runs(INITIAL, before, s)
    ensures Runs(s, events, end) && Inv(end) && end.queueLock == None && end.fileLock == None
    ensures forall e <- events :: Some(e.thread) in {s.queueLock, s.fileLock}
  {
    hide Accounts;
    ReachableStates(before, s);
    events, end := [], s;
    if s.fileLock.Some? {
      events, end := WriterFinishes(s, s.fileLock.value);
    }
    if end.queueLock.Some? {
      var u, mid := end.queueLock.value, end;
      assert HoldsQueue(PcOf(mid, u));
      var e := if PcOf(mid, u).Draining? then TakeFile(u) else if PcOf(mid, u).Flushing? then CheckFlush(u) else FinishPause(u);
      OneStep(mid, e);
      StepKeeps(mid, e);
      RunsConcat(s, events, mid, [e], Apply(mid, e));
      events, end := events + [e], Apply(mid, e);
      if e.TakeFile? {
        var more, last := WriterFinishes(end, u);
        RunsConcat(s, events, end, more, last);
        events, end := events + more, last;
      }
    }
  }

  // The drain of one thread, uninterrupted

  /** What a drain can make of a queue: every message is written whole, or from
      one message on they are handed to the emergency logger. */
  ghost predicate Drains(queue: seq<Record>, ds: seq<Delivery>) {
    && Records(ds) == queue
    && (AllWhole(ds) ||
        exists i: nat, offset: nat ::
          i < |ds| && AllWhole(ds[..i]) && offset < |Line(queue[i])| && ds[i..] == Failed(queue[i..], offset))
  }

  ghost function Drained(s: State, t: Thread, ds: seq<Delivery>): State {
    s.(pcs := s.pcs[t := Idle], queue := [], delivered := s.delivered + ds,
       file := s.file + FileImage(ds), emergency := s.emergency + EmergencyImage(ds))
  }

  function Wholes(rs: seq<Record>): (ds: seq<Delivery>)
    ensures |ds| == |rs|
  {
    seq(|rs|, i requires 0 <= i < |rs| => Whole(rs[i]))
  }

  /** The state in which the first k messages of t's batch have been written. */
  ghost function Wrote(s: State, t: Thread, k: nat): State
    requires PcOf(s, t).Writing? && k <= |PcOf(s, t).batch|
  {
    var ds := Wholes(PcOf(s, t).batch[..k]);
    s.(pcs := s.pcs[t := Writing(PcOf(s, t).batch[k..], 0)], delivered := s.delivered + ds, file := s.file + FileImage(ds))
  }

  lemma NoRun(s: State)
    ensures Runs(s, [], s)
  {
  }

  lemma NoBytes()
    ensures FileImage([]) == "" && EmergencyImage([]) == []
  {
  }

  lemma LineNotEmpty(r: Record)
    ensures Line(r) != ""
  {
  }

  /** The k-th of them. */
  lemma OneWrite(s: State, t: Thread, k: nat)
    requires PcOf(s, t).Writing? && PcOf(s, t).offset == 0 && 0 < k <= |PcOf(s, t).batch|
    ensures var e := WriteSome(t, |Line(PcOf(s, t).batch[k - 1])|);
            Enabled(Wrote(s, t, k - 1), e) && Apply(Wrote(s, t, k - 1), e) == Wrote(s, t, k)
  {
    hide Line, FileImage;
    var batch := PcOf(s, t).batch;
    var r := batch[k - 1];
    assert batch[k - 1..][0] == r && batch[k - 1..][1..] == batch[k..];
    LineNotEmpty(r);
    assert Wholes(batch[..k]) == Wholes(batch[..k - 1]) + [Whole(r)];
    OneDelivery(Whole(r));
    FileImageConcat(Wholes(batch[..k - 1]), [Whole(r)]);
    assert Line(r)[0..0 + |Line(r)|] == Line(r);
  }

  lemma {:induction false} WholeWrites(s: State, t: Thread, k: nat) returns (events: seq<Event>)
    requires PcOf(s, t).Writing? && PcOf(s, t).offset == 0 && k <= |PcOf(s, t).batch|
    ensures Runs(s, events, Wrote(s, t, k)) && By(events, t)
    decreases k
  {
    hide Line, FileImage, Runs;
    var batch := PcOf(s, t).batch;
    if k == 0 {
      events := [];
      NoBytes();
      assert Wrote(s, t, 0).pcs == s.pcs by { assert batch[0..] == batch; }
      assert Wrote(s, t, 0) == s;
      NoRun(s);
    } else {
      events := WholeWrites(s, t, k - 1);
      hide Wrote, Apply, Enabled;
      var mid, e := Wrote(s, t, k - 1), WriteSome(t, |Line(batch[k - 1])|);
      OneWrite(s, t, k);
      OneStep(mid, e);
      RunsConcat(s, events, mid, [e], Apply(mid, e));
      events := events + [e];
    }
  }

  ghost predicate CanDrain(s: State, t: Thread) {
    PcOf(s, t) == Idle && s.queueLock == None && s.fileLock == None
  }

  /** t has detached the queue and taken the file's lock. */
  lemma BeginDrain(s: State, t: Thread) returns (s': State)
    requires CanDrain(s, t)
    ensures s' == s.(pcs := s.pcs[t := Writing(s.queue, 0)], fileLock := Some(t), queue := [])
    ensures Runs(s, [Detach(t), TakeFile(t)], s')
  {
    var mid := Apply(s, Detach(t));
    s' := Apply(mid, TakeFile(t));
    assert [Detach(t), TakeFile(t)][1..] == [TakeFile(t)];
    OneStep(mid, TakeFile(t));
    assert s'.pcs == s.pcs[t := Writing(s.queue, 0)];
  }

  lemma ThenStep(s: State, events: seq<Event>, mid: State, e: Event)
    requires Runs(s, events, mid) && Enabled(mid, e)
    ensures Runs(s, events + [e], Apply(mid, e))
  {
    OneStep(mid, e);
    RunsConcat(s, events, mid, [e], Apply(mid, e));
  }

  lemma WholesAre(ds: seq<Delivery>)
    requires AllWhole(ds)
    ensures ds == Wholes(Records(ds))
  {
    forall i | 0 <= i < |ds| ensures ds[i] == Whole(Records(ds)[i]) {
      assert ds[i] in ds;
    }
  }

  lemma GoodDrain(s: State, t: Thread, ds: seq<Delivery>) returns (events: seq<Event>)
    requires CanDrain(s, t) && Records(ds) == s.queue && AllWhole(ds)
    ensures Runs(s, events, Drained(s, t, ds)) && By(events, t)
  {
    hide Runs, Line, FileImage, EmergencyImage, Records, AllWhole;
    var s' := BeginDrain(s, t);
    var n := |s.queue|;
    var writes := WholeWrites(s', t, n);
    var last := Wrote(s', t, n);
    RunsConcat(s, [Detach(t), TakeFile(t)], s', writes, last);
    events := [Detach(t), TakeFile(t)] + writes;
    ThenStep(s, events, last, Finish(t));
    events := events + [Finish(t)];
    assert s.queue[..n] == s.queue;
    WholesAre(ds);
    WholeImage(ds);
    assert s.emergency + [] == s.emergency;
    assert Apply(last, Finish(t)).pcs == s.pcs[t := Idle];
  }

  /** The write that gets to `offset`, if there is one, and the one that fails. */
  lemma FailRun(s: State, events: seq<Event>, mid: State, t: Thread, offset: nat) returns (all: seq<Event>, end: State)
    requires Runs(s, events, mid) && By(events, t) && PcOf(mid, t).Writing? && PcOf(mid, t).offset == 0
    requires var batch := PcOf(mid, t).batch; batch != [] && offset < |Line(batch[0])|
    ensures Runs(s, all, end) && By(all, t)
    ensures var batch := PcOf(mid, t).batch;
            var ds := Failed(batch, offset);
            end == mid.(pcs := mid.pcs[t := Idle], fileLock := None, delivered := mid.delivered + ds,
                        file := mid.file + Line(batch[0])[..offset], emergency := mid.emergency + EmergencyImage(ds))
  {
    hide Runs, Line, EmergencyImage, Failed;
    var torn := mid;
    all := events;
    if 0 < offset {
      torn := Apply(mid, WriteSome(t, offset));
      ThenStep(s, all, mid, WriteSome(t, offset));
      all := all + [WriteSome(t, offset)];
    }
    end := Apply(torn, WriteFails(t));
    ThenStep(s, all, torn, WriteFails(t));
    all := all + [WriteFails(t)];
  }

  lemma FailedDrain(s: State, t: Thread, ds: seq<Delivery>, i: nat, offset: nat) returns (events: seq<Event>)
    requires CanDrain(s, t) && Records(ds) == s.queue
    requires i < |ds| && AllWhole(ds[..i]) && offset < |Line(s.queue[i])| && ds[i..] == Failed(s.queue[i..], offset)
    ensures Runs(s, events, Drained(s, t, ds)) && By(events, t)
  {
    hide Runs, Line, FileImage, EmergencyImage, AllWhole, Failed;
    var s' := BeginDrain(s, t);
    var writes := WholeWrites(s', t, i);
    var mid := Wrote(s', t, i);
    RunsConcat(s, [Detach(t), TakeFile(t)], s', writes, mid);
    var end;
    events, end := FailRun(s, [Detach(t), TakeFile(t)] + writes, mid, t, offset);
    var whole, failed := ds[..i], Failed(s.queue[i..], offset);
    assert ds == whole + failed;
    assert Records(whole) == s.queue[..i];
    WholesAre(whole);
    WholeImage(whole);
    FailedBatch(s.queue[i..], offset);
    FileImageConcat(whole, failed);
    EmergencyImageConcat(whole, failed);
    assert end.delivered == s.delivered + ds;
    assert end.file == s.file + FileImage(ds);
    assert end.emergency == s.emergency + EmergencyImage(ds);
    assert end.pcs == s.pcs[t := Idle];
  }

  /** Every such outcome is a run of the machine, in which only t moves. */
  lemma DrainRun(s: State, t: Thread, ds: seq<Delivery>) returns (events: seq<Event>)
    requires CanDrain(s, t) && Drains(s.queue, ds)
    ensures Runs(s, events, Drained(s, t, ds)) && By(events, t)
  {
    hide Runs, Line, FileImage, EmergencyImage;
    if AllWhole(ds) {
      events := GoodDrain(s, t, ds);
    } else {
      var i: nat, offset: nat :|
        i < |ds| && AllWhole(ds[..i]) && offset < |Line(s.queue[i])| && ds[i..] == Failed(s.queue[i..], offset);
      events := FailedDrain(s, t, ds, i, offset);
    }
  }

  /** What a call of Log leaves, from the drains it was driven to and whether the
      message was queued in the end. */
  ghost function Logged(s: State, t: Thread, ds: seq<Delivery>, r: Record, queued: bool): State {
    var drained := if ds == [] then s else Drained(s, t, ds);
    if queued then drained.(queue := drained.queue + [r], history := drained.history + [r]) else drained
  }

  lemma LogRun(s: State, t: Thread, ds: seq<Delivery>, r: Record, queued: bool) returns (events: seq<Event>)
    requires CanDrain(s, t) && (ds == [] || Drains(s.queue, ds))
    ensures Runs(s, events, Logged(s, t, ds, r, queued)) && By(events, t)
  {
    hide Runs, Drains;
    var drained := if ds == [] then s else Drained(s, t, ds);
    events := [];
    NoRun(s);
    if ds != [] {
      events := DrainRun(s, t, ds);
    }
    if queued {
      ThenStep(s, events, drained, Append(t, r));
      events := events + [Append(t, r)];
    }
  }
}
