// The logger's queue of entries, and how a drainer writes it to the file.
module Loggers {
  import opened Locking
  import opened LogFormat
  import opened LoggerModel

  const LOGGER_HEAP_RETRY_COUNT: nat := 2

  class LogEntry {
    var next: LogEntry?
    const record: Record
    const message: string

    constructor (r: Record)
      ensures next == null && record == r && message == Line(r)
    {
      next, record, message := null, r, Line(r);
    }
  }

  /** A file takes any part of what it is given; nothing stands for an error. */
  class File {
    var contents: string

    constructor ()
      ensures contents == ""
    {
      contents := "";
    }

    method Write(buffer: string) returns (count: nat)
      modifies this
      ensures count <= |buffer| && contents == old(contents) + buffer[..count]
    {
      count :| 0 <= count <= |buffer|;
      contents := contents + buffer[..count];
    }
  }

  class EmergencyLogger {
    var lines: seq<EmergencyLine>

    constructor ()
      ensures lines == []
    {
      lines := [];
    }

    method Log(text: string, level: Level)
      modifies this
      ensures lines == old(lines) + [EmergencyLine(text, level)]
    {
      lines := lines + [EmergencyLine(text, level)];
    }
  }

  /** Following FNext from head visits exactly the nodes. */
  ghost predicate Chain(head: LogEntry?, nodes: seq<LogEntry>)
    reads nodes
  {
    && head == (if nodes == [] then null else nodes[0])
    && (forall i, j :: 0 <= i < j < |nodes| ==> nodes[i] != nodes[j])
    && (forall i {:trigger nodes[i].next} :: 0 <= i < |nodes| ==>
          nodes[i].next == (if i + 1 < |nodes| then nodes[i + 1] else null))
    && (forall i {:trigger nodes[i].record} {:trigger nodes[i].message} :: 0 <= i < |nodes| ==>
          nodes[i].message == Line(nodes[i].record) && ValidRecord(nodes[i].record))
  }

  ghost function RecordsIn(nodes: seq<LogEntry>): seq<Record> {
    seq(|nodes|, i requires 0 <= i < |nodes| => nodes[i].record)
  }

  // What each step adds to the logs

  lemma WholeStep(ds: seq<Delivery>, r: Record)
    ensures FileImage(ds + [Whole(r)]) == FileImage(ds) + Line(r)
    ensures EmergencyImage(ds + [Whole(r)]) == EmergencyImage(ds)
    ensures Records(ds + [Whole(r)]) == Records(ds) + [r]
  {
    hide Line, FileImage, EmergencyImage;
    OneDelivery(Whole(r));
    FileImageConcat(ds, [Whole(r)]);
    EmergencyImageConcat(ds, [Whole(r)]);
    RecordsConcat(ds, [Whole(r)]);
  }

  lemma Further(ds: seq<Delivery>, more: seq<Delivery>)
    ensures FileImage(ds + more) == FileImage(ds) + FileImage(more)
    ensures EmergencyImage(ds + more) == EmergencyImage(ds) + EmergencyImage(more)
    ensures Records(ds + more) == Records(ds) + Records(more)
    ensures AllWhole(ds + more) <==> AllWhole(ds) && AllWhole(more)
  {
    hide Line, FileImage, EmergencyImage;
    FileImageConcat(ds, more);
    EmergencyImageConcat(ds, more);
    RecordsConcat(ds, more);
    assert forall d <- ds :: d in ds + more;
    assert forall d <- more :: d in ds + more;
  }

  lemma RedirectStep(rs: seq<Record>)
    requires rs != []
    ensures EmergencyImage(Redirections(rs)) ==
            [EmergencyLine(Stripped(Line(rs[0])), rs[0].level)] + EmergencyImage(Redirections(rs[1..]))
  {
    hide Line, FileImage, EmergencyImage, Stripped;
    OneDelivery(Redirected(rs[0]));
    assert Redirections(rs) == [Redirected(rs[0])] + Redirections(rs[1..]);
    EmergencyImageConcat([Redirected(rs[0])], Redirections(rs[1..]));
  }

  lemma FailStep(rs: seq<Record>, written: nat)
    requires rs != []
    ensures EmergencyImage(Failed(rs, written)) ==
            [WRITE_FAILED, EmergencyLine(Line(rs[0]), rs[0].level)]
            + (if |rs| > 1 then [REST_FOLLOWS] else []) + EmergencyImage(Redirections(rs[1..]))
  {
    hide Line, FileImage, EmergencyImage;
    var torn := Torn(rs[0], written, |rs| > 1);
    OneDelivery(torn);
    EmergencyImageConcat([torn], Redirections(rs[1..]));
  }

  lemma FailedDelivery(ds: seq<Delivery>, rs: seq<Record>, i: nat, written: nat)
    requires i < |rs| && Records(ds) == rs[..i] && AllWhole(ds) && written < |Line(rs[i])|
    ensures var all := ds + Failed(rs[i..], written);
            && Records(all) == rs && !AllWhole(all)
            && all[..i] == ds && all[i..] == Failed(rs[i..], written)
            && FileImage(all) == FileImage(ds) + Line(rs[i])[..written]
            && EmergencyImage(all) == EmergencyImage(ds) + EmergencyImage(Failed(rs[i..], written))
  {
    hide Line, FileImage, EmergencyImage;
    var f := Failed(rs[i..], written);
    FailedBatch(rs[i..], written);
    FileImageConcat(ds, f);
    EmergencyImageConcat(ds, f);
    RecordsConcat(ds, f);
    assert rs == rs[..i] + rs[i..];
    assert !f[0].Whole? && f[0] in ds + f;
  }

  /** Of an empty queue a drain makes nothing. */
  lemma DrainNothing(ds: seq<Delivery>)
    requires Drains([], ds)
    ensures ds == []
  {
  }

  class Logger {
    const file: File
    const emergency: EmergencyLogger
    const queueLock: Mutex
    const fileLock: Mutex
    var queueHead: LogEntry?
    var queueTail: LogEntry?
    ghost var nodes: seq<LogEntry>

    ghost predicate Valid()
      reads this, nodes
    {
      && queueLock != fileLock
      && Chain(queueHead, nodes)
      && queueTail == if nodes == [] then null else nodes[|nodes| - 1]
    }

    ghost predicate Unlocked()
      reads this, queueLock, fileLock
    {
      !queueLock.locked && !fileLock.locked
    }

    ghost function Messages(): seq<Record>
      reads this
    {
      RecordsIn(nodes)
    }

    constructor (f: File, e: EmergencyLogger)
      ensures Valid() && Unlocked() && Messages() == [] && file == f && emergency == e
      ensures fresh(queueLock) && fresh(fileLock)
    {
      file, emergency := f, e;
      queueLock := new Mutex();
      fileLock := new Mutex();
      queueHead, queueTail, nodes := null, null, [];
    }

    /** The tail of Log: the entry joins the queue. */
    method Enqueue(r: Record)
      requires Valid() && Unlocked() && ValidRecord(r)
      modifies this, nodes, queueLock
      ensures Valid() && Unlocked()
      ensures Messages() == old(Messages()) + [r]
    {
      hide Line;
      var entry := new LogEntry(r);
      var lock := new LockGuard(queueLock, false);
      if queueTail != null {
        queueTail.next := entry;
      } else {
        queueHead := entry;
      }
      queueTail := entry;
      nodes := nodes + [entry];
      lock.Release();
    }

    /** One message, in as many writes as the file makes of it. */
    method WriteMessage(message: string) returns (written: nat, ok: bool)
      requires message != ""
      modifies file
      ensures written <= |message| && (ok <==> written == |message|)
      ensures file.contents == old(file.contents) + message[..written]
    {
      written := 0;
      var again := true;
      while again
        invariant written <= |message| && (again <==> written < |message|)
        invariant file.contents == old(file.contents) + message[..written]
        decreases |message| - written
      {
        var currentWrite := file.Write(message[written..]);
        assert message[..written] + message[written..][..currentWrite] == message[..written + currentWrite];
        if currentWrite == 0 {
          return written, false;
        }
        written := written + currentWrite;
        again := written < |message|;
      }
      ok := true;
    }

    lemma NothingToRedirect()
      ensures EmergencyImage(Redirections([])) == []
    {
    }

    lemma ChainTail(entry: LogEntry, rest: seq<LogEntry>)
      requires Chain(entry, rest)
      ensures rest != [] && Chain(entry.next, rest[1..])
    {
      assert rest[0].next == if |rest| > 1 then rest[1] else null;
    }

    /** The entries behind a failed one, in order. */
    method LogShutdownForEntry(entry: LogEntry, ghost rest: seq<LogEntry>)
      requires Chain(entry, rest)
      modifies emergency
      ensures emergency.lines == old(emergency.lines) + EmergencyImage(Redirections(RecordsIn(rest)))
      decreases |rest|
    {
      hide Line, NthIndex, EmergencyImage, Redirections;
      assert entry == rest[0] && entry.message == Line(rest[0].record);
      StrippedLine(entry.record);
      var byteIndex := IndexOfByte(entry.message, ':', 3);
      byteIndex := byteIndex + 1;
      assert 0 < byteIndex < |entry.message|;
      emergency.Log(entry.message[byteIndex..], entry.record.level);
      RedirectStep(RecordsIn(rest));
      assert RecordsIn(rest)[1..] == RecordsIn(rest[1..]);
      assert entry.next == if |rest| > 1 then rest[1] else null;
      if entry.next != null {
        ChainTail(entry, rest);
        LogShutdownForEntry(entry.next, rest[1..]);
      } else {
        NothingToRedirect();
      }
    }

    /** What EmptyQueue does when nothing can be written any more. */
    method GiveUp(entry: LogEntry, written: nat, ghost rest: seq<LogEntry>)
      requires Chain(entry, rest) && rest != []
      modifies emergency
      ensures emergency.lines == old(emergency.lines) + EmergencyImage(Failed(RecordsIn(rest), written))
    {
      hide Line, EmergencyImage, Redirections, Failed;
      assert entry == rest[0] && entry.message == Line(rest[0].record);
      emergency.Log(WRITE_FAILED.text, WRITE_FAILED.level);
      emergency.Log(entry.message, entry.record.level);
      FailStep(RecordsIn(rest), written);
      ChainTail(entry, rest);
      assert RecordsIn(rest)[1..] == RecordsIn(rest[1..]);
      assert entry.next == if |rest| > 1 then rest[1] else null;
      if entry.next != null {
        emergency.Log(REST_FOLLOWS.text, REST_FOLLOWS.level);
        LogShutdownForEntry(entry.next, rest[1..]);
      } else {
        NothingToRedirect();
      }
    }

    lemma NothingDelivered()
      ensures FileImage([]) == "" && EmergencyImage([]) == [] && AllWhole([]) && Records([]) == []
    {
    }

    /** EmptyQueue's loop, under the file's lock. */
    method WriteBatch(head: LogEntry?, ghost all: seq<LogEntry>) returns (ok: bool, ghost ds: seq<Delivery>)
      requires Chain(head, all) && fileLock.locked
      modifies file, emergency
      ensures Drains(RecordsIn(all), ds)
      ensures file.contents == old(file.contents) + FileImage(ds)
      ensures emergency.lines == old(emergency.lines) + EmergencyImage(ds)
      ensures ok <==> AllWhole(ds)
    {
      hide Line, FileImage, EmergencyImage, Failed;
      ds := [];
      NothingDelivered();
      var queue := head;
      ghost var i: nat := 0;
      while queue != null
        invariant i <= |all| && queue == if i < |all| then all[i] else null
        invariant Chain(head, all)
        invariant Records(ds) == RecordsIn(all)[..i] && AllWhole(ds)
        invariant file.contents == old(file.contents) + FileImage(ds)
        invariant emergency.lines == old(emergency.lines) + EmergencyImage(ds)
        decreases |all| - i
      {
        assert queue.message == Line(all[i].record);
        var written, good := WriteMessage(queue.message);
        if !good {
          FailedDelivery(ds, RecordsIn(all), i, written);
          assert RecordsIn(all)[i..] == RecordsIn(all[i..]);
          GiveUp(queue, written, all[i..]);
          return false, ds + Failed(RecordsIn(all)[i..], written);
        }
        WholeStep(ds, queue.record);
        ds := ds + [Whole(queue.record)];
        assert queue.next == if i + 1 < |all| then all[i + 1] else null;
        queue := queue.next;
        i := i + 1;
      }
      ok := true;
    }

    /** A drainer that nobody interrupts. The messages it has detached are written
        whole and in order, or from some point on handed to the emergency logger. */
    method EmptyQueue() returns (ok: bool, ghost ds: seq<Delivery>)
      requires Valid() && Unlocked()
      modifies this, file, emergency, queueLock, fileLock
      ensures Valid() && Unlocked() && Messages() == []
      ensures Drains(old(Messages()), ds) && Records(ds) == old(Messages())
      ensures file.contents == old(file.contents) + FileImage(ds)
      ensures emergency.lines == old(emergency.lines) + EmergencyImage(ds)
      ensures ok <==> AllWhole(ds)
    {
      hide Line, FileImage, EmergencyImage, Failed;
      var lock := new LockGuard(queueLock, false);
      var queue := queueHead;
      ghost var all := nodes;
      queueHead, queueTail, nodes := null, null, [];
      fileLock.Lock();
      lock.Release();
      var guard := new LockGuard(fileLock, true);
      ok, ds := WriteBatch(queue, all);
      guard.Release();
    }

    /** `grants` says which attempts get their memory; one that does not drains the
        queue. A message is dropped exactly
        when it is filtered, when every attempt is refused, or when a refusal has
        led to a drain that could not write. */
    method Log(r: Record, devLog: bool, grants: int -> bool) returns (queued: bool, ghost ds: seq<Delivery>)
      requires Valid() && Unlocked() && ValidRecord(r)
      modifies this, nodes, file, emergency, queueLock, fileLock
      ensures Valid() && Unlocked()
      ensures queued <==> (r.level != DEV || devLog) && AllWhole(ds)
                          && exists i :: 0 <= i < 3 && grants(i)
      ensures ds == [] || Drains(old(Messages()), ds)
      ensures (r.level != DEV || devLog) && !grants(0) ==> Drains(old(Messages()), ds)
      ensures Records(ds) + Messages() == old(Messages()) + if queued then [r] else []
      ensures file.contents == old(file.contents) + FileImage(ds)
      ensures emergency.lines == old(emergency.lines) + EmergencyImage(ds)
      ensures (r.level == DEV && !devLog) || grants(0) ==> ds == []
    {
      hide Line, FileImage, EmergencyImage, Failed, Records, AllWhole, Drains;
      queued, ds := false, [];
      NothingDelivered();
      if r.level != DEV || devLog {
        var i, critFail := 0, false;
        while i < LOGGER_HEAP_RETRY_COUNT + 1 && !critFail
          invariant 0 <= i <= LOGGER_HEAP_RETRY_COUNT + 1
          invariant Valid() && Unlocked() && nodes == (if i == 0 then old(nodes) else []) && !queued
          invariant forall k :: 0 <= k < i && !critFail ==> !grants(k)
          invariant critFail <==> !AllWhole(ds)
          invariant Records(ds) + Messages() == old(Messages())
          invariant i == 0 || Drains(old(Messages()), ds)
          invariant file.contents == old(file.contents) + FileImage(ds)
          invariant emergency.lines == old(emergency.lines) + EmergencyImage(ds)
          invariant i == 0 ==> ds == []
          invariant 0 < i ==> !grants(0)
        {
          if grants(i) {
            Enqueue(r);
            queued := true;
            break;
          }
          ghost var more;
          var ok;
          ok, more := EmptyQueue();
          critFail := !ok;
          Further(ds, more);
          assert i == 0 ==> ds + more == more;
          if i > 0 {
            DrainNothing(more);
            assert ds + more == ds;
          }
          ds := ds + more;
          i := i + 1;
        }
      }
    }
  }
}
