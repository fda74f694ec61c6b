// The semaphore itself. Wait is cut where EnterCV gives up the mutex: BeginWait
// runs up to the first EnterCV, ResumeWait from one EnterCV to the next or to
// the end. Each method is one event of the model.
module Semaphores {
  import opened SemaphoreModel
  import opened Wrappers

  datatype WaitResult = Blocked | Left | Halted

  lemma OnePick(s: Sem, picks: set<Thread>, pick: Option<Thread>, i: nat)
    requires picks <= Asleep(s) && |picks| == Min(i, |Asleep(s)|)
    requires IsPick(s.tickets.Keys - (s.woken + picks), pick)
    ensures picks + PickSet(pick) <= Asleep(s) && |picks + PickSet(pick)| == Min(i + 1, |Asleep(s)|)
    ensures s.woken + picks + PickSet(pick) == s.woken + (picks + PickSet(pick))
  {
    assert s.tickets.Keys - (s.woken + picks) == Asleep(s) - picks;
    assert |Asleep(s)| == |picks| + |Asleep(s) - picks| by {
      assert Asleep(s) == picks + (Asleep(s) - picks);
    }
  }

  class Semaphore {
    var serviceCount: nat
    var wakeCount: nat
    var sleepCount: nat
    // the condition variable: WaitingFor of every thread in it, and the threads
    // it has let go but that do not yet hold the mutex
    var waitingFor: map<Thread, nat>
    var woken: set<Thread>

    ghost function State(): Sem
      reads this
    {
      Sem(serviceCount, wakeCount, sleepCount, waitingFor, woken)
    }

    constructor ()
      ensures State() == INITIAL
    {
      serviceCount, wakeCount, sleepCount, waitingFor, woken := 1, 0, 0, map[], {};
    }

    /** The scheduler chooses whom the signal reaches. */
    method WakeOne() returns (ghost pick: Option<Thread>)
      modifies this`woken
      ensures IsPick(waitingFor.Keys - old(woken), pick)
      ensures woken == old(woken) + PickSet(pick)
    {
      var asleep := waitingFor.Keys - woken;
      if asleep == {} {
        pick := None;
      } else {
        var t :| t in asleep;
        woken := woken + {t};
        pick := Some(t);
      }
    }

    method SignalAll()
      modifies this
      ensures State() == Apply(old(State()), SemaphoreModel.SignalAll)
    {
      wakeCount := AddWord(wakeCount, sleepCount);
      woken := waitingFor.Keys;
    }

    method SignalN(n: nat) returns (ghost picks: set<Thread>)
      requires n < WORD
      modifies this
      ensures Enabled(old(State()), SemaphoreModel.SignalN(n, picks))
      ensures State() == Apply(old(State()), SemaphoreModel.SignalN(n, picks))
    {
      hide AddWord;
      ghost var s := State();
      wakeCount := AddWord(wakeCount, n);
      picks := {};
      for i := 0 to n
        invariant serviceCount == s.service && wakeCount == AddWord(s.wake, n)
        invariant sleepCount == s.sleep && waitingFor == s.tickets
        invariant picks <= Asleep(s) && |picks| == Min(i, |Asleep(s)|)
        invariant woken == s.woken + picks
      {
        ghost var pick := WakeOne();
        OnePick(s, picks, pick, i);
        picks := picks + PickSet(pick);
      }
    }

    /** The last lines of Wait. */
    method ResetCounters()
      modifies this`serviceCount, this`wakeCount
      ensures State() == Leave(old(State()))
    {
      if sleepCount == 0 {
        serviceCount, wakeCount := 1, 0;
      }
    }

    /** The assertion on FServiceCount fails when the ticket numbers run over. */
    method BeginWait(t: Thread) returns (r: WaitResult)
      requires t !in waitingFor && serviceCount < WORD
      modifies this
      ensures r.Halted? <==> old(serviceCount) + 1 == 0x1_0000_0000_0000_0000
      ensures !r.Halted? ==>
                && Enabled(old(State()), Enter(t)) && State() == Apply(old(State()), Enter(t))
                && (r.Blocked? <==> t in waitingFor)
    {
      var ticket := serviceCount;
      serviceCount := AddWord(serviceCount, 1);
      if serviceCount == 0 {
        return WaitResult.Halted;
      }
      if wakeCount < ticket {
        sleepCount := sleepCount + 1;
        waitingFor := waitingFor[t := ticket];
        return Blocked;
      }
      ResetCounters();
      return WaitResult.Left;
    }

    /** EnterCV has returned in thread t. */
    method ResumeWait(t: Thread) returns (r: WaitResult, ghost pick: Option<Thread>)
      requires t in woken && t in waitingFor && 0 < sleepCount
      modifies this
      ensures Enabled(old(State()), Resume(t, pick)) && State() == Apply(old(State()), Resume(t, pick))
      ensures r == if t in waitingFor then Blocked else WaitResult.Left
    {
      sleepCount := sleepCount - 1;
      pick := None;
      if wakeCount < waitingFor[t] {
        pick := WakeOne();
        sleepCount := sleepCount + 1;
        woken := woken - {t};
        return Blocked, pick;
      }
      waitingFor, woken := waitingFor - {t}, woken - {t};
      ResetCounters();
      return WaitResult.Left, pick;
    }

    /** A condition variable may let a thread go without a signal. */
    method WakeSpuriously(t: Thread)
      requires t in waitingFor
      modifies this`woken
      ensures State() == Apply(old(State()), SpuriousWake(t))
    {
      woken := woken + {t};
    }
  }
}
