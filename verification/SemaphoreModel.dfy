// The ticket semaphore as a state machine. One event is one stretch of code
// between taking and giving up the mutex; the scheduler picks which sleeper a
// wake reaches.
module SemaphoreModel {
  import opened Wrappers

  const WORD: nat := 0x1_0000_0000_0000_0000

  type Thread = nat

  /** The three counters, the ticket of every thread inside EnterCV, and which
      of those threads have been woken and wait for the mutex. */
  datatype Sem = Sem(service: nat, wake: nat, sleep: nat, tickets: map<Thread, nat>, woken: set<Thread>)

  datatype Event =
    | Enter(thread: Thread)
    | Resume(thread: Thread, pick: Option<Thread>)
    | SignalN(n: nat, picks: set<Thread>)
    | SignalAll
    | SpuriousWake(thread: Thread)

  const INITIAL: Sem := Sem(1, 0, 0, map[], {})

  function Asleep(s: Sem): set<Thread> {
    s.tickets.Keys - s.woken
  }

  predicate IsReleased(s: Sem, t: Thread)
    requires t in s.tickets
  {
    s.tickets[t] <= s.wake
  }

  function Released(s: Sem): set<Thread> {
    set t | t in s.tickets && IsReleased(s, t)
  }

  function Unreleased(s: Sem): set<Thread> {
    set t | t in s.tickets && !IsReleased(s, t)
  }

  function Min(a: nat, b: nat): nat {
    if a < b then a else b
  }

  /** pthread_cond_signal reaches one sleeper if there is one. */
  predicate IsPick(asleep: set<Thread>, pick: Option<Thread>) {
    if asleep == {} then pick == None else pick.Some? && pick.value in asleep
  }

  function PickSet(pick: Option<Thread>): set<Thread> {
    if pick.Some? then {pick.value} else {}
  }

  predicate Enabled(s: Sem, e: Event) {
    match e
    case Enter(t) => t !in s.tickets && s.service + 1 < WORD
    case Resume(t, pick) =>
      t in s.woken && t in s.tickets && if IsReleased(s, t) then pick == None else IsPick(Asleep(s), pick)
    case SignalN(n, picks) => n < WORD && picks <= Asleep(s) && |picks| == Min(n, |Asleep(s)|)
    case SignalAll => true
    case SpuriousWake(t) => t in s.tickets
  }

  /** Addition of unsigned 64-bit words. */
  function AddWord(a: nat, b: nat): nat {
    if a + b < WORD then a + b else (a + b) % WORD
  }

  /** The end of Wait: the last sleeper resets the counters. */
  function Leave(s: Sem): Sem {
    if s.sleep == 0 then s.(service := 1, wake := 0) else s
  }

  function Apply(s: Sem, e: Event): Sem
    requires Enabled(s, e)
  {
    match e
    case Enter(t) =>
      if s.wake < s.service then
        s.(service := s.service + 1, sleep := s.sleep + 1, tickets := s.tickets[t := s.service])
      else
        Leave(s.(service := s.service + 1))
    case Resume(t, pick) =>
      if IsReleased(s, t) then
        Leave(s.(sleep := if s.sleep == 0 then 0 else s.sleep - 1, tickets := s.tickets - {t}, woken := s.woken - {t}))
      else
        s.(woken := s.woken - {t} + PickSet(pick))
    case SignalN(n, picks) => s.(wake := AddWord(s.wake, n), woken := s.woken + picks)
    case SignalAll => s.(wake := AddWord(s.wake, s.sleep), woken := s.tickets.Keys)
    case SpuriousWake(t) => s.(woken := s.woken + {t})
  }

  /** FWakeCount runs over. */
  predicate Wraps(s: Sem, e: Event) {
    match e
    case SignalN(n, _) => s.wake + n >= WORD
    case SignalAll => s.wake + s.sleep >= WORD
    case _ => false
  }

  // The invariant

  /** Every outstanding ticket has been given out, to one thread only. */
  ghost predicate Numbered(s: Sem) {
    && 1 <= s.service < WORD
    && (forall t <- s.tickets :: 1 <= s.tickets[t] < s.service)
    && (forall t, u :: t in s.tickets && u in s.tickets && s.tickets[t] == s.tickets[u] ==> t == u)
  }

  /** What holds in every reachable state, also after FWakeCount has run over. */
  ghost predicate Sound(s: Sem) {
    && Numbered(s) && s.wake < WORD
    && s.sleep == |s.tickets|
    && s.woken <= s.tickets.Keys
    // no lost wakeup
    && |s.woken| >= |Released(s)|
  }

  ghost predicate Owned(s: Sem, k: nat) {
    exists t :: t in s.tickets && s.tickets[t] == k
  }

  /** Every ticket above `wake` is outstanding. */
  ghost predicate Unbroken(s: Sem, wake: nat) {
    forall k {:trigger Owned(s, k)} :: wake < k < s.service ==> Owned(s, k)
  }

  ghost predicate Inv(s: Sem) {
    Sound(s) && Unbroken(s, s.wake)
  }

  // Counting tickets

  ghost function TicketsIn(s: Sem, lo: int, hi: int): set<Thread> {
    set t | t in s.tickets && lo < s.tickets[t] <= hi
  }

  /** The tickets lo+1..hi are held by at most hi - lo threads, and by exactly so
      many when all of them are outstanding. */
  lemma {:induction false} CountTickets(s: Sem, lo: nat, hi: nat)
    requires Numbered(s) && lo <= hi
    ensures |TicketsIn(s, lo, hi)| <= hi - lo
    ensures Unbroken(s, lo) && hi < s.service ==> |TicketsIn(s, lo, hi)| == hi - lo
    decreases hi
  {
    if lo == hi {
      assert TicketsIn(s, lo, hi) == {};
    } else {
      CountTickets(s, lo, hi - 1);
      if t :| t in s.tickets && s.tickets[t] == hi {
        assert TicketsIn(s, lo, hi) == TicketsIn(s, lo, hi - 1) + {t};
      } else {
        assert TicketsIn(s, lo, hi) == TicketsIn(s, lo, hi - 1);
        assert !Owned(s, hi);
      }
    }
  }

  /** The threads not yet released hold exactly the tickets above FWakeCount. */
  lemma CountUnreleased(s: Sem)
    requires Numbered(s) && Unbroken(s, s.wake)
    ensures |Unreleased(s)| == if s.wake < s.service then s.service - 1 - s.wake else 0
  {
    if s.wake < s.service {
      CountTickets(s, s.wake, s.service - 1);
      assert Unreleased(s) == TicketsIn(s, s.wake, s.service - 1);
    } else {
      assert Unreleased(s) == {};
    }
  }

  lemma Partition(s: Sem)
    ensures |Released(s)| + |Unreleased(s)| == |s.tickets|
  {
    assert Released(s) + Unreleased(s) == s.tickets.Keys && Released(s) !! Unreleased(s);
  }

  lemma SubsetSize<T>(a: set<T>, b: set<T>)
    requires a <= b
    ensures |a| <= |b|
  {
    assert b == a + (b - a);
  }

  // Every event keeps the invariant

  /** The released threads stay the same when a thread comes, in either way. */
  lemma EnterReleases(s: Sem, t: Thread)
    requires Sound(s) && Enabled(s, Enter(t))
    ensures Released(Apply(s, Enter(t))) == Released(s)
  {
    assert s.sleep == 0 ==> s.tickets == map[];
  }

  lemma EnterNumbered(s: Sem, t: Thread)
    requires Sound(s) && Enabled(s, Enter(t))
    ensures Numbered(Apply(s, Enter(t)))
  {
    hide Released;
    assert s.sleep == 0 ==> s.tickets == map[];
  }

  lemma EnterUnbroken(s: Sem, t: Thread)
    requires Inv(s) && Enabled(s, Enter(t))
    ensures var s' := Apply(s, Enter(t)); Unbroken(s', s'.wake)
  {
    var s' := Apply(s, Enter(t));
    forall k {:trigger Owned(s', k)} | s'.wake < k < s'.service ensures Owned(s', k) {
      if k == s.service {
        assert s'.tickets[t] == k;
      } else {
        assert Owned(s, k);
        var u :| u in s.tickets && s.tickets[u] == k;
        assert s'.tickets[u] == k;
      }
    }
  }

  lemma EnterKeeps(s: Sem, t: Thread)
    requires Sound(s) && Enabled(s, Enter(t))
    ensures Sound(Apply(s, Enter(t)))
    ensures Inv(s) ==> Inv(Apply(s, Enter(t)))
  {
    hide Numbered, Released, Unbroken;
    EnterReleases(s, t);
    EnterNumbered(s, t);
    if s.wake < s.service {
      assert Apply(s, Enter(t)).tickets.Keys == s.tickets.Keys + {t};
    }
    if Inv(s) {
      EnterUnbroken(s, t);
    }
  }

  /** Who is awake and how much credit there is does not matter to the tickets. */
  lemma SameTickets(s: Sem, wake: nat, woken: set<Thread>, from: nat)
    requires Numbered(s)
    ensures var s' := s.(wake := wake, woken := woken);
            && Numbered(s') && (Unbroken(s', from) <==> Unbroken(s, from))
            && (wake == s.wake ==> Released(s') == Released(s))
  {
    var s' := s.(wake := wake, woken := woken);
    assert forall k {:trigger Owned(s', k)} {:trigger Owned(s, k)} :: Owned(s', k) <==> Owned(s, k);
  }

  /** Leaving, with or without the reset of the counters, strands nobody. */
  lemma LeavingKeeps(s: Sem, t: Thread)
    requires Sound(s) && t in s.woken && t in s.tickets && IsReleased(s, t)
    ensures Sound(Apply(s, Resume(t, None)))
    ensures Inv(s) ==> Inv(Apply(s, Resume(t, None)))
  {
    var s' := Apply(s, Resume(t, None));
    assert s'.tickets.Keys == s.tickets.Keys - {t};
    if |s.tickets| == 1 {
      assert s.tickets.Keys == {t} by { SubsetSize({t}, s.tickets.Keys); assert |s.tickets.Keys - {t}| == 0; }
      assert Released(s') == {};
    } else {
      assert |s.tickets.Keys - {t}| != 0;
      assert Released(s') == Released(s) - {t};
      if Inv(s) {
        forall k {:trigger Owned(s', k)} | s'.wake < k < s'.service ensures Owned(s', k) {
          assert Owned(s, k);
          var u :| u in s.tickets && s.tickets[u] == k;
          assert s'.tickets[u] == k;
        }
      }
    }
  }

  lemma SwapSize<T>(a: set<T>, x: T, y: T)
    requires x in a && y !in a
    ensures |a - {x} + {y}| == |a|
  {
  }

  lemma AllAwake(s: Sem, t: Thread)
    requires s.woken <= s.tickets.Keys && Asleep(s) == {} && t in s.tickets && !IsReleased(s, t)
    ensures |s.woken - {t} + {}| >= |Released(s)|
  {
    assert s.tickets.Keys == s.woken + Asleep(s);
    SubsetSize(Released(s), s.woken - {t});
    assert s.woken - {t} + {} == s.woken - {t};
  }

  /** Who is awake then. */
  lemma PassedOn(s: Sem, t: Thread, pick: Option<Thread>)
    requires s.woken <= s.tickets.Keys && |s.woken| >= |Released(s)|
    requires Enabled(s, Resume(t, pick)) && !IsReleased(s, t)
    ensures var woken := s.woken - {t} + PickSet(pick);
            woken <= s.tickets.Keys && |woken| >= |Released(s)| && Apply(s, Resume(t, pick)) == s.(woken := woken)
  {
    hide Released;
    if pick.Some? {
      SwapSize(s.woken, t, pick.value);
    } else {
      AllAwake(s, t);
    }
  }

  /** A thread woken out of turn passes the wake on; only when nobody sleeps is
      there no one to pass it to, and then everyone else is awake. */
  lemma PassingOnKeeps(s: Sem, t: Thread, pick: Option<Thread>)
    requires Sound(s) && Enabled(s, Resume(t, pick)) && !IsReleased(s, t)
    ensures Sound(Apply(s, Resume(t, pick)))
    ensures Inv(s) ==> Inv(Apply(s, Resume(t, pick)))
  {
    hide Numbered, Unbroken, Released, Apply, Enabled, PickSet;
    PassedOn(s, t, pick);
    SameTickets(s, s.wake, s.woken - {t} + PickSet(pick), s.wake);
  }

  lemma SignalNWakes(s: Sem, n: nat, picks: set<Thread>)
    requires Sound(s) && Enabled(s, SignalN(n, picks))
    ensures |s.woken + picks| == Min(|s.woken| + n, |s.tickets|)
  {
    assert s.tickets.Keys == s.woken + Asleep(s);
    assert s.woken !! picks;
  }

  /** 64 bits. */
  lemma AddWordFacts(a: nat, b: nat)
    ensures AddWord(a, b) == (a + b) % 0x1_0000_0000_0000_0000
    ensures AddWord(a, b) < WORD && AddWord(a, b) <= a + b
    ensures a < WORD && b < WORD && a + b >= WORD ==> AddWord(a, b) == a + b - WORD < a
  {
  }

  /** n more credits release at most n more threads, and a counter that runs over
      releases none. */
  lemma ReleasesAtMost(s: Sem, n: nat, woken: set<Thread>)
    requires Numbered(s) && s.wake < WORD && n < WORD
    ensures |Released(s.(wake := AddWord(s.wake, n), woken := woken))| <= |Released(s)| + n
  {
    var s' := s.(wake := AddWord(s.wake, n), woken := woken);
    var more := TicketsIn(s, s.wake, s.wake + n);
    AddWordFacts(s.wake, n);
    CountTickets(s, s.wake, s.wake + n);
    hide Numbered, AddWord;
    assert Released(s') <= Released(s) + more;
    SubsetSize(Released(s'), Released(s) + more);
  }

  lemma SignalNKeeps(s: Sem, n: nat, picks: set<Thread>)
    requires Sound(s) && Enabled(s, SignalN(n, picks))
    ensures Sound(Apply(s, SignalN(n, picks)))
  {
    hide Numbered, AddWord;
    var s' := Apply(s, SignalN(n, picks));
    assert AddWord(s.wake, n) < WORD by { AddWordFacts(s.wake, n); }
    SameTickets(s, s'.wake, s'.woken, s.wake);
    ReleasesAtMost(s, n, s'.woken);
    SignalNWakes(s, n, picks);
    SubsetSize(Released(s'), s.tickets.Keys);
  }

  lemma SignalAllKeeps(s: Sem)
    requires Sound(s)
    ensures Sound(Apply(s, SignalAll))
  {
    hide Numbered, AddWord;
    var s' := Apply(s, SignalAll);
    AddWordFacts(s.wake, s.sleep);
    SameTickets(s, s'.wake, s'.woken, s.wake);
    SubsetSize(Released(s'), s'.tickets.Keys);
  }

  /** No event loses a wakeup or gives a ticket twice, whichever sleepers the
      wakes reach, however many wakes are spurious, and even if FWakeCount runs
      over. */
  lemma EventKeeps(s: Sem, e: Event)
    requires Sound(s) && Enabled(s, e)
    ensures Sound(Apply(s, e))
  {
    match e
    case Enter(t) => EnterKeeps(s, t);
    case Resume(t, pick) =>
      if IsReleased(s, t) {
        LeavingKeeps(s, t);
      } else {
        PassingOnKeeps(s, t, pick);
      }
    case SignalN(n, picks) => SignalNKeeps(s, n, picks);
    case SignalAll => SignalAllKeeps(s);
    case SpuriousWake(t) =>
      SameTickets(s, s.wake, Apply(s, e).woken, s.wake);
      SubsetSize(s.woken, Apply(s, e).woken);
  }

  /** The unreleased tickets stay an unbroken interval, exactly unless FWakeCount
      runs over and somebody with a ticket above its new value has left. */
  lemma EventKeepsIntervalIff(s: Sem, e: Event)
    requires Inv(s) && Enabled(s, e)
    ensures Inv(Apply(s, e)) <==> !Wraps(s, e) || Unbroken(s, Apply(s, e).wake)
  {
    hide Numbered;
    EventKeeps(s, e);
    var s' := Apply(s, e);
    match e
    case Enter(t) => EnterKeeps(s, t);
    case Resume(t, pick) =>
      if IsReleased(s, t) {
        LeavingKeeps(s, t);
      } else {
        PassingOnKeeps(s, t, pick);
      }
    case _ =>
      SameTickets(s, s'.wake, s'.woken, s'.wake);
  }

  ghost predicate Runs(s: Sem, events: seq<Event>, end: Sem)
    decreases |events|
  {
    if events == [] then s == end
    else Enabled(s, events[0]) && Runs(Apply(s, events[0]), events[1..], end)
  }

  /** Nowhere in the run does FWakeCount run over. */
  ghost predicate NoWraps(s: Sem, events: seq<Event>)
    decreases |events|
  {
    events == [] || (Enabled(s, events[0]) && !Wraps(s, events[0]) && NoWraps(Apply(s, events[0]), events[1..]))
  }

  lemma {:induction false} EveryRunKeeps(s: Sem, events: seq<Event>, end: Sem)
    requires Sound(s) && Runs(s, events, end)
    ensures Sound(end)
    ensures Inv(s) && NoWraps(s, events) ==> Inv(end)
    decreases |events|
  {
    hide Sound, Unbroken;
    if events != [] {
      EventKeeps(s, events[0]);
      if Inv(s) {
        EventKeepsIntervalIff(s, events[0]);
      }
      EveryRunKeeps(Apply(s, events[0]), events[1..], end);
    }
  }

  /** In every reachable state at least as many threads are awake as have been
      released. As long as FWakeCount has not run over, FWakeCount + FSleepCount
      covers every ticket ever given. */
  lemma ReachableStates(events: seq<Event>, s: Sem)
    requires Runs(INITIAL, events, s)
    ensures Sound(s) && |s.woken| >= |Released(s)|
    ensures NoWraps(INITIAL, events) ==> Inv(s) && s.wake + s.sleep >= s.service - 1
  {
    assert Released(INITIAL) == {};
    EveryRunKeeps(INITIAL, events, s);
    if NoWraps(INITIAL, events) {
      CountUnreleased(s);
      SubsetSize(Unreleased(s), s.tickets.Keys);
    }
  }

  // What the signals promise

  lemma SignalNCounts(s: Sem, n: nat, picks: set<Thread>)
    requires Inv(s) && Enabled(s, SignalN(n, picks)) && !Wraps(s, SignalN(n, picks))
    ensures var s' := Apply(s, SignalN(n, picks));
            |Released(s')| == |Released(s)| + Min(n, |Unreleased(s)|)
  {
    hide Numbered, Released, Unreleased, Unbroken;
    var s' := Apply(s, SignalN(n, picks));
    EventKeepsIntervalIff(s, SignalN(n, picks));
    CountUnreleased(s);
    CountUnreleased(s');
    Partition(s);
    Partition(s');
  }

  /** No thread that was released is unreleased afterwards. */
  ghost predicate NoneRevoked(s: Sem, s': Sem) {
    Released(s) <= Released(s')
  }

  /** Every released thread has a ticket that a counter of `wake` still covers. */
  ghost predicate Covers(s: Sem, wake: int) {
    forall t <- Released(s) :: t in s.tickets && s.tickets[t] <= wake
  }

  /** Nobody overtakes: the released threads have lower tickets than the others. */
  ghost predicate InOrder(s: Sem) {
    forall t, u :: t in Released(s) && u in Unreleased(s) ==>
      t in s.tickets && u in s.tickets && s.tickets[t] < s.tickets[u]
  }

  /** min(n, number unreleased) threads are released, the ones with the lowest
      tickets, and nobody's release is taken back. */
  ghost predicate ReleasesLowest(s: Sem, s': Sem, n: nat) {
    && NoneRevoked(s, s')
    && |Released(s') - Released(s)| == Min(n, |Unreleased(s)|)
    && InOrder(s')
  }

  lemma AlwaysInOrder(s: Sem)
    ensures InOrder(s)
  {
  }

  /** There are no more threads than ticket numbers. */
  lemma TicketBound(s: Sem, w: nat)
    requires Sound(s) && forall t <- s.tickets :: s.tickets[t] <= w
    ensures s.sleep <= w
  {
    CountTickets(s, 0, w);
    assert TicketsIn(s, 0, w) == s.tickets.Keys;
  }

  lemma FewerThanTickets(s: Sem)
    requires Sound(s)
    ensures s.sleep < s.service
  {
    TicketBound(s, s.service - 1);
  }

  /** A signal takes a release back exactly when FWakeCount runs over and comes to
      lie below a released ticket. */
  lemma RevokesIff(s: Sem, e: Event)
    requires Sound(s) && Enabled(s, e) && (e.SignalN? || e.SignalAll?)
    ensures NoneRevoked(s, Apply(s, e)) <==>
            !Wraps(s, e) || Covers(s, s.wake + (if e.SignalN? then e.n else s.sleep) - WORD)
  {
    var s' := Apply(s, e);
    if Wraps(s, e) {
      FewerThanTickets(s);
      AddWordFacts(s.wake, if e.SignalN? then e.n else s.sleep);
      assert forall t {:trigger t in Released(s')} :: t in Released(s') <==> t in s.tickets && s.tickets[t] <= s'.wake;
    }
  }

  lemma WrapReleasesNone(s: Sem, n: nat, picks: set<Thread>)
    requires Sound(s) && Enabled(s, SignalN(n, picks)) && Wraps(s, SignalN(n, picks))
    ensures Released(Apply(s, SignalN(n, picks))) - Released(s) == {}
    ensures 0 < n && (|Unreleased(s)| == 0 <==> Unreleased(s) == {})
  {
    AddWordFacts(s.wake, n);
  }

  /** SignalN(n) releases the min(n, number unreleased) threads with the lowest
      tickets, and no other: always when FWakeCount does not run over, and when
      it does exactly if nobody was left to release and nobody is revoked. */
  lemma SignalNReleasesIff(s: Sem, n: nat, picks: set<Thread>)
    requires Inv(s) && Enabled(s, SignalN(n, picks))
    ensures ReleasesLowest(s, Apply(s, SignalN(n, picks)), n) <==>
            !Wraps(s, SignalN(n, picks)) || (Unreleased(s) == {} && Covers(s, s.wake + n - WORD))
  {
    hide Numbered, Unbroken, Covers, InOrder, Released, Unreleased, Apply, Enabled, Wraps;
    var e := SignalN(n, picks);
    var s' := Apply(s, e);
    RevokesIff(s, e);
    AlwaysInOrder(s');
    if Wraps(s, e) {
      WrapReleasesNone(s, n, picks);
    } else {
      SignalNCounts(s, n, picks);
      assert NoneRevoked(s, s') ==> Released(s') == Released(s) + (Released(s') - Released(s));
    }
  }

  /** SignalAll releases every thread that is waiting, however many wakes are
      still under way, exactly unless FWakeCount runs over. */
  lemma SignalAllReleasesIff(s: Sem)
    requires Inv(s)
    ensures Apply(s, SignalAll).woken == s.tickets.Keys
    ensures Released(Apply(s, SignalAll)) == s.tickets.Keys <==> !Wraps(s, SignalAll)
  {
    var s' := Apply(s, SignalAll);
    if Wraps(s, SignalAll) {
      FewerThanTickets(s);
      AddWordFacts(s.wake, s.sleep);
      if Released(s') == s.tickets.Keys {
        assert forall t <- s.tickets :: t in Released(s');
        TicketBound(s, s'.wake);
      }
    } else {
      CountUnreleased(s);
      SubsetSize(Unreleased(s), s.tickets.Keys);
    }
  }

  /** How far FWakeCount is ahead of the tickets given out. */
  function Credit(s: Sem): nat {
    if s.wake >= s.service then s.wake - s.service + 1 else 0
  }

  /** How many of the threads to come walk through without waiting. When nobody is
      inside, the first one resets the counters and takes the rest with it. */
  function Walkers(s: Sem): nat {
    if s.sleep == 0 then Min(1, Credit(s)) else Credit(s)
  }

  /** An entering thread walks through exactly when Walkers is not 0, and then is
      one of them. */
  lemma EnterWalksIff(s: Sem, t: Thread)
    requires Sound(s) && Enabled(s, Enter(t))
    ensures t !in Apply(s, Enter(t)).tickets <==> Walkers(s) > 0
    ensures Walkers(Apply(s, Enter(t))) == if Walkers(s) > 0 then Walkers(s) - 1 else 0
  {
  }

  /** The number of the threads that walk through when they come one after the
      other. */
  function WalkedThrough(s: Sem, threads: seq<Thread>): nat
    decreases |threads|
  {
    if threads == [] || !Enabled(s, Enter(threads[0])) then 0
    else
      var s' := Apply(s, Enter(threads[0]));
      (if threads[0] in s'.tickets then 0 else 1) + WalkedThrough(s', threads[1..])
  }

  /** What Walkers says is what happens to threads that come in a row. */
  lemma {:induction false} WalkersWalk(s: Sem, threads: seq<Thread>)
    requires Sound(s) && s.service + |threads| < WORD
    requires forall i :: 0 <= i < |threads| ==> threads[i] !in s.tickets
    requires forall i, j :: 0 <= i < j < |threads| ==> threads[i] != threads[j]
    ensures WalkedThrough(s, threads) == Min(|threads|, Walkers(s))
    decreases |threads|
  {
    if threads != [] {
      var t, s' := threads[0], Apply(s, Enter(threads[0]));
      EnterKeeps(s, t);
      EnterWalksIff(s, t);
      hide Sound, Walkers;
      WalkersWalk(s', threads[1..]);
    }
  }

  /** A thread that leaves does not change that, but the last one takes what is
      left. */
  lemma LeaverTakesRest(s: Sem, t: Thread)
    requires Sound(s) && Enabled(s, Resume(t, None)) && IsReleased(s, t)
    ensures Walkers(Apply(s, Resume(t, None))) == if s.sleep == 1 then 0 else Walkers(s)
  {
    assert 1 <= s.sleep by { SubsetSize({t}, s.tickets.Keys); }
  }

  /** The interface promises that SignalN never signals more than are waiting. It
      lets more of the threads to come through exactly when n exceeds the number of
      threads not yet released; but while nobody is inside, one credit is as good
      as many. */
  lemma SurplusIff(s: Sem, n: nat, picks: set<Thread>)
    requires Inv(s) && Enabled(s, SignalN(n, picks))
    ensures var s' := Apply(s, SignalN(n, picks));
            Walkers(s') > Walkers(s) <==>
            !Wraps(s, SignalN(n, picks)) && n > |Unreleased(s)| && (s.sleep > 0 || Credit(s) == 0)
    ensures Credit(Apply(s, SignalN(n, picks))) == Credit(s) + n - Min(n, |Unreleased(s)|) <==> !Wraps(s, SignalN(n, picks))
  {
    CountUnreleased(s);
    AddWordFacts(s.wake, n);
  }

  /** SignalAll adds one credit a sleeper, also for sleepers released already, who
      do not need it. */
  lemma SignalAllSurplusIff(s: Sem)
    requires Inv(s)
    ensures Walkers(Apply(s, SignalAll)) > Walkers(s) <==> !Wraps(s, SignalAll) && Released(s) != {}
    ensures Credit(Apply(s, SignalAll)) == Credit(s) + |Released(s)| <==> !Wraps(s, SignalAll)
  {
    CountUnreleased(s);
    Partition(s);
    FewerThanTickets(s);
    AddWordFacts(s.wake, s.sleep);
  }

  // Runs that show it

  lemma OneEvent(s: Sem, e: Event)
    requires Enabled(s, e)
    ensures Runs(s, [e], Apply(s, e))
  {
    assert [e][1..] == [];
  }

  lemma {:induction false} RunsConcat(s: Sem, first: seq<Event>, mid: Sem, second: seq<Event>, end: Sem)
    requires Runs(s, first, mid) && Runs(mid, second, end)
    ensures Runs(s, first + second, end)
    decreases |first|
  {
    if first == [] {
      assert first + second == second;
    } else {
      assert (first + second)[1..] == first[1..] + second;
      RunsConcat(Apply(s, first[0]), first[1..], mid, second, end);
    }
  }

  lemma OneMore(s: Sem, events: seq<Event>, mid: Sem, e: Event)
    requires Runs(s, events, mid) && Enabled(mid, e)
    ensures Runs(s, events + [e], Apply(mid, e))
  {
    OneEvent(mid, e);
    RunsConcat(s, events, mid, [e], Apply(mid, e));
  }

  /** Surplus: a signal with nobody there lets the next thread walk through. */
  lemma SignalWithoutWaiters()
    ensures var s := Apply(INITIAL, SignalN(1, {}));
            && Runs(INITIAL, [SignalN(1, {})], s) && Walkers(s) == 1
            && Enabled(s, Enter(7)) && Apply(s, Enter(7)).tickets == map[]
  {
    OneEvent(INITIAL, SignalN(1, {}));
  }

  /** Of five signals with nobody there, the next thread takes all: the one after
      it sleeps. */
  lemma FiveSignalsOneWalker()
    ensures var s := Apply(INITIAL, SignalN(5, {}));
            && Runs(INITIAL, [SignalN(5, {})], s) && Credit(s) == 5 && Walkers(s) == 1
            && Enabled(s, Enter(7)) && Apply(s, Enter(7)) == INITIAL
            && Enabled(INITIAL, Enter(8)) && 8 in Apply(INITIAL, Enter(8)).tickets
  {
    OneEvent(INITIAL, SignalN(5, {}));
  }

  /** One thread waits, and n signals have been given. */
  lemma OneWaiter(n: nat) returns (s: Sem)
    requires 0 < n < WORD
    ensures s == Sem(2, n, 1, map[7 := 1], {7}) && Runs(INITIAL, [Enter(7), SignalN(n, {7})], s)
    ensures Released(s) == {7} && Asleep(s) == {}
  {
    var s1 := Apply(INITIAL, Enter(7));
    assert Asleep(s1) == {7};
    OneEvent(INITIAL, Enter(7));
    OneMore(INITIAL, [Enter(7)], s1, SignalN(n, {7}));
    s := Apply(s1, SignalN(n, {7}));
    assert [Enter(7)] + [SignalN(n, {7})] == [Enter(7), SignalN(n, {7})];
  }

  /** SignalAll after SignalN(1) gives the one waiting thread a credit it does not
      need. */
  lemma SignalAllLeavesSurplus()
    ensures exists s: Sem ::
              Runs(INITIAL, [Enter(7), SignalN(1, {7})], s) && Walkers(s) == 0 && Walkers(Apply(s, SignalAll)) == 1
  {
    var s := OneWaiter(1);
  }

  /** FWakeCount running over takes a release back, in a reachable state. */
  lemma WrapRevokes()
    ensures exists s: Sem ::
              && Runs(INITIAL, [Enter(7), SignalN(1, {7})], s)
              && Enabled(s, SignalN(WORD - 1, {})) && Wraps(s, SignalN(WORD - 1, {}))
              && 7 in Released(s) && 7 in Unreleased(Apply(s, SignalN(WORD - 1, {})))
  {
    var s := OneWaiter(1);
    assert Apply(s, SignalN(WORD - 1, {})).wake == 0;
  }

  /** The same by SignalAll. */
  lemma WrapRevokesAll()
    ensures exists s: Sem ::
              && Runs(INITIAL, [Enter(7), SignalN(WORD - 1, {7})], s) && Wraps(s, SignalAll)
              && 7 in Released(s) && 7 in Unreleased(Apply(s, SignalAll))
  {
    var s := OneWaiter(WORD - 1);
    assert Apply(s, SignalAll).wake == 0;
  }

  /** A wrap that revokes nothing: nobody waits. */
  lemma WrapWithoutWaiters()
    ensures exists s: Sem ::
              && Runs(INITIAL, [SignalN(1, {})], s)
              && Enabled(s, SignalN(WORD - 1, {})) && Wraps(s, SignalN(WORD - 1, {}))
              && ReleasesLowest(s, Apply(s, SignalN(WORD - 1, {})), WORD - 1)
  {
    OneEvent(INITIAL, SignalN(1, {}));
    var s := Apply(INITIAL, SignalN(1, {}));
    var s' := Apply(s, SignalN(WORD - 1, {}));
    assert Released(s) == {} && Unreleased(s) == {} && Released(s') == {};
  }

  // Progress

  /** A released thread is never stuck: there is always a continuation of at most
      two steps by which a released thread leaves Wait. */
  lemma ReleasedCanLeave(s: Sem) returns (t: Thread, events: seq<Event>, end: Sem)
    requires Sound(s) && Released(s) != {}
    ensures t in Released(s) && |events| <= 2
    ensures Runs(s, events, end) && t !in end.tickets
  {
    if r :| r in s.woken && r in Released(s) {
      t, events := r, [Resume(r, None)];
      end := Apply(s, Resume(r, None));
      assert events[1..] == [];
    } else {
      t :| t in Released(s);
      assert |s.woken| > 0 by { SubsetSize({t}, Released(s)); }
      var w :| w in s.woken;
      var first, second := Resume(w, Some(t)), Resume(t, None);
      var mid := Apply(s, first);
      events, end := [first, second], Apply(mid, second);
      assert events[1..] == [second] && events[1..][1..] == [];
      assert Runs(mid, [second], end);
    }
  }

  /** Three threads wait, one is released, and the wake has reached the second. */
  const OUT_OF_TURN: seq<Event> := [Enter(1), Enter(2), Enter(3), SignalN(1, {2})]

  lemma OutOfTurn() returns (s: Sem)
    ensures s == Sem(4, 1, 3, map[1 := 1, 2 := 2, 3 := 3], {2})
    ensures Runs(INITIAL, OUT_OF_TURN, s)
  {
    var s1 := Apply(INITIAL, Enter(1));
    var s2 := Apply(s1, Enter(2));
    var s3 := Apply(s2, Enter(3));
    assert s3 == Sem(4, 0, 3, map[1 := 1, 2 := 2, 3 := 3], {});
    assert Asleep(s3) == {1, 2, 3};
    s := Apply(s3, SignalN(1, {2}));
    OneEvent(INITIAL, Enter(1));
    OneMore(INITIAL, [Enter(1)], s1, Enter(2));
    OneMore(INITIAL, [Enter(1)] + [Enter(2)], s2, Enter(3));
    OneMore(INITIAL, [Enter(1)] + [Enter(2)] + [Enter(3)], s3, SignalN(1, {2}));
    assert [Enter(1)] + [Enter(2)] + [Enter(3)] + [SignalN(1, {2})] == OUT_OF_TURN;
  }

  /** Without fairness nothing forces that continuation: in a reachable state,
      two threads not yet released can hand the wake to each other for ever
      while the released one sleeps. */
  lemma PingPong()
    ensures exists s: Sem ::
              && Runs(INITIAL, OUT_OF_TURN, s)
              && 1 in Released(s) && 1 in Asleep(s)
              && Runs(s, [Resume(2, Some(3)), Resume(3, Some(2))], s)
  {
    hide Runs;
    var s := OutOfTurn();
    var there, back := Resume(2, Some(3)), Resume(3, Some(2));
    assert s.tickets[1] == 1 && s.tickets[2] == 2 && s.tickets[3] == 3;
    assert Asleep(s) == {1, 3};
    var mid := Apply(s, there);
    assert mid.woken == {3} && Asleep(mid) == {1, 2};
    assert Apply(mid, back) == s;
    OneEvent(s, there);
    OneMore(s, [there], mid, back);
    assert [there] + [back] == [there, back];
    assert 1 in Released(s) && 1 in Asleep(s);
  }
}
