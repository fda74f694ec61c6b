// A mutex and the guard that holds it. Unlock demands a locked mutex, so a
// verified caller releases each lock exactly once.
module Locking {

  class Mutex {
    var locked: bool

    constructor ()
      ensures !locked
    {
      locked := false;
    }

    method Lock()
      requires !locked
      modifies this
      ensures locked
    {
      locked := true;
    }

    method Unlock()
      requires locked
      modifies this
      ensures !locked
    {
      locked := false;
    }
  }

  class LockGuard {
    var mutex: Mutex?

    ghost predicate Holds(m: Mutex)
      reads this, m
    {
      mutex == m && m.locked
    }

    constructor (m: Mutex, preLocked: bool)
      requires m.locked == preLocked
      modifies m
      ensures Holds(m)
    {
      mutex := m;
      if !preLocked {
        m.Lock();
      }
    }

    /** Also what the destructor does: a second release changes nothing. */
    method Release()
      requires mutex != null ==> mutex.locked
      modifies this, mutex
      ensures mutex == null
      ensures old(mutex) != null ==> !old(mutex).locked
    {
      if mutex != null {
        mutex.Unlock();
        mutex := null;
      }
    }
  }
}
