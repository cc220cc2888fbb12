/** The semaphores, locks and condition variables of threads/synch.c as one object whose fields are the
    kernel state they touch.  Each method is one call of a synchronization primitive made by the
    running thread `current`, run with interrupts off; a call that blocks ends with the caller on a
    waiter list, and what the thread does once woken is the method it calls next (`TakeLock` for
    `lock_acquire`, `SemaDown` on its own `semaphore_elem` and then `LockAcquire` for `cond_wait`,
    `SemaDown` again for `sema_down`). */
module Synch {
  import opened Wrappers
  import ThreadLimits
  import opened SynchSpec
  import opened SynchInvariant

  class Sync {
    /** The scheduling mode chosen at boot: MLFQS, or strict priority with donation. */
    const mlfqs: bool
    var current: ThreadId
    var threads: Threads
    var semas: Semas
    var locks: Locks
    var conds: Conds

    ghost predicate Valid()
      reads this
    {
      Coherent(mlfqs, current, threads, semas, locks, conds)
    }

    /** A semaphore used on its own: not a lock's, and not a `semaphore_elem` still on its condition's
        list (after `cond_signal`, the waiter downs its own `semaphore_elem` as a plain semaphore). */
    predicate Standalone(s: SemaId)
      reads this
      requires s in semas
    {
      !semas[s].owner.OfLock? && Unlisted(semas, conds, s)
    }

    /** The running thread is not blocked. */
    predicate Running()
      reads this
    {
      current in threads && threads[current].blockedOn.None?
    }

    /** `lock_held_by_current_thread`. */
    predicate HeldByCurrent(l: LockId)
      reads this
      requires l in locks
    {
      locks[l].holder == Some(current)
    }

    /** The kernel with its first thread running and no synchronization object yet. */
    constructor (mlfqs: bool, main: ThreadId, priority: int)
      requires ThreadLimits.PRI_MIN <= priority <= ThreadLimits.PRI_MAX
      ensures Valid() && Running()
      ensures this.mlfqs == mlfqs && current == main
      ensures threads == map[main := Thread(priority, priority, false, None, [])]
      ensures semas == map[] && locks == map[] && conds == map[]
    {
      this.mlfqs := mlfqs;
      current := main;
      threads := map[main := Thread(priority, priority, false, None, [])];
      semas := map[];
      locks := map[];
      conds := map[];
    }

    /** A new ready thread, as the thread module creates it. */
    method Spawn(t: ThreadId, priority: int)
      requires Valid() && t !in threads
      requires ThreadLimits.PRI_MIN <= priority <= ThreadLimits.PRI_MAX
      modifies this
      ensures Valid()
      ensures threads == old(threads)[t := Thread(priority, priority, false, None, [])]
      ensures current == old(current) && semas == old(semas) && locks == old(locks) && conds == old(conds)
    {
      NewThreadCoherent(mlfqs, current, threads, semas, locks, conds, t, priority);
      threads := threads[t := Thread(priority, priority, false, None, [])];
    }

    /** The scheduler switches to a thread that is not blocked. */
    method Switch(t: ThreadId)
      requires Valid() && t in threads && threads[t].blockedOn.None?
      modifies this
      ensures Valid() && Running() && current == t
      ensures threads == old(threads) && semas == old(semas) && locks == old(locks) && conds == old(conds)
    {
      current := t;
    }

    // ------------------------------------------------------------ semaphores

    /** `sema_init` on a new semaphore. */
    method SemaInit(s: SemaId, value: nat)
      requires Valid() && s !in semas
      modifies this
      ensures Valid()
      ensures semas == old(semas)[s := Semaphore(value, [], Plain)]
      ensures current == old(current) && threads == old(threads) && locks == old(locks) && conds == old(conds)
    {
      NewSemaCoherent(mlfqs, current, threads, semas, locks, conds, s, value);
      semas := semas[s := Semaphore(value, [], Plain)];
    }

    /** One pass of `sema_down`'s loop: take the semaphore when its value is positive, otherwise join
        the back of its waiters and block. */
    method Down(s: SemaId) returns (proceeded: bool)
      requires Running() && s in semas
      modifies this
      ensures proceeded == (old(semas[s].value) > 0)
      ensures proceeded ==>
                semas == old(semas)[s := old(semas[s]).(value := old(semas[s].value) - 1)] &&
                threads == old(threads)
      ensures !proceeded ==>
                semas == old(semas)[s := old(semas[s]).(waiters := old(semas[s].waiters) + [old(current)])] &&
                threads == old(threads)[old(current) := old(threads[current]).(blockedOn := Some(s))]
      ensures current == old(current) && locks == old(locks) && conds == old(conds)
    {
      var sm := semas[s];
      if sm.value > 0 {
        proceeded := true;
        semas := semas[s := sm.(value := sm.value - 1)];
      } else {
        proceeded := false;
        semas := semas[s := sm.(waiters := sm.waiters + [current])];
        threads := threads[current := threads[current].(blockedOn := Some(s))];
      }
    }

    /** `sema_down` (one pass; a woken caller calls it again). */
    method SemaDown(s: SemaId) returns (proceeded: bool)
      requires Valid() && Running() && s in semas && Standalone(s)
      modifies this
      ensures Valid()
      ensures proceeded == (old(semas[s].value) > 0)
      ensures proceeded ==>
                semas == old(semas)[s := old(semas[s]).(value := old(semas[s].value) - 1)] &&
                threads == old(threads)
      ensures !proceeded ==>
                semas == old(semas)[s := old(semas[s]).(waiters := old(semas[s].waiters) + [old(current)])] &&
                threads == old(threads)[old(current) := old(threads[current]).(blockedOn := Some(s))]
      ensures current == old(current) && locks == old(locks) && conds == old(conds)
    {
      if semas[s].value > 0 {
        DecCoherent(mlfqs, current, threads, semas, locks, conds, s);
      } else {
        BlockCoherent(mlfqs, current, threads, semas, locks, conds, s);
      }
      proceeded := Down(s);
    }

    /** `sema_try_down`: succeeds, taking one unit, exactly when the value is positive; otherwise
        nothing changes. */
    method SemaTryDown(s: SemaId) returns (success: bool)
      requires Valid() && s in semas && Standalone(s)
      modifies this
      ensures Valid()
      ensures success <==> old(semas[s].value) > 0
      ensures success ==> semas == old(semas)[s := old(semas[s]).(value := old(semas[s].value) - 1)]
      ensures !success ==> semas == old(semas)
      ensures current == old(current) && threads == old(threads) && locks == old(locks) && conds == old(conds)
    {
      var sm := semas[s];
      if sm.value > 0 {
        DecCoherent(mlfqs, current, threads, semas, locks, conds, s);
        semas := semas[s := sm.(value := sm.value - 1)];
        success := true;
      } else {
        success := false;
      }
    }

    /** `__sema_up`: wake the waiter `Chosen` picks, if any, and raise the value. */
    method Up(s: SemaId)
      requires s in semas && Known(threads, semas[s].waiters)
      modifies this
      ensures semas == old(semas)[s := UpSema(old(threads), old(semas[s]), mlfqs)]
      ensures threads == UpThreads(old(threads), old(semas[s]), mlfqs)
      ensures current == old(current) && locks == old(locks) && conds == old(conds)
    {
      var sm := semas[s];
      if sm.waiters != [] {
        var i := Chosen(threads, sm.waiters, mlfqs);
        var t := sm.waiters[i];
        threads := threads[t := threads[t].(blockedOn := None)];
        sm := sm.(waiters := Remove(sm.waiters, i));
      }
      semas := semas[s := sm.(value := sm.value + 1)];
    }

    /** `sema_up` and `sema_up_intr` (the yield that follows in strict mode is the scheduler's
        business). */
    method SemaUp(s: SemaId)
      requires Valid() && s in semas && Standalone(s)
      modifies this
      ensures Valid()
      ensures semas == old(semas)[s := UpSema(old(threads), old(semas[s]), mlfqs)]
      ensures threads == UpThreads(old(threads), old(semas[s]), mlfqs)
      ensures current == old(current) && locks == old(locks) && conds == old(conds)
    {
      UpCoherent(mlfqs, current, threads, semas, locks, conds, s);
      Up(s);
    }

    // ------------------------------------------------------------ priority donation

    /** `priority_donate(h, p)`: walk from `h` to the holder of the lock it waits on, and on, raising
        every thread below `p` to `p`, until a thread already at `p` or above, a thread that is not
        blocked, or a semaphore that is not a lock's (where the code itself would crash). */
    method PriorityDonate(h: ThreadId, p: int)
      requires h in threads
      modifies this
      ensures threads == Donate(old(threads), semas, locks, h, p)
      ensures current == old(current) && semas == old(semas) && locks == old(locks) && conds == old(conds)
    {
      var t := h;
      var done := false;
      while !done
        invariant t in threads
        invariant current == old(current) && semas == old(semas) && locks == old(locks) && conds == old(conds)
        invariant done ==> threads == Donate(old(threads), semas, locks, h, p)
        invariant !done ==> Donate(old(threads), semas, locks, h, p) == Donate(threads, semas, locks, t, p)
        decreases !done, |Below(threads, p)|
      {
        if threads[t].priority >= p {
          done := true;
        } else {
          var step := Follow(threads, semas, locks, t);
          RaiseShrinks(threads, t, p);
          threads := threads[t := threads[t].(priority := p, donated := true)];
          match step {
            case Go(n) => t := n;
            case _ => done := true;
          }
        }
      }
    }

    /** `max_priority_in_waiters`. */
    method MaxPriorityInWaiters(w: seq<ThreadId>) returns (max: int)
      requires Known(threads, w)
      ensures max == MaxWaiterPriority(threads, w)
    {
      ghost var ps := Priorities(threads, w);
      max := -1;
      var i: nat := 0;
      while i < |w|
        invariant i <= |w|
        invariant max == MaxOf(-1, ps[..i])
      {
        assert ps[..i + 1][..i] == ps[..i];
        if threads[w[i]].priority > max {
          max := threads[w[i]].priority;
        }
        i := i + 1;
      }
      assert ps[..|w|] == ps;
    }

    /** `next_priority`, over the locks the holder still holds. */
    method NextPriorityOf(held: seq<LockId>) returns (max: int)
      requires HeldKnown(threads, semas, locks, held)
      ensures max == NextPriority(threads, semas, locks, held)
    {
      max := -1;
      var i: nat := 0;
      while i < |held|
        invariant i <= |held|
        invariant HeldKnown(threads, semas, locks, held[..i])
        invariant max == NextPriority(threads, semas, locks, held[..i])
      {
        assert held[..i + 1][..i] == held[..i];
        var m := MaxPriorityInWaiters(LockWaiters(semas, locks, held[i]));
        if m > max {
          max := m;
        }
        i := i + 1;
      }
      assert held[..|held|] == held;
    }

    // ------------------------------------------------------------ locks

    /** `lock_init` of a new lock with its new semaphore. */
    method LockInit(l: LockId, s: SemaId)
      requires Valid() && l !in locks && s !in semas
      modifies this
      ensures Valid()
      ensures locks == old(locks)[l := Lock(None, s)]
      ensures semas == old(semas)[s := Semaphore(1, [], OfLock(l))]
      ensures current == old(current) && threads == old(threads) && conds == old(conds)
    {
      NewLockCoherent(mlfqs, current, threads, semas, locks, conds, l, s);
      locks := locks[l := Lock(None, s)];
      semas := semas[s := Semaphore(1, [], OfLock(l))];
    }

    /** The threads once `lock_acquire` has donated: in strict mode, when the lock has a holder of
        lower priority than the caller, the caller's priority is donated along the chain. */
    ghost function Donated(l: LockId): (r: Threads)
      reads this
      requires current in threads && l in locks
      ensures r.Keys == threads.Keys
    {
      match locks[l].holder
      case Some(h) =>
        if !mlfqs && h in threads && threads[h].priority < threads[current].priority
        then Donate(threads, semas, locks, h, threads[current].priority)
        else threads
      case None => threads
    }

    /** The part of `lock_acquire` after the donation, which is also what a woken acquirer runs: one
        pass of `sema_down` on the lock's semaphore; on success the caller becomes the holder and, in
        strict mode, appends the lock to its list. */
    method TakeLock(l: LockId) returns (acquired: bool)
      requires Valid() && Running() && l in locks && !HeldByCurrent(l)
      modifies this
      ensures Valid()
      ensures current == old(current) && conds == old(conds)
      ensures acquired == old(locks[l].holder.None?)
      ensures var s := old(locks[l].sema);
              acquired ==>
                threads == Taken(mlfqs, old(threads), current, l) &&
                semas == old(semas)[s := old(semas[s]).(value := 0)] &&
                locks == old(locks)[l := old(locks[l]).(holder := Some(current))]
      ensures var s := old(locks[l].sema);
              !acquired ==>
                threads == old(threads)[current := old(threads[current]).(blockedOn := Some(s))] &&
                semas == old(semas)[s := old(semas[s]).(waiters := old(semas[s].waiters) + [current])] &&
                locks == old(locks)
    {
      var s := locks[l].sema;
      assert LockOk(mlfqs, threads, semas, locks, l);
      if semas[s].value > 0 {
        TakeCoherent(mlfqs, current, threads, semas, locks, conds, l);
        acquired := true;
        semas := semas[s := semas[s].(value := 0)];
        locks := locks[l := locks[l].(holder := Some(current))];
        threads := Taken(mlfqs, threads, current, l);
      } else {
        BlockCoherent(mlfqs, current, threads, semas, locks, conds, s);
        acquired := false;
        semas := semas[s := semas[s].(waiters := semas[s].waiters + [current])];
        threads := threads[current := threads[current].(blockedOn := Some(s))];
      }
    }

    /** `lock_acquire`: the caller must not hold the lock.  In strict mode it first donates its
        priority when the holder's is lower; then it takes the lock or blocks on its semaphore. */
    method LockAcquire(l: LockId) returns (acquired: bool)
      requires Valid() && Running() && l in locks && !HeldByCurrent(l)
      modifies this
      ensures Valid()
      ensures current == old(current) && conds == old(conds)
      ensures acquired == old(locks[l].holder.None?)
      ensures var s := old(locks[l].sema);
              acquired ==>
                threads == Taken(mlfqs, old(threads), current, l) &&
                semas == old(semas)[s := old(semas[s]).(value := 0)] &&
                locks == old(locks)[l := old(locks[l]).(holder := Some(current))]
      ensures var s := old(locks[l].sema);
              var ts1 := old(Donated(l));
              !acquired ==>
                threads == ts1[current := ts1[current].(blockedOn := Some(s))] &&
                semas == old(semas)[s := old(semas[s]).(waiters := old(semas[s].waiters) + [current])] &&
                locks == old(locks)
    {
      if !mlfqs {
        var holder := locks[l].holder;
        if holder.Some? && threads[holder.value].priority < threads[current].priority {
          DonateCoherent(mlfqs, current, threads, semas, locks, conds, holder.value, threads[current].priority);
          PriorityDonate(holder.value, threads[current].priority);
        }
      }
      acquired := TakeLock(l);
    }

    /** `lock_try_acquire`: takes the lock exactly when it is free, without donating; otherwise
        nothing changes. */
    method LockTryAcquire(l: LockId) returns (success: bool)
      requires Valid() && l in locks && !HeldByCurrent(l)
      modifies this
      ensures Valid()
      ensures current == old(current) && conds == old(conds)
      ensures success == old(locks[l].holder.None?)
      ensures var s := old(locks[l].sema);
              success ==>
                threads == Taken(mlfqs, old(threads), current, l) &&
                semas == old(semas)[s := old(semas[s]).(value := 0)] &&
                locks == old(locks)[l := old(locks[l]).(holder := Some(current))]
      ensures !success ==> threads == old(threads) && semas == old(semas) && locks == old(locks)
    {
      var s := locks[l].sema;
      assert LockOk(mlfqs, threads, semas, locks, l);
      success := semas[s].value > 0;
      if success {
        TakeCoherent(mlfqs, current, threads, semas, locks, conds, l);
        semas := semas[s := semas[s].(value := 0)];
        locks := locks[l := locks[l].(holder := Some(current))];
        threads := Taken(mlfqs, threads, current, l);
      }
    }

    /** The priority `lock_release` gives the releasing thread in strict mode: the highest priority
        among the waiters of the locks it still holds, or -1 (restore the base priority) when none
        has a waiter.  Under MLFQS it is not computed. */
    method ReleasePriority(l: LockId) returns (m: int)
      requires Valid() && l in locks && HeldByCurrent(l)
      ensures !mlfqs ==> HeldKnown(threads, semas, locks, Without(threads[current].locks, l)) &&
                         m == NextPriority(threads, semas, locks, Without(threads[current].locks, l))
      ensures mlfqs ==> m == -1
      ensures m == -1 || ThreadLimits.PRI_MIN <= m <= ThreadLimits.PRI_MAX
    {
      m := -1;
      if !mlfqs {
        var held := Without(threads[current].locks, l);
        HeldKnownAfterRelease(mlfqs, threads, semas, locks, current, l);
        m := NextPriorityOf(held);
        NextPriorityInRange(mlfqs, threads, semas, locks, held);
      }
    }

    /** The threads after the first half of `lock_release` by the current thread. */
    ghost function AfterRelease(l: LockId): (r: Threads)
      reads this
      requires Valid() && l in locks && HeldByCurrent(l)
      ensures r.Keys == threads.Keys
    {
      HeldKnownAfterRelease(mlfqs, threads, semas, locks, current, l);
      Released(mlfqs, threads, semas, locks, current, l)
    }

    /** `lock_release`: the caller must hold the lock.  In strict mode the lock leaves the caller's
        list and the caller's priority is recomputed; then the holder is cleared and the lock's
        semaphore goes up, waking one waiter. */
    method LockRelease(l: LockId)
      requires Valid() && l in locks && HeldByCurrent(l)
      modifies this
      ensures Valid()
      ensures locks == old(locks)[l := old(locks[l]).(holder := None)]
      ensures var ts1 := old(AfterRelease(l));
              var s := old(locks[l].sema);
              threads == UpThreads(ts1, old(semas[s]), mlfqs) &&
              semas == old(semas)[s := UpSema(ts1, old(semas[s]), mlfqs)]
      ensures old(Running()) ==> Running()
      ensures current == old(current) && conds == old(conds)
    {
      var s := locks[l].sema;
      var m := ReleasePriority(l);
      ReleaseCoherent(mlfqs, current, threads, semas, locks, conds, l, m);
      if Running() {
        ReleaseKeepsRunning(mlfqs, threads, semas[s], current, l, m);
      }
      threads := Demote(mlfqs, threads, current, l, m);
      locks := locks[l := locks[l].(holder := None)];
      Up(s);
    }

    // ------------------------------------------------------------ condition variables

    /** `cond_init` of a new condition. */
    method CondInit(c: CondId)
      requires Valid() && c !in conds
      modifies this
      ensures Valid()
      ensures conds == old(conds)[c := []]
      ensures current == old(current) && threads == old(threads) && semas == old(semas) && locks == old(locks)
    {
      NewCondCoherent(mlfqs, current, threads, semas, locks, conds, c);
      conds := conds[c := []];
    }

    /** `cond_wait` up to the point where the caller sleeps: the caller must hold the lock; it
        releases it, and its new `semaphore_elem` `e` (value 0) goes at the back of the condition's
        list with the caller blocked on it.  Once signalled, the caller downs `e` with `SemaDown` and
        reacquires the lock with `LockAcquire`. */
    method CondWait(c: CondId, l: LockId, e: SemaId)
      requires Valid() && Running() && c in conds && l in locks && HeldByCurrent(l) && e !in semas
      modifies this
      ensures Valid()
      ensures current == old(current)
      ensures locks == old(locks)[l := old(locks[l]).(holder := None)]
      ensures conds == old(conds)[c := old(conds[c]) + [e]]
      ensures var ts1 := old(AfterRelease(l));
              var s := old(locks[l].sema);
              var ts2 := UpThreads(ts1, old(semas[s]), mlfqs);
              threads == ts2[current := ts2[current].(blockedOn := Some(e))] &&
              semas == old(semas)[s := UpSema(ts1, old(semas[s]), mlfqs)][e := Semaphore(0, [current], OfCond(c))]
    {
      LockRelease(l);
      EnqueueCoherent(mlfqs, current, threads, semas, locks, conds, c, e);
      semas := semas[e := Semaphore(0, [current], OfCond(c))];
      conds := conds[c := conds[c] + [e]];
      threads := threads[current := threads[current].(blockedOn := Some(e))];
    }

    /** The `semaphore_elem` `cond_signal` picks: the first one whose waiter has the highest priority
        in strict mode, the front one under MLFQS. */
    ghost function SignalChoice(c: CondId): nat
      reads this
      requires Valid() && c in conds && conds[c] != []
    {
      SleepersKnown(mlfqs, current, threads, semas, locks, conds, c);
      Chosen(threads, Sleepers(semas, conds[c]), mlfqs)
    }

    /** `cond_signal`: the caller must hold the lock.  Nothing happens when nobody waits; otherwise
        the chosen `semaphore_elem` leaves the list and goes up, waking its thread. */
    method CondSignal(c: CondId, l: LockId)
      requires Valid() && c in conds && l in locks && HeldByCurrent(l)
      modifies this
      ensures Valid()
      ensures old(conds[c]) == [] ==> conds == old(conds) && semas == old(semas) && threads == old(threads)
      ensures old(conds[c]) != [] ==>
                var i := old(SignalChoice(c));
                var e := old(conds[c])[i];
                conds == old(conds)[c := Remove(old(conds[c]), i)] &&
                semas == old(semas)[e := UpSema(old(threads), old(semas[e]), mlfqs)] &&
                threads == UpThreads(old(threads), old(semas[e]), mlfqs)
      ensures old(conds[c]) != [] ==>
                var e := old(conds[c])[old(SignalChoice(c))];
                e in semas && semas[e].value == 1 && semas[e].waiters == []
      ensures current == old(current) && locks == old(locks)
    {
      if conds[c] != [] {
        var es := conds[c];
        SleepersKnown(mlfqs, current, threads, semas, locks, conds, c);
        var i := Chosen(threads, Sleepers(semas, es), mlfqs);
        var e := es[i];
        assert CondOk(semas, conds, c);
        UpTakesWoken(threads, semas[e], mlfqs);
        DequeueCoherent(mlfqs, current, threads, semas, locks, conds, c, i);
        conds := conds[c := Remove(es, i)];
        UpCoherent(mlfqs, current, threads, semas, locks, conds, e);
        Up(e);
      }
    }

    /** One round of `cond_broadcast`: `cond_signal` on a non-empty list, which takes one more element
        off the list that was `olds` when the broadcast began. */
    method SignalNext(c: CondId, l: LockId, ghost ts0: Threads, ghost semas0: Semas, ghost olds: seq<SemaId>)
      requires Valid() && c in conds && l in locks && conds[c] != [] && HeldByCurrent(l)
      requires Sleeping(ts0, semas0, olds) && Broadcasting(ts0, semas0, olds, threads, semas, conds[c])
      modifies this
      ensures Valid() && c in conds && current == old(current) && locks == old(locks)
      ensures conds == old(conds)[c := conds[c]] && |conds[c]| < old(|conds[c]|)
      ensures Broadcasting(ts0, semas0, olds, threads, semas, conds[c])
    {
      ghost var i := SignalChoice(c);
      assert CondOk(semas, conds, c);
      BroadcastStep(mlfqs, ts0, semas0, olds, threads, semas, conds[c], i);
      CondSignal(c, l);
    }

    /** `cond_broadcast`: signals until the condition's list is empty.  Every `semaphore_elem` that
        was on it has gone up from 0 to 1 and lost its waiter, every thread that waited in one of
        them is awake, and no other thread or semaphore has changed.  The lock must be held if
        anyone waits. */
    method CondBroadcast(c: CondId, l: LockId)
      requires Valid() && c in conds && l in locks && (conds[c] != [] ==> HeldByCurrent(l))
      modifies this
      ensures Valid()
      ensures conds == old(conds)[c := []]
      ensures semas.Keys == old(semas).Keys && threads.Keys == old(threads).Keys
      ensures forall e :: e in old(conds[c]) ==> e in old(semas) && semas[e] == old(semas[e]).(value := 1, waiters := [])
      ensures forall x :: x in old(semas) && x !in old(conds[c]) ==> semas[x] == old(semas[x])
      ensures forall t :: t in old(threads) ==>
                threads[t] == if Asleep(old(threads), old(semas), old(conds[c]), t)
                              then old(threads[t]).(blockedOn := None) else old(threads[t])
      ensures current == old(current) && locks == old(locks)
    {
      SleepingOf(mlfqs, current, threads, semas, locks, conds, c);
      ghost var ts0, semas0, olds := threads, semas, conds[c];
      while conds[c] != []
        invariant Valid() && c in conds && current == old(current) && locks == old(locks)
        invariant conds == old(conds)[c := conds[c]]
        invariant conds[c] != [] ==> HeldByCurrent(l)
        invariant Broadcasting(ts0, semas0, olds, threads, semas, conds[c])
        decreases |conds[c]|
      {
        ghost var conds1 := conds;
        SignalNext(c, l, ts0, semas0, olds);
        UpdateTwice(old(conds), c, conds1[c], conds[c]);
      }
      BroadcastDone(ts0, semas0, olds, threads, semas);
      assert conds == old(conds)[c := []];
    }
  }
}
