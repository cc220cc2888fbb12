/** The invariant every state of `Synch.Sync` keeps between primitive calls, and the lemmas that each
    kind of step preserves it.  It is split into one part per map so that each proof looks only at
    the parts a step can disturb. */
module SynchInvariant {
  import opened Wrappers
  import ThreadLimits
  import opened SynchSpec

  /** A thread's priorities are in range, what it waits on exists, and its lock list holds each lock it
      holds exactly once (under MLFQS the list is not kept and stays empty). */
  predicate ThreadOk(mlfqs: bool, ts: Threads, semas: Semas, locks: Locks, t: ThreadId)
    requires t in ts
  {
    var th := ts[t];
    ThreadLimits.PRI_MIN <= th.priority <= ThreadLimits.PRI_MAX &&
    ThreadLimits.PRI_MIN <= th.basePriority <= ThreadLimits.PRI_MAX &&
    (th.blockedOn.Some? ==> th.blockedOn.value in semas) &&
    Distinct(th.locks) &&
    (forall k :: 0 <= k < |th.locks| ==> th.locks[k] in locks && locks[th.locks[k]].holder == Some(t)) &&
    (mlfqs ==> th.locks == [])
  }

  /** The waiters of a semaphore are distinct threads blocked on it; a lock's semaphore is the one the
      lock embeds. */
  predicate SemaOk(ts: Threads, semas: Semas, locks: Locks, s: SemaId)
    requires s in semas
  {
    var w := semas[s].waiters;
    Distinct(w) &&
    (forall i :: 0 <= i < |w| ==> w[i] in ts && ts[w[i]].blockedOn == Some(s)) &&
    (semas[s].owner.OfLock? ==> semas[s].owner.lock in locks && locks[semas[s].owner.lock].sema == s)
  }

  /** The lock invariant: the value of a lock's semaphore is 1 when the lock is free and 0 when it is
      held, and a holder (outside MLFQS) lists the lock among its locks. */
  predicate LockOk(mlfqs: bool, ts: Threads, semas: Semas, locks: Locks, l: LockId)
    requires l in locks
  {
    var lk := locks[l];
    lk.sema in semas && semas[lk.sema].owner == OfLock(l) &&
    semas[lk.sema].value == (if lk.holder.None? then 1 else 0) &&
    (lk.holder.Some? ==> lk.holder.value in ts && (!mlfqs ==> l in ts[lk.holder.value].locks))
  }

  /** Each `semaphore_elem` on a condition's list belongs to that condition and has value 0 and exactly
      one waiter, the thread in `cond_wait` (what `condvar_less_func` asserts). */
  predicate CondOk(semas: Semas, conds: Conds, c: CondId)
    requires c in conds
  {
    var es := conds[c];
    Distinct(es) &&
    forall k :: 0 <= k < |es| ==>
      es[k] in semas && semas[es[k]].owner == OfCond(c) && semas[es[k]].value == 0 && |semas[es[k]].waiters| == 1
  }

  predicate ThreadsOk(mlfqs: bool, ts: Threads, semas: Semas, locks: Locks)
  {
    forall t :: t in ts ==> ThreadOk(mlfqs, ts, semas, locks, t)
  }

  predicate SemasOk(ts: Threads, semas: Semas, locks: Locks)
  {
    forall s :: s in semas ==> SemaOk(ts, semas, locks, s)
  }

  predicate LocksOk(mlfqs: bool, ts: Threads, semas: Semas, locks: Locks)
  {
    forall l :: l in locks ==> LockOk(mlfqs, ts, semas, locks, l)
  }

  predicate CondsOk(semas: Semas, conds: Conds)
  {
    forall c :: c in conds ==> CondOk(semas, conds, c)
  }

  predicate Coherent(mlfqs: bool, current: ThreadId, ts: Threads, semas: Semas, locks: Locks, conds: Conds)
  {
    current in ts && ThreadsOk(mlfqs, ts, semas, locks) && SemasOk(ts, semas, locks) &&
    LocksOk(mlfqs, ts, semas, locks) && CondsOk(semas, conds)
  }

  /** A semaphore that `cond_signal` has taken off its condition's list (or one that never was on one). */
  predicate Unlisted(semas: Semas, conds: Conds, s: SemaId)
    requires s in semas
  {
    semas[s].owner.OfCond? && semas[s].owner.cond in conds ==> s !in conds[semas[s].owner.cond]
  }

  // ------------------------------------------------------------ __sema_up

  lemma UpThreadsOk(mlfqs: bool, ts: Threads, semas: Semas, locks: Locks, s: SemaId, semas': Semas)
    requires ThreadsOk(mlfqs, ts, semas, locks) && SemasOk(ts, semas, locks)
    requires s in semas && semas'.Keys == semas.Keys
    ensures Known(ts, semas[s].waiters)
    ensures ThreadsOk(mlfqs, UpThreads(ts, semas[s], mlfqs), semas', locks)
  {
    assert SemaOk(ts, semas, locks, s);
    var ts' := UpThreads(ts, semas[s], mlfqs);
    forall x | x in ts'
      ensures ThreadOk(mlfqs, ts', semas', locks, x)
    {
      assert ThreadOk(mlfqs, ts, semas, locks, x);
    }
  }

  lemma UpSemasOk(mlfqs: bool, ts: Threads, semas: Semas, locks: Locks, s: SemaId)
    requires SemasOk(ts, semas, locks) && s in semas
    ensures Known(ts, semas[s].waiters)
    ensures SemasOk(UpThreads(ts, semas[s], mlfqs), semas[s := UpSema(ts, semas[s], mlfqs)], locks)
  {
    assert SemaOk(ts, semas, locks, s);
    var sm := semas[s];
    var ts' := UpThreads(ts, sm, mlfqs);
    var semas' := semas[s := UpSema(ts, sm, mlfqs)];
    if sm.waiters != [] {
      var i := Chosen(ts, sm.waiters, mlfqs);
      var t := sm.waiters[i];
      RemoveDistinct(sm.waiters, i);
      forall x | x in semas'
        ensures SemaOk(ts', semas', locks, x)
      {
        assert SemaOk(ts, semas, locks, x);
        var w := semas'[x].waiters;
        forall j | 0 <= j < |w|
          ensures w[j] in ts' && ts'[w[j]].blockedOn == Some(x)
        {
          if x == s {
            assert w[j] in sm.waiters && w[j] != t;
          } else {
            assert ts[w[j]].blockedOn == Some(x);
          }
        }
      }
    } else {
      forall x | x in semas'
        ensures SemaOk(ts', semas', locks, x)
      {
        assert SemaOk(ts, semas, locks, x);
      }
    }
  }

  lemma UpLocksOk(mlfqs: bool, ts: Threads, semas: Semas, locks: Locks, s: SemaId, ts': Threads, sm': Semaphore)
    requires LocksOk(mlfqs, ts, semas, locks) && s in semas && !semas[s].owner.OfLock?
    requires ts'.Keys == ts.Keys && forall t :: t in ts ==> ts'[t].locks == ts[t].locks
    ensures LocksOk(mlfqs, ts', semas[s := sm'], locks)
  {
    forall l | l in locks
      ensures LockOk(mlfqs, ts', semas[s := sm'], locks, l)
    {
      assert LockOk(mlfqs, ts, semas, locks, l);
    }
  }

  lemma UpCondsOk(semas: Semas, conds: Conds, s: SemaId, sm': Semaphore)
    requires CondsOk(semas, conds) && s in semas && Unlisted(semas, conds, s)
    requires sm'.owner == semas[s].owner
    ensures CondsOk(semas[s := sm'], conds)
  {
    forall c | c in conds
      ensures CondOk(semas[s := sm'], conds, c)
    {
      assert CondOk(semas, conds, c);
    }
  }

  /** Waking through a semaphore that is not a lock's and is on no condition list keeps the invariant. */
  lemma UpCoherent(mlfqs: bool, cur: ThreadId, ts: Threads, semas: Semas, locks: Locks, conds: Conds, s: SemaId)
    requires Coherent(mlfqs, cur, ts, semas, locks, conds)
    requires s in semas && !semas[s].owner.OfLock? && Unlisted(semas, conds, s)
    ensures Known(ts, semas[s].waiters)
    ensures Coherent(mlfqs, cur, UpThreads(ts, semas[s], mlfqs), semas[s := UpSema(ts, semas[s], mlfqs)], locks, conds)
  {
    var sm' := UpSema(ts, semas[s], mlfqs);
    UpThreadsOk(mlfqs, ts, semas, locks, s, semas[s := sm']);
    UpSemasOk(mlfqs, ts, semas, locks, s);
    UpLocksOk(mlfqs, ts, semas, locks, s, UpThreads(ts, semas[s], mlfqs), sm');
    UpCondsOk(semas, conds, s, sm');
  }

  // ------------------------------------------------------------ frames

  lemma ThreadsWiden(mlfqs: bool, ts: Threads, semas: Semas, locks: Locks, semas': Semas)
    requires ThreadsOk(mlfqs, ts, semas, locks) && semas.Keys <= semas'.Keys
    ensures ThreadsOk(mlfqs, ts, semas', locks)
  {
    forall t | t in ts
      ensures ThreadOk(mlfqs, ts, semas', locks, t)
    {
      assert ThreadOk(mlfqs, ts, semas, locks, t);
    }
  }

  /** Changing or adding a semaphore that is not a lock's leaves every lock's semaphore alone. */
  lemma LocksKeepSema(mlfqs: bool, ts: Threads, semas: Semas, locks: Locks, s: SemaId, sm': Semaphore)
    requires LocksOk(mlfqs, ts, semas, locks)
    requires (s in semas ==> !semas[s].owner.OfLock?) && !sm'.owner.OfLock?
    ensures LocksOk(mlfqs, ts, semas[s := sm'], locks)
  {
    forall l | l in locks
      ensures LockOk(mlfqs, ts, semas[s := sm'], locks, l)
    {
      assert LockOk(mlfqs, ts, semas, locks, l);
    }
  }

  lemma LocksKeepThreads(mlfqs: bool, ts: Threads, ts': Threads, semas: Semas, locks: Locks)
    requires LocksOk(mlfqs, ts, semas, locks)
    requires ts.Keys <= ts'.Keys && forall t :: t in ts ==> ts'[t].locks == ts[t].locks
    ensures LocksOk(mlfqs, ts', semas, locks)
  {
    forall l | l in locks
      ensures LockOk(mlfqs, ts', semas, locks, l)
    {
      assert LockOk(mlfqs, ts, semas, locks, l);
    }
  }

  /** Changing or adding a semaphore that is on no condition's list leaves every list alone. */
  lemma CondsKeepSema(semas: Semas, conds: Conds, s: SemaId, sm': Semaphore)
    requires CondsOk(semas, conds) && (s !in semas || Unlisted(semas, conds, s))
    ensures CondsOk(semas[s := sm'], conds)
  {
    forall c | c in conds
      ensures CondOk(semas[s := sm'], conds, c)
    {
      assert CondOk(semas, conds, c);
    }
  }

  /** Changing a semaphore's value only. */
  lemma SemasKeepWaiters(ts: Threads, semas: Semas, locks: Locks, s: SemaId, sm': Semaphore)
    requires SemasOk(ts, semas, locks) && s in semas
    requires sm'.waiters == semas[s].waiters && sm'.owner == semas[s].owner
    ensures SemasOk(ts, semas[s := sm'], locks)
  {
    forall x | x in semas
      ensures SemaOk(ts, semas[s := sm'], locks, x)
    {
      assert SemaOk(ts, semas, locks, x);
    }
  }

  /** Threads change, but none is removed and none changes what it is blocked on. */
  lemma SemasKeepBlocked(ts: Threads, ts': Threads, semas: Semas, locks: Locks)
    requires SemasOk(ts, semas, locks)
    requires ts.Keys <= ts'.Keys && forall t :: t in ts ==> ts'[t].blockedOn == ts[t].blockedOn
    ensures SemasOk(ts', semas, locks)
  {
    forall x | x in semas
      ensures SemaOk(ts', semas, locks, x)
    {
      assert SemaOk(ts, semas, locks, x);
    }
  }

  // ------------------------------------------------------------ steps

  /** `sema_init` of a new plain semaphore. */
  lemma NewSemaCoherent(mlfqs: bool, cur: ThreadId, ts: Threads, semas: Semas, locks: Locks, conds: Conds,
                        s: SemaId, value: nat)
    requires Coherent(mlfqs, cur, ts, semas, locks, conds) && s !in semas
    ensures Coherent(mlfqs, cur, ts, semas[s := Semaphore(value, [], Plain)], locks, conds)
  {
    var semas' := semas[s := Semaphore(value, [], Plain)];
    ThreadsWiden(mlfqs, ts, semas, locks, semas');
    forall x | x in semas'
      ensures SemaOk(ts, semas', locks, x)
    {
      if x != s {
        assert SemaOk(ts, semas, locks, x);
      }
    }
    LocksKeepSema(mlfqs, ts, semas, locks, s, Semaphore(value, [], Plain));
    CondsKeepSema(semas, conds, s, Semaphore(value, [], Plain));
  }

  /** A new ready thread. */
  lemma NewThreadCoherent(mlfqs: bool, cur: ThreadId, ts: Threads, semas: Semas, locks: Locks, conds: Conds,
                          t: ThreadId, priority: int)
    requires Coherent(mlfqs, cur, ts, semas, locks, conds) && t !in ts
    requires ThreadLimits.PRI_MIN <= priority <= ThreadLimits.PRI_MAX
    ensures Coherent(mlfqs, cur, ts[t := Thread(priority, priority, false, None, [])], semas, locks, conds)
  {
    var ts' := ts[t := Thread(priority, priority, false, None, [])];
    forall x | x in ts'
      ensures ThreadOk(mlfqs, ts', semas, locks, x)
    {
      if x != t {
        assert ThreadOk(mlfqs, ts, semas, locks, x);
      }
    }
    SemasKeepBlocked(ts, ts', semas, locks);
    LocksKeepThreads(mlfqs, ts, ts', semas, locks);
  }

  /** One unit taken from a semaphore that is not a lock's and is on no condition list. */
  lemma DecCoherent(mlfqs: bool, cur: ThreadId, ts: Threads, semas: Semas, locks: Locks, conds: Conds, s: SemaId)
    requires Coherent(mlfqs, cur, ts, semas, locks, conds)
    requires s in semas && !semas[s].owner.OfLock? && Unlisted(semas, conds, s) && semas[s].value > 0
    ensures Coherent(mlfqs, cur, ts, semas[s := semas[s].(value := semas[s].value - 1)], locks, conds)
  {
    var sm' := semas[s].(value := semas[s].value - 1);
    ThreadsWiden(mlfqs, ts, semas, locks, semas[s := sm']);
    SemasKeepWaiters(ts, semas, locks, s, sm');
    LocksKeepSema(mlfqs, ts, semas, locks, s, sm');
    CondsKeepSema(semas, conds, s, sm');
  }

  /** The running thread joins the back of a semaphore's waiters and blocks. */
  lemma BlockCoherent(mlfqs: bool, cur: ThreadId, ts: Threads, semas: Semas, locks: Locks, conds: Conds, s: SemaId)
    requires Coherent(mlfqs, cur, ts, semas, locks, conds) && ts[cur].blockedOn.None?
    requires s in semas && Unlisted(semas, conds, s)
    ensures Coherent(mlfqs, cur, ts[cur := ts[cur].(blockedOn := Some(s))],
                     semas[s := semas[s].(waiters := semas[s].waiters + [cur])], locks, conds)
  {
    var ts' := ts[cur := ts[cur].(blockedOn := Some(s))];
    var sm' := semas[s].(waiters := semas[s].waiters + [cur]);
    var semas' := semas[s := sm'];
    forall x | x in ts'
      ensures ThreadOk(mlfqs, ts', semas', locks, x)
    {
      assert ThreadOk(mlfqs, ts, semas, locks, x);
    }
    forall x | x in semas'
      ensures SemaOk(ts', semas', locks, x)
    {
      assert SemaOk(ts, semas, locks, x);
      var w := semas[x].waiters;
      forall j | 0 <= j < |w|
        ensures w[j] != cur
      {
        assert ts[w[j]].blockedOn == Some(x);
      }
      if x == s {
        var w' := sm'.waiters;
        forall i, j | 0 <= i < j < |w'|
          ensures w'[i] != w'[j]
        {
          if j < |w| {
            assert w'[i] == w[i] && w'[j] == w[j];
          } else {
            assert w'[i] == w[i] && w'[j] == cur;
          }
        }
        forall j | 0 <= j < |w'|
          ensures w'[j] in ts' && ts'[w'[j]].blockedOn == Some(s)
        {
          if j < |w| {
            assert w'[j] == w[j];
          }
        }
      }
    }
    forall l | l in locks
      ensures LockOk(mlfqs, ts', semas', locks, l)
    {
      assert LockOk(mlfqs, ts, semas, locks, l);
    }
    CondsKeepSema(semas, conds, s, sm');
  }

  /** A new lock, with its semaphore at 1 and no holder. */
  lemma NewLockCoherent(mlfqs: bool, cur: ThreadId, ts: Threads, semas: Semas, locks: Locks, conds: Conds,
                        l: LockId, s: SemaId)
    requires Coherent(mlfqs, cur, ts, semas, locks, conds) && l !in locks && s !in semas
    ensures Coherent(mlfqs, cur, ts, semas[s := Semaphore(1, [], OfLock(l))], locks[l := Lock(None, s)], conds)
  {
    var semas' := semas[s := Semaphore(1, [], OfLock(l))];
    var locks' := locks[l := Lock(None, s)];
    forall t | t in ts
      ensures ThreadOk(mlfqs, ts, semas', locks', t)
    {
      assert ThreadOk(mlfqs, ts, semas, locks, t);
    }
    forall x | x in semas'
      ensures SemaOk(ts, semas', locks', x)
    {
      if x != s {
        assert SemaOk(ts, semas, locks, x);
      }
    }
    forall k | k in locks'
      ensures LockOk(mlfqs, ts, semas', locks', k)
    {
      if k != l {
        assert LockOk(mlfqs, ts, semas, locks, k);
      }
    }
    CondsKeepSema(semas, conds, s, Semaphore(1, [], OfLock(l)));
  }

  /** The threads after the running thread takes a free lock: outside MLFQS the lock goes at the end
      of its list. */
  function Taken(mlfqs: bool, ts: Threads, cur: ThreadId, l: LockId): Threads
    requires cur in ts
  {
    if mlfqs then ts else ts[cur := ts[cur].(locks := ts[cur].locks + [l])]
  }

  /** The running thread takes a free lock: its semaphore drops to 0 and the thread becomes holder. */
  lemma TakeCoherent(mlfqs: bool, cur: ThreadId, ts: Threads, semas: Semas, locks: Locks, conds: Conds, l: LockId)
    requires Coherent(mlfqs, cur, ts, semas, locks, conds) && l in locks && locks[l].holder.None?
    ensures locks[l].sema in semas
    ensures Coherent(mlfqs, cur, Taken(mlfqs, ts, cur, l),
                     semas[locks[l].sema := semas[locks[l].sema].(value := 0)],
                     locks[l := locks[l].(holder := Some(cur))], conds)
  {
    assert LockOk(mlfqs, ts, semas, locks, l);
    var s := locks[l].sema;
    var ts' := Taken(mlfqs, ts, cur, l);
    var semas' := semas[s := semas[s].(value := 0)];
    var locks' := locks[l := locks[l].(holder := Some(cur))];
    forall t | t in ts'
      ensures ThreadOk(mlfqs, ts', semas', locks', t)
    {
      assert ThreadOk(mlfqs, ts, semas, locks, t);
      var ls := ts[t].locks;
      assert l !in ls by {
        forall k | 0 <= k < |ls|
          ensures ls[k] != l
        {
          assert locks[ls[k]].holder == Some(t);
        }
      }
      if t == cur && !mlfqs {
        var ls' := ts'[t].locks;
        assert ls' == ls + [l];
        forall i, j | 0 <= i < j < |ls'|
          ensures ls'[i] != ls'[j]
        {
          if j < |ls| {
            assert ls'[i] == ls[i] && ls'[j] == ls[j];
          } else {
            assert ls'[i] == ls[i];
          }
        }
        forall k | 0 <= k < |ls'|
          ensures ls'[k] in locks' && locks'[ls'[k]].holder == Some(t)
        {
          if k < |ls| {
            assert ls'[k] == ls[k];
          }
        }
      }
    }
    forall x | x in semas'
      ensures SemaOk(ts', semas', locks', x)
    {
      assert SemaOk(ts, semas, locks, x);
    }
    forall k | k in locks'
      ensures LockOk(mlfqs, ts', semas', locks', k)
    {
      assert LockOk(mlfqs, ts, semas, locks, k);
    }
    CondsKeepSema(semas, conds, s, semas[s].(value := 0));
  }

  /** Donation from a thread of valid priority keeps the invariant. */
  lemma DonateCoherent(mlfqs: bool, cur: ThreadId, ts: Threads, semas: Semas, locks: Locks, conds: Conds,
                       h: ThreadId, p: int)
    requires Coherent(mlfqs, cur, ts, semas, locks, conds) && h in ts
    requires ThreadLimits.PRI_MIN <= p <= ThreadLimits.PRI_MAX
    ensures Coherent(mlfqs, cur, Donate(ts, semas, locks, h, p), semas, locks, conds)
  {
    var ts' := Donate(ts, semas, locks, h, p);
    forall t | t in ts'
      ensures ThreadOk(mlfqs, ts', semas, locks, t)
    {
      assert ThreadOk(mlfqs, ts, semas, locks, t);
    }
    SemasKeepBlocked(ts, ts', semas, locks);
    LocksKeepThreads(mlfqs, ts, ts', semas, locks);
  }

  /** The locks a holder keeps after releasing one are all known, with their waiters. */
  lemma HeldKnownAfterRelease(mlfqs: bool, ts: Threads, semas: Semas, locks: Locks, t: ThreadId, l: LockId)
    requires ThreadsOk(mlfqs, ts, semas, locks) && SemasOk(ts, semas, locks) && LocksOk(mlfqs, ts, semas, locks)
    requires t in ts
    ensures HeldKnown(ts, semas, locks, Without(ts[t].locks, l))
  {
    assert ThreadOk(mlfqs, ts, semas, locks, t);
    var held := Without(ts[t].locks, l);
    forall k | 0 <= k < |held|
      ensures held[k] in locks && locks[held[k]].sema in semas && Known(ts, LockWaiters(semas, locks, held[k]))
    {
      assert held[k] in ts[t].locks;
      assert LockOk(mlfqs, ts, semas, locks, held[k]);
      assert SemaOk(ts, semas, locks, locks[held[k]].sema);
    }
  }

  /** The priority `next_priority` finds is -1 or a valid priority. */
  lemma NextPriorityInRange(mlfqs: bool, ts: Threads, semas: Semas, locks: Locks, held: seq<LockId>)
    requires ThreadsOk(mlfqs, ts, semas, locks) && HeldKnown(ts, semas, locks, held)
    ensures var m := NextPriority(ts, semas, locks, held);
            m == -1 || ThreadLimits.PRI_MIN <= m <= ThreadLimits.PRI_MAX
  {
    var m := NextPriority(ts, semas, locks, held);
    NextPriorityAttained(ts, semas, locks, held);
    if m != -1 {
      var k, j :| 0 <= k < |held| && 0 <= j < |LockWaiters(semas, locks, held[k])| &&
        ts[LockWaiters(semas, locks, held[k])[j]].priority == m;
      assert ThreadOk(mlfqs, ts, semas, locks, LockWaiters(semas, locks, held[k])[j]);
    }
  }

  /** The first half of `lock_release`: the holder's list and priority are updated and the holder is
      cleared; the threads are coherent again. */
  lemma DemotedThreadsOk(mlfqs: bool, ts: Threads, semas: Semas, locks: Locks, t: ThreadId, l: LockId, m: int)
    requires ThreadsOk(mlfqs, ts, semas, locks)
    requires l in locks && locks[l].holder == Some(t) && t in ts
    requires m == -1 || ThreadLimits.PRI_MIN <= m <= ThreadLimits.PRI_MAX
    ensures ThreadsOk(mlfqs, Demote(mlfqs, ts, t, l, m), semas, locks[l := locks[l].(holder := None)])
  {
    var ts1 := Demote(mlfqs, ts, t, l, m);
    var locks' := locks[l := locks[l].(holder := None)];
    var held := Without(ts[t].locks, l);
    forall x | x in ts1
      ensures ThreadOk(mlfqs, ts1, semas, locks', x)
    {
      assert ThreadOk(mlfqs, ts, semas, locks, x);
      if x == t && !mlfqs {
        WithoutDistinct(ts[t].locks, l);
        forall k | 0 <= k < |held|
          ensures held[k] in locks' && locks'[held[k]].holder == Some(t)
        {
          assert held[k] in ts[t].locks;
        }
      } else {
        var ls := ts[x].locks;
        forall k | 0 <= k < |ls|
          ensures ls[k] != l
        {
          assert locks[ls[k]].holder == Some(x);
        }
      }
    }
  }

  /** ... and so are the semaphores and every lock but the released one. */
  lemma DemotedSemasLocksOk(mlfqs: bool, ts: Threads, semas: Semas, locks: Locks, t: ThreadId, l: LockId, m: int)
    requires SemasOk(ts, semas, locks) && LocksOk(mlfqs, ts, semas, locks)
    requires l in locks && locks[l].holder == Some(t) && t in ts
    ensures SemasOk(Demote(mlfqs, ts, t, l, m), semas, locks[l := locks[l].(holder := None)])
    ensures forall k :: k in locks && k != l ==>
              LockOk(mlfqs, Demote(mlfqs, ts, t, l, m), semas, locks[l := locks[l].(holder := None)], k)
  {
    var ts1 := Demote(mlfqs, ts, t, l, m);
    var locks' := locks[l := locks[l].(holder := None)];
    forall x | x in semas
      ensures SemaOk(ts1, semas, locks', x)
    {
      assert SemaOk(ts, semas, locks, x);
    }
    forall k | k in locks && k != l
      ensures LockOk(mlfqs, ts1, semas, locks', k)
    {
      assert LockOk(mlfqs, ts, semas, locks, k);
      var h := locks[k].holder;
      if h == Some(t) && !mlfqs {
        assert k in Without(ts[t].locks, l);
      }
    }
  }

  /** The second half of `lock_release`: once the lock `l` has no holder (its semaphore still at 0)
      and every other part of the state is sound, raising the lock's semaphore restores the
      invariant. */
  lemma FreedUpCoherent(mlfqs: bool, cur: ThreadId, ts: Threads, semas: Semas, locks: Locks, conds: Conds,
                        l: LockId)
    requires cur in ts && ThreadsOk(mlfqs, ts, semas, locks) && SemasOk(ts, semas, locks) && CondsOk(semas, conds)
    requires forall k :: k in locks && k != l ==> LockOk(mlfqs, ts, semas, locks, k)
    requires l in locks && locks[l].holder.None? && locks[l].sema in semas
    requires semas[locks[l].sema].owner == OfLock(l) && semas[locks[l].sema].value == 0
    ensures var s := locks[l].sema;
            Known(ts, semas[s].waiters) &&
            Coherent(mlfqs, cur, UpThreads(ts, semas[s], mlfqs), semas[s := UpSema(ts, semas[s], mlfqs)],
                     locks, conds)
  {
    var s := locks[l].sema;
    var sm' := UpSema(ts, semas[s], mlfqs);
    UpThreadsOk(mlfqs, ts, semas, locks, s, semas[s := sm']);
    UpSemasOk(mlfqs, ts, semas, locks, s);
    var ts' := UpThreads(ts, semas[s], mlfqs);
    forall k | k in locks
      ensures LockOk(mlfqs, ts', semas[s := sm'], locks, k)
    {
      if k != l {
        assert LockOk(mlfqs, ts, semas, locks, k);
      }
    }
    UpCondsOk(semas, conds, s, sm');
  }

  /** `lock_release` keeps the invariant: the holder's list and priority are updated, the holder is
      cleared, and the lock's semaphore goes up, waking one of its waiters. */
  lemma ReleaseCoherent(mlfqs: bool, cur: ThreadId, ts: Threads, semas: Semas, locks: Locks, conds: Conds,
                        l: LockId, m: int)
    requires Coherent(mlfqs, cur, ts, semas, locks, conds) && l in locks && locks[l].holder == Some(cur)
    requires m == -1 || ThreadLimits.PRI_MIN <= m <= ThreadLimits.PRI_MAX
    ensures var ts1 := Demote(mlfqs, ts, cur, l, m);
            var s := locks[l].sema;
            s in semas && Known(ts1, semas[s].waiters) &&
            Coherent(mlfqs, cur, UpThreads(ts1, semas[s], mlfqs), semas[s := UpSema(ts1, semas[s], mlfqs)],
                     locks[l := locks[l].(holder := None)], conds)
  {
    assert LockOk(mlfqs, ts, semas, locks, l);
    DemotedThreadsOk(mlfqs, ts, semas, locks, cur, l, m);
    DemotedSemasLocksOk(mlfqs, ts, semas, locks, cur, l, m);
    FreedUpCoherent(mlfqs, cur, Demote(mlfqs, ts, cur, l, m), semas, locks[l := locks[l].(holder := None)], conds, l);
  }

  /** A running thread that releases a lock is still running afterwards. */
  lemma ReleaseKeepsRunning(mlfqs: bool, ts: Threads, sm: Semaphore, cur: ThreadId, l: LockId, m: int)
    requires cur in ts && ts[cur].blockedOn.None? && Known(Demote(mlfqs, ts, cur, l, m), sm.waiters)
    ensures UpThreads(Demote(mlfqs, ts, cur, l, m), sm, mlfqs)[cur].blockedOn.None?
  {
  }

  // ------------------------------------------------------------ condition variables

  /** `cond_init` of a new condition. */
  lemma NewCondCoherent(mlfqs: bool, cur: ThreadId, ts: Threads, semas: Semas, locks: Locks, conds: Conds, c: CondId)
    requires Coherent(mlfqs, cur, ts, semas, locks, conds) && c !in conds
    ensures Coherent(mlfqs, cur, ts, semas, locks, conds[c := []])
  {
    var conds' := conds[c := []];
    forall x | x in conds'
      ensures CondOk(semas, conds', x)
    {
      if x != c {
        assert CondOk(semas, conds, x);
      }
    }
  }

  /** The end of `cond_wait`'s first half: a new `semaphore_elem` at value 0 goes at the back of the
      condition's list and the running thread blocks on it. */
  lemma EnqueueCoherent(mlfqs: bool, cur: ThreadId, ts: Threads, semas: Semas, locks: Locks, conds: Conds,
                        c: CondId, e: SemaId)
    requires Coherent(mlfqs, cur, ts, semas, locks, conds) && ts[cur].blockedOn.None?
    requires c in conds && e !in semas
    ensures Coherent(mlfqs, cur, ts[cur := ts[cur].(blockedOn := Some(e))],
                     semas[e := Semaphore(0, [cur], OfCond(c))], locks, conds[c := conds[c] + [e]])
  {
    var ts' := ts[cur := ts[cur].(blockedOn := Some(e))];
    var semas' := semas[e := Semaphore(0, [cur], OfCond(c))];
    var conds' := conds[c := conds[c] + [e]];
    forall x | x in ts'
      ensures ThreadOk(mlfqs, ts', semas', locks, x)
    {
      assert ThreadOk(mlfqs, ts, semas, locks, x);
    }
    forall x | x in semas'
      ensures SemaOk(ts', semas', locks, x)
    {
      if x != e {
        assert SemaOk(ts, semas, locks, x);
        var w := semas[x].waiters;
        forall j | 0 <= j < |w|
          ensures w[j] != cur
        {
          assert ts[w[j]].blockedOn == Some(x);
        }
      }
    }
    LocksKeepThreads(mlfqs, ts, ts', semas, locks);
    LocksKeepSema(mlfqs, ts', semas, locks, e, Semaphore(0, [cur], OfCond(c)));
    forall x | x in conds'
      ensures CondOk(semas', conds', x)
    {
      assert CondOk(semas, conds, x);
      if x == c {
        var es := conds[c];
        var es' := es + [e];
        forall i, j | 0 <= i < j < |es'|
          ensures es'[i] != es'[j]
        {
          if j < |es| {
            assert es'[i] == es[i] && es'[j] == es[j];
          } else {
            assert es'[i] == es[i] && es[i] in semas;
          }
        }
        forall k | 0 <= k < |es'|
          ensures es'[k] in semas' && semas'[es'[k]].owner == OfCond(c) &&
                  semas'[es'[k]].value == 0 && |semas'[es'[k]].waiters| == 1
        {
          if k < |es| {
            assert es'[k] == es[k] && es[k] in semas;
          }
        }
      }
    }
  }

  lemma SleepersKnown(mlfqs: bool, cur: ThreadId, ts: Threads, semas: Semas, locks: Locks, conds: Conds, c: CondId)
    requires Coherent(mlfqs, cur, ts, semas, locks, conds) && c in conds
    ensures Entries(semas, conds[c]) && Known(ts, Sleepers(semas, conds[c]))
  {
    assert CondOk(semas, conds, c);
    var es := conds[c];
    forall k | 0 <= k < |es|
      ensures Sleepers(semas, es)[k] in ts
    {
      assert SemaOk(ts, semas, locks, es[k]);
    }
  }

  /** Each `semaphore_elem` of `es` has value 0 and one waiter, blocked on it: what `CondOk` and
      `SemaOk` say about a condition's list, gathered for `cond_broadcast`. */
  predicate Sleeping(ts: Threads, semas: Semas, es: seq<SemaId>)
  {
    forall e :: e in es ==>
      e in semas && semas[e].value == 0 && |semas[e].waiters| == 1 &&
      semas[e].waiters[0] in ts && ts[semas[e].waiters[0]].blockedOn == Some(e)
  }

  lemma SleepingOf(mlfqs: bool, cur: ThreadId, ts: Threads, semas: Semas, locks: Locks, conds: Conds, c: CondId)
    requires Coherent(mlfqs, cur, ts, semas, locks, conds) && c in conds
    ensures Sleeping(ts, semas, conds[c])
  {
    assert CondOk(semas, conds, c);
    forall e | e in conds[c]
      ensures e in semas && semas[e].value == 0 && |semas[e].waiters| == 1
      ensures semas[e].waiters[0] in ts && ts[semas[e].waiters[0]].blockedOn == Some(e)
    {
      var k :| 0 <= k < |conds[c]| && conds[c][k] == e;
      assert SemaOk(ts, semas, locks, e);
    }
  }

  /** Thread `t` waits in one of the `semaphore_elem`s of `es`. */
  predicate Asleep(ts: Threads, semas: Semas, es: seq<SemaId>, t: ThreadId)
    requires t in ts
  {
    ts[t].blockedOn.Some? && ts[t].blockedOn.value in es && ts[t].blockedOn.value in semas &&
    t in semas[ts[t].blockedOn.value].waiters
  }

  /** The semaphores part way through `cond_broadcast`, from `semas0` with the list `olds`, now
      down to `es`: every element already taken off has gone up from 0 to 1 and lost its waiter;
      no other semaphore has changed. */
  ghost predicate SemasBroadcast(semas0: Semas, olds: seq<SemaId>, semas: Semas, es: seq<SemaId>)
  {
    semas.Keys == semas0.Keys &&
    (forall x :: x in semas0 && x !in olds ==> semas[x] == semas0[x]) &&
    (forall e :: e in olds && e in semas0 ==>
       semas[e] == if e in es then semas0[e] else semas0[e].(value := 1, waiters := []))
  }

  /** The threads part way through `cond_broadcast`: those that slept in an element already taken
      off are awake; no other thread has changed. */
  ghost predicate ThreadsBroadcast(ts0: Threads, semas0: Semas, olds: seq<SemaId>, ts: Threads, es: seq<SemaId>)
  {
    ts.Keys == ts0.Keys &&
    (forall t :: t in ts0 ==>
       ts[t] == if Asleep(ts0, semas0, olds, t) && ts0[t].blockedOn.value !in es
                then ts0[t].(blockedOn := None) else ts0[t])
  }

  /** `cond_broadcast` part way, down from the list `olds` to `es`. */
  ghost predicate Broadcasting(ts0: Threads, semas0: Semas, olds: seq<SemaId>,
                               ts: Threads, semas: Semas, es: seq<SemaId>)
  {
    (forall e :: e in es ==> e in olds) &&
    SemasBroadcast(semas0, olds, semas, es) && ThreadsBroadcast(ts0, semas0, olds, ts, es)
  }

  /** Taking the distinct element `es[i]` off the list leaves exactly the others on it. */
  lemma RemoveExactly(es: seq<SemaId>, i: nat)
    requires Distinct(es) && i < |es|
    ensures forall x :: x in Remove(es, i) <==> x in es && x != es[i]
  {
    var es' := Remove(es, i);
    RemoveKeeps(es, i);
    forall x | x in es'
      ensures x in es && x != es[i]
    {
      var k :| 0 <= k < |es'| && es'[k] == x;
      if k < i { assert es'[k] == es[k]; } else { assert es'[k] == es[k + 1]; }
    }
  }

  /** One `cond_signal` of `cond_broadcast`: `es[i]` goes up, which wakes its only waiter. */
  lemma BroadcastStep(mlfqs: bool, ts0: Threads, semas0: Semas, olds: seq<SemaId>,
                      ts: Threads, semas: Semas, es: seq<SemaId>, i: nat)
    requires Sleeping(ts0, semas0, olds) && Broadcasting(ts0, semas0, olds, ts, semas, es)
    requires Distinct(es) && i < |es|
    ensures es[i] in semas && Known(ts, semas[es[i]].waiters)
    ensures Broadcasting(ts0, semas0, olds,
                         UpThreads(ts, semas[es[i]], mlfqs),
                         semas[es[i] := UpSema(ts, semas[es[i]], mlfqs)],
                         Remove(es, i))
  {
    var e := es[i];
    assert e in olds && semas[e] == semas0[e];
    var w := semas0[e].waiters[0];
    assert semas0[e].waiters == [w];
    assert Asleep(ts0, semas0, olds, w);
    RemoveExactly(es, i);
    SemasStep(semas0, olds, semas, es, i, UpSema(ts, semas[e], mlfqs));
    assert Woken(ts, [w], mlfqs) == w;
    ThreadsStep(ts0, semas0, olds, ts, es, i, w);
  }

  lemma SemasStep(semas0: Semas, olds: seq<SemaId>, semas: Semas, es: seq<SemaId>, i: nat, up: Semaphore)
    requires i < |es| && es[i] in olds && es[i] in semas0 && SemasBroadcast(semas0, olds, semas, es)
    requires forall x :: x in Remove(es, i) <==> x in es && x != es[i]
    requires up == semas0[es[i]].(value := 1, waiters := [])
    ensures SemasBroadcast(semas0, olds, semas[es[i] := up], Remove(es, i))
  {
  }

  lemma ThreadsStep(ts0: Threads, semas0: Semas, olds: seq<SemaId>, ts: Threads, es: seq<SemaId>, i: nat,
                    w: ThreadId)
    requires i < |es| && ThreadsBroadcast(ts0, semas0, olds, ts, es)
    requires forall x :: x in Remove(es, i) <==> x in es && x != es[i]
    requires es[i] in olds && es[i] in semas0 && semas0[es[i]].waiters == [w]
    requires w in ts0 && ts0[w].blockedOn == Some(es[i])
    ensures w in ts
    ensures ThreadsBroadcast(ts0, semas0, olds, ts[w := ts[w].(blockedOn := None)], Remove(es, i))
  {
    var e, es' := es[i], Remove(es, i);
    assert Asleep(ts0, semas0, olds, w) && ts[w] == ts0[w];
    var ts' := ts[w := ts[w].(blockedOn := None)];
    forall t | t in ts0
      ensures ts'[t] == if Asleep(ts0, semas0, olds, t) && ts0[t].blockedOn.value !in es'
                        then ts0[t].(blockedOn := None) else ts0[t]
    {
      if t != w && Asleep(ts0, semas0, olds, t) {
        assert ts0[t].blockedOn.value != e;
      }
    }
  }

  /** When the list is empty, every thread that slept in one of its elements is awake. */
  lemma BroadcastDone(ts0: Threads, semas0: Semas, olds: seq<SemaId>, ts: Threads, semas: Semas)
    requires Sleeping(ts0, semas0, olds) && Broadcasting(ts0, semas0, olds, ts, semas, [])
    ensures semas.Keys == semas0.Keys && ts.Keys == ts0.Keys
    ensures forall e :: e in olds ==> e in semas0 && semas[e] == semas0[e].(value := 1, waiters := [])
    ensures forall x :: x in semas0 && x !in olds ==> semas[x] == semas0[x]
    ensures forall t :: t in ts0 ==>
              ts[t] == if Asleep(ts0, semas0, olds, t) then ts0[t].(blockedOn := None) else ts0[t]
  {
  }

  /** `cond_signal` takes the chosen `semaphore_elem` off the list; it is then on no list. */
  lemma DequeueCoherent(mlfqs: bool, cur: ThreadId, ts: Threads, semas: Semas, locks: Locks, conds: Conds,
                        c: CondId, i: nat)
    requires Coherent(mlfqs, cur, ts, semas, locks, conds) && c in conds && i < |conds[c]|
    ensures conds[c][i] in semas
    ensures Coherent(mlfqs, cur, ts, semas, locks, conds[c := Remove(conds[c], i)])
    ensures Unlisted(semas, conds[c := Remove(conds[c], i)], conds[c][i])
  {
    assert CondOk(semas, conds, c);
    var es := conds[c];
    var conds' := conds[c := Remove(es, i)];
    RemoveDistinct(es, i);
    forall x | x in conds'
      ensures CondOk(semas, conds', x)
    {
      assert CondOk(semas, conds, x);
      if x == c {
        var r := Remove(es, i);
        forall k | 0 <= k < |r|
          ensures r[k] in semas && semas[r[k]].owner == OfCond(c) && semas[r[k]].value == 0 &&
                  |semas[r[k]].waiters| == 1
        {
          if k < i { assert r[k] == es[k]; } else { assert r[k] == es[k + 1]; }
        }
      }
    }
  }

  // ------------------------------------------------------------ two reachable states

  /** Thread 1 (priority 10) holds lock 0 and waits in `cond_wait` on the `semaphore_elem` 7 of
      condition 0; thread 2 (priority 40) runs.  The state is sound, yet when thread 2 asks for lock 0
      the donation walk as written reaches semaphore 7, takes it for a lock's semaphore and follows a
      holder that is not there; the walk that stops at a semaphore not belonging to a lock raises
      thread 1 to 40 and stops. */
  lemma DonateThroughConditionCrashes()
    ensures var ts := map[1 := Thread(10, 10, false, Some(7), [0]), 2 := Thread(40, 40, false, None, [])];
            var semas := map[5 := Semaphore(0, [], OfLock(0)), 7 := Semaphore(0, [1], OfCond(0))];
            var locks := map[0 := Lock(Some(1), 5)];
            Coherent(false, 2, ts, semas, locks, map[0 := [7]]) &&
            DonateAsWritten(ts, semas, locks, 1, 40) == None &&
            Donate(ts, semas, locks, 1, 40) == ts[1 := ts[1].(priority := 40, donated := true)]
  {
    var ts := map[1 := Thread(10, 10, false, Some(7), [0]), 2 := Thread(40, 40, false, None, [])];
    var semas := map[5 := Semaphore(0, [], OfLock(0)), 7 := Semaphore(0, [1], OfCond(0))];
    var locks := map[0 := Lock(Some(1), 5)];
    var conds := map[0 := [7]];
    assert ThreadOk(false, ts, semas, locks, 1) && ThreadOk(false, ts, semas, locks, 2);
    assert SemaOk(ts, semas, locks, 5) && SemaOk(ts, semas, locks, 7);
    assert LockOk(false, ts, semas, locks, 0);
    assert CondOk(semas, conds, 0);
    assert Follow(ts, semas, locks, 1) == Crash;
  }

  /** Thread 1 (base priority 31) holds locks 0 and 1, and thread 2 (priority 20) waits for lock 1.
      When thread 1 releases lock 0, `next_priority` finds 20 and `lock_release` sets thread 1's
      priority to 20, below its own base priority. */
  lemma ReleaseBelowBase()
    ensures var ts := map[1 := Thread(31, 31, false, None, [0, 1]), 2 := Thread(20, 20, false, Some(6), [])];
            var semas := map[5 := Semaphore(0, [], OfLock(0)), 6 := Semaphore(0, [2], OfLock(1))];
            var locks := map[0 := Lock(Some(1), 5), 1 := Lock(Some(1), 6)];
            Coherent(false, 1, ts, semas, locks, map[]) &&
            HeldKnown(ts, semas, locks, Without(ts[1].locks, 0)) &&
            Released(false, ts, semas, locks, 1, 0)[1].priority == 20 < ts[1].basePriority
  {
    var ts := map[1 := Thread(31, 31, false, None, [0, 1]), 2 := Thread(20, 20, false, Some(6), [])];
    var semas := map[5 := Semaphore(0, [], OfLock(0)), 6 := Semaphore(0, [2], OfLock(1))];
    var locks := map[0 := Lock(Some(1), 5), 1 := Lock(Some(1), 6)];
    assert Coherent(false, 1, ts, semas, locks, map[]) by {
      assert ThreadOk(false, ts, semas, locks, 1) && ThreadOk(false, ts, semas, locks, 2);
      assert SemaOk(ts, semas, locks, 5) && SemaOk(ts, semas, locks, 6);
      assert LockOk(false, ts, semas, locks, 0) && LockOk(false, ts, semas, locks, 1);
    }
    assert Without([0, 1], 0) == [1];
    assert LockWaiters(semas, locks, 1) == [2];
    ReleasedPriority(ts, semas, locks, 1, 0);
  }

  /** The state before the `cond_wait` of lemma CondWaitWindowBreaksSignal: thread 1 (priority 10)
      waits in `cond_wait` on `semaphore_elem` 7 of condition 0; thread 2 (base priority 20, raised
      to 40 by donation) holds lock 0, whose semaphore is 5, and runs; thread 3 (priority 40) waits
      for lock 0. */
  function WindowThreads(): Threads {
    map[1 := Thread(10, 10, false, Some(7), []), 2 := Thread(40, 20, true, None, [0]),
        3 := Thread(40, 40, false, Some(5), [])]
  }

  function WindowSemas(): Semas {
    map[5 := Semaphore(0, [3], OfLock(0)), 7 := Semaphore(0, [1], OfCond(0))]
  }

  function WindowLocks(): Locks {
    map[0 := Lock(Some(2), 5)]
  }

  /** That state is sound. */
  lemma WindowStartCoherent()
    ensures Coherent(false, 2, WindowThreads(), WindowSemas(), WindowLocks(), map[0 := [7]])
  {
    var ts, semas, locks := WindowThreads(), WindowSemas(), WindowLocks();
    assert ThreadOk(false, ts, semas, locks, 1) && ThreadOk(false, ts, semas, locks, 2);
    assert ThreadOk(false, ts, semas, locks, 3);
    assert SemaOk(ts, semas, locks, 5) && SemaOk(ts, semas, locks, 7);
    assert LockOk(false, ts, semas, locks, 0);
    assert CondOk(semas, map[0 := [7]], 0);
  }

  /** Thread 2 calls `cond_wait` on condition 0 and lock 0 with its own element 8.  As written,
      element 8 goes on the list with value 0 and no waiter before `lock_release` runs; the release
      drops thread 2 back to 20 and ups the lock's semaphore, which wakes thread 3, and `sema_up`
      then yields to it, since 40 > 20, before thread 2 has blocked on element 8.  Lock 0 is free
      for thread 3 to take, and the list of condition 0 holds an element without a waiter, so a
      `cond_signal` by thread 3 compares it with element 7 in `condvar_less_func` and fails that
      function's assertion.  `Synch.Sync.CondWait` queues the element together with its waiter in
      the step that releases the lock, which leaves no such window. */
  lemma CondWaitWindowBreaksSignal()
    ensures var semas1 := WindowSemas()[8 := Semaphore(0, [], OfCond(0))];
            var conds1 := map[0 := [7, 8]];
            var ts2 := Released(false, WindowThreads(), semas1, WindowLocks(), 2, 0);
            var ts3 := UpThreads(ts2, semas1[5], false);
            var semas3 := semas1[5 := UpSema(ts2, semas1[5], false)];
            && ts3[3].blockedOn == None && ts3[2].blockedOn == None
            && ts3[3].priority > ts3[2].priority
            && semas3[5].value == 1 && semas3[5].waiters == []
            && !Entries(semas3, conds1[0])
  {
    var semas1 := WindowSemas()[8 := Semaphore(0, [], OfCond(0))];
    assert Without([0], 0) == [];
    var ts2 := Released(false, WindowThreads(), semas1, WindowLocks(), 2, 0);
    assert ts2[2] == Thread(20, 20, false, None, []);
    assert Woken(ts2, [3], false) == 3;
    var semas3 := semas1[5 := UpSema(ts2, semas1[5], false)];
    assert semas3[[7, 8][1]].waiters == [];
  }
}
