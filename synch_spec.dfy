/** Values and pure functions behind the semaphores, locks and condition variables of
    threads/synch.c: the kernel's state as maps from identities to records, the choice of the waiter
    that an up wakes, the priority an acquirer donates along a chain of lock holders, and the priority a
    releasing holder falls back to.  The class `Synch.Sync` changes this state step by step; here are
    the functions its methods are proved against and the lemmas about them. */
module SynchSpec {
  import opened Wrappers
  import ThreadLimits

  type ThreadId = nat
  type SemaId = nat
  type LockId = nat
  type CondId = nat

  /** The structure a semaphore is embedded in: none, a lock, or a `semaphore_elem` of a condition. */
  datatype Owner = Plain | OfLock(lock: LockId) | OfCond(cond: CondId)

  /** The fields of a thread that the synchronization code reads and writes.  `basePriority` is
      `before_donated_priority`; `blockedOn` names the semaphore whose waiter list holds the thread
      while it is blocked there; `locks` is the list of locks it holds, oldest first. */
  datatype Thread = Thread(priority: int, basePriority: int, donated: bool,
                           blockedOn: Option<SemaId>, locks: seq<LockId>)

  datatype Semaphore = Semaphore(value: nat, waiters: seq<ThreadId>, owner: Owner)

  /** A lock: its holder (NULL is `None`) and the semaphore embedded in it. */
  datatype Lock = Lock(holder: Option<ThreadId>, sema: SemaId)

  type Threads = map<ThreadId, Thread>
  type Semas = map<SemaId, Semaphore>
  type Locks = map<LockId, Lock>
  /** A condition's waiter list: the `semaphore_elem`s of the threads waiting on it, oldest first. */
  type Conds = map<CondId, seq<SemaId>>

  predicate Distinct<T(==)>(s: seq<T>)
  {
    forall i, j :: 0 <= i < j < |s| ==> s[i] != s[j]
  }

  predicate Known(ts: Threads, w: seq<ThreadId>)
  {
    forall i :: 0 <= i < |w| ==> w[i] in ts
  }

  function Priorities(ts: Threads, w: seq<ThreadId>): seq<int>
    requires Known(ts, w)
  {
    seq(|w|, i requires 0 <= i < |w| => ts[w[i]].priority)
  }

  /** `list_remove` of the element at index `i`. */
  function Remove<T>(s: seq<T>, i: nat): (r: seq<T>)
    requires i < |s|
    ensures |r| == |s| - 1
    ensures forall k :: 0 <= k < i ==> r[k] == s[k]
    ensures forall k :: i <= k < |r| ==> r[k] == s[k + 1]
  {
    s[..i] + s[i + 1..]
  }

  /** A second update of the same key overrides the first. */
  lemma UpdateTwice<K, V>(m: map<K, V>, k: K, a: V, b: V)
    ensures m[k := a][k := b] == m[k := b]
  {
  }

  /** `Remove` keeps every element other than the one at `i`. */
  lemma RemoveKeeps<T>(s: seq<T>, i: nat)
    requires i < |s|
    ensures forall x :: x in s && x != s[i] ==> x in Remove(s, i)
  {
    forall x | x in s && x != s[i]
      ensures x in Remove(s, i)
    {
      var k :| 0 <= k < |s| && s[k] == x;
      if k < i {
        assert Remove(s, i)[k] == x;
      } else {
        assert Remove(s, i)[k - 1] == x;
      }
    }
  }

  lemma RemoveDistinct<T>(s: seq<T>, i: nat)
    requires i < |s| && Distinct(s)
    ensures Distinct(Remove(s, i)) && s[i] !in Remove(s, i)
  {
    var r := Remove(s, i);
    forall a, b | 0 <= a < b < |r|
      ensures r[a] != r[b]
    {
      var c := if a < i then a else a + 1;
      var d := if b < i then b else b + 1;
      assert r[a] == s[c] && r[b] == s[d];
    }
    forall k | 0 <= k < |r|
      ensures r[k] != s[i]
    {
      if k < i { assert r[k] == s[k]; } else { assert r[k] == s[k + 1]; }
    }
  }

  /** `list_max` under a `<` comparison: it keeps the first element and replaces it only by a strictly
      greater one, so it answers the first element of greatest value. */
  function FirstMax(ps: seq<int>): (i: nat)
    requires |ps| > 0
    ensures i < |ps|
    ensures forall j :: 0 <= j < |ps| ==> ps[j] <= ps[i]
    ensures forall j :: 0 <= j < i ==> ps[j] < ps[i]
  {
    if |ps| == 1 then 0
    else
      var k := FirstMax(ps[..|ps| - 1]);
      if ps[k] < ps[|ps| - 1] then |ps| - 1 else k
  }

  /** The waiter an up wakes: in strict-priority mode the first waiter of highest priority, under
      MLFQS the front of the list. */
  function Chosen(ts: Threads, w: seq<ThreadId>, mlfqs: bool): (i: nat)
    requires w != [] && Known(ts, w)
    ensures i < |w|
    ensures mlfqs ==> i == 0
    ensures !mlfqs ==> forall j :: 0 <= j < |w| ==> ts[w[j]].priority <= ts[w[i]].priority
    ensures !mlfqs ==> forall j :: 0 <= j < i ==> ts[w[j]].priority < ts[w[i]].priority
  {
    if mlfqs then 0
    else
      var ps := Priorities(ts, w);
      var i := FirstMax(ps);
      assert forall j :: 0 <= j < |w| ==> ps[j] == ts[w[j]].priority;
      i
  }

  /** The thread an up wakes. */
  function Woken(ts: Threads, w: seq<ThreadId>, mlfqs: bool): (t: ThreadId)
    requires w != [] && Known(ts, w)
    ensures t in w && t in ts
    ensures mlfqs ==> t == w[0]
    ensures !mlfqs ==> forall j :: 0 <= j < |w| ==> ts[w[j]].priority <= ts[t].priority
  {
    w[Chosen(ts, w, mlfqs)]
  }

  /** The semaphore after `__sema_up`. */
  function UpSema(ts: Threads, sm: Semaphore, mlfqs: bool): Semaphore
    requires Known(ts, sm.waiters)
  {
    if sm.waiters == [] then sm.(value := sm.value + 1)
    else sm.(value := sm.value + 1, waiters := Remove(sm.waiters, Chosen(ts, sm.waiters, mlfqs)))
  }

  /** The threads after `__sema_up`: the woken one is no longer blocked. */
  function UpThreads(ts: Threads, sm: Semaphore, mlfqs: bool): (r: Threads)
    requires Known(ts, sm.waiters)
    ensures r.Keys == ts.Keys
  {
    if sm.waiters == [] then ts
    else
      var t := Woken(ts, sm.waiters, mlfqs);
      ts[t := ts[t].(blockedOn := None)]
  }

  /** `__sema_up` raises the value by one and takes exactly the woken thread off the list (`Remove`
      keeps the others in their order); with nobody waiting it wakes nobody. */
  lemma UpTakesWoken(ts: Threads, sm: Semaphore, mlfqs: bool)
    requires Known(ts, sm.waiters) && Distinct(sm.waiters)
    ensures UpSema(ts, sm, mlfqs).value == sm.value + 1
    ensures sm.waiters == [] ==> UpSema(ts, sm, mlfqs).waiters == [] && UpThreads(ts, sm, mlfqs) == ts
    ensures sm.waiters != [] ==>
              var t := Woken(ts, sm.waiters, mlfqs);
              var r := UpSema(ts, sm, mlfqs).waiters;
              multiset(r) + multiset{t} == multiset(sm.waiters) && t !in r
  {
    if sm.waiters != [] {
      var w := sm.waiters;
      var i := Chosen(ts, w, mlfqs);
      assert w == w[..i] + [w[i]] + w[i + 1..];
      var r := UpSema(ts, sm, mlfqs).waiters;
      assert r == w[..i] + w[i + 1..];
      RemoveDistinct(w, i);
    }
  }

  /** The `semaphore_elem`s on a condition's list each have exactly one waiter. */
  predicate Entries(semas: Semas, es: seq<SemaId>)
  {
    forall k :: 0 <= k < |es| ==> es[k] in semas && |semas[es[k]].waiters| == 1
  }

  /** The thread waiting in each `semaphore_elem`, the value `condvar_less_func` compares by. */
  function Sleepers(semas: Semas, es: seq<SemaId>): seq<ThreadId>
    requires Entries(semas, es)
  {
    seq(|es|, k requires 0 <= k < |es| => semas[es[k]].waiters[0])
  }

  /** The fold of `max_priority_in_waiters`: starting from `floor`, the greatest value seen. */
  function MaxOf(floor: int, ps: seq<int>): (m: int)
    ensures floor <= m
    ensures forall j :: 0 <= j < |ps| ==> ps[j] <= m
    ensures m == floor || exists j :: 0 <= j < |ps| && ps[j] == m
  {
    if |ps| == 0 then floor
    else
      var m := MaxOf(floor, ps[..|ps| - 1]);
      if ps[|ps| - 1] > m then ps[|ps| - 1] else m
  }

  /** `max_priority_in_waiters`: the highest priority among the waiters, or -1 when there are none. */
  function MaxWaiterPriority(ts: Threads, w: seq<ThreadId>): (m: int)
    requires Known(ts, w)
    ensures m == -1 || exists j :: 0 <= j < |w| && ts[w[j]].priority == m
    ensures forall j :: 0 <= j < |w| ==> ts[w[j]].priority <= m
    ensures -1 <= m
  {
    var ps := Priorities(ts, w);
    var m := MaxOf(-1, ps);
    assert forall j :: 0 <= j < |w| ==> ps[j] == ts[w[j]].priority;
    m
  }

  function LockWaiters(semas: Semas, locks: Locks, l: LockId): seq<ThreadId>
    requires l in locks && locks[l].sema in semas
  {
    semas[locks[l].sema].waiters
  }

  /** Every lock of `held` exists, and so do its semaphore and that semaphore's waiters. */
  predicate HeldKnown(ts: Threads, semas: Semas, locks: Locks, held: seq<LockId>)
  {
    forall k :: 0 <= k < |held| ==>
      held[k] in locks && locks[held[k]].sema in semas && Known(ts, LockWaiters(semas, locks, held[k]))
  }

  /** `next_priority`: the highest priority among the waiters of the locks in `held`, or -1 when
      none of them has a waiter. */
  function NextPriority(ts: Threads, semas: Semas, locks: Locks, held: seq<LockId>): (m: int)
    requires HeldKnown(ts, semas, locks, held)
    ensures -1 <= m
    ensures forall k, j :: 0 <= k < |held| && 0 <= j < |LockWaiters(semas, locks, held[k])| ==>
              ts[LockWaiters(semas, locks, held[k])[j]].priority <= m
  {
    if |held| == 0 then -1
    else
      var m := NextPriority(ts, semas, locks, held[..|held| - 1]);
      var w := MaxWaiterPriority(ts, LockWaiters(semas, locks, held[|held| - 1]));
      if w > m then w else m
  }

  /** `thread_pop_lock`: the lock list without `l`. */
  function Without(s: seq<LockId>, l: LockId): (r: seq<LockId>)
    ensures forall y :: y in r <==> y in s && y != l
  {
    if s == [] then []
    else if s[0] == l then Without(s[1..], l)
    else [s[0]] + Without(s[1..], l)
  }

  lemma {:induction false} WithoutDistinct(s: seq<LockId>, l: LockId)
    requires Distinct(s)
    ensures Distinct(Without(s, l))
  {
    if s != [] {
      assert Distinct(s[1..]) by {
        forall i, j | 0 <= i < j < |s[1..]|
          ensures s[1..][i] != s[1..][j]
        {
          assert s[1..][i] == s[i + 1] && s[1..][j] == s[j + 1];
        }
      }
      WithoutDistinct(s[1..], l);
      if s[0] != l {
        var r := Without(s[1..], l);
        assert s[0] !in s[1..] by {
          forall k | 0 <= k < |s[1..]|
            ensures s[1..][k] != s[0]
          {
            assert s[1..][k] == s[k + 1];
          }
        }
        forall i, j | 0 <= i < j < |[s[0]] + r|
          ensures ([s[0]] + r)[i] != ([s[0]] + r)[j]
        {
          if i == 0 {
            assert ([s[0]] + r)[j] == r[j - 1];
          } else {
            assert ([s[0]] + r)[i] == r[i - 1] && ([s[0]] + r)[j] == r[j - 1];
          }
        }
      }
    }
  }

  /** The releasing holder's record after `lock_release` (strict mode) took the lock off its list,
      leaving `held`, and found `m` by `next_priority`. */
  function Demoted(th: Thread, held: seq<LockId>, m: int): Thread
  {
    if m == -1 then th.(locks := held, priority := th.basePriority, donated := false)
    else th.(locks := held, priority := m)
  }

  /** The threads after the first half of `lock_release` (strict mode), for the priority `m` that
      `next_priority` found: the holder `t` without `l` on its list.  Under MLFQS nothing changes. */
  function Demote(mlfqs: bool, ts: Threads, t: ThreadId, l: LockId, m: int): Threads
    requires t in ts
  {
    if mlfqs then ts else ts[t := Demoted(ts[t], Without(ts[t].locks, l), m)]
  }

  /** The threads after `lock_release` took `l` off the holder `t`'s list and recomputed its priority. */
  function Released(mlfqs: bool, ts: Threads, semas: Semas, locks: Locks, t: ThreadId, l: LockId): Threads
    requires t in ts && HeldKnown(ts, semas, locks, Without(ts[t].locks, l))
  {
    Demote(mlfqs, ts, t, l, NextPriority(ts, semas, locks, Without(ts[t].locks, l)))
  }

  /** Some waiter of a lock in `held` has priority `m`. */
  predicate Attained(ts: Threads, semas: Semas, locks: Locks, held: seq<LockId>, m: int)
    requires HeldKnown(ts, semas, locks, held)
  {
    exists k, j :: 0 <= k < |held| && 0 <= j < |LockWaiters(semas, locks, held[k])| &&
      ts[LockWaiters(semas, locks, held[k])[j]].priority == m
  }

  /** The value `next_priority` answers is either -1 or the priority of an actual waiter. */
  lemma {:induction false} NextPriorityAttained(ts: Threads, semas: Semas, locks: Locks, held: seq<LockId>)
    requires HeldKnown(ts, semas, locks, held)
    ensures var m := NextPriority(ts, semas, locks, held); m == -1 || Attained(ts, semas, locks, held, m)
  {
    if |held| > 0 {
      var pre := held[..|held| - 1];
      var last := held[|held| - 1];
      var m := NextPriority(ts, semas, locks, pre);
      var w := MaxWaiterPriority(ts, LockWaiters(semas, locks, last));
      NextPriorityAttained(ts, semas, locks, pre);
      if w > m {
        if w != -1 {
          var j :| 0 <= j < |LockWaiters(semas, locks, last)| && ts[LockWaiters(semas, locks, last)[j]].priority == w;
          assert held[|held| - 1] == last;
        }
      } else if m != -1 {
        var k, j :| 0 <= k < |pre| && 0 <= j < |LockWaiters(semas, locks, pre[k])| &&
          ts[LockWaiters(semas, locks, pre[k])[j]].priority == m;
        assert held[k] == pre[k];
      }
    }
  }

  /** With priorities never below PRI_MIN, `next_priority` answers -1 exactly when no lock of `held`
      has a waiter; that is when `lock_release` restores the priority from before the donation. */
  lemma NextPriorityNone(ts: Threads, semas: Semas, locks: Locks, held: seq<LockId>)
    requires HeldKnown(ts, semas, locks, held)
    requires forall t :: t in ts ==> ThreadLimits.PRI_MIN <= ts[t].priority
    ensures NextPriority(ts, semas, locks, held) == -1 <==>
              forall k :: 0 <= k < |held| ==> LockWaiters(semas, locks, held[k]) == []
  {
    var m := NextPriority(ts, semas, locks, held);
    NextPriorityAttained(ts, semas, locks, held);
    forall k | 0 <= k < |held| && LockWaiters(semas, locks, held[k]) != []
      ensures ThreadLimits.PRI_MIN <= m
    {
      var w := LockWaiters(semas, locks, held[k]);
      assert ts[w[0]].priority <= m;
    }
  }

  /** `lock_release` in strict mode: the lock leaves the holder's list; when no lock the holder still
      holds has a waiter, the holder gets back its priority from before any donation and is no longer
      donated to; otherwise its priority becomes the highest priority of those waiters.  No other
      thread changes. */
  lemma ReleasedPriority(ts: Threads, semas: Semas, locks: Locks, t: ThreadId, l: LockId)
    requires t in ts && HeldKnown(ts, semas, locks, Without(ts[t].locks, l))
    requires forall x :: x in ts ==> ThreadLimits.PRI_MIN <= ts[x].priority
    ensures var held := Without(ts[t].locks, l);
            var r := Released(false, ts, semas, locks, t, l);
            r.Keys == ts.Keys && (forall x :: x in ts && x != t ==> r[x] == ts[x]) &&
            r[t].locks == held && r[t].basePriority == ts[t].basePriority && r[t].blockedOn == ts[t].blockedOn &&
            ((forall k :: 0 <= k < |held| ==> LockWaiters(semas, locks, held[k]) == []) ==>
               r[t].priority == ts[t].basePriority && !r[t].donated) &&
            (!(forall k :: 0 <= k < |held| ==> LockWaiters(semas, locks, held[k]) == []) ==>
               r[t].donated == ts[t].donated && Attained(ts, semas, locks, held, r[t].priority) &&
               forall k, j :: 0 <= k < |held| && 0 <= j < |LockWaiters(semas, locks, held[k])| ==>
                 ts[LockWaiters(semas, locks, held[k])[j]].priority <= r[t].priority)
  {
    var held := Without(ts[t].locks, l);
    NextPriorityNone(ts, semas, locks, held);
    NextPriorityAttained(ts, semas, locks, held);
  }

  // ---------------------------------------------------------------- priority donation

  /** Where the donation walk goes from a thread: it stops at a thread that is not blocked, goes on to
      the holder of the lock whose semaphore the thread waits on, and crashes when that semaphore is
      not part of a lock or the lock has no holder (the walk would dereference NULL or a lock that is
      not there). */
  datatype Step = Stop | Go(next: ThreadId) | Crash

  function Follow(ts: Threads, semas: Semas, locks: Locks, t: ThreadId): Step
    requires t in ts
  {
    match ts[t].blockedOn
    case None => Stop
    case Some(s) =>
      if s in semas && semas[s].owner.OfLock? && semas[s].owner.lock in locks then
        match locks[semas[s].owner.lock].holder
        case Some(n) => if n in ts then Go(n) else Crash
        case None => Crash
      else Crash
  }

  /** The threads a donation of `p` may still raise. */
  function Below(ts: Threads, p: int): set<ThreadId>
  {
    set t | t in ts && ts[t].priority < p
  }

  function Raise(ts: Threads, h: ThreadId, p: int): Threads
    requires h in ts
  {
    ts[h := ts[h].(priority := p, donated := true)]
  }

  /** Raising a thread below `p` to `p` leaves one thread fewer to raise: the walk terminates because
      of the strict `<`, not because of its buffer of visited holders. */
  lemma RaiseShrinks(ts: Threads, h: ThreadId, p: int)
    requires h in ts && ts[h].priority < p
    ensures |Below(Raise(ts, h, p), p)| < |Below(ts, p)|
  {
    assert Below(ts, p) == Below(Raise(ts, h, p), p) + {h};
  }

  lemma FollowRaise(ts: Threads, semas: Semas, locks: Locks, h: ThreadId, p: int, t: ThreadId)
    requires h in ts && t in ts
    ensures Follow(Raise(ts, h, p), semas, locks, t) == Follow(ts, semas, locks, t)
  {
  }

  /** `priority_donate(h, p)`, with the walk stopping where the code would crash. */
  function Donate(ts: Threads, semas: Semas, locks: Locks, h: ThreadId, p: int): (r: Threads)
    requires h in ts
    ensures r.Keys == ts.Keys
    ensures forall t :: t in ts ==>
              r[t] == ts[t] || (ts[t].priority < p && r[t] == ts[t].(priority := p, donated := true))
    ensures ts[h].priority >= p ==> r == ts
    ensures ts[h].priority < p ==> r[h] == ts[h].(priority := p, donated := true)
    decreases |Below(ts, p)|
  {
    if ts[h].priority >= p then ts
    else
      match Follow(ts, semas, locks, h)
      case Go(n) =>
        RaiseShrinks(ts, h, p);
        Donate(Raise(ts, h, p), semas, locks, n, p)
      case _ => Raise(ts, h, p)
  }

  /** `priority_donate(h, p)` as written: `None` where the walk dereferences NULL or a semaphore that is
      not part of a lock. */
  function DonateAsWritten(ts: Threads, semas: Semas, locks: Locks, h: ThreadId, p: int): (r: Option<Threads>)
    requires h in ts
    ensures r.Some? ==> r.value == Donate(ts, semas, locks, h, p)
    decreases |Below(ts, p)|
  {
    if ts[h].priority >= p then Some(ts)
    else
      match Follow(ts, semas, locks, h)
      case Go(n) =>
        RaiseShrinks(ts, h, p);
        DonateAsWritten(Raise(ts, h, p), semas, locks, n, p)
      case Stop => Some(Raise(ts, h, p))
      case Crash => None
  }

  /** Donation never lowers a priority and leaves everything but priorities and `donated` alone. */
  lemma DonateOnlyRaises(ts: Threads, semas: Semas, locks: Locks, h: ThreadId, p: int, t: ThreadId)
    requires h in ts && t in ts
    ensures var r := Donate(ts, semas, locks, h, p);
      ts[t].priority <= r[t].priority &&
      r[t].basePriority == ts[t].basePriority && r[t].blockedOn == ts[t].blockedOn && r[t].locks == ts[t].locks
  {
  }

  /** A wait-for chain: each thread is blocked on a lock held by the next. */
  predicate Chain(ts: Threads, semas: Semas, locks: Locks, c: seq<ThreadId>)
  {
    (forall k :: 0 <= k < |c| ==> c[k] in ts) &&
    forall k :: 0 <= k < |c| - 1 ==> Follow(ts, semas, locks, c[k]) == Go(c[k + 1])
  }

  /** Nested donation: along a chain of distinct threads all below `p`, every thread ends at `p`. */
  lemma {:induction false} DonateAlongChain(ts: Threads, semas: Semas, locks: Locks, c: seq<ThreadId>, p: int)
    requires |c| > 0 && Chain(ts, semas, locks, c) && Distinct(c)
    requires forall k :: 0 <= k < |c| ==> ts[c[k]].priority < p
    ensures forall k :: 0 <= k < |c| ==> Donate(ts, semas, locks, c[0], p)[c[k]].priority == p
  {
    if |c| > 1 {
      var raised := Raise(ts, c[0], p);
      forall t | t in ts
        ensures Follow(raised, semas, locks, t) == Follow(ts, semas, locks, t)
      {
        FollowRaise(ts, semas, locks, c[0], p, t);
      }
      assert Donate(ts, semas, locks, c[0], p) == Donate(raised, semas, locks, c[1], p);
      assert forall k :: 0 <= k < |c| - 1 ==> c[1..][k] == c[k + 1];
      DonateAlongChain(raised, semas, locks, c[1..], p);
      assert c[1..][0] == c[1];
      forall k | 0 <= k < |c|
        ensures Donate(ts, semas, locks, c[0], p)[c[k]].priority == p
      {
        if k > 0 {
          assert c[k] == c[1..][k - 1];
        }
      }
    }
  }
}
