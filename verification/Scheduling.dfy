/** The scheduler's queues, semaphores and locks (threads/thread.c, threads/synch.c).

    Every thread has one list element, so ready lists, wait lists and the sleep list
    are all queues of thread identifiers and a thread can be unlinked from whatever
    queue it is on.  Each method is one stretch of code that runs with interrupts off. */
module Scheduling {
  import opened Storage
  import opened StableOrder
  import opened Sequences

  const PRI_MIN: nat := 0
  const PRI_DEFAULT: nat := 31
  const PRI_MAX: nat := 63

  type Tid = nat

  datatype Status = Running | Ready | Blocked

  datatype Queue = ReadyList(priority: nat) | SemaWaiters(sema: nat) | LockWaiters(lock: nat) | SleepList

  /** The retry loop (or the sleep) a thread is in; Nothing outside of them. */
  datatype Want = Nothing | Sema(sema: nat) | Lock(lock: nat) | Wakeup

  /** struct thread: `base` and `current` are priority and current_priority. */
  datatype Thread = Thread(status: Status, base: nat, current: nat, want: Want, owned: seq<nat>, wakeup: int)

  type Threads = map<Tid, Thread>

  type Queues = map<Queue, seq<Tid>>

  function Q(queues: Queues, q: Queue): seq<Tid> {
    if q in queues then queues[q] else []
  }

  function WaitQueue(w: Want): Option<Queue> {
    match w
    case Nothing => None
    case Sema(s) => Some(SemaWaiters(s))
    case Lock(l) => Some(LockWaiters(l))
    case Wakeup => Some(SleepList)
  }

  /** The one queue a thread belongs on: a ready thread on the list of its current
      priority, a blocked thread on what it waits for, the running thread and the idle
      thread on none. */
  function Home(th: Thread, isIdle: bool): Option<Queue> {
    if isIdle then None
    else match th.status
      case Running => None
      case Ready => Some(ReadyList(th.current))
      case Blocked => WaitQueue(th.want)
  }

  predicate PlacedAt(threads: Threads, queues: Queues, idle: Tid, t: Tid, q: Queue) {
    t in Q(queues, q) <==> t in threads && Home(threads[t], t == idle) == Some(q)
  }

  /** Every thread is on its home queue and on no other. */
  ghost predicate Placed(threads: Threads, queues: Queues, idle: Tid) {
    forall t: Tid, q: Queue :: PlacedAt(threads, queues, idle, t, q)
  }

  ghost predicate DistinctAt(queues: Queues, q: Queue) {
    Distinct(Q(queues, q))
  }

  ghost predicate AllDistinct(queues: Queues) {
    forall q: Queue :: DistinctAt(queues, q)
  }

  // Queue operations -------------------------------------------------------------

  function Unlinked(queues: Queues, q: Option<Queue>, t: Tid): Queues {
    match q
    case None => queues
    case Some(q) => queues[q := Without(Q(queues, q), t)]
  }

  function Linked(queues: Queues, q: Option<Queue>, i: nat, t: Tid): Queues
    requires q.Some? ==> i <= |Q(queues, q.value)|
  {
    match q
    case None => queues
    case Some(q) => queues[q := InsertedAt(Q(queues, q), i, t)]
  }

  /** Taking a thread off its queue and putting it on the queue of its new state. */
  lemma Unlink(threads: Threads, queues: Queues, idle: Tid, t: Tid)
    requires t in threads && Placed(threads, queues, idle) && AllDistinct(queues)
    ensures var queues' := Unlinked(queues, Home(threads[t], t == idle), t);
            AllDistinct(queues') && Placed(threads - {t}, queues', idle) && forall q: Queue :: t !in Q(queues', q)
  {
    var home := Home(threads[t], t == idle);
    var queues' := Unlinked(queues, home, t);
    if home.Some? {
      assert DistinctAt(queues, home.value);
      WithoutMembers(Q(queues, home.value), t);
    }
    forall q: Queue ensures t !in Q(queues', q) {
      assert PlacedAt(threads, queues, idle, t, q);
    }
    var rest := threads - {t};
    forall u: Tid, q: Queue ensures PlacedAt(rest, queues', idle, u, q) {
      assert PlacedAt(threads, queues, idle, u, q);
    }
    forall q: Queue ensures DistinctAt(queues', q) {
      assert DistinctAt(queues, q);
    }
  }

  lemma Link(threads: Threads, queues: Queues, idle: Tid, t: Tid, th: Thread, i: nat)
    requires t !in threads && Placed(threads, queues, idle) && AllDistinct(queues)
    requires var home := Home(th, t == idle); home.Some? ==> i <= |Q(queues, home.value)|
    ensures var queues' := Linked(queues, Home(th, t == idle), i, t);
            AllDistinct(queues') && Placed(threads[t := th], queues', idle)
  {
    var home := Home(th, t == idle);
    var queues' := Linked(queues, home, i, t);
    if home.Some? {
      assert DistinctAt(queues, home.value) && PlacedAt(threads, queues, idle, t, home.value);
      InsertedMembers(Q(queues, home.value), i, t);
    }
    var more := threads[t := th];
    forall u: Tid, q: Queue ensures PlacedAt(more, queues', idle, u, q) {
      assert PlacedAt(threads, queues, idle, u, q);
    }
    forall q: Queue ensures DistinctAt(queues', q) {
      assert DistinctAt(queues, q);
    }
  }

  /** The queues after thread t, taken off its queue, was appended to that of `th`. */
  function Moved(threads: Threads, queues: Queues, idle: Tid, t: Tid, th: Thread): Queues
    requires t in threads
  {
    var off := Unlinked(queues, Home(threads[t], t == idle), t);
    var home := Home(th, t == idle);
    Linked(off, home, if home.Some? then |Q(off, home.value)| else 0, t)
  }

  lemma MovedPlaced(threads: Threads, queues: Queues, idle: Tid, t: Tid, th: Thread)
    requires t in threads && Placed(threads, queues, idle) && AllDistinct(queues)
    ensures Placed(threads[t := th], Moved(threads, queues, idle, t, th), idle)
    ensures AllDistinct(Moved(threads, queues, idle, t, th))
  {
    Unlink(threads, queues, idle, t);
    var off := Unlinked(queues, Home(threads[t], t == idle), t);
    var home := Home(th, t == idle);
    Link(threads - {t}, off, idle, t, th, if home.Some? then |Q(off, home.value)| else 0);
    assert (threads - {t})[t := th] == threads[t := th];
  }

  // Queueing order ---------------------------------------------------------------

  type Stamps = map<Tid, nat>

  function StampOf(stamps: Stamps, t: Tid): nat {
    if t in stamps then stamps[t] else 0
  }

  /** Front to back is the order of the stamps, all of them below `now`. */
  ghost predicate InOrder(s: seq<Tid>, stamps: Stamps, now: nat) {
    && (forall i, j | 0 <= i < j < |s| :: StampOf(stamps, s[i]) < StampOf(stamps, s[j]))
    && (forall i | 0 <= i < |s| :: StampOf(stamps, s[i]) < now)
  }

  ghost predicate FifoAt(queues: Queues, stamps: Stamps, now: nat, p: nat) {
    InOrder(Q(queues, ReadyList(p)), stamps, now)
  }

  /** Ready lists are in the order in which their threads were queued. */
  ghost predicate Fifo(queues: Queues, stamps: Stamps, now: nat) {
    forall p: nat :: FifoAt(queues, stamps, now, p)
  }

  lemma {:induction false} WithoutInOrder(s: seq<Tid>, t: Tid, stamps: Stamps, now: nat)
    requires InOrder(s, stamps, now)
    ensures InOrder(Without(s, t), stamps, now)
    ensures forall x | x in Without(s, t) :: x in s
  {
    if s != [] && s[0] != t {
      assert InOrder(s[1..], stamps, now);
      WithoutInOrder(s[1..], t, stamps, now);
      var r := [s[0]] + Without(s[1..], t);
      forall i, j | 0 <= i < j < |r| ensures StampOf(stamps, r[i]) < StampOf(stamps, r[j]) {
        assert r[j] == Without(s[1..], t)[j - 1] && r[j] in s[1..];
        if i > 0 {
          assert r[i] == Without(s[1..], t)[i - 1];
        }
      }
    }
  }

  lemma StampedInOrder(s: seq<Tid>, t: Tid, stamps: Stamps, now: nat)
    requires InOrder(s, stamps, now) && t !in s
    ensures InOrder(s, stamps[t := now], now + 1)
    ensures InOrder(InsertedAt(s, |s|, t), stamps[t := now], now + 1)
  {
    assert forall i | 0 <= i < |s| :: s[i] in s && StampOf(stamps[t := now], s[i]) == StampOf(stamps, s[i]);
    assert InsertedAt(s, |s|, t) == s + [t];
  }

  lemma SameReadyLists(queues: Queues, queues': Queues, stamps: Stamps, now: nat)
    requires Fifo(queues, stamps, now) && forall p: nat :: Q(queues', ReadyList(p)) == Q(queues, ReadyList(p))
    ensures Fifo(queues', stamps, now)
  {
    forall p: nat ensures FifoAt(queues', stamps, now, p) {
      assert FifoAt(queues, stamps, now, p);
    }
  }

  /** Moving thread t stamps it with the present moment. */
  lemma MovedFifo(threads: Threads, queues: Queues, idle: Tid, t: Tid, th: Thread, stamps: Stamps, now: nat)
    requires t in threads && Placed(threads, queues, idle) && AllDistinct(queues) && Fifo(queues, stamps, now)
    ensures Fifo(Moved(threads, queues, idle, t, th), stamps[t := now], now + 1)
  {
    var off := Unlinked(queues, Home(threads[t], t == idle), t);
    Unlink(threads, queues, idle, t);
    var queues', stamps', now' := Moved(threads, queues, idle, t, th), stamps[t := now], now + 1;
    forall p: nat ensures FifoAt(queues', stamps', now', p) {
      assert FifoAt(queues, stamps, now, p);
      WithoutInOrder(Q(queues, ReadyList(p)), t, stamps, now);
      StampedInOrder(Q(off, ReadyList(p)), t, stamps, now);
    }
  }

  // Sleeping ---------------------------------------------------------------------

  function WakeupOf(threads: Threads, t: Tid): int {
    if t in threads then threads[t].wakeup else 0
  }

  /** The sleep list is ordered by wake-up time. */
  ghost predicate ByWakeup(threads: Threads, s: seq<Tid>) {
    forall i, j | 0 <= i < j < |s| :: WakeupOf(threads, s[i]) <= WakeupOf(threads, s[j])
  }

  lemma {:induction false} WithoutByWakeup(threads: Threads, s: seq<Tid>, t: Tid)
    requires ByWakeup(threads, s)
    ensures ByWakeup(threads, Without(s, t))
    ensures forall x | x in Without(s, t) :: x in s
  {
    if s != [] && s[0] != t {
      assert ByWakeup(threads, s[1..]);
      WithoutByWakeup(threads, s[1..], t);
      var r := [s[0]] + Without(s[1..], t);
      forall i, j | 0 <= i < j < |r| ensures WakeupOf(threads, r[i]) <= WakeupOf(threads, r[j]) {
        assert r[j] == Without(s[1..], t)[j - 1] && r[j] in s[1..];
        if i > 0 {
          assert r[i] == Without(s[1..], t)[i - 1];
        }
      }
    }
  }

  lemma OthersByWakeup(threads: Threads, s: seq<Tid>, t: Tid, th: Thread)
    requires ByWakeup(threads, s) && t !in s
    ensures ByWakeup(threads[t := th], s)
  {
    assert forall i | 0 <= i < |s| :: s[i] in s && WakeupOf(threads[t := th], s[i]) == WakeupOf(threads, s[i]);
  }

  lemma MovedByWakeup(threads: Threads, queues: Queues, idle: Tid, t: Tid, th: Thread)
    requires t in threads && Placed(threads, queues, idle) && AllDistinct(queues)
    requires ByWakeup(threads, Q(queues, SleepList)) && Home(th, t == idle) != Some(SleepList)
    ensures ByWakeup(threads[t := th], Q(Moved(threads, queues, idle, t, th), SleepList))
  {
    Unlink(threads, queues, idle, t);
    WithoutByWakeup(threads, Q(queues, SleepList), t);
    var r := Q(Moved(threads, queues, idle, t, th), SleepList);
    assert r == Q(Unlinked(queues, Home(threads[t], t == idle), t), SleepList);
    OthersByWakeup(threads, r, t, th);
  }

  // Waiting ----------------------------------------------------------------------

  /** Threads in retry loop w that are not blocked: they have been woken and will test
      the loop condition again. */
  ghost function Readied(threads: Threads, w: Want): set<Tid> {
    set t | t in threads && threads[t].want == w && threads[t].status != Blocked
  }

  /** If somebody waits on semaphore s, each of its units is matched by a woken waiter. */
  ghost predicate SemaOk(threads: Threads, queues: Queues, values: map<nat, nat>, s: nat) {
    Q(queues, SemaWaiters(s)) != [] && s in values ==> values[s] <= |Readied(threads, Sema(s))|
  }

  /** If somebody waits on a free lock, some woken waiter is about to try it. */
  ghost predicate LockOk(threads: Threads, queues: Queues, holder: map<nat, Tid>, l: nat) {
    Q(queues, LockWaiters(l)) != [] && l !in holder ==> Readied(threads, Lock(l)) != {}
  }

  ghost predicate NoLostWakeups(threads: Threads, queues: Queues, values: map<nat, nat>, holder: map<nat, Tid>) {
    && (forall s: nat :: SemaOk(threads, queues, values, s))
    && (forall l: nat :: LockOk(threads, queues, holder, l))
  }

  /** Apart from what waits for w0, which is checked separately, the change takes no
      thread out of a Readied set, puts none on an empty wait queue, raises no value and
      frees no lock. */
  lemma WakeupsKept(threads: Threads, queues: Queues, values: map<nat, nat>, holder: map<nat, Tid>,
                    threads': Threads, queues': Queues, values': map<nat, nat>, holder': map<nat, Tid>, w0: Want)
    requires NoLostWakeups(threads, queues, values, holder)
    requires forall w: Want | w != w0 && w != Nothing :: Readied(threads, w) <= Readied(threads', w)
    requires forall w: Want | w != w0 && WaitQueue(w).Some? && Q(queues', WaitQueue(w).value) != [] ::
               Q(queues, WaitQueue(w).value) != []
    requires forall s | s in values' && Sema(s) != w0 :: s in values && values'[s] <= values[s]
    requires forall l | l in holder && Lock(l) != w0 :: l in holder'
    requires w0.Sema? ==> SemaOk(threads', queues', values', w0.sema)
    requires w0.Lock? ==> LockOk(threads', queues', holder', w0.lock)
    ensures NoLostWakeups(threads', queues', values', holder')
  {
    forall s: nat ensures SemaOk(threads', queues', values', s) {
      if Sema(s) != w0 {
        assert SemaOk(threads, queues, values, s);
        assert WaitQueue(Sema(s)) == Some(SemaWaiters(s));
        SubsetSize(Readied(threads, Sema(s)), Readied(threads', Sema(s)));
      }
    }
    forall l: nat ensures LockOk(threads', queues', holder', l) {
      if Lock(l) != w0 {
        assert LockOk(threads, queues, holder, l);
        assert WaitQueue(Lock(l)) == Some(LockWaiters(l));
      }
    }
  }

  /** A move puts a thread on no queue but its new home. */
  lemma MovedWaits(threads: Threads, queues: Queues, idle: Tid, t: Tid, th: Thread)
    requires t in threads
    ensures forall q: Queue | Some(q) != Home(th, t == idle) && Q(Moved(threads, queues, idle, t, th), q) != [] ::
              Q(queues, q) != []
  {
  }

  lemma ReadiedUpdate(threads: Threads, t: Tid, th: Thread, w: Want)
    requires t in threads
    ensures Readied(threads[t := th], w) ==
            Readied(threads, w) - {t} + (if th.want == w && th.status != Blocked then {t} else {})
  {
  }

  // Sorting a wait queue ------------------------------------------------------------

  function PriorityOf(threads: Threads, t: Tid): int {
    if t in threads then threads[t].current else 0
  }

  /** priority_great */
  function PriorityGreat(threads: Threads): (Tid, Tid) -> bool {
    (a: Tid, b: Tid) => PriorityOf(threads, a) > PriorityOf(threads, b)
  }

  lemma {:induction false} DistinctOnce(s: seq<Tid>, x: Tid)
    requires Distinct(s)
    ensures multiset(s)[x] <= 1
  {
    if s != [] {
      assert s == [s[0]] + s[1..];
      DistinctOnce(s[1..], x);
      if s[0] == x {
        assert x !in multiset(s[1..]);
      }
    }
  }

  lemma PermutedDistinct(s: seq<Tid>, r: seq<Tid>)
    requires Distinct(s) && multiset(s) == multiset(r)
    ensures Distinct(r)
    ensures forall x | x in s :: x in r
    ensures forall x | x in r :: x in s
  {
    forall i, j | 0 <= i < j < |r| ensures r[i] != r[j] {
      if r[i] == r[j] {
        assert r == r[..j] + r[j..];
        assert r[i] in multiset(r[..j]) && r[j] in multiset(r[j..]);
        DistinctOnce(s, r[i]);
        assert false;
      }
    }
    forall x | x in s ensures x in r {
      assert x in multiset(s);
    }
    forall x | x in r ensures x in s {
      assert x in multiset(r);
    }
  }

  /** list_sort of a wait queue moves nobody on or off it. */
  lemma SortedPlaced(threads: Threads, queues: Queues, idle: Tid, q: Queue, r: seq<Tid>)
    requires Placed(threads, queues, idle) && AllDistinct(queues) && multiset(Q(queues, q)) == multiset(r)
    ensures Placed(threads, queues[q := r], idle) && AllDistinct(queues[q := r])
  {
    assert DistinctAt(queues, q);
    PermutedDistinct(Q(queues, q), r);
    var queues' := queues[q := r];
    forall t: Tid, p: Queue ensures PlacedAt(threads, queues', idle, t, p) {
      assert PlacedAt(threads, queues, idle, t, p);
    }
    forall p: Queue ensures DistinctAt(queues', p) {
      assert DistinctAt(queues, p);
    }
  }

  /** The thread that sema_up and lock_release wake: of highest priority, and among
      those the one that has waited longest. */
  ghost predicate IsBestWaiter(threads: Threads, waiters: seq<Tid>, t: Tid) {
    && t in waiters
    && (forall u | u in waiters :: PriorityOf(threads, u) <= PriorityOf(threads, t))
    && Class(waiters, t, PriorityGreat(threads)) != []
    && Class(waiters, t, PriorityGreat(threads))[0] == t
  }

  lemma FrontIsBest(threads: Threads, waiters: seq<Tid>)
    requires waiters != []
    ensures var r := StableSort(waiters, PriorityGreat(threads));
            r != [] && multiset(r) == multiset(waiters) && IsBestWaiter(threads, waiters, r[0])
  {
    var less := PriorityGreat(threads);
    var dom := set x | x in waiters;
    StableSortCorrect(waiters, dom, less);
    var r := StableSort(waiters, less);
    assert |r| == |multiset(r)| == |waiters|;
    assert r[0] in multiset(r);
    forall u | u in waiters ensures PriorityOf(threads, u) <= PriorityOf(threads, r[0]) {
      assert u in multiset(r);
      var j :| 0 <= j < |r| && r[j] == u;
      assert j == 0 || !less(r[j], r[0]);
    }
    assert Class(r, r[0], less)[0] == r[0];
  }

  /** The wake-up condition across one move of thread t, what it waits for being w0. */
  lemma MovedWakeups(threads: Threads, queues: Queues, values: map<nat, nat>, holder: map<nat, Tid>, idle: Tid,
                     t: Tid, th: Thread, values': map<nat, nat>, holder': map<nat, Tid>, w0: Want)
    requires t in threads && NoLostWakeups(threads, queues, values, holder)
    requires threads[t].status != Blocked && threads[t].want != w0 && threads[t].want != Nothing ==>
               th.status != Blocked && th.want == threads[t].want
    requires th.status == Blocked && t != idle ==> th.want == w0
    requires forall s | s in values' && Sema(s) != w0 :: s in values && values'[s] <= values[s]
    requires forall l | l in holder && Lock(l) != w0 :: l in holder'
    requires w0.Sema? ==> SemaOk(threads[t := th], Moved(threads, queues, idle, t, th), values', w0.sema)
    requires w0.Lock? ==> LockOk(threads[t := th], Moved(threads, queues, idle, t, th), holder', w0.lock)
    ensures NoLostWakeups(threads[t := th], Moved(threads, queues, idle, t, th), values', holder')
  {
    var threads', queues' := threads[t := th], Moved(threads, queues, idle, t, th);
    forall w: Want | w != w0 && w != Nothing ensures Readied(threads, w) <= Readied(threads', w) {
      ReadiedUpdate(threads, t, th, w);
    }
    MovedWaits(threads, queues, idle, t, th);
    forall w: Want | w != w0 && WaitQueue(w).Some? && Q(queues', WaitQueue(w).value) != []
      ensures Q(queues, WaitQueue(w).value) != [] {
      assert Some(WaitQueue(w).value) != Home(th, t == idle);
    }
    WakeupsKept(threads, queues, values, holder, threads', queues', values', holder', w0);
  }

  // ---------------------------------------------------------------------------
  // Locks and counters
  // ---------------------------------------------------------------------------

  ghost predicate OwnedOnce(threads: Threads, t: Tid) {
    t in threads ==> Distinct(threads[t].owned)
  }

  predicate OwnedAt(threads: Threads, holder: map<nat, Tid>, t: Tid, l: nat) {
    t in threads ==> (l in threads[t].owned <==> l in holder && holder[l] == t)
  }

  predicate HolderAt(threads: Threads, holder: map<nat, Tid>, l: nat) {
    l in holder ==> holder[l] in threads
  }

  /** owned_locks of each thread is exactly the set of locks it holds. */
  ghost predicate LocksOk(threads: Threads, holder: map<nat, Tid>) {
    && (forall t: Tid :: OwnedOnce(threads, t))
    && (forall t: Tid, l: nat :: OwnedAt(threads, holder, t, l))
    && (forall l: nat :: HolderAt(threads, holder, l))
  }

  lemma LocksUnchanged(threads: Threads, holder: map<nat, Tid>, t: Tid, th: Thread)
    requires LocksOk(threads, holder) && t in threads && th.owned == threads[t].owned
    ensures LocksOk(threads[t := th], holder)
  {
    var threads' := threads[t := th];
    forall u: Tid ensures OwnedOnce(threads', u) {
      assert OwnedOnce(threads, u) && OwnedOnce(threads, t);
    }
    forall u: Tid, l: nat ensures OwnedAt(threads', holder, u, l) {
      assert OwnedAt(threads, holder, u, l);
    }
    forall l: nat ensures HolderAt(threads', holder, l) {
      assert HolderAt(threads, holder, l);
    }
  }

  predicate SaneAt(threads: Threads, idle: Tid, t: Tid) {
    t in threads ==>
      && threads[t].base <= PRI_MAX && threads[t].current <= PRI_MAX
      && (t != idle && threads[t].status == Blocked ==> threads[t].want != Nothing)
  }

  ghost predicate Sane(threads: Threads, idle: Tid) {
    && idle in threads && threads[idle].want == Nothing && threads[idle].owned == []
    && forall t: Tid :: SaneAt(threads, idle, t)
  }

  predicate RunsAt(threads: Threads, running: Tid, t: Tid) {
    t in threads ==> (threads[t].status == Running <==> t == running)
  }

  ghost predicate OnlyRunning(threads: Threads, running: Tid) {
    running in threads && threads[running].status == Running && forall t: Tid :: RunsAt(threads, running, t)
  }

  predicate StandsAt(threads: Threads, t: Tid) {
    t in threads ==> threads[t].status != Running
  }

  ghost predicate NoneRunning(threads: Threads) {
    forall t: Tid :: StandsAt(threads, t)
  }

  lemma OneSane(threads: Threads, idle: Tid, t: Tid, th: Thread)
    requires Sane(threads, idle) && th.base <= PRI_MAX && th.current <= PRI_MAX
    requires t != idle && th.status == Blocked ==> th.want != Nothing
    requires t == idle ==> th.want == Nothing && th.owned == []
    ensures Sane(threads[t := th], idle)
  {
    var threads' := threads[t := th];
    forall u: Tid ensures SaneAt(threads', idle, u) {
      assert SaneAt(threads, idle, u);
    }
  }

  /** The running thread stops, one starts, or another thread changes. */
  lemma OneRuns(threads: Threads, running: Tid, t: Tid, th: Thread)
    requires t in threads
    ensures OnlyRunning(threads, running) && t == running && th.status != Running ==> NoneRunning(threads[t := th])
    ensures NoneRunning(threads) && th.status == Running ==> OnlyRunning(threads[t := th], t)
    ensures OnlyRunning(threads, running) && (th.status == Running <==> t == running) ==>
              OnlyRunning(threads[t := th], running)
  {
    var threads' := threads[t := th];
    if OnlyRunning(threads, running) {
      forall u: Tid ensures (t == running && th.status != Running ==> StandsAt(threads', u))
                            && ((th.status == Running <==> t == running) ==> RunsAt(threads', running, u)) {
        assert RunsAt(threads, running, u);
      }
    }
    if NoneRunning(threads) && th.status == Running {
      forall u: Tid ensures RunsAt(threads', t, u) {
        assert StandsAt(threads, u);
      }
    }
  }

  /** The choice of next_thread_to_run: the longest-queued thread of the highest
      non-empty ready list, or the idle thread. */
  ghost predicate IsNext(queues: Queues, stamps: Stamps, idle: Tid, t: Tid) {
    || (t == idle && forall p | 0 <= p <= PRI_MAX :: Q(queues, ReadyList(p)) == [])
    || exists p: nat ::
         && p <= PRI_MAX && t in Q(queues, ReadyList(p))
         && (forall u | u in Q(queues, ReadyList(p)) :: StampOf(stamps, t) <= StampOf(stamps, u))
         && (forall r | p < r <= PRI_MAX :: Q(queues, ReadyList(r)) == [])
  }

  /** The scheduler never passes over a ready thread of higher priority. */
  lemma NextIsHighest(threads: Threads, queues: Queues, idle: Tid, stamps: Stamps, next: Tid, t: Tid)
    requires Placed(threads, queues, idle) && IsNext(queues, stamps, idle, next)
    requires t in threads && t != idle && threads[t].status == Ready && threads[t].current <= PRI_MAX
    ensures next in threads && next != idle && threads[next].current >= threads[t].current
  {
    assert PlacedAt(threads, queues, idle, t, ReadyList(threads[t].current));
    var p: nat :| p <= PRI_MAX && next in Q(queues, ReadyList(p))
                  && forall r | p < r <= PRI_MAX :: Q(queues, ReadyList(r)) == [];
    assert PlacedAt(threads, queues, idle, next, ReadyList(p));
  }

  predicate TopAt(idle: Tid, threads: Threads, running: Tid, t: Tid)
    requires running in threads
  {
    t in threads && t != idle && threads[t].status == Ready ==>
      running != idle && threads[t].current <= threads[running].current
  }

  /** No ready thread outranks the running one. */
  ghost predicate Top(idle: Tid, threads: Threads, running: Tid) {
    running in threads && forall t: Tid :: TopAt(idle, threads, running, t)
  }

  lemma NextIsTop(threads: Threads, queues: Queues, idle: Tid, stamps: Stamps, next: Tid)
    requires Placed(threads, queues, idle) && IsNext(queues, stamps, idle, next) && Sane(threads, idle)
    requires next in threads
    ensures Top(idle, threads[next := threads[next].(status := Running)], next)
  {
    var threads' := threads[next := threads[next].(status := Running)];
    forall t: Tid ensures TopAt(idle, threads', next, t) {
      assert SaneAt(threads, idle, t);
      if t in threads && t != idle && threads[t].status == Ready {
        NextIsHighest(threads, queues, idle, stamps, next, t);
      }
    }
  }

  /** Taking a unit and leaving the loop keep the balance of units and woken waiters. */
  lemma TakeUnit(threads: Threads, queues: Queues, values: map<nat, nat>, t: Tid, th: Thread, s: nat)
    requires t in threads && s in values && values[s] > 0 && SemaOk(threads, queues, values, s)
    ensures SemaOk(threads[t := th], queues, values[s := values[s] - 1], s)
  {
    ReadiedUpdate(threads, t, th, Sema(s));
    SubsetSize(Readied(threads, Sema(s)), Readied(threads[t := th], Sema(s)) + {t});
  }

  /** One more unit is safe when nobody waits or one more waiter is ready for it. */
  lemma UnitAdded(threads: Threads, queues: Queues, values: map<nat, nat>, holder: map<nat, Tid>, s: nat)
    requires NoLostWakeups(threads, queues, values, holder) && s in values
    requires Q(queues, SemaWaiters(s)) == [] || values[s] + 1 <= |Readied(threads, Sema(s))|
    ensures NoLostWakeups(threads, queues, values[s := values[s] + 1], holder)
  {
    WakeupsKept(threads, queues, values, holder, threads, queues, values[s := values[s] + 1], holder, Sema(s));
  }

  lemma WaiterWaits(threads: Threads, queues: Queues, idle: Tid, w: Want, t: Tid)
    requires Placed(threads, queues, idle) && (w.Sema? || w.Lock?) && t in Q(queues, WaitQueue(w).value)
    ensures t in threads && t != idle && threads[t].status == Blocked && threads[t].want == w
  {
    assert PlacedAt(threads, queues, idle, t, WaitQueue(w).value);
  }

  /** A woken waiter: what it does to the counts. */
  lemma WokenCounts(threads: Threads, queues: Queues, values: map<nat, nat>, t: Tid, th: Thread, w: Want)
    requires t in threads && threads[t].status == Blocked && th.status == Ready && th.want == w
    ensures t in Readied(threads[t := th], w)
    ensures |Readied(threads[t := th], w)| == |Readied(threads, w)| + 1
  {
    ReadiedUpdate(threads, t, th, w);
    assert t !in Readied(threads, w);
  }

  /** list_insert_ordered into the sleep list: before the first later wake-up. */
  function SleepPosition(threads: Threads, s: seq<Tid>, wakeup: int): (i: nat)
    ensures i <= |s|
    ensures forall j | 0 <= j < i :: WakeupOf(threads, s[j]) <= wakeup
    ensures i < |s| ==> wakeup < WakeupOf(threads, s[i])
  {
    if s == [] || wakeup < WakeupOf(threads, s[0]) then 0 else 1 + SleepPosition(threads, s[1..], wakeup)
  }

  /** The queues after the running thread t went to sleep. */
  function Asleep(threads: Threads, queues: Queues, t: Tid, th: Thread): Queues {
    var s := Q(queues, SleepList);
    queues[SleepList := InsertedAt(s, SleepPosition(threads, s, th.wakeup), t)]
  }

  lemma AsleepPlaced(threads: Threads, queues: Queues, idle: Tid, t: Tid, th: Thread)
    requires t in threads && t != idle && threads[t].status == Running && th.status == Blocked && th.want == Wakeup
    requires Placed(threads, queues, idle) && AllDistinct(queues)
    ensures Placed(threads[t := th], Asleep(threads, queues, t, th), idle)
    ensures AllDistinct(Asleep(threads, queues, t, th))
  {
    Unlink(threads, queues, idle, t);
    Link(threads - {t}, queues, idle, t, th, SleepPosition(threads, Q(queues, SleepList), th.wakeup));
    assert (threads - {t})[t := th] == threads[t := th];
  }

  lemma InsertedByWakeup(threads: Threads, s: seq<Tid>, pos: nat, t: Tid)
    requires pos <= |s| && ByWakeup(threads, s)
    requires forall i | 0 <= i < pos :: WakeupOf(threads, s[i]) <= WakeupOf(threads, t)
    requires forall i | pos <= i < |s| :: WakeupOf(threads, t) <= WakeupOf(threads, s[i])
    ensures ByWakeup(threads, InsertedAt(s, pos, t))
  {
    var r := InsertedAt(s, pos, t);
    forall i, j | 0 <= i < j < |r| ensures WakeupOf(threads, r[i]) <= WakeupOf(threads, r[j]) {
      var i', j' := if i < pos then i else i - 1, if j < pos then j else j - 1;
      assert i != pos ==> r[i] == s[i'];
      assert j != pos ==> r[j] == s[j'];
    }
  }

  lemma AsleepByWakeup(threads: Threads, queues: Queues, idle: Tid, t: Tid, th: Thread)
    requires t in threads && threads[t].status == Running && Placed(threads, queues, idle)
    requires ByWakeup(threads, Q(queues, SleepList))
    ensures ByWakeup(threads[t := th], Q(Asleep(threads, queues, t, th), SleepList))
  {
    var s, threads' := Q(queues, SleepList), threads[t := th];
    assert PlacedAt(threads, queues, idle, t, SleepList);
    forall i | 0 <= i < |s| ensures WakeupOf(threads', s[i]) == WakeupOf(threads, s[i]) {
      assert s[i] in s;
    }
    InsertedByWakeup(threads', s, SleepPosition(threads, s, th.wakeup), t);
  }

  /** A sleeper whose time has come. */
  predicate Due(th: Thread, isIdle: bool, tick: int) {
    !isIdle && th.status == Blocked && th.want == Wakeup && th.wakeup <= tick
  }

  /** What a timer tick makes of a thread. */
  function AfterTick(th: Thread, isIdle: bool, tick: int): Thread {
    if Due(th, isIdle, tick)
    then th.(status := Ready, want := Nothing) else th
  }

  /** When the first sleeper is not due, none is. */
  lemma TickDone(threads0: Threads, threads: Threads, queues: Queues, idle: Tid, tick: int)
    requires Placed(threads, queues, idle) && ByWakeup(threads, Q(queues, SleepList))
    requires Q(queues, SleepList) == [] || WakeupOf(threads, Q(queues, SleepList)[0]) > tick
    requires forall t | t in threads0 ::
               t in threads && (threads[t] == threads0[t] || threads[t] == AfterTick(threads0[t], t == idle, tick))
    ensures forall t | t in threads0 :: threads[t] == AfterTick(threads0[t], t == idle, tick)
  {
    forall t | t in threads0 ensures threads[t] == AfterTick(threads0[t], t == idle, tick) {
      if t != idle && threads[t].status == Blocked && threads[t].want == Wakeup {
        assert PlacedAt(threads, queues, idle, t, SleepList);
        var i :| 0 <= i < |Q(queues, SleepList)| && Q(queues, SleepList)[i] == t;
      }
    }
  }

  /** A change that leaves thread t on its queue. */
  lemma SameHome(threads: Threads, queues: Queues, idle: Tid, t: Tid, th: Thread)
    requires t in threads && Placed(threads, queues, idle) && Home(th, t == idle) == Home(threads[t], t == idle)
    ensures Placed(threads[t := th], queues, idle)
  {
    var threads' := threads[t := th];
    forall u: Tid, q: Queue ensures PlacedAt(threads', queues, idle, u, q) {
      assert PlacedAt(threads, queues, idle, u, q) && PlacedAt(threads, queues, idle, t, q);
    }
  }

  lemma SameWant(threads: Threads, queues: Queues, values: map<nat, nat>, holder: map<nat, Tid>, t: Tid, th: Thread)
    requires t in threads && NoLostWakeups(threads, queues, values, holder)
    requires th.want == threads[t].want && (th.status == Blocked <==> threads[t].status == Blocked)
    ensures NoLostWakeups(threads[t := th], queues, values, holder)
  {
    forall w: Want ensures Readied(threads, w) == Readied(threads[t := th], w) {
      ReadiedUpdate(threads, t, th, w);
    }
    WakeupsKept(threads, queues, values, holder, threads[t := th], queues, values, holder, Nothing);
  }

  lemma GrantLock(threads: Threads, holder: map<nat, Tid>, t: Tid, th: Thread, l: nat)
    requires LocksOk(threads, holder) && t in threads && l !in holder && th.owned == threads[t].owned + [l]
    ensures LocksOk(threads[t := th], holder[l := t])
  {
    var threads', holder' := threads[t := th], holder[l := t];
    assert OwnedAt(threads, holder, t, l) && OwnedOnce(threads, t);
    forall u: Tid ensures OwnedOnce(threads', u) {
      assert OwnedOnce(threads, u);
    }
    forall u: Tid, k: nat ensures OwnedAt(threads', holder', u, k) {
      assert OwnedAt(threads, holder, u, k);
    }
    forall k: nat ensures HolderAt(threads', holder', k) {
      assert HolderAt(threads, holder, k);
    }
  }

  lemma RevokeLock(threads: Threads, holder: map<nat, Tid>, t: Tid, th: Thread, l: nat)
    requires LocksOk(threads, holder) && t in threads && l in holder && holder[l] == t
    requires th.owned == Without(threads[t].owned, l)
    ensures LocksOk(threads[t := th], holder - {l})
  {
    var threads', holder' := threads[t := th], holder - {l};
    assert OwnedOnce(threads, t);
    WithoutMembers(threads[t].owned, l);
    forall u: Tid ensures OwnedOnce(threads', u) {
      assert OwnedOnce(threads, u);
    }
    forall u: Tid, k: nat ensures OwnedAt(threads', holder', u, k) {
      assert OwnedAt(threads, holder, u, k) && OwnedAt(threads, holder, t, k);
    }
    forall k: nat ensures HolderAt(threads', holder', k) {
      assert HolderAt(threads, holder, k);
    }
  }

  function BountyOf(bounty: map<nat, nat>, l: nat): nat {
    if l in bounty then bounty[l] else 0
  }

  /** thread_demote: the base priority, or the largest bounty on a lock still owned. */
  function Demoted(base: nat, owned: seq<nat>, bounty: map<nat, nat>): (p: nat)
    ensures base <= p
    ensures forall l | l in owned :: BountyOf(bounty, l) <= p
    ensures p == base || exists l :: l in owned && BountyOf(bounty, l) == p
  {
    if owned == [] then base
    else
      var p := Demoted(base, owned[..|owned| - 1], bounty);
      var l := owned[|owned| - 1];
      assert owned == owned[..|owned| - 1] + [l];
      assert forall k :: k in owned <==> k in owned[..|owned| - 1] || k == l;
      if BountyOf(bounty, l) > p then BountyOf(bounty, l) else p
  }

  /** The invariants of the queues. */
  ghost predicate WellQueued(threads: Threads, queues: Queues, idle: Tid, stamps: Stamps, now: nat) {
    && Placed(threads, queues, idle) && AllDistinct(queues) && Sane(threads, idle)
    && Fifo(queues, stamps, now) && ByWakeup(threads, Q(queues, SleepList))
  }

  function NewThread(p: nat): Thread {
    Thread(Ready, p, p, Nothing, [], 0)
  }

  function Released(th: Thread, mlfqs: bool, bounty: map<nat, nat>, l: nat): Thread {
    var owned := Without(th.owned, l);
    th.(owned := owned,
        current := if !mlfqs && th.current == BountyOf(bounty, l) then Demoted(th.base, owned, bounty) else th.current)
  }

  lemma ReleasedRange(th: Thread, mlfqs: bool, bounty: map<nat, nat>, l: nat)
    requires th.base <= PRI_MAX && th.current <= PRI_MAX && forall k | k in bounty :: bounty[k] <= PRI_MAX
    ensures Released(th, mlfqs, bounty, l).current <= PRI_MAX
  {
  }

  function Promoted(th: Thread, priority: nat): Thread {
    if th.status == Blocked
    then th.(current := priority, status := Ready, want := if th.want == Wakeup then Nothing else th.want)
    else th.(current := priority)
  }

  lemma EnterPlaced(threads: Threads, queues: Queues, idle: Tid, t: Tid, p: nat, stamps: Stamps, now: nat)
    requires t !in threads && t != idle && Placed(threads, queues, idle) && AllDistinct(queues)
    requires Fifo(queues, stamps, now) && ByWakeup(threads, Q(queues, SleepList))
    ensures var queues' := queues[ReadyList(p) := Q(queues, ReadyList(p)) + [t]];
            && Placed(threads[t := NewThread(p)], queues', idle) && AllDistinct(queues')
            && Fifo(queues', stamps[t := now], now + 1)
            && ByWakeup(threads[t := NewThread(p)], Q(queues', SleepList))
  {
    var q := Q(queues, ReadyList(p));
    assert InsertedAt(q, |q|, t) == q + [t];
    Link(threads, queues, idle, t, NewThread(p), |q|);
    var queues', stamps', now' := queues[ReadyList(p) := q + [t]], stamps[t := now], now + 1;
    forall r: nat ensures FifoAt(queues', stamps', now', r) {
      assert FifoAt(queues, stamps, now, r) && PlacedAt(threads, queues, idle, t, ReadyList(r));
      StampedInOrder(Q(queues, ReadyList(r)), t, stamps, now);
    }
    assert PlacedAt(threads, queues, idle, t, SleepList);
    OthersByWakeup(threads, Q(queues, SleepList), t, NewThread(p));
  }

  lemma EnterRuns(threads: Threads, running: Tid, t: Tid, th: Thread)
    requires OnlyRunning(threads, running) && t !in threads && th.status != Running
    ensures OnlyRunning(threads[t := th], running)
  {
    var threads' := threads[t := th];
    forall u: Tid ensures RunsAt(threads', running, u) {
      assert RunsAt(threads, running, u);
    }
  }

  lemma EnterSynchronized(threads: Threads, queues: Queues, values: map<nat, nat>, holder: map<nat, Tid>, t: Tid,
                          p: nat)
    requires t !in threads && NoLostWakeups(threads, queues, values, holder) && LocksOk(threads, holder)
    ensures NoLostWakeups(threads[t := NewThread(p)],
                          queues[ReadyList(p) := Q(queues, ReadyList(p)) + [t]], values, holder)
    ensures LocksOk(threads[t := NewThread(p)], holder)
  {
    var threads', queues' := threads[t := NewThread(p)], queues[ReadyList(p) := Q(queues, ReadyList(p)) + [t]];
    WakeupsKept(threads, queues, values, holder, threads', queues', values, holder, Nothing);
    forall u: Tid ensures OwnedOnce(threads', u) {
      assert OwnedOnce(threads, u);
    }
    forall u: Tid, l: nat ensures OwnedAt(threads', holder, u, l) {
      assert OwnedAt(threads, holder, u, l) && HolderAt(threads, holder, l);
    }
    forall l: nat ensures HolderAt(threads', holder, l) {
      assert HolderAt(threads, holder, l);
    }
  }

  lemma ExitKeeps(threads: Threads, queues: Queues, values: map<nat, nat>, holder: map<nat, Tid>, idle: Tid, t: Tid)
    requires t in threads && threads[t].status == Running && threads[t].want == Nothing && threads[t].owned == []
    requires Placed(threads, queues, idle) && AllDistinct(queues) && ByWakeup(threads, Q(queues, SleepList))
    requires NoLostWakeups(threads, queues, values, holder) && LocksOk(threads, holder)
    ensures Placed(threads - {t}, queues, idle) && ByWakeup(threads - {t}, Q(queues, SleepList))
    ensures NoLostWakeups(threads - {t}, queues, values, holder) && LocksOk(threads - {t}, holder)
  {
    Unlink(threads, queues, idle, t);
    var threads', s := threads - {t}, Q(queues, SleepList);
    assert PlacedAt(threads, queues, idle, t, SleepList);
    assert forall i | 0 <= i < |s| :: s[i] in s && s[i] != t;
    WakeupsKept(threads, queues, values, holder, threads', queues, values, holder, Nothing);
    forall u: Tid ensures OwnedOnce(threads', u) {
      assert OwnedOnce(threads, u);
    }
    forall u: Tid, l: nat ensures OwnedAt(threads', holder, u, l) {
      assert OwnedAt(threads, holder, u, l);
    }
    forall l: nat ensures HolderAt(threads', holder, l) {
      assert HolderAt(threads, holder, l) && OwnedAt(threads, holder, t, l);
    }
  }

  lemma ExitSane(threads: Threads, idle: Tid, t: Tid)
    requires Sane(threads, idle) && t != idle && OnlyRunning(threads, t)
    ensures Sane(threads - {t}, idle) && NoneRunning(threads - {t})
  {
    var threads' := threads - {t};
    forall u: Tid ensures SaneAt(threads', idle, u) && StandsAt(threads', u) {
      assert SaneAt(threads, idle, u) && RunsAt(threads, t, u);
    }
  }

  lemma SameWakeups(threads: Threads, s: seq<Tid>, t: Tid, th: Thread)
    requires ByWakeup(threads, s) && t in threads && th.wakeup == threads[t].wakeup
    ensures ByWakeup(threads[t := th], s)
  {
    assert forall x :: WakeupOf(threads[t := th], x) == WakeupOf(threads, x);
  }

  // What steps do to semaphores and locks ------------------------------------------

  datatype Step =
    | Down(sema: nat) | TryDown(sema: nat) | Up(sema: nat)
    | Acquire(lock: nat) | TryAcquire(lock: nat) | Release(lock: nat)
    | Pause | NewPriority(priority: nat) | SleepFor(wakeup: int) | Tick(tick: int)
    | Spawn(tid: Tid, priority: nat) | Recomputed(tid: Tid, priority: nat) | Finish

  /** What a step did to the semaphores and locks. */
  datatype Effect = Posted(sema: nat) | Took(sema: nat) | Locked(lock: nat) | Unlocked(lock: nat) | Neither

  /** A completed down needs a positive value and an acquisition a free lock; a thread inside
      a retry loop can only complete what it is waiting for. */
  function EffectOf(step: Step, want: Want, isIdle: bool, values: map<nat, nat>, holder: map<nat, Tid>,
                    cur: Tid): Effect
  {
    if isIdle || step.Tick? || step.Recomputed? then Neither
    else if want.Sema? then
      if want.sema in values && values[want.sema] > 0 then Took(want.sema) else Neither
    else if want.Lock? then
      if want.lock !in holder then Locked(want.lock) else Neither
    else if want != Nothing then Neither
    else match step
      case Up(k) => if k in values then Posted(k) else Neither
      case Down(k) => if k in values && values[k] > 0 then Took(k) else Neither
      case TryDown(k) => if k in values && values[k] > 0 then Took(k) else Neither
      case Acquire(l) => if l !in holder then Locked(l) else Neither
      case TryAcquire(l) => if l !in holder then Locked(l) else Neither
      case Release(l) => if l in holder && holder[l] == cur then Unlocked(l) else Neither
      case _ => Neither
  }

  function Applied(values: map<nat, nat>, effect: Effect): map<nat, nat> {
    if effect.Posted? && effect.sema in values then values[effect.sema := values[effect.sema] + 1]
    else if effect.Took? && effect.sema in values && values[effect.sema] > 0 then
      values[effect.sema := values[effect.sema] - 1]
    else values
  }

  function HolderAfter(holder: map<nat, Tid>, effect: Effect, cur: Tid): map<nat, Tid> {
    match effect
    case Locked(l) => holder[l := cur]
    case Unlocked(l) => holder - {l}
    case _ => holder
  }

  // ---------------------------------------------------------------------------
  // Steps
  // ---------------------------------------------------------------------------

  /** The state of the kernel between two steps. */
  datatype Snapshot = Snapshot(threads: Threads, queues: Queues, stamps: Stamps, now: nat, running: Tid,
                               values: map<nat, nat>, holder: map<nat, Tid>, bounty: map<nat, nat>)

  ghost predicate SnapshotOk(idle: Tid, s: Snapshot) {
    && WellQueued(s.threads, s.queues, idle, s.stamps, s.now) && OnlyRunning(s.threads, s.running)
    && NoLostWakeups(s.threads, s.queues, s.values, s.holder) && LocksOk(s.threads, s.holder)
    && forall l | l in s.bounty :: s.bounty[l] <= PRI_MAX
  }

  /** Thread t is moved to the queue of its new state th. */
  ghost function MovedState(idle: Tid, s: Snapshot, t: Tid, th: Thread): Snapshot
    requires t in s.threads
  {
    s.(threads := s.threads[t := th], queues := Moved(s.threads, s.queues, idle, t, th),
       stamps := s.stamps[t := s.now], now := s.now + 1)
  }

  /** The scheduler gives the processor to the best thread. */
  ghost predicate Dispatched(idle: Tid, s: Snapshot, t: Snapshot) {
    && IsNext(s.queues, s.stamps, idle, t.running) && t.running in s.threads
    && t == MovedState(idle, s, t.running, s.threads[t.running].(status := Running)).(running := t.running)
    && Top(idle, t.threads, t.running)
  }

  /** The running thread took state th and the scheduler switched to the best thread. */
  ghost predicate SwitchedTo(idle: Tid, s: Snapshot, th: Thread, t: Snapshot) {
    s.running in s.threads && Dispatched(idle, MovedState(idle, s, s.running, th), t)
  }

  /** thread_unblock's test for preemption by thread w. */
  ghost predicate Outranks(idle: Tid, mlfqs: bool, threads: Threads, running: Tid, w: Tid) {
    !mlfqs && PriorityOf(threads, w) > PriorityOf(threads, running) && running != idle
  }

  /** Thread w has just become ready. */
  ghost predicate Preempted(idle: Tid, mlfqs: bool, s: Snapshot, w: Tid, t: Snapshot) {
    if Outranks(idle, mlfqs, s.threads, s.running, w)
    then s.running in s.threads && SwitchedTo(idle, s, s.threads[s.running].(status := Ready), t)
    else t == s
  }

  /** The running thread goes on as th. */
  ghost function Restated(s: Snapshot, th: Thread): Snapshot {
    s.(threads := s.threads[s.running := th], stamps := s.stamps[s.running := s.now], now := s.now + 1)
  }

  /** The wait list of w sorted by priority, and its first thread made ready. */
  ghost function WokenState(idle: Tid, s: Snapshot, w: Want, t: Tid): Snapshot
    requires WaitQueue(w).Some? && t in s.threads
  {
    var q := WaitQueue(w).value;
    var sorted := s.(queues := s.queues[q := StableSort(Q(s.queues, q), PriorityGreat(s.threads))]);
    MovedState(idle, sorted, t, s.threads[t].(status := Ready))
  }

  /** sema_down: one test of the loop condition. */
  ghost predicate Downed(idle: Tid, s: Snapshot, k: nat, t: Snapshot)
    requires s.running in s.threads && k in s.values
  {
    var th := s.threads[s.running];
    if s.values[k] > 0 then t == Restated(s.(values := s.values[k := s.values[k] - 1]), th.(want := Nothing))
    else SwitchedTo(idle, s, th.(status := Blocked, want := Sema(k)), t)
  }

  ghost predicate TriedDown(s: Snapshot, k: nat, t: Snapshot)
    requires k in s.values
  {
    t == if s.values[k] > 0 then s.(values := s.values[k := s.values[k] - 1]) else s
  }

  ghost function WithUnit(s: Snapshot, k: nat): Snapshot
    requires k in s.values
  {
    s.(values := s.values[k := s.values[k] + 1])
  }

  ghost predicate WokenBy(idle: Tid, mlfqs: bool, s: Snapshot, want: Want, w: Tid, t: Snapshot)
    requires WaitQueue(want).Some?
  {
    && w in s.threads && IsBestWaiter(s.threads, Q(s.queues, WaitQueue(want).value), w)
    && Preempted(idle, mlfqs, WokenState(idle, s, want, w), w, t)
  }

  /** sema_up: if anybody waits, the best waiter is woken and may preempt. */
  ghost predicate Upped(idle: Tid, mlfqs: bool, s: Snapshot, k: nat, t: Snapshot)
    requires k in s.values
  {
    if Q(s.queues, SemaWaiters(k)) == [] then t == WithUnit(s, k)
    else exists w :: WokenBy(idle, mlfqs, WithUnit(s, k), Sema(k), w, t)
  }

  /** lock_acquire's donation: a lower holder of the lock is promoted. */
  ghost function DonatedState(idle: Tid, mlfqs: bool, s: Snapshot, l: nat): Snapshot
    requires s.running in s.threads && l in s.holder && s.holder[l] in s.threads
  {
    var h, p := s.holder[l], s.threads[s.running].current;
    if !mlfqs && s.threads[h].current < p
    then MovedState(idle, s.(bounty := s.bounty[l := p]), h, Promoted(s.threads[h], p))
    else s
  }

  /** The lock taken by the running thread. */
  ghost function TakenState(s: Snapshot, l: nat): Snapshot
    requires s.running in s.threads
  {
    var th := s.threads[s.running];
    Restated(s.(holder := s.holder[l := s.running]), th.(want := Nothing, owned := th.owned + [l]))
  }

  /** lock_acquire: one test of the loop condition. */
  ghost predicate Acquired(idle: Tid, mlfqs: bool, s: Snapshot, l: nat, t: Snapshot)
    requires s.running in s.threads
  {
    if l !in s.holder then t == TakenState(s, l)
    else
      && s.holder[l] in s.threads
      && SwitchedTo(idle, DonatedState(idle, mlfqs, s, l),
                    s.threads[s.running].(status := Blocked, want := Lock(l)), t)
  }

  ghost predicate TriedAcquire(s: Snapshot, l: nat, t: Snapshot)
    requires s.running in s.threads
  {
    t == if l !in s.holder then TakenState(s, l) else s
  }

  /** The lock, and the priority donated for it, given back. */
  ghost function ReleasedState(mlfqs: bool, s: Snapshot, l: nat): Snapshot
    requires s.running in s.threads
  {
    Restated(s.(holder := s.holder - {l}, bounty := s.bounty[l := 0]),
             Released(s.threads[s.running], mlfqs, s.bounty, l))
  }

  ghost predicate ReleasedBy(idle: Tid, mlfqs: bool, s: Snapshot, l: nat, w: Tid, t: Snapshot)
    requires s.running in s.threads
  {
    && w in s.threads && IsBestWaiter(s.threads, Q(s.queues, LockWaiters(l)), w)
    && Preempted(idle, mlfqs, ReleasedState(mlfqs, WokenState(idle, s, Lock(l), w), l), w, t)
  }

  /** lock_release: the best waiter is woken, the lock and the priority donated for it
      are given back, and the woken thread may preempt. */
  ghost predicate ReleasedTo(idle: Tid, mlfqs: bool, s: Snapshot, l: nat, t: Snapshot)
    requires s.running in s.threads
  {
    if Q(s.queues, LockWaiters(l)) == [] then t == ReleasedState(mlfqs, s, l)
    else exists w :: ReleasedBy(idle, mlfqs, s, l, w, t)
  }

  /** thread_set_priority: a donated priority stays in force. */
  ghost predicate PrioritySet(idle: Tid, mlfqs: bool, s: Snapshot, p: nat, t: Snapshot)
    requires s.running in s.threads
  {
    var th := s.threads[s.running];
    if mlfqs then t == s
    else if th.current == th.base then
      SwitchedTo(idle, Restated(s, th.(base := p, current := p)), th.(base := p, current := p, status := Ready), t)
    else t == Restated(s, th.(base := p))
  }

  /** timer_sleep: into the sleep list in wake-up order. */
  ghost predicate Slept(idle: Tid, s: Snapshot, wakeup: int, t: Snapshot)
    requires s.running in s.threads
  {
    var th := s.threads[s.running].(status := Blocked, want := Wakeup, wakeup := wakeup);
    Dispatched(idle, s.(threads := s.threads[s.running := th], queues := Asleep(s.threads, s.queues, s.running, th)), t)
  }

  /** A new thread at the back of its ready list. */
  ghost function EnteredState(s: Snapshot, u: Tid, p: nat): Snapshot {
    s.(threads := s.threads[u := NewThread(p)],
       queues := s.queues[ReadyList(p) := Q(s.queues, ReadyList(p)) + [u]],
       stamps := s.stamps[u := s.now], now := s.now + 1)
  }

  /** thread_create: the new thread is queued and may preempt its creator. */
  ghost predicate Spawned(idle: Tid, mlfqs: bool, s: Snapshot, u: Tid, p: nat, t: Snapshot) {
    Preempted(idle, mlfqs, EnteredState(s, u, p), u, t)
  }

  /** thread_exit */
  ghost predicate Exited(idle: Tid, s: Snapshot, t: Snapshot) {
    Dispatched(idle, s.(threads := s.threads - {s.running}), t)
  }

  /** The sleepers at the front of the list whose time has come. */
  function DuePrefix(threads: Threads, sleepers: seq<Tid>, tick: int): seq<Tid> {
    if sleepers == [] || WakeupOf(threads, sleepers[0]) > tick then []
    else [sleepers[0]] + DuePrefix(threads, sleepers[1..], tick)
  }

  ghost function AwokenState(idle: Tid, s: Snapshot, u: Tid): Snapshot
    requires u in s.threads
  {
    MovedState(idle, s, u, s.threads[u].(status := Ready, want := Nothing))
  }

  /** The listed sleepers appended to their ready lists, one after the other. */
  ghost function AwokenAll(idle: Tid, s: Snapshot, list: seq<Tid>): Snapshot
    decreases |list|
  {
    if list == [] || list[0] !in s.threads then s else AwokenAll(idle, AwokenState(idle, s, list[0]), list[1..])
  }

  /** handle_sleeping_threads: the sleepers that are due go to the back of their ready
      lists in wake-up order; they are exactly the threads whose time has come. */
  ghost predicate Ticked(idle: Tid, s: Snapshot, tick: int, t: Snapshot) {
    && t == AwokenAll(idle, s, DuePrefix(s.threads, Q(s.queues, SleepList), tick))
    && (forall u :: u in t.threads <==> u in s.threads)
    && forall u | u in s.threads :: t.threads[u] == AfterTick(s.threads[u], u == idle, tick)
  }

  lemma {:induction false} DueSame(threads: Threads, threads': Threads, sleepers: seq<Tid>, tick: int)
    requires forall u: Tid :: WakeupOf(threads', u) == WakeupOf(threads, u)
    ensures DuePrefix(threads', sleepers, tick) == DuePrefix(threads, sleepers, tick)
  {
    if sleepers != [] {
      DueSame(threads, threads', sleepers[1..], tick);
    }
  }

  /** Waking the first due sleeper leaves the rest to be woken. */
  lemma AwokenFirst(idle: Tid, s: Snapshot, tick: int)
    requires var list := Q(s.queues, SleepList);
             && list != [] && WakeupOf(s.threads, list[0]) <= tick && list[0] in s.threads && list[0] != idle
             && s.threads[list[0]].status == Blocked && s.threads[list[0]].want == Wakeup
    ensures var m := AwokenState(idle, s, Q(s.queues, SleepList)[0]);
            AwokenAll(idle, s, DuePrefix(s.threads, Q(s.queues, SleepList), tick))
            == AwokenAll(idle, m, DuePrefix(m.threads, Q(m.queues, SleepList), tick))
  {
    var list := Q(s.queues, SleepList);
    var m := AwokenState(idle, s, list[0]);
    assert Q(m.queues, SleepList) == list[1..];
    DueSame(s.threads, m.threads, list[1..], tick);
    var due := DuePrefix(s.threads, list, tick);
    assert due[0] == list[0] && due[1..] == DuePrefix(s.threads, list[1..], tick);
  }

  /** A sleeper that is due outranks the running thread, which makes thread_unblock call
      thread_yield inside the timer interrupt; thread_yield asserts that it is not. */
  ghost predicate Tripped(idle: Tid, mlfqs: bool, s: Snapshot, tick: int) {
    exists w :: w in s.threads && Due(s.threads[w], w == idle, tick) && Outranks(idle, mlfqs, s.threads, s.running, w)
  }

  ghost predicate WakingAt(idle: Tid, mlfqs: bool, s: Snapshot, th: Thread, u: Tid, tick: int)
    requires u in s.threads
  {
    || th == s.threads[u]
    || (th == AfterTick(s.threads[u], u == idle, tick) && !Outranks(idle, mlfqs, s.threads, s.running, u))
  }

  /** Some sleepers that are due have been woken, and none of them outranks. */
  ghost predicate Waking(idle: Tid, mlfqs: bool, s: Snapshot, threads: Threads, tick: int) {
    && (forall u :: u in threads <==> u in s.threads)
    && forall u | u in s.threads :: WakingAt(idle, mlfqs, s, threads[u], u, tick)
  }

  /** The next sleeper is as it was before the tick; it outranks or joins the woken. */
  lemma WakingMore(idle: Tid, mlfqs: bool, s: Snapshot, threads: Threads, t: Tid, tick: int)
    requires Waking(idle, mlfqs, s, threads, tick) && t in threads && Due(threads[t], t == idle, tick)
    requires s.running in threads
    ensures Outranks(idle, mlfqs, threads, s.running, t) ==> Tripped(idle, mlfqs, s, tick)
    ensures !Outranks(idle, mlfqs, threads, s.running, t) ==>
              Waking(idle, mlfqs, s, threads[t := threads[t].(status := Ready, want := Nothing)], tick)
  {
    assert WakingAt(idle, mlfqs, s, threads[t], t, tick);
    assert WakingAt(idle, mlfqs, s, threads[s.running], s.running, tick);
    assert threads[t] == s.threads[t] && threads[s.running].current == s.threads[s.running].current;
    if !Outranks(idle, mlfqs, threads, s.running, t) {
      var threads' := threads[t := threads[t].(status := Ready, want := Nothing)];
      forall u | u in s.threads ensures WakingAt(idle, mlfqs, s, threads'[u], u, tick) {
        assert WakingAt(idle, mlfqs, s, threads[u], u, tick);
      }
    }
  }

  lemma AllWoken(idle: Tid, mlfqs: bool, s: Snapshot, threads: Threads, queues: Queues, tick: int)
    requires Waking(idle, mlfqs, s, threads, tick) && Placed(threads, queues, idle)
    requires ByWakeup(threads, Q(queues, SleepList))
    requires Q(queues, SleepList) == [] || WakeupOf(threads, Q(queues, SleepList)[0]) > tick
    ensures forall u | u in s.threads :: threads[u] == AfterTick(s.threads[u], u == idle, tick)
    ensures !Tripped(idle, mlfqs, s, tick)
  {
    forall u | u in s.threads
      ensures u in threads && (threads[u] == s.threads[u] || threads[u] == AfterTick(s.threads[u], u == idle, tick)) {
      assert WakingAt(idle, mlfqs, s, threads[u], u, tick);
    }
    TickDone(s.threads, threads, queues, idle, tick);
    forall w | w in s.threads && Due(s.threads[w], w == idle, tick)
      ensures !Outranks(idle, mlfqs, s.threads, s.running, w) {
      assert WakingAt(idle, mlfqs, s, threads[w], w, tick);
    }
  }

  /** A thread of priority 40 sleeps while one of priority 31 runs; at its wake-up the
      kernel stops. */
  lemma TrippedInput()
    ensures exists idle: Tid, s: Snapshot, tick: int :: SnapshotOk(idle, s) && Tripped(idle, false, s, tick)
  {
    var idler, runner := Thread(Blocked, 0, 0, Nothing, [], 0), Thread(Running, 31, 31, Nothing, [], 0);
    var sleeper := Thread(Blocked, 40, 40, Wakeup, [], 5);
    var threads: Threads := map[0 := idler, 1 := runner, 2 := sleeper];
    var queues: Queues := map[SleepList := [2]];
    var s := Snapshot(threads, queues, map[], 0, 1, map[], map[], map[]);
    forall t: Tid, q: Queue ensures PlacedAt(threads, queues, 0, t, q) {
    }
    forall p: nat ensures FifoAt(queues, map[], 0, p) {
    }
    assert SnapshotOk(0, s);
    assert Due(s.threads[2], false, 5) && Outranks(0, false, s.threads, s.running, 2);
    assert Tripped(0, false, s, 5);
  }

  /** thread_recompute_priority with the outcome p. */
  ghost predicate Reprioritized(idle: Tid, s: Snapshot, u: Tid, p: nat, t: Snapshot)
    requires u in s.threads
  {
    var th := s.threads[u].(base := p, current := p);
    t == if th.status == Ready then MovedState(idle, s, u, th) else s.(threads := s.threads[u := th])
  }

  predicate Waiting(s: Snapshot)
    requires s.running in s.threads
  {
    s.threads[s.running].want != Nothing
  }

  /** The next turn of the loop that the running thread waits in. */
  ghost predicate Retried(idle: Tid, mlfqs: bool, s: Snapshot, t: Snapshot)
    requires s.running in s.threads
  {
    match s.threads[s.running].want
    case Sema(k) => if k in s.values then Downed(idle, s, k, t) else t == s
    case Lock(l) =>
      if l in s.holder && s.holder[l] == s.running then t == s
      else Acquired(idle, mlfqs, s, l, t)
    case _ => t == s
  }

  predicate OnSema(step: Step) {
    step.Down? || step.TryDown? || step.Up?
  }

  predicate OnLock(step: Step) {
    step.Acquire? || step.TryAcquire? || step.Release?
  }

  /** A step on a semaphore or lock, by a thread in no loop. */
  ghost predicate Operated(idle: Tid, mlfqs: bool, s: Snapshot, step: Step, t: Snapshot)
    requires s.running in s.threads && (OnSema(step) || OnLock(step))
  {
    if OnSema(step) then
      if step.sema !in s.values then t == s
      else if step.Down? then Downed(idle, s, step.sema, t)
      else if step.TryDown? then TriedDown(s, step.sema, t)
      else Upped(idle, mlfqs, s, step.sema, t)
    else
      var mine := step.lock in s.holder && s.holder[step.lock] == s.running;
      if step.Acquire? && !mine then Acquired(idle, mlfqs, s, step.lock, t)
      else if step.TryAcquire? && !mine then TriedAcquire(s, step.lock, t)
      else if step.Release? && mine then ReleasedTo(idle, mlfqs, s, step.lock, t)
      else t == s
  }

  /** A step that concerns only the queues, by a thread in no loop. */
  ghost predicate Requeued(idle: Tid, mlfqs: bool, s: Snapshot, step: Step, t: Snapshot)
    requires s.running in s.threads
  {
    match step
    case Pause => SwitchedTo(idle, s, s.threads[s.running].(status := Ready), t)
    case NewPriority(p) => if p <= PRI_MAX then PrioritySet(idle, mlfqs, s, p, t) else t == s
    case SleepFor(wakeup) => Slept(idle, s, wakeup, t)
    case Spawn(u, p) => if u !in s.threads && p <= PRI_MAX then Spawned(idle, mlfqs, s, u, p, t) else t == s
    case Finish => if s.threads[s.running].owned == [] then Exited(idle, s, t) else t == s
    case _ => t == s
  }

  /** The timer, the recomputation of a priority, and the idle thread. */
  ghost predicate Outside(idle: Tid, s: Snapshot, step: Step, t: Snapshot)
    requires s.running in s.threads
  {
    if step.Tick? then Ticked(idle, s, step.tick, t)
    else if step.Recomputed? then
      if step.tid in s.threads && step.tid != idle && step.priority <= PRI_MAX
      then Reprioritized(idle, s, step.tid, step.priority, t) else t == s
    else SwitchedTo(idle, s, s.threads[s.running].(status := Blocked), t)
  }

  /** What a step does.  The timer and the recomputation of priorities come from outside;
      the idle thread blocks again; a thread that was scheduled inside a retry loop tests
      its condition first; a step that is not possible does nothing. */
  ghost predicate Moves(idle: Tid, mlfqs: bool, s: Snapshot, step: Step, t: Snapshot)
    requires s.running in s.threads
  {
    if step.Tick? || step.Recomputed? || s.running == idle then Outside(idle, s, step, t)
    else if Waiting(s) then Retried(idle, mlfqs, s, t)
    else if OnSema(step) || OnLock(step) then Operated(idle, mlfqs, s, step, t)
    else Requeued(idle, mlfqs, s, step, t)
  }

  /** The effect of a step that starts in s. */
  ghost function EffectIn(idle: Tid, s: Snapshot, step: Step): Effect
    requires s.running in s.threads
  {
    EffectOf(step, s.threads[s.running].want, s.running == idle, s.values, s.holder, s.running)
  }

  predicate SameUnits(s: Snapshot, t: Snapshot) {
    t.values == s.values && t.holder == s.holder
  }

  lemma DispatchedUnits(idle: Tid, s: Snapshot, t: Snapshot)
    requires Dispatched(idle, s, t)
    ensures SameUnits(s, t)
  {
  }

  lemma SwitchedUnits(idle: Tid, s: Snapshot, th: Thread, t: Snapshot)
    requires SwitchedTo(idle, s, th, t)
    ensures SameUnits(s, t)
  {
    DispatchedUnits(idle, MovedState(idle, s, s.running, th), t);
  }

  lemma PreemptedUnits(idle: Tid, mlfqs: bool, s: Snapshot, w: Tid, t: Snapshot)
    requires Preempted(idle, mlfqs, s, w, t)
    ensures SameUnits(s, t)
  {
    if Outranks(idle, mlfqs, s.threads, s.running, w) {
      SwitchedUnits(idle, s, s.threads[s.running].(status := Ready), t);
    }
  }

  lemma DownedUnits(idle: Tid, s: Snapshot, k: nat, t: Snapshot)
    requires s.running in s.threads && k in s.values && Downed(idle, s, k, t)
    ensures t.holder == s.holder && t.values == Applied(s.values, if s.values[k] > 0 then Took(k) else Neither)
  {
    if s.values[k] == 0 {
      SwitchedUnits(idle, s, s.threads[s.running].(status := Blocked, want := Sema(k)), t);
    }
  }

  lemma WokenByUnits(idle: Tid, mlfqs: bool, s: Snapshot, want: Want, w: Tid, t: Snapshot)
    requires WaitQueue(want).Some? && WokenBy(idle, mlfqs, s, want, w, t)
    ensures SameUnits(s, t)
  {
    var m := WokenState(idle, s, want, w);
    assert SameUnits(s, m);
    PreemptedUnits(idle, mlfqs, m, w, t);
  }

  lemma UppedUnits(idle: Tid, mlfqs: bool, s: Snapshot, k: nat, t: Snapshot)
    requires k in s.values && Upped(idle, mlfqs, s, k, t)
    ensures t.holder == s.holder && t.values == Applied(s.values, Posted(k))
  {
    var m := WithUnit(s, k);
    assert m.holder == s.holder && m.values == Applied(s.values, Posted(k));
    if Q(s.queues, SemaWaiters(k)) != [] {
      var w :| WokenBy(idle, mlfqs, m, Sema(k), w, t);
      WokenByUnits(idle, mlfqs, m, Sema(k), w, t);
    }
  }

  lemma AcquiredUnits(idle: Tid, mlfqs: bool, s: Snapshot, l: nat, t: Snapshot)
    requires s.running in s.threads && Acquired(idle, mlfqs, s, l, t)
    ensures t.values == s.values
    ensures t.holder == HolderAfter(s.holder, if l !in s.holder then Locked(l) else Neither, s.running)
  {
    if l in s.holder {
      SwitchedUnits(idle, DonatedState(idle, mlfqs, s, l),
                    s.threads[s.running].(status := Blocked, want := Lock(l)), t);
    }
  }

  lemma ReleasedByUnits(idle: Tid, mlfqs: bool, s: Snapshot, l: nat, w: Tid, t: Snapshot)
    requires s.running in s.threads && ReleasedBy(idle, mlfqs, s, l, w, t)
    ensures t.values == s.values && t.holder == s.holder - {l}
  {
    var m := WokenState(idle, s, Lock(l), w);
    assert SameUnits(s, m) && m.running == s.running;
    PreemptedUnits(idle, mlfqs, ReleasedState(mlfqs, m, l), w, t);
  }

  lemma ReleasedUnits(idle: Tid, mlfqs: bool, s: Snapshot, l: nat, t: Snapshot)
    requires s.running in s.threads && ReleasedTo(idle, mlfqs, s, l, t)
    ensures t.values == s.values && t.holder == HolderAfter(s.holder, Unlocked(l), s.running)
  {
    if Q(s.queues, LockWaiters(l)) != [] {
      var w :| ReleasedBy(idle, mlfqs, s, l, w, t);
      ReleasedByUnits(idle, mlfqs, s, l, w, t);
    }
  }

  lemma PrioritySetUnits(idle: Tid, mlfqs: bool, s: Snapshot, p: nat, t: Snapshot)
    requires s.running in s.threads && PrioritySet(idle, mlfqs, s, p, t)
    ensures SameUnits(s, t)
  {
    var th := s.threads[s.running];
    if !mlfqs && th.current == th.base {
      SwitchedUnits(idle, Restated(s, th.(base := p, current := p)), th.(base := p, current := p, status := Ready), t);
    }
  }

  lemma SleptUnits(idle: Tid, s: Snapshot, wakeup: int, t: Snapshot)
    requires s.running in s.threads && Slept(idle, s, wakeup, t)
    ensures SameUnits(s, t)
  {
    var th := s.threads[s.running].(status := Blocked, want := Wakeup, wakeup := wakeup);
    var m := s.(threads := s.threads[s.running := th], queues := Asleep(s.threads, s.queues, s.running, th));
    DispatchedUnits(idle, m, t);
  }

  lemma SpawnedUnits(idle: Tid, mlfqs: bool, s: Snapshot, u: Tid, p: nat, t: Snapshot)
    requires Spawned(idle, mlfqs, s, u, p, t)
    ensures SameUnits(s, t)
  {
    var list := ReadyList(p);
    var m := s.(threads := s.threads[u := NewThread(p)], queues := s.queues[list := Q(s.queues, list) + [u]],
                stamps := s.stamps[u := s.now], now := s.now + 1);
    PreemptedUnits(idle, mlfqs, m, u, t);
  }

  lemma ExitedUnits(idle: Tid, s: Snapshot, t: Snapshot)
    requires Exited(idle, s, t)
    ensures SameUnits(s, t)
  {
    DispatchedUnits(idle, s.(threads := s.threads - {s.running}), t);
  }

  lemma RequeuedUnits(idle: Tid, mlfqs: bool, s: Snapshot, step: Step, t: Snapshot)
    requires s.running in s.threads && Requeued(idle, mlfqs, s, step, t)
    ensures SameUnits(s, t)
  {
    match step
    case Pause => SwitchedUnits(idle, s, s.threads[s.running].(status := Ready), t);
    case NewPriority(p) =>
      if p <= PRI_MAX {
        PrioritySetUnits(idle, mlfqs, s, p, t);
      }
    case SleepFor(wakeup) => SleptUnits(idle, s, wakeup, t);
    case Spawn(u, p) =>
      if u !in s.threads && p <= PRI_MAX {
        SpawnedUnits(idle, mlfqs, s, u, p, t);
      }
    case Finish =>
      if s.threads[s.running].owned == [] {
        ExitedUnits(idle, s, t);
      }
    case _ =>
  }

  lemma {:induction false} AwokenUnits(idle: Tid, s: Snapshot, list: seq<Tid>)
    ensures var t := AwokenAll(idle, s, list);
            t.values == s.values && t.holder == s.holder && t.bounty == s.bounty && t.running == s.running
    decreases |list|
  {
    if list != [] && list[0] in s.threads {
      AwokenUnits(idle, AwokenState(idle, s, list[0]), list[1..]);
    }
  }

  lemma OutsideUnits(idle: Tid, s: Snapshot, step: Step, t: Snapshot)
    requires s.running in s.threads && Outside(idle, s, step, t)
    ensures SameUnits(s, t)
  {
    if step.Tick? {
      AwokenUnits(idle, s, DuePrefix(s.threads, Q(s.queues, SleepList), step.tick));
    } else if !step.Recomputed? {
      SwitchedUnits(idle, s, s.threads[s.running].(status := Blocked), t);
    }
  }

  lemma RetriedSema(idle: Tid, mlfqs: bool, s: Snapshot, step: Step, k: nat, t: Snapshot)
    requires s.running in s.threads && s.running != idle && !step.Tick? && !step.Recomputed?
    requires s.threads[s.running].want == Sema(k) && Retried(idle, mlfqs, s, t)
    ensures t.values == Applied(s.values, EffectIn(idle, s, step)) && t.holder == s.holder
    ensures EffectIn(idle, s, step).Took? || EffectIn(idle, s, step).Neither?
  {
    if k in s.values {
      assert EffectIn(idle, s, step) == if s.values[k] > 0 then Took(k) else Neither;
      DownedUnits(idle, s, k, t);
    }
  }

  lemma RetriedLock(idle: Tid, mlfqs: bool, s: Snapshot, step: Step, l: nat, t: Snapshot)
    requires s.running in s.threads && s.running != idle && !step.Tick? && !step.Recomputed?
    requires s.threads[s.running].want == Lock(l) && Retried(idle, mlfqs, s, t)
    ensures t.values == s.values && t.holder == HolderAfter(s.holder, EffectIn(idle, s, step), s.running)
    ensures EffectIn(idle, s, step).Locked? || EffectIn(idle, s, step).Neither?
  {
    assert EffectIn(idle, s, step) == if l !in s.holder then Locked(l) else Neither;
    if !(l in s.holder && s.holder[l] == s.running) {
      AcquiredUnits(idle, mlfqs, s, l, t);
    }
  }

  lemma RetriedEffect(idle: Tid, mlfqs: bool, s: Snapshot, step: Step, t: Snapshot)
    requires s.running in s.threads && s.running != idle && Waiting(s) && !step.Tick? && !step.Recomputed?
    requires Retried(idle, mlfqs, s, t)
    ensures t.values == Applied(s.values, EffectIn(idle, s, step))
    ensures t.holder == HolderAfter(s.holder, EffectIn(idle, s, step), s.running)
  {
    match s.threads[s.running].want
    case Sema(k) => RetriedSema(idle, mlfqs, s, step, k, t);
    case Lock(l) => RetriedLock(idle, mlfqs, s, step, l, t);
    case _ =>
  }

  lemma SemaEffect(idle: Tid, mlfqs: bool, s: Snapshot, step: Step, t: Snapshot)
    requires s.running in s.threads && s.running != idle && !Waiting(s) && OnSema(step)
    requires Operated(idle, mlfqs, s, step, t)
    ensures t.values == Applied(s.values, EffectIn(idle, s, step)) && t.holder == s.holder
  {
    if step.sema in s.values {
      if step.Down? {
        DownedUnits(idle, s, step.sema, t);
      } else if step.Up? {
        UppedUnits(idle, mlfqs, s, step.sema, t);
      }
    }
  }

  lemma LockEffect(idle: Tid, mlfqs: bool, s: Snapshot, step: Step, t: Snapshot)
    requires s.running in s.threads && s.running != idle && !Waiting(s) && OnLock(step)
    requires Operated(idle, mlfqs, s, step, t)
    ensures t.values == s.values && t.holder == HolderAfter(s.holder, EffectIn(idle, s, step), s.running)
  {
    var mine := step.lock in s.holder && s.holder[step.lock] == s.running;
    if step.Acquire? && !mine {
      AcquiredUnits(idle, mlfqs, s, step.lock, t);
    } else if step.Release? && mine {
      ReleasedUnits(idle, mlfqs, s, step.lock, t);
    }
  }

  lemma OperatedEffect(idle: Tid, mlfqs: bool, s: Snapshot, step: Step, t: Snapshot)
    requires s.running in s.threads && s.running != idle && !Waiting(s) && (OnSema(step) || OnLock(step))
    requires Operated(idle, mlfqs, s, step, t)
    ensures t.values == Applied(s.values, EffectIn(idle, s, step))
    ensures t.holder == HolderAfter(s.holder, EffectIn(idle, s, step), s.running)
  {
    if OnSema(step) {
      SemaEffect(idle, mlfqs, s, step, t);
    } else {
      LockEffect(idle, mlfqs, s, step, t);
    }
  }

  lemma NoEffect(idle: Tid, s: Snapshot, step: Step, t: Snapshot)
    requires s.running in s.threads && SameUnits(s, t)
    requires step.Tick? || step.Recomputed? || s.running == idle || !(Waiting(s) || OnSema(step) || OnLock(step))
    ensures t.values == Applied(s.values, EffectIn(idle, s, step))
    ensures t.holder == HolderAfter(s.holder, EffectIn(idle, s, step), s.running)
  {
  }

  /** Semaphore values and lock holders change by the step's effect and not otherwise. */
  lemma MovesEffect(idle: Tid, mlfqs: bool, s: Snapshot, step: Step, t: Snapshot)
    requires s.running in s.threads && Moves(idle, mlfqs, s, step, t)
    ensures t.values == Applied(s.values, EffectIn(idle, s, step))
    ensures t.holder == HolderAfter(s.holder, EffectIn(idle, s, step), s.running)
  {
    if step.Tick? || step.Recomputed? || s.running == idle {
      OutsideUnits(idle, s, step, t);
      NoEffect(idle, s, step, t);
    } else if Waiting(s) {
      RetriedEffect(idle, mlfqs, s, step, t);
    } else if OnSema(step) || OnLock(step) {
      OperatedEffect(idle, mlfqs, s, step, t);
    } else {
      RequeuedUnits(idle, mlfqs, s, step, t);
      NoEffect(idle, s, step, t);
    }
  }

  lemma OutsideDispatch(idle: Tid, s: Snapshot, step: Step, t: Snapshot)
    requires s.running in s.threads && Outside(idle, s, step, t)
    ensures t.running != s.running ==> Top(idle, t.threads, t.running)
  {
    if step.Tick? {
      AwokenUnits(idle, s, DuePrefix(s.threads, Q(s.queues, SleepList), step.tick));
    }
  }

  lemma RetriedDispatch(idle: Tid, mlfqs: bool, s: Snapshot, t: Snapshot)
    requires s.running in s.threads && Retried(idle, mlfqs, s, t)
    ensures t.running != s.running ==> Top(idle, t.threads, t.running)
  {
  }

  lemma OperatedDispatch(idle: Tid, mlfqs: bool, s: Snapshot, step: Step, t: Snapshot)
    requires s.running in s.threads && (OnSema(step) || OnLock(step)) && Operated(idle, mlfqs, s, step, t)
    ensures t.running != s.running ==> Top(idle, t.threads, t.running)
  {
  }

  lemma RequeuedDispatch(idle: Tid, mlfqs: bool, s: Snapshot, step: Step, t: Snapshot)
    requires s.running in s.threads && Requeued(idle, mlfqs, s, step, t)
    ensures t.running != s.running ==> Top(idle, t.threads, t.running)
  {
  }

  /** When a step changes the running thread, no ready thread outranks the new one. */
  lemma MovesDispatch(idle: Tid, mlfqs: bool, s: Snapshot, step: Step, t: Snapshot)
    requires s.running in s.threads && Moves(idle, mlfqs, s, step, t)
    ensures t.running != s.running ==> Top(idle, t.threads, t.running)
  {
    if step.Tick? || step.Recomputed? || s.running == idle {
      OutsideDispatch(idle, s, step, t);
    } else if Waiting(s) {
      RetriedDispatch(idle, mlfqs, s, t);
    } else if OnSema(step) || OnLock(step) {
      OperatedDispatch(idle, mlfqs, s, step, t);
    } else {
      RequeuedDispatch(idle, mlfqs, s, step, t);
    }
  }

  // ---------------------------------------------------------------------------
  // Preemption, in priorities
  // ---------------------------------------------------------------------------

  /** Thread w was blocked, or is new, and can run now. */
  predicate BecameReady(s: Snapshot, t: Snapshot, w: Tid) {
    w in t.threads && t.threads[w].status != Blocked && (w in s.threads ==> s.threads[w].status == Blocked)
  }

  /** A thread that became ready takes the processor away exactly if its priority is above
      that of the thread that ran, outside mlfqs and idle. */
  predicate PreemptionAt(idle: Tid, mlfqs: bool, s: Snapshot, t: Snapshot, w: Tid)
    requires s.running in t.threads && t.running in t.threads
  {
    BecameReady(s, t, w) ==>
      && (t.running != s.running <==>
            !mlfqs && s.running != idle && t.threads[w].current > t.threads[s.running].current)
      && (!mlfqs && s.running != idle ==> t.running == w || t.threads[w].current <= t.threads[t.running].current)
  }

  /** For every thread that became ready; and if none did, the same thread runs. */
  ghost predicate Preemption(idle: Tid, mlfqs: bool, s: Snapshot, t: Snapshot) {
    && s.running in t.threads && t.running in t.threads
    && (forall w: Tid :: PreemptionAt(idle, mlfqs, s, t, w))
    && (t.running != s.running ==> exists w: Tid :: BecameReady(s, t, w))
  }

  /** Statuses and running thread are those of s, except that w is ready. */
  ghost predicate OneReadied(s: Snapshot, m: Snapshot, w: Tid) {
    && s.running in s.threads && s.threads[s.running].status == Running
    && m.running == s.running && m.running in m.threads && m.threads[m.running].status == Running
    && w in m.threads && w != s.running && m.threads[w].status == Ready
    && (w in s.threads ==> s.threads[w].status == Blocked)
    && forall u | u in m.threads && u != w :: u in s.threads && m.threads[u].status == s.threads[u].status
  }

  lemma SwitchKeeps(idle: Tid, m: Snapshot, t: Snapshot)
    requires m.running in m.threads && SwitchedTo(idle, m, m.threads[m.running].(status := Ready), t)
    ensures t.running in m.threads && t.threads.Keys == m.threads.Keys
    ensures forall u | u in m.threads ::
              && t.threads[u].current == m.threads[u].current
              && t.threads[u].status == if u == t.running then Running else if u == m.running then Ready
                                        else m.threads[u].status
    ensures Top(idle, t.threads, t.running)
  {
  }

  lemma PreemptedMeaning(idle: Tid, mlfqs: bool, s: Snapshot, m: Snapshot, w: Tid, t: Snapshot)
    requires OneReadied(s, m, w) && w != idle && Preempted(idle, mlfqs, m, w, t)
    ensures Preemption(idle, mlfqs, s, t)
  {
    if !mlfqs && s.running != idle && m.threads[w].current > m.threads[s.running].current {
      SwitchKeeps(idle, m, t);
      assert TopAt(idle, t.threads, t.running, w) && TopAt(idle, t.threads, t.running, s.running);
      assert BecameReady(s, t, w);
    }
  }

  lemma WaiterBlocked(idle: Tid, s: Snapshot, want: Want, w: Tid)
    requires SnapshotOk(idle, s) && WaitQueue(want).Some? && w in Q(s.queues, WaitQueue(want).value)
    ensures w in s.threads && w != idle && w != s.running && s.threads[w].status == Blocked
  {
    assert PlacedAt(s.threads, s.queues, idle, w, WaitQueue(want).value);
  }

  /** Nobody became ready and nobody else runs. */
  lemma NoneReadied(idle: Tid, mlfqs: bool, s: Snapshot, t: Snapshot)
    requires s.running in t.threads && t.running == s.running
    requires forall u | u in t.threads :: u in s.threads && t.threads[u].status == s.threads[u].status
    ensures Preemption(idle, mlfqs, s, t)
  {
  }

  lemma WokenReadied(idle: Tid, s: Snapshot, want: Want, w: Tid)
    requires WaitQueue(want).Some? && w in s.threads && w != s.running && s.threads[w].status == Blocked
    requires s.running in s.threads && s.threads[s.running].status == Running
    ensures OneReadied(s, WokenState(idle, s, want, w), w)
  {
  }

  lemma StillReadied(s: Snapshot, m: Snapshot, w: Tid, n: Snapshot)
    requires OneReadied(s, m, w) && n.running == m.running && n.threads.Keys == m.threads.Keys
    requires forall u | u in m.threads :: n.threads[u].status == m.threads[u].status
    ensures OneReadied(s, n, w)
  {
  }

  lemma ReleasedKeeps(mlfqs: bool, s: Snapshot, l: nat)
    requires s.running in s.threads
    ensures var t := ReleasedState(mlfqs, s, l);
            && t.running == s.running && t.threads.Keys == s.threads.Keys
            && forall u | u in s.threads :: t.threads[u].status == s.threads[u].status
  {
  }

  lemma UppedMeaning(idle: Tid, mlfqs: bool, s: Snapshot, k: nat, t: Snapshot)
    requires SnapshotOk(idle, s) && k in s.values && Upped(idle, mlfqs, s, k, t)
    ensures Preemption(idle, mlfqs, s, t)
  {
    var u := WithUnit(s, k);
    if Q(s.queues, SemaWaiters(k)) == [] {
      NoneReadied(idle, mlfqs, s, t);
    } else {
      var w :| WokenBy(idle, mlfqs, u, Sema(k), w, t);
      WaiterBlocked(idle, s, Sema(k), w);
      WokenReadied(idle, u, Sema(k), w);
      assert OneReadied(s, WokenState(idle, u, Sema(k), w), w);
      PreemptedMeaning(idle, mlfqs, s, WokenState(idle, u, Sema(k), w), w, t);
    }
  }

  lemma ReleasedReadied(idle: Tid, mlfqs: bool, s: Snapshot, l: nat, w: Tid)
    requires w in s.threads && w != s.running && s.threads[w].status == Blocked
    requires s.running in s.threads && s.threads[s.running].status == Running
    ensures OneReadied(s, ReleasedState(mlfqs, WokenState(idle, s, Lock(l), w), l), w)
  {
    var m := WokenState(idle, s, Lock(l), w);
    WokenReadied(idle, s, Lock(l), w);
    ReleasedKeeps(mlfqs, m, l);
    StillReadied(s, m, w, ReleasedState(mlfqs, m, l));
  }

  lemma ReleasedByMeaning(idle: Tid, mlfqs: bool, s: Snapshot, l: nat, w: Tid, t: Snapshot)
    requires s.running in s.threads && s.threads[s.running].status == Running && ReleasedBy(idle, mlfqs, s, l, w, t)
    requires w != idle && w != s.running && s.threads[w].status == Blocked
    ensures Preemption(idle, mlfqs, s, t)
  {
    ReleasedReadied(idle, mlfqs, s, l, w);
    PreemptedMeaning(idle, mlfqs, s, ReleasedState(mlfqs, WokenState(idle, s, Lock(l), w), l), w, t);
  }

  lemma ReleasedMeaning(idle: Tid, mlfqs: bool, s: Snapshot, l: nat, t: Snapshot)
    requires SnapshotOk(idle, s) && ReleasedTo(idle, mlfqs, s, l, t)
    ensures Preemption(idle, mlfqs, s, t)
  {
    if Q(s.queues, LockWaiters(l)) == [] {
      ReleasedKeeps(mlfqs, s, l);
      NoneReadied(idle, mlfqs, s, t);
    } else {
      var w :| ReleasedBy(idle, mlfqs, s, l, w, t);
      WaiterBlocked(idle, s, Lock(l), w);
      ReleasedByMeaning(idle, mlfqs, s, l, w, t);
    }
  }

  lemma SpawnedMeaning(idle: Tid, mlfqs: bool, s: Snapshot, u: Tid, p: nat, t: Snapshot)
    requires SnapshotOk(idle, s) && u !in s.threads && Spawned(idle, mlfqs, s, u, p, t)
    ensures Preemption(idle, mlfqs, s, t)
  {
    PreemptedMeaning(idle, mlfqs, s, EnteredState(s, u, p), u, t);
  }

  predicate ServedAt(idle: Tid, mlfqs: bool, s: Snapshot, t: Snapshot, w: Tid)
    requires t.running in t.threads
  {
    BecameReady(s, t, w) && w != idle && !mlfqs && s.running != idle ==>
      t.running == w || t.threads[w].current <= t.threads[t.running].current
  }

  /** No thread that became ready has a higher priority than the one that runs, outside mlfqs
      and idle. */
  ghost predicate ReadyServed(idle: Tid, mlfqs: bool, s: Snapshot, t: Snapshot) {
    t.running in t.threads && forall w: Tid :: ServedAt(idle, mlfqs, s, t, w)
  }

  lemma TopServed(idle: Tid, mlfqs: bool, s: Snapshot, t: Snapshot)
    requires OnlyRunning(t.threads, t.running) && Top(idle, t.threads, t.running)
    ensures ReadyServed(idle, mlfqs, s, t)
  {
    forall w: Tid ensures ServedAt(idle, mlfqs, s, t, w) {
      assert TopAt(idle, t.threads, t.running, w) && RunsAt(t.threads, t.running, w);
    }
  }

  ghost predicate SameStatuses(s: Snapshot, t: Snapshot) {
    && s.running in t.threads && t.running == s.running
    && forall u | u in t.threads :: u in s.threads && t.threads[u].status == s.threads[u].status
  }

  lemma SameServed(idle: Tid, mlfqs: bool, s: Snapshot, t: Snapshot)
    requires SameStatuses(s, t)
    ensures ReadyServed(idle, mlfqs, s, t)
  {
  }

  lemma PreemptionServed(idle: Tid, mlfqs: bool, s: Snapshot, t: Snapshot)
    requires Preemption(idle, mlfqs, s, t)
    ensures ReadyServed(idle, mlfqs, s, t)
  {
    forall w: Tid ensures ServedAt(idle, mlfqs, s, t, w) {
      assert PreemptionAt(idle, mlfqs, s, t, w);
    }
  }

  lemma TickedServed(idle: Tid, mlfqs: bool, s: Snapshot, tick: int, t: Snapshot)
    requires s.running in s.threads && Ticked(idle, s, tick, t) && !Tripped(idle, mlfqs, s, tick)
    ensures ReadyServed(idle, mlfqs, s, t)
  {
    AwokenUnits(idle, s, DuePrefix(s.threads, Q(s.queues, SleepList), tick));
    forall w: Tid ensures ServedAt(idle, mlfqs, s, t, w) {
      if BecameReady(s, t, w) {
        assert t.threads[w] == AfterTick(s.threads[w], w == idle, tick);
        assert !Outranks(idle, mlfqs, s.threads, s.running, w);
      }
    }
  }

  lemma OutsideServed(idle: Tid, mlfqs: bool, s: Snapshot, step: Step, t: Snapshot)
    requires s.running in s.threads && SnapshotOk(idle, t) && Outside(idle, s, step, t)
    requires step.Tick? ==> !Tripped(idle, mlfqs, s, step.tick)
    ensures ReadyServed(idle, mlfqs, s, t)
  {
    if step.Tick? {
      TickedServed(idle, mlfqs, s, step.tick, t);
    } else if step.Recomputed? {
      SameServed(idle, mlfqs, s, t);
    } else {
      TopServed(idle, mlfqs, s, t);
    }
  }

  lemma DownedServed(idle: Tid, mlfqs: bool, s: Snapshot, k: nat, t: Snapshot)
    requires SnapshotOk(idle, s) && SnapshotOk(idle, t) && k in s.values && Downed(idle, s, k, t)
    ensures ReadyServed(idle, mlfqs, s, t)
  {
    if s.values[k] > 0 {
      SameServed(idle, mlfqs, s, t);
    } else {
      TopServed(idle, mlfqs, s, t);
    }
  }

  lemma AcquiredServed(idle: Tid, mlfqs: bool, s: Snapshot, l: nat, t: Snapshot)
    requires SnapshotOk(idle, s) && SnapshotOk(idle, t) && Acquired(idle, mlfqs, s, l, t)
    ensures ReadyServed(idle, mlfqs, s, t)
  {
    if l !in s.holder {
      SameServed(idle, mlfqs, s, t);
    } else {
      TopServed(idle, mlfqs, s, t);
    }
  }

  lemma RetriedServed(idle: Tid, mlfqs: bool, s: Snapshot, t: Snapshot)
    requires SnapshotOk(idle, s) && SnapshotOk(idle, t) && Retried(idle, mlfqs, s, t)
    ensures ReadyServed(idle, mlfqs, s, t)
  {
    match s.threads[s.running].want {
      case Sema(k) =>
        if k in s.values {
          DownedServed(idle, mlfqs, s, k, t);
        } else {
          SameServed(idle, mlfqs, s, t);
        }
      case Lock(l) =>
        if l in s.holder && s.holder[l] == s.running {
          SameServed(idle, mlfqs, s, t);
        } else {
          AcquiredServed(idle, mlfqs, s, l, t);
        }
      case _ =>
        SameServed(idle, mlfqs, s, t);
    }
  }

  lemma SemaServed(idle: Tid, mlfqs: bool, s: Snapshot, step: Step, t: Snapshot)
    requires SnapshotOk(idle, s) && SnapshotOk(idle, t) && OnSema(step) && Operated(idle, mlfqs, s, step, t)
    ensures ReadyServed(idle, mlfqs, s, t) && (step.Up? ==> Preemption(idle, mlfqs, s, t))
  {
    if step.sema !in s.values || step.TryDown? {
      SameServed(idle, mlfqs, s, t);
      NoneReadied(idle, mlfqs, s, t);
    } else if step.Down? {
      DownedServed(idle, mlfqs, s, step.sema, t);
    } else {
      UppedMeaning(idle, mlfqs, s, step.sema, t);
      PreemptionServed(idle, mlfqs, s, t);
    }
  }

  lemma LockServed(idle: Tid, mlfqs: bool, s: Snapshot, step: Step, t: Snapshot)
    requires SnapshotOk(idle, s) && SnapshotOk(idle, t) && OnLock(step) && Operated(idle, mlfqs, s, step, t)
    ensures ReadyServed(idle, mlfqs, s, t) && (step.Release? ==> Preemption(idle, mlfqs, s, t))
  {
    var mine := step.lock in s.holder && s.holder[step.lock] == s.running;
    if step.Acquire? && !mine {
      AcquiredServed(idle, mlfqs, s, step.lock, t);
    } else if step.Release? && mine {
      ReleasedMeaning(idle, mlfqs, s, step.lock, t);
      PreemptionServed(idle, mlfqs, s, t);
    } else {
      SameServed(idle, mlfqs, s, t);
      NoneReadied(idle, mlfqs, s, t);
    }
  }

  lemma RequeuedServed(idle: Tid, mlfqs: bool, s: Snapshot, step: Step, t: Snapshot)
    requires SnapshotOk(idle, s) && SnapshotOk(idle, t) && Requeued(idle, mlfqs, s, step, t)
    ensures ReadyServed(idle, mlfqs, s, t) && (step.Spawn? ==> Preemption(idle, mlfqs, s, t))
  {
    if step.Spawn? && step.tid !in s.threads && step.priority <= PRI_MAX {
      SpawnedMeaning(idle, mlfqs, s, step.tid, step.priority, t);
      PreemptionServed(idle, mlfqs, s, t);
    } else if t.running == s.running && !step.Pause? && !step.SleepFor? && !step.Finish? && !step.NewPriority? {
      SameServed(idle, mlfqs, s, t);
      NoneReadied(idle, mlfqs, s, t);
    } else if step.NewPriority?
              && (step.priority > PRI_MAX || mlfqs || s.threads[s.running].current != s.threads[s.running].base) {
      SameServed(idle, mlfqs, s, t);
    } else if step.Finish? && s.threads[s.running].owned != [] {
      SameServed(idle, mlfqs, s, t);
    } else {
      TopServed(idle, mlfqs, s, t);
    }
  }

  /** The step is an up, a release or a creation, by a thread that is in no retry loop. */
  predicate Readies(idle: Tid, s: Snapshot, step: Step)
    requires s.running in s.threads
  {
    s.running != idle && !Waiting(s) && (step.Up? || step.Release? || step.Spawn?)
  }

  /** Every step leaves the processor with a thread of at least the priority of those that
      became ready; an up, a release and a creation change the running thread exactly for one
      of higher priority. */
  lemma MovesServed(idle: Tid, mlfqs: bool, s: Snapshot, step: Step, t: Snapshot)
    requires SnapshotOk(idle, s) && SnapshotOk(idle, t) && Moves(idle, mlfqs, s, step, t)
    requires step.Tick? ==> !Tripped(idle, mlfqs, s, step.tick)
    ensures ReadyServed(idle, mlfqs, s, t) && (Readies(idle, s, step) ==> Preemption(idle, mlfqs, s, t))
  {
    if step.Tick? || step.Recomputed? || s.running == idle {
      OutsideServed(idle, mlfqs, s, step, t);
    } else if Waiting(s) {
      RetriedServed(idle, mlfqs, s, t);
    } else if OnSema(step) {
      SemaServed(idle, mlfqs, s, step, t);
    } else if OnLock(step) {
      LockServed(idle, mlfqs, s, step, t);
    } else {
      RequeuedServed(idle, mlfqs, s, step, t);
    }
  }

  // ---------------------------------------------------------------------------
  // Who changes whose priority
  // ---------------------------------------------------------------------------

  predicate SamePriority(s: Snapshot, t: Snapshot, u: Tid) {
    u in s.threads && u in t.threads ==>
      t.threads[u].base == s.threads[u].base && t.threads[u].current == s.threads[u].current
  }

  /** The running thread sets its own priority. */
  predicate SetsOwn(idle: Tid, mlfqs: bool, s: Snapshot, step: Step)
    requires s.running in s.threads
  {
    step.NewPriority? && step.priority <= PRI_MAX && s.running != idle && !Waiting(s) && !mlfqs
  }

  /** The priority of thread u is computed anew. */
  predicate Recomputes(idle: Tid, step: Step, u: Tid) {
    step.Recomputed? && step.tid == u && u != idle && step.priority <= PRI_MAX
  }

  /** The running thread finds lock l held by another thread. */
  predicate Contends(idle: Tid, s: Snapshot, step: Step, l: nat)
    requires s.running in s.threads
  {
    && !step.Tick? && !step.Recomputed? && s.running != idle && l in s.holder && s.holder[l] != s.running
    && if Waiting(s) then s.threads[s.running].want == Lock(l) else step == Acquire(l)
  }

  /** The running thread gives lock l back. */
  predicate GivesUp(idle: Tid, s: Snapshot, step: Step, l: nat)
    requires s.running in s.threads
  {
    step == Release(l) && s.running != idle && !Waiting(s) && l in s.holder && s.holder[l] == s.running
  }

  /** p is the base priority, or the highest priority donated for a lock other than l that u
      holds. */
  ghost predicate Remaining(s: Snapshot, u: Tid, l: nat, p: nat)
    requires u in s.threads
  {
    && s.threads[u].base <= p
    && (forall k | k in s.holder && s.holder[k] == u && k != l :: BountyOf(s.bounty, k) <= p)
    && (p == s.threads[u].base || exists k :: k in s.holder && s.holder[k] == u && k != l && BountyOf(s.bounty, k) == p)
  }

  ghost predicate DonationLaw(idle: Tid, mlfqs: bool, s: Snapshot, step: Step, t: Snapshot, u: Tid, l: nat)
    requires s.running in s.threads && u in s.threads && u in t.threads
  {
    var a, b := s.threads[u], t.threads[u];
    && (Contends(idle, s, step, l) ==>
          b.current == if !mlfqs && s.holder[l] == u && a.current < s.threads[s.running].current
                       then s.threads[s.running].current else a.current)
    && (GivesUp(idle, s, step, l) ==>
          if !mlfqs && u == s.running && a.current == BountyOf(s.bounty, l) then Remaining(s, u, l, b.current)
          else b.current == a.current)
  }

  /** What a step makes of the priorities of thread u: it may set its own, have it computed
      anew, be raised to that of a thread it keeps waiting for a lock, and fall back when it
      gives up the lock for which it was raised; nothing else changes them. */
  ghost predicate PriorityLaw(idle: Tid, mlfqs: bool, s: Snapshot, step: Step, t: Snapshot, u: Tid)
    requires s.running in s.threads
  {
    u in s.threads && u in t.threads ==>
      var a, b := s.threads[u], t.threads[u];
      if SetsOwn(idle, mlfqs, s, step) && u == s.running then
        b.base == step.priority && b.current == if a.current == a.base then step.priority else a.current
      else if Recomputes(idle, step, u) then b.base == b.current == step.priority
      else
        && b.base == a.base
        && (forall l :: DonationLaw(idle, mlfqs, s, step, t, u, l))
        && (b.current != a.current ==> exists l :: Contends(idle, s, step, l) || GivesUp(idle, s, step, l))
  }

  lemma SameLaw(idle: Tid, mlfqs: bool, s: Snapshot, step: Step, t: Snapshot, u: Tid)
    requires s.running in s.threads && SamePriority(s, t, u)
    requires !SetsOwn(idle, mlfqs, s, step) && !Recomputes(idle, step, u)
    requires forall l :: !Contends(idle, s, step, l) && !GivesUp(idle, s, step, l)
    ensures PriorityLaw(idle, mlfqs, s, step, t, u)
  {
  }

  lemma SwitchedPriority(idle: Tid, s: Snapshot, th: Thread, t: Snapshot, u: Tid)
    requires SwitchedTo(idle, s, th, t) && u in s.threads
    ensures u in t.threads
    ensures t.threads[u].base == if u == s.running then th.base else s.threads[u].base
    ensures t.threads[u].current == if u == s.running then th.current else s.threads[u].current
  {
  }

  lemma PreemptedPriority(idle: Tid, mlfqs: bool, s: Snapshot, w: Tid, t: Snapshot, u: Tid)
    requires Preempted(idle, mlfqs, s, w, t) && u in s.threads
    ensures u in t.threads && SamePriority(s, t, u)
  {
    if Outranks(idle, mlfqs, s.threads, s.running, w) {
      SwitchedPriority(idle, s, s.threads[s.running].(status := Ready), t, u);
    }
  }

  lemma OutsideLaw(idle: Tid, mlfqs: bool, s: Snapshot, step: Step, t: Snapshot, u: Tid)
    requires s.running in s.threads && Outside(idle, s, step, t)
    requires step.Tick? || step.Recomputed? || s.running == idle
    ensures PriorityLaw(idle, mlfqs, s, step, t, u)
  {
    if u in s.threads && u in t.threads && !Recomputes(idle, step, u) {
      if step.Tick? {
        assert t.threads[u] == AfterTick(s.threads[u], u == idle, step.tick);
      } else if !step.Recomputed? {
        SwitchedPriority(idle, s, s.threads[s.running].(status := Blocked), t, u);
      }
      SameLaw(idle, mlfqs, s, step, t, u);
    }
  }

  lemma DownedPriority(idle: Tid, s: Snapshot, k: nat, t: Snapshot, u: Tid)
    requires s.running in s.threads && k in s.values && Downed(idle, s, k, t)
    ensures SamePriority(s, t, u)
  {
    if s.values[k] == 0 && u in s.threads {
      SwitchedPriority(idle, s, s.threads[s.running].(status := Blocked, want := Sema(k)), t, u);
    }
  }

  lemma DonatedPriority(idle: Tid, mlfqs: bool, s: Snapshot, l: nat, u: Tid)
    requires s.running in s.threads && l in s.holder && s.holder[l] in s.threads && u in s.threads
    ensures var m := DonatedState(idle, mlfqs, s, l);
            && m.running == s.running && u in m.threads && m.threads[u].base == s.threads[u].base
            && m.threads[u].current
               == if !mlfqs && s.holder[l] == u && s.threads[u].current < s.threads[s.running].current
                  then s.threads[s.running].current else s.threads[u].current
  {
  }

  lemma AcquiredPriority(idle: Tid, mlfqs: bool, s: Snapshot, l: nat, t: Snapshot, u: Tid)
    requires s.running in s.threads && Acquired(idle, mlfqs, s, l, t) && u in s.threads && u in t.threads
    requires l in s.holder ==> s.holder[l] != s.running
    ensures t.threads[u].base == s.threads[u].base
    ensures t.threads[u].current
            == if l in s.holder && !mlfqs && s.holder[l] == u && s.threads[u].current < s.threads[s.running].current
               then s.threads[s.running].current else s.threads[u].current
  {
    if l in s.holder {
      DonatedPriority(idle, mlfqs, s, l, u);
      SwitchedPriority(idle, DonatedState(idle, mlfqs, s, l),
                       s.threads[s.running].(status := Blocked, want := Lock(l)), t, u);
    }
  }

  lemma ContendValues(idle: Tid, mlfqs: bool, s: Snapshot, step: Step, t: Snapshot, u: Tid, l: nat)
    requires s.running in s.threads && u in s.threads && u in t.threads && s.running != idle
    requires !step.Tick? && !step.Recomputed? && t.threads[u].base == s.threads[u].base
    requires t.threads[u].current
             == if l in s.holder && !mlfqs && s.holder[l] == u && s.threads[u].current < s.threads[s.running].current
                then s.threads[s.running].current else s.threads[u].current
    requires if Waiting(s) then s.threads[s.running].want == Lock(l) else step == Acquire(l)
    requires l in s.holder ==> s.holder[l] != s.running
    ensures PriorityLaw(idle, mlfqs, s, step, t, u)
  {
    forall k ensures DonationLaw(idle, mlfqs, s, step, t, u, k) {
      assert Contends(idle, s, step, k) ==> k == l;
    }
    assert t.threads[u].current != s.threads[u].current ==> Contends(idle, s, step, l);
  }

  lemma ContendLaw(idle: Tid, mlfqs: bool, s: Snapshot, step: Step, t: Snapshot, u: Tid, l: nat)
    requires s.running in s.threads && u in s.threads && u in t.threads && s.running != idle
    requires !step.Tick? && !step.Recomputed? && Acquired(idle, mlfqs, s, l, t)
    requires if Waiting(s) then s.threads[s.running].want == Lock(l) else step == Acquire(l)
    requires l in s.holder ==> s.holder[l] != s.running
    ensures PriorityLaw(idle, mlfqs, s, step, t, u)
  {
    AcquiredPriority(idle, mlfqs, s, l, t, u);
    ContendValues(idle, mlfqs, s, step, t, u, l);
  }

  lemma RetriedLaw(idle: Tid, mlfqs: bool, s: Snapshot, step: Step, t: Snapshot, u: Tid)
    requires s.running in s.threads && Waiting(s) && s.running != idle && !step.Tick? && !step.Recomputed?
    requires Retried(idle, mlfqs, s, t)
    ensures PriorityLaw(idle, mlfqs, s, step, t, u)
  {
    if u in s.threads && u in t.threads {
      var want := s.threads[s.running].want;
      if want.Lock? && !(want.lock in s.holder && s.holder[want.lock] == s.running) {
        ContendLaw(idle, mlfqs, s, step, t, u, want.lock);
      } else {
        if want.Sema? && want.sema in s.values {
          DownedPriority(idle, s, want.sema, t, u);
        }
        SameLaw(idle, mlfqs, s, step, t, u);
      }
    }
  }

  lemma WokenPriority(idle: Tid, s: Snapshot, want: Want, w: Tid, u: Tid)
    requires WaitQueue(want).Some? && w in s.threads && u in s.threads
    ensures u in WokenState(idle, s, want, w).threads && SamePriority(s, WokenState(idle, s, want, w), u)
  {
  }

  lemma UppedPriority(idle: Tid, mlfqs: bool, s: Snapshot, k: nat, t: Snapshot, u: Tid)
    requires k in s.values && Upped(idle, mlfqs, s, k, t) && u in s.threads
    ensures SamePriority(s, t, u)
  {
    if Q(s.queues, SemaWaiters(k)) != [] {
      var w :| WokenBy(idle, mlfqs, WithUnit(s, k), Sema(k), w, t);
      WokenPriority(idle, WithUnit(s, k), Sema(k), w, u);
      PreemptedPriority(idle, mlfqs, WokenState(idle, WithUnit(s, k), Sema(k), w), w, t, u);
    }
  }

  lemma SemaPriority(idle: Tid, mlfqs: bool, s: Snapshot, step: Step, t: Snapshot, u: Tid)
    requires s.running in s.threads && OnSema(step) && step.sema in s.values && Operated(idle, mlfqs, s, step, t)
    requires u in s.threads
    ensures SamePriority(s, t, u)
  {
    if step.Down? {
      DownedPriority(idle, s, step.sema, t, u);
    } else if step.Up? {
      UppedPriority(idle, mlfqs, s, step.sema, t, u);
    }
  }

  lemma SemaLaw(idle: Tid, mlfqs: bool, s: Snapshot, step: Step, t: Snapshot, u: Tid)
    requires s.running in s.threads && !Waiting(s) && OnSema(step) && Operated(idle, mlfqs, s, step, t)
    ensures PriorityLaw(idle, mlfqs, s, step, t, u)
  {
    if u in s.threads && u in t.threads {
      if step.sema in s.values {
        SemaPriority(idle, mlfqs, s, step, t, u);
      }
      SameLaw(idle, mlfqs, s, step, t, u);
    }
  }

  /** The priority that a thread falls back to. */
  lemma DemotedRemaining(s: Snapshot, l: nat)
    requires s.running in s.threads && LocksOk(s.threads, s.holder)
    ensures var th := s.threads[s.running];
            Remaining(s, s.running, l, Demoted(th.base, Without(th.owned, l), s.bounty))
  {
    var u := s.running;
    var owned, rest := s.threads[u].owned, Without(s.threads[u].owned, l);
    assert OwnedOnce(s.threads, u);
    WithoutMembers(owned, l);
    forall k ensures k in rest <==> k in s.holder && s.holder[k] == u && k != l {
      assert OwnedAt(s.threads, s.holder, u, k);
    }
  }

  /** What a release makes of the priorities of thread u. */
  ghost predicate ReleasePriority(mlfqs: bool, s: Snapshot, l: nat, u: Tid, b: Thread)
    requires s.running in s.threads && u in s.threads
  {
    && b.base == s.threads[u].base
    && if !mlfqs && u == s.running && s.threads[u].current == BountyOf(s.bounty, l) then Remaining(s, u, l, b.current)
       else b.current == s.threads[u].current
  }

  lemma ReleasedStatePriority(mlfqs: bool, s: Snapshot, l: nat, u: Tid)
    requires s.running in s.threads && LocksOk(s.threads, s.holder) && u in s.threads
    ensures u in ReleasedState(mlfqs, s, l).threads
    ensures ReleasePriority(mlfqs, s, l, u, ReleasedState(mlfqs, s, l).threads[u])
  {
    DemotedRemaining(s, l);
  }

  lemma ReleasedByPriority(idle: Tid, mlfqs: bool, s: Snapshot, l: nat, w: Tid, t: Snapshot, u: Tid)
    requires s.running in s.threads && LocksOk(s.threads, s.holder) && ReleasedBy(idle, mlfqs, s, l, w, t)
    requires u in s.threads && w != s.running
    ensures u in t.threads && ReleasePriority(mlfqs, s, l, u, t.threads[u])
  {
    var m := WokenState(idle, s, Lock(l), w);
    var n := ReleasedState(mlfqs, m, l);
    assert m.threads[s.running] == s.threads[s.running] && m.holder == s.holder && m.bounty == s.bounty;
    DemotedRemaining(s, l);
    WokenPriority(idle, s, Lock(l), w, u);
    PreemptedPriority(idle, mlfqs, n, w, t, u);
  }

  lemma GiveUpLaw(idle: Tid, mlfqs: bool, s: Snapshot, step: Step, t: Snapshot, u: Tid, l: nat)
    requires s.running in s.threads && u in s.threads && u in t.threads && GivesUp(idle, s, step, l)
    requires ReleasePriority(mlfqs, s, l, u, t.threads[u])
    ensures PriorityLaw(idle, mlfqs, s, step, t, u)
  {
    forall k ensures DonationLaw(idle, mlfqs, s, step, t, u, k) {
      assert GivesUp(idle, s, step, k) ==> k == l;
    }
  }

  lemma ReleaseLaw(idle: Tid, mlfqs: bool, s: Snapshot, step: Step, t: Snapshot, u: Tid)
    requires SnapshotOk(idle, s) && !Waiting(s) && s.running != idle && step.Release?
    requires step.lock in s.holder && s.holder[step.lock] == s.running && Operated(idle, mlfqs, s, step, t)
    requires u in s.threads && u in t.threads
    ensures PriorityLaw(idle, mlfqs, s, step, t, u)
  {
    var l := step.lock;
    if Q(s.queues, LockWaiters(l)) == [] {
      ReleasedStatePriority(mlfqs, s, l, u);
    } else {
      var w :| ReleasedBy(idle, mlfqs, s, l, w, t);
      WaiterBlocked(idle, s, Lock(l), w);
      ReleasedByPriority(idle, mlfqs, s, l, w, t, u);
    }
    GiveUpLaw(idle, mlfqs, s, step, t, u, l);
  }

  lemma LockLaw(idle: Tid, mlfqs: bool, s: Snapshot, step: Step, t: Snapshot, u: Tid)
    requires SnapshotOk(idle, s) && !Waiting(s) && s.running != idle && OnLock(step)
    requires Operated(idle, mlfqs, s, step, t)
    ensures PriorityLaw(idle, mlfqs, s, step, t, u)
  {
    if u in s.threads && u in t.threads {
      var l := step.lock;
      var mine := l in s.holder && s.holder[l] == s.running;
      if step.Acquire? && !mine {
        ContendLaw(idle, mlfqs, s, step, t, u, l);
      } else if step.Release? && mine {
        ReleaseLaw(idle, mlfqs, s, step, t, u);
      } else {
        SameLaw(idle, mlfqs, s, step, t, u);
      }
    }
  }

  /** thread_set_priority, in priorities: the new one is the base priority and, unless a
      donated one is in force, the current one; then the best thread runs. */
  ghost predicate OwnPrioritySet(idle: Tid, s: Snapshot, p: nat, t: Snapshot)
    requires s.running in s.threads
  {
    var a := s.threads[s.running];
    && s.running in t.threads && t.threads.Keys == s.threads.Keys
    && t.threads[s.running].base == p && t.threads[s.running].current == (if a.current == a.base then p else a.current)
    && (forall u: Tid | u != s.running :: SamePriority(s, t, u))
    && if a.current == a.base then Top(idle, t.threads, t.running) else t.running == s.running
  }

  lemma SwitchedSelf(idle: Tid, s: Snapshot, th: Thread, t: Snapshot)
    requires SwitchedTo(idle, s, th, t) && s.running in s.threads
    ensures t.threads.Keys == s.threads.Keys && Top(idle, t.threads, t.running)
    ensures t.threads[s.running].base == th.base && t.threads[s.running].current == th.current
  {
    SwitchedPriority(idle, s, th, t, s.running);
  }

  lemma OthersKept(idle: Tid, mlfqs: bool, s: Snapshot, p: nat, t: Snapshot, u: Tid)
    requires s.running in s.threads && !mlfqs && PrioritySet(idle, mlfqs, s, p, t) && u != s.running
    ensures SamePriority(s, t, u)
  {
    var th := s.threads[s.running];
    if th.current == th.base && u in s.threads {
      SwitchedPriority(idle, Restated(s, th.(base := p, current := p)),
                       th.(base := p, current := p, status := Ready), t, u);
    }
  }

  lemma PrioritySetMeaning(idle: Tid, mlfqs: bool, s: Snapshot, p: nat, t: Snapshot)
    requires s.running in s.threads && !mlfqs && PrioritySet(idle, mlfqs, s, p, t)
    ensures OwnPrioritySet(idle, s, p, t)
  {
    var th := s.threads[s.running];
    if th.current == th.base {
      var m, ready := Restated(s, th.(base := p, current := p)), th.(base := p, current := p, status := Ready);
      assert t.threads.Keys == s.threads.Keys && Top(idle, t.threads, t.running)
             && t.threads[s.running].base == t.threads[s.running].current == p by {
        SwitchedSelf(idle, m, ready, t);
      }
    }
    forall u: Tid | u != s.running ensures SamePriority(s, t, u) {
      OthersKept(idle, mlfqs, s, p, t, u);
    }
  }

  lemma RequeuedPriority(idle: Tid, mlfqs: bool, s: Snapshot, step: Step, t: Snapshot, u: Tid)
    requires s.running in s.threads && Requeued(idle, mlfqs, s, step, t) && u in s.threads && u in t.threads
    requires !step.NewPriority?
    ensures SamePriority(s, t, u)
  {
    match step {
      case Pause => SwitchedPriority(idle, s, s.threads[s.running].(status := Ready), t, u);
      case Spawn(v, p) =>
        if v !in s.threads && p <= PRI_MAX {
          PreemptedPriority(idle, mlfqs, EnteredState(s, v, p), v, t, u);
        }
      case _ =>
    }
  }

  lemma RequeuedLaw(idle: Tid, mlfqs: bool, s: Snapshot, step: Step, t: Snapshot, u: Tid)
    requires s.running in s.threads && !Waiting(s) && s.running != idle && !OnSema(step) && !OnLock(step)
    requires !step.Tick? && !step.Recomputed? && Requeued(idle, mlfqs, s, step, t)
    ensures PriorityLaw(idle, mlfqs, s, step, t, u)
  {
    if u in s.threads && u in t.threads {
      if SetsOwn(idle, mlfqs, s, step) {
        PrioritySetMeaning(idle, mlfqs, s, step.priority, t);
        assert u != s.running ==> SamePriority(s, t, u);
      } else {
        if !step.NewPriority? {
          RequeuedPriority(idle, mlfqs, s, step, t, u);
        }
        SameLaw(idle, mlfqs, s, step, t, u);
      }
    }
  }

  /** Every step obeys the law for every thread. */
  lemma MovesLaw(idle: Tid, mlfqs: bool, s: Snapshot, step: Step, t: Snapshot, u: Tid)
    requires SnapshotOk(idle, s) && Moves(idle, mlfqs, s, step, t)
    ensures PriorityLaw(idle, mlfqs, s, step, t, u)
  {
    if step.Tick? || step.Recomputed? || s.running == idle {
      OutsideLaw(idle, mlfqs, s, step, t, u);
    } else if Waiting(s) {
      RetriedLaw(idle, mlfqs, s, step, t, u);
    } else if OnSema(step) {
      SemaLaw(idle, mlfqs, s, step, t, u);
    } else if OnLock(step) {
      LockLaw(idle, mlfqs, s, step, t, u);
    } else {
      RequeuedLaw(idle, mlfqs, s, step, t, u);
    }
  }

  /** The priority donated for lock l: that of a thread that waits for it and outranks its
      holder; none once the lock is given up. */
  ghost predicate BountyLaw(idle: Tid, mlfqs: bool, s: Snapshot, step: Step, t: Snapshot, l: nat)
    requires s.running in s.threads
  {
    BountyOf(t.bounty, l)
    == if Contends(idle, s, step, l) && !mlfqs && s.holder[l] in s.threads
          && s.threads[s.holder[l]].current < s.threads[s.running].current
       then s.threads[s.running].current
       else if GivesUp(idle, s, step, l) then 0 else BountyOf(s.bounty, l)
  }

  lemma SwitchedBounty(idle: Tid, s: Snapshot, th: Thread, t: Snapshot)
    requires SwitchedTo(idle, s, th, t)
    ensures t.bounty == s.bounty
  {
  }

  lemma PreemptedBounty(idle: Tid, mlfqs: bool, s: Snapshot, w: Tid, t: Snapshot)
    requires Preempted(idle, mlfqs, s, w, t)
    ensures t.bounty == s.bounty
  {
    if Outranks(idle, mlfqs, s.threads, s.running, w) {
      SwitchedBounty(idle, s, s.threads[s.running].(status := Ready), t);
    }
  }

  lemma {:induction false} AwokenBounty(idle: Tid, s: Snapshot, list: seq<Tid>)
    ensures AwokenAll(idle, s, list).bounty == s.bounty
    decreases |list|
  {
    if list != [] && list[0] in s.threads {
      AwokenBounty(idle, AwokenState(idle, s, list[0]), list[1..]);
    }
  }

  lemma OutsideBounty(idle: Tid, s: Snapshot, step: Step, t: Snapshot)
    requires s.running in s.threads && Outside(idle, s, step, t)
    ensures t.bounty == s.bounty
  {
    if step.Tick? {
      AwokenBounty(idle, s, DuePrefix(s.threads, Q(s.queues, SleepList), step.tick));
    } else if !step.Recomputed? {
      SwitchedBounty(idle, s, s.threads[s.running].(status := Blocked), t);
    }
  }

  lemma DownedBounty(idle: Tid, s: Snapshot, k: nat, t: Snapshot)
    requires s.running in s.threads && k in s.values && Downed(idle, s, k, t)
    ensures t.bounty == s.bounty
  {
    if s.values[k] == 0 {
      SwitchedBounty(idle, s, s.threads[s.running].(status := Blocked, want := Sema(k)), t);
    }
  }

  lemma AcquiredBounty(idle: Tid, mlfqs: bool, s: Snapshot, l: nat, t: Snapshot)
    requires s.running in s.threads && Acquired(idle, mlfqs, s, l, t)
    ensures t.bounty
            == if l in s.holder && !mlfqs && s.holder[l] in s.threads
                  && s.threads[s.holder[l]].current < s.threads[s.running].current
               then s.bounty[l := s.threads[s.running].current] else s.bounty
  {
    if l in s.holder {
      SwitchedBounty(idle, DonatedState(idle, mlfqs, s, l),
                     s.threads[s.running].(status := Blocked, want := Lock(l)), t);
    }
  }

  lemma ReleasedByBounty(idle: Tid, mlfqs: bool, s: Snapshot, l: nat, w: Tid, t: Snapshot)
    requires s.running in s.threads && ReleasedBy(idle, mlfqs, s, l, w, t)
    ensures t.bounty == s.bounty[l := 0]
  {
    var m := WokenState(idle, s, Lock(l), w);
    assert m.bounty == s.bounty;
    PreemptedBounty(idle, mlfqs, ReleasedState(mlfqs, m, l), w, t);
  }

  lemma ReleasedBounty(idle: Tid, mlfqs: bool, s: Snapshot, l: nat, t: Snapshot)
    requires s.running in s.threads && ReleasedTo(idle, mlfqs, s, l, t)
    ensures t.bounty == s.bounty[l := 0]
  {
    if Q(s.queues, LockWaiters(l)) != [] {
      var w :| ReleasedBy(idle, mlfqs, s, l, w, t);
      ReleasedByBounty(idle, mlfqs, s, l, w, t);
    }
  }

  lemma ContendBounty(idle: Tid, mlfqs: bool, s: Snapshot, step: Step, t: Snapshot, k: nat, l: nat)
    requires s.running in s.threads && s.running != idle && !step.Tick? && !step.Recomputed?
    requires if Waiting(s) then s.threads[s.running].want == Lock(k) else step == Acquire(k)
    requires k in s.holder ==> s.holder[k] != s.running
    requires t.bounty
             == if k in s.holder && !mlfqs && s.holder[k] in s.threads
                   && s.threads[s.holder[k]].current < s.threads[s.running].current
                then s.bounty[k := s.threads[s.running].current] else s.bounty
    ensures BountyLaw(idle, mlfqs, s, step, t, l)
  {
  }

  lemma UppedBounty(idle: Tid, mlfqs: bool, s: Snapshot, k: nat, t: Snapshot)
    requires k in s.values && Upped(idle, mlfqs, s, k, t)
    ensures t.bounty == s.bounty
  {
    if Q(s.queues, SemaWaiters(k)) != [] {
      var w :| WokenBy(idle, mlfqs, WithUnit(s, k), Sema(k), w, t);
      PreemptedBounty(idle, mlfqs, WokenState(idle, WithUnit(s, k), Sema(k), w), w, t);
    }
  }

  lemma RequeuedBounty(idle: Tid, mlfqs: bool, s: Snapshot, step: Step, t: Snapshot)
    requires s.running in s.threads && Requeued(idle, mlfqs, s, step, t)
    ensures t.bounty == s.bounty
  {
    var th := s.threads[s.running];
    match step {
      case Pause => SwitchedBounty(idle, s, th.(status := Ready), t);
      case NewPriority(p) =>
        if p <= PRI_MAX && !mlfqs && th.current == th.base {
          SwitchedBounty(idle, Restated(s, th.(base := p, current := p)),
                         th.(base := p, current := p, status := Ready), t);
        }
      case Spawn(v, p) =>
        if v !in s.threads && p <= PRI_MAX {
          PreemptedBounty(idle, mlfqs, EnteredState(s, v, p), v, t);
        }
      case _ =>
    }
  }

  lemma WaitedBounty(idle: Tid, mlfqs: bool, s: Snapshot, step: Step, t: Snapshot, l: nat)
    requires s.running in s.threads && Waiting(s) && s.running != idle && !step.Tick? && !step.Recomputed?
    requires Retried(idle, mlfqs, s, t)
    ensures BountyLaw(idle, mlfqs, s, step, t, l)
  {
    var want := s.threads[s.running].want;
    if want.Lock? && !(want.lock in s.holder && s.holder[want.lock] == s.running) {
      AcquiredBounty(idle, mlfqs, s, want.lock, t);
      ContendBounty(idle, mlfqs, s, step, t, want.lock, l);
    } else {
      assert t.bounty == s.bounty by {
        if want.Sema? && want.sema in s.values {
          DownedBounty(idle, s, want.sema, t);
        }
      }
      assert !Contends(idle, s, step, l) && !GivesUp(idle, s, step, l);
    }
  }

  lemma SemaBounty(idle: Tid, mlfqs: bool, s: Snapshot, step: Step, t: Snapshot)
    requires s.running in s.threads && OnSema(step) && Operated(idle, mlfqs, s, step, t)
    ensures t.bounty == s.bounty
  {
    if step.sema in s.values && step.Down? {
      DownedBounty(idle, s, step.sema, t);
    } else if step.sema in s.values && step.Up? {
      UppedBounty(idle, mlfqs, s, step.sema, t);
    }
  }

  lemma LockBounty(idle: Tid, mlfqs: bool, s: Snapshot, step: Step, t: Snapshot, l: nat)
    requires s.running in s.threads && !Waiting(s) && s.running != idle && OnLock(step)
    requires Operated(idle, mlfqs, s, step, t)
    ensures BountyLaw(idle, mlfqs, s, step, t, l)
  {
    var mine := step.lock in s.holder && s.holder[step.lock] == s.running;
    if step.Acquire? && !mine {
      AcquiredBounty(idle, mlfqs, s, step.lock, t);
      ContendBounty(idle, mlfqs, s, step, t, step.lock, l);
    } else if step.Release? && mine {
      ReleasedBounty(idle, mlfqs, s, step.lock, t);
    } else {
      assert t.bounty == s.bounty && !Contends(idle, s, step, l) && !GivesUp(idle, s, step, l);
    }
  }

  lemma MovesBounty(idle: Tid, mlfqs: bool, s: Snapshot, step: Step, t: Snapshot, l: nat)
    requires s.running in s.threads && Moves(idle, mlfqs, s, step, t)
    ensures BountyLaw(idle, mlfqs, s, step, t, l)
  {
    if step.Tick? || step.Recomputed? || s.running == idle {
      OutsideBounty(idle, s, step, t);
    } else if Waiting(s) {
      WaitedBounty(idle, mlfqs, s, step, t, l);
    } else if OnSema(step) {
      SemaBounty(idle, mlfqs, s, step, t);
    } else if OnLock(step) {
      LockBounty(idle, mlfqs, s, step, t, l);
    } else {
      RequeuedBounty(idle, mlfqs, s, step, t);
    }
  }

  /** A tick wakes exactly the sleepers whose time has come, and changes nothing else about
      any thread. */
  predicate TickLaw(idle: Tid, s: Snapshot, tick: int, t: Snapshot, u: Tid) {
    u in s.threads ==>
      var a := s.threads[u];
      u in t.threads
      && t.threads[u] == if u != idle && a.status == Blocked && a.want == Wakeup && a.wakeup <= tick
                         then a.(status := Ready, want := Nothing) else a
  }

  lemma TickedLaw(idle: Tid, s: Snapshot, tick: int, t: Snapshot, u: Tid)
    requires Ticked(idle, s, tick, t)
    ensures TickLaw(idle, s, tick, t, u)
  {
    assert u in s.threads ==> t.threads[u] == AfterTick(s.threads[u], u == idle, tick);
  }

  /** A thread that sleeps is blocked until its time. */
  predicate SleepLaw(s: Snapshot, wakeup: int, t: Snapshot) {
    s.running in t.threads && s.running != t.running && t.threads[s.running].status == Blocked
    && t.threads[s.running].want == Wakeup && t.threads[s.running].wakeup == wakeup
  }

  lemma SleptLaw(idle: Tid, s: Snapshot, wakeup: int, t: Snapshot)
    requires s.running in s.threads && s.running != idle && Slept(idle, s, wakeup, t) && SnapshotOk(idle, s)
    ensures SleepLaw(s, wakeup, t)
  {
    forall p: nat ensures s.running !in Q(s.queues, ReadyList(p)) {
      assert PlacedAt(s.threads, s.queues, idle, s.running, ReadyList(p));
    }
  }

  /** A step seen from outside: who may run now, whose priority changed and how, which
      priorities are donated, and who sleeps and wakes. */
  ghost predicate StepLaws(idle: Tid, mlfqs: bool, s: Snapshot, step: Step, t: Snapshot)
    requires s.running in s.threads
  {
    && ReadyServed(idle, mlfqs, s, t) && (Readies(idle, s, step) ==> Preemption(idle, mlfqs, s, t))
    && (forall u: Tid :: PriorityLaw(idle, mlfqs, s, step, t, u))
    && (forall l: nat :: BountyLaw(idle, mlfqs, s, step, t, l))
    && (step.Tick? ==> forall u: Tid :: TickLaw(idle, s, step.tick, t, u))
    && (step.SleepFor? && s.running != idle && !Waiting(s) ==> SleepLaw(s, step.wakeup, t))
  }

  lemma MovesLaws(idle: Tid, mlfqs: bool, s: Snapshot, step: Step, t: Snapshot)
    requires SnapshotOk(idle, s) && SnapshotOk(idle, t) && Moves(idle, mlfqs, s, step, t)
    requires step.Tick? ==> !Tripped(idle, mlfqs, s, step.tick)
    ensures StepLaws(idle, mlfqs, s, step, t)
  {
    MovesServed(idle, mlfqs, s, step, t);
    forall u: Tid ensures PriorityLaw(idle, mlfqs, s, step, t, u) {
      MovesLaw(idle, mlfqs, s, step, t, u);
    }
    forall l: nat ensures BountyLaw(idle, mlfqs, s, step, t, l) {
      MovesBounty(idle, mlfqs, s, step, t, l);
    }
    if step.Tick? {
      forall u: Tid ensures TickLaw(idle, s, step.tick, t, u) {
        TickedLaw(idle, s, step.tick, t, u);
      }
    } else if step.SleepFor? && s.running != idle && !Waiting(s) {
      SleptLaw(idle, s, step.wakeup, t);
    }
  }

  // ---------------------------------------------------------------------------
  // Runs
  // ---------------------------------------------------------------------------

  function Count(effects: seq<Effect>, e: Effect): nat {
    if effects == [] then 0
    else Count(effects[..|effects| - 1], e) + if effects[|effects| - 1] == e then 1 else 0
  }

  function Held(holder: map<nat, Tid>, l: nat): nat {
    if l in holder then 1 else 0
  }

  /** Step i of the run. */
  ghost predicate StepAt(idle: Tid, mlfqs: bool, steps: seq<Step>, effects: seq<Effect>, trace: seq<Snapshot>, i: nat)
    requires i < |effects| <= |steps| && i + 1 < |trace|
  {
    && trace[i].running in trace[i].threads && Moves(idle, mlfqs, trace[i], steps[i], trace[i + 1])
    && effects[i] == EffectIn(idle, trace[i], steps[i])
  }

  /** Each state of the trace keeps the invariants and follows from the one before by its
      step, with the effect listed. */
  ghost predicate IsRun(idle: Tid, mlfqs: bool, steps: seq<Step>, effects: seq<Effect>, trace: seq<Snapshot>) {
    && |effects| <= |steps| && |trace| == |effects| + 1
    && (forall i | 0 <= i < |trace| :: SnapshotOk(idle, trace[i]))
    && forall i | 0 <= i < |effects| :: StepAt(idle, mlfqs, steps, effects, trace, i)
  }

  lemma RunMore(idle: Tid, mlfqs: bool, steps: seq<Step>, effects: seq<Effect>, trace: seq<Snapshot>, t: Snapshot)
    requires IsRun(idle, mlfqs, steps, effects, trace) && |effects| < |steps| && SnapshotOk(idle, t)
    requires var s := trace[|effects|]; s.running in s.threads && Moves(idle, mlfqs, s, steps[|effects|], t)
    ensures var e := EffectIn(idle, trace[|effects|], steps[|effects|]);
            IsRun(idle, mlfqs, steps, effects + [e], trace + [t])
  {
    var n := |effects|;
    var more, all := trace + [t], effects + [EffectIn(idle, trace[n], steps[n])];
    forall i | 0 <= i < |all| ensures StepAt(idle, mlfqs, steps, all, more, i) {
      if i < n {
        assert StepAt(idle, mlfqs, steps, effects, trace, i);
      }
    }
    forall i | 0 <= i < |more| ensures SnapshotOk(idle, more[i]) {
      if i <= n {
        assert SnapshotOk(idle, trace[i]);
      }
    }
  }

  lemma CountMore(effects: seq<Effect>, last: Effect, e: Effect)
    ensures Count(effects + [last], e) == Count(effects, e) + if last == e then 1 else 0
  {
    assert (effects + [last])[..|effects|] == effects;
  }

  /** One more effect on one semaphore and one lock. */
  lemma AccountOne(values: map<nat, nat>, holder: map<nat, Tid>, effects: seq<Effect>, e: Effect, cur: Tid, k: nat)
    requires e.Took? ==> e.sema in values && values[e.sema] > 0
    requires e.Locked? ==> e.lock !in holder
    requires e.Unlocked? ==> e.lock in holder
    ensures k in values ==>
              Applied(values, e)[k] + Count(effects, Posted(k)) + Count(effects + [e], Took(k))
              == values[k] + Count(effects + [e], Posted(k)) + Count(effects, Took(k))
    ensures Held(HolderAfter(holder, e, cur), k) + Count(effects, Locked(k)) + Count(effects + [e], Unlocked(k))
            == Held(holder, k) + Count(effects + [e], Locked(k)) + Count(effects, Unlocked(k))
  {
    CountMore(effects, e, Posted(k));
    CountMore(effects, e, Took(k));
    CountMore(effects, e, Locked(k));
    CountMore(effects, e, Unlocked(k));
  }

  ghost predicate BalancedAt(s: Snapshot, t: Snapshot, effects: seq<Effect>, k: nat) {
    && (k in s.values <==> k in t.values)
    && (k in s.values ==> t.values[k] == s.values[k] + Count(effects, Posted(k)) - Count(effects, Took(k)))
    && Held(t.holder, k) == Held(s.holder, k) + Count(effects, Locked(k)) - Count(effects, Unlocked(k))
  }

  /** Each semaphore's value is its initial value plus the ups minus the completed downs, and
      acquisitions and releases of each lock balance. */
  ghost predicate Balanced(s: Snapshot, t: Snapshot, effects: seq<Effect>) {
    forall k: nat :: BalancedAt(s, t, effects, k)
  }

  lemma BalanceStep(idle: Tid, s: Snapshot, m: Snapshot, effects: seq<Effect>, step: Step, t: Snapshot)
    requires Balanced(s, m, effects) && m.running in m.threads
    requires t.values == Applied(m.values, EffectIn(idle, m, step))
    requires t.holder == HolderAfter(m.holder, EffectIn(idle, m, step), m.running)
    ensures Balanced(s, t, effects + [EffectIn(idle, m, step)])
  {
    var e := EffectIn(idle, m, step);
    var all := effects + [e];
    forall k: nat ensures BalancedAt(s, t, all, k) {
      assert BalancedAt(s, m, effects, k);
      AccountOne(m.values, m.holder, effects, e, m.running, k);
    }
  }

  /** Every run balances, from its start to any of its states. */
  lemma {:induction false} RunBalanced(idle: Tid, mlfqs: bool, steps: seq<Step>, effects: seq<Effect>,
                                       trace: seq<Snapshot>, n: nat)
    requires IsRun(idle, mlfqs, steps, effects, trace) && n < |trace|
    ensures Balanced(trace[0], trace[n], effects[..n])
  {
    if n > 0 {
      RunBalanced(idle, mlfqs, steps, effects, trace, n - 1);
      assert StepAt(idle, mlfqs, steps, effects, trace, n - 1);
      MovesEffect(idle, mlfqs, trace[n - 1], steps[n - 1], trace[n]);
      BalanceStep(idle, trace[0], trace[n - 1], effects[..n - 1], steps[n - 1], trace[n]);
      assert effects[..n] == effects[..n - 1] + [effects[n - 1]];
    }
  }

  /** Whenever the running thread changes, no ready thread outranks the new one. */
  lemma RunDispatch(idle: Tid, mlfqs: bool, steps: seq<Step>, effects: seq<Effect>, trace: seq<Snapshot>, n: nat)
    requires IsRun(idle, mlfqs, steps, effects, trace) && n + 1 < |trace|
    ensures trace[n + 1].running != trace[n].running ==> Top(idle, trace[n + 1].threads, trace[n + 1].running)
  {
    assert StepAt(idle, mlfqs, steps, effects, trace, n);
    MovesDispatch(idle, mlfqs, trace[n], steps[n], trace[n + 1]);
  }

  ghost predicate LawsAt(idle: Tid, mlfqs: bool, steps: seq<Step>, trace: seq<Snapshot>, i: nat)
    requires i < |steps| && i + 1 < |trace|
  {
    trace[i].running in trace[i].threads && StepLaws(idle, mlfqs, trace[i], steps[i], trace[i + 1])
  }

  /** Every step of a run obeys the laws. */
  lemma RunLaws(idle: Tid, mlfqs: bool, steps: seq<Step>, effects: seq<Effect>, trace: seq<Snapshot>, n: nat)
    requires IsRun(idle, mlfqs, steps, effects, trace) && n < |effects|
    requires steps[n].Tick? ==> !Tripped(idle, mlfqs, trace[n], steps[n].tick)
    ensures LawsAt(idle, mlfqs, steps, trace, n)
  {
    assert StepAt(idle, mlfqs, steps, effects, trace, n);
    MovesLaws(idle, mlfqs, trace[n], steps[n], trace[n + 1]);
  }

  lemma AllLaws(idle: Tid, mlfqs: bool, steps: seq<Step>, effects: seq<Effect>, trace: seq<Snapshot>)
    requires IsRun(idle, mlfqs, steps, effects, trace)
    requires forall i | 0 <= i < |effects| && steps[i].Tick? :: !Tripped(idle, mlfqs, trace[i], steps[i].tick)
    ensures forall i | 0 <= i < |effects| :: LawsAt(idle, mlfqs, steps, trace, i)
  {
    forall i | 0 <= i < |effects| ensures LawsAt(idle, mlfqs, steps, trace, i) {
      RunLaws(idle, mlfqs, steps, effects, trace, i);
    }
  }

  class Kernel {
    const idle: Tid
    const mlfqs: bool
    var threads: Threads
    var queues: Queues
    var running: Tid
    var values: map<nat, nat>
    var holder: map<nat, Tid>
    var bounty: map<nat, nat>
    ghost var stamps: Stamps
    ghost var now: nat

    ghost predicate Queued()
      reads this
    {
      WellQueued(threads, queues, idle, stamps, now)
    }

    ghost predicate Synchronized()
      reads this
    {
      && NoLostWakeups(threads, queues, values, holder)
      && LocksOk(threads, holder)
      && (forall l | l in bounty :: bounty[l] <= PRI_MAX)
    }

    ghost predicate Valid()
      reads this
    {
      Queued() && Synchronized() && OnlyRunning(threads, running) && SaneAt(threads, idle, running)
    }

    ghost function Snap(): Snapshot
      reads this
    {
      Snapshot(threads, queues, stamps, now, running, values, holder, bounty)
    }

    /** After thread_start: the initial thread runs, the idle thread has blocked itself. */
    constructor (idle: Tid, first: Tid, mlfqs: bool, values: map<nat, nat>)
      requires idle != first
      ensures Valid() && running == first && this.idle == idle && this.mlfqs == mlfqs && this.values == values
      ensures forall t :: t in threads <==> t == idle || t == first
    {
      this.idle, this.mlfqs, this.values := idle, mlfqs, values;
      threads := map[idle := Thread(Blocked, PRI_MIN, PRI_MIN, Nothing, [], 0),
                     first := Thread(Running, PRI_DEFAULT, PRI_DEFAULT, Nothing, [], 0)];
      queues, holder, bounty, running := map[], map[], map[], first;
      stamps, now := map[], 0;
    }

    /** Installs queues whose invariant is already established. */
    method CommitQueues(threads': Threads, queues': Queues, ghost stamps': Stamps, ghost now': nat)
      requires WellQueued(threads', queues', idle, stamps', now')
      modifies this`threads, this`queues, this`stamps, this`now
      ensures Queued() && threads == threads' && queues == queues' && stamps == stamps' && now == now'
    {
      threads, queues, stamps, now := threads', queues', stamps', now';
    }

    /** Installs threads and queues whose invariants are already established. */
    method CommitThreads(threads': Threads, queues': Queues, ghost stamps': Stamps, ghost now': nat)
      requires Valid() && WellQueued(threads', queues', idle, stamps', now') && OnlyRunning(threads', running)
      requires NoLostWakeups(threads', queues', values, holder) && LocksOk(threads', holder)
      modifies this`threads, this`queues, this`stamps, this`now
      ensures Valid() && threads == threads' && queues == queues' && stamps == stamps' && now == now'
    {
      threads, queues, stamps, now := threads', queues', stamps', now';
    }

    /** Installs semaphore values that lose no wake-up. */
    method CommitValues(values': map<nat, nat>)
      requires Valid() && NoLostWakeups(threads, queues, values', holder)
      modifies this`values
      ensures Valid() && values == values'
    {
      values := values';
    }

    /** list_remove from the queue the thread is on, then list_push_back onto the queue
        of its new state. */
    method Become(t: Tid, th: Thread)
      requires t in threads && Queued()
      requires th.base <= PRI_MAX && th.current <= PRI_MAX
      requires t != idle && th.status == Blocked ==> th.want != Nothing
      requires t == idle ==> th.want == Nothing && th.owned == []
      requires th.status == Blocked ==> th.want != Wakeup
      modifies this`threads, this`queues, this`stamps, this`now
      ensures Queued()
      ensures threads == old(threads)[t := th]
      ensures queues == Moved(old(threads), old(queues), idle, t, th)
      ensures stamps == old(stamps)[t := old(now)] && now == old(now) + 1
    {
      OneSane(threads, idle, t, th);
      MovedPlaced(threads, queues, idle, t, th);
      MovedFifo(threads, queues, idle, t, th, stamps, now);
      MovedByWakeup(threads, queues, idle, t, th);
      var rest := Unlinked(queues, Home(threads[t], t == idle), t);
      var home := Home(th, t == idle);
      var queues' := Linked(rest, home, if home.Some? then |Q(rest, home.value)| else 0, t);
      assert queues' == Moved(threads, queues, idle, t, th);
      CommitQueues(threads[t := th], queues', stamps[t := now], now + 1);
    }

    /** next_thread_to_run without the final pop. */
    method NextThread() returns (t: Tid)
      requires Queued()
      ensures IsNext(queues, stamps, idle, t)
      ensures t in threads && (t == idle || threads[t].status == Ready)
    {
      var p := PRI_MAX as int;
      while p >= 0 && Q(queues, ReadyList(p)) == []
        invariant -1 <= p <= PRI_MAX
        invariant forall r | p < r <= PRI_MAX :: Q(queues, ReadyList(r)) == []
      {
        p := p - 1;
      }
      t := idle;
      if p >= 0 {
        var q := Q(queues, ReadyList(p));
        t := q[0];
        assert PlacedAt(threads, queues, idle, t, ReadyList(p)) && FifoAt(queues, stamps, now, p);
        assert forall u | u in q :: StampOf(stamps, t) <= StampOf(stamps, u);
      }
    }

    /** schedule: the running thread has already changed state. */
    method Schedule()
      requires Queued() && Synchronized() && NoneRunning(threads)
      modifies this`threads, this`queues, this`stamps, this`now, this`running
      ensures Valid()
      ensures IsNext(old(queues), old(stamps), idle, running)
      ensures running in old(threads) && threads == old(threads)[running := old(threads)[running].(status := Running)]
      ensures queues == Moved(old(threads), old(queues), idle, running, threads[running])
      ensures running == idle || old(threads)[running].status == Ready
      ensures Dispatched(idle, old(Snap()), Snap())
    {
      running := NextThread();
      var th := threads[running].(status := Running);
      NextIsTop(threads, queues, idle, stamps, running);
      assert SaneAt(threads, idle, running);
      OneRuns(threads, running, running, th);
      MovedWakeups(threads, queues, values, holder, idle, running, th, values, holder, Nothing);
      LocksUnchanged(threads, holder, running, th);
      Become(running, th);
    }

    /** The running thread changes to a state in which it no longer runs. */
    method Suspend(th: Thread, ghost w0: Want)
      requires Valid() && th.status != Running && th.owned == threads[running].owned
      requires th.base <= PRI_MAX && th.current <= PRI_MAX
      requires running != idle && th.status == Blocked ==> th.want != Nothing && th.want == w0
      requires running == idle ==> th.want == Nothing
      requires th.status == Blocked ==> th.want != Wakeup
      requires threads[running].want != Nothing && threads[running].want != w0 ==>
                 th.status == Ready && th.want == threads[running].want
      requires w0.Sema? ==> w0.sema in values && values[w0.sema] == 0
      requires w0.Lock? ==> w0.lock in holder
      modifies this`threads, this`queues, this`stamps, this`now, this`running
      ensures Valid() && SwitchedTo(idle, old(Snap()), th, Snap())
    {
      MovedWakeups(threads, queues, values, holder, idle, running, th, values, holder, w0);
      LocksUnchanged(threads, holder, running, th);
      OneRuns(threads, running, running, th);
      Become(running, th);
      assert Snap() == MovedState(idle, old(Snap()), old(running), th);
      Schedule();
    }

    /** thread_yield */
    method Yield()
      requires Valid()
      modifies this`threads, this`queues, this`stamps, this`now, this`running
      ensures Valid() && SwitchedTo(idle, old(Snap()), old(threads[running].(status := Ready)), Snap())
    {
      Suspend(threads[running].(status := Ready), Nothing);
    }

    /** list_push_back on a wait list and thread_block: only when the semaphore is zero
        or the lock is held. */
    method BlockOn(w: Want)
      requires Valid() && running != idle && (threads[running].want == Nothing || threads[running].want == w)
      requires match w
               case Sema(s) => s in values && values[s] == 0
               case Lock(l) => l in holder
               case _ => false
      modifies this`threads, this`queues, this`stamps, this`now, this`running
      ensures Valid() && SwitchedTo(idle, old(Snap()), old(threads[running].(status := Blocked, want := w)), Snap())
    {
      Suspend(threads[running].(status := Blocked, want := w), w);
    }

    /** The running thread leaves its retry loop, or changes priority or owned locks. */
    method Continue(th: Thread, values': map<nat, nat>, holder': map<nat, Tid>, ghost w0: Want)
      requires Valid() && th.status == Running && th.base <= PRI_MAX && th.current <= PRI_MAX && th.want == Nothing
      requires running == idle ==> th.owned == []
      requires threads[running].want == Nothing || threads[running].want == w0
      requires forall s | s in values' && Sema(s) != w0 :: s in values && values'[s] <= values[s]
      requires forall l | l in holder && Lock(l) != w0 :: l in holder'
      requires w0.Sema? ==> SemaOk(threads[running := th], queues, values', w0.sema)
      requires w0.Lock? ==> LockOk(threads[running := th], queues, holder', w0.lock)
      requires LocksOk(threads[running := th], holder')
      modifies this`threads, this`queues, this`stamps, this`now, this`values, this`holder
      ensures Valid()
      ensures threads == old(threads)[running := th] && queues == old(queues) && values == values' && holder == holder'
      ensures stamps == old(stamps)[running := old(now)] && now == old(now) + 1
    {
      assert Moved(threads, queues, idle, running, th) == queues;
      OneRuns(threads, running, running, th);
      MovedWakeups(threads, queues, values, holder, idle, running, th, values', holder', w0);
      Become(running, th);
      values, holder := values', holder';
    }

    /** The running thread leaves sema_down's loop with a unit. */
    method TakeDown(s: nat)
      requires Valid() && running != idle && s in values && values[s] > 0
      requires threads[running].want == Nothing || threads[running].want == Sema(s)
      modifies this`threads, this`queues, this`stamps, this`now, this`values, this`holder
      ensures Valid()
      ensures Snap() == Restated(old(Snap()).(values := old(values)[s := old(values)[s] - 1]),
                                 old(threads)[running].(want := Nothing))
    {
      var th := threads[running].(want := Nothing);
      TakeUnit(threads, queues, values, running, th, s);
      LocksUnchanged(threads, holder, running, th);
      Continue(th, values[s := values[s] - 1], holder, Sema(s));
    }

    /** One test of sema_down's loop condition: take a unit or wait. */
    method SemaDown(s: nat) returns (done: bool)
      requires Valid() && running != idle && s in values
      requires threads[running].want == Nothing || threads[running].want == Sema(s)
      modifies this`threads, this`queues, this`stamps, this`now, this`values, this`holder, this`running
      ensures Valid() && (done <==> old(values)[s] > 0) && Downed(idle, old(Snap()), s, Snap())
    {
      done := values[s] > 0;
      if done {
        TakeDown(s);
      } else {
        BlockOn(Sema(s));
      }
    }

    /** sema_try_down */
    method SemaTryDown(s: nat) returns (done: bool)
      requires Valid() && s in values && threads[running].want == Nothing
      modifies this`values
      ensures Valid() && (done <==> old(values)[s] > 0) && TriedDown(old(Snap()), s, Snap())
    {
      done := values[s] > 0;
      if done {
        WakeupsKept(threads, queues, values, holder, threads, queues, values[s := values[s] - 1], holder, Nothing);
        CommitValues(values[s := values[s] - 1]);
      }
    }

    /** list_sort of a wait list by priority. */
    method SortWaiters(q: Queue)
      requires Valid() && (q.SemaWaiters? || q.LockWaiters?) && Q(queues, q) != []
      modifies this`queues
      ensures Valid() && queues == old(queues)[q := StableSort(Q(old(queues), q), PriorityGreat(threads))]
      ensures Q(queues, q) != [] && IsBestWaiter(threads, Q(old(queues), q), Q(queues, q)[0])
    {
      ghost var queues0 := queues;
      FrontIsBest(threads, Q(queues, q));
      var r := StableSort(Q(queues, q), PriorityGreat(threads));
      SortedPlaced(threads, queues, idle, q, r);
      queues := queues[q := r];
      WakeupsKept(threads, queues0, values, holder, threads, queues, values, holder, Nothing);
      SameReadyLists(queues0, queues, stamps, now);
    }

    /** Another thread is taken off its queue and appended to a ready list. */
    method MakeReady(t: Tid, th: Thread)
      requires Valid() && t in threads && t != running && t != idle
      requires th.status == Ready && th.owned == threads[t].owned && th.base <= PRI_MAX && th.current <= PRI_MAX
      requires threads[t].status != Blocked && threads[t].want != Nothing ==> th.want == threads[t].want
      modifies this`threads, this`queues, this`stamps, this`now
      ensures Valid()
      ensures threads == old(threads)[t := th] && queues == Moved(old(threads), old(queues), idle, t, th)
      ensures stamps == old(stamps)[t := old(now)] && now == old(now) + 1
    {
      MovedWakeups(threads, queues, values, holder, idle, t, th, values, holder, Nothing);
      LocksUnchanged(threads, holder, t, th);
      assert RunsAt(threads, running, t);
      OneRuns(threads, running, t, th);
      Become(t, th);
    }

    /** A waiter is taken off the wait list and made ready: by the end of a wait or,
        when its priority changes, before it. */
    method Wake(t: Tid, w: Want)
      requires Valid() && (w.Sema? || w.Lock?) && t in Q(queues, WaitQueue(w).value)
      modifies this`threads, this`queues, this`stamps, this`now
      ensures Valid() && t in old(threads) && t != running && t != idle
      ensures threads == old(threads)[t := old(threads)[t].(status := Ready)]
      ensures queues == Moved(old(threads), old(queues), idle, t, threads[t])
      ensures stamps == old(stamps)[t := old(now)] && now == old(now) + 1
      ensures t in Readied(threads, w) && |Readied(threads, w)| == |old(Readied(threads, w))| + 1
    {
      WaiterWaits(threads, queues, idle, w, t);
      assert RunsAt(threads, running, t) && SaneAt(threads, idle, t);
      var th := threads[t].(status := Ready);
      WokenCounts(threads, queues, values, t, th, w);
      MakeReady(t, th);
    }

    /** The wake-up in sema_up and lock_release: list_sort, list_pop_front and the
        queueing half of thread_unblock. */
    method WakeBest(w: Want) returns (t: Tid)
      requires Valid() && (w.Sema? || w.Lock?) && Q(queues, WaitQueue(w).value) != []
      modifies this`threads, this`queues, this`stamps, this`now
      ensures Valid() && t in old(threads) && t != running && t != idle
      ensures IsBestWaiter(old(threads), Q(old(queues), WaitQueue(w).value), t)
      ensures Snap() == WokenState(idle, old(Snap()), w, t)
      ensures t in Readied(threads, w)
      ensures w.Sema? && w.sema in values ==> values[w.sema] + 1 <= |Readied(threads, w)|
    {
      if w.Sema? {
        assert SemaOk(threads, queues, values, w.sema);
      }
      SortWaiters(WaitQueue(w).value);
      t := Q(queues, WaitQueue(w).value)[0];
      Wake(t, w);
    }

    /** The preemption test at the end of thread_unblock. */
    method Preempt(t: Tid)
      requires Valid() && t in threads
      modifies this`threads, this`queues, this`stamps, this`now, this`running
      ensures Valid() && Preempted(idle, mlfqs, old(Snap()), t, Snap())
      ensures old(threads)[t].status == Ready && t != idle ==>
                && (running != old(running) <==>
                      !mlfqs && old(running) != idle && old(threads)[t].current > old(threads)[old(running)].current)
                && (!mlfqs && old(running) != idle ==> running == t || threads[t].current <= threads[running].current)
    {
      ghost var m := Snap();
      if !mlfqs && threads[t].current > threads[running].current && running != idle {
        Yield();
        SwitchKeeps(idle, m, Snap());
        assert TopAt(idle, threads, running, t) && TopAt(idle, threads, running, m.running);
      }
    }

    /** sema_up without the final preemption test: one more unit and, if anybody waits,
        one waiter woken. */
    method Post(s: nat) returns (woken: Option<Tid>)
      requires Valid() && s in values && threads[running].want == Nothing
      modifies this`threads, this`queues, this`stamps, this`now, this`values
      ensures Valid() && (woken.Some? <==> Q(old(queues), SemaWaiters(s)) != [])
      ensures woken.Some? ==> IsBestWaiter(old(threads), Q(old(queues), SemaWaiters(s)), woken.value)
      ensures woken.Some? ==> woken.value in old(threads)
      ensures Snap() == if woken.Some? then WokenState(idle, WithUnit(old(Snap()), s), Sema(s), woken.value)
                        else WithUnit(old(Snap()), s)
    {
      woken := None;
      if Q(queues, SemaWaiters(s)) != [] {
        var t := WakeBest(Sema(s));
        woken := Some(t);
      }
      UnitAdded(threads, queues, values, holder, s);
      CommitValues(values[s := values[s] + 1]);
    }

    /** sema_up */
    method SemaUp(s: nat) returns (woken: Option<Tid>)
      requires Valid() && s in values && threads[running].want == Nothing
      modifies this`threads, this`queues, this`stamps, this`now, this`values, this`running
      ensures Valid() && Upped(idle, mlfqs, old(Snap()), s, Snap()) && Preemption(idle, mlfqs, old(Snap()), Snap())
      ensures woken.Some? ==> IsBestWaiter(old(threads), Q(old(queues), SemaWaiters(s)), woken.value)
    {
      ghost var s0 := Snap();
      woken := Post(s);
      if woken.Some? {
        Preempt(woken.value);
        assert WokenBy(idle, mlfqs, WithUnit(s0, s), Sema(s), woken.value, Snap());
      }
      UppedMeaning(idle, mlfqs, s0, s, Snap());
    }

    /** thread_promote with thread_on_priority_change: a ready thread changes ready list;
        a blocked one is taken off whatever it waits on and made ready. */
    method Promote(h: Tid)
      requires Valid() && h in threads && SaneAt(threads, idle, h) && h != running && h != idle
      requires threads[h].current < threads[running].current
      modifies this`threads, this`queues, this`stamps, this`now
      ensures Valid()
      ensures threads == old(threads)[h := Promoted(old(threads)[h], old(threads)[running].current)]
      ensures queues == Moved(old(threads), old(queues), idle, h, threads[h])
      ensures stamps == old(stamps)[h := old(now)] && now == old(now) + 1
    {
      assert RunsAt(threads, running, h);
      MakeReady(h, Promoted(threads[h], threads[running].current));
    }

    /** Priority donation in lock_acquire. */
    method Donate(l: nat)
      requires Valid() && l in holder && HolderAt(threads, holder, l) && holder[l] != running
      modifies this`threads, this`queues, this`stamps, this`now, this`bounty
      ensures Valid() && Snap() == DonatedState(idle, mlfqs, old(Snap()), l)
    {
      var h := holder[l];
      assert HolderAt(threads, holder, l) && OwnedAt(threads, holder, h, l) && SaneAt(threads, idle, h);
      if !mlfqs && threads[h].current < threads[running].current {
        bounty := bounty[l := threads[running].current];
        Promote(h);
      }
    }

    /** The last lines of lock_acquire and lock_try_acquire. */
    method TakeLock(l: nat)
      requires Valid() && running != idle && l !in holder
      requires threads[running].want == Nothing || threads[running].want == Lock(l)
      modifies this`threads, this`queues, this`stamps, this`now, this`values, this`holder
      ensures Valid() && Snap() == TakenState(old(Snap()), l)
    {
      var th := threads[running].(want := Nothing, owned := threads[running].owned + [l]);
      GrantLock(threads, holder, running, th, l);
      Continue(th, values, holder[l := running], Lock(l));
    }

    /** One test of lock_acquire's loop condition: take the free lock, or donate
        priority to its holder and wait. */
    method LockAcquire(l: nat) returns (done: bool)
      requires Valid() && running != idle && (threads[running].want == Nothing || threads[running].want == Lock(l))
      requires l in holder ==> holder[l] != running
      modifies this`threads, this`queues, this`stamps, this`now, this`values, this`holder, this`bounty, this`running
      ensures Valid() && (done <==> l !in old(holder)) && Acquired(idle, mlfqs, old(Snap()), l, Snap())
    {
      done := l !in holder;
      if done {
        TakeLock(l);
      } else {
        assert HolderAt(threads, holder, l);
        Donate(l);
        BlockOn(Lock(l));
      }
    }

    /** lock_try_acquire */
    method LockTryAcquire(l: nat) returns (done: bool)
      requires Valid() && running != idle && threads[running].want == Nothing
      requires l in holder ==> holder[l] != running
      modifies this`threads, this`queues, this`stamps, this`now, this`values, this`holder
      ensures Valid() && (done <==> l !in old(holder)) && TriedAcquire(old(Snap()), l, Snap())
    {
      done := l !in holder;
      if done {
        TakeLock(l);
      }
    }

    /** The running thread lets go of the lock; if anybody still waits for it, another
        thread has been woken to try it. */
    method DropLock(l: nat)
      requires Valid() && running != idle && l in holder && holder[l] == running && threads[running].want == Nothing
      requires Q(queues, LockWaiters(l)) != [] ==> Readied(threads, Lock(l)) != {}
      modifies this`threads, this`queues, this`stamps, this`now, this`values, this`holder, this`bounty
      ensures Valid() && Snap() == ReleasedState(mlfqs, old(Snap()), l)
    {
      var th := Released(threads[running], mlfqs, bounty, l);
      RevokeLock(threads, holder, running, th, l);
      ReleasedRange(threads[running], mlfqs, bounty, l);
      ReadiedUpdate(threads, running, th, Lock(l));
      assert running !in Readied(threads, Lock(l));
      Continue(th, values, holder - {l}, Lock(l));
      bounty := bounty[l := 0];
    }

    /** lock_release without the final preemption test. */
    method GiveBack(l: nat) returns (woken: Option<Tid>)
      requires Valid() && running != idle && l in holder && holder[l] == running && threads[running].want == Nothing
      modifies this`threads, this`queues, this`stamps, this`now, this`values, this`holder, this`bounty
      ensures Valid() && (woken.Some? <==> Q(old(queues), LockWaiters(l)) != [])
      ensures woken.Some? ==> IsBestWaiter(old(threads), Q(old(queues), LockWaiters(l)), woken.value)
      ensures woken.Some? ==> woken.value in old(threads) && woken.value != running
      ensures Snap() == ReleasedState(mlfqs,
                                      if woken.Some? then WokenState(idle, old(Snap()), Lock(l), woken.value)
                                      else old(Snap()), l)
    {
      woken := None;
      if Q(queues, LockWaiters(l)) != [] {
        var t := WakeBest(Lock(l));
        woken := Some(t);
      }
      DropLock(l);
    }

    /** lock_release */
    method LockRelease(l: nat) returns (woken: Option<Tid>)
      requires Valid() && running != idle && l in holder && holder[l] == running && threads[running].want == Nothing
      modifies this`threads, this`queues, this`stamps, this`now, this`values, this`holder, this`bounty, this`running
      ensures Valid() && ReleasedTo(idle, mlfqs, old(Snap()), l, Snap()) && Preemption(idle, mlfqs, old(Snap()), Snap())
      ensures woken.Some? ==> IsBestWaiter(old(threads), Q(old(queues), LockWaiters(l)), woken.value)
    {
      ghost var s := Snap();
      woken := GiveBack(l);
      if woken.Some? {
        Preempt(woken.value);
        assert ReleasedBy(idle, mlfqs, s, l, woken.value, Snap());
      }
      ReleasedMeaning(idle, mlfqs, s, l, Snap());
    }

    method FallAsleep(th: Thread)
      requires Valid() && running != idle && threads[running].want == Nothing
      requires th == threads[running].(status := Blocked, want := Wakeup, wakeup := th.wakeup)
      modifies this`threads, this`queues
      ensures Queued() && Synchronized() && NoneRunning(threads)
      ensures threads == old(threads)[running := th] && queues == Asleep(old(threads), old(queues), running, th)
    {
      ghost var threads0, queues0 := threads, queues;
      AsleepPlaced(threads, queues, idle, running, th);
      AsleepByWakeup(threads, queues, idle, running, th);
      LocksUnchanged(threads, holder, running, th);
      queues := Asleep(threads, queues, running, th);
      threads := threads[running := th];
      SameReadyLists(queues0, queues, stamps, now);
      OneSane(threads0, idle, running, th);
      OneRuns(threads0, running, running, th);
      forall w: Want | w != Wakeup && w != Nothing ensures Readied(threads0, w) <= Readied(threads, w) {
        ReadiedUpdate(threads0, running, th, w);
      }
      WakeupsKept(threads0, queues0, values, holder, threads, queues, values, holder, Wakeup);
    }

    /** thread_sleep and thread_block, as timer_sleep calls them. */
    method SleepUntil(wakeup: int)
      requires Valid() && running != idle && threads[running].want == Nothing
      modifies this`threads, this`queues, this`stamps, this`now, this`running
      ensures Valid() && Slept(idle, old(Snap()), wakeup, Snap()) && SleepLaw(old(Snap()), wakeup, Snap())
    {
      ghost var s := Snap();
      var th := threads[running].(status := Blocked, want := Wakeup, wakeup := wakeup);
      FallAsleep(th);
      Schedule();
      SleptLaw(idle, s, wakeup, Snap());
    }

    method WakeFirstSleeper() returns (t: Tid)
      requires Valid() && Q(queues, SleepList) != []
      modifies this`threads, this`queues, this`stamps, this`now
      ensures Valid() && |Q(queues, SleepList)| < |Q(old(queues), SleepList)|
      ensures t == Q(old(queues), SleepList)[0] && t in old(threads) && t != idle && t != running
      ensures old(threads)[t].status == Blocked && old(threads)[t].want == Wakeup
      ensures Snap() == AwokenState(idle, old(Snap()), t)
    {
      t := Q(queues, SleepList)[0];
      assert PlacedAt(threads, queues, idle, t, SleepList) && RunsAt(threads, running, t) && SaneAt(threads, idle, t);
      MakeReady(t, threads[t].(status := Ready, want := Nothing));
    }

    /** What is left of the tick. */
    ghost function ToWake(tick: int): Snapshot
      reads this
    {
      AwokenAll(idle, Snap(), DuePrefix(threads, Q(queues, SleepList), tick))
    }

    /** One turn of handle_sleeping_threads's loop; s is the state before the first. */
    method WakeNextSleeper(ghost s: Snapshot, tick: int) returns (ok: bool)
      requires Valid() && Waking(idle, mlfqs, s, threads, tick) && running == s.running
      requires Q(queues, SleepList) != [] && WakeupOf(threads, Q(queues, SleepList)[0]) <= tick
      modifies this`threads, this`queues, this`stamps, this`now
      ensures Valid() && |Q(queues, SleepList)| < |Q(old(queues), SleepList)| && ToWake(tick) == old(ToWake(tick))
      ensures if ok then Waking(idle, mlfqs, s, threads, tick) else Tripped(idle, mlfqs, s, tick)
    {
      ghost var m := Snap();
      var t := WakeFirstSleeper();
      AwokenFirst(idle, m, tick);
      WakingMore(idle, mlfqs, s, m.threads, t, tick);
      ok := !(!mlfqs && threads[t].current > threads[running].current && running != idle);
    }

    /** handle_sleeping_threads: wakes exactly the threads whose time has come, unless one
        of them trips the assertion in thread_yield. */
    method WakeSleepers(tick: int) returns (ok: bool)
      requires Valid()
      modifies this`threads, this`queues, this`stamps, this`now
      ensures Valid() && (ok <==> !Tripped(idle, mlfqs, old(Snap()), tick))
      ensures ok ==> Ticked(idle, old(Snap()), tick, Snap())
      ensures ok ==> forall u: Tid :: TickLaw(idle, old(Snap()), tick, Snap(), u)
    {
      ghost var s, goal := Snap(), ToWake(tick);
      while Q(queues, SleepList) != [] && WakeupOf(threads, Q(queues, SleepList)[0]) <= tick
        invariant Valid() && Waking(idle, mlfqs, s, threads, tick) && ToWake(tick) == goal
        decreases |Q(queues, SleepList)|
      {
        ok := WakeNextSleeper(s, tick);
        if !ok {
          return;
        }
      }
      AllWoken(idle, mlfqs, s, threads, queues, tick);
      forall u: Tid ensures TickLaw(idle, s, tick, Snap(), u) {
        TickedLaw(idle, s, tick, Snap(), u);
      }
      return true;
    }

    method SetOwnPriority(base: nat, current: nat)
      requires Valid() && base <= PRI_MAX && current <= PRI_MAX && threads[running].want == Nothing
      modifies this`threads, this`queues, this`stamps, this`now, this`values, this`holder
      ensures Valid() && values == old(values) && holder == old(holder) && queues == old(queues)
      ensures threads == old(threads)[running := old(threads)[running].(base := base, current := current)]
      ensures stamps == old(stamps)[running := old(now)] && now == old(now) + 1
    {
      var th := threads[running].(base := base, current := current);
      LocksUnchanged(threads, holder, running, th);
      Continue(th, values, holder, Nothing);
    }

    /** thread_set_priority: a donated priority stays in force. */
    method SetPriority(p: nat)
      requires Valid() && p <= PRI_MAX && threads[running].want == Nothing
      modifies this`threads, this`queues, this`stamps, this`now, this`values, this`holder, this`running
      ensures Valid() && PrioritySet(idle, mlfqs, old(Snap()), p, Snap())
      ensures if mlfqs then Snap() == old(Snap()) else OwnPrioritySet(idle, old(Snap()), p, Snap())
    {
      ghost var s := Snap();
      if mlfqs {
        return;
      }
      var th := threads[running];
      if th.current == th.base {
        SetOwnPriority(p, p);
        assert Snap() == Restated(old(Snap()), th.(base := p, current := p));
        Yield();
      } else {
        SetOwnPriority(p, th.current);
      }
      PrioritySetMeaning(idle, mlfqs, s, p, Snap());
    }

    /** thread_recompute_priority(t, 0) for a thread whose new priority is p: a ready
        thread changes list, any other only its priority. */
    method Reprioritize(t: Tid, p: nat)
      requires Valid() && t in threads && t != idle && p <= PRI_MAX
      modifies this`threads, this`queues, this`stamps, this`now
      ensures Valid() && Reprioritized(idle, old(Snap()), t, p, Snap())
    {
      var th := threads[t].(base := p, current := p);
      if th.status == Ready {
        assert RunsAt(threads, running, t);
        MakeReady(t, th);
      } else {
        assert SaneAt(threads, idle, t) && RunsAt(threads, running, t);
        OneSane(threads, idle, t, th);
        OneRuns(threads, running, t, th);
        SameHome(threads, queues, idle, t, th);
        SameWant(threads, queues, values, holder, t, th);
        LocksUnchanged(threads, holder, t, th);
        SameWakeups(threads, Q(queues, SleepList), t, th);
        threads := threads[t := th];
      }
    }

    /** The queueing part of thread_create. */
    method Enter(t: Tid, p: nat)
      requires Valid() && t !in threads && p <= PRI_MAX
      modifies this`threads, this`queues, this`stamps, this`now
      ensures Valid() && threads == old(threads)[t := NewThread(p)]
      ensures queues == old(queues)[ReadyList(p) := Q(old(queues), ReadyList(p)) + [t]]
      ensures stamps == old(stamps)[t := old(now)] && now == old(now) + 1
    {
      OneSane(threads, idle, t, NewThread(p));
      EnterRuns(threads, running, t, NewThread(p));
      EnterPlaced(threads, queues, idle, t, p, stamps, now);
      EnterSynchronized(threads, queues, values, holder, t, p);
      CommitThreads(threads[t := NewThread(p)], queues[ReadyList(p) := Q(queues, ReadyList(p)) + [t]],
                    stamps[t := now], now + 1);
    }

    /** thread_create */
    method Create(t: Tid, p: nat)
      requires Valid() && t !in threads && p <= PRI_MAX
      modifies this`threads, this`queues, this`stamps, this`now, this`running
      ensures Valid() && Spawned(idle, mlfqs, old(Snap()), t, p, Snap()) && Preemption(idle, mlfqs, old(Snap()), Snap())
      ensures t in threads && threads[t].base == threads[t].current == p
    {
      ghost var s := Snap();
      Enter(t, p);
      ghost var m := Snap();
      Preempt(t);
      assert t in threads && threads[t].base == threads[t].current == p by {
        PreemptedPriority(idle, mlfqs, m, t, Snap(), t);
      }
      assert Preemption(idle, mlfqs, s, Snap()) by {
        SpawnedMeaning(idle, mlfqs, s, t, p, Snap());
      }
    }

    /** thread_exit of a thread that owns no lock. */
    method Exit()
      requires Valid() && running != idle && threads[running].want == Nothing && threads[running].owned == []
      modifies this`threads, this`queues, this`stamps, this`now, this`running
      ensures Valid() && Exited(idle, old(Snap()), Snap())
    {
      ExitKeeps(threads, queues, values, holder, idle, running);
      ExitSane(threads, idle, running);
      threads := threads - {running};
      Schedule();
    }

    /** thread_block by the idle thread. */
    method IdleBlock()
      requires Valid() && running == idle
      modifies this`threads, this`queues, this`stamps, this`now, this`running
      ensures Valid() && SwitchedTo(idle, old(Snap()), old(threads)[idle].(status := Blocked), Snap())
    {
      Suspend(threads[idle].(status := Blocked), Nothing);
    }

    /** A step that does not come from a thread of its own. */
    method Interrupt(step: Step) returns (ok: bool)
      requires Valid() && (step.Tick? || step.Recomputed? || running == idle)
      modifies this`threads, this`queues, this`stamps, this`now, this`running
      ensures Valid()
      ensures ok <==> !(step.Tick? && Tripped(idle, mlfqs, old(Snap()), step.tick))
      ensures ok ==> Outside(idle, old(Snap()), step, Snap())
    {
      ok := true;
      if step.Tick? {
        ok := WakeSleepers(step.tick);
      } else if step.Recomputed? {
        if step.tid in threads && step.tid != idle && step.priority <= PRI_MAX {
          Reprioritize(step.tid, step.priority);
        }
      } else {
        IdleBlock();
      }
    }

    method Retry()
      requires Valid() && running != idle && threads[running].want != Nothing
      modifies this`threads, this`queues, this`stamps, this`now, this`values, this`holder, this`bounty, this`running
      ensures Valid() && Retried(idle, mlfqs, old(Snap()), Snap())
    {
      var w := threads[running].want;
      if w.Sema? {
        if w.sema in values {
          var done := SemaDown(w.sema);
        }
      } else if w.Lock? {
        if !(w.lock in holder && holder[w.lock] == running) {
          var done := LockAcquire(w.lock);
        }
      }
    }

    method OperateSema(step: Step)
      requires Valid() && running != idle && threads[running].want == Nothing && OnSema(step) && step.sema in values
      modifies this`threads, this`queues, this`stamps, this`now, this`values, this`holder, this`running
      ensures Valid() && Operated(idle, mlfqs, old(Snap()), step, Snap())
    {
      if step.Down? {
        var done := SemaDown(step.sema);
      } else if step.TryDown? {
        var done := SemaTryDown(step.sema);
      } else {
        var woken := SemaUp(step.sema);
      }
    }

    method OperateLock(step: Step)
      requires Valid() && running != idle && threads[running].want == Nothing && OnLock(step)
      modifies this`threads, this`queues, this`stamps, this`now, this`values, this`holder, this`bounty, this`running
      ensures Valid() && Operated(idle, mlfqs, old(Snap()), step, Snap())
    {
      var mine := step.lock in holder && holder[step.lock] == running;
      if step.Acquire? && !mine {
        var done := LockAcquire(step.lock);
      } else if step.TryAcquire? && !mine {
        var done := LockTryAcquire(step.lock);
      } else if step.Release? && mine {
        var woken := LockRelease(step.lock);
      }
    }

    method Operate(step: Step)
      requires Valid() && running != idle && threads[running].want == Nothing && (OnSema(step) || OnLock(step))
      modifies this`threads, this`queues, this`stamps, this`now, this`values, this`holder, this`bounty, this`running
      ensures Valid() && Operated(idle, mlfqs, old(Snap()), step, Snap())
    {
      if OnSema(step) {
        if step.sema in values {
          OperateSema(step);
        }
      } else {
        OperateLock(step);
      }
    }

    method Requeue(step: Step)
      requires Valid() && running != idle && threads[running].want == Nothing
      modifies this`threads, this`queues, this`stamps, this`now, this`values, this`holder, this`running
      ensures Valid() && Requeued(idle, mlfqs, old(Snap()), step, Snap())
    {
      match step {
        case Pause => Yield();
        case NewPriority(p) =>
          if p <= PRI_MAX {
            SetPriority(p);
          }
        case SleepFor(wakeup) => SleepUntil(wakeup);
        case Spawn(t, p) =>
          if t !in threads && p <= PRI_MAX {
            Create(t, p);
          }
        case Finish =>
          if threads[running].owned == [] {
            Exit();
          }
        case _ =>
      }
    }

    /** One step of the running thread, or of the timer, as a change of the whole state. */
    method Advance(step: Step) returns (ok: bool)
      requires Valid()
      modifies this`threads, this`queues, this`stamps, this`now, this`values, this`holder, this`bounty, this`running
      ensures Valid()
      ensures ok <==> !(step.Tick? && Tripped(idle, mlfqs, old(Snap()), step.tick))
      ensures ok ==> Moves(idle, mlfqs, old(Snap()), step, Snap())
    {
      ok := true;
      if step.Tick? || step.Recomputed? || running == idle {
        ok := Interrupt(step);
      } else if threads[running].want != Nothing {
        Retry();
      } else if OnSema(step) || OnLock(step) {
        Operate(step);
      } else {
        Requeue(step);
      }
    }

    /** One step.  The kernel stops (ok is false) exactly when a timer tick trips the
        assertion in thread_yield; else the step obeys the laws. */
    method Perform(step: Step) returns (ok: bool)
      requires Valid()
      modifies this`threads, this`queues, this`stamps, this`now, this`values, this`holder, this`bounty, this`running
      ensures Valid()
      ensures ok <==> !(step.Tick? && Tripped(idle, mlfqs, old(Snap()), step.tick))
      ensures ok ==> Moves(idle, mlfqs, old(Snap()), step, Snap()) && StepLaws(idle, mlfqs, old(Snap()), step, Snap())
    {
      ghost var s := Snap();
      ok := Advance(step);
      ghost var t := Snap();
      if ok {
        assert StepLaws(idle, mlfqs, s, step, t) by {
          MovesLaws(idle, mlfqs, s, step, t);
        }
      }
    }

    /** Any interleaving: `trace` is the state before, between and after the steps done.
        Each state keeps the invariants and follows from the one before by its step; each
        semaphore's value is its initial value plus the ups minus the completed downs, and
        each lock is held exactly when it was acquired once more often than released.  All
        steps are done unless a timer tick trips the assertion in thread_yield. */
    method Run(steps: seq<Step>) returns (n: nat, ghost effects: seq<Effect>, ghost trace: seq<Snapshot>)
      requires Valid()
      modifies this`threads, this`queues, this`stamps, this`now, this`values, this`holder, this`bounty, this`running
      ensures n == |effects| <= |steps| && IsRun(idle, mlfqs, steps, effects, trace) && trace[0] == old(Snap())
      ensures n == |steps| ==> trace[n] == Snap()
      ensures n < |steps| ==> steps[n].Tick? && Tripped(idle, mlfqs, trace[n], steps[n].tick)
      ensures forall i | 0 <= i < n && steps[i].Tick? :: !Tripped(idle, mlfqs, trace[i], steps[i].tick)
      ensures Balanced(trace[0], trace[n], effects)
      ensures forall i | 0 <= i < n :: LawsAt(idle, mlfqs, steps, trace, i)
    {
      n, effects, trace := 0, [], [Snap()];
      while n < |steps|
        invariant n == |effects| <= |steps| && Valid() && IsRun(idle, mlfqs, steps, effects, trace)
        invariant trace[0] == old(Snap()) && trace[n] == Snap()
        invariant forall i | 0 <= i < n && steps[i].Tick? :: !Tripped(idle, mlfqs, trace[i], steps[i].tick)
      {
        var ok := Advance(steps[n]);
        if !ok {
          break;
        }
        RunMore(idle, mlfqs, steps, effects, trace, Snap());
        effects, trace := effects + [EffectIn(idle, trace[n], steps[n])], trace + [Snap()];
        n := n + 1;
      }
      RunBalanced(idle, mlfqs, steps, effects, trace, n);
      assert effects[..n] == effects;
      AllLaws(idle, mlfqs, steps, effects, trace);
    }
  }
}
