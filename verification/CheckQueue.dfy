/**
 The parallel check queue (src/checkqueue.h) as a transition system.

 Thread 0 is the master, every other index a worker. What a thread does while it holds the
 mutex is one step: it enters the lock, cleans up after its last batch, and either takes a
 batch, returns, or goes to sleep on its condition variable. A sleeper may wake without having
 been notified. The state also records, for the master's current round, which checks were
 added and retired and which ones returned true or false.
 */
module CheckQueue {
  import opened Numbers

  type Check = nat

  datatype Thread =
    | Outside
    /** Called Loop, not yet through the lock for the first time. */
    | Entering
    /** Executing `batch` without the lock; the first `done` checks are dealt with. */
    | Working(batch: seq<Check>, done: nat, ok: bool)
    | Asleep(notified: bool)
    /** Holding the mutex; no thread is left in this state between steps. */
    | Locked

  datatype State = State(
    queue: seq<Check>, nIdle: int, nTotal: int, allOk: bool, nTodo: int, quit: bool, batchSize: nat,
    threads: seq<Thread>,
    /** Record of the current round. */
    added: multiset<Check>, retired: multiset<Check>, passed: multiset<Check>, failed: set<Check>)

  datatype Step =
    | Start(t: nat)                                // a thread calls Loop
    | Enter(t: nat)                                // first pass through the lock
    | Execute(t: nat, outcome: bool)               // one check of the batch
    | Finish(t: nat)                               // back to the lock after a batch
    | Wake(t: nat)                                 // cond.wait returns
    | Add(checks: seq<Check>, woken: nat)          // the master adds; notify_one picks `woken`

  const MASTER := 0

  /** How many checks to take at once: never more than there are. */
  function BatchSize(s: State): (n: int)
    requires s.nTotal >= 0 && s.nIdle >= 0 && s.queue != []
    ensures 1 <= n <= |s.queue| && n <= Max(1, s.batchSize)
  {
    Max(1, Min(s.batchSize, |s.queue| / (s.nTotal + s.nIdle + 1)))
  }

  /** More than one check is taken only if that leaves as many for everybody else, and then as many as possible. */
  lemma BatchIsFair(s: State)
    requires s.nTotal >= 0 && s.nIdle >= 0 && s.queue != []
    ensures var n, k := BatchSize(s), s.nTotal + s.nIdle + 1;
            && (n > 1 ==> n * k <= |s.queue|)
            && (n < s.batchSize ==> (n + 1) * k > |s.queue|)
  {
    var n, k := BatchSize(s), s.nTotal + s.nIdle + 1;
    var q := |s.queue| / k;
    DivModOf(|s.queue|, k);
    Distribute(q, 1, k);
    if n > 1 {
      MulMono(n, q, k);
    }
    if n < s.batchSize {
      MulMono(q + 1, n + 1, k);
    }
  }

  /** The last n checks of the queue, last one first. */
  function TakenFrom(queue: seq<Check>, n: nat): (batch: seq<Check>)
    requires n <= |queue|
    ensures |batch| == n
  {
    seq(n, i requires 0 <= i < n => queue[|queue| - 1 - i])
  }

  function Sleeping(th: Thread): int { if th.Asleep? then 1 else 0 }
  function Inside(th: Thread): int { if th.Asleep? || th.Working? || th.Locked? then 1 else 0 }
  function Held(th: Thread): int { if th.Working? then |th.batch| else 0 }

  function Sum(threads: seq<Thread>, f: Thread -> int): int {
    if threads == [] then 0 else f(threads[0]) + Sum(threads[1..], f)
  }

  /** How often a check occurs in a thread's batch. */
  function Copies(c: Check): Thread -> int {
    (th: Thread) => if th.Working? then multiset(th.batch)[c] else 0
  }

  /** How often a check occurs in the part of a thread's batch that has been dealt with. */
  function DoneCopies(c: Check): Thread -> int {
    (th: Thread) => if th.Working? && th.done <= |th.batch| then multiset(th.batch[..th.done])[c] else 0
  }

  /** The `while (queue.empty())` loop and what follows it, once, for thread t holding the lock. */
  function LoopTop(s: State, t: nat): State
    requires t < |s.threads| && s.threads[t].Locked? && s.nTotal >= 0 && s.nIdle >= 0
  {
    if s.queue == [] then
      if (t == MASTER || s.quit) && s.nTodo == 0 then
        var r := s.(nTotal := s.nTotal - 1, threads := s.threads[t := Outside]);
        if t == MASTER then
          r.(allOk := true, added := multiset{}, retired := multiset{}, passed := multiset{}, failed := {})
        else r
      else
        s.(nIdle := s.nIdle + 1, threads := s.threads[t := Asleep(false)])
    else
      var n := BatchSize(s);
      s.(queue := s.queue[..|s.queue| - n],
         threads := s.threads[t := Working(TakenFrom(s.queue, n), 0, s.allOk)])
  }

  function Notified(th: Thread): Thread { if th.Asleep? then Asleep(true) else th }

  function NotifyMaster(threads: seq<Thread>): seq<Thread>
    requires threads != []
  {
    threads[MASTER := Notified(threads[MASTER])]
  }

  function NotifyWorkers(threads: seq<Thread>, all: bool, woken: nat): (r: seq<Thread>)
    ensures |r| == |threads|
  {
    seq(|threads|, i requires 0 <= i < |threads| =>
      if i != MASTER && (all || i == woken) then Notified(threads[i]) else threads[i])
  }

  predicate Enabled(s: State, step: Step) {
    match step
    case Start(t) => t < |s.threads| && s.threads[t].Outside?
    case Enter(t) => t < |s.threads| && s.threads[t].Entering?
    case Execute(t, _) => t < |s.threads| && s.threads[t].Working? && s.threads[t].done < |s.threads[t].batch|
    case Finish(t) => t < |s.threads| && s.threads[t].Working? && s.threads[t].done == |s.threads[t].batch|
    case Wake(t) => t < |s.threads| && s.threads[t].Asleep?
    case Add(checks, woken) =>
      s.threads != [] && s.threads[MASTER].Outside? && (|checks| == 1 && Waiting(s.threads) ==> Waits(s.threads, woken))
  }

  /** A worker that has not been notified. */
  predicate Waits(threads: seq<Thread>, i: nat) { i != MASTER && i < |threads| && threads[i] == Asleep(false) }

  predicate Waiting(threads: seq<Thread>) { exists i :: 0 <= i < |threads| && Waits(threads, i) }

  /** A worker that is going to look at the queue. */
  predicate Attends(threads: seq<Thread>, i: nat) {
    i != MASTER && i < |threads| && (threads[i].Working? || threads[i].Entering? || threads[i] == Asleep(true))
  }

  predicate Attended(threads: seq<Thread>) { exists i :: 0 <= i < |threads| && Attends(threads, i) }

  /** The part of a step before the `while` loop: what a thread does on getting the mutex. */
  function Lock(s: State, step: Step): State
    requires Enabled(s, step) && (step.Enter? || step.Finish? || step.Wake?)
  {
    match step
    case Enter(t) =>
      s.(nTotal := s.nTotal + 1, threads := s.threads[t := Locked])
    case Finish(t) =>
      var th := s.threads[t];
      var todo := s.nTodo - |th.batch|;
      var threads := s.threads[t := Locked];
      s.(allOk := s.allOk && th.ok, nTodo := todo, retired := s.retired + multiset(th.batch),
         threads := if todo == 0 && t != MASTER then NotifyMaster(threads) else threads)
    case Wake(t) =>
      s.(nIdle := s.nIdle - 1, threads := s.threads[t := Locked])
  }

  function Executed(th: Thread, outcome: bool): Thread
    requires th.Working?
  {
    Working(th.batch, th.done + 1, th.ok && outcome)
  }

  function Apply(s: State, step: Step): State
    requires Enabled(s, step)
    requires s.nTotal >= 0 && s.nIdle >= 0 && (step.Wake? ==> s.nIdle >= 1)
  {
    match step
    case Start(t) =>
      s.(threads := s.threads[t := Entering])
    case Execute(t, outcome) =>
      // a check is only run while the batch is still all right
      var th := s.threads[t];
      s.(threads := s.threads[t := Executed(th, outcome)],
         passed := if th.ok && outcome then s.passed + multiset{th.batch[th.done]} else s.passed,
         failed := if th.ok && !outcome then s.failed + {th.batch[th.done]} else s.failed)
    case Add(checks, woken) =>
      s.(queue := s.queue + checks, nTodo := s.nTodo + |checks|, added := s.added + multiset(checks),
         threads := if checks == [] then s.threads else NotifyWorkers(s.threads, |checks| > 1, woken))
    case _ =>
      LoopTop(Lock(s, step), step.t)
  }

  /** Once a batch has failed no more of its checks are run, and none of a batch that is taken after a failure. */
  lemma FailureStopsChecks(s: State, t: nat, outcome: bool)
    requires t < |s.threads| && s.nTotal >= 0 && s.nIdle >= 0
    ensures Enabled(s, Execute(t, outcome)) && !s.threads[t].ok ==>
              var r := Apply(s, Execute(t, outcome));
              && r.passed == s.passed && r.failed == s.failed
              && r.threads[t] == s.threads[t].(done := s.threads[t].done + 1)
    ensures s.threads[t].Locked? && s.queue != [] ==>
              LoopTop(s, t).threads[t].Working? && (LoopTop(s, t).threads[t].ok <==> s.allOk)
  {
  }

  /** A new queue and any number of threads that have not called Loop yet. */
  function Init(batchSize: nat, workers: nat): State {
    State([], 0, 0, true, 0, false, batchSize, seq(workers + 1, _ => Outside),
          multiset{}, multiset{}, multiset{}, {})
  }

  predicate ThreadOk(s: State, th: Thread) {
    th.Working? ==>
      && 1 <= |th.batch| && th.done <= |th.batch|
      && (!th.ok ==> s.failed != {})
  }

  /** The counters count what they are documented to count. */
  predicate Counted(s: State) {
    && s.nIdle == Sum(s.threads, Sleeping)
    && s.nTotal == Sum(s.threads, Inside)
    && s.nTodo == |s.queue| + Sum(s.threads, Held)
  }

  /** Every check added is queued, in a batch or retired: nothing is lost or duplicated. */
  ghost predicate Conserved(s: State) {
    forall c :: multiset(s.queue)[c] + Sum(s.threads, Copies(c)) + s.retired[c] == s.added[c]
  }

  /** While nothing has failed, every check that was dealt with has run and returned true, each time it was added. */
  ghost predicate Ran(s: State) {
    s.failed == {} ==> forall c :: s.passed[c] == s.retired[c] + Sum(s.threads, DoneCopies(c))
  }

  /** Some thread knows of a failure that allOk does not show yet. */
  predicate FailureHeld(threads: seq<Thread>) {
    exists i :: 0 <= i < |threads| && threads[i].Working? && !threads[i].ok
  }

  /** The flags record what the checks returned. */
  predicate Recorded(s: State) {
    && (!s.allOk ==> s.failed != {})
    && (forall c :: c in s.failed ==> c in s.added)
    && (forall i :: 0 <= i < |s.threads| ==> ThreadOk(s, s.threads[i]))
    && (s.failed != {} ==> !s.allOk || FailureHeld(s.threads))
  }

  /** The master never sleeps through the end of the work. */
  predicate MasterOk(s: State) {
    && s.threads != []
    && (s.threads[MASTER].Asleep? ==> s.queue == [])
    && (s.threads[MASTER] == Asleep(false) ==> s.nTodo > 0)
  }

  /** While there is work in the queue, not all workers in the loop sleep. */
  predicate WorkersOk(s: State) {
    s.queue != [] && Waiting(s.threads) ==> Attended(s.threads)
  }

  ghost predicate InvButLock(s: State) {
    !s.quit && Counted(s) && Conserved(s) && Recorded(s) && Ran(s) && MasterOk(s)
  }

  ghost predicate Balanced(s: State) {
    InvButLock(s) && forall i :: 0 <= i < |s.threads| ==> !s.threads[i].Locked?
  }

  ghost predicate Inv(s: State) { Balanced(s) && WorkersOk(s) }

  lemma {:induction false} SumUpdate(threads: seq<Thread>, t: nat, th: Thread, f: Thread -> int)
    requires t < |threads|
    ensures Sum(threads[t := th], f) == Sum(threads, f) - f(threads[t]) + f(th)
  {
    if t == 0 {
      assert threads[t := th][1..] == threads[1..];
    } else {
      assert threads[t := th][1..] == threads[1..][t - 1 := th];
      SumUpdate(threads[1..], t - 1, th, f);
    }
  }

  /** A thread changes state; what the sums over all threads become. */
  lemma Updates(threads: seq<Thread>, t: nat, th: Thread)
    requires t < |threads|
    ensures Sum(threads[t := th], Sleeping) == Sum(threads, Sleeping) - Sleeping(threads[t]) + Sleeping(th)
    ensures Sum(threads[t := th], Inside) == Sum(threads, Inside) - Inside(threads[t]) + Inside(th)
    ensures Sum(threads[t := th], Held) == Sum(threads, Held) - Held(threads[t]) + Held(th)
    ensures forall c :: Sum(threads[t := th], Copies(c)) ==
                        Sum(threads, Copies(c)) - Copies(c)(threads[t]) + Copies(c)(th)
  {
    hide Sum;
    SumUpdate(threads, t, th, Sleeping);
    SumUpdate(threads, t, th, Inside);
    SumUpdate(threads, t, th, Held);
    forall c
      ensures Sum(threads[t := th], Copies(c)) == Sum(threads, Copies(c)) - Copies(c)(threads[t]) + Copies(c)(th)
    {
      SumUpdate(threads, t, th, Copies(c));
    }
  }

  lemma UpdatesDone(threads: seq<Thread>, t: nat, th: Thread)
    requires t < |threads|
    ensures forall c :: Sum(threads[t := th], DoneCopies(c)) ==
                        Sum(threads, DoneCopies(c)) - DoneCopies(c)(threads[t]) + DoneCopies(c)(th)
  {
    hide Sum;
    forall c
      ensures Sum(threads[t := th], DoneCopies(c)) ==
              Sum(threads, DoneCopies(c)) - DoneCopies(c)(threads[t]) + DoneCopies(c)(th)
    {
      SumUpdate(threads, t, th, DoneCopies(c));
    }
  }

  /** Every term of a sum of naturals is at most the sum. */
  lemma {:induction false} SumBounds(threads: seq<Thread>, f: Thread -> int, t: nat)
    requires forall th :: f(th) >= 0
    ensures Sum(threads, f) >= 0
    ensures t < |threads| ==> f(threads[t]) <= Sum(threads, f)
  {
    if threads != [] {
      SumBounds(threads[1..], f, if t == 0 then 0 else t - 1);
    }
  }

  /** Notifying changes no sum. */
  lemma {:induction false} SumNotify(a: seq<Thread>, b: seq<Thread>, f: Thread -> int)
    requires |a| == |b|
    requires forall i :: 0 <= i < |a| ==> b[i] == a[i] || b[i] == Notified(a[i])
    requires forall th :: f(Notified(th)) == f(th)
    ensures Sum(b, f) == Sum(a, f)
  {
    if a != [] {
      SumNotify(a[1..], b[1..], f);
    }
  }

  lemma Notifies(a: seq<Thread>, b: seq<Thread>)
    requires |a| == |b|
    requires forall i :: 0 <= i < |a| ==> b[i] == a[i] || b[i] == Notified(a[i])
    ensures Sum(b, Sleeping) == Sum(a, Sleeping)
    ensures Sum(b, Inside) == Sum(a, Inside)
    ensures Sum(b, Held) == Sum(a, Held)
    ensures forall c :: Sum(b, Copies(c)) == Sum(a, Copies(c)) && Sum(b, DoneCopies(c)) == Sum(a, DoneCopies(c))
  {
    SumNotify(a, b, Sleeping);
    SumNotify(a, b, Inside);
    SumNotify(a, b, Held);
    forall c ensures Sum(b, Copies(c)) == Sum(a, Copies(c)) && Sum(b, DoneCopies(c)) == Sum(a, DoneCopies(c)) {
      SumNotify(a, b, Copies(c));
      SumNotify(a, b, DoneCopies(c));
    }
  }

  lemma {:induction false} Takes(queue: seq<Check>, n: nat)
    requires n <= |queue|
    ensures multiset(queue) == multiset(queue[..|queue| - n]) + multiset(TakenFrom(queue, n))
  {
    if n > 0 {
      Takes(queue, n - 1);
      var m := |queue| - n;
      assert queue[..m + 1] == queue[..m] + [queue[m]];
      assert TakenFrom(queue, n) == TakenFrom(queue, n - 1) + [queue[m]];
    } else {
      assert queue[..|queue|] == queue;
    }
  }

  /** With nothing left to do nobody is working. */
  lemma NothingHeld(s: State, t: nat)
    requires Counted(s) && Recorded(s) && s.nTodo == 0 && t < |s.threads|
    ensures s.queue == [] && !s.threads[t].Working?
  {
    SumBounds(s.threads, Held, t);
    assert ThreadOk(s, s.threads[t]);
  }

  lemma {:induction false} NoBatches(threads: seq<Thread>, c: Check)
    requires forall i :: 0 <= i < |threads| ==> !threads[i].Working?
    ensures Sum(threads, Copies(c)) == 0 && Sum(threads, DoneCopies(c)) == 0
  {
    if threads != [] {
      NoBatches(threads[1..], c);
    }
  }

  /** Some thread holds a batch whenever the queue alone does not account for nTodo. */
  lemma {:induction false} SomeoneHolds(threads: seq<Thread>) returns (t: nat)
    requires Sum(threads, Held) > 0
    ensures t < |threads| && threads[t].Working?
  {
    if threads[0].Working? {
      t := 0;
    } else {
      t := SomeoneHolds(threads[1..]);
      t := t + 1;
    }
  }

  /** Threads other than t are as they were, except that some may have been notified. */
  predicate Others(a: seq<Thread>, b: seq<Thread>, t: nat) {
    && |a| == |b|
    && forall i :: 0 <= i < |a| && i != t ==> b[i] == a[i] || b[i] == Notified(a[i])
  }

  lemma OthersOk(s: State, r: State, t: nat)
    requires Recorded(s) && Others(s.threads, r.threads, t) && t < |s.threads|
    requires s.failed <= r.failed
    requires ThreadOk(r, r.threads[t])
    ensures forall i :: 0 <= i < |r.threads| ==> ThreadOk(r, r.threads[i])
  {
    forall i | 0 <= i < |r.threads| && i != t ensures ThreadOk(r, r.threads[i]) {
      assert ThreadOk(s, s.threads[i]);
    }
  }

  lemma FailureStaysHeld(a: seq<Thread>, b: seq<Thread>, t: nat)
    requires Others(a, b, t) && t < |a| && FailureHeld(a)
    requires a[t].Working? && !a[t].ok ==> b[t].Working? && !b[t].ok
    ensures FailureHeld(b)
  {
    var i :| 0 <= i < |a| && a[i].Working? && !a[i].ok;
    assert b[i].Working? && !b[i].ok;
  }

  /** What holds of the state between getting the mutex and the `while` loop. */
  ghost predicate Holding(m: State, t: nat) {
    && InvButLock(m) && t < |m.threads| && m.threads[t].Locked? && m.nTotal >= 0 && m.nIdle >= 0
    && forall i :: 0 <= i < |m.threads| && i != t ==> !m.threads[i].Locked?
  }

  lemma NonNegative(threads: seq<Thread>)
    ensures Sum(threads, Sleeping) >= 0 && Sum(threads, Inside) >= 0 && Sum(threads, Held) >= 0
  {
    SumBounds(threads, Sleeping, 0);
    SumBounds(threads, Inside, 0);
    SumBounds(threads, Held, 0);
  }

  lemma LockOnEntry(s: State, step: Step)
    requires Inv(s) && Enabled(s, step) && (step.Enter? || step.Wake?)
    ensures Holding(Lock(s, step), step.t)
  {
    var m := Lock(s, step);
    Updates(s.threads, step.t, Locked);
    UpdatesDone(s.threads, step.t, Locked);
    NonNegative(m.threads);
    OthersOk(s, m, step.t);
    if FailureHeld(s.threads) {
      FailureStaysHeld(s.threads, m.threads, step.t);
    }
  }

  lemma FinishCounts(s: State, t: nat)
    requires Inv(s) && Enabled(s, Finish(t))
    ensures var m := Lock(s, Finish(t)); Counted(m) && Conserved(m) && m.nTotal >= 0 && m.nIdle >= 0
  {
    var m := Lock(s, Finish(t));
    var locked := s.threads[t := Locked];
    Updates(s.threads, t, Locked);
    Notifies(locked, m.threads);
    NonNegative(m.threads);
  }

  lemma FinishRan(s: State, t: nat)
    requires Inv(s) && Enabled(s, Finish(t))
    ensures Ran(Lock(s, Finish(t)))
  {
    hide Counted, Conserved, Recorded, MasterOk;
    var m := Lock(s, Finish(t));
    var locked := s.threads[t := Locked];
    UpdatesDone(s.threads, t, Locked);
    Notifies(locked, m.threads);
    var th := s.threads[t];
    assert th.batch[..th.done] == th.batch;
  }

  lemma FinishRecords(s: State, t: nat)
    requires Inv(s) && Enabled(s, Finish(t))
    ensures Recorded(Lock(s, Finish(t)))
  {
    var m := Lock(s, Finish(t));
    var th := s.threads[t];
    assert ThreadOk(s, th);
    OthersOk(s, m, t);
    if m.allOk && FailureHeld(s.threads) {
      FailureStaysHeld(s.threads, m.threads, t);
    }
  }

  lemma LockOnFinish(s: State, t: nat)
    requires Inv(s) && Enabled(s, Finish(t))
    ensures Holding(Lock(s, Finish(t)), t)
  {
    FinishCounts(s, t);
    FinishRecords(s, t);
    FinishRan(s, t);
    NonNegative(Lock(s, Finish(t)).threads);
  }

  lemma ReturnKeeps(m: State)
    requires Holding(m, MASTER) && m.nTodo == 0
    ensures Balanced(LoopTop(m, MASTER))
  {
    var r := LoopTop(m, MASTER);
    Updates(m.threads, MASTER, Outside);
    forall i | 0 <= i < |m.threads| ensures !m.threads[i].Working? {
      NothingHeld(m, i);
    }
    NothingHeld(m, MASTER);
    forall c ensures Sum(r.threads, Copies(c)) == 0 && Sum(r.threads, DoneCopies(c)) == 0 {
      NoBatches(r.threads, c);
    }
  }

  lemma SleepKeeps(m: State, t: nat)
    requires Holding(m, t) && m.queue == [] && !(t == MASTER && m.nTodo == 0)
    ensures Balanced(LoopTop(m, t))
  {
    var r := LoopTop(m, t);
    Updates(m.threads, t, Asleep(false));
    UpdatesDone(m.threads, t, Asleep(false));
    NonNegative(m.threads);
    OthersOk(m, r, t);
    if FailureHeld(m.threads) {
      FailureStaysHeld(m.threads, r.threads, t);
    }
  }

  lemma TakeCounts(m: State, t: nat)
    requires Holding(m, t) && m.queue != []
    ensures Counted(LoopTop(m, t)) && Conserved(LoopTop(m, t))
  {
    var r := LoopTop(m, t);
    Updates(m.threads, t, r.threads[t]);
    Takes(m.queue, BatchSize(m));
  }

  lemma TakeRan(m: State, t: nat)
    requires Holding(m, t) && m.queue != []
    ensures Ran(LoopTop(m, t))
  {
    hide Counted, Conserved, Recorded, MasterOk;
    var r := LoopTop(m, t);
    UpdatesDone(m.threads, t, r.threads[t]);
  }

  lemma TakeRecords(m: State, t: nat)
    requires Holding(m, t) && m.queue != []
    ensures Recorded(LoopTop(m, t))
  {
    var r := LoopTop(m, t);
    OthersOk(m, r, t);
    if FailureHeld(m.threads) {
      FailureStaysHeld(m.threads, r.threads, t);
    }
  }

  lemma TakeKeeps(m: State, t: nat)
    requires Holding(m, t) && m.queue != []
    ensures Balanced(LoopTop(m, t))
  {
    TakeCounts(m, t);
    TakeRecords(m, t);
    TakeRan(m, t);
  }

  lemma ExecuteCounts(s: State, t: nat, outcome: bool)
    requires Inv(s) && Enabled(s, Execute(t, outcome)) && s.nTotal >= 0 && s.nIdle >= 0
    ensures var r := Apply(s, Execute(t, outcome)); Counted(r) && Conserved(r)
  {
    Updates(s.threads, t, Executed(s.threads[t], outcome));
  }

  lemma ExecuteRan(s: State, t: nat, outcome: bool)
    requires Inv(s) && Enabled(s, Execute(t, outcome)) && s.nTotal >= 0 && s.nIdle >= 0
    ensures Ran(Apply(s, Execute(t, outcome)))
  {
    hide Counted, Conserved, MasterOk;
    var th := s.threads[t];
    assert ThreadOk(s, th);
    UpdatesDone(s.threads, t, Executed(th, outcome));
    assert th.batch[..th.done + 1] == th.batch[..th.done] + [th.batch[th.done]];
  }

  lemma ExecuteRecords(s: State, t: nat, outcome: bool)
    requires Inv(s) && Enabled(s, Execute(t, outcome)) && s.nTotal >= 0 && s.nIdle >= 0
    ensures Recorded(Apply(s, Execute(t, outcome)))
  {
    var r := Apply(s, Execute(t, outcome));
    var th := s.threads[t];
    var c := th.batch[th.done];
    assert c in s.added by {
      SumBounds(s.threads, Copies(c), t);
      assert c in multiset(th.batch);
    }
    assert ThreadOk(s, th);
    OthersOk(s, r, t);
    if FailureHeld(s.threads) {
      FailureStaysHeld(s.threads, r.threads, t);
    }
    assert th.ok && !outcome ==> r.threads[t].Working? && !r.threads[t].ok;
  }

  lemma ExecuteKeeps(s: State, t: nat, outcome: bool)
    requires Inv(s) && Enabled(s, Execute(t, outcome)) && s.nTotal >= 0 && s.nIdle >= 0
    ensures Balanced(Apply(s, Execute(t, outcome)))
  {
    ExecuteCounts(s, t, outcome);
    ExecuteRecords(s, t, outcome);
    ExecuteRan(s, t, outcome);
  }

  lemma AddNotifies(s: State, checks: seq<Check>, woken: nat)
    requires Enabled(s, Add(checks, woken)) && s.nTotal >= 0 && s.nIdle >= 0
    ensures var r := Apply(s, Add(checks, woken));
            && Others(s.threads, r.threads, MASTER) && r.threads[MASTER] == s.threads[MASTER]
            && forall i :: 0 <= i < |s.threads| ==>
                 r.threads[i] == s.threads[i] || r.threads[i] == Notified(s.threads[i])
  {
  }

  lemma AddCounts(s: State, checks: seq<Check>, woken: nat)
    requires Inv(s) && Enabled(s, Add(checks, woken)) && s.nTotal >= 0 && s.nIdle >= 0
    ensures var r := Apply(s, Add(checks, woken)); Counted(r) && Conserved(r) && Ran(r)
  {
    hide WorkersOk, Waiting, NotifyWorkers, Recorded, MasterOk;
    AddNotifies(s, checks, woken);
    Notifies(s.threads, Apply(s, Add(checks, woken)).threads);
  }

  lemma AddKeeps(s: State, checks: seq<Check>, woken: nat)
    requires Inv(s) && Enabled(s, Add(checks, woken)) && s.nTotal >= 0 && s.nIdle >= 0
    ensures Balanced(Apply(s, Add(checks, woken)))
  {
    AddCounts(s, checks, woken);
    hide WorkersOk, Waiting, NotifyWorkers, Counted, Conserved, Ran;
    var r := Apply(s, Add(checks, woken));
    AddNotifies(s, checks, woken);
    OthersOk(s, r, MASTER);
    if FailureHeld(s.threads) {
      FailureStaysHeld(s.threads, r.threads, MASTER);
    }
  }

  lemma StartKeeps(s: State, t: nat)
    requires Inv(s) && Enabled(s, Start(t)) && s.nTotal >= 0 && s.nIdle >= 0
    ensures Balanced(Apply(s, Start(t)))
  {
    var r := Apply(s, Start(t));
    Updates(s.threads, t, Entering);
    UpdatesDone(s.threads, t, Entering);
    OthersOk(s, r, t);
    if FailureHeld(s.threads) {
      FailureStaysHeld(s.threads, r.threads, t);
    }
  }

  lemma Applicable(s: State, step: Step)
    requires Inv(s) && Enabled(s, step)
    ensures s.nTotal >= 0 && s.nIdle >= 0 && (step.Wake? ==> s.nIdle >= 1)
  {
    SumBounds(s.threads, Sleeping, if step.Wake? then step.t else 0);
    SumBounds(s.threads, Inside, 0);
  }

  /** One step of the queue, from a state that satisfies the invariant. */
  function Next(s: State, step: Step): (r: State)
    requires Inv(s) && Enabled(s, step)
    ensures Inv(r) && |r.threads| == |s.threads|
  {
    Applicable(s, step);
    StepKeeps(s, step);
    Apply(s, step)
  }

  lemma StepKeeps(s: State, step: Step)
    requires Inv(s) && Enabled(s, step)
    requires s.nTotal >= 0 && s.nIdle >= 0 && (step.Wake? ==> s.nIdle >= 1)
    ensures Inv(Apply(s, step)) && |Apply(s, step).threads| == |s.threads|
  {
    WorkersKept(s, step);
    hide WorkersOk;
    match step
    case Start(t) => StartKeeps(s, t);
    case Execute(t, outcome) => ExecuteKeeps(s, t, outcome);
    case Add(checks, woken) => AddKeeps(s, checks, woken);
    case _ =>
      var m := Lock(s, step);
      var t := step.t;
      if step.Finish? { LockOnFinish(s, t); } else { LockOnEntry(s, step); }
      if m.queue != [] { TakeKeeps(m, t); }
      else if t == MASTER && m.nTodo == 0 { ReturnKeeps(m); }
      else { SleepKeeps(m, t); }
  }

  lemma LockOthers(s: State, step: Step, i: nat)
    requires Enabled(s, step) && (step.Enter? || step.Finish? || step.Wake?) && i != MASTER && i < |s.threads|
    ensures var m := Lock(s, step);
            |m.threads| == |s.threads| && m.threads[i] == if i == step.t then Locked else s.threads[i]
  {
  }

  lemma LoopTopOthers(m: State, t: nat, i: nat)
    requires t < |m.threads| && m.threads[t].Locked? && m.nTotal >= 0 && m.nIdle >= 0 && i != MASTER && i < |m.threads|
    ensures var r := LoopTop(m, t);
            && |r.threads| == |m.threads|
            && if i == t then r.queue == [] || r.threads[i].Working? else r.threads[i] == m.threads[i]
  {
    hide BatchSize, TakenFrom;
  }

  /** A worker that attends to the queue goes on doing so, unless it finds the queue empty. */
  lemma StillAttends(s: State, step: Step, i: nat)
    requires Enabled(s, step) && s.nTotal >= 0 && s.nIdle >= 0 && (step.Wake? ==> s.nIdle >= 1)
    requires i < |s.threads| && (Attends(s.threads, i) || (!Waits(s.threads, i) && Waits(Apply(s, step).threads, i)))
    ensures Apply(s, step).queue == [] || Attends(Apply(s, step).threads, i)
  {
    hide LoopTop, Lock;
    if step.Enter? || step.Finish? || step.Wake? {
      LockOthers(s, step, i);
      var m := Lock(s, step);
      assert m.threads[step.t].Locked? && m.nTotal >= 0 && m.nIdle >= 0 by {
        LockIsLocked(s, step);
      }
      LoopTopOthers(m, step.t, i);
    }
  }

  lemma LockIsLocked(s: State, step: Step)
    requires Enabled(s, step) && (step.Enter? || step.Finish? || step.Wake?)
    requires s.nTotal >= 0 && s.nIdle >= 0 && (step.Wake? ==> s.nIdle >= 1)
    ensures var m := Lock(s, step);
            |m.threads| == |s.threads| && m.threads[step.t].Locked? && m.nTotal >= 0 && m.nIdle >= 0
  {
  }

  lemma WorkersKept(s: State, step: Step)
    requires Inv(s) && Enabled(s, step) && s.nTotal >= 0 && s.nIdle >= 0 && (step.Wake? ==> s.nIdle >= 1)
    ensures WorkersOk(Apply(s, step))
  {
    hide Counted, Conserved, Recorded, Ran, MasterOk;
    var r := Apply(s, step);
    if r.queue != [] && Waiting(r.threads) {
      var i :| 0 <= i < |r.threads| && Waits(r.threads, i);
      if step.Add? {
        AddWakes(s, step.checks, step.woken);
        assert Waits(s.threads, i);
        if step.checks == [] {
          var k :| 0 <= k < |s.threads| && Attends(s.threads, k);
          assert Attends(r.threads, k);
        } else {
          assert Attends(r.threads, step.woken);
        }
      } else if Waits(s.threads, i) {
        var k :| 0 <= k < |s.threads| && Attends(s.threads, k);
        StillAttends(s, step, k);
      } else {
        StillAttends(s, step, i);
      }
    }
  }

  /** Adding checks notifies all waiting workers, or one of them for a single check. */
  lemma AddWakes(s: State, checks: seq<Check>, woken: nat)
    requires Enabled(s, Add(checks, woken)) && s.nTotal >= 0 && s.nIdle >= 0
    ensures var r := Apply(s, Add(checks, woken));
            && (|checks| > 1 ==> !Waiting(r.threads))
            && (|checks| == 1 && Waiting(s.threads) ==>
                  woken < |r.threads| && s.threads[woken] == Asleep(false) && r.threads[woken] == Asleep(true))
            && forall i :: 0 <= i < |s.threads| && !Waits(s.threads, i) ==> r.threads[i] == s.threads[i]
  {
  }

  // Runs

  lemma {:induction false} AllOutside(threads: seq<Thread>, f: Thread -> int)
    requires f(Outside) == 0
    requires forall i :: 0 <= i < |threads| ==> threads[i] == Outside
    ensures Sum(threads, f) == 0
  {
    if threads != [] {
      AllOutside(threads[1..], f);
    }
  }

  lemma InitKeeps(batchSize: nat, workers: nat)
    ensures Inv(Init(batchSize, workers))
  {
    var s := Init(batchSize, workers);
    AllOutside(s.threads, Sleeping);
    AllOutside(s.threads, Inside);
    AllOutside(s.threads, Held);
    forall c ensures Sum(s.threads, Copies(c)) == 0 && Sum(s.threads, DoneCopies(c)) == 0 {
      AllOutside(s.threads, Copies(c));
      AllOutside(s.threads, DoneCopies(c));
    }
  }

  ghost predicate Possible(s: State, steps: seq<Step>)
    requires Inv(s)
    decreases |steps|
  {
    steps != [] ==> Enabled(s, steps[0]) && Possible(Next(s, steps[0]), steps[1..])
  }

  ghost function After(s: State, steps: seq<Step>): (r: State)
    requires Inv(s) && Possible(s, steps)
    ensures Inv(r)
    decreases |steps|
  {
    if steps == [] then s else After(Next(s, steps[0]), steps[1..])
  }

  /** The step in which the master's Wait returns, and what it returns. */
  ghost predicate Returns(s: State, step: Step)
    requires Inv(s)
  {
    && Enabled(s, step) && (step.Enter? || step.Finish? || step.Wake?) && step.t == MASTER
    && Next(s, step).threads[MASTER].Outside?
  }

  function Result(s: State, step: Step): bool
    requires Enabled(s, step) && (step.Enter? || step.Finish? || step.Wake?)
  {
    Lock(s, step).allOk
  }

  /** IsIdle, which every CCheckQueueControl asserts before it adds anything. */
  predicate IsIdle(s: State) {
    s.nTotal == s.nIdle && s.nTodo == 0 && s.allOk
  }

  lemma {:induction false} InsideIsAsleep(threads: seq<Thread>)
    requires forall i :: 0 <= i < |threads| ==> !threads[i].Working? && !threads[i].Locked?
    ensures Sum(threads, Inside) == Sum(threads, Sleeping) && Sum(threads, Held) == 0
  {
    if threads != [] {
      InsideIsAsleep(threads[1..]);
    }
  }

  /** Nothing added means nothing queued and nothing in a batch. */
  lemma NothingAdded(s: State, i: nat)
    requires Inv(s) && s.added == multiset{} && i < |s.threads|
    ensures s.queue == [] && !s.threads[i].Working?
  {
    var th := s.threads[i];
    assert ThreadOk(s, th);
    var c := if th.Working? then th.batch[0] else 0;
    assert th.Working? ==> c in multiset(th.batch);
    SumBounds(s.threads, Copies(c), i);
    assert multiset(s.queue)[c] + Sum(s.threads, Copies(c)) + s.retired[c] == s.added[c];
    var d := if s.queue != [] then s.queue[0] else 0;
    assert s.queue != [] ==> d in multiset(s.queue);
    SumBounds(s.threads, Copies(d), i);
    assert multiset(s.queue)[d] + Sum(s.threads, Copies(d)) + s.retired[d] == s.added[d];
  }

  /** Whenever the master has added nothing yet, the queue is idle: the assertion cannot fail. */
  lemma IdleBetweenRounds(s: State)
    requires Inv(s) && s.added == multiset{}
    ensures IsIdle(s)
  {
    forall i | 0 <= i < |s.threads| ensures !s.threads[i].Working? {
      NothingAdded(s, i);
    }
    NothingAdded(s, MASTER);
    InsideIsAsleep(s.threads);
    assert s.failed == {};
  }

  /** What is known when the master finds nothing left to do. */
  lemma NothingLeft(m: State)
    requires Holding(m, MASTER) && m.nTodo == 0
    ensures m.allOk ==> m.failed == {} && m.passed == m.added
    ensures !m.allOk ==> exists c :: c in m.added && c in m.failed
  {
    forall i | 0 <= i < |m.threads| ensures !m.threads[i].Working? {
      NothingHeld(m, i);
    }
    NothingHeld(m, MASTER);
    forall c ensures m.added[c] == m.retired[c] && (m.failed == {} ==> m.passed[c] == m.retired[c]) {
      NoBatches(m.threads, c);
      assert multiset(m.queue)[c] + Sum(m.threads, Copies(c)) + m.retired[c] == m.added[c];
    }
    if !m.allOk {
      var c :| c in m.failed;
    }
  }

  lemma Locks(s: State, step: Step)
    requires Inv(s) && Enabled(s, step) && (step.Enter? || step.Finish? || step.Wake?)
    ensures Holding(Lock(s, step), step.t)
  {
    if step.Finish? { LockOnFinish(s, step.t); } else { LockOnEntry(s, step); }
  }

  /**
   In every interleaving, Wait returns true exactly when no check of the round returned false;
   then every check that was added has run and returned true, as often as it was added and no more,
   and the queue is idle again.
   */
  lemma WaitIsExact(s: State, step: Step)
    requires Inv(s) && Returns(s, step)
    ensures Result(s, step) ==> s.failed == {} && s.passed == s.added
    ensures !Result(s, step) ==> exists c :: c in s.added && c in s.failed
    ensures IsIdle(Next(s, step))
  {
    Locks(s, step);
    NothingLeft(Lock(s, step));
    IdleBetweenRounds(Next(s, step));
  }

  /** Steps that need no spurious wake-up and no new work. */
  predicate Productive(s: State, step: Step) {
    && Enabled(s, step)
    && !step.Start? && !step.Add?
    && (step.Wake? ==> s.threads[step.t].notified)
  }

  /** While the master is in Wait, some thread can make progress: no wake-up is ever lost. */
  lemma NeverStuck(s: State) returns (step: Step)
    requires Inv(s) && !s.threads[MASTER].Outside?
    ensures Productive(s, step)
  {
    var t := MASTER;
    if s.threads[MASTER] == Asleep(false) {
      t := SomeoneHolds(s.threads);
    }
    var th := s.threads[t];
    assert ThreadOk(s, th);
    if th.Entering? {
      step := Enter(t);
    } else if th.Asleep? {
      step := Wake(t);
    } else if th.done < |th.batch| {
      step := Execute(t, true);
    } else {
      step := Finish(t);
    }
  }

  /** While there is work in the queue, some worker in the loop can make progress, whatever the master does. */
  lemma WorkersGoOn(s: State, i: nat) returns (step: Step)
    requires Inv(s) && s.queue != [] && i != MASTER && i < |s.threads| && !s.threads[i].Outside?
    ensures Productive(s, step) && step.t != MASTER
  {
    hide Counted, Conserved, Ran, MasterOk;
    var t := i;
    if s.threads[i] == Asleep(false) {
      assert Waits(s.threads, i);
      t :| 0 <= t < |s.threads| && Attends(s.threads, t);
    }
    var th := s.threads[t];
    assert ThreadOk(s, th);
    step := if th.Entering? then Enter(t) else if th.Asleep? then Wake(t)
            else if th.done < |th.batch| then Execute(t, true) else Finish(t);
  }

  /** So workers alone empty the queue: where none of them can go on, nothing is queued. */
  lemma WorkersEmptyQueue(s: State, i: nat)
    requires Inv(s) && i != MASTER && i < |s.threads| && !s.threads[i].Outside?
    requires forall step :: Productive(s, step) ==> step.t == MASTER
    ensures s.queue == []
  {
    if s.queue != [] {
      var _ := WorkersGoOn(s, i);
    }
  }

  /** How many productive steps a thread can still cause at most. */
  function Effort(th: Thread): int {
    match th
    case Entering => 1
    case Working(batch, done, _) => 2 + Max(|batch| - done, 0)
    case Asleep(notified) => if notified then 1 else 0
    case _ => 0
  }

  function Potential(s: State): int {
    3 * |s.queue| + Sum(s.threads, Effort)
  }

  lemma LoopTopEffort(m: State, t: nat)
    requires Holding(m, t)
    ensures Potential(LoopTop(m, t)) <= Potential(m)
  {
    SumUpdate(m.threads, t, LoopTop(m, t).threads[t], Effort);
  }

  lemma LockEffort(s: State, step: Step)
    requires Inv(s) && Productive(s, step) && !step.Execute?
    ensures Potential(Lock(s, step)) < Potential(s)
  {
    var t := step.t;
    var locked := s.threads[t := Locked];
    SumUpdate(s.threads, t, Locked, Effort);
    SumUpdate(locked, MASTER, Notified(locked[MASTER]), Effort);
    assert Lock(s, step).threads in {locked, NotifyMaster(locked)};
  }

  lemma ProgressIsMade(s: State, step: Step)
    requires Inv(s) && Productive(s, step)
    ensures Potential(Next(s, step)) < Potential(s)
  {
    if step.Execute? {
      SumUpdate(s.threads, step.t, Executed(s.threads[step.t], step.outcome), Effort);
    } else {
      Locks(s, step);
      LockEffort(s, step);
      LoopTopEffort(Lock(s, step), step.t);
    }
  }

  ghost predicate ProductiveRun(s: State, steps: seq<Step>)
    requires Inv(s)
    decreases |steps|
  {
    steps != [] ==> Productive(s, steps[0]) && ProductiveRun(Next(s, steps[0]), steps[1..])
  }

  /** However the threads are scheduled, Wait takes at most Potential(s) productive steps. */
  lemma {:induction false} WaitEnds(s: State, steps: seq<Step>)
    requires Inv(s) && ProductiveRun(s, steps)
    ensures |steps| <= Potential(s)
    decreases |steps|
  {
    SumBounds(s.threads, Effort, 0);
    if steps != [] {
      ProgressIsMade(s, steps[0]);
      WaitEnds(Next(s, steps[0]), steps[1..]);
    }
  }

  ghost function InitialState(batchSize: nat, workers: nat): (s: State)
    ensures Inv(s)
  {
    InitKeeps(batchSize, workers);
    Init(batchSize, workers)
  }

  /** The results above, for every interleaving of one master and any number of workers. */
  lemma EveryRunIsExact(batchSize: nat, workers: nat, steps: seq<Step>, step: Step)
    requires Possible(InitialState(batchSize, workers), steps)
    requires Returns(After(InitialState(batchSize, workers), steps), step)
    ensures var s := After(InitialState(batchSize, workers), steps);
            && (Result(s, step) ==> s.failed == {} && s.passed == s.added)
            && (!Result(s, step) ==> exists c :: c in s.added && c in s.failed)
            && IsIdle(Next(s, step))
  {
    WaitIsExact(After(InitialState(batchSize, workers), steps), step);
  }
}
