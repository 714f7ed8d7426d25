/**
 The task queue of the runtime: the ring buffer of include/runtime/taskpool.hpp, and the monitor
 protocol of its users (src/common/taskpool.cpp) as a step relation over all interleavings. A
 critical section of the queue mutex is one step; the return code is written outside any lock, so
 testing it and going to sleep are two steps under the pool mutex.
 */
module TaskQueue {

  type Task = nat

  // ----- The ring -------------------------------------------------------------------------------

  class RingQueue {
    const capacity: nat
    const queue: array<Task>
    var head: nat
    var tail: nat
    var length: nat

    ghost predicate Valid()
      reads this
    {
      && 2 <= capacity == queue.Length
      && head < capacity && tail < capacity && length < capacity
      && tail == (head + length) % capacity
    }

    /** The queued tasks, oldest first. */
    ghost function Contents(): (s: seq<Task>)
      requires Valid()
      reads this, queue
      ensures |s| == length
    {
      View(queue[..], head, length)
    }

    constructor (cap: nat)
      requires 2 <= cap
      ensures Valid() && Contents() == [] && capacity == cap && fresh(queue)
    {
      capacity := cap;
      queue := new Task[cap](_ => 0);
      head, tail, length := 0, 0, 0;
    }

    /** RingQueue::move */
    method Move(index: nat) returns (next: nat)
      requires capacity > 0
      ensures next == (index + 1) % capacity
    {
      next := index + 1;
      next := next % capacity;
    }

    /** The critical section of put: `ok` is false when the caller has to wait. */
    method TryPut(task: Task) returns (ok: bool)
      requires Valid()
      modifies this, queue
      ensures Valid()
      ensures ok <==> old(|Contents()|) < capacity - 1
      ensures Contents() == if ok then old(Contents()) + [task] else old(Contents())
    {
      if capacity - length <= 1 {
        return false;
      }
      ViewPush(queue[..], head, length, task);
      queue[tail] := task;
      tail := Move(tail);
      length := length + 1;
      ok := true;
    }

    /** The critical section of get: `ok` is false when the caller has to wait. */
    method TryGet() returns (ok: bool, task: Task, wasFull: bool)
      requires Valid()
      modifies this
      ensures Valid()
      ensures ok <==> old(Contents()) != []
      ensures ok ==> task == old(Contents())[0] && Contents() == old(Contents())[1..]
      ensures ok ==> wasFull == (old(|Contents()|) == capacity - 1)
      ensures !ok ==> Contents() == old(Contents())
    {
      task, wasFull := 0, false;
      if length == 0 {
        return false, task, wasFull;
      }
      ViewPop(queue[..], head, length);
      wasFull := capacity - length == 1;
      task := queue[head];
      head := Move(head);
      length := length - 1;
      ok := true;
    }
  }

  /** `n` cells of the ring from `head` on, wrapping around. */
  function View(cells: seq<Task>, head: nat, n: nat): (s: seq<Task>)
    requires |cells| > 0
    ensures |s| == n
  {
    seq(n, i requires 0 <= i < n => cells[(head + i) % |cells|])
  }

  lemma ViewPush(cells: seq<Task>, head: nat, n: nat, task: Task)
    requires head < |cells| && n + 1 < |cells|
    ensures var tail := (head + n) % |cells|;
            && View(cells[tail := task], head, n + 1) == View(cells, head, n) + [task]
            && (tail + 1) % |cells| == (head + (n + 1)) % |cells|
  {
    TailMoves(head, n, |cells|);
    var tail := (head + n) % |cells|;
    var after := View(cells[tail := task], head, n + 1);
    forall i: nat | i < n
      ensures after[i] == View(cells, head, n)[i]
    {
      CellsDiffer(head, i, n, |cells|);
    }
    SnocByIndex(after, View(cells, head, n), task);
  }

  lemma SnocByIndex(r: seq<Task>, s: seq<Task>, task: Task)
    requires |r| == |s| + 1 && r[|s|] == task
    requires forall i: nat :: i < |s| ==> r[i] == s[i]
    ensures r == s + [task]
  {
  }

  lemma ViewPop(cells: seq<Task>, head: nat, n: nat)
    requires head < |cells| && 0 < n <= |cells|
    ensures var next := (head + 1) % |cells|;
            && View(cells, head, n)[0] == cells[head]
            && View(cells, next, n - 1) == View(cells, head, n)[1..]
            && (next + (n - 1)) % |cells| == (head + n) % |cells|
  {
    var next := (head + 1) % |cells|;
    WrapOnce(head, |cells|);
    HeadMoves(head, n - 1, |cells|);
    forall i | 0 <= i < n - 1
      ensures View(cells, next, n - 1)[i] == View(cells, head, n)[1..][i]
    {
      HeadMoves(head, i, |cells|);
    }
  }

  lemma WrapOnce(x: nat, c: nat)
    requires 0 < c && x < 2 * c
    ensures x % c == if x < c then x else x - c
  {
  }

  lemma TailMoves(head: nat, n: nat, c: nat)
    requires head < c && n + 1 < c
    ensures ((head + n) % c + 1) % c == (head + (n + 1)) % c
  {
    WrapOnce(head + n, c);
    WrapOnce(head + n + 1, c);
    WrapOnce((head + n) % c + 1, c);
  }

  lemma HeadMoves(head: nat, i: nat, c: nat)
    requires head < c && i + 1 <= c
    ensures ((head + 1) % c + i) % c == (head + (i + 1)) % c
  {
    WrapOnce(head + 1, c);
    WrapOnce((head + 1) % c + i, c);
    WrapOnce(head + i + 1, c);
  }

  lemma CellsDiffer(head: nat, i: nat, j: nat, c: nat)
    requires head < c && i < j < c
    ensures (head + i) % c != (head + j) % c
  {
    WrapOnce(head + i, c);
    WrapOnce(head + j, c);
  }

  // ----- The protocol ---------------------------------------------------------------------------

  /** What a thread is about to do. */
  datatype PC =
    | Idle
    | PutTest(task: Task)      // put: about to lock and test
    | PutSleep(task: Task)     // put: in the wait set of _cond_idel
    | GetTest                  // get: about to lock and test
    | GetSleep                 // get: in the wait set of _cond_busy
    | GetWoken                 // get: notified, about to lock and test again
    | Running(task: Task)      // worker: executing the program
    | Written(task: Task)      // worker: return code written, about to notify waiters
    | WaitTest(task: Task)     // waitTask: about to lock and test
    | WaitHolding(task: Task)  // waitTask: found "not done", still holding the pool mutex
    | WaitSleep(task: Task)    // waitTask: in the wait set of _cond_feedback

  datatype State = State(
    capacity: nat, queue: seq<Task>, threads: seq<PC>, done: set<Task>, holder: int,
    added: seq<Task>, taken: seq<Task>)

  function Set(s: State, t: nat, pc: PC): State
    requires t < |s.threads|
  {
    s.(threads := s.threads[t := pc])
  }

  predicate Full(s: State) {
    s.capacity <= |s.queue| + 1
  }

  /** notify_one: some thread in the wait set, if there is one, becomes runnable again. */
  ghost predicate Notified(before: seq<PC>, sleeping: PC -> bool, woken: PC -> PC, after: seq<PC>) {
    || (after == before && forall t :: 0 <= t < |before| ==> !sleeping(before[t]))
    || exists t :: 0 <= t < |before| && sleeping(before[t]) && after == before[t := woken(before[t])]
  }

  function WakeWaiters(threads: seq<PC>): (r: seq<PC>)
    ensures |r| == |threads|
  {
    seq(|threads|, i requires 0 <= i < |threads| =>
      if threads[i].WaitSleep? then WaitTest(threads[i].task) else threads[i])
  }

  /** put, with the lock: sleep, or append and notify one sleeping getter. */
  ghost predicate PutStep(s: State, t: nat, s': State)
    requires t < |s.threads| && s.threads[t].PutTest?
  {
    var task := s.threads[t].task;
    if Full(s) then s' == Set(s, t, PutSleep(task))
    else
      && s' == s.(queue := s.queue + [task], added := s.added + [task], threads := s'.threads)
      && Notified(s.threads[t := Idle], (pc: PC) => pc.GetSleep?, (pc: PC) => GetWoken, s'.threads)
  }

  /** get, with the lock: sleep, or notify one sleeping putter if the ring was full, and take the oldest. */
  ghost predicate GetStep(s: State, t: nat, s': State)
    requires t < |s.threads| && (s.threads[t].GetTest? || s.threads[t].GetWoken?)
  {
    if s.queue == [] then s' == Set(s, t, GetSleep)
    else
      var threads := s.threads[t := Running(s.queue[0])];
      && s' == s.(queue := s.queue[1..], taken := s.taken + [s.queue[0]], threads := s'.threads)
      && if s.capacity == |s.queue| + 1
         then Notified(threads, (pc: PC) => pc.PutSleep?, (pc: PC) => if pc.PutSleep? then PutTest(pc.task) else pc, s'.threads)
         else s'.threads == threads
  }

  /** Everything else a thread can do. */
  ghost predicate LocalStep(s: State, t: nat, s': State)
    requires t < |s.threads|
  {
    match s.threads[t]
    case Idle => s' == Set(s, t, GetTest) || exists k :: s' == Set(s, t, PutTest(k)) || s' == Set(s, t, WaitTest(k))
    case PutSleep(k) => s' == Set(s, t, PutTest(k))        // spurious wake-up
    case GetSleep => s' == Set(s, t, GetTest)              // spurious wake-up
    case WaitSleep(k) => s' == Set(s, t, WaitTest(k))      // spurious wake-up
    case Running(k) => s' == Set(s, t, Written(k)).(done := s.done + {k})
    case Written(k) => s.holder < 0 && s' == s.(threads := WakeWaiters(s.threads)[t := GetTest])
    case WaitTest(k) =>
      && s.holder < 0
      && s' == if k in s.done then Set(s, t, Idle) else Set(s, t, WaitHolding(k)).(holder := t)
    case WaitHolding(k) => s' == Set(s, t, WaitSleep(k)).(holder := -1)
    case _ => false
  }

  ghost predicate Next(s: State, t: nat, s': State) {
    t < |s.threads| &&
    match s.threads[t]
    case PutTest(_) => PutStep(s, t, s')
    case GetTest => GetStep(s, t, s')
    case GetWoken => GetStep(s, t, s')
    case _ => LocalStep(s, t, s')
  }

  // ----- Invariants -----------------------------------------------------------------------------

  /** How many getters have been notified and not yet run. */
  function Woken(threads: seq<PC>): nat {
    if threads == [] then 0 else (if threads[0].GetWoken? then 1 else 0) + Woken(threads[1..])
  }

  lemma {:induction false} WokenUpdate(threads: seq<PC>, t: nat, pc: PC)
    requires t < |threads|
    ensures Woken(threads[t := pc]) == Woken(threads) - (if threads[t].GetWoken? then 1 else 0) + (if pc.GetWoken? then 1 else 0)
    decreases t
  {
    if t == 0 {
      assert threads[0 := pc][1..] == threads[1..];
    } else {
      WokenUpdate(threads[1..], t - 1, pc);
      assert threads[t := pc][1..] == threads[1..][t - 1 := pc];
    }
  }

  lemma {:induction false} WokenSame(a: seq<PC>, b: seq<PC>)
    requires |a| == |b| && forall i :: 0 <= i < |a| ==> (a[i].GetWoken? <==> b[i].GetWoken?)
    ensures Woken(a) == Woken(b)
    decreases |a|
  {
    if a != [] {
      WokenSame(a[1..], b[1..]);
    }
  }

  /** First in, first out, at most capacity - 1 tasks, nothing lost and nothing duplicated. */
  ghost predicate FifoInv(s: State) {
    2 <= s.capacity && |s.queue| + 1 <= s.capacity && s.added == s.taken + s.queue
  }

  /** While some getter sleeps there is a pending notification for every queued task. */
  ghost predicate GetterInv(s: State) {
    (exists t :: 0 <= t < |s.threads| && s.threads[t].GetSleep?) ==> |s.queue| <= Woken(s.threads)
  }

  ghost predicate NotifyPending(threads: seq<PC>, k: Task) {
    exists t :: 0 <= t < |threads| && threads[t] == Written(k)
  }

  /** The pool mutex is held by exactly the thread between test and sleep. */
  ghost predicate HolderInv(s: State) {
    && -1 <= s.holder < |s.threads|
    && forall t :: 0 <= t < |s.threads| ==> (s.threads[t].WaitHolding? <==> s.holder == t)
  }

  predicate Waiting(pc: PC) {
    pc.WaitSleep? || pc.WaitHolding?
  }

  /** A waiter that sleeps, or is about to, on a finished task still has its notification ahead. */
  ghost predicate WaiterInv(s: State) {
    forall t :: 0 <= t < |s.threads| && Waiting(s.threads[t]) && s.threads[t].task in s.done
      ==> NotifyPending(s.threads, s.threads[t].task)
  }

  ghost predicate Inv(s: State) {
    FifoInv(s) && GetterInv(s) && HolderInv(s) && WaiterInv(s)
  }

  lemma FifoStep(s: State, t: nat, s': State)
    requires FifoInv(s) && Next(s, t, s')
    ensures FifoInv(s') && s'.capacity == s.capacity && |s'.threads| == |s.threads|
  {
    if s'.queue == s.queue {
    } else if |s'.queue| < |s.queue| {
      assert s.queue == [s.queue[0]] + s.queue[1..];
    }
  }

  lemma GetterStep(s: State, t: nat, s': State)
    requires GetterInv(s) && Next(s, t, s')
    ensures GetterInv(s')
  {
    hide PutStep, GetStep, Woken;
    match s.threads[t]
    case PutTest(_) => GetterPut(s, t, s');
    case GetTest => GetterGet(s, t, s');
    case GetWoken => GetterGet(s, t, s');
    case Written(_) =>
      WokenSame(s.threads, WakeWaiters(s.threads));
      WokenUpdate(WakeWaiters(s.threads), t, GetTest);
      assert forall i :: 0 <= i < |s'.threads| && s'.threads[i].GetSleep? ==> s.threads[i].GetSleep?;
    case _ =>
      WokenUpdate(s.threads, t, s'.threads[t]);
      assert s'.threads == s.threads[t := s'.threads[t]];
      assert forall i :: 0 <= i < |s'.threads| && s'.threads[i].GetSleep? ==> s.threads[i].GetSleep?;
  }

  lemma GetterPut(s: State, t: nat, s': State)
    requires GetterInv(s) && t < |s.threads| && s.threads[t].PutTest? && PutStep(s, t, s')
    ensures GetterInv(s')
  {
    if Full(s) {
      WokenUpdate(s.threads, t, PutSleep(s.threads[t].task));
      assert forall i :: 0 <= i < |s'.threads| && s'.threads[i].GetSleep? ==> s.threads[i].GetSleep?;
    } else {
      var mid := s.threads[t := Idle];
      WokenUpdate(s.threads, t, Idle);
      if s'.threads != mid {
        var u :| 0 <= u < |mid| && mid[u].GetSleep? && s'.threads == mid[u := GetWoken];
        WokenUpdate(mid, u, GetWoken);
        assert s.threads[u].GetSleep?;
      }
    }
  }

  lemma GetterGet(s: State, t: nat, s': State)
    requires GetterInv(s) && t < |s.threads| && (s.threads[t].GetTest? || s.threads[t].GetWoken?) && GetStep(s, t, s')
    ensures GetterInv(s')
  {
    if s.queue != [] {
      var mid := s.threads[t := Running(s.queue[0])];
      WokenUpdate(s.threads, t, Running(s.queue[0]));
      if s'.threads != mid {
        var u :| 0 <= u < |mid| && mid[u].PutSleep? && s'.threads == mid[u := PutTest(mid[u].task)];
        WokenUpdate(mid, u, PutTest(mid[u].task));
      }
      assert forall i :: 0 <= i < |s'.threads| && s'.threads[i].GetSleep? ==> s.threads[i].GetSleep?;
    }
  }

  lemma HolderStep(s: State, t: nat, s': State)
    requires HolderInv(s) && Next(s, t, s')
    ensures HolderInv(s')
  {
  }

  /** The step of thread `t` leaves each old notification pending, apart from its own. */
  lemma WaiterStep(s: State, t: nat, s': State)
    requires WaiterInv(s) && HolderInv(s) && Next(s, t, s')
    ensures WaiterInv(s')
  {
    forall i: nat | i < |s'.threads| && Waiting(s'.threads[i]) && s'.threads[i].task in s'.done
      ensures NotifyPending(s'.threads, s'.threads[i].task)
    {
      var k := s'.threads[i].task;
      if s.threads[t] == Running(k) {
        assert s'.threads[t] == Written(k);
      } else {
        assert Waiting(s.threads[i]) && s.threads[i].task == k && k in s.done;
        var u :| 0 <= u < |s.threads| && s.threads[u] == Written(k);
        assert s'.threads[u] == Written(k);
      }
    }
  }

  // ----- Whole runs -----------------------------------------------------------------------------

  ghost predicate Initial(s: State) {
    && 2 <= s.capacity && s.queue == [] && s.added == [] && s.taken == [] && s.done == {} && s.holder == -1
    && forall t :: 0 <= t < |s.threads| ==> s.threads[t].Idle?
  }

  ghost predicate Step(s: State, s': State) {
    exists t: nat :: Next(s, t, s')
  }

  /** The states of an execution, any thread moving at each step. */
  ghost predicate Run(states: seq<State>) {
    && states != [] && Initial(states[0])
    && forall i, j :: 0 <= i < j < |states| && j == i + 1 ==> Step(states[i], states[j])
  }

  lemma {:induction false} RunInv(states: seq<State>, i: nat)
    requires Run(states) && i < |states|
    ensures Inv(states[i])
  {
    if i > 0 {
      RunInv(states, i - 1);
      var t: nat :| Next(states[i - 1], t, states[i]);
      InvStep(states[i - 1], t, states[i]);
    }
  }

  lemma InvStep(s: State, t: nat, s': State)
    requires Inv(s) && Next(s, t, s')
    ensures Inv(s') && |s'.threads| == |s.threads|
  {
    hide Next, FifoInv, GetterInv, HolderInv, WaiterInv;
    FifoStep(s, t, s');
    GetterStep(s, t, s');
    HolderStep(s, t, s');
    WaiterStep(s, t, s');
  }

  /**
   Over every interleaving: the tasks handed out are the first ones put, in that order; whenever
   some getter sleeps beside a queued task another getter is awake to take it; and a waiter that
   sleeps on a finished task has the notification still to come.
   */
  lemma RunSafe(states: seq<State>, i: nat)
    requires Run(states) && i < |states|
    ensures var s := states[i];
            && |s.queue| < s.capacity
            && s.taken + s.queue == s.added
            && (forall t :: 0 <= t < |s.threads| && s.threads[t].GetSleep? && s.queue != []
                 ==> exists u :: 0 <= u < |s.threads| && s.threads[u].GetWoken?)
            && (forall t :: 0 <= t < |s.threads| && s.threads[t].WaitSleep? && s.threads[t].task in s.done
                 ==> NotifyPending(s.threads, s.threads[t].task))
  {
    RunInv(states, i);
    if Woken(states[i].threads) > 0 {
      var u := SomeWoken(states[i].threads);
    }
  }

  lemma {:induction false} SomeWoken(threads: seq<PC>) returns (u: nat)
    requires Woken(threads) > 0
    ensures u < |threads| && threads[u].GetWoken?
  {
    if threads[0].GetWoken? {
      u := 0;
    } else {
      u := SomeWoken(threads[1..]);
      u := u + 1;
    }
  }

  /**
   The pending notification is never blocked for good: at most one other thread can hold the pool
   mutex, its next step releases it, and the notifying step then wakes the waiter.
   */
  lemma WaiterCanWake(s: State, t: nat) returns (mid: State, s': State)
    requires Inv(s) && t < |s.threads| && s.threads[t].WaitSleep? && s.threads[t].task in s.done
    ensures mid == s || Step(s, mid)
    ensures Step(mid, s') && |s'.threads| == |s.threads| && s'.threads[t] == WaitTest(s.threads[t].task)
    ensures s'.holder < 0 && s'.done == s.done
  {
    var k := s.threads[t].task;
    var u: nat :| u < |s.threads| && s.threads[u] == Written(k);
    mid := s;
    if s.holder >= 0 {
      mid := Set(s, s.holder, WaitSleep(s.threads[s.holder].task)).(holder := -1);
      assert Next(s, s.holder, mid);
    }
    s' := mid.(threads := WakeWaiters(mid.threads)[u := GetTest]);
    assert Next(mid, u, s');
  }

  // ----- What waitTask promises -----------------------------------------------------------------

  predicate WaitsFor(pc: PC, k: Task) {
    pc == WaitTest(k) || pc == WaitHolding(k) || pc == WaitSleep(k)
  }

  /** Finished and running tasks were handed out, and a worker notifies only about a finished one. */
  ghost predicate HandedOut(s: State) {
    && (forall k :: k in s.done ==> k in s.taken)
    && (forall t :: 0 <= t < |s.threads| && s.threads[t].Running? ==> s.threads[t].task in s.taken)
    && (forall t :: 0 <= t < |s.threads| && s.threads[t].Written? ==> s.threads[t].task in s.done)
  }

  ghost predicate Runs(s: State, k: Task) {
    exists t :: 0 <= t < |s.threads| && s.threads[t] == Running(k)
  }

  /** A task handed out is running or finished. */
  ghost predicate TaskInv(s: State) {
    HandedOut(s) && forall k :: k in s.taken ==> k in s.done || Runs(s, k)
  }

  lemma HandedOutStep(s: State, t: nat, s': State)
    requires HandedOut(s) && Next(s, t, s')
    ensures HandedOut(s')
  {
  }

  lemma RunsStep(s: State, t: nat, s': State, k: Task)
    requires Next(s, t, s') && k in s'.taken && (k in s.taken ==> k in s.done || Runs(s, k))
    ensures k in s'.done || Runs(s', k)
  {
    if k in s.taken && k !in s.done {
      var u :| 0 <= u < |s.threads| && s.threads[u] == Running(k);
      assert u == t || s'.threads[u] == Running(k);
    } else if k !in s.taken {
      assert s'.threads[t] == Running(k);
    }
  }

  lemma TaskStep(s: State, t: nat, s': State)
    requires TaskInv(s) && Next(s, t, s')
    ensures TaskInv(s')
  {
    hide Next, Runs, HandedOut;
    HandedOutStep(s, t, s');
    forall k | k in s'.taken
      ensures k in s'.done || Runs(s', k)
    {
      RunsStep(s, t, s', k);
    }
  }

  lemma {:induction false} RunTasks(states: seq<State>, i: nat)
    requires Run(states) && i < |states|
    ensures TaskInv(states[i])
  {
    hide Next, TaskInv;
    if i > 0 {
      RunTasks(states, i - 1);
      var t: nat :| Next(states[i - 1], t, states[i]);
      TaskStep(states[i - 1], t, states[i]);
    } else {
      NoTasks(states[0]);
    }
  }

  lemma NoTasks(s: State)
    requires Initial(s)
    ensures TaskInv(s)
  {
  }

  /** In the step from `s` to `s'` a worker writes the return code of `k`. */
  ghost predicate Finishes(s: State, s': State, k: Task) {
    exists t :: 0 <= t < |s.threads| == |s'.threads| && s.threads[t] == Running(k) && s'.threads[t] == Written(k)
  }

  lemma DoneStep(s: State, t: nat, s': State, k: Task)
    requires Next(s, t, s')
    ensures k in s'.done <==> k in s.done || Finishes(s, s', k)
  {
    if Finishes(s, s', k) {
      var u :| 0 <= u < |s.threads| && s.threads[u] == Running(k) && s'.threads[u] == Written(k);
      assert u == t;
    }
    if s.threads[t] == Running(k) {
      assert s'.threads[t] == Written(k);
    }
  }

  /** A task counts as finished exactly when a worker that ran it has written its return code. */
  lemma {:induction false} DoneIff(states: seq<State>, i: nat, k: Task)
    requires Run(states) && i < |states|
    ensures k in states[i].done <==> exists j :: 0 <= j < i && Finishes(states[j], states[j + 1], k)
  {
    hide Next, Finishes;
    if i > 0 {
      DoneIff(states, i - 1, k);
      var t: nat :| Next(states[i - 1], t, states[i]);
      DoneStep(states[i - 1], t, states[i], k);
      if Finishes(states[i - 1], states[i], k) {
        assert Finishes(states[i - 1], states[i - 1 + 1], k);
      }
    }
  }

  /** Over every run: waitTask returns only for a task that was handed out and whose return code is written. */
  lemma WaitReturns(states: seq<State>, i: nat, t: nat, k: Task)
    requires Run(states) && i + 1 < |states| && t < |states[i].threads| == |states[i + 1].threads|
    requires WaitsFor(states[i].threads[t], k) && states[i + 1].threads[t] == Idle
    ensures k in states[i].done && k in states[i].taken
    ensures exists j :: 0 <= j < i && Finishes(states[j], states[j + 1], k)
  {
    hide Next, Finishes, WaitsFor;
    var u: nat :| Next(states[i], u, states[i + 1]);
    ReturnStep(states[i], u, states[i + 1], t, k);
    RunTasks(states, i);
    DoneIff(states, i, k);
  }

  lemma ReturnStep(s: State, u: nat, s': State, t: nat, k: Task)
    requires Next(s, u, s') && t < |s.threads| == |s'.threads| && WaitsFor(s.threads[t], k) && s'.threads[t] == Idle
    ensures k in s.done
  {
    assert u == t;
  }

  /** Each state leads to the next. */
  ghost predicate Path(states: seq<State>) {
    forall i, j :: 0 <= i < j < |states| && j == i + 1 ==> Step(states[i], states[j])
  }

  /** And it can: once the return code is written, every waiter has a way to return within four steps. */
  lemma WaiterCanReturn(s: State, t: nat, k: Task) returns (path: seq<State>)
    requires Inv(s) && t < |s.threads| && WaitsFor(s.threads[t], k) && k in s.done
    ensures 1 < |path| <= 5 && path[0] == s && Path(path)
    ensures t < |path[|path| - 1].threads| && path[|path| - 1].threads[t] == Idle
  {
    hide Step, Next, Inv;
    path := [s];
    if s.threads[t] == WaitTest(k) {
      if s.holder >= 0 {
        var mid := Releases(s, t);
        path := Extend(path, mid);
      }
    } else {
      var asleep := s;
      if s.threads[t] == WaitHolding(k) {
        asleep := FallsAsleep(s, t, k);
        path := Extend(path, asleep);
      }
      var mid, awake := WaiterCanWake(asleep, t);
      if mid != asleep {
        path := Extend(path, mid);
      }
      path := Extend(path, awake);
    }
    var last := path[|path| - 1];
    path := Extend(path, Returns(last, t, k));
  }

  lemma Extend(path: seq<State>, s: State) returns (more: seq<State>)
    requires path != [] && Path(path) && Step(path[|path| - 1], s)
    ensures more == path + [s] && Path(more)
  {
    hide Step;
    more := path + [s];
  }

  lemma Releases(s: State, t: nat) returns (s': State)
    requires Inv(s) && t < |s.threads| && s.threads[t].WaitTest? && s.holder >= 0
    ensures Step(s, s') && |s'.threads| == |s.threads| && s'.threads[t] == s.threads[t]
    ensures s'.holder < 0 && s'.done == s.done
  {
    s' := Set(s, s.holder, WaitSleep(s.threads[s.holder].task)).(holder := -1);
    assert Next(s, s.holder, s');
  }

  lemma FallsAsleep(s: State, t: nat, k: Task) returns (s': State)
    requires Inv(s) && t < |s.threads| && s.threads[t] == WaitHolding(k)
    ensures Step(s, s') && Inv(s') && |s'.threads| == |s.threads| && s'.threads[t] == WaitSleep(k) && s'.done == s.done
  {
    s' := Set(s, t, WaitSleep(k)).(holder := -1);
    assert Next(s, t, s');
    InvStep(s, t, s');
  }

  ghost function Returns(s: State, t: nat, k: Task): (s': State)
    requires t < |s.threads| && s.threads[t] == WaitTest(k) && k in s.done && s.holder < 0
    ensures Step(s, s') && |s'.threads| == |s.threads| && s'.threads[t] == Idle
  {
    var s' := Set(s, t, Idle);
    assert Next(s, t, s');
    s'
  }

  // ----- Blocked producers ----------------------------------------------------------------------

  ghost predicate OneBlocked(s: State) {
    forall t, u :: 0 <= t < u < |s.threads| ==> !(s.threads[t].PutSleep? && s.threads[u].PutSleep?)
  }

  ghost predicate ProducerInv(s: State) {
    forall t :: 0 <= t < |s.threads| && s.threads[t].PutSleep? ==> Full(s)
  }

  lemma ProducerStep(s: State, t: nat, s': State)
    requires FifoInv(s) && ProducerInv(s) && OneBlocked(s) && Next(s, t, s')
    ensures ProducerInv(s')
  {
  }

  /** As long as no two producers are blocked at once, a blocked producer sleeps beside a full ring only. */
  lemma {:induction false} RunProducers(states: seq<State>, i: nat)
    requires Run(states) && i < |states|
    requires forall j :: 0 <= j < i ==> OneBlocked(states[j])
    ensures ProducerInv(states[i])
  {
    if i > 0 {
      RunProducers(states, i - 1);
      RunInv(states, i - 1);
      var t: nat :| Next(states[i - 1], t, states[i]);
      ProducerStep(states[i - 1], t, states[i]);
    }
  }

  /** And two are enough to break it: whatever a getter does next leaves one asleep beside a free cell. */
  lemma TwoBlockedFail(s: State, t: nat, s': State)
    requires FifoInv(s) && ProducerInv(s) && !OneBlocked(s)
    requires t < |s.threads| && (s.threads[t].GetTest? || s.threads[t].GetWoken?) && Next(s, t, s')
    ensures !ProducerInv(s')
  {
    var a, b :| 0 <= a < b < |s.threads| && s.threads[a].PutSleep? && s.threads[b].PutSleep?;
    assert s'.threads[a].PutSleep? || s'.threads[b].PutSleep?;
  }

  // ----- Who puts -------------------------------------------------------------------------------

  predicate Putting(pc: PC) {
    pc.PutTest? || pc.PutSleep?
  }

  ghost predicate PutsOnly(s: State, producers: set<nat>) {
    forall t: nat :: t < |s.threads| && Putting(s.threads[t]) ==> t in producers
  }

  /** In no run of `n` threads, of which only `producers` ever put, does a producer sleep beside a free cell. */
  ghost predicate NeverStrands(c: nat, n: nat, producers: set<nat>) {
    forall states: seq<State>, i: nat :: RunBy(states, c, n, producers) && i < |states| ==> ProducerInv(states[i])
  }

  ghost predicate RunBy(states: seq<State>, c: nat, n: nat, producers: set<nat>) {
    && Run(states) && states[0].capacity == c && |states[0].threads| == n
    && forall j :: 0 <= j < |states| ==> PutsOnly(states[j], producers)
  }

  /** For every ring of three cells or more and three threads or more: exactly when at most one thread puts. */
  lemma NeverStrandsIff(c: nat, n: nat, producers: set<nat>)
    requires 3 <= c && 3 <= n && forall t :: t in producers ==> t < n
    ensures NeverStrands(c, n, producers) <==> |producers| <= 1
  {
    if |producers| <= 1 {
      forall states: seq<State>, i: nat | RunBy(states, c, n, producers) && i < |states|
        ensures ProducerInv(states[i])
      {
        forall j | 0 <= j < i
          ensures OneBlocked(states[j])
        {
          AtMostOne(states[j], producers);
        }
        RunProducers(states, i);
      }
    } else {
      var crew := PickCrew(n, producers);
      ProducerStranded(producers, crew, c);
      StrandedRun(producers, crew, c);
    }
  }

  lemma AtMostOne(s: State, producers: set<nat>)
    requires |producers| <= 1 && PutsOnly(s, producers)
    ensures OneBlocked(s)
  {
    forall t: nat, u: nat | t < u < |s.threads|
      ensures !(s.threads[t].PutSleep? && s.threads[u].PutSleep?)
    {
      if s.threads[t].PutSleep? && s.threads[u].PutSleep? {
        PairSize(producers, t, u);
      }
    }
  }

  lemma PairSize(producers: set<nat>, t: nat, u: nat)
    requires t in producers && u in producers && t != u
    ensures |producers| >= 2
  {
    assert |producers - {t}| == |producers| - 1;
    assert u in producers - {t};
  }

  /** Two producers and a worker among `n` threads; the others stay idle. */
  datatype Crew = Crew(n: nat, a: nat, b: nat, w: nat)

  ghost predicate CrewOk(crew: Crew, producers: set<nat>) {
    && crew.a < crew.n && crew.b < crew.n && crew.w < crew.n && crew.a != crew.b && crew.a != crew.w && crew.b != crew.w
    && crew.a in producers && crew.b in producers
  }

  lemma PickCrew(n: nat, producers: set<nat>) returns (crew: Crew)
    requires 3 <= n && |producers| >= 2 && forall t :: t in producers ==> t < n
    ensures CrewOk(crew, producers) && crew.n == n
  {
    var a :| a in producers;
    assert |producers - {a}| == |producers| - 1;
    var b :| b in producers - {a};
    crew := Crew(n, a, b, if a != 0 && b != 0 then 0 else if a != 1 && b != 1 then 1 else 2);
  }

  function Threads(crew: Crew, a: PC, b: PC, w: PC): seq<PC> {
    seq(crew.n, i => if i == crew.a then a else if i == crew.b then b else if i == crew.w then w else Idle)
  }

  /** Moving one of the three. */
  lemma ThreadsMove(producers: set<nat>, crew: Crew, a: PC, b: PC, w: PC, x: PC)
    requires CrewOk(crew, producers)
    ensures var ts := Threads(crew, a, b, w);
            && |ts| == crew.n && ts[crew.a] == a && ts[crew.b] == b && ts[crew.w] == w
            && ts[crew.a := x] == Threads(crew, x, b, w) && ts[crew.b := x] == Threads(crew, a, x, w)
            && ts[crew.w := x] == Threads(crew, a, b, x)
            && forall i :: 0 <= i < crew.n ==> ts[i] == a || ts[i] == b || ts[i] == w || ts[i] == Idle
  {
  }

  lemma ThreadsPut(producers: set<nat>, crew: Crew, a: PC, b: PC, w: PC, s: State)
    requires CrewOk(crew, producers) && !Putting(w) && s.threads == Threads(crew, a, b, w)
    ensures PutsOnly(s, producers)
  {
  }

  lemma ThreadsWaiters(crew: Crew, a: PC, b: PC, w: PC)
    requires !a.WaitSleep? && !b.WaitSleep? && !w.WaitSleep?
    ensures WakeWaiters(Threads(crew, a, b, w)) == Threads(crew, a, b, w)
  {
  }

  // ----- A run that strands a producer ----------------------------------------------------------

  /** Reached by a run in which only `producers` put. */
  ghost predicate Reachable(producers: set<nat>, s: State) {
    exists states :: Run(states) && states[|states| - 1] == s && forall j :: 0 <= j < |states| ==> PutsOnly(states[j], producers)
  }

  lemma ReachNext(producers: set<nat>, s: State, t: nat, s': State)
    requires Reachable(producers, s) && Next(s, t, s') && PutsOnly(s', producers)
    ensures Reachable(producers, s')
  {
    hide Next;
    var states :| Run(states) && states[|states| - 1] == s && forall j :: 0 <= j < |states| ==> PutsOnly(states[j], producers);
    var more := states + [s'];
    assert Step(s, s');
    assert Run(more);
  }

  /** A state of the crew with `n` tasks queued and the pool mutex free. */
  ghost predicate CrewState(crew: Crew, c: nat, n: nat, a: PC, b: PC, w: PC, s: State) {
    s.capacity == c && |s.queue| == n && s.threads == Threads(crew, a, b, w) && s.holder == -1
  }

  ghost predicate Reaches(producers: set<nat>, crew: Crew, c: nat, n: nat, a: PC, b: PC, w: PC) {
    exists s :: Reachable(producers, s) && CrewState(crew, c, n, a, b, w, s)
  }

  lemma CrewNext(producers: set<nat>, crew: Crew, c: nat, n: nat, a: PC, b: PC, w: PC, s: State, t: nat, s': State)
    requires CrewOk(crew, producers) && Reachable(producers, s) && Next(s, t, s') && !Putting(w) && CrewState(crew, c, n, a, b, w, s')
    ensures Reachable(producers, s') && Reaches(producers, crew, c, n, a, b, w)
  {
    hide Reachable, Next, PutsOnly;
    ThreadsPut(producers, crew, a, b, w, s');
    ReachNext(producers, s, t, s');
  }

  lemma {:induction false} Fill(producers: set<nat>, crew: Crew, c: nat, n: nat)
    requires CrewOk(crew, producers) && 2 <= c && n < c
    ensures Reaches(producers, crew, c, n, Idle, Idle, Idle)
  {
    if n == 0 {
      var s := State(c, [], Threads(crew, Idle, Idle, Idle), {}, -1, [], []);
      var states := [s];
      assert Run(states) && states[|states| - 1] == s;
      assert forall j :: 0 <= j < |states| ==> PutsOnly(states[j], producers);
      assert Reachable(producers, s) && CrewState(crew, c, 0, Idle, Idle, Idle, s);
    } else {
      Fill(producers, crew, c, n - 1);
      FirstBegins(producers, crew, c, n - 1, Idle, Idle);
      FirstPuts(producers, crew, c, n - 1, Idle, Idle);
    }
  }

  lemma FirstBegins(producers: set<nat>, crew: Crew, c: nat, n: nat, b: PC, w: PC)
    requires CrewOk(crew, producers) && Reaches(producers, crew, c, n, Idle, b, w) && !Putting(w)
    ensures Reaches(producers, crew, c, n, PutTest(0), b, w)
  {
    hide Reachable, Threads;
    var s :| Reachable(producers, s) && CrewState(crew, c, n, Idle, b, w, s);
    ThreadsMove(producers, crew, Idle, b, w, PutTest(0));
    CrewNext(producers, crew, c, n, PutTest(0), b, w, s, crew.a, Set(s, crew.a, PutTest(0)));
  }

  lemma FirstPuts(producers: set<nat>, crew: Crew, c: nat, n: nat, b: PC, w: PC)
    requires CrewOk(crew, producers) && Reaches(producers, crew, c, n, PutTest(0), b, w) && n + 1 < c
    requires !b.GetSleep? && !w.GetSleep? && !Putting(w)
    ensures Reaches(producers, crew, c, n + 1, Idle, b, w)
  {
    hide Reachable, Threads, LocalStep, GetStep;
    var s :| Reachable(producers, s) && CrewState(crew, c, n, PutTest(0), b, w, s);
    ThreadsMove(producers, crew, PutTest(0), b, w, Idle);
    ThreadsMove(producers, crew, Idle, b, w, Idle);
    var s' := s.(queue := s.queue + [0], added := s.added + [0], threads := Threads(crew, Idle, b, w));
    CrewNext(producers, crew, c, n + 1, Idle, b, w, s, crew.a, s');
  }

  lemma BothBlock(producers: set<nat>, crew: Crew, c: nat)
    requires CrewOk(crew, producers) && 2 <= c
    ensures Reaches(producers, crew, c, c - 1, PutSleep(0), PutSleep(0), GetTest)
  {
    hide Reachable, Threads, GetStep;
    Fill(producers, crew, c, c - 1);
    FirstBegins(producers, crew, c, c - 1, Idle, Idle);
    var s :| Reachable(producers, s) && CrewState(crew, c, c - 1, PutTest(0), Idle, Idle, s);
    ThreadsMove(producers, crew, PutTest(0), Idle, Idle, PutSleep(0));
    var s1 := Set(s, crew.a, PutSleep(0));
    CrewNext(producers, crew, c, c - 1, PutSleep(0), Idle, Idle, s, crew.a, s1);
    ThreadsMove(producers, crew, PutSleep(0), Idle, Idle, PutTest(0));
    var s2 := Set(s1, crew.b, PutTest(0));
    CrewNext(producers, crew, c, c - 1, PutSleep(0), PutTest(0), Idle, s1, crew.b, s2);
    ThreadsMove(producers, crew, PutSleep(0), PutTest(0), Idle, PutSleep(0));
    var s3 := Set(s2, crew.b, PutSleep(0));
    CrewNext(producers, crew, c, c - 1, PutSleep(0), PutSleep(0), Idle, s2, crew.b, s3);
    ThreadsMove(producers, crew, PutSleep(0), PutSleep(0), Idle, GetTest);
    CrewNext(producers, crew, c, c - 1, PutSleep(0), PutSleep(0), GetTest, s3, crew.w, Set(s3, crew.w, GetTest));
  }

  /** The worker takes a task; `a2` is what becomes of the first producer. */
  lemma WorkerGets(producers: set<nat>, crew: Crew, c: nat, n: nat, a: PC, a2: PC, b: PC, s: State) returns (s1: State)
    requires CrewOk(crew, producers) && Reachable(producers, s) && CrewState(crew, c, n, a, b, GetTest, s) && n > 0
    requires if c == n + 1 then a == PutSleep(0) && a2 == PutTest(0) else a2 == a
    ensures Reachable(producers, s1) && CrewState(crew, c, n - 1, a2, b, Running(s.queue[0]), s1)
  {
    hide Reachable, Threads, PutStep, LocalStep;
    var k := s.queue[0];
    s1 := s.(queue := s.queue[1..], taken := s.taken + [k], threads := Threads(crew, a2, b, Running(k)));
    ThreadsMove(producers, crew, a, b, GetTest, Running(k));
    ThreadsMove(producers, crew, a, b, Running(k), a2);
    if c == n + 1 {
      var mid := s.threads[crew.w := Running(k)];
      assert mid[crew.a].PutSleep? && s1.threads == mid[crew.a := PutTest(mid[crew.a].task)];
    }
    CrewNext(producers, crew, c, n - 1, a2, b, Running(k), s, crew.w, s1);
  }

  /** ... runs it and comes back. */
  lemma WorkerTakes(producers: set<nat>, crew: Crew, c: nat, n: nat, a: PC, a2: PC, b: PC)
    requires CrewOk(crew, producers) && Reaches(producers, crew, c, n, a, b, GetTest) && n > 0
    requires !a2.WaitSleep? && !b.WaitSleep?
    requires if c == n + 1 then a == PutSleep(0) && a2 == PutTest(0) else a2 == a
    ensures Reaches(producers, crew, c, n - 1, a2, b, GetTest)
  {
    hide Reachable, Threads, PutStep, GetStep, WakeWaiters;
    var s :| Reachable(producers, s) && CrewState(crew, c, n, a, b, GetTest, s);
    var k := s.queue[0];
    var s1 := WorkerGets(producers, crew, c, n, a, a2, b, s);
    ThreadsMove(producers, crew, a2, b, Running(k), Written(k));
    var s2 := Set(s1, crew.w, Written(k)).(done := s1.done + {k});
    CrewNext(producers, crew, c, n - 1, a2, b, Written(k), s1, crew.w, s2);
    ThreadsMove(producers, crew, a2, b, Written(k), GetTest);
    ThreadsWaiters(crew, a2, b, Written(k));
    CrewNext(producers, crew, c, n - 1, a2, b, GetTest, s2, crew.w, s2.(threads := Threads(crew, a2, b, GetTest)));
  }

  lemma {:induction false} Drain(producers: set<nat>, crew: Crew, c: nat, n: nat)
    requires CrewOk(crew, producers) && n + 1 < c && Reaches(producers, crew, c, n, PutTest(0), PutSleep(0), GetTest)
    ensures Reaches(producers, crew, c, 0, PutTest(0), PutSleep(0), GetTest)
    decreases n
  {
    hide Reaches;
    if n > 0 {
      WorkerTakes(producers, crew, c, n, PutTest(0), PutTest(0), PutSleep(0));
      Drain(producers, crew, c, n - 1);
    }
  }

  /**
   The lost wake-up at its worst, for every ring of three cells or more and any two producers and a
   worker among any number of threads: a producer left asleep beside an empty ring, with the worker
   asleep too and nobody about to notify either.
   */
  lemma ProducerStranded(producers: set<nat>, crew: Crew, c: nat)
    requires CrewOk(crew, producers) && 3 <= c
    ensures Reaches(producers, crew, c, 0, Idle, PutSleep(0), GetSleep)
  {
    hide Reachable, Threads, PutStep, LocalStep;
    BothBlock(producers, crew, c);
    WorkerTakes(producers, crew, c, c - 1, PutSleep(0), PutTest(0), PutSleep(0));
    Drain(producers, crew, c, c - 2);
    FirstPuts(producers, crew, c, 0, PutSleep(0), GetTest);
    WorkerTakes(producers, crew, c, 1, Idle, Idle, PutSleep(0));
    var s :| Reachable(producers, s) && CrewState(crew, c, 0, Idle, PutSleep(0), GetTest, s);
    ThreadsMove(producers, crew, Idle, PutSleep(0), GetTest, GetSleep);
    CrewNext(producers, crew, c, 0, Idle, PutSleep(0), GetSleep, s, crew.w, Set(s, crew.w, GetSleep));
  }

  lemma StrandedRun(producers: set<nat>, crew: Crew, c: nat)
    requires CrewOk(crew, producers) && 3 <= c && Reaches(producers, crew, c, 0, Idle, PutSleep(0), GetSleep)
    ensures !NeverStrands(c, crew.n, producers)
  {
    hide Next;
    var s :| Reachable(producers, s) && CrewState(crew, c, 0, Idle, PutSleep(0), GetSleep, s);
    var states :| Run(states) && states[|states| - 1] == s && forall j :: 0 <= j < |states| ==> PutsOnly(states[j], producers);
    RunShape(states, |states| - 1);
    ThreadsMove(producers, crew, Idle, PutSleep(0), GetSleep, Idle);
    assert s.threads[crew.b].PutSleep? && !Full(s);
    assert RunBy(states, c, crew.n, producers) && !ProducerInv(states[|states| - 1]);
  }

  lemma {:induction false} RunShape(states: seq<State>, i: nat)
    requires Run(states) && i < |states|
    ensures states[i].capacity == states[0].capacity && |states[i].threads| == |states[0].threads|
  {
    hide Next, GetterInv, HolderInv, WaiterInv;
    if i > 0 {
      RunShape(states, i - 1);
      RunInv(states, i - 1);
      var t: nat :| Next(states[i - 1], t, states[i]);
      FifoStep(states[i - 1], t, states[i]);
    }
  }
}
