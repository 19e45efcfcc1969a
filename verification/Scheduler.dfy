/**
  schedule() and the counter part of do_timer in kernel/sched.c.  Task 0 is the idle
  task; the others have a fixed positive priority and a counter of ticks left.
 */
module Scheduler {

  datatype Sched = Sched(prio: seq<nat>, counter: seq<nat>, run: seq<bool>, cur: nat)

  ghost predicate Shape(s: Sched) {
    |s.prio| == |s.counter| == |s.run| && |s.prio| >= 1 && s.cur < |s.prio|
  }

  /** Every counter is at most twice the priority less one. */
  ghost predicate Bounded(prio: seq<nat>, counter: seq<nat>) {
    |counter| == |prio| && forall i :: 1 <= i < |prio| ==> prio[i] > 0 && counter[i] <= 2 * prio[i] - 1
  }

  ghost predicate Inv(s: Sched) { Shape(s) && Bounded(s.prio, s.counter) }

  // ----- Choosing

  predicate SomeRunnable(run: seq<bool>) {
    exists i :: 1 <= i < |run| && run[i]
  }

  /** Task i is runnable, no runnable task has more ticks left, and among equals it has the highest number. */
  ghost predicate IsBest(counter: seq<nat>, run: seq<bool>, i: nat)
    requires |counter| == |run|
  {
    && 1 <= i < |run| && run[i]
    && (forall j :: 1 <= j < |run| && run[j] ==> counter[j] <= counter[i])
    && (forall j :: i < j < |run| && run[j] ==> counter[j] < counter[i])
  }

  predicate Exhausted(counter: seq<nat>, run: seq<bool>)
    requires |counter| == |run|
  {
    forall j :: 1 <= j < |run| && run[j] ==> counter[j] == 0
  }

  function Refilled(prio: seq<nat>, counter: seq<nat>): seq<nat>
    requires |prio| == |counter|
  {
    seq(|prio|, i requires 0 <= i < |prio| => if i == 0 then counter[0] else counter[i] / 2 + prio[i])
  }

  /** What schedule() does: s' follows s. */
  ghost predicate Scheduled(s: Sched, s': Sched)
    requires Shape(s)
  {
    && s'.prio == s.prio && s'.run == s.run && |s'.counter| == |s.counter|
    && s'.counter == (if SomeRunnable(s.run) && Exhausted(s.counter, s.run) then Refilled(s.prio, s.counter)
       else s.counter)
    && (if SomeRunnable(s.run) then IsBest(s'.counter, s.run, s'.cur) else s'.cur == 0)
  }

  lemma RefilledBounded(prio: seq<nat>, counter: seq<nat>)
    requires Bounded(prio, counter)
    ensures Bounded(prio, Refilled(prio, counter))
    ensures forall i :: 1 <= i < |prio| ==> Refilled(prio, counter)[i] >= prio[i] >= 1
  {
  }

  lemma ScheduledKeeps(s: Sched, s': Sched)
    requires Inv(s) && Scheduled(s, s')
    ensures Inv(s')
    ensures s'.cur != 0 ==> s'.run[s'.cur] && s'.counter[s'.cur] > 0
  {
    RefilledBounded(s.prio, s.counter);
    if s'.cur != 0 && !Exhausted(s.counter, s.run) {
      var j :| 1 <= j < |s.run| && s.run[j] && s.counter[j] != 0;
      assert s'.counter[j] <= s'.counter[s'.cur];
    }
  }

  /** The running task has one tick less. */
  function Charged(s: Sched): Sched
    requires s.cur < |s.counter|
  {
    if s.counter[s.cur] > 0 then s.(counter := s.counter[s.cur := s.counter[s.cur] - 1]) else s
  }

  ghost predicate Ticked(s: Sched, s': Sched)
    requires Shape(s)
  {
    var m := Charged(s);
    if m.counter[m.cur] > 0 then s' == m else Scheduled(m, s')
  }

  // ----- How long a runnable task can be kept waiting

  datatype Event =
    | Tick              // timer interrupt in user mode
    | Block             // the running task goes to sleep
    | Yield             // the running task gives up its ticks
    | Reschedule        // schedule() is called for any other reason
    | Wake(j: nat)      // some task becomes runnable

  ghost predicate Step(s: Sched, e: Event, s': Sched)
    requires Shape(s)
  {
    match e
    case Tick => Ticked(s, s')
    case Block => Scheduled(s.(run := s.run[s.cur := false]), s')
    case Yield => Scheduled(s.(counter := s.counter[s.cur := 0]), s')
    case Reschedule => Scheduled(s, s')
    case Wake(j) => j < |s.run| && s' == s.(run := s.run[j := true])
  }

  function Sum(a: seq<nat>, i: nat): nat
    requires i <= |a|
    decreases |a| - i
  {
    if i == |a| then 0 else a[i] + Sum(a, i + 1)
  }

  /** The most that all counters together can hold. */
  function Capacity(prio: seq<nat>, i: nat): nat
    requires i <= |prio|
    decreases |prio| - i
  {
    if i == |prio| then 0 else (if prio[i] > 0 then 2 * prio[i] - 1 else 0) + Capacity(prio, i + 1)
  }

  lemma {:induction false} SumBounded(prio: seq<nat>, counter: seq<nat>, i: nat)
    requires Bounded(prio, counter) && 1 <= i <= |prio|
    ensures Sum(counter, i) <= Capacity(prio, i)
    decreases |prio| - i
  {
    if i < |prio| { SumBounded(prio, counter, i + 1); }
  }

  lemma {:induction false} SumUpdate(a: seq<nat>, i: nat, k: nat, x: nat)
    requires i <= |a| && k < |a|
    ensures Sum(a[k := x], i) == Sum(a, i) + (if i <= k then x - a[k] else 0)
    decreases |a| - i
  {
    if i < |a| { SumUpdate(a, i + 1, k, x); }
  }

  /** Task k can run, but another task, not the idle one, has the processor. */
  ghost predicate Waiting(s: Sched, k: nat) {
    Inv(s) && 1 <= k < |s.run| && s.run[k] && s.cur != k && s.cur != 0
  }

  /** Ticks that can pass before task k is chosen. */
  function Budget(s: Sched, k: nat): nat
    requires 1 <= |s.counter| == |s.prio| && k < |s.counter|
  {
    Sum(s.counter, 1) + if s.counter[k] == 0 then Capacity(s.prio, 1) else 0
  }

  /** A call of schedule() never adds to the budget: slices are only renewed when k has used up its own. */
  lemma ScheduledBudget(s: Sched, s': Sched, k: nat)
    requires Inv(s) && Scheduled(s, s') && 1 <= k < |s.run| && s.run[k]
    ensures |s'.counter| == |s'.prio| == |s.prio| && Budget(s', k) <= Budget(s, k)
  {
    if s'.counter != s.counter {
      RefilledBounded(s.prio, s.counter);
      assert s.counter[k] == 0;
      SumBounded(s.prio, s'.counter, 1);
    }
  }

  lemma StepBudget(s: Sched, e: Event, s': Sched, k: nat)
    requires Waiting(s, k) && s.counter[s.cur] > 0 && Step(s, e, s') && Waiting(s', k)
    ensures s'.counter[s'.cur] > 0 && s'.prio == s.prio
    ensures Budget(s', k) + (if e.Tick? then 1 else 0) <= Budget(s, k)
  {
    match e
    case Tick =>
      var m := Charged(s);
      SumUpdate(s.counter, 1, s.cur, s.counter[s.cur] - 1);
      if m.counter[m.cur] == 0 {
        ScheduledBudget(m, s', k);
        ScheduledKeeps(m, s');
      }
    case Block =>
      var m := s.(run := s.run[s.cur := false]);
      ScheduledBudget(m, s', k);
      ScheduledKeeps(m, s');
    case Yield =>
      var m := s.(counter := s.counter[s.cur := 0]);
      SumUpdate(s.counter, 1, s.cur, 0);
      ScheduledBudget(m, s', k);
      ScheduledKeeps(m, s');
    case Reschedule =>
      ScheduledBudget(s, s', k);
      ScheduledKeeps(s, s');
    case Wake(j) =>
  }

  function Ticks(es: seq<Event>): nat {
    if es == [] then 0 else (if es[0].Tick? then 1 else 0) + Ticks(es[1..])
  }

  ghost predicate WaitingRun(ss: seq<Sched>, es: seq<Event>, k: nat) {
    && |ss| == |es| + 1
    && (forall i :: 0 <= i < |ss| ==> Waiting(ss[i], k))
    && (forall i {:trigger es[i]} :: 0 <= i < |es| ==> Step(ss[i], es[i], ss[i + 1]))
  }

  /**
    Bounded waiting: however the other tasks sleep, wake and compute, a task that stays
    runnable is chosen within twice the sum of all (2 * priority - 1) ticks.
   */
  lemma {:induction false} BoundedWaiting(ss: seq<Sched>, es: seq<Event>, k: nat)
    requires WaitingRun(ss, es, k) && ss[0].counter[ss[0].cur] > 0
    ensures Ticks(es) <= Budget(ss[0], k) <= 2 * Capacity(ss[0].prio, 1)
    decreases |es|
  {
    SumBounded(ss[0].prio, ss[0].counter, 1);
    if es != [] {
      assert Step(ss[0], es[0], ss[1]);
      StepBudget(ss[0], es[0], ss[1], k);
      var ss', es' := ss[1..], es[1..];
      forall i | 0 <= i < |es'| ensures Step(ss'[i], es'[i], ss'[i + 1]) { assert es'[i] == es[i + 1]; }
      BoundedWaiting(ss', es', k);
    }
  }

  // ----- What a task that sleeps is owed

  /** Halving n times, rounded down each time. */
  function Halved(d: int, n: nat): int
    decreases n
  {
    if n == 0 then d else Halved(d / 2, n - 1)
  }

  function Pow2(n: nat): nat { if n == 0 then 1 else 2 * Pow2(n - 1) }

  /** Halving n times is dividing by the n-th power of two. */
  lemma {:induction false} HalvedIs(d: nat, n: nat)
    ensures Halved(d, n) * Pow2(n) <= d < (Halved(d, n) + 1) * Pow2(n)
  {
    if n > 0 {
      HalvedIs(d / 2, n - 1);
      Twice(Halved(d / 2, n - 1), Pow2(n - 1));
      Twice(Halved(d / 2, n - 1) + 1, Pow2(n - 1));
    }
  }

  lemma Twice(h: int, p: int)
    ensures h * (2 * p) == 2 * (h * p)
  {
  }

  /** Renewing the slices halves how far a counter is from its bound, rounded down. */
  lemma RenewalHalves(prio: seq<nat>, counter: seq<nat>, i: nat)
    requires Bounded(prio, counter) && 1 <= i < |prio|
    ensures var bound := 2 * prio[i] - 1;
            bound - Refilled(prio, counter)[i] == (bound - counter[i]) / 2
  {
  }

  /** Of two sleepers with equal priority the one that has more ticks still has no fewer. */
  lemma RenewalKeepsOrder(prio: seq<nat>, counter: seq<nat>, i: nat, j: nat)
    requires Bounded(prio, counter) && 1 <= i < |prio| && 1 <= j < |prio| && prio[i] == prio[j]
    requires counter[i] <= counter[j]
    ensures Refilled(prio, counter)[i] <= Refilled(prio, counter)[j]
  {
    RenewalHalves(prio, counter, i);
    RenewalHalves(prio, counter, j);
  }

  /** The state in which an event calls schedule(), if it does. */
  function Calls(s: Sched, e: Event): (m: seq<Sched>)
    requires s.cur < |s.counter| == |s.run|
    ensures |m| <= 1
  {
    match e
    case Tick => if Charged(s).counter[s.cur] > 0 then [] else [Charged(s)]
    case Block => [s.(run := s.run[s.cur := false])]
    case Yield => [s.(counter := s.counter[s.cur := 0])]
    case Reschedule => [s]
    case Wake(_) => []
  }

  /** The event renews the slices: every runnable task has used up its own. */
  predicate Renews(s: Sched, e: Event)
    requires s.cur < |s.counter| == |s.run|
  {
    var m := Calls(s, e);
    m != [] && |m[0].run| == |m[0].counter| && SomeRunnable(m[0].run) && Exhausted(m[0].counter, m[0].run)
  }

  ghost predicate History(ss: seq<Sched>, es: seq<Event>) {
    && |ss| == |es| + 1
    && (forall i :: 0 <= i < |ss| ==> Inv(ss[i]))
    && (forall i {:trigger es[i]} :: 0 <= i < |es| ==> Step(ss[i], es[i], ss[i + 1]))
  }

  ghost function Renewals(ss: seq<Sched>, es: seq<Event>): nat
    requires History(ss, es)
  {
    if es == [] then 0
    else
      HistoryRest(ss, es);
      (if Renews(ss[0], es[0]) then 1 else 0) + Renewals(ss[1..], es[1..])
  }

  /** Task k sleeps, and does not have the processor. */
  predicate Asleep(s: Sched, k: nat) { 1 <= k < |s.run| && !s.run[k] && s.cur != k }

  lemma StepAsleep(s: Sched, e: Event, s': Sched, k: nat)
    requires Inv(s) && Inv(s') && Asleep(s, k) && Step(s, e, s')
    ensures s'.prio == s.prio && k < |s.prio|
    ensures Missing(s', k) == if Renews(s, e) then Missing(s, k) / 2 else Missing(s, k)
  {
    RenewalHalves(s.prio, s.counter, k);
    if e.Yield? { RenewalHalves(s.prio, s.counter[s.cur := 0], k); }
    if e.Tick? && s.counter[s.cur] > 0 { RenewalHalves(s.prio, Charged(s).counter, k); }
  }

  /** A history, event by event. */
  lemma HistoryRest(ss: seq<Sched>, es: seq<Event>)
    requires History(ss, es) && es != []
    ensures Inv(ss[0]) && Inv(ss[1]) && Step(ss[0], es[0], ss[1]) && History(ss[1..], es[1..])
    ensures ss[1..][|es| - 1] == ss[|es|]
  {
    hide Bounded, Step;
    var ss', es' := ss[1..], es[1..];
    forall i | 0 <= i < |es'| ensures Step(ss'[i], es'[i], ss'[i + 1]) { assert es'[i] == es[i + 1]; }
  }

  ghost predicate SleepsThrough(ss: seq<Sched>, k: nat) {
    ss != [] && (forall i :: 0 <= i < |ss| ==> Asleep(ss[i], k))
  }

  /** How far the counter of a task is from its bound. */
  function Missing(s: Sched, k: nat): int
    requires k < |s.prio| && k < |s.counter|
  {
    var p: int, c: int := s.prio[k], s.counter[k];
    2 * p - 1 - c
  }

  lemma SleeperFacts(ss: seq<Sched>, es: seq<Event>, k: nat)
    requires History(ss, es) && SleepsThrough(ss, k)
    ensures forall i :: 0 <= i < |ss| ==> k < |ss[i].prio| == |ss[i].counter| && Missing(ss[i], k) >= 0
  {
    forall i | 0 <= i < |ss| ensures k < |ss[i].prio| == |ss[i].counter| && Missing(ss[i], k) >= 0 {
      assert Inv(ss[i]) && Asleep(ss[i], k);
    }
  }

  /** Over any history in which a task sleeps through n renewals, what its counter lacks to 2p - 1 is halved n times. */
  lemma {:induction false} SleeperIsOwed(ss: seq<Sched>, es: seq<Event>, k: nat)
    requires History(ss, es) && SleepsThrough(ss, k)
    ensures k < |ss[0].prio| == |ss[0].counter| && k < |ss[|es|].prio| == |ss[|es|].counter|
    ensures ss[|es|].prio == ss[0].prio
    ensures Missing(ss[|es|], k) == Halved(Missing(ss[0], k), Renewals(ss, es))
    decreases |es|
  {
    hide Inv, Step, Renews, Missing;
    SleeperFacts(ss, es, k);
    if es != [] {
      HistoryRest(ss, es);
      assert Asleep(ss[0], k);
      StepAsleep(ss[0], es[0], ss[1], k);
      SleeperIsOwed(ss[1..], es[1..], k);
    }
  }

  lemma {:induction false} HalvedToZero(d: nat, n: nat)
    requires Pow2(n) > d
    ensures Halved(d, n) == 0
  {
    if n > 0 { HalvedToZero(d / 2, n - 1); }
  }

  /** After enough of them it has 2p - 1 ticks, and keeps them. */
  lemma SleeperFills(ss: seq<Sched>, es: seq<Event>, k: nat)
    requires History(ss, es) && SleepsThrough(ss, k)
    requires k < |ss[0].prio| && Pow2(Renewals(ss, es)) >= 2 * ss[0].prio[k]
    ensures k < |ss[|es|].counter| && ss[|es|].counter[k] == 2 * ss[0].prio[k] - 1
  {
    hide Inv, History, Renewals, Pow2, Halved;
    SleeperFacts(ss, es, k);
    SleeperIsOwed(ss, es, k);
    HalvedToZero(Missing(ss[0], k), Renewals(ss, es));
  }

  ghost predicate OnlyTicks(es: seq<Event>) { forall i {:trigger es[i]} :: 0 <= i < |es| ==> es[i] == Tick }

  lemma FirstTick(s: Sched, s': Sched)
    requires Inv(s) && Step(s, Tick, s') && s.counter[s.cur] > 1
    ensures s' == s.(counter := s.counter[s.cur := s.counter[s.cur] - 1])
  {
  }

  /** A slice of c ticks lasts for c ticks: before, the task keeps the processor and loses one tick at a time. */
  lemma {:induction false} SliceLasts(ss: seq<Sched>, es: seq<Event>)
    requires History(ss, es) && OnlyTicks(es)
    requires ss[0].cur < |ss[0].counter| && |es| < ss[0].counter[ss[0].cur]
    ensures ss[|es|].cur == ss[0].cur && ss[|es|].run == ss[0].run
    ensures ss[|es|].counter == ss[0].counter[ss[0].cur := ss[0].counter[ss[0].cur] - |es|]
    decreases |es|
  {
    hide Inv, Step;
    if es == [] {
      assert ss[0].counter[ss[0].cur := ss[0].counter[ss[0].cur]] == ss[0].counter;
    } else {
      HistoryRest(ss, es);
      FirstTick(ss[0], ss[1]);
      SliceLasts(ss[1..], es[1..]);
      assert |ss[1..]| == |es[1..]| + 1;
    }
  }

  // ----- The code

  class Machine {
    const priority: array<nat>
    const counter: array<nat>
    const running: array<bool>      // the slot holds a task and its state is TASK_RUNNING
    var current: nat

    ghost function S(): Sched
      reads this, priority, counter, running
    {
      Sched(priority[..], counter[..], running[..], current)
    }

    ghost predicate Valid()
      reads this, priority, counter, running
    {
      priority != counter && Inv(S())
    }

    /** n task slots, all empty but the idle task's. */
    constructor (n: nat, p: nat)
      requires n >= 1 && p >= 1
      ensures Valid() && current == 0 && fresh(priority) && fresh(counter) && fresh(running)
    {
      priority := new nat[n](_ => p);
      counter := new nat[n](_ => 0);
      running := new bool[n](_ => false);
      current := 0;
    }

    /** The inner loop of schedule(): c is -1 when no task can run. */
    method Scan() returns (c: int, next: nat)
      requires Valid()
      ensures c == -1 ==> next == 0 && !SomeRunnable(running[..])
      ensures c != -1 ==> next < counter.Length && c == counter[next] && IsBest(counter[..], running[..], next)
    {
      c, next := -1, 0;
      var i := priority.Length;
      while i > 1
        invariant 1 <= i <= priority.Length
        invariant c == -1 ==> next == 0 && forall j :: i <= j < running.Length ==> !running[j]
        invariant c != -1 ==> i <= next < running.Length && running[next] && c == counter[next]
        invariant c != -1 ==> forall j :: i <= j < running.Length && running[j] ==> counter[j] <= c
        invariant c != -1 ==> forall j :: next < j < running.Length && running[j] ==> counter[j] < c
      {
        i := i - 1;
        if running[i] && counter[i] > c {
          c, next := counter[i], i;
        }
      }
    }

    /** schedule() proper: at most two passes over the tasks. */
    method Schedule() returns (passes: nat)
      requires Valid()
      modifies this, counter
      ensures Valid() && Scheduled(old(S()), S()) && 1 <= passes <= 2
      ensures passes == 2 <==>
                && (exists j :: 1 <= j < running.Length && running[j])
                && forall j :: 1 <= j < running.Length && running[j] ==> old(counter[j]) == 0
      ensures current == 0 <==> forall j :: 1 <= j < running.Length ==> !running[j]
      ensures current != 0 ==>
        && current < running.Length && running[current]
        && (forall j :: 1 <= j < running.Length && running[j] ==> counter[j] <= counter[current])
        && (forall j :: current < j < running.Length && running[j] ==> counter[j] < counter[current])
      ensures passes == 1 ==> counter[..] == old(counter[..])
      ensures passes == 2 ==> forall i :: 1 <= i < counter.Length ==>
                2 * priority[i] - 1 - counter[i] == (2 * priority[i] - 1 - old(counter[i])) / 2
    {
      ghost var s := S();
      passes := 1;
      var c, next := Scan();
      if c == 0 {
        assert SomeRunnable(s.run) by { assert s.run[next]; }
        assert Exhausted(s.counter, s.run);
        Refill();
        RefilledBounded(s.prio, s.counter);
        passes := 2;
        c, next := Scan();
        assert c != -1;
        assert counter[..][next] >= 1;
      } else if c > 0 {
        assert s.run[next];
        assert !Exhausted(s.counter, s.run);
      }
      current := next;
      assert S() == s.(counter := counter[..], cur := next);
    }

    /** The loop that hands out new time slices. */
    method Refill()
      requires Valid()
      modifies counter
      ensures counter[..] == Refilled(priority[..], old(counter[..])) && Valid()
      ensures forall i :: 1 <= i < counter.Length ==>
                2 * priority[i] - 1 - counter[i] == (2 * priority[i] - 1 - old(counter[i])) / 2
      ensures counter[0] == old(counter[0])
    {
      ghost var was := counter[..];
      var i := counter.Length;
      while i > 1
        invariant 1 <= i <= counter.Length == |was|
        invariant forall j :: 0 <= j < i ==> counter[j] == was[j]
        invariant forall j :: i <= j < counter.Length ==> counter[j] == was[j] / 2 + priority[j]
      {
        i := i - 1;
        counter[i] := counter[i] / 2 + priority[i];
      }
      assert counter[..] == Refilled(priority[..], was);
      RefilledBounded(priority[..], was);
    }

    /** The end of do_timer for a tick in user mode. */
    method Tick()
      requires Valid()
      modifies this, counter
      ensures Valid() && Ticked(old(S()), S())
      ensures old(counter[current]) > 1 ==>
        && current == old(current)
        && counter[..] == old(counter[..])[current := old(counter[current]) - 1]
    {
      ghost var s := S();
      if counter[current] > 0 { counter[current] := counter[current] - 1; }
      assert counter[..] == Charged(s).counter;
      assert S() == Charged(s);
      if counter[current] > 0 { return; }
      var passes := Schedule();
    }
  }
}
