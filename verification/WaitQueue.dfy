/**
  __sleep_on and wake_up of kernel/sched.c.  A wait queue has only a head pointer; the
  rest of the queue is kept in the local variable tmp of every sleeper.  The tasks
  inside __sleep_on take their steps in any order: they enter, are woken or signalled,
  and go on when the scheduler picks them.
 */
module WaitQueue {
  import opened Common

  datatype RunState = Running | Interruptible | Uninterruptible

  // ----- What a queue is meant to be: a stack of sleepers

  /**
    The sleepers of each queue, the last one to enter first; the run states; and the
    tasks that found another task at the head and were sent back to sleep.
   */
  datatype Waits = Waits(chain: map<nat, seq<nat>>, st: map<nat, RunState>, back: set<nat>)

  datatype Step =
    | Enter(t: nat, q: nat, state: RunState)   // call of __sleep_on, up to schedule()
    | Wake(q: nat)                             // wake_up
    | Signal(t: nat)                           // schedule() finds a signal or timeout
    | Resume(t: nat, q: nat)                   // schedule() returns in the sleeper

  predicate Sleeping(s: Waits, t: nat) {
    exists q :: q in s.chain && t in s.chain[q]
  }

  ghost predicate Enabled(s: Waits, step: Step) {
    match step
    case Enter(t, q, state) => q in s.chain && t in s.st && t != 0 && !Sleeping(s, t) && s.st[t].Running?
      && !state.Running?
    case Wake(q) => q in s.chain
    case Signal(t) => t in s.st && s.st[t].Interruptible?
    case Resume(t, q) => q in s.chain && t in s.chain[q] && t in s.st && s.st[t].Running?
  }

  function Runnable(st: map<nat, RunState>, t: nat): map<nat, RunState> {
    if t in st then st[t := Running] else st
  }

  function Next(s: Waits, step: Step): Waits {
    match step
    case Enter(t, q, state) =>
      if q in s.chain then s.(chain := s.chain[q := [t] + s.chain[q]], st := s.st[t := state], back := s.back - {t})
        else s
    case Wake(q) => if q in s.chain && s.chain[q] != [] then s.(st := Runnable(s.st, s.chain[q][0])) else s
    case Signal(t) => s.(st := Runnable(s.st, t))
    case Resume(t, q) =>
      if q !in s.chain || s.chain[q] == [] then s
      else if s.chain[q][0] == t then
        var rest := s.chain[q][1..];
        s.(chain := s.chain[q := rest], back := s.back - {t},
           st := if rest == [] then s.st else Runnable(s.st, rest[0]))
      else
        s.(st := Runnable(s.st, s.chain[q][0])[t := Uninterruptible], back := s.back + {t})
  }

  /** Each task sleeps at most once, in one queue. */
  ghost predicate Once(s: Waits) {
    && (forall q, i :: q in s.chain && 0 <= i < |s.chain[q]| ==> s.chain[q][i] in s.st)
    && (forall q, i, j :: q in s.chain && 0 <= i < j < |s.chain[q]| ==> s.chain[q][i] != s.chain[q][j])
    && (forall q, r, t :: q in s.chain && r in s.chain && t in s.chain[q] && t in s.chain[r] ==> q == r)
  }

  predicate RunnableAbove(s: Waits, q: nat, i: nat)
    requires q in s.chain && i <= |s.chain[q]|
  {
    exists j :: 0 <= j < i && s.chain[q][j] in s.st && s.st[s.chain[q][j]].Running?
  }

  predicate LeftAsleep(s: Waits, t: nat) {
    t in s.back && t in s.st && !s.st[t].Running?
  }

  /** A task that was woken and sent back has a runnable task above it, which will wake it again. */
  ghost predicate Covered(s: Waits) {
    forall q, i :: q in s.chain && 0 <= i < |s.chain[q]| && LeftAsleep(s, s.chain[q][i]) ==> RunnableAbove(s, q, i)
  }

  ghost predicate Inv(s: Waits) { Once(s) && Covered(s) }

  lemma EnterOnce(s: Waits, t: nat, q: nat, state: RunState)
    requires Once(s) && Enabled(s, Enter(t, q, state))
    ensures Once(Next(s, Enter(t, q, state)))
  {
    var s' := Next(s, Enter(t, q, state));
    forall u, r | r in s.chain ensures u in s'.chain[r] <==> u in s.chain[r] || (u == t && r == q) { }
  }

  lemma EnterCovered(s: Waits, t: nat, q: nat, state: RunState)
    requires Once(s) && Covered(s) && Enabled(s, Enter(t, q, state))
    ensures Covered(Next(s, Enter(t, q, state)))
  {
    var s' := Next(s, Enter(t, q, state));
    forall r, i | r in s'.chain && 0 <= i < |s'.chain[r]| && LeftAsleep(s', s'.chain[r][i])
      ensures RunnableAbove(s', r, i)
    {
      var i0 := if r == q then i - 1 else i;
      assert s'.chain[r][i] == if r == q && i == 0 then t else s.chain[r][i0];
      assert i0 >= 0;
      assert s.chain[r][i0] in s.chain[r];
      assert LeftAsleep(s, s.chain[r][i0]);
      var j :| 0 <= j < i0 && s.chain[r][j] in s.st && s.st[s.chain[r][j]].Running?;
      assert s.chain[r][j] in s.chain[r];
      var j' := if r == q then j + 1 else j;
      assert s'.chain[r][j'] == s.chain[r][j];
    }
  }

  /** Making a task runnable uncovers nobody. */
  lemma RunnableCovered(s: Waits, t: nat)
    requires Covered(s)
    ensures Covered(s.(st := Runnable(s.st, t)))
  {
    var s' := s.(st := Runnable(s.st, t));
    forall q, i | q in s'.chain && 0 <= i < |s'.chain[q]| && LeftAsleep(s', s'.chain[q][i])
      ensures RunnableAbove(s', q, i)
    {
      assert LeftAsleep(s, s.chain[q][i]);
      var j :| 0 <= j < i && s.chain[q][j] in s.st && s.st[s.chain[q][j]].Running?;
      assert s'.st[s'.chain[q][j]].Running?;
    }
  }

  lemma ResumeOnce(s: Waits, t: nat, q: nat)
    requires Once(s) && Enabled(s, Resume(t, q))
    ensures Once(Next(s, Resume(t, q)))
  {
    var s' := Next(s, Resume(t, q));
    forall u, r | r in s'.chain && u in s'.chain[r] ensures u in s.chain[r] { }
  }

  /** The head leaves: whoever relied on it can rely on the next sleeper. */
  lemma LeaveCovered(s: Waits, t: nat, q: nat)
    requires Once(s) && Covered(s) && Enabled(s, Resume(t, q)) && s.chain[q][0] == t
    ensures Covered(Next(s, Resume(t, q)))
  {
    var s' := Next(s, Resume(t, q));
    forall r, i | r in s'.chain && 0 <= i < |s'.chain[r]| && LeftAsleep(s', s'.chain[r][i])
      ensures RunnableAbove(s', r, i)
    {
      if r == q {
        assert s'.st[s'.chain[q][0]].Running?;
        assert i > 0;
      } else {
        assert LeftAsleep(s, s.chain[r][i]);
        var j :| 0 <= j < i && s.chain[r][j] in s.st && s.st[s.chain[r][j]].Running?;
        assert s'.st[s'.chain[r][j]].Running?;
      }
    }
  }

  /** A task goes back to sleep: the head, above it and above all that relied on it, is now runnable. */
  lemma BackCovered(s: Waits, t: nat, q: nat)
    requires Once(s) && Covered(s) && Enabled(s, Resume(t, q)) && s.chain[q][0] != t
    ensures Covered(Next(s, Resume(t, q)))
  {
    var s' := Next(s, Resume(t, q));
    var h := s.chain[q][0];
    assert h in s.chain[q];
    forall r, i | r in s'.chain && 0 <= i < |s'.chain[r]| && LeftAsleep(s', s'.chain[r][i])
      ensures RunnableAbove(s', r, i)
    {
      assert s'.chain[r][i] in s.chain[r];
      if r == q {
        assert s'.st[s'.chain[q][0]].Running?;
        assert i > 0;
      } else {
        assert s.chain[r][i] != t;
        assert LeftAsleep(s, s.chain[r][i]);
        var j :| 0 <= j < i && s.chain[r][j] in s.st && s.st[s.chain[r][j]].Running?;
        assert s.chain[r][j] in s.chain[r] && s.chain[r][j] != t;
        assert s'.st[s'.chain[r][j]].Running?;
      }
    }
  }

  /** Every step keeps the queues whole and every woken sleeper covered. */
  lemma StepKeeps(s: Waits, step: Step)
    requires Inv(s) && Enabled(s, step)
    ensures Inv(Next(s, step))
  {
    match step
    case Enter(t, q, state) => EnterOnce(s, t, q, state); EnterCovered(s, t, q, state);
    case Wake(q) =>
      if s.chain[q] != [] { RunnableCovered(s, s.chain[q][0]); }
    case Signal(t) => RunnableCovered(s, t);
    case Resume(t, q) =>
      ResumeOnce(s, t, q);
      if s.chain[q][0] == t { LeaveCovered(s, t, q); } else { BackCovered(s, t, q); }
  }

  // ----- Whole runs

  ghost predicate IsRun(s: Waits, steps: seq<Step>)
    decreases |steps|
  {
    steps == [] || (Enabled(s, steps[0]) && IsRun(Next(s, steps[0]), steps[1..]))
  }

  function After(s: Waits, steps: seq<Step>): Waits
    decreases |steps|
  {
    if steps == [] then s else After(Next(s, steps[0]), steps[1..])
  }

  lemma {:induction false} RunKeeps(s: Waits, steps: seq<Step>)
    requires Inv(s) && IsRun(s, steps)
    ensures Inv(After(s, steps))
    decreases |steps|
  {
    if steps != [] {
      StepKeeps(s, steps[0]);
      RunKeeps(Next(s, steps[0]), steps[1..]);
    }
  }

  // ----- One wake_up empties the queue

  function RunnableIn(c: seq<nat>, st: map<nat, RunState>): nat {
    if c == [] then 0 else RunnableIn(c[1..], st) + if c[0] in st && st[c[0]].Running? then 1 else 0
  }

  /** Steps that the sleepers of q can still take on their own. */
  function Potential(s: Waits, q: nat): nat
    requires q in s.chain
  {
    var c := s.chain[q];
    if c == [] then 0 else 2 * |c| + RunnableIn(c[1..], s.st)
  }

  lemma RunnableInUpdate(c: seq<nat>, st: map<nat, RunState>, t: nat, r: RunState)
    requires t !in c
    ensures RunnableIn(c, st[t := r]) == RunnableIn(c, st)
  {
    if c != [] {
      assert c[0] in c;
      RunnableInUpdate(c[1..], st, t, r);
    }
  }

  lemma RunnableInAsleep(c: seq<nat>, st: map<nat, RunState>, t: nat)
    requires t in c && forall i, j :: 0 <= i < j < |c| ==> c[i] != c[j]
    requires t in st && st[t].Running?
    ensures RunnableIn(c, st[t := Uninterruptible]) == RunnableIn(c, st) - 1
  {
    if c[0] == t {
      assert t !in c[1..];
      RunnableInUpdate(c[1..], st, t, Uninterruptible);
    } else {
      RunnableInAsleep(c[1..], st, t);
    }
  }

  ghost predicate HeadRunnable(s: Waits, q: nat) {
    q in s.chain && (s.chain[q] != [] ==> s.chain[q][0] in s.st && s.st[s.chain[q][0]].Running?)
  }

  /** Each resumption brings the queue closer to being empty, and leaves its head runnable. */
  lemma ResumeProgress(s: Waits, t: nat, q: nat)
    requires Inv(s) && Enabled(s, Resume(t, q)) && HeadRunnable(s, q)
    ensures var s' := Next(s, Resume(t, q));
            HeadRunnable(s', q) && Potential(s', q) < Potential(s, q)
  {
    var c := s.chain[q];
    var s' := Next(s, Resume(t, q));
    if c[0] == t {
      var rest := c[1..];
      if rest != [] {
        assert rest[0] == c[1] && c[1] in s.st;
        assert rest[0] !in rest[1..] by {
          forall i | 0 <= i < |rest[1..]| ensures rest[1..][i] != rest[0] { assert rest[1..][i] == c[i + 2]; }
        }
        RunnableInUpdate(rest[1..], s.st, rest[0], Running);
      }
    } else {
      assert c[0] !in c[1..];
      assert t in c[1..];
      RunnableInUpdate(c[1..], s.st, c[0], Running);
      RunnableInAsleep(c[1..], s.st[c[0] := Running], t);
    }
  }

  predicate OnlyResumes(steps: seq<Step>, q: nat) {
    forall i :: 0 <= i < |steps| ==> steps[i].Resume? && steps[i].q == q
  }

  /**
    After a wake_up on a queue, every schedule of its sleepers ends within 2n + r steps,
    for n sleepers of which r below the head are runnable; and it can only end with the
    queue empty: all of them have left.
   */
  lemma {:induction false} WakeUpEmptiesQueue(s: Waits, q: nat, steps: seq<Step>)
    requires Inv(s) && HeadRunnable(s, q) && IsRun(s, steps) && OnlyResumes(steps, q)
    ensures |steps| <= Potential(s, q)
    ensures var s' := After(s, steps);
            q in s'.chain && HeadRunnable(s', q) && (s'.chain[q] == [] <==> forall t :: !Enabled(s', Resume(t, q)))
    decreases |steps|
  {
    if steps == [] {
      if s.chain[q] != [] { assert Enabled(s, Resume(s.chain[q][0], q)); }
    } else {
      var t := steps[0].t;
      assert steps[0] == Resume(t, q);
      ResumeProgress(s, t, q);
      StepKeeps(s, steps[0]);
      WakeUpEmptiesQueue(Next(s, steps[0]), q, steps[1..]);
    }
  }

  // ----- One signal empties the queue, too

  /** A signal makes an interruptible sleeper runnable, wherever it is in its queue, and does nothing else. */
  lemma SignalWakes(s: Waits, t: nat, q: nat)
    requires Enabled(s, Signal(t)) && q in s.chain && t in s.chain[q]
    ensures var s' := Next(s, Signal(t));
            && s'.chain == s.chain && s'.back == s.back && s'.st == s.st[t := Running]
            && Enabled(s', Resume(t, q))
  {
  }

  /** The first sleeper to go on leaves the head of the queue runnable. */
  lemma FirstResume(s: Waits, t: nat, q: nat)
    requires Inv(s) && Enabled(s, Resume(t, q))
    ensures var s' := Next(s, Resume(t, q));
            HeadRunnable(s', q) && |s'.chain[q]| <= |s.chain[q]|
  {
    var c := s.chain[q];
    assert c[0] in s.st;
    if c[0] == t && |c| > 1 { assert c[1] in s.st; }
  }

  lemma {:induction false} RunnableAtMost(c: seq<nat>, st: map<nat, RunState>)
    ensures RunnableIn(c, st) <= |c|
  {
    if c != [] { RunnableAtMost(c[1..], st); }
  }

  /**
    After a signal to a sleeper, without any wake_up, every schedule of the sleepers of its queue ends within 3n
    steps for n sleepers; and it can only end when all of them have left, the one with the signal included.
   */
  lemma SignalEmptiesQueue(s: Waits, t: nat, q: nat, steps: seq<Step>)
    requires Inv(s) && Enabled(s, Signal(t)) && q in s.chain && t in s.chain[q]
    requires IsRun(Next(s, Signal(t)), steps) && OnlyResumes(steps, q)
    ensures |steps| <= 3 * |s.chain[q]|
    ensures var s' := After(Next(s, Signal(t)), steps);
            && q in s'.chain && (s'.chain[q] == [] <==> forall u :: !Enabled(s', Resume(u, q)))
  {
    var s1 := Next(s, Signal(t));
    SignalWakes(s, t, q);
    StepKeeps(s, Signal(t));
    if steps != [] {
      assert steps[0] == Resume(steps[0].t, q);
      var s2 := Next(s1, steps[0]);
      FirstResume(s1, steps[0].t, q);
      StepKeeps(s1, steps[0]);
      if s2.chain[q] != [] { RunnableAtMost(s2.chain[q][1..], s2.st); }
      WakeUpEmptiesQueue(s2, q, steps[1..]);
    }
  }

  // ----- The code: a head pointer, and a local variable per sleeper

  function Top(c: seq<nat>): Option<nat> {
    if c == [] then None else Some(c[0])
  }

  /** Following head and then the saved tmp pointers lists the sleepers of c in order. */
  ghost predicate Links(head: Option<nat>, tmp: map<nat, Option<nat>>, c: seq<nat>) {
    && head == Top(c)
    && forall i :: 0 <= i < |c| ==> c[i] in tmp && tmp[c[i]] == Top(c[i + 1..])
  }

  /** The pointers of all queues, and the queue each sleeper is in. */
  ghost predicate Tracks(head: map<nat, Option<nat>>, tmp: map<nat, Option<nat>>, where: map<nat, nat>,
                         chain: map<nat, seq<nat>>) {
    && head.Keys == chain.Keys
    && (forall q :: q in head ==> Links(head[q], tmp, chain[q]))
    && (forall q, t :: q in chain && t in chain[q] ==> t in where && where[t] == q)
    && (forall t :: t in where ==> where[t] in chain && t in chain[where[t]])
  }

  lemma LinksPushed(head: Option<nat>, tmp: map<nat, Option<nat>>, c: seq<nat>, t: nat)
    requires Links(head, tmp, c) && t !in c
    ensures Links(Some(t), tmp[t := head], [t] + c)
  {
    var d := [t] + c;
    forall i | 0 <= i < |d| ensures d[i] in tmp[t := head] && tmp[t := head][d[i]] == Top(d[i + 1..]) {
      if i == 0 {
        assert d[1..] == c;
      } else {
        assert d[i] == c[i - 1] && c[i - 1] in c && d[i + 1..] == c[i..];
      }
    }
  }

  lemma LinksElsewhere(head: Option<nat>, tmp: map<nat, Option<nat>>, c: seq<nat>, t: nat, x: Option<nat>)
    requires Links(head, tmp, c) && t !in c
    ensures Links(head, tmp[t := x], c)
  {
    forall i | 0 <= i < |c| ensures c[i] in tmp[t := x] && tmp[t := x][c[i]] == Top(c[i + 1..]) { assert c[i] in c; }
  }

  lemma LinksPopped(head: Option<nat>, tmp: map<nat, Option<nat>>, c: seq<nat>)
    requires Links(head, tmp, c) && c != []
    ensures c[0] in tmp && tmp[c[0]] == Top(c[1..]) && Links(tmp[c[0]], tmp, c[1..])
  {
    forall i | 0 <= i < |c[1..]| ensures c[1..][i] in tmp && tmp[c[1..][i]] == Top(c[1..][i + 1..]) {
      assert c[1..][i + 1..] == c[i + 2..];
    }
  }

  lemma TracksEnter(head: map<nat, Option<nat>>, tmp: map<nat, Option<nat>>, where: map<nat, nat>,
                    chain: map<nat, seq<nat>>, t: nat, q: nat)
    requires Tracks(head, tmp, where, chain) && q in chain && t !in where
    ensures Tracks(head[q := Some(t)], tmp[t := head[q]], where[t := q], chain[q := [t] + chain[q]])
  {
    var head', tmp', chain' := head[q := Some(t)], tmp[t := head[q]], chain[q := [t] + chain[q]];
    forall r | r in head' ensures Links(head'[r], tmp', chain'[r]) {
      hide Links;
      if r == q {
        LinksPushed(head[q], tmp, chain[q], t);
      } else {
        LinksElsewhere(head[r], tmp, chain[r], t, head[q]);
      }
    }
    hide Links;
    forall u, r | r in chain ensures u in chain'[r] <==> u in chain[r] || (u == t && r == q) { }
  }

  lemma TracksLeave(head: map<nat, Option<nat>>, tmp: map<nat, Option<nat>>, where: map<nat, nat>,
                    chain: map<nat, seq<nat>>, t: nat, q: nat)
    requires Tracks(head, tmp, where, chain) && q in chain && chain[q] != [] && chain[q][0] == t && t !in chain[q][1..]
    ensures t in tmp && Tracks(head[q := tmp[t]], tmp, where - {t}, chain[q := chain[q][1..]])
  {
    LinksPopped(head[q], tmp, chain[q]);
    hide Links;
    var chain' := chain[q := chain[q][1..]];
    assert t in chain[q] && where[t] == q;
    forall u, r | r in chain ensures u in chain'[r] <==> u in chain[r] && u != t {
      assert r == q ==> (u in chain[q] <==> u == chain[q][0] || u in chain[q][1..]);
    }
  }

  lemma ChainFacts(s: Waits, q: nat)
    requires Inv(s) && q in s.chain
    ensures forall i :: 0 <= i < |s.chain[q]| ==> s.chain[q][i] in s.st
    ensures s.chain[q] != [] ==> s.chain[q][0] !in s.chain[q][1..]
  {
  }

  /** A task inside __sleep_on finds its queue non-empty. */
  lemma SleeperFacts(head: map<nat, Option<nat>>, tmp: map<nat, Option<nat>>, where: map<nat, nat>, s: Waits, t: nat)
    requires Tracks(head, tmp, where, s.chain) && t in where
    ensures var q := where[t];
            && q in head && q in s.chain && t in s.chain[q] && t in tmp
            && head[q] == Some(s.chain[q][0])
            && (s.chain[q][0] == t ==> tmp[t] == Top(s.chain[q][1..]))
  {
    var c := s.chain[where[t]];
    assert Links(head[where[t]], tmp, c);
    var i :| 0 <= i < |c| && c[i] == t;
  }

  class Sleepers {
    var head: map<nat, Option<nat>>       // *p of every wait queue
    var tmp: map<nat, Option<nat>>        // the local tmp of each task inside __sleep_on
    var where: map<nat, nat>              // its argument p
    var state: map<nat, RunState>
    var warned: bool                      // "Warning: *P = NULL" was printed
    ghost var waits: Waits

    ghost predicate Valid()
      reads this
    {
      Inv(waits) && state == waits.st && !warned && Tracks(head, tmp, where, waits.chain)
    }

    /** No queue has a sleeper, all tasks run. */
    constructor (queues: set<nat>, tasks: set<nat>)
      ensures Valid() && where == map[] && head.Keys == queues && state.Keys == tasks
    {
      head := map q | q in queues :: None;
      tmp, where, warned := map[], map[], false;
      state := map t | t in tasks :: Running;
      waits := Waits(map q | q in queues :: [], map t | t in tasks :: Running, {});
    }

    /** __sleep_on up to the call of schedule(). */
    method SleepOn(t: nat, q: nat, s: RunState)
      requires Valid() && q in head && t in state && t != 0 && t !in where && state[t].Running? && !s.Running?
      modifies this
      ensures Valid() && Enabled(old(waits), Enter(t, q, s)) && waits == Next(old(waits), Enter(t, q, s))
      ensures where == old(where)[t := q] && state == old(state)[t := s]
      ensures head == old(head)[q := Some(t)] && tmp == old(tmp)[t := old(head)[q]]
    {
      hide Inv, Links;
      assert !Sleeping(waits, t);
      StepKeeps(waits, Enter(t, q, s));
      TracksEnter(head, tmp, where, waits.chain, t, q);
      hide Tracks;
      tmp := tmp[t := head[q]];
      head := head[q := Some(t)];
      state := state[t := s];
      where := where[t := q];
      waits := Next(waits, Enter(t, q, s));
    }

    /** __sleep_on once schedule() returns: the head leaves, any other task wakes the head and sleeps on. */
    method AfterSchedule(t: nat) returns (left: bool)
      requires Valid() && t in where && t in state && state[t].Running?
      modifies this
      ensures Valid() && old(Enabled(waits, Resume(t, where[t]))) && waits == old(Next(waits, Resume(t, where[t])))
      ensures left <==> old(head[where[t]]) == Some(t)
      ensures where == if left then old(where) - {t} else old(where)
      ensures tmp == old(tmp)
      ensures !left ==>
        && head == old(head) && old(head[where[t]]).Some?
        && state == old(state)[old(head[where[t]]).value := Running][t := Uninterruptible]
      ensures left ==>
        && head == old(head)[old(where[t]) := tmp[t]]
        && state == if tmp[t].Some? then old(state)[tmp[t].value := Running] else old(state)
    {
      hide Inv, Tracks, Links;
      SleeperFacts(head, tmp, where, waits, t);
      var q := where[t];
      ghost var c := waits.chain[q];
      StepKeeps(waits, Resume(t, q));
      ChainFacts(waits, q);
      if head[q].Some? && head[q].value != t {
        state := state[head[q].value := Running];
        state := state[t := Uninterruptible];
        waits := Next(waits, Resume(t, q));
        return false;
      }
      warned := warned || head[q].None?;
      TracksLeave(head, tmp, where, waits.chain, t, q);
      head := head[q := tmp[t]];
      if tmp[t].Some? {
        state := state[tmp[t].value := Running];
      }
      where := where - {t};
      waits := Next(waits, Resume(t, q));
      return true;
    }

    /** wake_up: the head becomes runnable. */
    method WakeUp(q: nat)
      requires Valid() && q in head
      modifies this
      ensures Valid() && Enabled(old(waits), Wake(q)) && waits == Next(old(waits), Wake(q))
      ensures HeadRunnable(waits, q) && head == old(head) && tmp == old(tmp) && where == old(where)
      ensures state == if head[q].Some? then old(state)[head[q].value := Running] else old(state)
    {
      hide Inv;
      StepKeeps(waits, Wake(q));
      ChainFacts(waits, q);
      assert Links(head[q], tmp, waits.chain[q]);
      if head[q].Some? {
        state := state[head[q].value := Running];
      }
      waits := Next(waits, Wake(q));
    }

    /** The check at the start of schedule(): a task in interruptible sleep that has a signal runs. */
    method CheckSignal(t: nat)
      requires Valid() && t in state
      modifies this
      ensures Valid()
      ensures waits == if old(state[t]).Interruptible? then Next(old(waits), Signal(t)) else old(waits)
      ensures state == if old(state[t]).Interruptible? then old(state)[t := Running] else old(state)
      ensures head == old(head) && tmp == old(tmp) && where == old(where) && waits.chain == old(waits).chain
      ensures old(state[t]).Interruptible? && t in where ==> Enabled(waits, Resume(t, where[t]))
    {
      hide Inv, Tracks;
      if state[t].Interruptible? {
        StepKeeps(waits, Signal(t));
        state := state[t := Running];
        if t in where { SleeperFacts(head, tmp, where, waits, t); }
        waits := Next(waits, Signal(t));
      }
    }
  }
}
