/**
  The kernel timers of kernel/sched.c: a list in which each timer stores how many ticks
  it fires after the one before it.  A new timer is put at the front and then moved
  back by exchanging contents with its neighbours.
 */
module Timers {

  /** A pending timer: ticks after its predecessor, and what it is for. */
  datatype Entry<+T> = Entry(delta: int, tag: T)

  // ----- The list

  /** add_timer for j > 0. */
  function Insert<T>(q: seq<Entry<T>>, j: int, tag: T): seq<Entry<T>> {
    if q == [] || q[0].delta >= j then [Entry(j, tag)] + q
    else [q[0]] + Insert(q[1..], j - q[0].delta, tag)
  }

  /** Ticks until entry i fires. */
  function Dist<T>(q: seq<Entry<T>>, i: nat): int
    requires i < |q|
  {
    if i == 0 then q[0].delta else q[0].delta + Dist(q[1..], i - 1)
  }

  ghost predicate Positive<T>(q: seq<Entry<T>>) {
    forall i :: 0 <= i < |q| ==> q[i].delta > 0
  }

  /** How many entries a timer for j ticks is moved past. */
  function Rank<T>(q: seq<Entry<T>>, j: int): (n: nat)
    ensures n <= |q|
  {
    if q == [] || q[0].delta >= j then 0 else 1 + Rank(q[1..], j - q[0].delta)
  }

  lemma {:induction false} DistGrows<T>(q: seq<Entry<T>>, i: nat, k: nat)
    requires Positive(q) && i < k < |q|
    ensures 0 < Dist(q, i) < Dist(q, k)
  {
    if i > 0 {
      DistGrows(q[1..], i - 1, k - 1);
    } else if k > 1 {
      DistGrows(q[1..], 0, k - 1);
    }
  }

  /** The entries passed over are exactly those that fire before tick j. */
  lemma {:induction false} RankIsByTime<T>(q: seq<Entry<T>>, j: int, i: nat)
    requires Positive(q) && i < |q|
    ensures i < Rank(q, j) <==> Dist(q, i) < j
  {
    if q[0].delta < j {
      if i > 0 { RankIsByTime(q[1..], j - q[0].delta, i - 1); }
    } else if i > 0 {
      DistGrows(q, 0, i);
    }
  }

  lemma {:induction false} InsertAtRank<T>(q: seq<Entry<T>>, j: int, tag: T)
    requires Positive(q) && j > 0
    ensures var q' := Insert(q, j, tag); var n := Rank(q, j);
            |q'| == |q| + 1 && Positive(q') && q'[n].tag == tag && Dist(q', n) == j
  {
    if q != [] && q[0].delta < j {
      InsertAtRank(q[1..], j - q[0].delta, tag);
      assert Insert(q, j, tag)[1..] == Insert(q[1..], j - q[0].delta, tag);
    }
  }

  /** The new timer is exactly j ticks away, all deltas stay positive, and the others keep their order. */
  lemma InsertPlaces<T>(q: seq<Entry<T>>, j: int, tag: T)
    requires Positive(q) && j > 0
    ensures var q' := Insert(q, j, tag); var n := Rank(q, j);
            && |q'| == |q| + 1 && Positive(q') && q'[n].tag == tag && Dist(q', n) == j
            && (forall i :: 0 <= i < |q| ==> q'[if i < n then i else i + 1].tag == q[i].tag)
  {
    hide Insert, Dist, Rank, Positive;
    InsertAtRank(q, j, tag);
    forall i | 0 <= i < |q| ensures Insert(q, j, tag)[if i < Rank(q, j) then i else i + 1].tag == q[i].tag {
      InsertKeepsTag(q, j, tag, i);
    }
  }

  lemma {:induction false} InsertKeepsTag<T>(q: seq<Entry<T>>, j: int, tag: T, i: nat)
    requires i < |q|
    ensures var at := if i < Rank(q, j) then i else i + 1;
            |Insert(q, j, tag)| > at && Insert(q, j, tag)[at].tag == q[i].tag
  {
    if q[0].delta < j && i > 0 {
      InsertKeepsTag(q[1..], j - q[0].delta, tag, i - 1);
    }
  }

  /** What is left of j when the new timer has been moved into place. */
  function Remainder<T>(q: seq<Entry<T>>, j: int): int {
    if q == [] || q[0].delta >= j then j else Remainder(q[1..], j - q[0].delta)
  }

  /**
    Timers that fire earlier are not affected; those that fire at the same time or later
    are put off by the delta of the new one, which is never subtracted from them.
   */
  lemma {:induction false} InsertDelays<T>(q: seq<Entry<T>>, j: int, tag: T, i: nat)
    requires Positive(q) && j > 0 && i < |q|
    ensures |Insert(q, j, tag)| == |q| + 1 && 0 < Remainder(q, j) <= j
    ensures i < Rank(q, j) ==> Dist(Insert(q, j, tag), i) == Dist(q, i)
    ensures i >= Rank(q, j) ==> Dist(Insert(q, j, tag), i + 1) == Dist(q, i) + Remainder(q, j)
  {
    InsertPlaces(q, j, tag);
    var q' := Insert(q, j, tag);
    if q[0].delta < j {
      assert q'[1..] == Insert(q[1..], j - q[0].delta, tag);
      if i > 0 {
        InsertDelays(q[1..], j - q[0].delta, tag, i - 1);
      } else {
        RemainderPositive(q, j);
      }
    } else {
      assert q'[1..] == q;
    }
  }

  lemma {:induction false} RemainderPositive<T>(q: seq<Entry<T>>, j: int)
    requires Positive(q) && j > 0
    ensures 0 < Remainder(q, j) <= j
  {
    if q != [] && q[0].delta < j { RemainderPositive(q[1..], j - q[0].delta); }
  }

  /** An addition leaves the time of a pending timer alone exactly when that timer fires before the new one. */
  lemma UndisturbedIffEarlier<T>(q: seq<Entry<T>>, j: int, tag: T, i: nat)
    requires Positive(q) && j > 0 && i < |q|
    ensures var at := if i < Rank(q, j) then i else i + 1;
            && |Insert(q, j, tag)| == |q| + 1 && Insert(q, j, tag)[at].tag == q[i].tag
            && (Dist(Insert(q, j, tag), at) == Dist(q, i) <==> Dist(q, i) < j)
  {
    InsertPlaces(q, j, tag);
    InsertDelays(q, j, tag, i);
    RankIsByTime(q, j, i);
  }

  /** The intended rule, that additions disturb nobody, fails: a timer for 5 ticks fires after 8. */
  lemma DelayExample()
    ensures Dist(Insert([Entry(5, 1)], 3, 2), 1) == 8
  {
    assert Insert([Entry(5, 1)], 3, 2) == [Entry(3, 2), Entry(5, 1)];
    assert [Entry(3, 2), Entry(5, 1)][1..] == [Entry(5, 1)];
  }

  // ----- A tick

  /** The timer part of do_timer: the first entry comes one tick closer, and fires when its time is up. */
  function AfterTick<T>(q: seq<Entry<T>>): seq<Entry<T>> {
    if q == [] then [] else if q[0].delta > 1 then [q[0].(delta := q[0].delta - 1)] + q[1..] else q[1..]
  }

  function FiredBy<T>(q: seq<Entry<T>>): seq<Entry<T>> {
    if q != [] && q[0].delta <= 1 then [q[0]] else []
  }

  /** Every pending timer comes exactly one tick closer; the one that fires was one tick away. */
  lemma TickAdvances<T>(q: seq<Entry<T>>)
    requires Positive(q)
    ensures Positive(AfterTick(q)) && |AfterTick(q)| + |FiredBy(q)| == |q|
    ensures var f := |FiredBy(q)|;
            && (f == 1 ==> Dist(q, 0) == 1)
            && forall i :: 0 <= i < |AfterTick(q)| ==>
                 AfterTick(q)[i].tag == q[i + f].tag && Dist(AfterTick(q), i) == Dist(q, i + f) - 1
  {
    var q' := AfterTick(q);
    if q != [] && q[0].delta > 1 {
      assert q'[1..] == q[1..];
    }
  }

  // ----- Whole histories of additions and ticks

  /** What add_timer and do_timer do to a history; additions for j <= 0 fire at once and leave no entry. */
  datatype Step = Add(j: int) | Tick

  /**
    The time, the pending timers tagged with the tick asked for, and for each that fired when it
    did and when it was due.
   */
  datatype History = History(now: int, pending: seq<Entry<int>>, fired: seq<(int, int)>)

  function Next(h: History, e: Step): History {
    match e
    case Add(j) =>
      if j <= 0 then h.(fired := h.fired + [(h.now, h.now + j)])
      else h.(pending := Insert(h.pending, j, h.now + j))
    case Tick =>
      History(h.now + 1, AfterTick(h.pending),
        h.fired + seq(|FiredBy(h.pending)|, i requires 0 <= i < |FiredBy(h.pending)| =>
        (h.now + 1, FiredBy(h.pending)[i].tag)))
  }

  function After(h: History, es: seq<Step>): History
    decreases |es|
  {
    if es == [] then h else After(Next(h, es[0]), es[1..])
  }

  /** Deltas are positive, and nothing fires before the tick it was asked for. */
  ghost predicate NeverEarly(h: History) {
    && Positive(h.pending)
    && (forall i :: 0 <= i < |h.pending| ==> h.pending[i].tag <= h.now + Dist(h.pending, i))
    && (forall i :: 0 <= i < |h.fired| ==> h.fired[i].1 <= h.fired[i].0)
  }

  lemma AddNeverEarly(h: History, j: int)
    requires NeverEarly(h) && j > 0
    ensures NeverEarly(Next(h, Add(j)))
  {
    var q, q', n := h.pending, Next(h, Add(j)).pending, Rank(h.pending, j);
    InsertPlaces(q, j, h.now + j);
    forall k: nat | k < |q'| ensures q'[k].tag <= h.now + Dist(q', k) {
      if k != n {
        var i: nat := if k < n then k else k - 1;
        Moved(h, j, i);
        assert q[i].tag <= h.now + Dist(q, i);
      }
    }
  }

  /** No step lets a timer fire early, and a tick fires one at most. */
  lemma StepNeverEarly(h: History, e: Step)
    requires NeverEarly(h)
    ensures NeverEarly(Next(h, e))
    ensures e.Tick? ==> |h.fired| <= |Next(h, e).fired| <= |h.fired| + 1
  {
    match e
    case Tick => TickAdvances(h.pending);
    case Add(j) => if j > 0 { AddNeverEarly(h, j); }
  }

  /** Over every history no timer fires early. */
  lemma {:induction false} RunNeverEarly(h: History, es: seq<Step>)
    requires NeverEarly(h)
    ensures NeverEarly(After(h, es))
    decreases |es|
  {
    if es != [] {
      StepNeverEarly(h, es[0]);
      RunNeverEarly(Next(h, es[0]), es[1..]);
    }
  }

  /** Everything fires, and has fired, exactly when it was asked for. */
  ghost predicate OnTime(h: History) {
    && (forall i :: 0 <= i < |h.pending| ==> h.pending[i].tag == h.now + Dist(h.pending, i))
    && (forall i :: 0 <= i < |h.fired| ==> h.fired[i].1 == h.fired[i].0)
  }

  /** Whether an addition may be made without putting a pending timer off. */
  ghost predicate Latest(h: History, e: Step) {
    e.Add? ==> e.j == 0 || (e.j > 0 && forall i :: 0 <= i < |h.pending| ==> Dist(h.pending, i) < e.j)
  }

  ghost predicate AllLatest(h: History, es: seq<Step>)
    decreases |es|
  {
    es != [] ==> Latest(h, es[0]) && AllLatest(Next(h, es[0]), es[1..])
  }

  /** Where a pending timer goes when another is added, and that it is put off unless it comes first. */
  lemma Moved(h: History, j: int, i: nat)
    requires NeverEarly(h) && j > 0 && i < |h.pending|
    ensures var q' := Next(h, Add(j)).pending; var at := if i < Rank(h.pending, j) then i else i + 1;
            && at < |q'| && q'[at].tag == h.pending[i].tag && Dist(q', at) >= Dist(h.pending, i)
            && (Dist(q', at) == Dist(h.pending, i) <==> Dist(h.pending, i) < j)
  {
    UndisturbedIffEarlier(h.pending, j, h.now + j, i);
    InsertDelays(h.pending, j, h.now + j, i);
  }

  lemma AddOnTime(h: History, j: int)
    requires NeverEarly(h) && j > 0
    ensures OnTime(Next(h, Add(j))) <==> OnTime(h) && Latest(h, Add(j))
  {
    if OnTime(h) && Latest(h, Add(j)) {
      StaysOnTime(h, j);
    } else if OnTime(Next(h, Add(j))) {
      WasOnTime(h, j);
    }
  }

  lemma StaysOnTime(h: History, j: int)
    requires NeverEarly(h) && j > 0 && OnTime(h) && Latest(h, Add(j))
    ensures OnTime(Next(h, Add(j)))
  {
    var q' := Next(h, Add(j)).pending;
    forall k: nat | k < |q'| ensures q'[k].tag == h.now + Dist(q', k) {
      EntryStaysOnTime(h, j, k);
    }
  }

  lemma EntryStaysOnTime(h: History, j: int, k: nat)
    requires NeverEarly(h) && j > 0 && OnTime(h) && Latest(h, Add(j)) && k < |Insert(h.pending, j, h.now + j)|
    ensures var q' := Insert(h.pending, j, h.now + j); q'[k].tag == h.now + Dist(q', k)
  {
    hide Insert, Dist, Rank;
    var q, n := h.pending, Rank(h.pending, j);
    InsertPlaces(q, j, h.now + j);
    if k != n {
      Moved(h, j, if k < n then k else k - 1);
    }
  }

  lemma WasOnTime(h: History, j: int)
    requires NeverEarly(h) && j > 0 && OnTime(Next(h, Add(j)))
    ensures OnTime(h) && Latest(h, Add(j))
  {
    var q, q' := h.pending, Next(h, Add(j)).pending;
    forall i: nat | i < |q| ensures q[i].tag == h.now + Dist(q, i) && Dist(q, i) < j {
      Moved(h, j, i);
      var at := if i < Rank(q, j) then i else i + 1;
      assert q'[at].tag == h.now + Dist(q', at);
      assert q[i].tag <= h.now + Dist(q, i);
    }
  }

  /** The entry that was i-th is as late after a tick as before, pending or fired. */
  lemma TickKeepsLateness(h: History, i: nat)
    requires NeverEarly(h) && i < |h.pending|
    ensures var h', f := Next(h, Tick), |FiredBy(h.pending)|;
            && |h'.pending| == |h.pending| - f && |h'.fired| == |h.fired| + f
            && (if i < f then h'.fired[|h.fired|] == (h.now + Dist(h.pending, i), h.pending[i].tag)
                else
                  && h'.pending[i - f].tag == h.pending[i].tag
                  && h'.now + Dist(h'.pending, i - f) == h.now + Dist(h.pending, i))
  {
    hide Dist;
    TickAdvances(h.pending);
  }

  lemma TickOnTime(h: History)
    requires NeverEarly(h)
    ensures OnTime(Next(h, Tick)) <==> OnTime(h)
  {
    hide NeverEarly, Dist;
    var h', f := Next(h, Tick), |FiredBy(h.pending)|;
    assert h'.fired[..|h.fired|] == h.fired;
    if OnTime(h') {
      forall i: nat | i < |h.pending| ensures h.pending[i].tag == h.now + Dist(h.pending, i) {
        TickKeepsLateness(h, i);
      }
      forall i | 0 <= i < |h.fired| ensures h.fired[i].1 == h.fired[i].0 {
        assert h'.fired[i] == h.fired[i];
      }
    }
    if OnTime(h) {
      forall i: nat | i < |h'.pending| ensures h'.pending[i].tag == h'.now + Dist(h'.pending, i) {
        TickKeepsLateness(h, i + f);
      }
      forall i | 0 <= i < |h'.fired| ensures h'.fired[i].1 == h'.fired[i].0 {
        if i >= |h.fired| {
          TickKeepsLateness(h, 0);
        } else {
          assert h'.fired[i] == h.fired[i];
        }
      }
    }
  }

  /** A request for a negative time is late as soon as it is made. */
  lemma AtOnceOnTime(h: History, j: int)
    requires j <= 0
    ensures OnTime(Next(h, Add(j))) <==> OnTime(h) && j == 0
  {
    var h' := Next(h, Add(j));
    assert h'.fired[|h.fired|] == (h.now, h.now + j);
    if OnTime(h') {
      forall i | 0 <= i < |h.fired| ensures h.fired[i].1 == h.fired[i].0 {
        assert h'.fired[i] == h.fired[i];
      }
    }
  }

  /** A history is on time exactly when every addition asked for a later tick than all timers then pending. */
  lemma {:induction false} RunOnTimeIff(h: History, es: seq<Step>)
    requires NeverEarly(h)
    ensures OnTime(After(h, es)) <==> OnTime(h) && AllLatest(h, es)
    decreases |es|
  {
    if es != [] {
      StepNeverEarly(h, es[0]);
      RunOnTimeIff(Next(h, es[0]), es[1..]);
      match es[0] {
        case Tick => TickOnTime(h);
        case Add(j) => if j > 0 { AddOnTime(h, j); } else { AtOnceOnTime(h, j); }
      }
    }
  }

  /** How many pending timers are due at tick k. */
  function PendingFor(q: seq<Entry<int>>, k: int): nat {
    if q == [] then 0 else (if q[0].tag == k then 1 else 0) + PendingFor(q[1..], k)
  }

  function FiredFor(fired: seq<(int, int)>, k: int): nat {
    if fired == [] then 0
    else FiredFor(fired[..|fired| - 1], k) + (if fired[|fired| - 1].1 == k then 1 else 0)
  }

  /** How many of the additions to come ask for tick k, counted from the tick at which each is made. */
  function AskedFor(now: int, es: seq<Step>, k: int): nat
    decreases |es|
  {
    if es == [] then 0
    else match es[0]
      case Add(j) => (if now + j == k then 1 else 0) + AskedFor(now, es[1..], k)
      case Tick => AskedFor(now + 1, es[1..], k)
  }

  lemma {:induction false} InsertAddsTag(q: seq<Entry<int>>, j: int, tag: int, k: int)
    ensures PendingFor(Insert(q, j, tag), k) == PendingFor(q, k) + (if tag == k then 1 else 0)
  {
    if q == [] || q[0].delta >= j {
      assert ([Entry(j, tag)] + q)[1..] == q;
    } else {
      InsertAddsTag(q[1..], j - q[0].delta, tag, k);
      assert Insert(q, j, tag)[1..] == Insert(q[1..], j - q[0].delta, tag);
    }
  }

  lemma FiredLast(fired: seq<(int, int)>, at: int, due: int, k: int)
    ensures FiredFor(fired + [(at, due)], k) == FiredFor(fired, k) + (if due == k then 1 else 0)
  {
    assert (fired + [(at, due)])[..|fired|] == fired;
  }

  lemma TickKeepsTags(h: History, k: int)
    ensures var h' := Next(h, Tick);
            PendingFor(h'.pending, k) + FiredFor(h'.fired, k) == PendingFor(h.pending, k) + FiredFor(h.fired, k)
  {
    var q, h' := h.pending, Next(h, Tick);
    if q == [] {
      assert h'.fired == h.fired;
    } else if q[0].delta > 1 {
      assert h'.fired == h.fired && h'.pending[1..] == q[1..];
    } else {
      FiredLast(h.fired, h.now + 1, q[0].tag, k);
      assert h'.fired == h.fired + [(h.now + 1, q[0].tag)];
    }
  }

  /** Over every history each request is pending or has fired, once, and nothing else is or has. */
  lemma {:induction false} RunConserves(h: History, es: seq<Step>, k: int)
    ensures PendingFor(After(h, es).pending, k) + FiredFor(After(h, es).fired, k)
         == PendingFor(h.pending, k) + FiredFor(h.fired, k) + AskedFor(h.now, es, k)
    decreases |es|
  {
    if es != [] {
      RunConserves(Next(h, es[0]), es[1..], k);
      match es[0] {
        case Tick => TickKeepsTags(h, k);
        case Add(j) =>
          if j > 0 { InsertAddsTag(h.pending, j, h.now + j, k); } else { FiredLast(h.fired, h.now, h.now + j, k); }
      }
    }
  }

  // ----- The list in its table of slots

  /** timer_list and next_timer.  A function is a number other than NO_FN; NIL ends the list. */
  const NO_FN := 0
  const NIL := -1

  /** From head the links run through the slots of order and end. */
  ghost predicate Chain(order: seq<int>, next: seq<int>, head: int) {
    && (forall i :: 0 <= i < |order| ==> 0 <= order[i] < |next|)
    && (forall i, k :: 0 <= i < k < |order| ==> order[i] != order[k])
    && head == (if order == [] then NIL else order[0])
    && (forall i, k :: 0 <= i < |order| && k == i + 1 < |order| ==> next[order[i]] == order[k])
    && (order != [] ==> next[order[|order| - 1]] == NIL)
  }

  ghost predicate Holds(order: seq<int>, jiffies: seq<int>, fn: seq<int>, list: seq<Entry<int>>) {
    && |jiffies| == |fn| && |list| == |order|
    && forall i :: 0 <= i < |order| ==> 0 <= order[i] < |fn| && list[i] == Entry(jiffies[order[i]], fn[order[i]])
  }

  /** The slots in use are exactly those on the list. */
  ghost predicate InUse(order: seq<int>, fn: seq<int>) {
    forall s :: 0 <= s < |fn| ==> (fn[s] != NO_FN <==> s in order)
  }

  lemma Pushed(order: seq<int>, next: seq<int>, head: int, p: nat)
    requires Chain(order, next, head) && p < |next| && p !in order
    ensures Chain([p] + order, next[p := head], p)
  {
  }

  lemma PushedHolds(order: seq<int>, jiffies: seq<int>, fn: seq<int>, list: seq<Entry<int>>, p: nat, j: int, f: int)
    requires Holds(order, jiffies, fn, list) && InUse(order, fn) && p < |fn| && p !in order && f != NO_FN
    ensures Holds([p] + order, jiffies[p := j], fn[p := f], [Entry(j, f)] + list) && InUse([p] + order, fn[p := f])
  {
  }

  lemma Popped(order: seq<int>, next: seq<int>, head: int)
    requires Chain(order, next, head) && head != NIL
    ensures order != [] && Chain(order[1..], next, next[head])
  {
    assert |order| > 1 ==> next[order[0]] == order[1];
  }

  lemma PoppedHolds(order: seq<int>, jiffies: seq<int>, fn: seq<int>, list: seq<Entry<int>>)
    requires Holds(order, jiffies, fn, list) && InUse(order, fn) && order != []
    requires forall i, k :: 0 <= i < k < |order| ==> order[i] != order[k]
    ensures Holds(order[1..], jiffies, fn[order[0] := NO_FN], list[1..]) && InUse(order[1..], fn[order[0] := NO_FN])
  {
    assert order == [order[0]] + order[1..];
    assert order[0] !in order[1..];
  }

  /** Exchanging what two neighbours hold exchanges the entries; the new one has the other's delta taken off. */
  lemma Exchanged(order: seq<int>, next: seq<int>, head: int, jiffies: seq<int>, fn: seq<int>, list: seq<Entry<int>>,
                  i: nat)
    requires Chain(order, next, head) && Holds(order, jiffies, fn, list) && InUse(order, fn) && i + 1 < |order|
    ensures var p, n, a, b := order[i], order[i + 1], list[i], list[i + 1];
            var fn' := fn[p := b.tag][n := a.tag];
            && Holds(order, jiffies[p := b.delta][n := a.delta - b.delta], fn',
               list[i := b][i + 1 := a.(delta := a.delta - b.delta)])
            && InUse(order, fn')
  {
  }

  function InsertAll(q: seq<Entry<int>>, adds: seq<(int, int)>): seq<Entry<int>>
    decreases |adds|
  {
    if adds == [] then q
    else InsertAll(if adds[0].0 > 0 && adds[0].1 != NO_FN then Insert(q, adds[0].0, adds[0].1) else q, adds[1..])
  }

  /** The additions take effect in turn, those with a time to come and a function. */
  lemma {:induction false} AddsInTurn(q: seq<Entry<int>>, adds: seq<(int, int)>, j: int, f: int)
    ensures InsertAll(q, []) == q
    ensures j > 0 && f != 0 ==> InsertAll(q, adds + [(j, f)]) == Insert(InsertAll(q, adds), j, f)
    ensures j <= 0 || f == 0 ==> InsertAll(q, adds + [(j, f)]) == InsertAll(q, adds)
    decreases |adds|
  {
    if adds == [] {
      assert ([] + [(j, f)])[1..] == [];
    } else {
      assert (adds + [(j, f)])[1..] == adds[1..] + [(j, f)];
      AddsInTurn(if adds[0].0 > 0 && adds[0].1 != NO_FN then Insert(q, adds[0].0, adds[0].1) else q, adds[1..], j, f);
    }
  }

  /** The list while the new timer, with rest ticks left, stands behind the first i of the others. */
  function Between<T>(q: seq<Entry<T>>, i: nat, rest: int, tag: T): (r: seq<Entry<T>>)
    requires i <= |q|
    ensures |r| == |q| + 1 && r[i] == Entry(rest, tag) && (i < |q| ==> r[i + 1] == q[i])
  {
    q[..i] + [Entry(rest, tag)] + q[i..]
  }

  /** One comparison of the loop in add_timer that goes on. */
  lemma InsertPasses<T>(q: seq<Entry<T>>, i: nat, rest: int, tag: T)
    requires Positive(q) && i < |q| && q[i].delta < rest
    ensures q[..i] + Insert(q[i..], rest, tag) == q[..i + 1] + Insert(q[i + 1..], rest - q[i].delta, tag)
    ensures Between(q, i, rest, tag)[i := q[i]][i + 1 := Entry(rest - q[i].delta, tag)]
         == Between(q, i + 1, rest - q[i].delta, tag)
    ensures Positive(Between(q, i + 1, rest - q[i].delta, tag))
  {
    assert q[i..][1..] == q[i + 1..];
    assert q[..i + 1] == q[..i] + [q[i]];
  }

  /** The comparison that ends it. */
  lemma InsertStops<T>(q: seq<Entry<T>>, i: nat, rest: int, tag: T)
    requires i <= |q| && (i < |q| ==> q[i].delta >= rest)
    ensures q[..i] + Insert(q[i..], rest, tag) == Between(q, i, rest, tag)
  {
  }

  class TimerList {
    const jiffies: array<int>
    const fn: array<int>
    const next: array<int>
    var head: int
    ghost var order: seq<int>
    ghost var list: seq<Entry<int>>

    /** Valid but for the signs of the deltas. */
    ghost predicate Linked()
      reads this, fn, next, jiffies
    {
      && fn != next && fn != jiffies && next != jiffies && fn.Length == next.Length
      && Chain(order, next[..], head) && Holds(order, jiffies[..], fn[..], list) && InUse(order, fn[..])
    }

    ghost predicate Valid()
      reads this, fn, next, jiffies
    {
      Linked() && Positive(list)
    }

    constructor (slots: nat)
      ensures Valid() && list == [] && fn.Length == slots
      ensures fresh(fn) && fresh(next) && fresh(jiffies)
    {
      jiffies := new int[slots](_ => 0);
      fn := new int[slots](_ => NO_FN);
      next := new int[slots](_ => NIL);
      head := NIL;
      order := [];
      list := [];
    }

    method FindSlot() returns (p: nat)
      ensures p <= fn.Length && (p < fn.Length ==> fn[p] == NO_FN)
      ensures forall s :: 0 <= s < p ==> fn[s] != NO_FN
    {
      p := 0;
      while p < fn.Length && fn[p] != NO_FN
        invariant p <= fn.Length
        invariant forall s :: 0 <= s < p ==> fn[s] != NO_FN
      {
        p := p + 1;
      }
    }

    /** Take slot p for the new timer and put it at the front. */
    method PushFront(p: nat, j: int, f: int)
      requires Valid() && p < fn.Length && fn[p] == NO_FN && f != NO_FN && j > 0
      modifies this, fn, next, jiffies
      ensures Valid()
      ensures order == [p] + old(order) && list == [Entry(j, f)] + old(list)
    {
      assert p !in order by { assert fn[..][p] == NO_FN; }
      Pushed(order, next[..], head, p);
      PushedHolds(order, jiffies[..], fn[..], list, p, j, f);
      fn[p] := f;
      jiffies[p] := j;
      next[p] := head;
      head := p;
      order := [p] + order;
      list := [Entry(j, f)] + list;
    }

    /** add_timer.  The result says whether f is called at once, and whether no slot is free, which is the panic. */
    method AddTimer(j: int, f: int) returns (called: bool, panic: bool)
      requires Valid()
      modifies this, fn, next, jiffies
      ensures Valid()
      ensures called <==> f != NO_FN && j <= 0
      ensures panic <==> f != NO_FN && j > 0 && forall s :: 0 <= s < fn.Length ==> old(fn[s]) != NO_FN
      ensures list == if f != NO_FN && j > 0 && !panic then Insert(old(list), j, f) else old(list)
    {
      called, panic := false, false;
      if f == NO_FN { return; }
      if j <= 0 {
        called := true;
        return;
      }
      var p := FindSlot();
      if p >= fn.Length {
        panic := true;
        return;
      }
      ghost var q := list;
      PushFront(p, j, f);
      assert list == Between(q, 0, j, f);
      MoveBack(p, j, f, q);
    }

    /** Slot p is the i-th on the list; here is what its link and its neighbour hold. */
    ghost predicate At(p: int, i: nat)
      reads this, fn, next, jiffies
    {
      && i < |order| == |list| && 0 <= p < next.Length && fn.Length == next.Length == jiffies.Length
      && order[i] == p && jiffies[p] == list[i].delta
      && (if i + 1 < |order| then 0 <= next[p] < fn.Length && next[p] == order[i + 1]
         && jiffies[next[p]] == list[i + 1].delta
          else next[p] == NIL)
    }

    lemma HereIs(i: nat)
      requires Linked() && i < |order|
      ensures At(order[i], i)
    {
      assert i + 1 < |order| ==> next[..][order[i]] == order[i + 1];
    }

    lemma HeadIs()
      requires Linked()
      ensures head == NIL <==> list == []
      ensures list != [] ==> 0 <= head < jiffies.Length && jiffies[head] == list[0].delta
    {
      if order != [] { HereIs(0); }
    }

    /** The loop of add_timer: the new timer goes back past those that come earlier. */
    method MoveBack(first: nat, j: int, f: int, ghost q: seq<Entry<int>>)
      requires Valid() && order != [] && order[0] == first && j > 0 && list == Between(q, 0, j, f)
      requires Positive(q)
      modifies this, fn, jiffies
      ensures Valid() && list == Insert(q, j, f)
    {
      hide Chain, Holds, InUse, Insert, Positive, Between;
      var p := first;
      ghost var i: nat, rest := 0, j;
      assert q[..0] + Insert(q[0..], j, f) == Insert(q, j, f) by { assert q[0..] == q; }
      HereIs(0);
      while next[p] != NIL && jiffies[next[p]] < jiffies[p]
        invariant Valid() && i <= |q| && At(p, i)
        invariant list == Between(q, i, rest, f)
        invariant Insert(q, j, f) == q[..i] + Insert(q[i..], rest, f)
        decreases |q| - i
      {
        var n := next[p];
        InsertPasses(q, i, rest, f);
        Exchange(p, n, i);
        i, rest := i + 1, rest - q[i].delta;
        p := n;
        HereIs(i);
      }
      InsertStops(q, i, rest, f);
    }

    /** One turn of that loop. */
    method Exchange(p: nat, n: nat, ghost i: nat)
      requires Linked() && i + 1 < |order| && order[i] == p && order[i + 1] == n
      modifies this`list, fn, jiffies
      ensures Linked()
      ensures var a, b := old(list[i]), old(list[i + 1]);
              list == old(list)[i := b][i + 1 := a.(delta := a.delta - b.delta)]
    {
      Exchanged(order, next[..], head, jiffies[..], fn[..], list, i);
      ghost var a, b := list[i], list[i + 1];
      ghost var js, fs := jiffies[..], fn[..];
      jiffies[p] := jiffies[p] - jiffies[n];
      var f := fn[p];
      fn[p] := fn[n];
      fn[n] := f;
      var j := jiffies[p];
      jiffies[p] := jiffies[n];
      jiffies[n] := j;
      list := list[i := b][i + 1 := a.(delta := a.delta - b.delta)];
      assert jiffies[..] == js[p := b.delta][n := a.delta - b.delta];
      assert fn[..] == fs[p := b.tag][n := a.tag];
    }

    /** Give the first slot back. */
    method Fire() returns (f: int)
      requires Linked() && head != NIL
      modifies this, fn
      ensures Linked() && list == old(list[1..]) && f == old(list[0]).tag
    {
      Popped(order, next[..], head);
      PoppedHolds(order, jiffies[..], fn[..], list);
      f := fn[head];
      fn[head] := NO_FN;
      head := next[head];
      order := order[1..];
      list := list[1..];
    }

    /**
      The add_timer calls that a timer function makes; those for j <= 0, or with no function, leave
      nothing on the list.
     */
    method AddAll(adds: seq<(int, int)>) returns (panic: bool)
      requires Valid()
      modifies this, fn, next, jiffies
      ensures Valid() && (!panic ==> list == InsertAll(old(list), adds))
    {
      panic := false;
      var i := 0;
      while i < |adds| && !panic
        invariant Valid() && i <= |adds|
        invariant !panic ==> InsertAll(old(list), adds) == InsertAll(list, adds[i..])
      {
        var _, full := AddTimer(adds[i].0, adds[i].1);
        panic := full;
        assert adds[i..][1..] == adds[i + 1..];
        i := i + 1;
      }
    }

    /** The first timer comes one tick closer. */
    method Countdown()
      requires Linked() && head != NIL
      modifies this`list, jiffies
      ensures Linked() && list == old(list[0 := list[0].(delta := list[0].delta - 1)]) && next[..] == old(next[..])
    {
      jiffies[head] := jiffies[head] - 1;
      list := list[0 := list[0].(delta := list[0].delta - 1)];
    }

    /**
      The list part of do_timer; adds are the add_timer calls the function called makes.
      The loop calls at most one function: those that were due together come one tick apart.
     */
    method Tick(adds: seq<(int, int)>) returns (called: seq<int>, panic: bool)
      requires Valid()
      modifies this, fn, next, jiffies
      ensures Valid() && |called| <= 1
      ensures called == [] <==> FiredBy(old(list)) == []
      ensures called != [] ==> called[0] == FiredBy(old(list))[0].tag
      ensures !panic ==> list == if called == [] then AfterTick(old(list)) else InsertAll(AfterTick(old(list)), adds)
    {
      hide Chain, Holds, InUse, InsertAll;
      called, panic := [], false;
      ghost var q := list;
      HeadIs();
      if head != NIL {
        Countdown();
        HeadIs();
        while head != NIL && jiffies[head] <= 0 && !panic
          invariant Linked()
          invariant head == NIL <==> list == []
          invariant list != [] ==> 0 <= head < jiffies.Length && jiffies[head] == list[0].delta
          invariant called == [] ==> list == q[0 := q[0].(delta := q[0].delta - 1)] && !panic
          invariant called != [] ==> Positive(list) && q[0].delta == 1 && called == [q[0].tag]
          invariant called != [] && !panic ==> list == InsertAll(q[1..], adds)
          decreases |called| == 0
        {
          assert list[0].delta <= 0;
          var f := Fire();
          called := called + [f];
          assert list == q[1..];
          panic := AddAll(adds);
          HeadIs();
        }
        assert called == [] ==> list[0].delta > 0;
      }
    }
  }
}
