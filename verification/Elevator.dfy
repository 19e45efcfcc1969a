/**
  The request queue of a block device, kernel/blk_drv/ll_rw_blk.c and blk.h: requests
  are inserted in elevator order behind the one that the device is working on.
 */
module Elevator {

  /** What IN_ORDER compares: reads before writes, then device, then sector. */
  datatype Key = Key(cmd: int, dev: int, sector: int)

  predicate InOrder(a: Key, b: Key) {
    || a.cmd < b.cmd
    || (a.cmd == b.cmd && (a.dev < b.dev || (a.dev == b.dev && a.sector < b.sector)))
  }

  lemma InOrderIsTotal(a: Key, b: Key, c: Key)
    ensures !InOrder(a, a)
    ensures a != b ==> InOrder(a, b) != InOrder(b, a)
    ensures InOrder(a, b) && InOrder(b, c) ==> InOrder(a, c)
  {
  }

  // ----- Insertion

  /** The loop of add_request stops before element i + 1. */
  predicate StopsAt(q: seq<Key>, r: Key, i: nat)
    requires i + 1 < |q|
  {
    (InOrder(q[i], r) || !InOrder(q[i], q[i + 1])) && InOrder(r, q[i + 1])
  }

  /** r goes behind element i, where the loop first stops, or to the end. */
  ghost predicate GoesBehind(q: seq<Key>, r: Key, i: nat) {
    && i < |q|
    && (forall j :: 0 <= j < i ==> !StopsAt(q, r, j))
    && (i + 1 < |q| ==> StopsAt(q, r, i))
  }

  function InsertAfter<T>(q: seq<T>, r: T, i: nat): seq<T>
    requires i < |q|
  {
    q[..i + 1] + [r] + q[i + 1..]
  }

  ghost predicate Ascending(q: seq<Key>, lo: nat, hi: nat) {
    forall i, j :: lo <= i < j < hi && j < |q| ==> InOrder(q[i], q[j])
  }

  /** The queue is one ascending run up to d and another from d on. */
  ghost predicate TwoRuns(q: seq<Key>, d: nat) {
    d <= |q| && Ascending(q, 0, d) && Ascending(q, d, |q|)
  }

  /** Where the second run starts after an insertion behind i. */
  function NewSplit(q: seq<Key>, r: Key, i: nat, d: nat): nat
    requires i < |q|
  {
    if i + 1 == |q| then (if !InOrder(q[i], r) then |q| else if d == |q| then |q| + 1 else d)
    else if d <= i then d
    else if i + 1 < d then d + 1
    else if InOrder(q[i], r) then d + 1
    else d
  }

  lemma AscendingStep(q: seq<Key>, lo: nat, hi: nat)
    requires hi <= |q| && forall i :: lo <= i && i + 1 < hi ==> InOrder(q[i], q[i + 1])
    ensures Ascending(q, lo, hi)
  {
    forall i, j | lo <= i < j < hi && j < |q| ensures InOrder(q[i], q[j]) {
      Chain(q, lo, hi, i, j);
    }
  }

  lemma {:induction false} Chain(q: seq<Key>, lo: nat, hi: nat, i: nat, j: nat)
    requires hi <= |q| && lo <= i < j < hi
    requires forall k :: lo <= k && k + 1 < hi ==> InOrder(q[k], q[k + 1])
    ensures InOrder(q[i], q[j])
    decreases j - i
  {
    if i + 1 < j {
      Chain(q, lo, hi, i + 1, j);
      InOrderIsTotal(q[i], q[i + 1], q[j]);
    }
  }

  /** A request that sinks to the end below its last element finds a single ascending run. */
  lemma SankToEnd(q: seq<Key>, r: Key, d: nat)
    requires TwoRuns(q, d) && q != [] && r !in q && InOrder(r, q[|q| - 1])
    requires forall j :: 0 <= j < |q| - 1 ==> !StopsAt(q, r, j)
    ensures Ascending(q, 0, |q|)
  {
    if 0 < d < |q| {
      var j := |q| - 1;
      while j > d
        invariant d <= j < |q| && InOrder(r, q[j])
      {
        assert !StopsAt(q, r, j - 1);
        assert q[j - 1] in q;
        InOrderIsTotal(q[j - 1], r, r);
        j := j - 1;
      }
      assert !StopsAt(q, r, d - 1);
      AscendingStep(q, 0, |q|);
    }
  }

  /** Two runs stay two runs: a request with a new key never starts a third. */
  lemma InsertKeepsTwoRuns(q: seq<Key>, r: Key, i: nat, d: nat)
    requires TwoRuns(q, d) && GoesBehind(q, r, i) && r !in q
    ensures TwoRuns(InsertAfter(q, r, i), NewSplit(q, r, i, d))
  {
    var q' := InsertAfter(q, r, i);
    var d' := NewSplit(q, r, i, d);
    assert q[i] in q;
    InOrderIsTotal(q[i], r, r);
    if i + 1 == |q| && !InOrder(q[i], r) { SankToEnd(q, r, d); }
    forall j | 0 <= j && j + 1 < |q'| && j + 1 != d' ensures InOrder(q'[j], q'[j + 1]) {
      if j < i {
        assert q'[j] == q[j] && q'[j + 1] == q[j + 1];
      } else if j == i + 1 {
        assert q'[j + 1] == q[i + 1];
      } else if j > i + 1 {
        assert q'[j] == q[j - 1] && q'[j + 1] == q[j];
      }
    }
    AscendingStep(q', 0, d');
    AscendingStep(q', d', |q'|);
  }

  lemma PopKeepsTwoRuns(q: seq<Key>, d: nat)
    requires TwoRuns(q, d) && q != []
    ensures TwoRuns(q[1..], if d == 0 then 0 else d - 1)
  {
  }

  /** Within one run of the queue reads come before writes, then devices ascend, and on a device the sectors do. */
  lemma SweepAscends(q: seq<Key>, d: nat, i: nat, j: nat)
    requires TwoRuns(q, d) && i < j < |q| && (j < d || d <= i)
    ensures q[i].cmd <= q[j].cmd
    ensures q[i].cmd == q[j].cmd ==> q[i].dev <= q[j].dev
    ensures q[i].cmd == q[j].cmd && q[i].dev == q[j].dev ==> q[i].sector < q[j].sector
  {
    assert InOrder(q[i], q[j]);
  }

  /**
    A new request is served in the sweep under way exactly if it lies between the request
    in service and the last one of the sweep: one beyond both waits for the next sweep.
   */
  lemma JoinsSweepIff(q: seq<Key>, r: Key, i: nat, d: nat)
    requires TwoRuns(q, d) && 0 < d < |q| && !InOrder(q[d - 1], q[d])
    requires GoesBehind(q, r, i) && r !in q
    ensures i + 1 < d <==> InOrder(q[0], r) && InOrder(r, q[d - 1])
  {
    if i + 1 < d {
      assert StopsAt(q, r, i) && InOrder(q[i], q[i + 1]) && InOrder(r, q[d - 1]);
      assert i > 0 ==> InOrder(q[0], q[i]);
    } else if InOrder(q[0], r) && InOrder(r, q[d - 1]) {
      var j := 0;
      while j + 1 < d
        invariant j < d && InOrder(q[j], r)
      {
        assert !StopsAt(q, r, j);
        assert q[j + 1] in q;
        InOrderIsTotal(q[j + 1], r, r);
        j := j + 1;
      }
      assert InOrder(q[d - 1], r) && InOrder(r, q[d - 1]);
      InOrderIsTotal(r, q[d - 1], r);
    }
  }

  // ----- Whole runs of a device

  /** The place that add_request finds, looking from element i on. */
  function Place(q: seq<Key>, r: Key, i: nat): (p: nat)
    requires i < |q|
    ensures i <= p < |q|
    decreases |q| - i
  {
    if i + 1 == |q| || StopsAt(q, r, i) then i else Place(q, r, i + 1)
  }

  lemma {:induction false} PlaceIsFirst(q: seq<Key>, r: Key, i: nat)
    requires i < |q| && forall j :: 0 <= j < i ==> !StopsAt(q, r, j)
    ensures GoesBehind(q, r, Place(q, r, i))
    decreases |q| - i
  {
    if i + 1 < |q| && !StopsAt(q, r, i) { PlaceIsFirst(q, r, i + 1); }
  }

  lemma OnePlace(q: seq<Key>, r: Key, i: nat, j: nat)
    requires GoesBehind(q, r, i) && GoesBehind(q, r, j)
    ensures i == j
  {
  }

  function Insert(q: seq<Key>, r: Key): seq<Key> {
    if q == [] then [r] else InsertAfter(q, r, Place(q, r, 0))
  }

  datatype Step = Add(r: Key) | End

  function Next(q: seq<Key>, step: Step): seq<Key> {
    match step
    case Add(r) => Insert(q, r)
    case End => if q == [] then [] else q[1..]
  }

  /** Requests in a queue have distinct keys: module DeviceRuns shows it of all that the buffer cache asks for. */
  predicate IsRun(q: seq<Key>, steps: seq<Step>)
    decreases |steps|
  {
    steps == [] || (
      && (match steps[0] case Add(r) => r !in q case End => q != [])
      && IsRun(Next(q, steps[0]), steps[1..]))
  }

  function After(q: seq<Key>, steps: seq<Step>): seq<Key>
    decreases |steps|
  {
    if steps == [] then q else After(Next(q, steps[0]), steps[1..])
  }

  /** What the device has served, in order. */
  function Served(q: seq<Key>, steps: seq<Step>): seq<Key>
    decreases |steps|
  {
    if steps == [] then []
    else (if steps[0].End? && q != [] then [q[0]] else []) + Served(Next(q, steps[0]), steps[1..])
  }

  /** How often a request with key k was added. */
  function Added(steps: seq<Step>, k: Key): nat {
    if steps == [] then 0 else (if steps[0] == Add(k) then 1 else 0) + Added(steps[1..], k)
  }

  lemma InsertFacts(q: seq<Key>, r: Key)
    ensures multiset(Insert(q, r)) == multiset(q) + multiset{r}
    ensures q != [] ==> Insert(q, r)[0] == q[0]
  {
    if q != [] {
      var i := Place(q, r, 0);
      assert q == q[..i + 1] + q[i + 1..];
    }
  }

  /** Every run keeps at most two ascending runs. */
  lemma {:induction false} RunKeepsTwoRuns(q: seq<Key>, d: nat, steps: seq<Step>) returns (d': nat)
    requires TwoRuns(q, d) && IsRun(q, steps)
    ensures TwoRuns(After(q, steps), d')
    decreases |steps|
  {
    hide TwoRuns;
    if steps == [] { return d; }
    var d1;
    match steps[0] {
      case Add(r) =>
        if q == [] {
          d1 := 0;
          assert TwoRuns([r], 0) by { OneRequest(r); }
        } else {
          PlaceIsFirst(q, r, 0);
          InsertKeepsTwoRuns(q, r, Place(q, r, 0), d);
          d1 := NewSplit(q, r, Place(q, r, 0), d);
        }
      case End =>
        PopKeepsTwoRuns(q, d);
        d1 := if d == 0 then 0 else d - 1;
    }
    d' := RunKeepsTwoRuns(Next(q, steps[0]), d1, steps[1..]);
  }

  lemma OneRequest(r: Key)
    ensures TwoRuns([r], 0)
  {
  }

  /** Each request that was added is served or still queued, exactly once. */
  lemma {:induction false} RunConserves(q: seq<Key>, steps: seq<Step>, k: Key)
    requires IsRun(q, steps)
    ensures multiset(After(q, steps))[k] + multiset(Served(q, steps))[k] == multiset(q)[k] + Added(steps, k)
    decreases |steps|
  {
    if steps != [] {
      StepConserves(q, steps[0], k);
      var q1, steps1 := Next(q, steps[0]), steps[1..];
      hide Next;
      RunConserves(q1, steps1, k);
      if steps[0].End? {
        CountFirst(Served(q, steps), k);
        assert Served(q, steps)[1..] == Served(q1, steps1);
      } else {
        assert Served(q, steps) == Served(q1, steps1);
      }
    }
  }

  lemma StepConserves(q: seq<Key>, step: Step, k: Key)
    requires step.End? ==> q != []
    ensures multiset(Next(q, step))[k] + (if step.End? && q[0] == k then 1 else 0)
         == multiset(q)[k] + (if step == Add(k) then 1 else 0)
  {
    match step
    case Add(r) => InsertFacts(q, r);
    case End => CountFirst(q, k);
  }

  lemma CountFirst(q: seq<Key>, k: Key)
    requires q != []
    ensures multiset(q)[k] == multiset(q[1..])[k] + if q[0] == k then 1 else 0
  {
    assert q == [q[0]] + q[1..];
  }

  // ----- The code

  class Request {
    var busy: bool          // dev is not -1
    var key: Key
    var swap: bool          // bh is NULL: a paging request
    var next: Request?
  }

  ghost predicate Linked(h: Request?, q: seq<Request>)
    reads q`next
  {
    && h == (if q == [] then null else q[0])
    && (forall i, j :: 0 <= i < j < |q| ==> q[i] != q[j])
    && (forall i {:trigger q[i].next} :: 0 <= i < |q| ==> q[i].next == if i + 1 < |q| then q[i + 1] else null)
  }

  function Keys(q: seq<Request>): seq<Key>
    reads q
  {
    seq(|q|, i requires 0 <= i < |q| reads q => q[i].key)
  }

  /** The test in the loop of add_request, with the rule that paging requests go before all others. */
  predicate Stops(q: seq<Request>, req: Request, i: nat)
    requires i + 1 < |q|
    reads q`key, q`swap, req`key, req`swap
  {
    if req.swap then !q[i + 1].swap
    else (InOrder(q[i].key, req.key) || !InOrder(q[i].key, q[i + 1].key)) && InOrder(req.key, q[i + 1].key)
  }

  lemma InsertedDistinct(q: seq<Request>, req: Request, i: nat)
    requires i < |q| && req !in q && forall a, b :: 0 <= a < b < |q| ==> q[a] != q[b]
    ensures forall a, b :: 0 <= a < b < |q| + 1 ==> InsertAfter(q, req, i)[a] != InsertAfter(q, req, i)[b]
  {
    var p := InsertAfter(q, req, i);
    forall a | 0 <= a < |p| && a != i + 1 ensures p[a] != req { assert p[a] in q; }
  }

  /** On a queue of buffer requests, add_request puts the key where the elevator order wants it. */
  lemma AddFollowsOrder(q: seq<Request>, req: Request, at: nat)
    requires at < |q| && !req.swap
    requires forall j :: 0 <= j < at ==> !Stops(q, req, j)
    requires at + 1 < |q| ==> Stops(q, req, at)
    ensures GoesBehind(Keys(q), req.key, at)
    ensures Keys(InsertAfter(q, req, at)) == Insert(Keys(q), req.key)
  {
    forall j | 0 <= j < at ensures !StopsAt(Keys(q), req.key, j) { assert !Stops(q, req, j); }
    PlaceIsFirst(Keys(q), req.key, 0);
    OnePlace(Keys(q), req.key, at, Place(Keys(q), req.key, 0));
  }

  /** end_request serves the first key. */
  lemma EndFollowsOrder(q: seq<Request>)
    requires q != []
    ensures Keys(q[1..]) == Next(Keys(q), End) && Keys(q)[0] == q[0].key
  {
  }

  /** make_request's search: reads may take any free slot, writes only the low two thirds. */
  method FindSlot(slots: seq<Request>, write: bool) returns (k: int)
    ensures -1 <= k < |slots| && (k >= 0 ==> !slots[k].busy)
    ensures write ==> k < |slots| * 2 / 3 || k == -1
    ensures forall j :: k < j < (if write then |slots| * 2 / 3 else |slots|) ==> slots[j].busy
  {
    k := if write then |slots| * 2 / 3 else |slots|;
    ghost var top := k;
    k := k - 1;
    while k >= 0
      invariant -1 <= k < top
      invariant forall j :: k < j < top ==> slots[j].busy
    {
      if !slots[k].busy { return; }
      k := k - 1;
    }
  }

  class Device {
    var current: Request?
    ghost var queue: seq<Request>

    constructor ()
      ensures current == null && queue == []
    {
      current, queue := null, [];
    }

    /** add_request: req joins the queue, never in front of the request in service. */
    method AddRequest(req: Request) returns (ghost at: nat)
      requires Linked(current, queue) && req !in queue
      modifies this, queue`next, req`next
      ensures Linked(current, queue)
      ensures old(queue) == [] ==> queue == [req]
      ensures old(queue) != [] ==>
        && at < |old(queue)| && queue == InsertAfter(old(queue), req, at)
        && (forall j :: 0 <= j < at ==> !Stops(old(queue), req, j))
        && (at + 1 < |old(queue)| ==> Stops(old(queue), req, at))
      ensures req.swap && old(queue) != [] ==>
        && (forall j :: 1 <= j <= at ==> old(queue)[j].swap)
        && (at + 1 < |old(queue)| ==> !old(queue)[at + 1].swap)
    {
      req.next := null;
      at := 0;
      if current == null {
        current := req;
        queue := [req];
        return;
      }
      var tmp := current;
      while tmp.next != null
        invariant at < |queue| && tmp == queue[at] && Linked(current, queue)
        invariant forall j :: 0 <= j < at ==> !Stops(queue, req, j)
        decreases |queue| - at
      {
        if req.swap {
          if !tmp.next.swap { break; }
        } else if (InOrder(tmp.key, req.key) || !InOrder(tmp.key, tmp.next.key)) && InOrder(req.key, tmp.next.key) {
          break;
        }
        tmp := tmp.next;
        at := at + 1;
      }
      ghost var q := queue;
      label found:
      LinkBehind(tmp, req, at);
      forall j | 0 <= j < at ensures !Stops(q, req, j) { assert !old@found(Stops(q, req, j)); }
      forall j | 1 <= j <= at && req.swap ensures q[j].swap { assert !Stops(q, req, j - 1); }
    }

    method LinkBehind(tmp: Request, req: Request, ghost at: nat)
      requires Linked(current, queue) && at < |queue| && tmp == queue[at] && req !in queue
      modifies this`queue, tmp`next, req`next
      ensures Linked(current, queue) && queue == InsertAfter(old(queue), req, at)
    {
      ghost var q := queue;
      req.next := tmp.next;
      tmp.next := req;
      queue := InsertAfter(q, req, at);
      InsertedDistinct(q, req, at);
      assert forall j {:trigger queue[j]} :: 0 <= j < |queue| ==>
        queue[j] == if j <= at then q[j] else if j == at + 1 then req else q[j - 1];
    }

    /** end_request: the head is done and its slot is free. */
    method EndRequest() returns (done: Request)
      requires Linked(current, queue) && queue != []
      modifies this, current
      ensures Linked(current, queue) && queue == old(queue)[1..] && done == old(queue)[0] && !done.busy
    {
      done := current;
      done.busy := false;
      current := done.next;
      queue := queue[1..];
    }
  }
}
