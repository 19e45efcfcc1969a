/**
  The buffer cache and the request queue of a block device together: what make_request adds
  is never in the queue already, since its buffer was locked and no other has its block.
 */
module DeviceRuns {
  import opened Common
  import Cache = BufferCache
  import Queue = Elevator

  const READ: int := 0
  const WRITE: int := 1

  /** What make_request enters for a buffer: two sectors make a block. */
  function KeyOf(x: Cache.Buf): (k: Queue.Key)
    requires !x.io.Idle?
    ensures k.dev == x.dev && k.sector * 512 == x.blk * 1024 && (k.cmd == 0 <==> !x.io.write) && k.cmd <= 1
  {
    Queue.Key(if x.io.write then WRITE else READ, x.dev, 2 * x.blk)
  }

  /** Buffer b waits for, or is being transferred by, the driver of the devices on. */
  predicate InQueue(s: Cache.Cache, on: set<nat>, b: nat) {
    b in s.bufs && s.bufs[b].io.Queued? && s.bufs[b].dev in on
  }

  /** A request is that of a buffer. */
  ghost predicate Backed(s: Cache.Cache, on: set<nat>, k: Queue.Key) {
    exists b :: InQueue(s, on, b) && KeyOf(s.bufs[b]) == k
  }

  /** The queue holds one request for each queued buffer of its devices. */
  ghost predicate Tied(s: Cache.Cache, on: set<nat>, q: seq<Queue.Key>) {
    && (forall i, j :: 0 <= i < j < |q| ==> q[i] != q[j])
    && (forall b :: InQueue(s, on, b) ==> KeyOf(s.bufs[b]) in q)
    && (forall k :: k in q ==> Backed(s, on, k))
  }

  /** Two buffers under transfer have different keys. */
  lemma KeysDiffer(s: Cache.Cache, b: nat, c: nat)
    requires Cache.Inv(s) && b in s.bufs && c in s.bufs && b != c
    requires !s.bufs[b].io.Idle? && !s.bufs[c].io.Idle?
    ensures KeyOf(s.bufs[b]) != KeyOf(s.bufs[c])
  {
    assert Cache.FlagsOk(s.bufs[b], s.disk);
    assert !Cache.Labelled(s.bufs[c], s.bufs[b].dev, s.bufs[b].blk);
  }

  /** What a step of the cache is for the queue. */
  function ToQueue(s: Cache.Cache, on: set<nat>, step: Cache.Step): Option<Queue.Step>
    requires Cache.Enabled(s, step)
  {
    match step
    case Queue(b) => if s.bufs[b].dev in on then Some(Queue.Add(KeyOf(s.bufs[b]))) else None
    case Finish(b) => if s.bufs[b].dev in on then Some(Queue.End) else None
    case _ => None
  }

  function NextQueue(s: Cache.Cache, on: set<nat>, q: seq<Queue.Key>, step: Cache.Step): seq<Queue.Key>
    requires Cache.Enabled(s, step)
  {
    var e := ToQueue(s, on, step);
    if e.Some? then Queue.Next(q, e.value) else q
  }

  /** end_request is for the request at the head. */
  predicate ServesHead(s: Cache.Cache, on: set<nat>, q: seq<Queue.Key>, step: Cache.Step)
    requires Cache.Enabled(s, step)
  {
    step.Finish? && s.bufs[step.b].dev in on ==> q != [] && q[0] == KeyOf(s.bufs[step.b])
  }

  /** A run of the cache in which the driver serves its queue from the front. */
  ghost predicate IsRun(s: Cache.Cache, on: set<nat>, q: seq<Queue.Key>, steps: seq<Cache.Step>)
    decreases |steps|
  {
    steps == [] ||
    (Cache.Enabled(s, steps[0]) && ServesHead(s, on, q, steps[0])
      && IsRun(Cache.Next(s, steps[0]), on, NextQueue(s, on, q, steps[0]), steps[1..]))
  }

  /** What the run does to the queue. */
  ghost function QueueSteps(s: Cache.Cache, on: set<nat>, q: seq<Queue.Key>, steps: seq<Cache.Step>): seq<Queue.Step>
    requires IsRun(s, on, q, steps)
    decreases |steps|
  {
    if steps == [] then []
    else
      var rest := QueueSteps(Cache.Next(s, steps[0]), on, NextQueue(s, on, q, steps[0]), steps[1..]);
      var e := ToQueue(s, on, steps[0]);
      if e.Some? then [e.value] + rest else rest
  }

  /** Which buffers are queued changes only by make_request and end_request. */
  ghost predicate QueueChanged(s: Cache.Cache, s': Cache.Cache, on: set<nat>, step: Cache.Step, b: nat) {
    && (InQueue(s', on, b) <==>
          if step == Cache.Queue(b) then b in s.bufs && s.bufs[b].dev in on
          else InQueue(s, on, b) && step != Cache.Finish(b))
    && (InQueue(s', on, b) ==> b in s.bufs && !s.bufs[b].io.Idle? && KeyOf(s'.bufs[b]) == KeyOf(s.bufs[b]))
  }

  lemma QueueChanges(s: Cache.Cache, on: set<nat>, step: Cache.Step, b: nat)
    requires Cache.Enabled(s, step)
    ensures QueueChanged(s, Cache.Next(s, step), on, step, b)
  {
    hide Cache.Cached;
  }

  /** A request that is added is new. */
  lemma AddedIsNew(s: Cache.Cache, on: set<nat>, q: seq<Queue.Key>, b: nat)
    requires Cache.Inv(s) && Tied(s, on, q) && Cache.Enabled(s, Cache.Queue(b)) && s.bufs[b].dev in on
    ensures KeyOf(s.bufs[b]) !in q
  {
    if KeyOf(s.bufs[b]) in q {
      var c :| InQueue(s, on, c) && KeyOf(s.bufs[c]) == KeyOf(s.bufs[b]);
      hide Cache.Inv;
      KeysDiffer(s, b, c);
    }
  }

  lemma StepTied(s: Cache.Cache, on: set<nat>, q: seq<Queue.Key>, step: Cache.Step)
    requires Cache.Inv(s) && Tied(s, on, q) && Cache.Enabled(s, step) && ServesHead(s, on, q, step)
    ensures Tied(Cache.Next(s, step), on, NextQueue(s, on, q, step))
  {
    hide Cache.Inv, Cache.Enabled, Cache.Next, Queue.Next;
    var s', q', e := Cache.Next(s, step), NextQueue(s, on, q, step), ToQueue(s, on, step);
    Cache.StepKeeps(s, step);
    forall b: nat ensures QueueChanged(s, s', on, step, b) { QueueChanges(s, on, step, b); }
    if e == Some(Queue.End) {
      HeadServed(s, s', on, q, step);
    } else if e.Some? {
      HeadAdded(s, s', on, q, step);
    } else {
      forall k | k in q ensures Backed(s', on, k) {
        var b :| InQueue(s, on, b) && KeyOf(s.bufs[b]) == k;
        assert QueueChanged(s, s', on, step, b);
      }
      forall b | InQueue(s', on, b) ensures KeyOf(s'.bufs[b]) in q { assert QueueChanged(s, s', on, step, b); }
    }
  }

  lemma HeadServed(s: Cache.Cache, s': Cache.Cache, on: set<nat>, q: seq<Queue.Key>, step: Cache.Step)
    requires Cache.Inv(s) && Tied(s, on, q) && step.Finish? && Cache.Enabled(s, step) && s.bufs[step.b].dev in on
    requires q != [] && q[0] == KeyOf(s.bufs[step.b]) && forall b: nat :: QueueChanged(s, s', on, step, b)
    ensures Tied(s', on, Queue.Next(q, Queue.End))
  {
    forall k | k in q[1..] ensures Backed(s', on, k) {
      assert k in q && k != q[0];
      var b :| InQueue(s, on, b) && KeyOf(s.bufs[b]) == k;
      assert QueueChanged(s, s', on, step, b);
    }
    forall b | InQueue(s', on, b) ensures KeyOf(s'.bufs[b]) in q[1..] {
      assert QueueChanged(s, s', on, step, b);
      hide Cache.Inv;
      KeysDiffer(s, b, step.b);
    }
  }

  lemma HeadAdded(s: Cache.Cache, s': Cache.Cache, on: set<nat>, q: seq<Queue.Key>, step: Cache.Step)
    requires Cache.Inv(s) && Tied(s, on, q) && step.Queue? && Cache.Enabled(s, step) && s.bufs[step.b].dev in on
    requires forall b: nat :: QueueChanged(s, s', on, step, b)
    ensures Tied(s', on, Queue.Next(q, Queue.Add(KeyOf(s.bufs[step.b]))))
  {
    hide Cache.Inv;
    var r := KeyOf(s.bufs[step.b]);
    var q' := Queue.Next(q, Queue.Add(r));
    AddedIsNew(s, on, q, step.b);
    InsertMembers(q, r);
    forall k | k in q' ensures Backed(s', on, k) {
      if k == r {
        assert QueueChanged(s, s', on, step, step.b);
      } else {
        var b :| InQueue(s, on, b) && KeyOf(s.bufs[b]) == k;
        assert QueueChanged(s, s', on, step, b);
      }
    }
    forall b | InQueue(s', on, b) ensures KeyOf(s'.bufs[b]) in q' { assert QueueChanged(s, s', on, step, b); }
  }

  lemma InsertMembers(q: seq<Queue.Key>, r: Queue.Key)
    requires r !in q && forall i, j :: 0 <= i < j < |q| ==> q[i] != q[j]
    ensures forall k :: k in Queue.Insert(q, r) <==> k == r || k in q
    ensures var q' := Queue.Insert(q, r); forall i, j :: 0 <= i < j < |q'| ==> q'[i] != q'[j]
  {
    if q != [] {
      var at := Queue.Place(q, r, 0);
      var q' := Queue.Insert(q, r);
      assert q' == q[..at + 1] + [r] + q[at + 1..];
      forall k | k in q ensures k in q' {
        var i :| 0 <= i < |q| && q[i] == k;
        assert q'[if i <= at then i else i + 1] == k;
      }
      assert q'[at + 1] == r;
    }
  }

  /** Every run of the cache is, for the queue of a device, one in which each request that is added is new. */
  lemma {:induction false} QueueRun(s: Cache.Cache, on: set<nat>, q: seq<Queue.Key>, steps: seq<Cache.Step>)
    requires Cache.Inv(s) && Tied(s, on, q) && IsRun(s, on, q, steps)
    ensures Queue.IsRun(q, QueueSteps(s, on, q, steps))
    decreases |steps|
  {
    hide Cache.Inv, Cache.Enabled, Cache.Next, Queue.Next, Tied;
    if steps != [] {
      StepTied(s, on, q, steps[0]);
      Cache.StepKeeps(s, steps[0]);
      QueueRun(Cache.Next(s, steps[0]), on, NextQueue(s, on, q, steps[0]), steps[1..]);
      if ToQueue(s, on, steps[0]).Some? { StepIsNew(s, on, q, steps[0]); }
    }
  }

  lemma StepIsNew(s: Cache.Cache, on: set<nat>, q: seq<Queue.Key>, step: Cache.Step)
    requires Cache.Inv(s) && Tied(s, on, q) && Cache.Enabled(s, step) && ServesHead(s, on, q, step)
    requires ToQueue(s, on, step).Some?
    ensures match ToQueue(s, on, step).value case Add(r) => r !in q case End => q != []
  {
    hide Cache.Inv;
    if step.Queue? { AddedIsNew(s, on, q, step.b); }
  }

  /** So at every moment after start-up the queue is at most two ascending runs. */
  lemma QueueIsTwoRuns(buffers: set<nat>, disk: map<(nat, nat), Cache.Data>, on: set<nat>, steps: seq<Cache.Step>)
    returns (d: nat)
    requires IsRun(Cache.Start(buffers, disk), on, [], steps)
    ensures Queue.TwoRuns(Queue.After([], QueueSteps(Cache.Start(buffers, disk), on, [], steps)), d)
  {
    var s := Cache.Start(buffers, disk);
    Cache.StartKeeps(buffers, disk);
    assert Tied(s, on, []);
    hide Cache.Inv, Queue.After, Queue.IsRun, IsRun, QueueSteps;
    QueueRun(s, on, [], steps);
    d := Queue.RunKeepsTwoRuns([], 0, QueueSteps(s, on, [], steps));
  }
}
