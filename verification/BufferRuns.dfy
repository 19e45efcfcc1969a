/**
  The two halves of fs/buffer.c together: every step of BufferCache is carried out on the
  hash chains and the free list of BufferIndex, find_buffer deciding by walking a chain
  and the relabelling of getblk relinking the buffer.
 */
module BufferRuns {
  import opened Common
  import opened BufferIndex
  import opened BufferCache

  /** What a buffer head holds of its buffer; a buffer of no device has no block number. */
  datatype Flags = Flags(dev: nat, blk: nat, count: nat, dirt: bool, lock: bool)

  ghost function Shot(x: Head): Flags
    reads x`dev, x`blk, x`count, x`dirt, x`lock
  {
    Flags(x.dev, if x.dev == 0 then 0 else x.blk, x.count, x.dirt, x.lock)
  }

  function FlagsOf(s: Cache, b: nat): Flags
    requires b in s.bufs && b in s.count
  {
    var x := s.bufs[b];
    Flags(x.dev, if x.dev == 0 then 0 else x.blk, s.count[b], x.dirt, !x.io.Idle?)
  }

  /** The buffer whose head a step changes. */
  function Target(s: Cache, step: Step): Option<nat>
    requires Enabled(s, step)
  {
    match step
    case Find(_, b) => Some(b)
    case Claim(t) => Some(s.calls[t].b)
    case Release(t) => Some(s.calls[t].b)
    case Lock(b, _, _) => Some(b)
    case Unneeded(b) => Some(b)
    case Queue(b) => Some(b)
    case Finish(b) => Some(b)
    case Modify(t, _) => Some(s.calls[t].b)
    case Fill(t, _) => Some(s.calls[t].b)
    case Forget(t) => Some(s.calls[t].b)
    case _ => None
  }

  /** How that head changes. */
  function Changed(s: Cache, step: Step, f: Flags): Flags
    requires Enabled(s, step)
  {
    match step
    case Find(_, _) => f.(count := f.count + 1)
    case Claim(t) => Flags(s.calls[t].dev, s.calls[t].blk, 1, false, false)
    case Release(_) => f.(count := if f.count > 0 then f.count - 1 else 0)
    case Lock(_, _, _) => f.(lock := true)
    case Unneeded(_) => f.(lock := false)
    case Queue(_) => f.(dirt := false)
    case Finish(_) => f.(lock := false)
    case Modify(_, _) => f.(dirt := true)
    case Fill(_, _) => f.(dirt := true)
    case Forget(_) => f.(dirt := false)
    case _ => f
  }

  lemma NextKeys(s: Cache, step: Step)
    requires BufferCache.Inv(s) && Enabled(s, step)
    ensures Next(s, step).bufs.Keys == s.bufs.Keys == s.count.Keys == Next(s, step).count.Keys
  {
    StepKeeps(s, step);
    hide BufferCache.Unique, AllFlagsOk, Cached, AllCallsOk;
    assert forall b :: b in s.bufs ==> b in s.count;
    assert Next(s, step).bufs.Keys == s.bufs.Keys;
  }

  lemma NextFlags(s: Cache, step: Step, b: nat)
    requires Enabled(s, step) && b in s.bufs && b in s.count && (step.WaitOver? ==> Next(s, step).calls[step.t].Owner?)
    requires step.Claim? ==> s.calls[step.t].dev != 0
    ensures b in Next(s, step).bufs && b in Next(s, step).count
    ensures FlagsOf(Next(s, step), b) == if Target(s, step) == Some(b) then Changed(s, step, FlagsOf(s, b))
            else FlagsOf(s, b)
  {
    hide Cached;
  }

  /** Nothing about labels, counts and flags changes but at the step's own buffer. */
  lemma NextTied(s: Cache, step: Step)
    requires BufferCache.Inv(s) && Enabled(s, step)
    ensures var s' := Next(s, step);
            && s'.bufs.Keys == s.bufs.Keys == s.count.Keys == s'.count.Keys
            && forall b: nat :: b in s.bufs ==>
                 FlagsOf(s', b) == if Target(s, step) == Some(b) then Changed(s, step, FlagsOf(s, b)) else FlagsOf(s, b)
  {
    if step.WaitOver? { WaitOverFinds(s, step.t); }
    if step.Claim? { CallHasDevice(s, step.t); }
    NextKeys(s, step);
    hide BufferCache.Inv, Enabled, Next, Changed, Target, FlagsOf;
    forall b: nat | b in s.bufs
      ensures FlagsOf(Next(s, step), b) == if Target(s, step) == Some(b) then Changed(s, step, FlagsOf(s, b))
              else FlagsOf(s, b) {
      NextFlags(s, step, b);
    }
  }

  /** find_buffer and the choice that follows it are one step of three kinds. */
  predicate SameKind(a: Step, b: Step) {
    a == b || ((a.Find? || a.Choose? || a.NoVictim?) && (b.Find? || b.Choose? || b.NoVictim?) && a.t == b.t)
  }

  // ----- The order of last use

  predicate Unused(s: Cache, b: nat) { b in s.bufs && b in s.count && s.count[b] == 0 }

  function Bad(s: Cache, b: nat): nat
    requires b in s.bufs
  {
    Badness(s.bufs[b].dirt, !s.bufs[b].io.Idle?)
  }

  /** The scan of the free list ends with the buffer at place `at`: unused, and the first of the least bad. */
  predicate IsVictim(s: Cache, order: seq<nat>, at: nat) {
    && at < |order| && Unused(s, order[at])
    && forall j {:trigger order[j]} :: 0 <= j < |order| && Unused(s, order[j]) ==>
         && Bad(s, order[at]) <= Bad(s, order[j])
         && (j < at ==> Bad(s, order[at]) < Bad(s, order[j]))
  }

  /** The step is what the scan of the free list comes to. */
  predicate Scanned(s: Cache, order: seq<nat>, step: Step) {
    match step
    case Choose(_, b) => exists at: nat :: at < |order| && IsVictim(s, order, at) && order[at] == b
    case NoVictim(_) => forall b :: b in order ==> !Unused(s, b)
    case _ => true
  }

  /** Where x first stands in the row. */
  function PositionOf<T(==)>(row: seq<T>, x: T): (at: nat)
    requires x in row
    ensures at < |row| && row[at] == x
  {
    if row[0] == x then 0 else 1 + PositionOf(row[1..], x)
  }

  /** A buffer that is relabelled goes to the end of the free list. */
  function NextOrder(s: Cache, order: seq<nat>, step: Step): seq<nat>
    requires Enabled(s, step)
  {
    var b := if step.Claim? then s.calls[step.t].b else 0;
    if step.Claim? && b in order then
      var at := PositionOf<nat>(order, b);
      order[..at] + order[at + 1..] + [b]
    else order
  }

  /**
    What becomes of a list of steps: each one that is enabled when its turn comes is taken, in the form to which
    the lookup and the scan lead; the others are left out.
   */
  predicate Follows(s: Cache, order: seq<nat>, steps: seq<Step>, taken: seq<Step>)
    decreases |steps|
  {
    if steps == [] then taken == []
    else if !Enabled(s, steps[0]) then Follows(s, order, steps[1..], taken)
    else
      && taken != [] && Takes(s, order, steps[0], taken[0])
      && Follows(Next(s, taken[0]), NextOrder(s, order, taken[0]), steps[1..], taken[1..])
  }

  predicate Takes(s: Cache, order: seq<nat>, step: Step, taken: Step) {
    Enabled(s, taken) && SameKind(step, taken) && Scanned(s, order, taken)
  }

  /** A run in which every choice is the one the scan makes. */
  predicate ScannedRun(s: Cache, order: seq<nat>, steps: seq<Step>)
    decreases |steps|
  {
    steps == [] ||
    (Enabled(s, steps[0]) && Scanned(s, order, steps[0])
      && ScannedRun(Next(s, steps[0]), NextOrder(s, order, steps[0]), steps[1..]))
  }

  lemma OneVictim(s: Cache, order: seq<nat>, at: nat, at': nat)
    requires IsVictim(s, order, at) && IsVictim(s, order, at')
    ensures at == at'
  {
    assert Unused(s, order[at]) && Unused(s, order[at']);
  }

  /**
    What the scan comes to: no unused buffer is clean if the one chosen is dirty, none alike is unlocked if it is
    locked, and those alike that stand before it on the free list are in use.
   */
  lemma ChosenIsLeastBad(s: Cache, order: seq<nat>, t: nat, b: nat, j: nat)
    requires Scanned(s, order, Choose(t, b)) && j < |order|
    requires order[j] in s.bufs && order[j] in s.count && s.count[order[j]] == 0
    ensures b in s.bufs && b in s.count && s.count[b] == 0
    ensures s.bufs[b].dirt ==> s.bufs[order[j]].dirt
    ensures s.bufs[b].dirt == s.bufs[order[j]].dirt && !s.bufs[b].io.Idle? ==> !s.bufs[order[j]].io.Idle?
    ensures s.bufs[b].dirt == s.bufs[order[j]].dirt && s.bufs[b].io.Idle? == s.bufs[order[j]].io.Idle? ==>
              exists i :: 0 <= i <= j && order[i] == b
  {
    var at: nat :| at < |order| && IsVictim(s, order, at) && order[at] == b;
    assert Unused(s, order[j]);
  }

  ghost predicate Before(row: seq<nat>, x: nat, y: nat) {
    exists k, l :: 0 <= k < l < |row| && row[k] == x && row[l] == y
  }

  lemma MovedLast(order: seq<nat>, at: nat, x: nat, y: nat)
    requires at < |order| && y != order[at] && Before(order[..at] + order[at + 1..] + [order[at]], x, y)
    ensures Before(order, x, y)
  {
    var next := order[..at] + order[at + 1..] + [order[at]];
    var k, l :| 0 <= k < l < |next| && next[k] == x && next[l] == y;
    assert order[if k < at then k else k + 1] == x && order[if l < at then l else l + 1] == y;
  }

  /** The buffer that was relabelled last stands last; the others keep their order, and other steps change nothing. */
  lemma LastUsedStandsLast(s: Cache, order: seq<nat>, step: Step, x: nat, y: nat)
    requires Enabled(s, step)
    ensures |NextOrder(s, order, step)| == |order|
    ensures step.Claim? && s.calls[step.t].b in order ==>
              order != [] && NextOrder(s, order, step)[|order| - 1] == s.calls[step.t].b
    ensures Before(NextOrder(s, order, step), x, y) && (step.Claim? ==> y != s.calls[step.t].b) ==> Before(order, x, y)
  {
    hide Before;
    if step.Claim? && s.calls[step.t].b in order && y != s.calls[step.t].b
       && Before(NextOrder(s, order, step), x, y) {
      MovedLast(order, PositionOf<nat>(order, s.calls[step.t].b), x, y);
    }
  }

  /** What is taken is determined by the state. */
  lemma TakesOne(s: Cache, order: seq<nat>, step: Step, taken: Step)
    requires BufferCache.Inv(s) && (forall b :: b in s.bufs ==> b in order)
    requires Enabled(s, step) && Scanned(s, order, step) && Takes(s, order, step, taken)
    ensures taken == step
  {
    if step.Find? { CallHasDevice(s, step.t); }
    hide IsVictim, AllFlagsOk, AllCallsOk;
    match (step, taken) {
      case (Find(t, b), Find(_, c)) =>
        assert Labelled(s.bufs[b], s.calls[t].dev, s.calls[t].blk);
        assert Labelled(s.bufs[c], s.calls[t].dev, s.calls[t].blk);
      case (Choose(t, b), Choose(_, c)) =>
        var at: nat :| at < |order| && IsVictim(s, order, at) && order[at] == b;
        var at': nat :| at' < |order| && IsVictim(s, order, at') && order[at'] == c;
        OneVictim(s, order, at, at');
      case _ =>
    }
  }

  /** A run whose choices are those of the scan is taken as it is. */
  lemma {:induction false} TakenAsGiven(s: Cache, order: seq<nat>, steps: seq<Step>, taken: seq<Step>)
    requires BufferCache.Inv(s) && (forall b :: b in s.bufs ==> b in order)
    requires ScannedRun(s, order, steps) && Follows(s, order, steps, taken)
    ensures taken == steps
    decreases |steps|
  {
    hide BufferCache.Inv, Enabled, Next, Scanned;
    if steps != [] {
      TakesOne(s, order, steps[0], taken[0]);
      StepKeeps(s, steps[0]);
      NextKeys(s, steps[0]);
      OrderKeeps(s, order, steps[0]);
      TakenAsGiven(Next(s, steps[0]), NextOrder(s, order, steps[0]), steps[1..], taken[1..]);
    }
  }

  lemma OrderKeeps(s: Cache, order: seq<nat>, step: Step)
    requires Enabled(s, step)
    ensures forall b :: b in order ==> b in NextOrder(s, order, step)
  {
    forall b | b in order ensures b in NextOrder(s, order, step) {
      var i :| 0 <= i < |order| && order[i] == b;
      if step.Claim? && s.calls[step.t].b in order {
        var at := PositionOf<nat>(order, s.calls[step.t].b);
        var next := NextOrder(s, order, step);
        assert next[if i < at then i else if i > at then i - 1 else |order| - 1] == b;
      }
    }
  }

  lemma {:induction false} FollowsIsRun(s: Cache, order: seq<nat>, steps: seq<Step>, taken: seq<Step>)
    requires Follows(s, order, steps, taken)
    ensures IsRun(s, taken)
    decreases |steps|
  {
    hide Enabled, Next, Scanned, NextOrder;
    if steps == [] {
    } else if Enabled(s, steps[0]) {
      FollowsIsRun(Next(s, taken[0]), NextOrder(s, order, taken[0]), steps[1..], taken[1..]);
    } else {
      FollowsIsRun(s, order, steps[1..], taken);
    }
  }

  ghost function AfterOrder(s: Cache, order: seq<nat>, taken: seq<Step>): seq<nat>
    requires IsRun(s, taken)
    decreases |taken|
  {
    if taken == [] then order else AfterOrder(Next(s, taken[0]), NextOrder(s, order, taken[0]), taken[1..])
  }

  /** One more step, taken or left out. */
  lemma {:induction false} FollowsGrows(s: Cache, order: seq<nat>, steps: seq<Step>, taken: seq<Step>, step: Step,
                                        more: seq<Step>)
    requires Follows(s, order, steps, taken) && IsRun(s, taken)
    requires var z := After(s, taken);
             if Enabled(z, step) then |more| == 1 && Takes(z, AfterOrder(s, order, taken), step, more[0])
             else more == []
    ensures Follows(s, order, steps + [step], taken + more)
    decreases |steps|
  {
    hide Enabled, Next, Scanned, NextOrder, Takes;
    if steps == [] {
      assert taken + more == more && [step][1..] == [];
      if more != [] { assert more[1..] == []; }
    } else {
      assert (steps + [step])[1..] == steps[1..] + [step];
      if Enabled(s, steps[0]) {
        assert (taken + more)[1..] == taken[1..] + more;
        FollowsGrows(Next(s, taken[0]), NextOrder(s, order, taken[0]), steps[1..], taken[1..], step, more);
      } else {
        FollowsGrows(s, order, steps[1..], taken, step, more);
      }
    }
  }

  /** The order moves with the ring. */
  lemma OrderMoves(heads: seq<Head>, ring: seq<Head>, order: seq<nat>, at: nat)
    requires |order| == |ring| && at < |ring|
    requires forall i {:trigger order[i]} :: 0 <= i < |order| ==> order[i] < |heads| && heads[order[i]] == ring[i]
    ensures var ring' := Without(ring, at) + [ring[at]];
            var order' := order[..at] + order[at + 1..] + [order[at]];
            && |order'| == |ring'|
            && forall i {:trigger order'[i]} :: 0 <= i < |order'| ==>
                 order'[i] < |heads| && heads[order'[i]] == ring'[i]
  {
    var order' := order[..at] + order[at + 1..] + [order[at]];
    forall i | 0 <= i < |order'|
      ensures order'[i] == order[if i < at then i else if i < |order| - 1 then i + 1 else at] { }
  }

  lemma FollowsNothing(s: Cache, order: seq<nat>)
    ensures Follows(s, order, [], [])
  {
  }

  lemma FindIsScanned(s: Cache, order: seq<nat>, t: nat, b: nat)
    ensures Scanned(s, order, Find(t, b))
  {
  }

  lemma StepIs(s: Cache, order: seq<nat>, step: Step)
    requires Enabled(s, step)
    ensures step.Find? || step.Choose? || step.NoVictim? ==> step.t in s.calls && s.calls[step.t].Looking?
    ensures !step.Choose? && !step.NoVictim? ==> Scanned(s, order, step)
    ensures !step.Claim? ==> NextOrder(s, order, step) == order
    ensures step.Repeat? || step.Claim? ==> Exclusive(s, step)
  {
  }

  /** When wait_on_buffer in getblk returns, one of the two steps is enabled. */
  predicate Exclusive(s: Cache, step: Step)
    requires step.Repeat? || step.Claim?
  {
    Enabled(s, Repeat(step.t)) != Enabled(s, Claim(step.t))
  }

  // ----- The index under the cache

  function Numbers(n: nat): set<nat> { if n == 0 then {} else Numbers(n - 1) + {n - 1} }

  lemma {:induction false} NumbersAre(n: nat, b: nat)
    ensures b in Numbers(n) <==> b < n
  {
    if n > 0 { NumbersAre(n - 1, b); }
  }

  lemma StartsTied(heads: seq<Head>, buffers: set<nat>, disk: map<(nat, nat), Data>)
    requires buffers == Numbers(|heads|) && forall x :: x in heads ==> Blank(x)
    ensures var s := Start(buffers, disk);
            && (forall b: nat :: b in s.bufs <==> b < |heads|) && (forall b: nat :: b in s.count <==> b < |heads|)
            && (forall b: nat :: b < |heads| ==> Shot(heads[b]) == FlagsOf(s, b))
  {
    forall b: nat ensures b in buffers <==> b < |heads| { NumbersAre(|heads|, b); }
    forall b: nat | b < |heads| ensures Blank(heads[b]) { assert heads[b] in heads; }
  }

  lemma CallHasDevice(s: Cache, t: nat)
    requires BufferCache.Inv(s) && t in s.calls
    ensures s.calls[t].dev != 0
  {
    assert CallOk(s.calls[t], s.bufs);
  }

  lemma NotCached(s: Cache, heads: seq<Head>, dev: nat, blk: nat)
    requires forall b: nat :: b in s.bufs <==> b < |heads|
    requires forall b: nat :: b in s.count <==> b < |heads|
    requires forall b: nat :: b < |heads| ==> Shot(heads[b]) == FlagsOf(s, b)
    requires dev != 0 && forall x :: x in heads ==> x.dev != dev || x.blk != blk
    ensures !Cached(s.bufs, dev, blk)
  {
    forall b | b in s.bufs ensures !Labelled(s.bufs[b], dev, blk) {
      assert heads[b] in heads && Shot(heads[b]) == FlagsOf(s, b);
    }
  }

  lemma {:induction false} RunGrows(s: Cache, steps: seq<Step>, step: Step)
    requires IsRun(s, steps) && Enabled(After(s, steps), step)
    ensures IsRun(s, steps + [step]) && After(s, steps + [step]) == Next(After(s, steps), step)
    ensures forall order :: AfterOrder(s, order, steps + [step]) ==
              NextOrder(After(s, steps), AfterOrder(s, order, steps), step)
    decreases |steps|
  {
    if steps == [] {
      assert steps + [step] == [step] && [step][1..] == [];
    } else {
      assert (steps + [step])[1..] == steps[1..] + [step];
      RunGrows(Next(s, steps[0]), steps[1..], step);
    }
  }

  lemma FirstIsEnabled(s: Cache, steps: seq<Step>)
    requires IsRun(s, steps) && steps != []
    ensures Enabled(s, steps[0])
  {
  }

  lemma ServedAsks(s: Cache, t: nat, dev: nat, blk: nat)
    requires Serves(s, t, dev, blk)
    ensures t in s.calls && s.calls[t].dev == dev && s.calls[t].blk == blk
  {
  }

  class Driver {
    const index: Index
    /** What the index does not hold: data, transfers and where the calls stand. */
    var cache: Cache
    /** The free list, by the numbers of its buffers. */
    ghost var order: seq<nat>

    ghost predicate Keyed()
      reads this
    {
      && Distinct(index.heads)
      && (forall b: nat :: b in cache.bufs <==> b < |index.heads|)
      && (forall b: nat :: b in cache.count <==> b < |index.heads|)
    }

    ghost predicate Tied()
      reads this, index, index.heads
    {
      && Keyed()
      && (forall b: nat :: b < |index.heads| ==> Shot(index.heads[b]) == FlagsOf(cache, b))
    }

    ghost predicate Ordered()
      reads this`order, index`ring
    {
      && |order| == |index.ring|
      && forall i {:trigger order[i]} :: 0 <= i < |order| ==>
           order[i] < |index.heads| && index.heads[order[i]] == index.ring[i]
    }

    ghost predicate Valid()
      reads this, index, index.heads, index.hash
    {
      index.Valid() && BufferCache.Inv(cache) && Tied() && Ordered()
    }

    /** buffer_init. */
    constructor (n: nat, disk: map<(nat, nat), Data>)
      requires n > 0
      ensures Valid() && cache == Start(Numbers(n), disk) && order == seq(n, i => i)
      ensures fresh(index) && fresh(index.heads) && fresh(index.hash)
    {
      index := new Index(n);
      cache := Start(Numbers(n), disk);
      order := seq(n, i => i);
      new;
      hide Index.Valid, Blank, Start, Numbers, BufferCache.Inv, Tied;
      Ready(n, disk);
    }

    lemma Ready(n: nat, disk: map<(nat, nat), Data>)
      requires index.Valid() && |index.heads| == n && Distinct(index.heads) && forall x :: x in index.heads ==> Blank(x)
      requires cache == Start(Numbers(n), disk) && order == seq(n, i => i) && index.ring == index.heads
      ensures Valid()
    {
      hide BufferCache.Inv, Index.ChainsOk, Index.FreeListOk, Index.Unique, Start;
      hide Blank, Distinct, FlagsOf, Numbers, Shot;
      StartKeeps(Numbers(n), disk);
      StartsTied(index.heads, Numbers(n), disk);
    }

    /** The head of buffer b gets a new count and new flags; the links do not depend on them. */
    method SetHead(b: nat, count: nat, dirt: bool, lock: bool)
      requires index.Valid() && Distinct(index.heads) && b < |index.heads|
      modifies index.heads`count, index.heads`dirt, index.heads`lock
      ensures index.Valid()
      ensures Shot(index.heads[b]) == old(Shot(index.heads[b])).(count := count, dirt := dirt, lock := lock)
      ensures forall c: nat :: c < |index.heads| && c != b ==> Shot(index.heads[c]) == old(Shot(index.heads[c]))
    {
      hide Index.ChainsOk, Index.FreeListOk, Index.Unique;
      var x := index.heads[b];
      x.count := count;
      x.dirt := dirt;
      x.lock := lock;
    }

    /** The head of the step's buffer has been changed: the step is done. */
    method Done(ghost s: Cache, step: Step)
      requires cache == s && BufferCache.Inv(s) && Enabled(s, step) && index.Valid() && Keyed() && Ordered()
      requires forall b: nat :: b < |index.heads| ==>
                 Shot(index.heads[b]) == if Target(s, step) == Some(b) then Changed(s, step, FlagsOf(s, b))
                   else FlagsOf(s, b)
      modifies this`cache
      ensures Valid() && cache == Next(s, step)
    {
      hide Index.ChainsOk, Index.FreeListOk, Index.Unique, BufferCache.Inv, Enabled, Next, Target, Changed, FlagsOf;
      StepKeeps(s, step);
      NextTied(s, step);
      cache := Next(cache, step);
    }

    /** A step that changes no buffer's label. */
    method PerformFlags(step: Step)
      requires Valid() && Enabled(cache, step)
      requires !step.Find? && !step.Choose? && !step.NoVictim? && !step.Repeat? && !step.Claim?
      modifies this`cache, index.heads`count, index.heads`dirt, index.heads`lock
      ensures Valid() && cache == Next(old(cache), step)
    {
      hide Index.ChainsOk, Index.FreeListOk, Index.Unique, BufferCache.Inv, Next, Ordered, FlagsOf;
      var heads := index.heads;
      match step {
        case Release(t) => {
          var b := cache.calls[t].b;
          SetHead(b, if heads[b].count > 0 then heads[b].count - 1 else 0, heads[b].dirt, heads[b].lock);
        }
        case Lock(b, _, _) => SetHead(b, heads[b].count, heads[b].dirt, true);
        case Unneeded(b) => SetHead(b, heads[b].count, heads[b].dirt, false);
        case Queue(b) => SetHead(b, heads[b].count, false, heads[b].lock);
        case Finish(b) => SetHead(b, heads[b].count, heads[b].dirt, false);
        case Modify(t, _) => { var b := cache.calls[t].b; SetHead(b, heads[b].count, true, heads[b].lock); }
        case Fill(t, _) => { var b := cache.calls[t].b; SetHead(b, heads[b].count, true, heads[b].lock); }
        case Forget(t) => { var b := cache.calls[t].b; SetHead(b, heads[b].count, false, heads[b].lock); }
        case _ =>
      }
      Done(cache, step);
    }

    /** find_buffer, and if it fails the scan of the free list. */
    method Look(t: nat) returns (taken: Step)
      requires Valid() && t in cache.calls && cache.calls[t].Looking?
      modifies this`cache, index.heads`count, index.heads`dirt, index.heads`lock
      ensures Valid() && old(Enabled(cache, taken)) && cache == Next(old(cache), taken)
      ensures (taken.Find? || taken.Choose? || taken.NoVictim?) && taken.t == t && Scanned(old(cache), order, taken)
    {
      hide Index.ChainsOk, Index.FreeListOk, Index.Unique, BufferCache.Inv, Next, PositionOf, Scanned;
      var dev, blk := cache.calls[t].dev, cache.calls[t].blk;
      CallHasDevice(cache, t);
      var h := index.FindBuffer(dev, blk);
      if h != null {
        var b := PositionOf(index.heads, h);
        taken := Find(t, b);
        FindIsScanned(cache, order, t, b);
        assert Shot(index.heads[b]) == FlagsOf(cache, b);
        SetHead(b, h.count + 1, h.dirt, h.lock);
      } else {
        NotCached(cache, index.heads, dev, blk);
        taken := Scan(t);
      }
      Done(cache, taken);
    }

    /** The scan of the free list in getblk. */
    method Scan(t: nat) returns (taken: Step)
      requires Valid() && t in cache.calls && cache.calls[t].Looking?
      requires !Cached(cache.bufs, cache.calls[t].dev, cache.calls[t].blk)
      ensures Enabled(cache, taken) && (taken.Choose? || taken.NoVictim?) && taken.t == t
      ensures Scanned(cache, order, taken)
    {
      hide Index.ChainsOk, Index.Unique, BufferCache.Inv, BestAt, PositionOf, IsVictim, Unused;
      var bh, at := index.PickVictim();
      if bh == null {
        taken := NoVictim(t);
        NoneUnused();
      } else {
        index.InHeads(at);
        BestIsFree(index.ring, at, |index.ring|);
        var b := PositionOf(index.heads, bh);
        assert Shot(index.heads[b]) == FlagsOf(cache, b);
        taken := Choose(t, b);
        VictimIsBest(at);
        assert order[at] == b;
      }
    }

    lemma NoneUnused()
      requires Keyed() && Tied() && Ordered() && forall x :: x in index.heads ==> x.count != 0
      ensures forall b :: b in order ==> !Unused(cache, b)
    {
      forall b | b in order ensures !Unused(cache, b) {
        assert index.heads[b] in index.heads && Shot(index.heads[b]) == FlagsOf(cache, b);
      }
    }

    lemma VictimIsBest(at: nat)
      requires Tied() && Ordered() && at < |index.ring| && BestAt(index.ring, at, |index.ring|)
      ensures IsVictim(cache, order, at)
    {
      forall i | 0 <= i < |order| ensures order[i] in cache.bufs && order[i] in cache.count &&
        Shot(index.ring[i]) == FlagsOf(cache, order[i]) { }
      hide Shot;
      forall i | 0 <= i < |order|
        ensures order[i] in cache.bufs && order[i] in cache.count
        ensures Unused(cache, order[i]) <==> index.ring[i].count == 0
        ensures Bad(cache, order[i]) == Badness(index.ring[i].dirt, index.ring[i].lock) {
        HeadShows(i);
      }
    }

    lemma HeadShows(i: nat)
      requires Tied() && Ordered() && i < |index.ring|
      ensures order[i] in cache.bufs && order[i] in cache.count
      ensures Unused(cache, order[i]) <==> index.ring[i].count == 0
      ensures Bad(cache, order[i]) == Badness(index.ring[i].dirt, index.ring[i].lock)
    {
      assert Shot(index.heads[order[i]]) == FlagsOf(cache, order[i]);
    }

    /** getblk after wait_on_buffer: the buffer may be in use again, or the block cached; else it is relabelled. */
    method Woken(t: nat) returns (taken: Step)
      requires Valid() && (Enabled(cache, Repeat(t)) || Enabled(cache, Claim(t)))
      modifies this, index, index.heads, index.hash
      ensures Valid() && old(Enabled(cache, taken)) && cache == Next(old(cache), taken)
      ensures (taken == Repeat(t) || taken == Claim(t)) && order == NextOrder(old(cache), old(order), taken)
    {
      hide Index.ChainsOk, Index.FreeListOk, Index.Unique, BufferCache.Inv, Next, PositionOf;
      var b, dev, blk := cache.calls[t].b, cache.calls[t].dev, cache.calls[t].blk;
      CallHasDevice(cache, t);
      var bh := index.heads[b];
      assert Shot(bh) == FlagsOf(cache, b);
      taken := Repeat(t);
      if bh.count == 0 {
        var h := index.FindBuffer(dev, blk);
        if h == null {
          NotCached(cache, index.heads, dev, blk);
          taken := Claim(t);
          TakeOver(t, b, dev, blk);
        }
      }
      Done(cache, taken);
    }

    /** The end of getblk. */
    method TakeOver(t: nat, b: nat, dev: nat, blk: nat)
      requires Valid() && Enabled(cache, Claim(t)) && cache.calls[t].b == b && dev != 0
      requires cache.calls[t].dev == dev && cache.calls[t].blk == blk
      requires forall x :: x in index.heads ==> x.dev != dev || x.blk != blk
      modifies this`order, index, index.heads, index.hash
      ensures index.Valid() && Keyed() && Ordered() && order == NextOrder(cache, old(order), Claim(t))
      ensures forall c: nat :: c < |index.heads| ==>
                Shot(index.heads[c]) == if c == b then Flags(dev, blk, 1, false, false) else FlagsOf(cache, c)
    {
      hide Index.ChainsOk, Index.FreeListOk, Index.Unique, BufferCache.Inv;
      hide Next, NextOrder, PositionOf, Enabled, FlagsOf;
      ghost var at := Claims(t, b);
      var bh := index.heads[b];
      ghost var next := NextOrder(cache, order, Claim(t));
      SetHead(b, 1, false, bh.lock);
      index.Relabel(bh, dev, blk, at);
      order := next;
    }

    /** The buffer that is relabelled is not locked, and it moves on the free list as the order says. */
    lemma Claims(t: nat, b: nat) returns (at: nat)
      requires Valid() && Enabled(cache, Claim(t)) && cache.calls[t].b == b
      ensures b < |index.heads| && !index.heads[b].lock && at < |index.ring| && index.ring[at] == index.heads[b]
      ensures var next := NextOrder(cache, order, Claim(t)); var ring := Without(index.ring, at) + [index.heads[b]];
              && |next| == |ring|
              && forall i {:trigger next[i]} :: 0 <= i < |next| ==>
                   next[i] < |index.heads| && index.heads[next[i]] == ring[i]
    {
      hide Index.ChainsOk, Index.FreeListOk, Index.Unique, BufferCache.Inv, Next, PositionOf;
      assert Shot(index.heads[b]) == FlagsOf(cache, b);
      PlacedOnce(b);
      at := PositionOf<nat>(order, b);
      OrderMoves(index.heads, index.ring, order, at);
    }

    /** A buffer has one place on the free list. */
    lemma PlacedOnce(b: nat)
      requires index.Valid() && Keyed() && Ordered() && b < |index.heads|
      ensures b in order
    {
      hide Index.ChainsOk, Index.Unique;
      ghost var at := index.Where(index.heads[b]);
      assert index.heads[order[at]] == index.heads[b];
      assert order[at] == b;
    }

    /** Any step of the cache, carried out on the index. */
    method Perform(step: Step) returns (taken: Step)
      requires Valid() && Enabled(cache, step)
      modifies this, index, index.heads, index.hash
      ensures Valid() && old(Enabled(cache, taken)) && cache == Next(old(cache), taken)
      ensures Takes(old(cache), old(order), step, taken) && order == NextOrder(old(cache), old(order), taken)
    {
      hide Index.ChainsOk, Index.FreeListOk, Index.Unique, BufferCache.Inv, Next, Enabled, Scanned, NextOrder;
      ghost var s := cache;
      StepIs(s, order, step);
      if step.Find? || step.Choose? || step.NoVictim? {
        taken := Look(step.t);
      } else if step.Repeat? || step.Claim? {
        taken := Woken(step.t);
      } else {
        PerformFlags(step);
        taken := step;
      }
      StepIs(s, order, taken);
    }

    /** The caller has the buffer head of its block, and in it the block's contents once they have come. */
    ghost predicate ServesHead(t: nat, dev: nat, blk: nat)
      reads this, index, index.heads
    {
      && Serves(cache, t, dev, blk)
      && (cache.calls[t].Owner? ==>
            && cache.calls[t].b < |index.heads|
            && index.heads[cache.calls[t].b].dev == dev && index.heads[cache.calls[t].b].blk == blk)
    }

    lemma Served(s: Cache, taken: seq<Step>, i: nat)
      requires BufferCache.Inv(s) && IsRun(s, taken) && cache == After(s, taken) && Tied()
      requires i < |taken| && taken[i].Enter? && NoRelease(taken[i..], taken[i].t)
      ensures ServesHead(taken[i].t, taken[i].dev, taken[i].blk)
    {
      hide BufferCache.Inv, IsRun, After, Serves, NoRelease;
      RunSplits(s, taken, i);
      RunKeeps(s, taken[..i]);
      ghost var s1 := After(s, taken[..i]);
      FirstIsEnabled(s1, taken[i..]);
      CallIsServed(s1, taken[i..], taken[i].t, taken[i].dev, taken[i].blk);
      CallHasDevice(cache, taken[i].t) by { ServedAsks(cache, taken[i].t, taken[i].dev, taken[i].blk); }
      HeadOfCall(taken[i].t, taken[i].dev, taken[i].blk);
    }

    lemma HeadOfCall(t: nat, dev: nat, blk: nat)
      requires Tied() && Serves(cache, t, dev, blk) && cache.calls[t].dev != 0
      ensures ServesHead(t, dev, blk)
    {
      if cache.calls[t].Owner? {
        var b := cache.calls[t].b;
        assert Shot(index.heads[b]) == FlagsOf(cache, b);
      }
    }

    /**
      All interleavings: a run of steps, those that are not enabled left out, is carried out on the index.  The
      chains and the free list stay right, hold the labels of the buffers, and what is taken is a run of the cache.
      Whoever has called getblk(dev, blk) in it and not released the buffer is served with that block.
     */
    method Run(steps: seq<Step>) returns (taken: seq<Step>)
      requires Valid()
      modifies this, index, index.heads, index.hash
      ensures Valid() && Follows(old(cache), old(order), steps, taken)
      ensures IsRun(old(cache), taken) && cache == After(old(cache), taken)
      ensures order == AfterOrder(old(cache), old(order), taken)
      ensures forall i :: 0 <= i < |taken| && taken[i].Enter? && NoRelease(taken[i..], taken[i].t) ==>
                ServesHead(taken[i].t, taken[i].dev, taken[i].blk)
    {
      hide Index.ChainsOk, Index.FreeListOk, Index.Unique, BufferCache.Inv, Enabled, Next, Takes, Follows, NextOrder;
      taken := [];
      var n := 0;
      FollowsNothing(cache, order);
      while n < |steps|
        invariant n <= |steps| && Valid() && Follows(old(cache), old(order), steps[..n], taken)
        invariant IsRun(old(cache), taken) && cache == After(old(cache), taken)
        invariant order == AfterOrder(old(cache), old(order), taken)
      {
        assert steps[..n + 1] == steps[..n] + [steps[n]];
        if Enabled(cache, steps[n]) {
          var step := Perform(steps[n]);
          FollowsGrows(old(cache), old(order), steps[..n], taken, steps[n], [step]);
          RunGrows(old(cache), taken, step);
          taken := taken + [step];
        } else {
          FollowsGrows(old(cache), old(order), steps[..n], taken, steps[n], []);
          assert taken + [] == taken;
        }
        n := n + 1;
      }
      assert steps[..n] == steps;
      ghost var s := old(cache);
      forall i | 0 <= i < |taken| && taken[i].Enter? && NoRelease(taken[i..], taken[i].t)
        ensures ServesHead(taken[i].t, taken[i].dev, taken[i].blk) {
        Served(s, taken, i);
      }
    }
  }
}
