/**
  The buffer cache of fs/buffer.c with its sleeping points: any number of tasks are
  inside getblk, bread, brelse and sync at once, and the device works on its own.
  Between two points where a task may sleep its code runs undisturbed and is one step.
 */
module BufferCache {
  import opened Common

  type Data = seq<int>

  /** What is being done to a locked buffer. */
  datatype Io =
    | Idle                                // b_lock is 0
    | Locked(write: bool, ahead: bool)    // make_request, which gives up for READA and WRITEA if no slot is free
    | Queued(write: bool, moved: bool)    // in the device's queue; the data has moved or not

  datatype Buf = Buf(dev: nat, blk: nat, uptodate: bool, dirt: bool, io: Io, data: Data)

  /** Where a call of getblk(dev, blk) stands, and the buffer it has got. */
  datatype Call =
    | Looking(dev: nat, blk: nat)                  // about to call find_buffer
    | Waits(b: nat, dev: nat, blk: nat)            // found it, b_count is up, in wait_on_buffer
    | Victim(b: nat, dev: nat, blk: nat)           // chose a free buffer, in wait_on_buffer
    | Sleeping(dev: nat, blk: nat)                 // no free buffer, on buffer_wait
    | Owner(b: nat, dev: nat, blk: nat)            // returned: the caller holds the buffer

  datatype Cache = Cache(
    bufs: map<nat, Buf>,
    count: map<nat, nat>,                 // b_count
    disk: map<(nat, nat), Data>,
    calls: map<nat, Call>)

  function OnDisk(disk: map<(nat, nat), Data>, dev: nat, blk: nat): Data {
    if (dev, blk) in disk then disk[(dev, blk)] else []
  }

  predicate Labelled(x: Buf, dev: nat, blk: nat) { x.dev == dev && x.blk == blk }

  predicate Cached(bufs: map<nat, Buf>, dev: nat, blk: nat) {
    exists b :: b in bufs && Labelled(bufs[b], dev, blk)
  }

  predicate Holds(c: Call, b: nat) { (c.Waits? || c.Owner?) && c.b == b }

  function Holders(calls: map<nat, Call>, b: nat): set<nat> {
    set t | t in calls && Holds(calls[t], b)
  }

  // ----- Steps

  datatype Step =
    | Enter(t: nat, dev: nat, blk: nat)   // getblk is called
    | Find(t: nat, b: nat)                // find_buffer succeeds: b_count++
    | Choose(t: nat, b: nat)              // find_buffer fails: the scan of the free list picks b
    | NoVictim(t: nat)                    // every buffer is in use
    | Wake(t: nat)                        // woken from buffer_wait: goto repeat
    | WaitOver(t: nat)                    // wait_on_buffer in get_hash_table returns
    | Repeat(t: nat)                      // wait_on_buffer in getblk returns, but b was taken or the block cached
    | Claim(t: nat)                       // ... and b is clean and free: it is relabelled
    | Release(t: nat)                     // brelse, or breada dropping a buffer it read ahead
    | Lock(b: nat, write: bool, ahead: bool)  // lock_buffer in make_request, by bread or by a sync
    | Unneeded(b: nat)                    // make_request unlocks: nothing to transfer, or no slot
    | Queue(b: nat)                       // add_request
    | Move(b: nat)                        // the device transfers the block
    | Finish(b: nat)                      // end_request
    | Modify(t: nat, data: Data)          // the holder changes the data and sets b_dirt
    | Fill(t: nat, data: Data)            // new_block: fresh contents, up to date and dirty
    | Forget(t: nat)                      // free_block: neither up to date nor dirty

  predicate Calls(s: Cache, t: nat, b: nat) {
    t in s.calls && (s.calls[t].Waits? || s.calls[t].Victim? || s.calls[t].Owner?) && s.calls[t].b == b
      && b in s.bufs && b in s.count
  }

  predicate Owns(s: Cache, t: nat) { t in s.calls && s.calls[t].Owner? && Calls(s, t, s.calls[t].b) }

  predicate Enabled(s: Cache, step: Step) {
    match step
    case Enter(t, dev, blk) => t !in s.calls && dev != 0
    case Find(t, b) =>
      t in s.calls && s.calls[t].Looking? && b in s.bufs && b in s.count
        && Labelled(s.bufs[b], s.calls[t].dev, s.calls[t].blk)
    case Choose(t, b) =>
      && t in s.calls && s.calls[t].Looking? && !Cached(s.bufs, s.calls[t].dev, s.calls[t].blk)
      && b in s.bufs && b in s.count && s.count[b] == 0
    case NoVictim(t) => t in s.calls && s.calls[t].Looking? && !Cached(s.bufs, s.calls[t].dev, s.calls[t].blk)
    case Wake(t) => t in s.calls && s.calls[t].Sleeping?
    case WaitOver(t) => t in s.calls && s.calls[t].Waits? && Calls(s, t, s.calls[t].b) && s.bufs[s.calls[t].b].io.Idle?
    case Repeat(t) =>
      && t in s.calls && s.calls[t].Victim? && Calls(s, t, s.calls[t].b) && s.bufs[s.calls[t].b].io.Idle?
      && (s.count[s.calls[t].b] != 0 || (!s.bufs[s.calls[t].b].dirt && Cached(s.bufs, s.calls[t].dev, s.calls[t].blk)))
    case Claim(t) =>
      && t in s.calls && s.calls[t].Victim? && Calls(s, t, s.calls[t].b) && s.bufs[s.calls[t].b].io.Idle?
      && s.count[s.calls[t].b] == 0 && !s.bufs[s.calls[t].b].dirt && !Cached(s.bufs, s.calls[t].dev, s.calls[t].blk)
    case Release(t) => Owns(s, t)
    case Lock(b, write, _) => b in s.bufs && s.bufs[b].io.Idle? && s.bufs[b].dev != 0
    case Unneeded(b) =>
      && b in s.bufs && s.bufs[b].io.Locked?
      && (s.bufs[b].io.ahead || if s.bufs[b].io.write then !s.bufs[b].dirt else s.bufs[b].uptodate)
    case Queue(b) =>
      b in s.bufs && s.bufs[b].io.Locked? && (if s.bufs[b].io.write then s.bufs[b].dirt else !s.bufs[b].uptodate)
    case Move(b) => b in s.bufs && s.bufs[b].io.Queued? && !s.bufs[b].io.moved
    case Finish(b) => b in s.bufs && s.bufs[b].io.Queued? && s.bufs[b].io.moved
    case Modify(t, _) => Owns(s, t) && s.bufs[s.calls[t].b].uptodate
    case Fill(t, _) => Owns(s, t) && s.bufs[s.calls[t].b].io.Idle? && s.count[s.calls[t].b] == 1
    case Forget(t) => Owns(s, t) && s.bufs[s.calls[t].b].io.Idle? && s.count[s.calls[t].b] == 1
  }

  function SetBuf(s: Cache, b: nat, x: Buf): Cache { s.(bufs := s.bufs[b := x]) }

  function SetCall(s: Cache, t: nat, c: Call): Cache { s.(calls := s.calls[t := c]) }

  function Next(s: Cache, step: Step): Cache
    requires Enabled(s, step)
  {
    match step
    case Enter(t, dev, blk) => SetCall(s, t, Looking(dev, blk))
    case Find(t, b) => SetCall(s, t, Waits(b, s.calls[t].dev, s.calls[t].blk)).(count := s.count[b := s.count[b] + 1])
    case Choose(t, b) => SetCall(s, t, Victim(b, s.calls[t].dev, s.calls[t].blk))
    case NoVictim(t) => SetCall(s, t, Sleeping(s.calls[t].dev, s.calls[t].blk))
    case Wake(t) => SetCall(s, t, Looking(s.calls[t].dev, s.calls[t].blk))
    case WaitOver(t) =>
      var c := s.calls[t];
      if Labelled(s.bufs[c.b], c.dev, c.blk) then SetCall(s, t, Owner(c.b, c.dev, c.blk))
      else
        SetCall(s, t, Looking(c.dev, c.blk))
          .(count := s.count[c.b := if s.count[c.b] > 0 then s.count[c.b] - 1 else 0])
    case Repeat(t) => SetCall(s, t, Looking(s.calls[t].dev, s.calls[t].blk))
    case Claim(t) =>
      var c := s.calls[t];
      SetBuf(SetCall(s, t, Owner(c.b, c.dev, c.blk)), c.b, Buf(c.dev, c.blk, false, false, Idle, s.bufs[c.b].data))
        .(count := s.count[c.b := 1])
    case Release(t) =>
      var b := s.calls[t].b;
      s.(calls := s.calls - {t}, count := s.count[b := if s.count[b] > 0 then s.count[b] - 1 else 0])
    case Lock(b, write, ahead) => SetBuf(s, b, s.bufs[b].(io := Locked(write, ahead)))
    case Unneeded(b) => SetBuf(s, b, s.bufs[b].(io := Idle))
    case Queue(b) => SetBuf(s, b, s.bufs[b].(io := Queued(s.bufs[b].io.write, false), dirt := false))
    case Move(b) =>
      var x := s.bufs[b];
      if x.io.write then SetBuf(s, b, x.(io := Queued(true, true))).(disk := s.disk[(x.dev, x.blk) := x.data])
      else SetBuf(s, b, x.(io := Queued(false, true), data := OnDisk(s.disk, x.dev, x.blk)))
    case Finish(b) => SetBuf(s, b, s.bufs[b].(io := Idle, uptodate := true))
    case Modify(t, data) => SetBuf(s, s.calls[t].b, s.bufs[s.calls[t].b].(data := data, dirt := true))
    case Fill(t, data) => SetBuf(s, s.calls[t].b, s.bufs[s.calls[t].b].(data := data, dirt := true, uptodate := true))
    case Forget(t) => SetBuf(s, s.calls[t].b, s.bufs[s.calls[t].b].(dirt := false, uptodate := false))
  }

  // ----- The invariant

  /** At most one buffer carries a block. */
  ghost predicate Unique(bufs: map<nat, Buf>) {
    forall b, c :: b in bufs && c in bufs && b != c && bufs[b].dev != 0 ==> !Labelled(bufs[c], bufs[b].dev, bufs[b].blk)
  }

  /** What the flags of a buffer promise about its data. */
  predicate FlagsOk(x: Buf, disk: map<(nat, nat), Data>) {
    && (x.dirt ==> x.uptodate)
    && (x.dev == 0 ==> x.io.Idle? && !x.uptodate)
    && (x.io.Queued? && !x.io.write ==> !x.uptodate && (x.io.moved ==> x.data == OnDisk(disk, x.dev, x.blk)))
    && (x.io.Queued? && x.io.write ==> x.uptodate)
    && (x.uptodate && !x.dirt && x.io != Queued(true, false) ==> x.data == OnDisk(disk, x.dev, x.blk))
  }

  ghost predicate AllFlagsOk(bufs: map<nat, Buf>, disk: map<(nat, nat), Data>) {
    forall b :: b in bufs ==> FlagsOk(bufs[b], disk)
  }

  ghost predicate Counted(bufs: map<nat, Buf>, count: map<nat, nat>, calls: map<nat, Call>) {
    bufs.Keys == count.Keys && forall b :: b in count ==> count[b] == |Holders(calls, b)|
  }

  /** A call that has counted a buffer up has the buffer it wants. */
  predicate CallOk(c: Call, bufs: map<nat, Buf>) {
    && c.dev != 0
    && (c.Waits? || c.Victim? || c.Owner? ==> c.b in bufs)
    && (c.Waits? || c.Owner? ==> Labelled(bufs[c.b], c.dev, c.blk))
  }

  ghost predicate AllCallsOk(calls: map<nat, Call>, bufs: map<nat, Buf>) {
    forall t :: t in calls ==> CallOk(calls[t], bufs)
  }

  ghost predicate Inv(s: Cache) {
    Unique(s.bufs) && AllFlagsOk(s.bufs, s.disk) && Counted(s.bufs, s.count, s.calls) && AllCallsOk(s.calls, s.bufs)
  }

  // ----- Counting holders

  lemma HoldersSet(calls: map<nat, Call>, t: nat, c: Call, b: nat)
    ensures Holders(calls[t := c], b) == Holders(calls, b) - {t} + (if Holds(c, b) then {t} else {})
  {
  }

  lemma HoldersDrop(calls: map<nat, Call>, t: nat, b: nat)
    ensures Holders(calls - {t}, b) == Holders(calls, b) - {t}
  {
  }

  /** A call moves between states that hold nothing. */
  lemma QuietCall(s: Cache, t: nat, c: Call)
    requires Inv(s) && CallOk(c, s.bufs) && !c.Waits? && !c.Owner?
    requires t in s.calls ==> !s.calls[t].Waits? && !s.calls[t].Owner?
    ensures Inv(SetCall(s, t, c))
  {
    forall b | b in s.count ensures s.count[b] == |Holders(s.calls[t := c], b)| {
      HoldersSet(s.calls, t, c, b);
      assert t !in Holders(s.calls, b);
    }
  }

  lemma LabelStays(s: Cache, b: nat, x: Buf)
    requires Inv(s) && b in s.bufs && Labelled(x, s.bufs[b].dev, s.bufs[b].blk)
    ensures Unique(s.bufs[b := x]) && Counted(s.bufs[b := x], s.count, s.calls) && AllCallsOk(s.calls, s.bufs[b := x])
  {
    hide AllFlagsOk;
    assert s.bufs[b := x].Keys == s.bufs.Keys;
  }

  /** A buffer that keeps its label can change whatever its flags allow. */
  lemma SameLabel(s: Cache, b: nat, x: Buf)
    requires Inv(s) && b in s.bufs && Labelled(x, s.bufs[b].dev, s.bufs[b].blk) && FlagsOk(x, s.disk)
    ensures Inv(SetBuf(s, b, x))
  {
    hide Unique, Counted, AllCallsOk;
    LabelStays(s, b, x);
  }

  lemma CallsStayOk(s: Cache, t: nat, c: Call)
    requires AllCallsOk(s.calls, s.bufs)
    requires CallOk(c, s.bufs) || (t in s.calls && c.Waits? && c.b in s.bufs
                                   && c.dev == s.calls[t].dev && c.blk == s.calls[t].blk
                                   && Labelled(s.bufs[c.b], c.dev, c.blk))
    ensures AllCallsOk(s.calls[t := c], s.bufs)
  {
    assert t in s.calls ==> CallOk(s.calls[t], s.bufs);
  }

  lemma FindKeeps(s: Cache, t: nat, b: nat)
    requires Inv(s) && Enabled(s, Find(t, b))
    ensures Inv(Next(s, Find(t, b)))
  {
    hide Unique, AllFlagsOk, AllCallsOk, Cached;
    var s' := Next(s, Find(t, b));
    CallsStayOk(s, t, s'.calls[t]);
    forall x | x in s'.count ensures s'.count[x] == |Holders(s'.calls, x)| {
      HoldersSet(s.calls, t, s'.calls[t], x);
      assert t !in Holders(s.calls, x);
    }
  }

  /** The retry of get_hash_table is never taken: a counted buffer keeps its label. */
  lemma WaitOverFinds(s: Cache, t: nat)
    requires Inv(s) && Enabled(s, WaitOver(t))
    ensures Labelled(s.bufs[s.calls[t].b], s.calls[t].dev, s.calls[t].blk)
    ensures Next(s, WaitOver(t)).calls[t].Owner? && Inv(Next(s, WaitOver(t)))
  {
    assert CallOk(s.calls[t], s.bufs);
    var s' := Next(s, WaitOver(t));
    forall x | x in s'.count ensures s'.count[x] == |Holders(s'.calls, x)| {
      HoldersSet(s.calls, t, s'.calls[t], x);
      assert Holds(s.calls[t], x) <==> t in Holders(s.calls, x);
      assert Holders(s'.calls, x) == Holders(s.calls, x);
    }
  }

  lemma ReleaseKeeps(s: Cache, t: nat)
    requires Inv(s) && Enabled(s, Release(t))
    ensures Inv(Next(s, Release(t))) && s.count[s.calls[t].b] > 0
  {
    var s' := Next(s, Release(t));
    var b := s.calls[t].b;
    assert t in Holders(s.calls, b);
    forall x | x in s'.count ensures s'.count[x] == |Holders(s'.calls, x)| {
      HoldersDrop(s.calls, t, x);
      assert t in Holders(s.calls, x) <==> x == b;
    }
  }

  lemma ClaimLabels(s: Cache, t: nat)
    requires Inv(s) && Enabled(s, Claim(t))
    ensures Unique(Next(s, Claim(t)).bufs) && AllFlagsOk(Next(s, Claim(t)).bufs, s.disk)
    ensures AllCallsOk(Next(s, Claim(t)).calls, Next(s, Claim(t)).bufs)
  {
    var s' := Next(s, Claim(t));
    var b := s.calls[t].b;
    assert Holders(s.calls, b) == {};
    forall u | u in s'.calls ensures CallOk(s'.calls[u], s'.bufs) {
      if u != t {
        assert CallOk(s.calls[u], s.bufs);
        assert u !in Holders(s.calls, b);
      }
    }
  }

  lemma ClaimCounts(s: Cache, t: nat)
    requires Inv(s) && Enabled(s, Claim(t))
    ensures var s' := Next(s, Claim(t)); Counted(s'.bufs, s'.count, s'.calls)
  {
    var s' := Next(s, Claim(t));
    var b := s.calls[t].b;
    forall x | x in s'.count ensures s'.count[x] == |Holders(s'.calls, x)| {
      HoldersSet(s.calls, t, s'.calls[t], x);
      assert t !in Holders(s.calls, x);
      if x == b { assert Holders(s.calls, b) == {}; }
    }
  }

  lemma WriteMoved(bufs: map<nat, Buf>, disk: map<(nat, nat), Data>, b: nat)
    requires Unique(bufs) && AllFlagsOk(bufs, disk) && b in bufs && bufs[b].io == Queued(true, false)
    ensures var x := bufs[b];
            AllFlagsOk(bufs[b := x.(io := Queued(true, true))], disk[(x.dev, x.blk) := x.data])
  {
    var x := bufs[b];
    assert FlagsOk(x, disk);
    var disk', bufs' := disk[(x.dev, x.blk) := x.data], bufs[b := x.(io := Queued(true, true))];
    forall c | c in bufs' ensures FlagsOk(bufs'[c], disk') {
      if c != b {
        assert FlagsOk(bufs[c], disk) && !Labelled(bufs[c], x.dev, x.blk);
      }
    }
  }

  lemma MoveOutKeeps(s: Cache, b: nat)
    requires Inv(s) && Enabled(s, Move(b)) && s.bufs[b].io.write
    ensures Inv(Next(s, Move(b)))
  {
    hide AllFlagsOk, FlagsOk, Unique, Counted, AllCallsOk;
    WriteMoved(s.bufs, s.disk, b);
    LabelStays(s, b, s.bufs[b].(io := Queued(true, true)));
  }

  lemma MoveInKeeps(s: Cache, b: nat)
    requires Inv(s) && Enabled(s, Move(b)) && !s.bufs[b].io.write
    ensures Inv(Next(s, Move(b)))
  {
    hide AllCallsOk, Counted, Unique;
    var x := s.bufs[b];
    assert FlagsOk(x, s.disk);
    SameLabel(s, b, x.(io := Queued(false, true), data := OnDisk(s.disk, x.dev, x.blk)));
  }

  lemma DeviceKeeps(s: Cache, step: Step)
    requires Inv(s) && Enabled(s, step)
    requires step.Lock? || step.Unneeded? || step.Queue? || step.Move? || step.Finish?
    ensures Inv(Next(s, step))
  {
    hide Unique, Counted, AllCallsOk;
    match step
    case Lock(b, write, ahead) => SameLabel(s, b, s.bufs[b].(io := Locked(write, ahead)));
    case Unneeded(b) => SameLabel(s, b, s.bufs[b].(io := Idle));
    case Queue(b) => SameLabel(s, b, s.bufs[b].(io := Queued(s.bufs[b].io.write, false), dirt := false));
    case Move(b) => if s.bufs[b].io.write { MoveOutKeeps(s, b); } else { MoveInKeeps(s, b); }
    case Finish(b) => SameLabel(s, b, s.bufs[b].(io := Idle, uptodate := true));
  }

  lemma ClientKeeps(s: Cache, step: Step)
    requires Inv(s) && Enabled(s, step) && (step.Modify? || step.Fill? || step.Forget?)
    ensures Inv(Next(s, step))
  {
    assert CallOk(s.calls[step.t], s.bufs);
    var b := s.calls[step.t].b;
    assert FlagsOk(s.bufs[b], s.disk);
    hide Inv, Unique, Counted, AllCallsOk, AllFlagsOk;
    SameLabel(s, b, Next(s, step).bufs[b]);
  }

  /** Every step of every task and of the device keeps the cache consistent. */
  lemma StepKeeps(s: Cache, step: Step)
    requires Inv(s) && Enabled(s, step)
    ensures Inv(Next(s, step))
  {
    hide Unique, Counted, AllFlagsOk, Cached;
    match step
    case Enter(t, dev, blk) => QuietCall(s, t, Looking(dev, blk));
    case Find(t, b) => FindKeeps(s, t, b);
    case Choose(t, b) => QuietCall(s, t, Victim(b, s.calls[t].dev, s.calls[t].blk));
    case NoVictim(t) => QuietCall(s, t, Sleeping(s.calls[t].dev, s.calls[t].blk));
    case Wake(t) => QuietCall(s, t, Looking(s.calls[t].dev, s.calls[t].blk));
    case WaitOver(t) => WaitOverFinds(s, t);
    case Repeat(t) => QuietCall(s, t, Looking(s.calls[t].dev, s.calls[t].blk));
    case Claim(t) => ClaimLabels(s, t); ClaimCounts(s, t);
    case Release(t) => ReleaseKeeps(s, t);
    case Modify(_, _) => ClientKeeps(s, step);
    case Fill(_, _) => ClientKeeps(s, step);
    case Forget(_) => ClientKeeps(s, step);
    case _ => DeviceKeeps(s, step);
  }

  // ----- Runs

  /** After buffer_init: the buffers carry no block, and nobody is inside. */
  function Start(buffers: set<nat>, disk: map<(nat, nat), Data>): Cache {
    Cache(map b | b in buffers :: Buf(0, 0, false, false, Idle, []), map b | b in buffers :: 0, disk, map[])
  }

  lemma StartKeeps(buffers: set<nat>, disk: map<(nat, nat), Data>)
    ensures Inv(Start(buffers, disk))
  {
    var s := Start(buffers, disk);
    forall b | b in s.count ensures s.count[b] == |Holders(s.calls, b)| { assert Holders(s.calls, b) == {}; }
  }

  ghost predicate IsRun(s: Cache, steps: seq<Step>)
    decreases |steps|
  {
    steps == [] || (Enabled(s, steps[0]) && IsRun(Next(s, steps[0]), steps[1..]))
  }

  ghost function After(s: Cache, steps: seq<Step>): Cache
    requires IsRun(s, steps)
    decreases |steps|
  {
    if steps == [] then s else After(Next(s, steps[0]), steps[1..])
  }

  lemma {:induction false} RunKeeps(s: Cache, steps: seq<Step>)
    requires Inv(s) && IsRun(s, steps)
    ensures Inv(After(s, steps))
    decreases |steps|
  {
    hide Inv, Enabled;
    if steps != [] {
      StepKeeps(s, steps[0]);
      RunKeeps(Next(s, steps[0]), steps[1..]);
    }
  }

  /** A buffer that somebody holds is never given to another block. */
  lemma HeldKeepsLabel(s: Cache, step: Step, b: nat)
    requires Inv(s) && Enabled(s, step) && b in s.bufs && s.count[b] > 0
    ensures b in Next(s, step).bufs && Labelled(Next(s, step).bufs[b], s.bufs[b].dev, s.bufs[b].blk)
  {
    hide Inv, Cached;
  }

  // ----- The logical contents of a block

  /** The buffer that carries a block and has valid data. */
  predicate Shows(bufs: map<nat, Buf>, b: nat, dev: nat, blk: nat) {
    b in bufs && Labelled(bufs[b], dev, blk) && bufs[b].uptodate
  }

  /** What a reader is to get: the cached data if it is up to date, else the disk's. */
  ghost function Logical(s: Cache, dev: nat, blk: nat): Data {
    if exists b :: Shows(s.bufs, b, dev, blk) then
      var b :| Shows(s.bufs, b, dev, blk);
      s.bufs[b].data
    else OnDisk(s.disk, dev, blk)
  }

  lemma LogicalIs(s: Cache, b: nat, dev: nat, blk: nat)
    requires Unique(s.bufs) && Shows(s.bufs, b, dev, blk) && dev != 0
    ensures Logical(s, dev, blk) == s.bufs[b].data
  {
    assert forall c :: Shows(s.bufs, c, dev, blk) ==> c == b;
  }

  lemma LogicalIsDisk(s: Cache, dev: nat, blk: nat)
    requires forall b :: !Shows(s.bufs, b, dev, blk)
    ensures Logical(s, dev, blk) == OnDisk(s.disk, dev, blk)
  {
  }

  /** bread: the holder of an up-to-date buffer reads the logical contents of the block it asked for. */
  lemma ReaderSeesLogical(s: Cache, t: nat)
    requires Inv(s) && Owns(s, t) && s.bufs[s.calls[t].b].uptodate
    ensures s.bufs[s.calls[t].b].data == Logical(s, s.calls[t].dev, s.calls[t].blk)
  {
    assert CallOk(s.calls[t], s.bufs);
    LogicalIs(s, s.calls[t].b, s.calls[t].dev, s.calls[t].blk);
  }

  /** The block whose contents a step is meant to change. */
  ghost predicate Changes(s: Cache, step: Step, dev: nat, blk: nat)
    requires Enabled(s, step)
  {
    (step.Modify? || step.Fill? || step.Forget?) && s.calls[step.t].dev == dev && s.calls[step.t].blk == blk
  }

  /** Rewriting one buffer, with its label kept, changes no other block. */
  lemma OtherBlocks(s: Cache, s': Cache, b: nat, dev: nat, blk: nat)
    requires Unique(s.bufs) && Unique(s'.bufs) && dev != 0
    requires forall c :: c != b ==> (c in s'.bufs <==> c in s.bufs) && (c in s.bufs ==> s'.bufs[c] == s.bufs[c])
    requires OnDisk(s'.disk, dev, blk) == OnDisk(s.disk, dev, blk)
    requires b in s.bufs ==> !Shows(s.bufs, b, dev, blk)
    requires b in s'.bufs ==> !Shows(s'.bufs, b, dev, blk)
    ensures Logical(s', dev, blk) == Logical(s, dev, blk)
  {
    if c :| Shows(s.bufs, c, dev, blk) {
      assert Shows(s'.bufs, c, dev, blk);
      LogicalIs(s, c, dev, blk);
      LogicalIs(s', c, dev, blk);
    } else {
      forall c ensures !Shows(s'.bufs, c, dev, blk) { assert c != b ==> !Shows(s.bufs, c, dev, blk); }
      LogicalIsDisk(s, dev, blk);
      LogicalIsDisk(s', dev, blk);
    }
  }

  /** Steps that leave every buffer's label, data and validity alone. */
  lemma SameBuffers(s: Cache, s': Cache, dev: nat, blk: nat)
    requires Unique(s.bufs) && Unique(s'.bufs) && s'.disk == s.disk && dev != 0
    requires forall c :: Shows(s'.bufs, c, dev, blk) <==> Shows(s.bufs, c, dev, blk)
    requires forall c :: Shows(s.bufs, c, dev, blk) && c in s'.bufs ==> s'.bufs[c].data == s.bufs[c].data
    ensures Logical(s', dev, blk) == Logical(s, dev, blk)
  {
    if c :| Shows(s.bufs, c, dev, blk) {
      assert Shows(s'.bufs, c, dev, blk);
      LogicalIs(s, c, dev, blk);
      LogicalIs(s', c, dev, blk);
    } else {
      LogicalIsDisk(s, dev, blk);
      LogicalIsDisk(s', dev, blk);
    }
  }

  /** Relabelling loses nothing: the buffer given up was clean, so its block's data is on disk. */
  lemma ClaimLogical(s: Cache, t: nat, dev: nat, blk: nat)
    requires Inv(s) && Enabled(s, Claim(t)) && dev != 0
    ensures Logical(Next(s, Claim(t)), dev, blk) == Logical(s, dev, blk)
  {
    var s' := Next(s, Claim(t));
    var b := s.calls[t].b;
    ClaimLabels(s, t);
    if Shows(s.bufs, b, dev, blk) {
      assert FlagsOk(s.bufs[b], s.disk);
      LogicalIs(s, b, dev, blk);
      forall c ensures !Shows(s'.bufs, c, dev, blk) {
        assert c in s.bufs && c != b ==> !Labelled(s.bufs[c], s.bufs[b].dev, s.bufs[b].blk);
      }
      LogicalIsDisk(s', dev, blk);
    } else {
      OtherBlocks(s, s', b, dev, blk);
    }
  }

  lemma MoveLogical(s: Cache, b: nat, dev: nat, blk: nat)
    requires Inv(s) && Enabled(s, Move(b)) && dev != 0
    ensures Logical(Next(s, Move(b)), dev, blk) == Logical(s, dev, blk)
  {
    hide AllCallsOk, Counted, Logical;
    var s' := Next(s, Move(b));
    StepKeeps(s, Move(b));
    assert FlagsOk(s.bufs[b], s.disk);
    hide AllFlagsOk;
    if Shows(s.bufs, b, dev, blk) {
      LogicalIs(s, b, dev, blk);
      LogicalIs(s', b, dev, blk);
    } else {
      OtherBlocks(s, s', b, dev, blk);
    }
  }

  lemma FinishLogical(s: Cache, b: nat, dev: nat, blk: nat)
    requires Inv(s) && Enabled(s, Finish(b)) && dev != 0
    ensures Logical(Next(s, Finish(b)), dev, blk) == Logical(s, dev, blk)
  {
    var s' := Next(s, Finish(b));
    StepKeeps(s, Finish(b));
    assert FlagsOk(s.bufs[b], s.disk);
    if Labelled(s.bufs[b], dev, blk) {
      LogicalIs(s', b, dev, blk);
      if s.bufs[b].uptodate {
        LogicalIs(s, b, dev, blk);
      } else {
        forall c ensures !Shows(s.bufs, c, dev, blk) {
          assert c in s.bufs && c != b ==> !Labelled(s.bufs[c], s.bufs[b].dev, s.bufs[b].blk);
        }
        LogicalIsDisk(s, dev, blk);
      }
    } else {
      OtherBlocks(s, s', b, dev, blk);
    }
  }

  lemma ClientLogical(s: Cache, step: Step, dev: nat, blk: nat)
    requires Inv(s) && Enabled(s, step) && (step.Modify? || step.Fill? || step.Forget?) && dev != 0
    requires !Changes(s, step, dev, blk)
    ensures Logical(Next(s, step), dev, blk) == Logical(s, dev, blk)
  {
    assert CallOk(s.calls[step.t], s.bufs);
    StepKeeps(s, step);
    OtherBlocks(s, Next(s, step), s.calls[step.t].b, dev, blk);
  }

  /** Caching is invisible: only a client's own change alters what a block logically contains. */
  lemma Transparent(s: Cache, step: Step, dev: nat, blk: nat)
    requires Inv(s) && Enabled(s, step) && dev != 0 && !Changes(s, step, dev, blk)
    ensures Logical(Next(s, step), dev, blk) == Logical(s, dev, blk)
  {
    hide AllFlagsOk, AllCallsOk, Counted, Logical;
    if step.Claim? {
      ClaimLogical(s, step.t, dev, blk);
    } else if step.Move? {
      MoveLogical(s, step.b, dev, blk);
    } else if step.Finish? {
      FinishLogical(s, step.b, dev, blk);
    } else if step.Modify? || step.Fill? || step.Forget? {
      ClientLogical(s, step, dev, blk);
    } else {
      StepKeeps(s, step);
      SameBuffers(s, Next(s, step), dev, blk);
    }
  }

  /** A client's change is what every later reader gets. */
  lemma ChangeTakesEffect(s: Cache, step: Step)
    requires Inv(s) && Enabled(s, step) && (step.Modify? || step.Fill?)
    ensures Logical(Next(s, step), s.calls[step.t].dev, s.calls[step.t].blk) == step.data
  {
    assert CallOk(s.calls[step.t], s.bufs);
    StepKeeps(s, step);
    LogicalIs(Next(s, step), s.calls[step.t].b, s.calls[step.t].dev, s.calls[step.t].blk);
  }

  ghost predicate NeverChanges(s: Cache, steps: seq<Step>, dev: nat, blk: nat)
    requires IsRun(s, steps)
    decreases |steps|
  {
    steps == [] || (!Changes(s, steps[0], dev, blk) && NeverChanges(Next(s, steps[0]), steps[1..], dev, blk))
  }

  /** Over whole runs: a block that no client changes keeps its logical contents. */
  lemma {:induction false} RunTransparent(s: Cache, steps: seq<Step>, dev: nat, blk: nat)
    requires Inv(s) && IsRun(s, steps) && dev != 0 && NeverChanges(s, steps, dev, blk)
    ensures Logical(After(s, steps), dev, blk) == Logical(s, dev, blk)
    decreases |steps|
  {
    hide Inv, Enabled, Logical;
    if steps != [] {
      Transparent(s, steps[0], dev, blk);
      StepKeeps(s, steps[0]);
      RunTransparent(Next(s, steps[0]), steps[1..], dev, blk);
    }
  }

  // ----- bread

  /** Task t holds buffer b, which is up to date or about to be: bread's request for it is under way. */
  ghost predicate Arriving(s: Cache, t: nat, b: nat) {
    && t in s.calls && s.calls[t].Owner? && s.calls[t].b == b && b in s.bufs
    && (s.bufs[b].uptodate || s.bufs[b].io == Locked(false, false) || (s.bufs[b].io.Queued? && !s.bufs[b].io.write))
  }

  /** The task keeps the buffer, and does not declare its contents void. */
  predicate KeepsIt(step: Step, t: nat) { step != Release(t) && step != Forget(t) }

  /** A buffer that t holds is neither forgotten by another task nor relabelled. */
  lemma NobodyElse(s: Cache, step: Step, t: nat, b: nat)
    requires Inv(s) && Enabled(s, step) && t in s.calls && s.calls[t].Owner? && s.calls[t].b == b && b in s.bufs
    ensures step.Forget? && s.calls[step.t].b == b ==> step.t == t
    ensures step.Claim? ==> s.calls[step.t].b != b && step.t != t
  {
    hide Unique, AllFlagsOk, AllCallsOk;
    assert s.count[b] == |Holders(s.calls, b)| && t in Holders(s.calls, b);
    if step.Forget? && s.calls[step.t].b == b {
      assert step.t in Holders(s.calls, b);
      OnlyHolder(Holders(s.calls, b), t, step.t);
    }
  }

  /** Nobody else can stop the data from arriving, or make what has arrived void. */
  lemma StillArriving(s: Cache, step: Step, t: nat, b: nat)
    requires Inv(s) && Enabled(s, step) && Arriving(s, t, b) && KeepsIt(step, t)
    ensures Arriving(Next(s, step), t, b)
  {
    hide Inv, Cached, Next, Enabled;
    NobodyElse(s, step, t, b);
    hide Arriving;
    match step
    case Lock(_, _, _) => ArrivingOnDevice(s, step, t, b);
    case Unneeded(_) => ArrivingOnDevice(s, step, t, b);
    case Queue(_) => ArrivingOnDevice(s, step, t, b);
    case Move(_) => ArrivingOnDevice(s, step, t, b);
    case Finish(_) => ArrivingOnDevice(s, step, t, b);
    case Modify(_, _) => ArrivingInClient(s, step, t, b);
    case Fill(_, _) => ArrivingInClient(s, step, t, b);
    case Forget(_) => ArrivingInClient(s, step, t, b);
    case _ => ArrivingInCall(s, step, t, b);
  }

  lemma ArrivingOnDevice(s: Cache, step: Step, t: nat, b: nat)
    requires Enabled(s, step) && Arriving(s, t, b)
    requires step.Lock? || step.Unneeded? || step.Queue? || step.Move? || step.Finish?
    ensures Arriving(Next(s, step), t, b)
  {
  }

  lemma ArrivingInClient(s: Cache, step: Step, t: nat, b: nat)
    requires Enabled(s, step) && Arriving(s, t, b) && (step.Modify? || step.Fill? || step.Forget?)
    requires step.Forget? ==> s.calls[step.t].b != b
    ensures Arriving(Next(s, step), t, b)
  {
  }

  lemma ArrivingInCall(s: Cache, step: Step, t: nat, b: nat)
    requires Enabled(s, step) && Arriving(s, t, b) && KeepsIt(step, t)
    requires step.Enter? || step.Find? || step.Choose? || step.NoVictim? || step.Wake? || step.WaitOver? ||
             step.Repeat? || step.Claim? || step.Release?
    requires step.Claim? ==> s.calls[step.t].b != b
    ensures Arriving(Next(s, step), t, b)
  {
    hide Cached;
  }

  lemma OnlyHolder(a: set<nat>, t: nat, u: nat)
    requires t in a && u in a && |a| == 1
    ensures t == u
  {
    assert t != u ==> {t, u} <= a && |a - {t, u}| == |a| - 2;
  }

  ghost predicate AllKeep(steps: seq<Step>, t: nat) {
    forall i :: 0 <= i < |steps| ==> KeepsIt(steps[i], t)
  }

  /**
    bread: from the moment its read request has locked the buffer, or has found it up to date, whatever
    the other tasks and the device do, once the buffer is unlocked the holder reads the logical contents.
   */
  lemma {:induction false} BreadReturns(s: Cache, steps: seq<Step>, t: nat, b: nat)
    requires Inv(s) && IsRun(s, steps) && Arriving(s, t, b) && AllKeep(steps, t)
    ensures var s' := After(s, steps);
            && Arriving(s', t, b)
            && (s'.bufs[b].io.Idle? ==>
                  s'.bufs[b].uptodate && s'.bufs[b].data == Logical(s', s'.calls[t].dev, s'.calls[t].blk))
    decreases |steps|
  {
    hide Enabled, Logical;
    if steps == [] {
      if s.bufs[b].io.Idle? { HeldShowsLogical(s, t); }
    } else {
      assert KeepsIt(steps[0], t);
      assert AllKeep(steps[1..], t) by { KeepRest(steps, t); }
      StepKeeps(s, steps[0]);
      StillArriving(s, steps[0], t, b);
      BreadReturns(Next(s, steps[0]), steps[1..], t, b);
    }
  }

  lemma KeepRest(steps: seq<Step>, t: nat)
    requires AllKeep(steps, t) && steps != []
    ensures AllKeep(steps[1..], t)
  {
  }

  // ----- From the arguments of getblk to what the caller gets

  /** The call of task t is for block blk of device dev. */
  predicate Asks(s: Cache, t: nat, dev: nat, blk: nat) {
    t in s.calls && s.calls[t].dev == dev && s.calls[t].blk == blk
  }

  /** However it sleeps and retries, the call is for the block it was made for until the buffer is released. */
  lemma StillAsks(s: Cache, step: Step, t: nat, dev: nat, blk: nat)
    requires Enabled(s, step) && Asks(s, t, dev, blk) && step != Release(t)
    ensures Asks(Next(s, step), t, dev, blk)
  {
    hide Cached;
  }

  predicate NoRelease(steps: seq<Step>, t: nat) { Release(t) !in steps }

  /**
    Task t is served as a caller of bread(dev, blk) is to be: the buffer it has is the one of that block, and as
    soon as it is up to date it holds the logical contents of that block.
   */
  ghost predicate Serves(s: Cache, t: nat, dev: nat, blk: nat) {
    && Asks(s, t, dev, blk)
    && (s.calls[t].Owner? ==>
          && s.calls[t].b in s.bufs && s.bufs[s.calls[t].b].dev == dev && s.bufs[s.calls[t].b].blk == blk
          && (s.bufs[s.calls[t].b].uptodate ==> s.bufs[s.calls[t].b].data == Logical(s, dev, blk)))
  }

  lemma AskingServes(s: Cache, t: nat, dev: nat, blk: nat)
    requires Inv(s) && Asks(s, t, dev, blk)
    ensures Serves(s, t, dev, blk)
  {
    hide Unique, AllFlagsOk, Logical;
    assert CallOk(s.calls[t], s.bufs);
    if s.calls[t].Owner? && s.bufs[s.calls[t].b].uptodate { HeldShowsLogical(s, t); }
  }

  lemma {:induction false} RunAsks(s: Cache, steps: seq<Step>, t: nat, dev: nat, blk: nat)
    requires Inv(s) && IsRun(s, steps) && Asks(s, t, dev, blk) && NoRelease(steps, t)
    ensures Asks(After(s, steps), t, dev, blk)
    decreases |steps|
  {
    hide Inv, Enabled, Next, Asks;
    if steps != [] {
      assert steps[0] in steps;
      StillAsks(s, steps[0], t, dev, blk);
      StepKeeps(s, steps[0]);
      assert forall x :: x in steps[1..] ==> x in steps;
      RunAsks(Next(s, steps[0]), steps[1..], t, dev, blk);
    }
  }

  lemma EnterAsks(s: Cache, t: nat, dev: nat, blk: nat)
    requires Enabled(s, Enter(t, dev, blk))
    ensures Asks(Next(s, Enter(t, dev, blk)), t, dev, blk)
  {
  }

  /** In every state after getblk(dev, blk) has been called, up to the release, the caller is served. */
  lemma CallIsServed(s: Cache, steps: seq<Step>, t: nat, dev: nat, blk: nat)
    requires Inv(s) && IsRun(s, steps) && steps != [] && steps[0] == Enter(t, dev, blk) && NoRelease(steps, t)
    ensures Inv(After(s, steps)) && Serves(After(s, steps), t, dev, blk)
  {
    hide Inv, Enabled, Next, Asks, Serves;
    EnterAsks(s, t, dev, blk);
    StepKeeps(s, steps[0]);
    assert forall x :: x in steps[1..] ==> x in steps;
    RunAsks(Next(s, steps[0]), steps[1..], t, dev, blk);
    RunKeeps(s, steps);
    AskingServes(After(s, steps), t, dev, blk);
  }

  lemma {:induction false} RunSplits(s: Cache, steps: seq<Step>, n: nat)
    requires IsRun(s, steps) && n <= |steps|
    ensures IsRun(s, steps[..n]) && IsRun(After(s, steps[..n]), steps[n..])
    ensures After(After(s, steps[..n]), steps[n..]) == After(s, steps)
    decreases n
  {
    hide Enabled, Next;
    if n == 0 {
      assert steps[..0] == [] && steps[0..] == steps;
    } else {
      assert steps[..n][1..] == steps[1..][..n - 1] && steps[1..][n - 1..] == steps[n..];
      RunSplits(Next(s, steps[0]), steps[1..], n - 1);
    }
  }

  /**
    bread(dev, blk) from its call to its end: once its request is under way after n steps, the buffer that the
    caller has is that of the block, and when it is unlocked it holds what the block logically contains.
   */
  lemma BreadAnswers(s: Cache, steps: seq<Step>, n: nat, t: nat, b: nat, dev: nat, blk: nat)
    requires Inv(s) && IsRun(s, steps) && 0 < n <= |steps| && steps[0] == Enter(t, dev, blk) && NoRelease(steps, t)
    requires IsRun(s, steps[..n]) && Arriving(After(s, steps[..n]), t, b) && AllKeep(steps[n..], t)
    ensures var s' := After(s, steps);
            && b in s'.bufs && s'.bufs[b].dev == dev && s'.bufs[b].blk == blk
            && (s'.bufs[b].io.Idle? ==> s'.bufs[b].uptodate && s'.bufs[b].data == Logical(s', dev, blk))
  {
    hide Inv, IsRun, After, NoRelease, AllKeep, Logical;
    CallIsServed(s, steps, t, dev, blk);
    RunSplits(s, steps, n);
    assert steps[..n][0] == steps[0];
    RunKeeps(s, steps[..n]);
    BreadReturns(After(s, steps[..n]), steps[n..], t, b);
  }

  /** A buffer that is up to date, clean and at rest holds what its block of the disk holds. */
  lemma CleanIsOnDisk(s: Cache, b: nat)
    requires Inv(s) && b in s.bufs && s.bufs[b].uptodate && !s.bufs[b].dirt && s.bufs[b].io.Idle?
    ensures s.bufs[b].data == if (s.bufs[b].dev, s.bufs[b].blk) in s.disk then s.disk[(s.bufs[b].dev, s.bufs[b].blk)]
                              else []
  {
    assert FlagsOk(s.bufs[b], s.disk);
  }

  /** As long as no client has changed a block, bread(dev, blk) gives what the disk held at start-up. */
  lemma ReadsTheDisk(buffers: set<nat>, disk: map<(nat, nat), Data>, steps: seq<Step>, t: nat, dev: nat, blk: nat)
    requires IsRun(Start(buffers, disk), steps) && dev != 0
    requires NeverChanges(Start(buffers, disk), steps, dev, blk)
    requires var s' := After(Start(buffers, disk), steps);
             Asks(s', t, dev, blk) && Owns(s', t) && s'.bufs[s'.calls[t].b].uptodate
    ensures var s' := After(Start(buffers, disk), steps);
            s'.bufs[s'.calls[t].b].data == if (dev, blk) in disk then disk[(dev, blk)] else []
  {
    var s := Start(buffers, disk);
    StartKeeps(buffers, disk);
    RunKeeps(s, steps);
    RunTransparent(s, steps, dev, blk);
    LogicalIsDisk(s, dev, blk);
    hide Inv, IsRun, After, NeverChanges, Logical;
    ReaderSeesLogical(After(s, steps), t);
  }

  /** Woken with a clean, unlocked buffer, getblk takes it exactly if it is free and nobody has cached the block. */
  lemma ClaimsIff(s: Cache, t: nat)
    requires t in s.calls && s.calls[t].Victim? && Calls(s, t, s.calls[t].b)
    requires s.bufs[s.calls[t].b].io.Idle? && !s.bufs[s.calls[t].b].dirt
    ensures Enabled(s, Claim(t)) <==>
            && s.count[s.calls[t].b] == 0
            && forall x :: x in s.bufs ==> s.bufs[x].dev != s.calls[t].dev || s.bufs[x].blk != s.calls[t].blk
    ensures Enabled(s, Repeat(t)) <==> !Enabled(s, Claim(t))
  {
    forall x | x in s.bufs && s.bufs[x].dev == s.calls[t].dev && s.bufs[x].blk == s.calls[t].blk
      ensures Cached(s.bufs, s.calls[t].dev, s.calls[t].blk) {
      assert Labelled(s.bufs[x], s.calls[t].dev, s.calls[t].blk);
    }
  }

  // ----- Writing back, and declaring void

  /** A write of the block from buffer b, which may not be given up, has not reached the disk. */
  predicate Writing(s: Cache, b: nat, dev: nat, blk: nat) {
    && b in s.bufs && Labelled(s.bufs[b], dev, blk)
    && (s.bufs[b].io == Locked(true, false) || s.bufs[b].io == Queued(true, false))
  }

  ghost predicate Saved(s: Cache, dev: nat, blk: nat) { OnDisk(s.disk, dev, blk) == Logical(s, dev, blk) }

  lemma CleanIsSaved(s: Cache, b: nat)
    requires Inv(s) && b in s.bufs && s.bufs[b].dev != 0 && !s.bufs[b].dirt && s.bufs[b].io.Locked?
    ensures Saved(s, s.bufs[b].dev, s.bufs[b].blk)
  {
    var dev, blk := s.bufs[b].dev, s.bufs[b].blk;
    assert FlagsOk(s.bufs[b], s.disk);
    if s.bufs[b].uptodate {
      LogicalIs(s, b, dev, blk);
    } else {
      forall c ensures !Shows(s.bufs, c, dev, blk) {
        assert c in s.bufs && c != b ==> !Labelled(s.bufs[c], dev, blk);
      }
      LogicalIsDisk(s, dev, blk);
    }
  }

  lemma MoveSaves(s: Cache, b: nat)
    requires Inv(s) && Enabled(s, Move(b)) && s.bufs[b].io.write
    ensures Saved(Next(s, Move(b)), s.bufs[b].dev, s.bufs[b].blk)
  {
    assert FlagsOk(s.bufs[b], s.disk);
    StepKeeps(s, Move(b));
    LogicalIs(Next(s, Move(b)), b, s.bufs[b].dev, s.bufs[b].blk);
  }

  lemma StaysSaved(s: Cache, step: Step, dev: nat, blk: nat)
    requires Inv(s) && Enabled(s, step) && dev != 0 && !Changes(s, step, dev, blk) && Saved(s, dev, blk)
    ensures Saved(Next(s, step), dev, blk)
  {
    hide Logical, Inv, Cached;
    Transparent(s, step, dev, blk);
    if step.Move? && s.bufs[step.b].io.write && Labelled(s.bufs[step.b], dev, blk) {
      MoveSaves(s, step.b);
    }
  }

  lemma WriteGoesOn(s: Cache, step: Step, b: nat, dev: nat, blk: nat)
    requires Inv(s) && Enabled(s, step) && dev != 0 && !Changes(s, step, dev, blk) && Writing(s, b, dev, blk)
    ensures Writing(Next(s, step), b, dev, blk) || Saved(Next(s, step), dev, blk)
  {
    hide Logical, Inv, Cached, Saved;
    if step == Move(b) {
      MoveSaves(s, b);
    } else if step == Unneeded(b) {
      CleanIsSaved(s, b);
      StaysSaved(s, step, dev, blk);
    }
  }

  /**
    sync and the write of a block: from the moment the buffer is locked for it, whatever the tasks and the device
    do, short of a client changing the block, the write is still to be done or the disk holds what clients see.
   */
  lemma {:induction false} SyncWritesBack(s: Cache, steps: seq<Step>, b: nat, dev: nat, blk: nat)
    requires Inv(s) && IsRun(s, steps) && dev != 0 && NeverChanges(s, steps, dev, blk)
    requires Writing(s, b, dev, blk) || Saved(s, dev, blk)
    ensures var s' := After(s, steps);
            || (b in s'.bufs && s'.bufs[b].dev == dev && s'.bufs[b].blk == blk
                  && (s'.bufs[b].io == Locked(true, false) || s'.bufs[b].io == Queued(true, false)))
            || Logical(s, dev, blk) == if (dev, blk) in s'.disk then s'.disk[(dev, blk)] else []
    decreases |steps|
  {
    hide Inv, Enabled, Next, Logical, Changes;
    if steps != [] {
      if Saved(s, dev, blk) { StaysSaved(s, steps[0], dev, blk); } else { WriteGoesOn(s, steps[0], b, dev, blk); }
      Transparent(s, steps[0], dev, blk);
      StepKeeps(s, steps[0]);
      SyncWritesBack(Next(s, steps[0]), steps[1..], b, dev, blk);
    }
  }

  /** The step is no client's change of the data in buffer b. */
  predicate LeavesClean(s: Cache, step: Step, b: nat)
    requires Enabled(s, step)
  {
    step.Modify? || step.Fill? ==> s.calls[step.t].b != b
  }

  ghost predicate NeverDirtied(s: Cache, steps: seq<Step>, b: nat)
    requires IsRun(s, steps)
    decreases |steps|
  {
    steps == [] || (LeavesClean(s, steps[0], b) && NeverDirtied(Next(s, steps[0]), steps[1..], b))
  }

  /** A buffer whose write has been queued is clean until a client changes it, so that getblk's loop over sync ends. */
  lemma {:induction false} SyncCleans(s: Cache, steps: seq<Step>, b: nat)
    requires Inv(s) && IsRun(s, steps) && b in s.bufs && NeverDirtied(s, steps, b)
    requires !s.bufs[b].dirt || (steps != [] && steps[0] == Queue(b))
    ensures b in After(s, steps).bufs && !After(s, steps).bufs[b].dirt
    decreases |steps|
  {
    hide Inv, Enabled, Next, LeavesClean;
    if steps != [] {
      StaysClean(s, steps[0], b);
      StepKeeps(s, steps[0]);
      SyncCleans(Next(s, steps[0]), steps[1..], b);
    }
  }

  lemma StaysClean(s: Cache, step: Step, b: nat)
    requires Inv(s) && Enabled(s, step) && b in s.bufs && LeavesClean(s, step, b)
    requires !s.bufs[b].dirt || step == Queue(b)
    ensures b in Next(s, step).bufs && !Next(s, step).bufs[b].dirt
  {
    hide Inv, Cached;
  }

  /** free_block's buffer: its contents are void, and the block is what the disk has. */
  lemma ForgetVoids(s: Cache, t: nat)
    requires Inv(s) && Enabled(s, Forget(t))
    ensures var s', c := Next(s, Forget(t)), s.calls[t];
            && s'.disk == s.disk && !s'.bufs[c.b].dirt
            && Logical(s', c.dev, c.blk) == if (c.dev, c.blk) in s.disk then s.disk[(c.dev, c.blk)] else []
  {
    var s', c := Next(s, Forget(t)), s.calls[t];
    assert CallOk(c, s.bufs);
    forall a ensures !Shows(s'.bufs, a, c.dev, c.blk) {
      assert a in s.bufs && a != c.b ==> !Labelled(s.bufs[a], c.dev, c.blk);
    }
    LogicalIsDisk(s', c.dev, c.blk);
  }

  lemma HeldShowsLogical(s: Cache, t: nat)
    requires Inv(s) && t in s.calls && s.calls[t].Owner? && s.calls[t].b in s.bufs && s.bufs[s.calls[t].b].uptodate
    ensures s.bufs[s.calls[t].b].data == Logical(s, s.calls[t].dev, s.calls[t].blk)
  {
    assert s.calls[t].b in s.count;
    ReaderSeesLogical(s, t);
  }
}
