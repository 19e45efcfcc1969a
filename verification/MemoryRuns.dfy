/**
  Whole runs of the memory manager against its specification: every live task owns
  a private memory, and paging is not visible.
 */
module MemoryRuns {
  import opened Common
  import opened AddressSpace
  import opened Program
  import opened Machine
  import opened Growth
  import opened MemoryFacts
  import opened SwapWalk
  import opened Shortage
  import opened Memory

  /** The private memories of all live tasks, page by page. */
  type Memories = imap<VPage, Page>

  ghost function Abs(s: Space): Memories {
    imap v: VPage | View(s, v).Some? :: View(s, v).value
  }

  datatype Op =
    | Boot(c: nat)                    // fork by task 0
    | Fork(p: nat, c: nat)
    | Store(v: VPage, o: nat, b: int)
    | Touch(v: VPage)                 // a read that faults
    | Reclaim
    | Exit(t: nat)
    | Exec(t: nat, program: Prog)

  /** The specification: what an operation that succeeds does to the memories. */
  ghost function Effect(a: Memories, op: Op, files: map<nat, Image>, kernel: seq<Page>): Memories {
    match op
    case Boot(c) =>
      imap v: VPage | v.t == c || v in a :: if v.t == c then KernelPage(kernel, v.k, v.j) else a[v]
    case Fork(p, c) =>
      imap v: VPage | (if v.t == c then VPage(p, v.k, v.j) in a else v in a) ::
        if v.t == c then a[VPage(p, v.k, v.j)] else a[v]
    case Store(v, o, b) => if v in a && o < |a[v]| then a[v := a[v][o := b]] else a
    case Touch(_) => a
    case Reclaim => a
    case Exit(t) => imap v: VPage | v in a && v.t != t :: a[v]
    case Exec(t, p) =>
      imap v: VPage | v.t == t || v in a :: if v.t == t then ProgPage(files, p, v.k, v.j) else a[v]
  }

  /** After an exec the task reads the bytes of the new program's file, behind its header. */
  lemma ExecReadsFile(a: Memories, t: nat, p: Prog, k: nat, j: nat, files: map<nat, Image>, kernel: seq<Page>)
    requires FilesKnown(files, p)
    ensures var b := Effect(a, Exec(t, p), files, kernel); var v := VPage(t, k, j);
            && v in b
            && (k < 15 && p.exe.Some? ==> HoldsPage(b[v], files[p.exe.value], k * 1024 + j, true))
            && (k >= 15 && p.lib.Some? ==> HoldsPage(b[v], files[p.lib.value], (k - 15) * 1024 + j, false))
            && ((if k >= 15 then p.lib.None? else p.exe.None?) ==> b[v] == seq(4096, o => 0))
  {
    hide ProgPage, HoldsPage;
    ProgramHolds(files, p, k, j);
  }

  /** A run of operations, each of which may fail for lack of memory. */
  ghost function Effects(a: Memories, ops: seq<Op>, oks: seq<bool>, files: map<nat, Image>, kernel: seq<Page>): Memories
    requires |oks| == |ops|
  {
    if ops == [] then a
    else
      var n := |ops| - 1;
      var b := Effects(a, ops[..n], oks[..n], files, kernel);
      if oks[n] then Effect(b, ops[n], files, kernel) else b
  }

  lemma SameAbs(s: Space, s': Space)
    requires SameViews(s, s', {})
    ensures Abs(s') == Abs(s)
  {
    hide View;
  }

  lemma ForkAbs(s: Space, s': Space, p: nat, c: nat, files: map<nat, Image>, kernel: seq<Page>)
    requires forall k: nat, j: nat :: View(s', VPage(c, k, j)) == View(s, VPage(p, k, j))
    requires forall v: VPage :: v.t != c ==> View(s', v) == View(s, v)
    ensures Abs(s') == Effect(Abs(s), Fork(p, c), files, kernel)
  {
    hide View;
    forall v: VPage ensures v in Abs(s') <==> v in Effect(Abs(s), Fork(p, c), files, kernel) {
      if v.t == c { assert v == VPage(c, v.k, v.j); }
    }
    forall v: VPage | v in Abs(s') ensures Abs(s')[v] == Effect(Abs(s), Fork(p, c), files, kernel)[v] {
      if v.t == c { assert v == VPage(c, v.k, v.j); }
    }
  }

  lemma BootAbs(s: Space, s': Space, c: nat, files: map<nat, Image>, kernel: seq<Page>)
    requires forall k: nat, j: nat :: View(s', VPage(c, k, j)) == Some(KernelPage(kernel, k, j))
    requires forall v: VPage :: v.t != c ==> View(s', v) == View(s, v)
    ensures Abs(s') == Effect(Abs(s), Boot(c), files, kernel)
  {
    hide View, KernelPage;
    forall v: VPage ensures v in Abs(s') <==> v in Effect(Abs(s), Boot(c), files, kernel) {
      if v.t == c { assert v == VPage(c, v.k, v.j); }
    }
    forall v: VPage | v in Abs(s') ensures Abs(s')[v] == Effect(Abs(s), Boot(c), files, kernel)[v] {
      if v.t == c { assert v == VPage(c, v.k, v.j); }
    }
  }

  lemma StoreAbs(s: Space, s': Space, v: VPage, o: nat, b: int, files: map<nat, Image>, kernel: seq<Page>)
    requires View(s, v).Some? && o < |View(s, v).value|
    requires SameViews(s, s', {v}) && View(s', v) == Some(View(s, v).value[o := b])
    ensures Abs(s') == Effect(Abs(s), Store(v, o, b), files, kernel)
  {
    hide View;
  }

  lemma ExitAbs(s: Space, s': Space, t: nat, files: map<nat, Image>, kernel: seq<Page>)
    requires forall v: VPage :: v.t != t ==> View(s', v) == View(s, v)
    requires forall v: VPage :: v.t == t ==> View(s', v) == None
    ensures Abs(s') == Effect(Abs(s), Exit(t), files, kernel)
  {
    hide View;
  }

  lemma ExecAbs(s: Space, s': Space, t: nat, p: Prog, files: map<nat, Image>, kernel: seq<Page>)
    requires forall v: VPage :: v.t != t ==> View(s', v) == View(s, v)
    requires forall v: VPage :: v.t == t ==> View(s', v) == Some(ProgPage(files, p, v.k, v.j))
    ensures Abs(s') == Effect(Abs(s), Exec(t, p), files, kernel)
  {
    hide View, ProgPage;
  }

  lemma AllTablesBelow(s: Space, t: nat)
    requires Inv(s)
    ensures TablesBelow(s, t, DIRS_PER_TASK)
  {
  }

  predicate InTask(prog: map<nat, Prog>, v: VPage) {
    v.t in prog && UserDir(v.Dir()) && v.j < ENTRIES
  }

  /** The operation makes sense for the tasks there are. */
  predicate Applies(op: Op, prog: map<nat, Prog>, files: map<nat, Image>) {
    match op
    case Boot(c) => c !in prog && 1 <= c < TASKS
    case Fork(p, c) => p in prog && c !in prog && 1 <= c < TASKS
    case Store(v, o, _) => InTask(prog, v) && o < PAGE_SIZE
    case Touch(v) => InTask(prog, v)
    case Reclaim => true
    case Exit(t) => t in prog
    case Exec(t, p) => t in prog && FilesKnown(files, p)
  }

  /**
    Why an operation that applies may fail: too few frames were free, and get_free_page came to have nothing
    to give; or the walk of swap_out finds nothing to evict.
   */
  ghost predicate Excused(op: Op, at: Point, miss: Miss) {
    match op
    case Boot(c) => OutOfFrames(at, miss, Booting(c))
    case Fork(p, c) => OutOfFrames(at, miss, Forking(p, c))
    case Store(v, _, _) => NeedsFrame(at.s, v, true) && OutOfFrames(at, miss, At(v))
    case Touch(v) => NeedsFrame(at.s, v, false) && OutOfFrames(at, miss, At(v))
    case Reclaim => InRing(at.dirEntry) && NothingToEvict(at.s, at.dirEntry, at.pageEntry)
    case Exit(_) => false
    case Exec(_, _) => false
  }

  /** One operation; it fails only if it does not apply, or if it needs more frames than are free and finds none. */
  method Perform(vm: Vm, op: Op) returns (ok: bool)
    requires vm.Valid()
    modifies vm, vm.pgDir, vm.memMap, vm.swapMap
    ensures vm.Valid()
    ensures Abs(vm.space) == if ok then Effect(old(Abs(vm.space)), op, vm.files, vm.kernel) else old(Abs(vm.space))
    ensures ok ==> Applies(op, old(vm.prog), vm.files)
    ensures !ok && Applies(op, old(vm.prog), vm.files) ==> Excused(op, old(vm.Here()), vm.miss)
  {
    hide Inv, Tied, View, FullViews, ProgPage, Abs, Effect, OutOfFrames, NothingToEvict, Evictable;
    ghost var s := vm.space;
    ok := false;
    match op
    case Boot(c) =>
      if c !in vm.prog && 1 <= c < TASKS {
        var tp;
        ok, tp := vm.ForkKernel(c);
        if ok { BootAbs(s, vm.space, c, vm.files, vm.kernel); } else { SameAbs(s, vm.space); }
      }
    case Fork(p, c) =>
      if p in vm.prog && c !in vm.prog && 1 <= c < TASKS {
        AllTablesBelow(s, p);
        var tp;
        ok, tp := vm.Fork(p, c, DIRS_PER_TASK);
        if ok { ForkAbs(s, vm.space, p, c, vm.files, vm.kernel); } else { SameAbs(s, vm.space); }
      }
    case Store(v, o, b) =>
      if InTask(vm.prog, v) && o < PAGE_SIZE {
        ok := vm.Store(v, o, b);
        if ok { StoreAbs(s, vm.space, v, o, b, vm.files, vm.kernel); } else { SameAbs(s, vm.space); }
      }
    case Touch(v) => ok := PerformTouch(vm, v);
    case Reclaim =>
      ghost var page;
      ok, page := vm.ReclaimOne();
      SameAbs(s, vm.space);
      SilentEffect(s, op, vm.files, vm.kernel);
    case Exit(t) =>
      if t in vm.prog {
        vm.Exit(t);
        ok := true;
        ExitAbs(s, vm.space, t, vm.files, vm.kernel);
      }
    case Exec(t, p) =>
      if t in vm.prog && FilesKnown(vm.files, p) {
        vm.Exec(t, p);
        ok := true;
        ExecAbs(s, vm.space, t, p, vm.files, vm.kernel);
      }
  }

  lemma SilentEffect(s: Space, op: Op, files: map<nat, Image>, kernel: seq<Page>)
    requires op.Touch? || op.Reclaim?
    ensures Effect(Abs(s), op, files, kernel) == Abs(s)
  {
  }

  /** A read fault is served when the page is not present. */
  method PerformTouch(vm: Vm, v: VPage) returns (ok: bool)
    requires vm.Valid()
    modifies vm, vm.pgDir, vm.memMap, vm.swapMap
    ensures vm.Valid()
    ensures Abs(vm.space) == old(Abs(vm.space))
    ensures Effect(old(Abs(vm.space)), Touch(v), vm.files, vm.kernel) == old(Abs(vm.space))
    ensures ok ==> InTask(old(vm.prog), v)
    ensures !ok && InTask(old(vm.prog), v) ==> NeedsFrame(old(vm.space), v, false)
    ensures !ok && InTask(old(vm.prog), v) ==> OutOfFrames(old(vm.Here()), vm.miss, At(v))
  {
    hide Inv, DirTie, CountTie, TableTie, DataTie, BitTie, KernelTie;
    hide ProgTie, View, FullViews, ProgPage, Abs, Effect, FilesKnown;
    hide OutOfFrames, Reached, Used;
    ghost var s := vm.space;
    SilentEffect(s, Touch(v), vm.files, vm.kernel);
    if !InTask(vm.prog, v) { return false; }
    ReadDir(vm.T(), s, vm.files, v.Dir());
    EntryNeedsTable(s, v);
    var tab := vm.pgDir[DirIndex(v.Dir())];
    if tab.Some? {
      ReadEntry(vm.T(), s, vm.files, v);
      var e := vm.phys[tab.value].row[v.j];
      if e.Some? && e.value.Present? { return true; }
    }
    ok := vm.DoNoPage(v);
    SameAbs(s, vm.space);
  }

  /** What a run can be judged by between two operations. */
  datatype Moment = Moment(at: Point, prog: map<nat, Prog>, miss: Miss)

  ghost function Now(vm: Vm): Moment
    reads vm
  {
    Moment(vm.Here(), vm.prog, vm.miss)
  }

  /** One operation of a run. */
  ghost predicate Happens(op: Op, ok: bool, a: Moment, b: Moment, files: map<nat, Image>, kernel: seq<Page>) {
    && Abs(b.at.s) == (if ok then Effect(Abs(a.at.s), op, files, kernel) else Abs(a.at.s))
    && (ok ==> Applies(op, a.prog, files))
    && (!ok && Applies(op, a.prog, files) ==> Excused(op, a.at, b.miss))
  }

  method PerformOne(vm: Vm, op: Op) returns (ok: bool)
    requires vm.Valid()
    modifies vm, vm.pgDir, vm.memMap, vm.swapMap
    ensures vm.Valid() && Happens(op, ok, old(Now(vm)), Now(vm), vm.files, vm.kernel)
  {
    hide Inv, Tied, View, FullViews, Abs, Effect, Excused, Applies;
    ok := Perform(vm, op);
  }

  lemma EffectsGrow(a: Memories, b: Moment, c: Moment, ops: seq<Op>, oks: seq<bool>, op: Op, ok: bool,
                    files: map<nat, Image>, kernel: seq<Page>)
    requires |oks| == |ops| && Abs(b.at.s) == Effects(a, ops, oks, files, kernel)
    requires Happens(op, ok, b, c, files, kernel)
    ensures Abs(c.at.s) == Effects(a, ops + [op], oks + [ok], files, kernel)
  {
    hide Abs, Effect, Excused, Applies;
    assert (ops + [op])[..|ops|] == ops && (oks + [ok])[..|ops|] == oks;
  }

  /**
    Copy-on-write, sharing, demand loading and swapping are invisible: every run of operations leaves each
    task with the memory that the specification gives it.  An operation fails only where it does not apply
    to the tasks of the moment, or where fewer frames are free than it calls get_free_page and that has
    nothing to give on the way.
   */
  method Run(vm: Vm, ops: seq<Op>) returns (oks: seq<bool>, ghost trace: seq<Moment>)
    requires vm.Valid()
    modifies vm, vm.pgDir, vm.memMap, vm.swapMap
    ensures vm.Valid()
    ensures |oks| == |ops| && Abs(vm.space) == Effects(old(Abs(vm.space)), ops, oks, vm.files, vm.kernel)
    ensures |trace| == |ops| + 1 && trace[0] == old(Now(vm)) && trace[|ops|] == Now(vm)
    ensures forall n :: 0 <= n < |ops| ==> Happens(ops[n], oks[n], trace[n], trace[n + 1], vm.files, vm.kernel)
  {
    hide Inv, Tied, View, FullViews, Abs, Happens, Effects;
    oks, trace := [], [Now(vm)];
    ghost var a := Abs(vm.space);
    NoEffects(a, vm.files, vm.kernel);
    assert ops[..0] == [];
    var n := 0;
    while n < |ops|
      invariant 0 <= n <= |ops| && |oks| == n && |trace| == n + 1
      invariant vm.Valid() && trace[0] == old(Now(vm)) && trace[n] == Now(vm)
      invariant Abs(vm.space) == Effects(a, ops[..n], oks, vm.files, vm.kernel)
      invariant forall i :: 0 <= i < n ==> Happens(ops[i], oks[i], trace[i], trace[i + 1], vm.files, vm.kernel)
    {
      ghost var before := Now(vm);
      var ok := PerformOne(vm, ops[n]);
      EffectsGrow(a, before, Now(vm), ops[..n], oks, ops[n], ok, vm.files, vm.kernel);
      assert ops[..n + 1] == ops[..n] + [ops[n]];
      oks, trace := oks + [ok], trace + [Now(vm)];
      n := n + 1;
    }
    assert ops[..n] == ops;
  }

  lemma NoEffects(a: Memories, files: map<nat, Image>, kernel: seq<Page>)
    ensures Effects(a, [], [], files, kernel) == a
  {
  }
}
