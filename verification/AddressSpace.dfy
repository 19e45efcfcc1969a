/**
  The flat view of Linux 0.12 virtual memory: every page-table entry of every task,
  the reference counts of mem_map, the page frames and the swap slots.

  Each function below is one rewrite that the kernel performs on these tables.  For
  each of them a lemma shows that the accounting invariant survives and says what
  happens to what the tasks can read.
 */
module AddressSpace {
  import opened Common

  /** Frames below LOW_MEM belong to the kernel and are never counted. */
  const LOW: nat := 256

  const DIRS_PER_TASK: nat := 16
  const ENTRIES: nat := 1024
  const TASKS: nat := 64

  type Page = seq<int>

  /** A directory entry: slot k of the sixteen that task t owns. */
  datatype DirSlot = DirSlot(t: nat, k: nat)

  /** A page of a task: entry j of its k-th page table. */
  datatype VPage = VPage(t: nat, k: nat, j: nat) {
    function Dir(): DirSlot { DirSlot(t, k) }
  }

  /** A non-zero page-table word. */
  datatype Pte =
    | Present(frame: nat, rw: bool, dirty: bool)
    | Swapped(slot: nat)

  /** What a task finds in a page it never wrote: a file page or zeroes. */
  type Origin = (nat, nat) -> Page

  type PageTable = map<VPage, Pte>
  type Directory = map<DirSlot, nat>

  datatype Space = Space(
    pool: set<nat>,             // frames that mem_init handed to the allocator
    dirs: Directory,            // present directory entries and their table frame
    pt: PageTable,              // non-zero page-table entries
    memMap: map<nat, nat>,      // mem_map
    held: set<nat>,             // frames a kernel holder got from get_free_page
    data: map<nat, Page>,       // frame contents
    slots: set<nat>,            // swap slots free at start-up
    bits: set<nat>,             // slots whose bit is set now, that is, free slots
    swap: map<nat, Page>,       // swap contents
    org: map<nat, Origin>)      // live tasks and what backs their untouched pages

  function Refs(pt: PageTable, f: nat): set<VPage> {
    set v | v in pt && pt[v].Present? && pt[v].frame == f
  }

  function DirRefs(dirs: Directory, f: nat): set<DirSlot> {
    set d | d in dirs && dirs[d] == f
  }

  function Holders(pt: PageTable, dirs: Directory, held: set<nat>, f: nat): nat {
    |Refs(pt, f)| + |DirRefs(dirs, f)| + if f in held then 1 else 0
  }

  /** What task v.t reads in page v. */
  function View(s: Space, v: VPage): Option<Page> {
    if v.t !in s.org then None
    else if v !in s.pt then Some(s.org[v.t](v.k, v.j))
    else match s.pt[v]
      case Present(f, _, _) => if f in s.data then Some(s.data[f]) else None
      case Swapped(n) => if n in s.swap then Some(s.swap[n]) else None
  }

  // ----- The invariant

  /** mem_map is exact. */
  ghost predicate Counted(pool: set<nat>, memMap: map<nat, nat>, pt: PageTable, dirs: Directory, held: set<nat>) {
    forall f :: f in pool ==> f in memMap && memMap[f] == Holders(pt, dirs, held, f)
  }

  /** Frames in the hands of the kernel: managed, readable, and nobody else's. */
  ghost predicate HeldApart(pool: set<nat>, held: set<nat>, data: map<nat, Page>, pt: PageTable, dirs: Directory) {
    && held <= pool
    && (forall f :: f in held ==> f in data)
    && (forall v :: v in pt && pt[v].Present? ==> pt[v].frame !in held)
    && (forall d :: d in dirs ==> dirs[d] !in held)
  }

  /** Every entry sits in an existing table. */
  ghost predicate InTables(pt: PageTable, dirs: Directory) {
    forall v :: v in pt ==> v.Dir() in dirs && v.j < ENTRIES
  }

  /** Every table is a managed frame of a live task. */
  ghost predicate TablesPlaced(pool: set<nat>, dirs: Directory, org: map<nat, Origin>) {
    forall d :: d in dirs ==> d.t in org && d.k < DIRS_PER_TASK && dirs[d] in pool
  }

  /** Every present entry names a frame that exists. */
  ghost predicate FramesPlaced(pool: set<nat>, data: map<nat, Page>, pt: PageTable) {
    forall v :: v in pt && pt[v].Present? ==>
      pt[v].frame in data && (pt[v].frame < LOW || pt[v].frame in pool)
  }

  /** A page table is named by one directory entry, and no task can map it. */
  ghost predicate TablesApart(pt: PageTable, dirs: Directory) {
    && (forall d, d' :: d in dirs && d' in dirs && d != d' ==> dirs[d] != dirs[d'])
    && (forall v, d :: v in pt && pt[v].Present? && d in dirs ==> pt[v].frame != dirs[d])
  }

  predicate SameFrame(a: Pte, b: Pte) {
    a.Present? && b.Present? && a.frame == b.frame && LOW <= a.frame
  }

  /**
    A writable frame has one mapping; the sharers of a frame agree on the dirty bit
    and map it at the same place of their address space.
   */
  ghost predicate WriteExclusive(pt: PageTable) {
    && (forall v :: v in pt && pt[v].Present? && pt[v].frame < LOW ==> !pt[v].rw)
    && (forall v, w :: v in pt && w in pt && v != w && SameFrame(pt[v], pt[w]) ==>
          !pt[v].rw && pt[v].dirty == pt[w].dirty && v.k == w.k && v.j == w.j)
  }

  predicate Clean(e: Pte) { e.Present? && LOW <= e.frame && !e.dirty }

  /** A clean page can be dropped: it still equals what backs it. */
  ghost predicate CleanIsBacked(pt: PageTable, data: map<nat, Page>, org: map<nat, Origin>) {
    forall v :: v in pt && Clean(pt[v]) ==>
      v.t in org && pt[v].frame in data && data[pt[v].frame] == org[v.t](v.k, v.j)
  }

  predicate Owns(pt: PageTable, v: VPage, n: nat) { v in pt && pt[v] == Swapped(n) }

  /** Each swap slot taken since start-up is named by exactly one entry. */
  ghost predicate SlotsOwned(pt: PageTable, slots: set<nat>, bits: set<nat>, swap: map<nat, Page>) {
    && bits <= slots
    && 0 !in slots
    && (forall v, n :: Owns(pt, v, n) ==> n in slots && n !in bits && n in swap)
    && (forall v, w, n :: Owns(pt, v, n) && Owns(pt, w, n) ==> v == w)
    && (forall n :: n in slots && n !in bits ==> exists v :: Owns(pt, v, n))
  }

  ghost predicate Inv(s: Space) {
    && (forall f :: f in s.pool ==> LOW <= f)
    && Counted(s.pool, s.memMap, s.pt, s.dirs, s.held)
    && HeldApart(s.pool, s.held, s.data, s.pt, s.dirs)
    && InTables(s.pt, s.dirs)
    && TablesPlaced(s.pool, s.dirs, s.org)
    && FramesPlaced(s.pool, s.data, s.pt)
    && TablesApart(s.pt, s.dirs)
    && WriteExclusive(s.pt)
    && CleanIsBacked(s.pt, s.data, s.org)
    && SlotsOwned(s.pt, s.slots, s.bits, s.swap)
  }

  /** All pages but those in `except` read the same in s and in s'. */
  ghost predicate SameViews(s: Space, s': Space, except: set<VPage>) {
    forall v :: v !in except ==> View(s', v) == View(s, v)
  }

  // ----- Counting

  lemma CardinalityOne<T>(a: set<T>, x: T)
    requires x in a
    requires forall y :: y in a ==> y == x
    ensures |a| == 1
  {
    assert a == {x};
  }

  lemma SubsetCard<T>(a: set<T>, b: set<T>)
    requires a <= b
    ensures |a| <= |b|
  {
    assert b == a + (b - a);
  }

  /** A frame with one holder that some entry maps is mapped by that entry only. */
  lemma SoleMapping(s: Space, v: VPage, f: nat)
    requires Counted(s.pool, s.memMap, s.pt, s.dirs, s.held)
    requires v in Refs(s.pt, f) && f in s.pool && s.memMap[f] == 1
    ensures Refs(s.pt, f) == {v} && DirRefs(s.dirs, f) == {} && f !in s.held
  {
    assert s.memMap[f] == Holders(s.pt, s.dirs, s.held, f);
    if w :| w in Refs(s.pt, f) && w != v {
      SubsetCard({v, w}, Refs(s.pt, f));
    }
  }

  lemma TableCountIsOne(s: Space, d: DirSlot)
    requires Inv(s) && d in s.dirs
    ensures s.memMap[s.dirs[d]] == 1
    ensures Refs(s.pt, s.dirs[d]) == {} && DirRefs(s.dirs, s.dirs[d]) == {d} && s.dirs[d] !in s.held
  {
    var f := s.dirs[d];
    CardinalityOne(DirRefs(s.dirs, f), d);
    assert DirRefs(s.dirs, f) == {d};
    assert Refs(s.pt, f) == {};
  }

  lemma FreeHasNoHolder(s: Space, f: nat)
    requires Counted(s.pool, s.memMap, s.pt, s.dirs, s.held) && f in s.pool && s.memMap[f] == 0
    ensures Refs(s.pt, f) == {} && DirRefs(s.dirs, f) == {} && f !in s.held
    ensures forall v :: v in s.pt && s.pt[v].Present? ==> s.pt[v].frame != f
    ensures forall d :: d in s.dirs ==> s.dirs[d] != f
  {
    forall v | v in s.pt && s.pt[v].Present? ensures s.pt[v].frame != f {
      assert v !in Refs(s.pt, f);
    }
    forall d | d in s.dirs ensures s.dirs[d] != f {
      assert d !in DirRefs(s.dirs, f);
    }
  }

  lemma HeldHasNoOtherHolder(s: Space, f: nat)
    requires Counted(s.pool, s.memMap, s.pt, s.dirs, s.held)
    requires HeldApart(s.pool, s.held, s.data, s.pt, s.dirs) && f in s.held
    ensures Refs(s.pt, f) == {} && DirRefs(s.dirs, f) == {} && s.memMap[f] == 1
  {
    assert f in s.pool;
  }

  // ----- Taking and returning frames

  /** get_free_page: a free frame is zeroed and gets a kernel holder. */
  function Alloc(s: Space, f: nat, zero: Page): Space {
    s.(memMap := s.memMap[f := 1], held := s.held + {f}, data := s.data[f := zero])
  }

  lemma AllocKeeps(s: Space, f: nat, zero: Page)
    requires Inv(s) && f in s.pool && s.memMap[f] == 0
    ensures Inv(Alloc(s, f, zero)) && SameViews(s, Alloc(s, f, zero), {})
  {
    hide InTables, WriteExclusive, SlotsOwned, TablesPlaced, TablesApart;
    FreeHasNoHolder(s, f);
  }

  /** free_page on a frame that only a kernel holder has. */
  function Return(s: Space, f: nat): Space {
    s.(memMap := s.memMap[f := 0], held := s.held - {f})
  }

  lemma ReturnKeeps(s: Space, f: nat)
    requires Inv(s) && f in s.held
    ensures Inv(Return(s, f)) && SameViews(s, Return(s, f), {})
    ensures s.memMap[f] == 1
  {
    HeldHasNoOtherHolder(s, f);
  }

  /** The kernel writes a frame it holds. */
  function Fill(s: Space, f: nat, page: Page): Space {
    s.(data := s.data[f := page])
  }

  lemma FillKeeps(s: Space, f: nat, page: Page)
    requires Inv(s) && f in s.held
    ensures Inv(Fill(s, f, page)) && SameViews(s, Fill(s, f, page), {})
  {
  }

  /** The kernel writes a free swap slot. */
  function FillSlot(s: Space, n: nat, page: Page): Space {
    s.(swap := s.swap[n := page])
  }

  lemma FillSlotKeeps(s: Space, n: nat, page: Page)
    requires Inv(s) && n in s.bits
    ensures Inv(FillSlot(s, n, page)) && SameViews(s, FillSlot(s, n, page), {})
  {
    forall v | v in s.pt && s.pt[v].Swapped? ensures s.pt[v].slot != n { assert Owns(s.pt, v, s.pt[v].slot); }
  }

  // ----- Page tables

  /** A held frame becomes the k-th page table of a task. */
  function AddTable(s: Space, d: DirSlot, f: nat): Space {
    s.(dirs := s.dirs[d := f], held := s.held - {f})
  }

  lemma AddTableCounts(s: Space, d: DirSlot, f: nat)
    requires Counted(s.pool, s.memMap, s.pt, s.dirs, s.held)
    requires HeldApart(s.pool, s.held, s.data, s.pt, s.dirs)
    requires f in s.held && d !in s.dirs
    ensures var s' := AddTable(s, d, f); Counted(s'.pool, s'.memMap, s'.pt, s'.dirs, s'.held)
  {
    HeldHasNoOtherHolder(s, f);
    var s' := AddTable(s, d, f);
    forall g | g in s'.pool ensures g in s'.memMap && s'.memMap[g] == Holders(s'.pt, s'.dirs, s'.held, g) {
      assert DirRefs(s'.dirs, g) == DirRefs(s.dirs, g) + (if g == f then {d} else {});
      assert d !in DirRefs(s.dirs, g);
      assert s.memMap[g] == Holders(s.pt, s.dirs, s.held, g);
    }
  }

  lemma AddTableKeeps(s: Space, d: DirSlot, f: nat)
    requires Inv(s) && f in s.held && d !in s.dirs && d.t in s.org && d.k < DIRS_PER_TASK
    ensures Inv(AddTable(s, d, f)) && SameViews(s, AddTable(s, d, f), {})
  {
    hide Counted, WriteExclusive, CleanIsBacked, SlotsOwned;
    AddTableCounts(s, d, f);
  }

  /** An empty page table is freed. */
  function DropTable(s: Space, d: DirSlot): Space
    requires d in s.dirs
  {
    s.(dirs := s.dirs - {d}, memMap := s.memMap[s.dirs[d] := 0])
  }

  lemma DropTableCounts(s: Space, d: DirSlot)
    requires Inv(s) && d in s.dirs
    ensures s.memMap[s.dirs[d]] == 1
    ensures var s' := DropTable(s, d); Counted(s'.pool, s'.memMap, s'.pt, s'.dirs, s'.held)
  {
    hide WriteExclusive, CleanIsBacked, SlotsOwned, HeldApart, InTables, FramesPlaced;
    TableCountIsOne(s, d);
    var s' := DropTable(s, d);
    forall g | g in s'.pool ensures g in s'.memMap && s'.memMap[g] == Holders(s'.pt, s'.dirs, s'.held, g) {
      assert DirRefs(s'.dirs, g) == DirRefs(s.dirs, g) - {d};
      assert g != s.dirs[d] ==> d !in DirRefs(s.dirs, g);
      assert s.memMap[g] == Holders(s.pt, s.dirs, s.held, g);
    }
  }

  lemma DropTableKeeps(s: Space, d: DirSlot)
    requires Inv(s) && d in s.dirs
    requires forall v :: v in s.pt ==> v.Dir() != d
    ensures s.memMap[s.dirs[d]] == 1
    ensures Inv(DropTable(s, d)) && SameViews(s, DropTable(s, d), {})
  {
    hide Counted, WriteExclusive, CleanIsBacked, SlotsOwned;
    DropTableCounts(s, d);
  }

  // ----- Entries

  /** How rewriting one entry changes the mappings of every frame. */
  lemma RefsAfterSet(pt: PageTable, v: VPage, e: Pte, f: nat)
    ensures Refs(pt[v := e], f) == Refs(pt, f) - {v} + (if e.Present? && e.frame == f then {v} else {})
  {
  }

  lemma RefsAfterClear(pt: PageTable, v: VPage, f: nat)
    ensures Refs(pt - {v}, f) == Refs(pt, f) - {v}
  {
  }

  /** An entry is cleared: its frame loses a reference, or its swap slot is freed. */
  function Detach(s: Space, v: VPage): Space
    requires v in s.pt
  {
    match s.pt[v]
    case Present(f, _, _) =>
      if f in s.pool && f in s.memMap && s.memMap[f] > 0 then
        s.(pt := s.pt - {v}, memMap := s.memMap[f := s.memMap[f] - 1])
      else s.(pt := s.pt - {v})
    case Swapped(n) => s.(pt := s.pt - {v}, bits := s.bits + {n})
  }

  lemma DetachCounts(s: Space, v: VPage)
    requires Counted(s.pool, s.memMap, s.pt, s.dirs, s.held) && v in s.pt
    ensures var s' := Detach(s, v); Counted(s'.pool, s'.memMap, s'.pt, s'.dirs, s'.held)
    ensures s.pt[v].Present? && s.pt[v].frame in s.pool ==> s.memMap[s.pt[v].frame] > 0
  {
    var s' := Detach(s, v);
    if s.pt[v].Present? && s.pt[v].frame in s.pool {
      assert v in Refs(s.pt, s.pt[v].frame);
      assert s.memMap[s.pt[v].frame] > 0;
    }
    forall g | g in s'.pool ensures g in s'.memMap && s'.memMap[g] == Holders(s'.pt, s'.dirs, s'.held, g) {
      RefsAfterClear(s.pt, v, g);
      assert s.memMap[g] == Holders(s.pt, s.dirs, s.held, g);
      assert v in Refs(s.pt, g) <==> s.pt[v].Present? && s.pt[v].frame == g;
    }
  }

  lemma DetachSlots(s: Space, v: VPage)
    requires SlotsOwned(s.pt, s.slots, s.bits, s.swap) && v in s.pt
    ensures var s' := Detach(s, v); SlotsOwned(s'.pt, s'.slots, s'.bits, s'.swap)
  {
    var s' := Detach(s, v);
    forall w, n ensures Owns(s'.pt, w, n) <==> Owns(s.pt, w, n) && w != v { }
    if s.pt[v].Swapped? { assert Owns(s.pt, v, s.pt[v].slot); }
    forall n | n in s'.slots && n !in s'.bits ensures exists w :: Owns(s'.pt, w, n) {
      var w :| Owns(s.pt, w, n);
      assert Owns(s'.pt, w, n);
    }
  }

  /** Removing an entry keeps everything that is said of each remaining one. */
  lemma ClearedTable(s: Space, v: VPage)
    requires Inv(s)
    ensures var pt := s.pt - {v};
            && HeldApart(s.pool, s.held, s.data, pt, s.dirs) && InTables(pt, s.dirs)
            && FramesPlaced(s.pool, s.data, pt) && TablesApart(pt, s.dirs)
            && WriteExclusive(pt) && CleanIsBacked(pt, s.data, s.org)
  {
    hide Counted, SlotsOwned, TablesPlaced;
  }

  lemma DetachKeeps(s: Space, v: VPage)
    requires Inv(s) && v in s.pt
    ensures Inv(Detach(s, v)) && SameViews(s, Detach(s, v), {v})
    ensures v.t in s.org && View(Detach(s, v), v) == Some(s.org[v.t](v.k, v.j))
  {
    hide Counted, HeldApart, FramesPlaced, TablesApart, WriteExclusive, CleanIsBacked, SlotsOwned;
    DetachCounts(s, v);
    DetachSlots(s, v);
    ClearedTable(s, v);
    assert v.Dir() in s.dirs;
  }

  /** A held frame is entered at an empty place of a table. */
  function Attach(s: Space, v: VPage, f: nat, rw: bool, dirty: bool): Space {
    s.(pt := s.pt[v := Present(f, rw, dirty)], held := s.held - {f})
  }

  lemma AttachCounts(s: Space, v: VPage, f: nat, rw: bool, dirty: bool)
    requires Counted(s.pool, s.memMap, s.pt, s.dirs, s.held)
    requires HeldApart(s.pool, s.held, s.data, s.pt, s.dirs)
    requires v !in s.pt && f in s.held
    ensures var s' := Attach(s, v, f, rw, dirty); Counted(s'.pool, s'.memMap, s'.pt, s'.dirs, s'.held)
  {
    HeldHasNoOtherHolder(s, f);
    var s' := Attach(s, v, f, rw, dirty);
    forall g | g in s'.pool ensures g in s'.memMap && s'.memMap[g] == Holders(s'.pt, s'.dirs, s'.held, g) {
      RefsAfterSet(s.pt, v, Present(f, rw, dirty), g);
      assert s.memMap[g] == Holders(s.pt, s.dirs, s.held, g);
      assert v !in Refs(s.pt, g);
    }
  }

  /** Entering or rewriting present entries moves no swap slot. */
  lemma SlotsAfterPresent(pt: PageTable, pt': PageTable, slots: set<nat>, bits: set<nat>, swap: map<nat, Page>)
    requires SlotsOwned(pt, slots, bits, swap)
    requires forall w, n :: Owns(pt', w, n) <==> Owns(pt, w, n)
    ensures SlotsOwned(pt', slots, bits, swap)
  {
    forall n | n in slots && n !in bits ensures exists w :: Owns(pt', w, n) {
      var w :| Owns(pt, w, n);
      assert Owns(pt', w, n);
    }
  }

  /** Entry e may stand at v: its frame exists, is no page table, and is not in the kernel's hands. */
  ghost predicate Fits(s: Space, held: set<nat>, v: VPage, e: Pte) {
    && v.Dir() in s.dirs && v.j < ENTRIES
    && (e.Present? ==>
          && e.frame in s.data && (e.frame < LOW || e.frame in s.pool) && e.frame !in held
          && forall d :: d in s.dirs ==> s.dirs[d] != e.frame)
  }

  lemma RolesAfterEntry(s: Space, held: set<nat>, v: VPage, e: Pte)
    requires HeldApart(s.pool, held, s.data, s.pt, s.dirs) && InTables(s.pt, s.dirs)
    requires FramesPlaced(s.pool, s.data, s.pt) && TablesApart(s.pt, s.dirs) && Fits(s, held, v, e)
    ensures var pt := s.pt[v := e];
            && HeldApart(s.pool, held, s.data, pt, s.dirs) && InTables(pt, s.dirs)
            && FramesPlaced(s.pool, s.data, pt) && TablesApart(pt, s.dirs)
  {
  }

  lemma ExclusiveAfterEntry(pt: PageTable, v: VPage, e: Pte)
    requires WriteExclusive(pt)
    requires e.Present? && e.frame < LOW ==> !e.rw
    requires e.Present? && LOW <= e.frame ==> forall w :: w in pt && pt[w].Present? ==> pt[w].frame != e.frame
    ensures WriteExclusive(pt[v := e])
  {
  }

  lemma CleanAfterEntry(pt: PageTable, data: map<nat, Page>, org: map<nat, Origin>, v: VPage, e: Pte)
    requires CleanIsBacked(pt, data, org)
    requires Clean(e) ==> v.t in org && e.frame in data && data[e.frame] == org[v.t](v.k, v.j)
    ensures CleanIsBacked(pt[v := e], data, org)
  {
  }

  lemma AttachKeeps(s: Space, v: VPage, f: nat, rw: bool, dirty: bool)
    requires Inv(s) && v !in s.pt && f in s.held && v.Dir() in s.dirs && v.j < ENTRIES
    requires v.t in s.org && (dirty || s.data[f] == s.org[v.t](v.k, v.j))
    ensures Inv(Attach(s, v, f, rw, dirty)) && SameViews(s, Attach(s, v, f, rw, dirty), {v})
    ensures View(Attach(s, v, f, rw, dirty), v) == Some(s.data[f])
  {
    hide Counted, InTables, FramesPlaced, TablesApart, WriteExclusive, CleanIsBacked, SlotsOwned;
    var e := Present(f, rw, dirty);
    AttachCounts(s, v, f, rw, dirty);
    RolesAfterEntry(s, s.held - {f}, v, e);
    ExclusiveAfterEntry(s.pt, v, e);
    CleanAfterEntry(s.pt, s.data, s.org, v, e);
    SlotsAfterPresent(s.pt, s.pt[v := e], s.slots, s.bits, s.swap);
  }

  /** A free swap slot is entered at an empty place of a table. */
  function AttachSlot(s: Space, v: VPage, n: nat): Space {
    s.(pt := s.pt[v := Swapped(n)], bits := s.bits - {n})
  }

  lemma AttachSlotOwned(s: Space, v: VPage, n: nat)
    requires SlotsOwned(s.pt, s.slots, s.bits, s.swap) && v !in s.pt && n in s.bits && n in s.swap
    ensures var s' := AttachSlot(s, v, n); SlotsOwned(s'.pt, s'.slots, s'.bits, s'.swap)
  {
    var s' := AttachSlot(s, v, n);
    forall w, m ensures Owns(s'.pt, w, m) <==> Owns(s.pt, w, m) || (w == v && m == n) { }
    forall m | m in s'.slots && m !in s'.bits ensures exists w :: Owns(s'.pt, w, m) {
      if m == n {
        assert Owns(s'.pt, v, m);
      } else {
        var w :| Owns(s.pt, w, m);
        assert Owns(s'.pt, w, m);
      }
    }
  }

  lemma AttachSlotCounts(s: Space, v: VPage, n: nat)
    requires Counted(s.pool, s.memMap, s.pt, s.dirs, s.held) && v !in s.pt
    ensures Counted(s.pool, s.memMap, s.pt[v := Swapped(n)], s.dirs, s.held)
  {
    forall g | g in s.pool ensures g in s.memMap && s.memMap[g] == Holders(s.pt[v := Swapped(n)], s.dirs, s.held, g) {
      RefsAfterSet(s.pt, v, Swapped(n), g);
      assert v !in Refs(s.pt, g);
    }
  }

  lemma AttachSlotKeeps(s: Space, v: VPage, n: nat)
    requires Inv(s) && v !in s.pt && n in s.bits && n in s.swap && v.Dir() in s.dirs && v.j < ENTRIES && v.t in s.org
    ensures Inv(AttachSlot(s, v, n)) && SameViews(s, AttachSlot(s, v, n), {v})
    ensures View(AttachSlot(s, v, n), v) == Some(s.swap[n])
  {
    hide Counted, HeldApart, InTables, FramesPlaced, TablesApart, WriteExclusive, CleanIsBacked, SlotsOwned;
    AttachSlotCounts(s, v, n);
    RolesAfterEntry(s, s.held, v, Swapped(n));
    ExclusiveAfterEntry(s.pt, v, Swapped(n));
    CleanAfterEntry(s.pt, s.data, s.org, v, Swapped(n));
    AttachSlotOwned(s, v, n);
  }

  /** Page v loses write permission and page w is given the same entry. */
  function Shared(pt: PageTable, v: VPage, w: VPage): PageTable
    requires v in pt && pt[v].Present?
  {
    pt[v := pt[v].(rw := false)][w := pt[v].(rw := false)]
  }

  /** The entry copy of copy_page_tables and of try_to_share. */
  function Share(s: Space, v: VPage, w: VPage): Space
    requires v in s.pt && s.pt[v].Present?
  {
    var f := s.pt[v].frame;
    if f in s.pool && f in s.memMap then
      s.(pt := Shared(s.pt, v, w), memMap := s.memMap[f := s.memMap[f] + 1])
    else
      s.(pt := Shared(s.pt, v, w))
  }

  lemma RefsAfterShared(pt: PageTable, v: VPage, w: VPage, f: nat)
    requires v in pt && pt[v].Present? && w !in pt
    ensures Refs(Shared(pt, v, w), f) == Refs(pt, f) + (if pt[v].frame == f then {w} else {})
    ensures w !in Refs(pt, f)
  {
    var e := pt[v].(rw := false);
    RefsAfterSet(pt, v, e, f);
    RefsAfterSet(pt[v := e], w, e, f);
    assert v in Refs(pt, f) <==> pt[v].frame == f;
  }

  lemma ShareCounts(s: Space, v: VPage, w: VPage)
    requires Counted(s.pool, s.memMap, s.pt, s.dirs, s.held)
    requires v in s.pt && s.pt[v].Present? && w !in s.pt
    ensures var s' := Share(s, v, w); Counted(s'.pool, s'.memMap, s'.pt, s'.dirs, s'.held)
  {
    var s' := Share(s, v, w);
    forall g | g in s'.pool ensures g in s'.memMap && s'.memMap[g] == Holders(s'.pt, s'.dirs, s'.held, g) {
      hide Shared;
      RefsAfterShared(s.pt, v, w, g);
      assert s.memMap[g] == Holders(s.pt, s.dirs, s.held, g);
    }
  }

  /** Sharers agree: the copied entry obeys write exclusion. */
  lemma SharedExclusive(pt: PageTable, v: VPage, w: VPage)
    requires WriteExclusive(pt) && v in pt && pt[v].Present? && w !in pt && w.k == v.k && w.j == v.j
    ensures WriteExclusive(Shared(pt, v, w))
  {
    var pt' := Shared(pt, v, w);
    forall x, y | x in pt' && y in pt' && x != y && SameFrame(pt'[x], pt'[y])
      ensures !pt'[x].rw && pt'[x].dirty == pt'[y].dirty && x.k == y.k && x.j == y.j
    {
      var x0 := if x == w then v else x;
      var y0 := if y == w then v else y;
      assert pt'[x].frame == pt[x0].frame && pt'[x].dirty == pt[x0].dirty;
      assert pt'[y].frame == pt[y0].frame && pt'[y].dirty == pt[y0].dirty;
      if x0 != y0 { assert SameFrame(pt[x0], pt[y0]); }
    }
  }

  /** The frame of an entry may also stand, with other flags, elsewhere. */
  lemma SharerFits(s: Space, pt: PageTable, v: VPage, w: VPage, e: Pte)
    requires HeldApart(s.pool, s.held, s.data, pt, s.dirs) && FramesPlaced(s.pool, s.data, pt)
             && TablesApart(pt, s.dirs)
    requires v in pt && pt[v].Present? && e.Present? && e.frame == pt[v].frame && w.Dir() in s.dirs && w.j < ENTRIES
    ensures Fits(s, s.held, w, e)
  {
  }

  lemma SharedTable(s: Space, v: VPage, w: VPage)
    requires HeldApart(s.pool, s.held, s.data, s.pt, s.dirs) && InTables(s.pt, s.dirs)
    requires FramesPlaced(s.pool, s.data, s.pt) && TablesApart(s.pt, s.dirs)
    requires v in s.pt && s.pt[v].Present? && w.Dir() in s.dirs && w.j < ENTRIES && v.Dir() in s.dirs && v.j < ENTRIES
    ensures var pt := Shared(s.pt, v, w);
            && HeldApart(s.pool, s.held, s.data, pt, s.dirs) && InTables(pt, s.dirs)
            && FramesPlaced(s.pool, s.data, pt) && TablesApart(pt, s.dirs)
  {
    hide HeldApart, InTables, FramesPlaced, TablesApart, Fits;
    var e := s.pt[v].(rw := false);
    SharerFits(s, s.pt, v, v, e);
    RolesAfterEntry(s, s.held, v, e);
    var s1 := s.(pt := s.pt[v := e]);
    SharerFits(s, s1.pt, v, w, e);
    assert Fits(s1, s.held, w, e) by { FitsSame(s, s1, w, e); }
    RolesAfterEntry(s1, s.held, w, e);
  }

  lemma FitsSame(s: Space, s': Space, w: VPage, e: Pte)
    requires Fits(s, s.held, w, e) && s' == s.(pt := s'.pt)
    ensures Fits(s', s.held, w, e)
  {
  }

  lemma SharedClean(s: Space, v: VPage, w: VPage)
    requires CleanIsBacked(s.pt, s.data, s.org) && v in s.pt && s.pt[v].Present? && w.t in s.org && v.t in s.org
    requires s.pt[v].frame < LOW || s.pt[v].dirty || s.org[w.t](w.k, w.j) == s.org[v.t](v.k, v.j)
    ensures CleanIsBacked(Shared(s.pt, v, w), s.data, s.org)
  {
    var e := s.pt[v].(rw := false);
    CleanAfterEntry(s.pt, s.data, s.org, v, e);
    CleanAfterEntry(s.pt[v := e], s.data, s.org, w, e);
  }

  lemma InTable(s: Space, v: VPage)
    requires InTables(s.pt, s.dirs) && v in s.pt
    ensures v.Dir() in s.dirs && v.j < ENTRIES
  {
  }

  lemma ShareKeeps(s: Space, v: VPage, w: VPage)
    requires Inv(s) && v in s.pt && s.pt[v].Present? && w !in s.pt && w.Dir() in s.dirs && w.k == v.k && w.j == v.j
    requires w.t in s.org && v.t in s.org
    requires s.pt[v].frame < LOW || s.pt[v].dirty || s.org[w.t](w.k, w.j) == s.org[v.t](v.k, v.j)
    ensures Inv(Share(s, v, w)) && SameViews(s, Share(s, v, w), {w})
    ensures View(Share(s, v, w), w) == View(s, v)
  {
    hide Counted, HeldApart, InTables, FramesPlaced, TablesApart, WriteExclusive, CleanIsBacked, SlotsOwned;
    ShareCounts(s, v, w);
    assert v.Dir() in s.dirs && v.j < ENTRIES by { InTable(s, v); }
    SharedTable(s, v, w);
    SharedClean(s, v, w);
    SharedExclusive(s.pt, v, w);
    SlotsAfterPresent(s.pt, Shared(s.pt, v, w), s.slots, s.bits, s.swap);
  }

  /**
    The retried store after a write fault on a frame with one reference, or a store
    to a writable page: the entry ends up writable and dirty.
   */
  function Write(s: Space, v: VPage, page: Page): Space
    requires v in s.pt && s.pt[v].Present?
  {
    s.(pt := s.pt[v := Present(s.pt[v].frame, true, true)], data := s.data[s.pt[v].frame := page])
  }

  lemma WriteCounts(s: Space, v: VPage, page: Page)
    requires Counted(s.pool, s.memMap, s.pt, s.dirs, s.held) && v in s.pt && s.pt[v].Present?
    ensures var s' := Write(s, v, page); Counted(s'.pool, s'.memMap, s'.pt, s'.dirs, s'.held)
  {
    var s' := Write(s, v, page);
    forall g | g in s'.pool ensures g in s'.memMap && s'.memMap[g] == Holders(s'.pt, s'.dirs, s'.held, g) {
      RefsAfterSet(s.pt, v, Present(s.pt[v].frame, true, true), g);
      assert v in Refs(s.pt, g) <==> s.pt[v].frame == g;
      assert Refs(s'.pt, g) == Refs(s.pt, g);
    }
  }

  /** A writable entry is the only mapping of its frame. */
  lemma WritableIsSole(s: Space, v: VPage)
    requires WriteExclusive(s.pt) && v in s.pt && s.pt[v].Present? && s.pt[v].rw
    ensures LOW <= s.pt[v].frame && Refs(s.pt, s.pt[v].frame) == {v}
  {
    var f := s.pt[v].frame;
    forall w | w in Refs(s.pt, f) ensures w == v {
      if w != v { assert SameFrame(s.pt[v], s.pt[w]); }
    }
    assert v in Refs(s.pt, f);
  }

  lemma WrittenTable(s: Space, v: VPage, page: Page)
    requires Inv(s) && v in s.pt && s.pt[v].Present? && LOW <= s.pt[v].frame
    ensures var s' := Write(s, v, page);
            && HeldApart(s'.pool, s'.held, s'.data, s'.pt, s'.dirs) && InTables(s'.pt, s'.dirs)
            && FramesPlaced(s'.pool, s'.data, s'.pt) && TablesApart(s'.pt, s'.dirs)
  {
    hide Counted, SlotsOwned, TablesPlaced, WriteExclusive, CleanIsBacked;
  }

  lemma WrittenSole(s: Space, v: VPage, page: Page)
    requires WriteExclusive(s.pt) && CleanIsBacked(s.pt, s.data, s.org)
    requires v in s.pt && s.pt[v].Present? && LOW <= s.pt[v].frame
    requires forall w :: w in s.pt && w != v && s.pt[w].Present? ==> s.pt[w].frame != s.pt[v].frame
    ensures var s' := Write(s, v, page); WriteExclusive(s'.pt) && CleanIsBacked(s'.pt, s'.data, s'.org)
  {
  }

  lemma WriteKeeps(s: Space, v: VPage, page: Page)
    requires Inv(s) && v in s.pt && s.pt[v].Present? && v.t in s.org
    requires LOW <= s.pt[v].frame && Refs(s.pt, s.pt[v].frame) == {v}
    ensures Inv(Write(s, v, page)) && SameViews(s, Write(s, v, page), {v})
    ensures View(Write(s, v, page), v) == Some(page)
  {
    hide Counted, HeldApart, InTables, FramesPlaced, TablesApart, WriteExclusive, CleanIsBacked, SlotsOwned;
    forall w | w in s.pt && w != v && s.pt[w].Present? ensures s.pt[w].frame != s.pt[v].frame {
      assert w !in Refs(s.pt, s.pt[v].frame);
    }
    WriteCounts(s, v, page);
    WrittenTable(s, v, page);
    WrittenSole(s, v, page);
    SlotsAfterPresent(s.pt, Write(s, v, page).pt, s.slots, s.bits, s.swap);
  }

  // ----- Tasks

  /** A task slot comes to life with empty tables. */
  function Spawn(s: Space, t: nat, o: Origin): Space { s.(org := s.org[t := o]) }

  lemma NoEntries(s: Space, t: nat)
    requires InTables(s.pt, s.dirs) && forall d :: d in s.dirs ==> d.t != t
    ensures forall v :: v in s.pt ==> v.t != t
  {
    forall v | v in s.pt ensures v.t != t { assert v.Dir() in s.dirs; }
  }

  lemma SpawnKeeps(s: Space, t: nat, o: Origin)
    requires Inv(s) && forall d :: d in s.dirs ==> d.t != t
    ensures Inv(Spawn(s, t, o))
    ensures forall v: VPage :: v.t != t ==> View(Spawn(s, t, o), v) == View(s, v)
    ensures forall v: VPage :: v.t == t ==> View(Spawn(s, t, o), v) == Some(o(v.k, v.j))
  {
    NoEntries(s, t);
  }

  /** A task whose tables are all gone leaves its slot. */
  function Retire(s: Space, t: nat): Space { s.(org := s.org - {t}) }

  lemma RetireKeeps(s: Space, t: nat)
    requires Inv(s) && forall d :: d in s.dirs ==> d.t != t
    ensures Inv(Retire(s, t))
    ensures forall v: VPage :: v.t != t ==> View(Retire(s, t), v) == View(s, v)
    ensures forall v: VPage :: v.t == t ==> View(Retire(s, t), v) == None
  {
    NoEntries(s, t);
  }
}
