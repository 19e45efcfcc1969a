/**
  Relations between address spaces before and after an operation of the memory
  manager, and the composite operations on the tables.
 */
module MemoryFacts {
  import opened Common
  import opened AddressSpace
  import opened Paging
  import opened Program
  import opened Machine
  import opened Growth

  /** Every page that can be read is a whole page. */
  ghost predicate FullViews(s: Space) {
    forall v :: View(s, v).Some? ==> |View(s, v).value| == PAGE_SIZE
  }

  /** The files of a program exist, and exec refused it if its data would reach beyond 48 Mb. */
  predicate FilesKnown(files: map<nat, Image>, p: Prog) {
    && (p.exe.Some? ==> p.exe.value in files && files[p.exe.value].endData <= 0x3000000)
    && (p.lib.Some? ==> p.lib.value in files)
  }

  function Resident(s: Space): set<VPage> {
    set v | v in s.pt && s.pt[v].Present?
  }

  /** The page can be shared by another task: present, managed and clean. */
  predicate Shareable(s: Space, v: VPage) { v in s.pt && Clean(s.pt[v]) }

  /** Tasks cur and p run the same file, or use the same library, for table k. */
  predicate SameFile(prog: map<nat, Prog>, cur: nat, p: nat, k: nat)
    requires cur in prog
  {
    p in prog && p != cur && if k < LIBRARY_DIR then prog[cur].exe == prog[p].exe else prog[cur].lib == prog[p].lib
  }

  /** What reclaiming memory may change: present entries become absent or swapped, nothing is lost. */
  ghost predicate Reclaimed(s: Space, s': Space) {
    && s'.pool == s.pool && s'.dirs == s.dirs && s'.slots == s.slots && s'.org == s.org
    && Thinned(s.pt, s'.pt) && NoDearer(s, s')
    && (forall v :: v in s.pt && s.pt[v].Swapped? ==> v in s'.pt && s'.pt[v] == s.pt[v])
    && SameViews(s, s', {})
  }

  lemma ReclaimedTrans(s: Space, s': Space, s'': Space)
    requires Reclaimed(s, s') && Reclaimed(s', s'')
    ensures Reclaimed(s, s'')
  {
    hide View, Thinned, Outlay;
    ThinnedTrans(s.pt, s'.pt, s''.pt);
    assert forall p: nat, k: nat, j: nat :: Outlay(s'', p, k, j) <= Outlay(s', p, k, j) <= Outlay(s, p, k, j);
  }

  /** The entry can be evicted: a managed page that is clean, or dirty, unshared and with swap space left. */
  ghost predicate Evictable(s: Space, v: VPage) {
    && v in s.pt && s.pt[v].Present? && s.pt[v].frame in s.pool && s.pt[v].frame in s.memMap
    && (s.pt[v].dirty ==> s.memMap[s.pt[v].frame] == 1 && s.bits != {})
  }

  /** Evicting a page drops it from the resident set and keeps all else that Reclaimed asks for. */
  lemma CleanEvictReclaims(s: Space, v: VPage)
    requires v in s.pt && s.pt[v].Present? && SameViews(s, Detach(s, v), {})
    ensures Reclaimed(s, Detach(s, v)) && Resident(Detach(s, v)) < Resident(s)
  {
    hide View;
    var s' := Detach(s, v);
    assert v in Resident(s) && v !in Resident(s');
    assert Resident(s') <= Resident(s);
    CleanEvictionNoDearer(s, s', v);
  }

  lemma DirtyEvictReclaims(s: Space, v: VPage, n: nat)
    requires v in s.pt && s.pt[v].Present? && s.pt[v].dirty && s.pt[v].frame in s.data
    requires s.pt[v].frame in s.pool && s.pt[v].frame in s.memMap && s.memMap[s.pt[v].frame] == 1
    requires SameViews(s, SwapOut(s, v, n), {})
    ensures Reclaimed(s, SwapOut(s, v, n)) && Resident(SwapOut(s, v, n)) < Resident(s)
  {
    hide View;
    var s' := SwapOut(s, v, n);
    assert v in Resident(s) && v !in Resident(s');
    assert Resident(s') <= Resident(s);
    assert Used(s') == Used(s) - {s.pt[v].frame};
    DirtyEvictionNoDearer(s, s', v, n);
  }

  lemma SameViewsFull(s: Space, s': Space)
    requires FullViews(s) && SameViews(s, s', {})
    ensures FullViews(s')
  {
    hide View;
  }

  lemma FreeFrameInPool(m: Tables, s: Space, files: map<nat, Image>, f: nat)
    requires Tied(m, s, files) && LOW <= f < LOW + |m.mm| && m.mm[f - LOW] == 0
    ensures f in s.pool && s.memMap[f] == 0
  {
  }

  lemma SameViewsRefl(s: Space)
    ensures SameViews(s, s, {}) && Reclaimed(s, s)
  {
  }

  lemma NoFreeSlot(m: Tables, s: Space, files: map<nat, Image>)
    requires Inv(s) && Tied(m, s, files) && forall q :: 1 <= q < SWAP_BITS && q < |m.bitmap| ==> !m.bitmap[q]
    ensures s.bits == {}
  {
    hide DirTie, TableTie, DataTie, ProgTie, KernelTie, CountTie;
    hide Counted, HeldApart, InTables, TablesPlaced, FramesPlaced, TablesApart, WriteExclusive, CleanIsBacked;
    assert forall n :: n in s.bits ==> n in s.slots;
  }

  lemma FreeSlotInBits(m: Tables, s: Space, files: map<nat, Image>, n: nat)
    requires Tied(m, s, files) && n < SWAP_BITS && n < |m.bitmap| && m.bitmap[n]
    ensures n in s.bits
  {
  }

  /** The tables after a dirty page of the task moved to swap slot n. */
  function SwapOutTables(m: Tables, s: Space, v: VPage, n: nat): Tables
    requires v in s.pt && s.pt[v].Present? && v.Dir() in s.dirs && Holds(m.phys, s.data, s.pt[v].frame)
    requires s.dirs[v.Dir()] in m.phys && m.phys[s.dirs[v.Dir()]].Table? && v.j < |m.phys[s.dirs[v.Dir()]].row|
    requires n < |m.bitmap| && LOW <= s.pt[v].frame < LOW + |m.mm|
  {
    var f := s.pt[v].frame;
    SetEntry(m, s.dirs[v.Dir()], v.j, Some(Swapped(n))).(
      bitmap := m.bitmap[n := false], swap := m.swap[n := s.data[f]], mm := m.mm[f - LOW := m.mm[f - LOW] - 1])
  }

  lemma SwapOutTied(m: Tables, s: Space, files: map<nat, Image>, v: VPage, n: nat)
    requires Inv(s) && Tied(m, s, files) && v in s.pt && s.pt[v].Present? && LOW <= s.pt[v].frame && n in s.bits
    ensures v.Dir() in s.dirs && Holds(m.phys, s.data, s.pt[v].frame)
    ensures s.dirs[v.Dir()] in m.phys && m.phys[s.dirs[v.Dir()]].Table? && v.j < |m.phys[s.dirs[v.Dir()]].row|
    ensures n < |m.bitmap| && LOW <= s.pt[v].frame < LOW + |m.mm|
    ensures Tied(SwapOutTables(m, s, v, n), SwapOut(s, v, n), files)
  {
    hide Inv, DirTie, TableTie, DataTie, ProgTie, KernelTie, CountTie, BitTie, View, SameViews;
    EntryIsPlaced(s, v);
    DetachFrame(s, v);
    ReadFrame(m, s, files, v);
    ReadCount(m, s, files, s.pt[v].frame);
    var page := s.data[s.pt[v].frame];
    var s1, m1 := FillSlot(s, n, page), m.(swap := m.swap[n := page]);
    FillSlotKeeps(s, n, page);
    FillSlotTied(m, s, files, n, page);
    DetachKeeps(s1, v);
    DetachTied(m1, s1, files, v);
    var s2, m2 := Detach(s1, v), ClearEntry(m1, s1, v);
    SetTwice(m, s.dirs[v.Dir()], v.j, None, Some(Swapped(n)));
    AttachSlotTied(m2, s2, files, v, n);
    assert SetEntry(m2, s2.dirs[v.Dir()], v.j, Some(Swapped(n))).(bitmap := m2.bitmap[n := false])
        == SwapOutTables(m, s, v, n);
  }

  /** swap_out's way round the directory skips the entries of task 0. */
  function NextDir(d: int): int {
    if d + 1 >= NR_DIR then DIRS_PER_TASK else d + 1
  }

  lemma AllocReclaims(s: Space, f: nat)
    requires Inv(s) && f in s.pool && s.memMap[f] == 0
    ensures Reclaimed(s, Alloc(s, f, ZeroPage())) && f !in s.held
    ensures Used(Alloc(s, f, ZeroPage())) == Used(s) + {f}
  {
    hide View;
    FreeHasNoHolder(s, f);
    AllocNoDearer(s, f, ZeroPage());
    AllocKeeps(s, f, ZeroPage());
  }

  lemma SameViewsChain(s: Space, s': Space, s'': Space, x: set<VPage>)
    requires SameViews(s, s', {}) && SameViews(s', s'', x)
    ensures SameViews(s, s'', x)
  {
    hide View;
  }

  lemma FullExcept(s: Space, s': Space, v: VPage)
    requires FullViews(s) && SameViews(s, s', {v}) && View(s', v).Some? && |View(s', v).value| == PAGE_SIZE
    ensures FullViews(s')
  {
    hide View;
  }

  function SwapInTables(m: Tables, s: Space, v: VPage, f: nat): Tables
    requires v in s.pt && s.pt[v].Swapped? && v.Dir() in s.dirs && s.pt[v].slot in s.swap
    requires s.dirs[v.Dir()] in m.phys && m.phys[s.dirs[v.Dir()]].Table? && v.j < |m.phys[s.dirs[v.Dir()]].row|
    requires s.pt[v].slot < |m.bitmap| && s.dirs[v.Dir()] != f
  {
    SetEntry(m.(phys := m.phys[f := Data(s.swap[s.pt[v].slot])]), s.dirs[v.Dir()], v.j, Some(Present(f, true, true))).(
      bitmap := m.bitmap[s.pt[v].slot := true])
  }

  lemma SlotInRange(m: Tables, s: Space, files: map<nat, Image>, n: nat)
    requires Tied(m, s, files) && n in s.slots
    ensures n < |m.bitmap|
  {
  }

  lemma TableNotHeld(s: Space, d: DirSlot, f: nat)
    requires Inv(s) && d in s.dirs && f in s.held
    ensures s.dirs[d] != f
  {
  }

  lemma SwapInTied(m: Tables, s: Space, files: map<nat, Image>, v: VPage, f: nat)
    requires Inv(s) && Tied(m, s, files) && v in s.pt && s.pt[v].Swapped? && f in s.held
    ensures v.Dir() in s.dirs && s.pt[v].slot in s.swap
    ensures s.dirs[v.Dir()] in m.phys && m.phys[s.dirs[v.Dir()]].Table? && v.j < |m.phys[s.dirs[v.Dir()]].row|
    ensures s.pt[v].slot < |m.bitmap| && s.dirs[v.Dir()] != f
    ensures Tied(SwapInTables(m, s, v, f), SwapIn(s, v, f), files)
  {
    hide Inv, DirTie, TableTie, DataTie, ProgTie, KernelTie, CountTie, BitTie, View, SameViews;
    EntryIsPlaced(s, v);
    ReadEntry(m, s, files, v);
    SlotInRange(m, s, files, s.pt[v].slot);
    TableNotHeld(s, v.Dir(), f);
    var page := s.swap[s.pt[v].slot];
    var s1, m1 := Fill(s, f, page), m.(phys := m.phys[f := Data(page)]);
    FillKeeps(s, f, page);
    FillTied(m, s, files, f, page);
    DetachKeeps(s1, v);
    DetachTied(m1, s1, files, v);
    var s2, m2 := Detach(s1, v), ClearEntry(m1, s1, v);
    SetTwice(m1, s.dirs[v.Dir()], v.j, None, Some(Present(f, true, true)));
    AttachTied(m2, s2, files, v, f, true, true);
    assert SetEntry(m2, s2.dirs[v.Dir()], v.j, Some(Present(f, true, true))) == SwapInTables(m, s, v, f);
  }

  /** How a request that needs memory ends. */
  datatype Outcome = Done | Refused | OutOfMemory

  lemma CleanView(s: Space, v: VPage)
    requires Inv(s) && v in s.pt && Clean(s.pt[v])
    ensures v.t in s.org && View(s, v) == Some(s.org[v.t](v.k, v.j))
  {
  }

  lemma UntouchedView(s: Space, v: VPage)
    requires v !in s.pt && v.t in s.org
    ensures View(s, v) == Some(s.org[v.t](v.k, v.j))
  {
  }

  lemma SharedViews(s0: Space, s2: Space, s: Space, v: VPage, w: VPage)
    requires SameViews(s0, s2, {}) && SameViews(s2, s, {w}) && View(s, w) == View(s2, v)
    requires w !in s0.pt && w.t in s0.org && View(s0, v) == Some(s0.org[w.t](w.k, w.j))
    ensures SameViews(s0, s, {})
  {
    UntouchedView(s0, w);
    hide View;
    forall u ensures View(s, u) == View(s0, u) {
      if u != w { assert View(s, u) == View(s2, u) == View(s0, u); }
    }
  }

  /** Entering the page that backs v does not change what the task reads there. */
  lemma ReloadedViews(s0: Space, s1: Space, s2: Space, v: VPage)
    requires SameViews(s0, s1, {}) && SameViews(s1, s2, {v}) && View(s2, v) == View(s0, v)
    ensures SameViews(s0, s2, {})
  {
    hide View;
    forall u ensures View(s2, u) == View(s0, u) {
      if u != v { assert View(s2, u) == View(s1, u) == View(s0, u); }
    }
  }

  /** Tasks that run the same file have the same backing for its pages. */
  lemma SameFileSamePage(files: map<nat, Image>, a: Prog, b: Prog, k: nat, j: nat)
    requires if k < LIBRARY_DIR then a.exe == b.exe else a.lib == b.lib
    ensures ProgPage(files, a, k, j) == ProgPage(files, b, k, j)
  {
  }

  lemma ViewIsPlaced(s: Space, v: VPage)
    requires Inv(s) && v in s.pt
    ensures View(s, v).Some?
  {
    EntryIsPlaced(s, v);
  }

  lemma SharedFull(s: Space, s': Space, v: VPage, w: VPage)
    requires FullViews(s) && SameViews(s, s', {w}) && View(s, v).Some? && View(s', w) == View(s, v)
    ensures FullViews(s')
  {
    hide View;
    assert |View(s, v).value| == PAGE_SIZE;
  }

  lemma EntryNeedsTable(s: Space, v: VPage)
    requires Inv(s)
    ensures v.Dir() !in s.dirs ==> v !in s.pt
  {
  }

  lemma ReadView(s: Space, v: VPage)
    requires v in s.pt && s.pt[v].Present? && s.pt[v].frame in s.data && v.t in s.org
    ensures View(s, v) == Some(s.data[s.pt[v].frame])
  {
  }

  lemma SameViewAt(s: Space, s': Space, v: VPage)
    requires SameViews(s, s', {})
    ensures View(s', v) == View(s, v)
  {
  }

  lemma RwIsSole(s: Space, v: VPage)
    requires Inv(s) && v in s.pt && s.pt[v].Present? && s.pt[v].rw
    ensures LOW <= s.pt[v].frame && Refs(s.pt, s.pt[v].frame) == {v}
  {
    hide Counted, HeldApart, InTables, TablesPlaced, FramesPlaced;
    hide TablesApart, CleanIsBacked, SlotsOwned, WriteExclusive;
    WritableIsSole(s, v);
  }

  lemma OneIsSole(s: Space, v: VPage)
    requires Inv(s) && v in s.pt && s.pt[v].Present? && s.pt[v].frame in s.pool && s.memMap[s.pt[v].frame] == 1
    ensures Refs(s.pt, s.pt[v].frame) == {v}
  {
    hide Counted, HeldApart, InTables, TablesPlaced, FramesPlaced;
    hide TablesApart, CleanIsBacked, SlotsOwned, WriteExclusive;
    assert v in Refs(s.pt, s.pt[v].frame);
    SoleMapping(s, v, s.pt[v].frame);
  }

  lemma OffsetAligned(k: nat, j: nat)
    ensures Offset(k, j) % BLOCK_SIZE == 0
  {
    assert Offset(k, j) == ((k * ENTRIES + j) * 4) * BLOCK_SIZE;
  }

  lemma NoFilePage(files: map<nat, Image>, p: Prog, k: nat, j: nat)
    requires FilesKnown(files, p)
    requires k >= LIBRARY_DIR ==> p.lib.None?
    requires k < LIBRARY_DIR && p.exe.Some? ==> Offset(k, j) >= files[p.exe.value].endData
    ensures ProgPage(files, p, k, j) == ZeroPage()
  {
  }

  /** What do_no_page loads is what backs the page. */
  lemma LoadedPage(files: map<nat, Image>, p: Prog, k: nat, j: nat, page: Page)
    requires FilesKnown(files, p) && |page| == PAGE_SIZE && k < DIRS_PER_TASK
    requires if k >= LIBRARY_DIR then p.lib.Some? else p.exe.Some? && Offset(k, j) < files[p.exe.value].endData
    requires
      var endData := if p.exe.Some? then files[p.exe.value].endData else 0;
      var img := files[if k >= LIBRARY_DIR then p.lib.value else p.exe.value];
      var base := if k >= LIBRARY_DIR then Offset(k - LIBRARY_DIR, j) else Offset(k, j);
      forall o :: 0 <= o < PAGE_SIZE ==>
        page[o] == if Offset(k, j) >= endData || Offset(k, j) + o < endData then ByteAt(img, base + o) else 0
    ensures page == ProgPage(files, p, k, j)
  {
    if k >= LIBRARY_DIR { assert Offset(k, j) >= Offset(LIBRARY_DIR, 0); }
    assert |ProgPage(files, p, k, j)| == PAGE_SIZE;
    hide ByteAt;
  }

  function CopyAndStoreTables(m: Tables, s: Space, v: VPage, f: nat, page: Page): Tables
    requires v in s.pt && s.pt[v].Present? && v.Dir() in s.dirs && s.dirs[v.Dir()] != f
    requires s.dirs[v.Dir()] in m.phys && m.phys[s.dirs[v.Dir()]].Table? && v.j < |m.phys[s.dirs[v.Dir()]].row|
  {
    var g := s.pt[v].frame;
    var m1 := SetEntry(m.(phys := m.phys[f := Data(page)]), s.dirs[v.Dir()], v.j, Some(Present(f, true, true)));
    if LOW <= g < LOW + |m.mm| then m1.(mm := m.mm[g - LOW := m.mm[g - LOW] - 1]) else m1
  }

  lemma CopyAndStoreTied(m: Tables, s: Space, files: map<nat, Image>, v: VPage, f: nat, page: Page)
    requires Inv(s) && Tied(m, s, files) && v in s.pt && s.pt[v].Present? && f in s.held
    ensures v.Dir() in s.dirs && s.dirs[v.Dir()] != f
    ensures s.dirs[v.Dir()] in m.phys && m.phys[s.dirs[v.Dir()]].Table? && v.j < |m.phys[s.dirs[v.Dir()]].row|
    ensures Tied(CopyAndStoreTables(m, s, v, f, page), CopyAndStore(s, v, f, page), files)
  {
    hide Inv, DirTie, TableTie, DataTie, ProgTie, KernelTie, CountTie, BitTie, View, SameViews;
    EntryIsPlaced(s, v);
    ReadEntry(m, s, files, v);
    TableNotHeld(s, v.Dir(), f);
    var s1, m1 := Fill(s, f, page), m.(phys := m.phys[f := Data(page)]);
    FillKeeps(s, f, page);
    FillTied(m, s, files, f, page);
    DetachKeeps(s1, v);
    DetachTied(m1, s1, files, v);
    var s2, m2 := Detach(s1, v), ClearEntry(m1, s1, v);
    SetTwice(m1, s.dirs[v.Dir()], v.j, None, Some(Present(f, true, true)));
    AttachTied(m2, s2, files, v, f, true, true);
    assert SetEntry(m2, s2.dirs[v.Dir()], v.j, Some(Present(f, true, true))) == CopyAndStoreTables(m, s, v, f, page);
  }

  /** Copying a table towards page w: nobody's view changes except w's, and no other page comes up. */
  ghost predicate Copying(s: Space, s': Space, w: VPage) {
    && s'.pool == s.pool && s'.dirs == s.dirs && s'.org == s.org && s'.held == s.held
    && (forall u :: u !in s.pt && u != w ==> u !in s'.pt)
    && SameViews(s, s', {w})
  }

  lemma SameViewsWeaken(s: Space, s': Space, w: VPage)
    requires SameViews(s, s', {})
    ensures SameViews(s, s', {w})
  {
  }

  function HandOverTables(m: Tables, s: Space, v: VPage, w: VPage, f: nat): Tables
    requires v in s.pt && s.pt[v].Swapped? && v.Dir() in s.dirs && w.Dir() in s.dirs && s.pt[v].slot in s.swap
    requires s.dirs[v.Dir()] in m.phys && m.phys[s.dirs[v.Dir()]].Table? && v.j < |m.phys[s.dirs[v.Dir()]].row|
    requires s.dirs[w.Dir()] in m.phys && m.phys[s.dirs[w.Dir()]].Table? && w.j < |m.phys[s.dirs[w.Dir()]].row|
    requires s.dirs[v.Dir()] != f && s.dirs[w.Dir()] != f
  {
    var m1 := m.(phys := m.phys[f := Data(s.swap[s.pt[v].slot])]);
    var m2 := SetEntry(m1, s.dirs[w.Dir()], w.j, Some(s.pt[v]));
    SetEntry(m2, s.dirs[v.Dir()], v.j, Some(Present(f, true, true)))
  }

  /** Two stores into tables commute unless they hit the same word. */
  lemma SetSwap(m: Tables, f: nat, i: nat, a: Option<Pte>, g: nat, j: nat, b: Option<Pte>)
    requires f in m.phys && m.phys[f].Table? && i < |m.phys[f].row|
    requires g in m.phys && m.phys[g].Table? && j < |m.phys[g].row|
    requires f != g || i != j
    ensures SetEntry(SetEntry(m, f, i, a), g, j, b) == SetEntry(SetEntry(m, g, j, b), f, i, a)
  {
    var l, r := SetEntry(SetEntry(m, f, i, a), g, j, b), SetEntry(SetEntry(m, g, j, b), f, i, a);
    if f == g {
      assert m.phys[f].row[i := a][j := b] == m.phys[f].row[j := b][i := a];
    }
    assert l.phys == r.phys;
  }

  lemma BitsBack(bitmap: seq<bool>, n: nat)
    requires n < |bitmap| && !bitmap[n]
    ensures bitmap[n := true][n := false] == bitmap
  {
  }

  lemma SlotTaken(m: Tables, s: Space, files: map<nat, Image>, n: nat)
    requires Tied(m, s, files) && n in s.slots && n !in s.bits
    ensures 0 < n < |m.bitmap| == SWAP_BITS && !m.bitmap[n]
  {
  }

  lemma TablesDiffer(s: Space, v: VPage, w: VPage)
    requires Inv(s) && v.Dir() in s.dirs && w.Dir() in s.dirs && v.Dir() != w.Dir()
    ensures s.dirs[v.Dir()] != s.dirs[w.Dir()]
  {
  }

  lemma HandOverTied(m: Tables, s: Space, files: map<nat, Image>, v: VPage, w: VPage, f: nat)
    requires Inv(s) && Tied(m, s, files) && v in s.pt && s.pt[v].Swapped? && f in s.held
    requires w !in s.pt && w.Dir() in s.dirs && w.j < ENTRIES && w.t in s.org
    ensures v.Dir() in s.dirs && s.pt[v].slot in s.swap
    ensures s.dirs[v.Dir()] in m.phys && m.phys[s.dirs[v.Dir()]].Table? && v.j < |m.phys[s.dirs[v.Dir()]].row|
    ensures s.dirs[w.Dir()] in m.phys && m.phys[s.dirs[w.Dir()]].Table? && w.j < |m.phys[s.dirs[w.Dir()]].row|
    ensures s.dirs[v.Dir()] != f && s.dirs[w.Dir()] != f
    ensures Tied(HandOverTables(m, s, v, w, f), HandOver(s, v, w, f), files)
  {
    hide Inv, DirTie, TableTie, DataTie, ProgTie, KernelTie, CountTie, BitTie, View, SameViews;
    EntryIsPlaced(s, v);
    ReadEntry(m, s, files, v);
    ReadEntry(m, s, files, w);
    TableNotHeld(s, v.Dir(), f);
    TableNotHeld(s, w.Dir(), f);
    var n := s.pt[v].slot;
    SlotTaken(m, s, files, n);
    var s1, m1 := Fill(s, f, s.swap[n]), m.(phys := m.phys[f := Data(s.swap[n])]);
    FillKeeps(s, f, s.swap[n]);
    FillTied(m, s, files, f, s.swap[n]);
    DetachKeeps(s1, v);
    DetachTied(m1, s1, files, v);
    var s2, m2 := Detach(s1, v), ClearEntry(m1, s1, v);
    AttachSlotKeeps(s2, w, n);
    AttachSlotTied(m2, s2, files, w, n);
    var s3 := AttachSlot(s2, w, n);
    var m3 := SetEntry(m2, s.dirs[w.Dir()], w.j, Some(Swapped(n))).(bitmap := m2.bitmap[n := false]);
    AttachTied(m3, s3, files, v, f, true, true);
    if v.Dir() != w.Dir() { TablesDiffer(s, v, w); }
    HandOverSame(m, m1, s, v, w, f);
  }

  lemma HandOverSame(m: Tables, m1: Tables, s: Space, v: VPage, w: VPage, f: nat)
    requires v in s.pt && s.pt[v].Swapped? && v.Dir() in s.dirs && w.Dir() in s.dirs && s.pt[v].slot in s.swap
    requires s.dirs[v.Dir()] in m.phys && m.phys[s.dirs[v.Dir()]].Table? && v.j < |m.phys[s.dirs[v.Dir()]].row|
    requires s.dirs[w.Dir()] in m.phys && m.phys[s.dirs[w.Dir()]].Table? && w.j < |m.phys[s.dirs[w.Dir()]].row|
    requires s.dirs[v.Dir()] != f && s.dirs[w.Dir()] != f && v != w
    requires s.dirs[v.Dir()] == s.dirs[w.Dir()] ==> v.Dir() == w.Dir()
    requires s.pt[v].slot < |m.bitmap| && !m.bitmap[s.pt[v].slot]
    requires m1 == m.(phys := m.phys[f := Data(s.swap[s.pt[v].slot])])
    ensures
      var n := s.pt[v].slot;
      var tv, tw := s.dirs[v.Dir()], s.dirs[w.Dir()];
      var m2 := SetEntry(m1, tv, v.j, None).(bitmap := m1.bitmap[n := true]);
      var m3 := SetEntry(m2, tw, w.j, Some(Swapped(n))).(bitmap := m2.bitmap[n := false]);
      SetEntry(m3, tv, v.j, Some(Present(f, true, true))) == HandOverTables(m, s, v, w, f)
  {
    var n := s.pt[v].slot;
    var tv, tw := s.dirs[v.Dir()], s.dirs[w.Dir()];
    BitsBack(m.bitmap, n);
    assert tv == tw ==> v.j != w.j;
    SetSwap(m1, tv, v.j, None, tw, w.j, Some(Swapped(n)));
    SetTwice(SetEntry(m1, tw, w.j, Some(Swapped(n))), tv, v.j, None, Some(Present(f, true, true)));
  }

  /** Everything that does not belong to task c is as it was. */
  ghost predicate OnlyTask(s: Space, s': Space, c: nat) {
    && s'.pool == s.pool && s'.org == s.org && s'.held == s.held
    && (forall d: DirSlot :: d.t != c ==> (d in s'.dirs <==> d in s.dirs))
    && (forall v: VPage :: v.t != c ==> View(s', v) == View(s, v))
  }

  ghost predicate SameOrigins(s: Space, p: nat, c: nat) {
    p in s.org && c in s.org && forall k, j :: s.org[c](k, j) == s.org[p](k, j)
  }

  ghost predicate TablesBelow(s: Space, t: nat, n: nat) {
    forall d :: d in s.dirs && d.t == t ==> d.k < n
  }

  /** Task c reads, before entry j of table k, what task p read in s0. */
  ghost predicate Copied(s0: Space, s: Space, p: nat, c: nat, k: nat, j: nat) {
    forall i: nat, q: nat :: i < k || (i == k && q < j) ==> View(s, VPage(c, i, q)) == View(s0, VPage(p, i, q))
  }

  ghost predicate RowEmptyFrom(s: Space, t: nat, k: nat, j: nat) {
    forall q :: j <= q ==> VPage(t, k, q) !in s.pt
  }

  lemma TasksInRange(m: Tables, s: Space, files: map<nat, Image>)
    requires Tied(m, s, files)
    ensures forall t :: t in s.org ==> 1 <= t < TASKS
  {
  }

  lemma UnmappedView(s: Space, v: VPage)
    requires Inv(s) && v.t in s.org && v.Dir() !in s.dirs
    ensures View(s, v) == Some(s.org[v.t](v.k, v.j))
  {
    EntryNeedsTable(s, v);
  }

  lemma BeyondTable(s: Space, v: VPage)
    requires Inv(s) && v.j >= ENTRIES
    ensures v !in s.pt
  {
  }

  lemma NothingToCopy(s0: Space, s: Space, p: nat, c: nat, k: nat)
    requires Inv(s) && OnlyTask(s0, s, c) && Copied(s0, s, p, c, k, 0) && SameOrigins(s, p, c) && p != c
    requires DirSlot(p, k) !in s.dirs && DirSlot(c, k) !in s.dirs
    ensures Copied(s0, s, p, c, k + 1, 0)
  {
    hide Inv;
    forall i: nat, q: nat | i < k + 1 ensures View(s, VPage(c, i, q)) == View(s0, VPage(p, i, q)) {
      if i == k {
        UnmappedView(s, VPage(c, i, q));
        UnmappedView(s, VPage(p, i, q));
      }
    }
  }

  lemma ReclaimedOnly(s0: Space, s1: Space, s2: Space, c: nat)
    requires OnlyTask(s0, s1, c) && Reclaimed(s1, s2) && s2.held == s1.held
    ensures OnlyTask(s0, s2, c)
  {
    hide View;
  }

  lemma InstalledOnly(s0: Space, s1: Space, s2: Space, s3: Space, p: nat, c: nat, k: nat)
    requires OnlyTask(s0, s1, c) && Copied(s0, s1, p, c, k, 0) && TablesBelow(s1, c, k) && p != c
    requires Inv(s1) && Reclaimed(s1, s2) && s2.held > s1.held
    requires SameViews(s2, s3, {}) && s3.held == s1.held && s3.pool == s2.pool && s3.org == s2.org && s3.pt == s2.pt
    requires s3.dirs.Keys == s2.dirs.Keys + {DirSlot(c, k)}
    ensures OnlyTask(s0, s3, c) && Copied(s0, s3, p, c, k, 0) && TablesBelow(s3, c, k + 1) && RowEmptyFrom(s3, c, k, 0)
  {
    forall j: nat ensures VPage(c, k, j) !in s1.pt { EntryNeedsTable(s1, VPage(c, k, j)); }
    hide View, Inv;
  }

  lemma CopiedOnly(s0: Space, s3: Space, s4: Space, p: nat, w: VPage, ok: bool)
    requires OnlyTask(s0, s3, w.t) && Copying(s3, s4, w) && p != w.t
    requires Copied(s0, s3, p, w.t, w.k, w.j) && RowEmptyFrom(s3, w.t, w.k, w.j)
    requires ok ==> View(s4, w) == View(s3, VPage(p, w.k, w.j))
    ensures OnlyTask(s0, s4, w.t) && RowEmptyFrom(s4, w.t, w.k, w.j + 1)
    ensures ok ==> Copied(s0, s4, p, w.t, w.k, w.j + 1)
  {
    hide View;
  }

  lemma RowCopied(s0: Space, s: Space, p: nat, c: nat, k: nat)
    requires Inv(s) && OnlyTask(s0, s, c) && Copied(s0, s, p, c, k, ENTRIES) && SameOrigins(s, p, c) && p != c
    ensures Copied(s0, s, p, c, k + 1, 0)
  {
    hide Inv;
    forall i: nat, q: nat | i < k + 1 ensures View(s, VPage(c, i, q)) == View(s0, VPage(p, i, q)) {
      if i == k && q >= ENTRIES {
        BeyondTable(s, VPage(c, i, q));
        BeyondTable(s, VPage(p, i, q));
        UntouchedView(s, VPage(c, i, q));
        UntouchedView(s, VPage(p, i, q));
      }
    }
  }

  lemma OriginFull(m: Tables, s: Space, files: map<nat, Image>, v: VPage)
    requires Tied(m, s, files) && v.t in s.org && v !in s.pt
    ensures View(s, v).Some? && |View(s, v).value| == PAGE_SIZE
  {
    hide DirTie, CountTie, TableTie, DataTie, BitTie, KernelTie;
    assert s.org[v.t](v.k, v.j) == ProgPage(files, m.prog[v.t], v.k, v.j);
    hide ProgTie;
  }

  lemma DirInRange(s: Space, d: DirSlot)
    requires Inv(s) && d in s.dirs
    ensures d.k < DIRS_PER_TASK && d.t in s.org
  {
  }

  lemma FreshTask(m: Tables, s: Space, files: map<nat, Image>, c: nat)
    requires Inv(s) && Tied(m, s, files) && c !in m.prog
    ensures c !in s.org && TablesBelow(s, c, 0)
    ensures forall v: VPage :: v.t == c ==> View(s, v) == None
  {
    hide DirTie, CountTie, TableTie, DataTie, BitTie, KernelTie;
    forall d | d in s.dirs ensures d.t != c { DirInRange(s, d); }
  }

  lemma ProgramFull(s: Space, s': Space, t: nat, p: Prog, files: map<nat, Image>)
    requires FullViews(s)
    requires forall v: VPage :: v.t != t ==> View(s', v) == View(s, v)
    requires forall v: VPage :: v.t == t ==> View(s', v) == Some(ProgPage(files, p, v.k, v.j))
    ensures FullViews(s')
  {
    hide View;
  }

  lemma NoTablesLeft(s: Space, t: nat)
    requires Inv(s) && forall d: DirSlot :: d.t == t && 0 <= d.k < DIRS_PER_TASK ==> d !in s.dirs
    ensures TablesBelow(s, t, 0)
  {
    hide Inv;
    forall d | d in s.dirs ensures d.t != t { DirInRange(s, d); }
  }

  /** What a child of task 0 reads: the kernel's first pages, and zeroes. */
  function KernelPage(kernel: seq<Page>, k: nat, j: nat): Page {
    if k == 0 && j < |kernel| then kernel[j] else ZeroPage()
  }

  /** The first 160 pages are the kernel's, all others zeroes. */
  lemma KernelPageIs(m: Tables, s: Space, files: map<nat, Image>, k: nat, j: nat, o: nat)
    requires Tied(m, s, files) && o < 4096
    ensures |m.kernel| == 160 && |KernelPage(m.kernel, k, j)| == 4096
    ensures KernelPage(m.kernel, k, j)[o] == if k == 0 && j < 160 then m.kernel[j][o] else 0
  {
    hide DirTie, CountTie, TableTie, DataTie, BitTie, ProgTie;
  }

  ghost predicate KernelCopied(kernel: seq<Page>, s: Space, c: nat, n: nat) {
    forall k: nat, j: nat :: View(s, VPage(c, k, j)) ==
      Some(if k == 0 && j < n then KernelPage(kernel, k, j) else ZeroPage())
  }

  lemma NoProgram(files: map<nat, Image>)
    ensures FilesKnown(files, Prog(None, None))
    ensures forall k: nat, j: nat :: ProgPage(files, Prog(None, None), k, j) == ZeroPage()
  {
  }

  lemma KernelRowStart(s2: Space, s3: Space, s4: Space, c: nat, files: map<nat, Image>, kernel: seq<Page>)
    requires Inv(s2) && TablesBelow(s2, c, 0) && Reclaimed(s2, s3) && SameViews(s3, s4, {}) && s4.held == s2.held
    requires s4.pool == s3.pool && s4.org == s3.org && s4.pt == s3.pt && s4.dirs.Keys == s3.dirs.Keys + {DirSlot(c, 0)}
    requires forall v: VPage :: v.t == c ==> View(s2, v) == Some(ZeroPage())
    ensures OnlyTask(s2, s4, c) && KernelCopied(kernel, s4, c, 0) && RowEmptyFrom(s4, c, 0, 0)
  {
    forall j: nat ensures VPage(c, 0, j) !in s2.pt { EntryNeedsTable(s2, VPage(c, 0, j)); }
    hide View, Inv;
  }

  lemma KernelStep(kernel: seq<Page>, s2: Space, s: Space, s': Space, w: VPage)
    requires OnlyTask(s2, s, w.t) && KernelCopied(kernel, s, w.t, w.j) && RowEmptyFrom(s, w.t, 0, w.j)
    requires w.k == 0 && w.j < |kernel| && SameViews(s, s', {w}) && View(s', w) == Some(kernel[w.j])
    requires s'.pool == s.pool && s'.org == s.org && s'.held == s.held && s'.dirs == s.dirs
             && s'.pt.Keys == s.pt.Keys + {w}
    ensures OnlyTask(s2, s', w.t) && KernelCopied(kernel, s', w.t, w.j + 1) && RowEmptyFrom(s', w.t, 0, w.j + 1)
  {
    hide View;
  }

  lemma KernelWhole(m: Tables, s: Space, files: map<nat, Image>, c: nat)
    requires Tied(m, s, files) && KernelCopied(m.kernel, s, c, KERNEL_ENTRIES)
    ensures forall k: nat, j: nat :: View(s, VPage(c, k, j)) == Some(KernelPage(m.kernel, k, j))
  {
    hide DirTie, CountTie, TableTie, DataTie, BitTie, ProgTie, View;
  }

  const USED: int := 100
  const KERNEL_TABLE: nat := 200

  function KernelRow(): seq<Option<Pte>> {
    seq(ENTRIES, (j: nat) => Some(Present(j, true, false)))
  }

  predicate Between(start: nat, f: nat, end: nat) { start <= f < end }

  /** The address spaces at start-up: no task, every managed frame and swap slot free. */
  function StartSpace(start: nat, end: nat, slots: set<nat>, kernel: seq<Page>): Space {
    var pool := set f: nat | start <= f < end && Between(start, f, end);
    Space(pool, map[], map[], map f | f in pool :: 0, {}, map j: nat | j < |kernel| :: kernel[j], slots, slots, map[],
      map[])
  }

  lemma StartKeeps(start: nat, end: nat, slots: set<nat>, kernel: seq<Page>)
    requires LOW <= start && 0 !in slots
    ensures Inv(StartSpace(start, end, slots, kernel))
    ensures FullViews(StartSpace(start, end, slots, kernel))
  {
    var s := StartSpace(start, end, slots, kernel);
    forall f | f in s.pool ensures Holders(s.pt, s.dirs, s.held, f) == 0 {
      assert Refs(s.pt, f) == {} && DirRefs(s.dirs, f) == {};
    }
  }

  function StartTables(start: nat, end: nat, slots: set<nat>, kernel: seq<Page>): Tables
    requires |kernel| == KERNEL_ENTRIES && LOW <= start <= end
  {
    Tables(
      seq(NR_DIR, i => if i == 0 then Some(KERNEL_TABLE) else None),
      seq(PAGES, i => if start - LOW <= i < end - LOW then 0 else USED),
      (map j: nat | j < KERNEL_ENTRIES :: Data(kernel[j]))[KERNEL_TABLE := Table(KernelRow())],
      seq(SWAP_BITS, i => i in slots),
      map[], map[], kernel)
  }

  lemma StartTied(start: nat, end: nat, slots: set<nat>, kernel: seq<Page>, files: map<nat, Image>)
    requires LOW <= start <= end <= LOW + PAGES
    requires forall n :: n in slots ==> 1 <= n < SWAP_BITS
    requires |kernel| == KERNEL_ENTRIES && forall j :: 0 <= j < KERNEL_ENTRIES ==> |kernel[j]| == PAGE_SIZE
    ensures Tied(StartTables(start, end, slots, kernel), StartSpace(start, end, slots, kernel), files)
  {
    var m, s := StartTables(start, end, slots, kernel), StartSpace(start, end, slots, kernel);
    assert DirTie(m.dir, s.dirs);
    assert CountTie(m.mm, s.pool, s.memMap);
    assert KernelTie(m.dir, m.phys, s.data, kernel);
  }

  // ----- What the invariant says about the tables themselves

  /** Each mem_map byte of a managed frame is the number of its holders, and cannot wrap. */
  lemma MemMapExact(m: Tables, s: Space, files: map<nat, Image>, f: nat)
    requires Inv(s) && Tied(m, s, files) && f in s.pool
    ensures LOW <= f < LOW + |m.mm|
    ensures m.mm[f - LOW] == Holders(s.pt, s.dirs, s.held, f) <= TASKS
    ensures 0x10_0000 <= f * 4096 < 0x100_0000 && (f * 4096 - 0x10_0000) / 4096 == f - LOW
  {
    ReadCount(m, s, files, f);
    TasksInRange(m, s, files);
    CountFitsInByte(s, f);
  }

  /** A frame that some task can write has that mapping and no other holder. */
  lemma WritableCountsOne(s: Space, v: VPage)
    requires Inv(s) && v in s.pt && s.pt[v].Present? && s.pt[v].rw
    ensures s.pt[v].frame in s.pool && s.memMap[s.pt[v].frame] == 1
  {
    RwIsSole(s, v);
    DetachFrame(s, v);
    assert DirRefs(s.dirs, s.pt[v].frame) == {};
  }

  /** A swap slot in use is named by one table entry. */
  lemma SlotHasOneOwner(m: Tables, s: Space, files: map<nat, Image>, n: nat)
    requires Inv(s) && Tied(m, s, files) && n in s.slots
    ensures n < |m.bitmap|
    ensures !m.bitmap[n] <==> exists v :: Owns(s.pt, v, n)
    ensures forall v, w :: Owns(s.pt, v, n) && Owns(s.pt, w, n) ==> v == w
  {
    hide DirTie, CountTie, TableTie, DataTie, ProgTie, KernelTie;
    hide Counted, HeldApart, InTables, TablesPlaced, FramesPlaced, TablesApart, WriteExclusive, CleanIsBacked;
  }

  // ----- What the hardware finds at a linear address

  /** Each task has 64 Mb of linear addresses, sixteen directory entries of 1024 pages. */
  lemma LinearAddress(a: nat)
    requires a < 0x1_0000_0000
    ensures a / 0x0400_0000 < 64 && DirIndex(DirSlot(a / 0x0400_0000, a / 0x0040_0000 % 16)) == a / 0x0040_0000 < 1024
  {
  }

  /** A page-table word leads to what the task is said to read: by no entry if it never wrote it, a frame, or a slot. */
  ghost predicate WordLeads(m: Tables, s: Space, v: VPage, word: Option<Pte>) {
    match word
    case None => v.t in s.org && View(s, v) == Some(s.org[v.t](v.k, v.j))
    case Some(Present(f, _, _)) => f in m.phys && View(s, v).Some? && m.phys[f] == Data(View(s, v).value)
    case Some(Swapped(n)) => n in m.swap && View(s, v) == Some(m.swap[n])
  }

  /** Going through directory and page table as the hardware does, from the address, leads there. */
  lemma HardwareReads(m: Tables, s: Space, files: map<nat, Image>, a: nat)
    requires Inv(s) && Tied(m, s, files) && 0x0400_0000 <= a < 0x1_0000_0000 && a / 0x0400_0000 in s.org
    ensures a / 0x0040_0000 < |m.dir|
    ensures m.dir[a / 0x0040_0000].None? ==>
              WordLeads(m, s, VPage(a / 0x0400_0000, a / 0x0040_0000 % 16, a / 0x1000 % 1024), None)
    ensures m.dir[a / 0x0040_0000].Some? ==>
              var table := m.dir[a / 0x0040_0000].value;
              && table in m.phys && m.phys[table].Table? && |m.phys[table].row| == 1024
              && WordLeads(m, s, VPage(a / 0x0400_0000, a / 0x0040_0000 % 16, a / 0x1000 % 1024),
                   m.phys[table].row[a / 0x1000 % 1024])
  {
    hide Counted, HeldApart, WriteExclusive, CleanIsBacked, TablesApart, TablesPlaced;
    LinearAddress(a);
    var v := VPage(a / 0x0400_0000, a / 0x0040_0000 % 16, a / 0x1000 % 1024);
    ReadDir(m, s, files, v.Dir());
    hide Tied;
    if v.Dir() in s.dirs { ReadEntry(m, s, files, v); }
    if v in s.pt && s.pt[v].Present? { ReadFrame(m, s, files, v); }
    SwapIsTied(m, s, files);
    assert v in s.pt && s.pt[v].Swapped? ==> Owns(s.pt, v, s.pt[v].slot);
    assert v in s.pt ==> v.Dir() in s.dirs;
  }

  lemma SwapIsTied(m: Tables, s: Space, files: map<nat, Image>)
    requires Tied(m, s, files)
    ensures m.swap == s.swap
  {
  }
}
