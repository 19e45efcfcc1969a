/**
  un_wp_page and try_to_share read a table entry and then call get_free_page, which may evict
  the very page of that entry.  Here both are run with the walk of swap_out that get_free_page
  makes, and it is shown when they go wrong: exactly if the walk evicts that page.
 */
module LateReclaim {
  import opened Common
  import opened AddressSpace
  import opened Paging
  import opened Program
  import opened Machine
  import opened Growth
  import opened MemoryFacts
  import opened SwapWalk
  import opened Evictions
  import opened Shortage
  import opened Memory

  /** get_free_page, called now, evicts page v before a frame is free. */
  ghost predicate WillEvict(s: Space, d: int, pe: int, v: VPage)
    requires InRing(d)
  {
    exists vs :: Reclaims(s, d, pe, vs) && v in vs
  }

  lemma EvictsIff(s: Space, d: int, pe: int, v: VPage, vs: seq<VPage>)
    requires InRing(d) && Reclaims(s, d, pe, vs)
    ensures WillEvict(s, d, pe, v) <==> v in vs
  {
    hide Reclaims;
    if ws :| Reclaims(s, d, pe, ws) && v in ws { OneReclaim(s, d, pe, vs, ws); }
  }

  // ----- mem_map holds unsigned bytes

  function OneLess(n: nat): nat { (n + 255) % 256 }

  function OneMore(n: nat): nat { (n + 1) % 256 }

  lemma BytesChange(n: nat)
    ensures OneLess(n) != n && OneMore(n) != n
    ensures 0 < n < 256 ==> OneLess(n) == n - 1
    ensures n < 255 ==> OneMore(n) == n + 1
  {
  }

  function SetCount(s: Space, f: nat, n: nat): Space { s.(memMap := s.memMap[f := n]) }

  lemma CountTied(m: Tables, s: Space, files: map<nat, Image>, f: nat, n: nat)
    requires Tied(m, s, files) && f in s.pool
    ensures LOW <= f < LOW + |m.mm| && Tied(m.(mm := m.mm[f - LOW := n]), SetCount(s, f, n), files)
  {
    hide DirTie, TableTie, DataTie, BitTie, ProgTie, KernelTie;
    CountAfterSet(m.mm, s.pool, s.memMap, f, n);
  }

  /** A wrong count breaks the invariant. */
  lemma Miscounted(s: Space, f: nat, n: nat)
    requires Inv(s) && f in s.pool && n != s.memMap[f]
    ensures !Inv(SetCount(s, f, n))
  {
    assert s.memMap[f] == Holders(s.pt, s.dirs, s.held, f);
    var s' := SetCount(s, f, n);
    assert s'.memMap[f] != Holders(s'.pt, s'.dirs, s'.held, f);
    assert !Counted(s'.pool, s'.memMap, s'.pt, s'.dirs, s'.held);
  }

  // ----- un_wp_page

  /**
    The end of un_wp_page and the store that is retried: page v gets frame r with its new contents, and the
    count of the frame g that it had before goes down.
   */
  function Unshared(s: Space, v: VPage, g: nat, r: nat, page: Page): Space {
    var s1 := s.(data := s.data[r := page], pt := s.pt[v := Present(r, true, true)], held := s.held - {r});
    if g in s.pool && g in s.memMap then SetCount(s1, g, OneLess(s.memMap[g])) else s1
  }

  lemma UnsharedWell(s: Space, v: VPage, g: nat, r: nat, page: Page)
    requires Inv(s) && v in s.pt && s.pt[v].Present? && s.pt[v].frame == g && r in s.held
    requires forall t :: t in s.org ==> t < TASKS
    ensures Unshared(s, v, g, r, page) == CopyAndStore(s, v, r, page)
  {
    hide Inv, OneLess, Detach, CopyAndStore;
    DetachFrame(s, v);
    if g in s.pool {
      CountFitsInByte(s, g);
      BytesChange(s.memMap[g]);
    }
    EntryReplaced(s.pt, v, Present(r, true, true));
    Recounted(s, v, r, page);
  }

  lemma Recounted(s: Space, v: VPage, r: nat, page: Page)
    requires v in s.pt && s.pt[v].Present?
    requires s.pt[v].frame in s.pool ==> s.pt[v].frame in s.memMap && s.memMap[s.pt[v].frame] > 0
    ensures var f := s.pt[v].frame;
            CopyAndStore(s, v, r, page) == s.(
              data := s.data[r := page], pt := (s.pt - {v})[v := Present(r, true, true)], held := s.held - {r},
              memMap := if f in s.pool then s.memMap[f := s.memMap[f] - 1] else s.memMap)
  {
  }

  lemma EntryReplaced(pt: PageTable, v: VPage, e: Pte)
    requires v in pt
    ensures (pt - {v})[v := e] == pt[v := e]
  {
  }

  /** If the page had been evicted, its old frame is uncounted a second time. */
  lemma UnsharedBadly(s: Space, v: VPage, g: nat, r: nat, page: Page)
    requires Inv(s) && v !in s.pt && v.Dir() in s.dirs && v.j < ENTRIES && v.t in s.org && r in s.held && g in s.pool
    ensures !Inv(Unshared(s, v, g, r, page))
  {
    FillKeeps(s, r, page);
    var s1 := Fill(s, r, page);
    assert g in s.memMap;
    hide Inv;
    AttachKeeps(s1, v, r, true, true);
    BytesChange(s.memMap[g]);
    Miscounted(Attach(s1, v, r, true, true), g, OneLess(s.memMap[g]));
  }

  /** The tables after it. */
  function UnsharedTables(m: Tables, s: Space, v: VPage, g: nat, r: nat, page: Page): Tables
    requires v.Dir() in s.dirs && s.dirs[v.Dir()] != r
    requires s.dirs[v.Dir()] in m.phys && m.phys[s.dirs[v.Dir()]].Table? && v.j < |m.phys[s.dirs[v.Dir()]].row|
    requires LOW <= g < LOW + |m.mm| ==> m.mm[g - LOW] >= 0
  {
    var m1 := SetEntry(m.(phys := m.phys[r := Data(page)]), s.dirs[v.Dir()], v.j, Some(Present(r, true, true)));
    if LOW <= g < LOW + |m.mm| then m1.(mm := m.mm[g - LOW := OneLess(m.mm[g - LOW])]) else m1
  }

  lemma UnsharedTied(m: Tables, s: Space, files: map<nat, Image>, v: VPage, g: nat, r: nat, page: Page)
    requires Inv(s) && Tied(m, s, files) && v.Dir() in s.dirs && v.j < ENTRIES && v.t in s.org && r in s.held
    requires v in s.pt ==> s.pt[v].Present? && s.pt[v].frame == g
    requires g in s.pool <==> LOW <= g
    requires g in s.pool || v in s.pt
    ensures s.dirs[v.Dir()] != r
    ensures s.dirs[v.Dir()] in m.phys && m.phys[s.dirs[v.Dir()]].Table? && v.j < |m.phys[s.dirs[v.Dir()]].row|
    ensures LOW <= g < LOW + |m.mm| ==> m.mm[g - LOW] >= 0
    ensures Tied(UnsharedTables(m, s, v, g, r, page), Unshared(s, v, g, r, page), files)
  {
    hide Inv, DirTie, CountTie, TableTie, DataTie, BitTie, ProgTie, KernelTie;
    TableNotHeld(s, v.Dir(), r);
    ReadEntry(m, s, files, v);
    if g in s.pool { ReadCount(m, s, files, g); }
    TasksInRange(m, s, files);
    if v in s.pt {
      UnsharedWell(s, v, g, r, page);
      CopyAndStoreTied(m, s, files, v, r, page);
      DetachFrame(s, v);
      if g in s.pool {
        CountFitsInByte(s, g);
        BytesChange(s.memMap[g]);
      }
    } else {
      var m1, s1 := m.(phys := m.phys[r := Data(page)]), Fill(s, r, page);
      FillKeeps(s, r, page);
      FillTied(m, s, files, r, page);
      AttachTied(m1, s1, files, v, r, true, true);
      var m2 := SetEntry(m1, s.dirs[v.Dir()], v.j, Some(Present(r, true, true)));
      CountTied(m2, Attach(s1, v, r, true, true), files, g, OneLess(s.memMap[g]));
    }
  }

  /** What is in the old frame when it is copied; if it has become the new one, that has been cleared. */
  function Found(was: Page, g: nat, r: nat): Page { if g == r then ZeroPage() else was }

  /** The frame is one of the kernel's, or has other holders. */
  predicate NeedsCopy(s: Space, e: Pte) {
    e.Present? && (LOW <= e.frame ==> e.frame in s.memMap && s.memMap[e.frame] != 1)
  }

  /** The rest of un_wp_page, once get_free_page has returned a frame, and the store. */
  method TakeCopy(vm: Vm, v: VPage, oldPage: nat, newPage: nat, o: nat, b: int)
    requires vm.Valid() && newPage in vm.space.held
    requires UserDir(v.Dir()) && v.Dir() in vm.space.dirs && v.j < ENTRIES && v.t in vm.space.org
    requires v in vm.space.pt ==> vm.space.pt[v].Present? && vm.space.pt[v].frame == oldPage
    requires (oldPage in vm.space.pool <==> LOW <= oldPage) && (oldPage in vm.space.pool || v in vm.space.pt)
    requires oldPage in vm.phys && vm.phys[oldPage].Data? && o < |vm.phys[oldPage].page|
    modifies vm`phys, vm`space, vm.memMap
    ensures Tied(vm.T(), vm.space, vm.files)
    ensures vm.space == Unshared(old(vm.space), v, oldPage, newPage, old(vm.phys[oldPage]).page[o := b])
  {
    hide Inv, DirTie, CountTie, TableTie, DataTie, BitTie, ProgTie, KernelTie, FullViews, FilesKnown, Unshared;
    ghost var m, s := vm.T(), vm.space;
    ReadDir(m, s, vm.files, v.Dir());
    ReadEntry(m, s, vm.files, v);
    ghost var page := vm.phys[oldPage].page[o := b];
    UnsharedTied(m, s, vm.files, v, oldPage, newPage, page);
    var tab := vm.pgDir[DirIndex(v.Dir())].value;
    if oldPage >= LOW {
      ReadCount(m, s, vm.files, oldPage);
      vm.memMap[oldPage - LOW] := OneLess(vm.memMap[oldPage - LOW]);
    }
    vm.phys := vm.phys[newPage := Data(vm.phys[oldPage].page[o := b])];
    vm.phys := vm.phys[tab := Table(vm.phys[tab].row[v.j := Some(Present(newPage, true, true))])];
    vm.space := Unshared(s, v, oldPage, newPage, page);
    assert vm.T() == UnsharedTables(m, s, v, oldPage, newPage, page);
  }

  /**
    un_wp_page on a shared frame, with the walk that get_free_page makes, and the store of byte b at offset o.
    All counts stay right exactly if that walk does not evict the page; if it does, and the old frame itself
    becomes the new one, the contents of the page are lost.
   */
  method UnWpPage(vm: Vm, v: VPage, o: nat, b: int) returns (ok: bool)
    requires vm.Valid() && v in vm.space.pt && NeedsCopy(vm.space, vm.space.pt[v]) && UserDir(v.Dir()) && o < PAGE_SIZE
    modifies vm, vm.memMap, vm.swapMap
    ensures ok <==> !NoMemoryLeft(old(vm.space), old(vm.dirEntry), old(vm.pageEntry))
    ensures !ok ==> vm.Valid() && vm.space == old(vm.space)
    ensures var goes := WillEvict(old(vm.space), old(vm.dirEntry), old(vm.pageEntry), v);
            && (ok ==> Tied(vm.T(), vm.space, vm.files) && (Inv(vm.space) <==> !goes))
            && (ok && !goes ==>
                  && vm.Valid() && SameViews(old(vm.space), vm.space, {v}) && View(old(vm.space), v).Some?
                  && |View(old(vm.space), v).value| == PAGE_SIZE
                  && View(vm.space, v) == Some(View(old(vm.space), v).value[o := b]))
            && (ok && goes ==>
                  && v in vm.space.pt && vm.space.pt[v].Present? && View(old(vm.space), v).Some?
                  && var found := Found(View(old(vm.space), v).value, old(vm.space.pt[v].frame), vm.space.pt[v].frame);
                     |found| == PAGE_SIZE && View(vm.space, v) == Some(found[o := b]))
  {
    hide Inv, DirTie, CountTie, TableTie, DataTie, BitTie, ProgTie, KernelTie, View, SameViews, FullViews, FilesKnown;
    hide Reclaims, WillEvict, AfterEvicting, NothingToEvict, Thinned, NoDearer, Unshared;
    ghost var s0 := vm.space;
    EntryIsPlaced(s0, v);
    ReadDir(vm.T(), s0, vm.files, v.Dir());
    ReadEntry(vm.T(), s0, vm.files, v);
    ReadFrame(vm.T(), s0, vm.files, v);
    DetachFrame(s0, v);
    ReadView(s0, v);
    WholePage(s0, v);
    var tab := vm.pgDir[DirIndex(v.Dir())].value;
    var oldPage := vm.phys[tab].row[v.j].value.frame;
    ghost var was := vm.phys[oldPage].page;
    var newPage; ghost var evicted;
    newPage, evicted := vm.GetFreePage();
    if newPage == 0 { return false; }
    EvictsIff(s0, old(vm.dirEntry), old(vm.pageEntry), v, evicted);
    ghost var m, s := vm.T(), vm.space;
    AfterWalk(s0, s, old(vm.dirEntry), old(vm.pageEntry), v, evicted, newPage);
    HeldData(m, s, vm.files, newPage);
    assert vm.phys[oldPage] == Data(Found(was, oldPage, newPage));
    ghost var page := Found(was, oldPage, newPage)[o := b];
    TakeCopy(vm, v, oldPage, newPage, o, b);
    TasksInRange(m, s, vm.files);
    if v in evicted {
      UnsharedBadly(s, v, oldPage, newPage, page);
      NewView(s, v, oldPage, newPage, page);
    } else {
      EntryIsPlaced(s, v);
      UnsharedWell(s, v, oldPage, newPage, page);
      CopyAndStoreKeeps(s, v, newPage, page);
      SameViewsChain(s0, s, vm.space, {v});
      FullExcept(s0, vm.space, v);
    }
    return true;
  }

  lemma WholePage(s: Space, v: VPage)
    requires FullViews(s) && View(s, v).Some?
    ensures |View(s, v).value| == PAGE_SIZE
  {
    hide View;
  }

  lemma HeldData(m: Tables, s: Space, files: map<nat, Image>, f: nat)
    requires Tied(m, s, files) && f in s.held
    ensures Holds(m.phys, s.data, f)
  {
  }

  lemma NewView(s: Space, v: VPage, g: nat, r: nat, page: Page)
    requires v.t in s.org
    ensures var s' := Unshared(s, v, g, r, page);
            v in s'.pt && s'.pt[v] == Present(r, true, true) && View(s', v) == Some(page)
  {
  }

  /** After the walk the page is where it was, or it has gone from memory; then it was a clean one. */
  lemma AfterWalk(s0: Space, s: Space, d: int, pe: int, v: VPage, vs: seq<VPage>, r: nat)
    requires Inv(s0) && v in s0.pt && NeedsCopy(s0, s0.pt[v]) && InRing(d) && Inv(s)
    requires Reclaims(s0, d, pe, vs) && s == Alloc(AfterEvicting(s0, vs), r, ZeroPage()) && Reclaimed(s0, s)
    requires s.held == s0.held + {r} && r !in s0.held
    ensures v.Dir() in s.dirs && v.j < ENTRIES && v.t in s.org && (s0.pt[v].frame in s.pool <==> LOW <= s0.pt[v].frame)
    ensures v !in vs ==> v in s.pt && s.pt[v] == s0.pt[v]
    ensures v in vs ==> v !in s.pt && s0.pt[v].frame in s.pool
  {
    EntryIsPlaced(s0, v);
    DetachFrame(s0, v);
    hide Inv, View, NoDearer, IsReclaim, AfterEvicting;
    PageAfter(s0, d, pe, vs, v);
  }

  /** A kernel frame, a dirty page, or any page while some frame is free, is safe. */
  lemma SafeToCopy(s: Space, d: int, pe: int, v: VPage)
    requires Inv(s) && InRing(d) && v in s.pt && (Fixed(s, v) || !NoneFree(s))
    ensures !WillEvict(s, d, pe, v)
  {
    hide Inv, Fixed, NoneFree, IsReclaim;
    if vs :| Reclaims(s, d, pe, vs) && v in vs {
      PrefixReclaims(s, d, pe, vs, 0);
      assert vs[..0] == [];
      PageAfter(s, d, pe, vs, v);
      DirtyOrLow(s, v);
    }
  }

  lemma DirtyOrLow(s: Space, v: VPage)
    requires Inv(s) && Fixed(s, v)
    ensures !Clean(s.pt[v])
  {
    DetachFrame(s, v);
  }

  // ----- try_to_share

  /**
    try_to_share where a page table is missing, with the walk that get_free_page makes for it.  All counts stay
    right exactly if that walk does not evict the page to be shared; if it does, no page is entered although
    the call reports success, and the frame that the page had is counted once too often.
   */
  method ShareMissing(vm: Vm, v: VPage, w: VPage) returns (ok: bool)
    requires vm.Valid() && Shareable(vm.space, v) && v.t != w.t && v.k == w.k && v.j == w.j && w.t in vm.space.org
    requires UserDir(v.Dir()) && UserDir(w.Dir()) && w.Dir() !in vm.space.dirs && w !in vm.space.pt
    requires v.t in vm.space.org && vm.space.org[w.t](w.k, w.j) == vm.space.org[v.t](v.k, v.j)
    modifies vm, vm.pgDir, vm.memMap, vm.swapMap
    ensures ok <==> !NoMemoryLeft(old(vm.space), old(vm.dirEntry), old(vm.pageEntry))
    ensures !ok ==> vm.Valid() && vm.space == old(vm.space)
    ensures var goes := WillEvict(old(vm.space), old(vm.dirEntry), old(vm.pageEntry), v);
            && (ok ==> Tied(vm.T(), vm.space, vm.files) && (Inv(vm.space) <==> !goes))
            && (ok && !goes ==>
                  && vm.Valid() && SameViews(old(vm.space), vm.space, {w})
                  && View(vm.space, w) == View(old(vm.space), v) && w in vm.space.pt && vm.space.pt[w].Present?)
            && (ok && goes ==> w !in vm.space.pt && v !in vm.space.pt)
  {
    hide Inv, DirTie, CountTie, TableTie, DataTie, BitTie, ProgTie, KernelTie, View, SameViews, FullViews, FilesKnown;
    hide Reclaims, WillEvict, AfterEvicting, NothingToEvict, Thinned, NoDearer, DataStays;
    ghost var s0 := vm.space;
    EntryIsPlaced(s0, v);
    ReadDir(vm.T(), s0, vm.files, v.Dir());
    ReadEntry(vm.T(), s0, vm.files, v);
    DetachFrame(s0, v);
    var from := vm.pgDir[DirIndex(v.Dir())].value;
    var f := vm.phys[from].row[v.j].value.frame;
    var to; ghost var evicted;
    to, evicted := vm.GetFreePage();
    if to == 0 { return false; }
    EvictsIff(s0, old(vm.dirEntry), old(vm.pageEntry), v, evicted);
    ghost var s1 := vm.space;
    PageAfterWalk(s0, s1, old(vm.dirEntry), old(vm.pageEntry), v, evicted, to);
    NoneInMissingTable(s0, s1, w);
    vm.InstallTable(w.Dir(), to);
    SameViewsChain(s0, s1, vm.space, {});
    ghost var s2 := vm.space;
    SameViewAt(s0, s2, v);
    ShareOrMiss(vm, v, w, f);
    if v !in evicted { SameViewsChain(s0, s2, vm.space, {w}); }
    return true;
  }

  /** The words are masked and copied and the count goes up, even if the words have become zero. */
  method ShareOrMiss(vm: Vm, v: VPage, w: VPage, f: nat)
    requires vm.Valid() && v != w && v.k == w.k && v.j == w.j && w.t in vm.space.org && v.t in vm.space.org
    requires UserDir(v.Dir()) && UserDir(w.Dir()) && v.Dir() in vm.space.dirs && w.Dir() in vm.space.dirs
    requires v.j < ENTRIES && w !in vm.space.pt && f in vm.space.pool
    requires v in vm.space.pt ==> Clean(vm.space.pt[v]) && vm.space.pt[v].frame == f
    requires vm.space.org[w.t](w.k, w.j) == vm.space.org[v.t](v.k, v.j)
    modifies vm`phys, vm`space, vm.memMap
    ensures Tied(vm.T(), vm.space, vm.files) && (Inv(vm.space) <==> old(v in vm.space.pt))
    ensures old(v in vm.space.pt) ==>
              && vm.Valid() && SameViews(old(vm.space), vm.space, {w}) && View(vm.space, w) == View(old(vm.space), v)
              && w in vm.space.pt && vm.space.pt[w].Present?
    ensures old(v !in vm.space.pt) ==> vm.space.pt == old(vm.space).pt
  {
    hide Inv, DirTie, CountTie, TableTie, DataTie, BitTie, ProgTie, KernelTie, View, SameViews, FullViews, FilesKnown;
    ghost var m, s := vm.T(), vm.space;
    ReadDir(m, s, vm.files, v.Dir());
    ReadEntry(m, s, vm.files, v);
    if vm.phys[vm.pgDir[DirIndex(v.Dir())].value].row[v.j].Some? {
      vm.ShareEntries(v, w);
    } else {
      ReadCount(m, s, vm.files, f);
      CountTied(m, s, vm.files, f, OneMore(s.memMap[f]));
      BytesChange(s.memMap[f]);
      Miscounted(s, f, OneMore(s.memMap[f]));
      vm.memMap[f - LOW] := OneMore(vm.memMap[f - LOW]);
      vm.space := SetCount(s, f, OneMore(s.memMap[f]));
      assert vm.T() == m.(mm := m.mm[f - LOW := OneMore(m.mm[f - LOW])]);
    }
  }

  lemma NoneInMissingTable(s0: Space, s: Space, w: VPage)
    requires Reclaimed(s0, s) && w !in s0.pt
    ensures w !in s.pt
  {
    hide View, NoDearer;
  }

  lemma PageAfterWalk(s0: Space, s: Space, d: int, pe: int, v: VPage, vs: seq<VPage>, r: nat)
    requires Inv(s0) && v in s0.pt && Clean(s0.pt[v]) && InRing(d)
    requires Reclaims(s0, d, pe, vs) && s == Alloc(AfterEvicting(s0, vs), r, ZeroPage()) && Reclaimed(s0, s)
    ensures v.Dir() in s.dirs && v.j < ENTRIES && s0.pt[v].frame in s.pool
    ensures if v in vs then v !in s.pt else v in s.pt && s.pt[v] == s0.pt[v]
  {
    EntryIsPlaced(s0, v);
    DetachFrame(s0, v);
    hide Inv, View, NoDearer, IsReclaim, AfterEvicting;
    PageAfter(s0, d, pe, vs, v);
  }

  // ----- A page that is lost

  function Ones(): Page { seq(PAGE_SIZE, i => 1) }

  /** Two tasks share a clean page of their file; their tables and that page take up all the memory. */
  function TwoTasks(): Space {
    var e := Present(258, false, false);
    Space({256, 257, 258}, map[DirSlot(1, 0) := 256, DirSlot(2, 0) := 257],
          map[VPage(1, 0, 0) := e, VPage(2, 0, 0) := e], map[256 := 1, 257 := 1, 258 := 2], {}, map[258 := Ones()],
          {}, {}, map[], map[1 := (k, j) => Ones(), 2 := (k, j) => Ones()])
  }

  lemma TwoTasksCounted()
    ensures var s := TwoTasks(); Counted(s.pool, s.memMap, s.pt, s.dirs, s.held)
  {
    var s := TwoTasks();
    assert Refs(s.pt, 256) == {} && DirRefs(s.dirs, 256) == {DirSlot(1, 0)};
    assert Refs(s.pt, 257) == {} && DirRefs(s.dirs, 257) == {DirSlot(2, 0)};
    assert Refs(s.pt, 258) == {VPage(1, 0, 0), VPage(2, 0, 0)} && DirRefs(s.dirs, 258) == {};
  }

  lemma TwoTasksPlaced()
    ensures var s := TwoTasks();
            && HeldApart(s.pool, s.held, s.data, s.pt, s.dirs) && InTables(s.pt, s.dirs)
            && TablesPlaced(s.pool, s.dirs, s.org)
  {
  }

  lemma TwoTasksApart()
    ensures var s := TwoTasks();
            FramesPlaced(s.pool, s.data, s.pt) && TablesApart(s.pt, s.dirs) && WriteExclusive(s.pt)
  {
  }

  lemma TwoTasksBacked()
    ensures var s := TwoTasks(); CleanIsBacked(s.pt, s.data, s.org) && SlotsOwned(s.pt, s.slots, s.bits, s.swap)
  {
  }

  lemma TwoTasksFull()
    ensures FullViews(TwoTasks())
  {
    forall v | View(TwoTasks(), v).Some? ensures View(TwoTasks(), v) == Some(Ones()) { }
  }

  lemma TwoTasksKeep()
    ensures Inv(TwoTasks()) && FullViews(TwoTasks())
  {
    TwoTasksCounted();
    TwoTasksPlaced();
    TwoTasksApart();
    TwoTasksBacked();
    TwoTasksFull();
    hide Counted, HeldApart, InTables, TablesPlaced, FramesPlaced, TablesApart, WriteExclusive, CleanIsBacked;
    hide SlotsOwned, FullViews;
  }

  lemma FirstGoes()
    ensures var s := TwoTasks();
            && NoneFree(s) && FirstHit(s, 16, -1, VPage(1, 0, 0))
            && Evict(s, VPage(1, 0, 0)) == Detach(s, VPage(1, 0, 0))
  {
    var s := TwoTasks();
    assert Mapped(s.dirs, 16);
    assert StopsOn(s, 16, -1, 0, 0, 0, VPage(1, 0, 0));
  }

  lemma SecondGoes()
    ensures var s := Detach(TwoTasks(), VPage(1, 0, 0));
            && NoneFree(s) && FirstHit(s, 16, 0, VPage(2, 0, 0))
            && Evict(s, VPage(2, 0, 0)) == Detach(s, VPage(2, 0, 0))
            && Detach(s, VPage(2, 0, 0)).memMap == map[256 := 1, 257 := 1, 258 := 0]
  {
    var s := Detach(TwoTasks(), VPage(1, 0, 0));
    assert s.pt.Keys == {VPage(2, 0, 0)};
    assert Mapped(s.dirs, 16);
    assert StopsOn(s, 16, 0, 0, 16, 0, VPage(2, 0, 0));
  }

  /** The pages that are evicted when task 1 stores into its page: its own, and that of task 2. */
  function TwoPages(): seq<VPage> { [VPage(1, 0, 0), VPage(2, 0, 0)] }

  lemma BothGo()
    ensures Reclaims(TwoTasks(), 16, -1, TwoPages())
    ensures AfterEvicting(TwoTasks(), TwoPages()) == Detach(Detach(TwoTasks(), VPage(1, 0, 0)), VPage(2, 0, 0))
  {
    var s, v, w := TwoTasks(), VPage(1, 0, 0), VPage(2, 0, 0);
    FirstGoes();
    SecondGoes();
    ThenFree();
    hide TwoTasks, FirstHit, NoneFree, Evict, Detach;
    NothingEvicted(s, map[], 16, -1);
    ReclaimGrows(s, 16, -1, [], v);
    ReclaimGrows(s, 16, -1, [v], w);
    assert [] + [v] == [v] && [v] + [w] == TwoPages();
  }

  lemma ThenFree()
    ensures !NoneFree(Detach(Detach(TwoTasks(), VPage(1, 0, 0)), VPage(2, 0, 0)))
  {
    SecondGoes();
    var s := Detach(Detach(TwoTasks(), VPage(1, 0, 0)), VPage(2, 0, 0));
    assert 258 in s.pool && s.memMap[258] == 0;
  }

  /** What un_wp_page and the store of b at offset o make of it. */
  function Lost(o: nat, b: int): Space
    requires o < PAGE_SIZE
  {
    var s := Detach(Detach(TwoTasks(), VPage(1, 0, 0)), VPage(2, 0, 0));
    Unshared(Alloc(s, 258, ZeroPage()), VPage(1, 0, 0), 258, 258, ZeroPage()[o := b])
  }

  lemma LostViews(o: nat, b: int)
    requires o < PAGE_SIZE
    ensures View(TwoTasks(), VPage(1, 0, 0)) == Some(Ones())
    ensures View(Lost(o, b), VPage(1, 0, 0)) == Some(ZeroPage()[o := b]) && Lost(o, b).memMap[258] == 0
  {
  }

  /**
    Task 1 stores into the page.  get_free_page evicts it from both tasks and returns its frame, cleared; what
    un_wp_page copies is that frame to itself, and uncounts it.
   */
  lemma LostPageExample(o: nat, b: int)
    requires 0 < o < PAGE_SIZE
    ensures Inv(TwoTasks()) && FullViews(TwoTasks()) && WillEvict(TwoTasks(), 16, -1, VPage(1, 0, 0))
    ensures Reclaims(TwoTasks(), 16, -1, TwoPages())
    ensures Lost(o, b) == Unshared(Alloc(AfterEvicting(TwoTasks(), TwoPages()), 258, ZeroPage()),
                                   VPage(1, 0, 0), 258, 258, ZeroPage()[o := b])
    ensures View(TwoTasks(), VPage(1, 0, 0)) == Some(Ones())
    ensures View(Lost(o, b), VPage(1, 0, 0)) == Some(ZeroPage()[o := b]) != Some(Ones()[o := b])
    ensures Lost(o, b).memMap[258] == 0
  {
    TwoTasksKeep();
    BothGo();
    LostViews(o, b);
    assert ZeroPage()[o := b][0] == 0 && Ones()[o := b][0] == 1;
    assert VPage(1, 0, 0) in TwoPages();
    hide Inv, FullViews, FirstHit, NoneFree, Evict, Unshared, Detach, View, Reclaims, AfterEvicting;
  }
}
