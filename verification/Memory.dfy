/**
  mm/memory.c and mm/swap.c: the memory manager as it runs on the tables.  Every
  method keeps the tables tied to the flat address spaces, and says what the tasks
  read afterwards.
 */
module Memory {
  import opened Common
  import opened AddressSpace
  import opened Paging
  import opened Program
  import opened Machine
  import opened Growth
  import opened MemoryFacts
  import opened SwapWalk
  import opened Evictions
  import opened Shortage

  class Vm {
    const pgDir: array<Option<nat>>
    const memMap: array<int>
    const swapMap: array<bool>
    const files: map<nat, Image>
    const kernel: seq<Page>
    var phys: map<nat, Content>
    var swapData: map<nat, Page>
    var prog: map<nat, Prog>
    var dirEntry: int       // swap_out's static cursors
    var pageEntry: int
    ghost var space: Space
    /** Where get_free_page last had nothing to give. */
    ghost var miss: Miss

    ghost function T(): Tables
      reads this, pgDir, memMap, swapMap
    {
      Tables(pgDir[..], memMap[..], phys, swapMap[..], swapData, prog, kernel)
    }

    ghost predicate Valid()
      reads this, pgDir, memMap, swapMap
    {
      && pgDir as object != memMap && pgDir as object != swapMap && memMap as object != swapMap
      && pgDir.Length == NR_DIR && memMap.Length == PAGES && swapMap.Length == SWAP_BITS
      && Inv(space) && Tied(T(), space, files) && FullViews(space)
      && (forall t :: t in prog ==> FilesKnown(files, prog[t]))
      && DIRS_PER_TASK <= dirEntry < NR_DIR && -1 <= pageEntry < ENTRIES
    }

    ghost function Here(): Point
      reads this
    {
      Point(space, dirEntry, pageEntry)
    }

    /** get_free_page had nothing to give there. */
    ghost predicate MissedAt(a: Point)
      reads this
    {
      miss == Miss(a, true) && GaveNothing(miss)
    }

    /** mem_init and init_swapping: frames start up to end are free, everything else is in use. */
    constructor (start: nat, end: nat, slots: set<nat>, kernel: seq<Page>, files: map<nat, Image>)
      requires LOW <= start <= end <= LOW + PAGES
      requires forall n :: n in slots ==> 1 <= n < SWAP_BITS
      requires |kernel| == KERNEL_ENTRIES && forall j :: 0 <= j < KERNEL_ENTRIES ==> |kernel[j]| == PAGE_SIZE
      ensures Valid() && prog == map[] && space == StartSpace(start, end, slots, kernel)
      ensures this.files == files && this.kernel == kernel
    {
      var dir := new Option<nat>[NR_DIR](i => if i == 0 then Some(KERNEL_TABLE) else None);
      var mm := new int[PAGES](i => USED);
      var bits := new bool[SWAP_BITS](i => i in slots);
      var i := start - LOW;
      while i < end - LOW
        invariant start - LOW <= i <= end - LOW
        invariant forall q :: 0 <= q < PAGES ==> mm[q] == if start - LOW <= q < i then 0 else USED
        modifies mm
      {
        mm[i] := 0;
        i := i + 1;
      }
      this.pgDir, this.memMap, this.swapMap := dir, mm, bits;
      this.files, this.kernel := files, kernel;
      this.phys := (map j: nat | j < KERNEL_ENTRIES :: Data(kernel[j]))[KERNEL_TABLE := Table(KernelRow())];
      this.swapData, this.prog := map[], map[];
      this.dirEntry, this.pageEntry := DIRS_PER_TASK, -1;
      this.space := StartSpace(start, end, slots, kernel);
      this.miss := Miss(Point(StartSpace(start, end, slots, kernel), DIRS_PER_TASK, -1), true);
      new;
      hide Inv, Tied, FullViews;
      StartKeeps(start, end, slots, kernel);
      StartTied(start, end, slots, kernel, files);
      ghost var m := StartTables(start, end, slots, kernel);
      assert pgDir[..] == m.dir && memMap[..] == m.mm && swapMap[..] == m.bitmap && phys == m.phys;
      assert T() == m;
    }

    /** The scan of get_free_page: the last free frame is marked, zeroed and returned; 0 when there is none. */
    method ScanFree() returns (r: nat)
      requires Valid()
      modifies this`phys, this`space, memMap
      ensures Valid()
      ensures r == 0 <==> NoneFree(old(space))
      ensures r == 0 ==> space == old(space) && phys == old(phys)
      ensures r != 0 ==>
        && r in old(space).pool && r in old(space).memMap && old(space).memMap[r] == 0
        && (forall f :: f in old(space).pool && f > r ==> old(space).memMap[f] != 0)
        && space == Alloc(old(space), r, ZeroPage())
      ensures DataStays(old(phys), phys, {r})
    {
      var i := PAGES;
      while i > 0 && memMap[i - 1] != 0
        invariant 0 <= i <= PAGES
        invariant forall q :: i <= q < PAGES ==> memMap[q] != 0
      {
        i := i - 1;
      }
      forall f | f in space.pool && f >= LOW + i ensures f in space.memMap && space.memMap[f] != 0 {
        ReadCount(T(), space, files, f);
        assert memMap[f - LOW] != 0;
      }
      if i == 0 {
        forall f | f in space.pool ensures space.memMap[f] != 0 { ReadCount(T(), space, files, f); }
        return 0;
      }
      r := LOW + i - 1;
      FreeFrameInPool(T(), space, files, r);
      ghost var m := T();
      memMap[i - 1] := 1;
      phys := phys[r := Data(ZeroPage())];
      AllocTied(m, space, files, r);
      AllocKeeps(space, r, ZeroPage());
      SameViewsFull(space, Alloc(space, r, ZeroPage()));
      space := Alloc(space, r, ZeroPage());
      assert T() == m.(mm := m.mm[r - LOW := 1], phys := m.phys[r := Data(ZeroPage())]);
    }

    /** get_swap_page: the first set bit is cleared and returned; 0 when there is none. */
    method GetSwapPage() returns (n: nat)
      requires swapMap.Length == SWAP_BITS
      modifies swapMap
      ensures n == 0 ==> swapMap[..] == old(swapMap[..]) && forall q :: 1 <= q < SWAP_BITS ==> !swapMap[q]
      ensures n != 0 ==> n < SWAP_BITS && old(swapMap[n]) && swapMap[..] == old(swapMap[..])[n := false]
      ensures n != 0 ==> forall q :: 1 <= q < n ==> !old(swapMap[q])
    {
      var nr := 1;
      while nr < SWAP_BITS
        invariant 1 <= nr <= SWAP_BITS
        invariant forall q :: 1 <= q < nr ==> !swapMap[q]
        invariant swapMap[..] == old(swapMap[..])
      {
        if swapMap[nr] {
          swapMap[nr] := false;
          return nr;
        }
        nr := nr + 1;
      }
      return 0;
    }

    /** free_page; the panic on a free page is ruled out by the precondition. */
    method FreePage(f: nat)
      requires memMap.Length == PAGES
      requires LOW <= f ==> f < LOW + PAGES && memMap[f - LOW] > 0
      modifies memMap
      ensures memMap[..] == if f < LOW then old(memMap[..]) else old(memMap[..])[f - LOW := old(memMap[f - LOW]) - 1]
    {
      if f < LOW { return; }
      memMap[f - LOW] := memMap[f - LOW] - 1;
    }

    /** The clean half of try_to_swap_out: the entry is cleared and its frame loses a reference. */
    method DropClean(v: VPage)
      requires Valid() && UserDir(v.Dir()) && v in space.pt && Clean(space.pt[v])
      modifies this`phys, this`space, memMap
      ensures Valid() && Reclaimed(old(space), space) && space == Detach(old(space), v)
      ensures Evictable(old(space), v) ==> Evicted(old(space), space, v)
      ensures Resident(space) < Resident(old(space)) && DataStays(old(phys), phys, {})
    {
      hide Inv, DirTie, TableTie, DataTie, ProgTie, KernelTie, CountTie, BitTie, View, SameViews, FullViews, FilesKnown;
      hide Thinned, NoDearer, DataStays, Evict, IsLeast;
      ghost var m, s := T(), space;
      EntryIsPlaced(s, v);
      ReadDir(m, s, files, v.Dir());
      ReadEntry(m, s, files, v);
      DetachFrame(s, v);
      var tab := pgDir[DirIndex(v.Dir())].value;
      var f := phys[tab].row[v.j].value.frame;
      ReadCount(m, s, files, f);
      TableWritten(phys, tab, phys[tab].row[v.j := None]);
      phys := phys[tab := Table(phys[tab].row[v.j := None])];
      FreePage(f);
      DropCleanKeeps(s, v);
      DetachTied(m, s, files, v);
      space := Detach(s, v);
      assert T() == ClearEntry(m, s, v);
      SameViewsFull(s, space);
      CleanEvictReclaims(s, v);
    }

    /** The dirty half of try_to_swap_out, for a page with one reference. */
    method SwapOutDirty(v: VPage) returns (done: bool)
      requires Valid() && UserDir(v.Dir()) && v in space.pt && space.pt[v].Present? && LOW <= space.pt[v].frame
      requires space.pt[v].dirty && space.pt[v].frame in space.memMap && space.memMap[space.pt[v].frame] == 1
      modifies this`phys, this`swapData, this`space, memMap, swapMap
      ensures Valid() && Reclaimed(old(space), space)
      ensures space.held == old(space.held) && space.data == old(space.data)
      ensures done <==> old(space.bits) != {}
      ensures !done ==> space == old(space) && phys == old(phys)
      ensures done ==> Evicted(old(space), space, v) && space == Evict(old(space), v)
      ensures done ==> Resident(space) < Resident(old(space))
      ensures DataStays(old(phys), phys, {})
    {
      hide Inv, DirTie, TableTie, DataTie, ProgTie, KernelTie, CountTie, BitTie, View, SameViews, FullViews, FilesKnown;
      hide Thinned, NoDearer, DataStays, Evict, IsLeast;
      ghost var m, s := T(), space;
      SameViewsRefl(s);
      EntryIsPlaced(s, v);
      ReadDir(m, s, files, v.Dir());
      ReadEntry(m, s, files, v);
      ReadFrame(m, s, files, v);
      DetachFrame(s, v);
      var tab := pgDir[DirIndex(v.Dir())].value;
      var f := phys[tab].row[v.j].value.frame;
      ReadCount(m, s, files, f);
      StillThere(phys);
      var n := GetSwapPage();
      if n == 0 {
        NoFreeSlot(m, s, files);
        return false;
      }
      TableWritten(phys, tab, phys[tab].row[v.j := Some(Swapped(n))]);
      FreeSlotInBits(m, s, files, n);
      FirstSetBit(m, s, files, n);
      EvictDirty(s, v, n);
      phys := phys[tab := Table(phys[tab].row[v.j := Some(Swapped(n))])];
      swapData := swapData[n := phys[f].page];
      FreePage(f);
      SwapOutKeeps(s, v, n);
      SwapOutTied(m, s, files, v, n);
      space := SwapOut(s, v, n);
      assert T() == SwapOutTables(m, s, v, n);
      SameViewsFull(s, space);
      DirtyEvictReclaims(s, v, n);
      return true;
    }

    /** try_to_swap_out: evicts one page if it can, without changing what any task reads. */
    method TryToSwapOut(v: VPage) returns (done: bool)
      requires Valid() && UserDir(v.Dir()) && v.Dir() in space.dirs && v.j < ENTRIES
      modifies this`phys, this`swapData, this`space, memMap, swapMap
      ensures Valid() && Reclaimed(old(space), space)
      ensures space.held == old(space.held) && space.data == old(space.data)
      ensures done <==> Evictable(old(space), v)
      ensures space == Evict(old(space), v)
      ensures !done ==> phys == old(phys)
      ensures done ==> Evicted(old(space), space, v) && Resident(space) < Resident(old(space))
      ensures DataStays(old(phys), phys, {})
    {
      hide Inv, DirTie, TableTie, DataTie, ProgTie, KernelTie, CountTie, View, SameViews, FullViews, FilesKnown;
      ghost var m, s := T(), space;
      SameViewsRefl(s);
      ReadDir(m, s, files, v.Dir());
      ReadEntry(m, s, files, v);
      var tab := pgDir[DirIndex(v.Dir())].value;
      var e := phys[tab].row[v.j];
      if e.None? || e.value.Swapped? { return false; }
      var f := e.value.frame;
      DetachFrame(s, v);
      if f < LOW { return false; }
      ReadCount(m, s, files, f);
      ReadFrame(m, s, files, v);
      if e.value.dirty {
        if memMap[f - LOW] != 1 { return false; }
        done := SwapOutDirty(v);
        return;
      }
      EvictClean(s, v);
      DropClean(v);
      return true;
    }

    /** A directory entry of the tables is the one of the address spaces. */
    lemma DirIs(d: int)
      requires Valid() && InRing(d)
      ensures pgDir[d].Some? <==> Mapped(space.dirs, d)
    {
      hide Inv, CountTie, TableTie, DataTie, BitTie, ProgTie, KernelTie;
      var slot := DirSlot(d / DIRS_PER_TASK, d % DIRS_PER_TASK);
      assert UserDir(slot) && DirIndex(slot) == d;
    }

    /**
      swap_out: walks the tables from where the last call stopped until one page can be evicted.  It fails
      exactly if nothing can be evicted but pages that the walk misses.
     */
    method ReclaimOne() returns (done: bool, ghost v: VPage)
      requires Valid()
      modifies this`phys, this`swapData, this`space, this`dirEntry, this`pageEntry, memMap, swapMap
      ensures Valid() && Reclaimed(old(space), space)
      ensures space.held == old(space.held) && space.data == old(space.data)
      ensures done <==> !NothingToEvict(old(space), old(dirEntry), old(pageEntry))
      ensures !done ==> space == old(space)
      ensures done ==> Resident(space) < Resident(old(space)) && AfterHit(space, dirEntry, pageEntry)
      ensures done ==> Evicted(old(space), space, v) && space == Evict(old(space), v)
      ensures done ==> FirstHit(old(space), old(dirEntry), old(pageEntry), v)
      ensures done ==> UserDir(v.Dir()) && dirEntry == DirIndex(v.Dir()) && pageEntry == v.j
      ensures DataStays(old(phys), phys, {})
    {
      hide Inv, Tied, View, SameViews, FullViews, Reclaimed;
      hide Evictable, Evicted, Missed, NothingToEvict, NoneSeen, OnWalk, StopsOn, Evict, FirstHit, DataStays;
      StillThere(phys);
      hide AbsentFor;
      done, v := false, VPage(0, 0, 0);
      SameViewsRefl(space);
      ghost var d, pe, dirs := dirEntry, pageEntry, space.dirs;
      var counter; ghost var k;
      counter, k := SkipAbsent();
      ghost var s := k;
      WalkStarts(space, d, pe, k);
      while counter > 0
        invariant Valid() && space == old(space) && phys == old(phys) && 0 <= s <= RING && dirEntry == Ring(d, s)
        invariant 0 <= counter == Left(pe, s, pageEntry) && OnWalk(dirs, d, pe, k, s)
        invariant NoneSeen(space, d, k, pe, s, pageEntry) && (counter > 0 ==> k < RING && Mapped(dirs, dirEntry))
        invariant k <= s && (s > k || pageEntry >= pe)
        decreases counter
      {
        counter := counter - 1;
        pageEntry := pageEntry + 1;
        if pageEntry >= ENTRIES {
          NextTable(space, d, pe, k, s);
          pageEntry := 0;
          counter, s := ToNextTable(counter, d, pe, k, s);
          if counter < 0 { return; }
        }
        var page := VPage(dirEntry / DIRS_PER_TASK, dirEntry % DIRS_PER_TASK, pageEntry);
        assert DirIndex(page.Dir()) == dirEntry && UserDir(page.Dir());
        done := TryToSwapOut(page);
        if done {
          v := page;
          ComeToNotMissed(dirs, d, pe, k, s, pageEntry);
          Hit(old(space), space, d, pe, v);
          StopsHere(old(space), d, pe, k, s, pageEntry, v);
          return;
        }
        NotEvictable(old(space), page);
        SeenOne(space, d, k, pe, s, pageEntry);
      }
      Fruitless(d, pe, k, s, pageEntry);
    }

    /** The first loop of swap_out: on to a directory entry with a table. */
    method SkipAbsent() returns (counter: int, ghost s: int)
      requires Valid()
      modifies this`dirEntry
      ensures Valid() && 0 <= s <= RING && dirEntry == Ring(old(dirEntry), s) && counter == (RING - s) * ENTRIES
      ensures AbsentFor(space.dirs, old(dirEntry), s) && (s < RING ==> Mapped(space.dirs, dirEntry))
    {
      hide Inv, Tied, FullViews;
      counter, s := NR_DIR * ENTRIES - DIRS_PER_TASK * ENTRIES, 0;
      while counter > 0 && pgDir[dirEntry].None?
        invariant Valid() && 0 <= s <= RING && dirEntry == Ring(old(dirEntry), s)
        invariant counter == (RING - s) * ENTRIES && AbsentFor(space.dirs, old(dirEntry), s)
      {
        DirIs(dirEntry);
        counter := counter - ENTRIES;
        dirEntry := NextDir(dirEntry);
        s := s + 1;
      }
      DirIs(dirEntry);
    }

    /** From one table to the next; a counter below zero stands for the break. */
    method ToNextTable(before: int, ghost d: int, ghost pe: int, ghost k: int, ghost s0: int)
      returns (counter: int, ghost s: int)
      requires Valid() && InRing(d) && -1 <= pe < ENTRIES && 0 <= k <= s0 < RING && dirEntry == Ring(d, s0)
      requires 0 <= before == Left(pe, s0 + 1, 0) && OnWalk(space.dirs, d, pe, k, s0 + 1)
      requires NoneSeen(space, d, k, pe, s0 + 1, -1)
      modifies this`dirEntry
      ensures Valid() && k < s <= RING && counter <= before
      ensures counter < 0 ==> NothingToEvict(space, d, pe)
      ensures counter >= 0 ==>
                && dirEntry == Ring(d, s) && Mapped(space.dirs, dirEntry)
                && counter == Left(pe, s, 0) && OnWalk(space.dirs, d, pe, k, s) && NoneSeen(space, d, k, pe, s, -1)
    {
      hide Inv, Tied, FullViews, NothingToEvict, NoneSeen, OnWalk;
      counter, s := before, s0 + 1;
      dirEntry := NextDir(dirEntry);
      while pgDir[dirEntry].None?
        invariant Valid() && k < s <= RING && dirEntry == Ring(d, s)
        invariant 0 <= counter == Left(pe, s, 0) && counter <= before
        invariant OnWalk(space.dirs, d, pe, k, s) && NoneSeen(space, d, k, pe, s, -1)
        decreases counter
      {
        DirIs(dirEntry);
        counter := counter - ENTRIES;
        if counter <= 0 {
          Fruitless(d, pe, k, s, -1);
          return -1, s;
        }
        NoTable(space, d, pe, k, s);
        dirEntry := NextDir(dirEntry);
        s := s + 1;
      }
      DirIs(dirEntry);
    }

    lemma Fruitless(d: int, pe: int, k: int, s: int, p: int)
      requires Valid() && InRing(d) && -1 <= pe < ENTRIES && -1 <= p < ENTRIES && OnWalk(space.dirs, d, pe, k, s)
      requires NoneSeen(space, d, k, pe, s, p)
      requires || k == RING || Left(pe, s, p) == 0
               || (p == -1 && !Mapped(space.dirs, Ring(d, s)) && Left(pe, s + 1, 0) <= 0)
      ensures NothingToEvict(space, d, pe)
    {
      hide Inv, DirTie, CountTie, TableTie, DataTie, BitTie, KernelTie, OnWalk, NoneSeen, NothingToEvict;
      TasksInRange(T(), space, files);
      WalkOver(space, d, pe, k, s, p);
    }

    /**
      get_free_page: frees memory by swapping as long as no frame is free.  It fails exactly if no frame is
      free and its first walk is fruitless: a page that has been evicted always leads to a free frame.
     */
    method GetFreePage() returns (r: nat, ghost evicted: seq<VPage>)
      requires Valid()
      modifies this`phys, this`swapData, this`space, this`dirEntry, this`pageEntry, this`miss, memMap, swapMap
      ensures Valid() && Reclaimed(old(space), space)
      ensures r == 0 <==> NoMemoryLeft(old(space), old(dirEntry), old(pageEntry))
      ensures r == 0 ==> space == old(space) && MissedAt(old(Here()))
      ensures r != 0 ==> CursorMoved(old(Here()), Here())
      ensures r != 0 ==>
        && r in space.pool && r !in old(space.held) && space.held == old(space.held) + {r}
        && space.data == old(space.data)[r := ZeroPage()]
      ensures r != 0 ==>
        && Reclaims(old(space), old(dirEntry), old(pageEntry), evicted)
        && space == Alloc(AfterEvicting(old(space), evicted), r, ZeroPage())
      ensures r != 0 ==> DataStays(old(phys), phys, {r})
    {
      hide Inv, Tied, View, SameViews, FullViews, Reclaimed;
      hide Evictable, Evicted, NothingToEvict, NoneFree, Draining, AfterHit, IsReclaim, AfterEvicting, Evict, FirstHit;
      hide DataStays, RestDir, RestEntry;
      evicted := [];
      SameViewsRefl(space);
      NothingEvicted(space, phys, dirEntry, pageEntry);
      ghost var f := 0;
      while true
        invariant Valid() && Reclaimed(old(space), space) && DataStays(old(phys), phys, {})
        invariant space.held == old(space.held) && space.data == old(space.data)
        invariant IsReclaim(old(space), old(dirEntry), old(pageEntry), evicted)
        invariant space == AfterEvicting(old(space), evicted)
        invariant dirEntry == RestDir(old(dirEntry), evicted) && pageEntry == RestEntry(old(pageEntry), evicted)
        invariant evicted == [] ==> space == old(space) && dirEntry == old(dirEntry) && pageEntry == old(pageEntry)
        invariant evicted != [] ==> Draining(space, f) && AfterHit(space, dirEntry, pageEntry)
        invariant evicted != [] ==> !NoMemoryLeft(old(space), old(dirEntry), old(pageEntry))
        decreases Resident(space)
      {
        ghost var s, d, pe, was := space, dirEntry, pageEntry, phys;
        r := ScanFree();
        DataStaysTrans(old(phys), was, phys, {r});
        if r != 0 {
          AllocReclaims(s, r);
          ReclaimedTrans(old(space), s, space);
          SomeFree(s, r);
          if evicted != [] { HitIsOnTable(s, d, pe); }
          return;
        }
        was := phys;
        var done; ghost var v;
        done, v := ReclaimOne();
        ReclaimedTrans(old(space), s, space);
        DataStaysTrans(old(phys), was, phys, {});
        if !done {
          if evicted != [] { NotYet(d, pe, f); }
          miss := Miss(Point(space, d, pe), true);
          return;
        }
        ReclaimGrows(old(space), old(dirEntry), old(pageEntry), evicted, v);
        f := Drains(s, space, v, evicted != [], f);
        evicted := evicted + [v];
      }
    }

    /** After an eviction a fruitless walk would mean that a frame is free. */
    lemma NotYet(d: int, pe: int, f: nat)
      requires Valid() && InRing(d) && AfterHit(space, d, pe) && Draining(space, f)
      requires NothingToEvict(space, d, pe)
      ensures !NoneFree(space)
    {
      hide Inv, DirTie, CountTie, TableTie, DataTie, BitTie, KernelTie, Draining, AfterHit, NothingToEvict, NoneFree;
      TasksInRange(T(), space, files);
      HitMissesNothing(space, d, pe);
      DrainingFrees(space, f);
    }

    /**
      put_page and put_dirty_page: a held frame is entered at v, in a new page table if
      the task has none there; false when there is no memory for the table.
     */
    method PutPage(f: nat, v: VPage, dirty: bool) returns (ok: bool)
      requires Valid() && f in space.held && v !in space.pt && v.t in space.org && UserDir(v.Dir()) && v.j < ENTRIES
      requires f in space.data && |space.data[f]| == PAGE_SIZE
      requires dirty || space.data[f] == space.org[v.t](v.k, v.j)
      modifies this`phys, this`swapData, this`space, this`dirEntry, this`pageEntry, this`miss, pgDir, memMap, swapMap
      ensures Valid() && space.org == old(space.org) && space.pool == old(space.pool)
      ensures ok ==>
        && SameViews(old(space), space, {v}) && View(space, v) == Some(old(space.data[f]))
        && v in space.pt && space.pt[v] == Present(f, true, dirty)
        && space.held == old(space.held) - {f}
      ensures ok <==> v.Dir() in old(space).dirs || !NoMemoryLeft(old(space), old(dirEntry), old(pageEntry))
      ensures ok ==> Reached(old(Here()), Here(), At(v))
      ensures !ok ==> space == old(space) && MissedAt(old(Here()))
    {
      hide Reclaims, AfterEvicting, DataStays;
      hide Inv, DirTie, CountTie, TableTie, DataTie, BitTie, ProgTie, KernelTie, View, SameViews, FullViews;
      hide Reached, CursorMoved;
      ghost var a, s0 := Here(), space;
      SameViewsRefl(s0);
      ReachedRefl(a, At(v));
      ReadDir(T(), space, files, v.Dir());
      var tab := pgDir[DirIndex(v.Dir())];
      if tab.None? {
        var tmp; ghost var evicted; tmp, evicted := GetFreePage();
        if tmp == 0 { return false; }
        ghost var s1, b := space, Here();
        ReachedReclaimed(a, a, b, At(v));
        InstallTable(v.Dir(), tmp);
        ReachedTable(a, b, Here(), At(v), v.Dir(), tmp);
        SameViewsChain(s0, s1, space, {});
        tab := Some(tmp);
      }
      ghost var m, s2, b2 := T(), space, Here();
      AttachTied(m, s2, files, v, f, true, dirty);
      phys := phys[tab.value := Table(phys[tab.value].row[v.j := Some(Present(f, true, dirty))])];
      AttachKeeps(s2, v, f, true, dirty);
      space := Attach(s2, v, f, true, dirty);
      ReachedEntry(a, b2, Here(), At(v), v);
      assert T() == SetEntry(m, s2.dirs[v.Dir()], v.j, Some(Present(f, true, dirty)));
      SameViewsChain(s0, s2, space, {v});
      FullExcept(s0, space, v);
      return true;
    }

    /** swap_in: the page comes back from its slot, dirty and writable, and the slot is free again. */
    method SwapInPage(v: VPage) returns (ok: bool)
      requires Valid() && v in space.pt && space.pt[v].Swapped? && UserDir(v.Dir())
      modifies this`phys, this`swapData, this`space, this`dirEntry, this`pageEntry, this`miss, memMap, swapMap
      ensures Valid() && SameViews(old(space), space, {}) && space.org == old(space.org)
      ensures space.held == old(space.held) && space.dirs == old(space.dirs) && space.pool == old(space.pool)
      ensures ok ==> v in space.pt && space.pt[v].Present? && space.pt[v].rw && old(space.pt[v].slot) in space.bits
      ensures ok <==> !NoMemoryLeft(old(space), old(dirEntry), old(pageEntry))
      ensures ok ==> Reached(old(Here()), Here(), At(v))
      ensures !ok ==> space == old(space) && MissedAt(old(Here()))
    {
      hide Reclaims, AfterEvicting, DataStays;
      hide Inv, DirTie, CountTie, TableTie, DataTie, ProgTie, KernelTie, View, SameViews, FullViews;
      hide Reached, CursorMoved;
      ghost var a, s0 := Here(), space;
      ReachedRefl(a, At(v));
      var page; ghost var evicted; page, evicted := GetFreePage();
      if page == 0 { return false; }
      ghost var m, s, b := T(), space, Here();
      ReachedReclaimed(a, a, b, At(v));
      EntryIsPlaced(s, v);
      ReadDir(m, s, files, v.Dir());
      ReadEntry(m, s, files, v);
      var tab := pgDir[DirIndex(v.Dir())].value;
      var n := phys[tab].row[v.j].value.slot;
      SwapInKeeps(s, v, page);
      SwapInTied(m, s, files, v, page);
      phys := phys[page := Data(swapData[n])];
      swapMap[n] := true;
      phys := phys[tab := Table(phys[tab].row[v.j := Some(Present(page, true, true))])];
      space := SwapIn(s, v, page);
      ReachedEntry(a, b, Here(), At(v), v);
      assert T() == SwapInTables(m, s, v, page);
      SameViewsChain(s0, s, space, {});
      SameViewsFull(s0, space);
      return true;
    }

    /** A fresh zeroed frame becomes a page table. */
    method InstallTable(d: DirSlot, f: nat)
      requires Valid() && f in space.held && d !in space.dirs && d.t in space.org && UserDir(d)
      modifies this`phys, this`space, pgDir
      ensures Valid() && space == AddTable(old(space), d, f) && SameViews(old(space), space, {})
    {
      hide Inv, DirTie, CountTie, TableTie, DataTie, BitTie, ProgTie, KernelTie, View, SameViews, FullViews;
      ghost var m, s := T(), space;
      AddTableKeeps(s, d, f);
      AddTableTied(m, s, files, d, f);
      ReadDir(m, s, files, d);
      pgDir[DirIndex(d)] := Some(f);
      phys := phys[f := Table(EmptyRow())];
      space := AddTable(s, d, f);
      assert T() == m.(dir := m.dir[DirIndex(d) := Some(f)], phys := m.phys[f := Table(EmptyRow())]);
      SameViewsFull(s, space);
    }

    /** A present entry is write-protected and copied to another task's table. */
    method ShareEntries(v: VPage, w: VPage)
      requires Valid() && v in space.pt && space.pt[v].Present? && w !in space.pt && v != w
      requires UserDir(v.Dir()) && UserDir(w.Dir()) && w.Dir() in space.dirs && w.k == v.k && w.j == v.j
      requires w.t in space.org && v.t in space.org
      requires space.pt[v].frame < LOW || space.pt[v].dirty || space.org[w.t](w.k, w.j) == space.org[v.t](v.k, v.j)
      modifies this`phys, this`space, memMap
      ensures Valid() && space == Share(old(space), v, w)
      ensures SameViews(old(space), space, {w}) && View(space, w) == View(old(space), v)
    {
      hide Inv, DirTie, CountTie, TableTie, DataTie, BitTie, ProgTie, KernelTie, View, SameViews, FullViews;
      ghost var m, s := T(), space;
      EntryIsPlaced(s, v);
      ReadDir(m, s, files, v.Dir());
      ReadDir(m, s, files, w.Dir());
      ReadEntry(m, s, files, v);
      ReadEntry(m, s, files, w);
      DetachFrame(s, v);
      ShareKeeps(s, v, w);
      ShareTied(m, s, files, v, w);
      var from, to := pgDir[DirIndex(v.Dir())].value, pgDir[DirIndex(w.Dir())].value;
      var f := phys[from].row[v.j].value.frame;
      var shared := Some(phys[from].row[v.j].value.(rw := false));
      phys := phys[from := Table(phys[from].row[v.j := shared])];
      phys := phys[to := Table(phys[to].row[w.j := shared])];
      if f >= LOW {
        ReadCount(m, s, files, f);
        memMap[f - LOW] := memMap[f - LOW] + 1;
      }
      space := Share(s, v, w);
      assert T() == ShareEntry(m, s, v, w);
      ViewIsPlaced(s, v);
      SharedFull(s, space, v, w);
    }

    /**
      try_to_share: the page of task p is shared with task cur when it is present and
      clean.  A missing page table is allocated without reclaiming memory.
     */
    method TryToShare(cur: nat, p: nat, k: nat, j: nat) returns (r: Outcome)
      requires Valid() && cur != p && cur in space.org && p in space.org && j < ENTRIES
      requires UserDir(DirSlot(cur, k)) && UserDir(DirSlot(p, k)) && VPage(cur, k, j) !in space.pt
      requires space.org[cur](k, j) == space.org[p](k, j)
      modifies this`phys, this`space, this`miss, pgDir, memMap
      ensures Valid() && SameViews(old(space), space, {})
      ensures space.org == old(space.org) && space.held == old(space.held) && space.pool == old(space.pool)
      ensures r.Done? ==> VPage(cur, k, j) in space.pt && space.pt[VPage(cur, k, j)].Present?
      ensures r.Done? ==> Reached(old(Here()), Here(), At(VPage(cur, k, j))) && |Used(space)| <= |Used(old(space))| + 1
      ensures r.Refused? <==> !Shareable(old(space), VPage(p, k, j))
      ensures r.OutOfMemory? <==>
                Shareable(old(space), VPage(p, k, j)) && DirSlot(cur, k) !in old(space).dirs && NoneFree(old(space))
      ensures !r.Done? ==> space == old(space)
      ensures r.OutOfMemory? ==> miss == Miss(old(Here()), false) && GaveNothing(miss)
    {
      hide DataStays, Thinned, NoDearer;
      hide Inv, DirTie, CountTie, TableTie, DataTie, BitTie, ProgTie, KernelTie, View, SameViews, FullViews;
      hide Reached, Used;
      ghost var a, s0 := Here(), space;
      SameViewsRefl(s0);
      var v, w := VPage(p, k, j), VPage(cur, k, j);
      ReachedRefl(a, At(w));
      ReadDir(T(), space, files, v.Dir());
      EntryNeedsTable(space, v);
      var from := pgDir[DirIndex(v.Dir())];
      if from.None? { return Refused; }
      ReadEntry(T(), space, files, v);
      var e := phys[from.value].row[j];
      if e.None? || e.value.Swapped? || e.value.dirty { return Refused; }
      DetachFrame(space, v);
      if e.value.frame < LOW { return Refused; }
      CleanView(space, v);
      ReadDir(T(), space, files, w.Dir());
      if pgDir[DirIndex(w.Dir())].None? {
        var tmp := ScanFree();
        if tmp == 0 {
          miss := Miss(Here(), false);
          return OutOfMemory;
        }
        AllocReclaims(s0, tmp);
        ghost var s1, b := space, Here();
        ReachedReclaimed(a, a, b, At(w));
        InstallTable(w.Dir(), tmp);
        ReachedTable(a, b, Here(), At(w), w.Dir(), tmp);
        TableUses(s1, w.Dir(), tmp);
        SameViewsChain(s0, s1, space, {});
      }
      ghost var s2, b2 := space, Here();
      DetachFrame(s2, v);
      ShareEntries(v, w);
      ReachedShare(a, b2, Here(), v, w);
      BudgetForShare(s2, v, w, 0);
      SharedViews(s0, s2, space, v, w);
      return Done;
    }

    lemma AllTasksInRange()
      requires Valid()
      ensures forall t :: t in prog ==> 1 <= t < TASKS
    {
      hide Inv, DirTie, CountTie, TableTie, DataTie, BitTie, KernelTie, FilesKnown;
    }

    /** share_page: looks for another task running the same file, from the last task down. */
    method SharePage(cur: nat, k: nat, j: nat) returns (r: Outcome)
      requires Valid() && cur in prog && j < ENTRIES && UserDir(DirSlot(cur, k)) && VPage(cur, k, j) !in space.pt
      requires if k < LIBRARY_DIR then prog[cur].exe.Some? else prog[cur].lib.Some?
      modifies this`phys, this`space, this`miss, pgDir, memMap
      ensures Valid() && SameViews(old(space), space, {})
      ensures space.org == old(space.org) && space.held == old(space.held) && space.pool == old(space.pool)
      ensures r.Done? ==> VPage(cur, k, j) in space.pt && space.pt[VPage(cur, k, j)].Present?
      ensures r.Done? ==> Reached(old(Here()), Here(), At(VPage(cur, k, j))) && |Used(space)| <= |Used(old(space))| + 1
      ensures r.Refused? <==> forall p :: SameFile(prog, cur, p, k) ==> !Shareable(old(space), VPage(p, k, j))
      ensures r.OutOfMemory? ==> NoneFree(old(space)) && WithoutWalk(old(space), At(VPage(cur, k, j)))
      ensures r.OutOfMemory? ==> miss == Miss(old(Here()), false) && GaveNothing(miss)
      ensures !r.Done? ==> space == old(space)
    {
      hide Inv, DirTie, CountTie, TableTie, DataTie, BitTie, KernelTie, View, SameViews, FullViews, ProgPage;
      hide Reached, Used;
      SameViewsRefl(space);
      AllTasksInRange();
      var p := TASKS - 1;
      while p > 0
        invariant 0 <= p < TASKS && Valid() && space == old(space)
        invariant forall q :: p < q && SameFile(prog, cur, q, k) ==> !Shareable(space, VPage(q, k, j))
      {
        if SameFile(prog, cur, p, k) {
          SameFileSamePage(files, prog[cur], prog[p], k, j);
          r := TryToShare(cur, p, k, j);
          if !r.Refused? { return; }
        }
        p := p - 1;
      }
      return Refused;
    }

    /** get_empty_page: a zeroed frame is entered; on failure it is given back. */
    method GetEmptyPage(v: VPage) returns (ok: bool)
      requires Valid() && v !in space.pt && v.t in space.org && UserDir(v.Dir()) && v.j < ENTRIES
      requires space.org[v.t](v.k, v.j) == ZeroPage()
      modifies this`phys, this`swapData, this`space, this`dirEntry, this`pageEntry, this`miss, pgDir, memMap, swapMap
      ensures Valid() && SameViews(old(space), space, {})
      ensures space.org == old(space.org) && space.held == old(space.held) && space.pool == old(space.pool)
      ensures ok ==> v in space.pt && space.pt[v].Present? && space.pt[v].rw && Reached(old(Here()), Here(), At(v))
      ensures !ok ==> OutOfFrames(old(Here()), miss, At(v))
    {
      hide Inv, Tied, View, SameViews, FullViews;
      ok := PutLoaded(v, ZeroPage());
    }

    /** The common end of get_empty_page and do_no_page: the page content is put in place, or the frame freed. */
    method PutLoaded(v: VPage, page: Page) returns (ok: bool)
      requires Valid() && v !in space.pt && v.t in space.org && UserDir(v.Dir()) && v.j < ENTRIES
      requires page == space.org[v.t](v.k, v.j) && |page| == PAGE_SIZE
      modifies this`phys, this`swapData, this`space, this`dirEntry, this`pageEntry, this`miss, pgDir, memMap, swapMap
      ensures Valid() && SameViews(old(space), space, {})
      ensures space.org == old(space.org) && space.held == old(space.held) && space.pool == old(space.pool)
      ensures ok ==> v in space.pt && space.pt[v].Present? && space.pt[v].rw && Reached(old(Here()), Here(), At(v))
      ensures !ok ==> OutOfFrames(old(Here()), miss, At(v))
    {
      hide Reclaims, AfterEvicting, DataStays;
      hide Inv, Tied, View, SameViews, FullViews;
      hide Reached, CursorMoved, Free, Starving;
      ghost var a, s0 := Here(), space;
      UntouchedView(s0, v);
      var f; ghost var evicted; f, evicted := GetFreePage();
      if f == 0 {
        StarvingHere(a, miss, At(v));
        NothingFree(s0);
        return false;
      }
      ghost var m, s1, b1 := T(), space, Here();
      phys := phys[f := Data(page)];
      FillKeeps(s1, f, page);
      FillTied(m, s1, files, f, page);
      space := Fill(s1, f, page);
      assert T() == m.(phys := m.phys[f := Data(page)]);
      SameViewsChain(s0, s1, space, {});
      SameViewsFull(s0, space);
      ghost var s2, b := space, Here();
      CursorStays(a, b1, b);
      ok := PutPage(f, v, false);
      if ok {
        ReachedFrom(a, b, Here(), At(v));
        ReloadedViews(s0, s2, space, v);
        assert space.held == old(space.held);
        return;
      }
      ReachedRefl(b, At(v));
      ReachedFrom(a, b, b, At(v));
      StarvingWith(a, miss, At(v), f);
      OneTaken(s0, s1, f);
      NothingFree(s2);
      FillUses(s1, f, page);
      FreeHeld(f);
      SameViewsChain(s0, s2, space, {});
      assert space.held == old(space.held);
      return false;
    }

    /** do_no_page: a missing page is swapped in, shared, loaded from its file, or zero-filled. */
    method DoNoPage(v: VPage) returns (ok: bool)
      requires Valid() && v.t in prog && UserDir(v.Dir()) && v.j < ENTRIES
      requires v in space.pt ==> space.pt[v].Swapped?
      modifies this`phys, this`swapData, this`space, this`dirEntry, this`pageEntry, this`miss, pgDir, memMap, swapMap
      ensures Valid() && SameViews(old(space), space, {})
      ensures space.org == old(space.org) && space.held == old(space.held) && space.pool == old(space.pool)
      ensures ok ==> v in space.pt && space.pt[v].Present? && Reached(old(Here()), Here(), At(v))
      ensures ok ==> space.pt[v].rw || |Used(space)| <= |Used(old(space))| + 1
      ensures !ok ==> OutOfFrames(old(Here()), miss, At(v))
    {
      hide Inv, DirTie, CountTie, TableTie, DataTie, BitTie, KernelTie;
      hide ProgTie, View, SameViews, FullViews, ProgPage, Starving, Reached, Free, Used;
      hide FilesKnown;
      ghost var a := Here();
      ReadDir(T(), space, files, v.Dir());
      var tab := pgDir[DirIndex(v.Dir())];
      if tab.Some? {
        ReadEntry(T(), space, files, v);
        if phys[tab.value].row[v.j].Some? {
          ok := SwapInPage(v);
          if !ok {
            StarvingHere(a, miss, At(v));
            NothingFree(space);
          }
          return;
        }
      }
      EntryNeedsTable(space, v);
      ok := LoadMissing(v);
    }

    /** do_no_page for a page that is in no swap slot. */
    method LoadMissing(v: VPage) returns (ok: bool)
      requires Valid() && v.t in prog && UserDir(v.Dir()) && v.j < ENTRIES && v !in space.pt
      modifies this`phys, this`swapData, this`space, this`dirEntry, this`pageEntry, this`miss, pgDir, memMap, swapMap
      ensures Valid() && SameViews(old(space), space, {})
      ensures space.org == old(space.org) && space.held == old(space.held) && space.pool == old(space.pool)
      ensures ok ==> v in space.pt && space.pt[v].Present? && Reached(old(Here()), Here(), At(v))
      ensures ok ==> space.pt[v].rw || |Used(space)| <= |Used(old(space))| + 1
      ensures !ok ==> OutOfFrames(old(Here()), miss, At(v))
    {
      hide Inv, Tied, View, SameViews, FullViews, ProgPage, Starving, GaveNothing, FilesKnown;
      hide Reached, Free, Used, WithoutWalk;
      var inode := FileFor(v);
      if inode.None? {
        ok := GetEmptyPage(v);
        return;
      }
      var r := SharePage(v.t, v.k, v.j);
      if r.Done? { return true; }
      if r.OutOfMemory? {
        StarvingHere(Here(), miss, At(v));
        NothingFree(space);
        return false;
      }
      var page := ReadFilePage(v, inode.value);
      ok := PutLoaded(v, page);
    }

    /** The file that backs a page, if there is one; else the page is zero. */
    method FileFor(v: VPage) returns (inode: Option<nat>)
      requires Valid() && v.t in prog
      ensures v.t in space.org
      ensures inode.None? ==> space.org[v.t](v.k, v.j) == ZeroPage()
      ensures inode.Some? ==> inode == (if v.k >= LIBRARY_DIR then prog[v.t].lib else prog[v.t].exe)
      ensures inode.Some? ==> inode.value in files
      ensures inode.Some? && v.k < LIBRARY_DIR ==> Offset(v.k, v.j) < files[inode.value].endData
    {
      hide Inv, DirTie, CountTie, TableTie, DataTie, BitTie, KernelTie, FullViews, ProgPage;
      var endData := if prog[v.t].exe.Some? then files[prog[v.t].exe.value].endData else 0;
      inode := if v.k >= LIBRARY_DIR then prog[v.t].lib else if Offset(v.k, v.j) < endData then prog[v.t].exe else None;
      if inode.None? { NoFilePage(files, prog[v.t], v.k, v.j); }
    }

    /** The blocks of that page are read, and what lies past the end of data is cleared. */
    method ReadFilePage(v: VPage, inode: nat) returns (page: Page)
      requires Valid() && v.t in prog && inode in files && v.k < DIRS_PER_TASK
      requires Some(inode) == if v.k >= LIBRARY_DIR then prog[v.t].lib else prog[v.t].exe
      requires v.k < LIBRARY_DIR ==> Offset(v.k, v.j) < files[inode].endData
      ensures v.t in space.org && page == space.org[v.t](v.k, v.j) && |page| == PAGE_SIZE
      ensures v.k < 15 ==> HoldsPage(page, files[inode], v.k * 1024 + v.j, true)
      ensures v.k >= 15 ==> HoldsPage(page, files[inode], (v.k - 15) * 1024 + v.j, false)
    {
      hide Inv, DirTie, CountTie, TableTie, DataTie, BitTie, KernelTie, FullViews, ProgPage, Bytes, HoldsPage;
      ProgramHolds(files, prog[v.t], v.k, v.j);
      var tmp := Offset(v.k, v.j);
      var endData := if prog[v.t].exe.Some? then files[prog[v.t].exe.value].endData else 0;
      var base := if v.k >= LIBRARY_DIR then Offset(v.k - LIBRARY_DIR, v.j) else tmp;
      OffsetAligned(v.k, v.j);
      OffsetAligned(if v.k >= LIBRARY_DIR then v.k - LIBRARY_DIR else 0, v.j);
      page := LoadPage(files[inode], base, tmp, endData);
      LoadedPage(files, prog[v.t], v.k, v.j, page);
    }

    /** A store through an entry that nobody else maps: writable already, or un_wp_page with count 1. */
    method StoreInPlace(v: VPage, page: Page)
      requires Valid() && v in space.pt && space.pt[v].Present? && UserDir(v.Dir()) && |page| == PAGE_SIZE
      requires LOW <= space.pt[v].frame && Refs(space.pt, space.pt[v].frame) == {v}
      modifies this`phys, this`space
      ensures Valid() && space == Write(old(space), v, page)
      ensures SameViews(old(space), space, {v}) && View(space, v) == Some(page)
    {
      hide Inv, DirTie, CountTie, TableTie, DataTie, BitTie, ProgTie, KernelTie, View, SameViews, FullViews;
      ghost var m, s := T(), space;
      EntryIsPlaced(s, v);
      ReadDir(m, s, files, v.Dir());
      ReadEntry(m, s, files, v);
      WriteKeeps(s, v, page);
      WriteTied(m, s, files, v, page);
      var tab := pgDir[DirIndex(v.Dir())].value;
      var f := phys[tab].row[v.j].value.frame;
      phys := phys[tab := Table(phys[tab].row[v.j := Some(Present(f, true, true))])];
      phys := phys[f := Data(page)];
      space := Write(s, v, page);
      assert T() == StoreEntry(m, s, v, page);
      FullExcept(s, space, v);
    }

    /** un_wp_page on a shared frame, and the retried store. */
    method StoreInCopy(v: VPage, page: Page) returns (ok: bool)
      requires Valid() && v in space.pt && space.pt[v].Present? && UserDir(v.Dir()) && |page| == PAGE_SIZE
      modifies this`phys, this`space, this`miss, memMap
      ensures Valid() && space.org == old(space.org) && space.held == old(space.held) && space.pool == old(space.pool)
      ensures ok ==> SameViews(old(space), space, {v}) && View(space, v) == Some(page)
      ensures ok <==> !NoneFree(old(space))
      ensures !ok ==> space == old(space) && miss == Miss(old(Here()), false) && GaveNothing(miss)
    {
      hide DataStays, Thinned, NoDearer, Detach;
      hide Inv, DirTie, CountTie, TableTie, DataTie, BitTie, ProgTie, KernelTie, View, SameViews, FullViews;
      ghost var s0 := space;
      var new_ := ScanFree();
      if new_ == 0 {
        miss := Miss(Here(), false);
        return false;
      }
      AllocReclaims(s0, new_);
      ghost var s := space;
      CopyInto(v, new_, page);
      SameViewsChain(s0, s, space, {v});
      return true;
    }

    /** The end of un_wp_page, and the store: v gets a frame of its own, and the count of the old one goes down. */
    method CopyInto(v: VPage, new_: nat, page: Page)
      requires Valid() && v in space.pt && space.pt[v].Present? && UserDir(v.Dir()) && |page| == PAGE_SIZE
      requires new_ in space.held
      modifies this`phys, this`space, memMap
      ensures Valid() && space == CopyAndStore(old(space), v, new_, page)
      ensures SameViews(old(space), space, {v}) && View(space, v) == Some(page)
      ensures space.org == old(space.org) && space.held == old(space.held) - {new_} && space.pool == old(space.pool)
    {
      hide Inv, DirTie, CountTie, TableTie, DataTie, BitTie, ProgTie, KernelTie, View, SameViews, FullViews;
      ghost var m, s := T(), space;
      EntryIsPlaced(s, v);
      ReadDir(m, s, files, v.Dir());
      ReadEntry(m, s, files, v);
      DetachFrame(s, v);
      CopyAndStoreKeeps(s, v, new_, page);
      CopyAndStoreTied(m, s, files, v, new_, page);
      var tab := pgDir[DirIndex(v.Dir())].value;
      var f := phys[tab].row[v.j].value.frame;
      if f >= LOW {
        ReadCount(m, s, files, f);
        memMap[f - LOW] := memMap[f - LOW] - 1;
      }
      phys := phys[new_ := Data(page)];
      phys := phys[tab := Table(phys[tab].row[v.j := Some(Present(new_, true, true))])];
      space := CopyAndStore(s, v, new_, page);
      assert T() == CopyAndStoreTables(m, s, v, new_, page);
      FullExcept(s, space, v);
    }

    /**
      A user-mode store of byte b at offset o: page faults are served until the store
      goes through.  It changes that byte for that task, and nothing for anyone else.
     */
    method Store(v: VPage, o: nat, b: int) returns (ok: bool)
      requires Valid() && v.t in prog && UserDir(v.Dir()) && v.j < ENTRIES && o < PAGE_SIZE
      modifies this`phys, this`swapData, this`space, this`dirEntry, this`pageEntry, this`miss, pgDir, memMap, swapMap
      ensures Valid() && space.org == old(space.org) && space.held == old(space.held) && space.pool == old(space.pool)
      ensures ok ==> SameViews(old(space), space, {v})
      ensures ok ==> View(old(space), v).Some? && |View(old(space), v).value| == PAGE_SIZE
      ensures ok ==> View(space, v) == Some(View(old(space), v).value[o := b])
      ensures !ok ==> SameViews(old(space), space, {}) && NeedsFrame(old(space), v, true)
      ensures !ok ==> OutOfFrames(old(Here()), miss, At(v))
    {
      hide Inv, DirTie, CountTie, TableTie, DataTie, BitTie, KernelTie;
      hide ProgTie, View, SameViews, ProgPage, Starving, GaveNothing, Reached, Free, Used;
      ghost var a, s0 := Here(), space;
      SameViewsRefl(s0);
      ReachedRefl(a, At(v));
      ReadDir(T(), space, files, v.Dir());
      var tab := pgDir[DirIndex(v.Dir())];
      var present := false;
      if tab.Some? {
        ReadEntry(T(), space, files, v);
        present := phys[tab.value].row[v.j].Some? && phys[tab.value].row[v.j].value.Present?;
      }
      EntryNeedsTable(space, v);
      if !present {
        ok := DoNoPage(v);
        if !ok { return; }
      }
      EntryIsPlaced(space, v);
      ReadDir(T(), space, files, v.Dir());
      ReadEntry(T(), space, files, v);
      ReadFrame(T(), space, files, v);
      ReadView(space, v);
      SameViewAt(s0, space, v);
      tab := pgDir[DirIndex(v.Dir())];
      var e := phys[tab.value].row[v.j].value;
      var page := phys[e.frame].page[o := b];
      ghost var s1 := space;
      DetachFrame(space, v);
      if e.frame >= LOW { ReadCount(T(), space, files, e.frame); }
      if e.rw {
        RwIsSole(s1, v);
        StoreInPlace(v, page);
      } else if e.frame >= LOW && memMap[e.frame - LOW] == 1 {
        OneIsSole(s1, v);
        StoreInPlace(v, page);
      } else {
        ok := StoreInCopy(v, page);
        if !ok {
          StarvingWith(a, miss, At(v), 0);
          OneUsed(s0, s1);
          return;
        }
      }
      SameViewsChain(s0, s1, space, {v});
      return true;
    }

    /** One round of the inner loop of copy_page_tables. */
    method CopyEntry(v: VPage, w: VPage, ghost a: Point, ghost i: nat) returns (ok: bool)
      requires Valid() && UserDir(v.Dir()) && UserDir(w.Dir()) && v.Dir() in space.dirs && w.Dir() in space.dirs
      requires v.t != w.t && v.k == w.k && v.j == w.j && v.j < ENTRIES && w !in space.pt
      requires v.t in space.org && w.t in space.org && space.org[w.t](w.k, w.j) == space.org[v.t](v.k, v.j)
      requires Forked(a, Here(), v.t, w.t, i, v.k, v.j)
      modifies this`phys, this`swapData, this`space, this`dirEntry, this`pageEntry, this`miss, memMap, swapMap
      ensures Valid() && Copying(old(space), space, w)
      ensures ok ==> View(space, w) == View(old(space), v)
      ensures !ok <==>
                && v in old(space).pt && old(space).pt[v].Swapped?
                && NoMemoryLeft(old(space), old(dirEntry), old(pageEntry))
      ensures !ok ==> space == old(space) && MissedAt(old(Here()))
      ensures ok ==> Forked(a, Here(), v.t, w.t, i, v.k, v.j + 1)
    {
      hide Reclaims, AfterEvicting, DataStays;
      hide Inv, DirTie, CountTie, TableTie, DataTie, BitTie, ProgTie, KernelTie, View, SameViews, FullViews, FilesKnown;
      hide Forked, CursorMoved;
      ghost var b, s0 := Here(), space;
      SameViewsRefl(s0);
      SameViewsWeaken(s0, s0, w);
      ReadDir(T(), space, files, v.Dir());
      ReadEntry(T(), space, files, v);
      var from := pgDir[DirIndex(v.Dir())].value;
      var e := phys[from].row[v.j];
      if e.None? {
        UntouchedView(space, v);
        UntouchedView(space, w);
        ForkMovesOn(a, b, v.t, w.t, i, v.k, v.j, i, v.k, v.j + 1);
        return true;
      }
      if e.value.Swapped? {
        var page; ghost var evicted; page, evicted := GetFreePage();
        if page == 0 {
          SameViewsWeaken(s0, space, w);
          return false;
        }
        ghost var s1, b1 := space, Here();
        ForkReclaims(a, b, b1, v.t, w.t, i, v.k, v.j);
        HandOverEntries(v, w, page);
        ForkHandsOver(a, b1, Here(), v, w, i, page);
        SameViewsChain(s0, s1, space, {w});
        SameViewAt(s0, s1, v);
        return true;
      }
      DetachFrame(s0, v);
      ShareEntries(v, w);
      ForkShares(a, b, Here(), v, w, i);
      return true;
    }

    /** copy_page_tables on a swapped-out page, once a frame has been found for the parent. */
    method HandOverEntries(v: VPage, w: VPage, page: nat)
      requires Valid() && UserDir(v.Dir()) && UserDir(w.Dir()) && w.Dir() in space.dirs && v != w && page in space.held
      requires v in space.pt && space.pt[v].Swapped? && w !in space.pt && w.j < ENTRIES && w.t in space.org
      modifies this`phys, this`space
      ensures Valid() && space.pt == old(space.pt)[w := old(space.pt[v])][v := Present(page, true, true)]
      ensures space.dirs == old(space.dirs) && space.org == old(space.org) && space.pool == old(space.pool)
      ensures space.held == old(space.held) - {page} && space.bits == old(space.bits) && space.slots == old(space.slots)
      ensures space.memMap == old(space.memMap)
      ensures SameViews(old(space), space, {w}) && View(space, w) == View(old(space), v)
    {
      hide Inv, DirTie, CountTie, TableTie, DataTie, BitTie, ProgTie, KernelTie, View, SameViews, FullViews, FilesKnown;
      ghost var m, s := T(), space;
      EntryIsPlaced(s, v);
      ReadDir(m, s, files, v.Dir());
      ReadDir(m, s, files, w.Dir());
      ReadEntry(m, s, files, v);
      ReadEntry(m, s, files, w);
      HandOverKeeps(s, v, w, page);
      HandOverTied(m, s, files, v, w, page);
      var from, to := pgDir[DirIndex(v.Dir())].value, pgDir[DirIndex(w.Dir())].value;
      var e := phys[from].row[v.j];
      phys := phys[page := Data(swapData[e.value.slot])];
      phys := phys[to := Table(phys[to].row[w.j := e])];
      phys := phys[from := Table(phys[from].row[v.j := Some(Present(page, true, true))])];
      space := HandOver(s, v, w, page);
      assert T() == HandOverTables(m, s, v, w, page);
      assert space.bits == s.bits;
      ViewIsPlaced(s, v);
      SharedFull(s, space, v, w);
    }

    /** A fork of p into c that began at a has come to where no frame was to be had. */
    ghost predicate ForkMissed(a: Point, p: nat, c: nat)
      reads this
    {
      && GaveNothing(miss) && miss.walked && miss.at.s == space && Reached(a, miss.at, Forking(p, c))
      && |Free(a.s)| < Calls(a.s, p)
    }

    /**
      copy_page_tables for a parent other than task 0: the first n page tables of task p
      are copied to task c, whose tables are empty.
     */
    method CopyPageTables(p: nat, c: nat, n: nat) returns (ok: bool)
      requires Valid() && p in space.org && c in space.org && p != c && n <= DIRS_PER_TASK
      requires SameOrigins(space, p, c)
      requires TablesBelow(space, c, 0) && TablesBelow(space, p, n)
      modifies this`phys, this`swapData, this`space, this`dirEntry, this`pageEntry, this`miss, pgDir, memMap, swapMap
      ensures Valid() && OnlyTask(old(space), space, c) && TablesBelow(space, c, n)
      ensures ok ==> forall k: nat, j: nat :: View(space, VPage(c, k, j)) == View(old(space), VPage(p, k, j))
      ensures !ok ==> ForkMissed(old(Here()), p, c)
    {
      hide Inv, DirTie, CountTie, TableTie, DataTie, BitTie;
      hide KernelTie, View, SameViews, FullViews, FilesKnown, ProgPage, Forked;
      ghost var a, s0 := Here(), space;
      ForkStarts(a, p, c);
      TasksInRange(T(), s0, files);
      var k := 0;
      while k < n
        invariant 0 <= k <= n
        invariant Valid() && OnlyTask(s0, space, c) && TablesBelow(space, c, k) && Copied(s0, space, p, c, k, 0)
        invariant Forked(a, Here(), p, c, k, k, 0)
      {
        ok := CopyTable(p, c, k, a);
        if !ok { return; }
        k := k + 1;
      }
      forall i: nat, j: nat ensures View(space, VPage(c, i, j)) == View(s0, VPage(p, i, j)) {
        if i >= n {
          UnmappedView(space, VPage(c, i, j));
          UnmappedView(s0, VPage(p, i, j));
        }
      }
      return true;
    }

    /** One round of the outer loop of copy_page_tables. */
    method CopyTable(p: nat, c: nat, k: nat, ghost a: Point) returns (ok: bool)
      requires Valid() && p in space.org && c in space.org && p != c && SameOrigins(space, p, c)
      requires UserDir(DirSlot(p, k)) && UserDir(DirSlot(c, k))
      requires OnlyTask(a.s, space, c) && TablesBelow(space, c, k) && Copied(a.s, space, p, c, k, 0)
      requires Forked(a, Here(), p, c, k, k, 0)
      modifies this`phys, this`swapData, this`space, this`dirEntry, this`pageEntry, this`miss, pgDir, memMap, swapMap
      ensures Valid() && OnlyTask(a.s, space, c) && TablesBelow(space, c, k + 1)
      ensures ok ==> Copied(a.s, space, p, c, k + 1, 0) && Forked(a, Here(), p, c, k + 1, k + 1, 0)
      ensures !ok ==> ForkMissed(a, p, c)
    {
      hide Reclaims, AfterEvicting, DataStays;
      hide Inv, DirTie, CountTie, TableTie, DataTie, BitTie, KernelTie, ProgTie, View, SameViews, FullViews, FilesKnown;
      hide OnlyTask, Copied, Forked, CursorMoved, Reached;
      ghost var s0 := a.s;
      var from, to := DirSlot(p, k), DirSlot(c, k);
      ReadDir(T(), space, files, from);
      if pgDir[DirIndex(from)].None? {
        NothingToCopy(s0, space, p, c, k);
        ForkMovesOn(a, Here(), p, c, k, k, 0, k + 1, k + 1, 0);
        return true;
      }
      ghost var s1, b1 := space, Here();
      var tmp; ghost var evicted; tmp, evicted := GetFreePage();
      if tmp == 0 {
        ReclaimedOnly(s0, s1, space, c);
        ForkMisses(a, b1, p, c, k, k, 0);
        return false;
      }
      ghost var s2, b2 := space, Here();
      ForkReclaims(a, b1, b2, p, c, k, k, 0);
      InstallTable(to, tmp);
      InstalledOnly(s0, s1, s2, space, p, c, k);
      ForkAddsTable(a, b2, Here(), p, c, k, tmp);
      ok := CopyRow(p, c, k, a);
    }

    /** The inner loop of copy_page_tables. */
    method CopyRow(p: nat, c: nat, k: nat, ghost a: Point) returns (ok: bool)
      requires Valid() && p in space.org && c in space.org && p != c && SameOrigins(space, p, c)
      requires UserDir(DirSlot(p, k)) && UserDir(DirSlot(c, k)) && DirSlot(p, k) in space.dirs
               && DirSlot(c, k) in space.dirs
      requires OnlyTask(a.s, space, c) && TablesBelow(space, c, k + 1) && Copied(a.s, space, p, c, k, 0)
      requires RowEmptyFrom(space, c, k, 0) && Forked(a, Here(), p, c, k + 1, k, 0)
      modifies this`phys, this`swapData, this`space, this`dirEntry, this`pageEntry, this`miss, memMap, swapMap
      ensures Valid() && OnlyTask(a.s, space, c) && TablesBelow(space, c, k + 1)
      ensures ok ==> Copied(a.s, space, p, c, k + 1, 0) && Forked(a, Here(), p, c, k + 1, k + 1, 0)
      ensures !ok ==> ForkMissed(a, p, c)
    {
      hide Inv, DirTie, CountTie, TableTie, DataTie, BitTie, KernelTie, ProgTie, View, SameViews, FullViews, FilesKnown;
      hide OnlyTask, Copied, Forked, CursorMoved, Reached;
      ghost var s0 := a.s;
      var j := 0;
      while j < ENTRIES
        invariant 0 <= j <= ENTRIES
        invariant Valid() && OnlyTask(s0, space, c) && Copied(s0, space, p, c, k, j) && RowEmptyFrom(space, c, k, j)
        invariant space.dirs == old(space.dirs) && space.org == old(space.org)
        invariant Forked(a, Here(), p, c, k + 1, k, j)
      {
        ghost var s3, b := space, Here();
        ok := CopyEntry(VPage(p, k, j), VPage(c, k, j), a, k + 1);
        CopiedOnly(s0, s3, space, p, VPage(c, k, j), ok);
        if !ok {
          RowMissed(a, b, p, c, k, j);
          return;
        }
        j := j + 1;
      }
      RowCopied(s0, space, p, c, k);
      ForkMovesOn(a, Here(), p, c, k + 1, k, ENTRIES, k + 1, k + 1, 0);
      return true;
    }

    /** A frame for a swapped-out page of the parent was not to be had. */
    lemma RowMissed(a: Point, b: Point, p: nat, c: nat, k: nat, j: nat)
      requires MissedAt(b) && b.s == space && Forked(a, b, p, c, k + 1, k, j)
      requires OnlyTask(a.s, b.s, c)
      requires VPage(p, k, j) in b.s.pt && b.s.pt[VPage(p, k, j)].Swapped?
      ensures ForkMissed(a, p, c)
    {
      ForkMisses(a, b, p, c, k + 1, k, j);
    }

    /** swap_free: slot 0 is ignored; a slot that does not exist or is free already draws a warning. */
    method SwapFree(n: nat) returns (warned: bool)
      requires swapMap.Length == SWAP_BITS
      modifies swapMap
      ensures warned <==> n != 0 && (n >= SWAP_BITS || old(swapMap[n]))
      ensures swapMap[..] == if n == 0 || n >= SWAP_BITS then old(swapMap[..]) else old(swapMap[..])[n := true]
    {
      if n == 0 { return false; }
      if n < SWAP_BITS {
        warned := swapMap[n];
        swapMap[n] := true;
        return;
      }
      return true;
    }

    /** One round of the inner loop of free_page_tables. */
    method FreeEntry(v: VPage)
      requires Valid() && UserDir(v.Dir()) && v.Dir() in space.dirs && v.j < ENTRIES
      modifies this`phys, this`space, memMap, swapMap
      ensures Valid() && space.dirs == old(space.dirs) && space.org == old(space.org)
      ensures space.pool == old(space.pool) && space.held == old(space.held)
      ensures space.pt == old(space.pt) - {v} && SameViews(old(space), space, {v})
    {
      hide Inv, DirTie, CountTie, TableTie, DataTie, BitTie, KernelTie, ProgTie, View, SameViews, FullViews, FilesKnown;
      hide ProgPage;
      ghost var m, s := T(), space;
      ReadDir(m, s, files, v.Dir());
      ReadEntry(m, s, files, v);
      var tab := pgDir[DirIndex(v.Dir())].value;
      var e := phys[tab].row[v.j];
      if e.None? {
        SameViewsRefl(s);
        SameViewsWeaken(s, s, v);
        return;
      }
      EntryIsPlaced(s, v);
      DetachKeeps(s, v);
      DetachTied(m, s, files, v);
      if e.value.Present? {
        DetachFrame(s, v);
        if e.value.frame >= LOW { ReadCount(m, s, files, e.value.frame); }
        FreePage(e.value.frame);
      } else {
        SlotTaken(m, s, files, e.value.slot);
        var warned := SwapFree(e.value.slot);
        assert !warned;
      }
      phys := phys[tab := Table(phys[tab].row[v.j := None])];
      space := Detach(s, v);
      assert T() == ClearEntry(m, s, v);
      OriginFull(T(), space, files, v);
      FullExcept(s, space, v);
    }

    /** One round of the outer loop of free_page_tables. */
    method FreeTable(t: nat, k: nat)
      requires Valid() && UserDir(DirSlot(t, k))
      modifies this`phys, this`space, pgDir, memMap, swapMap
      ensures Valid() && OnlyTask(old(space), space, t) && DirSlot(t, k) !in space.dirs
      ensures forall d: DirSlot :: d != DirSlot(t, k) ==> (d in space.dirs <==> d in old(space.dirs))
      ensures forall v: VPage :: v.Dir() != DirSlot(t, k) ==> View(space, v) == View(old(space), v)
    {
      hide Inv, DirTie, CountTie, TableTie, DataTie, BitTie, KernelTie, ProgTie, View, FullViews, FilesKnown;
      var d := DirSlot(t, k);
      ReadDir(T(), space, files, d);
      if pgDir[DirIndex(d)].None? { return; }
      var j := 0;
      while j < ENTRIES
        invariant 0 <= j <= ENTRIES
        invariant Valid() && space.dirs == old(space.dirs) && space.org == old(space.org)
        invariant space.pool == old(space.pool) && space.held == old(space.held)
        invariant forall q: nat :: q < j ==> VPage(t, k, q) !in space.pt
        invariant forall v: VPage :: v.Dir() != d ==> View(space, v) == View(old(space), v)
      {
        FreeEntry(VPage(t, k, j));
        j := j + 1;
      }
      ghost var m, s := T(), space;
      forall v | v in s.pt ensures v.Dir() != d {
        EntryIsPlaced(s, v);
        assert v.Dir() == d ==> v == VPage(t, k, v.j);
      }
      ReadDir(m, s, files, d);
      var tab := pgDir[DirIndex(d)].value;
      DropTableKeeps(s, d);
      DropTableTied(m, s, files, d);
      FreePage(tab);
      pgDir[DirIndex(d)] := None;
      space := DropTable(s, d);
      assert T() == m.(dir := m.dir[DirIndex(d) := None], mm := m.mm[tab - LOW := 0]);
      SameViewsFull(s, space);
    }

    /** free_page_tables: n page tables of task t, from the k-th on, and all they name are given back. */
    method FreePageTables(t: nat, k: nat, n: nat)
      requires Valid() && 1 <= t < TASKS && k + n <= DIRS_PER_TASK
      modifies this`phys, this`space, pgDir, memMap, swapMap
      ensures Valid() && OnlyTask(old(space), space, t)
      ensures forall d: DirSlot :: d.t == t && k <= d.k < k + n ==> d !in space.dirs
      ensures forall d: DirSlot :: d !in old(space.dirs) ==> d !in space.dirs
      ensures forall v: VPage :: v.k < k || k + n <= v.k ==> View(space, v) == View(old(space), v)
    {
      hide Inv, Tied, View, FullViews, FilesKnown;
      var i := k;
      while i < k + n
        invariant k <= i <= k + n
        invariant Valid() && OnlyTask(old(space), space, t)
        invariant forall d: DirSlot :: d.t == t && k <= d.k < i ==> d !in space.dirs
        invariant forall d: DirSlot :: d !in old(space.dirs) ==> d !in space.dirs
        invariant forall v: VPage :: v.k < k || k + n <= v.k ==> View(space, v) == View(old(space), v)
      {
        FreeTable(t, i);
        i := i + 1;
      }
    }

    /**
      copy_process and copy_mem: task c becomes a copy of task p, whose segment covers n
      page tables.  When memory runs out, everything that was built is taken down again.
     */
    method Fork(p: nat, c: nat, n: nat) returns (ok: bool, tp: nat)
      requires Valid() && p in prog && c !in prog && 1 <= c < TASKS && n <= DIRS_PER_TASK && TablesBelow(space, p, n)
      modifies this, pgDir, memMap, swapMap
      ensures Valid() && space.pool == old(space.pool)
      ensures ok ==>
        && prog == old(prog)[c := old(prog)[p]] && tp !in old(space.held) && space.held == old(space.held) + {tp}
        && (forall k: nat, j: nat :: View(space, VPage(c, k, j)) == View(old(space), VPage(p, k, j)))
        && (forall v: VPage :: v.t != c ==> View(space, v) == View(old(space), v))
      ensures !ok ==> prog == old(prog) && space.held == old(space.held) && SameViews(old(space), space, {})
      ensures !ok ==> OutOfFrames(old(Here()), miss, Forking(p, c))
    {
      hide Reclaims, AfterEvicting, DataStays;
      hide Inv, DirTie, CountTie, TableTie, DataTie, BitTie, KernelTie;
      hide View, FullViews, FilesKnown, ProgPage, Starving, Free, Calls, CursorMoved;
      FreshTask(T(), space, files, c);
      ghost var a, s0 := Here(), space;
      ghost var evicted;
      tp, evicted := GetFreePage();
      if tp == 0 {
        StarvingHere(a, miss, Forking(p, c));
        NothingFree(s0);
        return false, 0;
      }
      ghost var b, s1 := Here(), space;
      ok := CopyMem(p, c, n);
      if !ok {
        StarvingFork(a, b, miss, Forking(p, c), tp);
        OneTakenForFork(s0, s1, p, c, tp);
        FreeHeld(tp);
        tp := 0;
      }
    }

    /** copy_mem: the tables are copied, and freed again when memory runs out half-way. */
    method CopyMem(p: nat, c: nat, n: nat) returns (ok: bool)
      requires Valid() && p in prog && c !in prog && c !in space.org && 1 <= c < TASKS
      requires n <= DIRS_PER_TASK && TablesBelow(space, p, n) && TablesBelow(space, c, 0)
      modifies this, pgDir, memMap, swapMap
      ensures Valid() && space.pool == old(space.pool) && space.held == old(space.held)
      ensures forall v: VPage :: v.t != c ==> View(space, v) == View(old(space), v)
      ensures ok ==> prog == old(prog)[c := old(prog)[p]]
      ensures ok ==> forall k: nat, j: nat :: View(space, VPage(c, k, j)) == View(old(space), VPage(p, k, j))
      ensures !ok ==> prog == old(prog) && forall v: VPage :: v.t == c ==> View(space, v) == None
      ensures !ok ==> Starving(old(Here()), miss, Forking(p, c)) && miss.walked && miss.at.s.held == old(space).held
      ensures !ok ==> |Free(old(space))| < Calls(old(space), p)
    {
      hide Inv, DirTie, CountTie, TableTie, DataTie, BitTie, KernelTie;
      hide View, FullViews, FilesKnown, ProgPage, Starving, GaveNothing, Reached, Free;
      hide Calls, NothingToEvict, WithoutWalk, SameViews;
      ghost var a, s0 := Here(), space;
      SetProgram(c, prog[p]);
      ghost var b := Here();
      NewbornUses(s0, space);
      ok := CopyPageTables(p, c, n);
      if ok { return; }
      StarvingChild(a, b, miss, Forking(p, c));
      FreePageTables(c, 0, n);
      Retract(c);
    }

    /** A task slot without tables is given a program. */
    method SetProgram(t: nat, p: Prog)
      requires Valid() && 1 <= t < TASKS && TablesBelow(space, t, 0) && FilesKnown(files, p)
      modifies this`prog, this`space
      ensures Valid() && prog == old(prog)[t := p]
      ensures t in space.org && space == Spawn(old(space), t, space.org[t])
      ensures forall k: nat, j: nat :: space.org[t](k, j) == ProgPage(files, p, k, j)
      ensures forall v: VPage :: v.t != t ==> View(space, v) == View(old(space), v)
      ensures forall v: VPage :: v.t == t ==> View(space, v) == Some(ProgPage(files, p, v.k, v.j))
    {
      hide Inv, DirTie, CountTie, TableTie, DataTie, BitTie, KernelTie, View, FilesKnown, ProgPage, FullViews;
      ghost var m, s := T(), space;
      ghost var o: Origin := (k: nat, j: nat) => ProgPage(files, p, k, j);
      prog := prog[t := p];
      SpawnKeeps(s, t, o);
      SpawnTied(m, s, files, t, p, o);
      space := Spawn(s, t, o);
      assert T() == m.(prog := m.prog[t := p]);
      ProgramFull(s, space, t, p, files);
    }

    /** free_page on a frame of which the caller is the only holder. */
    method FreeHeld(f: nat)
      requires Valid() && f in space.held
      modifies this`space, memMap
      ensures Valid() && space == Return(old(space), f) && SameViews(old(space), space, {})
    {
      hide Inv, DirTie, CountTie, TableTie, DataTie, BitTie, KernelTie, View, FilesKnown, ProgPage, FullViews;
      ghost var m, s := T(), space;
      ReturnTied(m, s, files, f);
      FreePage(f);
      ReturnKeeps(s, f);
      space := Return(s, f);
      assert T() == m.(mm := m.mm[f - LOW := 0]);
      SameViewsFull(s, space);
    }

    /** A task with no tables left gives up its slot. */
    method Retract(c: nat)
      requires Valid() && TablesBelow(space, c, 0)
      modifies this`prog, this`space
      ensures Valid() && prog == old(prog) - {c} && space == Retire(old(space), c)
      ensures forall v: VPage :: v.t != c ==> View(space, v) == View(old(space), v)
      ensures forall v: VPage :: v.t == c ==> View(space, v) == None
    {
      hide Inv, DirTie, CountTie, TableTie, DataTie, BitTie, KernelTie, View, FilesKnown, ProgPage;
      ghost var m, s := T(), space;
      prog := prog - {c};
      RetireKeeps(s, c);
      RetireTied(m, s, files, c);
      space := Retire(s, c);
      assert T() == m.(prog := m.prog - {c});
    }

    /** The memory side of do_exit: the task's space is gone, the others' is not touched. */
    method Exit(t: nat)
      requires Valid() && t in prog
      modifies this, pgDir, memMap, swapMap
      ensures Valid() && prog == old(prog) - {t} && space.held == old(space.held)
      ensures forall v: VPage :: v.t != t ==> View(space, v) == View(old(space), v)
      ensures forall v: VPage :: v.t == t ==> View(space, v) == None
    {
      hide Inv, DirTie, CountTie, TableTie, DataTie, BitTie, KernelTie, View, FilesKnown, ProgPage, FullViews;
      TasksInRange(T(), space, files);
      FreePageTables(t, 0, DIRS_PER_TASK);
      NoTablesLeft(space, t);
      Retract(t);
    }

    /** The memory side of do_execve: the old space is freed and the new program backs the task. */
    method Exec(t: nat, p: Prog)
      requires Valid() && t in prog && FilesKnown(files, p)
      modifies this, pgDir, memMap, swapMap
      ensures Valid() && prog == old(prog)[t := p] && space.held == old(space.held)
      ensures forall v: VPage :: v.t != t ==> View(space, v) == View(old(space), v)
      ensures forall v: VPage :: v.t == t ==> View(space, v) == Some(ProgPage(files, p, v.k, v.j))
    {
      hide Inv, DirTie, CountTie, TableTie, DataTie, BitTie, KernelTie, View, FilesKnown, ProgPage, FullViews;
      TasksInRange(T(), space, files);
      FreePageTables(t, 0, DIRS_PER_TASK);
      NoTablesLeft(space, t);
      SetProgram(t, p);
    }

    /**
      copy_page_tables from task 0: the child's first 160 pages are the kernel's frames
      below LOW_MEM, write-protected and uncounted.
     */
    method ForkKernel(c: nat) returns (ok: bool, tp: nat)
      requires Valid() && c !in prog && 1 <= c < TASKS
      modifies this, pgDir, memMap, swapMap
      ensures Valid() && space.pool == old(space.pool)
      ensures ok ==>
        && prog == old(prog)[c := Prog(None, None)] && tp !in old(space.held) && space.held == old(space.held) + {tp}
        && (forall v: VPage :: v.t != c ==> View(space, v) == View(old(space), v))
        && (forall k: nat, j: nat :: View(space, VPage(c, k, j)) == Some(KernelPage(kernel, k, j)))
      ensures !ok ==> prog == old(prog) && space.held == old(space.held) && SameViews(old(space), space, {})
      ensures !ok ==> OutOfFrames(old(Here()), miss, Booting(c))
    {
      hide Reclaims, AfterEvicting, DataStays;
      hide Inv, DirTie, CountTie, TableTie, DataTie, BitTie, KernelTie;
      hide View, FullViews, FilesKnown, ProgPage, Starving, Free, CursorMoved;
      FreshTask(T(), space, files, c);
      ghost var a, s0 := Here(), space;
      ghost var evicted;
      tp, evicted := GetFreePage();
      if tp == 0 {
        StarvingHere(a, miss, Booting(c));
        NothingFree(s0);
        return false, 0;
      }
      ghost var b, s1 := Here(), space;
      ok := CopyKernelTables(c);
      if !ok {
        StarvingFork(a, b, miss, Booting(c), tp);
        OneTaken(s0, s1, tp);
        FreeHeld(tp);
        tp := 0;
      }
    }

    /** copy_mem for a child of task 0, undone when there is no memory for its page table. */
    method CopyKernelTables(c: nat) returns (ok: bool)
      requires Valid() && c !in prog && c !in space.org && 1 <= c < TASKS && TablesBelow(space, c, 0)
      modifies this, pgDir, memMap, swapMap
      ensures Valid() && space.pool == old(space.pool) && space.held == old(space.held)
      ensures forall v: VPage :: v.t != c ==> View(space, v) == View(old(space), v)
      ensures ok ==> prog == old(prog)[c := Prog(None, None)]
      ensures ok ==> forall k: nat, j: nat :: View(space, VPage(c, k, j)) == Some(KernelPage(kernel, k, j))
      ensures !ok ==> prog == old(prog) && forall v: VPage :: v.t == c ==> View(space, v) == None
      ensures !ok ==> Starving(old(Here()), miss, Booting(c)) && miss.walked && miss.at.s.held == old(space).held
      ensures !ok ==> Free(old(space)) == {}
    {
      hide Reclaims, AfterEvicting, DataStays;
      hide Inv, DirTie, CountTie, TableTie, DataTie, BitTie, KernelTie;
      hide View, FullViews, FilesKnown, ProgPage, Starving, Reached, Free;
      hide Thinned, NoDearer, CursorMoved, NothingToEvict, WithoutWalk, GaveNothing, KernelCopied;
      hide ProgTie, KernelPage, NoneFree, RowEmptyFrom;
      NoProgram(files);
      ghost var a, s0 := Here(), space;
      SetProgram(c, Prog(None, None));
      ghost var b, s2 := Here(), space;
      var tab; ghost var evicted; tab, evicted := GetFreePage();
      if tab == 0 {
        BootMissed(a, b, c);
        Retract(c);
        return false;
      }
      ghost var s3 := space;
      InstallTable(DirSlot(c, 0), tab);
      KernelRowStart(s2, s3, space, c, files, kernel);
      CopyKernelRow(c, s2);
      KernelWhole(T(), space, files, c);
      return true;
    }

    /** The child of task 0 got no page table; its program had been set. */
    lemma BootMissed(a: Point, b: Point, c: nat)
      requires Inv(b.s) && MissedAt(b) && b == a.(s := a.s.(org := b.s.org)) && SameOrg(a.s.org, b.s.org, c)
      requires forall v: VPage :: v.t != c ==> View(b.s, v) == View(a.s, v)
      ensures Starving(a, miss, Booting(c)) && Free(a.s) == {}
    {
      hide Inv, View, Reached, Free, Starving;
      ReachedRefl(b, Booting(c));
      StarvingChild(a, b, miss, Booting(c));
      NothingFree(b.s);
      NewbornUses(a.s, b.s);
    }

    /** The inner loop of copy_page_tables for task 0. */
    method CopyKernelRow(c: nat, ghost s2: Space)
      requires Valid() && c in space.org && DirSlot(c, 0) in space.dirs && UserDir(DirSlot(c, 0))
      requires OnlyTask(s2, space, c) && KernelCopied(kernel, space, c, 0) && RowEmptyFrom(space, c, 0, 0)
      modifies this`phys, this`space
      ensures Valid() && OnlyTask(s2, space, c) && KernelCopied(kernel, space, c, KERNEL_ENTRIES)
    {
      hide Inv, DirTie, CountTie, TableTie, DataTie, BitTie;
      hide ProgTie, View, FullViews, FilesKnown, OnlyTask, KernelCopied;
      var j := 0;
      while j < KERNEL_ENTRIES
        invariant 0 <= j <= KERNEL_ENTRIES
        invariant Valid() && OnlyTask(s2, space, c) && KernelCopied(kernel, space, c, j) && RowEmptyFrom(space, c, 0, j)
        invariant c in space.org && space.dirs == old(space.dirs)
      {
        ghost var m, s := T(), space;
        var w := VPage(c, 0, j);
        ReadDir(m, s, files, w.Dir());
        ReadEntry(m, s, files, w);
        var e := phys[pgDir[0].value].row[j].value;
        MapLowKeeps(s, w, e.frame, e.dirty);
        MapLowTied(m, s, files, w, e.frame, e.dirty);
        var to := pgDir[DirIndex(w.Dir())].value;
        phys := phys[to := Table(phys[to].row[j := Some(e.(rw := false))])];
        space := MapLow(s, w, e.frame, e.dirty);
        assert T() == SetEntry(m, s.dirs[w.Dir()], w.j, Some(Present(e.frame, false, e.dirty)));
        FullExcept(s, space, w);
        KernelStep(kernel, s2, s, space, w);
        j := j + 1;
      }
    }
  }
}
