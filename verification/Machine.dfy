/**
  The tables as the hardware and the kernel see them: the page directory, page tables
  that live in page frames, the mem_map bytes and the swap bitmap.  Each rewrite of
  these tables is shown to follow the corresponding rewrite of AddressSpace.
 */
module Machine {
  import opened Common
  import opened AddressSpace
  import opened Paging
  import opened Program

  const PAGES: nat := 3840        // PAGING_PAGES
  const SWAP_BITS: nat := 32768
  const NR_DIR: nat := 1024

  /** A page frame holds data or serves as a page table. */
  datatype Content = Data(page: Page) | Table(row: seq<Option<Pte>>)

  datatype Tables = Tables(
    dir: seq<Option<nat>>,
    mm: seq<int>,
    phys: map<nat, Content>,
    bitmap: seq<bool>,
    swap: map<nat, Page>,
    prog: map<nat, Prog>,
    kernel: seq<Page>)      // what the first pages of task 0 hold

  function DirIndex(d: DirSlot): nat { DIRS_PER_TASK * d.t + d.k }

  predicate UserDir(d: DirSlot) { 1 <= d.t < TASKS && d.k < DIRS_PER_TASK }

  function EmptyRow(): seq<Option<Pte>> { seq(ENTRIES, i => None) }

  function EntryOf(pt: PageTable, v: VPage): Option<Pte> {
    if v in pt then Some(pt[v]) else None
  }

  ghost predicate DirTie(dir: seq<Option<nat>>, dirs: Directory) {
    && |dir| == NR_DIR
    && forall d :: UserDir(d) ==> dir[DirIndex(d)] == if d in dirs then Some(dirs[d]) else None
  }

  ghost predicate CountTie(mm: seq<int>, pool: set<nat>, memMap: map<nat, nat>) {
    && |mm| == PAGES
    && (forall f :: f in pool ==> LOW <= f < LOW + PAGES && f in memMap && mm[f - LOW] == memMap[f])
    && (forall f :: LOW <= f < LOW + PAGES && f !in pool ==> mm[f - LOW] != 0)
  }

  ghost predicate RowTie(row: seq<Option<Pte>>, d: DirSlot, pt: PageTable) {
    && |row| == ENTRIES
    && forall j: nat :: j < ENTRIES ==> row[j] == EntryOf(pt, VPage(d.t, d.k, j))
  }

  ghost predicate TableTie(phys: map<nat, Content>, dirs: Directory, pt: PageTable) {
    forall d :: d in dirs ==> dirs[d] in phys && phys[dirs[d]].Table? && RowTie(phys[dirs[d]].row, d, pt)
  }

  predicate Holds(phys: map<nat, Content>, data: map<nat, Page>, f: nat) {
    f in phys && f in data && phys[f] == Data(data[f])
  }

  ghost predicate DataTie(phys: map<nat, Content>, held: set<nat>, pt: PageTable, data: map<nat, Page>) {
    && (forall f :: f in held ==> Holds(phys, data, f))
    && (forall v :: v in pt && pt[v].Present? ==> Holds(phys, data, pt[v].frame))
  }

  ghost predicate BitTie(bitmap: seq<bool>, slots: set<nat>, bits: set<nat>) {
    && |bitmap| == SWAP_BITS
    && (forall n :: n in slots ==> 1 <= n < SWAP_BITS)
    && (forall n: nat :: n < SWAP_BITS ==> bitmap[n] == (n in bits))
  }

  ghost predicate ProgTie(prog: map<nat, Prog>, org: map<nat, Origin>, files: map<nat, Image>) {
    && prog.Keys == org.Keys
    && (forall t :: t in prog ==> 1 <= t < TASKS)
    && (forall t, k, j :: t in prog ==> org[t](k, j) == ProgPage(files, prog[t], k, j))
  }

  /** The first 160 entries of task 0 map frames below LOW_MEM. */
  ghost predicate KernelTie(dir: seq<Option<nat>>, phys: map<nat, Content>, data: map<nat, Page>, kernel: seq<Page>) {
    && |dir| == NR_DIR && dir[0].Some? && |kernel| == KERNEL_ENTRIES
    && var kt := dir[0].value;
    && kt < LOW && kt in phys && phys[kt].Table? && |phys[kt].row| == ENTRIES
    && (forall j :: 0 <= j < KERNEL_ENTRIES ==>
          && phys[kt].row[j].Some? && phys[kt].row[j].value.Present?
          && phys[kt].row[j].value.frame < LOW && Holds(phys, data, phys[kt].row[j].value.frame)
          && data[phys[kt].row[j].value.frame] == kernel[j] && |kernel[j]| == PAGE_SIZE)
  }

  const KERNEL_ENTRIES: nat := 160

  ghost predicate Tied(m: Tables, s: Space, files: map<nat, Image>) {
    && DirTie(m.dir, s.dirs)
    && CountTie(m.mm, s.pool, s.memMap)
    && TableTie(m.phys, s.dirs, s.pt)
    && DataTie(m.phys, s.held, s.pt, s.data)
    && BitTie(m.bitmap, s.slots, s.bits)
    && m.swap == s.swap
    && ProgTie(m.prog, s.org, files)
    && KernelTie(m.dir, m.phys, s.data, m.kernel)
  }

  // ----- Reading through the ties

  lemma ReadDir(m: Tables, s: Space, files: map<nat, Image>, d: DirSlot)
    requires Tied(m, s, files) && UserDir(d)
    ensures DirIndex(d) < |m.dir|
    ensures m.dir[DirIndex(d)] == if d in s.dirs then Some(s.dirs[d]) else None
  {
  }

  lemma ReadEntry(m: Tables, s: Space, files: map<nat, Image>, v: VPage)
    requires Tied(m, s, files) && v.Dir() in s.dirs && v.j < ENTRIES
    ensures s.dirs[v.Dir()] in m.phys && m.phys[s.dirs[v.Dir()]].Table?
    ensures |m.phys[s.dirs[v.Dir()]].row| == ENTRIES
    ensures m.phys[s.dirs[v.Dir()]].row[v.j] == EntryOf(s.pt, v)
  {
    hide CountTie, DataTie, BitTie, ProgTie, KernelTie, DirTie;
    assert v == VPage(v.Dir().t, v.Dir().k, v.j);
  }

  lemma ReadFrame(m: Tables, s: Space, files: map<nat, Image>, v: VPage)
    requires Tied(m, s, files) && v in s.pt && s.pt[v].Present?
    ensures Holds(m.phys, s.data, s.pt[v].frame)
  {
  }

  lemma ReadCount(m: Tables, s: Space, files: map<nat, Image>, f: nat)
    requires Tied(m, s, files) && f in s.pool
    ensures LOW <= f < LOW + PAGES == LOW + |m.mm| && f in s.memMap && m.mm[f - LOW] == s.memMap[f]
  {
  }

  // ----- Rewrites of the tables

  function SetEntry(m: Tables, f: nat, j: nat, e: Option<Pte>): Tables
    requires f in m.phys && m.phys[f].Table? && j < |m.phys[f].row|
  {
    m.(phys := m.phys[f := Table(m.phys[f].row[j := e])])
  }

  lemma SetTwice(m: Tables, f: nat, j: nat, e: Option<Pte>, e': Option<Pte>)
    requires f in m.phys && m.phys[f].Table? && j < |m.phys[f].row|
    ensures SetEntry(SetEntry(m, f, j, e), f, j, e') == SetEntry(m, f, j, e')
  {
    assert m.phys[f].row[j := e][j := e'] == m.phys[f].row[j := e'];
    var r, r' := Table(m.phys[f].row[j := e]), Table(m.phys[f].row[j := e']);
    assert m.phys[f := r][f := r'] == m.phys[f := r'];
  }

  function SetPt(pt: PageTable, v: VPage, e: Option<Pte>): PageTable {
    if e.Some? then pt[v := e.value] else pt - {v}
  }

  lemma RowAfterSet(row: seq<Option<Pte>>, d: DirSlot, pt: PageTable, v: VPage, e: Option<Pte>)
    requires RowTie(row, d, pt) && v.j < ENTRIES
    ensures v.Dir() == d ==> RowTie(row[v.j := e], d, SetPt(pt, v, e))
    ensures v.Dir() != d ==> RowTie(row, d, SetPt(pt, v, e))
  {
  }

  /** Storing one word of a page table changes that entry and nothing else. */
  lemma TablesAfterSet(phys: map<nat, Content>, dirs: Directory, pt: PageTable, v: VPage, e: Option<Pte>)
    requires TableTie(phys, dirs, pt) && TablesApart(pt, dirs) && v.Dir() in dirs && v.j < ENTRIES
    ensures var f := dirs[v.Dir()];
            && f in phys && phys[f].Table? && |phys[f].row| == ENTRIES
            && TableTie(phys[f := Table(phys[f].row[v.j := e])], dirs, SetPt(pt, v, e))
  {
    var f := dirs[v.Dir()];
    assert RowTie(phys[f].row, v.Dir(), pt);
    var phys' := phys[f := Table(phys[f].row[v.j := e])];
    forall d | d in dirs ensures dirs[d] in phys' && phys'[dirs[d]].Table?
      && RowTie(phys'[dirs[d]].row, d, SetPt(pt, v, e)) {
      hide RowTie;
      RowAfterSet(phys[dirs[d]].row, d, pt, v, e);
    }
  }

  /** Writing a frame that is no page table leaves all tables alone. */
  lemma TablesAfterData(phys: map<nat, Content>, dirs: Directory, pt: PageTable, f: nat, c: Content)
    requires TableTie(phys, dirs, pt) && forall d :: d in dirs ==> dirs[d] != f
    ensures TableTie(phys[f := c], dirs, pt)
  {
    hide RowTie;
  }

  lemma TablesAfterAdd(phys: map<nat, Content>, dirs: Directory, pt: PageTable, d: DirSlot, f: nat)
    requires TableTie(phys, dirs, pt) && forall e :: e in dirs ==> dirs[e] != f
    requires InTables(pt, dirs) && d !in dirs
    ensures TableTie(phys[f := Table(EmptyRow())], dirs[d := f], pt)
  {
    assert RowTie(EmptyRow(), d, pt) by {
      forall j: nat | j < ENTRIES ensures VPage(d.t, d.k, j) !in pt {
        assert VPage(d.t, d.k, j).Dir() == d;
      }
    }
    hide RowTie;
  }

  /** Writing the frame of a page table changes no frame that tasks or the kernel read as data. */
  lemma DataAfterTable(phys: map<nat, Content>, held: set<nat>, pt: PageTable, data: map<nat, Page>, f: nat, c: Content)
    requires DataTie(phys, held, pt, data)
    requires f !in held && forall v :: v in pt && pt[v].Present? ==> pt[v].frame != f
    ensures DataTie(phys[f := c], held, pt, data)
  {
  }

  /** Writing a held frame. */
  lemma DataAfterFill(phys: map<nat, Content>, held: set<nat>, pt: PageTable, data: map<nat, Page>, f: nat, page: Page)
    requires DataTie(phys, held, pt, data)
    requires forall v :: v in pt && pt[v].Present? ==> pt[v].frame != f
    ensures DataTie(phys[f := Data(page)], held + {f}, pt, data[f := page])
  {
  }

  lemma KernelAfter(dir: seq<Option<nat>>, phys: map<nat, Content>, data: map<nat, Page>, kernel: seq<Page>, f: nat,
                    c: Content, page: Page)
    requires KernelTie(dir, phys, data, kernel) && LOW <= f
    ensures KernelTie(dir, phys[f := c], data, kernel)
    ensures KernelTie(dir, phys[f := c], data[f := page], kernel)
  {
  }

  // ----- The rewrites of AddressSpace, on the tables

  lemma AllocTied(m: Tables, s: Space, files: map<nat, Image>, f: nat)
    requires Inv(s) && Tied(m, s, files) && f in s.pool && s.memMap[f] == 0
    ensures LOW <= f < LOW + |m.mm|
    ensures Tied(m.(mm := m.mm[f - LOW := 1], phys := m.phys[f := Data(ZeroPage())]), Alloc(s, f, ZeroPage()), files)
  {
    hide CountTie, TableTie, DataTie, BitTie, ProgTie, KernelTie, DirTie;
    hide Counted, HeldApart, InTables, TablesPlaced, FramesPlaced;
    hide TablesApart, WriteExclusive, CleanIsBacked, SlotsOwned;
    ReadCount(m, s, files, f);
    FreeHasNoHolder(s, f);
    CountAfterSet(m.mm, s.pool, s.memMap, f, 1);
    TablesAfterData(m.phys, s.dirs, s.pt, f, Data(ZeroPage()));
    DataAfterFill(m.phys, s.held, s.pt, s.data, f, ZeroPage());
    KernelAfter(m.dir, m.phys, s.data, m.kernel, f, Data(ZeroPage()), ZeroPage());
  }

  lemma FillTied(m: Tables, s: Space, files: map<nat, Image>, f: nat, page: Page)
    requires Inv(s) && Tied(m, s, files) && f in s.held
    ensures Tied(m.(phys := m.phys[f := Data(page)]), Fill(s, f, page), files)
  {
    assert f in s.pool;
    hide DirTie, CountTie, TableTie, DataTie, BitTie, ProgTie, KernelTie;
    hide Counted, InTables, TablesPlaced, FramesPlaced, TablesApart, WriteExclusive, CleanIsBacked, SlotsOwned;
    TablesAfterData(m.phys, s.dirs, s.pt, f, Data(page));
    DataAfterFill(m.phys, s.held, s.pt, s.data, f, page);
    assert s.held + {f} == s.held;
    KernelAfter(m.dir, m.phys, s.data, m.kernel, f, Data(page), page);
  }

  lemma ReturnTied(m: Tables, s: Space, files: map<nat, Image>, f: nat)
    requires Inv(s) && Tied(m, s, files) && f in s.held
    ensures LOW <= f < LOW + |m.mm| && m.mm[f - LOW] == 1
    ensures Tied(m.(mm := m.mm[f - LOW := 0]), Return(s, f), files)
  {
    HeldHasNoOtherHolder(s, f);
    assert f in s.pool;
    ReadCount(m, s, files, f);
    hide TableTie, BitTie, ProgTie, KernelTie, DirTie;
    hide Counted, InTables, TablesPlaced, FramesPlaced, TablesApart, WriteExclusive, CleanIsBacked, SlotsOwned;
  }

  lemma AddTableTied(m: Tables, s: Space, files: map<nat, Image>, d: DirSlot, f: nat)
    requires Inv(s) && Tied(m, s, files) && f in s.held && d !in s.dirs && UserDir(d)
    ensures DirIndex(d) < |m.dir|
    ensures Tied(m.(dir := m.dir[DirIndex(d) := Some(f)], phys := m.phys[f := Table(EmptyRow())]), AddTable(s, d, f),
            files)
  {
    assert f in s.pool;
    DirAfterSet(m.dir, s.dirs, d, f);
    hide DirTie, CountTie, TableTie, BitTie, ProgTie;
    hide Counted, TablesPlaced, FramesPlaced, TablesApart, WriteExclusive, CleanIsBacked, SlotsOwned;
    assert InTables(s.pt, s.dirs);
    TablesAfterAdd(m.phys, s.dirs, s.pt, d, f);
    DataAfterTable(m.phys, s.held - {f}, s.pt, s.data, f, Table(EmptyRow()));
    KernelAfter(m.dir, m.phys, s.data, m.kernel, f, Table(EmptyRow()), []);
    assert DirIndex(d) > 0;
  }

  lemma DirAfterSet(dir: seq<Option<nat>>, dirs: Directory, d: DirSlot, f: nat)
    requires DirTie(dir, dirs) && UserDir(d)
    ensures DirIndex(d) < |dir|
    ensures DirTie(dir[DirIndex(d) := Some(f)], dirs[d := f])
    ensures DirTie(dir[DirIndex(d) := None], dirs - {d})
  {
  }

  lemma DropTableTied(m: Tables, s: Space, files: map<nat, Image>, d: DirSlot)
    requires Inv(s) && Tied(m, s, files) && d in s.dirs && UserDir(d)
    ensures DirIndex(d) < |m.dir| && LOW <= s.dirs[d] < LOW + |m.mm| && m.mm[s.dirs[d] - LOW] == 1
    ensures Tied(m.(dir := m.dir[DirIndex(d) := None], mm := m.mm[s.dirs[d] - LOW := 0]), DropTable(s, d), files)
  {
    hide DirTie, CountTie, DataTie, BitTie, ProgTie, RowTie;
    hide Inv, Counted, HeldApart, InTables, TablesPlaced;
    hide FramesPlaced, TablesApart, WriteExclusive, CleanIsBacked, SlotsOwned;
    TableCountIsOne(s, d);
    PlacedInPool(s, d);
    ReadCount(m, s, files, s.dirs[d]);
    DirAfterSet(m.dir, s.dirs, d, 0);
    CountAfterSet(m.mm, s.pool, s.memMap, s.dirs[d], 0);
    assert DirIndex(d) > 0;
  }

  /** The table word that Detach clears, and the count or bitmap bit that goes with it. */
  function ClearEntry(m: Tables, s: Space, v: VPage): Tables
    requires v in s.pt && v.Dir() in s.dirs
    requires s.dirs[v.Dir()] in m.phys && m.phys[s.dirs[v.Dir()]].Table? && v.j < |m.phys[s.dirs[v.Dir()]].row|
  {
    var m1 := SetEntry(m, s.dirs[v.Dir()], v.j, None);
    match s.pt[v]
    case Present(f, _, _) =>
      if LOW <= f < LOW + |m.mm| then m1.(mm := m.mm[f - LOW := m.mm[f - LOW] - 1]) else m1
    case Swapped(n) => if n < |m.bitmap| then m1.(bitmap := m.bitmap[n := true]) else m1
  }

  /** The part of the ties that a store into a page table can touch. */
  ghost predicate WordTie(m: Tables, s: Space, pt: PageTable) {
    && TableTie(m.phys, s.dirs, pt) && DataTie(m.phys, s.held, pt, s.data) && KernelTie(m.dir, m.phys, s.data, m.kernel)
    && TablesApart(pt, s.dirs) && HeldApart(s.pool, s.held, s.data, pt, s.dirs)
  }

  lemma WordStored(m: Tables, s: Space, pt: PageTable, v: VPage, e: Option<Pte>)
    requires WordTie(m, s, pt) && v.Dir() in s.dirs && v.j < ENTRIES
    requires LOW <= s.dirs[v.Dir()]
    ensures s.dirs[v.Dir()] in m.phys && m.phys[s.dirs[v.Dir()]].Table? && v.j < |m.phys[s.dirs[v.Dir()]].row|
    ensures var m' := SetEntry(m, s.dirs[v.Dir()], v.j, e);
            && TableTie(m'.phys, s.dirs, SetPt(pt, v, e))
            && DataTie(m'.phys, s.held, pt, s.data)
            && KernelTie(m.dir, m'.phys, s.data, m.kernel)
  {
    hide TableTie, DataTie, KernelTie;
    var f := s.dirs[v.Dir()];
    TablesAfterSet(m.phys, s.dirs, pt, v, e);
    var c := Table(m.phys[f].row[v.j := e]);
    DataAfterTable(m.phys, s.held, pt, s.data, f, c);
    KernelAfter(m.dir, m.phys, s.data, m.kernel, f, c, []);
  }

  lemma PlacedInPool(s: Space, d: DirSlot)
    requires Inv(s) && d in s.dirs
    ensures s.dirs[d] in s.pool && LOW <= s.dirs[d] && d.t in s.org
  {
  }

  /** A word stored in a page table disturbs neither data frames nor the kernel's table. */
  lemma StoredWord(m: Tables, s: Space, files: map<nat, Image>, v: VPage, e: Option<Pte>)
    requires Inv(s) && Tied(m, s, files) && v.Dir() in s.dirs && v.j < ENTRIES
    ensures s.dirs[v.Dir()] in m.phys && m.phys[s.dirs[v.Dir()]].Table? && v.j < |m.phys[s.dirs[v.Dir()]].row|
    ensures var m' := SetEntry(m, s.dirs[v.Dir()], v.j, e);
            && TableTie(m'.phys, s.dirs, SetPt(s.pt, v, e))
            && DataTie(m'.phys, s.held, s.pt, s.data)
            && KernelTie(m.dir, m'.phys, s.data, m.kernel)
  {
    hide DirTie, CountTie, TableTie, DataTie, BitTie, ProgTie, KernelTie;
    hide Counted, HeldApart, InTables, TablesPlaced, FramesPlaced;
    hide TablesApart, WriteExclusive, CleanIsBacked, SlotsOwned;
    PlacedInPool(s, v.Dir());
    WordStored(m, s, s.pt, v, e);
  }

  lemma DataAfterClear(phys: map<nat, Content>, held: set<nat>, pt: PageTable, data: map<nat, Page>, v: VPage)
    requires DataTie(phys, held, pt, data)
    ensures DataTie(phys, held, pt - {v}, data)
  {
  }

  lemma CountAfterSet(mm: seq<int>, pool: set<nat>, memMap: map<nat, nat>, f: nat, c: nat)
    requires CountTie(mm, pool, memMap) && f in pool
    ensures LOW <= f < LOW + |mm|
    ensures CountTie(mm[f - LOW := c], pool, memMap[f := c])
  {
  }

  lemma DetachFrame(s: Space, v: VPage)
    requires Inv(s) && v in s.pt && s.pt[v].Present?
    ensures s.pt[v].frame in s.pool <==> LOW <= s.pt[v].frame
    ensures s.pt[v].frame in s.pool ==> s.pt[v].frame in s.memMap && s.memMap[s.pt[v].frame] > 0
  {
    hide Counted, HeldApart, InTables, TablesPlaced, TablesApart, WriteExclusive, CleanIsBacked, SlotsOwned;
    DetachCounts(s, v);
  }

  lemma BitAfterSet(bitmap: seq<bool>, slots: set<nat>, bits: set<nat>, n: nat)
    requires BitTie(bitmap, slots, bits) && n in slots
    ensures n < |bitmap| && BitTie(bitmap[n := true], slots, bits + {n})
  {
  }

  lemma DetachTied(m: Tables, s: Space, files: map<nat, Image>, v: VPage)
    requires Inv(s) && Tied(m, s, files) && v in s.pt
    ensures v.Dir() in s.dirs && s.dirs[v.Dir()] in m.phys && m.phys[s.dirs[v.Dir()]].Table?
    ensures v.j < |m.phys[s.dirs[v.Dir()]].row|
    ensures Tied(ClearEntry(m, s, v), Detach(s, v), files)
  {
    hide Inv, DirTie, TableTie, DataTie, ProgTie, KernelTie, BitTie, CountTie;
    EntryIsPlaced(s, v);
    StoredWord(m, s, files, v, None);
    DataAfterClear(SetEntry(m, s.dirs[v.Dir()], v.j, None).phys, s.held, s.pt, s.data, v);
    if s.pt[v].Swapped? {
      BitAfterSet(m.bitmap, s.slots, s.bits, s.pt[v].slot);
    } else {
      DetachFrame(s, v);
      if LOW <= s.pt[v].frame {
        ReadCount(m, s, files, s.pt[v].frame);
        CountAfterSet(m.mm, s.pool, s.memMap, s.pt[v].frame, s.memMap[s.pt[v].frame] - 1);
      }
    }
  }

  lemma AttachTied(m: Tables, s: Space, files: map<nat, Image>, v: VPage, f: nat, rw: bool, dirty: bool)
    requires Inv(s) && Tied(m, s, files) && f in s.held && v.Dir() in s.dirs && v.j < ENTRIES
    ensures s.dirs[v.Dir()] in m.phys && m.phys[s.dirs[v.Dir()]].Table? && v.j < |m.phys[s.dirs[v.Dir()]].row|
    ensures Tied(SetEntry(m, s.dirs[v.Dir()], v.j, Some(Present(f, rw, dirty))), Attach(s, v, f, rw, dirty), files)
  {
    StoredWord(m, s, files, v, Some(Present(f, rw, dirty)));
    hide DirTie, CountTie, TableTie, BitTie, ProgTie, KernelTie;
    hide Counted, HeldApart, InTables, TablesPlaced, FramesPlaced;
    hide TablesApart, WriteExclusive, CleanIsBacked, SlotsOwned;
  }

  lemma BitAfterClear(bitmap: seq<bool>, slots: set<nat>, bits: set<nat>, n: nat)
    requires BitTie(bitmap, slots, bits) && n in slots
    ensures n < |bitmap| && BitTie(bitmap[n := false], slots, bits - {n})
  {
  }

  lemma DataAfterSlot(phys: map<nat, Content>, held: set<nat>, pt: PageTable, data: map<nat, Page>, v: VPage, n: nat)
    requires DataTie(phys, held, pt, data)
    ensures DataTie(phys, held, pt[v := Swapped(n)], data)
  {
  }

  lemma AttachSlotTied(m: Tables, s: Space, files: map<nat, Image>, v: VPage, n: nat)
    requires Inv(s) && Tied(m, s, files) && n in s.bits && v.Dir() in s.dirs && v.j < ENTRIES
    ensures s.dirs[v.Dir()] in m.phys && m.phys[s.dirs[v.Dir()]].Table? && v.j < |m.phys[s.dirs[v.Dir()]].row|
    ensures n < |m.bitmap|
    ensures Tied(SetEntry(m, s.dirs[v.Dir()], v.j, Some(Swapped(n))).(bitmap := m.bitmap[n := false]),
                 AttachSlot(s, v, n), files)
  {
    hide DirTie, CountTie, TableTie, DataTie, BitTie, ProgTie, KernelTie;
    hide Counted, HeldApart, InTables, TablesPlaced, FramesPlaced, TablesApart, WriteExclusive, CleanIsBacked;
    StoredWord(m, s, files, v, Some(Swapped(n)));
    DataAfterSlot(SetEntry(m, s.dirs[v.Dir()], v.j, Some(Swapped(n))).phys, s.held, s.pt, s.data, v, n);
    BitAfterClear(m.bitmap, s.slots, s.bits, n);
  }

  lemma FillSlotTied(m: Tables, s: Space, files: map<nat, Image>, n: nat, page: Page)
    requires Tied(m, s, files)
    ensures Tied(m.(swap := m.swap[n := page]), FillSlot(s, n, page), files)
  {
  }

  /** Rewriting the flags of an entry, or giving its frame to another page, keeps the roles of frames. */
  lemma RolesAfterSet(m: Tables, s: Space, pt: PageTable, v: VPage, w: VPage, e: Pte)
    requires v in pt && pt[v].Present? && e.Present? && e.frame == pt[v].frame
    requires DataTie(m.phys, s.held, pt, s.data) && TablesApart(pt, s.dirs)
             && HeldApart(s.pool, s.held, s.data, pt, s.dirs)
    ensures var pt' := pt[w := e];
            && DataTie(m.phys, s.held, pt', s.data) && TablesApart(pt', s.dirs)
            && HeldApart(s.pool, s.held, s.data, pt', s.dirs)
  {
  }

  /** The two table words and the count that Share rewrites. */
  function ShareEntry(m: Tables, s: Space, v: VPage, w: VPage): Tables
    requires v in s.pt && s.pt[v].Present? && v.Dir() in s.dirs && w.Dir() in s.dirs
    requires TableTie(m.phys, s.dirs, s.pt) && v.j < ENTRIES && w.j < ENTRIES
  {
    var e := Some(s.pt[v].(rw := false));
    var f := s.pt[v].frame;
    var tv, tw := s.dirs[v.Dir()], s.dirs[w.Dir()];
    assert RowTie(m.phys[tv].row, v.Dir(), s.pt) && RowTie(m.phys[tw].row, w.Dir(), s.pt);
    var m1 := SetEntry(SetEntry(m, tv, v.j, e), tw, w.j, e);
    if LOW <= f < LOW + |m.mm| then m1.(mm := m.mm[f - LOW := m.mm[f - LOW] + 1]) else m1
  }

  lemma ShareWords(m: Tables, s: Space, v: VPage, w: VPage)
    requires v in s.pt && s.pt[v].Present? && v.Dir() in s.dirs && w.Dir() in s.dirs && v.j < ENTRIES && w.j < ENTRIES
    requires WordTie(m, s, s.pt) && LOW <= s.dirs[v.Dir()] && LOW <= s.dirs[w.Dir()]
    ensures var m' := ShareEntry(m, s, v, w); var pt' := Shared(s.pt, v, w);
            TableTie(m'.phys, s.dirs, pt') && DataTie(m'.phys, s.held, pt', s.data)
              && KernelTie(m'.dir, m'.phys, s.data, m'.kernel)
  {
    hide TableTie, DataTie, KernelTie, TablesApart, HeldApart;
    var e := s.pt[v].(rw := false);
    WordStored(m, s, s.pt, v, Some(e));
    var m1 := SetEntry(m, s.dirs[v.Dir()], v.j, Some(e));
    var pt1 := s.pt[v := e];
    RolesAfterSet(m1, s, s.pt, v, v, e);
    WordStored(m1, s, pt1, w, Some(e));
    RolesAfterSet(SetEntry(m1, s.dirs[w.Dir()], w.j, Some(e)), s, pt1, v, w, e);
  }

  lemma ShareTied(m: Tables, s: Space, files: map<nat, Image>, v: VPage, w: VPage)
    requires Inv(s) && Tied(m, s, files) && v in s.pt && s.pt[v].Present? && w.Dir() in s.dirs && w.j < ENTRIES
    ensures v.Dir() in s.dirs && v.j < ENTRIES
    ensures Tied(ShareEntry(m, s, v, w), Share(s, v, w), files)
  {
    hide DirTie, TableTie, DataTie, ProgTie, KernelTie, BitTie, CountTie;
    hide Counted, HeldApart, InTables, TablesPlaced, FramesPlaced;
    hide TablesApart, WriteExclusive, CleanIsBacked, SlotsOwned;
    EntryIsPlaced(s, v);
    PlacedInPool(s, v.Dir());
    PlacedInPool(s, w.Dir());
    ShareWords(m, s, v, w);
    DetachFrame(s, v);
    if LOW <= s.pt[v].frame {
      ReadCount(m, s, files, s.pt[v].frame);
      CountAfterSet(m.mm, s.pool, s.memMap, s.pt[v].frame, s.memMap[s.pt[v].frame] + 1);
    }
  }

  /** A store through a writable entry, or after its protection is lifted. */
  function StoreEntry(m: Tables, s: Space, v: VPage, page: Page): Tables
    requires v in s.pt && s.pt[v].Present? && v.Dir() in s.dirs && v.j < ENTRIES && TableTie(m.phys, s.dirs, s.pt)
  {
    var tv := s.dirs[v.Dir()];
    assert RowTie(m.phys[tv].row, v.Dir(), s.pt);
    var m1 := SetEntry(m, tv, v.j, Some(Present(s.pt[v].frame, true, true)));
    m1.(phys := m1.phys[s.pt[v].frame := Data(page)])
  }

  lemma DataAfterStore(phys: map<nat, Content>, held: set<nat>, pt: PageTable, data: map<nat, Page>, f: nat, page: Page)
    requires DataTie(phys, held, pt, data) && f !in held
    ensures DataTie(phys[f := Data(page)], held, pt, data[f := page])
  {
  }

  lemma WriteTied(m: Tables, s: Space, files: map<nat, Image>, v: VPage, page: Page)
    requires Inv(s) && Tied(m, s, files) && v in s.pt && s.pt[v].Present? && LOW <= s.pt[v].frame
    ensures v.Dir() in s.dirs && v.j < ENTRIES
    ensures Tied(StoreEntry(m, s, v, page), Write(s, v, page), files)
  {
    hide DirTie, TableTie, DataTie, ProgTie, KernelTie, BitTie, CountTie;
    hide Counted, HeldApart, InTables, TablesPlaced, FramesPlaced, WriteExclusive, CleanIsBacked, SlotsOwned;
    EntryIsPlaced(s, v);
    PlacedInPool(s, v.Dir());
    var e := Present(s.pt[v].frame, true, true);
    WordStored(m, s, s.pt, v, Some(e));
    var m1 := SetEntry(m, s.dirs[v.Dir()], v.j, Some(e));
    RolesAfterSet(m1, s, s.pt, v, v, e);
    TablesAfterData(m1.phys, s.dirs, s.pt[v := e], e.frame, Data(page));
    DataAfterStore(m1.phys, s.held, s.pt[v := e], s.data, e.frame, page);
    KernelAfter(m.dir, m1.phys, s.data, m.kernel, e.frame, Data(page), page);
  }

  lemma SpawnTied(m: Tables, s: Space, files: map<nat, Image>, t: nat, p: Prog, o: Origin)
    requires Tied(m, s, files) && 1 <= t < TASKS
    requires forall k, j :: o(k, j) == ProgPage(files, p, k, j)
    ensures Tied(m.(prog := m.prog[t := p]), Spawn(s, t, o), files)
  {
    hide DirTie, TableTie, DataTie, KernelTie, BitTie, CountTie, ProgPage;
  }

  lemma RetireTied(m: Tables, s: Space, files: map<nat, Image>, t: nat)
    requires Tied(m, s, files)
    ensures Tied(m.(prog := m.prog - {t}), Retire(s, t), files)
  {
    hide DirTie, TableTie, DataTie, KernelTie, BitTie, CountTie, ProgPage;
  }

  // ----- Task 0

  /** copy_page_tables from task 0: a page is given a frame below LOW_MEM, write-protected. */
  function MapLow(s: Space, w: VPage, f: nat, dirty: bool): Space {
    s.(pt := s.pt[w := Present(f, false, dirty)])
  }

  lemma LowCounts(s: Space, w: VPage, f: nat, dirty: bool)
    requires Counted(s.pool, s.memMap, s.pt, s.dirs, s.held) && w !in s.pt && f !in s.pool
    ensures Counted(s.pool, s.memMap, s.pt[w := Present(f, false, dirty)], s.dirs, s.held)
  {
    forall g | g in s.pool ensures g in s.memMap && s.memMap[g] ==
      Holders(s.pt[w := Present(f, false, dirty)], s.dirs, s.held, g) {
      RefsAfterSet(s.pt, w, Present(f, false, dirty), g);
      assert w !in Refs(s.pt, g);
    }
  }

  lemma LowFits(s: Space, w: VPage, e: Pte)
    requires Inv(s) && w.Dir() in s.dirs && w.j < ENTRIES && e.Present? && e.frame < LOW && e.frame in s.data
    ensures Fits(s, s.held, w, e)
  {
    hide Counted, InTables, FramesPlaced, TablesApart, WriteExclusive, CleanIsBacked, SlotsOwned;
  }

  lemma MapLowKeeps(s: Space, w: VPage, f: nat, dirty: bool)
    requires Inv(s) && w !in s.pt && w.Dir() in s.dirs && w.j < ENTRIES && w.t in s.org && f < LOW && f in s.data
    ensures Inv(MapLow(s, w, f, dirty)) && SameViews(s, MapLow(s, w, f, dirty), {w})
    ensures View(MapLow(s, w, f, dirty), w) == Some(s.data[f])
  {
    hide Counted, HeldApart, InTables, TablesPlaced, FramesPlaced;
    hide TablesApart, WriteExclusive, CleanIsBacked, SlotsOwned;
    assert f !in s.pool;
    assert Fits(s, s.held, w, Present(f, false, dirty)) by { LowFits(s, w, Present(f, false, dirty)); }
    RolesAfterEntry(s, s.held, w, Present(f, false, dirty));
    ExclusiveAfterEntry(s.pt, w, Present(f, false, dirty));
    CleanAfterEntry(s.pt, s.data, s.org, w, Present(f, false, dirty));
    LowCounts(s, w, f, dirty);
    SlotsAfterPresent(s.pt, s.pt[w := Present(f, false, dirty)], s.slots, s.bits, s.swap);
  }

  lemma DataAfterLow(phys: map<nat, Content>, held: set<nat>, pt: PageTable, data: map<nat, Page>, w: VPage, e: Pte)
    requires DataTie(phys, held, pt, data) && e.Present? && Holds(phys, data, e.frame)
    ensures DataTie(phys, held, pt[w := e], data)
  {
  }

  lemma MapLowTied(m: Tables, s: Space, files: map<nat, Image>, w: VPage, f: nat, dirty: bool)
    requires Inv(s) && Tied(m, s, files) && w.Dir() in s.dirs && w.j < ENTRIES && f < LOW && Holds(m.phys, s.data, f)
    ensures s.dirs[w.Dir()] in m.phys && m.phys[s.dirs[w.Dir()]].Table? && w.j < |m.phys[s.dirs[w.Dir()]].row|
    ensures Tied(SetEntry(m, s.dirs[w.Dir()], w.j, Some(Present(f, false, dirty))), MapLow(s, w, f, dirty), files)
  {
    hide DirTie, TableTie, DataTie, ProgTie, KernelTie, BitTie, CountTie;
    hide Counted, HeldApart, InTables, TablesPlaced, FramesPlaced;
    hide WriteExclusive, CleanIsBacked, SlotsOwned, TablesApart;
    PlacedInPool(s, w.Dir());
    StoredWord(m, s, files, w, Some(Present(f, false, dirty)));
    var m1 := SetEntry(m, s.dirs[w.Dir()], w.j, Some(Present(f, false, dirty)));
    DataAfterLow(m1.phys, s.held, s.pt, s.data, w, Present(f, false, dirty));
  }
}
