/**
  What an operation of the memory manager may have done by the time it runs out of page
  frames: the tables and entries it may have added, and the frames it may have used up.
 */
module Growth {
  import opened Common
  import opened AddressSpace

  // ----- Tables and entries

  /** What becomes of an entry by reclaiming and sharing, if it does not go: a dirty page may move to a swap slot. */
  predicate Kept(a: Pte, b: Pte) {
    if a.Present? && b.Present? then b.frame == a.frame && b.dirty == a.dirty && (b.rw ==> a.rw)
    else b == a || (a.Present? && a.dirty && b.Swapped?)
  }

  ghost predicate Thinned(pt: PageTable, pt': PageTable) {
    forall v :: v in pt' ==> v in pt && Kept(pt[v], pt'[v])
  }

  /** What needs frames: a fault at a page, a fork of task p into c, or a fork of task 0 into c. */
  datatype Work = At(v: VPage) | Forking(p: nat, c: nat) | Booting(c: nat)

  /** The number of no task. */
  const NOBODY: nat := TASKS

  /** The task that is being made. */
  function Newborn(w: Work): nat {
    match w
    case At(_) => NOBODY
    case Forking(_, c) => c
    case Booting(c) => c
  }

  /** A page table that the work may have added: a child gets one for each of its parent's. */
  predicate TableExtra(dirs: Directory, w: Work, d: DirSlot) {
    match w
    case At(v) => d == v.Dir()
    case Forking(p, c) => d.t == c && DirSlot(p, d.k) in dirs
    case Booting(_) => false
  }

  /**
    An entry that the work may have added or rewritten.  A child shares the frames of its parent, or takes
    over swap slots; the parent's pages come back for that, if they are or have been swapped out.
   */
  predicate EntryExtra(pt: PageTable, w: Work, v: VPage, e: Pte) {
    match w
    case At(x) => v == x && (x in pt ==> pt[x].Swapped?)
    case Forking(p, c) =>
      if v.t == c then
        var x := VPage(p, v.k, v.j);
        x in pt && (e.Present? ==> pt[x].Present? && pt[x].frame == e.frame)
      else v.t == p && v in pt && (pt[v].Swapped? || pt[v].dirty)
    case Booting(_) => false
  }

  ghost predicate GrownTables(dirs: Directory, dirs': Directory, w: Work) {
    && (forall d :: d in dirs ==> d in dirs' && dirs'[d] == dirs[d])
    && (forall d :: d in dirs' ==> d in dirs || TableExtra(dirs, w, d))
  }

  ghost predicate GrownEntries(pt: PageTable, pt': PageTable, w: Work) {
    forall v :: v in pt' ==> (v in pt && Kept(pt[v], pt'[v])) || EntryExtra(pt, w, v, pt'[v])
  }

  ghost predicate SameOrg(org: map<nat, Origin>, org': map<nat, Origin>, t: nat) {
    forall u :: u != t ==> (u in org' <==> u in org) && (u in org ==> org'[u] == org[u])
  }

  /** Between s and s' pages have been reclaimed and the work w has gone on, and nothing else. */
  ghost predicate Grown(s: Space, s': Space, w: Work) {
    && s'.pool == s.pool && s'.slots == s.slots && SameOrg(s.org, s'.org, Newborn(w))
    && GrownTables(s.dirs, s'.dirs, w) && GrownEntries(s.pt, s'.pt, w)
  }

  lemma GrownRefl(s: Space, w: Work)
    ensures Grown(s, s, w) && Thinned(s.pt, s.pt)
  {
  }

  lemma ThinnedTrans(pt: PageTable, pt': PageTable, pt'': PageTable)
    requires Thinned(pt, pt') && Thinned(pt', pt'')
    ensures Thinned(pt, pt'')
  {
  }

  /** Pages are reclaimed in the course of the work. */
  lemma GrownThenThinned(s: Space, s': Space, s'': Space, w: Work)
    requires Grown(s, s', w) && Thinned(s'.pt, s''.pt)
    requires s''.pool == s'.pool && s''.dirs == s'.dirs && s''.slots == s'.slots && s''.org == s'.org
    ensures Grown(s, s'', w)
  {
    hide EntryExtra;
    forall v | v in s''.pt ensures (v in s.pt && Kept(s.pt[v], s''.pt[v])) || EntryExtra(s.pt, w, v, s''.pt[v]) {
      if EntryExtra(s.pt, w, v, s'.pt[v]) { ExtraThinned(s.pt, w, v, s'.pt[v], s''.pt[v]); }
    }
  }

  lemma ExtraThinned(pt: PageTable, w: Work, v: VPage, e: Pte, e': Pte)
    requires EntryExtra(pt, w, v, e) && Kept(e, e')
    ensures EntryExtra(pt, w, v, e')
  {
  }

  /** Pages are reclaimed before the work begins; a page with a fault was not there even then. */
  lemma ThinnedThenGrown(s: Space, s': Space, s'': Space, w: Work)
    requires Thinned(s.pt, s'.pt) && Grown(s', s'', w)
    requires s'.pool == s.pool && s'.dirs == s.dirs && s'.slots == s.slots && s'.org == s.org
    requires w.At? && w.v in s.pt ==> s.pt[w.v].Swapped?
    ensures Grown(s, s'', w)
  {
    hide EntryExtra, Thinned;
    forall v | v in s''.pt ensures (v in s.pt && Kept(s.pt[v], s''.pt[v])) || EntryExtra(s.pt, w, v, s''.pt[v]) {
      if EntryExtra(s'.pt, w, v, s''.pt[v]) {
        ThinnedExtra(s.pt, s'.pt, w, v, s''.pt[v]);
      } else {
        ThinnedAt(s.pt, s'.pt, v);
      }
    }
  }

  lemma ThinnedAt(pt: PageTable, pt': PageTable, v: VPage)
    requires Thinned(pt, pt') && v in pt'
    ensures v in pt && Kept(pt[v], pt'[v])
  {
  }

  lemma ThinnedExtra(pt: PageTable, pt': PageTable, w: Work, v: VPage, e: Pte)
    requires Thinned(pt, pt') && EntryExtra(pt', w, v, e)
    requires w.At? && w.v in pt ==> pt[w.v].Swapped?
    ensures EntryExtra(pt, w, v, e)
  {
  }

  /** The work goes on with an entry, or with a table. */
  lemma GrownEntry(s: Space, s': Space, s'': Space, w: Work, v: VPage)
    requires Grown(s, s', w) && v in s''.pt && s''.pt == s'.pt[v := s''.pt[v]]
    requires s''.pool == s'.pool && s''.dirs == s'.dirs && s''.slots == s'.slots && s''.org == s'.org
    requires (v in s.pt && Kept(s.pt[v], s''.pt[v])) || EntryExtra(s.pt, w, v, s''.pt[v])
    ensures Grown(s, s'', w)
  {
    hide EntryExtra, Kept;
  }

  lemma GrownTable(s: Space, s': Space, s'': Space, w: Work, d: DirSlot, f: nat)
    requires Grown(s, s', w) && d !in s'.dirs && s''.dirs == s'.dirs[d := f]
    requires s''.pool == s'.pool && s''.pt == s'.pt && s''.slots == s'.slots && s''.org == s'.org
    requires TableExtra(s.dirs, w, d)
    ensures Grown(s, s'', w)
  {
  }

  /** The new task's program is set before the work begins. */
  lemma GrownNewborn(s: Space, s': Space, s'': Space, w: Work)
    requires s' == s.(org := s'.org) && SameOrg(s.org, s'.org, Newborn(w)) && Grown(s', s'', w)
    ensures Grown(s, s'', w)
  {
  }

  // ----- Entries of a parent that fork has not come to

  /** Entry (k, j) of some task is at or behind entry (i, q). */
  predicate Behind(k: nat, j: nat, i: nat, q: nat) { k > i || (k == i && j >= q) }

  /** From entry (k, j) on, nothing but reclaiming has happened to the entries of task p. */
  ghost predicate Untouched(pt: PageTable, pt': PageTable, p: nat, k: nat, j: nat) {
    forall v :: v in pt' && v.t == p && Behind(v.k, v.j, k, j) ==> v in pt && Kept(pt[v], pt'[v])
  }

  lemma UntouchedThinned(pt: PageTable, pt': PageTable, pt'': PageTable, p: nat, k: nat, j: nat)
    requires Untouched(pt, pt', p, k, j) && Thinned(pt', pt'')
    ensures Untouched(pt, pt'', p, k, j)
  {
  }

  // ----- Frames

  function Used(s: Space): set<nat> {
    set f | f in s.pool && f in s.memMap && s.memMap[f] != 0
  }

  function Free(s: Space): set<nat> { s.pool - Used(s) }

  function SwappedFrom(pt: PageTable, p: nat, k: nat, j: nat): set<VPage> {
    set v | v in pt && v.t == p && Behind(v.k, v.j, k, j) && pt[v].Swapped?
  }

  function TablesFrom(dirs: Directory, p: nat, k: nat): set<DirSlot> {
    set d | d in dirs && d.t == p && d.k >= k
  }

  /** The frames in use for tables and pages, and those that the swapped-out pages of task p from (k, j) on need. */
  function Outlay(s: Space, p: nat, k: nat, j: nat): int {
    |Used(s)| - |s.held| + |SwappedFrom(s.pt, p, k, j)|
  }

  /** Reclaiming: every frame that it frees is at most replaced by one that a swapped-out page will need. */
  ghost predicate NoDearer(s: Space, s': Space) {
    forall p: nat, k: nat, j: nat :: Outlay(s', p, k, j) <= Outlay(s, p, k, j)
  }

  lemma CleanEvictionNoDearer(s: Space, s': Space, v: VPage)
    requires s'.pool == s.pool && s'.held == s.held && Used(s') <= Used(s) && s'.pt == s.pt - {v}
    ensures NoDearer(s, s')
  {
    SubsetCard(Used(s'), Used(s));
    forall p: nat, k: nat, j: nat ensures Outlay(s', p, k, j) <= Outlay(s, p, k, j) {
      SubsetCard(SwappedFrom(s'.pt, p, k, j), SwappedFrom(s.pt, p, k, j));
    }
  }

  lemma DirtyEvictionNoDearer(s: Space, s': Space, v: VPage, n: nat)
    requires v in s.pt && s.pt[v].Present? && s.pt[v].frame in Used(s) && s'.pool == s.pool && s'.held == s.held
    requires Used(s') == Used(s) - {s.pt[v].frame} && s'.pt == s.pt[v := Swapped(n)]
    ensures NoDearer(s, s')
  {
    assert |Used(s')| == |Used(s)| - 1;
    forall p: nat, k: nat, j: nat ensures Outlay(s', p, k, j) <= Outlay(s, p, k, j) {
      SubsetCard(SwappedFrom(s'.pt, p, k, j), SwappedFrom(s.pt, p, k, j) + {v});
    }
  }

  /** A frame that is handed to the kernel is in use, and held. */
  lemma AllocNoDearer(s: Space, f: nat, zero: Page)
    requires f in s.pool && f in s.memMap && s.memMap[f] == 0 && f !in s.held
    ensures NoDearer(s, Alloc(s, f, zero)) && Used(Alloc(s, f, zero)) == Used(s) + {f}
  {
    var s' := Alloc(s, f, zero);
    assert Used(s') == Used(s) + {f};
  }

  lemma TableUses(s: Space, d: DirSlot, f: nat)
    ensures Used(AddTable(s, d, f)) == Used(s)
  {
  }

  lemma FillUses(s: Space, f: nat, page: Page)
    ensures Used(Fill(s, f, page)) == Used(s) && Free(Fill(s, f, page)) == Free(s)
  {
  }

  lemma FreeCount(s: Space)
    ensures |Free(s)| == |s.pool| - |Used(s)|
  {
    assert s.pool == Free(s) + Used(s);
  }

  lemma NoneFreeCount(s: Space)
    requires forall f :: f in s.pool ==> f in s.memMap && s.memMap[f] != 0
    ensures Free(s) == {} && |Used(s)| == |s.pool|
  {
    assert Used(s) == s.pool;
  }

  /** No task has a seventeenth page table, so here only the frames in use count. */
  lemma OutlayIsUse(s: Space)
    requires Inv(s)
    ensures Outlay(s, NOBODY, DIRS_PER_TASK, 0) == |Used(s)| - |s.held|
  {
    forall v | v in s.pt ensures v.k < DIRS_PER_TASK { assert v.Dir() in s.dirs; }
    assert SwappedFrom(s.pt, NOBODY, DIRS_PER_TASK, 0) == {};
  }

  /** Apart from frames that the kernel got, reclaiming never brings a frame into use. */
  lemma UseAfter(s: Space, s': Space)
    requires Inv(s) && NoDearer(s, s')
    ensures |Used(s')| - |s'.held| <= |Used(s)| - |s.held|
  {
    OutlayIsUse(s);
    assert Outlay(s', NOBODY, DIRS_PER_TASK, 0) <= Outlay(s, NOBODY, DIRS_PER_TASK, 0);
  }

  // ----- The frames a fork takes

  /** get_free_page is called once for each page table of task p and for each of its swapped-out pages. */
  function Calls(s: Space, p: nat): nat { |TablesFrom(s.dirs, p, 0)| + |SwappedFrom(s.pt, p, 0, 0)| }

  /** So many frames are free that the work cannot fail. */
  function Needs(s: Space, w: Work): nat {
    match w
    case At(_) => 2
    case Forking(p, _) => 1 + Calls(s, p)
    case Booting(_) => 2
  }

  /** The outlay of a fork that has to copy the tables from i on and the pages from (k, j) on. */
  function Budget(s: Space, p: nat, i: nat, k: nat, j: nat): int {
    Outlay(s, p, k, j) + |TablesFrom(s.dirs, p, i)|
  }

  lemma BudgetFalls(s: Space, p: nat, i: nat, k: nat, j: nat, i': nat, k': nat, j': nat)
    requires i <= i' && Behind(k', j', k, j)
    ensures Budget(s, p, i', k', j') <= Budget(s, p, i, k, j)
  {
    SubsetCard(SwappedFrom(s.pt, p, k', j'), SwappedFrom(s.pt, p, k, j));
    SubsetCard(TablesFrom(s.dirs, p, i'), TablesFrom(s.dirs, p, i));
  }

  /** A frame that was held becomes the child's k-th table. */
  lemma BudgetForTable(s: Space, p: nat, c: nat, k: nat, f: nat)
    requires p != c && DirSlot(p, k) in s.dirs && DirSlot(c, k) !in s.dirs && f in s.held
    ensures Budget(AddTable(s, DirSlot(c, k), f), p, k + 1, k, 0) <= Budget(s, p, k, k, 0)
  {
    var s' := AddTable(s, DirSlot(c, k), f);
    assert Used(s') == Used(s);
    SubsetCard(TablesFrom(s'.dirs, p, k + 1), TablesFrom(s.dirs, p, k) - {DirSlot(p, k)});
    assert DirSlot(p, k) in TablesFrom(s.dirs, p, k);
  }

  /** A frame that was held becomes the parent's page, whose slot the child has taken over. */
  lemma BudgetForPage(s: Space, s': Space, v: VPage, w: VPage, i: nat, f: nat)
    requires v in s.pt && s.pt[v].Swapped? && v.t != w.t && f in s.held && s'.held == s.held - {f}
    requires s'.pool == s.pool && s'.memMap == s.memMap && s'.dirs == s.dirs
    requires s'.pt == s.pt[w := s.pt[v]][v := Present(f, true, true)]
    ensures Budget(s', v.t, i, v.k, v.j + 1) <= Budget(s, v.t, i, v.k, v.j)
  {
    assert Used(s') == Used(s);
    SubsetCard(SwappedFrom(s'.pt, v.t, v.k, v.j + 1), SwappedFrom(s.pt, v.t, v.k, v.j) - {v});
    assert v in SwappedFrom(s.pt, v.t, v.k, v.j);
  }

  /** Sharing a page uses no frame. */
  lemma BudgetForShare(s: Space, v: VPage, w: VPage, i: nat)
    requires v in s.pt && s.pt[v].Present? && v.t != w.t
    requires s.pt[v].frame in s.pool && s.pt[v].frame in s.memMap ==> s.memMap[s.pt[v].frame] > 0
    ensures Used(Share(s, v, w)) == Used(s)
    ensures Budget(Share(s, v, w), v.t, i, v.k, v.j + 1) <= Budget(s, v.t, i, v.k, v.j)
  {
    var s' := Share(s, v, w);
    assert Used(s') == Used(s);
    SubsetCard(SwappedFrom(s'.pt, v.t, v.k, v.j + 1), SwappedFrom(s.pt, v.t, v.k, v.j));
  }

  /** If no frame is free although one more is needed, then there were fewer free than calls to come. */
  lemma BudgetMissed(s: Space, s': Space, p: nat, i: nat, k: nat, j: nat)
    requires Budget(s', p, i, k, j) <= Budget(s, p, 0, 0, 0) && s'.pool == s.pool && s'.held == s.held
    requires forall f :: f in s'.pool ==> f in s'.memMap && s'.memMap[f] != 0
    requires TablesFrom(s'.dirs, p, i) != {} || SwappedFrom(s'.pt, p, k, j) != {}
    ensures |Free(s)| < Calls(s, p)
  {
    NoneFreeCount(s');
    FreeCount(s);
  }
}
