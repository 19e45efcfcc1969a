/**
  Failures for want of memory: the state in which get_free_page had nothing to give, and
  how the operation that failed came to be there.
 */
module Shortage {
  import opened Common
  import opened AddressSpace
  import opened Paging
  import opened Program
  import opened Machine
  import opened Growth
  import opened MemoryFacts
  import opened SwapWalk

  /** The address spaces, and where swap_out's walk rests. */
  datatype Point = Point(s: Space, dirEntry: int, pageEntry: int)

  /** Where get_free_page was called in vain; if it was not to walk, only free frames count. */
  datatype Miss = Miss(at: Point, walked: bool)

  ghost predicate GaveNothing(m: Miss) {
    && NoneFree(m.at.s)
    && (m.walked ==> InRing(m.at.dirEntry) && NothingToEvict(m.at.s, m.at.dirEntry, m.at.pageEntry))
  }

  predicate OnTable(b: Point) {
    InRing(b.dirEntry) && Mapped(b.s.dirs, b.dirEntry) && b.pageEntry >= 0
  }

  /** The walk's cursor moves only by an eviction, which leaves it on a page of a table. */
  predicate CursorMoved(a: Point, b: Point) {
    (b.dirEntry == a.dirEntry && b.pageEntry == a.pageEntry) || OnTable(b)
  }

  lemma CursorStays(a: Point, b: Point, b': Point)
    requires CursorMoved(a, b) && b' == b.(s := b'.s) && b'.s.dirs == b.s.dirs
    ensures CursorMoved(a, b')
  {
  }

  /** From a to b pages have been reclaimed and the work has gone on. */
  ghost predicate Reached(a: Point, b: Point, w: Work) { Grown(a.s, b.s, w) && CursorMoved(a, b) }

  predicate AtMostWith(held: set<nat>, more: set<nat>, f: nat) { held <= more <= held + {f} }

  /** Reclaiming is modelled neither where a store copies a page, nor where a page is about to be shared. */
  predicate WithoutWalk(s: Space, w: Work) {
    && w.At?
    && if w.v in s.pt then s.pt[w.v].Present? && !s.pt[w.v].rw
       else
         && w.v.Dir() !in s.dirs
         && exists p: nat {:trigger VPage(p, w.v.k, w.v.j)} :: p < TASKS && Shareable(s, VPage(p, w.v.k, w.v.j))
  }

  /**
    On the way from a, get_free_page had nothing to give: the work had added no more than tables and entries
    of its own, the kernel held at most one frame more, and nobody but a task in the making read anything else.
   */
  ghost predicate Starving(a: Point, m: Miss, w: Work) {
    && GaveNothing(m) && (m.walked || WithoutWalk(m.at.s, w))
    && Inv(m.at.s) && Reached(a, m.at, w) && (exists f :: AtMostWith(a.s.held, m.at.s.held, f))
    && (forall v: VPage :: v.t != Newborn(w) ==> View(m.at.s, v) == View(a.s, v))
  }

  /** Why the work w, begun at a, was not done: too few frames were free, and it came to where none was to be had. */
  ghost predicate OutOfFrames(a: Point, m: Miss, w: Work) { Starving(a, m, w) && |Free(a.s)| < Needs(a.s, w) }

  /** An access to page v needs a frame: the page is not there, or it is to be written and others may read it. */
  predicate NeedsFrame(s: Space, v: VPage, store: bool) {
    !(v in s.pt && s.pt[v].Present? && (store ==> s.pt[v].rw || SoleHolder(s, s.pt[v].frame)))
  }

  predicate SoleHolder(s: Space, f: nat) { f in s.pool && f in s.memMap && s.memMap[f] == 1 }

  // ----- How far the work has come

  lemma ReachedRefl(a: Point, w: Work)
    ensures Reached(a, a, w)
  {
    GrownRefl(a.s, w);
  }

  lemma ReachedReclaimed(a: Point, b: Point, b': Point, w: Work)
    requires Reached(a, b, w) && Reclaimed(b.s, b'.s) && CursorMoved(b, b')
    ensures Reached(a, b', w)
  {
    hide Grown, View, NoDearer, Thinned;
    GrownThenThinned(a.s, b.s, b'.s, w);
  }

  /** Pages have been reclaimed before the work went on. */
  lemma ReachedFrom(a: Point, a': Point, b: Point, w: Work)
    requires Thinned(a.s.pt, a'.s.pt) && CursorMoved(a, a') && Reached(a', b, w)
    requires a'.s.pool == a.s.pool && a'.s.dirs == a.s.dirs && a'.s.slots == a.s.slots && a'.s.org == a.s.org
    requires w.At? && w.v in a.s.pt ==> a.s.pt[w.v].Swapped?
    ensures Reached(a, b, w)
  {
    assert forall d :: d in a'.s.dirs ==> d in b.s.dirs;
    hide Grown, Thinned;
    ThinnedThenGrown(a.s, a'.s, b.s, w);
  }

  lemma ReachedEntry(a: Point, b: Point, b': Point, w: Work, v: VPage)
    requires Reached(a, b, w) && b' == b.(s := b'.s) && v in b'.s.pt && b'.s.pt == b.s.pt[v := b'.s.pt[v]]
    requires b'.s.pool == b.s.pool && b'.s.dirs == b.s.dirs && b'.s.slots == b.s.slots && b'.s.org == b.s.org
    requires (v in a.s.pt && Kept(a.s.pt[v], b'.s.pt[v])) || EntryExtra(a.s.pt, w, v, b'.s.pt[v])
    ensures Reached(a, b', w)
  {
    hide Grown;
    GrownEntry(a.s, b.s, b'.s, w, v);
  }

  lemma ReachedTable(a: Point, b: Point, b': Point, w: Work, d: DirSlot, f: nat)
    requires Reached(a, b, w) && d !in b.s.dirs && f in b.s.held && b' == b.(s := AddTable(b.s, d, f))
    requires TableExtra(a.s.dirs, w, d)
    ensures Reached(a, b', w)
  {
    hide Grown;
    GrownTable(a.s, b.s, b'.s, w, d, f);
  }

  /** Page v is shared with the page of the fault, w. */
  lemma ReachedShare(a: Point, b: Point, b': Point, v: VPage, w: VPage)
    requires Reached(a, b, At(w)) && b.s.pt == a.s.pt && v in b.s.pt && b.s.pt[v].Present? && w !in b.s.pt
    requires b' == b.(s := Share(b.s, v, w))
    ensures Reached(a, b', At(w))
  {
    hide Reached;
    var b1 := b.(s := b.s.(pt := b.s.pt[v := b.s.pt[v].(rw := false)]));
    ReachedEntry(a, b, b1, At(w), v);
    ReachedEntry(a, b1, b', At(w), w);
  }

  // ----- How an operation fails

  lemma StarvingIf(a: Point, m: Miss, w: Work, f: nat)
    requires GaveNothing(m) && (m.walked || WithoutWalk(m.at.s, w)) && Inv(m.at.s) && Reached(a, m.at, w)
    requires AtMostWith(a.s.held, m.at.s.held, f)
    requires forall v: VPage :: v.t != Newborn(w) ==> View(m.at.s, v) == View(a.s, v)
    ensures Starving(a, m, w)
  {
  }

  lemma StarvingHere(a: Point, m: Miss, w: Work)
    requires Inv(a.s) && m.at == a && GaveNothing(m) && (m.walked || WithoutWalk(a.s, w))
    ensures Starving(a, m, w)
  {
    hide Inv, View, GaveNothing, WithoutWalk, Reached;
    ReachedRefl(a, w);
    StarvingIf(a, m, w, 0);
  }

  /** One frame may have been taken in the meantime. */
  lemma StarvingWith(a: Point, m: Miss, w: Work, f: nat)
    requires GaveNothing(m) && (m.walked || WithoutWalk(m.at.s, w)) && Inv(m.at.s) && Reached(a, m.at, w)
    requires AtMostWith(a.s.held, m.at.s.held, f) && SameViews(a.s, m.at.s, {})
    ensures Starving(a, m, w)
  {
    hide Inv, View, GaveNothing, WithoutWalk, Reached;
    StarvingIf(a, m, w, f);
  }

  /** The tables of a child were being made, whose program had been set before. */
  lemma StarvingChild(a: Point, a': Point, m: Miss, w: Work)
    requires GaveNothing(m) && m.walked && Inv(m.at.s) && OnlyTask(a'.s, m.at.s, Newborn(w)) && Reached(a', m.at, w)
    requires a' == a.(s := a.s.(org := a'.s.org)) && SameOrg(a.s.org, a'.s.org, Newborn(w))
    requires forall v: VPage :: v.t != Newborn(w) ==> View(a'.s, v) == View(a.s, v)
    ensures Starving(a, m, w)
  {
    hide Inv, View, GaveNothing, WithoutWalk, Grown;
    GrownNewborn(a.s, a'.s, m.at.s, w);
    StarvingIf(a, m, w, 0);
  }

  /** The child's task page had been taken before. */
  lemma StarvingFork(a: Point, a': Point, m: Miss, w: Work, f: nat)
    requires Starving(a', m, w) && m.walked && !w.At? && m.at.s.held == a'.s.held == a.s.held + {f}
    requires Reclaimed(a.s, a'.s) && CursorMoved(a, a')
    ensures Starving(a, m, w)
  {
    hide Inv, View, GaveNothing, WithoutWalk, Reached, Thinned, NoDearer;
    ReachedFrom(a, a', m.at, w);
    StarvingIf(a, m, w, f);
  }

  // ----- How far a fork has come

  /**
    On the way from a, task p's tables up to i and its entries up to (k, j) have been copied to task c; the
    frames that have been used for that are at least made up for by the calls that are no longer to come.
   */
  ghost predicate Forked(a: Point, b: Point, p: nat, c: nat, i: nat, k: nat, j: nat) {
    && Reached(a, b, Forking(p, c)) && Untouched(a.s.pt, b.s.pt, p, k, j)
    && Budget(b.s, p, i, k, j) <= Budget(a.s, p, 0, 0, 0)
  }

  lemma ForkStarts(a: Point, p: nat, c: nat)
    ensures Forked(a, a, p, c, 0, 0, 0)
  {
    ReachedRefl(a, Forking(p, c));
  }

  /** Nothing is there to be copied, or all of a table has been. */
  lemma ForkMovesOn(a: Point, b: Point, p: nat, c: nat, i: nat, k: nat, j: nat, i': nat, k': nat, j': nat)
    requires Forked(a, b, p, c, i, k, j) && i <= i' && Behind(k', j', k, j)
    ensures Forked(a, b, p, c, i', k', j')
  {
    hide Reached, Budget, Kept;
    BudgetFalls(b.s, p, i, k, j, i', k', j');
  }

  lemma ForkReclaims(a: Point, b: Point, b': Point, p: nat, c: nat, i: nat, k: nat, j: nat)
    requires Forked(a, b, p, c, i, k, j) && Reclaimed(b.s, b'.s) && CursorMoved(b, b')
    ensures Forked(a, b', p, c, i, k, j)
  {
    hide Reached, Thinned, View, Outlay, Untouched;
    ReachedReclaimed(a, b, b', Forking(p, c));
    UntouchedThinned(a.s.pt, b.s.pt, b'.s.pt, p, k, j);
    assert Outlay(b'.s, p, k, j) <= Outlay(b.s, p, k, j);
  }

  lemma ForkAddsTable(a: Point, b: Point, b': Point, p: nat, c: nat, k: nat, f: nat)
    requires Forked(a, b, p, c, k, k, 0) && p != c && f in b.s.held
    requires DirSlot(p, k) in b.s.dirs && DirSlot(c, k) !in b.s.dirs && b' == b.(s := AddTable(b.s, DirSlot(c, k), f))
    ensures Forked(a, b', p, c, k + 1, k, 0)
  {
    assert DirSlot(p, k) in a.s.dirs;
    hide Reached, Budget, Untouched;
    ReachedTable(a, b, b', Forking(p, c), DirSlot(c, k), f);
    BudgetForTable(b.s, p, c, k, f);
  }

  /** The child takes over the slot of a swapped-out page, and the parent gets a frame. */
  lemma ForkHandsOver(a: Point, b: Point, b': Point, v: VPage, w: VPage, i: nat, f: nat)
    requires Forked(a, b, v.t, w.t, i, v.k, v.j) && v.t != w.t && v.k == w.k && v.j == w.j
    requires v in b.s.pt && b.s.pt[v].Swapped? && f in b.s.held && b'.s.held == b.s.held - {f}
    requires b' == b.(s := b'.s) && b'.s.pool == b.s.pool && b'.s.memMap == b.s.memMap && b'.s.dirs == b.s.dirs
    requires b'.s.slots == b.s.slots && b'.s.org == b.s.org
    requires b'.s.pt == b.s.pt[w := b.s.pt[v]][v := Present(f, true, true)]
    ensures Forked(a, b', v.t, w.t, i, v.k, v.j + 1)
  {
    var work := Forking(v.t, w.t);
    assert v in a.s.pt && Kept(a.s.pt[v], b.s.pt[v]);
    hide Reached, Budget;
    var b1 := b.(s := b.s.(pt := b.s.pt[w := b.s.pt[v]]));
    ReachedEntry(a, b, b1, work, w);
    ReachedEntry(a, b1, b', work, v);
    BudgetForPage(b.s, b'.s, v, w, i, f);
  }

  lemma ForkShares(a: Point, b: Point, b': Point, v: VPage, w: VPage, i: nat)
    requires Forked(a, b, v.t, w.t, i, v.k, v.j) && v.t != w.t && v.k == w.k && v.j == w.j
    requires v in b.s.pt && b.s.pt[v].Present? && b' == b.(s := Share(b.s, v, w))
    requires b.s.pt[v].frame in b.s.pool && b.s.pt[v].frame in b.s.memMap ==> b.s.memMap[b.s.pt[v].frame] > 0
    ensures Forked(a, b', v.t, w.t, i, v.k, v.j + 1)
  {
    var work := Forking(v.t, w.t);
    assert v in a.s.pt && Kept(a.s.pt[v], b.s.pt[v]);
    hide Reached, Budget;
    var e := b.s.pt[v].(rw := false);
    var b1 := b.(s := b.s.(pt := b.s.pt[v := e]));
    ReachedEntry(a, b, b1, work, v);
    ReachedEntry(a, b1, b', work, w);
    BudgetForShare(b.s, v, w, i);
  }

  /** get_free_page fails in the course of a fork only if fewer frames were free than it has calls to make. */
  lemma ForkMisses(a: Point, b: Point, p: nat, c: nat, i: nat, k: nat, j: nat)
    requires Forked(a, b, p, c, i, k, j) && OnlyTask(a.s, b.s, c) && NoneFree(b.s)
    requires DirSlot(p, i) in b.s.dirs || (VPage(p, k, j) in b.s.pt && b.s.pt[VPage(p, k, j)].Swapped?)
    ensures |Free(a.s)| < Calls(a.s, p) && Reached(a, b, Forking(p, c))
  {
    hide Reached, Budget, View;
    assert DirSlot(p, i) in b.s.dirs ==> DirSlot(p, i) in TablesFrom(b.s.dirs, p, i);
    var v := VPage(p, k, j);
    assert v in b.s.pt && b.s.pt[v].Swapped? ==> v in SwappedFrom(b.s.pt, p, k, j);
    BudgetMissed(a.s, b.s, p, i, k, j);
  }

  // ----- How many frames were free

  /** A frame has been taken before, so one more was free then at most. */
  lemma OneTaken(s: Space, s': Space, f: nat)
    requires Inv(s) && Reclaimed(s, s') && f !in s.held && s'.held == s.held + {f}
    ensures |Free(s)| <= |Free(s')| + 1
  {
    hide Inv, View, NoDearer, Thinned;
    UseAfter(s, s');
    FreeCount(s);
    FreeCount(s');
  }

  /** A frame may have been used for a page table before. */
  lemma OneUsed(s: Space, s': Space)
    requires NoneFree(s') && s'.pool == s.pool && |Used(s')| <= |Used(s)| + 1
    ensures |Free(s)| < 2
  {
    NoneFreeCount(s');
    FreeCount(s);
  }

  lemma NothingFree(s: Space)
    requires NoneFree(s)
    ensures Free(s) == {}
  {
  }

  lemma NewbornUses(s: Space, s': Space)
    requires s' == s.(org := s'.org)
    ensures Used(s') == Used(s) && Free(s') == Free(s) && forall p: nat :: Calls(s', p) == Calls(s, p)
  {
  }

  lemma OneTakenForFork(s: Space, s': Space, p: nat, c: nat, f: nat)
    requires Inv(s) && Reclaimed(s, s') && f !in s.held && s'.held == s.held + {f}
    requires |Free(s')| < Calls(s', p)
    ensures |Free(s)| < Needs(s, Forking(p, c))
  {
    hide Inv, View, Thinned;
    assert Outlay(s', p, 0, 0) <= Outlay(s, p, 0, 0);
    FreeCount(s);
    FreeCount(s');
  }
}
