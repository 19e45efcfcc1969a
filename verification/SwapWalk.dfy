/**
  The walk of swap_out in mm/swap.c: from where the last call stopped it goes round the page
  tables of all tasks with a budget of one step for every page they could have.  Directory
  entries passed over at the start are paid for twice, so the walk may end before it has
  come round to the first part of the table it started in.
 */
module SwapWalk {
  import opened Common
  import opened AddressSpace
  import opened Program
  import opened Machine
  import opened MemoryFacts

  /** The directory entries of tasks other than task 0, in a ring. */
  const RING: int := NR_DIR - DIRS_PER_TASK

  predicate InRing(d: int) { DIRS_PER_TASK <= d < NR_DIR }

  /** The i-th directory entry after d. */
  function Ring(d: int, i: int): (r: int)
    requires InRing(d) && 0 <= i <= RING
    ensures InRing(r)
  {
    if d + i < NR_DIR then d + i else d + i - RING
  }

  /** How far d is after the entry at start. */
  function Steps(start: int, d: int): (i: int)
    requires InRing(start) && InRing(d)
    ensures 0 <= i < RING && Ring(start, i) == d
  {
    if d >= start then d - start else d - start + RING
  }

  predicate Mapped(dirs: Directory, d: int)
    requires InRing(d)
  {
    DirSlot(d / DIRS_PER_TASK, d % DIRS_PER_TASK) in dirs
  }

  function PageAt(d: int, j: nat): VPage
    requires InRing(d)
  {
    VPage(d / DIRS_PER_TASK, d % DIRS_PER_TASK, j)
  }

  /** The first k directory entries from d on have no table. */
  predicate AbsentFor(dirs: Directory, d: int, k: int)
    requires InRing(d)
  {
    forall i :: 0 <= i < k <= RING ==> !Mapped(dirs, Ring(d, i))
  }

  /**
    The pages the walk does not come to, from a cursor that rests on directory entry d and page
    entry pe: those up to pe in the first table there is, if that is not the table at d itself;
    and the very first, if pe is 0 and there is no table just before d.
   */
  predicate Missed(dirs: Directory, d: int, pe: int, v: VPage)
    requires InRing(d)
  {
    && UserDir(v.Dir()) && v.j <= pe
    && var e := DirIndex(v.Dir());
      && AbsentFor(dirs, d, Steps(d, e))
      && (e != d || (pe == 0 && !Mapped(dirs, Ring(d, RING - 1))))
  }

  /** Nothing can be evicted of what the walk comes to. */
  ghost predicate NothingToEvict(s: Space, d: int, pe: int)
    requires InRing(d)
  {
    forall v :: Evictable(s, v) ==> Missed(s.dirs, d, pe, v)
  }

  /** The cursor misses nothing. */
  predicate WalkIsComplete(dirs: Directory, d: int, pe: int)
    requires InRing(d)
  {
    if Mapped(dirs, d) then !(pe == 0 && !Mapped(dirs, Ring(d, RING - 1))) else pe == -1
  }

  /** A cursor misses some page exactly if there is a table and the cursor is not complete. */
  lemma CompleteIff(dirs: Directory, d: int, pe: int, e: int)
    requires InRing(d) && InRing(e) && Mapped(dirs, e) && -1 <= pe < ENTRIES
    ensures WalkIsComplete(dirs, d, pe) <==>
              forall f, j: nat :: InRing(f) && Mapped(dirs, f) && j < ENTRIES ==> !Missed(dirs, d, pe, PageAt(f, j))
  {
    if WalkIsComplete(dirs, d, pe) {
      forall f, j: nat | InRing(f) && Mapped(dirs, f) && j < ENTRIES ensures !Missed(dirs, d, pe, PageAt(f, j)) {
        if f != d && Mapped(dirs, d) { assert Ring(d, 0) == d; }
      }
    } else {
      var k := FirstTable(dirs, d, e);
      assert AbsentFor(dirs, d, Steps(d, Ring(d, k)));
      assert Missed(dirs, d, pe, PageAt(Ring(d, k), 0));
    }
  }

  /** The first table from d on. */
  lemma FirstTable(dirs: Directory, d: int, e: int) returns (k: int)
    requires InRing(d) && InRing(e) && Mapped(dirs, e)
    ensures 0 <= k < RING && Mapped(dirs, Ring(d, k)) && AbsentFor(dirs, d, k) && Steps(d, Ring(d, k)) == k
  {
    k := 0;
    while !Mapped(dirs, Ring(d, k))
      invariant 0 <= k <= Steps(d, e) && AbsentFor(dirs, d, k)
      decreases RING - k
    {
      k := k + 1;
    }
  }

  // ----- The walk, step by step

  /** Position (i, j), i entries on, has been come to after starting behind (k, pe) and getting to (s, p). */
  predicate Seen(k: int, pe: int, i: int, j: int, s: int, p: int) {
    && (k < i || (k == i && pe < j))
    && (i < s || (i == s && j <= p))
  }

  /** None of the pages seen can be evicted. */
  ghost predicate NoneSeen(sp: Space, d: int, k: int, pe: int, s: int, p: int)
    requires InRing(d)
  {
    forall i, j: nat :: 0 <= i <= RING && j < ENTRIES && Seen(k, pe, i, j, s, p) ==>
      !Evictable(sp, PageAt(Ring(d, i), j))
  }

  /** What is left of the budget at (s, p). */
  function Left(pe: int, s: int, p: int): int { (RING - s) * ENTRIES - p + pe }

  /** Where the walk can be: k entries were passed over at the start. */
  ghost predicate OnWalk(dirs: Directory, d: int, pe: int, k: int, s: int)
    requires InRing(d)
  {
    && 0 <= k <= s <= RING && AbsentFor(dirs, d, k) && (k < RING ==> Mapped(dirs, Ring(d, k)))
    && (s == RING && k < RING ==> pe > 0 || Mapped(dirs, Ring(d, RING - 1)))
  }

  /** What the walk comes to is not among the missed. */
  lemma ComeToNotMissed(dirs: Directory, d: int, pe: int, k: int, s: int, p: int)
    requires InRing(d) && OnWalk(dirs, d, pe, k, s) && k < RING && -1 <= pe && 0 <= p < ENTRIES
    requires (s > k || p > pe) && Left(pe, s, p) >= 0 && Mapped(dirs, Ring(d, s))
    ensures !Missed(dirs, d, pe, PageAt(Ring(d, s), p))
  {
    if s == RING {
      assert Ring(d, RING) == d && Ring(d, 0) == d;
    } else {
      assert Steps(d, Ring(d, s)) == s;
      assert k < s ==> !AbsentFor(dirs, d, s);
    }
  }

  lemma EvictableMapped(sp: Space, v: VPage)
    requires Inv(sp) && Evictable(sp, v) && forall t :: t in sp.org ==> 1 <= t < TASKS
    ensures UserDir(v.Dir()) && v.j < ENTRIES && Mapped(sp.dirs, DirIndex(v.Dir()))
            && PageAt(DirIndex(v.Dir()), v.j) == v
  {
    EntryIsThere(sp, v);
  }

  lemma EntryIsThere(sp: Space, v: VPage)
    requires Inv(sp) && v in sp.pt
    ensures v.Dir() in sp.dirs && v.j < ENTRIES && v.t in sp.org && v.k < DIRS_PER_TASK
  {
    assert v.Dir() in sp.dirs;
  }

  /** When the budget is used up, or the walk stops at a missing table, all but the missed have been seen. */
  lemma WalkOver(sp: Space, d: int, pe: int, k: int, s: int, p: int)
    requires Inv(sp) && (forall t :: t in sp.org ==> 1 <= t < TASKS)
    requires InRing(d) && -1 <= pe < ENTRIES && -1 <= p < ENTRIES && OnWalk(sp.dirs, d, pe, k, s)
    requires NoneSeen(sp, d, k, pe, s, p)
    requires k == RING || Left(pe, s, p) == 0 || (p == -1 && !Mapped(sp.dirs, Ring(d, s)) && Left(pe, s + 1, 0) <= 0)
    ensures NothingToEvict(sp, d, pe)
  {
    hide Inv, Evictable, Missed, Seen, OnWalk, NoneSeen;
    forall v | Evictable(sp, v) ensures Missed(sp.dirs, d, pe, v) {
      EvictableMapped(sp, v);
      var i := Steps(d, DirIndex(v.Dir()));
      NotSeen(sp, d, k, pe, s, p, i, v.j);
      if i == 0 { NotSeen(sp, d, k, pe, s, p, RING, v.j); }
      UnseenIsMissed(sp.dirs, d, pe, k, s, p, v);
    }
  }

  lemma UnseenIsMissed(dirs: Directory, d: int, pe: int, k: int, s: int, p: int, v: VPage)
    requires InRing(d) && -1 <= pe < ENTRIES && -1 <= p < ENTRIES && OnWalk(dirs, d, pe, k, s)
    requires k == RING || Left(pe, s, p) == 0 || (p == -1 && !Mapped(dirs, Ring(d, s)) && Left(pe, s + 1, 0) <= 0)
    requires UserDir(v.Dir()) && v.j < ENTRIES && Mapped(dirs, DirIndex(v.Dir()))
    requires !Seen(k, pe, Steps(d, DirIndex(v.Dir())), v.j, s, p)
    requires Steps(d, DirIndex(v.Dir())) == 0 ==> !Seen(k, pe, RING, v.j, s, p)
    ensures Missed(dirs, d, pe, v)
  {
    assert Steps(d, DirIndex(v.Dir())) >= k;
  }

  lemma NotSeen(sp: Space, d: int, k: int, pe: int, s: int, p: int, i: int, j: nat)
    requires InRing(d) && 0 <= i <= RING && NoneSeen(sp, d, k, pe, s, p)
    requires j < ENTRIES && Evictable(sp, PageAt(Ring(d, i), j))
    ensures !Seen(k, pe, i, j, s, p)
  {
  }

  // ----- How the walk goes on

  lemma SeenOne(sp: Space, d: int, k: int, pe: int, s: int, p: int)
    requires InRing(d) && 0 <= s <= RING && 0 <= p && NoneSeen(sp, d, k, pe, s, p - 1)
    requires !Evictable(sp, PageAt(Ring(d, s), p))
    ensures NoneSeen(sp, d, k, pe, s, p)
  {
  }

  lemma SeenTable(sp: Space, d: int, k: int, pe: int, s: int)
    requires InRing(d) && NoneSeen(sp, d, k, pe, s, ENTRIES - 1)
    ensures NoneSeen(sp, d, k, pe, s + 1, -1)
  {
  }

  lemma SeenAbsent(sp: Space, d: int, k: int, pe: int, s: int)
    requires Inv(sp) && InRing(d) && 0 <= s <= RING && NoneSeen(sp, d, k, pe, s, -1) && !Mapped(sp.dirs, Ring(d, s))
    ensures NoneSeen(sp, d, k, pe, s + 1, -1)
  {
    forall j: nat ensures !Evictable(sp, PageAt(Ring(d, s), j)) {
      var v := PageAt(Ring(d, s), j);
      if v in sp.pt { EntryIsThere(sp, v); }
    }
  }

  lemma WalkStarts(sp: Space, d: int, pe: int, k: int)
    requires InRing(d) && 0 <= k <= RING && AbsentFor(sp.dirs, d, k) && (k < RING ==> Mapped(sp.dirs, Ring(d, k)))
    ensures OnWalk(sp.dirs, d, pe, k, k) && NoneSeen(sp, d, k, pe, k, pe)
  {
  }

  /** From the end of one table to the next directory entry. */
  lemma NextTable(sp: Space, d: int, pe: int, k: int, s: int)
    requires InRing(d) && OnWalk(sp.dirs, d, pe, k, s) && k < RING && Left(pe, s, ENTRIES - 1) > 0 && pe < ENTRIES
    requires Mapped(sp.dirs, Ring(d, s)) && NoneSeen(sp, d, k, pe, s, ENTRIES - 1)
    ensures s < RING && OnWalk(sp.dirs, d, pe, k, s + 1) && NoneSeen(sp, d, k, pe, s + 1, -1)
  {
    SeenTable(sp, d, k, pe, s);
  }

  /** Past a directory entry without a table. */
  lemma NoTable(sp: Space, d: int, pe: int, k: int, s: int)
    requires Inv(sp) && InRing(d) && OnWalk(sp.dirs, d, pe, k, s) && k < RING && Left(pe, s + 1, 0) > 0 && pe < ENTRIES
    requires !Mapped(sp.dirs, Ring(d, s)) && NoneSeen(sp, d, k, pe, s, -1)
    ensures s < RING && OnWalk(sp.dirs, d, pe, k, s + 1) && NoneSeen(sp, d, k, pe, s + 1, -1)
  {
    SeenAbsent(sp, d, k, pe, s);
  }

  // ----- What is left after a page has been evicted

  /** No managed frame is free. */
  ghost predicate NoneFree(s: Space) {
    forall f :: f in s.pool ==> f in s.memMap && s.memMap[f] != 0
  }

  /** get_free_page has nothing to give: no frame is free and the walk finds nothing to evict. */
  ghost predicate NoMemoryLeft(s: Space, d: int, pe: int)
    requires InRing(d)
  {
    NoneFree(s) && NothingToEvict(s, d, pe)
  }

  /** Page v has gone, to its slot or to what backs it. */
  ghost predicate Evicted(s: Space, s': Space, v: VPage) {
    && Evictable(s, v)
    && s'.pool == s.pool && s'.dirs == s.dirs && s'.held == s.held
    && (s'.pt == s.pt - {v} || exists n :: s'.pt == s.pt[v := Swapped(n)])
  }

  /** The cursor rests where a page was evicted: the walk from here misses nothing that can be. */
  ghost predicate AfterHit(s: Space, d: int, pe: int)
    requires InRing(d)
  {
    Mapped(s.dirs, d) && pe >= 0 && !Evictable(s, PageAt(d, pe))
  }

  lemma HitNotMissed(s: Space, d: int, pe: int, v: VPage)
    requires InRing(d) && AfterHit(s, d, pe) && Evictable(s, v)
    requires UserDir(v.Dir()) && PageAt(DirIndex(v.Dir()), v.j) == v
    ensures !Missed(s.dirs, d, pe, v)
  {
    var e := DirIndex(v.Dir());
    assert Ring(d, 0) == d;
    assert e != d ==> Steps(d, e) > 0;
  }

  lemma HitIsOnTable(s: Space, d: int, pe: int)
    requires InRing(d) && AfterHit(s, d, pe)
    ensures Mapped(s.dirs, d) && pe >= 0
  {
  }

  lemma HitMissesNothing(s: Space, d: int, pe: int)
    requires InRing(d) && AfterHit(s, d, pe) && NothingToEvict(s, d, pe) && Inv(s)
    requires forall t :: t in s.org ==> 1 <= t < TASKS
    ensures forall v :: !Evictable(s, v)
  {
    forall v ensures !Evictable(s, v) {
      if Evictable(s, v) {
        EvictableMapped(s, v);
        HitNotMissed(s, d, pe, v);
      }
    }
  }

  /** Frame f is held by nobody but clean entries, so it can be freed by evicting them. */
  ghost predicate Draining(s: Space, f: nat) {
    && f in s.pool && f !in s.held && (forall d :: d in s.dirs ==> s.dirs[d] != f)
    && (forall v :: v in s.pt && s.pt[v].Present? && s.pt[v].frame == f ==> Clean(s.pt[v]))
  }

  lemma EvictionDrains(s: Space, s': Space, v: VPage)
    requires Inv(s) && Evicted(s, s', v)
    ensures Draining(s', s.pt[v].frame)
  {
    var f := s.pt[v].frame;
    if s.pt[v].dirty { DirtyIsSole(s, v); }
    forall w | w in s.pt && w != v && s.pt[w].Present? && s.pt[w].frame == f ensures Clean(s.pt[w]) {
      if !s.pt[v].dirty { assert SameFrame(s.pt[v], s.pt[w]); }
    }
  }

  lemma DirtyIsSole(s: Space, v: VPage)
    requires Inv(s) && Evictable(s, v) && s.pt[v].dirty
    ensures forall w :: w in s.pt && s.pt[w].Present? && s.pt[w].frame == s.pt[v].frame ==> w == v
  {
    assert v in Refs(s.pt, s.pt[v].frame);
    SoleMapping(s, v, s.pt[v].frame);
    assert forall w :: w in s.pt && s.pt[w].Present? && s.pt[w].frame == s.pt[v].frame ==>
           w in Refs(s.pt, s.pt[v].frame);
  }

  lemma DrainingGoesOn(s: Space, s': Space, v: VPage, f: nat)
    requires Draining(s, f) && Evicted(s, s', v)
    ensures Draining(s', f)
  {
  }

  /** As long as such a frame is not free, one of its entries can be evicted. */
  lemma DrainingFrees(s: Space, f: nat)
    requires Inv(s) && Draining(s, f) && forall v :: !Evictable(s, v)
    ensures !NoneFree(s)
  {
    assert DirRefs(s.dirs, f) == {};
    assert s.memMap[f] == Holders(s.pt, s.dirs, s.held, f);
    assert Refs(s.pt, f) == {} by {
      if v :| v in Refs(s.pt, f) { assert Evictable(s, v); }
    }
  }

  /** A page that is not missed has been evicted, and the cursor is on it. */
  lemma Hit(s: Space, s': Space, d: int, pe: int, v: VPage)
    requires InRing(d) && Evicted(s, s', v) && !Missed(s.dirs, d, pe, v)
    requires UserDir(v.Dir()) && v.Dir() in s.dirs
    ensures !NothingToEvict(s, d, pe) && AfterHit(s', DirIndex(v.Dir()), v.j)
  {
    assert PageAt(DirIndex(v.Dir()), v.j) == v;
  }

  lemma SomeFree(s: Space, f: nat)
    requires f in s.pool && f in s.memMap && s.memMap[f] == 0
    ensures !NoneFree(s)
  {
  }

  ghost function Drains(s: Space, s': Space, v: VPage, before: bool, f: nat): (g: nat)
    requires Inv(s) && Evicted(s, s', v) && (before ==> Draining(s, f))
    ensures Draining(s', g)
  {
    if before then
      DrainingGoesOn(s, s', v, f);
      f
    else
      EvictionDrains(s, s', v);
      s.pt[v].frame
  }

  /** From a complete cursor the walk fails exactly if no page at all can be evicted. */
  lemma CompleteWalk(s: Space, d: int, pe: int)
    requires Inv(s) && (forall t :: t in s.org ==> 1 <= t < TASKS)
    requires InRing(d) && -1 <= pe < ENTRIES && WalkIsComplete(s.dirs, d, pe)
    ensures NothingToEvict(s, d, pe) <==> forall v :: !Evictable(s, v)
  {
    hide Inv, Evictable, Missed, WalkIsComplete;
    forall v | Evictable(s, v) ensures !Missed(s.dirs, d, pe, v) {
      EvictableMapped(s, v);
      var e := DirIndex(v.Dir());
      CompleteIff(s.dirs, d, pe, e);
      assert !Missed(s.dirs, d, pe, PageAt(e, v.j));
    }
  }

  // ----- A page that is missed

  /** One task with one page, in the second of its tables; both frames there are in use, one swap slot is free. */
  function OnePage(): Space {
    Space({256, 257}, map[DirSlot(1, 1) := 256], map[VPage(1, 1, 0) := Present(257, true, true)],
          map[256 := 1, 257 := 1], {}, map[257 := ZeroPage()], {1}, {1}, map[], map[1 := (k, j) => ZeroPage()])
  }

  lemma OnePageCounted()
    ensures var s := OnePage();
            && Counted(s.pool, s.memMap, s.pt, s.dirs, s.held) && HeldApart(s.pool, s.held, s.data, s.pt, s.dirs)
            && InTables(s.pt, s.dirs) && TablesPlaced(s.pool, s.dirs, s.org) && FramesPlaced(s.pool, s.data, s.pt)
  {
    var s := OnePage();
    assert Refs(s.pt, 257) == {VPage(1, 1, 0)} && DirRefs(s.dirs, 257) == {};
    assert Refs(s.pt, 256) == {} && DirRefs(s.dirs, 256) == {DirSlot(1, 1)};
  }

  lemma OnePageApart()
    ensures var s := OnePage();
            && TablesApart(s.pt, s.dirs) && WriteExclusive(s.pt) && CleanIsBacked(s.pt, s.data, s.org)
            && SlotsOwned(s.pt, s.slots, s.bits, s.swap)
  {
  }

  /** The page can be evicted, but not by a walk that starts on the missing first table, behind page entry 0. */
  lemma MissedExample()
    ensures Inv(OnePage()) && FullViews(OnePage()) && Evictable(OnePage(), VPage(1, 1, 0))
    ensures NoMemoryLeft(OnePage(), 16, 0)
  {
    OnePageCounted();
    OnePageApart();
    hide Counted, HeldApart, InTables, TablesPlaced, FramesPlaced;
    hide TablesApart, WriteExclusive, CleanIsBacked, SlotsOwned;
    assert Missed(OnePage().dirs, 16, 0, VPage(1, 1, 0));
  }
}
