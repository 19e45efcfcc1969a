/**
  The pages that get_free_page evicts before a frame is free: the state and the cursor of
  swap_out's walk determine the list.
 */
module Evictions {
  import opened Common
  import opened AddressSpace
  import opened Paging
  import opened Program
  import opened Machine
  import opened MemoryFacts
  import opened SwapWalk

  // ----- One eviction

  predicate IsLeast(bits: set<nat>, n: nat) { n in bits && forall m :: m in bits ==> n <= m }

  lemma HasLeast(bits: set<nat>)
    requires bits != {}
    ensures exists n :: IsLeast(bits, n)
    decreases |bits|
  {
    var n :| n in bits;
    if m :| m in bits && m != n {
      assert m in bits - {n};
      HasLeast(bits - {n});
      var least :| IsLeast(bits - {n}, least);
      assert forall m :: m in bits ==> m == n || m in bits - {n};
      assert IsLeast(bits, if least < n then least else n);
    } else {
      assert IsLeast(bits, n);
    }
  }

  /** get_swap_page takes the first free slot. */
  ghost function Least(bits: set<nat>): (n: nat)
    requires bits != {}
    ensures IsLeast(bits, n)
  {
    HasLeast(bits);
    var n :| IsLeast(bits, n);
    n
  }

  /** try_to_swap_out: a clean page is dropped, a dirty one moves to the first free slot. */
  ghost function Evict(s: Space, v: VPage): Space {
    if !Evictable(s, v) || s.pt[v].frame !in s.data then s
    else if s.pt[v].dirty then SwapOut(s, v, Least(s.bits))
    else Detach(s, v)
  }

  lemma EvictClean(s: Space, v: VPage)
    requires Inv(s) && Evictable(s, v) && !s.pt[v].dirty
    ensures Evict(s, v) == Detach(s, v)
  {
    EntryIsPlaced(s, v);
  }

  lemma EvictDirty(s: Space, v: VPage, n: nat)
    requires Inv(s) && Evictable(s, v) && s.pt[v].dirty && IsLeast(s.bits, n)
    ensures s.pt[v].frame in s.data && Evict(s, v) == SwapOut(s, v, n)
  {
    EntryIsPlaced(s, v);
  }

  lemma FirstSetBit(m: Tables, s: Space, files: map<nat, Image>, n: nat)
    requires Inv(s) && Tied(m, s, files) && 1 <= n < SWAP_BITS && n < |m.bitmap| && m.bitmap[n]
    requires forall q :: 1 <= q < n ==> !m.bitmap[q]
    ensures IsLeast(s.bits, n)
  {
    hide DirTie, CountTie, TableTie, DataTie, ProgTie, KernelTie;
    hide Counted, HeldApart, InTables, TablesPlaced, FramesPlaced, TablesApart, WriteExclusive, CleanIsBacked;
    assert forall q :: q in s.bits ==> q in s.slots;
  }

  /** Frames that held data still hold the same, but for one that may have been cleared. */
  ghost predicate DataStays(phys: map<nat, Content>, phys': map<nat, Content>, cleared: set<nat>) {
    forall f :: f in phys && phys[f].Data? && f !in cleared ==> f in phys' && phys'[f] == phys[f]
  }

  lemma StillThere(phys: map<nat, Content>)
    ensures DataStays(phys, phys, {})
  {
  }

  lemma TableWritten(phys: map<nat, Content>, tab: nat, row: seq<Option<Pte>>)
    requires tab in phys && phys[tab].Table?
    ensures DataStays(phys, phys[tab := Table(row)], {})
  {
  }

  lemma DataStaysTrans(phys: map<nat, Content>, phys': map<nat, Content>, phys'': map<nat, Content>, cleared: set<nat>)
    requires DataStays(phys, phys', {}) && DataStays(phys', phys'', cleared)
    ensures DataStays(phys, phys'', cleared)
  {
  }

  // ----- The page that the walk comes to first

  /** The walk passes over k directory entries, and v, page j of the i-th entry, is the first that can be evicted. */
  ghost predicate StopsOn(s: Space, d: int, pe: int, k: int, i: int, j: nat, v: VPage)
    requires InRing(d)
  {
    && OnWalk(s.dirs, d, pe, k, i) && k < RING && j < ENTRIES && v == PageAt(Ring(d, i), j)
    && Seen(k, pe, i, j, i, j) && NoneSeen(s, d, k, pe, i, j - 1) && Evictable(s, v)
  }

  ghost predicate FirstHit(s: Space, d: int, pe: int, v: VPage)
    requires InRing(d)
  {
    exists k, i, j: nat :: StopsOn(s, d, pe, k, i, j, v)
  }

  lemma StopsHere(s: Space, d: int, pe: int, k: int, i: int, j: nat, v: VPage)
    requires InRing(d) && OnWalk(s.dirs, d, pe, k, i) && 0 <= k < RING && j < ENTRIES && v == PageAt(Ring(d, i), j)
    requires (i > k || j > pe) && NoneSeen(s, d, k, pe, i, j - 1) && Evictable(s, v)
    ensures FirstHit(s, d, pe, v)
  {
    assert StopsOn(s, d, pe, k, i, j, v);
  }

  lemma NotEvictable(s: Space, v: VPage)
    requires !Evictable(s, v)
    ensures Evict(s, v) == s
  {
  }

  lemma OneHit(s: Space, d: int, pe: int, v: VPage, v': VPage)
    requires InRing(d) && FirstHit(s, d, pe, v) && FirstHit(s, d, pe, v')
    ensures v == v'
  {
    var k, i, j: nat :| StopsOn(s, d, pe, k, i, j, v);
    var k', i', j': nat :| StopsOn(s, d, pe, k', i', j', v');
    assert Mapped(s.dirs, Ring(d, k)) && Mapped(s.dirs, Ring(d, k'));
    assert k == k';
    NotBefore(s, d, pe, k, i, j, v, i', j', v');
    NotBefore(s, d, pe, k, i', j', v', i, j, v);
  }

  lemma NotBefore(s: Space, d: int, pe: int, k: int, i: int, j: nat, v: VPage, i': int, j': nat, v': VPage)
    requires InRing(d) && StopsOn(s, d, pe, k, i, j, v) && StopsOn(s, d, pe, k, i', j', v')
    ensures i > i' || (i == i' && j >= j')
  {
    NotSeen(s, d, k, pe, i', j' - 1, i, j);
  }

  /** The number of a page, counting the pages of all tasks. */
  function PageNumber(v: VPage): int { (v.t * 16 + v.k) * 1024 + v.j }

  /** How far page v is ahead of page c, going round the pages of tasks 1 to 63. */
  function Ahead(c: int, v: VPage): int {
    if PageNumber(v) > c then PageNumber(v) - c else PageNumber(v) - c + 63 * 16 * 1024
  }

  lemma AheadIs(d: int, pe: int, i: int, j: nat)
    requires InRing(d) && 0 <= i <= RING && j < ENTRIES && -1 <= pe < ENTRIES
    requires (i == 0 ==> j > pe) && (i == RING ==> j <= pe)
    ensures Ahead(d * 1024 + pe, PageAt(Ring(d, i), j)) == i * 1024 + j - pe
  {
    var r := Ring(d, i);
    assert r / DIRS_PER_TASK * 16 + r % DIRS_PER_TASK == r;
  }

  /**
    The walk is a clock: of all pages that can be evicted it takes the first one ahead of its cursor.  The cursor
    rests on a page table, as it does after every eviction.
   */
  lemma TakesTheNext(s: Space, d: int, pe: int, v: VPage, w: VPage)
    requires Inv(s) && (forall t :: t in s.org ==> 1 <= t < TASKS) && InRing(d) && -1 <= pe < ENTRIES
    requires Mapped(s.dirs, d) && FirstHit(s, d, pe, v) && Evictable(s, w)
    ensures Evictable(s, v) && Ahead(d * 1024 + pe, v) <= Ahead(d * 1024 + pe, w)
  {
    hide Inv, Ahead, Evictable, NoneSeen;
    var k, i, j: nat :| StopsOn(s, d, pe, k, i, j, v);
    assert Ring(d, 0) == d;
    EvictableMapped(s, w);
    var e := Steps(d, DirIndex(w.Dir()));
    var l := if e == 0 && w.j <= pe then RING else e;
    assert Ring(d, l) == DirIndex(w.Dir()) && w == PageAt(Ring(d, l), w.j);
    NotSeen(s, d, k, pe, i, j - 1, l, w.j);
    if i == RING && j > pe { NotSeen(s, d, k, pe, i, j - 1, 0, j); }
    AheadIs(d, pe, i, j);
    AheadIs(d, pe, l, w.j);
  }

  // ----- All evictions of a call

  ghost function AfterEvicting(s: Space, vs: seq<VPage>): Space {
    if vs == [] then s
    else
      var n := |vs| - 1;
      Evict(AfterEvicting(s, vs[..n]), vs[n])
  }

  /** The directory entry on which the cursor rests after these evictions. */
  function RestDir(d: int, vs: seq<VPage>): (r: int)
    requires InRing(d)
    ensures InRing(r)
  {
    if vs == [] || !UserDir(vs[|vs| - 1].Dir()) then d else DirIndex(vs[|vs| - 1].Dir())
  }

  function RestEntry(pe: int, vs: seq<VPage>): int { if vs == [] then pe else vs[|vs| - 1].j }

  /** No frame is free before any of the evictions, each of which is the first that the walk comes to. */
  ghost predicate IsReclaim(s: Space, d: int, pe: int, vs: seq<VPage>)
    requires InRing(d)
  {
    vs == [] ||
    (var n := |vs| - 1;
     && IsReclaim(s, d, pe, vs[..n]) && NoneFree(AfterEvicting(s, vs[..n])) && UserDir(vs[n].Dir())
     && FirstHit(AfterEvicting(s, vs[..n]), RestDir(d, vs[..n]), RestEntry(pe, vs[..n]), vs[n]))
  }

  /** get_free_page evicts these pages, and then a frame is free. */
  ghost predicate Reclaims(s: Space, d: int, pe: int, vs: seq<VPage>)
    requires InRing(d)
  {
    IsReclaim(s, d, pe, vs) && !NoneFree(AfterEvicting(s, vs))
  }

  lemma NothingEvicted(s: Space, phys: map<nat, Content>, d: int, pe: int)
    requires InRing(d)
    ensures IsReclaim(s, d, pe, []) && AfterEvicting(s, []) == s && RestDir(d, []) == d && RestEntry(pe, []) == pe
    ensures DataStays(phys, phys, {})
  {
  }

  lemma ReclaimGrows(s: Space, d: int, pe: int, vs: seq<VPage>, v: VPage)
    requires InRing(d) && IsReclaim(s, d, pe, vs) && NoneFree(AfterEvicting(s, vs)) && UserDir(v.Dir())
    requires FirstHit(AfterEvicting(s, vs), RestDir(d, vs), RestEntry(pe, vs), v)
    ensures IsReclaim(s, d, pe, vs + [v]) && AfterEvicting(s, vs + [v]) == Evict(AfterEvicting(s, vs), v)
    ensures RestDir(d, vs + [v]) == DirIndex(v.Dir()) && RestEntry(pe, vs + [v]) == v.j
  {
    assert (vs + [v])[..|vs|] == vs;
  }

  lemma {:induction false} SamePrefix(s: Space, d: int, pe: int, vs: seq<VPage>, ws: seq<VPage>)
    requires InRing(d) && IsReclaim(s, d, pe, vs) && IsReclaim(s, d, pe, ws) && |vs| == |ws|
    ensures vs == ws
    decreases |vs|
  {
    if vs != [] {
      var n := |vs| - 1;
      SamePrefix(s, d, pe, vs[..n], ws[..n]);
      OneHit(AfterEvicting(s, vs[..n]), RestDir(d, vs[..n]), RestEntry(pe, vs[..n]), vs[n], ws[n]);
      assert vs == vs[..n] + [vs[n]] && ws == ws[..n] + [ws[n]];
    }
  }

  lemma {:induction false} PrefixReclaims(s: Space, d: int, pe: int, vs: seq<VPage>, n: nat)
    requires InRing(d) && IsReclaim(s, d, pe, vs) && n <= |vs|
    ensures IsReclaim(s, d, pe, vs[..n]) && (n < |vs| ==> NoneFree(AfterEvicting(s, vs[..n])))
    decreases |vs|
  {
    if n < |vs| {
      var m := |vs| - 1;
      assert vs[..m][..n] == vs[..n];
      PrefixReclaims(s, d, pe, vs[..m], n);
    } else {
      assert vs[..n] == vs;
    }
  }

  /** The state and the cursor determine what is evicted. */
  lemma OneReclaim(s: Space, d: int, pe: int, vs: seq<VPage>, ws: seq<VPage>)
    requires InRing(d) && Reclaims(s, d, pe, vs) && Reclaims(s, d, pe, ws)
    ensures vs == ws
  {
    hide IsReclaim, NoneFree, AfterEvicting;
    var n := if |vs| <= |ws| then |vs| else |ws|;
    PrefixReclaims(s, d, pe, vs, n);
    PrefixReclaims(s, d, pe, ws, n);
    SamePrefix(s, d, pe, vs[..n], ws[..n]);
    assert vs[..|vs|] == vs && ws[..|ws|] == ws;
  }

  // ----- What becomes of a page that is shared

  lemma EvictKeeps(s: Space, v: VPage)
    requires Inv(s)
    ensures Inv(Evict(s, v))
  {
    if Evictable(s, v) && s.pt[v].frame in s.data {
      hide Inv;
      if s.pt[v].dirty { SwapOutKeeps(s, v, Least(s.bits)); } else { DetachKeeps(s, v); }
    }
  }

  lemma EvictEntries(s: Space, u: VPage)
    ensures var pt := Evict(s, u).pt;
            pt == s.pt || pt == s.pt - {u} || (u in pt && pt[u].Swapped? && pt == s.pt[u := pt[u]])
  {
    if Evictable(s, u) && s.pt[u].frame in s.data {
      if s.pt[u].dirty {
        assert SwapOut(s, u, Least(s.bits)).pt == s.pt[u := Swapped(Least(s.bits))];
      } else {
        assert Detach(s, u).pt == s.pt - {u};
      }
    }
  }

  /** A frame of the kernel, or a dirty page that somebody else maps too: page v cannot be evicted. */
  predicate Fixed(s: Space, v: VPage) {
    && v in s.pt && s.pt[v].Present?
    && (s.pt[v].frame in s.pool ==> s.pt[v].dirty && s.pt[v].frame in s.memMap && s.memMap[s.pt[v].frame] > 1)
  }

  lemma EvictCounts(s: Space, u: VPage)
    requires Inv(s) && Evictable(s, u)
    ensures Evict(s, u).pool == s.pool && s.memMap[s.pt[u].frame] > 0
    ensures Evict(s, u).memMap == s.memMap[s.pt[u].frame := s.memMap[s.pt[u].frame] - 1]
  {
    EntryIsPlaced(s, u);
    DetachFrame(s, u);
  }

  lemma FixedStays(s: Space, u: VPage, v: VPage)
    requires Inv(s) && Fixed(s, v) && Evictable(s, u)
    ensures u != v && Fixed(Evict(s, u), v) && v in Evict(s, u).pt && Evict(s, u).pt[v] == s.pt[v]
  {
    hide Inv, Evict, Evictable;
    EvictCounts(s, u);
    FramesDiffer(s, u, v);
    OtherEntry(s, u, v);
  }

  lemma OtherEntry(s: Space, u: VPage, v: VPage)
    requires u != v && v in s.pt
    ensures v in Evict(s, u).pt && Evict(s, u).pt[v] == s.pt[v]
  {
    EvictEntries(s, u);
    hide Evict;
  }

  lemma FramesDiffer(s: Space, u: VPage, v: VPage)
    requires Inv(s) && Fixed(s, v) && Evictable(s, u)
    ensures u != v && s.pt[u].frame != s.pt[v].frame
  {
    assert s.pt[u].frame == s.pt[v].frame && u != v ==> SameFrame(s.pt[u], s.pt[v]);
  }

  /** A page that is clean, or fixed, stays as it is unless it is evicted; then it is gone. */
  lemma {:induction false} PageAfter(s: Space, d: int, pe: int, vs: seq<VPage>, v: VPage)
    requires Inv(s) && InRing(d) && IsReclaim(s, d, pe, vs) && v in s.pt && (Clean(s.pt[v]) || Fixed(s, v))
    ensures Inv(AfterEvicting(s, vs))
    ensures v !in vs ==> EntryOf(AfterEvicting(s, vs).pt, v) == Some(s.pt[v])
    ensures v in vs ==> Clean(s.pt[v]) && v !in AfterEvicting(s, vs).pt
    ensures Fixed(s, v) ==> Fixed(AfterEvicting(s, vs), v)
    decreases |vs|
  {
    hide Inv, Evictable, Evict, Fixed, FirstHit, Clean;
    if vs != [] {
      var n := |vs| - 1;
      var s1 := AfterEvicting(s, vs[..n]);
      PageAfter(s, d, pe, vs[..n], v);
      HitCanGo(s1, RestDir(d, vs[..n]), RestEntry(pe, vs[..n]), vs[n]);
      assert v in vs <==> v in vs[..n] || v == vs[n];
      EvictKeeps(s1, vs[n]);
      FixedIsThere(s1, v);
      if v in s1.pt { PageStep(s1, vs[n], v); } else { NotBack(s1, vs[n], v); }
    }
  }

  lemma PageStep(s: Space, u: VPage, v: VPage)
    requires Inv(s) && Evictable(s, u) && v in s.pt && (Clean(s.pt[v]) || Fixed(s, v))
    ensures v != u ==> v in Evict(s, u).pt && Evict(s, u).pt[v] == s.pt[v]
    ensures v == u ==> Clean(s.pt[v]) && v !in Evict(s, u).pt
    ensures Fixed(s, v) ==> Fixed(Evict(s, u), v)
  {
    hide Inv, Evictable, Evict, Fixed;
    if Fixed(s, v) {
      FixedStays(s, u, v);
    } else if v == u {
      EvictClean(s, v);
      DetachedIsGone(s, v);
    } else {
      OtherEntry(s, u, v);
    }
  }

  lemma DetachedIsGone(s: Space, v: VPage)
    requires v in s.pt
    ensures v !in Detach(s, v).pt
  {
    assert Detach(s, v).pt == s.pt - {v};
  }

  lemma FixedIsThere(s: Space, v: VPage)
    ensures Fixed(s, v) ==> v in s.pt
  {
  }

  lemma NotBack(s: Space, u: VPage, v: VPage)
    requires u in s.pt && v !in s.pt
    ensures u != v && v !in Evict(s, u).pt
  {
    EvictEntries(s, u);
    hide Evict;
  }

  lemma HitCanGo(s: Space, d: int, pe: int, v: VPage)
    requires InRing(d) && FirstHit(s, d, pe, v)
    ensures Evictable(s, v) && v in s.pt
  {
    hide Evictable, OnWalk, Seen, NoneSeen;
    var k, i, j: nat :| StopsOn(s, d, pe, k, i, j, v);
    EvictableIsThere(s, v);
  }

  lemma EvictableIsThere(s: Space, v: VPage)
    requires Evictable(s, v)
    ensures v in s.pt
  {
  }
}
