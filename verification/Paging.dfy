/**
  The kernel's paging operations as compositions of the rewrites of AddressSpace:
  swapping in and out, the slot hand-over of fork, copy-on-write, and the bound on
  reference counts that keeps a mem_map byte from wrapping.
 */
module Paging {
  import opened Common
  import opened AddressSpace

  /** swap_in: the slot's contents move into frame f, which is entered dirty and writable. */
  function SwapIn(s: Space, v: VPage, f: nat): Space
    requires v in s.pt && s.pt[v].Swapped? && s.pt[v].slot in s.swap
  {
    Attach(Detach(Fill(s, f, s.swap[s.pt[v].slot]), v), v, f, true, true)
  }

  lemma EntryIsPlaced(s: Space, v: VPage)
    requires Inv(s) && v in s.pt
    ensures v.Dir() in s.dirs && v.j < ENTRIES && v.t in s.org
    ensures s.pt[v].Present? ==> s.pt[v].frame in s.data && s.pt[v].frame !in s.held
    ensures s.pt[v].Swapped? ==> s.pt[v].slot in s.swap && s.pt[v].slot !in s.bits && s.pt[v].slot in s.slots
  {
    assert v.Dir() in s.dirs;
    assert s.pt[v].Swapped? ==> Owns(s.pt, v, s.pt[v].slot);
  }

  lemma SwapInKeeps(s: Space, v: VPage, f: nat)
    requires Inv(s) && v in s.pt && s.pt[v].Swapped? && f in s.held
    ensures s.pt[v].slot in s.swap && Inv(SwapIn(s, v, f)) && SameViews(s, SwapIn(s, v, f), {})
  {
    EntryIsPlaced(s, v);
    hide Inv;
    var s1 := Fill(s, f, s.swap[s.pt[v].slot]);
    FillKeeps(s, f, s.swap[s.pt[v].slot]);
    var s2 := Detach(s1, v);
    DetachKeeps(s1, v);
    AttachKeeps(s2, v, f, true, true);
  }

  /** try_to_swap_out on a dirty page: its contents move into swap slot n. */
  function SwapOut(s: Space, v: VPage, n: nat): Space
    requires v in s.pt && s.pt[v].Present? && s.pt[v].frame in s.data
  {
    AttachSlot(Detach(FillSlot(s, n, s.data[s.pt[v].frame]), v), v, n)
  }

  lemma SwapOutKeeps(s: Space, v: VPage, n: nat)
    requires Inv(s) && v in s.pt && s.pt[v].Present? && n in s.bits
    ensures s.pt[v].frame in s.data && Inv(SwapOut(s, v, n)) && SameViews(s, SwapOut(s, v, n), {})
  {
    EntryIsPlaced(s, v);
    hide Inv;
    var s1 := FillSlot(s, n, s.data[s.pt[v].frame]);
    FillSlotKeeps(s, n, s.data[s.pt[v].frame]);
    DetachKeeps(s1, v);
    AttachSlotKeeps(Detach(s1, v), v, n);
  }

  /** try_to_swap_out on a clean page: it is dropped and can be loaded again. */
  lemma DropCleanKeeps(s: Space, v: VPage)
    requires Inv(s) && v in s.pt && Clean(s.pt[v])
    ensures Inv(Detach(s, v)) && SameViews(s, Detach(s, v), {})
  {
    DetachKeeps(s, v);
  }

  /**
    copy_page_tables on a swapped-out page: the child takes over the slot and the
    parent gets its contents in frame f.
   */
  function HandOver(s: Space, v: VPage, w: VPage, f: nat): Space
    requires v in s.pt && s.pt[v].Swapped? && s.pt[v].slot in s.swap
  {
    var n := s.pt[v].slot;
    Attach(AttachSlot(Detach(Fill(s, f, s.swap[n]), v), w, n), v, f, true, true)
  }

  lemma HandOverKeeps(s: Space, v: VPage, w: VPage, f: nat)
    requires Inv(s) && v in s.pt && s.pt[v].Swapped? && f in s.held
    requires w !in s.pt && w.Dir() in s.dirs && w.j < ENTRIES && w.t in s.org
    ensures s.pt[v].slot in s.swap && Inv(HandOver(s, v, w, f)) && SameViews(s, HandOver(s, v, w, f), {w})
    ensures View(HandOver(s, v, w, f), w) == View(s, v)
  {
    EntryIsPlaced(s, v);
    hide Inv;
    var n := s.pt[v].slot;
    var s1 := Fill(s, f, s.swap[n]);
    FillKeeps(s, f, s.swap[n]);
    var s2 := Detach(s1, v);
    DetachKeeps(s1, v);
    var s3 := AttachSlot(s2, w, n);
    AttachSlotKeeps(s2, w, n);
    assert v !in s3.pt && f in s3.held && s3.data[f] == s.swap[n] && v.Dir() in s3.dirs && v.t in s3.org;
    AttachKeeps(s3, v, f, true, true);
    HandOverViews(s, s1, s2, s3, HandOver(s, v, w, f), v, w);
  }

  lemma HandOverViews(s: Space, s1: Space, s2: Space, s3: Space, s4: Space, v: VPage, w: VPage)
    requires v != w
    requires SameViews(s, s1, {}) && SameViews(s1, s2, {v}) && SameViews(s2, s3, {w}) && SameViews(s3, s4, {v})
    requires View(s3, w) == View(s, v) == View(s4, v)
    ensures SameViews(s, s4, {w}) && View(s4, w) == View(s, v)
  {
    hide View;
    forall u | u != w ensures View(s4, u) == View(s, u) {
      if u != v {
        assert View(s4, u) == View(s3, u) == View(s2, u) == View(s1, u) == View(s, u);
      }
    }
  }

  /**
    un_wp_page on a frame that is shared or below LOW_MEM, and the store that is then
    retried: the task gets its own copy in frame f, already changed to `page`.
   */
  function CopyAndStore(s: Space, v: VPage, f: nat, page: Page): Space
    requires v in s.pt
  {
    Attach(Detach(Fill(s, f, page), v), v, f, true, true)
  }

  lemma CopyAndStoreKeeps(s: Space, v: VPage, f: nat, page: Page)
    requires Inv(s) && v in s.pt && s.pt[v].Present? && f in s.held
    ensures Inv(CopyAndStore(s, v, f, page)) && SameViews(s, CopyAndStore(s, v, f, page), {v})
    ensures View(CopyAndStore(s, v, f, page), v) == Some(page)
  {
    EntryIsPlaced(s, v);
    hide Inv;
    var s1 := Fill(s, f, page);
    FillKeeps(s, f, page);
    DetachKeeps(s1, v);
    AttachKeeps(Detach(s1, v), v, f, true, true);
  }

  // ----- A mem_map byte cannot wrap

  lemma TasksOf(refs: set<VPage>, k: nat, j: nat, n: nat)
    requires forall v :: v in refs ==> v.k == k && v.j == j && v.t < n
    ensures |refs| <= n
  {
    if n == 0 {
      assert refs == {};
    } else {
      var v := VPage(n - 1, k, j);
      TasksOf(refs - {v}, k, j, n - 1);
    }
  }

  /**
    All sharers of a frame map it at the same place of their address spaces, so no
    count exceeds the number of tasks, far below what an unsigned char holds.
   */
  lemma CountFitsInByte(s: Space, f: nat)
    requires Inv(s) && f in s.pool
    requires forall t :: t in s.org ==> t < TASKS
    ensures s.memMap[f] <= TASKS
  {
    assert s.memMap[f] == Holders(s.pt, s.dirs, s.held, f);
    if d :| d in DirRefs(s.dirs, f) {
      TableCountIsOne(s, d);
    } else if f in s.held {
      HeldHasNoOtherHolder(s, f);
    } else if v :| v in Refs(s.pt, f) {
      forall w | w in Refs(s.pt, f) ensures w.k == v.k && w.j == v.j && w.t < TASKS {
        EntryIsPlaced(s, w);
        if w != v { assert SameFrame(s.pt[v], s.pt[w]); }
      }
      TasksOf(Refs(s.pt, f), v.k, v.j, TASKS);
    }
  }
}
