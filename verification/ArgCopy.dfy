/**
  copy_strings of fs/exec.c: argument and environment strings are copied backwards into
  the pages that become the top of the new program's memory.
 */
module ArgCopy {
  import opened Common

  type Byte = x: int | 0 <= x < 256

  const PAGE_SIZE := 4096
  const MAX_ARG_PAGES := 32
  const AREA := 131072

  /** What a C string can be. */
  predicate Plain(s: seq<Byte>) { forall i :: 0 <= i < |s| ==> s[i] != 0 }

  /** Strings one after the other, each with its terminator. */
  function Packed(ss: seq<seq<Byte>>): seq<Byte> {
    if ss == [] then [] else ss[0] + [0] + Packed(ss[1..])
  }

  lemma {:induction false} PackedJoins(ss: seq<seq<Byte>>, tt: seq<seq<Byte>>)
    ensures Packed(ss + tt) == Packed(ss) + Packed(tt)
  {
    if ss == [] {
      assert ss + tt == tt;
    } else {
      PackedJoins(ss[1..], tt);
      assert (ss + tt)[1..] == ss[1..] + tt;
    }
  }

  /** The pages as one row of bytes; a page not there yet is zero, as it will be when it is taken. */
  function ByteAt(page: seq<Option<seq<Byte>>>, a: int): Byte
    requires Sized(page) && 0 <= a < AREA
  {
    match page[a / PAGE_SIZE]
    case Some(frame) => frame[a % PAGE_SIZE]
    case None => 0
  }

  predicate Sized(page: seq<Option<seq<Byte>>>) {
    |page| == MAX_ARG_PAGES && forall i :: 0 <= i < |page| && page[i].Some? ==> |page[i].value| == PAGE_SIZE
  }

  ghost function Flat(page: seq<Option<seq<Byte>>>): (r: seq<Byte>)
    requires Sized(page)
    ensures |r| == AREA && forall a :: 0 <= a < AREA ==> r[a] == ByteAt(page, a)
  {
    seq(AREA, a requires 0 <= a < AREA => ByteAt(page, a))
  }

  lemma FlatTake(page: seq<Option<seq<Byte>>>, i: nat)
    requires Sized(page) && i < MAX_ARG_PAGES && page[i].None?
    ensures var page' := page[i := Some(seq(PAGE_SIZE, _ => 0))]; Sized(page') && Flat(page') == Flat(page)
  {
  }

  lemma FlatPut(page: seq<Option<seq<Byte>>>, p: nat, c: Byte)
    requires Sized(page) && p < AREA && page[p / PAGE_SIZE].Some?
    ensures var page' := page[p / PAGE_SIZE := Some(page[p / PAGE_SIZE].value[p % PAGE_SIZE := c])];
            Sized(page') && Flat(page') == Flat(page)[p := c]
  {
  }

  // ----- Which pages are taken

  /** How many of the pages from lo up to hi are not there. */
  function Absent(page: seq<Option<seq<Byte>>>, lo: nat, hi: nat): nat
    requires hi <= |page|
    decreases hi - lo
  {
    if lo >= hi then 0 else (if page[lo].None? then 1 else 0) + Absent(page, lo + 1, hi)
  }

  lemma {:induction false} AbsentSplits(page: seq<Option<seq<Byte>>>, lo: nat, mid: nat, hi: nat)
    requires lo <= mid <= hi <= |page|
    ensures Absent(page, lo, hi) == Absent(page, lo, mid) + Absent(page, mid, hi)
    decreases mid - lo
  {
    if lo < mid { AbsentSplits(page, lo + 1, mid, hi); }
  }

  lemma {:induction false} AbsentSame(page: seq<Option<seq<Byte>>>, page': seq<Option<seq<Byte>>>, lo: nat, hi: nat)
    requires hi <= |page| == |page'| && forall i :: lo <= i < hi ==> (page'[i].None? <==> page[i].None?)
    ensures Absent(page', lo, hi) == Absent(page, lo, hi)
    decreases hi - lo
  {
    if lo < hi { AbsentSame(page, page', lo + 1, hi); }
  }

  lemma {:induction false} AbsentAtMost(page: seq<Option<seq<Byte>>>, lo: nat, hi: nat)
    requires lo <= hi <= |page|
    ensures Absent(page, lo, hi) <= hi - lo
    decreases hi - lo
  {
    if lo < hi { AbsentAtMost(page, lo + 1, hi); }
  }

  /** The page that ends at or above position p, and the lowest one written when copying from start down to p. */
  function Upto(p: nat): nat
    requires p > 0
  {
    (p - 1) / PAGE_SIZE + 1
  }

  function Lowest(p: nat, start: nat): nat
    requires start > 0
  {
    if p == start then Upto(start) else p / PAGE_SIZE
  }

  /** From was, with free0 pages to be had, the pages from lo up to hi and no others have been provided. */
  ghost predicate Took(was: seq<Option<seq<Byte>>>, free0: nat, page: seq<Option<seq<Byte>>>, free: nat, lo: nat,
                       hi: nat)
  {
    && |was| == |page| == MAX_ARG_PAGES && hi <= MAX_ARG_PAGES
    && (forall i :: 0 <= i < MAX_ARG_PAGES ==> (page[i].Some? <==> was[i].Some? || lo <= i < hi))
    && free + Absent(was, lo, hi) == free0
  }

  /** One page further down. */
  lemma TookPage(was: seq<Option<seq<Byte>>>, free0: nat, page: seq<Option<seq<Byte>>>, free: nat, i: nat, hi: nat)
    requires Took(was, free0, page, free, i + 1, hi) && i < hi
    ensures page[i].Some? ==> Took(was, free0, page, free, i, hi)
    ensures page[i].None? && free > 0 ==> forall f :: Took(was, free0, page[i := Some(f)], free - 1, i, hi)
    ensures page[i].None? && free == 0 ==> Absent(was, i, hi) > free0
  {
  }

  /** Where an attempt to copy strings ends. */
  datatype Copied = At(p: nat) | NoRoom | Overrun

  /** The lowest page that n bytes copied down from start reach. */
  function Low(n: nat, start: nat): nat
    requires start > 0
  {
    if n >= start then 0 else Lowest(start - n, start)
  }

  /** Where copying n bytes down from start ends. */
  function Ending(page: seq<Option<seq<Byte>>>, free: nat, n: nat, start: nat): Copied
    requires |page| == MAX_ARG_PAGES && 0 < start < AREA
  {
    if Absent(page, Low(n, start), Upto(start)) > free then NoRoom
    else if n > start then Overrun
    else At(start - n)
  }

  lemma TookNothing(page: seq<Option<seq<Byte>>>, free: nat, start: nat)
    requires |page| == MAX_ARG_PAGES && 0 < start < AREA
    ensures Took(page, free, page, free, Lowest(start, start), Upto(start))
  {
  }

  lemma TookBounded(was: seq<Option<seq<Byte>>>, free0: nat, page: seq<Option<seq<Byte>>>, free: nat, lo: nat, hi: nat)
    requires Took(was, free0, page, free, lo, hi)
    ensures hi <= |was| == |page| == MAX_ARG_PAGES && Absent(was, lo, hi) <= free0
  {
  }

  lemma TookAll(was: seq<Option<seq<Byte>>>, free0: nat, page: seq<Option<seq<Byte>>>, free: nat, top: nat)
    requires top > 0 && Took(was, free0, page, free, Lowest(0, top), Upto(top))
    ensures Upto(top) <= |was| && Absent(was, 0, Upto(top)) <= free0
  {
  }

  /** Writing into a page that is there. */
  lemma TookPut(was: seq<Option<seq<Byte>>>, free0: nat, page: seq<Option<seq<Byte>>>, free: nat, i: nat, f: seq<Byte>,
                hi: nat)
    requires Took(was, free0, page, free, i, hi) && i < |page| && page[i].Some?
    ensures Took(was, free0, page[i := Some(f)], free, i, hi)
  {
  }

  /** The page below position p is the one just passed, or the one that p is in. */
  lemma StepDown(p: nat, top: nat, offset: int)
    requires 0 < p <= top < AREA && offset == if p == top then 0 else p % PAGE_SIZE
    ensures p - 1 < top && (p - 1) / PAGE_SIZE < Upto(top) <= MAX_ARG_PAGES
    ensures Lowest(p - 1, top) == (p - 1) / PAGE_SIZE
    ensures offset == 0 ==> Lowest(p, top) == (p - 1) / PAGE_SIZE + 1
    ensures offset > 0 ==> Lowest(p, top) == p / PAGE_SIZE == (p - 1) / PAGE_SIZE && (p - 1) % PAGE_SIZE == offset - 1
  {
  }

  lemma Stopped(page: seq<Option<seq<Byte>>>, free: nat, n: nat, start: nat, p: nat, r: Copied)
    requires |page| == MAX_ARG_PAGES && 0 < start < AREA && !r.At? && Upto(start) <= |page|
    requires r.Overrun? ==> n > start && Absent(page, 0, Upto(start)) <= free
    requires r.NoRoom? ==> p < start && p + n >= start && Absent(page, p / PAGE_SIZE, Upto(start)) > free
    ensures r == Ending(page, free, n, start)
  {
    if r.NoRoom? {
      var lo := Low(n, start);
      assert n >= start || start - n <= p;
      assert lo <= p / PAGE_SIZE <= Upto(start);
      AbsentSplits(page, lo, p / PAGE_SIZE, Upto(start));
    }
  }

  lemma Arrived(was: seq<Option<seq<Byte>>>, free0: nat, page: seq<Option<seq<Byte>>>, free: nat, n: nat, start: nat)
    requires 0 < start < AREA && n <= start && Took(was, free0, page, free, Lowest(start - n, start), Upto(start))
    ensures Ending(was, free0, n, start) == At(start - n)
  {
  }

  lemma OneMore(was: seq<Byte>, p: nat, t: seq<Byte>, len: nat, tail: seq<Byte>, top: nat)
    requires len < |t| && p + |t| - len + |tail| == top <= |was|
    ensures (was[..p + 1] + (t[len + 1..] + tail) + was[top..])[p := t[len]] ==
            was[..p] + (t[len..] + tail) + was[top..]
  {
  }

  lemma PackedSuffix(ss: seq<seq<Byte>>, i: nat)
    requires i <= |ss|
    ensures |Packed(ss[i..])| <= |Packed(ss)|
  {
    PackedJoins(ss[..i], ss[i..]);
    assert ss[..i] + ss[i..] == ss;
  }

  // ----- Copying in several goes

  /** After a first go down to p, going on to page lo needs what going there in one go needs. */
  lemma GoesOn(page0: seq<Option<seq<Byte>>>, free0: nat, page: seq<Option<seq<Byte>>>, free: nat,
               p: nat, start: nat, lo: nat)
    requires 0 < p <= start < AREA && Took(page0, free0, page, free, Lowest(p, start), Upto(start))
    requires lo <= Lowest(p, start)
    ensures lo <= Upto(p) <= Upto(start) <= MAX_ARG_PAGES
    ensures Absent(page, lo, Upto(p)) - free == Absent(page0, lo, Upto(start)) - free0
  {
    var l := Lowest(p, start);
    AbsentSame(page0, page, lo, l);
    AbsentSplits(page0, lo, l, Upto(start));
    AbsentSplits(page, lo, l, Upto(p));
    assert p < start ==> page[l].Some? && Upto(p) <= l + 1;
    assert Absent(page, l, Upto(p)) == 0 by {
      if l < Upto(p) { assert Absent(page, l + 1, Upto(p)) == 0; }
    }
  }

  lemma TookTwice(page0: seq<Option<seq<Byte>>>, free0: nat, page1: seq<Option<seq<Byte>>>, free1: nat,
                  page2: seq<Option<seq<Byte>>>, free2: nat, q: nat, p: nat, start: nat)
    requires q <= p && 0 < p <= start < AREA
    requires Took(page0, free0, page1, free1, Lowest(p, start), Upto(start))
    requires Took(page1, free1, page2, free2, Lowest(q, p), Upto(p))
    ensures Took(page0, free0, page2, free2, Lowest(q, start), Upto(start))
  {
    if q < p { GoesOn(page0, free0, page1, free1, p, start, q / PAGE_SIZE); }
  }

  // ----- The code

  class ArgPages {
    var page: seq<Option<seq<Byte>>>
    /** How many pages get_free_page can still hand out. */
    var free: nat

    constructor (free: nat)
      ensures this.free == free && Sized(page) && forall a :: 0 <= a < AREA ==> Flat(page)[a] == 0
    {
      this.free := free;
      page := seq(MAX_ARG_PAGES, _ => None);
    }

    /** The page for position p, taken if it is not there. */
    method PageFor(p: nat) returns (ok: bool)
      requires Sized(page) && p < AREA
      modifies this
      ensures Sized(page) && Flat(page) == old(Flat(page))
      ensures ok <==> old(page[p / PAGE_SIZE]).Some? || old(free) > 0
      ensures !ok || old(page[p / PAGE_SIZE]).Some? ==> page == old(page) && free == old(free)
      ensures ok && old(page[p / PAGE_SIZE]).None? ==>
                page == old(page)[p / PAGE_SIZE := Some(seq(PAGE_SIZE, _ => 0))] && free == old(free) - 1
    {
      ok := true;
      if page[p / PAGE_SIZE].None? {
        if free == 0 { return false; }
        FlatTake(page, p / PAGE_SIZE);
        free := free - 1;
        page := page[p / PAGE_SIZE := Some(seq(PAGE_SIZE, _ => 0))];
      }
    }

    /** The loop that finds how long a string is, with its terminator. */
    method Length(s: seq<Byte>) returns (len: nat)
      requires Plain(s)
      ensures len == |s| + 1
    {
      len := 1;
      while (s + [0])[len - 1] != 0
        invariant 1 <= len <= |s| + 1
        decreases |s| + 1 - len
      {
        len := len + 1;
      }
    }

    /** A byte goes to its place in a page that is there. */
    method PutByte(p: nat, offset: int, c: Byte, ghost page0: seq<Option<seq<Byte>>>, ghost free0: nat, ghost hi: nat)
      requires Sized(page) && p < AREA && offset == p % PAGE_SIZE && page[p / PAGE_SIZE].Some?
      requires Took(page0, free0, page, free, p / PAGE_SIZE, hi)
      modifies this`page
      ensures Sized(page) && Flat(page) == old(Flat(page))[p := c] && page[p / PAGE_SIZE].Some?
      ensures Took(page0, free0, page, free, p / PAGE_SIZE, hi)
    {
      FlatPut(page, p, c);
      TookPut(page0, free0, page, free, p / PAGE_SIZE, page[p / PAGE_SIZE].value[offset := c], hi);
      page := page[p / PAGE_SIZE := Some(page[p / PAGE_SIZE].value[offset := c])];
    }

    /**
      copy_strings.  The position is unsigned, so its check for room never fails: running past
      the bottom leads to a page slot that does not exist, which ends the run here.  It fails for
      lack of memory exactly if more pages are missing on the way down than can be had.
     */
    method CopyStrings(ss: seq<seq<Byte>>, start: nat) returns (r: Copied)
      requires Sized(page) && start < AREA && forall i :: 0 <= i < |ss| ==> Plain(ss[i])
      modifies this
      ensures Sized(page)
      ensures start == 0 ==> r == NoRoom && page == old(page) && free == old(free)
      ensures start > 0 ==> r == Ending(old(page), old(free), |Packed(ss)|, start)
      ensures start > 0 && r.At? ==>
                && Took(old(page), old(free), page, free, Lowest(r.p, start), Upto(start))
                && Flat(page) == old(Flat(page))[..r.p] + Packed(ss) + old(Flat(page))[start..]
    {
      hide Took, Absent, Upto;
      if start == 0 { return NoRoom; }
      var p: nat, offset, argc := start, 0, |ss|;
      ghost var was := Flat(page);
      assert ss[argc..] == [];
      TookNothing(page, free, start);
      while argc > 0
        invariant 0 <= argc <= |ss| && Sized(page) && Loaded(p, offset, start)
        invariant p + |Packed(ss[argc..])| == start
        invariant Flat(page) == was[..p] + Packed(ss[argc..]) + was[start..]
        invariant Took(old(page), old(free), page, free, Lowest(p, start), Upto(start))
      {
        argc := argc - 1;
        r, p, offset := CopyString(ss[argc], p, offset, start, was, Packed(ss[argc + 1..]), old(page), old(free));
        assert ss[argc..][1..] == ss[argc + 1..];
        if !r.At? {
          PackedSuffix(ss, argc);
          Stopped(old(page), old(free), |Packed(ss)|, start, p, r);
          return;
        }
      }
      assert ss[0..] == ss;
      Arrived(old(page), old(free), page, free, |Packed(ss)|, start);
      r := At(p);
    }

    /** The page is not looked up yet, or offset follows p in a page that is there. */
    ghost predicate Loaded(p: nat, offset: int, top: nat)
      reads this
    {
      && |page| == MAX_ARG_PAGES && p <= top
      && if p == top then offset == 0 else p < AREA && offset == p % PAGE_SIZE && page[p / PAGE_SIZE].Some?
    }

    /** One string, last byte first.  page0 and free0 are what copy_strings found. */
    method CopyString(s: seq<Byte>, start: nat, before: int, ghost top: nat, ghost was: seq<Byte>,
                      ghost tail: seq<Byte>,
                      ghost page0: seq<Option<seq<Byte>>>, ghost free0: nat)
      returns (r: Copied, p: nat, offset: int)
      requires Sized(page) && Plain(s) && start < AREA && Loaded(start, before, top)
      requires |was| == AREA && start + |tail| == top < AREA && 0 < top
      requires Flat(page) == was[..start] + tail + was[top..]
      requires Took(page0, free0, page, free, Lowest(start, top), Upto(top))
      modifies this
      ensures Sized(page)
      ensures r.At? ==> && p + |s| + 1 == start && Loaded(p, offset, top)
                        && Took(page0, free0, page, free, Lowest(p, top), Upto(top))
                        && Flat(page) == was[..p] + (s + [0] + tail) + was[top..]
      ensures r.Overrun? ==> |s| + 1 > start && Upto(top) <= |page0| && Absent(page0, 0, Upto(top)) <= free0
      ensures r.NoRoom? ==> && p + |s| + 1 >= start && p < top && Upto(top) <= |page0|
                            && Absent(page0, p / PAGE_SIZE, Upto(top)) > free0
    {
      hide Took, Absent, Upto, Flat;
      var len := Length(s);
      p, offset := start, before;
      ghost var t := s + [0];
      while len > 0
        invariant 0 <= len <= |t| && Sized(page)
        invariant p <= start && p + |t| - len == start && Loaded(p, offset, top)
        invariant Took(page0, free0, page, free, Lowest(p, top), Upto(top))
        invariant Flat(page) == was[..p] + (t[len..] + tail) + was[top..]
      {
        if p == 0 {
          TookAll(page0, free0, page, free, top);
          return Overrun, p, offset;
        }
        StepDown(p, top, offset);
        p, len, offset := p - 1, len - 1, offset - 1;
        if offset < 0 {
          offset := p % PAGE_SIZE;
          TookPage(page0, free0, page, free, p / PAGE_SIZE, Upto(top));
          var ok := PageFor(p);
          if !ok {
            TookBounded(page0, free0, page, free, p / PAGE_SIZE + 1, Upto(top));
            return NoRoom, p, offset;
          }
        }
        PutByte(p, offset, (s + [0])[len], page0, free0, Upto(top));
        OneMore(was, p, t, len, tail, top);
      }
      r := At(p);
    }
  }
}
