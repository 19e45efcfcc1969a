/**
  The argument layout of do_execve in fs/exec.c: the strings copied by ArgCopy appear in the
  new program's memory, and create_tables puts the pointers to them below.
 */
module Exec {
  import opened Common
  import opened ArgCopy

  const TASK_SIZE := 0x0400_0000
  const LIBRARY_SIZE := 0x0040_0000

  /** Where position 0 of the argument pages is in the program's memory. */
  const BOTTOM := TASK_SIZE - LIBRARY_SIZE - MAX_ARG_PAGES * PAGE_SIZE

  function Joined(b0: int, b1: int, b2: int, b3: int): int {
    b0 + 0x100 * b1 + 0x1_0000 * b2 + 0x100_0000 * b3
  }

  lemma BytesOf(v: int)
    requires 0 <= v < 0x1_0000_0000
    ensures v / 0x100_0000 < 256 && Joined(v % 0x100, v / 0x100 % 0x100, v / 0x1_0000 % 0x100, v / 0x100_0000) == v
  {
    var q := v / 0x100;
    var r := q / 0x100;
    assert v == 0x100 * q + v % 0x100 && q == 0x100 * r + q % 0x100 && r == 0x100 * (r / 0x100) + r % 0x100;
    assert r == v / 0x1_0000 && r / 0x100 == v / 0x100_0000;
  }

  /** The word stored at an address, lowest byte first. */
  function LongAt(mem: seq<Byte>, a: int): int
    requires 0 <= a && a + 4 <= |mem|
  {
    Joined(mem[a], mem[a + 1], mem[a + 2], mem[a + 3])
  }

  /** Its bytes, lowest first. */
  lemma LongBytes(mem: seq<Byte>, a: int)
    requires 0 <= a && a + 4 <= |mem|
    ensures var v := LongAt(mem, a);
            && 0 <= v < 0x1_0000_0000 && mem[a] == v % 256 && mem[a + 1] == v / 256 % 256
            && mem[a + 2] == v / 65536 % 256 && mem[a + 3] == v / 16777216
  {
    hide Joined;
    FourBytes(mem[a], mem[a + 1], mem[a + 2], mem[a + 3]);
  }

  lemma FourBytes(b0: Byte, b1: Byte, b2: Byte, b3: Byte)
    ensures var v := Joined(b0, b1, b2, b3);
            && 0 <= v < 0x1_0000_0000 && b0 == v % 256 && b1 == v / 256 % 256
            && b2 == v / 65536 % 256 && b3 == v / 16777216
  {
    var v, q, r := Joined(b0, b1, b2, b3), b1 + 256 * (b2 + 256 * b3), b2 + 256 * b3;
    assert v == 256 * q + b0 && v / 256 == q;
    assert v == 65536 * r + (256 * b1 + b0) && v / 65536 == r;
    assert v == 16777216 * b3 + (65536 * b2 + 256 * b1 + b0) && v / 16777216 == b3;
  }

  /** Where the k-th of a row of packed strings begins. */
  function Offset(ss: seq<seq<Byte>>, k: nat): int
    requires k <= |ss|
  {
    |Packed(ss[..k])|
  }

  lemma OffsetNext(ss: seq<seq<Byte>>, k: nat)
    requires k < |ss|
    ensures Offset(ss, k + 1) == Offset(ss, k) + |ss[k]| + 1
    ensures Offset(ss, k + 1) <= |Packed(ss)|
    ensures Packed(ss)[Offset(ss, k)..Offset(ss, k + 1)] == ss[k] + [0]
  {
    assert ss[..k + 1] == ss[..k] + [ss[k]];
    assert ss == ss[..k + 1] + ss[k + 1..];
    PackedJoins(ss[..k], [ss[k]]);
    PackedJoins(ss[..k + 1], ss[k + 1..]);
    PackedOne(ss[k]);
  }

  lemma PackedOne(s: seq<Byte>)
    ensures Packed([s]) == s + [0]
  {
    assert [s][1..] == [];
  }

  /** n words from an address on point to the strings from the given one on. */
  ghost predicate Table(mem: seq<Byte>, at: int, p: int, ss: seq<seq<Byte>>, from: nat, n: nat) {
    && from + n <= |ss| && 0 <= at && at + 4 * n <= |mem|
    && forall k: nat :: k < n ==> LongAt(mem, at + 4 * k) == p + Offset(ss, from + k)
  }

  lemma TableFrame(mem: seq<Byte>, mem': seq<Byte>, at: int, p: int, ss: seq<seq<Byte>>, from: nat, n: nat)
    requires Table(mem, at, p, ss, from, n) && |mem'| == |mem|
    requires forall a :: at <= a < at + 4 * n ==> mem'[a] == mem[a]
    ensures Table(mem', at, p, ss, from, n)
  {
  }

  lemma EmptyTable(mem: seq<Byte>, at: int, p: int, ss: seq<seq<Byte>>, from: nat)
    requires 0 <= at <= |mem| && from <= |ss|
    ensures Table(mem, at, p, ss, from, 0)
  {
  }

  lemma TableGrows(mem: seq<Byte>, at: int, p: int, ss: seq<seq<Byte>>, from: nat, n: nat)
    requires Table(mem, at, p, ss, from, n) && from + n < |ss| && at + 4 * n + 4 <= |mem|
    requires LongAt(mem, at + 4 * n) == p + Offset(ss, from + n)
    ensures Table(mem, at, p, ss, from, n + 1)
  {
  }

  lemma Slice(mem: seq<Byte>, p: nat, n: nat, o: nat, e: nat)
    requires o <= e <= n && p + n <= |mem|
    ensures mem[p + o..p + e] == mem[p..p + n][o..e]
  {
    var s, t := mem[p + o..p + e], mem[p..p + n][o..e];
    assert |s| == |t|;
    forall i | 0 <= i < |s| ensures s[i] == t[i] {
      assert t[i] == mem[p..p + n][o + i] == mem[p + (o + i)];
    }
  }

  /** A word of the table leads to a terminated copy of its string. */
  lemma TablePointsTo(mem: seq<Byte>, at: int, p: nat, ss: seq<seq<Byte>>, from: nat, n: nat, k: nat)
    requires Table(mem, at, p, ss, from, n) && k < n
    requires p + |Packed(ss)| <= |mem| && mem[p..p + |Packed(ss)|] == Packed(ss)
    ensures var a := LongAt(mem, at + 4 * k);
            p <= a && a + |ss[from + k]| + 1 <= |mem| && mem[a..a + |ss[from + k]| + 1] == ss[from + k] + [0]
  {
    OffsetNext(ss, from + k);
    var o, e := Offset(ss, from + k), Offset(ss, from + k + 1);
    Slice(mem, p, |Packed(ss)|, o, e);
  }

  /** A new program's memory: nothing is mapped where the arguments will be. */
  ghost predicate Unwritten(mem: seq<Byte>) {
    |mem| == TASK_SIZE && forall b :: BOTTOM <= b < BOTTOM + AREA ==> mem[b] == 0
  }

  /** Positions in the i-th page. */
  lemma InPage(i: nat)
    requires i < MAX_ARG_PAGES
    ensures forall a :: PAGE_SIZE * i <= a < PAGE_SIZE * i + PAGE_SIZE ==>
            a / PAGE_SIZE == i && a % PAGE_SIZE == a - PAGE_SIZE * i
  {
  }

  lemma StartOffset(ss: seq<seq<Byte>>)
    ensures Offset(ss, 0) == 0
  {
    assert ss[..0] == [];
  }

  lemma SameStrings(was: seq<Byte>, mem: seq<Byte>, p: nat, ss: seq<seq<Byte>>)
    requires p + |Packed(ss)| <= |was| == |mem| && was[p..p + |Packed(ss)|] == Packed(ss)
    requires forall b :: p <= b < |mem| ==> mem[b] == was[b]
    ensures mem[p..p + |Packed(ss)|] == Packed(ss)
  {
  }

  lemma LongFrame(was: seq<Byte>, mem: seq<Byte>, a: int)
    requires 0 <= a && a + 4 <= |was| == |mem| && forall b :: a <= b < a + 4 ==> mem[b] == was[b]
    ensures LongAt(mem, a) == LongAt(was, a)
  {
  }

  /**
    What main finds: the count, the two pointers, the tables with their null pointers, and above the tables
    the strings, of which the first argc are the arguments and the next envc the environment.
   */
  ghost predicate Laid(mem: seq<Byte>, sp: nat, p: nat, ss: seq<seq<Byte>>, argc: nat, envc: nat) {
    var argv, envp := sp + 12, sp + 12 + 4 * (argc + 1);
    && envp + 4 * (envc + 1) == p - p % 4
    && p + |Packed(ss)| <= |mem| && mem[p..p + |Packed(ss)|] == Packed(ss)
    && LongAt(mem, sp) == argc && LongAt(mem, sp + 4) == argv && LongAt(mem, sp + 8) == envp
    && Table(mem, argv, p, ss, 0, argc) && LongAt(mem, argv + 4 * argc) == 0
    && Table(mem, envp, p, ss, argc, envc) && LongAt(mem, envp + 4 * envc) == 0
  }

  lemma StillThere(was: seq<Byte>, mem: seq<Byte>, base: nat, ss: seq<seq<Byte>>, k: nat)
    requires k < |ss| && base + |Packed(ss)| <= |was| == |mem| && was[base..base + |Packed(ss)|] == Packed(ss)
    requires forall b :: base <= b < |mem| ==> mem[b] == was[b]
    ensures var a := base + Offset(ss, k); a + |ss[k]| + 1 <= |mem| && mem[a..a + |ss[k]| + 1] == ss[k] + [0]
  {
    OffsetNext(ss, k);
    var o, e := Offset(ss, k), Offset(ss, k + 1);
    assert mem[base..base + |Packed(ss)|] == Packed(ss);
    Slice(mem, base, |Packed(ss)|, o, e);
  }

  class Image {
    var mem: seq<Byte>

    constructor (size: nat)
      ensures |mem| == size && forall a :: 0 <= a < size ==> mem[a] == 0
    {
      mem := seq(size, _ => 0);
    }

    /** put_fs_long. */
    method PutLong(v: int, a: int)
      requires 0 <= v < 0x1_0000_0000 && 0 <= a && a + 4 <= |mem|
      modifies this
      ensures |mem| == old(|mem|) && LongAt(mem, a) == v
      ensures forall b :: 0 <= b < |mem| && !(a <= b < a + 4) ==> mem[b] == old(mem)[b]
    {
      hide Joined;
      BytesOf(v);
      mem := mem[a := v % 0x100][a + 1 := v / 0x100 % 0x100][a + 2 := v / 0x1_0000 % 0x100][a + 3 := v / 0x100_0000];
    }

    /** The loop that goes past a string. */
    method Skip(start: nat, ghost s: seq<Byte>) returns (p: nat)
      requires Plain(s) && start + |s| + 1 <= |mem| && mem[start..start + |s| + 1] == s + [0]
      ensures p == start + |s| + 1
    {
      p := start;
      assert forall i :: 0 <= i <= |s| ==> mem[start + i] == (s + [0])[i];
      while mem[p] != 0
        invariant start <= p <= start + |s|
        decreases start + |s| - p
      {
        assert mem[p] == (s + [0])[p - start];
        p := p + 1;
      }
      p := p + 1;
    }

    /** A loop of create_tables: a pointer to each of the next strings, and a null pointer. */
    method FillTable(at: int, first: nat, count: nat, ghost base: nat, ghost ss: seq<seq<Byte>>, ghost from: nat)
      returns (p: nat)
      requires from + count <= |ss| && (forall i :: 0 <= i < |ss| ==> Plain(ss[i]))
      requires base + |Packed(ss)| <= |mem| < 0x1_0000_0000 && mem[base..base + |Packed(ss)|] == Packed(ss)
      requires 0 <= at && at + 4 * count + 4 <= base && first == base + Offset(ss, from)
      modifies this
      ensures |mem| == old(|mem|) && p == base + Offset(ss, from + count)
      ensures Table(mem, at, base, ss, from, count) && LongAt(mem, at + 4 * count) == 0
      ensures forall b :: 0 <= b < |mem| && !(at <= b < at + 4 * count + 4) ==> mem[b] == old(mem)[b]
    {
      hide Packed, Offset, LongAt, Table;
      p := first;
      var k := 0;
      EmptyTable(mem, at, base, ss, from);
      while k < count
        invariant 0 <= k <= count && |mem| == old(|mem|) && p == base + Offset(ss, from + k)
        invariant Table(mem, at, base, ss, from, k)
        invariant forall b :: 0 <= b < |mem| && !(at <= b < at + 4 * k) ==> mem[b] == old(mem)[b]
      {
        OffsetNext(ss, from + k);
        ghost var m := mem;
        PutLong(p, at + 4 * k);
        TableFrame(m, mem, at, base, ss, from, k);
        TableGrows(mem, at, base, ss, from, k);
        StillThere(old(mem), mem, base, ss, from + k);
        p := Skip(p, ss[from + k]);
        k := k + 1;
      }
      ghost var m := mem;
      PutLong(0, at + 4 * count);
      TableFrame(m, mem, at, base, ss, from, count);
    }

    /** create_tables: below the strings the two tables, and below them what main is called with. */
    method CreateTables(p: nat, argc: nat, envc: nat, ghost ss: seq<seq<Byte>>) returns (sp: nat)
      requires argc + envc <= |ss| && (forall i :: 0 <= i < |ss| ==> Plain(ss[i]))
      requires p + |Packed(ss)| <= |mem| < 0x1_0000_0000 && mem[p..p + |Packed(ss)|] == Packed(ss)
      requires 4 * (argc + envc + 5) <= p - p % 4
      modifies this
      ensures |mem| == old(|mem|) && Laid(mem, sp, p, ss, argc, envc)
      ensures sp == p - p % 4 - 4 * (argc + envc + 5)
      ensures forall b :: 0 <= b < |mem| && !(sp <= b < p - p % 4) ==> mem[b] == old(mem)[b]
    {
      hide Packed, LongAt, Table, Offset;
      sp := p - p % 4;
      sp := sp - 4 * (envc + 1);
      var envp := sp;
      sp := sp - 4 * (argc + 1);
      var argv := sp;
      sp := sp - 4;
      PutLong(envp, sp);
      ghost var m1 := mem;
      sp := sp - 4;
      PutLong(argv, sp);
      ghost var m2 := mem;
      sp := sp - 4;
      PutLong(argc, sp);
      ghost var m3 := mem;
      StartOffset(ss);
      SameStrings(old(mem), mem, p, ss);
      var q := FillTable(argv, p, argc, p, ss, 0);
      ghost var half := mem;
      SameStrings(old(mem), mem, p, ss);
      q := FillTable(envp, q, envc, p, ss, argc);
      SameStrings(old(mem), mem, p, ss);
      TableFrame(half, mem, argv, p, ss, 0, argc);
      LongFrame(half, mem, argv + 4 * argc);
      LongFrame(m3, mem, sp);
      LongFrame(m2, mem, sp + 4);
      LongFrame(m1, mem, sp + 8);
    }

    /** change_ldt's loop: the argument pages are mapped below the library area, the last one highest. */
    method MapPages(page: seq<Option<seq<Byte>>>)
      requires Sized(page) && Unwritten(mem)
      modifies this
      ensures |mem| == TASK_SIZE && mem[BOTTOM..BOTTOM + AREA] == Flat(page)
      ensures forall b :: 0 <= b < |mem| && !(BOTTOM <= b < BOTTOM + AREA) ==> mem[b] == old(mem)[b]
    {
      var base, i := TASK_SIZE - LIBRARY_SIZE, MAX_ARG_PAGES;
      while i > 0
        invariant 0 <= i <= MAX_ARG_PAGES && base == BOTTOM + PAGE_SIZE * i && |mem| == TASK_SIZE
        invariant forall b :: 0 <= b < |mem| && !(base <= b < BOTTOM + AREA) ==> mem[b] == old(mem)[b]
        invariant forall b :: base <= b < BOTTOM + AREA ==> mem[b] == ByteAt(page, b - BOTTOM)
      {
        i := i - 1;
        base := base - PAGE_SIZE;
        if page[i].Some? {
          mem := mem[..base] + page[i].value + mem[base + PAGE_SIZE..];
        }
        InPage(i);
      }
    }
  }

  // ----- do_execve: several calls of copy_strings, then the tables

  /** The strings in memory order: what is copied later lies lower. */
  function All(groups: seq<seq<seq<Byte>>>): seq<seq<Byte>> {
    if groups == [] then [] else All(groups[1..]) + groups[0]
  }

  /** Where a row of calls ends if no page is missing; the result zero makes all further calls fail. */
  function Fate(groups: seq<seq<seq<Byte>>>, p: nat): Copied {
    if p == 0 then NoRoom
    else if groups == [] then At(p)
    else if |Packed(groups[0])| > p then Overrun
    else Fate(groups[1..], p - |Packed(groups[0])|)
  }

  /** After some of the calls the pages are exactly full. */
  ghost predicate ExactlyFull(groups: seq<seq<seq<Byte>>>, p: nat) {
    exists j :: 0 <= j <= |groups| && |Packed(All(groups[..j]))| == p
  }

  lemma AllSplits(groups: seq<seq<seq<Byte>>>, j: nat)
    requires 0 < j <= |groups|
    ensures |Packed(All(groups[..j]))| == |Packed(groups[0])| + |Packed(All(groups[1..][..j - 1]))|
  {
    assert groups[..j][1..] == groups[1..][..j - 1];
    PackedJoins(All(groups[..j][1..]), groups[0]);
  }

  lemma AllSplitsWhole(groups: seq<seq<seq<Byte>>>)
    requires groups != []
    ensures |Packed(All(groups))| == |Packed(groups[0])| + |Packed(All(groups[1..]))|
  {
    PackedJoins(All(groups[1..]), groups[0]);
  }

  lemma ExactlyFullStep(groups: seq<seq<seq<Byte>>>, p: nat)
    requires groups != [] && p > 0
    ensures ExactlyFull(groups, p) <==> |Packed(groups[0])| <= p && ExactlyFull(groups[1..], p - |Packed(groups[0])|)
  {
    var n := |Packed(groups[0])|;
    assert groups[..0] == [];
    if j :| 0 <= j <= |groups| && |Packed(All(groups[..j]))| == p {
      AllSplits(groups, j);
      assert |Packed(All(groups[1..][..j - 1]))| == p - n;
    }
    if n <= p && ExactlyFull(groups[1..], p - n) {
      var j :| 0 <= j <= |groups[1..]| && |Packed(All(groups[1..][..j]))| == p - n;
      AllSplits(groups, j + 1);
      assert |Packed(All(groups[..j + 1]))| == p;
    }
  }

  /**
    Copying succeeds exactly if all strings leave at least one byte.  If they do not, it fails
    cleanly only where some call happens to end exactly at the bottom; otherwise it runs on below it.
   */
  lemma {:induction false} FateIs(groups: seq<seq<seq<Byte>>>, p: nat)
    ensures Fate(groups, p).At? <==> |Packed(All(groups))| < p
    ensures Fate(groups, p).At? ==> Fate(groups, p).p == p - |Packed(All(groups))|
    ensures Fate(groups, p).Overrun? <==> |Packed(All(groups))| > p && !ExactlyFull(groups, p)
    decreases |groups|
  {
    assert p == 0 ==> groups[..0] == [] && |Packed(All(groups[..0]))| == p;
    if p > 0 && groups != [] {
      AllSplitsWhole(groups);
      ExactlyFullStep(groups, p);
      if |Packed(groups[0])| <= p { FateIs(groups[1..], p - |Packed(groups[0])|); }
    }
  }

  /** Where they end from given pages, with so many more to be had. */
  function GroupsEnding(page: seq<Option<seq<Byte>>>, free: nat, groups: seq<seq<seq<Byte>>>, start: nat): Copied
    requires |page| == MAX_ARG_PAGES && 0 < start < AREA
  {
    if Absent(page, Low(|Packed(All(groups))|, start), Upto(start)) > free then NoRoom else Fate(groups, start)
  }

  /** The calls of copy_strings in do_execve. */
  method CopyGroups(pages: ArgPages, groups: seq<seq<seq<Byte>>>, start: nat) returns (r: Copied)
    requires Sized(pages.page) && 0 < start < AREA
    requires forall i, k :: 0 <= i < |groups| && 0 <= k < |groups[i]| ==> Plain(groups[i][k])
    modifies pages
    ensures Sized(pages.page)
    ensures r == GroupsEnding(old(pages.page), old(pages.free), groups, start)
    ensures r.At? ==> r.p == start - |Packed(All(groups))| && Flat(pages.page)[r.p..start] == Packed(All(groups))
  {
    hide Packed, All, Flat, Took, Absent, Upto, Lowest, GroupsEnding, Ending;
    var i, p := 0, start;
    assert groups[..0] == [] && groups[0..] == groups;
    NoGroups();
    PackedNone();
    TookNothing(pages.page, pages.free, start);
    while i < |groups|
      invariant 0 <= i <= |groups| && 0 <= p <= start && Sized(pages.page)
      invariant if p == 0 then GroupsEnding(old(pages.page), old(pages.free), groups, start) == NoRoom
                else && Took(old(pages.page), old(pages.free), pages.page, pages.free, Lowest(p, start), Upto(start))
                     && Fate(groups, start) == Fate(groups[i..], p)
                     && p + |Packed(All(groups[..i]))| == start
                     && Flat(pages.page)[p..start] == Packed(All(groups[..i]))
    {
      ghost var page1, free1, flat := pages.page, pages.free, Flat(pages.page);
      var c := pages.CopyStrings(groups[i], p);
      assert groups[i..][1..] == groups[i + 1..];
      Below(groups, i);
      if p > 0 { OneGroup(old(pages.page), old(pages.free), page1, free1, groups, i, p, start, c); }
      if c.Overrun? { return Overrun; }
      if c.At? {
        TookTwice(old(pages.page), old(pages.free), page1, free1, pages.page, pages.free, c.p, p, start);
        Stacked(flat, c.p, p, start, Packed(groups[i]), Packed(All(groups[..i])));
      }
      p := if c.At? then c.p else 0;
      i := i + 1;
    }
    assert groups[..i] == groups;
    if p == 0 { return NoRoom; }
    AllGroups(old(pages.page), old(pages.free), pages.page, pages.free, groups, p, start);
    r := At(p);
  }

  lemma Stacked(flat: seq<Byte>, q: nat, p: nat, start: nat, new_: seq<Byte>, before: seq<Byte>)
    requires q + |new_| == p <= start <= |flat| && flat[p..start] == before
    ensures (flat[..q] + new_ + flat[p..])[q..start] == new_ + before
  {
  }

  /** What the end of one call says about the whole. */
  lemma OneGroup(page0: seq<Option<seq<Byte>>>, free0: nat, page1: seq<Option<seq<Byte>>>, free1: nat,
                 groups: seq<seq<seq<Byte>>>, i: nat, p: nat, start: nat, c: Copied)
    requires i < |groups| && 0 < p <= start < AREA && p + |Packed(All(groups[..i]))| == start
    requires Took(page0, free0, page1, free1, Lowest(p, start), Upto(start))
    requires Fate(groups, start) == Fate(groups[i..], p) && c == Ending(page1, free1, |Packed(groups[i])|, p)
    ensures c.Overrun? || c.NoRoom? || (c.At? && c.p == 0) ==>
              GroupsEnding(page0, free0, groups, start) == if c.Overrun? then Overrun else NoRoom
    ensures c.At? ==> Fate(groups, start) == Fate(groups[i + 1..], c.p) && c.p == p - |Packed(groups[i])|
  {
    hide Packed, All, Took, Absent;
    assert groups[i..][1..] == groups[i + 1..];
    Below(groups, i);
    AtLeast(groups, i + 1);
    FateIs(groups, start);
    TookBounded(page0, free0, page1, free1, Lowest(p, start), Upto(start));
    var n, g := |Packed(All(groups))|, |Packed(groups[i])|;
    if g > 0 || c.Overrun? {
      var lo := Low(g, p);
      GoesOn(page0, free0, page1, free1, p, start, lo);
      if c.NoRoom? { AbsentSplits(page0, Low(n, start), lo, Upto(start)); }
    } else {
      NoneNeeded(page1, p);
    }
  }

  lemma NoneNeeded(page: seq<Option<seq<Byte>>>, p: nat)
    requires 0 < p < AREA && |page| == MAX_ARG_PAGES
    ensures Absent(page, Low(0, p), Upto(p)) == 0
  {
  }

  lemma AtLeast(groups: seq<seq<seq<Byte>>>, i: nat)
    requires i <= |groups|
    ensures |Packed(All(groups[..i]))| <= |Packed(All(groups))|
    decreases |groups| - i
  {
    if i < |groups| {
      Below(groups, i);
      AtLeast(groups, i + 1);
    } else {
      assert groups[..i] == groups;
    }
  }

  lemma AllGroups(page0: seq<Option<seq<Byte>>>, free0: nat, page: seq<Option<seq<Byte>>>, free: nat,
                  groups: seq<seq<seq<Byte>>>, p: nat, start: nat)
    requires 0 < p <= start < AREA && p + |Packed(All(groups))| == start
    requires Took(page0, free0, page, free, Lowest(p, start), Upto(start))
    ensures GroupsEnding(page0, free0, groups, start) == At(p)
  {
    FateIs(groups, start);
  }

  lemma PackedNone()
    ensures Packed([]) == []
  {
  }

  lemma Below(groups: seq<seq<seq<Byte>>>, i: nat)
    requires i < |groups|
    ensures All(groups[..i + 1]) == groups[i] + All(groups[..i])
    ensures Packed(All(groups[..i + 1])) == Packed(groups[i]) + Packed(All(groups[..i]))
  {
    AllAppends(groups[..i], groups[i]);
    assert groups[..i + 1] == groups[..i] + [groups[i]];
    PackedJoins(groups[i], All(groups[..i]));
  }

  lemma {:induction false} AllAppends(groups: seq<seq<seq<Byte>>>, g: seq<seq<Byte>>)
    ensures All(groups + [g]) == g + All(groups)
  {
    if groups == [] {
      assert ([] + [g])[1..] == [];
    } else {
      AllAppends(groups[1..], g);
      assert (groups + [g])[1..] == groups[1..] + [g];
    }
  }

  // ----- What the new program finds

  ghost predicate HoldsString(mem: seq<Byte>, a: int, s: seq<Byte>) {
    0 <= a && a + |s| + 1 <= |mem| && mem[a..a + |s| + 1] == s + [0]
  }

  /** A table of pointers to copies of the strings, ended by a null pointer. */
  ghost predicate PointsTo(mem: seq<Byte>, at: int, ss: seq<seq<Byte>>) {
    && 0 <= at && at + 4 * (|ss| + 1) <= |mem|
    && (forall k: nat :: k < |ss| ==> HoldsString(mem, LongAt(mem, at + 4 * k), ss[k]))
    && LongAt(mem, at + 4 * |ss|) == 0
  }

  /** main is called with these arguments and this environment; the tables and the strings do not overlap. */
  ghost predicate Receives(mem: seq<Byte>, sp: nat, args: seq<seq<Byte>>, envs: seq<seq<Byte>>) {
    && sp + 12 <= |mem|
    && var argv, envp := LongAt(mem, sp + 4), LongAt(mem, sp + 8);
      && LongAt(mem, sp) == |args| && PointsTo(mem, argv, args) && PointsTo(mem, envp, envs)
      && sp + 12 <= argv && argv + 4 * (|args| + 1) <= envp
      && (forall k: nat :: k < |args| ==> envp + 4 * (|envs| + 1) <= LongAt(mem, argv + 4 * k))
      && (forall k: nat :: k < |envs| ==> envp + 4 * (|envs| + 1) <= LongAt(mem, envp + 4 * k))
  }

  lemma TableReceives(mem: seq<Byte>, at: int, p: nat, ss: seq<seq<Byte>>, from: nat, n: nat)
    requires Table(mem, at, p, ss, from, n) && at + 4 * n + 4 <= |mem| && LongAt(mem, at + 4 * n) == 0
    requires p + |Packed(ss)| <= |mem| && mem[p..p + |Packed(ss)|] == Packed(ss)
    ensures PointsTo(mem, at, ss[from..from + n])
    ensures forall k: nat :: k < n ==> p <= LongAt(mem, at + 4 * k)
  {
    hide LongAt, Packed;
    forall k: nat | k < n ensures HoldsString(mem, LongAt(mem, at + 4 * k), ss[from + k])
      && p <= LongAt(mem, at + 4 * k) {
      TablePointsTo(mem, at, p, ss, from, n, k);
    }
  }

  lemma LaidReceives(mem: seq<Byte>, sp: nat, p: nat, ss: seq<seq<Byte>>, argc: nat, envc: nat)
    requires Laid(mem, sp, p, ss, argc, envc) && argc + envc <= |ss|
    ensures Receives(mem, sp, ss[..argc], ss[argc..argc + envc])
  {
    hide LongAt, Packed, Table, PointsTo;
    TableReceives(mem, sp + 12, p, ss, 0, argc);
    assert ss[0..0 + argc] == ss[..argc];
    TableReceives(mem, sp + 12 + 4 * (argc + 1), p, ss, argc, envc);
  }

  lemma {:induction false} StringsTakeBytes(ss: seq<seq<Byte>>)
    ensures |ss| <= |Packed(ss)|
  {
    if ss != [] { StringsTakeBytes(ss[1..]); }
  }

  lemma {:induction false} AllPlain(groups: seq<seq<seq<Byte>>>)
    requires forall i, k :: 0 <= i < |groups| && 0 <= k < |groups[i]| ==> Plain(groups[i][k])
    ensures forall i :: 0 <= i < |All(groups)| ==> Plain(All(groups)[i])
  {
    if groups != [] { AllPlain(groups[1..]); }
  }

  datatype Outcome = Started(sp: nat) | NoMemory | Overran

  /** So many pages are missing for n bytes of strings as can be had. */
  predicate Enough(page: seq<Option<seq<Byte>>>, free: nat, n: nat)
    requires |page| == MAX_ARG_PAGES
  {
    Absent(page, Low(n, AREA - 4), MAX_ARG_PAGES) <= free
  }

  lemma EnoughAlways(page: seq<Option<seq<Byte>>>, free: nat, n: nat)
    requires |page| == MAX_ARG_PAGES && free >= MAX_ARG_PAGES
    ensures Enough(page, free, n)
  {
    AbsentAtMost(page, Low(n, AREA - 4), MAX_ARG_PAGES);
  }

  lemma Aligned(p: int, words: int)
    ensures (p - p % 4 - 4 * words) % 4 == 0
  {
  }

  lemma {:induction false} AllAbsent(page: seq<Option<seq<Byte>>>, lo: nat, hi: nat)
    requires lo <= hi <= |page| && forall i :: 0 <= i < |page| ==> page[i].None?
    ensures Absent(page, lo, hi) == hi - lo
    decreases hi - lo
  {
    if lo < hi { AllAbsent(page, lo + 1, hi); }
  }

  /** do_execve starts with no argument page: then the pages needed are those that the n bytes below the top touch. */
  lemma PagesNeeded(free: nat, n: nat)
    ensures Enough(seq(32, _ => None), free, n) <==>
            free >= if n == 0 then 0 else if n >= 131068 then 32 else 32 - (131068 - n) / 4096
  {
    var page: seq<Option<seq<Byte>>> := seq(32, _ => None);
    AllAbsent(page, Low(n, AREA - 4), 32);
  }

  /** From the strings to the stack: copy_strings, change_ldt, create_tables. */
  method Layout(pages: ArgPages, image: Image, groups: seq<seq<seq<Byte>>>, argc: nat, envc: nat) returns (r: Outcome)
    requires Sized(pages.page) && Unwritten(image.mem)
    requires forall i, k :: 0 <= i < |groups| && 0 <= k < |groups[i]| ==> Plain(groups[i][k])
    requires argc + envc <= |All(groups)|
    modifies pages, image
    ensures var n, enough := |Packed(All(groups))|, old(Enough(pages.page, pages.free, |Packed(All(groups))|));
            && (r.Started? <==> n < AREA - 4 && enough)
            && (r.Overran? <==> n > AREA - 4 && !ExactlyFull(groups, AREA - 4) && enough)
    ensures r.Started? ==> Receives(image.mem, r.sp, All(groups)[..argc], All(groups)[argc..argc + envc])
    ensures r.Started? ==>
              var top := 0x03C0_0000 - 4 - |Packed(All(groups))|;
              r.sp == top - top % 4 - 4 * (argc + envc + 5) && r.sp % 4 == 0
  {
    hide Packed, Laid, Receives, Fate, ExactlyFull, Flat, Absent;
    var c := CopyGroups(pages, groups, AREA - 4);
    FateIs(groups, AREA - 4);
    if c.Overrun? { return Overran; }
    if c.NoRoom? { return NoMemory; }
    image.MapPages(pages.page);
    var p := c.p + TASK_SIZE - (LIBRARY_SIZE + MAX_ARG_PAGES * PAGE_SIZE);
    ghost var ss := All(groups);
    StringsTakeBytes(ss);
    AllPlain(groups);
    Slice(image.mem, BOTTOM, AREA, c.p, c.p + |Packed(ss)|);
    var sp := image.CreateTables(p, argc, envc, ss);
    LaidReceives(image.mem, sp, p, ss, argc, envc);
    Aligned(p, argc + envc + 5);
    r := Started(sp);
  }

  /** Two groups that are too long together fill the pages exactly only if the first does. */
  lemma FullAtEnvironment(envs: seq<seq<Byte>>, args: seq<seq<Byte>>)
    ensures |Packed(args)| + |Packed(envs)| > AREA - 4 ==>
              (ExactlyFull([envs, args], AREA - 4) <==> |Packed(envs)| == AREA - 4)
  {
    hide Packed, ExactlyFull;
    ExactlyFullStep([envs, args], AREA - 4);
    assert [envs, args][1..] == [args];
    var p := AREA - 4 - |Packed(envs)|;
    if p > 0 {
      ExactlyFullStep([args], p);
      FullFromTheStart([args][1..], p - |Packed(args)|);
    } else if p == 0 {
      FullFromTheStart([args], 0);
    }
  }

  lemma FullFromTheStart(groups: seq<seq<seq<Byte>>>, p: int)
    ensures p == 0 ==> ExactlyFull(groups, 0)
  {
    assert groups[..0] == [];
  }

  /** do_execve for a program. */
  method Execve(pages: ArgPages, image: Image, args: seq<seq<Byte>>, envs: seq<seq<Byte>>) returns (r: Outcome)
    requires Sized(pages.page) && Unwritten(image.mem)
    requires (forall k :: 0 <= k < |args| ==> Plain(args[k])) && forall k :: 0 <= k < |envs| ==> Plain(envs[k])
    modifies pages, image
    ensures r.Started? <==> && |Packed(args)| + |Packed(envs)| < AREA - 4
                            && old(Enough(pages.page, pages.free, |Packed(args)| + |Packed(envs)|))
    ensures r.Overran? <==> && |Packed(args)| + |Packed(envs)| > AREA - 4 && |Packed(envs)| != AREA - 4
                            && old(Enough(pages.page, pages.free, |Packed(args)| + |Packed(envs)|))
    ensures old(pages.free) >= MAX_ARG_PAGES ==> (r.Started? <==> |Packed(args)| + |Packed(envs)| < AREA - 4)
    ensures r.Started? ==> Receives(image.mem, r.sp, args, envs)
    ensures r.Started? ==>
              var top := 0x03C0_0000 - 4 - |Packed(args)| - |Packed(envs)|;
              r.sp == top - top % 4 - 4 * (|args| + |envs| + 5) && r.sp % 4 == 0
  {
    hide Packed, Receives, Enough, ExactlyFull;
    ghost var n := |Packed(args)| + |Packed(envs)|;
    if pages.free >= MAX_ARG_PAGES { EnoughAlways(pages.page, pages.free, n); }
    var groups := [envs, args];
    AllAppends([], envs);
    AllAppends([envs], args);
    assert [] + [envs] == [envs] && [envs] + [args] == groups && envs + [] == envs;
    PackedJoins(args, envs);
    FullAtEnvironment(envs, args);
    r := Layout(pages, image, groups, |args|, |envs|);
    assert (args + envs)[..|args|] == args && (args + envs)[|args|..|args| + |envs|] == envs;
  }

  /** The strings of a script's stack: the script's name and what is given with it come before the rest. */
  function ScriptAll(args: seq<seq<Byte>>, envs: seq<seq<Byte>>, name: seq<Byte>, arg: Option<seq<Byte>>,
                     script: seq<Byte>)
    : seq<seq<Byte>>
  {
    [name] + Given(arg) + [script] + (if args == [] then [] else args[1..]) + envs
  }

  /** What the calls of copy_strings get, in their order. */
  function ScriptGroups(args: seq<seq<Byte>>, envs: seq<seq<Byte>>, name: seq<Byte>, arg: Option<seq<Byte>>,
                        script: seq<Byte>)
    : seq<seq<seq<Byte>>>
  {
    [envs, if args == [] then [] else args[1..], [script]] + (if arg.Some? then [[arg.value]] else []) + [[name]]
  }

  /**
    do_execve for a script: the interpreter's name, its argument if there is one, and the script's name come
    before the arguments, of which the first is left out.  A script called with no arguments at all is
    miscounted: its name is taken for the first string of the environment.
   */
  method ExecScript(pages: ArgPages, image: Image, args: seq<seq<Byte>>, envs: seq<seq<Byte>>,
                    name: seq<Byte>, arg: Option<seq<Byte>>, script: seq<Byte>) returns (r: Outcome)
    requires Sized(pages.page) && Unwritten(image.mem)
    requires (forall k :: 0 <= k < |args| ==> Plain(args[k])) && forall k :: 0 <= k < |envs| ==> Plain(envs[k])
    requires Plain(name) && Plain(script) && (arg.Some? ==> Plain(arg.value))
    modifies pages, image
    ensures var n := |Packed(ScriptAll(args, envs, name, arg, script))|;
            && (r.Started? <==> n < AREA - 4 && old(Enough(pages.page, pages.free, n)))
            && (r.Overran? <==>
                  && n > AREA - 4 && !ExactlyFull(ScriptGroups(args, envs, name, arg, script), AREA - 4)
                  && old(Enough(pages.page, pages.free, n)))
            && (old(pages.free) >= MAX_ARG_PAGES ==> (r.Started? <==> n < AREA - 4))
    ensures r.Started? ==>
              var given := if arg.Some? then [arg.value] else [];
              (Receives(image.mem, r.sp, [name] + given + [script] + (if args == [] then [] else args[1..]), envs)
               <==> args != [])
    ensures r.Started? && args == [] ==>
              var given := if arg.Some? then [arg.value] else [];
              Receives(image.mem, r.sp, [name] + given, ([script] + envs)[..|envs|])
    ensures r.Started? ==>
              var top := 0x03C0_0000 - 4 - |Packed(ScriptAll(args, envs, name, arg, script))|;
              r.sp == top - top % 4 - 4 * (|args| + |envs| + (if arg.Some? then 7 else 6)) && r.sp % 4 == 0
  {
    hide Packed, Receives, Enough, ExactlyFull;
    ghost var n := |Packed(ScriptAll(args, envs, name, arg, script))|;
    if pages.free >= MAX_ARG_PAGES { EnoughAlways(pages.page, pages.free, n); }
    var argc := |args|;
    ghost var given, rest := Given(arg), if args == [] then [] else args[1..];
    var groups := [envs, if args == [] then [] else args[1..]];
    argc := argc - 1;
    groups := groups + [[script]];
    argc := argc + 1;
    if arg.Some? {
      groups := groups + [[arg.value]];
      argc := argc + 1;
    }
    groups := groups + [[name]];
    argc := argc + 1;
    ScriptStrings(groups, envs, rest, script, arg, name);
    assert groups == ScriptGroups(args, envs, name, arg, script);
    ghost var all := ScriptAll(args, envs, name, arg, script);
    r := Layout(pages, image, groups, argc, |envs|);
    ScriptParts(args, envs, name, arg, script);
    if r.Started? && args == [] {
      OneCount(image.mem, r.sp, all[..argc], all[argc..argc + |envs|], [name] + given + [script] + rest, envs);
    }
  }

  lemma ScriptParts(args: seq<seq<Byte>>, envs: seq<seq<Byte>>, name: seq<Byte>, arg: Option<seq<Byte>>,
                    script: seq<Byte>)
    ensures var all, argc := ScriptAll(args, envs, name, arg, script), |args| + 1 + |Given(arg)|;
            && argc + |envs| <= |all|
            && (args != [] ==>
                  && all[..argc] == [name] + Given(arg) + [script] + args[1..]
                  && all[argc..argc + |envs|] == envs)
            && (args == [] ==>
                  && all[..argc] == [name] + Given(arg)
                  && all[argc..argc + |envs|] == ([script] + envs)[..|envs|])
  {
    var all, argc, front := ScriptAll(args, envs, name, arg, script), |args| + 1 + |Given(arg)|, [name] + Given(arg);
    assert args == [] ==> all == front + ([script] + envs);
    assert args != [] ==> all == (front + [script] + args[1..]) + envs;
  }

  /** A program is told one number of arguments. */
  lemma OneCount(mem: seq<Byte>, sp: nat, args: seq<seq<Byte>>, envs: seq<seq<Byte>>,
                 args': seq<seq<Byte>>, envs': seq<seq<Byte>>)
    requires Receives(mem, sp, args, envs) && |args'| != |args|
    ensures !Receives(mem, sp, args', envs')
  {
  }

  // ----- Inputs for which it goes wrong

  /** A single argument as long as the area: the copy runs on below it instead of failing. */
  lemma TooLongOverruns()
    ensures var s := seq(AREA, _ => 1);
            Plain(s) && Fate([[], [s]], AREA - 4) == Overrun
              && Ending(seq(MAX_ARG_PAGES, _ => None), 32, |Packed([s])|, AREA - 4) == Overrun
  {
    var s: seq<Byte> := seq(AREA, _ => 1);
    PackedOne(s);
    PackedNone();
    var groups := [[], [s]];
    assert groups[1..] == [[s]];
    AbsentAtMost(seq(MAX_ARG_PAGES, _ => None), 0, MAX_ARG_PAGES);
  }

  /** The script "x" run by "sh" with an empty argument vector: its name is not among the arguments. */
  method EmptyVectorExample() returns (r: Outcome, mem: seq<Byte>)
    ensures r.Started? && Receives(mem, r.sp, [[115, 104]], [])
    ensures !Receives(mem, r.sp, [[115, 104], [120]], [])
  {
    hide Receives, Absent;
    var pages := new ArgPages(MAX_ARG_PAGES);
    var image := new Image(TASK_SIZE);
    ScriptExample();
    r := ExecScript(pages, image, [], [], [115, 104], None, [120]);
    mem := image.mem;
  }

  lemma ScriptExample()
    ensures ScriptAll([], [], [115, 104], None, [120]) == [[115, 104], [120]]
    ensures |Packed([[115, 104], [120]])| == 5
    ensures [[115, 104]] + Given(None) == [[115, 104]] && ([[120]] + [])[..0] == []
    ensures [[115, 104]] + Given(None) + [[120]] + [] == [[115, 104], [120]]
  {
    assert [[115, 104], [120]][1..] == [[120]];
    PackedOne([120]);
  }

  function Given(arg: Option<seq<Byte>>): seq<seq<Byte>> {
    if arg.Some? then [arg.value] else []
  }

  lemma NoGroups()
    ensures All([]) == []
  {
  }

  lemma ScriptStrings(groups: seq<seq<seq<Byte>>>, envs: seq<seq<Byte>>, rest: seq<seq<Byte>>, script: seq<Byte>,
                      arg: Option<seq<Byte>>, name: seq<Byte>)
    requires groups == [envs, rest, [script]] + (if arg.Some? then [[arg.value]] else []) + [[name]]
    ensures All(groups) == [name] + Given(arg) + [script] + rest + envs
  {
    hide All;
    NoGroups();
    AllAppends([], envs);
    AllAppends([envs], rest);
    AllAppends([envs, rest], [script]);
    assert [] + [envs] == [envs] && [envs] + [rest] == [envs, rest]
           && [envs, rest] + [[script]] == [envs, rest, [script]];
    if arg.Some? {
      AllAppends([envs, rest, [script]], [arg.value]);
      AllAppends([envs, rest, [script]] + [[arg.value]], [name]);
    } else {
      assert groups == [envs, rest, [script]] + [[name]];
      AllAppends([envs, rest, [script]], [name]);
    }
  }
}
