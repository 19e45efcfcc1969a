/**
  malloc, free_s and init_bucket_desc of lib/malloc.c on the tables of Buckets.
  A panic ends the run, so nothing is said about the tables after one.
 */
module Malloc {
  import opened Buckets
  import Words

  const DESCS_PER_PAGE := 256

  /** The words inside the objects of live, but for one object, are as they were. */
  ghost predicate ContentsKept(live: map<int, int>, but: int, mem: map<int, int>, mem': map<int, int>) {
    forall o, at :: o in live && o != but && o <= at < o + live[o] && at in mem ==> at in mem' && mem'[at] == mem[at]
  }

  lemma NextInChain(order: seq<int>, desc: seq<Desc>, head: int, where: seq<int>, b: int, k: nat)
    requires Lists(order, desc, head, where, b) && k < |order|
    ensures 0 <= order[k] < |desc|
    ensures k + 1 < |order| ==>
              && desc[order[k]].next == order[k + 1] && 0 <= order[k + 1] < |desc|
              && where[order[k + 1]] == b
    ensures k + 1 == |order| ==> desc[order[k]].next == NIL
  {
    assert k + 1 < |order| ==> order[k + 1] in order;
  }

  function Row(first: nat, n: nat): (r: seq<int>)
    ensures |r| == n && forall i :: 0 <= i < n ==> r[i] == first + i
  {
    seq(n, i => first + i)
  }

  /** Adding descriptors nobody uses. */
  ghost predicate Extends(desc: seq<Desc>, desc': seq<Desc>, spareHead: int) {
    && |desc'| == |desc| + DESCS_PER_PAGE && desc'[..|desc|] == desc
    && (forall k :: |desc| <= k < |desc'| - 1 ==> desc'[k].next == k + 1)
    && desc'[|desc'| - 1].next == spareHead
  }

  function NoChain(where: seq<int>): (r: seq<int>)
    ensures |r| == |where| + DESCS_PER_PAGE
    ensures forall i :: 0 <= i < |r| ==> r[i] == if i < |where| then where[i] else NIL
  {
    where + seq(DESCS_PER_PAGE, _ => NIL)
  }

  function NoPieces(piles: seq<Pile>): (r: seq<Pile>)
    ensures |r| == |piles| + DESCS_PER_PAGE && forall i :: 0 <= i < |piles| ==> r[i] == piles[i]
  {
    piles + seq(DESCS_PER_PAGE, _ => Pile([], {}))
  }

  lemma MoreChains(desc: seq<Desc>, desc': seq<Desc>, heads: seq<int>, chains: seq<seq<int>>, where: seq<int>,
                   spareHead: int)
    requires ChainsOk(desc, heads, chains, where) && Extends(desc, desc', spareHead)
    ensures ChainsOk(desc', heads, chains, NoChain(where))
  {
    hide Lists, NoChain;
    assert forall i :: 0 <= i < |desc| ==> desc'[i] == desc[i];
    forall b | 0 <= b < 9 ensures Lists(chains[b], desc', heads[b], NoChain(where), b) {
      ListsFrame(chains[b], desc, desc', heads[b], where, NoChain(where), b);
    }
  }

  lemma MoreSpare(desc: seq<Desc>, desc': seq<Desc>, where: seq<int>, spare: seq<int>, spareHead: int)
    requires Lists(spare, desc, spareHead, where, NIL) && Extends(desc, desc', spareHead)
    ensures Lists(Row(|desc|, DESCS_PER_PAGE) + spare, desc', |desc|, NoChain(where), NIL)
  {
    assert forall i :: 0 <= i < |desc| ==> desc'[i] == desc[i];
    ChainFrame(spare, desc, desc', spareHead);
    JoinChains(Row(|desc|, DESCS_PER_PAGE), spare, desc', |desc|, spareHead);
    SpareMembers(Row(|desc|, DESCS_PER_PAGE), spare, where, |desc|);
  }

  lemma SpareMembers(row: seq<int>, spare: seq<int>, where: seq<int>, first: nat)
    requires |where| == first && row == Row(first, DESCS_PER_PAGE)
    requires forall i :: i in spare <==> 0 <= i < |where| && where[i] == NIL
    ensures forall i :: i in row + spare <==> 0 <= i < |NoChain(where)| && NoChain(where)[i] == NIL
  {
    forall i | first <= i < first + DESCS_PER_PAGE ensures i in row {
      assert row[i - first] == i;
    }
  }

  /** A row of descriptors, the last of which is linked to a chain. */
  lemma JoinChains(row: seq<int>, order: seq<int>, desc: seq<Desc>, first: nat, head: int)
    requires Chain(order, desc, head) && row != [] && row[0] == first && first + |row| == |desc|
    requires forall i :: 0 <= i < |row| ==> row[i] == first + i
    requires forall i :: i in order ==> i < first
    requires forall k :: first <= k < |desc| - 1 ==> desc[k].next == k + 1
    requires desc[|desc| - 1].next == head
    ensures Chain(row + order, desc, first)
  {
    var all := row + order;
    assert forall i :: 0 <= i < |order| ==> order[i] in order;
    assert forall i :: |row| <= i < |all| ==> all[i] == order[i - |row|];
  }

  lemma MorePiles(desc: seq<Desc>, desc': seq<Desc>, where: seq<int>, piles: seq<Pile>, mem: map<int, int>,
                  live: map<int, int>, spareHead: int)
    requires PilesOk(desc, where, piles, mem) && PagesApart(desc, where) && LiveOk(desc, where, piles, live)
             && NoneIdle(where, piles)
    requires Extends(desc, desc', spareHead)
    ensures PilesOk(desc', NoChain(where), NoPieces(piles), mem) && PagesApart(desc', NoChain(where))
    ensures LiveOk(desc', NoChain(where), NoPieces(piles), live) && NoneIdle(NoChain(where), NoPieces(piles))
  {
    hide PileOk, NoChain, NoPieces;
    var where', piles' := NoChain(where), NoPieces(piles);
    assert forall i :: 0 <= i < |desc| ==> desc'[i] == desc[i];
    forall a | a in live ensures exists i :: 0 <= i < |desc'| && where'[i] != NIL && a in piles'[i].live {
      var i :| 0 <= i < |desc| && where[i] != NIL && a in piles[i].live;
      assert where'[i] != NIL && a in piles'[i].live;
    }
  }

  lemma AtLeastOne(size: int)
    requires 0 < size <= PAGE_SIZE
    ensures PAGE_SIZE / size >= 1
  {
    Words.QuotientAtLeast(PAGE_SIZE, size, 1);
  }

  /** The first j pieces are linked to their successors. */
  ghost predicate Linking(p: seq<int>, mem: map<int, int>, j: int) {
    && (forall k :: 0 <= k < j < |p| ==> p[k] in mem)
    && (forall k, l :: 0 <= k < j < |p| && l == k + 1 ==> mem[p[k]] == p[l])
  }

  lemma LinkNone(p: seq<int>, mem: map<int, int>)
    ensures Linking(p, mem, 0)
  {
  }

  lemma LinkOn(p: seq<int>, mem: map<int, int>, j: nat)
    requires Linking(p, mem, j) && j + 1 < |p| && forall i, k :: 0 <= i < k < |p| ==> p[i] < p[k]
    ensures Linking(p, mem[p[j] := p[j + 1]], j + 1)
  {
    var mem' := mem[p[j] := p[j + 1]];
    forall k | 0 <= k < j + 1 ensures p[k] in mem' && mem'[p[k]] == p[k + 1] {
      var l := k + 1;
      if k < j { assert p[k] in mem && mem[p[k]] == p[l] && p[k] < p[j]; }
    }
  }

  lemma LinkEnd(p: seq<int>, mem: map<int, int>, page: int)
    requires p != [] && Linking(p, mem, |p| - 1) && p[0] == page > 0 && forall i, k :: 0 <= i < k < |p| ==> p[i] < p[k]
    ensures FreeList(p, mem[p[|p| - 1] := NULL], page)
  {
    var last, mem' := |p| - 1, mem[p[|p| - 1] := NULL];
    forall i | 0 <= i < |p| ensures p[i] != NULL && p[i] in mem' && (i < last ==> mem'[p[i]] == p[i + 1]) {
      var l := i + 1;
      if i < last { assert p[i] in mem && mem[p[i]] == p[l] && p[i] < p[last]; }
    }
  }

  lemma FirstPiece(desc: seq<Desc>, where: seq<int>, piles: seq<Pile>, mem: map<int, int>, i: nat)
    requires PilesOk(desc, where, piles, mem) && i < |desc| && 0 <= where[i] < 9 && desc[i].freeptr != NULL
    ensures desc[i].size == SIZES[where[i]] && PageOf(desc[i].freeptr) == desc[i].page
  {
    assert desc[i].freeptr in piles[i].free;
    InItsPage(desc[i], piles[i], where[i], mem, desc[i].freeptr);
  }

  /** The tables of a page just carved. */
  lemma NewPile(d: Desc, b: nat, mem: map<int, int>)
    requires b < 9 && d.size == SIZES[b] && d.page > 0 && d.page % PAGE_SIZE == 0 && d.freeptr == d.page
             && d.refcnt == 0
    requires d.size > 0 && FreeList(Pieces(d.page, d.size, PAGE_SIZE / d.size), mem, d.page)
    ensures PileOk(d, Pile(Pieces(d.page, d.size, PAGE_SIZE / d.size), {}), SIZES[b], mem)
  {
    SizesDivide(b);
    assert PAGE_SIZE / d.size * d.size == PAGE_SIZE;
    PiecesAreSlots(d.page, d.size, PAGE_SIZE / d.size);
  }

  lemma CountIs(d: Desc, u: Pile, w: int, mem: map<int, int>)
    requires 0 <= w < 9 && PileOk(d, u, SIZES[w], mem)
    ensures d.refcnt == |u.live|
  {
  }

  lemma Accurate(desc: seq<Desc>, head: int, order: seq<int>, where: seq<int>, b: int, k: nat)
    requires Lists(order, desc, head, where, b) && k < |order|
    ensures if k == 0 then head == order[0] else 0 <= order[k - 1] < |desc| && desc[order[k - 1]].next == order[k]
  {
  }

  /** An object in use belongs to the one page it lies in. */
  lemma OwnerOf(desc: seq<Desc>, where: seq<int>, piles: seq<Pile>, mem: map<int, int>, live: map<int, int>, obj: int)
    requires PilesOk(desc, where, piles, mem) && PagesApart(desc, where) && LiveOk(desc, where, piles, live)
    requires forall k :: 0 <= k < |where| ==> NIL <= where[k] < 9
    requires obj in live
    ensures exists d :: 0 <= d < |desc| && where[d] != NIL && desc[d].page == PageOf(obj)
    ensures forall d :: 0 <= d < |desc| && where[d] != NIL && desc[d].page == PageOf(obj) ==>
              obj in piles[d].live && SIZES[where[d]] == live[obj]
  {
    var d :| 0 <= d < |desc| && where[d] != NIL && obj in piles[d].live;
    InItsPage(desc[d], piles[d], where[d], mem, obj);
    assert forall e :: 0 <= e < |desc| && where[e] != NIL && desc[e].page == PageOf(obj) ==> e == d;
  }

  lemma Member(s: set<int>)
    requires s != {}
    ensures exists a :: a in s
  {
    assert (forall a :: a !in s) ==> s == {};
  }

  /** A page has objects exactly if some object in use lies in it. */
  lemma InPage(desc: seq<Desc>, where: seq<int>, piles: seq<Pile>, mem: map<int, int>, live: map<int, int>, i: nat)
    requires PilesOk(desc, where, piles, mem) && PagesApart(desc, where) && LiveOk(desc, where, piles, live)
    requires forall k :: 0 <= k < |where| ==> NIL <= where[k] < 9
    requires i < |desc| && where[i] != NIL
    ensures piles[i].live != {} <==> exists a :: a in live && PageOf(a) == desc[i].page
  {
    var s := piles[i].live;
    if s != {} {
      Member(s);
      var a :| a in s;
      InItsPage(desc[i], piles[i], where[i], mem, a);
      assert a in live;
    }
    if a :| a in live && PageOf(a) == desc[i].page {
      OwnerOf(desc, where, piles, mem, live, a);
    }
  }

  /** Between calls the pages in use are those in which an object in use lies. */
  lemma PagesHoldObjects(desc: seq<Desc>, where: seq<int>, piles: seq<Pile>, mem: map<int, int>, live: map<int, int>,
                         page: int)
    requires PilesOk(desc, where, piles, mem) && PagesApart(desc, where) && LiveOk(desc, where, piles, live)
             && NoneIdle(where, piles)
    requires forall k :: 0 <= k < |where| ==> NIL <= where[k] < 9
    ensures (exists i :: 0 <= i < |desc| && where[i] != NIL && desc[i].page == page) <==>
            exists a :: a in live && PageOf(a) == page
  {
    if i :| 0 <= i < |desc| && where[i] != NIL && desc[i].page == page {
      InPage(desc, where, piles, mem, live, i);
    }
    if a :| a in live && PageOf(a) == page {
      OwnerOf(desc, where, piles, mem, live, a);
    }
  }

  ghost function OwnerIndex(desc: seq<Desc>, where: seq<int>, piles: seq<Pile>, live: map<int, int>, o: int): (i: nat)
    requires LiveOk(desc, where, piles, live) && o in live
    ensures i < |desc| == |where| == |piles| && where[i] != NIL && o in piles[i].live && live[o] == desc[i].size
  {
    var i :| 0 <= i < |desc| && where[i] != NIL && o in piles[i].live;
    i
  }

  /** Carving a fresh page writes into no object. */
  lemma FreshPageKeeps(desc: seq<Desc>, where: seq<int>, piles: seq<Pile>, mem: map<int, int>, live: map<int, int>,
                       page: int, size: int, n: nat, mem': map<int, int>)
    requires PilesOk(desc, where, piles, mem) && LiveOk(desc, where, piles, live)
    requires forall k :: 0 <= k < |where| ==> NIL <= where[k] < 9
    requires size > 0 && n * size == PAGE_SIZE && page % PAGE_SIZE == 0
    requires forall k :: 0 <= k < |desc| && where[k] != NIL ==> desc[k].page != page
    requires forall a :: a in mem && a !in Pieces(page, size, n) ==> a in mem' && mem'[a] == mem[a]
    ensures ContentsKept(live, NULL, mem, mem')
  {
    hide Pieces, FreeList, InStep;
    PiecesAreSlots(page, size, n);
    forall o, at | o in live && o <= at < o + live[o] && at in mem ensures at !in Pieces(page, size, n) {
      var i := OwnerIndex(desc, where, piles, live, o);
      InItsPage(desc[i], piles[i], where[i], mem, o);
      PagesDisjoint(desc[i].page, page);
    }
  }

  /** The link word that free_s writes lies in the freed object only. */
  lemma OthersKept(desc: seq<Desc>, where: seq<int>, piles: seq<Pile>, mem: map<int, int>, live: map<int, int>,
                   obj: int, v: int)
    requires PilesOk(desc, where, piles, mem) && PagesApart(desc, where) && LiveOk(desc, where, piles, live)
    requires forall k :: 0 <= k < |where| ==> NIL <= where[k] < 9
    requires obj in live
    ensures ContentsKept(live, obj, mem, mem[obj := v])
  {
    hide PilesOk, PagesApart;
    forall o, at | o in live && o != obj && o <= at < o + live[o] && at in mem ensures at != obj {
      LiveObjectsApart(desc, where, piles, mem, live, o, obj);
      SizePositive(desc, where, piles, mem, live, obj);
    }
  }

  lemma SizePositive(desc: seq<Desc>, where: seq<int>, piles: seq<Pile>, mem: map<int, int>, live: map<int, int>,
                     o: int)
    requires PilesOk(desc, where, piles, mem) && LiveOk(desc, where, piles, live) && o in live
    requires forall k :: 0 <= k < |where| ==> NIL <= where[k] < 9
    ensures live[o] > 0
  {
    var i := OwnerIndex(desc, where, piles, live, o);
    assert PileOk(desc[i], piles[i], SIZES[where[i]], mem);
  }

  lemma OneSize(b: int, c: int)
    requires 0 <= b < 9 && 0 <= c < 9 && SIZES[b] == SIZES[c]
    ensures b == c
  {
  }

  lemma StepsFrom(x: int, y: int, size: int)
    requires size > 0 && x % size == 0 && (y - x) % size == 0 && y >= 0
    ensures y % size == 0
  {
    var q, r := x / size, (y - x) / size;
    assert y == size * q + size * r;
    Words.Distributes(size, q, r);
    Words.AtMost(size, q + r, q + r);
    Words.IsQuotient(y, size, q + r);
  }

  /** In a page without a free piece all places where one could begin are taken. */
  lemma NoneLeft(desc: seq<Desc>, where: seq<int>, piles: seq<Pile>, mem: map<int, int>, live: map<int, int>,
                 o: int, p: int)
    requires PilesOk(desc, where, piles, mem) && LiveOk(desc, where, piles, live) && o in live
    requires forall k :: 0 <= k < |where| ==> NIL <= where[k] < 9
    requires forall i :: 0 <= i < |desc| && where[i] >= 0 && SIZES[where[i]] == live[o] ==> desc[i].freeptr == NULL
    requires live[o] > 0 && o - o % 4096 <= p < o - o % 4096 + 4096 && (p - o) % live[o] == 0
    ensures p in live
  {
    var i := OwnerIndex(desc, where, piles, live, o);
    assert PileOk(desc[i], piles[i], SIZES[where[i]], mem);
    InItsPage(desc[i], piles[i], where[i], mem, o);
    StepsFrom(o - desc[i].page, p - desc[i].page, live[o]);
    assert IsSlot(p, desc[i].page, desc[i].size);
    assert piles[i].free == [];
  }

  class Allocator {
    var desc: seq<Desc>
    var heads: seq<int>
    var spareHead: int
    var mem: map<int, int>

    ghost var chains: seq<seq<int>>
    ghost var spare: seq<int>
    ghost var where: seq<int>
    ghost var piles: seq<Pile>
    /** The objects in use and the sizes of their pieces: what a caller knows. */
    ghost var live: map<int, int>

    ghost predicate Sound()
      reads this
    {
      && |where| == |desc| == |piles| && |heads| == |chains| == 9
      && ChainsOk(desc, heads, chains, where) && Lists(spare, desc, spareHead, where, NIL)
      && PilesOk(desc, where, piles, mem) && PagesApart(desc, where) && LiveOk(desc, where, piles, live)
    }

    ghost predicate Valid()
      reads this
    {
      Sound() && NoneIdle(where, piles)
    }

    /** A page that get_free_page may return: not one that is in use here. */
    ghost predicate Fresh(page: int)
      reads this
      requires |where| == |desc|
    {
      page > 0 && page % PAGE_SIZE == 0 && forall k :: 0 <= k < |desc| && where[k] != NIL ==> desc[k].page != page
    }

    /** No page of a size has a free piece. */
    ghost predicate Full(b: int)
      reads this
      requires |where| == |desc|
    {
      forall i :: 0 <= i < |desc| && where[i] == b ==> desc[i].freeptr == NULL
    }

    constructor ()
      ensures Valid() && live == map[]
    {
      desc, spareHead, mem := [], NIL, map[];
      heads := [NIL, NIL, NIL, NIL, NIL, NIL, NIL, NIL, NIL];
      chains := [[], [], [], [], [], [], [], [], []];
      spare, where, piles, live := [], [], [], map[];
    }

    /** When the pages of a size are full, all their places are taken. */
    lemma FullMeans(b: nat)
      requires Valid() && b < 9 && Full(b)
      ensures forall o, p :: o in live && live[o] == SIZES[b] && (p - o) % SIZES[b] == 0 ==>
                               (o - o % 4096 <= p < o - o % 4096 + 4096 ==> p in live)
    {
      hide PilesOk, LiveOk;
      SizesDivide(b);
      forall i | 0 <= i < |desc| && where[i] >= 0 && SIZES[where[i]] == SIZES[b] ensures desc[i].freeptr == NULL {
        OneSize(where[i], b);
      }
      forall o, p | o in live && live[o] == SIZES[b] && (p - o) % SIZES[b] == 0
                    && o - o % 4096 <= p < o - o % 4096 + 4096 ensures p in live {
        NoneLeft(desc, where, piles, mem, live, o, p);
      }
    }

    /** The bucket directory's first size that is large enough; 9 if there is none. */
    method FindClass(len: nat) returns (b: nat)
      ensures b <= 9 && (b < 9 ==> SIZES[b] >= len) && forall c :: 0 <= c < b ==> SIZES[c] < len
    {
      b := 0;
      while b < 9 && SIZES[b] < len
        invariant b <= 9 && forall c :: 0 <= c < b ==> SIZES[c] < len
      {
        b := b + 1;
      }
    }

    /** The first descriptor of a chain whose page has room. */
    method FindFree(b: nat) returns (i: int)
      requires Sound() && b < 9
      ensures i == NIL <==> Full(b)
      ensures i != NIL ==> 0 <= i < |desc| && where[i] == b && desc[i].freeptr != NULL
    {
      ghost var order, k := chains[b], 0;
      i := heads[b];
      while i != NIL && desc[i].freeptr == NULL
        invariant 0 <= k <= |order| && i == (if k < |order| then order[k] else NIL)
        invariant i != NIL ==> 0 <= i < |desc| && where[i] == b
        invariant forall j :: 0 <= j < k ==> 0 <= order[j] < |desc| && desc[order[j]].freeptr == NULL
        decreases |order| - k
      {
        NextInChain(order, desc, heads[b], where, b, k);
        i := desc[i].next;
        k := k + 1;
      }
    }

    /** init_bucket_desc: a page of descriptors, linked in a row before those that are spare. */
    method InitDescs()
      requires Valid()
      modifies this`desc, this`spareHead, this`spare, this`where, this`piles
      ensures Valid() && spareHead != NIL
      ensures |desc| == old(|desc|) + DESCS_PER_PAGE == old(|desc|) + 4096 / 16 && desc[..old(|desc|)] == old(desc)
              && where[..old(|desc|)] == old(where)
      ensures forall i :: old(|desc|) <= i < |desc| ==> where[i] == NIL
      ensures |where| == |desc| && old(|where|) == old(|desc|) && forall p :: old(Fresh(p)) ==> Fresh(p)
      ensures spareHead == old(|desc|) && spare == Row(old(|desc|), DESCS_PER_PAGE) + old(spare)
    {
      hide ChainsOk, Lists, PilesOk, PagesApart, LiveOk, NoneIdle, NoChain, NoPieces;
      var first := |desc|;
      var bdesc := first;
      ghost var was := desc;
      var i := DESCS_PER_PAGE;
      desc := desc + seq(DESCS_PER_PAGE, _ => Desc(0, 0, 0, 0, 0));
      while i > 1
        invariant 1 <= i && bdesc + i == first + DESCS_PER_PAGE && |desc| == first + DESCS_PER_PAGE
        invariant desc[..first] == was
        invariant forall k :: first <= k < bdesc ==> desc[k].next == k + 1
        modifies this`desc
      {
        desc := desc[bdesc := desc[bdesc].(next := bdesc + 1)];
        bdesc := bdesc + 1;
        i := i - 1;
      }
      desc := desc[bdesc := desc[bdesc].(next := spareHead)];
      MoreChains(was, desc, heads, chains, where, spareHead);
      MoreSpare(was, desc, where, spare, spareHead);
      MorePiles(was, desc, where, piles, mem, live, spareHead);
      spareHead := first;
      spare := Row(first, DESCS_PER_PAGE) + spare;
      where := NoChain(where);
      piles := NoPieces(piles);
    }

    /** The loop in malloc that links the pieces of a new page. */
    method Carve(page: int, size: int)
      requires page > 0 && 0 < size <= PAGE_SIZE && PAGE_SIZE % size == 0
      modifies this`mem
      ensures FreeList(Pieces(page, size, PAGE_SIZE / size), mem, page)
      ensures forall a :: a in old(mem) && a !in Pieces(page, size, PAGE_SIZE / size) ==>
              a in mem && mem[a] == old(mem)[a]
    {
      hide Pieces, FreeList, Linking;
      var cp, i := page, PAGE_SIZE / size;
      ghost var n := i;
      ghost var p, j := Pieces(page, size, n), 0;
      AtLeastOne(size);
      PiecesInRow(page, size, n);
      LinkNone(p, mem);
      while i > 1
        invariant 1 <= i && 0 <= j && i + j == n && cp == p[j]
        invariant Linking(p, mem, j)
        invariant forall a :: a in old(mem) && a !in p ==> a in mem && mem[a] == old(mem)[a]
      {
        LinkOn(p, mem, j);
        mem := mem[cp := cp + size];
        cp := cp + size;
        j := j + 1;
        i := i - 1;
      }
      LinkEnd(p, mem, page);
      mem := mem[cp := NULL];
    }

    /** The part of malloc that puts a new page into use. */
    method NewBucket(b: nat, page: int) returns (i: nat)
      requires Valid() && b < 9 && spareHead != NIL && Fresh(page)
      modifies this
      ensures Sound() && i < |desc| && where[i] == b && desc[i].freeptr == desc[i].page == page && live == old(live)
      ensures forall k :: 0 <= k < |where| && k != i && where[k] != NIL ==> piles[k].live != {}
      ensures ContentsKept(live, NULL, old(mem), mem)
    {
      hide Lists, PileOk, Pieces, IsSlot, FreeList, PilesOk, PagesApart, LiveOk, ContentsKept;
      ghost var m, n := mem, PAGE_SIZE / SIZES[b];
      SizesDivide(b);
      ghost var u := Pile(Pieces(page, SIZES[b], n), {});
      i := FirstSpare();
      var next := desc[i].next;
      var d := Desc(page, heads[b], page, 0, SIZES[b]);
      Carve(page, SIZES[b]);
      NewPile(d, b, mem);
      EnchainKeeps(desc, heads, chains, where, spare, spareHead, b, d);
      NewPileKeeps(desc, where, piles, m, live, i, d, b, u, mem);
      FreshPageKeeps(desc, where, piles, m, live, page, SIZES[b], n, mem);
      desc := desc[i := d];
      heads := heads[b := i];
      chains := chains[b := [spareHead] + chains[b]];
      where, piles := where[i := b], piles[i := u];
      spare, spareHead := spare[1..], next;
    }

    method FirstSpare() returns (i: nat)
      requires Lists(spare, desc, spareHead, where, NIL) && spareHead != NIL
      ensures i == spareHead < |desc| && where[i] == NIL
    {
      assert spare[0] in spare;
      i := spareHead;
    }

    /** Hand out the first free piece of a page. */
    method Take(i: nat) returns (r: int)
      requires Sound() && i < |desc| && where[i] != NIL && desc[i].freeptr != NULL
      requires forall k :: 0 <= k < |where| && k != i && where[k] != NIL ==> piles[k].live != {}
      modifies this
      ensures Valid() && r == old(desc[i].freeptr) && r !in old(live) && PageOf(r) == old(desc[i].page)
      ensures live == old(live)[r := SIZES[old(where[i])]] && mem == old(mem)
    {
      hide Lists, PileOk, PilesOk, PagesApart, LiveOk;
      FirstPiece(desc, where, piles, mem, i);
      TakeKeeps(desc, where, piles, mem, live, i);
      r := desc[i].freeptr;
      ghost var u := Pile(piles[i].free[1..], piles[i].live + {r});
      ghost var d := desc[i].(freeptr := mem[r], refcnt := desc[i].refcnt + 1);
      ChainsFrame(desc, heads, chains, where, spare, spareHead, i, d);
      live := live[r := desc[i].size];
      piles := piles[i := u];
      desc := desc[i := desc[i].(freeptr := mem[r], refcnt := desc[i].refcnt + 1)];
    }

    /**
      malloc.  The two pages are what get_free_page returns if it is called, NULL if it has none.
      The new object is apart from all others and its piece is of the smallest size that is large enough.
     */
    method Alloc(len: nat, descPage: int, page: int) returns (r: int, panic: bool, ghost b: nat)
      requires Valid() && (page == NULL || Fresh(page))
      modifies this
      ensures panic <==>
                || len > PAGE_SIZE
                || (old(Full(b)) && (page == NULL || (old(spareHead) == NIL && descPage == NULL)))
      ensures b <= 9 && (b < 9 ==> SIZES[b] >= len) && forall c :: 0 <= c < b ==> SIZES[c] < len
      ensures !panic ==> b < 9 && Valid() && r !in old(live) && live == old(live)[r := SIZES[b]]
      ensures !panic && r == page ==> old(Full(b))
      ensures len > 4096 ==> panic
      ensures !panic ==> 0 < live[r] && len <= live[r] <= 4096 && 4096 % live[r] == 0
      ensures !panic ==> live[r] == 16 || live[r] < 2 * len
      ensures !panic && r == page ==>
                forall o, p :: o in old(live) && old(live)[o] == live[r] && (p - o) % live[r] == 0 ==>
                                 (o - o % 4096 <= p < o - o % 4096 + 4096 ==> p in old(live))
      ensures !panic ==> ContentsKept(old(live), NULL, old(mem), mem)
    {
      hide ChainsOk, Lists, PilesOk, PagesApart, LiveOk;
      r, panic := NULL, false;
      var c := FindClass(len);
      b := c;
      if c < 9 {
        SizesDivide(c);
        ClassFits(c, len);
      } else {
        assert SIZES[8] < len;
        panic := true;
        return;
      }
      var i := FindFree(c);
      if i == NIL {
        FullMeans(c);
        if spareHead == NIL {
          if descPage == NULL {
            panic := true;
            return;
          }
          InitDescs();
        }
        if page == NULL {
          panic := true;
          return;
        }
        i := NewBucket(c, page);
      }
      r := Take(i);
      assert page % PAGE_SIZE == 0 ==> PageOf(page) == page;
    }

    /** free_s's search of one chain. */
    method FindInChain(b: nat, page: int) returns (i: int, prev: int, ghost k: nat)
      requires Sound() && b < 9
      ensures i == NIL <==> forall d :: 0 <= d < |desc| && where[d] == b ==> desc[d].page != page
      ensures i != NIL ==> && 0 <= i < |desc| && where[i] == b && desc[i].page == page
                           && k < |chains[b]| && chains[b][k] == i && prev == if k == 0 then NIL else chains[b][k - 1]
    {
      ghost var order := chains[b];
      i, prev, k := heads[b], NIL, 0;
      while i != NIL && desc[i].page != page
        invariant k <= |order| && i == (if k < |order| then order[k] else NIL)
        invariant prev == (if k == 0 then NIL else order[k - 1])
        invariant i != NIL ==> 0 <= i < |desc| && where[i] == b
        invariant forall j :: 0 <= j < k ==> 0 <= order[j] < |desc| && desc[order[j]].page != page
        decreases |order| - k
      {
        NextInChain(order, desc, heads[b], where, b, k);
        prev := i;
        i := desc[i].next;
        k := k + 1;
      }
    }

    /** free_s's search of the chains that are not too small. */
    method FindPage(page: int, size: int) returns (b: nat, i: int, prev: int, ghost k: nat)
      requires Sound()
      ensures i == NIL <==> forall d :: 0 <= d < |desc| && 0 <= where[d] < 9 && desc[d].page == page ==>
              SIZES[where[d]] < size
      ensures i != NIL ==> && b < 9 && 0 <= i < |desc| && where[i] == b && desc[i].page == page && SIZES[b] >= size
                           && k < |chains[b]| && chains[b][k] == i && prev == if k == 0 then NIL else chains[b][k - 1]
    {
      b, i, prev, k := 0, NIL, NIL, 0;
      while b < 9
        invariant b <= 9 && i == NIL
        invariant forall d :: 0 <= d < |desc| && 0 <= where[d] < b && desc[d].page == page ==> SIZES[where[d]] < size
      {
        prev := NIL;
        if SIZES[b] >= size {
          i, prev, k := FindInChain(b, page);
          if i != NIL { return; }
        }
        b := b + 1;
      }
    }

    /** Put an object back before the free pieces of its page. */
    method Give(i: nat, obj: int)
      requires Sound() && i < |desc| && where[i] != NIL && obj in piles[i].live
      modifies this`mem, this`desc, this`piles, this`live
      ensures Sound() && live == old(live) - {obj}
      ensures |desc| == old(|desc|) && desc[i].refcnt == |piles[i].live| && desc[i].page == old(desc[i].page)
      ensures forall k :: 0 <= k < |desc| && k != i ==> piles[k] == old(piles[k])
      ensures piles[i].live == old(piles[i].live) - {obj}
      ensures mem == old(mem)[obj := old(desc[i].freeptr)]
    {
      hide Lists, PileOk, LiveOk, PagesApart;
      GiveKeeps(desc, where, piles, mem, live, i, obj);
      ghost var d := desc[i].(freeptr := obj, refcnt := desc[i].refcnt - 1);
      ChainsFrame(desc, heads, chains, where, spare, spareHead, i, d);
      mem := mem[obj := desc[i].freeptr];
      desc := desc[i := desc[i].(freeptr := obj)];
      desc := desc[i := desc[i].(refcnt := desc[i].refcnt - 1)];
      assert desc == old(desc)[i := d];
      piles := piles[i := Pile([obj] + piles[i].free, piles[i].live - {obj})];
      live := live - {obj};
      CountIs(desc[i], piles[i], where[i], mem);
    }

    /** Take a page's descriptor out of its chain; prev still precedes it, so free_s does not look for it again. */
    method Retire(b: nat, i: nat, prev: int, ghost k: nat)
      requires Sound() && b < 9 && i < |desc| && where[i] == b && piles[i].live == {}
      requires k < |chains[b]| && chains[b][k] == i && prev == if k == 0 then NIL else chains[b][k - 1]
      requires forall j :: 0 <= j < |where| && j != i && where[j] != NIL ==> piles[j].live != {}
      modifies this
      ensures Valid() && live == old(live) && mem == old(mem)
    {
      hide Lists, PilesOk, PileOk, LiveOk, PagesApart;
      UnchainKeeps(desc, heads, chains, where, spare, spareHead, b, k);
      Accurate(desc, heads[b], chains[b], where, b, k);
      assert if prev != NIL then desc[prev].next == i else heads[b] == i;
      ghost var was, order := desc, chains[b];
      if prev != NIL {
        desc := desc[prev := desc[prev].(next := desc[i].next)];
      } else {
        heads := heads[b := desc[i].next];
      }
      desc := desc[i := desc[i].(next := spareHead)];
      assert desc == Unchained(was, order, k, spareHead);
      RetiredKeeps(was, where, piles, mem, live, i, desc);
      spareHead := i;
      spare := [i] + spare;
      chains := chains[b := order[..k] + order[k + 1..]];
      where := where[i := NIL];
    }

    /** The objects in a page that is in use are those the caller knows of; others must not be freed. */
    ghost predicate MayFree(obj: int)
      reads this
      requires |where| == |desc|
    {
      obj in live || forall i :: 0 <= i < |desc| && where[i] != NIL ==> desc[i].page != PageOf(obj)
    }

    /** free_s.  The page is given back exactly when no other object of it is in use. */
    method FreeS(obj: int, size: int) returns (panic: bool, freed: int)
      requires Valid() && MayFree(obj)
      modifies this
      ensures panic <==> obj !in old(live) || old(live)[obj] < size
      ensures !panic ==> Valid() && live == old(live) - {obj} && ContentsKept(old(live), obj, old(mem), mem)
      ensures !panic ==>
                freed == if exists a :: a in live && a - a % 4096 == obj - obj % 4096 then 0 else obj - obj % 4096
    {
      hide Lists, PilesOk, PagesApart, LiveOk;
      freed := NULL;
      var page := PageOf(obj);
      if obj in live { OwnerOf(desc, where, piles, mem, live, obj); }
      var b, i, prev, k := FindPage(page, size);
      panic := i == NIL;
      if panic { return; }
      OthersKept(desc, where, piles, mem, live, obj, desc[i].freeptr);
      Give(i, obj);
      InPage(desc, where, piles, mem, live, i);
      if desc[i].refcnt == 0 {
        Retire(b, i, prev, k);
        freed := page;
      }
    }

    /** The owner of an object writes into it. */
    method ClientStore(o: int, at: int, v: int)
      requires Valid() && o in live && o <= at < o + live[o]
      modifies this`mem
      ensures Valid() && mem == old(mem)[at := v]
    {
      hide Lists, LiveOk;
      ghost var i := OwnerIndex(desc, where, piles, live, o);
      ClientStoreKeeps(desc, where, piles, mem, i, o, at, v);
      mem := mem[at := v];
    }

    /**
      In every state that calls can lead to, objects in use are apart, and a page is held exactly
      if one lies in it.
     */
    lemma Apart(a: int, c: int, page: int)
      requires Valid() && a in live && c in live && a != c
      ensures a + live[a] <= c || c + live[c] <= a
      ensures (exists i :: 0 <= i < |desc| && where[i] != NIL && desc[i].page == page) <==>
              exists o :: o in live && PageOf(o) == page
    {
      hide Lists, PilesOk, PagesApart, LiveOk;
      LiveObjectsApart(desc, where, piles, mem, live, a, c);
      PagesHoldObjects(desc, where, piles, mem, live, page);
    }
  }
}
