/**
  The bucket allocator of lib/malloc.c.  Each page handed out in pieces has a descriptor;
  the descriptors of one size are chained, and the free pieces of a page are linked
  through their own first words.
 */
module Buckets {
  import Words

  const PAGE_SIZE := 4096
  const NIL := -1
  const NULL := 0

  /** struct bucket_desc; descriptors are numbered instead of addressed. */
  datatype Desc = Desc(page: int, next: int, freeptr: int, refcnt: int, size: int)

  /** bucket_dir, without its end marker. */
  const SIZES: seq<int> := [16, 32, 64, 128, 256, 512, 1024, 2048, 4096]

  lemma SizesDivide(b: nat)
    requires b < 9
    ensures 0 < SIZES[b] <= PAGE_SIZE && PAGE_SIZE % SIZES[b] == 0
    ensures forall c :: 0 <= c < b ==> SIZES[c] < SIZES[b]
  {
  }

  /** The first size that is large enough is the smallest, or less than twice what is asked for. */
  lemma ClassFits(b: nat, len: nat)
    requires b < 9 && SIZES[b] >= len && forall c :: 0 <= c < b ==> SIZES[c] < len
    ensures len <= SIZES[b] <= 4096 && 4096 % SIZES[b] == 0 && (SIZES[b] == 16 || SIZES[b] < 2 * len)
  {
    assert b > 0 ==> SIZES[b - 1] < len;
  }

  // ----- The pieces of a page

  /** a is where a piece begins. */
  predicate IsSlot(a: int, page: int, size: int)
    requires size > 0
  {
    page <= a < page + PAGE_SIZE && InStep(a, page, size)
  }

  function PageOf(a: int): int { a - a % PAGE_SIZE }

  lemma SlotIsInPage(a: int, page: int, size: int)
    requires 0 < size <= PAGE_SIZE && PAGE_SIZE % size == 0 && page % PAGE_SIZE == 0 && IsSlot(a, page, size)
    ensures PageOf(a) == page && a + size <= page + PAGE_SIZE
  {
    StepsApart(a - page, PAGE_SIZE, size);
  }

  /** Multiples of size are size apart. */
  lemma StepsApart(x: int, y: int, size: int)
    requires size > 0 && x % size == 0 && y % size == 0 && x < y
    ensures x + size <= y
  {
    var q, r := x / size, y / size;
    assert x == size * q && y == size * r;
    assert q >= r ==> size * q >= size * r;
    assert size * (q + 1) <= size * r;
  }

  lemma SlotsApart(a: int, c: int, page: int, size: int)
    requires size > 0 && IsSlot(a, page, size) && IsSlot(c, page, size) && a < c
    ensures a + size <= c
  {
    StepsApart(a - page, c - page, size);
  }

  // ----- Linked lists

  /** From head the next fields run through order and end. */
  ghost predicate Chain(order: seq<int>, desc: seq<Desc>, head: int) {
    && (forall i :: 0 <= i < |order| ==> 0 <= order[i] < |desc|)
    && (forall i, k :: 0 <= i < k < |order| ==> order[i] != order[k])
    && head == (if order == [] then NIL else order[0])
    && (forall i, k :: 0 <= i < |order| && k == i + 1 < |order| ==> desc[order[i]].next == order[k])
    && (order != [] ==> desc[order[|order| - 1]].next == NIL)
  }

  /** From head the words of memory run through free and end. */
  ghost predicate FreeList(free: seq<int>, mem: map<int, int>, head: int) {
    && (forall i :: 0 <= i < |free| ==> free[i] != NULL && free[i] in mem)
    && (forall i, k :: 0 <= i < k < |free| ==> free[i] != free[k])
    && head == (if free == [] then NULL else free[0])
    && (forall i, k :: 0 <= i < |free| && k == i + 1 < |free| ==> mem[free[i]] == free[k])
    && (free != [] ==> mem[free[|free| - 1]] == NULL)
  }

  lemma ChainFrame(order: seq<int>, desc: seq<Desc>, desc': seq<Desc>, head: int)
    requires Chain(order, desc, head) && |desc'| >= |desc|
    requires forall i :: i in order ==> 0 <= i < |desc| && desc'[i].next == desc[i].next
    ensures Chain(order, desc', head)
  {
  }

  lemma ChainPush(order: seq<int>, desc: seq<Desc>, head: int, d: int)
    requires Chain(order, desc, head) && 0 <= d < |desc| && d !in order && desc[d].next == head
    ensures Chain([d] + order, desc, d)
  {
  }

  lemma ChainPop(order: seq<int>, desc: seq<Desc>, head: int)
    requires Chain(order, desc, head) && head != NIL
    ensures order != [] && order[0] == head && Chain(order[1..], desc, desc[head].next)
    ensures head !in order[1..] && order == [head] + order[1..]
  {
    assert |order| > 1 ==> desc[order[0]].next == order[1];
  }

  /** Take the k-th descriptor out by changing its predecessor's link. */
  lemma ChainCut(order: seq<int>, desc: seq<Desc>, head: int, k: nat)
    requires Chain(order, desc, head) && 0 < k < |order|
    ensures var p := order[k - 1];
            Chain(order[..k] + order[k + 1..], desc[p := desc[p].(next := desc[order[k]].next)], head)
  {
    var p, cut := order[k - 1], order[..k] + order[k + 1..];
    var desc' := desc[p := desc[p].(next := desc[order[k]].next)];
    assert k + 1 < |order| ==> desc[order[k]].next == order[k + 1];
    forall i, j | 0 <= i < |cut| && j == i + 1 < |cut| ensures desc'[cut[i]].next == cut[j] {
      if i >= k { assert desc[order[i + 1]].next == order[j + 1]; }
    }
  }

  lemma FreeListFrame(free: seq<int>, mem: map<int, int>, mem': map<int, int>, head: int)
    requires FreeList(free, mem, head)
    requires forall a :: a in free && a in mem ==> a in mem' && mem'[a] == mem[a]
    ensures FreeList(free, mem', head)
  {
  }

  lemma FreeListPop(free: seq<int>, mem: map<int, int>, head: int)
    requires FreeList(free, mem, head) && head != NULL
    ensures free != [] && free[0] == head && head in mem && FreeList(free[1..], mem, mem[head])
    ensures head !in free[1..] && free == [head] + free[1..]
  {
    assert |free| > 1 ==> mem[free[0]] == free[1];
  }

  lemma FreeListPush(free: seq<int>, mem: map<int, int>, head: int, a: int)
    requires FreeList(free, mem, head) && a !in free && a != NULL
    ensures FreeList([a] + free, mem[a := head], a)
  {
  }

  // ----- A new page in pieces

  /** The n pieces from cp on. */
  function Pieces(cp: int, size: int, n: nat): (p: seq<int>)
    ensures |p| == n
    decreases n
  {
    if n == 0 then [] else [cp] + Pieces(cp + size, size, n - 1)
  }

  lemma {:induction false} PiecesInRow(cp: int, size: int, n: nat)
    requires size > 0
    ensures var p := Pieces(cp, size, n);
            && (n > 0 ==> p[0] == cp)
            && (forall i, k :: 0 <= i < n && k == i + 1 < n ==> p[k] == p[i] + size)
            && (forall i, k :: 0 <= i < k < n ==> p[i] < p[k])
    decreases n
  {
    if n > 0 {
      var p, rest := Pieces(cp, size, n), Pieces(cp + size, size, n - 1);
      PiecesInRow(cp + size, size, n - 1);
      assert forall i :: 0 < i < n ==> p[i] == rest[i - 1];
    }
  }

  /** a is a whole number of pieces away from cp. */
  predicate InStep(a: int, cp: int, size: int)
    requires size > 0
  {
    (a - cp) % size == 0
  }

  /** Going on from the next piece covers the rest. */
  lemma NextPiece(a: int, cp: int, size: int)
    requires size > 0 && cp <= a
    ensures InStep(a, cp, size) <==> a == cp || (a >= cp + size && InStep(a, cp + size, size))
  {
    var x := a - cp;
    if x >= size {
      Words.Distributes(size, (x - size) / size, 1);
      Words.IsQuotient(x, size, (x - size) / size + 1);
    } else {
      Words.IsQuotient(x, size, 0);
    }
  }

  lemma {:induction false} PiecesAre(cp: int, size: int, n: nat, a: int, end: int)
    requires size > 0 && end == cp + n * size
    ensures a in Pieces(cp, size, n) <==> cp <= a < end && InStep(a, cp, size)
    decreases n
  {
    hide InStep;
    if n > 0 {
      OneLess(n, size);
      PiecesAre(cp + size, size, n - 1, a, end);
      if a >= cp { NextPiece(a, cp, size); }
    }
  }

  lemma OneLess(n: nat, size: int)
    requires n > 0 && size > 0
    ensures n * size == size + (n - 1) * size && (n - 1) * size >= 0
  {
  }

  /** The pieces of a page are its slots. */
  lemma PiecesAreSlots(page: int, size: int, n: nat)
    requires size > 0 && n * size == PAGE_SIZE
    ensures forall a :: IsSlot(a, page, size) <==> a in Pieces(page, size, n)
  {
    forall a ensures IsSlot(a, page, size) <==> a in Pieces(page, size, n) {
      PiecesAre(page, size, n, a, page + PAGE_SIZE);
    }
  }

  // ----- The allocator's tables

  /** What is true of the pieces of a page: which are free, in list order, and which are in use. */
  datatype Pile = Pile(free: seq<int>, live: set<int>)

  ghost predicate PileOk(d: Desc, u: Pile, size: int, mem: map<int, int>) {
    && d.size == size > 0 && d.page % PAGE_SIZE == 0 && d.page > 0
    && FreeList(u.free, mem, d.freeptr)
    && (forall a :: IsSlot(a, d.page, size) <==> a in u.free || a in u.live)
    && (forall a :: a in u.free ==> a !in u.live)
    && d.refcnt == |u.live|
  }

  /** A chain lists the descriptors that where puts into it; NIL stands for the spare ones. */
  ghost predicate Lists(order: seq<int>, desc: seq<Desc>, head: int, where: seq<int>, b: int) {
    && |where| == |desc| && Chain(order, desc, head)
    && (forall i :: i in order <==> 0 <= i < |where| && where[i] == b)
  }

  ghost predicate ChainsOk(desc: seq<Desc>, heads: seq<int>, chains: seq<seq<int>>, where: seq<int>) {
    && |heads| == |chains| == 9 && |where| == |desc|
    && (forall i :: 0 <= i < |where| ==> NIL <= where[i] < 9)
    && (forall b :: 0 <= b < 9 ==> Lists(chains[b], desc, heads[b], where, b))
  }

  ghost predicate PilesOk(desc: seq<Desc>, where: seq<int>, piles: seq<Pile>, mem: map<int, int>) {
    && |where| == |desc| == |piles|
    && (forall i :: 0 <= i < |desc| && 0 <= where[i] < 9 ==> PileOk(desc[i], piles[i], SIZES[where[i]], mem))
  }

  ghost predicate PagesApart(desc: seq<Desc>, where: seq<int>) {
    && |where| == |desc|
    && (forall i, k :: 0 <= i < k < |desc| && where[i] != NIL && where[k] != NIL ==> desc[i].page != desc[k].page)
  }

  /** The objects in use, with the size of their pieces. */
  ghost predicate LiveOk(desc: seq<Desc>, where: seq<int>, piles: seq<Pile>, live: map<int, int>) {
    && |where| == |desc| == |piles|
    && (forall i, a :: 0 <= i < |desc| && where[i] != NIL && a in piles[i].live ==>
       a in live && live[a] == desc[i].size)
    && (forall a :: a in live ==> exists i :: 0 <= i < |desc| && where[i] != NIL && a in piles[i].live)
  }

  /** No page is kept for nothing. */
  ghost predicate NoneIdle(where: seq<int>, piles: seq<Pile>) {
    && |where| == |piles|
    && (forall i :: 0 <= i < |where| && where[i] != NIL ==> piles[i].live != {})
  }

  // ----- Objects of different pages and of one page keep apart

  lemma InItsPage(d: Desc, u: Pile, w: nat, mem: map<int, int>, a: int)
    requires w < 9 && PileOk(d, u, SIZES[w], mem) && (a in u.free || a in u.live)
    ensures PageOf(a) == d.page <= a && a + d.size <= d.page + PAGE_SIZE
  {
    SizesDivide(w);
    assert IsSlot(a, d.page, d.size);
    SlotIsInPage(a, d.page, d.size);
  }

  lemma PagesDisjoint(p: int, q: int)
    requires p % PAGE_SIZE == 0 && q % PAGE_SIZE == 0 && p != q
    ensures p + PAGE_SIZE <= q || q + PAGE_SIZE <= p
  {
  }

  lemma OtherPage(desc: seq<Desc>, where: seq<int>, piles: seq<Pile>, mem: map<int, int>, i: nat, k: nat, a: int,
                  c: int)
    requires PilesOk(desc, where, piles, mem) && PagesApart(desc, where) && i < |desc| && k < |desc| && i != k
    requires 0 <= where[i] < 9 && 0 <= where[k] < 9
    requires a in piles[i].free || a in piles[i].live
    requires c in piles[k].free || c in piles[k].live
    ensures PageOf(a) == desc[i].page && PageOf(c) == desc[k].page && PageOf(a) != PageOf(c)
    ensures a + desc[i].size <= c || c + desc[k].size <= a
  {
    hide PageOf, FreeList;
    InItsPage(desc[i], piles[i], where[i], mem, a);
    InItsPage(desc[k], piles[k], where[k], mem, c);
    PagesDisjoint(desc[i].page, desc[k].page);
  }

  lemma SamePage(d: Desc, u: Pile, mem: map<int, int>, a: int, c: int)
    requires PileOk(d, u, d.size, mem) && a != c
    requires a in u.free || a in u.live
    requires c in u.free || c in u.live
    ensures a + d.size <= c || c + d.size <= a
  {
    assert IsSlot(a, d.page, d.size) && IsSlot(c, d.page, d.size);
    if a < c { SlotsApart(a, c, d.page, d.size); } else { SlotsApart(c, a, d.page, d.size); }
  }

  /** All but descriptor i are as they were, and i is right. */
  lemma PilesFrame(desc: seq<Desc>, where: seq<int>, piles: seq<Pile>, mem: map<int, int>, i: nat,
                   d: Desc, w: int, u: Pile, mem': map<int, int>)
    requires PilesOk(desc, where, piles, mem) && i < |desc|
    requires 0 <= w < 9 ==> PileOk(d, u, SIZES[w], mem')
    requires forall k, a :: 0 <= k < |desc| && k != i && 0 <= where[k] < 9 && a in piles[k].free && a in mem ==>
               a in mem' && mem'[a] == mem[a]
    ensures PilesOk(desc[i := d], where[i := w], piles[i := u], mem')
  {
    forall k | 0 <= k < |desc| && k != i && 0 <= where[k] < 9 ensures PileOk(desc[k], piles[k], SIZES[where[k]], mem') {
      FreeListFrame(piles[k].free, mem, mem', desc[k].freeptr);
    }
  }

  /** Descriptors outside a chain may be changed and moved. */
  lemma ListsFrame(order: seq<int>, desc: seq<Desc>, desc': seq<Desc>, head: int, where: seq<int>, where': seq<int>,
                   b: int)
    requires Lists(order, desc, head, where, b) && |desc'| == |where'| >= |desc|
    requires forall i :: 0 <= i < |where| && where[i] == b ==> where'[i] == b && desc'[i].next == desc[i].next
    requires forall i :: 0 <= i < |where'| && where'[i] == b ==> i < |where| && where[i] == b
    ensures Lists(order, desc', head, where', b)
  {
    ChainFrame(order, desc, desc', head);
  }

  lemma ListsPush(order: seq<int>, desc: seq<Desc>, desc': seq<Desc>, head: int, where: seq<int>, b: int, d: nat)
    requires Lists(order, desc, head, where, b) && |desc'| == |desc| && d < |desc| && where[d] != b
    requires desc'[d].next == head && forall i :: 0 <= i < |desc| && i != d ==> desc'[i].next == desc[i].next
    ensures Lists([d] + order, desc', d, where[d := b], b)
  {
    ChainFrame(order, desc, desc', head);
    ChainPush(order, desc', head, d);
  }

  lemma ChainsFrame(desc: seq<Desc>, heads: seq<int>, chains: seq<seq<int>>, where: seq<int>, spare: seq<int>,
                    spareHead: int, i: nat, d: Desc)
    requires ChainsOk(desc, heads, chains, where) && Lists(spare, desc, spareHead, where, NIL) && i < |desc|
             && d.next == desc[i].next
    ensures ChainsOk(desc[i := d], heads, chains, where) && Lists(spare, desc[i := d], spareHead, where, NIL)
  {
    hide Lists;
    forall b | 0 <= b < 9 ensures Lists(chains[b], desc[i := d], heads[b], where, b) {
      ListsFrame(chains[b], desc, desc[i := d], heads[b], where, where, b);
    }
    ListsFrame(spare, desc, desc[i := d], spareHead, where, where, NIL);
  }

  // ----- Taking a piece and giving it back

  lemma TakeKeeps(desc: seq<Desc>, where: seq<int>, piles: seq<Pile>, mem: map<int, int>, live: map<int, int>, i: nat)
    requires PilesOk(desc, where, piles, mem) && PagesApart(desc, where) && LiveOk(desc, where, piles, live)
    requires forall k :: 0 <= k < |where| ==> NIL <= where[k] < 9
    requires i < |desc| && where[i] != NIL && desc[i].freeptr != NULL
    ensures var r := desc[i].freeptr;
            && r in mem && r !in live && |piles| == |desc| && piles[i].free != []
            && var d, u := desc[i].(freeptr := mem[r], refcnt := desc[i].refcnt + 1),
               Pile(piles[i].free[1..], piles[i].live + {r});
              && PilesOk(desc[i := d], where, piles[i := u], mem)
              && PagesApart(desc[i := d], where)
              && LiveOk(desc[i := d], where, piles[i := u], live[r := desc[i].size])
  {
    var r := desc[i].freeptr;
    FreeListPop(piles[i].free, mem, r);
    var d, u := desc[i].(freeptr := mem[r], refcnt := desc[i].refcnt + 1),
      Pile(piles[i].free[1..], piles[i].live + {r});
    TakenPile(desc[i], piles[i], mem);
    if r in live {
      var k :| 0 <= k < |desc| && where[k] != NIL && r in piles[k].live;
      if k != i { OtherPage(desc, where, piles, mem, i, k, r, r); }
      assert false;
    }
    PilesFrame(desc, where, piles, mem, i, d, where[i], u, mem);
    assert where[i := where[i]] == where;
    TakenLive(desc, where, piles, live, i, r, d, u);
  }

  lemma TakenPile(d: Desc, u: Pile, mem: map<int, int>)
    requires PileOk(d, u, d.size, mem) && d.freeptr != NULL
    ensures d.freeptr in mem && u.free != [] && u.free[0] == d.freeptr && d.freeptr !in u.live
    ensures PileOk(d.(freeptr := mem[d.freeptr], refcnt := d.refcnt + 1), Pile(u.free[1..], u.live + {d.freeptr}),
            d.size, mem)
  {
    FreeListPop(u.free, mem, d.freeptr);
  }

  lemma TakenLive(desc: seq<Desc>, where: seq<int>, piles: seq<Pile>, live: map<int, int>, i: nat, r: int, d: Desc,
                  u: Pile)
    requires LiveOk(desc, where, piles, live) && i < |desc| && where[i] != NIL && r !in live
    requires d.size == desc[i].size && u.live == piles[i].live + {r}
    ensures LiveOk(desc[i := d], where, piles[i := u], live[r := d.size])
  {
    var piles', live' := piles[i := u], live[r := d.size];
    assert r in piles'[i].live;
    forall a | a in live' ensures exists k :: 0 <= k < |desc| && where[k] != NIL && a in piles'[k].live {
      if a != r {
        var k :| 0 <= k < |desc| && where[k] != NIL && a in piles[k].live;
        assert a in piles'[k].live;
      }
    }
  }

  lemma GivenPile(d: Desc, u: Pile, mem: map<int, int>, a: int)
    requires PileOk(d, u, d.size, mem) && a in u.live
    ensures a != NULL
    ensures PileOk(d.(freeptr := a, refcnt := d.refcnt - 1), Pile([a] + u.free, u.live - {a}), d.size,
            mem[a := d.freeptr])
  {
    assert IsSlot(a, d.page, d.size);
    FreeListPush(u.free, mem, d.freeptr, a);
  }

  lemma GiveKeeps(desc: seq<Desc>, where: seq<int>, piles: seq<Pile>, mem: map<int, int>, live: map<int, int>, i: nat,
                  a: int)
    requires PilesOk(desc, where, piles, mem) && PagesApart(desc, where) && LiveOk(desc, where, piles, live)
    requires forall k :: 0 <= k < |where| ==> NIL <= where[k] < 9
    requires i < |desc| && where[i] != NIL && a in piles[i].live
    ensures var d, u, mem' := desc[i].(freeptr := a, refcnt := desc[i].refcnt - 1),
            Pile([a] + piles[i].free, piles[i].live - {a}), mem[a := desc[i].freeptr];
            && PilesOk(desc[i := d], where, piles[i := u], mem')
            && PagesApart(desc[i := d], where)
            && LiveOk(desc[i := d], where, piles[i := u], live - {a})
  {
    var d, u, mem' := desc[i].(freeptr := a, refcnt := desc[i].refcnt - 1),
      Pile([a] + piles[i].free, piles[i].live - {a}), mem[a := desc[i].freeptr];
    GivenPile(desc[i], piles[i], mem, a);
    forall k: int, c | 0 <= k < |desc| && k != i && 0 <= where[k] < 9 && (c in piles[k].free || c in piles[k].live)
      ensures c != a {
      OtherPage(desc, where, piles, mem, i, k, a, c);
    }
    PilesFrame(desc, where, piles, mem, i, d, where[i], u, mem');
    assert where[i := where[i]] == where;
    GivenLive(desc, where, piles, live, i, a, d, u);
  }

  lemma GivenLive(desc: seq<Desc>, where: seq<int>, piles: seq<Pile>, live: map<int, int>, i: nat, a: int, d: Desc,
                  u: Pile)
    requires LiveOk(desc, where, piles, live) && i < |desc| && where[i] != NIL
    requires forall k :: 0 <= k < |desc| && k != i && where[k] != NIL ==> a !in piles[k].live
    requires d.size == desc[i].size && u.live == piles[i].live - {a}
    ensures LiveOk(desc[i := d], where, piles[i := u], live - {a})
  {
    var piles' := piles[i := u];
    forall c | c in live && c != a ensures exists k :: 0 <= k < |desc| && where[k] != NIL && c in piles'[k].live {
      var k :| 0 <= k < |desc| && where[k] != NIL && c in piles[k].live;
      assert c in piles'[k].live;
    }
  }

  // ----- Putting a page into use and giving it back

  lemma ListsPop(order: seq<int>, desc: seq<Desc>, desc': seq<Desc>, head: int, where: seq<int>, b: int, w: int)
    requires Lists(order, desc, head, where, b) && head != NIL && w != b && |desc'| == |desc|
    requires forall i :: 0 <= i < |desc| && i != head ==> desc'[i].next == desc[i].next
    ensures 0 <= head < |desc| && where[head] == b && order != []
    ensures Lists(order[1..], desc', desc[head].next, where[head := w], b)
  {
    ChainPop(order, desc, head);
    assert order[0] in order;
    ChainFrame(order[1..], desc, desc', desc[head].next);
  }

  /** The descriptor at the head of the spare list, filled in, goes to the front of chain b. */
  lemma EnchainKeeps(desc: seq<Desc>, heads: seq<int>, chains: seq<seq<int>>, where: seq<int>, spare: seq<int>,
                     spareHead: int, b: nat, d: Desc)
    requires ChainsOk(desc, heads, chains, where) && Lists(spare, desc, spareHead, where, NIL) && spareHead != NIL
    requires b < 9 && d.next == heads[b]
    ensures 0 <= spareHead < |desc| && where[spareHead] == NIL && spare != []
    ensures ChainsOk(desc[spareHead := d], heads[b := spareHead], chains[b := [spareHead] + chains[b]],
            where[spareHead := b])
    ensures Lists(spare[1..], desc[spareHead := d], desc[spareHead].next, where[spareHead := b], NIL)
  {
    hide Lists;
    ListsPop(spare, desc, desc, spareHead, where, NIL, b);
    var desc', where' := desc[spareHead := d], where[spareHead := b];
    ListsPop(spare, desc, desc', spareHead, where, NIL, b);
    forall c | 0 <= c < 9 && c != b ensures Lists(chains[c], desc', heads[c], where', c) {
      ListsFrame(chains[c], desc, desc', heads[c], where, where', c);
    }
    ListsPush(chains[b], desc, desc', heads[b], where, b, spareHead);
  }

  /** Carving a fresh page disturbs no other page's free list. */
  lemma NewPileKeeps(desc: seq<Desc>, where: seq<int>, piles: seq<Pile>, mem: map<int, int>, live: map<int, int>,
                     i: nat, d: Desc, b: nat, u: Pile, mem': map<int, int>)
    requires PilesOk(desc, where, piles, mem) && PagesApart(desc, where) && LiveOk(desc, where, piles, live)
    requires forall k :: 0 <= k < |where| ==> NIL <= where[k] < 9
    requires i < |desc| && where[i] == NIL && b < 9 && PileOk(d, u, SIZES[b], mem') && u.live == {}
    requires forall k :: 0 <= k < |desc| && where[k] != NIL ==> desc[k].page != d.page
    requires forall a :: a in mem && a !in u.free ==> a in mem' && mem'[a] == mem[a]
    ensures PilesOk(desc[i := d], where[i := b], piles[i := u], mem')
    ensures PagesApart(desc[i := d], where[i := b])
    ensures LiveOk(desc[i := d], where[i := b], piles[i := u], live)
  {
    forall k: int, a | 0 <= k < |desc| && k != i && 0 <= where[k] < 9 && a in piles[k].free ensures a !in u.free {
      if a in u.free {
        InItsPage(d, u, b, mem', a);
        InItsPage(desc[k], piles[k], where[k], mem, a);
      }
    }
    PilesFrame(desc, where, piles, mem, i, d, b, u, mem');
    NewLive(desc, where, piles, live, i, d, b, u);
  }

  lemma NewLive(desc: seq<Desc>, where: seq<int>, piles: seq<Pile>, live: map<int, int>, i: nat, d: Desc, b: nat,
                u: Pile)
    requires LiveOk(desc, where, piles, live) && i < |desc| && where[i] == NIL && u.live == {}
    ensures LiveOk(desc[i := d], where[i := b], piles[i := u], live)
  {
    var where', piles' := where[i := b], piles[i := u];
    forall a | a in live ensures exists k :: 0 <= k < |desc| && where'[k] != NIL && a in piles'[k].live {
      var k :| 0 <= k < |desc| && where[k] != NIL && a in piles[k].live;
      assert where'[k] != NIL && a in piles'[k].live;
    }
  }

  /**
    The descriptors after the k-th of a chain was taken out, by its predecessor if it has one, and
    put before the spare ones.
   */
  function Unchained(desc: seq<Desc>, order: seq<int>, k: nat, spareHead: int): (r: seq<Desc>)
    requires k < |order| && forall j :: 0 <= j < |order| ==> 0 <= order[j] < |desc|
    ensures |r| == |desc|
  {
    var i := order[k];
    var desc1 := if k == 0 then desc else desc[order[k - 1] := desc[order[k - 1]].(next := desc[i].next)];
    desc1[i := desc1[i].(next := spareHead)]
  }

  lemma ListsCut(order: seq<int>, desc: seq<Desc>, head: int, where: seq<int>, b: int, k: nat, spareHead: int)
    requires Lists(order, desc, head, where, b) && k < |order| && b != NIL
    ensures 0 <= order[k] < |desc| && where[order[k]] == b
    ensures forall j :: 0 <= j < |order| ==> 0 <= order[j] < |desc| && where[order[j]] == b
    ensures Lists(order[..k] + order[k + 1..], Unchained(desc, order, k, spareHead),
                  if k == 0 then desc[order[k]].next else head,
                  where[order[k] := NIL], b)
  {
    hide Chain, Unchained;
    assert forall j :: 0 <= j < |order| ==> order[j] in order;
    CutChain(order, desc, head, k, spareHead);
  }

  lemma ChainMembers(order: seq<int>, desc: seq<Desc>, head: int)
    requires Chain(order, desc, head)
    ensures forall j :: 0 <= j < |order| ==> 0 <= order[j] < |desc|
    ensures forall i, j :: 0 <= i < j < |order| ==> order[i] != order[j]
  {
  }

  lemma CutChain(order: seq<int>, desc: seq<Desc>, head: int, k: nat, spareHead: int)
    requires Chain(order, desc, head) && k < |order|
    ensures forall j :: 0 <= j < |order| ==> 0 <= order[j] < |desc|
    ensures forall x :: x in order[..k] + order[k + 1..] <==> x in order && x != order[k]
    ensures Chain(order[..k] + order[k + 1..], Unchained(desc, order, k, spareHead),
                  if k == 0 then desc[order[k]].next else head)
  {
    hide Chain;
    ChainMembers(order, desc, head);
    var i, cut := order[k], order[..k] + order[k + 1..];
    CutMembers(order, k);
    if k == 0 {
      CutFirst(order, desc, head);
      FrameOne(cut, desc, desc[i].next, i, desc[i].(next := spareHead));
    } else {
      var p := order[k - 1];
      var desc1 := desc[p := desc[p].(next := desc[i].next)];
      ChainCut(order, desc, head, k);
      FrameOne(cut, desc1, head, i, desc1[i].(next := spareHead));
    }
  }

  lemma CutFirst(order: seq<int>, desc: seq<Desc>, head: int)
    requires Chain(order, desc, head) && order != []
    ensures 0 <= order[0] < |desc| && Chain(order[..0] + order[1..], desc, desc[order[0]].next)
  {
    ChainPop(order, desc, head);
    assert order[..0] + order[1..] == order[1..];
  }

  lemma FrameOne(order: seq<int>, desc: seq<Desc>, head: int, i: nat, d: Desc)
    requires Chain(order, desc, head) && i < |desc| && i !in order
    ensures Chain(order, desc[i := d], head)
  {
    ChainFrame(order, desc, desc[i := d], head);
  }

  /** The k-th descriptor of chain b, with nothing in use, goes to the spare list. */
  lemma UnchainKeeps(desc: seq<Desc>, heads: seq<int>, chains: seq<seq<int>>, where: seq<int>, spare: seq<int>,
                     spareHead: int, b: nat, k: nat)
    requires ChainsOk(desc, heads, chains, where) && Lists(spare, desc, spareHead, where, NIL)
    requires b < 9 && k < |chains[b]|
    ensures forall j :: 0 <= j < |chains[b]| ==> 0 <= chains[b][j] < |desc|
    ensures var i, desc' := chains[b][k], Unchained(desc, chains[b], k, spareHead);
            && where[i] == b
            && ChainsOk(desc', if k == 0 then heads[b := desc[i].next] else heads,
                        chains[b := chains[b][..k] + chains[b][k + 1..]], where[i := NIL])
            && Lists([i] + spare, desc', i, where[i := NIL], NIL)
  {
    hide Lists;
    var order, i := chains[b], chains[b][k];
    ListsCut(order, desc, heads[b], where, b, k, spareHead);
    var desc', where' := Unchained(desc, order, k, spareHead), where[i := NIL];
    forall c | 0 <= c < 9 && c != b ensures Lists(chains[c], desc', heads[c], where', c) {
      ListsFrame(chains[c], desc, desc', heads[c], where, where', c);
    }
    ListsFrame(spare, desc, desc', spareHead, where, where, NIL);
    ListsPush(spare, desc', desc', spareHead, where, NIL, i);
  }

  lemma CutMembers(order: seq<int>, k: nat)
    requires k < |order| && forall i, j :: 0 <= i < j < |order| ==> order[i] != order[j]
    ensures forall x :: x in order[..k] + order[k + 1..] <==> x in order && x != order[k]
  {
    assert order == order[..k] + [order[k]] + order[k + 1..];
  }

  lemma RetiredKeeps(desc: seq<Desc>, where: seq<int>, piles: seq<Pile>, mem: map<int, int>, live: map<int, int>,
                     i: nat, desc': seq<Desc>)
    requires PilesOk(desc, where, piles, mem) && PagesApart(desc, where) && LiveOk(desc, where, piles, live)
    requires i < |desc| && where[i] != NIL && piles[i].live == {} && |desc'| == |desc|
    requires forall k :: 0 <= k < |desc| ==> desc'[k] == desc[k].(next := desc'[k].next)
    ensures PilesOk(desc', where[i := NIL], piles, mem) && PagesApart(desc', where[i := NIL])
            && LiveOk(desc', where[i := NIL], piles, live)
  {
    var where' := where[i := NIL];
    forall a | a in live ensures exists k :: 0 <= k < |desc| && where'[k] != NIL && a in piles[k].live {
      var k :| 0 <= k < |desc| && where[k] != NIL && a in piles[k].live;
      assert where'[k] != NIL;
    }
  }

  // ----- Results about every valid allocator

  /** Objects in use never overlap. */
  lemma LiveObjectsApart(desc: seq<Desc>, where: seq<int>, piles: seq<Pile>, mem: map<int, int>, live: map<int, int>,
                         a: int, c: int)
    requires PilesOk(desc, where, piles, mem) && PagesApart(desc, where) && LiveOk(desc, where, piles, live)
    requires forall k :: 0 <= k < |where| ==> NIL <= where[k] < 9
    requires a in live && c in live && a != c
    ensures a + live[a] <= c || c + live[c] <= a
  {
    var i :| 0 <= i < |desc| && where[i] != NIL && a in piles[i].live;
    var k :| 0 <= k < |desc| && where[k] != NIL && c in piles[k].live;
    if i == k {
      SamePage(desc[i], piles[i], mem, a, c);
    } else {
      OtherPage(desc, where, piles, mem, i, k, a, c);
    }
  }

  /** Whatever the owner of an object writes into it, the free lists stay as they are. */
  lemma ClientStoreKeeps(desc: seq<Desc>, where: seq<int>, piles: seq<Pile>, mem: map<int, int>, i: nat, o: int,
                         at: int, v: int)
    requires PilesOk(desc, where, piles, mem) && PagesApart(desc, where)
    requires i < |desc| && 0 <= where[i] < 9 && o in piles[i].live && o <= at < o + desc[i].size
    ensures PilesOk(desc, where, piles, mem[at := v])
  {
    forall k: int | 0 <= k < |desc| && 0 <= where[k] < 9
      ensures PileOk(desc[k], piles[k], SIZES[where[k]], mem[at := v]) {
      forall a | a in piles[k].free ensures a != at {
        SizesDivide(where[k]);
        if k == i {
          SamePage(desc[i], piles[i], mem, o, a);
        } else {
          OtherPage(desc, where, piles, mem, i, k, o, a);
        }
      }
      FreeListFrame(piles[k].free, mem, mem[at := v], desc[k].freeptr);
    }
  }
}
