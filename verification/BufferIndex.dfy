/**
  The two linked structures of fs/buffer.c: hash chains that find a buffer by device
  and block, and the circular free list, which holds every buffer and is kept in
  order of last use.
 */
module BufferIndex {

  const NR_HASH: nat := 307

  /** Device and block number are combined as 32-bit words. */
  function HashFn(dev: nat, blk: nat): (k: nat)
    ensures k < NR_HASH
  {
    (((dev % WORDS) as bv32 ^ (blk % WORDS) as bv32) as int) % NR_HASH
  }

  const WORDS: nat := 0x1_0000_0000

  class Head {
    var dev: nat           // 0: carries no block
    var blk: nat
    var count: nat
    var dirt: bool
    var lock: bool
    var next: Head?
    var prev: Head?
    var nextFree: Head?
    var prevFree: Head?
  }

  predicate Distinct(c: seq<Head>) {
    forall i, j :: 0 <= i < j < |c| ==> c[i] != c[j]
  }

  function First(c: seq<Head>): Head? { if c == [] then null else c[0] }

  predicate Within(c: seq<Head>, all: seq<Head>) {
    forall i :: 0 <= i < |c| ==> c[i] in all
  }

  /** Starting at h, next runs through c and prev runs back. */
  ghost predicate ChainOk(h: Head?, c: seq<Head>)
    reads c`next, c`prev
  {
    && h == First(c) && Distinct(c)
    && (forall i {:trigger c[i].next} :: 0 <= i < |c| ==> c[i].next == if i + 1 < |c| then c[i + 1] else null)
    && (forall i {:trigger c[i].prev} :: 0 <= i < |c| ==> c[i].prev == if i > 0 then c[i - 1] else null)
  }

  /** Starting at f, nextFree runs once round r and prevFree runs back. */
  ghost predicate RingOk(f: Head?, r: seq<Head>)
    reads r`nextFree, r`prevFree
  {
    && r != [] && f == r[0] && Distinct(r)
    && (forall i {:trigger r[i].nextFree} :: 0 <= i < |r| ==> r[i].nextFree == if i + 1 < |r| then r[i + 1] else r[0])
    && (forall i {:trigger r[i].prevFree} :: 0 <= i < |r| ==> r[i].prevFree == if i > 0 then r[i - 1] else r[|r| - 1])
  }

  function Without(c: seq<Head>, i: nat): seq<Head>
    requires i < |c|
  {
    c[..i] + c[i + 1..]
  }

  /** Unlinks the i-th buffer of a hash chain; returns the chain's new head. */
  method Unlink(bh: Head, h: Head?, ghost c: seq<Head>, ghost i: nat) returns (h': Head?)
    requires ChainOk(h, c) && i < |c| && c[i] == bh
    modifies c`next, c`prev
    ensures ChainOk(h', Without(c, i)) && bh.next == old(bh.next) && bh.prev == old(bh.prev)
  {
    if bh.next != null { bh.next.prev := bh.prev; }
    if bh.prev != null { bh.prev.next := bh.next; }
    h' := if h == bh then bh.next else h;
    ghost var d := Without(c, i);
    assert Distinct(d);
    assert forall j {:trigger d[j]} :: 0 <= j < |d| ==> d[j] == if j < i then c[j] else c[j + 1];
  }

  /** Links a buffer in at the front of a chain; the null case of the old head is guarded. */
  method LinkFront(bh: Head, h: Head?, ghost c: seq<Head>)
    requires ChainOk(h, c) && bh !in c
    modifies bh`next, bh`prev, c`prev
    ensures ChainOk(bh, [bh] + c)
  {
    bh.prev := null;
    bh.next := h;
    if bh.next != null { bh.next.prev := bh; }
    ghost var d := [bh] + c;
    assert forall j {:trigger d[j]} :: 0 < j < |d| ==> d[j] == c[j - 1];
    assert Distinct(d) by {
      forall j | 1 <= j < |d| ensures d[j] != bh { assert d[j] in c; }
    }
  }

  /** Moves the i-th buffer of the free list to its end. */
  method MoveToEnd(bh: Head, f: Head, ghost r: seq<Head>, ghost i: nat) returns (f': Head)
    requires RingOk(f, r) && i < |r| && r[i] == bh
    modifies r`nextFree, r`prevFree
    ensures RingOk(f', Without(r, i) + [bh])
  {
    // remove from free list
    bh.prevFree.nextFree := bh.nextFree;
    bh.nextFree.prevFree := bh.prevFree;
    f' := if f == bh then bh.nextFree else f;
    // put at end of free list
    bh.nextFree := f';
    bh.prevFree := f'.prevFree;
    f'.prevFree.nextFree := bh;
    f'.prevFree := bh;
    ghost var d := Without(r, i) + [bh];
    MovedAt(r, i);
  }

  lemma MovedAt(r: seq<Head>, i: nat)
    requires Distinct(r) && i < |r|
    ensures var d := Without(r, i) + [r[i]];
            && |d| == |r| && d[|r| - 1] == r[i] && Distinct(d)
            && forall j {:trigger d[j]} :: 0 <= j < |r| - 1 ==> d[j] == if j < i then r[j] else r[j + 1]
  {
  }

  /** The loop of buffer_init and the closing of the ring. */
  method MakeRing(n: nat) returns (hs: seq<Head>)
    requires n > 0
    ensures |hs| == n && fresh(hs) && RingOk(hs[0], hs)
    ensures forall i {:trigger hs[i]} :: 0 <= i < n ==> Blank(hs[i])
  {
    hs := [];
    while |hs| < n
      invariant |hs| <= n && Distinct(hs) && fresh(hs)
      invariant forall i {:trigger hs[i]} :: 0 <= i < |hs| ==> Blank(hs[i])
      invariant forall i {:trigger hs[i].prevFree} :: 1 <= i < |hs| ==> hs[i].prevFree == hs[i - 1]
      invariant forall i {:trigger hs[i].nextFree} :: 0 <= i < |hs| - 1 ==> hs[i].nextFree == hs[i + 1]
    {
      var h := new Head;
      h.dev, h.count, h.dirt, h.lock, h.next, h.prev := 0, 0, false, false, null, null;
      if |hs| > 0 {
        h.prevFree := hs[|hs| - 1];
        hs[|hs| - 1].nextFree := h;
      }
      hs := hs + [h];
    }
    hs[0].prevFree := hs[n - 1];
    hs[n - 1].nextFree := hs[0];
  }

  predicate Blank(x: Head)
    reads x
  {
    x.dev == 0 && x.count == 0 && !x.dirt && !x.lock && x.next == null && x.prev == null
  }

  function Badness(dirt: bool, lock: bool): nat {
    (if dirt then 2 else 0) + if lock then 1 else 0
  }

  /** The buffer at place `at` is unused, and it is the first of the least bad ones among the first n of r. */
  ghost predicate BestAt(r: seq<Head>, at: nat, n: nat)
    requires at < |r| && n <= |r|
    reads r`count, r`dirt, r`lock
  {
    && r[at].count == 0
    && forall j {:trigger r[j]} :: 0 <= j < n && r[j].count == 0 ==>
       && Badness(r[at].dirt, r[at].lock) <= Badness(r[j].dirt, r[j].lock)
       && (j < at ==> Badness(r[at].dirt, r[at].lock) < Badness(r[j].dirt, r[j].lock))
  }

  lemma BestIsFree(r: seq<Head>, at: nat, n: nat)
    requires at < |r| && n <= |r| && BestAt(r, at, n)
    ensures r[at].count == 0
  {
  }

  /** A dirty buffer is taken only if no unused one is clean, and a locked one only if all those alike are locked. */
  lemma BestMeans(r: seq<Head>, at: nat, j: nat)
    requires at < |r| && j < |r| && BestAt(r, at, |r|) && r[j].count == 0
    ensures r[at].dirt ==> r[j].dirt
    ensures r[at].dirt == r[j].dirt && r[at].lock ==> r[j].lock
    ensures r[at].dirt == r[j].dirt && r[at].lock == r[j].lock ==> at <= j
  {
    assert Badness(r[at].dirt, r[at].lock) <= Badness(r[j].dirt, r[j].lock);
  }

  /** getblk's search: once round the free list, stopping early at a buffer that is neither dirty nor locked. */
  method ScanFreeList(f: Head, ghost r: seq<Head>) returns (bh: Head?, ghost at: nat)
    requires RingOk(f, r)
    ensures bh == null ==> forall j {:trigger r[j]} :: 0 <= j < |r| ==> r[j].count != 0
    ensures bh != null ==> at < |r| && r[at] == bh && BestAt(r, at, |r|)
  {
    bh, at := null, 0;
    var tmp: Head? := f;
    ghost var i := 0;
    while true
      invariant 0 <= i < |r| && tmp == r[i]
      invariant bh == null ==> forall j {:trigger r[j]} :: 0 <= j < i ==> r[j].count != 0
      invariant bh != null ==> at < |r| && r[at] == bh && BestAt(r, at, i) && at < i
      decreases |r| - i
    {
      if tmp.count == 0 && (bh == null || Badness(tmp.dirt, tmp.lock) < Badness(bh.dirt, bh.lock)) {
        bh, at := tmp, i;
        if Badness(tmp.dirt, tmp.lock) == 0 { return; }
      }
      tmp := tmp.nextFree;
      if tmp == f { return; }
      i := i + 1;
    }
  }

  lemma ChainDistinct(h: Head?, c: seq<Head>)
    requires ChainOk(h, c)
    ensures Distinct(c)
  {
  }

  lemma WithoutMembers(c: seq<Head>, i: nat)
    requires Distinct(c) && i < |c|
    ensures forall x :: x in Without(c, i) <==> x in c && x != c[i]
  {
    forall x | x in c && x != c[i] ensures x in Without(c, i) {
      var j :| 0 <= j < |c| && c[j] == x;
      assert Without(c, i)[if j < i then j else j - 1] == x;
    }
  }

  class Index {
    const heads: seq<Head>
    const hash: array<Head?>
    var freeList: Head
    ghost var chain: seq<seq<Head>>     // the buffers of every hash chain
    ghost var ring: seq<Head>           // the free list, from freeList on

    ghost predicate ChainsLinked()
      reads this`chain, hash, heads`next, heads`prev
    {
      && hash.Length == NR_HASH && |chain| == NR_HASH
      && (forall k :: 0 <= k < NR_HASH ==> Within(chain[k], heads))
      && (forall k :: 0 <= k < NR_HASH ==> ChainOk(hash[k], chain[k]))
    }

    /** Each chain links exactly the buffers whose block hashes to it. */
    ghost predicate ChainsOk()
      reads this`chain, hash, heads`dev, heads`blk, heads`next, heads`prev
    {
      && ChainsLinked()
      && (forall k, x :: 0 <= k < NR_HASH && x in chain[k] ==> x in heads && x.dev != 0 && HashFn(x.dev, x.blk) == k)
      && (forall x :: x in heads && x.dev != 0 ==> x in chain[HashFn(x.dev, x.blk)])
    }

    /** The free list holds every buffer once. */
    ghost predicate FreeListOk()
      reads this`freeList, this`ring, heads`nextFree, heads`prevFree
    {
      Within(ring, heads) && Within(heads, ring) && RingOk(freeList, ring)
    }

    ghost predicate Unique()
      reads heads`dev, heads`blk
    {
      forall x, y :: x in heads && y in heads && x != y && x.dev != 0 ==> x.dev != y.dev || x.blk != y.blk
    }

    ghost predicate Valid()
      reads this, hash, heads
    {
      ChainsOk() && FreeListOk() && Unique()
    }

    /** buffer_init: n unlabelled buffers in one ring, and empty hash chains. */
    constructor (n: nat)
      requires n > 0
      ensures Valid() && fresh(heads) && fresh(hash) && |heads| == n && ring == heads
      ensures Distinct(heads) && forall x :: x in heads ==> Blank(x)
    {
      var hs := MakeRing(n);
      heads := hs;
      freeList := hs[0];
      hash := new Head?[NR_HASH](_ => null);
      chain := seq(NR_HASH, _ => []);
      ring := hs;
    }

    /** find_buffer: walks one chain. */
    method FindBuffer(dev: nat, blk: nat) returns (h: Head?)
      requires Valid() && dev != 0
      ensures h != null ==> h in heads && h.dev == dev && h.blk == blk
      ensures h == null ==> forall x :: x in heads ==> x.dev != dev || x.blk != blk
    {
      hide RingOk;
      var k := HashFn(dev, blk);
      ghost var c := chain[k];
      assert ChainOk(hash[k], c);
      h := hash[k];
      ghost var i := 0;
      while h != null
        invariant 0 <= i <= |c| && h == if i < |c| then c[i] else null
        invariant forall j :: 0 <= j < i ==> c[j].dev != dev || c[j].blk != blk
        decreases |c| - i
      {
        if h.dev == dev && h.blk == blk { return; }
        h := h.next;
        i := i + 1;
      }
      forall x | x in heads ensures x.dev != dev || x.blk != blk {
        assert x.dev == dev && x.blk == blk ==> x in c;
      }
    }

    /** The scan in getblk finds a buffer unless all are in use. */
    method PickVictim() returns (bh: Head?, ghost at: nat)
      requires Valid()
      ensures bh == null <==> forall x :: x in heads ==> x.count != 0
      ensures bh != null ==> at < |ring| && ring[at] == bh && BestAt(ring, at, |ring|)
      ensures bh != null ==> forall x :: x in heads && x.count == 0 ==>
                               (bh.dirt ==> x.dirt) && (bh.dirt == x.dirt && bh.lock ==> x.lock)
    {
      hide ChainsOk, Unique, RingOk, BestAt;
      bh, at := ScanFreeList(freeList, ring);
      if bh == null {
        forall x | x in heads ensures x.count != 0 { assert x in ring; }
      } else {
        assert bh in ring;
        BestIsFree(ring, at, |ring|);
        forall x | x in heads && x.count == 0
          ensures (bh.dirt ==> x.dirt) && (bh.dirt == x.dirt && bh.lock ==> x.lock) {
          var j :| 0 <= j < |ring| && ring[j] == x;
          BestMeans(ring, at, j);
        }
      }
    }

    /** As ChainsOk, but bh is in no chain. */
    ghost predicate ChainsOkExcept(bh: Head)
      reads this`chain, hash, heads`dev, heads`blk, heads`next, heads`prev
    {
      && ChainsLinked()
      && (forall k, x :: 0 <= k < NR_HASH && x in chain[k] ==>
         x in heads && x != bh && x.dev != 0 && HashFn(x.dev, x.blk) == k)
      && (forall x :: x in heads && x != bh && x.dev != 0 ==> x in chain[HashFn(x.dev, x.blk)])
    }

    /** The hash half of remove_from_queues; a buffer without a block is in no chain. */
    method Unhash(bh: Head)
      requires ChainsOk() && bh in heads
      modifies this`chain, hash, heads`next, heads`prev
      ensures ChainsOkExcept(bh)
    {
      hide HashFn, ChainsLinked;
      if bh.dev != 0 { UnhashLabelled(bh); }
    }

    method UnhashLabelled(bh: Head)
      requires ChainsOk() && bh in heads && bh.dev != 0
      modifies this`chain, hash, heads`next, heads`prev
      ensures ChainsOkExcept(bh)
    {
      hide HashFn, ChainOk, Without, Distinct;
      var k := HashFn(bh.dev, bh.blk);
      ghost var c := chain[k];
      assert bh in c;
      ghost var i :| 0 <= i < |c| && c[i] == bh;
      ChainDistinct(hash[k], c);
      assert forall q, j :: 0 <= q < NR_HASH && q != k && 0 <= j < |chain[q]| ==>
             chain[q][j] in chain[q] && chain[q][j] !in c;
      var h := Unlink(bh, hash[k], c, i);
      hash[k] := h;
      chain := chain[k := Without(c, i)];
      WithoutMembers(c, i);
      forall q | 0 <= q < NR_HASH ensures Within(chain[q], heads) && ChainOk(hash[q], chain[q]) {
        if q == k {
          assert forall j :: 0 <= j < |chain[k]| ==> chain[k][j] in chain[k];
        } else {
          assert old(ChainOk(hash[q], chain[q]));
        }
      }
    }

    /** The hash half of insert_into_queues. */
    method Hash(bh: Head)
      requires ChainsOkExcept(bh) && bh in heads && bh.dev != 0
      modifies this`chain, hash, heads`next, heads`prev
      ensures ChainsOk()
    {
      hide HashFn, ChainOk;
      var k := HashFn(bh.dev, bh.blk);
      ghost var c := chain[k];
      assert forall q, j :: 0 <= q < NR_HASH && q != k && 0 <= j < |chain[q]| ==>
             chain[q][j] in chain[q] && chain[q][j] !in c;
      LinkFront(bh, hash[k], c);
      hash[k] := bh;
      chain := chain[k := [bh] + c];
      forall q | 0 <= q < NR_HASH ensures Within(chain[q], heads) && ChainOk(hash[q], chain[q]) {
        if q != k { assert old(ChainOk(hash[q], chain[q])); }
      }
    }

    /** The buffer changes chains. */
    method Rehash(bh: Head, dev: nat, blk: nat)
      requires ChainsOk() && bh in heads && dev != 0
      modifies this`chain, hash, heads`dev, heads`blk, heads`next, heads`prev
      ensures ChainsOk() && bh.dev == dev && bh.blk == blk
      ensures forall x :: x in heads && x != bh ==> x.dev == old(x.dev) && x.blk == old(x.blk)
    {
      hide HashFn, ChainOk;
      Unhash(bh);
      bh.dev, bh.blk := dev, blk;
      Hash(bh);
    }

    /**
      The end of getblk: the buffer leaves its old chain, moves to the end of the free
      list and enters the chain of its new block.
     */
    method Relabel(bh: Head, dev: nat, blk: nat, ghost at: nat)
      requires Valid() && at < |ring| && ring[at] == bh && dev != 0
      requires forall x :: x in heads ==> x.dev != dev || x.blk != blk
      modifies this`freeList, this`chain, this`ring, hash
      modifies heads`dev, heads`blk, heads`next, heads`prev, heads`nextFree, heads`prevFree
      ensures Valid() && bh.dev == dev && bh.blk == blk && ring == Without(old(ring), at) + [bh]
      ensures forall x :: x in heads && x != bh ==> x.dev == old(x.dev) && x.blk == old(x.blk)
    {
      hide ChainsOk, FreeListOk;
      assert bh in heads by { InHeads(at); }
      MoveBack(bh, at);
      Rehash(bh, dev, blk);
    }

    /** Each buffer is on the free list. */
    ghost function Where(bh: Head): (at: nat)
      requires FreeListOk() && bh in heads
      ensures at < |ring| && ring[at] == bh
      reads this`freeList, this`ring, heads`nextFree, heads`prevFree
    {
      var i :| 0 <= i < |heads| && heads[i] == bh;
      assert heads[i] in ring;
      var at :| 0 <= at < |ring| && ring[at] == bh;
      at
    }

    lemma InHeads(at: nat)
      requires FreeListOk() && at < |ring|
      ensures ring[at] in heads
    {
    }

    /** The free-list halves of remove_from_queues and insert_into_queues. */
    method MoveBack(bh: Head, ghost at: nat)
      requires FreeListOk() && at < |ring| && ring[at] == bh
      modifies this`freeList, this`ring, heads`nextFree, heads`prevFree
      ensures FreeListOk() && ring == Without(old(ring), at) + [bh]
    {
      ghost var r := ring;
      freeList := MoveToEnd(bh, freeList, r, at);
      ring := Without(r, at) + [bh];
      forall i | 0 <= i < |heads| ensures heads[i] in ring {
        var j :| 0 <= j < |r| && r[j] == heads[i];
        assert j != at ==> ring[if j < at then j else j - 1] == heads[i];
        assert ring[|ring| - 1] == bh;
      }
    }
  }
}
