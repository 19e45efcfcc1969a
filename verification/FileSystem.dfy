/**
  fs/bitmap.c, fs/inode.c, fs/file_dev.c and fs/truncate.c: allocating zones, walking
  and filling the block tree, reading and writing files, and truncating them.
 */
module FileSystem {
  import opened Common
  import opened FileTree
  import opened DiskTree
  import opened Truncation

  const BITS: nat := 8192       // bits of one bitmap block
  const MAPS: nat := 8          // bitmap blocks of a file system

  /** Bit b of the zone map stands for zone b + first - 1; bit 0 is always set. */
  ghost predicate BitmapTie(bits: seq<bool>, maps: nat, first: nat, nzones: nat, used: set<nat>) {
    && |bits| == MAPS * BITS && maps <= MAPS && nzones <= maps * BITS + first - 1 && bits[0]
    && forall b: nat :: 1 <= b < maps * BITS && b + first - 1 < nzones ==> bits[b] == (b + first - 1 in used)
  }

  /** No zone is free. */
  ghost predicate Full(s: Files) {
    forall z: nat :: s.first <= z < s.nzones ==> z in s.used
  }

  /** Positions may have been added, and no byte of any file has changed. */
  ghost predicate Extends(s: Files, s': Files) {
    && s'.first == s.first && s'.nzones == s.nzones && s'.size == s.size && SameBytes(s, s')
    && (forall q :: q in s.own ==> q in s'.own && s'.own[q] == s.own[q])
  }

  lemma ParentOwned(s: Files, p: Pos)
    requires Inv(s) && p in s.own
    ensures ValidPos(p) && p.ino in s.size && (Parent(p).Some? ==> Parent(p).value in s.own)
  {
  }

  lemma KeysTied(m: Store, s: Files)
    requires Tied(m, s)
    ensures m.inodes.Keys == s.size.Keys
  {
  }

  lemma NotOwned(s: Files, z: nat)
    requires Inv(s) && z !in s.used
    ensures z !in s.own.Values
  {
  }

  lemma NotUnder(s: Files, p: Pos)
    requires Inv(s) && Parent(p).Some? && Parent(p).value !in s.own
    ensures p !in s.own
  {
  }

  lemma ExtendsTrans(s: Files, s': Files, s'': Files)
    requires Extends(s, s') && Extends(s', s'')
    ensures Extends(s, s'')
  {
    hide FileByte;
  }

  function Max(a: nat, b: nat): nat { if a > b then a else b }

  /** The zone of a mapped block holds its data. */
  lemma DataAt(m: Store, s: Files, ino: nat, n: nat)
    requires Inv(s) && Tied(m, s) && n < MAX_BLOCKS
    ensures PosOf(ino, n) in s.own ==>
      var z := s.own[PosOf(ino, n)];
      z in m.disk && z in s.data && m.disk[z] == Data(s.data[z]) && |s.data[z]| == BLOCK_SIZE
  {
    IndexSplit(ino, n, Single(ino));
  }

  lemma ChunkBytes(s: Files, s1: Files, ino: nat, pos: nat, chunk: seq<int>, block: Block)
    requires Inv(s) && pos / BLOCK_SIZE < MAX_BLOCKS && pos % BLOCK_SIZE + |chunk| <= BLOCK_SIZE
             && |block| == BLOCK_SIZE
    requires PosOf(ino, pos / BLOCK_SIZE) in s.own
    requires var z := s.own[PosOf(ino, pos / BLOCK_SIZE)]; var c := pos % BLOCK_SIZE;
             && z in s.data && |s.data[z]| == BLOCK_SIZE
             && forall x: nat :: x < BLOCK_SIZE ==>
                block[x] == if c <= x < c + |chunk| then chunk[x - c] else s.data[z][x]
    requires forall i, a: nat :: FileByte(s1, i, a) ==
               if i == ino && a / BLOCK_SIZE == pos / BLOCK_SIZE then block[a % BLOCK_SIZE] else FileByte(s, i, a)
    ensures forall i, a: nat :: FileByte(s1, i, a) ==
              if i == ino && pos <= a < pos + |chunk| then chunk[a - pos] else FileByte(s, i, a)
  {
    hide FileTree.Inv;
    forall i, a: nat ensures FileByte(s1, i, a) ==
        if i == ino && pos <= a < pos + |chunk| then chunk[a - pos] else FileByte(s, i, a)
    {
      if i == ino && pos <= a < pos + |chunk| {
        assert a / BLOCK_SIZE == pos / BLOCK_SIZE && a % BLOCK_SIZE == pos % BLOCK_SIZE + (a - pos);
      } else if i == ino && a / BLOCK_SIZE == pos / BLOCK_SIZE {
        var c, x := pos % BLOCK_SIZE, a % BLOCK_SIZE;
        assert a - pos == x - c;
      }
    }
  }

  lemma SizeKeeps(s: Files, ino: nat, n: nat)
    requires Inv(s)
    ensures Inv(s.(size := s.size[ino := n])) && SameBytes(s, s.(size := s.size[ino := n]))
  {
  }

  lemma SizeTied(m: Store, s: Files, ino: nat, n: nat)
    requires Tied(m, s) && ino in m.inodes
    ensures ino in s.size && m.inodes[ino].size == s.size[ino]
    ensures Tied(m.(inodes := m.inodes[ino := m.inodes[ino].(size := Max(m.inodes[ino].size, n))]),
                 s.(size := s.size[ino := Max(s.size[ino], n)]))
  {
    hide RowsTie, DataTie;
    var inodes' := m.inodes[ino := m.inodes[ino].(size := Max(m.inodes[ino].size, n))];
    var size' := s.size[ino := Max(s.size[ino], n)];
    assert InodeTie(m.inodes[ino], ino, s.own, s.size);
    forall i | i in inodes' ensures InodeTie(inodes'[i], i, s.own, size') {
      assert InodeTie(m.inodes[i], i, s.own, s.size);
    }
  }

  /** Position q holds one of the blocks lo to hi of a file, or leads to one. */
  predicate LeadsTo(q: Pos, ino: nat, lo: nat, hi: nat) {
    exists b: nat :: lo <= b <= hi && q in Path(PosOf(ino, b))
  }

  /** Zones have been added for blocks lo to hi of a file, and for the index blocks that lead to them. */
  ghost predicate Filled(own: map<Pos, nat>, own': map<Pos, nat>, ino: nat, lo: nat, hi: nat) {
    && (forall q :: q in own ==> q in own' && own'[q] == own[q])
    && (forall q :: q in own' ==> q in own || LeadsTo(q, ino, lo, hi))
  }

  lemma FilledMore(own: map<Pos, nat>, own1: map<Pos, nat>, own2: map<Pos, nat>, ino: nat, lo: nat, hi: nat, b: nat)
    requires Filled(own, own1, ino, lo, hi) && lo <= b && (forall q :: q in own1 ==> q in own2 && own2[q] == own1[q])
    requires own2.Keys <= own1.Keys + Path(PosOf(ino, b))
    ensures Filled(own, own2, ino, lo, if b > hi then b else hi)
  {
    hide Path, PosOf;
    forall q | q in own2 && q !in own ensures LeadsTo(q, ino, lo, if b > hi then b else hi) {
      if q in own1 {
        var b' :| lo <= b' <= hi && q in Path(PosOf(ino, b'));
      } else {
        assert q in own2.Keys;
      }
    }
  }

  /** File ino holds bytes from position start on, and is otherwise as before, like all other files. */
  ghost predicate Written(s: Files, s': Files, ino: nat, start: nat, bytes: seq<int>) {
    && ino in s.size && Filled(s.own, s'.own, ino, start / BLOCK_SIZE, (start + |bytes|) / BLOCK_SIZE)
    && s'.size == s.size[ino := if bytes == [] then s.size[ino] else Max(s.size[ino], start + |bytes|)]
    && forall i, a: nat :: FileByte(s', i, a) ==
         if i == ino && start <= a < start + |bytes| then bytes[a - start] else FileByte(s, i, a)
  }

  /** The file has those bytes there, it has grown to hold them, and nothing else of any file has changed. */
  lemma WrittenMeans(s: Files, s': Files, ino: nat, start: nat, bytes: seq<int>)
    requires Written(s, s', ino, start, bytes)
    ensures forall k :: 0 <= k < |bytes| ==> FileByte(s', ino, start + k) == bytes[k]
    ensures forall a: nat :: a < start || start + |bytes| <= a ==> FileByte(s', ino, a) == FileByte(s, ino, a)
    ensures forall i, a: nat :: i != ino ==> FileByte(s', i, a) == FileByte(s, i, a)
    ensures s'.size.Keys == s.size.Keys && forall i :: i in s.size && i != ino ==> s'.size[i] == s.size[i]
    ensures s'.size[ino] == if bytes != [] && start + |bytes| > s.size[ino] then start + |bytes| else s.size[ino]
  {
    hide FileByte, Filled;
  }

  lemma SizeRead(m: Store, s: Files, ino: nat)
    requires Tied(m, s) && ino in m.inodes
    ensures ino in s.size && m.inodes[ino].size == s.size[ino]
    ensures Written(s, s, ino, m.inodes[ino].size, []) && forall p :: Written(s, s, ino, p, [])
  {
    assert InodeTie(m.inodes[ino], ino, s.own, s.size);
    assert s.size == s.size[ino := s.size[ino]];
  }

  lemma WrittenExtends(s: Files, s1: Files, s2: Files, ino: nat, start: nat, bytes: seq<int>)
    requires Written(s, s1, ino, start, bytes) && Extends(s1, s2)
    requires s2.own.Keys <= s1.own.Keys + Path(PosOf(ino, (start + |bytes|) / BLOCK_SIZE))
    ensures Written(s, s2, ino, start, bytes)
  {
    hide FileByte, Filled;
    FilledMore(s.own, s1.own, s2.own, ino, start / BLOCK_SIZE, (start + |bytes|) / BLOCK_SIZE,
      (start + |bytes|) / BLOCK_SIZE);
  }

  lemma FilledWider(own: map<Pos, nat>, own': map<Pos, nat>, ino: nat, lo: nat, hi: nat, hi': nat)
    requires Filled(own, own', ino, lo, hi) && hi <= hi'
    ensures Filled(own, own', ino, lo, hi')
  {
    forall q | q in own' && q !in own ensures LeadsTo(q, ino, lo, hi') {
      var b :| lo <= b <= hi && q in Path(PosOf(ino, b));
    }
  }

  lemma WrittenChunk(s: Files, s2: Files, s3: Files, ino: nat, start: nat, bytes: seq<int>, chunk: seq<int>)
    requires Written(s, s2, ino, start, bytes) && |chunk| > 0 && s3.own == s2.own
    requires s3.size == s2.size[ino := Max(s2.size[ino], start + |bytes| + |chunk|)]
    requires forall i, a: nat :: FileByte(s3, i, a) ==
               if i == ino && start + |bytes| <= a < start + |bytes| + |chunk| then chunk[a - start - |bytes|]
               else FileByte(s2, i, a)
    ensures Written(s, s3, ino, start, bytes + chunk)
  {
    hide FileByte, Filled;
    FilledWider(s.own, s2.own, ino, start / BLOCK_SIZE, (start + |bytes|) / BLOCK_SIZE,
      (start + |bytes + chunk|) / BLOCK_SIZE);
  }

  // ----- Truncation

  /** Inode ino has given up some zones, each of which is now free; nothing else has changed. */
  ghost predicate Shrunk(s: Files, s': Files, ino: nat) {
    && s'.first == s.first && s'.nzones == s.nzones && s'.size == s.size && s'.data == s.data
    && (forall q :: q in s'.own ==> q in s.own && s'.own[q] == s.own[q])
    && (forall q :: q in s.own && q.ino != ino ==> q in s'.own)
    && |s'.used| - |Owned(s', ino)| == |s.used| - |Owned(s, ino)|
    && (forall i, a: nat :: i != ino ==> FileByte(s', i, a) == FileByte(s, i, a))
  }

  lemma ShrunkRefl(s: Files, ino: nat)
    ensures Shrunk(s, s, ino)
  {
  }

  lemma ShrunkTrans(s: Files, s': Files, s'': Files, ino: nat)
    requires Shrunk(s, s', ino) && Shrunk(s', s'', ino)
    ensures Shrunk(s, s'', ino)
  {
    hide FileByte, Owned;
  }

  lemma ShrunkPart(s: Files, s': Files, ino: nat)
    requires Shrunk(s, s', ino)
    ensures PartOf(s'.own, s.own)
  {
  }

  lemma FreedNone(own: map<Pos, nat>, p: Pos, busy: set<nat>)
    ensures FreedBelow(own, own, p, 0, busy)
  {
  }

  lemma FreedNoRoot(own: map<Pos, nat>, ino: nat, busy: set<nat>)
    ensures FreedRoots(own, own, ino, 0, busy)
  {
  }

  /** The i-th branch below p has been gone through. */
  lemma NextBranch(s: Files, s1: Files, s2: Files, p: Pos, i: nat, busy: set<nat>)
    requires (p.Single? || p.Double? || p.DoubleEntry?) && i < FANOUT && p in s1.own
    requires Shrunk(s, s1, p.ino) && Shrunk(s, s2, p.ino) && PartOf(s2.own, s1.own)
    requires FreedBelow(s.own, s1.own, p, i, busy) && Freed(s1.own, s2.own, Child(p, i), busy)
    ensures FreedBelow(s.own, s2.own, p, i + 1, busy) && p in s2.own
    ensures (exists j: nat :: j < i + 1 && Child(p, j) in s2.own)
       <==> (exists j: nat :: j < i && Child(p, j) in s1.own) || Child(p, i) in s2.own
  {
    FreedMore(s.own, s1.own, s2.own, p, i, busy);
    forall j: nat | j < i ensures Child(p, j) in s1.own <==> Child(p, j) in s2.own {
      UnderChild(p, i, Child(p, j));
    }
    UnderChild(p, i, p);
  }

  /** The n-th word of the inode has been gone through. */
  lemma NextRoot(s: Files, s1: Files, s2: Files, ino: nat, n: nat, busy: set<nat>)
    requires FileTree.Inv(s) && n < DIRECT + 2 && Shrunk(s, s1, ino) && PartOf(s2.own, s1.own)
    requires FreedRoots(s.own, s1.own, ino, n, busy) && Freed(s1.own, s2.own, RootPos(ino, n), busy)
    ensures FreedRoots(s.own, s2.own, ino, n + 1, busy)
    ensures (exists j: nat :: j < n + 1 && RootPos(ino, j) in s2.own)
       <==> (exists j: nat :: j < n && RootPos(ino, j) in s1.own) || RootPos(ino, n) in s2.own
  {
    hide FileTree.Inv, FreedRoots, FileByte;
    FreedRoot(s, s1.own, s2.own, ino, n, busy);
    forall j: nat | j < n ensures RootPos(ino, j) in s1.own <==> RootPos(ino, j) in s2.own {
      UnderRoot(ino, n, RootPos(ino, j));
    }
  }

  /** What is left of a file reads as before, and the rest as zeroes. */
  ghost predicate PartLeft(s: Files, s': Files, ino: nat) {
    forall a: nat :: FileByte(s', ino, a) == if PosOf(ino, a / BLOCK_SIZE) in s'.own then FileByte(s, ino, a) else 0
  }

  lemma PartlyZero(s: Files, s': Files, ino: nat)
    requires Shrunk(s, s', ino)
    ensures PartLeft(s, s', ino)
  {
    hide Owned, PosOf;
  }

  lemma CutShrinks(s: Files, p: Pos)
    requires Inv(s) && p in s.own && NoChild(s.own, p)
    ensures Shrunk(s, Cut(s, p), p.ino)
  {
    hide FileTree.Inv, FileByte;
    CutKeeps(s, p);
    assert Owned(Cut(s, p), p.ino) == Owned(s, p.ino) - {p};
  }

  lemma OwnedZone(s: Files, p: Pos)
    requires Inv(s) && p in s.own
    ensures s.first <= s.own[p] < s.nzones && s.own[p] in s.used
  {
  }

  lemma BitOf(bits: seq<bool>, maps: nat, first: nat, nzones: nat, used: set<nat>, z: nat)
    requires BitmapTie(bits, maps, first, nzones, used) && 1 <= first <= z < nzones && z in used
    ensures z - first + 1 < |bits| && bits[z - first + 1]
    ensures BitmapTie(bits[z - first + 1 := false], maps, first, nzones, used - {z})
  {
  }

  lemma DataHasNoChild(own: map<Pos, nat>, p: Pos)
    requires IsData(p)
    ensures NoChild(own, p)
  {
  }

  lemma ChildlessAfter(s: Files, p: Pos)
    requires Inv(s) && !IsData(p) && forall j: nat :: j < FANOUT ==> Child(p, j) !in s.own
    ensures NoChild(s.own, p)
  {
    forall q | q in s.own ensures Parent(q) != Some(p) {
      assert Parent(q) == Some(p) ==> q == Child(p, WordOf(q)) && WordOf(q) < FANOUT;
    }
  }

  lemma EmptyInode(m: Store, s: Files, ino: nat)
    requires Tied(m, s) && ino in m.inodes && Owned(s, ino) == {}
    ensures m.inodes[ino].zone == seq(DIRECT + 2, i => 0)
    ensures Tied(m.(inodes := m.inodes[ino := m.inodes[ino].(size := 0)]), s.(size := s.size[ino := 0]))
    ensures forall a: nat :: FileByte(s, ino, a) == 0
  {
    hide RowsTie, DataTie;
    assert InodeTie(m.inodes[ino], ino, s.own, s.size);
    forall p: Pos | p.ino == ino ensures p !in s.own { assert p !in Owned(s, ino); }
    assert m.inodes[ino].zone == seq(DIRECT + 2, i => 0) by {
      forall i: nat | i < DIRECT + 2 ensures m.inodes[ino].zone[i] == 0 { assert RootPos(ino, i).ino == ino; }
    }
    var inodes' := m.inodes[ino := m.inodes[ino].(size := 0)];
    forall i | i in inodes' ensures InodeTie(inodes'[i], i, s.own, s.size[ino := 0]) {
      assert InodeTie(m.inodes[i], i, s.own, s.size);
    }
    forall a: nat ensures FileByte(s, ino, a) == 0 { assert PosOf(ino, a / BLOCK_SIZE).ino == ino; }
  }

  // ----- What the invariant says about the zone map

  /** A data zone's bit is set exactly when one position of one inode names it. */
  lemma BitmapExact(bits: seq<bool>, maps: nat, s: Files, z: nat)
    requires Inv(s) && BitmapTie(bits, maps, s.first, s.nzones, s.used) && s.first <= z < s.nzones
    ensures z - s.first + 1 < |bits|
    ensures bits[z - s.first + 1] <==> exists p :: p in s.own && s.own[p] == z
    ensures forall p, q :: p in s.own && q in s.own && s.own[p] == z && s.own[q] == z ==> p == q
  {
    assert z in s.own.Values <==> exists p :: p in s.own && s.own[p] == z;
  }

  // ----- The code

  class MinixFs {
    const zmap: array<bool>
    const maps: nat
    const first: nat
    const nzones: nat
    var inodes: map<nat, Inode>
    var disk: map<nat, Content>
    ghost var files: Files

    /** A fresh device: no zone is in use and all files are empty. */
    constructor (first: nat, nzones: nat, maps: nat, inos: set<nat>)
      requires 1 <= first && maps <= MAPS && nzones <= maps * BITS + first - 1
      ensures Valid() && inodes.Keys == inos && this.first == first && this.nzones == nzones
      ensures files == Files(first, nzones, map[], {}, map[], map i | i in inos :: 0)
    {
      this.zmap := new bool[MAPS * BITS](b => b == 0);
      this.maps, this.first, this.nzones := maps, first, nzones;
      this.inodes := map i | i in inos :: Inode(seq(DIRECT + 2, j => 0), 0);
      this.disk := map[];
      this.files := Files(first, nzones, map[], {}, map[], map i | i in inos :: 0);
    }

    ghost function M(): Store
      reads this
    {
      Store(inodes, disk)
    }

    ghost predicate Valid()
      reads this, zmap
    {
      && 1 <= first && zmap.Length == MAPS * BITS && files.first == first && files.nzones == nzones
      && Inv(files) && Tied(M(), files) && BitmapTie(zmap[..], maps, first, nzones, files.used)
    }

    /** find_first_zero: scans one bitmap block, 32 bits at a time. */
    method FindFirstZero(i: nat) returns (j: nat)
      requires zmap.Length == MAPS * BITS && i < MAPS
      ensures j <= BITS
      ensures forall b :: i * BITS <= b < i * BITS + j ==> zmap[b]
      ensures j < BITS ==> !zmap[i * BITS + j]
    {
      var base := i * BITS;
      var w := 0;
      while w < BITS
        invariant 0 <= w <= BITS && w % 32 == 0
        invariant forall b :: base <= b < base + w ==> zmap[b]
      {
        var k := 0;
        while k < 32 && zmap[base + w + k]
          invariant 0 <= k <= 32
          invariant forall b :: base <= b < base + w + k ==> zmap[b]
        {
          k := k + 1;
        }
        if k < 32 { return w + k; }
        w := w + 32;
      }
      return BITS;
    }

    /** new_block: the first free zone is marked, cleared and returned; 0 when the device is full. */
    method NewBlock(c: Content) returns (z: nat)
      requires Valid()
      modifies this`disk, zmap
      ensures z == 0 ==> disk == old(disk) && BitmapTie(zmap[..], maps, first, nzones, files.used) && Full(files)
      ensures z != 0 ==>
        && first <= z < nzones && z !in files.used && disk == old(disk)[z := c]
        && BitmapTie(zmap[..], maps, first, nzones, files.used + {z})
        && (forall y: nat :: first <= y < z ==> y in files.used)
    {
      hide FileTree.Inv, Tied;
      var i, j := 0, BITS;
      while i < MAPS
        invariant 0 <= i <= MAPS
        invariant forall b :: 0 <= b < i * BITS && b < maps * BITS ==> zmap[b]
        invariant zmap[..] == old(zmap[..]) && disk == old(disk)
        invariant j == BITS
      {
        if i < maps {
          j := FindFirstZero(i);
          if j < BITS { break; }
        }
        i := i + 1;
      }
      ghost var bits := zmap[..];
      if i >= MAPS || j >= BITS {
        forall y: nat | first <= y < nzones ensures y in files.used { assert bits[y - first + 1]; }
        return 0;
      }
      var b := j + i * BITS;
      assert !bits[b] && b < maps * BITS && b != 0;
      forall y: nat | first <= y < nzones && y < b + first - 1 ensures y in files.used { assert bits[y - first + 1]; }
      zmap[b] := true;
      assert zmap[..] == bits[b := true];
      z := b + first - 1;
      if z >= nzones { return 0; }
      assert z !in files.used;
      disk := disk[z := c];
    }

    /** The zone number stored for position p, read through the inode or its indirect block. */
    method ReadWord(p: Pos) returns (z: nat)
      requires Valid() && ValidPos(p) && p.ino in inodes && (Parent(p).Some? ==> Parent(p).value in files.own)
      ensures z == At(files.own, p) && (z != 0 <==> p in files.own)
    {
      hide BitmapTie;
      CanSet(M(), files, p);
      WordIsZone(M(), files, p);
      match p
      case Direct(n, i) => z := inodes[n].zone[i];
      case Single(n) => z := inodes[n].zone[DIRECT];
      case Double(n) => z := inodes[n].zone[DIRECT + 1];
      case SingleEntry(n, i) =>
        WordIsZone(M(), files, Single(n));
        z := disk[inodes[n].zone[DIRECT]].row[i];
      case DoubleEntry(n, i) =>
        WordIsZone(M(), files, Double(n));
        z := disk[inodes[n].zone[DIRECT + 1]].row[i];
      case Leaf(n, i, j) =>
        var b := ReadMiddle(n, i);
        z := disk[b].row[j];
    }

    /** The zone of the i-th second-level indirect block. */
    method ReadMiddle(n: nat, i: nat) returns (b: nat)
      requires Valid() && n in inodes && i < FANOUT && DoubleEntry(n, i) in files.own
      ensures b == files.own[DoubleEntry(n, i)]
    {
      hide BitmapTie;
      ParentOwned(files, DoubleEntry(n, i));
      CanSet(M(), files, DoubleEntry(n, i));
      WordIsZone(M(), files, Double(n));
      WordIsZone(M(), files, DoubleEntry(n, i));
      b := disk[inodes[n].zone[DIRECT + 1]].row[i];
    }

    /** Stores zone number z at position p. */
    method WriteWord(p: Pos, z: nat)
      requires Inv(files) && Tied(M(), files)
      requires ValidPos(p) && p.ino in inodes && (Parent(p).Some? ==> Parent(p).value in files.own)
      modifies this`inodes, this`disk
      ensures p.ino in files.size
      ensures (CanSet(old(M()), files, p); M() == SetWord(old(M()), files, p, z))
    {
      CanSet(M(), files, p);
      match p
      case Direct(n, i) => inodes := inodes[n := inodes[n].(zone := inodes[n].zone[i := z])];
      case Single(n) => inodes := inodes[n := inodes[n].(zone := inodes[n].zone[DIRECT := z])];
      case Double(n) => inodes := inodes[n := inodes[n].(zone := inodes[n].zone[DIRECT + 1 := z])];
      case SingleEntry(n, i) =>
        WordIsZone(M(), files, Single(n));
        var b := inodes[n].zone[DIRECT];
        disk := disk[b := Index(disk[b].row[i := z])];
      case DoubleEntry(n, i) =>
        WordIsZone(M(), files, Double(n));
        var b := inodes[n].zone[DIRECT + 1];
        disk := disk[b := Index(disk[b].row[i := z])];
      case Leaf(n, i, j) =>
        ParentOwned(files, DoubleEntry(n, i));
        CanSet(M(), files, DoubleEntry(n, i));
        WordIsZone(M(), files, Double(n));
        WordIsZone(M(), files, DoubleEntry(n, i));
        var b := disk[inodes[n].zone[DIRECT + 1]].row[i];
        disk := disk[b := Index(disk[b].row[j := z])];
    }

    /** One level of _bmap: the word at p, which is filled with a new block if create is set. */
    method Ensure(p: Pos, create: bool) returns (z: nat)
      requires Valid() && ValidPos(p) && p.ino in inodes && (Parent(p).Some? ==> Parent(p).value in files.own)
      modifies this`inodes, this`disk, this`files, zmap
      ensures Valid() && Extends(old(files), files) && inodes.Keys == old(inodes.Keys)
      ensures z == At(files.own, p) && (z != 0 <==> p in files.own)
      ensures files.own.Keys <= old(files.own.Keys) + {p}
      ensures !create || p in old(files.own) ==> files == old(files)
      ensures create && z == 0 ==> Full(files)
    {
      hide FileTree.Inv, InodesTie, RowsTie, DataTie, BitmapTie, FileByte;
      ghost var m, s := M(), files;
      KeysTied(m, s);
      z := ReadWord(p);
      if !create || z != 0 { return; }
      z := NewBlock(Fresh(p));
      if z == 0 { return; }
      NotOwned(s, z);
      GrowKeeps(s, p, z);
      GrowTied(m, s, p, z);
      FreshTied(m, s, z, Fresh(p));
      WriteWord(p, z);
      files := Grow(s, p, z);
      KeysTied(M(), files);
      assert M() == GrowStore(m, s, p, z);
    }

    /** The double indirect part of _bmap. */
    method BmapDouble(ino: nat, i: nat, j: nat, create: bool) returns (z: nat)
      requires Valid() && ino in inodes && i < FANOUT && j < FANOUT
      modifies this`inodes, this`disk, this`files, zmap
      ensures Valid() && Extends(old(files), files) && inodes.Keys == old(inodes.Keys)
      ensures z == At(files.own, Leaf(ino, i, j)) && (z != 0 <==> Leaf(ino, i, j) in files.own)
      ensures !create ==> files == old(files)
      ensures create && z == 0 ==> Full(files)
      ensures files.own.Keys <= old(files.own.Keys) + Path(Leaf(ino, i, j))
    {
      hide FileTree.Inv, InodesTie, RowsTie, DataTie, BitmapTie, FileByte, Extends;
      ghost var s0 := files;
      z := Ensure(Double(ino), create);
      if z == 0 {
        NotUnder(files, DoubleEntry(ino, i));
        NotUnder(files, Leaf(ino, i, j));
        return;
      }
      ghost var s1 := files;
      z := Ensure(DoubleEntry(ino, i), create);
      ExtendsTrans(s0, s1, files);
      if z == 0 {
        NotUnder(files, Leaf(ino, i, j));
        return;
      }
      ghost var s2 := files;
      z := Ensure(Leaf(ino, i, j), create);
      ExtendsTrans(s0, s2, files);
    }

    /** _bmap, by the positions of the tree. */
    method MapBlock(ino: nat, n: nat, create: bool) returns (z: nat)
      requires Valid() && ino in inodes && n < MAX_BLOCKS
      modifies this`inodes, this`disk, this`files, zmap
      ensures Valid() && Extends(old(files), files) && inodes.Keys == old(inodes.Keys)
      ensures z == At(files.own, PosOf(ino, n)) && (z != 0 <==> PosOf(ino, n) in files.own)
      ensures !create ==> files == old(files)
      ensures create && z == 0 ==> Full(files)
      ensures files.own.Keys <= old(files.own.Keys) + Path(PosOf(ino, n))
    {
      hide FileTree.Inv, InodesTie, RowsTie, DataTie, BitmapTie, FileByte, Extends;
      ghost var s0 := files;
      if n < DIRECT {
        z := Ensure(Direct(ino, n), create);
        return;
      }
      var b := n - DIRECT;
      if b < FANOUT {
        z := Ensure(Single(ino), create);
        if z == 0 {
          NotUnder(files, SingleEntry(ino, b));
          return;
        }
        ghost var s1 := files;
        z := Ensure(SingleEntry(ino, b), create);
        ExtendsTrans(s0, s1, files);
        return;
      }
      z := BmapDouble(ino, (b - FANOUT) / FANOUT, (b - FANOUT) % FANOUT, create);
    }

    /** _bmap: the zone of block n of a file, or 0; with create, missing blocks are allocated on the way. */
    method Bmap(ino: nat, n: nat, create: bool) returns (z: nat)
      requires Valid() && ino in inodes && n < MAX_BLOCKS
      modifies this`inodes, this`disk, this`files, zmap
      ensures Valid() && Extends(old(files), files) && inodes.Keys == old(inodes.Keys)
      ensures z == At(files.own, PosOf(ino, n)) && (z != 0 <==> PosOf(ino, n) in files.own)
      ensures !create ==> files == old(files)
      ensures create && z == 0 ==> Full(files)
      ensures files.own.Keys <= old(files.own.Keys) + Path(PosOf(ino, n))
      ensures |inodes[ino].zone| == 9
      ensures n < 7 ==> z == inodes[ino].zone[n]
      ensures 7 <= n < 519 ==>
                var b := inodes[ino].zone[7];
                if b == 0 then z == 0
                else b in disk && disk[b].Index? && |disk[b].row| == 512 && z == disk[b].row[n - 7]
      ensures n >= 519 ==>
                var b := inodes[ino].zone[8];
                if b == 0 then z == 0
                else
                  && b in disk && disk[b].Index? && |disk[b].row| == 512
                  && var c := disk[b].row[(n - 519) / 512];
                     if c == 0 then z == 0
                     else c in disk && disk[c].Index? && |disk[c].row| == 512 && z == disk[c].row[(n - 519) % 512]
    {
      hide FileTree.Inv, InodesTie, RowsTie, DataTie, BitmapTie, FileByte, Extends, PosOf, Path;
      z := MapBlock(ino, n, create);
      if n < 7 {
        RootWord(M(), files, ino, n);
        DirectPos(ino, n);
      } else if n < 519 {
        SingleOnDisk(M(), files, ino, n);
      } else {
        DoubleOnDisk(M(), files, ino, n);
      }
      RootWord(M(), files, ino, 0);
    }

    /** file_read: the bytes of the file from pos on; holes and everything unwritten read as zero. */
    method FileRead(ino: nat, fpos: nat, count: int) returns (buf: seq<int>, pos: nat)
      requires Valid() && ino in inodes && (count > 0 ==> fpos + count <= MAX_BLOCKS * BLOCK_SIZE)
      modifies this`inodes, this`disk, this`files, zmap
      ensures Valid() && files == old(files) && inodes.Keys == old(inodes.Keys)
      ensures |buf| == (if count <= 0 then 0 else count) && pos == fpos + |buf|
      ensures forall i :: 0 <= i < |buf| ==> buf[i] == FileByte(files, ino, fpos + i)
    {
      hide FileTree.Inv, InodesTie, RowsTie, BitmapTie, PosOf, Path, Extends;
      buf, pos := [], fpos;
      if count <= 0 { return; }
      var left := count;
      while left > 0
        invariant Valid() && files == old(files) && inodes.Keys == old(inodes.Keys)
        invariant 0 <= left <= count && |buf| == count - left && pos == fpos + |buf|
        invariant forall i :: 0 <= i < |buf| ==> buf[i] == FileByte(files, ino, fpos + i)
      {
        var z := Bmap(ino, pos / BLOCK_SIZE, false);
        var nr := pos % BLOCK_SIZE;
        var chars := if BLOCK_SIZE - nr < left then BLOCK_SIZE - nr else left;
        DataAt(M(), files, ino, pos / BLOCK_SIZE);
        var o := 0;
        while o < chars
          invariant 0 <= o <= chars && |buf| == count - left + o
          invariant forall i :: 0 <= i < |buf| ==> buf[i] == FileByte(files, ino, fpos + i)
        {
          var byte := if z != 0 then disk[z].block[nr + o] else 0;
          assert (pos + o) / BLOCK_SIZE == pos / BLOCK_SIZE && (pos + o) % BLOCK_SIZE == nr + o;
          assert byte == FileByte(files, ino, pos + o);
          buf := buf + [byte];
          o := o + 1;
        }
        pos := pos + chars;
        left := left - chars;
      }
    }

    /** The part of a write that falls into one block. */
    method WriteChunk(ino: nat, z: nat, pos: nat, chunk: seq<int>)
      requires Valid() && ino in inodes && pos / BLOCK_SIZE < MAX_BLOCKS && pos % BLOCK_SIZE + |chunk| <= BLOCK_SIZE
      requires PosOf(ino, pos / BLOCK_SIZE) in files.own && z == files.own[PosOf(ino, pos / BLOCK_SIZE)]
      modifies this`inodes, this`disk, this`files
      ensures Valid() && files.own == old(files.own) && inodes.Keys == old(inodes.Keys)
      ensures files.used == old(files.used)
      ensures files.size == old(files.size)[ino := Max(old(files.size[ino]), pos + |chunk|)]
      ensures forall i, a: nat :: FileByte(files, i, a) ==
                if i == ino && pos <= a < pos + |chunk| then chunk[a - pos] else FileByte(old(files), i, a)
    {
      hide FileTree.Inv, InodesTie, RowsTie, BitmapTie;
      ghost var m, s := M(), files;
      KeysTied(m, s);
      ghost var p := PosOf(ino, pos / BLOCK_SIZE);
      DataAt(m, s, ino, pos / BLOCK_SIZE);
      var c := pos % BLOCK_SIZE;
      var block := disk[z].block;
      var o := 0;
      while o < |chunk|
        invariant 0 <= o <= |chunk| && |block| == BLOCK_SIZE
        invariant forall x: nat :: x < BLOCK_SIZE ==> block[x] == if c <= x < c + o then chunk[x - c] else s.data[z][x]
      {
        block := block[c + o := chunk[o]];
        o := o + 1;
      }
      disk := disk[z := Data(block)];
      PutKeeps(s, ino, pos / BLOCK_SIZE, block);
      PutTied(m, s, p, block);
      ghost var s1 := Put(s, p, block);
      ChunkBytes(s, s1, ino, pos, chunk, block);
      hide PosOf, DataTie, FileByte, Put;
      if pos + |chunk| > inodes[ino].size {
        inodes := inodes[ino := inodes[ino].(size := pos + |chunk|)];
      }
      SizeTied(m.(disk := disk), s1, ino, pos + |chunk|);
      SizeKeeps(s1, ino, Max(s1.size[ino], pos + |chunk|));
      assert inodes == m.inodes[ino := m.inodes[ino].(size := Max(m.inodes[ino].size, pos + |chunk|))];
      files := s1.(size := s1.size[ino := Max(s1.size[ino], pos + |chunk|)]);
    }

    /** One turn of the loop in file_write: what goes into the block at pos; nothing when the device is full. */
    method WriteBlock(ino: nat, pos: nat, rest: seq<int>, ghost s0: Files, ghost start: nat, ghost bytes: seq<int>)
      returns (c: nat)
      requires Valid() && ino in inodes && rest != [] && pos + |rest| <= MAX_BLOCKS * BLOCK_SIZE
      requires pos == start + |bytes| && Written(s0, files, ino, start, bytes)
      modifies this`inodes, this`disk, this`files, zmap
      ensures Valid() && inodes.Keys == old(inodes.Keys) && c <= |rest|
      ensures Written(s0, files, ino, start, bytes + rest[..c]) && (c == 0 ==> Full(files))
    {
      hide FileTree.Inv, InodesTie, RowsTie, DataTie, BitmapTie, PosOf, Path, FileByte, Written;
      ghost var s1 := files;
      var block := Bmap(ino, pos / BLOCK_SIZE, true);
      WrittenExtends(s0, s1, files, ino, start, bytes);
      if block == 0 {
        assert bytes + rest[..0] == bytes;
        return 0;
      }
      c := BLOCK_SIZE - pos % BLOCK_SIZE;
      if c > |rest| { c := |rest|; }
      ghost var s2 := files;
      WriteChunk(ino, block, pos, rest[..c]);
      WrittenChunk(s0, s2, files, ino, start, bytes, rest[..c]);
    }

    /**
      file_write: block by block, until everything is written or the device is full.
      What was written is exactly the prefix whose length is returned.
     */
    method FileWrite(ino: nat, append: bool, fpos: nat, buf: seq<int>) returns (r: int, newPos: nat)
      requires Valid() && ino in inodes
      requires (if append then inodes[ino].size else fpos) + |buf| <= MAX_BLOCKS * BLOCK_SIZE
      modifies this`inodes, this`disk, this`files, zmap
      ensures Valid() && inodes.Keys == old(inodes.Keys)
      ensures r == -1 || 1 <= r <= |buf|
      ensures var start := if append then old(files.size[ino]) else fpos; var n := if r == -1 then 0 else r;
              && Written(old(files), files, ino, start, buf[..n])
              && (n < |buf| ==> Full(files))
              && newPos == if append then fpos else start + n
    {
      hide FileTree.Inv, InodesTie, RowsTie, DataTie, BitmapTie, PosOf, Path, FileByte, Written;
      KeysTied(M(), files);
      SizeRead(M(), files, ino);
      var pos := if append then inodes[ino].size else fpos;
      ghost var start := pos;
      var i := 0;
      assert buf[..0] == [];
      while i < |buf|
        invariant Valid() && inodes.Keys == old(inodes.Keys)
        invariant 0 <= i <= |buf| && pos == start + i
        invariant Written(old(files), files, ino, start, buf[..i])
      {
        var c := WriteBlock(ino, pos, buf[i..], old(files), start, buf[..i]);
        assert buf[..i] + buf[i..][..c] == buf[..i + c];
        if c == 0 { break; }
        pos := pos + c;
        i := i + c;
      }
      newPos := if append then fpos else pos;
      r := if i != 0 then i else -1;
    }

    /**
      free_block and the clearing of the word that named the block; refused while another task uses the
      block.  busy are the zones in use: a pass of truncate asks about a zone once, so one set gives any answers.
     */
    method FreeWord(p: Pos, busy: set<nat>) returns (ok: bool)
      requires Valid() && p in files.own && NoChild(files.own, p)
      modifies this`inodes, this`disk, this`files, zmap
      ensures Valid() && inodes.Keys == old(inodes.Keys)
      ensures ok <==> old(files).own[p] !in busy
      ensures files == if ok then Cut(old(files), p) else old(files)
      ensures ok ==> Shrunk(old(files), files, p.ino)
    {
      hide FileTree.Inv, InodesTie, RowsTie, DataTie, BitmapTie, FileByte, Shrunk;
      ghost var m, s := M(), files;
      ParentOwned(s, p);
      KeysTied(m, s);
      var z := ReadWord(p);
      if z in busy { return false; }
      OwnedZone(s, p);
      BitOf(zmap[..], maps, first, nzones, s.used, z);
      assert zmap[z - first + 1];
      zmap[z - first + 1] := false;
      CutKeeps(s, p);
      CutTied(m, s, p);
      CutShrinks(s, p);
      WriteWord(p, 0);
      files := Cut(s, p);
      assert M() == CutStore(m, s, p);
      KeysTied(M(), files);
      assert zmap[..] == old(zmap[..])[z - first + 1 := false];
      return true;
    }

    /**
      free_ind: frees what is not in use below the indirect block at p, and then that block if nothing is left
      below it and it is not in use itself.
     */
    method FreeInd(p: Pos, busy: set<nat>) returns (ok: bool)
      requires Valid() && ValidPos(p) && p.ino in inodes && (p.Single? || p.DoubleEntry?)
      requires Parent(p).Some? ==> Parent(p).value in files.own
      modifies this`inodes, this`disk, this`files, zmap
      ensures Valid() && inodes.Keys == old(inodes.Keys) && Shrunk(old(files), files, p.ino)
      ensures Freed(old(files.own), files.own, p, busy)
      ensures ok <==> p !in files.own
    {
      hide FileTree.Inv, InodesTie, RowsTie, DataTie, BitmapTie, FileByte, Shrunk, Freed, FreedBelow;
      ShrunkRefl(files, p.ino);
      ghost var s := files;
      var block := ReadWord(p);
      if block == 0 {
        NothingUnder(files, p, busy);
        return true;
      }
      var inUse := false;
      var i := 0;
      FreedNone(s.own, p, busy);
      while i < FANOUT
        invariant 0 <= i <= FANOUT
        invariant Valid() && inodes.Keys == old(inodes.Keys) && Shrunk(s, files, p.ino)
        invariant p in files.own && FreedBelow(s.own, files.own, p, i, busy)
        invariant inUse <==> exists j: nat :: j < i && Child(p, j) in files.own
      {
        var q := Child(p, i);
        ghost var s1 := files;
        var z := ReadWord(q);
        if z != 0 {
          DataHasNoChild(files.own, q);
          FreedWord(files.own, q, busy);
          var done := FreeWord(q, busy);
          if done { ShrunkTrans(s, s1, files, p.ino); } else { inUse := true; }
        } else {
          NothingUnder(files, q, busy);
        }
        NextBranch(s, s1, files, p, i, busy);
        i := i + 1;
      }
      ok := FreeEmptied(p, busy, inUse, s);
    }

    /** The end of free_ind and free_dind. */
    method FreeEmptied(p: Pos, busy: set<nat>, inUse: bool, ghost s: Files) returns (ok: bool)
      requires Valid() && p in files.own && (p.Single? || p.Double? || p.DoubleEntry?)
      requires FileTree.Inv(s) && p in s.own && Shrunk(s, files, p.ino) && FreedBelow(s.own, files.own, p, FANOUT, busy)
      requires inUse <==> exists j: nat :: j < FANOUT && Child(p, j) in files.own
      modifies this`inodes, this`disk, this`files, zmap
      ensures Valid() && inodes.Keys == old(inodes.Keys) && Shrunk(s, files, p.ino)
      ensures Freed(s.own, files.own, p, busy) && (ok <==> p !in files.own)
    {
      hide FileTree.Inv, InodesTie, RowsTie, DataTie, BitmapTie, FileByte, Shrunk, Freed, FreedBelow;
      ghost var s1 := files;
      ShrunkPart(s, s1, p.ino);
      if inUse {
        FreedAll(s, s1.own, files.own, p, busy);
        return false;
      }
      ChildlessAfter(files, p);
      ok := FreeWord(p, busy);
      if ok { ShrunkTrans(s, s1, files, p.ino); }
      FreedAll(s, s1.own, files.own, p, busy);
    }

    /** free_dind: the same for the double indirect block. */
    method FreeDind(ino: nat, busy: set<nat>) returns (ok: bool)
      requires Valid() && ino in inodes
      modifies this`inodes, this`disk, this`files, zmap
      ensures Valid() && inodes.Keys == old(inodes.Keys) && Shrunk(old(files), files, ino)
      ensures Freed(old(files.own), files.own, Double(ino), busy)
      ensures ok <==> Double(ino) !in files.own
    {
      hide FileTree.Inv, InodesTie, RowsTie, DataTie, BitmapTie, FileByte, Shrunk, Freed, FreedBelow;
      ShrunkRefl(files, ino);
      ghost var s := files;
      var p := Double(ino);
      var block := ReadWord(p);
      if block == 0 {
        NothingUnder(files, p, busy);
        return true;
      }
      var inUse := false;
      var i := 0;
      FreedNone(s.own, p, busy);
      while i < FANOUT
        invariant 0 <= i <= FANOUT
        invariant Valid() && inodes.Keys == old(inodes.Keys) && Shrunk(s, files, ino)
        invariant p in files.own && FreedBelow(s.own, files.own, p, i, busy)
        invariant inUse <==> exists j: nat :: j < i && Child(p, j) in files.own
      {
        var q := DoubleEntry(ino, i);
        ghost var s1 := files;
        var z := ReadWord(q);
        if z != 0 {
          var done := FreeInd(q, busy);
          ShrunkPart(s1, files, ino);
          ShrunkTrans(s, s1, files, ino);
          if !done { inUse := true; }
        } else {
          NothingUnder(files, q, busy);
          ShrunkRefl(files, ino);
        }
        NextBranch(s, s1, files, p, i, busy);
        i := i + 1;
      }
      ok := FreeEmptied(p, busy, inUse, s);
    }

    /** One pass of truncate over the whole tree: what is not in use goes; false when something was. */
    method TruncatePass(ino: nat, busy: set<nat>) returns (done: bool)
      requires Valid() && ino in inodes
      modifies this`inodes, this`disk, this`files, zmap
      ensures Valid() && inodes.Keys == old(inodes.Keys) && Shrunk(old(files), files, ino)
      ensures files.own == AfterPass(old(files.own), ino, busy)
      ensures done <==> Gone(files.own, ino)
    {
      hide FileTree.Inv, InodesTie, RowsTie, DataTie, BitmapTie, FileByte, Shrunk, Freed, FreedRoots, AfterPass, Gone;
      ShrunkRefl(files, ino);
      ghost var s := files;
      var inUse := false;
      var i := 0;
      FreedNoRoot(s.own, ino, busy);
      while i < DIRECT
        invariant 0 <= i <= DIRECT
        invariant Valid() && inodes.Keys == old(inodes.Keys) && Shrunk(s, files, ino)
        invariant FreedRoots(s.own, files.own, ino, i, busy)
        invariant inUse <==> exists j: nat :: j < i && RootPos(ino, j) in files.own
      {
        var q := Direct(ino, i);
        ghost var s1 := files;
        var z := ReadWord(q);
        if z != 0 {
          DataHasNoChild(files.own, q);
          FreedWord(files.own, q, busy);
          var ok := FreeWord(q, busy);
          if ok { ShrunkTrans(s, s1, files, ino); } else { inUse := true; }
        } else {
          NothingUnder(files, q, busy);
        }
        NextRoot(s, s1, files, ino, i, busy);
        i := i + 1;
      }
      ghost var s2 := files;
      var ok := FreeInd(Single(ino), busy);
      ShrunkPart(s2, files, ino);
      ShrunkTrans(s, s2, files, ino);
      NextRoot(s, s2, files, ino, DIRECT, busy);
      if !ok { inUse := true; }
      ghost var s3 := files;
      ok := FreeDind(ino, busy);
      ShrunkPart(s3, files, ino);
      ShrunkTrans(s, s3, files, ino);
      NextRoot(s, s3, files, ino, DIRECT + 1, busy);
      if !ok { inUse := true; }
      ShrunkPart(s, files, ino);
      PassOver(s, files, ino, busy);
      return !inUse;
    }

    /**
      truncate: passes are made until one meets no zone in use; passes lists the zones in use during each.
      When it ends, the inode owns nothing and all its zones, and no others, are free.
     */
    method Truncate(ino: nat, passes: seq<set<nat>>) returns (done: bool)
      requires Valid() && ino in inodes
      modifies this`inodes, this`disk, this`files, zmap
      ensures Valid() && inodes.Keys == old(inodes.Keys)
      ensures files.own == AfterPasses(old(files.own), ino, passes)
      ensures done <==> passes != [] && Gone(files.own, ino)
      ensures (exists i :: 0 <= i < |passes| && Quiet(old(files.own), ino, passes[i])) ==> done
      ensures forall i, a: nat :: i != ino ==> FileByte(files, i, a) == FileByte(old(files), i, a)
      ensures done ==>
        && |files.used| == |old(files.used)| - |Owned(old(files), ino)| && Owned(files, ino) == {}
        && inodes[ino] == Inode(seq(DIRECT + 2, i => 0), 0) && files.size == old(files.size)[ino := 0]
        && forall a: nat :: FileByte(files, ino, a) == 0
      ensures !done ==> files.size == old(files.size)
      ensures !done ==> PartLeft(old(files), files, ino)
    {
      hide FileTree.Inv, InodesTie, RowsTie, DataTie, BitmapTie, FileByte, AfterPass, PartLeft;
      ShrunkRefl(files, ino);
      ghost var own := files.own;
      if i :| 0 <= i < |passes| && Quiet(own, ino, passes[i]) { QuietPassEmpties(own, ino, passes, i); }
      var n := 0;
      assert passes[0..] == passes;
      while n < |passes|
        invariant 0 <= n <= |passes|
        invariant Valid() && inodes.Keys == old(inodes.Keys) && Shrunk(old(files), files, ino)
        invariant AfterPasses(own, ino, passes) == AfterPasses(files.own, ino, passes[n..])
        invariant n > 0 ==> !Gone(files.own, ino)
      {
        ghost var s1 := files;
        assert passes[n..][1..] == passes[n + 1..];
        done := TruncatePass(ino, passes[n]);
        ShrunkTrans(old(files), s1, files, ino);
        if done {
          GoneStays(files.own, ino, passes[n + 1..]);
          SetSizeZero(ino);
          return true;
        }
        n := n + 1;
      }
      PartlyZero(old(files), files, ino);
      return false;
    }

    /** The last step of truncate. */
    method SetSizeZero(ino: nat)
      requires Valid() && ino in inodes && Owned(files, ino) == {}
      modifies this`inodes, this`files
      ensures Valid() && inodes.Keys == old(inodes.Keys) && inodes[ino] == Inode(seq(DIRECT + 2, i => 0), 0)
      ensures files == old(files).(size := old(files.size)[ino := 0]) && SameBytes(old(files), files)
      ensures forall a: nat :: FileByte(files, ino, a) == 0
    {
      hide BitmapTie;
      ghost var m, s := M(), files;
      inodes := inodes[ino := inodes[ino].(size := 0)];
      EmptyInode(m, s, ino);
      SizeKeeps(s, ino, 0);
      files := s.(size := s.size[ino := 0]);
    }
  }
}
