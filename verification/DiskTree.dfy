/**
  The block tree as it lies in inodes and on disk: nine zone numbers per inode, and
  indirect blocks of 512 zone numbers.  Zero stands for a missing block.
 */
module DiskTree {
  import opened Common
  import opened FileTree

  /** A zone holds file data or serves as an indirect block. */
  datatype Content = Data(block: Block) | Index(row: seq<nat>)

  datatype Inode = Inode(zone: seq<nat>, size: nat)

  datatype Store = Store(inodes: map<nat, Inode>, disk: map<nat, Content>)

  function At(own: map<Pos, nat>, p: Pos): nat { if p in own then own[p] else 0 }

  /** The position that i_zone[i] stands for. */
  function RootPos(ino: nat, i: nat): Pos {
    if i < DIRECT then Direct(ino, i) else if i == DIRECT then Single(ino) else Double(ino)
  }

  /** The position that word j of the indirect block at p stands for. */
  function Child(p: Pos, j: nat): Pos
    requires !IsData(p)
  {
    match p
    case Single(n) => SingleEntry(n, j)
    case Double(n) => DoubleEntry(n, j)
    case DoubleEntry(n, i) => Leaf(n, i, j)
  }

  ghost predicate InodeTie(node: Inode, ino: nat, own: map<Pos, nat>, size: map<nat, nat>) {
    && |node.zone| == DIRECT + 2 && ino in size && node.size == size[ino]
    && forall i: nat :: i < DIRECT + 2 ==> node.zone[i] == At(own, RootPos(ino, i))
  }

  ghost predicate RowTie(c: Content, p: Pos, own: map<Pos, nat>)
    requires !IsData(p)
  {
    && c.Index? && |c.row| == FANOUT
    && forall j: nat :: j < FANOUT ==> c.row[j] == At(own, Child(p, j))
  }

  ghost predicate InodesTie(inodes: map<nat, Inode>, own: map<Pos, nat>, size: map<nat, nat>) {
    && inodes.Keys == size.Keys
    && forall ino :: ino in inodes ==> InodeTie(inodes[ino], ino, own, size)
  }

  ghost predicate RowsTie(disk: map<nat, Content>, own: map<Pos, nat>) {
    forall p :: p in own && !IsData(p) ==> own[p] in disk && RowTie(disk[own[p]], p, own)
  }

  ghost predicate DataTie(disk: map<nat, Content>, own: map<Pos, nat>, data: map<nat, Block>) {
    forall p :: p in own && IsData(p) ==> own[p] in disk && own[p] in data && disk[own[p]] == Data(data[own[p]])
  }

  ghost predicate Tied(m: Store, s: Files) {
    InodesTie(m.inodes, s.own, s.size) && RowsTie(m.disk, s.own) && DataTie(m.disk, s.own, s.data)
  }

  function Fresh(p: Pos): Content {
    if IsData(p) then Data(ZeroBlock()) else Index(seq(FANOUT, j => 0))
  }

  /** The word at p: in the inode, or in the indirect block of its parent. */
  function SetWord(m: Store, s: Files, p: Pos, z: nat): Store
    requires ValidPos(p)
    requires Parent(p).None? ==> p.ino in m.inodes && |m.inodes[p.ino].zone| == DIRECT + 2
    requires Parent(p).Some? ==>
      && Parent(p).value in s.own && s.own[Parent(p).value] in m.disk
      && m.disk[s.own[Parent(p).value]].Index? && |m.disk[s.own[Parent(p).value]].row| == FANOUT
  {
    match p
    case Direct(n, i) => m.(inodes := m.inodes[n := m.inodes[n].(zone := m.inodes[n].zone[i := z])])
    case Single(n) => m.(inodes := m.inodes[n := m.inodes[n].(zone := m.inodes[n].zone[DIRECT := z])])
    case Double(n) => m.(inodes := m.inodes[n := m.inodes[n].(zone := m.inodes[n].zone[DIRECT + 1 := z])])
    case SingleEntry(n, i) => SetRow(m, s.own[Single(n)], i, z)
    case DoubleEntry(n, i) => SetRow(m, s.own[Double(n)], i, z)
    case Leaf(n, i, j) => SetRow(m, s.own[DoubleEntry(n, i)], j, z)
  }

  function SetRow(m: Store, b: nat, i: nat, z: nat): Store
    requires b in m.disk && m.disk[b].Index? && i < |m.disk[b].row|
  {
    m.(disk := m.disk[b := Index(m.disk[b].row[i := z])])
  }

  lemma CanSet(m: Store, s: Files, p: Pos)
    requires Inv(s) && Tied(m, s) && ValidPos(p) && p.ino in s.size
    requires Parent(p).Some? ==> Parent(p).value in s.own
    ensures Parent(p).None? ==> p.ino in m.inodes && |m.inodes[p.ino].zone| == DIRECT + 2
    ensures Parent(p).Some? ==>
      && s.own[Parent(p).value] in m.disk
      && m.disk[s.own[Parent(p).value]].Index? && |m.disk[s.own[Parent(p).value]].row| == FANOUT
  {
    hide Inv;
    if Parent(p).Some? { assert RowTie(m.disk[s.own[Parent(p).value]], Parent(p).value, s.own); }
    else { assert InodeTie(m.inodes[p.ino], p.ino, s.own, s.size); }
  }

  /** own after the word at p becomes z. */
  function SetOwn(own: map<Pos, nat>, p: Pos, z: nat): map<Pos, nat> {
    if z == 0 then own - {p} else own[p := z]
  }

  lemma InodesAfter(m: Store, s: Files, p: Pos, z: nat)
    requires Inv(s) && Tied(m, s) && ValidPos(p) && p.ino in s.size && (Parent(p).Some? ==> Parent(p).value in s.own)
    ensures Parent(p).None? ==> p.ino in m.inodes && |m.inodes[p.ino].zone| == DIRECT + 2
    ensures Parent(p).Some? ==>
      && s.own[Parent(p).value] in m.disk
      && m.disk[s.own[Parent(p).value]].Index? && |m.disk[s.own[Parent(p).value]].row| == FANOUT
    ensures InodesTie(SetWord(m, s, p, z).inodes, SetOwn(s.own, p, z), s.size)
  {
    CanSet(m, s, p);
    hide RowsTie, DataTie, Inv;
    var m' := SetWord(m, s, p, z);
    var own' := SetOwn(s.own, p, z);
    forall ino | ino in m'.inodes ensures InodeTie(m'.inodes[ino], ino, own', s.size) {
      assert InodeTie(m.inodes[ino], ino, s.own, s.size);
      if Parent(p).None? && ino == p.ino {
        RootAfter(m.inodes[ino], s.own, s.size, p, z);
      } else {
        forall i: nat | i < DIRECT + 2 ensures RootPos(ino, i) != p { }
      }
    }
  }

  /** Storing a word of the inode itself. */
  lemma RootAfter(node: Inode, own: map<Pos, nat>, size: map<nat, nat>, p: Pos, z: nat)
    requires InodeTie(node, p.ino, own, size) && ValidPos(p) && Parent(p).None?
    ensures RootIndex(p) < |node.zone|
    ensures InodeTie(node.(zone := node.zone[RootIndex(p) := z]), p.ino, SetOwn(own, p, z), size)
  {
    forall i: nat | i < DIRECT + 2 ensures RootPos(p.ino, i) == p <==> i == RootIndex(p) { }
  }

  lemma RowsAfter(m: Store, s: Files, p: Pos, z: nat)
    requires Inv(s) && Tied(m, s) && ValidPos(p) && p.ino in s.size && (Parent(p).Some? ==> Parent(p).value in s.own)
    ensures Parent(p).None? ==> p.ino in m.inodes && |m.inodes[p.ino].zone| == DIRECT + 2
    ensures Parent(p).Some? ==>
      && s.own[Parent(p).value] in m.disk
      && m.disk[s.own[Parent(p).value]].Index? && |m.disk[s.own[Parent(p).value]].row| == FANOUT
    ensures forall q :: q in s.own && !IsData(q) ==>
      s.own[q] in SetWord(m, s, p, z).disk && RowTie(SetWord(m, s, p, z).disk[s.own[q]], q, SetOwn(s.own, p, z))
  {
    CanSet(m, s, p);
    hide InodesTie, DataTie, Closed, InZones, HasData;
    var m' := SetWord(m, s, p, z);
    var own' := SetOwn(s.own, p, z);
    forall q | q in s.own && !IsData(q) ensures s.own[q] in m'.disk && RowTie(m'.disk[s.own[q]], q, own') {
      assert RowTie(m.disk[s.own[q]], q, s.own);
      forall j: nat | j < FANOUT ensures Child(q, j) == p <==> Parent(p) == Some(q) && j == WordOf(p) { }
    }
  }

  /** The index of p's word in its parent block. */
  function WordOf(p: Pos): nat {
    match p
    case SingleEntry(_, i) => i
    case DoubleEntry(_, i) => i
    case Leaf(_, _, j) => j
    case _ => 0
  }

  lemma DataAfter(m: Store, s: Files, p: Pos, z: nat)
    requires Inv(s) && Tied(m, s) && ValidPos(p) && p.ino in s.size && (Parent(p).Some? ==> Parent(p).value in s.own)
    ensures Parent(p).None? ==> p.ino in m.inodes && |m.inodes[p.ino].zone| == DIRECT + 2
    ensures Parent(p).Some? ==>
      && s.own[Parent(p).value] in m.disk
      && m.disk[s.own[Parent(p).value]].Index? && |m.disk[s.own[Parent(p).value]].row| == FANOUT
    ensures DataTie(SetWord(m, s, p, z).disk, s.own, s.data)
  {
    CanSet(m, s, p);
    hide InodesTie, RowsTie, Closed, InZones, HasData;
  }

  /** Clearing a zone that belongs to no file changes nothing. */
  lemma FreshTied(m: Store, s: Files, z: nat, c: Content)
    requires Tied(m, s) && z !in s.own.Values
    ensures Tied(m.(disk := m.disk[z := c]), s)
  {
    forall q | q in s.own ensures s.own[q] != z { assert s.own[q] in s.own.Values; }
    hide InodesTie, RowTie;
  }

  lemma NoChildYet(own: map<Pos, nat>, p: Pos)
    requires Closed(own) && p !in own && !IsData(p)
    ensures forall j: nat :: At(own, Child(p, j)) == 0
  {
    forall j: nat ensures Child(p, j) !in own { assert Parent(Child(p, j)) == Some(p); }
  }

  function GrowStore(m: Store, s: Files, p: Pos, z: nat): Store
    requires Inv(s) && Tied(m, s) && ValidPos(p) && p.ino in s.size && (Parent(p).Some? ==> Parent(p).value in s.own)
    requires z !in s.own.Values
  {
    var m1 := m.(disk := m.disk[z := Fresh(p)]);
    FreshTied(m, s, z, Fresh(p));
    CanSet(m1, s, p);
    SetWord(m1, s, p, z)
  }

  lemma GrowTied(m: Store, s: Files, p: Pos, z: nat)
    requires Inv(s) && Tied(m, s) && ValidPos(p) && p.ino in s.size && p !in s.own
    requires Parent(p).Some? ==> Parent(p).value in s.own
    requires s.first <= z < s.nzones && z !in s.used
    ensures Tied(GrowStore(m, s, p, z), Grow(s, p, z))
  {
    var m1 := m.(disk := m.disk[z := Fresh(p)]);
    FreshTied(m, s, z, Fresh(p));
    InodesAfter(m1, s, p, z);
    RowsAfter(m1, s, p, z);
    DataAfter(m1, s, p, z);
    var m', s' := GrowStore(m, s, p, z), Grow(s, p, z);
    FreshWord(m1, s, p, z);
    forall q | q in s'.own && !IsData(q) ensures s'.own[q] in m'.disk && RowTie(m'.disk[s'.own[q]], q, s'.own) {
      hide InodesTie, RowsTie, DataTie, Inv, SetWord;
      if q == p { NewRow(s, p, z); }
    }
    GrowData(m', s, p, z);
  }

  lemma NewRow(s: Files, p: Pos, z: nat)
    requires Inv(s) && p !in s.own && !IsData(p)
    ensures RowTie(Fresh(p), p, s.own[p := z])
  {
    NoChildYet(s.own, p);
    forall j: nat ensures Child(p, j) != p { }
  }

  lemma FreshWord(m1: Store, s: Files, p: Pos, z: nat)
    requires Inv(s) && Tied(m1, s) && ValidPos(p) && p.ino in s.size && (Parent(p).Some? ==> Parent(p).value in s.own)
    requires z !in s.own.Values && z in m1.disk
    ensures Parent(p).None? ==> p.ino in m1.inodes && |m1.inodes[p.ino].zone| == DIRECT + 2
    ensures Parent(p).Some? ==>
      && s.own[Parent(p).value] in m1.disk
      && m1.disk[s.own[Parent(p).value]].Index? && |m1.disk[s.own[Parent(p).value]].row| == FANOUT
    ensures z in SetWord(m1, s, p, z).disk && SetWord(m1, s, p, z).disk[z] == m1.disk[z]
  {
    CanSet(m1, s, p);
    if Parent(p).Some? { assert s.own[Parent(p).value] in s.own.Values; }
  }

  lemma GrowData(m': Store, s: Files, p: Pos, z: nat)
    requires DataTie(m'.disk, s.own, s.data) && z !in s.own.Values && z in m'.disk && m'.disk[z] == Fresh(p)
             && p !in s.own
    ensures DataTie(m'.disk, Grow(s, p, z).own, Grow(s, p, z).data)
  {
    forall q | q in s.own ensures s.own[q] != z { assert s.own[q] in s.own.Values; }
  }

  function CutStore(m: Store, s: Files, p: Pos): Store
    requires Inv(s) && Tied(m, s) && p in s.own
  {
    CanSet(m, s, p);
    SetWord(m, s, p, 0)
  }

  lemma CutTied(m: Store, s: Files, p: Pos)
    requires Inv(s) && Tied(m, s) && p in s.own
    ensures Tied(CutStore(m, s, p), Cut(s, p))
  {
    assert ValidPos(p) && p.ino in s.size && (Parent(p).Some? ==> Parent(p).value in s.own);
    InodesAfter(m, s, p, 0);
    RowsAfter(m, s, p, 0);
    DataAfter(m, s, p, 0);
    hide InodesTie, RowTie, Inv, SetWord;
  }

  lemma PutTied(m: Store, s: Files, p: Pos, b: Block)
    requires Inv(s) && Tied(m, s) && p in s.own && IsData(p)
    ensures Tied(m.(disk := m.disk[s.own[p] := Data(b)]), Put(s, p, b))
  {
    hide InodesTie, RowTie;
  }

  // ----- Reading the tree

  /** The zone number stored for position p. */
  function Word(m: Store, s: Files, p: Pos): nat
    requires Inv(s) && Tied(m, s) && ValidPos(p) && p.ino in s.size && (Parent(p).Some? ==> Parent(p).value in s.own)
  {
    CanSet(m, s, p);
    match p
    case Direct(n, i) => m.inodes[n].zone[i]
    case Single(n) => m.inodes[n].zone[DIRECT]
    case Double(n) => m.inodes[n].zone[DIRECT + 1]
    case SingleEntry(n, i) => m.disk[s.own[Single(n)]].row[i]
    case DoubleEntry(n, i) => m.disk[s.own[Double(n)]].row[i]
    case Leaf(n, i, j) => m.disk[s.own[DoubleEntry(n, i)]].row[j]
  }

  /** Which of the inode's words a position without a parent is. */
  function RootIndex(p: Pos): nat {
    match p
    case Direct(_, i) => i
    case Single(_) => DIRECT
    case _ => DIRECT + 1
  }

  lemma WordIsZone(m: Store, s: Files, p: Pos)
    requires Inv(s) && Tied(m, s) && ValidPos(p) && p.ino in s.size && (Parent(p).Some? ==> Parent(p).value in s.own)
    ensures Word(m, s, p) == At(s.own, p)
    ensures p in s.own <==> At(s.own, p) != 0
  {
    CanSet(m, s, p);
    if Parent(p).Some? {
      var q := Parent(p).value;
      assert RowTie(m.disk[s.own[q]], q, s.own);
      assert Child(q, WordOf(p)) == p;
    } else {
      assert InodeTie(m.inodes[p.ino], p.ino, s.own, s.size);
      assert p == RootPos(p.ino, RootIndex(p));
    }
  }

  // ----- The tree without its positions

  lemma RowWord(m: Store, s: Files, p: Pos, i: nat)
    requires Inv(s) && Tied(m, s) && !IsData(p) && i < 512
    ensures var b := At(s.own, p);
            if b == 0 then At(s.own, Child(p, i)) == 0
            else b in m.disk && m.disk[b].Index? && |m.disk[b].row| == 512 && At(s.own, Child(p, i)) == m.disk[b].row[i]
  {
    if p in s.own {
      assert RowTie(m.disk[s.own[p]], p, s.own);
    } else {
      assert Parent(Child(p, i)) == Some(p);
    }
  }

  lemma RootWord(m: Store, s: Files, ino: nat, i: nat)
    requires Tied(m, s) && ino in m.inodes && i < 9
    ensures |m.inodes[ino].zone| == 9 && m.inodes[ino].zone[i] == At(s.own, RootPos(ino, i))
  {
    assert InodeTie(m.inodes[ino], ino, s.own, s.size);
  }

  lemma DirectPos(ino: nat, n: nat)
    requires n < 7
    ensures PosOf(ino, n) == RootPos(ino, n)
  {
  }

  /** The zone of a block with one indirect block before it. */
  lemma SingleOnDisk(m: Store, s: Files, ino: nat, n: nat)
    requires Inv(s) && Tied(m, s) && ino in m.inodes && 7 <= n < 519
    ensures |m.inodes[ino].zone| == 9
    ensures var b, z := m.inodes[ino].zone[7], At(s.own, PosOf(ino, n));
            if b == 0 then z == 0
            else b in m.disk && m.disk[b].Index? && |m.disk[b].row| == 512 && z == m.disk[b].row[n - 7]
  {
    hide Inv, Tied;
    RootWord(m, s, ino, 7);
    RowWord(m, s, Single(ino), n - 7);
  }

  /** The zone of a block with two indirect blocks before it. */
  lemma DoubleOnDisk(m: Store, s: Files, ino: nat, n: nat)
    requires Inv(s) && Tied(m, s) && ino in m.inodes && 519 <= n < 519 + 512 * 512
    ensures |m.inodes[ino].zone| == 9
    ensures var b, z := m.inodes[ino].zone[8], At(s.own, PosOf(ino, n));
            if b == 0 then z == 0
            else
              && b in m.disk && m.disk[b].Index? && |m.disk[b].row| == 512
              && var c := m.disk[b].row[(n - 519) / 512];
                 if c == 0 then z == 0
                 else c in m.disk && m.disk[c].Index? && |m.disk[c].row| == 512 && z == m.disk[c].row[(n - 519) % 512]
  {
    hide Inv, Tied;
    RootWord(m, s, ino, 8);
    RowWord(m, s, Double(ino), (n - 519) / 512);
    RowWord(m, s, DoubleEntry(ino, (n - 519) / 512), (n - 519) % 512);
  }

  /** What a file holds at a position is what its zone holds on disk. */
  lemma ByteOnDisk(m: Store, s: Files, ino: nat, a: nat)
    requires Inv(s) && Tied(m, s) && ino in m.inodes && a / 1024 < MAX_BLOCKS
    ensures var z := At(s.own, PosOf(ino, a / 1024));
            if z == 0 then FileByte(s, ino, a) == 0
            else
              && z in m.disk && m.disk[z].Data? && |m.disk[z].block| == 1024
              && FileByte(s, ino, a) == m.disk[z].block[a % 1024]
  {
    var p := PosOf(ino, a / 1024);
    IndexSplit(ino, a / 1024, p);
    hide InodesTie, RowsTie, PosOf, Closed, Injective;
  }
}
