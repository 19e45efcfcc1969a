/**
  Which zone every block of every file occupies: the flat view of the MINIX block
  tree.  A file has 7 direct blocks, 512 under one single indirect block and
  512 * 512 under a double indirect one.
 */
module FileTree {
  import opened Common

  const BLOCK_SIZE: nat := 1024
  const DIRECT: nat := 7
  const FANOUT: nat := 512
  const MAX_BLOCKS: nat := 7 + 512 + 512 * 512

  type Block = seq<int>

  /** A place in the tree of an inode that can hold a zone number. */
  datatype Pos =
    | Direct(ino: nat, i: nat)
    | Single(ino: nat)
    | SingleEntry(ino: nat, i: nat)
    | Double(ino: nat)
    | DoubleEntry(ino: nat, i: nat)
    | Leaf(ino: nat, i: nat, j: nat)

  predicate ValidPos(p: Pos) {
    match p
    case Direct(_, i) => i < DIRECT
    case SingleEntry(_, i) => i < FANOUT
    case DoubleEntry(_, i) => i < FANOUT
    case Leaf(_, i, j) => i < FANOUT && j < FANOUT
    case _ => true
  }

  predicate IsData(p: Pos) { p.Direct? || p.SingleEntry? || p.Leaf? }

  /** The position that must be filled before p can be. */
  function Parent(p: Pos): Option<Pos> {
    match p
    case SingleEntry(n, _) => Some(Single(n))
    case DoubleEntry(n, _) => Some(Double(n))
    case Leaf(n, i, _) => Some(DoubleEntry(n, i))
    case _ => None
  }

  /** p and the index positions that lead to it. */
  function Path(p: Pos): set<Pos> {
    match p
    case SingleEntry(n, _) => {p, Single(n)}
    case DoubleEntry(n, _) => {p, Double(n)}
    case Leaf(n, i, _) => {p, DoubleEntry(n, i), Double(n)}
    case _ => {p}
  }

  /** Where _bmap looks for block n of a file. */
  function PosOf(ino: nat, n: nat): Pos {
    if n < DIRECT then Direct(ino, n)
    else if n - DIRECT < FANOUT then SingleEntry(ino, n - DIRECT)
    else Leaf(ino, (n - DIRECT - FANOUT) / FANOUT, (n - DIRECT - FANOUT) % FANOUT)
  }

  /** The inverse of PosOf. */
  function BlockOf(p: Pos): nat
    requires IsData(p)
  {
    match p
    case Direct(_, i) => i
    case SingleEntry(_, i) => DIRECT + i
    case Leaf(_, i, j) => DIRECT + FANOUT + i * FANOUT + j
  }

  /** The index split is a bijection between block numbers and the data positions of an inode. */
  lemma IndexSplit(ino: nat, n: nat, p: Pos)
    ensures n < MAX_BLOCKS ==> ValidPos(PosOf(ino, n)) && IsData(PosOf(ino, n)) && PosOf(ino, n).ino == ino
    ensures n < MAX_BLOCKS ==> BlockOf(PosOf(ino, n)) == n
    ensures ValidPos(p) && IsData(p) ==> BlockOf(p) < MAX_BLOCKS && PosOf(p.ino, BlockOf(p)) == p
  {
    if p.Leaf? && ValidPos(p) {
      var m := p.i * FANOUT + p.j;
      assert m / FANOUT == p.i && m % FANOUT == p.j;
    }
  }

  datatype Files = Files(
    first: nat,                 // s_firstdatazone
    nzones: nat,                // s_nzones
    own: map<Pos, nat>,         // the zone at every filled position
    used: set<nat>,             // zones whose bitmap bit is set
    data: map<nat, Block>,      // contents of data zones
    size: map<nat, nat>)        // i_size of every inode

  /** Distinct positions occupy distinct zones. */
  ghost predicate Injective(own: map<Pos, nat>) {
    forall p, q :: p in own && q in own && p != q ==> own[p] != own[q]
  }

  ghost predicate Closed(own: map<Pos, nat>) {
    forall p :: p in own ==> ValidPos(p) && (Parent(p).Some? ==> Parent(p).value in own)
  }

  ghost predicate InZones(own: map<Pos, nat>, first: nat, nzones: nat) {
    forall p :: p in own ==> first <= own[p] < nzones
  }

  ghost predicate HasData(own: map<Pos, nat>, data: map<nat, Block>) {
    forall p :: p in own && IsData(p) ==> own[p] in data && |data[own[p]]| == BLOCK_SIZE
  }

  ghost predicate Inv(s: Files) {
    && 1 <= s.first
    && Injective(s.own) && Closed(s.own) && InZones(s.own, s.first, s.nzones) && HasData(s.own, s.data)
    && s.used == s.own.Values
    && (forall p :: p in s.own ==> p.ino in s.size)
  }

  // ----- A file is a sparse byte array

  function FileByte(s: Files, ino: nat, a: nat): int {
    var p := PosOf(ino, a / BLOCK_SIZE);
    if p in s.own && s.own[p] in s.data && a % BLOCK_SIZE < |s.data[s.own[p]]|
    then s.data[s.own[p]][a % BLOCK_SIZE] else 0
  }

  ghost predicate SameBytes(s: Files, s': Files) {
    forall ino, a: nat :: FileByte(s', ino, a) == FileByte(s, ino, a)
  }

  function ZeroBlock(): Block { seq(BLOCK_SIZE, i => 0) }

  /** new_block, and the word of the tree that names the new zone. */
  function Grow(s: Files, p: Pos, z: nat): Files {
    s.(own := s.own[p := z], used := s.used + {z}, data := if IsData(p) then s.data[z := ZeroBlock()] else s.data)
  }

  lemma ValuesGrow(own: map<Pos, nat>, p: Pos, z: nat)
    requires p !in own
    ensures own[p := z].Values == own.Values + {z}
  {
    assert own[p := z][p] == z;
    forall y | y in own.Values ensures y in own[p := z].Values {
      var q :| q in own && own[q] == y;
      assert own[p := z][q] == y;
    }
  }

  lemma GrowTree(own: map<Pos, nat>, first: nat, nzones: nat, p: Pos, z: nat)
    requires Injective(own) && Closed(own) && InZones(own, first, nzones) && z !in own.Values
    requires ValidPos(p) && (Parent(p).Some? ==> Parent(p).value in own) && first <= z < nzones
    ensures Injective(own[p := z]) && Closed(own[p := z]) && InZones(own[p := z], first, nzones)
  {
    forall q | q in own ensures own[q] != z { assert own[q] in own.Values; }
  }

  lemma GrowBytes(s: Files, p: Pos, z: nat)
    requires HasData(s.own, s.data) && p !in s.own && z !in s.own.Values
    ensures HasData(s.own[p := z], Grow(s, p, z).data) && SameBytes(s, Grow(s, p, z))
  {
    forall q | q in s.own ensures s.own[q] != z { assert s.own[q] in s.own.Values; }
    var s' := Grow(s, p, z);
    forall ino, a: nat ensures FileByte(s', ino, a) == FileByte(s, ino, a) {
      hide PosOf;
    }
  }

  lemma GrowKeeps(s: Files, p: Pos, z: nat)
    requires Inv(s) && p !in s.own && ValidPos(p) && (Parent(p).Some? ==> Parent(p).value in s.own)
    requires s.first <= z < s.nzones && z !in s.used && p.ino in s.size
    ensures Inv(Grow(s, p, z)) && SameBytes(s, Grow(s, p, z)) && |Grow(s, p, z).used| == |s.used| + 1
  {
    hide Injective, Closed, InZones, HasData, FileByte, ValidPos, Parent;
    ValuesGrow(s.own, p, z);
    GrowTree(s.own, s.first, s.nzones, p, z);
    GrowBytes(s, p, z);
  }

  /** free_block, and the word of the tree that is then cleared. */
  function Cut(s: Files, p: Pos): Files
    requires p in s.own
  {
    s.(own := s.own - {p}, used := s.used - {s.own[p]})
  }

  ghost predicate NoChild(own: map<Pos, nat>, p: Pos) {
    forall q :: q in own ==> Parent(q) != Some(p)
  }

  lemma ValuesCut(own: map<Pos, nat>, p: Pos)
    requires p in own && Injective(own)
    ensures (own - {p}).Values == own.Values - {own[p]} && own[p] in own.Values
  {
    var own' := own - {p};
    forall y | y in own.Values && y != own[p] ensures y in own'.Values {
      var q :| q in own && own[q] == y;
      assert own'[q] == y;
    }
    forall y | y in own'.Values ensures y in own.Values && y != own[p] {
      var q :| q in own' && own'[q] == y;
      assert own[q] == y && q != p;
    }
  }

  lemma CutTree(own: map<Pos, nat>, data: map<nat, Block>, first: nat, nzones: nat, p: Pos)
    requires Injective(own) && Closed(own) && InZones(own, first, nzones) && NoChild(own, p) && HasData(own, data)
    ensures var own' := own - {p};
            Injective(own') && Closed(own') && InZones(own', first, nzones) && HasData(own', data)
  {
  }

  lemma CutBytes(s: Files, p: Pos)
    requires p in s.own
    ensures !IsData(p) ==> SameBytes(s, Cut(s, p))
    ensures forall ino, a: nat :: ino != p.ino ==> FileByte(Cut(s, p), ino, a) == FileByte(s, ino, a)
  {
    var s' := Cut(s, p);
    forall ino, a: nat | ino != p.ino || !IsData(p) ensures FileByte(s', ino, a) == FileByte(s, ino, a) {
      assert PosOf(ino, a / BLOCK_SIZE).ino == ino && IsData(PosOf(ino, a / BLOCK_SIZE));
      hide PosOf;
    }
  }

  lemma CutKeeps(s: Files, p: Pos)
    requires Inv(s) && p in s.own && NoChild(s.own, p)
    ensures Inv(Cut(s, p)) && |Cut(s, p).used| == |s.used| - 1
    ensures !IsData(p) ==> SameBytes(s, Cut(s, p))
    ensures forall ino, a: nat :: ino != p.ino ==> FileByte(Cut(s, p), ino, a) == FileByte(s, ino, a)
  {
    hide Injective, Closed, InZones, HasData, FileByte, NoChild;
    ValuesCut(s.own, p);
    CutTree(s.own, s.data, s.first, s.nzones, p);
    CutBytes(s, p);
  }

  /** A data block of the file is overwritten. */
  function Put(s: Files, p: Pos, b: Block): Files
    requires p in s.own
  {
    s.(data := s.data[s.own[p] := b])
  }

  lemma PutKeeps(s: Files, ino: nat, n: nat, b: Block)
    requires Inv(s) && n < MAX_BLOCKS && PosOf(ino, n) in s.own && |b| == BLOCK_SIZE
    ensures Inv(Put(s, PosOf(ino, n), b))
    ensures forall i, a: nat :: FileByte(Put(s, PosOf(ino, n), b), i, a) ==
              if i == ino && a / BLOCK_SIZE == n then b[a % BLOCK_SIZE] else FileByte(s, i, a)
  {
    var p := PosOf(ino, n);
    var s' := Put(s, p, b);
    forall i, a: nat
      ensures FileByte(s', i, a) == if i == ino && a / BLOCK_SIZE == n then b[a % BLOCK_SIZE] else FileByte(s, i, a) {
      var q := PosOf(i, a / BLOCK_SIZE);
      if q in s.own && q == p { PosInjective(i, a / BLOCK_SIZE, ino, n); }
    }
  }

  lemma PosInjective(i: nat, m: nat, ino: nat, n: nat)
    requires PosOf(i, m) == PosOf(ino, n)
    ensures i == ino && m == n
  {
  }

  /** All zones that belong to an inode. */
  function Owned(s: Files, ino: nat): set<Pos> {
    set p | p in s.own && p.ino == ino
  }
}
