/**
  Whole runs of file operations against the specification: independent sparse byte
  arrays, one per inode.
 */
module FileRuns {
  import opened Common
  import opened FileTree
  import opened DiskTree
  import opened Truncation
  import opened FileSystem

  /** A byte for every inode and offset, the sizes, the zones that hold the blocks, and whether none is free. */
  datatype Contents = Contents(bytes: imap<(nat, nat), int>, size: map<nat, nat>, own: map<Pos, nat>, full: bool)

  ghost function Abs(s: Files): Contents {
    Contents(imap k: (nat, nat) | true :: FileByte(s, k.0, k.1), s.size, s.own, Full(s))
  }

  datatype Op =
    | Read(ino: nat, pos: nat, count: int)
    | Write(ino: nat, append: bool, pos: nat, buf: seq<int>)
    | Truncate(ino: nat, passes: seq<set<nat>>)   // the zones in use during each pass

  datatype Answer =
    | Refused                             // no such inode, or beyond the largest file
    | Bytes(data: seq<int>, newPos: nat)
    | Stored(count: nat, newPos: nat)
    | Emptied
    | StillBusy

  ghost predicate Total(c: Contents) {
    forall k: (nat, nat) :: k in c.bytes
  }

  /** The operation reaches beyond the largest file. */
  predicate Beyond(size: map<nat, nat>, op: Op) {
    match op
    case Read(_, pos, count) => count > 0 && pos + count > MAX_BLOCKS * BLOCK_SIZE
    case Write(ino, append, pos, buf) =>
      ino in size && (if append then size[ino] else pos) + |buf| > MAX_BLOCKS * BLOCK_SIZE
    case Truncate(_, _) => false
  }

  /** What an operation on byte arrays may answer and leave behind. */
  ghost predicate Allowed(c: Contents, op: Op, ans: Answer, c': Contents)
    requires Total(c) && Total(c')
  {
    match ans
    case Refused => c' == c && (op.ino !in c.size || Beyond(c.size, op))
    case Bytes(data, newPos) =>
      && op.Read? && op.ino in c.size && c' == c && |data| == (if op.count < 0 then 0 else op.count)
         && newPos == op.pos + |data|
      && forall i :: 0 <= i < |data| ==> data[i] == c.bytes[(op.ino, op.pos + i)]
    case Stored(n, newPos) =>
      && op.Write? && op.ino in c.size && n <= |op.buf| && (n < |op.buf| ==> c'.full)
      && var start := if op.append then c.size[op.ino] else op.pos;
      && newPos == (if op.append then op.pos else start + n)
      && c'.size == c.size[op.ino := if n == 0 then c.size[op.ino] else Max(c.size[op.ino], start + n)]
      && Filled(c.own, c'.own, op.ino, start / BLOCK_SIZE, (start + n) / BLOCK_SIZE)
      && forall k: (nat, nat) :: c'.bytes[k] ==
           if k.0 == op.ino && start <= k.1 < start + n then op.buf[k.1 - start] else c.bytes[k]
    case Emptied =>
      && op.Truncate? && op.ino in c.size && op.passes != [] && c'.size == c.size[op.ino := 0]
      && c'.own == AfterPasses(c.own, op.ino, op.passes) && Gone(c'.own, op.ino)
      && forall k: (nat, nat) :: c'.bytes[k] == if k.0 == op.ino then 0 else c.bytes[k]
    case StillBusy =>
      && op.Truncate? && op.ino in c.size && c'.size == c.size
      && c'.own == AfterPasses(c.own, op.ino, op.passes) && (op.passes == [] || !Gone(c'.own, op.ino))
      && forall k: (nat, nat) :: c'.bytes[k] ==
           if k.0 == op.ino && PosOf(op.ino, k.1 / BLOCK_SIZE) !in c'.own then 0 else c.bytes[k]
  }

  /** A truncation ends busy only if some zone of the inode was in use during every pass. */
  lemma BusyThroughout(c: Contents, op: Op, c': Contents, i: nat)
    requires Total(c) && Total(c') && Allowed(c, op, StillBusy, c') && i < |op.passes|
    ensures exists q :: q in c.own && q.ino == op.ino && c.own[q] in op.passes[i]
  {
    if Quiet(c.own, op.ino, op.passes[i]) { QuietPassEmpties(c.own, op.ino, op.passes, i); }
  }

  /** A zone that is in use throughout holds the truncation up. */
  lemma {:induction false} HeldUp(own: map<Pos, nat>, ino: nat, passes: seq<set<nat>>, q: Pos)
    requires q in own && q.ino == ino && forall i :: 0 <= i < |passes| ==> own[q] in passes[i]
    ensures q in AfterPasses(own, ino, passes) && !Gone(AfterPasses(own, ino, passes), ino)
    decreases |passes|
  {
    if passes != [] {
      assert Stays(own, passes[0], q) by { assert q in Path(q); }
      HeldUp(AfterPass(own, ino, passes[0]), ino, passes[1..], q);
    }
  }

  lemma AbsTotal(s: Files)
    ensures Total(Abs(s)) && forall i, a: nat :: Abs(s).bytes[(i, a)] == FileByte(s, i, a)
  {
    hide FileByte;
  }

  lemma WriteAllowed(s: Files, s': Files, op: Op, n: nat, newPos: nat)
    requires op.Write? && op.ino in s.size && n <= |op.buf|
    requires var start := if op.append then s.size[op.ino] else op.pos;
             Written(s, s', op.ino, start, op.buf[..n]) && (n < |op.buf| ==> Full(s'))
               && newPos == if op.append then op.pos else start + n
    ensures Total(Abs(s)) && Total(Abs(s')) && Allowed(Abs(s), op, Stored(n, newPos), Abs(s'))
  {
    hide FileByte;
    AbsTotal(s);
    AbsTotal(s');
  }

  lemma LeftAllowed(s: Files, s': Files, op: Op)
    requires op.Truncate? && op.ino in s.size && s'.size == s.size && PartLeft(s, s', op.ino)
    requires s'.own == AfterPasses(s.own, op.ino, op.passes) && (op.passes == [] || !Gone(s'.own, op.ino))
    requires forall i, a: nat :: i != op.ino ==> FileByte(s', i, a) == FileByte(s, i, a)
    ensures Total(Abs(s)) && Total(Abs(s')) && Allowed(Abs(s), op, StillBusy, Abs(s'))
  {
    hide FileByte, PosOf, Gone;
    AbsTotal(s);
    AbsTotal(s');
  }

  /** One operation, on any inode. */
  method Perform(fs: MinixFs, op: Op) returns (ans: Answer)
    requires fs.Valid()
    modifies fs, fs.zmap
    ensures fs.Valid() && fs.inodes.Keys == old(fs.inodes.Keys)
    ensures Total(old(Abs(fs.files))) && Total(Abs(fs.files)) && Allowed(old(Abs(fs.files)), op, ans, Abs(fs.files))
  {
    hide FileTree.Inv, Tied, BitmapTie, FileByte;
    ghost var s := fs.files;
    AbsTotal(s);
    KeysTied(fs.M(), s);
    if op.ino in fs.inodes { SizeRead(fs.M(), s, op.ino); }
    ans := Refused;
    match op
    case Read(ino, pos, count) =>
      if ino in fs.inodes && (count > 0 ==> pos + count <= MAX_BLOCKS * BLOCK_SIZE) {
        var data, p := fs.FileRead(ino, pos, count);
        ans := Bytes(data, p);
      }
    case Write(ino, append, pos, buf) =>
      if ino in fs.inodes && (if append then fs.inodes[ino].size else pos) + |buf| <= MAX_BLOCKS * BLOCK_SIZE {
        var r, p := fs.FileWrite(ino, append, pos, buf);
        var n := if r == -1 then 0 else r;
        WriteAllowed(s, fs.files, op, n, p);
        ans := Stored(n, p);
      }
    case Truncate(ino, passes) =>
      if ino in fs.inodes {
        var done := fs.Truncate(ino, passes);
        AbsTotal(fs.files);
        if !done { LeftAllowed(s, fs.files, op); }
        ans := if done then Emptied else StillBusy;
      }
  }

  /** Any sequence of reads, writes and truncations behaves as on independent byte arrays. */
  method Run(fs: MinixFs, ops: seq<Op>) returns (answers: seq<Answer>, ghost trace: seq<Contents>)
    requires fs.Valid()
    modifies fs, fs.zmap
    ensures fs.Valid() && |answers| == |ops| && |trace| == |ops| + 1
    ensures trace[0] == old(Abs(fs.files)) && trace[|ops|] == Abs(fs.files)
    ensures forall i :: 0 <= i < |trace| ==> Total(trace[i])
    ensures forall i :: 0 <= i < |ops| ==> Allowed(trace[i], ops[i], answers[i], trace[i + 1])
  {
    hide FileTree.Inv, Tied, BitmapTie, FileByte, Abs, Total, Allowed;
    AbsTotal(fs.files);
    answers, trace := [], [Abs(fs.files)];
    var n := 0;
    while n < |ops|
      invariant 0 <= n <= |ops| && |answers| == n && |trace| == n + 1 && fs.Valid()
      invariant trace[0] == old(Abs(fs.files)) && trace[n] == Abs(fs.files)
      invariant forall i :: 0 <= i < |trace| ==> Total(trace[i])
      invariant forall i :: 0 <= i < n ==> Allowed(trace[i], ops[i], answers[i], trace[i + 1])
    {
      var ans := Perform(fs, ops[n]);
      answers, trace := answers + [ans], trace + [Abs(fs.files)];
      n := n + 1;
    }
  }
}
