/**
  What truncation leaves of a file's tree when some of its zones are in use by other tasks:
  fs/truncate.c on the positions of FileTree.
 */
module Truncation {
  import opened Common
  import opened FileTree
  import opened DiskTree

  /** Position q survives a pass in which the zones of busy are in use: it holds one of them, or leads to one. */
  ghost predicate Stays(own: map<Pos, nat>, busy: set<nat>, q: Pos) {
    exists r :: r in own && own[r] in busy && q in Path(r)
  }

  /** The tree after a pass over inode ino. */
  ghost function AfterPass(own: map<Pos, nat>, ino: nat, busy: set<nat>): map<Pos, nat> {
    map q | q in own && (q.ino == ino ==> Stays(own, busy, q)) :: own[q]
  }

  /** The tree after passes with these zones in use, one set for each pass. */
  ghost function AfterPasses(own: map<Pos, nat>, ino: nat, passes: seq<set<nat>>): map<Pos, nat> {
    if passes == [] then own else AfterPasses(AfterPass(own, ino, passes[0]), ino, passes[1..])
  }

  ghost predicate Gone(own: map<Pos, nat>, ino: nat) {
    forall q :: q in own ==> q.ino != ino
  }

  /** No zone of the inode is in use. */
  ghost predicate Quiet(own: map<Pos, nat>, ino: nat, busy: set<nat>) {
    forall r :: r in own && r.ino == ino ==> own[r] !in busy
  }

  lemma {:induction false} GoneStays(own: map<Pos, nat>, ino: nat, passes: seq<set<nat>>)
    requires Gone(own, ino)
    ensures AfterPasses(own, ino, passes) == own
    decreases |passes|
  {
    if passes != [] {
      assert AfterPass(own, ino, passes[0]) == own;
      GoneStays(own, ino, passes[1..]);
    }
  }

  lemma {:induction false} PassesShrink(own: map<Pos, nat>, ino: nat, passes: seq<set<nat>>)
    ensures forall q :: q in AfterPasses(own, ino, passes) ==> q in own && AfterPasses(own, ino, passes)[q] == own[q]
    decreases |passes|
  {
    if passes != [] { PassesShrink(AfterPass(own, ino, passes[0]), ino, passes[1..]); }
  }

  /** A pass in which no zone of the inode is in use leaves nothing of it. */
  lemma {:induction false} QuietPassEmpties(own: map<Pos, nat>, ino: nat, passes: seq<set<nat>>, i: nat)
    requires i < |passes| && Quiet(own, ino, passes[i])
    ensures Gone(AfterPasses(own, ino, passes), ino)
    decreases |passes|
  {
    var own' := AfterPass(own, ino, passes[0]);
    if i == 0 {
      assert Gone(own', ino);
      GoneStays(own', ino, passes[1..]);
    } else {
      QuietPassEmpties(own', ino, passes[1..], i - 1);
    }
  }

  /**
    What one pass leaves of the inode: a data block that is in use, the single indirect block if it is in use or
    names one that is, and likewise the blocks of the double indirect tree.
   */
  lemma PassLeaves(own: map<Pos, nat>, ino: nat, busy: set<nat>, q: Pos)
    requires q in own && q.ino == ino
    ensures q in AfterPass(own, ino, busy) <==>
            || own[q] in busy
            || (q.Single? && exists i :: SingleEntry(ino, i) in own && own[SingleEntry(ino, i)] in busy)
            || (q.DoubleEntry? && exists j :: Leaf(ino, q.i, j) in own && own[Leaf(ino, q.i, j)] in busy)
            || (q.Double? && exists i :: DoubleEntry(ino, i) in own && own[DoubleEntry(ino, i)] in busy)
            || (q.Double? && exists i, j :: Leaf(ino, i, j) in own && own[Leaf(ino, i, j)] in busy)
  {
    if own[q] in busy { assert q in Path(q); }
    if q.Single? {
      forall i | SingleEntry(ino, i) in own ensures q in Path(SingleEntry(ino, i)) { }
    }
    if q.DoubleEntry? {
      forall j | Leaf(ino, q.i, j) in own ensures q in Path(Leaf(ino, q.i, j)) { }
    }
    if q.Double? {
      forall i | DoubleEntry(ino, i) in own ensures q in Path(DoubleEntry(ino, i)) { }
      forall i, j | Leaf(ino, i, j) in own ensures q in Path(Leaf(ino, i, j)) { }
    }
    if r :| r in own && own[r] in busy && q in Path(r) {
      match r
      case SingleEntry(_, i) => assert SingleEntry(ino, i) in own || r == q;
      case DoubleEntry(_, i) => assert DoubleEntry(ino, i) in own || r == q;
      case Leaf(_, i, j) => assert Leaf(ino, i, j) in own || r == q;
      case _ => assert r == q;
    }
  }

  // ----- One pass, position by position

  /** The part under p has been gone through, and nothing else has changed. */
  ghost predicate Freed(own: map<Pos, nat>, own': map<Pos, nat>, p: Pos, busy: set<nat>) {
    forall q :: q in own ==> (q in own' <==> (p in Path(q) ==> Stays(own, busy, q)))
  }

  /** Which branch below p position q is in. */
  function Branch(p: Pos, q: Pos): nat {
    match q
    case SingleEntry(_, i) => i
    case DoubleEntry(_, i) => i
    case Leaf(_, i, j) => if p.Double? then i else j
    case _ => 0
  }

  predicate Below(p: Pos, i: nat, q: Pos) { p in Path(q) && q != p && Branch(p, q) < i }

  /** The first i branches below p have been gone through. */
  ghost predicate FreedBelow(own: map<Pos, nat>, own': map<Pos, nat>, p: Pos, i: nat, busy: set<nat>) {
    forall q :: q in own ==> (q in own' <==> (Below(p, i, q) ==> Stays(own, busy, q)))
  }

  /** own' is part of own. */
  ghost predicate PartOf(own': map<Pos, nat>, own: map<Pos, nat>) {
    forall q :: q in own' ==> q in own && own'[q] == own[q]
  }

  lemma PathUp(c: Pos, q: Pos, r: Pos)
    requires c in Path(q) && q in Path(r)
    ensures c in Path(r)
  {
  }

  /** What is in use below c decides, and that has not been touched. */
  lemma StaysLocal(own: map<Pos, nat>, own': map<Pos, nat>, busy: set<nat>, q: Pos)
    requires PartOf(own', own) && forall r :: r in own && q in Path(r) ==> r in own'
    ensures Stays(own', busy, q) <==> Stays(own, busy, q)
  {
    if r :| r in own && own[r] in busy && q in Path(r) { assert r in own' && own'[r] in busy; }
    if r :| r in own' && own'[r] in busy && q in Path(r) { assert r in own && own[r] in busy; }
  }

  lemma FreedMore(own: map<Pos, nat>, own1: map<Pos, nat>, own2: map<Pos, nat>, p: Pos, i: nat, busy: set<nat>)
    requires (p.Single? || p.Double? || p.DoubleEntry?) && FreedBelow(own, own1, p, i, busy)
    requires PartOf(own1, own) && PartOf(own2, own1) && Freed(own1, own2, Child(p, i), busy)
    ensures FreedBelow(own, own2, p, i + 1, busy)
  {
    hide Stays;
    var c := Child(p, i);
    forall q | q in own ensures q in own2 <==> (Below(p, i + 1, q) ==> Stays(own, busy, q)) {
      UnderChild(p, i, q);
      if c in Path(q) {
        forall r | r in own && q in Path(r) ensures r in own1 {
          PathUp(c, q, r);
          UnderChild(p, i, r);
        }
        StaysLocal(own, own1, busy, q);
      }
    }
  }

  lemma UnderChild(p: Pos, i: nat, q: Pos)
    requires p.Single? || p.Double? || p.DoubleEntry?
    ensures Child(p, i) in Path(q) <==> p in Path(q) && q != p && Branch(p, q) == i
  {
  }

  lemma NothingUnder(s: Files, p: Pos, busy: set<nat>)
    requires Inv(s) && p !in s.own
    ensures Freed(s.own, s.own, p, busy)
  {
    forall q | q in s.own ensures p !in Path(q) {
      if p in Path(q) { PathOwned(s, q, p); }
    }
  }

  lemma PathOwned(s: Files, q: Pos, p: Pos)
    requires Inv(s) && q in s.own && p in Path(q)
    ensures p in s.own && p.ino == q.ino
  {
    if Parent(q).Some? {
      var d := Parent(q).value;
      assert d in s.own;
      assert Parent(d).Some? ==> Parent(d).value in s.own;
    }
  }

  lemma FreedWord(own: map<Pos, nat>, c: Pos, busy: set<nat>)
    requires c in own && IsData(c)
    ensures Freed(own, if own[c] in busy then own else own - {c}, c, busy)
  {
    assert Stays(own, busy, c) <==> own[c] in busy;
  }

  /** After all branches, the position itself: kept if something below it is left, else freed unless in use. */
  lemma FreedAll(s: Files, own1: map<Pos, nat>, own2: map<Pos, nat>, p: Pos, busy: set<nat>)
    requires Inv(s) && p in s.own && (p.Single? || p.Double? || p.DoubleEntry?)
    requires FreedBelow(s.own, own1, p, FANOUT, busy) && PartOf(own1, s.own)
    requires if exists j: nat :: j < FANOUT && Child(p, j) in own1 then own2 == own1
             else own2 == if s.own[p] in busy then own1 else own1 - {p}
    ensures Freed(s.own, own2, p, busy)
  {
    hide Stays;
    PLeads(s, own1, p, busy);
    forall q | q in s.own ensures q in own2 <==> (p in Path(q) ==> Stays(s.own, busy, q)) {
      if p in Path(q) && q != p { BranchBound(s, p, q); }
    }
  }

  lemma BranchBound(s: Files, p: Pos, q: Pos)
    requires Inv(s) && q in s.own && p in Path(q) && q != p
    ensures Branch(p, q) < FANOUT && Child(p, Branch(p, q)) in Path(q)
  {
    assert ValidPos(q);
  }

  lemma PLeads(s: Files, own1: map<Pos, nat>, p: Pos, busy: set<nat>)
    requires Inv(s) && p in s.own && (p.Single? || p.Double? || p.DoubleEntry?)
    requires FreedBelow(s.own, own1, p, FANOUT, busy) && PartOf(own1, s.own)
    ensures Stays(s.own, busy, p) <==> s.own[p] in busy || exists j: nat :: j < FANOUT && Child(p, j) in own1
  {
    if j: nat :| j < FANOUT && Child(p, j) in own1 {
      UnderChild(p, j, Child(p, j));
      assert Child(p, j) in s.own && Below(p, FANOUT, Child(p, j));
      var r :| r in s.own && s.own[r] in busy && Child(p, j) in Path(r);
      PathUp(p, Child(p, j), r);
    }
    if s.own[p] in busy { assert p in Path(p); }
    if Stays(s.own, busy, p) && s.own[p] !in busy {
      var r :| r in s.own && s.own[r] in busy && p in Path(r);
      BranchBound(s, p, r);
      var c := Child(p, Branch(p, r));
      PathOwned(s, r, c);
      UnderChild(p, Branch(p, r), c);
      assert Stays(s.own, busy, c);
    }
  }

  // ----- The nine words of the inode

  function Root(q: Pos): nat {
    match q
    case Direct(_, i) => i
    case Single(_) => DIRECT
    case SingleEntry(_, _) => DIRECT
    case _ => DIRECT + 1
  }

  /** The first n words of the inode have been gone through. */
  ghost predicate FreedRoots(own: map<Pos, nat>, own': map<Pos, nat>, ino: nat, n: nat, busy: set<nat>) {
    forall q :: q in own ==> (q in own' <==> (q.ino == ino && Root(q) < n ==> Stays(own, busy, q)))
  }

  lemma UnderRoot(ino: nat, n: nat, q: Pos)
    requires n < DIRECT + 2 && ValidPos(q)
    ensures RootPos(ino, n) in Path(q) <==> q.ino == ino && Root(q) == n
  {
  }

  lemma FreedRoot(s: Files, own1: map<Pos, nat>, own2: map<Pos, nat>, ino: nat, n: nat, busy: set<nat>)
    requires Inv(s) && n < DIRECT + 2 && FreedRoots(s.own, own1, ino, n, busy)
    requires PartOf(own1, s.own) && PartOf(own2, own1) && Freed(own1, own2, RootPos(ino, n), busy)
    ensures FreedRoots(s.own, own2, ino, n + 1, busy)
  {
    hide Stays, FileTree.Inv;
    var c := RootPos(ino, n);
    forall q | q in s.own ensures q in own2 <==> (q.ino == ino && Root(q) < n + 1 ==> Stays(s.own, busy, q)) {
      OwnedValid(s, q);
      UnderRoot(ino, n, q);
      if c in Path(q) {
        forall r | r in s.own && q in Path(r) ensures r in own1 {
          PathUp(c, q, r);
          OwnedValid(s, r);
          UnderRoot(ino, n, r);
        }
        StaysLocal(s.own, own1, busy, q);
      }
    }
  }

  lemma OwnedValid(s: Files, q: Pos)
    requires Inv(s) && q in s.own
    ensures ValidPos(q)
  {
  }

  /** All words: the pass is over, and something is left exactly if a word is. */
  lemma PassOver(s: Files, s': Files, ino: nat, busy: set<nat>)
    requires Inv(s) && Inv(s') && FreedRoots(s.own, s'.own, ino, DIRECT + 2, busy) && PartOf(s'.own, s.own)
    ensures s'.own == AfterPass(s.own, ino, busy)
    ensures Gone(s'.own, ino) <==> forall n: nat :: n < DIRECT + 2 ==> RootPos(ino, n) !in s'.own
  {
    hide Stays;
    forall q | q in s.own ensures Root(q) < DIRECT + 2 { OwnedValid(s, q); }
    forall q | q in s'.own && q.ino == ino ensures RootPos(ino, Root(q)) in s'.own && Root(q) < DIRECT + 2 {
      OwnedValid(s', q);
      UnderRoot(ino, Root(q), q);
      PathOwned(s', q, RootPos(ino, Root(q)));
    }
  }
}
