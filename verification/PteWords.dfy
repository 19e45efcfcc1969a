/**
  Page-table words.  The other modules speak of entries with a frame or a slot and two
  flags; here an entry is the 32-bit word that the kernel stores, and each test and each
  change the kernel makes with bit operations is shown to be the one on entries.
 */
module PteWords {
  import opened Common
  import opened AddressSpace
  import opened Program
  import opened Machine

  const LOW_MEM := 0x10_0000
  const PAGING_MEMORY := 15 * 1024 * 1024
  const WORD_SIZE := 0x1_0000_0000

  /** What fits into a word: 20 bits of frame number, or a slot other than 0. */
  predicate Storable(e: Pte) {
    match e
    case Present(f, _, _) => f < 0x10_0000
    case Swapped(n) => 0 < n < 32768
  }

  /** Present, writable and user are bits 0 to 2, dirty is bit 6; a slot number is shifted up by one. */
  function Encode(e: Pte): int {
    match e
    case Present(f, rw, dirty) => PAGE_SIZE * f + FlagBits(rw, dirty)
    case Swapped(n) => 2 * n
  }

  function FlagBits(rw: bool, dirty: bool): int {
    (if dirty then 64 else 0) + 4 + (if rw then 2 else 0) + 1
  }

  /** Nothing in the lower twelve bits depends on the frame. */
  lemma LowerBits(f: nat, c: int)
    requires 0 <= c < PAGE_SIZE
    ensures var w := PAGE_SIZE * f + c;
            w / PAGE_SIZE == f && w % PAGE_SIZE == c && w % 2 == c % 2 && w / 2 == 2048 * f + c / 2
              && w / 64 == 64 * f + c / 64
  {
  }

  lemma EvenPlus(x: int, c: int)
    ensures (2 * x + c) % 2 == c % 2
  {
  }

  /** The flags of a word are those of its lower bits. */
  lemma FlagsOf(f: nat, rw: bool, dirty: bool)
    ensures var w := Encode(Present(f, rw, dirty));
            && w / PAGE_SIZE == f && w % PAGE_SIZE == FlagBits(rw, dirty) && w % 2 == 1
            && (w / 2 % 2 == 1 <==> rw) && (w / 64 % 2 == 1 <==> dirty) && w / 4 % 2 == 1
  {
    var c := FlagBits(rw, dirty);
    LowerBits(f, c);
    EvenPlus(1024 * f, c / 2);
    EvenPlus(32 * f, c / 64);
    EvenPlus(512 * f, c / 4);
  }

  /** How a word is read back: zero is no entry. */
  function Decode(w: int): Option<Pte>
    requires 0 <= w
  {
    if w == 0 then None
    else if w % 2 == 1 then Some(Present(w / PAGE_SIZE, w / 2 % 2 == 1, w / 64 % 2 == 1))
    else Some(Swapped(w / 2))
  }

  /** Words and entries correspond. */
  lemma DecodeEncode(e: Pte)
    requires Storable(e)
    ensures 0 < Encode(e) < WORD_SIZE && Decode(Encode(e)) == Some(e)
  {
    if e.Present? { FlagsOf(e.frame, e.rw, e.dirty); }
  }

  // ----- The operations

  /** x & (1 << k), as a test, for bit = 1 << k. */
  predicate HasBit(w: int, bit: int)
    requires bit > 0
  {
    w / bit % 2 == 1
  }

  /** w & ~bit and w | bit. */
  function Clear(w: int, bit: int): int
    requires bit > 0
  {
    if HasBit(w, bit) then w - bit else w
  }

  function Set(w: int, bit: int): int
    requires bit > 0
  {
    if HasBit(w, bit) then w else w + bit
  }

  /** w & 0xfffff000. */
  function Address(w: int): int { w - w % PAGE_SIZE }

  /** 32-bit subtraction. */
  function Minus(a: int, b: int): int { (a - b) % WORD_SIZE }

  /** The tests of a word: present, clean and present, and the frame's address. */
  lemma Tests(e: Pte)
    requires Storable(e)
    ensures HasBit(Encode(e), 1) <==> e.Present?
    ensures e.Present? ==> Address(Encode(e)) == PAGE_SIZE * e.frame
    ensures HasBit(Encode(e), 1) && !HasBit(Encode(e), 64) <==> e.Present? && !e.dirty
    ensures e.Present? ==> (HasBit(Encode(e), 1) && !HasBit(Encode(e), 2) <==> !e.rw)
    ensures e.Swapped? ==> Encode(e) / 2 == e.slot
  {
    if e.Present? { FlagsOf(e.frame, e.rw, e.dirty); }
  }

  /** this_page &= ~2 and *table_entry |= 2. */
  lemma Protection(e: Pte)
    requires Storable(e) && e.Present?
    ensures Clear(Encode(e), 2) == Encode(e.(rw := false))
    ensures Set(Encode(e), 2) == Encode(e.(rw := true))
  {
    FlagsOf(e.frame, e.rw, e.dirty);
  }

  /** page | 7 and page | (PAGE_DIRTY | 7), for the address of a frame. */
  lemma NewWord(f: nat)
    requires f < 0x10_0000
    ensures Set(Set(Set(PAGE_SIZE * f, 1), 2), 4) == Encode(Present(f, true, false))
    ensures Set(Encode(Present(f, true, false)), 64) == Encode(Present(f, true, true))
  {
    FlagsOf(f, true, false);
    LowerBits(f, 0);
    LowerBits(f, 1);
    LowerBits(f, 3);
  }

  /** Comparisons of a whole word: the flags never matter. */
  lemma Ranges(e: Pte)
    requires Storable(e) && e.Present?
    ensures Encode(e) > LOW_MEM <==> e.frame >= LOW
    ensures Address(Encode(e)) >= LOW_MEM <==> e.frame >= LOW
    ensures Minus(Encode(e), LOW_MEM) > PAGING_MEMORY <==> !(LOW <= e.frame < LOW + 3840)
    ensures e.frame >= LOW ==> Minus(Address(Encode(e)), LOW_MEM) / PAGE_SIZE == e.frame - LOW
  {
  }

  /** Every entry that the memory manager ever makes fits into its word. */
  lemma AllStorable(m: Tables, s: Space, files: map<nat, Image>, v: VPage)
    requires Inv(s) && Tied(m, s, files) && v in s.pt
    ensures Storable(s.pt[v])
  {
    hide WriteExclusive, CleanIsBacked, TablesApart, InTables, Counted, TableTie, DataTie, KernelTie, ProgTie;
    assert s.pt[v].Swapped? ==> Owns(s.pt, v, s.pt[v].slot);
  }
}
