/**
  Integers and packed decimals: int_to_real and real_to_int of kernel/math/convert.c,
  get_BCD and put_BCD of kernel/math/get_put.c.
 */
module Decimal {
  import opened Words
  import opened Mantissa

  /** temp_int: magnitude and sign. */
  datatype TempInt = TempInt(a: Word, b: Word, sign: bool)
  type Byte = x: int | 0 <= x < 0x100

  /** The rounding field of the control word. */
  datatype Mode = Nearest | Down | Up | Chop

  function Mag(i: TempInt): int { Val2(i.a, i.b) }

  // ----- int_to_real

  /** r is the normalised form of an integer, k places up. */
  ghost predicate IsInteger(r: TempReal, neg: bool, n: int, k: nat) {
    if n == 0 then r == TempReal(0, 0, 0) && k == 0
    else Normal(r) && Mant(r) == n * Pow2(k) && Biased(r) == 16383 + 63 - k && Negative(r) == neg
  }

  /** r is the normalised form of an integer. */
  ghost predicate Represents(r: TempReal, neg: bool, n: int) {
    exists k: nat :: k <= 63 && IsInteger(r, neg, n, k)
  }

  /** addl and adcl of two words onto themselves. */
  function Double(lo: Word, hi: Word): (r: (Word, Word))
    ensures Val2(r.0, r.1) == 2 * Val2(lo, hi) - (if hi >= TOP then BASE2 else 0)
  {
    var x := Adc(lo, lo, false);
    (x.0, Adc(hi, hi, x.1).0)
  }

  method IntToReal(i: TempInt) returns (r: TempReal)
    ensures Represents(r, i.sign, Mag(i))
  {
    hide Pow2;
    ghost var k: nat := 0;
    var a: Word, b: Word := i.a, i.b;
    if a == 0 && b == 0 {
      r := TempReal(0, 0, 0);
      assert IsInteger(r, i.sign, Mag(i), 0);
      return;
    }
    var exponent := 16383 + 63 + (if i.sign then 0x8000 else 0);
    Pow2Zero();
    while b < TOP
      invariant Val2(a, b) == Mag(i) * Pow2(k) && k <= 63 && Val2(a, b) >= Pow2(k)
      invariant exponent == 16383 + 63 + (if i.sign then 0x8000 else 0) - k
      decreases BASE2 - Val2(a, b)
    {
      exponent := exponent - 1;
      PlaceBelow(k);
      var d := Double(a, b);
      a, b := d.0, d.1;
      k := k + 1;
      Doubled(Mag(i), k);
      Doubled(1, k);
    }
    r := TempReal(a, b, exponent);
    assert IsInteger(r, i.sign, Mag(i), k);
  }

  lemma PlaceBelow(k: nat)
    ensures Pow2(k) < TOP * BASE ==> k < 63
  {
    Pow2Values();
    if k >= 63 { Pow2Grows(63, k); }
  }

  lemma FurtherUp(n: int, k1: nat, k2: nat)
    requires n > 0 && k1 < k2
    ensures n * Pow2(k2) >= 2 * (n * Pow2(k1))
  {
    Doubled(n, k2);
    Pow2Grows(k1, k2 - 1);
    AtMost(n, Pow2(k1), Pow2(k2 - 1));
  }

  /** A number is brought up to its top bit by one shift only. */
  lemma OnePlace(n: int, k1: nat, k2: nat)
    requires n > 0 && TOP * BASE <= n * Pow2(k1) < BASE2 && TOP * BASE <= n * Pow2(k2) < BASE2
    ensures k1 == k2
  {
    if k1 < k2 { FurtherUp(n, k1, k2); }
    if k2 < k1 { FurtherUp(n, k2, k1); }
  }

  lemma SameFactor(p: int, m: int, n: int)
    requires p > 0 && m * p == n * p
    ensures m == n
  {
    if m < n { AtMost(p, m + 1, n); } else if m > n { AtMost(p, n + 1, m); }
  }

  lemma OneForm(r1: TempReal, neg1: bool, n1: int, k1: nat, r2: TempReal, neg2: bool, n2: int, k2: nat)
    requires n1 >= 0 && n2 >= 0 && IsInteger(r1, neg1, n1, k1) && IsInteger(r2, neg2, n2, k2)
    ensures n1 == n2 && neg1 == neg2 ==> r1 == r2
    ensures r1 == r2 ==> n1 == n2
  {
    hide Pow2;
    if n1 == n2 != 0 { OnePlace(n1, k1, k2); }
    if r1 == r2 && n1 != 0 && n2 != 0 { SameFactor(Pow2(k1), n1, n2); }
  }

  /** A real stands for one integer at most, and an integer has one form. */
  lemma OneInteger(r1: TempReal, neg1: bool, n1: int, r2: TempReal, neg2: bool, n2: int)
    requires n1 >= 0 && n2 >= 0 && Represents(r1, neg1, n1) && Represents(r2, neg2, n2)
    ensures n1 == n2 && neg1 == neg2 ==> r1 == r2
    ensures r1 == r2 ==> n1 == n2
  {
    hide IsInteger;
    var k1: nat :| k1 <= 63 && IsInteger(r1, neg1, n1, k1);
    var k2: nat :| k2 <= 63 && IsInteger(r2, neg2, n2, k2);
    OneForm(r1, neg1, n1, k1, r2, neg2, n2, k2);
  }

  // ----- real_to_int

  /** shrdl: the lower word of the pair shifted down. */
  function Shrd(lo: Word, hi: Word, s: nat): Word
    requires s < 32
  {
    (lo + BASE * hi) / Pow2(s) % BASE
  }

  /** Shifting down a word with more words above it. */
  lemma ShiftDown(x: Word, y: int, p: int, r: int)
    requires y >= 0 && p > 0 && r > 0 && r * p == BASE
    ensures 0 <= x / p + r * (y % p) < BASE
    ensures (x + BASE * y) / p == x / p + r * (y % p) + BASE * (y / p)
    ensures (x + BASE * y) / p % BASE == x / p + r * (y % p)
  {
    var xq, xt, yq, yt := x / p, x % p, y / p, y % p;
    Parts(x, p);
    Parts(y, p);
    QuotientAtLeast(x, p, r);
    NonNegative(r, yt);
    AtMost(r, yt + 1, p);
    Distributes(r, yt, 1);
    Rejoined(p, r, xq, yq, yt);
    IsQuotient(x + BASE * y, p, xq + r * yt + BASE * yq);
    Remainder(xq + r * yt, yq);
  }

  lemma Parts(x: int, p: int)
    requires p > 0
    ensures x == p * (x / p) + x % p && 0 <= x % p < p
    ensures x >= 0 ==> x / p >= 0
  {
  }

  lemma Rejoined(p: int, r: int, xq: int, yq: int, yt: int)
    requires r * p == BASE
    ensures p * (xq + r * yt + BASE * yq) == p * xq + BASE * (p * yq + yt)
  {
    Distributes(p, xq + r * yt, BASE * yq);
    Distributes(p, xq, r * yt);
    Associates(p, r, yt);
  }

  lemma Remainder(low: int, q: int)
    requires 0 <= low < BASE
    ensures (low + BASE * q) % BASE == low
  {
  }

  /** The three shifts of real_to_int move one 96-bit number down. */
  lemma ThreeShifts(u: Word, lo: Word, hi: Word, s: nat)
    requires s < 32
    ensures 0 <= hi / Pow2(s) < BASE
    ensures Shrd(u, lo, s) + BASE * Shrd(lo, hi, s) + BASE2 * (hi / Pow2(s)) == (u + BASE * lo + BASE2 * hi) / Pow2(s)
  {
    hide Pow2, Shrd;
    var p, r := Pow2(s), Pow2(32 - s);
    ShrdIs(u, lo, s);
    ShrdIs(lo, hi, s);
    SmallerQuotient(hi, p);
    var y := lo + BASE * hi;
    assert y % p == lo % p by { HighWordsDrop(lo, hi, p, r); }
    assert u + BASE * lo + BASE2 * hi == u + BASE * y;
    assert (u + BASE * y) / p == u / p + r * (lo % p) + BASE * (y / p) by { ShiftDown(u, y, p, r); }
    assert y / p == lo / p + r * (hi % p) + BASE * (hi / p) by { ShiftDown(lo, hi, p, r); }
  }

  lemma ShrdIs(x: Word, y: Word, s: nat)
    requires s < 32
    ensures Pow2(32 - s) * Pow2(s) == BASE
    ensures Shrd(x, y, s) == x / Pow2(s) + Pow2(32 - s) * (y % Pow2(s))
  {
    Pow2Adds(32 - s, s);
    Pow2Values();
    ShiftDown(x, y, Pow2(s), Pow2(32 - s));
  }

  lemma HighWordsDrop(lo: Word, hi: Word, p: int, r: int)
    requires p > 0 && r * p == BASE
    ensures (lo + BASE * hi) % p == lo % p
  {
    Parts(lo, p);
    Distributes(p, lo / p, r * hi);
    Associates(p, r, hi);
    IsQuotient(lo + BASE * hi, p, lo / p + r * hi);
  }

  lemma SmallerQuotient(x: int, p: int)
    requires x >= 0 && p > 0
    ensures 0 <= x / p <= x
  {
    Parts(x, p);
    AtMost(x / p, 1, p);
  }

  /** Whether real_to_int goes up to the next integer, from the integer and the 32 bits after it. */
  predicate RoundsUp(mode: Mode, neg: bool, n: int, rest: int) {
    match mode
    case Nearest => rest + 0x7fff_ffff + n % 2 >= BASE
    case Up => !neg && rest != 0
    case Down => neg && rest != 0
    case Chop => false
  }

  /** The value with 32 bits after the point, cut off. */
  function Fixed(m: int, shift: nat): int {
    m * BASE / Pow2(shift)
  }

  function RoundedTo(mode: Mode, neg: bool, v: int): int {
    v / BASE + (if RoundsUp(mode, neg, v / BASE, v % BASE) then 1 else 0)
  }

  /** Which words real_to_int starts from: together with the rest of the shift they give the same number. */
  lemma Loaded(m: int, shift: nat)
    requires 0 <= m < BASE2
    ensures shift < 32 ==> m * BASE / Pow2(shift) == Fixed(m, shift)
    ensures 32 <= shift < 64 ==> m / Pow2(shift - 32) == Fixed(m, shift)
    ensures 64 <= shift < 96 ==> m / BASE / Pow2(shift - 64) == Fixed(m, shift)
    ensures shift >= 96 ==> Fixed(m, shift) == 0
  {
    Pow2Values();
    if 32 <= shift < 64 {
      Pow2Adds(shift - 32, 32);
      Cancels(m, Pow2(shift - 32), BASE);
    } else if 64 <= shift < 96 {
      DivDiv(m, BASE, Pow2(shift - 64));
      Pow2Adds(32, shift - 64);
      Pow2Adds(shift - 32, 32);
      Cancels(m, Pow2(shift - 32), BASE);
    } else if shift >= 96 {
      Pow2Grows(96, shift);
      IsQuotient(m * BASE, Pow2(shift), 0);
    }
  }

  lemma LoadedWords(x: TempReal, shift: nat)
    ensures shift < 32 ==> (0 + BASE * x.a + BASE2 * x.b) / Pow2(shift) == Fixed(Mant(x), shift)
    ensures 32 <= shift < 64 ==> (x.a + BASE * x.b + BASE2 * 0) / Pow2(shift - 32) == Fixed(Mant(x), shift)
    ensures 64 <= shift < 96 ==> (x.b + BASE * 0 + BASE2 * 0) / Pow2(shift - 64) == Fixed(Mant(x), shift)
    ensures shift >= 96 ==> Fixed(Mant(x), shift) == 0
  {
    hide Pow2, Fixed;
    Loaded(Mant(x), shift);
  }

  lemma AroundPoint(v: int, rest: Word, n: int, mode: Mode, neg: bool)
    requires v == rest + BASE * n
    ensures v % BASE == rest && RoundedTo(mode, neg, v) == n + (if RoundsUp(mode, neg, n, rest) then 1 else 0)
  {
  }

  /** Only what lies below 2 to the 63 has anything after the point. */
  lemma RoomToRound(m: int, shift: nat)
    requires 0 <= m < BASE2
    ensures 0 <= Fixed(m, shift) < BASE * BASE2
    ensures Fixed(m, shift) % BASE != 0 ==> Fixed(m, shift) < TOP * BASE2
  {
    var v := Fixed(m, shift);
    NonNegative(m, BASE);
    SmallerQuotient(m * BASE, Pow2(shift));
    if shift > 0 {
      Pow2Grows(1, shift);
      assert Pow2(1) == 2;
      QuotientAtLeast(m * BASE, Pow2(shift), TOP * BASE2);
      AtMost(TOP * BASE2, 2, Pow2(shift));
    } else {
      assert Pow2(0) == 1;
    }
  }

  /** addl and adcl of a word onto two. */
  function Add64(v: Word, lo: Word, hi: Word): (r: (Word, Word))
    ensures Val2(lo, hi) + v < BASE2 ==> Val2(r.0, r.1) == Val2(lo, hi) + v
  {
    var x := Adc(lo, v, false);
    (x.0, Adc(hi, 0, x.1).0)
  }

  lemma Parity(lo: Word, hi: Word)
    ensures Val2(lo, hi) % 2 == lo % 2
  {
    assert lo + BASE * hi == lo + 2 * (TOP * hi);
  }

  /** The rounding at the end of real_to_int. */
  method Round(lo: Word, hi: Word, rest: Word, mode: Mode, neg: bool) returns (r: (Word, Word))
    requires rest != 0 ==> Val2(lo, hi) + 1 < BASE2
    ensures Val2(r.0, r.1) == Val2(lo, hi) + (if RoundsUp(mode, neg, Val2(lo, hi), rest) then 1 else 0)
  {
    r := (lo, hi);
    Parity(lo, hi);
    match mode
    case Nearest =>
      var carry := Adc(rest, 0x7fff_ffff + lo % 2, false).1;
      r := Add64(if carry then 1 else 0, lo, hi);
    case Up =>
      if !neg && rest != 0 { r := Add64(1, lo, hi); }
    case Down =>
      if neg && rest != 0 { r := Add64(1, lo, hi); }
    case Chop =>
  }

  /** real_to_int.  Too large a number gives zero. */
  method RealToInt(x: TempReal, mode: Mode) returns (b: TempInt, overflow: bool)
    ensures overflow <==> Biased(x) > 16383 + 63
    ensures b.sign == Negative(x)
    ensures Mag(b) == if overflow then 0 else RoundedTo(mode, Negative(x), Fixed(Mant(x), 16383 + 63 - Biased(x)))
  {
    hide Pow2, Shrd, RoundsUp, Fixed, RoundedTo;
    var shift := 16383 + 63 - Biased(x);
    var lo: Word, hi: Word, rest: Word := 0, 0, 0;
    b, overflow := TempInt(0, 0, Negative(x)), false;
    if shift < 0 {
      overflow := true;
      return;
    }
    ghost var v := Fixed(Mant(x), shift);
    LoadedWords(x, shift);
    if shift < 32 {
      lo, hi := x.a, x.b;
    } else if shift < 64 {
      rest, lo, shift := x.a, x.b, shift - 32;
    } else if shift < 96 {
      rest, shift := x.b, shift - 64;
    } else {
      NothingToRound(mode, Negative(x));
      return;
    }
    ThreeShifts(rest, lo, hi, shift);
    rest := Shrd(rest, lo, shift);
    lo := Shrd(lo, hi, shift);
    hi := hi / Pow2(shift);
    AroundPoint(v, rest, Val2(lo, hi), mode, Negative(x));
    RoomToRound(Mant(x), 16383 + 63 - Biased(x));
    var r := Round(lo, hi, rest, mode, Negative(x));
    b := TempInt(r.0, r.1, Negative(x));
  }

  lemma NothingToRound(mode: Mode, neg: bool)
    ensures RoundedTo(mode, neg, 0) == 0
  {
  }

  // ----- When the rounding is right

  /** m / p rounded as the mode says, from the whole of what follows the point. */
  function Rounded(mode: Mode, neg: bool, m: int, p: int): int
    requires p > 0
  {
    var n, t := m / p, m % p;
    match mode
    case Nearest => if 2 * t > p || (2 * t == p && n % 2 == 1) then n + 1 else n
    case Up => if !neg && t > 0 then n + 1 else n
    case Down => if neg && t > 0 then n + 1 else n
    case Chop => n
  }

  /** Bits beyond the 32 that real_to_int looks at decide, and they are not all zero. */
  predicate LostBitsDecide(mode: Mode, neg: bool, m: int, shift: nat) {
    && m * BASE % Pow2(shift) != 0
    && var n, rest := Fixed(m, shift) / BASE, Fixed(m, shift) % BASE;
      match mode
      case Nearest => rest == TOP && n % 2 == 0
      case Up => !neg && rest == 0
      case Down => neg && rest == 0
      case Chop => false
  }

  /** What follows the point is the 32 bits and what is beyond them. */
  lemma AfterPoint(m: int, p: int)
    requires m >= 0 && p > 0
    ensures m * BASE / p / BASE == m / p
    ensures (m % p) * BASE == p * (m * BASE / p % BASE) + m * BASE % p
  {
    var n, t := m / p, m % p;
    var v, lost := m * BASE / p, m * BASE % p;
    Parts(m, p);
    NonNegative(m, BASE);
    Parts(m * BASE, p);
    Cancels(m, p, BASE);
    DivDiv(m * BASE, p, BASE);
    Parts(v, BASE);
    Distributes(p, BASE * n, v % BASE);
  }

  /** Comparing with one half, in parts. */
  lemma AgainstHalf(t: int, p: int, rest: int, lost: int)
    requires p > 0 && t * BASE == p * rest + lost && 0 <= lost < p && 0 <= rest < BASE
    ensures 2 * t > p <==> rest > TOP || (rest == TOP && lost > 0)
    ensures 2 * t == p <==> rest == TOP && lost == 0
    ensures t > 0 <==> rest > 0 || lost > 0
  {
    if rest > TOP {
      AtMost(p, TOP + 1, rest);
    } else if rest < TOP {
      AtMost(p, rest + 1, TOP);
    }
    if rest > 0 { Positive(p, rest); }
  }

  /**
    What the modes mean for the signed number x / p: Up gives the least integer that is not below it, Down the
    greatest that is not above it, Chop the nearest on the side of zero, Nearest the nearest, or the even one of two.
   */
  lemma RoundedMeans(mode: Mode, neg: bool, m: int, p: int)
    requires m >= 0 && p > 0
    ensures var r, x := if neg then -Rounded(mode, neg, m, p) else Rounded(mode, neg, m, p), if neg then -m else m;
            && (mode == Up ==> (r - 1) * p < x <= r * p)
            && (mode == Down ==> r * p <= x < (r + 1) * p)
            && (mode == Chop ==> if neg then (r - 1) * p < x <= r * p else r * p <= x < (r + 1) * p)
            && (mode == Nearest ==> -p <= 2 * (x - r * p) <= p)
            && (mode == Nearest && (2 * (x - r * p) == p || 2 * (x - r * p) == -p) ==> r % 2 == 0)
  {
    var r, x := if neg then -Rounded(mode, neg, m, p) else Rounded(mode, neg, m, p), if neg then -m else m;
    Remains(m, p);
    Around(if neg then -(m / p) else m / p, p);
    assert r == (if neg then -(m / p) else m / p) || r == if neg then -(m / p) - 1 else m / p + 1;
    hide Rounded;
  }

  lemma Remains(m: int, p: int)
    requires p > 0
    ensures m / p * p + m % p == m && -(m / p) * p - m % p == -m && 0 <= m % p < p
  {
  }

  lemma Around(n: int, p: int)
    ensures (n + 1) * p == n * p + p && (n - 1) * p == n * p - p
    ensures (n + 2) * p == n * p + 2 * p && (n - 2) * p == n * p - 2 * p
  {
  }

  /** real_to_int rounds correctly exactly when the bits it does not look at make no difference. */
  lemma RoundsRightIff(mode: Mode, neg: bool, m: int, shift: nat)
    requires m >= 0
    ensures RoundedTo(mode, neg, Fixed(m, shift)) == Rounded(mode, neg, m, Pow2(shift)) <==>
            !LostBitsDecide(mode, neg, m, shift)
  {
    var p := Pow2(shift);
    AfterPoint(m, p);
    AgainstHalf(m % p, p, Fixed(m, shift) % BASE, m * BASE % p);
  }

  /** A number just above one half that is rounded down to zero, and up to one by the rule. */
  lemma NearHalfExample()
    ensures var m, shift := 0x8000_0000_0000_0001, 64;
            RoundedTo(Nearest, false, Fixed(m, shift)) == 0 && Rounded(Nearest, false, m, Pow2(shift)) == 1
  {
    Pow2Values();
  }

  /** An integer comes back from real_to_int in every mode. */
  lemma IntegersAreExact(x: TempReal, neg: bool, n: int, mode: Mode)
    requires Represents(x, neg, n) && 0 <= n < BASE2
    ensures Biased(x) <= 16383 + 63
    ensures RoundedTo(mode, neg, Fixed(Mant(x), 16383 + 63 - Biased(x))) == n
  {
    hide RoundedTo, Pow2;
    var k: nat :| k <= 63 && IsInteger(x, neg, n, k);
    hide Biased;
    ShiftedBack(n, Pow2(16383 + 63 - Biased(x)));
    AroundPoint(n * BASE, 0, n, mode, neg);
  }

  lemma ShiftedBack(n: int, p: int)
    requires p > 0
    ensures n * p * BASE / p == n * BASE
  {
    assert n * p * BASE == p * (n * BASE);
    IsQuotient(n * p * BASE, p, n * BASE);
  }

  // ----- Packed decimals

  /** MUL10, as doublings and an addition. */
  function Mul10(lo: Word, hi: Word): (r: (Word, Word))
    ensures 10 * Val2(lo, hi) < BASE2 ==> Val2(r.0, r.1) == 10 * Val2(lo, hi)
  {
    var twice := Double(lo, hi);
    var four := Double(twice.0, twice.1);
    var eight := Double(four.0, four.1);
    var low := Adc(eight.0, twice.0, false);
    (low.0, Adc(eight.1, twice.1, low.1).0)
  }

  /** DIV10, as two divl: the quotient's words and the remainder. */
  function Div10(lo: Word, hi: Word): (r: (Word, Word, int))
    ensures Val2(r.0, r.1) == Val2(lo, hi) / 10 && r.2 == Val2(lo, hi) % 10
  {
    var rest := hi % 10;
    assert lo + BASE * hi == 10 * ((rest * BASE + lo) / 10 + BASE * (hi / 10)) + (rest * BASE + lo) % 10;
    ((rest * BASE + lo) / 10, hi / 10, (rest * BASE + lo) % 10)
  }

  /** The two digits in a byte. */
  function Digits(c: Byte): int { c % 16 + 10 * (c / 16) }

  /** The number in a row of bytes, lowest first. */
  function BcdVal(s: seq<Byte>): (v: int)
    ensures v >= 0
  {
    if s == [] then 0 else Digits(s[0]) + 100 * BcdVal(s[1..])
  }

  function Pow100(n: nat): (p: int)
    ensures p > 0
  {
    if n == 0 then 1 else 100 * Pow100(n - 1)
  }

  lemma {:induction false} BcdValAppends(s: seq<Byte>, c: Byte)
    ensures BcdVal(s + [c]) == BcdVal(s) + Pow100(|s|) * Digits(c)
  {
    if s != [] {
      BcdValAppends(s[1..], c);
      assert (s + [c])[1..] == s[1..] + [c];
      assert 100 * (Pow100(|s| - 1) * Digits(c)) == (100 * Pow100(|s| - 1)) * Digits(c);
    }
  }

  /** Proper digits, and how large the number is with and without them. */
  ghost predicate Proper(s: seq<Byte>) {
    forall i :: 0 <= i < |s| ==> s[i] % 16 <= 9 && s[i] / 16 <= 9
  }

  lemma {:induction false} BcdValBelow(s: seq<Byte>)
    ensures 99 * BcdVal(s) <= 165 * (Pow100(|s|) - 1)
    ensures Proper(s) ==> BcdVal(s) < Pow100(|s|)
  {
    if s != [] { BcdValBelow(s[1..]); }
  }

  const QUINTILLION := 1_000_000_000_000_000_000

  lemma Pow100Nine()
    ensures Pow100(9) == QUINTILLION
  {
    assert Pow100(4) == 1_0000_0000;
  }

  /** put_BCD into the ten bytes at an address: the digits of the rounded number, so far as nine bytes hold them. */
  method PutBcd(x: TempReal, mode: Mode, mem: array<Byte>) returns (i: TempInt)
    requires mem.Length == 10
    modifies mem
    ensures i.sign == Negative(x)
    ensures Mag(i) == if Biased(x) > 16383 + 63 then 0
            else RoundedTo(mode, Negative(x), Fixed(Mant(x), 16383 + 63 - Biased(x)))
    ensures mem[9] == (if Negative(x) then 0x80 else 0)
    ensures Proper(mem[..9]) && BcdVal(mem[..9]) == Mag(i) % QUINTILLION
  {
    hide BcdVal, RoundedTo, Fixed, Pow100, Proper, Digits, Val2;
    var overflow;
    i, overflow := RealToInt(x, mode);
    mem[9] := if i.sign then 0x80 else 0;
    var lo: Word, hi: Word := i.a, i.b;
    var k := 0;
    EmptyBcd();
    while k < 9
      invariant 0 <= k <= 9 && mem[9] == (if Negative(x) then 0x80 else 0)
      invariant Proper(mem[..k]) && BcdVal(mem[..k]) + Pow100(k) * Val2(lo, hi) == Mag(i)
    {
      ghost var v := Val2(lo, hi);
      var c;
      lo, hi, c := TwoDigits(lo, hi);
      mem[k] := c;
      assert mem[..k + 1] == mem[..k] + [c];
      NextByte(mem[..k], v, c, Val2(lo, hi));
      k := k + 1;
    }
    LastDigits(mem[..9], Val2(lo, hi), Mag(i));
  }

  /** One turn of put_BCD's loop: the two lowest digits, and the number without them. */
  method TwoDigits(lo: Word, hi: Word) returns (lo': Word, hi': Word, c: Byte)
    ensures c % 16 == Val2(lo, hi) % 10 && c / 16 == Val2(lo, hi) / 10 % 10
    ensures Val2(lo', hi') == Val2(lo, hi) / 10 / 10 && Val2(lo, hi) >= 0
  {
    var r := Div10(lo, hi);
    var units := r.2;
    r := Div10(r.0, r.1);
    lo', hi', c := r.0, r.1, units + 16 * r.2;
  }

  lemma EmptyBcd()
    ensures BcdVal([]) == 0 && Pow100(0) == 1 && Proper([])
  {
  }

  lemma NextDigits(p: int, v: int, c: Byte, rest: int)
    requires v >= 0 && c % 16 == v % 10 && c / 16 == v / 10 % 10 && rest == v / 10 / 10
    ensures p * v == p * Digits(c) + 100 * p * rest
  {
    assert v == Digits(c) + 100 * rest;
    Distributes(p, Digits(c), 100 * rest);
  }

  lemma NextByte(s: seq<Byte>, v: int, c: Byte, rest: int)
    requires v >= 0 && c % 16 == v % 10 && c / 16 == v / 10 % 10 && rest == v / 10 / 10
    ensures BcdVal(s + [c]) + Pow100(|s| + 1) * rest == BcdVal(s) + Pow100(|s|) * v
    ensures Proper(s) ==> Proper(s + [c])
  {
    BcdValAppends(s, c);
    NextDigits(Pow100(|s|), v, c, rest);
  }

  lemma LastDigits(s: seq<Byte>, rest: int, n: int)
    requires |s| == 9 && Proper(s) && BcdVal(s) + Pow100(9) * rest == n
    ensures BcdVal(s) == n % QUINTILLION
  {
    BcdValBelow(s);
    Pow100Nine();
    IsQuotient(n, QUINTILLION, rest);
  }

  /** get_BCD from the ten bytes at an address. */
  method GetBcd(mem: array<Byte>) returns (r: TempReal)
    requires mem.Length == 10
    ensures Represents(r, mem[9] / 0x80 == 1, BcdVal(mem[..9]))
  {
    hide BcdVal, Represents;
    var at := 9;
    var lo: Word, hi: Word := 0, 0;
    assert mem[9..9] == [];
    EmptyBcd();
    while at > 0
      invariant 0 <= at <= 9 && Val2(lo, hi) == BcdVal(mem[at..9])
    {
      at := at - 1;
      var c := mem[at];
      RoomForDigits(mem[at + 1..9]);
      MoreDigits(mem[at..9], mem[at + 1..9]);
      var m := Mul10(lo, hi);
      m := Add64(c / 16, m.0, m.1);
      m := Mul10(m.0, m.1);
      m := Add64(c % 16, m.0, m.1);
      lo, hi := m.0, m.1;
    }
    assert mem[0..9] == mem[..9];
    r := IntToReal(TempInt(lo, hi, mem[9] / 0x80 == 1));
  }

  lemma MoreDigits(s: seq<Byte>, t: seq<Byte>)
    requires s != [] && t == s[1..]
    ensures BcdVal(s) == Digits(s[0]) + 100 * BcdVal(t)
  {
  }

  lemma RoomForDigits(s: seq<Byte>)
    requires |s| <= 8
    ensures 100 * BcdVal(s) + 1000 < BASE2
  {
    BcdValBelow(s);
    Pow100Grows(|s|, 8);
    assert Pow100(4) == 1_0000_0000;
  }

  lemma {:induction false} Pow100Grows(m: nat, n: nat)
    requires m <= n
    ensures Pow100(m) <= Pow100(n)
  {
    if m < n { Pow100Grows(m, n - 1); }
  }

  lemma AnySignOfZero(r: TempReal, neg: bool, n: int)
    requires Represents(r, neg, n)
    ensures Represents(r, Negative(r), n)
  {
    var k: nat :| k <= 63 && IsInteger(r, neg, n, k);
    assert IsInteger(r, Negative(r), n, k);
  }

  /** An integer stored as a packed decimal and loaded again is the same real exactly when it has at most 18 digits. */
  method BcdRoundTrip(i: TempInt, mode: Mode) returns (first: TempReal, back: TempReal)
    ensures Represents(first, i.sign, Mag(i))
    ensures back == first <==> Mag(i) < QUINTILLION
  {
    hide BcdVal, Represents, RoundedTo, Fixed;
    first := IntToReal(i);
    AnySignOfZero(first, i.sign, Mag(i));
    IntegersAreExact(first, Negative(first), Mag(i), mode);
    var mem := new Byte[10](_ => 0);
    var j := PutBcd(first, mode, mem);
    back := GetBcd(mem);
    OneInteger(first, Negative(first), Mag(i), back, Negative(first), Mag(i) % QUINTILLION);
  }
}
