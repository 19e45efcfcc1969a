/**
  The 32-bit instructions that the floating-point emulator in kernel/math strings
  together, and the numbers that sequences of words stand for.
 */
module Words {

  type Word = x: int | 0 <= x < 0x1_0000_0000

  const BASE: int := 0x1_0000_0000
  const BASE2: int := 0x1_0000_0000_0000_0000
  const BASE4: int := 0x1_0000_0000_0000_0000_0000_0000_0000_0000
  const TOP: int := 0x8000_0000

  /** addl and adcl: the sum and the carry. */
  function Adc(x: Word, y: Word, carry: bool): (r: (Word, bool))
    ensures r.0 + (if r.1 then BASE else 0) == x + y + (if carry then 1 else 0)
  {
    var s := x + y + (if carry then 1 else 0);
    if s >= BASE then (s - BASE, true) else (s, false)
  }

  /** subl and sbbl: the difference and the borrow. */
  function Sbb(x: Word, y: Word, borrow: bool): (r: (Word, bool))
    ensures r.0 - (if r.1 then BASE else 0) == x - y - (if borrow then 1 else 0)
  {
    var d := x - y - (if borrow then 1 else 0);
    if d < 0 then (d + BASE, true) else (d, false)
  }

  /** mull: the low and the high word of the product. */
  function Mull(x: Word, y: Word): (r: (Word, Word))
    ensures r.0 + BASE * r.1 == x * y
  {
    ProductFits(x, y);
    (x * y % BASE, x * y / BASE)
  }

  lemma ProductFits(x: Word, y: Word)
    ensures 0 <= x * y <= (BASE - 1) * (BASE - 1)
    ensures 0 <= x * y / BASE < BASE
  {
    NonNegative(x, y);
    AtMost(x, y, BASE - 1);
    var p := x * y;
    assert p <= x * 0xffff_ffff;
  }

  /** shrl by one into the carry, and rcrl, which takes the carry in at the top. */
  function Rcr(x: Word, carry: bool): (r: (Word, bool))
    ensures 2 * r.0 + (if r.1 then 1 else 0) == x + (if carry then BASE else 0)
  {
    (x / 2 + (if carry then TOP else 0), x % 2 == 1)
  }

  function Val2(lo: Word, hi: Word): int {
    lo + BASE * hi
  }

  /** The number in four words, lowest first. */
  function Val4(s: seq<Word>): (v: int)
    requires |s| == 4
    ensures 0 <= v < BASE4
  {
    s[0] + BASE * s[1] + BASE2 * s[2] + BASE * BASE2 * s[3]
  }

  /** shift and shift_left: double four words, losing the bit that does not fit. */
  method ShiftLeft(c: array<Word>)
    requires c.Length == 4
    modifies c
    ensures Val4(c[..]) == 2 * old(Val4(c[..])) - (if old(c[3]) >= TOP then BASE4 else 0)
    ensures old(c[0]) == old(c[1]) == 0 ==> c[0] == c[1] == 0
  {
    var r0 := Adc(c[0], c[0], false);
    c[0] := r0.0;
    var r1 := Adc(c[1], c[1], r0.1);
    c[1] := r1.0;
    var r2 := Adc(c[2], c[2], r1.1);
    c[2] := r2.0;
    var r3 := Adc(c[3], c[3], r2.1);
    c[3] := r3.0;
  }

  /** shift_right: halve four words. */
  method ShiftRight(c: array<Word>)
    requires c.Length == 4
    modifies c
    ensures Val4(c[..]) == old(Val4(c[..])) / 2
  {
    var r3 := Rcr(c[3], false);
    c[3] := r3.0;
    var r2 := Rcr(c[2], r3.1);
    c[2] := r2.0;
    var r1 := Rcr(c[1], r2.1);
    c[1] := r1.0;
    var r0 := Rcr(c[0], r1.1);
    c[0] := r0.0;
  }

  // ----- Powers of two

  function Pow2(n: nat): (p: int)
    ensures p > 0
  {
    if n == 0 then 1 else 2 * Pow2(n - 1)
  }

  lemma {:induction false} Pow2Adds(m: nat, n: nat)
    ensures Pow2(m + n) == Pow2(m) * Pow2(n)
  {
    if m > 0 {
      Pow2Adds(m - 1, n);
      assert Pow2(m + n) == 2 * Pow2(m - 1 + n);
      assert 2 * (Pow2(m - 1) * Pow2(n)) == (2 * Pow2(m - 1)) * Pow2(n);
    }
  }

  lemma {:induction false} Pow2Grows(m: nat, n: nat)
    requires m <= n
    ensures Pow2(m) <= Pow2(n)
  {
    if m < n { Pow2Grows(m, n - 1); }
  }

  lemma Pow2Values()
    ensures Pow2(31) == TOP && Pow2(32) == BASE && Pow2(63) == TOP * BASE
    ensures Pow2(64) == BASE2 && Pow2(96) == BASE * BASE2
  {
    assert Pow2(8) == 0x100;
    Pow2Adds(8, 8);
    Pow2Adds(16, 16);
    Pow2Adds(32, 32);
    Pow2Adds(32, 64);
    assert Pow2(32) == 2 * Pow2(31);
    assert Pow2(64) == 2 * Pow2(63);
  }

  /** Two divisions in a row are one. */
  lemma DivDiv(x: int, m: int, n: int)
    requires x >= 0 && m > 0 && n > 0
    ensures m * n > 0 && x / m / n == x / (m * n)
  {
    var q := x / m / n;
    Positive(m, n);
    assert x / m == n * q + x / m % n;
    assert x == m * (x / m) + x % m;
    Distributes(m, n * q, x / m % n);
    Distributes(m, x / m % n, 1);
    AtMost(m, x / m % n + 1, n);
    Associates(m, n, q);
    IsQuotient(x, m * n, q);
  }

  lemma Positive(m: int, n: int)
    requires m > 0 && n > 0
    ensures m * n > 0
  {
  }

  lemma NonNegative(m: int, n: int)
    requires m >= 0 && n >= 0
    ensures m * n >= 0
  {
  }

  lemma Distributes(m: int, a: int, b: int)
    ensures m * (a + b) == m * a + m * b
  {
  }

  lemma Associates(m: int, n: int, q: int)
    ensures m * (n * q) == (m * n) * q
  {
  }

  lemma AtMost(m: int, a: int, b: int)
    requires m >= 0 && a <= b
    ensures m * a <= m * b
  {
  }

  /** The quotient is the one number whose multiple leaves a remainder smaller than the divisor. */
  lemma IsQuotient(x: int, d: int, q: int)
    requires d > 0 && d * q <= x < d * q + d
    ensures x / d == q && x % d == x - d * q
  {
    var k := x / d;
    assert x == d * k + x % d;
    if k < q {
      AtMost(d, k + 1, q);
      Distributes(d, k, 1);
    } else if k > q {
      AtMost(d, q + 1, k);
      Distributes(d, q, 1);
    }
  }

  lemma QuotientAtLeast(x: int, d: int, n: int)
    requires d > 0 && x >= 0
    ensures x / d >= n <==> x >= d * n
  {
    var q := x / d;
    assert d * q <= x < d * q + d;
    if q >= n {
      AtMost(d, n, q);
    } else {
      AtMost(d, q + 1, n);
      Distributes(d, q, 1);
    }
  }

  /** A common factor drops out of a division. */
  lemma Cancels(x: int, d: int, n: int)
    requires x >= 0 && d > 0 && n > 0
    ensures d * n > 0 && (x * n) / (d * n) == x / d && (x * n) % (d * n) == (x % d) * n
  {
    Positive(d, n);
    var q, t := x / d, x % d;
    assert x == d * q + t;
    Distributes(n, d * q, t);
    assert n * (d * q) == (d * n) * q;
    NonNegative(t, n);
    AtMost(n, t + 1, d);
    Distributes(n, t, 1);
    IsQuotient(x * n, d * n, q);
  }
}
