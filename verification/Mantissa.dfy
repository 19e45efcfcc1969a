/**
  Multiplication and division of temporary reals: kernel/math/mul.c and kernel/math/div.c.
 */
module Mantissa {
  import opened Words

  /** temp_real: a 64-bit mantissa in two words, and the sign above a 15-bit biased exponent. */
  type HalfWord = x: int | 0 <= x < 0x1_0000
  datatype TempReal = TempReal(a: Word, b: Word, exponent: HalfWord)

  function Mant(t: TempReal): int { Val2(t.a, t.b) }
  function Biased(t: TempReal): (e: int)
    ensures 0 <= e < 0x8000
  {
    t.exponent % 0x8000
  }
  predicate Negative(t: TempReal) { t.exponent >= 0x8000 }
  predicate Normal(t: TempReal) { t.b >= TOP }

  function Pack(lo: Word, hi: Word, e: int, sign: HalfWord): (r: TempReal)
    requires 0 <= e < 0x8000 && (sign == 0 || sign == 0x8000)
    ensures Biased(r) == e && Negative(r) == (sign != 0)
  {
    TempReal(lo, hi, e + sign)
  }

  /** The sign of a product or quotient, in place. */
  function SignBit(x: TempReal, y: TempReal): HalfWord {
    if Negative(x) != Negative(y) then 0x8000 else 0
  }

  // ----- mul.c

  /** The instructions of mul64, product by product; none of the carries is lost. */
  method Mul64(x: TempReal, y: TempReal, c: array<Word>)
    requires c.Length == 4
    modifies c
    ensures Val4(c[..]) == Mant(x) * Mant(y)
  {
    var p := Mull(x.a, y.a);
    c[0] := p.0;
    c[1] := p.1;
    var q := Mull(x.b, y.b);
    c[2] := q.0;
    c[3] := q.1;
    CrossProducts(x.a, x.b, y.a, y.b);
    AddProduct(c, x.a, y.b, x.a * y.a + BASE2 * (x.b * y.b));
    AddProduct(c, x.b, y.a, x.a * y.a + BASE2 * (x.b * y.b) + BASE * (x.a * y.b));
  }

  lemma CrossProducts(a: Word, b: Word, c: Word, d: Word)
    ensures (a + BASE * b) * (c + BASE * d) == a * c + BASE2 * (b * d) + BASE * (a * d) + BASE * (b * c) < BASE4
    ensures 0 <= a * d && 0 <= b * c
  {
    var x, y := a + BASE * b, c + BASE * d;
    NonNegative(a, d);
    NonNegative(b, c);
    NonNegative(x, y);
    AtMost(x, y, BASE2 - 1);
    AtMost(BASE2 - 1, x, BASE2 - 1);
    Distributes(x, c, BASE * d);
    Distributes(c, a, BASE * b);
    Distributes(BASE * d, a, BASE * b);
    assert (BASE * b) * c == BASE * (b * c);
    assert a * (BASE * d) == BASE * (a * d);
    assert (BASE * b) * (BASE * d) == BASE2 * (b * d);
  }

  /** movl, mull, addl, adcl, adcl: add u * v at the second word; the sum fits. */
  method AddProduct(c: array<Word>, u: Word, v: Word, ghost before: int)
    requires c.Length == 4 && Val4(c[..]) == before && before + BASE * (u * v) < BASE4
    modifies c
    ensures Val4(c[..]) == before + BASE * (u * v)
  {
    var p := Mull(u, v);
    var r1 := Adc(p.0, c[1], false);
    c[1] := r1.0;
    var r2 := Adc(p.1, c[2], r1.1);
    c[2] := r2.0;
    var r3 := Adc(0, c[3], r2.1);
    c[3] := r3.0;
  }

  /** The bits of a four-word number that a result keeps. */
  lemma UpperHalf(c: seq<Word>)
    requires |c| == 4
    ensures Val2(c[2], c[3]) == Val4(c) / BASE2
    ensures c[3] >= TOP <==> 2 * Val4(c) >= BASE4
  {
  }

  /** The first 64 bits of a product of two normalised mantissas. */
  function CutProduct(p: int): int {
    if 2 * p >= BASE4 then p / BASE2 else 2 * p / BASE2
  }

  /**
    r is the 128-bit number p with exponent e, doubled k times and cut to 64 bits, as far up as the
    exponent allows.
   */
  ghost predicate Scaled(r: TempReal, p: int, e: int, k: nat) {
    && Biased(r) + k == e
    && p * Pow2(k) < BASE4 && Mant(r) == p * Pow2(k) / BASE2
    && (Normal(r) || Biased(r) == 0)
  }

  lemma ScaledFrom(c: seq<Word>, p: int, e: int, sign: HalfWord, k: nat)
    requires |c| == 4 && Val4(c) == p * Pow2(k) && 0 <= e < 0x8000 && (sign == 0 || sign == 0x8000)
    requires c[3] >= TOP || e == 0
    ensures Scaled(Pack(c[2], c[3], e, sign), p, e + k, k)
  {
    UpperHalf(c);
  }

  lemma ZeroWords(c: seq<Word>)
    requires |c| == 4
    ensures Val4(c) == 0 <==> c[0] == c[1] == c[2] == c[3] == 0
  {
  }

  /**
    fmul.  The mantissa is the product, doubled until its top bit is set or the exponent
    has come down to zero, cut to 64 bits; a result that overflows is not stored.
   */
  method Fmul(x: TempReal, y: TempReal, before: TempReal) returns (r: TempReal, overflow: bool, ghost k: nat)
    ensures overflow <==> Biased(x) + Biased(y) - 16382 > 0x7fff
    ensures overflow ==> r == before
    ensures Biased(x) + Biased(y) < 16382 || (!overflow && Mant(x) * Mant(y) == 0) ==>
            r == TempReal(0, 0, SignBit(x, y))
    ensures !overflow && Biased(x) + Biased(y) >= 16382 && Mant(x) * Mant(y) != 0 ==>
              Negative(r) == (Negative(x) != Negative(y))
                && Scaled(r, Mant(x) * Mant(y), Biased(x) + Biased(y) - 16382, k)
    ensures !overflow && Biased(x) + Biased(y) > 16382 && Normal(x) && Normal(y) ==>
              Normal(r) && Mant(r) == CutProduct(Mant(x) * Mant(y))
  {
    hide Val4, Pow2, CutProduct, Scaled, Mant;
    var sign := SignBit(x, y);
    var i := Biased(x) + Biased(y) - 16383 + 1;
    k, overflow := 0, false;
    if i < 0 {
      r := TempReal(0, 0, sign);
      return;
    }
    if i > 0x7fff {
      r, overflow := before, true;
      return;
    }
    var tmp := new Word[4](_ => 0);
    Mul64(x, y, tmp);
    ghost var product := Mant(x) * Mant(y);
    ZeroWords(tmp[..]);
    if tmp[0] != 0 || tmp[1] != 0 || tmp[2] != 0 || tmp[3] != 0 {
      i, k := Normalise(tmp, i, product);
      ScaledFrom(tmp[..], product, i, sign, k);
    } else {
      i := 0;
    }
    r := Pack(tmp[2], tmp[3], i, sign);
    if Normal(x) && Normal(y) && Biased(x) + Biased(y) > 16382 {
      NormalProduct(x, y, r, k);
    }
  }

  /** The loops that double a number until its top bit is set or the exponent is zero. */
  method Normalise(c: array<Word>, e: nat, ghost m: int) returns (i: nat, ghost k: nat)
    requires c.Length == 4 && Val4(c[..]) == m
    modifies c
    ensures i + k == e && Val4(c[..]) == m * Pow2(k) && (i == 0 || c[3] >= TOP)
    ensures old(c[0]) == old(c[1]) == 0 ==> c[0] == c[1] == 0
  {
    i, k := e, 0;
    while i != 0 && c[3] < TOP
      invariant i + k == e && Val4(c[..]) == m * Pow2(k)
      invariant old(c[0]) == old(c[1]) == 0 ==> c[0] == c[1] == 0
    {
      i := i - 1;
      ShiftLeft(c);
      k := k + 1;
      Doubled(m, k);
    }
  }

  lemma Doubled(m: int, k: nat)
    requires k > 0
    ensures m * Pow2(k) == 2 * (m * Pow2(k - 1))
  {
  }

  lemma NormalIsLarge(x: TempReal, y: TempReal)
    requires Normal(x) && Normal(y)
    ensures 4 * (Mant(x) * Mant(y)) >= BASE4
  {
    AtMost(Mant(x), TOP * BASE, Mant(y));
    AtMost(TOP * BASE, TOP * BASE, Mant(x));
  }

  /** For normalised operands the result is the product without the bits that do not fit. */
  lemma NormalProduct(x: TempReal, y: TempReal, r: TempReal, k: nat)
    requires Normal(x) && Normal(y) && Biased(x) + Biased(y) > 16382
    requires Mant(x) * Mant(y) != 0 ==> Scaled(r, Mant(x) * Mant(y), Biased(x) + Biased(y) - 16382, k)
    ensures Mant(x) * Mant(y) > 0 && Normal(r) && Mant(r) == CutProduct(Mant(x) * Mant(y))
  {
    var p := Mant(x) * Mant(y);
    NormalIsLarge(x, y);
    if k > 1 {
      Doubled(p, k);
      Doubled(p, k - 1);
      AtMost(p, 1, Pow2(k - 2));
    }
    assert Pow2(1) == 2;
  }

  // ----- div.c

  /** try_sub: b less a, and whether it went without a borrow. */
  method TrySub(a: array<Word>, b: array<Word>) returns (ok: bool)
    requires a.Length == b.Length == 4 && a != b
    modifies b
    ensures ok <==> Val4(a[..]) <= old(Val4(b[..]))
    ensures Val4(b[..]) == old(Val4(b[..])) - Val4(a[..]) + (if ok then 0 else BASE4)
  {
    var r0 := Sbb(b[0], a[0], false);
    b[0] := r0.0;
    var r1 := Sbb(b[1], a[1], r0.1);
    b[1] := r1.0;
    var r2 := Sbb(b[2], a[2], r1.1);
    b[2] := r2.0;
    var r3 := Sbb(b[3], a[3], r2.1);
    b[3] := r3.0;
    ok := !r3.1;
  }

  /** The |= of a mask with one bit. */
  function SetBit(w: Word, mask: Word): int
    requires mask > 0
  {
    if w / mask % 2 == 1 then w else w + mask
  }

  lemma MaskAdds(w: Word, m: int, n: int)
    requires m > 0 && n > 0 && m * n == TOP && w % (2 * m) == 0
    ensures m <= TOP && SetBit(w, m) == w + m < BASE && (w + m) % m == 0 && w % m == 0
  {
    AtMost(m, 1, n);
    Associates(2, m, n);
    var q := w / (2 * m);
    assert w == 2 * m * q == m * (2 * q);
    IsQuotient(w, m, 2 * q);
    Below(2 * m, q, n);
    Distributes(m, 2 * q, 1);
    IsQuotient(w + m, m, 2 * q + 1);
  }

  /** A bit below which, and at which, everything is zero is set by adding it. */
  lemma BitAdds(w: Word, n: nat)
    requires n < 32 && w % Pow2(n + 1) == 0
    ensures 0 < Pow2(n) <= TOP && SetBit(w, Pow2(n)) == w + Pow2(n) < BASE
    ensures (w + Pow2(n)) % Pow2(n) == 0 && w % Pow2(n) == 0
  {
    hide SetBit;
    Pow2Values();
    Pow2Adds(n, 31 - n);
    MaskAdds(w, Pow2(n), Pow2(31 - n));
  }

  /** A multiple of d below d * n leaves room for d. */
  lemma Below(d: int, q: int, n: int)
    requires d > 0 && d * q < d * n
    ensures d * q + d <= d * n
  {
    if q < n {
      AtMost(d, q + 1, n);
    } else {
      AtMost(d, n, q);
    }
  }

  /**
    Where the quotient stands after i turns: which word and bit come next, and that
    nothing has been set below.
   */
  ghost predicate Cursor(i: nat, at: nat, mask: int, lo: Word, hi: Word) {
    && (i == 0 ==> at == 4 && mask == 0)
    && (0 < i <= 32 ==> at == 3 && mask == Pow2(32 - i))
    && (32 < i <= 64 ==> at == 2 && mask == Pow2(64 - i))
    && (i <= 32 ==> lo == 0 && hi % Pow2(32 - i) == 0)
    && (32 < i <= 64 ==> lo % Pow2(64 - i) == 0)
  }

  lemma HighBit(i: nat, hi: Word)
    requires i < 32 && hi % Pow2(32 - i) == 0
    ensures var mask := Pow2(31 - i);
            && 0 < mask <= TOP && hi % mask == 0 && SetBit(hi, mask) % mask == 0
            && 0 <= SetBit(hi, mask) < BASE && BASE * SetBit(hi, mask) == BASE * hi + Pow2(63 - i)
  {
    hide SetBit;
    BitAdds(hi, 31 - i);
    Pow2Values();
    Pow2Adds(32, 31 - i);
  }

  lemma NextMask(i: nat, at: nat, mask: int, lo: Word, hi: Word)
    requires i < 64 && Cursor(i, at, mask, lo, hi)
    ensures at >= 2 && (i % 32 == 0 <==> mask / 2 == 0)
    ensures (if mask / 2 == 0 then at - 1 else at) == (if i < 32 then 3 else 2)
    ensures (if mask / 2 == 0 then TOP else mask / 2) == (if i < 32 then Pow2(31 - i) else Pow2(63 - i))
  {
    Pow2Values();
    if 0 < i < 32 { OnePlace(31 - i); }
    if 32 < i { OnePlace(63 - i); }
    hide Pow2;
  }

  lemma OnePlace(n: nat)
    ensures Pow2(n + 1) == 2 * Pow2(n) && Pow2(0) == 1
  {
  }

  /** The bit of turn i: setting it or not moves the cursor on, and it is worth 2 to the 63 - i. */
  lemma NextBit(i: nat, at: nat, mask: int, lo: Word, hi: Word)
    requires i < 64 && Cursor(i, at, mask, lo, hi)
    ensures var at', mask' := if mask / 2 == 0 then at - 1 else at, if mask / 2 == 0 then TOP else mask / 2;
            && at' == (if i < 32 then 3 else 2) && mask' == (if i < 32 then Pow2(31 - i) else Pow2(63 - i))
            && 0 < mask' <= TOP && Cursor(i + 1, at', mask', lo, hi)
            && (at' == 3 ==> 0 <= SetBit(hi, mask') < BASE && Cursor(i + 1, at', mask', lo, SetBit(hi, mask'))
                             && Val2(lo, SetBit(hi, mask')) == Val2(lo, hi) + Pow2(63 - i))
            && (at' == 2 ==> 0 <= SetBit(lo, mask') < BASE && Cursor(i + 1, at', mask', SetBit(lo, mask'), hi)
                             && Val2(SetBit(lo, mask'), hi) == Val2(lo, hi) + Pow2(63 - i))
  {
    hide SetBit, Pow2;
    NextMask(i, at, mask, lo, hi);
    if i < 32 {
      HighBit(i, hi);
    } else {
      Pow2Values();
      BitAdds(lo, 63 - i);
    }
  }

  lemma CursorStarts()
    ensures Cursor(0, 4, 0, 0, 0)
  {
    Pow2Values();
  }

  /** What a restoring division keeps: the quotient so far and the rest make up the dividend. */
  ghost predicate Dividing(i: nat, a: int, b: int, q: int, dividend: int, d: int) {
    && i <= 64 && b == d * Pow2(64 - i)
    && a + 2 * d * q == dividend && 0 <= a < 2 * b
  }

  lemma DivideStep(i: nat, a: int, b: int, q: int, dividend: int, d: int)
    requires Dividing(i, a, b, q, dividend, d) && i < 64
    ensures b / 2 == d * Pow2(63 - i) && b == 2 * (b / 2)
    ensures a >= b ==> Dividing(i + 1, a - b, b / 2, q + Pow2(63 - i), dividend, d)
    ensures a < b ==> Dividing(i + 1, a, b / 2, q, dividend, d)
  {
    Doubled(d, 64 - i);
    Distributes(2 * d, q, Pow2(63 - i));
  }

  lemma DivideEnds(a: int, b: int, q: int, dividend: int, d: int)
    requires Dividing(64, a, b, q, dividend, d) && d > 0
    ensures q == dividend / (2 * d)
  {
    assert Pow2(0) == 1;
    IsQuotient(dividend, 2 * d, q);
  }

  lemma Zero()
    ensures Val2(0, 0) == 0
  {
  }

  method CopyWords(from: array<Word>, to: array<Word>)
    requires from.Length == to.Length == 4 && from != to
    modifies to
    ensures to[..] == from[..]
  {
    to[0] := from[0];
    to[1] := from[1];
    to[2] := from[2];
    to[3] := from[3];
  }

  /** div64: subtract the divisor where it goes, and halve it, 64 times. */
  method Div64(a: array<Word>, b: array<Word>, c: array<Word>, ghost d: int)
    requires a.Length == b.Length == c.Length == 4 && a != b && a != c && b != c
    requires d > 0 && Val4(b[..]) == d * BASE2 && Val4(a[..]) < 2 * Val4(b[..])
    requires c[2] == c[3] == 0
    modifies a, b, c
    ensures Val2(c[2], c[3]) == old(Val4(a[..])) / (2 * d)
    ensures c[0] == old(c[0]) && c[1] == old(c[1])
  {
    hide Val4, Val2, Pow2, SetBit, Cursor;
    ghost var dividend := Val4(a[..]);
    Pow2Values();
    CursorStarts();
    var at: nat, mask, i := 4, 0, 0;
    Zero();
    var tmp := new Word[4](_ => 0);
    while i < 64
      invariant 0 <= i <= 64 && 0 <= mask < BASE
      invariant Cursor(i, at, mask, c[2], c[3])
      invariant Dividing(i, Val4(a[..]), Val4(b[..]), Val2(c[2], c[3]), dividend, d)
      invariant c[0] == old(c[0]) && c[1] == old(c[1])
    {
      NextBit(i, at, mask, c[2], c[3]);
      DivideStep(i, Val4(a[..]), Val4(b[..]), Val2(c[2], c[3]), dividend, d);
      mask := mask / 2;
      if mask == 0 {
        at := at - 1;
        mask := TOP;
      }
      CopyWords(a, tmp);
      var ok := TrySub(b, tmp);
      if ok {
        c[at] := SetBit(c[at], mask);
        CopyWords(tmp, a);
      }
      ShiftRight(b);
      i := i + 1;
    }
    DivideEnds(Val4(a[..]), Val4(b[..]), Val2(c[2], c[3]), dividend, d);
  }

  /** The exceptions of the status word that fdiv can set. */
  datatype Flags = Flags(zeroDivide: bool, underflow: bool, denormal: bool, overflow: bool, inexact: bool)
  const NO_FLAGS := Flags(false, false, false, false, false)

  /** The loop that brings the divisor's top bit up. */
  method Align(b: array<Word>, e: int, ghost m: int) returns (i: int, ghost k: nat)
    requires b.Length == 4 && m > 0 && Val4(b[..]) == m * BASE2
    modifies b
    ensures i == e + k && Val4(b[..]) == m * Pow2(k) * BASE2 && b[3] >= TOP
  {
    i, k := e, 0;
    while b[3] < TOP
      invariant i == e + k && Val4(b[..]) == m * Pow2(k) * BASE2 && m * Pow2(k) > 0
      decreases BASE4 - Val4(b[..])
    {
      i := i + 1;
      ShiftLeft(b);
      k := k + 1;
      Doubled(m, k);
    }
  }

  /** p, which has exponent e, can be doubled s times, and then its top bit is set or the exponent is used up. */
  ghost predicate Shifts(p: int, e: int, s: nat) {
    p * Pow2(s) < BASE4 && s <= e && (s == e || 2 * (p * Pow2(s)) >= BASE4)
  }

  lemma ShiftsFrom(c: seq<Word>, p: int, i: nat, s: nat)
    requires |c| == 4 && Val4(c) == p * Pow2(s) && (i == 0 || c[3] >= TOP)
    ensures Shifts(p, i + s, s)
  {
    UpperHalf(c);
  }

  lemma InUpperHalf(c: seq<Word>)
    requires |c| == 4 && c[0] == c[1] == 0
    ensures Val4(c) == Val2(c[2], c[3]) * BASE2
  {
  }

  /** What div64 leaves: the quotient for a divisor brought up by k places. */
  function Quotient(m: int, d: int): int
    requires d > 0
  {
    m * BASE2 / (2 * d)
  }

  /** The divisor brought up fills its two words. */
  predicate Aligned(d: int) { TOP * BASE <= d < BASE2 }

  lemma AlignedFrom(b: seq<Word>, d: int)
    requires |b| == 4 && b[3] >= TOP && Val4(b) == d * BASE2
    ensures Aligned(d)
  {
    UpperHalf(b);
  }

  /** fdiv up to the quotient: load the operands, bring the divisor up, divide. */
  method Divided(x: TempReal, y: TempReal, e: int) returns (tmp: array<Word>, i: int, ghost k: nat)
    requires Mant(y) > 0
    ensures fresh(tmp) && tmp.Length == 4 && tmp[0] == tmp[1] == 0
    ensures Aligned(Mant(y) * Pow2(k)) && i == e + k
    ensures Val2(tmp[2], tmp[3]) == Quotient(Mant(x), Mant(y) * Pow2(k))
  {
    hide Pow2;
    tmp := new Word[4](_ => 0);
    var a := new Word[4](_ => 0);
    a[2] := x.a;
    a[3] := x.b;
    var b := new Word[4](_ => 0);
    b[2] := y.a;
    b[3] := y.b;
    InUpperHalf(a[..]);
    InUpperHalf(b[..]);
    i, k := Align(b, e, Mant(y));
    AlignedFrom(b[..], Mant(y) * Pow2(k));
    Div64(a, b, tmp, Mant(y) * Pow2(k));
  }

  /** fdiv after it: bring the quotient up, and report one whose top bit cannot be set. */
  method BroughtUp(tmp: array<Word>, e: nat, ghost q: int) returns (i: nat, denormal: bool, ghost s: nat)
    requires tmp.Length == 4 && tmp[0] == tmp[1] == 0 && Val2(tmp[2], tmp[3]) == q
    modifies tmp
    ensures tmp[0] == tmp[1] == 0
    ensures q == 0 ==> i == 0 && !denormal && tmp[2] == tmp[3] == 0
    ensures q != 0 ==> && i + s == e && Shifts(q * BASE2, e, s) && Val4(tmp[..]) == q * BASE2 * Pow2(s)
                       && (i == 0 || tmp[3] >= TOP) && (denormal <==> tmp[3] < TOP)
  {
    hide Pow2, Shifts;
    InUpperHalf(tmp[..]);
    i, denormal, s := e, false, 0;
    if tmp[0] != 0 || tmp[1] != 0 || tmp[2] != 0 || tmp[3] != 0 {
      i, s := Normalise(tmp, i, q * BASE2);
      ShiftsFrom(tmp[..], q * BASE2, i, s);
      if tmp[3] < TOP {
        denormal := true;
      }
    } else {
      i := 0;
    }
  }

  /**
    fdiv.  The quotient of the mantissas is formed for a divisor with its top bit set and then
    brought up in turn.  The words that would show a remainder are never written, so an
    inexact quotient is not reported: the silence is right exactly when the division of the
    mantissas leaves no remainder.
   */
  method Fdiv(x: TempReal, y: TempReal, before: TempReal)
    returns (r: TempReal, flags: Flags, ghost k: nat, ghost s: nat)
    ensures !flags.inexact
    ensures flags.zeroDivide <==> Mant(y) == 0
    ensures flags.underflow <==> Mant(y) != 0 && Biased(x) - Biased(y) + 16383 < 0
    ensures flags.zeroDivide || flags.overflow ==> r == before
    ensures flags.underflow ==> r == TempReal(0, 0, SignBit(x, y)) && !flags.denormal && !flags.overflow
    ensures flags.zeroDivide ==> !flags.denormal && !flags.overflow
    ensures !flags.zeroDivide && !flags.underflow ==>
              && Aligned(Mant(y) * Pow2(k))
              && var q, e := Quotient(Mant(x), Mant(y) * Pow2(k)), Biased(x) - Biased(y) + 16383 + k;
                if q == 0 then r == TempReal(0, 0, SignBit(x, y)) && flags == NO_FLAGS
                else
                  && Shifts(q * BASE2, e, s)
                  && (flags.overflow <==> e - s > 0x7fff)
                  && (!flags.overflow ==> Scaled(r, q * BASE2, e, s) && Negative(r) == (Negative(x) != Negative(y)))
                  && (flags.denormal <==> 2 * (q * BASE2 * Pow2(s)) < BASE4)
    ensures Normal(x) && Normal(y) && Biased(x) - Biased(y) + 16383 >= 1 && !flags.overflow ==>
              Mant(r) == DeliveredQuotient(Mant(x), Mant(y))
    ensures !flags.zeroDivide && !flags.underflow && !flags.overflow ==>
              (IsExactQuotient(r, x, y) <==> Mant(x) * (TOP * BASE) % (Mant(y) * Pow2(k)) == 0)
  {
    hide Val4, Pow2, Scaled, Shifts, Quotient, Aligned, DeliveredQuotient, IsExactQuotient;
    var sign := SignBit(x, y);
    flags, k, s := NO_FLAGS, 0, 0;
    if y.a == 0 && y.b == 0 {
      r, flags := before, flags.(zeroDivide := true);
      return;
    }
    var i := Biased(x) - Biased(y) + 16383;
    if i < 0 {
      r, flags := TempReal(0, 0, sign), flags.(underflow := true);
      return;
    }
    var tmp;
    tmp, i, k := Divided(x, y, i);
    ghost var q := Quotient(Mant(x), Mant(y) * Pow2(k));
    ghost var e := i;
    var denormal;
    i, denormal, s := BroughtUp(tmp, i, q);
    flags := flags.(denormal := denormal);
    UpperHalf(tmp[..]);
    if i > 0x7fff {
      r, flags := before, flags.(overflow := true);
      return;
    }
    if tmp[0] != 0 || tmp[1] != 0 {
      flags := flags.(inexact := true);
    }
    r := Pack(tmp[2], tmp[3], i, sign);
    if q != 0 {
      ScaledFrom(tmp[..], q * BASE2, i, sign, s);
    }
    if Normal(x) && Normal(y) && Biased(x) - Biased(y) + 16383 >= 1 {
      NormalQuotient(x, y, r, k, s);
    }
    ExactIff(x, y, r, k, s);
  }

  // ----- How good a quotient fdiv delivers for normalised operands

  /** The first 64 bits of the quotient of two normalised mantissas. */
  function CutQuotient(m: int, d: int): int
    requires d > 0
  {
    if m >= d then m * (TOP * BASE) / d else m * BASE2 / d
  }

  /** What fdiv stores instead. */
  function DeliveredQuotient(m: int, d: int): int
    requires d > 0
  {
    (if m >= d then 1 else 2) * (m * (TOP * BASE) / d)
  }

  lemma Halves(m: int, d: int)
    requires m >= 0 && d > 0
    ensures Quotient(m, d) == m * (TOP * BASE) / d
  {
    var h := m * (TOP * BASE);
    assert m * BASE2 == 2 * h;
    var q := h / d;
    assert d * q <= h < d * q + d;
    assert (2 * d) * q == 2 * (d * q);
    IsQuotient(2 * h, 2 * d, q);
  }

  /** The quotient has its top bit where the larger mantissa is the dividend, and the next one otherwise. */
  lemma QuotientRange(m: int, d: int)
    requires Aligned(m) && Aligned(d)
    ensures TOP * BASE <= (if m >= d then Quotient(m, d) else 2 * Quotient(m, d)) < BASE2
  {
    var h := TOP * BASE;
    Halves(m, d);
    NonNegative(m, h);
    QuotientAtLeast(m * h, d, h);
    QuotientAtLeast(m * h, d, 2 * h);
    QuotientAtLeast(m * h, d, h / 2);
    hide Quotient;
  }

  lemma NoShiftNeeded(d: int, k: nat)
    requires Aligned(d) && Aligned(d * Pow2(k))
    ensures k == 0
  {
    if k > 0 {
      Doubled(d, k);
      AtMost(d, 1, Pow2(k - 1));
    }
  }

  /** How far a quotient of normalised mantissas is brought up. */
  lemma BroughtUpBy(q: int, e: int, s: nat, up: bool)
    requires e >= 1 && Shifts(q * BASE2, e, s) && TOP * BASE <= (if up then 2 * q else q) < BASE2
    ensures s == if up then 1 else 0
  {
    assert Pow2(1) == 2;
    if s > 1 {
      Doubled(q * BASE2, s);
      Doubled(q * BASE2, s - 1);
      AtMost(q * BASE2, 1, Pow2(s - 2));
    }
  }

  /** The mantissa fdiv delivers for normalised operands. */
  lemma NormalQuotient(x: TempReal, y: TempReal, r: TempReal, k: nat, s: nat)
    requires Normal(x) && Normal(y) && Biased(x) - Biased(y) + 16383 >= 1
    requires Aligned(Mant(y) * Pow2(k))
    requires var q, e := Quotient(Mant(x), Mant(y) * Pow2(k)), Biased(x) - Biased(y) + 16383 + k;
             q != 0 ==> Shifts(q * BASE2, e, s) && Scaled(r, q * BASE2, e, s)
    ensures Mant(r) == DeliveredQuotient(Mant(x), Mant(y))
  {
    NoShiftNeeded(Mant(y), k);
    QuotientRange(Mant(x), Mant(y));
    Halves(Mant(x), Mant(y));
    var q := Quotient(Mant(x), Mant(y));
    hide Quotient;
    assert Mant(y) * Pow2(k) == Mant(y);
    BroughtUpBy(q, Biased(x) - Biased(y) + 16383, s, Mant(x) < Mant(y));
  }

  /** Which is the quotient cut to 64 bits unless the dividend is smaller and the 64th bit is one. */
  lemma LastBitLostIff(m: int, d: int)
    requires Aligned(m) && Aligned(d)
    ensures DeliveredQuotient(m, d) == CutQuotient(m, d)
       <==> m >= d || 2 * (m * (TOP * BASE) % d) < d
  {
    var h := m * (TOP * BASE);
    NonNegative(m, TOP * BASE);
    assert m * BASE2 == 2 * h;
    var q, t := h / d, h % d;
    assert h == d * q + t;
    assert d * (2 * q) == 2 * (d * q) && d * (2 * q + 1) == 2 * (d * q) + d;
    if 2 * t < d {
      IsQuotient(2 * h, d, 2 * q);
    } else {
      IsQuotient(2 * h, d, 2 * q + 1);
    }
  }

  /** One seventh is one for which the bit is lost. */
  lemma SeventhLosesIt()
    ensures var one, seven := 0x8000_0000_0000_0000, 0xe000_0000_0000_0000;
            DeliveredQuotient(one, seven) + 1 == CutQuotient(one, seven)
  {
  }

  // ----- When fdiv is right not to report an inexact quotient

  /** r times y is x: the exponents are biased by 16383 and count the 63 places after the point. */
  ghost predicate IsExactQuotient(r: TempReal, x: TempReal, y: TempReal) {
    Mant(r) * Pow2(Biased(r)) * (Mant(y) * Pow2(Biased(y))) == Mant(x) * Pow2(Biased(x) + 16383 + 63)
  }

  lemma Remainder(h: int, d: int, q: int)
    requires d > 0 && q == h / d
    ensures q * d == h <==> h % d == 0
  {
    assert h == d * q + h % d;
  }

  lemma SameScale(a: int, b: int, p: int)
    requires p > 0
    ensures a * p == b * p <==> a == b
  {
    if a < b {
      AtMost(p, a + 1, b);
    } else if a > b {
      AtMost(p, b + 1, a);
    }
  }

  lemma ScaledProduct(q: int, p: int, b: int)
    ensures q * BASE2 * p / BASE2 == q * p && q * p * b == q * (p * b)
  {
    assert q * BASE2 * p == BASE2 * (q * p);
    IsQuotient(q * BASE2 * p, BASE2, q * p);
  }

  /** The value of a real that was brought up from q by s places. */
  lemma ScaledValue(r: TempReal, q: int, e: nat, s: nat)
    requires Scaled(r, q * BASE2, e, s)
    ensures Mant(r) * Pow2(Biased(r)) == q * Pow2(e)
  {
    hide Pow2, Mant, Biased;
    Pow2Adds(s, Biased(r));
    ScaledProduct(q, Pow2(s), Pow2(Biased(r)));
  }

  lemma Regroup(q: int, a: int, d: int, b: int)
    ensures q * a * (d * b) == q * d * (a * b)
  {
    assert q * a * (d * b) == q * (a * (d * b));
    assert a * (d * b) == d * (a * b);
    assert q * (d * (a * b)) == q * d * (a * b);
  }

  lemma Cancel(q: int, d: int, m: int, h: int, pe: int, pb: int, pk: int, pn: int)
    requires pe * pb == pk * pn && pn > 0
    ensures q * pe * (d * pb) == m * (h * pn) <==> q * (d * pk) == m * h
  {
    Regroup(q, pe, d, pb);
    Rejoin(q, d, pk, pn);
    Rejoin(1, m, h, pn);
    SameScale(q * (d * pk), m * h, pn);
  }

  /** Exact for the brought-up quotient means exact for the mantissas. */
  lemma ExactMantissas(x: TempReal, y: TempReal, r: TempReal, q: int, k: nat, e: nat)
    requires Mant(r) * Pow2(Biased(r)) == q * Pow2(e) && e == Biased(x) - Biased(y) + 16383 + k
    ensures IsExactQuotient(r, x, y) <==> q * (Mant(y) * Pow2(k)) == Mant(x) * (TOP * BASE)
  {
    hide Pow2, Mant, Biased;
    var n := Biased(x) + 16383;
    Pow2Adds(e, Biased(y));
    Pow2Adds(k, n);
    Pow2Adds(63, n);
    Pow2Values();
    Cancel(q, Mant(y), Mant(x), TOP * BASE, Pow2(e), Pow2(Biased(y)), Pow2(k), Pow2(n));
  }

  lemma Rejoin(q: int, d: int, a: int, b: int)
    ensures q * d * (a * b) == q * (d * a) * b
  {
    assert q * d * (a * b) == q * (d * (a * b));
    assert d * (a * b) == d * a * b;
    assert q * (d * a * b) == q * (d * a) * b;
  }

  /** For all operands that raise no other exception: what is stored is the quotient exactly if nothing remains. */
  lemma ExactIff(x: TempReal, y: TempReal, r: TempReal, k: nat, s: nat)
    requires Mant(y) > 0 && Biased(x) - Biased(y) + 16383 >= 0 && Mant(y) * Pow2(k) > 0
    requires var q, e := Quotient(Mant(x), Mant(y) * Pow2(k)), Biased(x) - Biased(y) + 16383 + k;
             if q == 0 then Mant(r) == 0 else Scaled(r, q * BASE2, e, s)
    ensures IsExactQuotient(r, x, y) <==> Mant(x) * (TOP * BASE) % (Mant(y) * Pow2(k)) == 0
  {
    var d, e := Mant(y) * Pow2(k), Biased(x) - Biased(y) + 16383 + k;
    var q := Quotient(Mant(x), d);
    hide Scaled, IsExactQuotient, Quotient, Mant;
    Halves(Mant(x), d);
    if q != 0 { ScaledValue(r, q, e, s); }
    ExactMantissas(x, y, r, q, k, e);
    Remainder(Mant(x) * (TOP * BASE), d, q);
  }

  /** r is x times y. */
  ghost predicate IsExactProduct(r: TempReal, x: TempReal, y: TempReal) {
    Mant(r) * Pow2(Biased(r) + 16383 + 63) == Mant(x) * Mant(y) * Pow2(Biased(x) + Biased(y))
  }

  /** What fmul stores is the product exactly if no bit that is set is cut off. */
  lemma ExactProductIff(x: TempReal, y: TempReal, r: TempReal, k: nat)
    requires Scaled(r, Mant(x) * Mant(y), Biased(x) + Biased(y) - 16382, k)
    ensures IsExactProduct(r, x, y) <==> Mant(x) * Mant(y) * Pow2(k) % 0x1_0000_0000_0000_0000 == 0
  {
    var p, n := Mant(x) * Mant(y), Biased(r) + 16382;
    hide Pow2, Mant;
    Pow2Adds(64, n);
    Pow2Adds(k, n);
    Pow2Values();
    hide Biased;
    Remainder(p * Pow2(k), BASE2, Mant(r));
    Cancelled(Mant(r), p, BASE2, Pow2(k), Pow2(n));
  }

  lemma Cancelled(m: int, p: int, b: int, pk: int, pn: int)
    requires pn > 0
    ensures m * (b * pn) == p * (pk * pn) <==> m * b == p * pk
  {
    Rejoin(1, m, b, pn);
    Rejoin(1, p, pk, pn);
    SameScale(m * b, p * pk, pn);
  }

  /**
    For normalised operands, whose divisor is not moved: multiplying back gives the dividend
    exactly if nothing remains.
   */
  lemma DeliveredExactIff(m: int, d: int)
    requires Aligned(m) && Aligned(d)
    ensures DeliveredQuotient(m, d) * d == m * (if m >= d then TOP * BASE else BASE2) <==> m * (TOP * BASE) % d == 0
  {
    var h := m * (TOP * BASE);
    assert m * BASE2 == 2 * h;
    var q := h / d;
    assert (2 * q) * d == 2 * (q * d);
    Remainder(h, d, q);
  }

  /** One divided by seven: the quotient is not exact, and no flag says so. */
  method OneSeventh() returns (r: TempReal, flags: Flags)
    ensures flags == NO_FLAGS
    ensures !IsExactQuotient(r, TempReal(0, 0x8000_0000, 16383), TempReal(0, 0xe000_0000, 16385))
  {
    hide IsExactQuotient, Scaled;
    var one, seven := TempReal(0, 0x8000_0000, 16383), TempReal(0, 0xe000_0000, 16385);
    ghost var k, s;
    r, flags, k, s := Fdiv(one, seven, one);
    NoShiftNeeded(Mant(seven), k);
    Pow2Zero();
  }

  lemma Pow2Zero()
    ensures Pow2(0) == 1
  {
  }
}
