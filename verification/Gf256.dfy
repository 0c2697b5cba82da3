/** The field GF(2^8) of the Reed-Solomon code, reduced by x^8 + x^4 + x^3 + x^2 + 1.
    An element is a byte; its bits are the coefficients of a polynomial over GF(2). */
module Gf256 {
  import opened Bits
  import opened FiniteSets

  /** The bits of x * s: every coefficient moves up, and x^8 becomes x^4 + x^3 + x^2 + 1. */
  function ReducedShift(s: seq<bool>): (t: seq<bool>)
    requires |s| == WIDTH
    ensures |t| == WIDTH
  {
    seq(WIDTH, i requires 0 <= i < WIDTH =>
      if i == 0 then s[7] else if 2 <= i <= 4 then s[i - 1] != s[7] else s[i - 1])
  }

  /** alpha * a, where alpha is the element x */
  function TimesAlpha(a: Byte): Byte {
    assert Pow2(8) == 256;
    FromBits(ReducedShift(ToBits(a, WIDTH)))
  }

  /** alpha^n * a */
  function Shifted(a: Byte, n: nat): Byte {
    if n == 0 then a else TimesAlpha(Shifted(a, n - 1))
  }

  /** alpha^n */
  function Alpha(n: nat): Byte {
    Shifted(1, n)
  }

  // ----- multiplication by alpha^n is linear and injective -----

  lemma BitsOfTimesAlpha(a: Byte)
    ensures ToBits(TimesAlpha(a), WIDTH) == ReducedShift(ToBits(a, WIDTH))
  {
    ToFromBits(ReducedShift(ToBits(a, WIDTH)));
  }

  lemma ReducedShiftLinear(s: seq<bool>, t: seq<bool>)
    requires |s| == |t| == WIDTH
    ensures ReducedShift(XorBits(s, t)) == XorBits(ReducedShift(s), ReducedShift(t))
  {
    var x, y := ReducedShift(XorBits(s, t)), XorBits(ReducedShift(s), ReducedShift(t));
    forall i | 0 <= i < WIDTH ensures x[i] == y[i] {
    }
  }

  lemma TimesAlphaLinear(a: Byte, b: Byte)
    ensures TimesAlpha(Xor(a, b)) == Xor(TimesAlpha(a), TimesAlpha(b))
  {
    BitsOfXor(a, b);
    BitsOfTimesAlpha(a);
    BitsOfTimesAlpha(b);
    ReducedShiftLinear(ToBits(a, WIDTH), ToBits(b, WIDTH));
  }

  lemma ReducedShiftInjective(s: seq<bool>, t: seq<bool>)
    requires |s| == |t| == WIDTH && ReducedShift(s) == ReducedShift(t)
    ensures s == t
  {
    var x, y := ReducedShift(s), ReducedShift(t);
    assert x[0] == y[0];
    forall i | 0 <= i < 7 ensures s[i] == t[i] {
      assert x[i + 1] == y[i + 1];
    }
  }

  lemma TimesAlphaInjective(a: Byte, b: Byte)
    requires TimesAlpha(a) == TimesAlpha(b)
    ensures a == b
  {
    BitsOfTimesAlpha(a);
    BitsOfTimesAlpha(b);
    ReducedShiftInjective(ToBits(a, WIDTH), ToBits(b, WIDTH));
    SameBits(a, b);
  }

  lemma {:induction false} ShiftedLinear(a: Byte, b: Byte, n: nat)
    ensures Shifted(Xor(a, b), n) == Xor(Shifted(a, n), Shifted(b, n))
  {
    hide TimesAlpha, Xor;
    if n > 0 {
      ShiftedLinear(a, b, n - 1);
      TimesAlphaLinear(Shifted(a, n - 1), Shifted(b, n - 1));
    }
  }

  lemma {:induction false} ShiftedAdd(a: Byte, m: nat, n: nat)
    ensures Shifted(a, m + n) == Shifted(Shifted(a, m), n)
  {
    hide TimesAlpha;
    if n > 0 { ShiftedAdd(a, m, n - 1); }
  }

  lemma {:induction false} ShiftedInjective(a: Byte, b: Byte, n: nat)
    requires Shifted(a, n) == Shifted(b, n)
    ensures a == b
  {
    if n > 0 {
      hide TimesAlpha;
      TimesAlphaInjective(Shifted(a, n - 1), Shifted(b, n - 1));
      ShiftedInjective(a, b, n - 1);
    }
  }

  lemma ShiftedZero(n: nat)
    ensures Shifted(0, n) == 0
  {
    XorSelf(0);
    ShiftedLinear(0, 0, n);
    XorSelf(Shifted(0, n));
  }

  // ----- the product of two field elements -----

  /** alpha^i * a when `b` has the bit x^i, else 0. */
  function Term(a: Byte, b: Byte, i: nat): Byte
    requires i < 8
  {
    if ToBits(b, WIDTH)[i] then Shifted(a, i) else 0
  }

  function PartialProduct(a: Byte, b: Byte, n: nat): Byte
    requires n <= 8
  {
    if n == 0 then 0 else Xor(PartialProduct(a, b, n - 1), Term(a, b, n - 1))
  }

  /** The carry-less product of `a` and `b`, reduced: the definition of multiplication in the field. */
  function Product(a: Byte, b: Byte): Byte {
    PartialProduct(a, b, WIDTH)
  }

  lemma TermOfXor(a: Byte, b: Byte, c: Byte, i: nat)
    requires i < 8
    ensures Term(a, Xor(b, c), i) == Xor(Term(a, b, i), Term(a, c, i))
  {
    BitsOfXor(b, c);
    XorZero(Shifted(a, i));
    XorSelf(Shifted(a, i));
    XorSelf(0);
  }

  lemma {:induction false} PartialProductAddRight(a: Byte, b: Byte, c: Byte, n: nat)
    requires n <= 8
    ensures PartialProduct(a, Xor(b, c), n) == Xor(PartialProduct(a, b, n), PartialProduct(a, c, n))
  {
    if n == 0 {
      XorSelf(0);
    } else {
      PartialProductAddRight(a, b, c, n - 1);
      TermOfXor(a, b, c, n - 1);
      XorExchange(PartialProduct(a, b, n - 1), PartialProduct(a, c, n - 1), Term(a, b, n - 1), Term(a, c, n - 1));
    }
  }

  lemma {:induction false} PartialProductTimesAlpha(a: Byte, b: Byte, n: nat)
    requires n <= 8
    ensures PartialProduct(TimesAlpha(a), b, n) == TimesAlpha(PartialProduct(a, b, n))
  {
    ShiftedZero(1);
    if n > 0 {
      PartialProductTimesAlpha(a, b, n - 1);
      ShiftedAdd(a, 1, n - 1);
      assert Shifted(a, 1) == TimesAlpha(Shifted(a, 0));
      TimesAlphaLinear(PartialProduct(a, b, n - 1), Term(a, b, n - 1));
    }
  }

  lemma OneTimes(b: Byte)
    ensures Product(1, b) == b
  {
    var s := ToBits(b, WIDTH);
    forall n: nat | n <= 8
      ensures ToBits(PartialProduct(1, b, n), WIDTH) == s[..n] + ToBits(0, WIDTH)[n..]
    {
      OneTimesPrefix(b, n);
    }
    SameBits(Product(1, b), b);
  }

  lemma {:induction false} OneTimesPrefix(b: Byte, n: nat)
    requires n <= WIDTH
    ensures ToBits(PartialProduct(1, b, n), WIDTH) == ToBits(b, WIDTH)[..n] + ToBits(0, WIDTH)[n..]
  {
    hide Xor, ToBits, Shifted, Term;
    if n > 0 {
      var p, t := PartialProduct(1, b, n - 1), Term(1, b, n - 1);
      OneTimesPrefix(b, n - 1);
      OneTerm(b, n - 1);
      ToBitsZero(WIDTH);
      BitsOfXor(p, t);
      OneBitMore(ToBits(p, WIDTH), ToBits(t, WIDTH), ToBits(b, WIDTH), ToBits(0, WIDTH), n);
    } else {
      assert ToBits(0, WIDTH) == ToBits(b, WIDTH)[..0] + ToBits(0, WIDTH)[0..];
    }
  }

  lemma OneBitMore(p: seq<bool>, t: seq<bool>, b: seq<bool>, z: seq<bool>, n: nat)
    requires |p| == |t| == |b| == |z| == WIDTH && 0 < n <= WIDTH
    requires p == b[..n - 1] + z[n - 1..]
    requires forall i :: 0 <= i < WIDTH ==> !z[i]
    requires forall i :: 0 <= i < WIDTH ==> t[i] == (i == n - 1 && b[n - 1])
    ensures XorBits(p, t) == b[..n] + z[n..]
  {
  }

  lemma OneTerm(b: Byte, n: nat)
    requires n < WIDTH
    ensures forall i :: 0 <= i < WIDTH ==> ToBits(Term(1, b, n), WIDTH)[i] == (i == n && ToBits(b, WIDTH)[n])
  {
    ToBitsZero(WIDTH);
    BitsOfAlpha(n);
    hide ToBits, Shifted;
    forall i | 0 <= i < WIDTH ensures ToBits(Term(1, b, n), WIDTH)[i] == (i == n && ToBits(b, WIDTH)[n]) {
      assert ToBits(Alpha(n), WIDTH)[i] == (i == n);
      assert !ToBits(0, WIDTH)[i];
    }
  }

  /** Below x^8 nothing is reduced: alpha^n is the single bit n. */
  lemma {:induction false} BitsOfAlpha(n: nat)
    requires n < 8
    ensures forall i :: 0 <= i < 8 ==> ToBits(Alpha(n), WIDTH)[i] == (i == n)
  {
    if n == 0 {
      ToBitsZero(7);
      assert ToBits(1, WIDTH) == [true] + ToBits(0, 7);
    } else {
      BitsOfAlpha(n - 1);
      BitsOfTimesAlpha(Alpha(n - 1));
    }
  }

  /** Multiplying by alpha^n is n shifts. */
  lemma {:induction false} AlphaTimes(n: nat, b: Byte)
    ensures Product(Alpha(n), b) == Shifted(b, n)
  {
    if n == 0 {
      OneTimes(b);
    } else {
      AlphaTimes(n - 1, b);
      PartialProductTimesAlpha(Alpha(n - 1), b, WIDTH);
    }
  }

  lemma AlphaTimesAlpha(m: nat, n: nat)
    ensures Product(Alpha(m), Alpha(n)) == Alpha(m + n)
  {
    AlphaTimes(m, Alpha(n));
    ShiftedAdd(1, n, m);
  }

  // ----- alpha has order 255, so its powers are all the nonzero elements -----

  function Value(bit: bool): nat {
    if bit then 1 else 0
  }

  lemma SumOfBits(s: seq<bool>)
    requires |s| == WIDTH
    ensures FromBits(s) == Value(s[0]) + 2 * Value(s[1]) + 4 * Value(s[2]) + 8 * Value(s[3])
                         + 16 * Value(s[4]) + 32 * Value(s[5]) + 64 * Value(s[6]) + 128 * Value(s[7])
  {
    hide FromBits;
    FromBitsFrom(s, 0); FromBitsFrom(s, 1); FromBitsFrom(s, 2); FromBitsFrom(s, 3);
    FromBitsFrom(s, 4); FromBitsFrom(s, 5); FromBitsFrom(s, 6); FromBitsFrom(s, 7);
    FromBitsEmpty(s[8..]);
  }

  lemma FromBitsEmpty(s: seq<bool>)
    requires s == []
    ensures FromBits(s) == 0
  {
  }

  lemma FromBitsFrom(s: seq<bool>, i: nat)
    requires i < |s|
    ensures FromBits(s[i..]) == Value(s[i]) + 2 * FromBits(s[i + 1..])
  {
    assert s[i..][1..] == s[i + 1..];
  }

  /** The low bits of a byte by division. */
  lemma LowBits(a: Byte)
    ensures Value(ToBits(a, WIDTH)[1]) == a / 2 % 2
    ensures Value(ToBits(a, WIDTH)[2]) == a / 4 % 2
    ensures Value(ToBits(a, WIDTH)[3]) == a / 8 % 2
  {
    hide ToBits;
    BitIsParity(a, 8, 1); BitIsParity(a / 2, 7, 0);
    BitIsParity(a, 8, 2); BitIsParity(a / 2, 7, 1); BitIsParity(a / 2 / 2, 6, 0);
    BitIsParity(a, 8, 3); BitIsParity(a / 2, 7, 2); BitIsParity(a / 2 / 2, 6, 1); BitIsParity(a / 2 / 2 / 2, 5, 0);
    assert a / 2 / 2 == a / 4 && a / 2 / 2 / 2 == a / 8;
  }

  lemma BitIsParity(a: nat, k: nat, i: nat)
    requires i < k
    ensures ToBits(a, k)[i] == if i == 0 then a % 2 == 1 else ToBits(a / 2, k - 1)[i - 1]
  {
  }

  /** What the shift does to the bits, as numbers. */
  lemma ShiftedValues(s: seq<bool>, t: seq<bool>)
    requires |s| == WIDTH && t == ReducedShift(s)
    ensures Value(t[0]) == Value(s[7]) && Value(t[1]) == Value(s[0])
    ensures Value(t[5]) == Value(s[4]) && Value(t[6]) == Value(s[5]) && Value(t[7]) == Value(s[6])
    ensures forall i {:trigger t[i]} :: 2 <= i <= 4 ==> Value(t[i]) == if s[7] then 1 - Value(s[i - 1]) else Value(s[i - 1])
  {
  }

  lemma ShiftedSum(a: Byte, s: seq<bool>)
    requires |s| == WIDTH && a == FromBits(s)
    ensures FromBits(ReducedShift(s)) ==
      if a < 128 then 2 * a else 2 * a - 227 - 8 * Value(s[1]) - 16 * Value(s[2]) - 32 * Value(s[3])
  {
    hide FromBits, ReducedShift, Value;
    var t := ReducedShift(s);
    SumOfBits(s);
    SumOfBits(t);
    ShiftedValues(s, t);
    ValueBounds(s);
    if s[7] {
      assert Value(t[2]) == 1 - Value(s[1]) && Value(t[3]) == 1 - Value(s[2]) && Value(t[4]) == 1 - Value(s[3]);
    } else {
      assert Value(t[2]) == Value(s[1]) && Value(t[3]) == Value(s[2]) && Value(t[4]) == Value(s[3]);
    }
  }

  lemma ValueBounds(s: seq<bool>)
    ensures forall i :: 0 <= i < |s| ==> Value(s[i]) <= 1
    ensures forall i :: 0 <= i < |s| ==> Value(s[i]) == (if s[i] then 1 else 0)
  {
  }

  /** TimesAlpha in plain arithmetic: double, and on overflow toggle the bits of 0x1d. */
  lemma TimesAlphaByArithmetic(a: Byte)
    ensures TimesAlpha(a) == if a < 128 then 2 * a else 2 * a - 227 - 8 * (a / 2 % 2) - 16 * (a / 4 % 2) - 32 * (a / 8 % 2)
  {
    assert Pow2(8) == 256;
    hide FromBits, ToBits, Pow2;
    FromToBits(a, WIDTH);
    LowBits(a);
    ShiftedSum(a, ToBits(a, WIDTH));
  }

  /** A byte as eight named bits, so that the solver can compute with it. */
  datatype Octet = Octet(b0: bool, b1: bool, b2: bool, b3: bool, b4: bool, b5: bool, b6: bool, b7: bool) {
    function Bit(i: nat): bool
      requires i < 8
    {
      if i == 0 then b0 else if i == 1 then b1 else if i == 2 then b2 else if i == 3 then b3
      else if i == 4 then b4 else if i == 5 then b5 else if i == 6 then b6 else b7
    }
  }

  const ONE := Octet(true, false, false, false, false, false, false, false)

  function Doubled(v: Octet): Octet {
    Octet(v.b7, v.b0, v.b1 != v.b7, v.b2 != v.b7, v.b3 != v.b7, v.b4, v.b5, v.b6)
  }

  /** The square: every x^i becomes x^(2i), reduced. */
  function Squared(v: Octet): Octet {
    Octet((v.b0 != v.b4) != (v.b6 != v.b7), v.b7, (v.b1 != v.b4) != (v.b5 != v.b6), v.b4 != v.b6,
          (v.b2 != v.b4) != (v.b5 != v.b7), v.b5, (v.b3 != v.b5) != v.b6, v.b6)
  }

  function Power(n: nat): Octet {
    if n == 0 then ONE else Doubled(Power(n - 1))
  }

  lemma SquareOfDoubled(v: Octet)
    ensures Squared(Doubled(v)) == Doubled(Doubled(Squared(v)))
  {
  }

  /** Squaring doubles the exponent. */
  lemma {:induction false} PowerSquare(n: nat)
    ensures Power(2 * n) == Squared(Power(n))
  {
    if n > 0 {
      PowerSquare(n - 1);
      SquareOfDoubled(Power(n - 1));
      hide Squared, Doubled;
      assert Power(2 * n) == Doubled(Power(2 * n - 1)) == Doubled(Doubled(Power(2 * n - 2)));
    }
  }

  ghost predicate OctetBits(s: seq<bool>, v: Octet) {
    |s| == WIDTH && forall i :: 0 <= i < WIDTH ==> s[i] == v.Bit(i)
  }

  lemma DoubledBits(s: seq<bool>, v: Octet)
    requires OctetBits(s, v)
    ensures OctetBits(ReducedShift(s), Doubled(v))
  {
  }

  lemma SameOctet(s: seq<bool>, u: Octet, v: Octet)
    requires OctetBits(s, u) && OctetBits(s, v)
    ensures u == v
  {
    assert forall i :: 0 <= i < WIDTH ==> u.Bit(i) == v.Bit(i);
    assert u.Bit(0) == v.Bit(0) && u.Bit(1) == v.Bit(1) && u.Bit(2) == v.Bit(2) && u.Bit(3) == v.Bit(3);
    assert u.Bit(4) == v.Bit(4) && u.Bit(5) == v.Bit(5) && u.Bit(6) == v.Bit(6) && u.Bit(7) == v.Bit(7);
  }

  lemma SameSeq(s: seq<bool>, t: seq<bool>, v: Octet)
    requires OctetBits(s, v) && OctetBits(t, v)
    ensures s == t
  {
    hide Octet.Bit;
    forall i | 0 <= i < WIDTH ensures s[i] == t[i] {
      assert s[i] == v.Bit(i) && t[i] == v.Bit(i);
    }
  }

  lemma {:induction false} PowerIsAlpha(n: nat)
    ensures OctetBits(ToBits(Alpha(n), WIDTH), Power(n))
  {
    hide *;
    if n == 0 {
      OneBits();
    } else {
      PowerIsAlpha(n - 1);
      NextPower(n);
      BitsOfTimesAlpha(Alpha(n - 1));
      DoubledBits(ToBits(Alpha(n - 1), WIDTH), Power(n - 1));
    }
  }

  lemma OneBits()
    ensures OctetBits(ToBits(Alpha(0), WIDTH), Power(0))
  {
    BitsOfAlpha(0);
    hide ToBits, Shifted;
  }

  lemma NextPower(n: nat)
    requires n > 0
    ensures Alpha(n) == TimesAlpha(Alpha(n - 1)) && Power(n) == Doubled(Power(n - 1))
  {
    hide TimesAlpha, Doubled;
  }

  lemma OneIsPower(n: nat)
    ensures Alpha(n) == 1 <==> Power(n) == ONE
  {
    PowerIsAlpha(n);
    PowerIsAlpha(0);
    AlphaZero();
    hide ToBits, Alpha, Power, OctetBits, ONE;
    if Power(n) == ONE {
      SameSeq(ToBits(Alpha(n), WIDTH), ToBits(Alpha(0), WIDTH), ONE);
      SameBits(Alpha(n), Alpha(0));
    }
    if Alpha(n) == 1 {
      SameOctet(ToBits(1, WIDTH), Power(n), ONE);
    }
  }

  lemma AlphaZero()
    ensures Alpha(0) == 1 && Power(0) == ONE
  {
  }

  /** One step of repeated squaring. */
  lemma SquareStep(n: nat, v: Octet, odd: bool)
    requires Power(n) == v
    ensures Power(if odd then 2 * n + 1 else 2 * n) == if odd then Doubled(Squared(v)) else Squared(v)
  {
    PowerSquare(n);
  }

  /** alpha^15, alpha^51 and alpha^85 are not 1, and alpha^255 is. */
  lemma PowersAtDivisors()
    ensures Power(15) != ONE && Power(51) != ONE && Power(85) != ONE && Power(255) == ONE
  {
    AlphaZero();
    hide Power;
    SquareStep(0, Power(0), true);
    SquareStep(1, Power(1), false);
    SquareStep(1, Power(1), true);
    SquareStep(2, Power(2), true);
    SquareStep(3, Power(3), false);
    SquareStep(3, Power(3), true);
    SquareStep(5, Power(5), false);
    SquareStep(6, Power(6), false);
    SquareStep(7, Power(7), true);
    SquareStep(10, Power(10), true);
    SquareStep(12, Power(12), true);
    SquareStep(15, Power(15), true);
    SquareStep(21, Power(21), false);
    SquareStep(25, Power(25), true);
    SquareStep(31, Power(31), true);
    SquareStep(42, Power(42), true);
    SquareStep(63, Power(63), true);
    SquareStep(127, Power(127), true);
  }

  lemma OneLess(m: nat, n: nat)
    requires Alpha(m) == 1 && Alpha(m + n) == 1
    ensures Alpha(n) == 1
  {
    ShiftedAdd(1, n, m);
    ShiftedAdd(1, m, n);
  }

  lemma {:induction false} OneMultiple(d: nat, k: nat)
    requires Alpha(d) == 1
    ensures Alpha(d * k) == 1
  {
    hide Shifted;
    if k == 0 {
      AlphaZero();
    } else {
      OneMultiple(d, k - 1);
      ShiftedAdd(1, d * (k - 1), d);
      assert d * k == d + d * (k - 1);
    }
  }

  /** Exponents of 1 have a common divisor that is one: Euclid's algorithm. */
  lemma {:induction false} OneDivisor(m: nat, n: nat) returns (d: nat, p: nat, q: nat)
    requires Alpha(m) == 1 && Alpha(n) == 1 && n > 0
    ensures 0 < d <= n && Alpha(d) == 1 && m == d * p && n == d * q
    decreases n, m
  {
    hide Alpha;
    if m == 0 {
      d, p, q := n, 0, 1;
    } else if m < n {
      OneLess(m, n - m);
      d, p, q := OneDivisor(n - m, m);
      assert d * (p + q) == d * p + d * q;
      p, q := q, p + q;
    } else {
      OneLess(n, m - n);
      d, p, q := OneDivisor(m - n, n);
      assert d * (p + q) == d * p + d * q;
      p := p + q;
    }
  }

  /** A proper divisor of 255 divides 15, 51 or 85. */
  lemma DivisorOf255(d: nat, q: nat) returns (n: nat, k: nat)
    requires d * q == 255 && d < 255
    ensures n == d * k && (n == 15 || n == 51 || n == 85)
  {
    if q % 3 == 0 {
      n, k := 85, q / 3;
      assert 3 * (d * k) == d * q;
    } else if q % 5 == 0 {
      n, k := 51, q / 5;
      assert 5 * (d * k) == d * q;
    } else {
      assert q % 17 == 0 by { SeventeenDivides(d, q); }
      n, k := 15, q / 17;
      assert 17 * (d * k) == d * q;
    }
  }

  lemma SeventeenDivides(d: nat, q: nat)
    requires d * q == 255 && d < 255 && q % 3 != 0 && q % 5 != 0
    ensures q % 17 == 0
  {
    if q <= 16 {
      SmallFactor(d, q);
    } else if d <= 15 {
      SmallFactor(q, d);
    } else {
      LargeFactors(d, q);
    }
  }

  lemma LargeFactors(d: nat, q: nat)
    ensures d >= 16 && q >= 17 ==> d * q >= 272
  {
    if d >= 16 && q >= 17 {
      assert d * q >= 16 * q;
    }
  }

  /** The factors of 255 up to 16. */
  lemma SmallFactor(d: nat, q: nat)
    requires d * q == 255 && q <= 16
    ensures (q == 1 && d == 255) || (q == 3 && d == 85) || (q == 5 && d == 51) || (q == 15 && d == 17)
  {
    assert q == 0 || q == 1 || q == 2 || q == 3 || q == 4 || q == 5 || q == 6 || q == 7 || q == 8 || q == 9 || q == 10
      || q == 11 || q == 12 || q == 13 || q == 14 || q == 15 || q == 16;
  }

  /** alpha has order 255. */
  lemma AlphaOrder()
    ensures Alpha(255) == 1
    ensures forall i :: 0 < i < 255 ==> Alpha(i) != 1
  {
    hide Shifted, Alpha, Power;
    PowersAtDivisors();
    OneIsPower(255);
    forall i: int | 0 < i < 255 ensures Alpha(i) != 1 {
      if Alpha(i) == 1 { NoSmallerOrder(i); }
    }
  }

  lemma NoSmallerOrder(i: nat)
    requires 0 < i < 255 && Alpha(255) == 1
    ensures Alpha(i) != 1
  {
    hide Shifted, Alpha, Power;
    if Alpha(i) == 1 {
      PowersAtDivisors();
      var d, p, q := OneDivisor(255, i);
      var n, k := DivisorOf255(d, p);
      OneMultiple(d, k);
      OneIsPower(n);
    }
  }

  lemma AlphaNonzero(n: nat)
    ensures Alpha(n) != 0
  {
    ShiftedZero(n);
    if Alpha(n) == 0 { ShiftedInjective(1, 0, n); }
  }

  lemma AlphaDistinct(i: nat, j: nat)
    requires i < j < i + 255
    ensures Alpha(i) != Alpha(j)
  {
    hide Shifted;
    if Alpha(i) == Alpha(j) {
      ShiftedAdd(1, j - i, i);
      ShiftedInjective(1, Alpha(j - i), i);
      AlphaOrder();
    }
  }

  lemma AlphaPeriod(n: nat)
    ensures Alpha(n + 255) == Alpha(n)
  {
    AlphaOrder();
    ShiftedAdd(1, 255, n);
  }

  /** The powers alpha^0 .. alpha^(n-1). */
  ghost function Powers(n: nat): (s: set<Byte>)
    ensures forall b :: b in s ==> exists i: nat :: i < n && Alpha(i) == b
  {
    if n == 0 then {} else Powers(n - 1) + {Alpha(n - 1)}
  }

  lemma {:induction false} PowersCount(n: nat)
    requires n <= 255
    ensures |Powers(n)| == n
  {
    hide Alpha;
    if n > 0 {
      PowersCount(n - 1);
      if Alpha(n - 1) in Powers(n - 1) {
        var i: nat :| i < n - 1 && Alpha(i) == Alpha(n - 1);
        AlphaDistinct(i, n - 1);
      }
    }
  }

  /** Every nonzero element is a power of alpha below 255: its logarithm. */
  lemma LogarithmExists(b: Byte)
    requires b != 0
    ensures exists n: nat :: n < 255 && Alpha(n) == b
  {
    hide Alpha;
    var all := Interval(1, 256);
    PowersCount(255);
    forall c | c in Powers(255) ensures c in all {
      var i: nat :| i < 255 && Alpha(i) == c;
      AlphaNonzero(i);
    }
    SubsetSize(Powers(255), all);
    assert b in Powers(255);
  }

  ghost function Log(b: Byte): (n: nat)
    requires b != 0
    ensures n < 255 && Alpha(n) == b
  {
    LogarithmExists(b);
    var n: nat :| n < 255 && Alpha(n) == b;
    n
  }

  // ----- the field laws -----

  lemma TimesZero(a: Byte)
    ensures Product(a, 0) == 0 && Product(0, a) == 0
  {
    XorSelf(0);
    PartialProductAddRight(a, 0, 0, WIDTH);
    XorSelf(Product(a, 0));
    ZeroTimes(a, WIDTH);
  }

  lemma {:induction false} ZeroTimes(a: Byte, n: nat)
    requires n <= WIDTH
    ensures PartialProduct(0, a, n) == 0
  {
    XorSelf(0);
    if n > 0 {
      ZeroTimes(a, n - 1);
      ShiftedZero(n - 1);
    }
  }

  lemma ProductCommutes(a: Byte, b: Byte)
    ensures Product(a, b) == Product(b, a)
  {
    hide Product, Alpha;
    if a == 0 || b == 0 {
      TimesZero(a);
      TimesZero(b);
    } else {
      AlphaTimesAlpha(Log(a), Log(b));
      AlphaTimesAlpha(Log(b), Log(a));
    }
  }

  lemma ProductAssociates(a: Byte, b: Byte, c: Byte)
    ensures Product(Product(a, b), c) == Product(a, Product(b, c))
  {
    hide Product, Alpha;
    if a == 0 || b == 0 || c == 0 {
      TimesZero(a);
      TimesZero(b);
      TimesZero(c);
      TimesZero(Product(a, b));
      TimesZero(Product(b, c));
    } else {
      var i, j, k := Log(a), Log(b), Log(c);
      AlphaTimesAlpha(i, j);
      AlphaTimesAlpha(j, k);
      AlphaTimesAlpha(i + j, k);
      AlphaTimesAlpha(i, j + k);
    }
  }

  lemma ProductDistributes(a: Byte, b: Byte, c: Byte)
    ensures Product(a, Xor(b, c)) == Xor(Product(a, b), Product(a, c))
    ensures Product(Xor(b, c), a) == Xor(Product(b, a), Product(c, a))
  {
    PartialProductAddRight(a, b, c, WIDTH);
    hide PartialProduct, Xor;
    ProductCommutes(a, b);
    ProductCommutes(a, c);
    ProductCommutes(a, Xor(b, c));
  }

  lemma ProductNonzero(a: Byte, b: Byte)
    requires a != 0 && b != 0
    ensures Product(a, b) != 0
  {
    hide Product, Alpha;
    AlphaTimesAlpha(Log(a), Log(b));
    AlphaNonzero(Log(a) + Log(b));
  }

  /** The quotient a / b, through logarithms. */
  ghost function Quotient(a: Byte, b: Byte): (q: Byte)
    requires b != 0
    ensures Product(q, b) == a
  {
    hide Product, Alpha;
    if a == 0 then
      TimesZero(b);
      0
    else
      AlphaTimesAlpha(Log(a) + 255 - Log(b), Log(b));
      AlphaPeriod(Log(a));
      Alpha(Log(a) + 255 - Log(b))
  }
}
