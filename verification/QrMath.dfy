/** The logarithm and exponent tables of the QR encoder. */
module QrMath {
  import opened Bits
  import opened Gf256
  import opened Exceptions

  /** alpha^n for any integer n. */
  ghost function Exp(n: int): Byte
    decreases if n < 0 then -n else 0
  {
    if n < 0 then Exp(n + 255) else Alpha(n)
  }

  ghost predicate IsExpTable(e: seq<Byte>) {
    |e| == 256 && forall i :: 0 <= i < 256 ==> e[i] == Alpha(i)
  }

  ghost predicate IsLogTable(l: seq<nat>) {
    |l| == 256 && forall b: Byte {:trigger l[b]} :: b != 0 ==> l[b] == Log(b)
  }

  class QRMath {
    const expTable: array<Byte>
    const logTable: array<nat>

    ghost predicate Valid()
      reads this, expTable, logTable
    {
      IsExpTable(expTable[..]) && IsLogTable(logTable[..])
    }

    constructor ()
      ensures Valid() && fresh(expTable) && fresh(logTable)
    {
      expTable := new Byte[256];
      logTable := new nat[256];
      new;
      hide IsExpTable, IsLogTable;
      FillExpTable(expTable);
      FillLogTable(expTable, logTable);
    }

    /** The logarithm; it throws on zero. */
    method Glog(n: Byte) returns (r: Result<nat>)
      requires Valid()
      ensures r == if n == 0 then Thrown else Ok(Log(n))
    {
      if n < 1 {
        return Thrown;
      }
      return Ok(logTable[n]);
    }

    /** alpha^exponent; the table itself reaches one past the period. */
    method Gexp(exponent: int) returns (r: Byte)
      requires Valid()
      ensures r == Exp(exponent)
    {
      hide Alpha;
      var n := exponent;
      while n < 0
        invariant Exp(n) == Exp(exponent)
        decreases -n
      {
        n := n + 255;
      }
      while n >= 256
        invariant n >= 0 && Alpha(n) == Exp(exponent)
      {
        n := n - 255;
        AlphaPeriod(n);
      }
      r := expTable[n];
    }
  }

  /** Eight shifts, then the recurrence. */
  method FillExpTable(e: array<Byte>)
    requires e.Length == 256
    modifies e
    ensures IsExpTable(e[..])
  {
    hide Alpha, Xor;
    for i := 0 to 8
      invariant forall j :: 0 <= j < i ==> e[j] == Alpha(j)
    {
      PowerOfTwo(i);
      e[i] := Pow2(i);
    }
    for i := 8 to 256
      invariant forall j :: 0 <= j < i ==> e[j] == Alpha(j)
    {
      Recurrence(i);
      e[i] := Xor(Xor(Xor(e[i - 4], e[i - 5]), e[i - 6]), e[i - 8]);
    }
  }

  /** The inverse of the exponent table; slot 0 is never written. */
  method FillLogTable(e: array<Byte>, l: array<nat>)
    requires e.Length == 256 && l.Length == 256 && IsExpTable(e[..])
    modifies l
    ensures IsLogTable(l[..])
  {
    hide Alpha;
    for i := 0 to 255
      invariant forall j :: 0 <= j < i ==> l[Alpha(j)] == j
    {
      forall j | 0 <= j < i ensures Alpha(j) != Alpha(i) { AlphaDistinct(j, i); }
      assert e[i] == e[..][i];
      l[e[i]] := i;
    }
    forall b: Byte | b != 0 ensures l[b] == Log(b) {
      assert Alpha(Log(b)) == b;
    }
  }

  lemma PowerOfTwo(i: nat)
    requires i < 8
    ensures Pow2(i) < 256 && Alpha(i) == Pow2(i)
  {
    assert Pow2(0) == 1 && Pow2(1) == 2 && Pow2(2) == 4 && Pow2(3) == 8;
    assert Pow2(4) == 16 && Pow2(5) == 32 && Pow2(6) == 64 && Pow2(7) == 128;
    hide Xor, Pow2, TimesAlpha;
    TimesAlphaByArithmetic(1); TimesAlphaByArithmetic(2); TimesAlphaByArithmetic(4); TimesAlphaByArithmetic(8);
    TimesAlphaByArithmetic(16); TimesAlphaByArithmetic(32); TimesAlphaByArithmetic(64);
    assert Alpha(0) == 1;
    assert Alpha(1) == 2;
    assert Alpha(2) == 4;
    assert Alpha(3) == 8;
    assert Alpha(4) == 16;
    assert Alpha(5) == 32;
    assert Alpha(6) == 64;
    assert Alpha(7) == 128;
  }

  /** alpha^i from the powers 4, 5, 6 and 8 places back, because x^8 == x^4 + x^3 + x^2 + 1. */
  lemma Recurrence(i: nat)
    requires i >= 8
    ensures Alpha(i) == Xor(Xor(Xor(Alpha(i - 4), Alpha(i - 5)), Alpha(i - 6)), Alpha(i - 8))
  {
    hide Alpha, Xor, Product, TimesAlpha;
    var a := Alpha(i - 8);
    AlphaTimesAlpha(i - 8, 8);
    AlphaTimesAlpha(i - 8, 4);
    AlphaTimesAlpha(i - 8, 3);
    AlphaTimesAlpha(i - 8, 2);
    AlphaTimesAlpha(i - 8, 0);
    EighthPower();
    ProductDistributes(a, Xor(Xor(Alpha(4), Alpha(3)), Alpha(2)), Alpha(0));
    ProductDistributes(a, Xor(Alpha(4), Alpha(3)), Alpha(2));
    ProductDistributes(a, Alpha(4), Alpha(3));
  }

  /** The bits of `a` that are on. */
  ghost predicate HasBits(a: Byte, on: set<int>) {
    forall i :: 0 <= i < WIDTH ==> ToBits(a, WIDTH)[i] == (i in on)
  }

  lemma AlphaHasBit(n: nat)
    requires n < WIDTH
    ensures HasBits(Alpha(n), {n})
  {
    hide ToBits, Alpha;
    BitsOfAlpha(n);
  }

  lemma XorHasBits(a: Byte, b: Byte, s: set<int>, t: set<int>)
    requires HasBits(a, s) && HasBits(b, t) && s !! t
    ensures HasBits(Xor(a, b), s + t)
  {
    hide ToBits, Xor;
    BitsOfXor(a, b);
  }

  lemma SameHasBits(a: Byte, b: Byte, s: set<int>)
    requires HasBits(a, s) && HasBits(b, s)
    ensures a == b
  {
    hide ToBits;
    assert ToBits(a, WIDTH) == ToBits(b, WIDTH);
    SameBits(a, b);
  }

  lemma ReducedTopBit(s: seq<bool>)
    requires |s| == WIDTH && forall i :: 0 <= i < WIDTH ==> s[i] == (i == 7)
    ensures forall i :: 0 <= i < WIDTH ==> ReducedShift(s)[i] == (i in {4, 3, 2, 0})
  {
  }

  /** Past x^7 the reduction shows. */
  lemma AlphaOverflows(n: nat)
    requires HasBits(Alpha(n), {7})
    ensures HasBits(Alpha(n + 1), {4, 3, 2, 0})
  {
    assert Alpha(n + 1) == TimesAlpha(Alpha(n));
    hide Alpha, Xor, TimesAlpha, ToBits, ReducedShift;
    BitsOfTimesAlpha(Alpha(n));
    ReducedTopBit(ToBits(Alpha(n), WIDTH));
  }

  lemma EighthPower()
    ensures Alpha(8) == Xor(Xor(Xor(Alpha(4), Alpha(3)), Alpha(2)), Alpha(0))
  {
    hide Alpha, Xor, HasBits;
    AlphaHasBit(7);
    AlphaOverflows(7);
    AlphaHasBit(4); AlphaHasBit(3); AlphaHasBit(2); AlphaHasBit(0);
    XorHasBits(Alpha(4), Alpha(3), {4}, {3});
    XorHasBits(Xor(Alpha(4), Alpha(3)), Alpha(2), {4} + {3}, {2});
    XorHasBits(Xor(Xor(Alpha(4), Alpha(3)), Alpha(2)), Alpha(0), {4} + {3} + {2}, {0});
    assert {4} + {3} + {2} + {0} == {4, 3, 2, 0};
    SameHasBits(Alpha(8), Xor(Xor(Xor(Alpha(4), Alpha(3)), Alpha(2)), Alpha(0)), {4, 3, 2, 0});
  }
}
