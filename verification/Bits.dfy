/** Unsigned numbers as bit strings, least significant bit first: what the script's bitwise
    operators mean on non-negative numbers. */
module Bits {

  type Byte = n: nat | n < 256

  const WIDTH: nat := 8

  function Pow2(n: nat): (p: nat)
    ensures p > 0
  {
    if n == 0 then 1 else 2 * Pow2(n - 1)
  }

  /** The `k` low bits of `n`. */
  function ToBits(n: nat, k: nat): (s: seq<bool>)
    ensures |s| == k
  {
    if k == 0 then [] else [n % 2 == 1] + ToBits(n / 2, k - 1)
  }

  function FromBits(s: seq<bool>): (n: nat)
    ensures n < Pow2(|s|)
  {
    if s == [] then 0 else (if s[0] then 1 else 0) + 2 * FromBits(s[1..])
  }

  lemma {:induction false} ToFromBits(s: seq<bool>)
    ensures ToBits(FromBits(s), |s|) == s
  {
    if s != [] { ToFromBits(s[1..]); }
  }

  lemma {:induction false} FromToBits(n: nat, k: nat)
    requires n < Pow2(k)
    ensures FromBits(ToBits(n, k)) == n
  {
    if k > 0 {
      FromToBits(n / 2, k - 1);
      assert ToBits(n, k)[1..] == ToBits(n / 2, k - 1);
    }
  }

  lemma ToBitsInjective(a: nat, b: nat, k: nat)
    requires a < Pow2(k) && b < Pow2(k) && ToBits(a, k) == ToBits(b, k)
    ensures a == b
  {
    FromToBits(a, k);
    FromToBits(b, k);
  }

  function Falses(n: nat): (f: seq<bool>)
    ensures |f| == n
  {
    seq(n, i => false)
  }

  // ----- exclusive or -----

  function XorBits(s: seq<bool>, t: seq<bool>): (u: seq<bool>)
    requires |s| == |t|
    ensures |u| == |s|
  {
    seq(|s|, i requires 0 <= i < |s| => s[i] != t[i])
  }

  /** `a ^ b` */
  function Xor(a: Byte, b: Byte): Byte {
    assert Pow2(8) == 256;
    FromBits(XorBits(ToBits(a, WIDTH), ToBits(b, WIDTH)))
  }

  lemma BitsOfXor(a: Byte, b: Byte)
    ensures ToBits(Xor(a, b), WIDTH) == XorBits(ToBits(a, WIDTH), ToBits(b, WIDTH))
  {
    ToFromBits(XorBits(ToBits(a, WIDTH), ToBits(b, WIDTH)));
  }

  lemma SameBits(a: Byte, b: Byte)
    requires ToBits(a, WIDTH) == ToBits(b, WIDTH)
    ensures a == b
  {
    assert Pow2(8) == 256;
    ToBitsInjective(a, b, WIDTH);
  }

  lemma {:induction false} ToBitsZero(k: nat)
    ensures forall i :: 0 <= i < k ==> !ToBits(0, k)[i]
  {
    if k > 0 { ToBitsZero(k - 1); }
  }

  lemma XorZero(a: Byte)
    ensures Xor(a, 0) == a && Xor(0, a) == a
  {
    ToBitsZero(8);
    BitsOfXor(a, 0);
    BitsOfXor(0, a);
    assert XorBits(ToBits(a, WIDTH), ToBits(0, WIDTH)) == ToBits(a, WIDTH);
    assert XorBits(ToBits(0, WIDTH), ToBits(a, WIDTH)) == ToBits(a, WIDTH);
    SameBits(Xor(a, 0), a);
    SameBits(Xor(0, a), a);
  }

  lemma XorSelf(a: Byte)
    ensures Xor(a, a) == 0
  {
    ToBitsZero(8);
    BitsOfXor(a, a);
    assert XorBits(ToBits(a, WIDTH), ToBits(a, WIDTH)) == ToBits(0, WIDTH);
    SameBits(Xor(a, a), 0);
  }

  lemma XorCommutes(a: Byte, b: Byte)
    ensures Xor(a, b) == Xor(b, a)
  {
    assert XorBits(ToBits(a, WIDTH), ToBits(b, WIDTH)) == XorBits(ToBits(b, WIDTH), ToBits(a, WIDTH));
  }

  lemma XorBitsAssociates(s: seq<bool>, t: seq<bool>, u: seq<bool>)
    requires |s| == |t| == |u|
    ensures XorBits(XorBits(s, t), u) == XorBits(s, XorBits(t, u))
  {
  }

  lemma XorAssociates(a: Byte, b: Byte, c: Byte)
    ensures Xor(Xor(a, b), c) == Xor(a, Xor(b, c))
  {
    BitsOfXor(a, b);
    BitsOfXor(b, c);
    XorBitsAssociates(ToBits(a, WIDTH), ToBits(b, WIDTH), ToBits(c, WIDTH));
  }

  /** (a ^ b) ^ (c ^ d) == (a ^ c) ^ (b ^ d) */
  lemma XorExchange(a: Byte, b: Byte, c: Byte, d: Byte)
    ensures Xor(Xor(a, b), Xor(c, d)) == Xor(Xor(a, c), Xor(b, d))
  {
    XorAssociates(a, b, Xor(c, d));
    XorAssociates(b, c, d);
    XorCommutes(b, c);
    XorAssociates(c, b, d);
    XorAssociates(a, c, Xor(b, d));
  }

  lemma XorCancels(a: Byte, b: Byte)
    ensures Xor(Xor(a, b), b) == a
  {
    XorAssociates(a, b, b);
    XorSelf(b);
    XorZero(a);
  }

  lemma XorIsZero(a: Byte, b: Byte)
    requires Xor(a, b) == 0
    ensures a == b
  {
    XorCancels(a, b);
    XorZero(b);
  }

  // ----- inclusive or, and shifts -----

  function OrBits(s: seq<bool>, t: seq<bool>): (u: seq<bool>)
    requires |s| == |t|
    ensures |u| == |s|
  {
    seq(|s|, i requires 0 <= i < |s| => s[i] || t[i])
  }

  /** `a | b` */
  function Or(a: Byte, b: Byte): Byte {
    assert Pow2(8) == 256;
    FromBits(OrBits(ToBits(a, WIDTH), ToBits(b, WIDTH)))
  }

  lemma BitsOfOr(a: Byte, b: Byte)
    ensures ToBits(Or(a, b), WIDTH) == OrBits(ToBits(a, WIDTH), ToBits(b, WIDTH))
  {
    ToFromBits(OrBits(ToBits(a, WIDTH), ToBits(b, WIDTH)));
  }

  /** `n >>> k` */
  function ShiftRight(n: nat, k: nat): nat {
    if k == 0 then n else ShiftRight(n / 2, k - 1)
  }

  lemma {:induction false} ShiftIsDivision(n: nat, k: nat)
    ensures ShiftRight(n, k) == n / Pow2(k)
  {
    if k > 0 {
      ShiftIsDivision(n / 2, k - 1);
      DivisionTwice(n, Pow2(k - 1));
    }
  }

  lemma DivisionTwice(n: nat, m: nat)
    requires 0 < m
    ensures n / 2 / m == n / (2 * m)
  {
    var q, r := n / 2 / m, n / 2 % m;
    assert n / 2 == m * q + r;
    assert n == 2 * (m * q + r) + n % 2;
    var e := 2 * r + n % 2;
    assert n == (2 * m) * q + e && 0 <= e < 2 * m;
    QuotientUnique(n, 2 * m, q, e);
  }

  lemma QuotientUnique(n: int, m: int, q: int, r: int)
    requires 0 <= r < m && n == m * q + r
    ensures n / m == q && n % m == r
  {
    var d := q - n / m;
    assert m * d == n % m - r;
    AtLeastOnce(m, d);
    AtLeastOnce(m, -d);
  }

  lemma AtLeastOnce(m: int, d: int)
    requires 0 < m
    ensures d >= 1 ==> m * d >= m
  {
    if d >= 1 { assert m * d == m + m * (d - 1) && m * (d - 1) >= 0; }
  }

  /** `(n >>> i) & 1` is bit i. */
  lemma {:induction false} BitByShift(n: nat, k: nat, i: nat)
    requires i < k
    ensures ToBits(n, k)[i] == (ShiftRight(n, i) % 2 == 1)
  {
    if i > 0 { BitByShift(n / 2, k - 1, i - 1); }
  }

  lemma {:induction false} BitsOfPow2(m: nat, k: nat)
    requires m < k
    ensures forall i :: 0 <= i < k ==> ToBits(Pow2(m), k)[i] == (i == m)
  {
    if m == 0 {
      ToBitsZero(k - 1);
    } else {
      BitsOfPow2(m - 1, k - 1);
      assert Pow2(m) / 2 == Pow2(m - 1) && Pow2(m) % 2 == 0;
    }
  }

  lemma {:induction false} Pow2Monotone(m: nat, n: nat)
    requires m <= n
    ensures Pow2(m) <= Pow2(n)
  {
    if m < n { Pow2Monotone(m, n - 1); }
  }

  /** The `k` low bits of `n`, most significant first. */
  function MsbBits(n: nat, k: nat): (s: seq<bool>)
    ensures |s| == k
  {
    seq(k, i requires 0 <= i < k => ToBits(n, k)[k - 1 - i])
  }

  lemma MsbBitsInjective(a: nat, b: nat, k: nat)
    requires a < Pow2(k) && b < Pow2(k) && MsbBits(a, k) == MsbBits(b, k)
    ensures a == b
  {
    hide ToBits, Pow2;
    forall i | 0 <= i < k ensures ToBits(a, k)[i] == ToBits(b, k)[i] {
      assert MsbBits(a, k)[k - 1 - i] == MsbBits(b, k)[k - 1 - i];
    }
    assert ToBits(a, k) == ToBits(b, k);
    ToBitsInjective(a, b, k);
  }

  /** The number a string of bits stands for, most significant bit first. */
  function MsbValue(s: seq<bool>): (n: nat)
    ensures n < Pow2(|s|)
  {
    FromBits(seq(|s|, i requires 0 <= i < |s| => s[|s| - 1 - i]))
  }

  lemma MsbOfValue(s: seq<bool>)
    ensures MsbBits(MsbValue(s), |s|) == s
  {
    hide FromBits, ToBits;
    ToFromBits(seq(|s|, i requires 0 <= i < |s| => s[|s| - 1 - i]));
  }

  lemma ValueOfMsb(n: nat, k: nat)
    requires n < Pow2(k)
    ensures MsbValue(MsbBits(n, k)) == n
  {
    hide *;
    MsbOfValue(MsbBits(n, k));
    MsbBitsInjective(MsbValue(MsbBits(n, k)), n, k);
  }

  /** Appending a bit doubles the number and adds the bit. */
  lemma MsbValueSnoc(s: seq<bool>, b: bool)
    ensures MsbValue([]) == 0
    ensures MsbValue(s + [b]) == 2 * MsbValue(s) + (if b then 1 else 0)
  {
    var t := s + [b];
    var r := seq(|t|, i requires 0 <= i < |t| => t[|t| - 1 - i]);
    assert r[1..] == seq(|s|, i requires 0 <= i < |s| => s[|s| - 1 - i]);
  }

  /** `n & (2^k - 1)` */
  function LowBits(n: nat, k: nat): (b: nat)
    ensures b < Pow2(k)
  {
    FromBits(ToBits(n, k))
  }

  lemma {:induction false} LowBitsIsRemainder(n: nat, k: nat)
    ensures LowBits(n, k) == n % Pow2(k)
  {
    if k > 0 {
      LowBitsIsRemainder(n / 2, k - 1);
      assert ToBits(n, k)[1..] == ToBits(n / 2, k - 1);
      RemainderTwice(n, Pow2(k - 1));
    }
  }

  lemma RemainderTwice(n: nat, m: nat)
    requires 0 < m
    ensures n % (2 * m) == n % 2 + 2 * (n / 2 % m)
  {
    var q, r := n / 2 / m, n / 2 % m;
    assert n / 2 == m * q + r;
    assert n == 2 * (m * q + r) + n % 2;
    var e := 2 * r + n % 2;
    assert n == (2 * m) * q + e && 0 <= e < 2 * m;
    QuotientUnique(n, 2 * m, q, e);
  }

  /** Of a number too wide for its field the low bits are written. */
  lemma MsbValueOfBits(n: nat, k: nat)
    ensures MsbValue(MsbBits(n, k)) == n % Pow2(k)
  {
    LowBitsIsRemainder(n, k);
    hide Pow2, ToBits, FromBits;
    var s := MsbBits(n, k);
    assert seq(|s|, i requires 0 <= i < |s| => s[|s| - 1 - i]) == ToBits(n, k);
  }

  /** Of two strings of bits in a row, the first counts by the length of the second. */
  lemma {:induction false} MsbValueConcat(s: seq<bool>, t: seq<bool>)
    ensures MsbValue(s + t) == MsbValue(s) * Pow2(|t|) + MsbValue(t)
    decreases |t|
  {
    hide MsbValue, Pow2;
    if t == [] {
      assert s + t == s;
      MsbValueSnoc(s, true);
      Pow2Step(0);
    } else {
      var n := |t| - 1;
      var a, b := t[..n], t[n];
      MsbValueConcat(s, a);
      MsbValueSnoc(a, b);
      MsbValueSnoc(s + a, b);
      assert a + [b] == t && s + a + [b] == s + t;
      Pow2Step(n);
      DoubleTimes(MsbValue(s), Pow2(n));
    }
  }

  lemma Pow2Step(n: nat)
    ensures Pow2(0) == 1 && Pow2(n + 1) == 2 * Pow2(n)
  {
  }

  lemma DoubleTimes(x: nat, p: nat)
    ensures x * (2 * p) == 2 * (x * p)
  {
  }

  /** The first bits of a number are its quotient, the others its remainder. */
  lemma MsbParts(n: nat, k: nat, j: nat)
    requires j <= k && n < Pow2(k)
    ensures MsbValue(MsbBits(n, k)[..j]) == n / Pow2(k - j) && MsbValue(MsbBits(n, k)[j..]) == n % Pow2(k - j)
  {
    hide MsbValue, MsbBits, Pow2;
    var s := MsbBits(n, k);
    ValueOfMsb(n, k);
    SplitValue(s, j, s[..j], s[j..]);
    QuotientUnique(n, Pow2(k - j), MsbValue(s[..j]), MsbValue(s[j..]));
  }

  lemma SplitValue(s: seq<bool>, j: nat, a: seq<bool>, b: seq<bool>)
    requires j <= |s| && a == s[..j] && b == s[j..]
    ensures MsbValue(s) == Pow2(|s| - j) * MsbValue(a) + MsbValue(b) && MsbValue(b) < Pow2(|s| - j)
  {
    hide MsbValue, Pow2;
    MsbValueConcat(a, b);
    assert a + b == s;
    Swap(MsbValue(a), Pow2(|b|));
  }

  lemma Swap(x: nat, y: nat)
    ensures x * y == y * x
  {
  }

  lemma SmallRemainder(n: nat, m: nat)
    requires n < m
    ensures n % m == n
  {
  }
}
