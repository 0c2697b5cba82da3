/** The theory of the error-correcting code: the generator polynomial, its roots, and the
    distance between codewords. */
module Codewords {
  import opened Bits
  import opened Gf256
  import opened Polynomials

  /** (x - alpha^0)(x - alpha^1) ... (x - alpha^(k-1)) */
  function Generator(k: nat): (g: seq<Byte>)
    ensures |g| == k + 1
  {
    if k == 0 then [1] else Convolve(Generator(k - 1), [1, Alpha(k - 1)])
  }

  /** `c` vanishes at alpha^0 .. alpha^(k-1). */
  ghost predicate HasRoots(c: seq<Byte>, k: nat) {
    forall i: nat :: i < k ==> Eval(c, Alpha(i)) == 0
  }

  lemma EvalLinear(a: Byte, x: Byte)
    ensures Eval([1, a], x) == Xor(x, a)
  {
    hide Product, Xor, Eval;
    EvalSnoc([], 1, x);
    EvalSnoc([1], a, x);
    assert [] + [1] == [1] && [1] + [a] == [1, a];
    assert Eval([], x) == 0 by { EvalZeros(0, x); assert Zeros(0) == []; }
    TimesZero(x);
    XorZero(1);
    OneTimes(x);
  }

  lemma {:induction false} GeneratorRoots(k: nat)
    ensures HasRoots(Generator(k), k)
  {
    hide Product, Xor, Eval, Alpha, Convolve;
    if k > 0 {
      GeneratorRoots(k - 1);
      forall i: nat | i < k ensures Eval(Generator(k), Alpha(i)) == 0 {
        var a, x := Alpha(k - 1), Alpha(i);
        EvalConvolve(Generator(k - 1), [1, a], x);
        EvalLinear(a, x);
        TimesZero(Eval([1, a], x));
        if i == k - 1 {
          XorSelf(x);
          TimesZero(Eval(Generator(k - 1), x));
        }
      }
    }
  }

  lemma {:induction false} ProductHead(q: seq<Byte>, e: seq<Byte>)
    requires |e| > 0 && |q| > 0
    ensures Convolve(q, e)[0] == Product(q[0], e[0])
  {
    hide Product, Xor;
    var m := |q| - 1;
    if m == 0 {
      ConvolveOne(q[0], e);
      assert q == [q[0]];
    } else {
      ProductHead(q[..m], e);
      XorZero(Product(q[0], e[0]));
    }
  }

  lemma {:induction false} GeneratorMonic(k: nat)
    ensures Generator(k)[0] == 1
  {
    hide Product, Alpha, Convolve;
    if k > 0 {
      GeneratorMonic(k - 1);
      ProductHead(Generator(k - 1), [1, Alpha(k - 1)]);
      OneTimes(1);
    }
  }

  /** A multiple of the generator vanishes at all its roots. */
  lemma MultipleHasRoots(q: seq<Byte>, k: nat)
    ensures HasRoots(Convolve(q, Generator(k)), k)
  {
    hide Product, Eval, Alpha, Convolve, Generator;
    GeneratorRoots(k);
    forall i: nat | i < k ensures Eval(Convolve(q, Generator(k)), Alpha(i)) == 0 {
      EvalConvolve(q, Generator(k), Alpha(i));
      TimesZero(Eval(q, Alpha(i)));
    }
  }

  // ----- sums of powers -----

  /** x^j */
  function Power(x: Byte, j: nat): Byte {
    if j == 0 then 1 else Product(Power(x, j - 1), x)
  }

  /** The term coef * x^place of a polynomial. */
  datatype Monomial = Monomial(coef: Byte, place: nat)

  /** The value at alpha^j of a sum of monomials. */
  function PowerSum(ts: seq<Monomial>, j: nat): Byte {
    if ts == [] then 0
    else
      var t := ts[|ts| - 1];
      Xor(PowerSum(ts[..|ts| - 1], j), Product(t.coef, Power(Alpha(t.place), j)))
  }

  ghost predicate DistinctPlaces(ts: seq<Monomial>) {
    && (forall i :: 0 <= i < |ts| ==> ts[i].place < 255)
    && (forall i, j :: 0 <= i < j < |ts| ==> ts[i].place != ts[j].place)
  }

  /** Every coefficient multiplied by alpha^place - alpha^p. */
  function Deflated(ts: seq<Monomial>, p: nat): (us: seq<Monomial>)
    ensures |us| == |ts|
  {
    seq(|ts|, i requires 0 <= i < |ts| =>
      Monomial(Product(ts[i].coef, Xor(Alpha(ts[i].place), Alpha(p))), ts[i].place))
  }

  lemma DeflatedTerm(c: Byte, a: Byte, b: Byte, j: nat)
    ensures Product(Product(c, Xor(a, b)), Power(a, j)) ==
            Xor(Product(c, Power(a, j + 1)), Product(b, Product(c, Power(a, j))))
  {
    hide Product, Xor;
    var y := Power(a, j);
    ProductDistributes(c, a, b);
    ProductDistributes(y, Product(c, a), Product(c, b));
    ProductAssociates(c, a, y);
    ProductCommutes(a, y);
    ProductCommutes(c, b);
    ProductAssociates(b, c, y);
  }

  lemma {:induction false} DeflatedSum(ts: seq<Monomial>, p: nat, j: nat)
    ensures PowerSum(Deflated(ts, p), j) == Xor(PowerSum(ts, j + 1), Product(Alpha(p), PowerSum(ts, j)))
  {
    hide Product, Xor, Alpha, Power;
    if ts == [] {
      TimesZero(Alpha(p));
      XorSelf(0);
    } else {
      var n := |ts| - 1;
      var c, a, b := ts[n].coef, Alpha(ts[n].place), Alpha(p);
      DeflatedSum(ts[..n], p, j);
      assert Deflated(ts, p)[..n] == Deflated(ts[..n], p);
      DeflatedTerm(c, a, b, j);
      var s1, s0 := PowerSum(ts[..n], j + 1), PowerSum(ts[..n], j);
      var t1, t0 := Product(c, Power(a, j + 1)), Product(c, Power(a, j));
      ProductDistributes(b, s0, t0);
      XorExchange(s1, Product(b, s0), t1, Product(b, t0));
    }
  }

  lemma LastTermCancels(ts: seq<Monomial>, j: nat)
    requires |ts| > 0 && PowerSum(ts, j) == 0 && PowerSum(ts, j + 1) == 0
    ensures PowerSum(Deflated(ts[..|ts| - 1], ts[|ts| - 1].place), j) == 0
  {
    hide Product, Xor, Alpha, Deflated;
    var n := |ts| - 1;
    var c, m := ts[n].coef, ts[n].place;
    var front, a := ts[..n], Alpha(m);
    DeflatedSum(front, m, j);
    XorIsZero(PowerSum(front, j), Product(c, Power(a, j)));
    XorIsZero(PowerSum(front, j + 1), Product(c, Power(a, j + 1)));
    ProductCommutes(a, Product(c, Power(a, j)));
    ProductAssociates(c, Power(a, j), a);
    XorSelf(Product(c, Power(a, j + 1)));
  }

  /** Vandermonde: w monomials at distinct places whose first w power sums vanish are all zero. */
  lemma {:induction false} Vandermonde(ts: seq<Monomial>)
    requires DistinctPlaces(ts)
    requires forall j: nat :: j < |ts| ==> PowerSum(ts, j) == 0
    ensures forall i :: 0 <= i < |ts| ==> ts[i].coef == 0
    decreases |ts|
  {
    hide Product, Xor, Alpha, PowerSum;
    if |ts| > 0 {
      var n := |ts| - 1;
      var front, p := ts[..n], ts[n].place;
      var us := Deflated(front, p);
      forall j: nat | j < n ensures PowerSum(us, j) == 0 { LastTermCancels(ts, j); }
      Vandermonde(us);
      forall i | 0 <= i < n ensures ts[i].coef == 0 {
        var d := Xor(Alpha(ts[i].place), Alpha(p));
        if d == 0 {
          XorIsZero(Alpha(ts[i].place), Alpha(p));
          if ts[i].place < p { AlphaDistinct(ts[i].place, p); } else { AlphaDistinct(p, ts[i].place); }
        }
        assert us[i].coef == Product(ts[i].coef, d) == 0;
        if ts[i].coef != 0 { ProductNonzero(ts[i].coef, d); }
      }
      LastCoefficient(ts);
    }
  }

  lemma LastCoefficient(ts: seq<Monomial>)
    requires |ts| > 0 && PowerSum(ts, 0) == 0
    requires forall i :: 0 <= i < |ts| - 1 ==> ts[i].coef == 0
    ensures ts[|ts| - 1].coef == 0
  {
    hide Product, Xor, Alpha;
    var n := |ts| - 1;
    var c := ts[n].coef;
    ZeroTerms(ts[..n], 0);
    ProductCommutes(c, 1);
    OneTimes(c);
    XorZero(c);
  }

  lemma {:induction false} ZeroTerms(ts: seq<Monomial>, j: nat)
    requires forall i :: 0 <= i < |ts| ==> ts[i].coef == 0
    ensures PowerSum(ts, j) == 0
  {
    hide Product, Xor, Alpha;
    if ts != [] {
      ZeroTerms(ts[..|ts| - 1], j);
      TimesZero(Power(Alpha(ts[|ts| - 1].place), j));
      XorSelf(0);
    }
  }

  // ----- the minimum distance -----

  /** The number of nonzero coefficients. */
  function Weight(c: seq<Byte>): (w: nat)
    ensures w <= |c|
  {
    if c == [] then 0 else Weight(c[..|c| - 1]) + (if c[|c| - 1] == 0 then 0 else 1)
  }

  /** The number of places where two words differ. */
  function Distance(a: seq<Byte>, b: seq<Byte>): nat
    requires |a| == |b|
  {
    if a == [] then 0
    else Distance(a[..|a| - 1], b[..|a| - 1]) + (if a[|a| - 1] == b[|a| - 1] then 0 else 1)
  }

  /** Every place one higher. */
  function Raised(ts: seq<Monomial>): (us: seq<Monomial>)
    ensures |us| == |ts|
  {
    seq(|ts|, i requires 0 <= i < |ts| => Monomial(ts[i].coef, ts[i].place + 1))
  }

  /** The nonzero terms of `c`. */
  function Terms(c: seq<Byte>): (ts: seq<Monomial>)
    ensures |ts| == Weight(c)
    ensures forall i :: 0 <= i < |ts| ==> ts[i].coef != 0 && ts[i].place < |c|
    ensures forall i, j :: 0 <= i < j < |ts| ==> ts[i].place != ts[j].place
  {
    if c == [] then []
    else
      var n := |c| - 1;
      Raised(Terms(c[..n])) + (if c[n] == 0 then [] else [Monomial(c[n], 0)])
  }

  lemma PowerOfAlpha(m: nat, j: nat)
    ensures Power(Alpha(m + 1), j) == Product(Power(Alpha(m), j), Alpha(j))
  {
    hide Product, Alpha;
    if j == 0 {
      AlphaOfZero();
      OneTimes(1);
    } else {
      PowerOfAlpha(m, j - 1);
      var a, p, q := Alpha(m), Power(Alpha(m), j - 1), Alpha(j - 1);
      AlphaTimesAlpha(m, 1);
      AlphaTimesAlpha(j - 1, 1);
      var x := Alpha(1);
      ProductAssociates(p, q, Product(a, x));
      ProductAssociates(q, a, x);
      ProductCommutes(q, a);
      ProductAssociates(a, q, x);
      ProductAssociates(p, a, Product(q, x));
    }
  }

  lemma AlphaOfZero()
    ensures Alpha(0) == 1
  {
  }

  lemma {:induction false} RaisedSum(ts: seq<Monomial>, j: nat)
    ensures PowerSum(Raised(ts), j) == Product(PowerSum(ts, j), Alpha(j))
  {
    hide Product, Xor, Alpha, Power;
    if ts == [] {
      TimesZero(Alpha(j));
    } else {
      var n := |ts| - 1;
      RaisedSum(ts[..n], j);
      assert Raised(ts)[..n] == Raised(ts[..n]);
      PowerOfAlpha(ts[n].place, j);
      ProductAssociates(ts[n].coef, Power(Alpha(ts[n].place), j), Alpha(j));
      ProductDistributes(Alpha(j), PowerSum(ts[..n], j), Product(ts[n].coef, Power(Alpha(ts[n].place), j)));
    }
  }

  /** Evaluation at alpha^j is the power sum of the nonzero terms. */
  lemma {:induction false} EvalIsPowerSum(c: seq<Byte>, j: nat)
    ensures Eval(c, Alpha(j)) == PowerSum(Terms(c), j)
  {
    hide Product, Xor, Alpha, Power, Raised;
    if c != [] {
      var n := |c| - 1;
      var up := Raised(Terms(c[..n]));
      EvalIsPowerSum(c[..n], j);
      RaisedSum(Terms(c[..n]), j);
      if c[n] == 0 {
        XorZero(PowerSum(up, j));
        assert up + [] == up;
      } else {
        var t := Monomial(c[n], 0);
        assert (up + [t])[..|up|] == up;
        PowerOfOne(j);
        AlphaOfZero();
        ProductCommutes(c[n], 1);
        OneTimes(c[n]);
      }
    }
  }

  lemma {:induction false} PowerOfOne(j: nat)
    ensures Power(1, j) == 1
  {
    hide Product;
    if j > 0 {
      PowerOfOne(j - 1);
      OneTimes(1);
    }
  }

  /** A word of at most 255 symbols with roots alpha^0 .. alpha^(k-1) is zero or has more than k nonzero symbols. */
  lemma MinimumWeight(c: seq<Byte>, k: nat)
    requires |c| <= 255 && HasRoots(c, k)
    ensures Weight(c) == 0 || Weight(c) > k
  {
    hide Product, Xor, Alpha, PowerSum, Eval;
    var ts := Terms(c);
    if 0 < Weight(c) <= k {
      forall j: nat | j < |ts| ensures PowerSum(ts, j) == 0 { EvalIsPowerSum(c, j); }
      assert ts[0].coef != 0;
      Vandermonde(ts);
      assert false;
    }
  }

  lemma {:induction false} DistanceIsWeight(a: seq<Byte>, b: seq<Byte>)
    requires |a| == |b|
    ensures Distance(a, b) == Weight(Add(a, b))
  {
    hide Xor;
    if a != [] {
      var n := |a| - 1;
      DistanceIsWeight(a[..n], b[..n]);
      assert Add(a, b)[..n] == Add(a[..n], b[..n]);
      XorSelf(a[n]);
      if Xor(a[n], b[n]) == 0 { XorIsZero(a[n], b[n]); }
    }
  }

  lemma {:induction false} ZeroDistance(a: seq<Byte>, b: seq<Byte>)
    requires |a| == |b|
    ensures Distance(a, b) == 0 <==> a == b
  {
    if a != [] {
      var n := |a| - 1;
      ZeroDistance(a[..n], b[..n]);
      assert a == a[..n] + [a[n]] && b == b[..n] + [b[n]];
    }
  }

  /** Two different codewords of one length, at most 255, differ in more than k places. */
  lemma MinimumDistance(a: seq<Byte>, b: seq<Byte>, k: nat)
    requires |a| == |b| <= 255 && a != b
    requires HasRoots(a, k) && HasRoots(b, k)
    ensures Distance(a, b) > k
  {
    hide Product, Xor, Alpha, Eval;
    forall i: nat | i < k ensures Eval(Add(a, b), Alpha(i)) == 0 {
      EvalAdd(a, b, Alpha(i));
      XorSelf(0);
    }
    DistanceIsWeight(a, b);
    ZeroDistance(a, b);
    MinimumWeight(Add(a, b), k);
  }

  lemma {:induction false} FullWeight(c: seq<Byte>)
    requires Weight(c) == |c|
    ensures 0 !in c
  {
    if c != [] {
      FullWeight(c[..|c| - 1]);
      assert c == c[..|c| - 1] + [c[|c| - 1]];
    }
  }

  lemma {:induction false} ZeroWeight(c: seq<Byte>, i: nat)
    requires i < |c| && c[i] != 0
    ensures Weight(c) > 0
  {
    if i < |c| - 1 { ZeroWeight(c[..|c| - 1], i); }
  }

  /** For k <= 254 no coefficient of the generator is zero: its logarithms are all defined. */
  lemma GeneratorHasNoZero(k: nat)
    requires k <= 254
    ensures 0 !in Generator(k)
  {
    hide Eval, Generator;
    GeneratorRoots(k);
    GeneratorMonic(k);
    MinimumWeight(Generator(k), k);
    ZeroWeight(Generator(k), 0);
    FullWeight(Generator(k));
  }

  // ----- the limit of the construction -----

  lemma {:induction false} EvalPowerOfX(n: nat, x: Byte)
    ensures Eval([1] + Zeros(n), x) == Power(x, n)
  {
    hide Product, Xor, Eval;
    if n == 0 {
      EvalSnoc([], 1, x);
      assert [] + [1] == [1] + Zeros(0);
      assert Eval([], x) == 0 by { EvalZeros(0, x); assert Zeros(0) == []; }
      TimesZero(x);
      XorZero(1);
    } else {
      EvalPowerOfX(n - 1, x);
      EvalTimesX([1] + Zeros(n - 1), x);
      assert [1] + Zeros(n) == [1] + Zeros(n - 1) + [0];
    }
  }

  lemma {:induction false} PowerOf255(i: nat)
    ensures Power(Alpha(i), 255) == 1
  {
    hide Product, Alpha;
    if i == 0 {
      AlphaOfZero();
      PowerOfOne(255);
    } else {
      PowerOf255(i - 1);
      PowerOfAlpha(i - 1, 255);
      AlphaOrder();
      OneTimes(1);
    }
  }

  /** With 255 check symbols the generator is x^255 - 1, so it does have zero coefficients. */
  lemma GeneratorAt255()
    ensures Generator(255) == [1] + Zeros(254) + [1]
  {
    hide Product, Xor, Eval, Generator, Power, Alpha;
    var g, h := Generator(255), [1] + Zeros(254) + [1];
    GeneratorRoots(255);
    GeneratorMonic(255);
    forall i: nat | i < 255 ensures Eval(h, Alpha(i)) == 0 {
      EvalSnoc([1] + Zeros(254), 1, Alpha(i));
      EvalTimesX([1] + Zeros(254), Alpha(i));
      assert [1] + Zeros(254) + [0] == [1] + Zeros(255);
      EvalPowerOfX(255, Alpha(i));
      PowerOf255(i);
      XorSelf(1);
    }
    var d := Add(g, h);
    XorSelf(1);
    assert d == Zeros(1) + d[1..];
    forall i: nat | i < 255 ensures Eval(d[1..], Alpha(i)) == 0 {
      EvalAdd(g, h, Alpha(i));
      EvalLeadingZeros(1, d[1..], Alpha(i));
      XorSelf(0);
    }
    MinimumWeight(d[1..], 255);
    if g != h {
      if d[1..] == Zeros(255) { SumIsZero(g, h); }
      var i :| 0 <= i < 255 && d[1..][i] != 0;
      ZeroWeight(d[1..], i);
      assert false;
    }
  }
}
