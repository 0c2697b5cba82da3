/** Polynomials over GF(2^8) as coefficient sequences, highest power first, with no normal form:
    leading zeros are allowed and lengths matter. */
module Polynomials {
  import opened Bits
  import opened Gf256

  function Zeros(n: nat): (z: seq<Byte>)
    ensures |z| == n
  {
    seq(n, i => 0)
  }

  /** Coefficientwise sum of two sequences of the same length. */
  function Add(a: seq<Byte>, b: seq<Byte>): (c: seq<Byte>)
    requires |a| == |b|
    ensures |c| == |a|
  {
    seq(|a|, i requires 0 <= i < |a| => Xor(a[i], b[i]))
  }

  function Scale(c: Byte, a: seq<Byte>): (s: seq<Byte>)
    ensures |s| == |a|
  {
    seq(|a|, i requires 0 <= i < |a| => Product(c, a[i]))
  }

  /** The product of two polynomials. */
  function Convolve(a: seq<Byte>, b: seq<Byte>): (c: seq<Byte>)
    requires |b| > 0
    ensures |c| == |a| + |b| - 1
  {
    if a == [] then Zeros(|b| - 1)
    else
      var n := |a| - 1;
      Add(Convolve(a[..n], b) + [0], Zeros(n) + Scale(a[n], b))
  }

  /** The value at `x`, by Horner's rule. */
  function Eval(a: seq<Byte>, x: Byte): Byte {
    if a == [] then 0 else Xor(Product(Eval(a[..|a| - 1], x), x), a[|a| - 1])
  }

  // ----- laws of Add and Scale -----

  lemma AddCommutes(a: seq<Byte>, b: seq<Byte>)
    requires |a| == |b|
    ensures Add(a, b) == Add(b, a)
  {
    hide Xor;
    forall i | 0 <= i < |a| ensures Add(a, b)[i] == Add(b, a)[i] { XorCommutes(a[i], b[i]); }
  }

  lemma AddAssociates(a: seq<Byte>, b: seq<Byte>, c: seq<Byte>)
    requires |a| == |b| == |c|
    ensures Add(Add(a, b), c) == Add(a, Add(b, c))
  {
    hide Xor;
    forall i | 0 <= i < |a| ensures Add(Add(a, b), c)[i] == Add(a, Add(b, c))[i] { XorAssociates(a[i], b[i], c[i]); }
  }

  lemma AddExchange(a: seq<Byte>, b: seq<Byte>, c: seq<Byte>, d: seq<Byte>)
    requires |a| == |b| == |c| == |d|
    ensures Add(Add(a, b), Add(c, d)) == Add(Add(a, c), Add(b, d))
  {
    hide Xor;
    forall i | 0 <= i < |a| ensures Add(Add(a, b), Add(c, d))[i] == Add(Add(a, c), Add(b, d))[i] {
      XorExchange(a[i], b[i], c[i], d[i]);
    }
  }

  lemma AddZeros(a: seq<Byte>)
    ensures Add(a, Zeros(|a|)) == a && Add(Zeros(|a|), a) == a
  {
    hide Xor;
    forall i | 0 <= i < |a| ensures Add(a, Zeros(|a|))[i] == a[i] && Add(Zeros(|a|), a)[i] == a[i] { XorZero(a[i]); }
  }

  lemma AddSelf(a: seq<Byte>)
    ensures Add(a, a) == Zeros(|a|)
  {
    hide Xor;
    forall i | 0 <= i < |a| ensures Add(a, a)[i] == 0 { XorSelf(a[i]); }
  }

  lemma AddCancels(a: seq<Byte>, b: seq<Byte>)
    requires |a| == |b|
    ensures Add(Add(a, b), b) == a
  {
    AddAssociates(a, b, b);
    AddSelf(b);
    AddZeros(a);
  }

  lemma AddConcat(a: seq<Byte>, b: seq<Byte>, c: seq<Byte>, d: seq<Byte>)
    requires |a| == |b| && |c| == |d|
    ensures Add(a + c, b + d) == Add(a, b) + Add(c, d)
  {
    hide Xor;
  }

  lemma ScaleZero(a: seq<Byte>)
    ensures Scale(0, a) == Zeros(|a|)
  {
    hide Product;
    forall i | 0 <= i < |a| ensures Scale(0, a)[i] == 0 { TimesZero(a[i]); }
  }

  lemma ScaleSum(c: Byte, d: Byte, a: seq<Byte>)
    ensures Scale(Xor(c, d), a) == Add(Scale(c, a), Scale(d, a))
  {
    hide Product, Xor;
    forall i | 0 <= i < |a| ensures Scale(Xor(c, d), a)[i] == Add(Scale(c, a), Scale(d, a))[i] {
      ProductDistributes(a[i], c, d);
    }
  }

  // ----- laws of Eval -----

  lemma {:induction false} EvalZeros(n: nat, x: Byte)
    ensures Eval(Zeros(n), x) == 0
  {
    hide Product, Xor;
    if n > 0 {
      assert Zeros(n)[..n - 1] == Zeros(n - 1);
      EvalZeros(n - 1, x);
      TimesZero(x);
      XorSelf(0);
    }
  }

  lemma EvalSnoc(a: seq<Byte>, c: Byte, x: Byte)
    ensures Eval(a + [c], x) == Xor(Product(Eval(a, x), x), c)
  {
    hide Product, Xor;
    assert (a + [c])[..|a|] == a;
  }

  lemma EvalTimesX(a: seq<Byte>, x: Byte)
    ensures Eval(a + [0], x) == Product(Eval(a, x), x)
  {
    hide Product, Xor, Eval;
    EvalSnoc(a, 0, x);
    XorZero(Product(Eval(a, x), x));
  }

  lemma {:induction false} EvalLeadingZeros(n: nat, a: seq<Byte>, x: Byte)
    ensures Eval(Zeros(n) + a, x) == Eval(a, x)
  {
    hide Product, Xor;
    if a == [] {
      EvalZeros(n, x);
      assert Zeros(n) + a == Zeros(n);
    } else {
      var m := |a| - 1;
      EvalLeadingZeros(n, a[..m], x);
      assert (Zeros(n) + a)[..n + m] == Zeros(n) + a[..m];
    }
  }

  lemma {:induction false} EvalAdd(a: seq<Byte>, b: seq<Byte>, x: Byte)
    requires |a| == |b|
    ensures Eval(Add(a, b), x) == Xor(Eval(a, x), Eval(b, x))
  {
    hide Product, Xor;
    if a == [] {
      XorSelf(0);
    } else {
      var m := |a| - 1;
      EvalAdd(a[..m], b[..m], x);
      assert Add(a, b)[..m] == Add(a[..m], b[..m]);
      ProductDistributes(x, Eval(a[..m], x), Eval(b[..m], x));
      XorExchange(Product(Eval(a[..m], x), x), Product(Eval(b[..m], x), x), a[m], b[m]);
    }
  }

  lemma {:induction false} EvalScale(c: Byte, a: seq<Byte>, x: Byte)
    ensures Eval(Scale(c, a), x) == Product(c, Eval(a, x))
  {
    hide Product, Xor;
    if a == [] {
      TimesZero(c);
    } else {
      var m := |a| - 1;
      EvalScale(c, a[..m], x);
      assert Scale(c, a)[..m] == Scale(c, a[..m]);
      ProductAssociates(c, Eval(a[..m], x), x);
      ProductDistributes(c, Product(Eval(a[..m], x), x), a[m]);
    }
  }

  /** Evaluation is multiplicative. */
  lemma {:induction false} EvalConvolve(a: seq<Byte>, b: seq<Byte>, x: Byte)
    requires |b| > 0
    ensures Eval(Convolve(a, b), x) == Product(Eval(a, x), Eval(b, x))
  {
    hide Product, Xor, Add, Scale, Zeros;
    if a == [] {
      EvalZeros(|b| - 1, x);
      TimesZero(Eval(b, x));
    } else {
      var n := |a| - 1;
      var p, q, y := Eval(a[..n], x), Eval(b, x), a[n];
      EvalConvolve(a[..n], b, x);
      EvalAdd(Convolve(a[..n], b) + [0], Zeros(n) + Scale(y, b), x);
      EvalTimesX(Convolve(a[..n], b), x);
      EvalLeadingZeros(n, Scale(y, b), x);
      EvalScale(y, b, x);
      ProductAssociates(p, q, x);
      ProductCommutes(q, x);
      ProductAssociates(p, x, q);
      ProductDistributes(q, Product(p, x), y);
    }
  }

  lemma AddTrailingZeros(h: seq<Byte>, row: seq<Byte>, n: nat)
    requires |row| == |h| + 1 && n > 0
    ensures Add(h + Zeros(n), row + Zeros(n - 1)) == Add(h + [0], row) + Zeros(n - 1)
  {
    hide Xor;
    assert h + Zeros(n) == h + [0] + Zeros(n - 1);
    AddConcat(h + [0], row, Zeros(n - 1), Zeros(n - 1));
    AddSelf(Zeros(n - 1));
  }

  // ----- laws of Convolve -----

  lemma ConvolveSnoc(a: seq<Byte>, c: Byte, b: seq<Byte>)
    requires |b| > 0
    ensures Convolve(a + [c], b) == Add(Convolve(a, b) + [0], Zeros(|a|) + Scale(c, b))
  {
    hide Xor, Product;
    assert (a + [c])[..|a|] == a;
  }

  lemma {:induction false} ConvolveZeros(n: nat, b: seq<Byte>)
    requires |b| > 0
    ensures Convolve(Zeros(n), b) == Zeros(n + |b| - 1)
  {
    hide Xor, Product;
    if n > 0 {
      ConvolveZeros(n - 1, b);
      assert Zeros(n)[..n - 1] == Zeros(n - 1);
      ScaleZero(b);
      assert Zeros(n + |b| - 2) + [0] == Zeros(n + |b| - 1);
      assert Zeros(n - 1) + Zeros(|b|) == Zeros(n + |b| - 1);
      AddSelf(Zeros(n + |b| - 1));
    }
  }

  /** A low zero coefficient multiplies by x. */
  lemma ConvolveTrailingZero(a: seq<Byte>, b: seq<Byte>)
    requires |b| > 0
    ensures Convolve(a + [0], b) == Convolve(a, b) + [0]
  {
    hide Xor, Product;
    assert (a + [0])[..|a|] == a;
    ScaleZero(b);
    assert Zeros(|a|) + Zeros(|b|) == Zeros(|a| + |b|);
    AddZeros(Convolve(a, b) + [0]);
  }

  lemma {:induction false} ConvolveTrailingZeros(a: seq<Byte>, n: nat, b: seq<Byte>)
    requires |b| > 0
    ensures Convolve(a + Zeros(n), b) == Convolve(a, b) + Zeros(n)
  {
    hide Convolve;
    if n == 0 {
      assert a + Zeros(0) == a;
      assert Convolve(a, b) + Zeros(0) == Convolve(a, b);
    } else {
      ConvolveTrailingZeros(a, n - 1, b);
      ConvolveTrailingZero(a + Zeros(n - 1), b);
      assert a + Zeros(n) == a + Zeros(n - 1) + [0];
      assert Convolve(a, b) + Zeros(n) == Convolve(a, b) + Zeros(n - 1) + [0];
    }
  }

  lemma ConvolveOne(c: Byte, b: seq<Byte>)
    requires |b| > 0
    ensures Convolve([c], b) == Scale(c, b)
  {
    hide Xor, Product;
    assert [c][..0] == [];
    assert Convolve([], b) + [0] == Zeros(|b|);
    assert Zeros(0) + Scale(c, b) == Scale(c, b);
    AddZeros(Scale(c, b));
  }

  lemma {:induction false} ConvolveLeadingZeros(n: nat, a: seq<Byte>, b: seq<Byte>)
    requires |b| > 0
    ensures Convolve(Zeros(n) + a, b) == Zeros(n) + Convolve(a, b)
  {
    hide Xor, Product;
    if a == [] {
      ConvolveZeros(n, b);
      assert Zeros(n) + a == Zeros(n);
      assert Zeros(n) + Zeros(|b| - 1) == Zeros(n + |b| - 1);
    } else {
      var m := |a| - 1;
      ConvolveLeadingZeros(n, a[..m], b);
      assert (Zeros(n) + a)[..n + m] == Zeros(n) + a[..m];
      assert Zeros(n + m) + Scale(a[m], b) == Zeros(n) + (Zeros(m) + Scale(a[m], b));
      assert Zeros(n) + Convolve(a[..m], b) + [0] == Zeros(n) + (Convolve(a[..m], b) + [0]);
      AddConcat(Zeros(n), Zeros(n), Convolve(a[..m], b) + [0], Zeros(m) + Scale(a[m], b));
      AddSelf(Zeros(n));
    }
  }

  lemma {:induction false} ConvolveSum(a: seq<Byte>, c: seq<Byte>, b: seq<Byte>)
    requires |b| > 0 && |a| == |c|
    ensures Convolve(Add(a, c), b) == Add(Convolve(a, b), Convolve(c, b))
  {
    hide Xor, Product;
    if a == [] {
      AddSelf(Zeros(|b| - 1));
    } else {
      var m := |a| - 1;
      ConvolveSum(a[..m], c[..m], b);
      assert Add(a, c)[..m] == Add(a[..m], c[..m]);
      ScaleSum(a[m], c[m], b);
      var p, q := Convolve(a[..m], b), Convolve(c[..m], b);
      var s, t := Scale(a[m], b), Scale(c[m], b);
      AddConcat(p, q, [0], [0]);
      AddConcat(Zeros(m), Zeros(m), s, t);
      AddSelf(Zeros(m));
      AddSelf([0]);
      assert [0] == Zeros(1);
      AddExchange(p + [0], q + [0], Zeros(m) + s, Zeros(m) + t);
    }
  }

  // ----- division -----

  /** `r` with zeros in front, `n` coefficients long. */
  function Padded(r: seq<Byte>, n: nat): (p: seq<Byte>)
    requires |r| <= n
    ensures |p| == n
  {
    Zeros(n - |r|) + r
  }

  /** `v` == q * e + r for a quotient q as long as the division allows, and `r` shorter than `e`. */
  ghost predicate Divides(v: seq<Byte>, e: seq<Byte>, q: seq<Byte>, r: seq<Byte>) {
    && 0 < |e| <= |v| && |q| == |v| - |e| + 1 && |r| < |e|
    && v == Add(Convolve(q, e), Padded(r, |v|))
  }

  /** `r` is what is left of `v` on division by `e`: `v` itself when it is shorter than `e`. */
  ghost predicate IsRemainder(v: seq<Byte>, e: seq<Byte>, r: seq<Byte>) {
    if |v| < |e| then r == v else exists q :: Divides(v, e, q, r)
  }

  /** One elimination step: cancel the leading coefficient with `c` times the divisor, then drop
      leading zeros. A remainder of what is left is a remainder of the whole. */
  lemma RemainderStep(v: seq<Byte>, e: seq<Byte>, c: Byte, z: nat, w: seq<Byte>, r: seq<Byte>)
    requires 0 < |e| <= |v| && 0 < z && z + |w| == |v|
    requires Add(v, Scale(c, e) + Zeros(|v| - |e|)) == Zeros(z) + w
    requires IsRemainder(w, e, r)
    ensures IsRemainder(v, e, r)
  {
    hide Xor, Product, Convolve;
    var n, k := |v|, |v| - |e|;
    var head := Scale(c, e) + Zeros(k);
    AddCancels(v, head);
    ConvolveOne(c, e);
    ConvolveTrailingZeros([c], k, e);
    if |w| < |e| {
      AddCommutes(Zeros(z) + w, head);
      assert Divides(v, e, [c] + Zeros(k), r);
    } else {
      var q :| Divides(w, e, q, r);
      var pad := Zeros(n - |w|) + Padded(r, |w|);
      ConvolveLeadingZeros(z, q, e);
      AddConcat(Zeros(z), Zeros(z), Convolve(q, e), Padded(r, |w|));
      AddSelf(Zeros(z));
      assert Zeros(z) + w == Add(Zeros(z) + Convolve(q, e), pad);
      assert pad == Padded(r, n);
      var q' := Zeros(z) + q;
      ConvolveSum([c] + Zeros(k), q', e);
      AddAssociates(head, Zeros(z) + Convolve(q, e), pad);
      AddCommutes(Zeros(z) + w, head);
      assert Divides(v, e, Add([c] + Zeros(k), q'), r);
    }
  }

  /** The first nonzero coefficient of a product is the product of the first nonzero coefficients. */
  lemma {:induction false} LeadingTerm(q: seq<Byte>, e: seq<Byte>, i: nat)
    requires |e| > 0 && e[0] != 0 && i < |q|
    requires q[i] != 0 && forall j :: 0 <= j < i ==> q[j] == 0
    ensures Convolve(q, e)[i] != 0
  {
    hide Xor, Product;
    var m := |q| - 1;
    var head, tail := Convolve(q[..m], e) + [0], Zeros(m) + Scale(q[m], e);
    if i < m {
      LeadingTerm(q[..m], e, i);
      assert head[i] != 0 && tail[i] == 0;
      XorZero(head[i]);
    } else {
      assert q[..m] == Zeros(m);
      ConvolveZeros(m, e);
      assert head[m] == 0 && tail[m] == Product(q[m], e[0]);
      XorZero(tail[m]);
      ProductNonzero(q[m], e[0]);
    }
  }

  /** The remainder is unique: two of them agree up to leading zeros. */
  lemma RemainderUnique(v: seq<Byte>, e: seq<Byte>, r: seq<Byte>, s: seq<Byte>)
    requires |e| > 0 && e[0] != 0
    requires IsRemainder(v, e, r) && IsRemainder(v, e, s)
    ensures |r| <= |v| && |s| <= |v| && Padded(r, |v|) == Padded(s, |v|)
  {
    if |v| >= |e| {
      var q :| Divides(v, e, q, r);
      var p :| Divides(v, e, p, s);
      var x, y := Convolve(q, e), Convolve(p, e);
      var a, b := Padded(r, |v|), Padded(s, |v|);
      hide Xor, Product, Convolve;
      AddExchange(x, y, a, b);
      AddExchange(x, a, y, b);
      AddSelf(v);
      ConvolveSum(q, p, e);
      var d := Add(q, p);
      assert Add(Convolve(d, e), Add(a, b)) == Zeros(|v|);
      SumIsZero(Convolve(d, e), Add(a, b));
      if exists i :: 0 <= i < |d| && d[i] != 0 {
        var i := FirstNonzero(d);
        LeadingTerm(d, e, i);
        assert a[i] == 0 && b[i] == 0;
        XorZero(0);
        assert false;
      }
      assert d == Zeros(|d|);
      ConvolveZeros(|d|, e);
      SumIsZero(a, b);
    }
  }

  lemma SumIsZero(a: seq<Byte>, b: seq<Byte>)
    requires |a| == |b| && Add(a, b) == Zeros(|a|)
    ensures a == b
  {
    hide Xor;
    forall i | 0 <= i < |a| ensures a[i] == b[i] {
      assert Add(a, b)[i] == 0;
      XorIsZero(a[i], b[i]);
    }
  }

  ghost function FirstNonzero(d: seq<Byte>): (i: nat)
    requires exists i :: 0 <= i < |d| && d[i] != 0
    ensures i < |d| && d[i] != 0 && forall j :: 0 <= j < i ==> d[j] == 0
  {
    if d[0] != 0 then 0 else
      assert exists i :: 0 <= i < |d[1..]| && d[1..][i] != 0 by {
        var i :| 0 <= i < |d| && d[i] != 0;
        assert d[1..][i - 1] != 0;
      }
      1 + FirstNonzero(d[1..])
  }
}
