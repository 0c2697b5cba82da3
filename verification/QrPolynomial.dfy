/** The encoder's polynomials and its error-correction blocks. */
module QrPolynomial {
  import opened Bits
  import opened Gf256
  import opened Polynomials
  import opened Codewords
  import opened QrMath
  import opened Exceptions

  /** A polynomial of the encoder: the coefficients that were set, highest power first, followed by
      array slots that were allocated but never written. Such a slot reads as `undefined`, which
      counts as 0 in arithmetic but does not compare equal to 0. */
  datatype Poly = Poly(coeffs: seq<Byte>, unset: nat) {
    function Length(): nat {
      |coeffs| + unset
    }

    /** The coefficients with the unset slots read as 0. */
    function Coefficients(): (c: seq<Byte>)
      ensures |c| == Length()
    {
      coeffs + Zeros(unset)
    }

    /** No leading coefficient that was set is zero. */
    predicate Normal() {
      coeffs == [] || coeffs[0] != 0
    }
  }

  /** `s` without its leading zeros. */
  function Stripped(s: seq<Byte>): (t: seq<Byte>)
    ensures |t| <= |s| && s == Zeros(|s| - |t|) + t
    ensures t == [] || t[0] != 0
  {
    if s == [] || s[0] != 0 then s else
      var t := Stripped(s[1..]);
      assert s == [0] + s[1..] && [0] + Zeros(|s| - 1 - |t|) == Zeros(|s| - |t|);
      t
  }

  /** The constructor: drops leading zeros, appends `shift` unset slots. `num` may itself end in
      `unset` slots that were never written. */
  method MakePoly(num: seq<Byte>, unset: nat, shift: nat) returns (p: Poly)
    ensures p == Poly(Stripped(num), unset + shift)
  {
    var offset := 0;
    while offset < |num| && num[offset] == 0
      invariant offset <= |num|
      invariant Stripped(num) == Stripped(num[offset..])
    {
      assert num[offset..][1..] == num[offset + 1..];
      offset := offset + 1;
    }
    p := Poly(num[offset..], unset + shift);
  }

  // ----- logarithm arithmetic -----

  lemma ExpOfSum(a: Byte, b: Byte)
    requires a != 0 && b != 0
    ensures Exp(Log(a) + Log(b)) == Product(a, b)
  {
    hide Product, Alpha;
    AlphaTimesAlpha(Log(a), Log(b));
  }

  /** `gexp(glog(b) + glog(a) - glog(e))` is b * (a / e). */
  lemma ExpOfRatio(a: Byte, b: Byte, e: Byte)
    requires a != 0 && b != 0 && e != 0
    ensures Exp(Log(b) + (Log(a) - Log(e))) == Product(Quotient(a, e), b)
  {
    hide Product, Alpha;
    var i: int, j: int, k: int := Log(a), Log(b), Log(e);
    var q := Quotient(a, e);
    if q == 0 { TimesZero(e); }
    var n: int := Log(q);
    AlphaTimesAlpha(n, k);
    AlphaTimesAlpha(n, j);
    if i < n + k { SameResidue(i, n + k); } else { SameResidue(n + k, i); }
    if n + k == i {
      assert j + (i - k) == n + j;
    } else {
      var m: int := j + (i - k);
      assert m + 255 == n + j;
      if m >= 0 { AlphaPeriod(m); }
    }
  }

  /** Equal powers at most two periods apart differ by a whole number of periods. */
  lemma SameResidue(i: nat, j: nat)
    requires i <= j < i + 510 && Alpha(i) == Alpha(j)
    ensures j == i || j == i + 255
  {
    hide Alpha;
    if i < j < i + 255 {
      AlphaDistinct(i, j);
    } else if j > i + 255 {
      AlphaPeriod(i);
      AlphaDistinct(i + 255, j);
    }
  }

  // ----- multiplication -----

  /** One row of the schoolbook product: from the first `i` coefficients of `a` to the first i + 1. */
  lemma ProductRow(a: seq<Byte>, e: seq<Byte>, i: nat, p: seq<Byte>, q: seq<Byte>)
    requires |e| > 0 && i < |a| && p == a[..i] && q == a[..i + 1]
    ensures Add(Convolve(p, e) + Zeros(|a| - i), Zeros(i) + Scale(a[i], e) + Zeros(|a| - i - 1))
         == Convolve(q, e) + Zeros(|a| - i - 1)
  {
    hide *;
    assert q == p + [a[i]];
    ConvolveSnoc(p, a[i], e);
    AddTrailingZeros(Convolve(p, e), Zeros(i) + Scale(a[i], e), |a| - i);
  }

  /** What a slot counts in arithmetic: an unset one counts 0. */
  function SlotValue(p: Poly, i: nat): Byte
    requires i < p.Length()
  {
    p.Coefficients()[i]
  }

  /** The logarithm of a slot; it throws on a zero that was set. An unset slot gives no number. */
  method SlotLog(math: QRMath, p: Poly, i: nat) returns (r: Result<Option<nat>>)
    requires math.Valid() && i < p.Length()
    ensures r == if i >= |p.coeffs| then Ok(None) else if p.coeffs[i] == 0 then Thrown else Ok(Some(Log(p.coeffs[i])))
  {
    hide Log;
    if i >= |p.coeffs| {
      return Ok(None);
    }
    var l := math.Glog(p.coeffs[i]);
    return if l.Thrown? then Thrown else Ok(Some(l.value));
  }

  /** One pass of the inner loop: adds slot i of `a` times `e` at offset `i`. It throws on a zero that
      was set. */
  method AddRow(math: QRMath, num: array<Byte>, a: Poly, e: Poly, i: nat) returns (ok: bool)
    requires math.Valid() && math.expTable != num && e.Length() > 0 && i < a.Length()
    requires i + e.Length() <= num.Length
    modifies num
    ensures ok == (!(i < |a.coeffs| && a.coeffs[i] == 0) && 0 !in e.coeffs)
    ensures ok ==> num[..] == Add(old(num[..]), Zeros(i) + Scale(SlotValue(a, i), e.Coefficients()) + Zeros(num.Length - i - e.Length()))
  {
    hide Xor, Product, Alpha, Log, IsExpTable, IsLogTable;
    var c, y := SlotValue(a, i), e.Coefficients();
    for j := 0 to |y|
      invariant j > 0 ==> !(i < |a.coeffs| && a.coeffs[i] == 0)
      invariant forall k :: 0 <= k < j && k < |e.coeffs| ==> e.coeffs[k] != 0
      invariant forall k :: 0 <= k < num.Length ==>
        num[k] == if i <= k < i + j then Xor(old(num[k]), Product(c, y[k - i])) else old(num[k])
    {
      var la := SlotLog(math, a, i);
      var lb := SlotLog(math, e, j);
      if la.Thrown? || lb.Thrown? {
        return false;
      }
      if la.value.Some? && lb.value.Some? {
        var t := math.Gexp(la.value.value + lb.value.value);
        ExpOfSum(c, y[j]);
        num[i + j] := Xor(num[i + j], t);
      } else {
        UnsetTimes(c, y[j]);
        num[i + j] := Xor(num[i + j], 0);
      }
    }
    RowAdded(old(num[..]), num[..], c, y, i);
    return true;
  }

  lemma UnsetTimes(a: Byte, b: Byte)
    ensures a == 0 || b == 0 ==> Product(a, b) == 0
  {
    TimesZero(a);
    TimesZero(b);
  }

  lemma ProductStart(x: seq<Byte>, y: seq<Byte>)
    requires y != []
    ensures Convolve(x[..0], y) + Zeros(|x|) == Zeros(|x| + |y| - 1)
  {
    assert x[..0] == Zeros(0);
    ConvolveZeros(0, y);
  }

  lemma ProductNormal(x: seq<Byte>, y: seq<Byte>)
    requires x != [] && y != [] && x[0] != 0 && y[0] != 0
    ensures Stripped(Convolve(x, y)) == Convolve(x, y)
  {
    hide Xor, Product, Convolve;
    ProductHead(x, y);
    ProductNonzero(x[0], y[0]);
  }

  /** An empty polynomial leaves every slot of the result unwritten, and two of them ask for an array of
      length -1, which throws. */
  method Multiply(math: QRMath, a: Poly, e: Poly) returns (r: Result<Poly>)
    requires math.Valid()
    ensures a.Length() == 0 && e.Length() == 0 ==> r == Thrown
    ensures (a.Length() == 0) != (e.Length() == 0) ==> r == Ok(Poly([], a.Length() + e.Length() - 1))
    ensures a.Length() > 0 && e.Length() > 0 ==>
      r == if 0 in a.coeffs || 0 in e.coeffs then Thrown else Ok(Poly(Stripped(Convolve(a.Coefficients(), e.Coefficients())), 0))
  {
    hide Xor, Product, Alpha, Convolve, Scale, Stripped, IsExpTable, IsLogTable, Add, Log;
    if a.Length() + e.Length() < 1 {
      return Thrown;
    }
    if a.Length() == 0 || e.Length() == 0 {
      return Ok(Poly([], a.Length() + e.Length() - 1));
    }
    ghost var x, y := a.Coefficients(), e.Coefficients();
    var num := new Byte[a.Length() + e.Length() - 1](i => 0);
    ProductStart(x, y);
    assert num[..] == Zeros(|x| + |y| - 1);
    for i := 0 to a.Length()
      invariant forall k :: 0 <= k < i && k < |a.coeffs| ==> a.coeffs[k] != 0
      invariant i > 0 ==> 0 !in e.coeffs
      invariant num[..] == Convolve(x[..i], y) + Zeros(|x| - i)
    {
      var ok := AddRow(math, num, a, e, i);
      if !ok {
        return Thrown;
      }
      ProductRow(x, y, i, x[..i], x[..i + 1]);
    }
    assert x[..|x|] == x && num[..] == Convolve(x, y);
    var p := MakePoly(num[..], 0, 0);
    return Ok(p);
  }

  /** The inner loop adds one shifted multiple of `y`. */
  lemma RowAdded(was: seq<Byte>, now: seq<Byte>, c: Byte, y: seq<Byte>, i: nat)
    requires |was| == |now| && i + |y| <= |was|
    requires forall k :: 0 <= k < |was| ==>
      now[k] == if i <= k < i + |y| then Xor(was[k], Product(c, y[k - i])) else was[k]
    ensures now == Add(was, Zeros(i) + Scale(c, y) + Zeros(|was| - i - |y|))
  {
    hide Xor, Product;
    var row := Zeros(i) + Scale(c, y) + Zeros(|was| - i - |y|);
    forall k | 0 <= k < |was| ensures now[k] == Xor(was[k], row[k]) {
      XorZero(was[k]);
    }
  }

  // ----- the generator -----

  lemma GeneratorNext(k: nat)
    ensures Generator(k + 1) == Convolve(Generator(k), [1, Alpha(k)])
  {
  }

  /** Up to 255 factors the running product has no zero coefficient before the last one. */
  lemma GeneratorFactors(i: nat)
    requires i <= 255
    ensures 0 in Generator(i) <==> i == 255
  {
    hide Generator, Convolve;
    if i <= 254 {
      GeneratorHasNoZero(i);
    } else {
      GeneratorAt255();
      assert Generator(255)[1] == 0;
    }
  }

  lemma GeneratorStart()
    ensures Generator(0) == [1] && Stripped([1]) == [1]
  {
  }

  lemma LinearFactor(root: Byte)
    requires root != 0
    ensures Stripped([1, root]) == [1, root] && 0 !in [1, root]
  {
  }

  lemma FullyWritten(p: Poly)
    requires p.unset == 0
    ensures p.Coefficients() == p.coeffs
  {
  }

  method GetErrorCorrectPolynomial(math: QRMath, errorCorrectLength: nat) returns (r: Result<Poly>)
    requires math.Valid()
    ensures r == if errorCorrectLength <= 255 then Ok(Poly(Generator(errorCorrectLength), 0)) else Thrown
  {
    hide Alpha, Convolve, Xor, Generator, Stripped, Product, IsExpTable, IsLogTable, Log;
    GeneratorStart();
    var a := MakePoly([1], 0, 0);
    for i := 0 to errorCorrectLength
      invariant i <= 255
      invariant a == Poly(Generator(i), 0)
    {
      var root := math.Gexp(i);
      AlphaNonzero(i);
      LinearFactor(root);
      var factor := MakePoly([1, root], 0, 0);
      GeneratorMonic(i);
      GeneratorFactors(i);
      GeneratorNext(i);
      ProductNormal(Generator(i), [1, root]);
      FullyWritten(a);
      FullyWritten(factor);
      var product := Multiply(math, a, factor);
      if product.Thrown? {
        return Thrown;
      }
      a := product.value;
    }
    return Ok(a);
  }

  // ----- division -----

  /** The multiple of the divisor that one elimination step subtracts. An unset leading slot gives an
      undefined ratio, and the step then changes nothing but turns unset slots into zeros. */
  ghost function Ratio(p: Poly, e: Poly): Byte
    requires e.coeffs != [] && e.coeffs[0] != 0
  {
    if p.coeffs == [] then 0 else Quotient(p.coeffs[0], e.coeffs[0])
  }

  /** The loop of the elimination step over the slots that end up set. */
  method Eliminate(math: QRMath, p: Poly, e: Poly) returns (ok: bool, eliminated: seq<Byte>)
    requires math.Valid()
    requires e.unset == 0 && e.coeffs != [] && e.Normal() && p.Normal() && e.Length() <= p.Length()
    ensures ok <==> 0 !in e.coeffs
    ensures ok ==> |e.coeffs| <= |eliminated| && |p.coeffs| <= |eliminated| <= p.Length()
    ensures ok ==> eliminated[0] == 0
    ensures ok ==>
      eliminated + Zeros(p.Length() - |eliminated|) == Add(p.Coefficients(), Scale(Ratio(p, e), e.coeffs) + Zeros(p.Length() - e.Length()))
  {
    hide Xor, Product, Alpha, IsExpTable, IsLogTable, Log, Quotient;
    var y, k := e.coeffs, |e.coeffs|;
    ghost var c := Ratio(p, e);
    var top := math.Glog(y[0]);
    var ratio := 0;
    if p.coeffs != [] {
      var lead := math.Glog(p.coeffs[0]);
      ratio := lead.value - top.value;
    }
    var size := if |p.coeffs| < k then k else |p.coeffs|;
    var num := new Byte[size](i => if 0 <= i < |p.coeffs| then p.coeffs[i] else 0);
    ghost var was := num[..];
    for i := 0 to k
      invariant forall j :: 0 <= j < i ==> y[j] != 0
      invariant forall j :: 0 <= j < size ==>
        num[j] == if j < i then Xor(was[j], Product(c, y[j])) else was[j]
    {
      var l := math.Glog(y[i]);
      if l.Thrown? {
        return false, [];
      }
      if p.coeffs != [] {
        var t := math.Gexp(l.value + ratio);
        ExpOfRatio(p.coeffs[0], y[i], y[0]);
        num[i] := Xor(num[i], t);
      } else {
        num[i] := Xor(num[i], 0);
        TimesZero(y[i]);
      }
    }
    eliminated := num[..];
    Eliminated(p, e, c, was, eliminated);
    LeadCancels(p, e, was, eliminated);
    return true, eliminated;
  }

  lemma Eliminated(p: Poly, e: Poly, c: Byte, was: seq<Byte>, now: seq<Byte>)
    requires |e.coeffs| <= |was| == |now| <= p.Length() && |p.coeffs| <= |was| && e.unset == 0
    requires forall j :: 0 <= j < |was| ==> was[j] == if j < |p.coeffs| then p.coeffs[j] else 0
    requires forall j :: 0 <= j < |was| ==>
      now[j] == if j < |e.coeffs| then Xor(was[j], Product(c, e.coeffs[j])) else was[j]
    ensures now + Zeros(p.Length() - |now|)
      == Add(p.Coefficients(), Scale(c, e.coeffs) + Zeros(p.Length() - e.Length()))
  {
    hide Xor, Product;
    var v, row := p.Coefficients(), Scale(c, e.coeffs) + Zeros(p.Length() - e.Length());
    var x := now + Zeros(p.Length() - |now|);
    forall j | 0 <= j < |v| ensures x[j] == Xor(v[j], row[j]) {
      XorZero(v[j]);
    }
  }

  lemma LeadCancels(p: Poly, e: Poly, was: seq<Byte>, now: seq<Byte>)
    requires |was| == |now| > 0 && e.coeffs != [] && e.coeffs[0] != 0 && p.Normal()
    requires was[0] == if p.coeffs == [] then 0 else p.coeffs[0]
    requires now[0] == Xor(was[0], Product(Ratio(p, e), e.coeffs[0]))
    ensures now[0] == 0
  {
    hide Xor, Product;
    TimesZero(e.coeffs[0]);
    XorSelf(was[0]);
  }

  /** Recursive division. It throws only when an elimination step meets a zero coefficient of the divisor. */
  method Mod(math: QRMath, p: Poly, e: Poly) returns (r: Result<Poly>)
    requires math.Valid()
    requires e.unset == 0 && e.coeffs != [] && e.Normal() && p.Normal()
    ensures r.Thrown? <==> p.Length() >= e.Length() && 0 in e.coeffs
    ensures p.Length() < e.Length() ==> r == Ok(p)
    ensures r.Ok? ==> r.value.Normal() && r.value.Length() < e.Length()
    ensures r.Ok? ==> IsRemainder(p.Coefficients(), e.coeffs, r.value.Coefficients())
    decreases p.Length()
  {
    if p.Length() - e.Length() < 0 {
      return Ok(p);
    }
    var ok, num := Eliminate(math, p, e);
    if !ok {
      return Thrown;
    }
    var unset := p.Length() - |num|;
    var q := MakePoly(num, unset, 0);
    assert Stripped(num) == Stripped(num[1..]);
    r := Mod(math, q, e);
    ModStep(p, e, num, q, r);
  }

  lemma ModStep(p: Poly, e: Poly, num: seq<Byte>, q: Poly, r: Result<Poly>)
    requires e.unset == 0 && e.coeffs != [] && e.Normal() && e.Length() <= p.Length()
    requires 0 < |num| <= p.Length() && num[0] == 0 && q == Poly(Stripped(num), p.Length() - |num|)
    requires num + Zeros(p.Length() - |num|)
      == Add(p.Coefficients(), Scale(Ratio(p, e), e.coeffs) + Zeros(p.Length() - e.Length()))
    requires r.Ok? ==> IsRemainder(q.Coefficients(), e.coeffs, r.value.Coefficients())
    ensures r.Ok? ==> IsRemainder(p.Coefficients(), e.coeffs, r.value.Coefficients())
  {
    var t, z := Stripped(num), |num| - |Stripped(num)|;
    assert Stripped(num) == Stripped(num[1..]);
    hide Stripped, Scale, Add, IsRemainder;
    assert num == Zeros(z) + t;
    assert num + Zeros(p.Length() - |num|) == Zeros(z) + q.Coefficients();
    if r.Ok? {
      RemainderStep(p.Coefficients(), e.coeffs, Ratio(p, e), z, q.Coefficients(), r.value.Coefficients());
    }
  }
}
