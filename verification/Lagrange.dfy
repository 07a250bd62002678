/** Lagrange interpolation at any point. */
module Lagrange {
  import opened PrimeField
  import opened Sums
  import opened Polynomial
  import opened Types

  /** The product of x - xs[j] over all j below k other than i. */
  function ProductTo(xs: seq<Scalar>, i: nat, k: nat, x: Scalar): Scalar
    requires k <= |xs|
  {
    if k == 0 then 1
    else if k - 1 == i then ProductTo(xs, i, k - 1, x)
    else Mul(ProductTo(xs, i, k - 1, x), Sub(x, xs[k - 1]))
  }

  /** L_i(x) over the points xs. */
  function Coefficient(xs: seq<Scalar>, i: nat, x: Scalar): Scalar
    requires i < |xs|
  {
    Mul(ProductTo(xs, i, |xs|, x), Inv(ProductTo(xs, i, |xs|, xs[i])))
  }

  function Coefficients(xs: seq<Scalar>, x: Scalar): (ls: seq<Scalar>)
    ensures |ls| == |xs|
    ensures forall i :: 0 <= i < |xs| ==> ls[i] == Coefficient(xs, i, x)
  {
    seq(|xs|, i requires 0 <= i < |xs| => Coefficient(xs, i, x))
  }

  /** The product vanishes exactly at the points it runs over. */
  lemma {:induction false} ProductZero(xs: seq<Scalar>, i: nat, k: nat, x: Scalar)
    requires k <= |xs|
    ensures ProductTo(xs, i, k, x) == 0 <==> exists j :: 0 <= j < k && j != i && xs[j] == x
  {
    if k > 0 {
      ProductZero(xs, i, k - 1, x);
      if k - 1 != i {
        var before, factor := ProductTo(xs, i, k - 1, x), Sub(x, xs[k - 1]);
        SubZero(x, xs[k - 1]);
        MulZero(before);
        MulZero(factor);
        if before != 0 && factor != 0 {
          ProductNotZero(before, factor);
        }
      }
    }
  }

  /** Over distinct points, L_i vanishes exactly at the others. */
  lemma {:induction false} CoefficientZero(xs: seq<Scalar>, i: nat, x: Scalar)
    requires i < |xs| && Distinct(xs)
    ensures Coefficient(xs, i, x) == 0 <==> x in xs && xs[i] != x
  {
    var num, den := ProductTo(xs, i, |xs|, x), ProductTo(xs, i, |xs|, xs[i]);
    ProductZero(xs, i, |xs|, x);
    ProductZero(xs, i, |xs|, xs[i]);
    InvNotZero(den);
    if num == 0 {
      MulZero(Inv(den));
    } else {
      ProductNotZero(num, Inv(den));
    }
  }

  /** L_i is 1 at its own point and 0 at every other. */
  lemma {:induction false} CoefficientAtPoint(xs: seq<Scalar>, i: nat, m: nat)
    requires i < |xs| && m < |xs| && Distinct(xs)
    ensures Coefficient(xs, i, xs[m]) == if i == m then 1 else 0
  {
    if i == m {
      ProductZero(xs, i, |xs|, xs[i]);
      MulInv(ProductTo(xs, i, |xs|, xs[i]));
    } else {
      CoefficientZero(xs, i, xs[m]);
    }
  }

  // ---- the interpolating polynomial ----

  function ProductPoly(xs: seq<Scalar>, i: nat, k: nat): (p: Poly)
    requires k <= |xs|
    ensures |p| == if i < k then k else k + 1
  {
    if k == 0 then [1]
    else if k - 1 == i then ProductPoly(xs, i, k - 1)
    else TimesLinear(ProductPoly(xs, i, k - 1), xs[k - 1])
  }

  lemma {:induction false} EvalProductPoly(xs: seq<Scalar>, i: nat, k: nat, x: Scalar)
    requires k <= |xs|
    ensures Eval(ProductPoly(xs, i, k), x) == ProductTo(xs, i, k, x)
  {
    if k == 0 {
      assert [1][0..] == [1];
      EvalLast([1], x);
    } else {
      EvalProductPoly(xs, i, k - 1, x);
      if k - 1 != i {
        EvalTimesLinear(ProductPoly(xs, i, k - 1), xs[k - 1], x);
        MulComm(Sub(x, xs[k - 1]), ProductTo(xs, i, k - 1, x));
      }
    }
  }

  function InterpolantTo(xs: seq<Scalar>, ys: seq<Scalar>, k: nat): (p: Poly)
    requires k <= |xs| == |ys|
    ensures |p| == |xs|
  {
    if k == 0 then seq(|xs|, _ => 0)
    else
      var i := k - 1;
      Plus(InterpolantTo(xs, ys, i),
           Scale(Mul(ys[i], Inv(ProductTo(xs, i, |xs|, xs[i]))), ProductPoly(xs, i, |xs|)))
  }

  /** The polynomial with |xs| coefficients through the points (xs[i], ys[i]). */
  function Interpolant(xs: seq<Scalar>, ys: seq<Scalar>): (p: Poly)
    requires |xs| == |ys|
    ensures |p| == |xs|
  {
    InterpolantTo(xs, ys, |xs|)
  }

  lemma {:induction false} EvalPlusScaled(p: Poly, k: Scalar, r: Poly, x: Scalar)
    requires |p| == |r|
    ensures Eval(Plus(p, Scale(k, r)), x) == Add(Eval(p, x), Mul(k, Eval(r, x)))
  {
    EvalPlus(p, Scale(k, r), x);
    EvalScale(k, r, x);
  }

  lemma {:induction false} WeighTerm(y: Scalar, inv: Scalar, num: Scalar)
    ensures Mul(Mul(y, inv), num) == Mul(y, Mul(num, inv))
  {
    MulAssoc(y, inv, num);
    MulComm(inv, num);
  }

  lemma {:induction false} EvalInterpolantTo(xs: seq<Scalar>, ys: seq<Scalar>, k: nat, x: Scalar)
    requires k <= |xs| == |ys|
    ensures Eval(InterpolantTo(xs, ys, k), x) == DotTo(ys, Coefficients(xs, x), k)
  {
    if k == 0 {
      EvalAllZero(InterpolantTo(xs, ys, 0), x);
    } else {
      var i := k - 1;
      var den := ProductTo(xs, i, |xs|, xs[i]);
      var num := ProductTo(xs, i, |xs|, x);
      EvalInterpolantTo(xs, ys, i, x);
      EvalPlusScaled(InterpolantTo(xs, ys, i), Mul(ys[i], Inv(den)), ProductPoly(xs, i, |xs|), x);
      EvalProductPoly(xs, i, |xs|, x);
      WeighTerm(ys[i], Inv(den), num);
    }
  }

  lemma {:induction false} InterpolantAtPoint(xs: seq<Scalar>, ys: seq<Scalar>, m: nat)
    requires |xs| == |ys| && m < |xs| && Distinct(xs)
    ensures Eval(Interpolant(xs, ys), xs[m]) == ys[m]
  {
    EvalInterpolantTo(xs, ys, |xs|, xs[m]);
    forall i | 0 <= i < |xs|
      ensures Coefficients(xs, xs[m])[i] == if i == m then 1 else 0
    {
      CoefficientAtPoint(xs, i, m);
    }
    DotSelect(ys, Coefficients(xs, xs[m]), m, |xs|);
  }

  // ---- uniqueness and interpolation ----

  function Minus(p: Poly, r: Poly): (s: Poly)
    requires |p| == |r|
    ensures |s| == |p|
  {
    Plus(p, Scale(Sub(0, 1), r))
  }

  lemma {:induction false} EvalMinus(p: Poly, r: Poly, x: Scalar)
    requires |p| == |r|
    ensures Eval(Minus(p, r), x) == Sub(Eval(p, x), Eval(r, x))
  {
    var e := Eval(r, x);
    EvalPlus(p, Scale(Sub(0, 1), r), x);
    EvalScale(Sub(0, 1), r, x);
    SubLaws(0, 1, e);
    MulZero(e);
    MulOne(e);
    MulComm(e, Sub(0, 1));
    SubAsAdd(Eval(p, x), e);
  }

  lemma {:induction false} MinusZero(p: Poly, r: Poly)
    requires |p| == |r| && AllZero(Minus(p, r))
    ensures p == r
  {
    if p != [] {
      var m := Minus(p, r);
      assert m[1..] == Minus(p[1..], r[1..]);
      assert AllZero(m[1..]);
      MinusZero(p[1..], r[1..]);
      assert m[0] == 0;
      SubLaws(0, 1, r[0]);
      MulZero(r[0]);
      MulOne(r[0]);
      MulComm(r[0], Sub(0, 1));
      SubAsAdd(p[0], r[0]);
      SubZero(p[0], r[0]);
    }
  }

  /** Two coefficient vectors of one length that agree at that many points are the same vector. */
  lemma {:induction false} PointsDetermineCoefficients(p: Poly, r: Poly, xs: seq<Scalar>)
    requires |p| == |r| <= |xs| && Distinct(xs)
    requires forall i :: 0 <= i < |xs| ==> Eval(p, xs[i]) == Eval(r, xs[i])
    ensures p == r
  {
    forall i | 0 <= i < |xs|
      ensures Eval(Minus(p, r), xs[i]) == 0
    {
      EvalMinus(p, r, xs[i]);
      SubZero(Eval(p, xs[i]), Eval(r, xs[i]));
    }
    RootsExhausted(Minus(p, r), xs);
    MinusZero(p, r);
  }

  function Padded(p: Poly, n: nat): (r: Poly)
    requires |p| <= n
    ensures |r| == n
    decreases n - |p|
  {
    if |p| == n then p else Padded(p + [0], n)
  }

  lemma {:induction false} EvalPadded(p: Poly, n: nat, x: Scalar)
    requires |p| <= n
    ensures Eval(Padded(p, n), x) == Eval(p, x)
    decreases n - |p|
  {
    if |p| < n {
      EvalPad(p, x);
      EvalPadded(p + [0], n, x);
    }
  }

  /** Lagrange interpolation at any point, from at least as many points as coefficients. */
  lemma {:induction false} Interpolation(p: Poly, xs: seq<Scalar>, ys: seq<Scalar>, x: Scalar)
    requires |p| <= |xs| == |ys| && Distinct(xs)
    requires forall i :: 0 <= i < |xs| ==> ys[i] == Eval(p, xs[i])
    ensures Dot(ys, Coefficients(xs, x)) == Eval(p, x)
  {
    var r := Padded(p, |xs|);
    forall i | 0 <= i < |xs|
      ensures Eval(r, xs[i]) == Eval(Interpolant(xs, ys), xs[i])
    {
      EvalPadded(p, |xs|, xs[i]);
      InterpolantAtPoint(xs, ys, i);
    }
    PointsDetermineCoefficients(r, Interpolant(xs, ys), xs);
    EvalPadded(p, |xs|, x);
    EvalInterpolantTo(xs, ys, |xs|, x);
  }

  /** The coefficients sum to 1. */
  lemma {:induction false} PartitionOfUnity(xs: seq<Scalar>, x: Scalar)
    requires |xs| > 0 && Distinct(xs)
    ensures Sum(Coefficients(xs, x)) == 1
  {
    var ones := seq(|xs|, i => 1 as Scalar);
    assert [1 as Scalar][0..] == [1];
    forall i | 0 <= i < |xs|
      ensures ones[i] == Eval([1], xs[i])
    {
      EvalLast([1], xs[i]);
    }
    EvalLast([1], x);
    Interpolation([1], xs, ones, x);
    var ls := Coefficients(xs, x);
    forall i | 0 <= i < |xs|
      ensures ls[i] == Mul(ones[i], ls[i])
    {
      MulOne(ls[i]);
    }
    DotIsSum(ones, ls, ls, |xs|);
  }
}
