/** The polynomial helper of the library: Horner evaluation and Lagrange coefficients, as loops. */
module PolynomialHelper {
  import opened PrimeField
  import opened Types
  import opened Polynomial
  import opened Sums
  import opened Lagrange

  /** Horner's method from the highest coefficient down. */
  method Evaluate(poly: Poly, x: Scalar) returns (result: Scalar)
    ensures result == Eval(poly, x)
  {
    if |poly| == 0 {
      return 0;
    }
    result := poly[|poly| - 1];
    EvalLast(poly, x);
    var i := |poly| - 2;
    while i >= 0
      invariant -1 <= i < |poly| - 1
      invariant result == Eval(poly[i + 1..], x)
    {
      MulComm(result, x);
      AddComm(Mul(result, x), poly[i]);
      assert poly[i..][1..] == poly[i + 1..];
      result := Add(Mul(result, x), poly[i]);
      i := i - 1;
    }
  }

  function IndexOf(xs: seq<Scalar>, x: Scalar): (i: nat)
    requires x in xs
    ensures i < |xs| && xs[i] == x && x !in xs[..i]
  {
    if xs[0] == x then 0 else IndexOf(xs[1..], x) + 1
  }

  /** What the library promises of DeriveInterpolatingValue: L_i(0) for the point xi, or a parameter error. */
  function InterpolatingValue(xs: seq<Scalar>, xi: Scalar): Result<Scalar> {
    if xi in xs && Distinct(xs) then Ok(Coefficient(xs, IndexOf(xs, xi), 0))
    else Err(Plain(InvalidParameters))
  }

  // ---- the two ways of writing the fraction ----

  /** The product of the xs[j], j below k other than i. */
  function NumeratorTo(xs: seq<Scalar>, i: nat, k: nat): Scalar
    requires k <= |xs|
  {
    if k == 0 then 1
    else if k - 1 == i then NumeratorTo(xs, i, k - 1)
    else Mul(NumeratorTo(xs, i, k - 1), xs[k - 1])
  }

  /** The product of the xs[j] - xs[i], j below k other than i. */
  function DenominatorTo(xs: seq<Scalar>, i: nat, k: nat): Scalar
    requires i < |xs| && k <= |xs|
  {
    if k == 0 then 1
    else if k - 1 == i then DenominatorTo(xs, i, k - 1)
    else Mul(DenominatorTo(xs, i, k - 1), Sub(xs[k - 1], xs[i]))
  }

  lemma {:induction false} MulSwap4(a: Scalar, b: Scalar, c: Scalar, d: Scalar)
    ensures Mul(Mul(a, b), Mul(c, d)) == Mul(Mul(a, c), Mul(b, d))
  {
    MulAssoc(a, b, Mul(c, d));
    MulAssoc(b, c, d);
    MulComm(b, c);
    MulAssoc(c, b, d);
    MulAssoc(a, c, Mul(b, d));
  }

  /** (0 - b)(b - a) == b(a - b) */
  lemma {:induction false} NegateBoth(a: Scalar, b: Scalar)
    ensures Mul(Sub(0, b), Sub(b, a)) == Mul(b, Sub(a, b))
  {
    var d := Sub(b, a);
    SubLaws(0, b, d);
    MulZero(d);
    MulComm(d, Sub(0, b));
    MulComm(d, b);
    SubLaws(0, d, b);
    MulZero(b);
    assert Sub(0, d) == Sub(a, b) by {
      SubAsAdd(b, a);
      SubAsAdd(a, b);
      assert Add(Sub(a, b), d) == 0 by {
        Swap(a, b);
      }
      SubAdd(Sub(a, b), d);
    }
  }

  /** (a - b) + (b - a) == 0 */
  lemma {:induction false} Swap(a: Scalar, b: Scalar)
    ensures Add(Sub(a, b), Sub(b, a)) == 0
  {
    SubAsAdd(b, a);
    AddAssoc(Sub(a, b), b, Sub(0, a));
    SubAdd(a, b);
    SubAsAdd(a, a);
    SubZero(a, a);
  }

  lemma {:induction false} CrossProducts(xs: seq<Scalar>, i: nat, k: nat)
    requires i < |xs| && k <= |xs|
    ensures Mul(ProductTo(xs, i, k, 0), DenominatorTo(xs, i, k))
      == Mul(NumeratorTo(xs, i, k), ProductTo(xs, i, k, xs[i]))
  {
    if k > 0 {
      CrossProducts(xs, i, k - 1);
      if k - 1 != i {
        var x := xs[k - 1];
        MulSwap4(ProductTo(xs, i, k - 1, 0), Sub(0, x), DenominatorTo(xs, i, k - 1), Sub(x, xs[i]));
        NegateBoth(xs[i], x);
        MulSwap4(NumeratorTo(xs, i, k - 1), x, ProductTo(xs, i, k - 1, xs[i]), Sub(xs[i], x));
      }
    }
  }

  lemma {:induction false} EqualFractions(n: Scalar, d: Scalar, n': Scalar, d': Scalar)
    requires d != 0 && d' != 0 && Mul(n, d') == Mul(n', d)
    ensures Mul(n, Inv(d)) == Mul(n', Inv(d'))
  {
    MulInv(d);
    MulInv(d');
    MulOne(Mul(n, Inv(d)));
    MulOne(Mul(n', Inv(d')));
    MulSwap4(n, Inv(d), d', Inv(d'));
    MulSwap4(n', Inv(d'), d, Inv(d));
    MulComm(Inv(d'), Inv(d));
  }

  lemma {:induction false} DenominatorNonZero(xs: seq<Scalar>, i: nat, k: nat)
    requires i < |xs| && k <= |xs| && Distinct(xs)
    ensures DenominatorTo(xs, i, k) != 0
  {
    if k > 0 {
      DenominatorNonZero(xs, i, k - 1);
      if k - 1 != i {
        SubZero(xs[k - 1], xs[i]);
        ProductNotZero(DenominatorTo(xs, i, k - 1), Sub(xs[k - 1], xs[i]));
      }
    }
  }

  /** Computes the Lagrange coefficient at 0 of the point xi among xCoords. */
  method DeriveInterpolatingValue(xCoords: seq<Scalar>, xi: Scalar) returns (r: Result<Scalar>)
    ensures r == InterpolatingValue(xCoords, xi)
    ensures r.Ok? <==> xi in xCoords && Distinct(xCoords)
    ensures r.Ok? ==> forall i :: 0 <= i < |xCoords| && xCoords[i] == xi ==> r.value == Coefficient(xCoords, i, 0)
    ensures r.Err? ==> r.error == Plain(InvalidParameters)
  {
    if |xCoords| == 0 {
      return Err(Plain(InvalidParameters));
    }
    var found := false;
    for i := 0 to |xCoords|
      invariant found <==> xi in xCoords[..i]
    {
      if xCoords[i] == xi {
        found := true;
        break;
      }
    }
    if !found {
      return Err(Plain(InvalidParameters));
    }
    for i := 0 to |xCoords|
      invariant forall k, l :: 0 <= k < i && k < l < |xCoords| ==> xCoords[k] != xCoords[l]
    {
      for j := i + 1 to |xCoords|
        invariant forall l :: i < l < j ==> xCoords[i] != xCoords[l]
      {
        if xCoords[i] == xCoords[j] {
          return Err(Plain(InvalidParameters));
        }
      }
    }
    ghost var m := IndexOf(xCoords, xi);
    if |xCoords| == 1 {
      assert ProductTo(xCoords, m, 0, 0) == 1 && ProductTo(xCoords, m, 0, xi) == 1;
      MulInv(1);
      return Ok(1);
    }
    var numerator, denominator := 1, 1;
    for j := 0 to |xCoords|
      invariant numerator == NumeratorTo(xCoords, m, j)
      invariant denominator == DenominatorTo(xCoords, m, j)
    {
      if xCoords[j] != xi {
        numerator := Mul(numerator, xCoords[j]);
        denominator := Mul(denominator, Sub(xCoords[j], xi));
      }
    }
    DenominatorNonZero(xCoords, m, |xCoords|);
    ProductZero(xCoords, m, |xCoords|, xi);
    CrossProducts(xCoords, m, |xCoords|);
    EqualFractions(ProductTo(xCoords, m, |xCoords|, 0), ProductTo(xCoords, m, |xCoords|, xi), numerator, denominator);
    r := Ok(Mul(numerator, Inv(denominator)));
  }
}
