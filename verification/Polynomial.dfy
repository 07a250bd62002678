/** Polynomials over the field: evaluation, arithmetic, division by a root. */
module Polynomial {
  import opened PrimeField
  import opened Sums

  /** Coefficients, constant term first. */
  type Poly = seq<Scalar>

  function Eval(p: Poly, x: Scalar): Scalar {
    if p == [] then 0 else Add(p[0], Mul(x, Eval(p[1..], x)))
  }

  lemma {:induction false} EvalLast(p: Poly, x: Scalar)
    requires |p| > 0
    ensures Eval(p[|p| - 1..], x) == p[|p| - 1]
  {
    var q := p[|p| - 1..];
    assert q[1..] == [];
    MulZero(x);
    AddZero(q[0]);
  }

  // ---- polynomial arithmetic, used to build the interpolating polynomial ----

  function Plus(p: Poly, r: Poly): (s: Poly)
    requires |p| == |r|
    ensures |s| == |p|
  {
    if p == [] then [] else [Add(p[0], r[0])] + Plus(p[1..], r[1..])
  }

  function Scale(k: Scalar, p: Poly): (s: Poly)
    ensures |s| == |p|
  {
    if p == [] then [] else [Mul(k, p[0])] + Scale(k, p[1..])
  }

  /** (X - a) * p */
  function TimesLinear(p: Poly, a: Scalar): (s: Poly)
    ensures |s| == |p| + 1
  {
    Plus([0] + p, Scale(Sub(0, a), p) + [0])
  }

  lemma {:induction false} EvalPlus(p: Poly, r: Poly, x: Scalar)
    requires |p| == |r|
    ensures Eval(Plus(p, r), x) == Add(Eval(p, x), Eval(r, x))
  {
    if p == [] {
      AddZero(0);
    } else {
      var p', r' := Eval(p[1..], x), Eval(r[1..], x);
      EvalPlus(p[1..], r[1..], x);
      assert Plus(p, r)[1..] == Plus(p[1..], r[1..]);
      Distrib(x, p', r');
      Swap4(p[0], r[0], Mul(x, p'), Mul(x, r'));
    }
  }

  lemma {:induction false} EvalScale(k: Scalar, p: Poly, x: Scalar)
    ensures Eval(Scale(k, p), x) == Mul(k, Eval(p, x))
  {
    if p == [] {
      MulZero(k);
    } else {
      var p' := Eval(p[1..], x);
      EvalScale(k, p[1..], x);
      assert Scale(k, p)[1..] == Scale(k, p[1..]);
      Distrib(k, p[0], Mul(x, p'));
      MulAssoc(k, x, p');
      MulComm(k, x);
      MulAssoc(x, k, p');
    }
  }

  lemma {:induction false} EvalPad(p: Poly, x: Scalar)
    ensures Eval(p + [0], x) == Eval(p, x)
  {
    if p == [] {
      assert (p + [0])[1..] == [];
      MulZero(x);
      AddZero(0);
    } else {
      assert (p + [0])[1..] == p[1..] + [0];
      EvalPad(p[1..], x);
    }
  }

  lemma {:induction false} EvalTimesLinear(p: Poly, a: Scalar, x: Scalar)
    ensures Eval(TimesLinear(p, a), x) == Mul(Sub(x, a), Eval(p, x))
  {
    var v := Eval(p, x);
    var na := Sub(0, a);
    EvalPlus([0] + p, Scale(na, p) + [0], x);
    EvalPad(Scale(na, p), x);
    EvalScale(na, p, x);
    assert ([0] + p)[1..] == p;
    AddZero(Mul(x, v));
    MulComm(x, v);
    MulComm(na, v);
    Distrib(v, x, na);
    SubAsAdd(x, a);
    MulComm(v, Sub(x, a));
  }

  // ---- division by X - a ----

  /** The q with p(X) = p(a) + (X - a) * q(X). */
  function Quotient(p: Poly, a: Scalar): (q: Poly)
    ensures |q| == if p == [] then 0 else |p| - 1
  {
    if |p| <= 1 then [] else [Eval(p[1..], a)] + Quotient(p[1..], a)
  }

  lemma {:induction false} Division(p: Poly, a: Scalar, x: Scalar)
    ensures Eval(p, x) == Add(Eval(p, a), Mul(Sub(x, a), Eval(Quotient(p, a), x)))
  {
    if |p| <= 1 {
      MulZero(Sub(x, a));
      AddZero(Eval(p, a));
      if |p| == 1 {
        EvalLast(p, x);
        EvalLast(p, a);
        assert p[0..] == p;
      }
    } else {
      var p' := p[1..];
      Division(p', a, x);
      assert Quotient(p, a)[1..] == Quotient(p', a);
      DivisionStep(p[0], Eval(p', a), Eval(Quotient(p', a), x), a, x);
    }
  }

  lemma {:induction false} DivisionStep(c: Scalar, e: Scalar, q: Scalar, a: Scalar, x: Scalar)
    ensures Add(c, Mul(x, Add(e, Mul(Sub(x, a), q)))) == Add(Add(c, Mul(a, e)), Mul(Sub(x, a), Add(e, Mul(x, q))))
  {
    var d := Sub(x, a);
    Distrib(x, e, Mul(d, q));
    Distrib(d, e, Mul(x, q));
    assert Mul(x, Mul(d, q)) == Mul(d, Mul(x, q)) by {
      MulAssoc(x, d, q);
      MulComm(x, d);
      MulAssoc(d, x, q);
    }
    assert Mul(x, e) == Add(Mul(a, e), Mul(d, e)) by {
      SubAdd(x, a);
      AddComm(d, a);
      MulComm(x, e);
      Distrib(e, a, d);
      MulComm(a, e);
      MulComm(d, e);
    }
    var t := Mul(d, Mul(x, q));
    AddAssoc(Mul(a, e), Mul(d, e), t);
    AddAssoc(c, Mul(a, e), Add(Mul(d, e), t));
  }

  // ---- a polynomial with at most n coefficients is determined by n points ----

  predicate AllZero(p: Poly) {
    forall i :: 0 <= i < |p| ==> p[i] == 0
  }

  lemma {:induction false} EvalAllZero(p: Poly, x: Scalar)
    requires AllZero(p)
    ensures Eval(p, x) == 0
  {
    if p != [] {
      EvalAllZero(p[1..], x);
      MulZero(x);
      AddZero(0);
    }
  }

  lemma {:induction false} ZeroQuotient(p: Poly, a: Scalar)
    requires AllZero(Quotient(p, a)) && Eval(p, a) == 0
    ensures AllZero(p)
  {
    if |p| == 1 {
      EvalLast(p, a);
      assert p[0..] == p;
    } else if |p| > 1 {
      var q := Quotient(p, a);
      assert Eval(p[1..], a) == q[0] == 0;
      assert q[1..] == Quotient(p[1..], a);
      ZeroQuotient(p[1..], a);
      MulZero(a);
      AddZero(p[0]);
    }
  }

  lemma {:induction false} RootsExhausted(p: Poly, xs: seq<Scalar>)
    requires |p| <= |xs| && Distinct(xs)
    requires forall i :: 0 <= i < |xs| ==> Eval(p, xs[i]) == 0
    ensures AllZero(p)
    decreases |p|
  {
    if p != [] {
      var a := xs[0];
      var q := Quotient(p, a);
      forall i | 0 <= i < |xs[1..]|
        ensures Eval(q, xs[1..][i]) == 0
      {
        var x := xs[i + 1];
        Division(p, a, x);
        AddZero(Mul(Sub(x, a), Eval(q, x)));
        NoZeroDivisors(Sub(x, a), Eval(q, x));
        SubZero(x, a);
      }
      RootsExhausted(q, xs[1..]);
      ZeroQuotient(p, a);
    }
  }
}
