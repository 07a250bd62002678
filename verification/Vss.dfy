/** Verifiable secret sharing: coefficient commitments and share checks "in the exponent". */
module Vss {
  import opened PrimeField
  import opened Types
  import opened Sums
  import opened Polynomial
  import opened Group

  function Pow(x: Scalar, k: nat): Scalar {
    if k == 0 then 1 else Mul(Pow(x, k - 1), x)
  }

  /** cs[0] * x^0 + ... + cs[k-1] * x^(k-1), in the group. */
  function PowerSumTo(cs: seq<Element>, x: Scalar, k: nat): Element
    requires k <= |cs|
  {
    if k == 0 then IDENTITY
    else PowerSumTo(cs, x, k - 1).Plus(ScalarMult(cs[k - 1], Pow(x, k - 1)))
  }

  function PowerSum(cs: seq<Element>, x: Scalar): Element {
    PowerSumTo(cs, x, |cs|)
  }

  /** The power sum over the first k terms, plus x^k times the rest by Horner, is the whole evaluation. */
  lemma {:induction false} PowerSumHorner(cs: seq<Element>, x: Scalar, k: nat)
    requires k <= |cs|
    ensures Add(PowerSumTo(cs, x, k).log, Mul(Pow(x, k), Eval(Logs(cs)[k..], x))) == Eval(Logs(cs), x)
  {
    var ls := Logs(cs);
    if k == 0 {
      assert ls[0..] == ls;
      MulOne(Eval(ls, x));
      AddZero(Eval(ls, x));
    } else {
      PowerSumHorner(cs, x, k - 1);
      var before, w, rest := PowerSumTo(cs, x, k - 1).log, Pow(x, k - 1), Eval(ls[k..], x);
      assert ls[k - 1..][1..] == ls[k..];
      Distrib(w, ls[k - 1], Mul(x, rest));
      MulComm(w, ls[k - 1]);
      MulAssoc(w, x, rest);
      AddAssoc(before, Mul(ls[k - 1], w), Mul(Pow(x, k), rest));
    }
  }

  /** Evaluating the commitments in the group commits to evaluating the polynomial in the field. */
  lemma {:induction false} PowerSumIsEval(cs: seq<Element>, x: Scalar)
    ensures PowerSum(cs, x) == ScalarBaseMult(Eval(Logs(cs), x))
  {
    PowerSumHorner(cs, x, |cs|);
    MulZero(Pow(x, |cs|));
    AddZero(PowerSum(cs, x).log);
  }

  /** The evaluator shared, word for word, by the dkg, refresh and repairable packages. */
  method EvaluateCommitmentPolynomial(commitment: seq<Element>, x: Scalar) returns (result: Element)
    ensures result == PowerSum(commitment, x)
  {
    result := IDENTITY;
    var xPower := 1;
    for k := 0 to |commitment|
      invariant result == PowerSumTo(commitment, x, k)
      invariant xPower == Pow(x, k)
    {
      result := result.Plus(ScalarMult(commitment[k], xPower));
      xPower := Mul(xPower, x);
    }
  }

  function Keys(shares: seq<VerificationShare>): (ks: seq<Element>)
    ensures |ks| == |shares| && forall i :: 0 <= i < |shares| ==> ks[i] == shares[i].key
  {
    Mapped((v: VerificationShare) => v.key, shares)
  }

  /** The evaluator written inline by VSS.VerifyShare and Participant.VerifySignatureShare:
      the power is not advanced past the last term. */
  method EvaluateVerificationShares(commitments: seq<VerificationShare>, x: Scalar) returns (right: Element)
    ensures right == PowerSum(Keys(commitments), x)
  {
    right := IDENTITY;
    var idPower := 1;
    for j := 0 to |commitments|
      invariant right == PowerSumTo(Keys(commitments), x, j)
      invariant j < |commitments| || j == 0 ==> idPower == Pow(x, j)
    {
      right := right.Plus(ScalarMult(commitments[j].key, idPower));
      if j < |commitments| - 1 {
        idPower := Mul(idPower, x);
      }
    }
  }

  /** One commitment per coefficient, numbered from 0. */
  method CreateCommitments(polynomial: Poly) returns (r: Result<seq<VerificationShare>>)
    requires |polynomial| <= IDENTIFIER_BOUND
    ensures r.Ok? <==> |polynomial| > 0
    ensures r.Ok? ==> Keys(r.value) == Commit(polynomial)
    ensures r.Ok? ==> forall i :: 0 <= i < |r.value| ==> r.value[i].id == i
    ensures r.Err? ==> r.error == Plain(InvalidPolynomial)
  {
    if |polynomial| == 0 {
      return Err(Plain(InvalidPolynomial));
    }
    var commitments := [];
    for i := 0 to |polynomial|
      invariant |commitments| == i
      invariant forall k :: 0 <= k < i ==> commitments[k] == VerificationShare(k, ScalarBaseMult(polynomial[k]))
    {
      commitments := commitments + [VerificationShare(i, ScalarBaseMult(polynomial[i]))];
    }
    assert Keys(commitments) == Commit(polynomial);
    r := Ok(commitments);
  }

  /** Accepts exactly the value of the committed polynomial at the identifier. */
  method VerifyShare(identifier: Identifier, share: Scalar, commitments: seq<VerificationShare>) returns (r: Result<()>)
    ensures identifier == 0 ==> r == Err(Plain(InvalidParticipant))
    ensures identifier != 0 && commitments == [] ==> r == Err(Plain(InvalidParameters))
    ensures identifier != 0 && commitments != [] ==>
      r == if share == Eval(Logs(Keys(commitments)), identifier) then Ok(()) else Err(Plain(InvalidKeyShare))
  {
    if identifier == 0 {
      return Err(Plain(InvalidParticipant));
    }
    if |commitments| == 0 {
      return Err(Plain(InvalidParameters));
    }
    var left := ScalarBaseMult(share);
    var right := EvaluateVerificationShares(commitments, identifier);
    PowerSumIsEval(Keys(commitments), identifier);
    if left != right {
      return Err(Plain(InvalidKeyShare));
    }
    r := Ok(());
  }

  method CombineShares(shares: seq<Scalar>) returns (r: Result<Scalar>)
    ensures r == if shares == [] then Err(Plain(InvalidParameters)) else Ok(Sum(shares))
  {
    if |shares| == 0 {
      return Err(Plain(InvalidParameters));
    }
    var result := 0;
    for i := 0 to |shares|
      invariant result == SumTo(shares, i)
    {
      result := Add(result, shares[i]);
    }
    r := Ok(result);
  }
}
