/** Repairing a lost share with the help of at least t other participants. */
module Repair {
  import opened PrimeField
  import opened Group
  import opened Types
  import opened Sums
  import opened Polynomial
  import opened Lagrange
  import opened Encoding
  import opened Vss
  import PolynomialHelper
  import Dealer

  // ---- the Lagrange coefficient at an arbitrary point ----

  /** Refused when x_i is missing or repeated. */
  function LagrangeResult(xs: seq<Scalar>, x: Scalar, xi: Scalar): Result<Scalar> {
    if xi !in xs then Err(Plain(InvalidParameters))
    else
      var i := PolynomialHelper.IndexOf(xs, xi);
      if xi in xs[i + 1..] then Err(Plain(InvalidParameters)) else Ok(Coefficient(xs, i, x))
  }

  lemma {:induction false} RepeatedExactly(xs: seq<Scalar>, i: nat)
    requires i < |xs| && xs[i] !in xs[..i]
    ensures ProductTo(xs, i, |xs|, xs[i]) == 0 <==> xs[i] in xs[i + 1..]
  {
    ProductZero(xs, i, |xs|, xs[i]);
    if xs[i] in xs[i + 1..] {
      var j :| 0 <= j < |xs[i + 1..]| && xs[i + 1..][j] == xs[i];
      assert xs[i + 1 + j] == xs[i];
    }
    assert forall j :: 0 <= j < i ==> xs[..i][j] == xs[j];
    assert forall j :: i < j < |xs| ==> xs[i + 1..][j - i - 1] == xs[j];
  }

  method ComputeLagrangeCoefficient(xCoords: seq<Scalar>, x: Scalar, xi: Scalar) returns (r: Result<Scalar>)
    ensures r == LagrangeResult(xCoords, x, xi)
    ensures r.Ok? <==> exists i :: 0 <= i < |xCoords| && xCoords[i] == xi
                                   && forall j :: 0 <= j < |xCoords| && j != i ==> xCoords[j] != xi
    ensures r.Ok? ==> forall i :: 0 <= i < |xCoords| && xCoords[i] == xi ==> r.value == Coefficient(xCoords, i, x)
    ensures r.Err? ==> r.error == Plain(InvalidParameters)
  {
    var xiIndex := -1;
    for i := 0 to |xCoords|
      invariant xiIndex == -1 && xi !in xCoords[..i]
    {
      if xCoords[i] == xi {
        xiIndex := i;
        break;
      }
    }
    if xiIndex == -1 {
      return Err(Plain(InvalidParameters));
    }
    assert xiIndex == PolynomialHelper.IndexOf(xCoords, xi);
    var numerator, denominator := 1, 1;
    for j := 0 to |xCoords|
      invariant numerator == ProductTo(xCoords, xiIndex, j, x)
      invariant denominator == ProductTo(xCoords, xiIndex, j, xi)
    {
      if j != xiIndex {
        numerator := Mul(numerator, Sub(x, xCoords[j]));
        denominator := Mul(denominator, Sub(xi, xCoords[j]));
      }
    }
    RepeatedExactly(xCoords, xiIndex);
    if denominator == 0 {
      return Err(Plain(InvalidParameters));
    }
    r := Ok(Mul(numerator, Inv(denominator)));
  }

  // ---- step 1: each helper splits its contribution ----

  /** L_i at the lost identifier, for the helper id. */
  function HelperCoefficient(helpers: seq<Identifier>, id: Identifier, lost: Identifier): Scalar
    requires id in helpers
  {
    Coefficient(Dealer.Scalars(helpers), PolynomialHelper.IndexOf(Dealer.Scalars(helpers), id), lost)
  }

  /** The deltas in the order of the helpers: the random ones, then what is missing to the contribution. */
  function Deltas(contribution: Scalar, random: seq<Scalar>): seq<Scalar> {
    random + [Sub(contribution, Sum(random))]
  }

  lemma {:induction false} DeltasSum(contribution: Scalar, random: seq<Scalar>)
    ensures Sum(Deltas(contribution, random)) == contribution
  {
    var ds := Deltas(contribution, random);
    SumPrefix(ds, random, |random|);
    AddComm(Sum(random), Sub(contribution, Sum(random)));
    SubAdd(contribution, Sum(random));
  }

  /** The map from each helper to its delta. */
  predicate Assigns(deltas: map<Identifier, Scalar>, helpers: seq<Identifier>, values: seq<Scalar>) {
    && |helpers| == |values|
    && (forall i :: 0 <= i < |helpers| ==> helpers[i] in deltas && deltas[helpers[i]] == values[i])
    && (forall id :: id in deltas ==> id in helpers)
  }

  /** `random` are the deltas drawn for all helpers but the last. */
  method RepairShareStep1(suite: Suite, helpers: seq<Identifier>, kp: KeyPackage, lost: Identifier, random: seq<Scalar>)
    returns (r: Result<map<Identifier, Scalar>>)
    requires |helpers| >= 1 ==> |random| == |helpers| - 1
    ensures r.Ok? <==> |helpers| >= 2 && Distinct(helpers) && kp.id in helpers
    ensures r.Ok? ==> Assigns(r.value, helpers,
                              Deltas(Mul(HelperCoefficient(helpers, kp.id, lost), kp.secretShare), random))
    ensures r.Ok? ==>
      && (forall i :: 0 <= i < |random| ==> helpers[i] in r.value && r.value[helpers[i]] == random[i])
      && helpers[|random|] in r.value
      && r.value[helpers[|random|]]
         == Sub(Mul(HelperCoefficient(helpers, kp.id, lost), kp.secretShare), Sum(random))
    ensures r.Err? ==> r.error == if |helpers| < 2 then Plain(InsufficientParticipants)
                                  else if !Distinct(helpers) then Plain(DuplicateParticipant)
                                  else Plain(InvalidParticipant)
  {
    if |helpers| < 2 {
      return Err(Plain(InsufficientParticipants));
    }
    var duplicate := Dealer.FindDuplicate(helpers);
    if duplicate {
      return Err(Plain(DuplicateParticipant));
    }
    if kp.id !in helpers {
      return Err(Plain(InvalidParticipant));
    }
    var points: seq<Scalar> := [];
    for i := 0 to |helpers|
      invariant points == Dealer.Scalars(helpers)[..i]
    {
      var scalar := IdentifierToScalar(suite, helpers[i]);
      points := points + [scalar.value];
    }
    assert points == Dealer.Scalars(helpers);
    var myScalar := IdentifierToScalar(suite, kp.id);
    var lostScalar := IdentifierToScalar(suite, lost);
    var lambda := ComputeLagrangeCoefficient(points, lostScalar.value, myScalar.value);
    var contribution := Mul(lambda.value, kp.secretShare);
    var deltas := SplitContribution(helpers, contribution, random);
    r := Ok(deltas);
  }

  method SplitContribution(helpers: seq<Identifier>, contribution: Scalar, random: seq<Scalar>)
    returns (deltas: map<Identifier, Scalar>)
    requires Distinct(helpers) && |random| + 1 == |helpers|
    ensures Assigns(deltas, helpers, Deltas(contribution, random))
  {
    deltas := map[];
    var randomSum := 0;
    for i := 0 to |helpers| - 1
      invariant randomSum == SumTo(random, i)
      invariant forall k :: 0 <= k < i ==> helpers[k] in deltas && deltas[helpers[k]] == random[k]
      invariant forall id :: id in deltas ==> id in helpers
    {
      deltas := deltas[helpers[i] := random[i]];
      randomSum := Add(randomSum, random[i]);
    }
    var lastDelta := Sub(contribution, randomSum);
    deltas := deltas[helpers[|helpers| - 1] := lastDelta];
  }

  // ---- steps 2 and 3: sums ----

  method SumScalars(xs: seq<Scalar>) returns (s: Scalar)
    requires |xs| > 0
    ensures s == Sum(xs)
  {
    s := xs[0];
    AddZero(xs[0]);
    assert SumTo(xs, 1) == Add(SumTo(xs, 0), xs[0]);
    for i := 1 to |xs|
      invariant s == SumTo(xs, i)
    {
      s := Add(s, xs[i]);
    }
  }

  method RepairShareStep2(deltas: seq<Scalar>) returns (sigma: Result<Scalar>)
    ensures sigma == if deltas == [] then Err(Plain(InvalidParameters)) else Ok(Sum(deltas))
  {
    if |deltas| == 0 {
      return Err(Plain(InvalidParameters));
    }
    var s := SumScalars(deltas);
    sigma := Ok(s);
  }

  /** The commitment is optional: when it is empty nothing is checked. */
  predicate MatchesCommitment(share: Scalar, id: Identifier, commitment: seq<Element>) {
    commitment != [] ==> share == Eval(Logs(commitment), id)
  }

  method RepairShareStep3(suite: Suite, sigmas: seq<Scalar>, id: Identifier, groupPublicKey: Element,
                          commitment: seq<Element>)
    returns (r: Result<KeyPackage>)
    ensures r == if sigmas == [] then Err(Plain(InvalidParameters))
                 else if commitment == [] || Sum(sigmas) == Eval(Logs(commitment), id)
                 then Ok(KeyPackage(id, Sum(sigmas), groupPublicKey, [], 0, 0))
                 else Err(Plain(InvalidKeyShare))
  {
    if |sigmas| == 0 {
      return Err(Plain(InvalidParameters));
    }
    var recovered := SumScalars(sigmas);
    if |commitment| > 0 {
      var idScalar := IdentifierToScalar(suite, id);
      var left := ScalarBaseMult(recovered);
      var right := EvaluateCommitmentPolynomial(commitment, idScalar.value);
      PowerSumIsEval(commitment, idScalar.value);
      if left != right {
        return Err(Plain(InvalidKeyShare));
      }
    }
    r := Ok(KeyPackage(id, recovered, groupPublicKey, [], 0, 0));
  }

  // ---- the exchange of messages ----

  /** What each helper hands out, one row per helper, in the order of the helpers. */
  function Handed(helpers: seq<Identifier>, deltas: seq<map<Identifier, Scalar>>): (rows: seq<seq<Scalar>>)
    requires |deltas| == |helpers| && forall i, j :: 0 <= i < |helpers| && 0 <= j < |helpers| ==>
      helpers[j] in deltas[i]
    ensures |rows| == |helpers| && Table(rows, |helpers|)
    ensures forall i, j :: 0 <= i < |helpers| && 0 <= j < |helpers| ==> rows[i][j] == deltas[i][helpers[j]]
  {
    seq(|helpers|, i requires 0 <= i < |helpers| => seq(|helpers|,
                                                        j requires 0 <= j < |helpers| => deltas[i][helpers[j]]))
  }

  function Contribution(p: Poly, helpers: seq<Identifier>, i: nat, lost: Identifier): Scalar
    requires i < |helpers|
  {
    Mul(HelperCoefficient(helpers, helpers[i], lost), Eval(p, helpers[i]))
  }

  /** Helper i's deltas are those of step 1 for a share of p, whatever it drew. */
  ghost predicate Step1Done(p: Poly, helpers: seq<Identifier>, lost: Identifier, deltas: map<Identifier, Scalar>,
                            i: nat)
    requires i < |helpers|
  {
    exists random: seq<Scalar> :: |random| + 1 == |helpers|
      && Assigns(deltas, helpers, Deltas(Contribution(p, helpers, i, lost), random))
  }

  lemma {:induction false} RowSum(p: Poly, helpers: seq<Identifier>, lost: Identifier, deltas: map<Identifier, Scalar>,
                                  i: nat, row: seq<Scalar>)
    requires i < |helpers| && Step1Done(p, helpers, lost, deltas, i)
    requires |row| == |helpers| && forall j :: 0 <= j < |helpers| ==>
      helpers[j] in deltas && row[j] == deltas[helpers[j]]
    ensures Sum(row) == Contribution(p, helpers, i, lost)
  {
    var random: seq<Scalar> :| |random| + 1 == |helpers|
      && Assigns(deltas, helpers, Deltas(Contribution(p, helpers, i, lost), random));
    assert row == Deltas(Contribution(p, helpers, i, lost), random);
    DeltasSum(Contribution(p, helpers, i, lost), random);
  }

  lemma {:induction false} ContributionsSum(p: Poly, helpers: seq<Identifier>, lost: Identifier, sums: seq<Scalar>)
    requires Distinct(helpers) && |p| <= |helpers| == |sums|
    requires forall i :: 0 <= i < |helpers| ==> sums[i] == Contribution(p, helpers, i, lost)
    ensures Sum(sums) == Eval(p, lost)
  {
    var xs := Dealer.Scalars(helpers);
    var ys := seq(|xs|, i requires 0 <= i < |xs| => Eval(p, xs[i]));
    var ls := Coefficients(xs, lost);
    Interpolation(p, xs, ys, lost);
    forall i | 0 <= i < |xs|
      ensures sums[i] == Mul(ys[i], ls[i])
    {
      assert PolynomialHelper.IndexOf(xs, xs[i]) == i;
      MulComm(ls[i], ys[i]);
    }
    DotIsSum(ys, ls, sums, |xs|);
  }

  /** Helper j adds up the deltas it received, in any order, and the sigmas are added up, in any order: the result
      is the lost share, and its check against the commitment of p passes. */
  lemma {:induction false} RepairRestoresShare(p: Poly, helpers: seq<Identifier>, lost: Identifier,
                                               deltas: seq<map<Identifier, Scalar>>, received: seq<seq<Scalar>>,
                                               sigmas: seq<Scalar>)
    requires Distinct(helpers) && 0 < |p| <= |helpers| == |deltas| == |received|
    requires forall i :: 0 <= i < |helpers| ==> Step1Done(p, helpers, lost, deltas[i], i)
    requires forall i, j :: 0 <= i < |helpers| && 0 <= j < |helpers| ==> helpers[j] in deltas[i]
    requires forall j :: 0 <= j < |helpers| ==>
      multiset(received[j]) == multiset(ColumnOf(Handed(helpers, deltas), |helpers|, j))
    requires multiset(sigmas) == multiset(RowSums(received))
    ensures Sum(sigmas) == Eval(p, lost)
    ensures MatchesCommitment(Sum(sigmas), lost, Commit(p))
  {
    var n := |helpers|;
    var rows := Handed(helpers, deltas);
    forall j | 0 <= j < n
      ensures RowSums(received)[j] == ColumnSums(rows, n)[j]
    {
      SumPermuted(received[j], ColumnOf(rows, n, j));
    }
    assert RowSums(received) == ColumnSums(rows, n);
    SumPermuted(sigmas, RowSums(received));
    SumExchange(rows, n);
    forall i | 0 <= i < n
      ensures RowSums(rows)[i] == Contribution(p, helpers, i, lost)
    {
      RowSum(p, helpers, lost, deltas[i], i, rows[i]);
    }
    ContributionsSum(p, helpers, lost, RowSums(rows));
  }
}
