/** Trusted-dealer key generation and share recovery. */
module Dealer {
  import opened PrimeField
  import opened Types
  import opened Sums
  import opened MapSums
  import opened Polynomial
  import opened Lagrange
  import opened Group
  import opened PolynomialHelper
  import opened Vss

  predicate ValidIdentifiers(ids: seq<Identifier>) {
    0 !in ids && Distinct(ids)
  }

  /** The first identifier at fault from position i on decides the error. */
  function IdentifiersFrom(ids: seq<Identifier>, i: nat): Result<()>
    requires i <= |ids|
    decreases |ids| - i
  {
    if i == |ids| then Ok(())
    else if ids[i] == 0 then Err(Plain(InvalidParticipant))
    else if ids[i] in ids[..i] then Err(Plain(DuplicateParticipant))
    else IdentifiersFrom(ids, i + 1)
  }

  lemma {:induction false} IdentifiersExact(ids: seq<Identifier>, i: nat)
    requires i <= |ids| && ValidIdentifiers(ids[..i])
    ensures IdentifiersFrom(ids, i).Ok? <==> ValidIdentifiers(ids)
    decreases |ids| - i
  {
    if i == |ids| {
      assert ids[..i] == ids;
    } else if ids[i] in ids[..i] {
      var k :| 0 <= k < i && ids[..i][k] == ids[i];
      assert ids[k] == ids[i];
    } else if ids[i] != 0 {
      assert ids[..i + 1] == ids[..i] + [ids[i]];
      IdentifiersExact(ids, i + 1);
    }
  }

  /** The identifier at fault is a zero or repeats one of those before it, which are in order. */
  lemma {:induction false} IdentifiersFault(ids: seq<Identifier>, i: nat)
    requires i <= |ids| && ValidIdentifiers(ids[..i]) && IdentifiersFrom(ids, i).Err?
    ensures exists k :: i <= k < |ids| && 0 !in ids[..k] && Distinct(ids[..k]) &&
                        if ids[k] == 0 then IdentifiersFrom(ids, i) == Err(Plain(InvalidParticipant))
                        else ids[k] in ids[..k] && IdentifiersFrom(ids, i) == Err(Plain(DuplicateParticipant))
    decreases |ids| - i
  {
    if ids[i] != 0 && ids[i] !in ids[..i] {
      assert ids[..i + 1] == ids[..i] + [ids[i]];
      IdentifiersFault(ids, i + 1);
    }
  }

  /** The package the dealer makes for one participant from its polynomial. */
  function PackageOf(p: Poly, id: Identifier, shares: seq<VerificationShare>, maxSigners: nat): KeyPackage
    requires |p| > 0
  {
    KeyPackage(id, Eval(p, id), ScalarBaseMult(p[0]), shares, |p|, maxSigners)
  }

  /** A polynomial with the given constant term; `random` are the scalars drawn for the other coefficients. */
  method Generate(constantTerm: Scalar, random: seq<Scalar>) returns (coefficients: Poly)
    ensures coefficients == [constantTerm] + random
  {
    coefficients := [constantTerm];
    for i := 1 to |random| + 1
      invariant coefficients == [constantTerm] + random[..i - 1]
    {
      coefficients := coefficients + [random[i - 1]];
    }
  }

  /** Looks for a repeated identifier with a set of those seen so far. */
  method FindDuplicate(ids: seq<Identifier>) returns (duplicate: bool)
    ensures duplicate <==> !Distinct(ids)
  {
    var seen: set<Identifier> := {};
    for i := 0 to |ids|
      invariant Distinct(ids[..i])
      invariant seen == set id | id in ids[..i]
    {
      if ids[i] in seen {
        var k :| 0 <= k < i && ids[..i][k] == ids[i];
        assert ids[k] == ids[i];
        return true;
      }
      seen := seen + {ids[i]};
      assert ids[..i + 1] == ids[..i] + [ids[i]];
    }
    assert ids[..|ids|] == ids;
    duplicate := false;
  }

  /** The dealer's single pass over the identifiers. */
  method CheckIdentifiers(ids: seq<Identifier>) returns (r: Result<()>)
    ensures r == IdentifiersFrom(ids, 0)
    ensures r.Ok? <==> 0 !in ids && Distinct(ids)
  {
    IdentifiersExact(ids, 0);
    var seen: set<Identifier> := {};
    for i := 0 to |ids|
      invariant IdentifiersFrom(ids, 0) == IdentifiersFrom(ids, i)
      invariant seen == set id | id in ids[..i]
    {
      if ids[i] == 0 {
        return Err(Plain(InvalidParticipant));
      }
      if ids[i] in seen {
        return Err(Plain(DuplicateParticipant));
      }
      seen := seen + {ids[i]};
      assert ids[..i + 1] == ids[..i] + [ids[i]];
    }
    r := Ok(());
  }

  /** The commitments to the coefficients of p, numbered from 0. */
  predicate CommitsTo(vs: seq<VerificationShare>, p: Poly) {
    Keys(vs) == Commit(p) && forall i :: 0 <= i < |vs| ==> vs[i].id == i
  }

  /** The packages that the dealer makes from p. */
  predicate Dealt(packages: seq<KeyPackage>, p: Poly, ids: seq<Identifier>, vs: seq<VerificationShare>, maxSigners: nat)
    requires |p| > 0
  {
    |packages| == |ids| && forall i :: 0 <= i < |ids| ==> packages[i] == PackageOf(p, ids[i], vs, maxSigners)
  }

  /** Field by field: the participant's identifier, its value of the polynomial, the commitment to the secret, the
      threshold and the number of participants, and the commitment to every coefficient, numbered from 0. */
  lemma {:induction false} DealtFields(packages: seq<KeyPackage>, p: Poly, ids: seq<Identifier>,
                                       vs: seq<VerificationShare>, maxSigners: nat, i: nat)
    requires |p| > 0 && CommitsTo(vs, p) && Dealt(packages, p, ids, vs, maxSigners) && i < |ids|
    ensures |packages| == |ids|
    ensures var kp := packages[i];
      && kp.id == ids[i] && kp.secretShare == Eval(p, ids[i]) && kp.groupPublicKey == ScalarBaseMult(p[0])
      && kp.minSigners == |p| == |kp.verificationShares| && kp.maxSigners == maxSigners
      && forall k :: 0 <= k < |p| ==>
           kp.verificationShares[k].id == k && kp.verificationShares[k].key == ScalarBaseMult(p[k])
  {
    assert |vs| == |Keys(vs)| == |p|;
    assert forall k :: 0 <= k < |p| ==> vs[k].key == Keys(vs)[k];
  }

  /** The dealer. `random` are the scalars drawn for the coefficients above the constant term. */
  method GenerateShares(secret: Scalar, minSigners: nat, maxSigners: nat, ids: seq<Identifier>, random: seq<Scalar>)
    returns (r: Result<(seq<KeyPackage>, Element)>)
    requires minSigners <= IDENTIFIER_BOUND
    requires minSigners >= 1 ==> |random| == minSigners - 1
    ensures r.Ok? <==> 2 <= minSigners <= maxSigners == |ids| && 0 !in ids && Distinct(ids)
    ensures !(2 <= minSigners <= maxSigners) ==> r == Err(Plain(InvalidThreshold))
    ensures 2 <= minSigners <= maxSigners != |ids| ==> r == Err(Plain(InvalidParameters))
    ensures r.Err? && 2 <= minSigners <= maxSigners == |ids| ==> IdentifiersFrom(ids, 0) == Err(r.error)
    ensures r.Ok? ==> r.value.1 == ScalarBaseMult(secret)
    ensures r.Ok? ==> exists vs :: CommitsTo(vs, [secret] + random)
                                   && Dealt(r.value.0, [secret] + random, ids, vs, maxSigners)
  {
    if minSigners < 2 {
      return Err(Plain(InvalidThreshold));
    }
    if minSigners > maxSigners {
      return Err(Plain(InvalidThreshold));
    }
    if |ids| != maxSigners {
      return Err(Plain(InvalidParameters));
    }
    var checked := CheckIdentifiers(ids);
    if checked.Err? {
      return Err(checked.error);
    }
    var polynomial := Generate(secret, random);
    var commitments := CreateCommitments(polynomial);
    var groupPublicKey := ScalarBaseMult(secret);
    var keyPackages: seq<KeyPackage> := [];
    for i := 0 to |ids|
      invariant |keyPackages| == i
      invariant forall k :: 0 <= k < i ==>
        keyPackages[k] == PackageOf(polynomial, ids[k], commitments.value, maxSigners)
    {
      var share := Evaluate(polynomial, ids[i]);
      keyPackages := keyPackages + [KeyPackage(ids[i], share, groupPublicKey, commitments.value, minSigners,
                                               maxSigners)];
    }
    assert CommitsTo(commitments.value, polynomial);
    r := Ok((keyPackages, groupPublicKey));
  }

  datatype PublicKeyPackage = PublicKeyPackage(groupPublicKey: Element, verificationShares: seq<VerificationShare>)

  /** The verification key of each package: its secret share in the group. */
  predicate OwnKeys(packages: seq<KeyPackage>, shares: seq<VerificationShare>) {
    |shares| == |packages| &&
    forall i :: 0 <= i < |packages| ==>
      shares[i] == VerificationShare(packages[i].id, ScalarBaseMult(packages[i].secretShare))
  }

  /** What key generation with a trusted dealer returns: packages of p that list every participant's own key. */
  predicate KeygenOutcome(p: Poly, maxSigners: nat, ids: seq<Identifier>, packages: seq<KeyPackage>,
                          public: PublicKeyPackage)
    requires |p| > 0
  {
    && public.groupPublicKey == ScalarBaseMult(p[0])
    && OwnKeys(packages, public.verificationShares)
    && Dealt(packages, p, ids, public.verificationShares, maxSigners)
  }

  /** Field by field: as the dealer's, but with everybody's own key, in the order of the identifiers. */
  lemma {:induction false} KeygenFields(p: Poly, maxSigners: nat, ids: seq<Identifier>, packages: seq<KeyPackage>,
                                        public: PublicKeyPackage, i: nat)
    requires |p| > 0 && KeygenOutcome(p, maxSigners, ids, packages, public) && i < |ids|
    ensures |packages| == |ids| == |public.verificationShares| && public.groupPublicKey == ScalarBaseMult(p[0])
    ensures packages[i] == KeyPackage(ids[i], Eval(p, ids[i]), ScalarBaseMult(p[0]), public.verificationShares, |p|,
                                      maxSigners)
    ensures public.verificationShares[i] == VerificationShare(ids[i], ScalarBaseMult(Eval(p, ids[i])))
  {
    assert packages[i] == PackageOf(p, ids[i], public.verificationShares, maxSigners);
  }

  /** Replaces the coefficient commitments by the participants' own verification keys. */
  method TrustedDealerKeygen(secret: Scalar, minSigners: nat, maxSigners: nat, ids: seq<Identifier>,
                             random: seq<Scalar>)
    returns (r: Result<(seq<KeyPackage>, PublicKeyPackage)>)
    requires minSigners <= IDENTIFIER_BOUND
    requires minSigners >= 1 ==> |random| == minSigners - 1
    ensures r.Ok? <==> 2 <= minSigners <= maxSigners == |ids| && 0 !in ids && Distinct(ids)
    ensures !(2 <= minSigners <= maxSigners) ==> r == Err(Plain(InvalidThreshold))
    ensures 2 <= minSigners <= maxSigners != |ids| ==> r == Err(Plain(InvalidParameters))
    ensures r.Err? && 2 <= minSigners <= maxSigners == |ids| ==> IdentifiersFrom(ids, 0) == Err(r.error)
    ensures r.Ok? ==> KeygenOutcome([secret] + random, maxSigners, ids, r.value.0, r.value.1)
  {
    var dealt := GenerateShares(secret, minSigners, maxSigners, ids, random);
    if dealt.Err? {
      return Err(dealt.error);
    }
    var (values, groupPublicKey) := dealt.value;
    ghost var commitments :| Dealt(values, [secret] + random, ids, commitments, maxSigners);
    var shares := ListOwnKeys(values);
    var packages: seq<KeyPackage> := [];
    for i := 0 to |values|
      invariant |packages| == i
      invariant forall k :: 0 <= k < i ==> packages[k] == values[k].(verificationShares := shares)
    {
      packages := packages + [values[i].(verificationShares := shares)];
    }
    r := Ok((packages, PublicKeyPackage(groupPublicKey, shares)));
  }

  method ListOwnKeys(packages: seq<KeyPackage>) returns (shares: seq<VerificationShare>)
    ensures OwnKeys(packages, shares)
  {
    shares := [];
    for i := 0 to |packages|
      invariant |shares| == i
      invariant forall k :: 0 <= k < i ==>
        shares[k] == VerificationShare(packages[k].id, ScalarBaseMult(packages[k].secretShare))
    {
      shares := shares + [VerificationShare(packages[i].id, ScalarBaseMult(packages[i].secretShare))];
    }
  }

  // ---- recovery ----

  /** Identifiers read as scalars: an identifier is its own scalar, as IdentifierToScalar is proved to find. */
  function Scalars(ids: seq<Identifier>): (xs: seq<Scalar>)
    ensures xs == ids
  {
    ids
  }

  /** The loop at the end of both recoveries: the values weighted with their Lagrange coefficients. */
  method InterpolateAtZero(xCoords: seq<Scalar>, ys: seq<Scalar>) returns (secret: Scalar)
    requires Distinct(xCoords) && |xCoords| == |ys|
    ensures secret == Dot(ys, Coefficients(xCoords, 0))
  {
    secret := 0;
    for i := 0 to |xCoords|
      invariant secret == DotTo(ys, Coefficients(xCoords, 0), i)
    {
      var lambda := DeriveInterpolatingValue(xCoords, xCoords[i]);
      assert IndexOf(xCoords, xCoords[i]) == i;
      secret := Add(secret, Mul(ys[i], lambda.value));
    }
  }

  ghost predicate OnCurve(p: Poly, shares: map<Identifier, Scalar>) {
    forall id :: id in shares ==> shares[id] == Eval(p, id)
  }

  /** Any polynomial with no more coefficients than there are shares, and passing through them, gives the result:
      the order in which the map is enumerated plays no part. */
  method RecoverSecret(shares: map<Identifier, Scalar>) returns (r: Result<Scalar>)
    ensures r.Ok? <==> shares != map[]
    ensures r.Err? ==> r.error == Plain(InsufficientParticipants)
    ensures r.Ok? ==> forall p: Poly :: |p| <= |shares| && OnCurve(p, shares) ==> r.value == Eval(p, 0)
  {
    if |shares| == 0 {
      return Err(Plain(InsufficientParticipants));
    }
    var identifiers := ListIdentifiers(shares.Keys);
    var xCoords := Scalars(identifiers);
    var ys := ValuesAt(shares, identifiers);
    var secret := InterpolateAtZero(xCoords, ys);
    forall p: Poly | |p| <= |shares| && OnCurve(p, shares)
      ensures secret == Eval(p, 0)
    {
      Interpolation(p, xCoords, ys, 0);
    }
    r := Ok(secret);
  }

  datatype ShareInput = ShareInput(id: Identifier, share: Scalar)

  function Ids(shares: seq<ShareInput>): (ids: seq<Identifier>)
    ensures |ids| == |shares| && forall i :: 0 <= i < |shares| ==> ids[i] == shares[i].id
  {
    Mapped((s: ShareInput) => s.id, shares)
  }

  function Values(shares: seq<ShareInput>): (ys: seq<Scalar>)
    ensures |ys| == |shares| && forall i :: 0 <= i < |shares| ==> ys[i] == shares[i].share
  {
    Mapped((s: ShareInput) => s.share, shares)
  }

  /** Reconstruction from a list of shares, refusing a repeated identifier. */
  method Reconstruct(shares: seq<ShareInput>) returns (r: Result<Scalar>)
    ensures shares == [] ==> r == Err(Plain(InvalidParameters))
    ensures shares != [] && !Distinct(Ids(shares)) ==> r == Err(Plain(DuplicateParticipant))
    ensures shares != [] && Distinct(Ids(shares)) ==>
      r == Ok(Dot(Values(shares), Coefficients(Scalars(Ids(shares)), 0)))
  {
    if |shares| == 0 {
      return Err(Plain(InvalidParameters));
    }
    var duplicate := FindDuplicate(Ids(shares));
    if duplicate {
      return Err(Plain(DuplicateParticipant));
    }
    var secret := InterpolateAtZero(Scalars(Ids(shares)), Values(shares));
    r := Ok(secret);
  }

  method VerifyReconstruction(secret: Scalar, groupPublicKey: Element) returns (r: Result<()>)
    ensures r.Ok? <==> secret == groupPublicKey.log
    ensures r.Err? ==> r.error == Plain(InvalidKeyShare)
  {
    if ScalarBaseMult(secret) != groupPublicKey {
      return Err(Plain(InvalidKeyShare));
    }
    r := Ok(());
  }

  lemma {:induction false} EvalAtZero(p: Poly)
    requires |p| > 0
    ensures Eval(p, 0) == p[0]
  {
    MulZero(Eval(p[1..], 0));
    AddZero(p[0]);
  }

  /** Reconstruction is correct: at least t of the dealer's shares, in any order, give back the secret. */
  lemma {:induction false} ReconstructionRecoversSecret(p: Poly, shares: seq<ShareInput>)
    requires 0 < |p| <= |shares| && Distinct(Ids(shares))
    requires forall i :: 0 <= i < |shares| ==> shares[i].share == Eval(p, shares[i].id)
    ensures Dot(Values(shares), Coefficients(Scalars(Ids(shares)), 0)) == p[0]
  {
    Interpolation(p, Scalars(Ids(shares)), Values(shares), 0);
    EvalAtZero(p);
  }

  /** Given p + a*l == s + b*l: s == p exactly if a == b or l == 0. */
  lemma {:induction false} SameTerm(p: Scalar, s: Scalar, a: Scalar, b: Scalar, l: Scalar)
    requires Add(p, Mul(a, l)) == Add(s, Mul(b, l))
    ensures s == p <==> a == b || l == 0
  {
    MulZero(a);
    MulZero(b);
    if s == p {
      AddComm(p, Mul(a, l));
      AddComm(p, Mul(b, l));
      AddCancel(Mul(a, l), Mul(b, l), p);
      MulComm(a, l);
      MulComm(b, l);
      if l != 0 {
        MulCancel(l, a, b);
      }
    }
    if a == b || l == 0 {
      AddCancel(p, s, Mul(a, l));
    }
  }

  /** Reconstruction from shares of which one may have been altered gives the secret, and so passes the check against
      the dealer's public key, exactly if that share is the dealer's after all, or carries no weight because another one
      is numbered 0. */
  lemma {:induction false} AlteredShareShows(p: Poly, shares: seq<ShareInput>, j: nat)
    requires 0 < |p| <= |shares| && Distinct(Ids(shares)) && j < |shares|
    requires forall i :: 0 <= i < |shares| && i != j ==> shares[i].share == Eval(p, shares[i].id)
    ensures Dot(Values(shares), Coefficients(Scalars(Ids(shares)), 0)) == p[0] <==>
      shares[j].share == Eval(p, shares[j].id) || (0 in Ids(shares) && shares[j].id != 0)
  {
    var xs, ys := Scalars(Ids(shares)), Values(shares);
    var ls := Coefficients(xs, 0);
    var y := Eval(p, xs[j]);
    Interpolation(p, xs, ys[j := y], 0);
    EvalAtZero(p);
    DotUpdate(ys, ls, j, y, |xs|);
    CoefficientZero(xs, j, 0);
    var s := Dot(ys, ls);
    assert Add(p[0], Mul(ys[j], ls[j])) == Add(s, Mul(y, ls[j]));
    SameTerm(p[0], s, ys[j], y, ls[j]);
  }

  // ---- secrecy: t-1 shares fit every secret, in exactly one way ----

  /** The dealer polynomial that explains the given t-1 shares and the given secret. */
  function Explanation(ids: seq<Identifier>, ys: seq<Scalar>, secret: Scalar): (p: Poly)
    requires |ids| == |ys|
    ensures |p| == |ids| + 1
  {
    Interpolant([0] + Scalars(ids), [secret] + ys)
  }

  ghost predicate Explains(p: Poly, ids: seq<Identifier>, ys: seq<Scalar>, secret: Scalar)
    requires |ids| == |ys|
  {
    |p| == |ids| + 1 && p[0] == secret && forall i :: 0 <= i < |ids| ==> Eval(p, ids[i]) == ys[i]
  }

  lemma {:induction false} ThresholdIsTight(ids: seq<Identifier>, ys: seq<Scalar>, secret: Scalar, p: Poly)
    requires |ids| == |ys| && ValidIdentifiers(ids)
    ensures Explains(p, ids, ys, secret) <==> p == Explanation(ids, ys, secret)
  {
    var xs := [0] + Scalars(ids);
    var zs := [secret] + ys;
    var e := Explanation(ids, ys, secret);
    assert Distinct(xs);
    forall i | 0 <= i < |xs|
      ensures Eval(e, xs[i]) == zs[i]
    {
      InterpolantAtPoint(xs, zs, i);
    }
    EvalAtZero(e);
    assert e[0] == Eval(e, xs[0]) == zs[0];
    forall i | 0 <= i < |ids|
      ensures Eval(e, ids[i]) == ys[i]
    {
      assert xs[i + 1] == ids[i] && zs[i + 1] == ys[i];
    }
    if Explains(p, ids, ys, secret) {
      EvalAtZero(p);
      forall i | 0 <= i < |xs|
        ensures Eval(p, xs[i]) == Eval(e, xs[i])
      {
        if i > 0 {
          assert xs[i] == ids[i - 1];
        }
      }
      PointsDetermineCoefficients(p, e, xs);
    }
  }
}
