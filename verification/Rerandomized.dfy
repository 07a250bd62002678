/** Rerandomised signing: every key shifted by one randomizer. */
module Rerandomized {
  import opened PrimeField
  import opened Group
  import opened Types
  import opened Sums
  import opened Polynomial
  import opened Encoding
  import opened Transcript
  import opened Participant
  import opened Aggregator
  import opened SigningTheorems

  datatype RandomizedParams = RandomizedParams(randomizer: Scalar, randomizerElement: Element, verifyingKey: Element)

  function Params(randomizer: Scalar, pk: Element): RandomizedParams {
    RandomizedParams(randomizer, ScalarBaseMult(randomizer), pk.Plus(ScalarBaseMult(randomizer)))
  }

  function NewRandomizedParams(randomizer: Scalar, pk: Element): Result<RandomizedParams> {
    var params := Params(randomizer, pk);
    if params.verifyingKey.IsIdentity() then Err(Plain(IdentityElement)) else Ok(params)
  }

  /** Refused exactly when the shifted public key is the identity. */
  lemma {:induction false} NewParamsExact(randomizer: Scalar, pk: Element)
    ensures var r := NewRandomizedParams(randomizer, pk);
      if Add(pk.log, randomizer) == 0 then r == Err(Plain(IdentityElement))
      else r == Ok(RandomizedParams(randomizer, ScalarBaseMult(randomizer), ScalarBaseMult(Add(pk.log, randomizer))))
  {
  }

  function ShiftKeys(vs: seq<VerificationShare>, shift: Element): (r: seq<VerificationShare>)
    ensures |r| == |vs|
    ensures forall i :: 0 <= i < |vs| ==> r[i] == VerificationShare(vs[i].id, vs[i].key.Plus(shift))
  {
    seq(|vs|, i requires 0 <= i < |vs| => VerificationShare(vs[i].id, vs[i].key.Plus(shift)))
  }

  method ShiftVerificationShares(vs: seq<VerificationShare>, shift: Element) returns (r: seq<VerificationShare>)
    ensures r == ShiftKeys(vs, shift)
  {
    r := [];
    for i := 0 to |vs|
      invariant r == ShiftKeys(vs, shift)[..i]
    {
      r := r + [VerificationShare(vs[i].id, vs[i].key.Plus(shift))];
    }
    assert ShiftKeys(vs, shift)[..|vs|] == ShiftKeys(vs, shift);
  }

  function Randomized(kp: KeyPackage, params: RandomizedParams): KeyPackage {
    KeyPackage(kp.id, Add(kp.secretShare, params.randomizer), params.verifyingKey,
               ShiftKeys(kp.verificationShares, params.randomizerElement), kp.minSigners, kp.maxSigners)
  }

  method RandomizeKeyPackage(kp: KeyPackage, params: RandomizedParams) returns (r: KeyPackage)
    ensures r == Randomized(kp, params)
    ensures r.id == kp.id && r.minSigners == kp.minSigners && r.maxSigners == kp.maxSigners
    ensures r.secretShare == Add(kp.secretShare, params.randomizer) && r.groupPublicKey == params.verifyingKey
    ensures |r.verificationShares| == |kp.verificationShares| && forall i :: 0 <= i < |kp.verificationShares| ==>
      r.verificationShares[i] == VerificationShare(kp.verificationShares[i].id,
                                                   kp.verificationShares[i].key.Plus(params.randomizerElement))
  {
    var secret := Add(kp.secretShare, params.randomizer);
    var shares := ShiftVerificationShares(kp.verificationShares, params.randomizerElement);
    r := KeyPackage(kp.id, secret, params.verifyingKey, shares, kp.minSigners, kp.maxSigners);
  }

  method RerandomizedRoundTwo(suite: Suite, kp: KeyPackage, params: RandomizedParams, nonces: Nonces, msg: Bytes,
                              list: seq<Commitment>)
    returns (r: Result<SignatureShare>)
    ensures r == RoundTwoResult(suite, Randomized(kp, params), nonces, msg, list)
  {
    var randomized := RandomizeKeyPackage(kp, params);
    r := RoundTwo(suite, randomized, nonces, msg, list);
  }

  method RerandomizedAggregate(suite: Suite, minSigners: nat, params: RandomizedParams, list: seq<Commitment>,
                               msg: Bytes,
                               shares: seq<SignatureShare>, vs: seq<VerificationShare>)
    returns (r: Result<Signature>)
    ensures r == VerifiedResult(suite, minSigners, params.verifyingKey, list, msg, shares,
                                ShiftKeys(vs, params.randomizerElement))
  {
    var shifted := ShiftVerificationShares(vs, params.randomizerElement);
    r := AggregateWithVerification(suite, minSigners, params.verifyingKey, list, msg, shares, shifted);
  }

  // ---- the shifted polynomial ----

  function Shifted(p: Poly, r: Scalar): (s: Poly)
    requires |p| > 0
    ensures |s| == |p|
  {
    [Add(p[0], r)] + p[1..]
  }

  lemma {:induction false} EvalShifted(p: Poly, r: Scalar, x: Scalar)
    requires |p| > 0
    ensures Eval(Shifted(p, r), x) == Add(Eval(p, x), r)
  {
    var m := Mul(x, Eval(p[1..], x));
    assert Shifted(p, r)[1..] == p[1..];
    AddAssoc(p[0], r, m);
    AddComm(r, m);
    AddAssoc(p[0], m, r);
  }

  lemma {:induction false} ShiftedFirstKey(vs: seq<VerificationShare>, shift: Element, id: Identifier)
    ensures FirstKey(ShiftKeys(vs, shift), id) == if FirstKey(vs, id).Ok? then Ok(FirstKey(vs, id).value.Plus(shift))
      else FirstKey(vs, id)
  {
    if vs != [] {
      assert ShiftKeys(vs, shift)[1..] == ShiftKeys(vs[1..], shift);
      ShiftedFirstKey(vs[1..], shift, id);
    }
  }

  /** The shifted keys and public key belong to the shifted polynomial. */
  lemma {:induction false} ShiftedKeysOnPolynomial(list: seq<Commitment>, vs: seq<VerificationShare>, p: Poly,
                                                   r: Scalar)
    requires |p| > 0 && KeysOnPolynomial(list, vs, p)
    ensures KeysOnPolynomial(list, ShiftKeys(vs, ScalarBaseMult(r)), Shifted(p, r))
  {
    forall id | id in ListIds(list)
      ensures FirstKey(ShiftKeys(vs, ScalarBaseMult(r)), id) == Ok(ScalarBaseMult(Eval(Shifted(p, r), id)))
    {
      EvalShifted(p, r, id);
      ShiftedFirstKey(vs, ScalarBaseMult(r), id);
    }
  }

  lemma {:induction false} RandomizedSigner(pk: Element, list: seq<Commitment>, p: Poly, r: Scalar, kp: KeyPackage,
                                            nonces: Nonces)
    requires |p| > 0 && SignerOf(pk, list, p, kp, nonces)
    ensures SignerOf(Params(r, pk).verifyingKey, list, Shifted(p, r), Randomized(kp, Params(r, pk)), nonces)
  {
    EvalShifted(p, r, kp.id);
  }

  /** Honest rerandomised shares of at least t signers pass the rerandomised aggregation's checks, and the signature
      verifies under PK + r*G. */
  lemma {:induction false} RerandomizedSigningIsCorrect(suite: Suite, minSigners: nat, pk: Element, r: Scalar,
                                                        list: seq<Commitment>, msg: Bytes,
                                                        p: Poly, kps: seq<KeyPackage>, nonces: seq<Nonces>,
                                                        shares: seq<SignatureShare>,
                                                        vs: seq<VerificationShare>)
    requires 0 < |p| <= |list| && |kps| == |nonces| == |shares|
    requires pk == ScalarBaseMult(p[0]) && NewRandomizedParams(r, pk).Ok?
    requires KeysOnPolynomial(list, vs, p)
    requires forall i :: 0 <= i < |kps| ==>
      && SignerOf(pk, list, p, kps[i], nonces[i])
      && RoundTwoResult(suite, Randomized(kps[i], Params(r, pk)), nonces[i], msg, list) == Ok(shares[i])
    requires SameSigners(list, shares)
    requires Opening(suite, minSigners, Params(r, pk).verifyingKey, list, msg, |shares|, |vs|).Ok?
    ensures var params := Params(r, pk);
            var result := VerifiedResult(suite, minSigners, params.verifyingKey, list, msg, shares,
                                         ShiftKeys(vs, params.randomizerElement));
      && result.Ok?
      && Verify(suite, msg, result.value, params.verifyingKey) == Ok(())
  {
    var params := Params(r, pk);
    var shifted := ShiftKeys(vs, params.randomizerElement);
    ShiftedKeysOnPolynomial(list, vs, p, r);
    forall i | 0 <= i < |kps|
      ensures SignerOf(params.verifyingKey, list, Shifted(p, r), Randomized(kps[i], params), nonces[i])
    {
      RandomizedSigner(pk, list, p, r, kps[i], nonces[i]);
    }
    var randomized := RandomizedPackages(kps, params);
    HonestSharesAreAccepted(suite, minSigners, params.verifyingKey, list, msg, Shifted(p, r), randomized, nonces,
                            shares, shifted);
    EvalShifted(p, r, 0);
    MulZero(Eval(p[1..], 0));
    AddZero(p[0]);
    VerifiedAggregationIsSound(suite, minSigners, params.verifyingKey, list, msg, shares, shifted, Shifted(p, r));
  }

  function RandomizedPackages(kps: seq<KeyPackage>, params: RandomizedParams): (r: seq<KeyPackage>)
    ensures |r| == |kps| && forall i :: 0 <= i < |kps| ==> r[i] == Randomized(kps[i], params)
  {
    seq(|kps|, i requires 0 <= i < |kps| => Randomized(kps[i], params))
  }
}
