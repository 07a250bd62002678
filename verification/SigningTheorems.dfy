/** The guarantees of the two-round protocol: correctness, soundness of verified aggregation, exact blame. */
module SigningTheorems {
  import opened PrimeField
  import opened Group
  import opened Types
  import opened Sums
  import opened Polynomial
  import opened Lagrange
  import opened PolynomialHelper
  import opened Encoding
  import opened Transcript
  import opened Participant
  import opened Aggregator

  // ---- the aggregate of valid shares ----

  /** The shares come from exactly the participants of the list, once each, in any order. */
  ghost predicate SameSigners(list: seq<Commitment>, shares: seq<SignatureShare>) {
    Distinct(ShareIds(shares)) && forall id :: id in ShareIds(shares) <==> id in ListIds(list)
  }

  /** Every share meets the share equation for the key p(id)*G. */
  ghost predicate AllValid(suite: Suite, pk: Element, list: seq<Commitment>, msg: Bytes, c: Scalar, p: Poly,
                           shares: seq<SignatureShare>) {
    forall i :: 0 <= i < |shares| ==>
      shares[i].id in ListIds(list)
        && ValidShare(suite, pk, list, msg, c, shares[i], ScalarBaseMult(Eval(p, shares[i].id)))
  }

  lemma {:induction false} PositionInList(list: seq<Commitment>, j: nat)
    requires Ascending(list) && j < |list|
    ensures list[j].id in ListIds(list)
    ensures CommitmentOf(list, list[j].id) == list[j]
    ensures Lambda(list, list[j].id) == Coefficients(Points(list), 0)[j]
  {
    assert ListIds(list)[j] == list[j].id;
    AscendingDistinct(list);
    assert Points(list)[j] == list[j].id;
  }

  function Values(p: Poly, xs: seq<Scalar>): (ys: seq<Scalar>)
    ensures |ys| == |xs| && forall i :: 0 <= i < |xs| ==> ys[i] == Eval(p, xs[i])
  {
    seq(|xs|, i requires 0 <= i < |xs| => Eval(p, xs[i]))
  }

  /** The key part of the valid share at each position: lambda_i * (p(x_i) * c). */
  function KeyTerms(p: Poly, xs: seq<Scalar>, c: Scalar): (ts: seq<Scalar>)
    ensures |ts| == |xs|
    ensures forall i :: 0 <= i < |xs| ==> ts[i] == Mul(Mul(Eval(p, xs[i]), c), Coefficients(xs, 0)[i])
  {
    seq(|xs|, i requires 0 <= i < |xs| => Mul(Mul(Eval(p, xs[i]), c), Coefficients(xs, 0)[i]))
  }

  /** What the points of p at xs interpolate to at 0. */
  function AtZero(p: Poly, xs: seq<Scalar>): Scalar {
    Dot(Values(p, xs), Coefficients(xs, 0))
  }

  /** With at least as many points as coefficients that is p(0). */
  lemma {:induction false} AtZeroIsValue(p: Poly, xs: seq<Scalar>)
    requires |p| <= |xs| && Distinct(xs)
    ensures AtZero(p, xs) == Eval(p, 0)
  {
    Interpolation(p, xs, Values(p, xs), 0);
  }

  /** The key parts add up to c times the interpolated value. */
  lemma {:induction false} KeyTermsSum(p: Poly, xs: seq<Scalar>, c: Scalar)
    ensures Sum(KeyTerms(p, xs, c)) == Mul(AtZero(p, xs), c)
  {
    var ys, ls := Values(p, xs), Coefficients(xs, 0);
    var products := seq(|xs|, i requires 0 <= i < |xs| => Mul(ys[i], ls[i]));
    DotIsSum(ys, ls, products, |xs|);
    forall i | 0 <= i < |xs|
      ensures KeyTerms(p, xs, c)[i] == Mul(c, products[i])
    {
      MulComm(ys[i], c);
      MulAssoc(c, ys[i], ls[i]);
    }
    SumScale(c, products, KeyTerms(p, xs, c), |xs|);
    MulComm(AtZero(p, xs), c);
  }

  function PointwiseSum(a: seq<Scalar>, b: seq<Scalar>): (s: seq<Scalar>)
    requires |a| == |b|
    ensures |s| == |a| && forall i :: 0 <= i < |a| ==> s[i] == Add(a[i], b[i])
  {
    seq(|a|, i requires 0 <= i < |a| => Add(a[i], b[i]))
  }

  /** Valid shares of the list's participants add up to the logarithm of R + c * y*G, where y is what their points
      interpolate to at 0. */
  lemma {:induction false} AggregateSum(suite: Suite, pk: Element, list: seq<Commitment>, msg: Bytes, c: Scalar,
                                        p: Poly, shares: seq<SignatureShare>)
    requires Ascending(list)
    requires SameSigners(list, shares) && AllValid(suite, pk, list, msg, c, p, shares)
    ensures Sum(ShareScalars(shares)) == Add(Sum(NonceTerms(suite, pk, list, msg)), Mul(AtZero(p, Points(list)), c))
  {
    var xs := Points(list);
    var ts, ks := NonceTerms(suite, pk, list, msg), KeyTerms(p, xs, c);
    var expected := PointwiseSum(ts, ks);
    AscendingDistinct(list);
    SumAdd(ts, ks, expected, |list|);
    KeyTermsSum(p, xs, c);
    forall i, j | 0 <= i < |shares| && 0 <= j < |list| && ShareIds(shares)[i] == ListIds(list)[j]
      ensures ShareScalars(shares)[i] == expected[j]
    {
      PositionInList(list, j);
    }
    SumReordered(ShareScalars(shares), ShareIds(shares), expected, ListIds(list));
  }

  /** The aggregate of valid shares verifies exactly when their points interpolate to the committed secret. */
  lemma {:induction false} SumVerifies(suite: Suite, pk: Element, list: seq<Commitment>, msg: Bytes, R: Element,
                                       c: Scalar, p: Poly,
                                       shares: seq<SignatureShare>)
    requires Validation(list).Ok?
    requires SameSigners(list, shares) && AllValid(suite, pk, list, msg, c, p, shares)
    requires SessionCommitment(suite, pk, list, msg) == Ok(R) && Challenge(suite, R, pk, msg) == Ok(c)
    requires pk == ScalarBaseMult(Eval(p, 0)) && !pk.IsIdentity()
    ensures Verify(suite, msg, Signature(R, Sum(ShareScalars(shares))), pk).Ok? <==>
      AtZero(p, Points(list)) == Eval(p, 0)
    ensures |p| <= |list| ==> AtZero(p, Points(list)) == Eval(p, 0)
  {
    ValidationExact(list);
    GroupCommitmentExact(suite, pk, list, msg);
    AggregateSum(suite, pk, list, msg, c, p, shares);
    if |p| <= |list| {
      AscendingDistinct(list);
      AtZeroIsValue(p, Points(list));
    }
    SameProduct(R.log, c, AtZero(p, Points(list)), Eval(p, 0));
  }

  /** r + a*c == r + b*c only for a == b, as c is not zero. */
  lemma {:induction false} SameProduct(r: Scalar, c: Scalar, a: Scalar, b: Scalar)
    requires c != 0
    ensures Add(r, Mul(a, c)) == Add(r, Mul(b, c)) <==> a == b
  {
    if Add(r, Mul(a, c)) == Add(r, Mul(b, c)) {
      AddComm(r, Mul(a, c));
      AddComm(r, Mul(b, c));
      AddCancel(Mul(a, c), Mul(b, c), r);
      MulComm(a, c);
      MulComm(b, c);
      MulCancel(c, a, b);
    }
  }

  /** Under the public key x*G, for each R and message at most one response is accepted: r + c*x. */
  lemma {:induction false} VerifyExact(suite: Suite, msg: Bytes, sig: Signature, x: Scalar)
    ensures Verify(suite, msg, sig, ScalarBaseMult(x)).Ok? <==>
      && x != 0 && !sig.R.IsIdentity()
      && Challenge(suite, sig.R, ScalarBaseMult(x), msg).Ok?
      && sig.z == Add(sig.R.log, Mul(x, Challenge(suite, sig.R, ScalarBaseMult(x), msg).value))
    ensures var r := Verify(suite, msg, sig, ScalarBaseMult(x));
      r.Err? ==> r.error == Plain(if x == 0 || sig.R.IsIdentity() then IdentityElement
                                  else if Challenge(suite, sig.R, ScalarBaseMult(x), msg).Err? then InvalidChallenge
                                  else InvalidSignature)
  {
  }

  // ---- verified aggregation is sound ----

  lemma {:induction false} NoErrorFrom(rs: seq<Result<()>>, i: nat, k: nat)
    requires i <= k < |rs| && FirstErrorFrom(rs, i).Ok?
    ensures rs[k].Ok?
    decreases |rs| - i
  {
    if i < k {
      NoErrorFrom(rs, i + 1, k);
    }
  }

  /** The verification key found for each participant is p(id)*G. */
  ghost predicate KeysOnPolynomial(list: seq<Commitment>, vs: seq<VerificationShare>, p: Poly) {
    forall id :: id in ListIds(list) ==> FirstKey(vs, id) == Ok(ScalarBaseMult(Eval(p, id)))
  }

  lemma {:induction false} PassedShareIsValid(suite: Suite, pk: Element, list: seq<Commitment>, msg: Bytes, c: Scalar,
                                              vs: seq<VerificationShare>, p: Poly, share: SignatureShare)
    requires ShareCheck(suite, pk, list, msg, c, vs, share).Ok? && KeysOnPolynomial(list, vs, p)
    ensures share.id in ListIds(list) && ValidShare(suite, pk, list, msg, c, share, ScalarBaseMult(Eval(p, share.id)))
  {
  }

  lemma {:induction false} AcceptedAreValid(suite: Suite, minSigners: nat, pk: Element, list: seq<Commitment>,
                                            msg: Bytes,
                                            shares: seq<SignatureShare>, vs: seq<VerificationShare>, p: Poly,
                                            R: Element, c: Scalar)
    requires VerifiedResult(suite, minSigners, pk, list, msg, shares, vs).Ok? && KeysOnPolynomial(list, vs, p)
    requires Opening(suite, minSigners, pk, list, msg, |shares|, |vs|) == Ok((R, c))
    ensures AllValid(suite, pk, list, msg, c, p, shares)
    ensures VerifiedResult(suite, minSigners, pk, list, msg, shares, vs).value
      == Signature(R, Sum(ShareScalars(shares)))
  {
    forall i | 0 <= i < |shares|
      ensures shares[i].id in ListIds(list) &&
              ValidShare(suite, pk, list, msg, c, shares[i], ScalarBaseMult(Eval(p, shares[i].id)))
    {
      NoErrorFrom(Checks(suite, pk, list, msg, c, vs, shares), 0, i);
      PassedShareIsValid(suite, pk, list, msg, c, vs, p, shares[i]);
    }
  }

  /** However the shares were made: an accepted aggregate verifies exactly when the points of the polynomial under the
      keys interpolate to the secret, whatever the number of its coefficients. */
  lemma {:induction false} VerifiedAggregationExact(suite: Suite, minSigners: nat, pk: Element, list: seq<Commitment>,
                                                    msg: Bytes,
                                                    shares: seq<SignatureShare>, vs: seq<VerificationShare>, p: Poly)
    requires VerifiedResult(suite, minSigners, pk, list, msg, shares, vs).Ok?
    requires SameSigners(list, shares) && KeysOnPolynomial(list, vs, p)
    requires pk == ScalarBaseMult(Eval(p, 0)) && !pk.IsIdentity()
    ensures Verify(suite, msg, VerifiedResult(suite, minSigners, pk, list, msg, shares, vs).value, pk).Ok? <==>
       AtZero(p, Points(list)) == Eval(p, 0)
    ensures |p| <= |list| ==> AtZero(p, Points(list)) == Eval(p, 0)
  {
    var (R, c) := Opening(suite, minSigners, pk, list, msg, |shares|, |vs|).value;
    AcceptedAreValid(suite, minSigners, pk, list, msg, shares, vs, p, R, c);
    SumVerifies(suite, pk, list, msg, R, c, p, shares);
  }

  /** However the shares were made, an accepted aggregate verifies. */
  lemma {:induction false} VerifiedAggregationIsSound(suite: Suite, minSigners: nat, pk: Element,
                                                      list: seq<Commitment>, msg: Bytes,
                                                      shares: seq<SignatureShare>, vs: seq<VerificationShare>, p: Poly)
    requires VerifiedResult(suite, minSigners, pk, list, msg, shares, vs).Ok?
    requires SameSigners(list, shares)
    requires |p| <= |list| && KeysOnPolynomial(list, vs, p)
    requires pk == ScalarBaseMult(Eval(p, 0)) && !pk.IsIdentity()
    ensures Verify(suite, msg, VerifiedResult(suite, minSigners, pk, list, msg, shares, vs).value, pk) == Ok(())
  {
    VerifiedAggregationExact(suite, minSigners, pk, list, msg, shares, vs, p);
  }

  // ---- threshold signing is correct ----

  /** Round two succeeds exactly when all of this holds. */
  lemma {:induction false} RoundTwoExact(suite: Suite, kp: KeyPackage, nonces: Nonces, msg: Bytes,
                                         list: seq<Commitment>)
    ensures RoundTwoResult(suite, kp, nonces, msg, list).Ok? <==>
      && kp.id in ListIds(list)
      && Ascending(list)
      && (kp.minSigners == 0 || kp.minSigners <= |list|)
      && NoIdentities(list)
      && Challenge(suite, ScalarBaseMult(Sum(NonceTerms(suite, kp.groupPublicKey, list, msg))), kp.groupPublicKey,
                   msg).Ok?
  {
    ValidationExact(list);
    GroupCommitmentExact(suite, kp.groupPublicKey, list, msg);
  }

  /** A signer of the session: a share of p under the public key, and nonces that its list entry commits to. */
  ghost predicate SignerOf(pk: Element, list: seq<Commitment>, p: Poly, kp: KeyPackage, nonces: Nonces) {
    && kp.secretShare == Eval(p, kp.id)
    && kp.groupPublicKey == pk
    && (kp.id in ListIds(list) ==> Commits(CommitmentOf(list, kp.id), kp.id, nonces))
  }

  lemma {:induction false} RoundTwoShareIsValid(suite: Suite, pk: Element, list: seq<Commitment>, msg: Bytes, p: Poly,
                                                kp: KeyPackage, nonces: Nonces)
    requires SignerOf(pk, list, p, kp, nonces)
    requires RoundTwoResult(suite, kp, nonces, msg, list).Ok?
    ensures var share := RoundTwoResult(suite, kp, nonces, msg, list).value;
      && share.id == kp.id && kp.id in ListIds(list)
      && GroupCommitment(suite, pk, list, msg).Ok?
      && Challenge(suite, GroupCommitment(suite, pk, list, msg).value, pk, msg).Ok?
      && ValidShare(suite, pk, list, msg, Challenge(suite, GroupCommitment(suite, pk, list, msg).value, pk, msg).value,
                    share, ScalarBaseMult(Eval(p, kp.id)))
  {
    var c := Challenge(suite, GroupCommitment(suite, pk, list, msg).value, pk, msg).value;
    var share := RoundTwoResult(suite, kp, nonces, msg, list).value;
    ShareEquationExact(CommitmentOf(list, kp.id), nonces, Rho(suite, pk, list, msg, kp.id), Lambda(list, kp.id), c,
                       Eval(p, kp.id), share.share);
  }

  /** Any set of at least t signers whose rounds and aggregation succeed produces a signature that verifies. */
  lemma {:induction false} ThresholdSigningIsCorrect(suite: Suite, minSigners: nat, pk: Element, list: seq<Commitment>,
                                                     msg: Bytes, p: Poly,
                                  kps: seq<KeyPackage>, nonces: seq<Nonces>, shares: seq<SignatureShare>)
    requires 0 < |p| <= |list| && |kps| == |nonces| == |shares|
    requires pk == ScalarBaseMult(p[0]) && !pk.IsIdentity()
    requires forall i :: 0 <= i < |kps| ==>
      SignerOf(pk, list, p, kps[i], nonces[i]) && RoundTwoResult(suite, kps[i], nonces[i], msg, list) == Ok(shares[i])
    requires SameSigners(list, shares)
    requires AggregateResult(suite, minSigners, pk, list, msg, shares).Ok?
    ensures Verify(suite, msg, AggregateResult(suite, minSigners, pk, list, msg, shares).value, pk) == Ok(())
  {
    var R := SessionCommitment(suite, pk, list, msg).value;
    assert ListIds(list)[0] in ListIds(list);
    assert |shares| > 0;
    RoundTwoShareIsValid(suite, pk, list, msg, p, kps[0], nonces[0]);
    var c := Challenge(suite, R, pk, msg).value;
    forall i | 0 <= i < |shares|
      ensures shares[i].id in ListIds(list) &&
              ValidShare(suite, pk, list, msg, c, shares[i], ScalarBaseMult(Eval(p, shares[i].id)))
    {
      RoundTwoShareIsValid(suite, pk, list, msg, p, kps[i], nonces[i]);
    }
    MulZero(Eval(p[1..], 0));
    AddZero(p[0]);
    SumVerifies(suite, pk, list, msg, R, c, p, shares);
  }

  lemma {:induction false} NoErrors(rs: seq<Result<()>>, i: nat)
    requires i <= |rs| && forall k :: i <= k < |rs| ==> rs[k].Ok?
    ensures FirstErrorFrom(rs, i).Ok?
    decreases |rs| - i
  {
    if i < |rs| {
      NoErrors(rs, i + 1);
    }
  }

  /** Verified aggregation never refuses round-two shares when the session itself is in order. */
  lemma {:induction false} HonestSharesAreAccepted(suite: Suite, minSigners: nat, pk: Element, list: seq<Commitment>,
                                                   msg: Bytes, p: Poly,
                                                   kps: seq<KeyPackage>, nonces: seq<Nonces>,
                                                   shares: seq<SignatureShare>,
                                                   vs: seq<VerificationShare>)
    requires |kps| == |nonces| == |shares|
    requires KeysOnPolynomial(list, vs, p)
    requires Opening(suite, minSigners, pk, list, msg, |shares|, |vs|).Ok?
    requires forall i :: 0 <= i < |kps| ==>
      SignerOf(pk, list, p, kps[i], nonces[i]) && RoundTwoResult(suite, kps[i], nonces[i], msg, list) == Ok(shares[i])
    ensures VerifiedResult(suite, minSigners, pk, list, msg, shares, vs).Ok?
  {
    var c := Opening(suite, minSigners, pk, list, msg, |shares|, |vs|).value.1;
    var rs := Checks(suite, pk, list, msg, c, vs, shares);
    forall i | 0 <= i < |shares|
      ensures rs[i].Ok?
    {
      RoundTwoShareIsValid(suite, pk, list, msg, p, kps[i], nonces[i]);
    }
    NoErrors(rs, 0);
  }

  /** So honest shares are aggregated whatever their number; the result verifies exactly when it suffices for the
      secret. */
  lemma {:induction false} HonestAggregateExact(suite: Suite, minSigners: nat, pk: Element, list: seq<Commitment>,
                                                msg: Bytes, p: Poly,
                                                kps: seq<KeyPackage>, nonces: seq<Nonces>, shares: seq<SignatureShare>,
                                                vs: seq<VerificationShare>)
    requires |kps| == |nonces| == |shares| && SameSigners(list, shares)
    requires KeysOnPolynomial(list, vs, p) && pk == ScalarBaseMult(Eval(p, 0)) && !pk.IsIdentity()
    requires Opening(suite, minSigners, pk, list, msg, |shares|, |vs|).Ok?
    requires forall i :: 0 <= i < |kps| ==>
      SignerOf(pk, list, p, kps[i], nonces[i]) && RoundTwoResult(suite, kps[i], nonces[i], msg, list) == Ok(shares[i])
    ensures var r := VerifiedResult(suite, minSigners, pk, list, msg, shares, vs);
      && r.Ok?
      && (Verify(suite, msg, r.value, pk).Ok? <==> AtZero(p, Points(list)) == Eval(p, 0))
  {
    HonestSharesAreAccepted(suite, minSigners, pk, list, msg, p, kps, nonces, shares, vs);
    VerifiedAggregationExact(suite, minSigners, pk, list, msg, shares, vs, p);
  }

  // ---- exact blame ----

  lemma {:induction false} KeyMapLookup(vs: seq<VerificationShare>, k: nat, i: nat)
    requires i < k <= |vs| && Distinct(VerificationIds(vs))
    ensures vs[i].id in KeyMapTo(vs, k) && KeyMapTo(vs, k)[vs[i].id] == vs[i].key
  {
    if i < k - 1 {
      KeyMapLookup(vs, k - 1, i);
      assert VerificationIds(vs)[i] != VerificationIds(vs)[k - 1];
    }
  }

  lemma {:induction false} KeyMapMembers(vs: seq<VerificationShare>, k: nat, id: Identifier)
    requires k <= |vs|
    ensures id in KeyMapTo(vs, k) <==> exists i :: 0 <= i < k && vs[i].id == id
  {
    if k > 0 {
      KeyMapMembers(vs, k - 1, id);
    }
  }

  lemma {:induction false} FirstKeyFound(vs: seq<VerificationShare>, id: Identifier)
    ensures FirstKey(vs, id).Ok? ==> exists i :: 0 <= i < |vs| && vs[i].id == id && FirstKey(vs, id) == Ok(vs[i].key)
    ensures FirstKey(vs, id).Err? ==> forall i :: 0 <= i < |vs| ==> vs[i].id != id
    ensures FirstKey(vs, id).Err? ==> FirstKey(vs, id).error == Blaming([id], InvalidParameters)
  {
    if vs != [] && vs[0].id != id {
      FirstKeyFound(vs[1..], id);
      if FirstKey(vs, id).Ok? {
        var i :| 0 <= i < |vs[1..]| && vs[1..][i].id == id && FirstKey(vs[1..], id) == Ok(vs[1..][i].key);
        assert vs[i + 1].id == id;
      }
      forall i | 0 <= i < |vs| && FirstKey(vs, id).Err?
        ensures vs[i].id != id
      {
        assert i > 0 ==> vs[1..][i - 1].id != id;
      }
    }
  }

  /** The last key listed for the participant, which is the one that the key map keeps. */
  function LastKey(vs: seq<VerificationShare>, id: Identifier): Result<Element> {
    var keys := KeyMapTo(vs, |vs|);
    if id in keys then Ok(keys[id]) else Err(Blaming([id], InvalidParameters))
  }

  /** Both are found, or neither. */
  lemma {:induction false} FoundAlike(vs: seq<VerificationShare>, id: Identifier)
    ensures FirstKey(vs, id).Ok? <==> LastKey(vs, id).Ok?
  {
    FirstKeyFound(vs, id);
    KeyMapMembers(vs, |vs|, id);
  }

  /** With distinct identifiers the first entry and the last entry for a participant are the same. */
  lemma {:induction false} LookupsAgree(vs: seq<VerificationShare>, id: Identifier)
    requires Distinct(VerificationIds(vs))
    ensures FirstKey(vs, id) == LastKey(vs, id)
  {
    FirstKeyFound(vs, id);
    KeyMapMembers(vs, |vs|, id);
    if FirstKey(vs, id).Ok? {
      var i :| 0 <= i < |vs| && vs[i].id == id && FirstKey(vs, id) == Ok(vs[i].key);
      KeyMapLookup(vs, |vs|, i);
    }
  }

  /** The response that the share equation demands for a key. */
  function Response(suite: Suite, pk: Element, list: seq<Commitment>, msg: Bytes, c: Scalar, id: Identifier,
                    key: Element): Scalar
    requires id in ListIds(list)
  {
    var d := CommitmentOf(list, id);
    Add(Add(d.hiding.log, Mul(d.binding.log, Rho(suite, pk, list, msg, id))), Mul(Mul(key.log, c), Lambda(list, id)))
  }

  lemma {:induction false} ValidShareExact(suite: Suite, pk: Element, list: seq<Commitment>, msg: Bytes, c: Scalar,
                                           share: SignatureShare, key: Element)
    requires share.id in ListIds(list)
    ensures ValidShare(suite, pk, list, msg, c, share, key) <==>
      share.share == Response(suite, pk, list, msg, c, share.id, key)
  {
  }

  /** Different keys demand different responses, unless the participant carries no weight. */
  lemma {:induction false} ResponsesDiffer(suite: Suite, pk: Element, list: seq<Commitment>, msg: Bytes, c: Scalar,
                                           id: Identifier, a: Element, b: Element)
    requires Ascending(list) && id in ListIds(list) && c != 0
    ensures Response(suite, pk, list, msg, c, id, a) == Response(suite, pk, list, msg, c, id, b) <==>
      a == b || Weightless(list, id)
  {
    LambdaZero(list, id);
    var d, lambda := CommitmentOf(list, id), Lambda(list, id);
    MulZero(Mul(a.log, c));
    MulZero(Mul(b.log, c));
    if lambda != 0 {
      SameProduct(Add(d.hiding.log, Mul(d.binding.log, Rho(suite, pk, list, msg, id))), lambda,
                  Mul(a.log, c), Mul(b.log, c));
      SameProduct(0, c, a.log, b.log);
    }
  }

  /** Do the two strategies judge every share that this participant could submit alike? */
  ghost predicate JudgeAlike(suite: Suite, pk: Element, list: seq<Commitment>, msg: Bytes, c: Scalar,
                             vs: seq<VerificationShare>,
                             id: Identifier) {
    forall z: Scalar :: ShareCheck(suite, pk, list, msg, c, vs, SignatureShare(id, z)).Ok? <==>
                   Honest(suite, pk, list, msg, c, KeyMapTo(vs, |vs|), SignatureShare(id, z))
  }

  /** The first and the last key listed for the participant are the same, or its key carries no weight. */
  predicate KeysAlike(list: seq<Commitment>, vs: seq<VerificationShare>, id: Identifier) {
    FirstKey(vs, id) == LastKey(vs, id) || Weightless(list, id)
  }

  lemma {:induction false} ChecksAgree(suite: Suite, pk: Element, list: seq<Commitment>, msg: Bytes, c: Scalar,
                                       vs: seq<VerificationShare>, share: SignatureShare)
    requires Ascending(list) && c != 0 && KeysAlike(list, vs, share.id)
    ensures var checked := ShareCheck(suite, pk, list, msg, c, vs, share);
      && (checked.Ok? <==> Honest(suite, pk, list, msg, c, KeyMapTo(vs, |vs|), share))
      && (checked.Err? ==> GetCulprits(checked.error) == [share.id])
  {
    FirstKeyFound(vs, share.id);
    FoundAlike(vs, share.id);
    if FirstKey(vs, share.id).Ok? && share.id in ListIds(list) {
      var first, last := FirstKey(vs, share.id).value, LastKey(vs, share.id).value;
      ValidShareExact(suite, pk, list, msg, c, share, first);
      ValidShareExact(suite, pk, list, msg, c, share, last);
      ResponsesDiffer(suite, pk, list, msg, c, share.id, first, last);
    }
  }

  /** The two strategies judge a participant of the session alike exactly when its keys are alike. */
  lemma {:induction false} JudgeAlikeExact(suite: Suite, pk: Element, list: seq<Commitment>, msg: Bytes, c: Scalar,
                                           vs: seq<VerificationShare>, id: Identifier)
    requires Ascending(list) && id in ListIds(list) && c != 0
    ensures JudgeAlike(suite, pk, list, msg, c, vs, id) <==> KeysAlike(list, vs, id)
  {
    FoundAlike(vs, id);
    if KeysAlike(list, vs, id) {
      forall z: Scalar
        ensures ShareCheck(suite, pk, list, msg, c, vs, SignatureShare(id, z)).Ok? <==>
           Honest(suite, pk, list, msg, c, KeyMapTo(vs, |vs|), SignatureShare(id, z))
      {
        ChecksAgree(suite, pk, list, msg, c, vs, SignatureShare(id, z));
      }
    } else {
      FirstKeyFound(vs, id);
      DisagreeingShare(suite, pk, list, msg, c, vs, id);
    }
  }

  /** When they are not, the share made for the first key passes one strategy and is blamed by the other. */
  lemma {:induction false} DisagreeingShare(suite: Suite, pk: Element, list: seq<Commitment>, msg: Bytes, c: Scalar,
                                            vs: seq<VerificationShare>, id: Identifier)
    requires Ascending(list) && id in ListIds(list) && c != 0
    requires FirstKey(vs, id).Ok? && !KeysAlike(list, vs, id)
    ensures var share := SignatureShare(id, Response(suite, pk, list, msg, c, id, FirstKey(vs, id).value));
      && ShareCheck(suite, pk, list, msg, c, vs, share).Ok?
      && !Honest(suite, pk, list, msg, c, KeyMapTo(vs, |vs|), share)
  {
    FoundAlike(vs, id);
    var first, last := FirstKey(vs, id).value, LastKey(vs, id).value;
    var share := SignatureShare(id, Response(suite, pk, list, msg, c, id, first));
    ValidShareExact(suite, pk, list, msg, c, share, first);
    ValidShareExact(suite, pk, list, msg, c, share, last);
    ResponsesDiffer(suite, pk, list, msg, c, id, first, last);
  }

  lemma {:induction false} FirstErrorIsFirstBlamed(rs: seq<Result<()>>, ids: seq<Identifier>, verdicts: seq<bool>,
                                                   i: nat)
    requires i <= |rs| == |ids| == |verdicts|
    requires forall k :: 0 <= k < |rs| ==>
      (rs[k].Ok? <==> verdicts[k]) && (rs[k].Err? ==> GetCulprits(rs[k].error) == [ids[k]])
    requires BlamedTo(ids, verdicts, i) == []
    ensures var checked := FirstErrorFrom(rs, i);
            var blamed := BlamedTo(ids, verdicts, |ids|);
      && (checked.Ok? <==> blamed == [])
      && (checked.Err? ==> GetCulprits(checked.error) == blamed[..1])
    decreases |rs| - i
  {
    if i < |rs| {
      if verdicts[i] {
        FirstErrorIsFirstBlamed(rs, ids, verdicts, i + 1);
      } else {
        BlamedGrows(ids, verdicts, i + 1, |ids|);
      }
    }
  }

  lemma {:induction false} BlamedGrows(ids: seq<Identifier>, verdicts: seq<bool>, k: nat, n: nat)
    requires k <= n <= |ids| == |verdicts|
    ensures BlamedTo(ids, verdicts, k) <= BlamedTo(ids, verdicts, n)
  {
    if k < n {
      BlamedGrows(ids, verdicts, k, n - 1);
    }
  }

  /** The two detecting strategies accept the same sessions with the same signature; when they refuse,
      the first blames exactly the head of the list the second gives. */
  lemma {:induction false} StrategiesAgree(suite: Suite, minSigners: nat, pk: Element, list: seq<Commitment>,
                                           msg: Bytes,
                        shares: seq<SignatureShare>, vs: seq<VerificationShare>)
    requires forall i :: 0 <= i < |shares| ==> KeysAlike(list, vs, shares[i].id)
    ensures var first := VerifiedResult(suite, minSigners, pk, list, msg, shares, vs);
            var all := AllCheatersResult(suite, minSigners, pk, list, msg, shares, vs);
      && (first.Ok? <==> all.Ok?)
      && (first.Ok? ==> first == all)
      && (first.Err? && Opening(suite, minSigners, pk, list, msg, |shares|, |vs|).Err? ==> first == all)
      && (first.Err? && Opening(suite, minSigners, pk, list, msg, |shares|, |vs|).Ok? ==>
            GetCulprits(all.error) != [] && GetCulprits(first.error) == GetCulprits(all.error)[..1])
  {
    var session := Opening(suite, minSigners, pk, list, msg, |shares|, |vs|);
    ValidationExact(list);
    if session.Ok? {
      var c := session.value.1;
      var rs := Checks(suite, pk, list, msg, c, vs, shares);
      var verdicts := Verdicts(suite, pk, list, msg, c, KeyMapTo(vs, |vs|), shares);
      forall k | 0 <= k < |shares|
        ensures (rs[k].Ok? <==> verdicts[k]) && (rs[k].Err? ==> GetCulprits(rs[k].error) == [shares[k].id])
      {
        ChecksAgree(suite, pk, list, msg, c, vs, shares[k]);
      }
      FirstErrorIsFirstBlamed(rs, ShareIds(shares), verdicts, 0);
    }
  }

  /** The session of the detecting strategies: that of plain aggregation, with keys and a challenge. */
  lemma {:induction false} OpeningExact(suite: Suite, minSigners: nat, pk: Element, list: seq<Commitment>, msg: Bytes,
                                        shares: seq<SignatureShare>, n: nat)
    ensures var session := Opening(suite, minSigners, pk, list, msg, |shares|, n);
            var plain := AggregateResult(suite, minSigners, pk, list, msg, shares);
      && (session.Ok? <==> plain.Ok? && n > 0 && Challenge(suite, plain.value.R, pk, msg).Ok?)
      && (session.Ok? ==> && session.value == (plain.value.R, Challenge(suite, plain.value.R, pk, msg).value)
                          && plain.value.z == Sum(ShareScalars(shares)))
  {
  }

  lemma {:induction false} VerifiedResultExact(suite: Suite, minSigners: nat, pk: Element, list: seq<Commitment>,
                                               msg: Bytes,
                                               shares: seq<SignatureShare>, vs: seq<VerificationShare>)
    ensures var session := Opening(suite, minSigners, pk, list, msg, |shares|, |vs|);
            var r := VerifiedResult(suite, minSigners, pk, list, msg, shares, vs);
      && (r.Ok? <==> session.Ok? && NobodyToBlame(suite, pk, list, msg, shares, vs, FirstCheater, session.value.1))
      && (r.Ok? ==> r.value == Signature(session.value.0, Sum(ShareScalars(shares))))
  {
    var session := Opening(suite, minSigners, pk, list, msg, |shares|, |vs|);
    if session.Ok? {
      AllChecksPass(Checks(suite, pk, list, msg, session.value.1, vs, shares));
    }
  }

  lemma {:induction false} AllCheatersResultExact(suite: Suite, minSigners: nat, pk: Element, list: seq<Commitment>,
                                                  msg: Bytes,
                                                  shares: seq<SignatureShare>, vs: seq<VerificationShare>)
    ensures var session := Opening(suite, minSigners, pk, list, msg, |shares|, |vs|);
            var r := AllCheatersResult(suite, minSigners, pk, list, msg, shares, vs);
      && (r.Ok? <==> session.Ok? && NobodyToBlame(suite, pk, list, msg, shares, vs, AllCheaters, session.value.1))
      && (r.Ok? ==> r.value == Signature(session.value.0, Sum(ShareScalars(shares))))
  {
    var session := Opening(suite, minSigners, pk, list, msg, |shares|, |vs|);
    if session.Ok? {
      NobodyBlamed(ShareIds(shares), Verdicts(suite, pk, list, msg, session.value.1, KeyMapTo(vs, |vs|), shares),
                   |shares|);
    }
  }

  /** Whatever the strategy, a success is the plain aggregate: detecting cheaters only ever adds refusals. */
  lemma {:induction false} DetectionOnlyRefuses(suite: Suite, minSigners: nat, pk: Element, list: seq<Commitment>,
                                                msg: Bytes,
                                                shares: seq<SignatureShare>, vs: seq<VerificationShare>,
                                                strategy: Strategy)
    ensures var r := StrategyResult(suite, minSigners, pk, list, msg, shares, vs, strategy);
            var plain := AggregateResult(suite, minSigners, pk, list, msg, shares);
      r.Ok? ==> r == plain
  {
    OpeningExact(suite, minSigners, pk, list, msg, shares, |vs|);
    VerifiedResultExact(suite, minSigners, pk, list, msg, shares, vs);
    AllCheatersResultExact(suite, minSigners, pk, list, msg, shares, vs);
  }

  /** A detecting strategy succeeds exactly when plain aggregation does, there are keys, the challenge is not zero and
      every share passes the strategy's check. */
  lemma {:induction false} DetectionExact(suite: Suite, minSigners: nat, pk: Element, list: seq<Commitment>, msg: Bytes,
                                          shares: seq<SignatureShare>, vs: seq<VerificationShare>, strategy: Strategy)
    requires strategy.FirstCheater? || strategy.AllCheaters?
    ensures var plain := AggregateResult(suite, minSigners, pk, list, msg, shares);
            StrategyResult(suite, minSigners, pk, list, msg, shares, vs, strategy).Ok? <==>
      && plain.Ok? && vs != [] && Challenge(suite, plain.value.R, pk, msg).Ok?
      && NobodyToBlame(suite, pk, list, msg, shares, vs, strategy, Challenge(suite, plain.value.R, pk, msg).value)
  {
    OpeningExact(suite, minSigners, pk, list, msg, shares, |vs|);
    VerifiedResultExact(suite, minSigners, pk, list, msg, shares, vs);
    AllCheatersResultExact(suite, minSigners, pk, list, msg, shares, vs);
  }

  /** Every share passes the strategy's own check. */
  ghost predicate NobodyToBlame(suite: Suite, pk: Element, list: seq<Commitment>, msg: Bytes,
                                shares: seq<SignatureShare>,
                                vs: seq<VerificationShare>, strategy: Strategy, c: Scalar) {
    forall i :: 0 <= i < |shares| ==>
      if strategy.FirstCheater? then ShareCheck(suite, pk, list, msg, c, vs, shares[i]).Ok?
      else Honest(suite, pk, list, msg, c, KeyMapTo(vs, |vs|), shares[i])
  }

  lemma {:induction false} AllChecksPass(rs: seq<Result<()>>)
    ensures FirstErrorFrom(rs, 0).Ok? <==> forall i :: 0 <= i < |rs| ==> rs[i].Ok?
  {
    if FirstErrorFrom(rs, 0).Ok? {
      forall i | 0 <= i < |rs|
        ensures rs[i].Ok?
      {
        NoErrorFrom(rs, 0, i);
      }
    } else if forall i :: 0 <= i < |rs| ==> rs[i].Ok? {
      NoErrors(rs, 0);
    }
  }

  lemma {:induction false} NobodyBlamed(ids: seq<Identifier>, verdicts: seq<bool>, k: nat)
    requires k <= |ids| == |verdicts|
    ensures BlamedTo(ids, verdicts, k) == [] <==> forall i :: 0 <= i < k ==> verdicts[i]
  {
    if k > 0 {
      NobodyBlamed(ids, verdicts, k - 1);
    }
  }

  // ---- blame against the signers' own answers ----

  /** What a signer's round two answers, apart from its own count of signers: the check that may make it refuse to sign
      is not about its share. */
  function OwnAnswer(suite: Suite, list: seq<Commitment>, msg: Bytes, kp: KeyPackage,
                     nonces: Nonces): Result<SignatureShare> {
    RoundTwoResult(suite, kp.(minSigners := 0), nonces, msg, list)
  }

  /** In a list as long as the package asks for, that is exactly its round two. */
  lemma {:induction false} OwnAnswerIsRoundTwo(suite: Suite, list: seq<Commitment>, msg: Bytes, kp: KeyPackage,
                                               nonces: Nonces)
    ensures OwnAnswer(suite, list, msg, kp, nonces).Ok? && kp.minSigners <= |list| ==>
      RoundTwoResult(suite, kp, nonces, msg, list) == OwnAnswer(suite, list, msg, kp, nonces)
    ensures OwnAnswer(suite, list, msg, kp, nonces).Ok? && kp.minSigners > |list| ==>
      RoundTwoResult(suite, kp, nonces, msg, list) == Err(Plain(InsufficientParticipants))
  {
  }

  /** For each share: is it from a participant of the session, and equal to that signer's own answer? */
  function OwnAnswers(suite: Suite, list: seq<Commitment>, msg: Bytes, kps: map<Identifier, KeyPackage>,
                      nonces: map<Identifier, Nonces>, shares: seq<SignatureShare>): (bs: seq<bool>)
    requires forall id :: id in ListIds(list) ==> id in kps && id in nonces
    ensures |bs| == |shares|
    ensures forall i :: 0 <= i < |shares| ==>
      bs[i] == (shares[i].id in ListIds(list)
                && OwnAnswer(suite, list, msg, kps[shares[i].id], nonces[shares[i].id]) == Ok(shares[i]))
  {
    seq(|shares|, i requires 0 <= i < |shares| =>
      shares[i].id in ListIds(list)
      && OwnAnswer(suite, list, msg, kps[shares[i].id], nonces[shares[i].id]) == Ok(shares[i]))
  }

  /** The keys looked up are those of the packages' secrets, and the list commits to the nonces. */
  ghost predicate HonestSetup(pk: Element, list: seq<Commitment>, vs: seq<VerificationShare>,
                              kps: map<Identifier, KeyPackage>,
                              nonces: map<Identifier, Nonces>) {
    forall id :: id in ListIds(list) ==>
      && id in kps && id in nonces
      && kps[id].id == id && kps[id].groupPublicKey == pk
      && LastKey(vs, id) == Ok(ScalarBaseMult(kps[id].secretShare))
      && Commits(CommitmentOf(list, id), id, nonces[id])
  }

  lemma {:induction false} HonestIsOwnAnswer(suite: Suite, pk: Element, list: seq<Commitment>, msg: Bytes, c: Scalar,
                                             vs: seq<VerificationShare>, kps: map<Identifier, KeyPackage>,
                                             nonces: map<Identifier, Nonces>, share: SignatureShare)
    requires HonestSetup(pk, list, vs, kps, nonces) && share.id in ListIds(list)
    requires Validation(list).Ok? && GroupCommitment(suite, pk, list, msg).Ok?
    requires Challenge(suite, GroupCommitment(suite, pk, list, msg).value, pk, msg) == Ok(c)
    ensures Honest(suite, pk, list, msg, c, KeyMapTo(vs, |vs|), share) <==>
       OwnAnswer(suite, list, msg, kps[share.id], nonces[share.id]) == Ok(share)
  {
    var id := share.id;
    ShareEquationExact(CommitmentOf(list, id), nonces[id], Rho(suite, pk, list, msg, id), Lambda(list, id), c,
                       kps[id].secretShare, share.share);
  }

  /** The collecting strategy blames exactly the shares from outside the session or different from the
      signer's own answer, in the order submitted. */
  lemma {:induction false} BlameIsExact(suite: Suite, minSigners: nat, pk: Element, list: seq<Commitment>, msg: Bytes,
                                        shares: seq<SignatureShare>, vs: seq<VerificationShare>,
                                        kps: map<Identifier, KeyPackage>, nonces: map<Identifier, Nonces>)
    requires HonestSetup(pk, list, vs, kps, nonces)
    requires Opening(suite, minSigners, pk, list, msg, |shares|, |vs|).Ok?
    ensures var deviators := BlamedTo(ShareIds(shares), OwnAnswers(suite, list, msg, kps, nonces, shares), |shares|);
            var result := AllCheatersResult(suite, minSigners, pk, list, msg, shares, vs);
      if deviators == [] then result.Ok? else result.Err? && GetCulprits(result.error) == deviators
  {
    var c := Opening(suite, minSigners, pk, list, msg, |shares|, |vs|).value.1;
    var verdicts := Verdicts(suite, pk, list, msg, c, KeyMapTo(vs, |vs|), shares);
    forall i | 0 <= i < |shares|
      ensures verdicts[i] == OwnAnswers(suite, list, msg, kps, nonces, shares)[i]
    {
      if shares[i].id in ListIds(list) {
        HonestIsOwnAnswer(suite, pk, list, msg, c, vs, kps, nonces, shares[i]);
      }
    }
    assert verdicts == OwnAnswers(suite, list, msg, kps, nonces, shares);
  }
}
