/** The two meanings of a package's verification shares: commitments to the coefficients (what the checks of a single
    share read) and verification keys of the participants (what verified aggregation reads). */
module KeyMeanings {
  import opened PrimeField
  import opened Group
  import opened Types
  import opened Sums
  import opened Polynomial
  import opened Lagrange
  import opened PolynomialHelper
  import opened Vss
  import opened Encoding
  import opened Transcript
  import opened Participant
  import opened Aggregator
  import opened SigningTheorems
  import Dealer
  import Dkg
  import Refresh

  /** A session in which the share of participant id can be checked. */
  ghost predicate Checkable(suite: Suite, pk: Element, list: seq<Commitment>, msg: Bytes, id: Identifier,
                            nonces: Nonces) {
    && Validation(list).Ok? && id in ListIds(list) && Commits(CommitmentOf(list, id), id, nonces)
    && GroupCommitment(suite, pk, list, msg).Ok?
    && Challenge(suite, GroupCommitment(suite, pk, list, msg).value, pk, msg).Ok?
  }

  /** The answer of a signer with this secret. */
  function AnswerWith(suite: Suite, pk: Element, list: seq<Commitment>, msg: Bytes, id: Identifier, nonces: Nonces,
                      secret: Scalar): Result<SignatureShare> {
    RoundTwoResult(suite, KeyPackage(id, secret, pk, [], 0, 0), nonces, msg, list)
  }

  /** The peer check takes the verification shares as coefficients: it accepts exactly the answer made with the secret
      that they evaluate to. */
  lemma {:induction false} PeerCheckExact(suite: Suite, kp: KeyPackage, share: SignatureShare, msg: Bytes,
                                          list: seq<Commitment>, nonces: Nonces)
    requires Checkable(suite, kp.groupPublicKey, list, msg, share.id, nonces)
    ensures PeerCheckResult(suite, kp, share, msg, list).Ok? <==>
            AnswerWith(suite, kp.groupPublicKey, list, msg, share.id, nonces,
                       Eval(Logs(Keys(kp.verificationShares)), share.id)) == Ok(share)
  {
    var pk, id := kp.groupPublicKey, share.id;
    var c := Challenge(suite, GroupCommitment(suite, pk, list, msg).value, pk, msg).value;
    PowerSumIsEval(Keys(kp.verificationShares), id);
    ShareEquationExact(CommitmentOf(list, id), nonces, Rho(suite, pk, list, msg, id), Lambda(list, id), c,
                       Eval(Logs(Keys(kp.verificationShares)), id), share.share);
  }

  /** An honest share passes the peer check exactly when the verification shares, read as coefficients, evaluate to its
      signer's secret, or the signer carries no weight. */
  lemma {:induction false} HonestSharePasses(suite: Suite, kp: KeyPackage, share: SignatureShare, msg: Bytes,
                                             list: seq<Commitment>,
                                             nonces: Nonces, secret: Scalar)
    requires Checkable(suite, kp.groupPublicKey, list, msg, share.id, nonces)
    requires AnswerWith(suite, kp.groupPublicKey, list, msg, share.id, nonces, secret) == Ok(share)
    ensures PeerCheckResult(suite, kp, share, msg, list).Ok? <==>
      Eval(Logs(Keys(kp.verificationShares)), share.id) == secret || Weightless(list, share.id)
  {
    var pk, id := kp.groupPublicKey, share.id;
    var expected := Eval(Logs(Keys(kp.verificationShares)), id);
    PeerCheckExact(suite, kp, share, msg, list, nonces);
    ValidationExact(list);
    LambdaZero(list, id);
    SecretShows(nonces, Rho(suite, pk, list, msg, id), Lambda(list, id), expected, secret,
                Challenge(suite, GroupCommitment(suite, pk, list, msg).value, pk, msg).value);
  }

  /** And the other way round: looked up by participant, coefficient commitments give a participant the commitment to
      the coefficient of that number, or none. */
  lemma {:induction false} CoefficientsLookedUpAsKeys(p: Poly, vs: seq<VerificationShare>, id: Identifier)
    requires Dealer.CommitsTo(vs, p)
    ensures FirstKey(vs, id) == if id < |p| then Ok(ScalarBaseMult(p[id])) else Err(Blaming([id], InvalidParameters))
  {
    FirstKeyFound(vs, id);
    assert |vs| == |Keys(vs)| == |p|;
    if id < |p| {
      assert vs[id].id == id && Keys(vs)[id] == vs[id].key;
    }
  }

  /** An honest share passes the check of verified aggregation exactly when a key is listed and the first one is that of
      its signer's secret, or the signer carries no weight. */
  lemma {:induction false} HonestShareChecked(suite: Suite, pk: Element, list: seq<Commitment>, msg: Bytes,
                                              vs: seq<VerificationShare>,
                                              share: SignatureShare, nonces: Nonces, secret: Scalar)
    requires Checkable(suite, pk, list, msg, share.id, nonces)
    requires AnswerWith(suite, pk, list, msg, share.id, nonces, secret) == Ok(share)
    ensures var c := Challenge(suite, GroupCommitment(suite, pk, list, msg).value, pk, msg).value;
            ShareCheck(suite, pk, list, msg, c, vs, share).Ok? <==>
            FirstKey(vs, share.id).Ok?
              && (FirstKey(vs, share.id).value == ScalarBaseMult(secret) || Weightless(list, share.id))
  {
    var id := share.id;
    var c := Challenge(suite, GroupCommitment(suite, pk, list, msg).value, pk, msg).value;
    var rho, lambda := Rho(suite, pk, list, msg, id), Lambda(list, id);
    ShareEquationExact(CommitmentOf(list, id), nonces, rho, lambda, c, secret, share.share);
    if FirstKey(vs, id).Ok? {
      var key := FirstKey(vs, id).value;
      ShareEquationExact(CommitmentOf(list, id), nonces, rho, lambda, c, key.log, share.share);
      ValidationExact(list);
      LambdaZero(list, id);
      SecretShows(nonces, rho, lambda, key.log, secret, c);
    }
  }

  /** With the packages that GenerateShares makes: verified aggregation accepts an honest share exactly when the
      coefficient numbered like its signer exists and happens to be the signer's secret, or the signer carries no
      weight. */
  lemma {:induction false} CoefficientsAsKeysExact(suite: Suite, pk: Element, list: seq<Commitment>, msg: Bytes,
                                                   p: Poly,
                                                   vs: seq<VerificationShare>, share: SignatureShare, nonces: Nonces)
    requires Dealer.CommitsTo(vs, p)
    requires Checkable(suite, pk, list, msg, share.id, nonces)
    requires AnswerWith(suite, pk, list, msg, share.id, nonces, Eval(p, share.id)) == Ok(share)
    ensures var c := Challenge(suite, GroupCommitment(suite, pk, list, msg).value, pk, msg).value;
            ShareCheck(suite, pk, list, msg, c, vs, share).Ok? <==>
            share.id < |p| && (p[share.id] == Eval(p, share.id) || Weightless(list, share.id))
  {
    HonestShareChecked(suite, pk, list, msg, vs, share, nonces, Eval(p, share.id));
    CoefficientsLookedUpAsKeys(p, vs, share.id);
  }

  lemma {:induction false} SameOtherEntries(vs: seq<VerificationShare>, ws: seq<VerificationShare>, id: Identifier,
                                            other: Identifier)
    requires Refresh.SameForOthers(vs, ws, id) && other != id
    ensures FirstKey(ws, other) == FirstKey(vs, other)
  {
    if vs != [] {
      SameOtherEntries(vs[1..], ws[1..], id, other);
    }
  }

  lemma {:induction false} FirstKeyKept(states: seq<Refresh.GroupState>, rounds: seq<Refresh.Round>, id: Identifier,
                                        other: Identifier)
    requires Refresh.Run(states, rounds) && id in states[|rounds|].packages
    requires id in states[0].packages && states[0].packages[id].id != other
    ensures FirstKey(states[|rounds|].packages[id].verificationShares, other)
      == FirstKey(states[0].packages[id].verificationShares, other)
  {
    Refresh.EntryOverRun(states, rounds, id);
    SameOtherEntries(states[0].packages[id].verificationShares, states[|rounds|].packages[id].verificationShares,
                     states[0].packages[id].id, other);
  }

  /** With the list of a package refreshed any number of times: verified aggregation accepts the honest refreshed share
      of another participant, listed first with its key before the rounds, exactly when the values there of the
      refreshing polynomials add up to 0 or that participant carries no weight. */
  lemma {:induction false} RefreshedListExact(suite: Suite, list: seq<Commitment>, msg: Bytes,
                                              states: seq<Refresh.GroupState>, rounds: seq<Refresh.Round>, p: Poly,
                                              id: Identifier, share: SignatureShare, nonces: Nonces)
    requires Refresh.Run(states, rounds) && Refresh.SharesOf(states[0], p)
    requires forall i :: 0 <= i < |rounds| ==> rounds[i].minSigners <= |p|
    requires var g, g' := states[0], states[|rounds|];
      && id in g.packages && id in g'.packages && share.id in g'.packages && share.id != id
      && share.id in g.keys.verifyingShares
      && FirstKey(g.packages[id].verificationShares, share.id) == Ok(g.keys.verifyingShares[share.id])
      && Checkable(suite, g.keys.verifyingKey, list, msg, share.id, nonces)
      && AnswerWith(suite, g.keys.verifyingKey, list, msg, share.id, nonces, g'.packages[share.id].secretShare)
         == Ok(share)
    ensures var pk, vs := states[0].keys.verifyingKey, states[|rounds|].packages[id].verificationShares;
            var c := Challenge(suite, GroupCommitment(suite, pk, list, msg).value, pk, msg).value;
            ShareCheck(suite, pk, list, msg, c, vs, share).Ok? <==>
            Refresh.ShiftOver(rounds, share.id) == 0 || Weightless(list, share.id)
  {
    var g, g' := states[0], states[|rounds|];
    var q := Refresh.RefreshPreservesSecret(states, rounds, p);
    FirstKeyKept(states, rounds, id, share.id);
    HonestShareChecked(suite, g.keys.verifyingKey, list, msg, g'.packages[id].verificationShares, share, nonces,
                       g'.packages[share.id].secretShare);
    Refresh.KeyOverRun(states, rounds, share.id);
    Refresh.SameAfterShift(g.keys.verifyingShares[share.id].log, Refresh.ShiftOver(rounds, share.id));
  }
}
