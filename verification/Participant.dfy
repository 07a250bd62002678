/** A signer: nonces in round one, a signature share in round two, and the check of a peer's share. */
module Participant {
  import opened PrimeField
  import opened Group
  import opened Types
  import opened Sums
  import opened Polynomial
  import opened Lagrange
  import opened PolynomialHelper
  import opened Vss
  import opened Encoding
  import opened Transcript
  import Dealer

  /** The two scalars are the drawn nonces. */
  method RoundOne(id: Identifier, hidingNonce: Scalar, bindingNonce: Scalar) returns (r: Result<(Nonces, Commitment)>)
    ensures r.Ok? <==> hidingNonce != 0 && bindingNonce != 0
    ensures r.Ok? ==> r.value.0 == Nonces(hidingNonce, bindingNonce) && Commits(r.value.1, id, r.value.0)
    ensures r.Ok? ==> !r.value.1.hiding.IsIdentity() && !r.value.1.binding.IsIdentity()
    ensures r.Err? ==> r.error == Plain(InvalidNonce)
  {
    if hidingNonce == 0 {
      return Err(Plain(InvalidNonce));
    }
    if bindingNonce == 0 {
      return Err(Plain(InvalidNonce));
    }
    var hidingCommitment := ScalarBaseMult(hidingNonce);
    var bindingCommitment := ScalarBaseMult(bindingNonce);
    r := Ok((Nonces(hidingNonce, bindingNonce), Commitment(id, hidingCommitment, bindingCommitment)));
  }

  /** c is the commitment of participant id to the nonces. */
  predicate Commits(c: Commitment, id: Identifier, nonces: Nonces) {
    c == Commitment(id, ScalarBaseMult(nonces.hiding), ScalarBaseMult(nonces.binding))
  }

  function Points(list: seq<Commitment>): (xs: seq<Scalar>)
    ensures xs == ListIds(list)
  {
    Dealer.Scalars(ListIds(list))
  }

  /** lambda_i for a participant of a session. */
  function Lambda(list: seq<Commitment>, id: Identifier): Scalar
    requires id in ListIds(list)
  {
    Coefficient(Points(list), IndexOf(Points(list), id), 0)
  }

  lemma {:induction false} LambdaDerived(list: seq<Commitment>, id: Identifier)
    requires Validation(list).Ok?
    ensures InterpolatingValue(Points(list), id)
         == if id in ListIds(list) then Ok(Lambda(list, id)) else Err(Plain(InvalidParameters))
  {
    ValidationExact(list);
    AscendingDistinct(list);
  }

  /** In a session with participant 0 the other participants' keys carry no weight. */
  predicate Weightless(list: seq<Commitment>, id: Identifier) {
    0 in ListIds(list) && id != 0
  }

  /** That is exactly when a Lagrange coefficient at 0 vanishes. */
  lemma {:induction false} LambdaZero(list: seq<Commitment>, id: Identifier)
    requires Ascending(list) && id in ListIds(list)
    ensures Lambda(list, id) == 0 <==> Weightless(list, id)
  {
    AscendingDistinct(list);
    CoefficientZero(Points(list), IndexOf(Points(list), id), 0);
  }

  method ParticipantScalars(suite: Suite, list: seq<Commitment>) returns (xs: seq<Scalar>)
    ensures xs == Points(list)
  {
    xs := [];
    for i := 0 to |list|
      invariant |xs| == i && forall k :: 0 <= k < i ==> xs[k] == list[k].id
    {
      var scalar := IdentifierToScalar(suite, list[i].id);
      xs := xs + [scalar.value];
    }
  }

  /** z_i = d_i + e_i rho_i + lambda_i s_i c */
  function ShareValue(nonces: Nonces, rho: Scalar, lambda: Scalar, secret: Scalar, c: Scalar): Scalar {
    Add(Add(nonces.hiding, Mul(nonces.binding, rho)), Mul(Mul(lambda, secret), c))
  }

  /** The outcome of round two. */
  function RoundTwoResult(suite: Suite, kp: KeyPackage, nonces: Nonces, msg: Bytes,
                          list: seq<Commitment>): Result<SignatureShare> {
    var valid := Validation(list);
    if valid.Err? then Err(valid.error)
    else if kp.minSigners > 0 && |list| < kp.minSigners then Err(Plain(InsufficientParticipants))
    else
      var R := GroupCommitment(suite, kp.groupPublicKey, list, msg);
      if R.Err? then Err(R.error)
      else if kp.id !in ListIds(list) then Err(Plain(InvalidParameters))
      else
        var c := Challenge(suite, R.value, kp.groupPublicKey, msg);
        if c.Err? then Err(c.error)
        else Ok(SignatureShare(kp.id, ShareValue(nonces, Rho(suite, kp.groupPublicKey, list, msg, kp.id),
                                                 Lambda(list, kp.id), kp.secretShare, c.value)))
  }

  method RoundTwo(suite: Suite, kp: KeyPackage, nonces: Nonces, msg: Bytes, list: seq<Commitment>)
    returns (r: Result<SignatureShare>)
    ensures r == RoundTwoResult(suite, kp, nonces, msg, list)
  {
    var valid := ValidateCommitmentList(list);
    if valid.Err? {
      return Err(valid.error);
    }
    if kp.minSigners > 0 && |list| < kp.minSigners {
      return Err(Plain(InsufficientParticipants));
    }
    var factors := ComputeBindingFactors(suite, kp.groupPublicKey, list, msg);
    var groupCommitment := ComputeGroupCommitment(list, factors.value);
    if groupCommitment.Err? {
      return Err(groupCommitment.error);
    }
    var points := ParticipantScalars(suite, list);
    var myScalar := IdentifierToScalar(suite, kp.id);
    LambdaDerived(list, kp.id);
    var lambda := DeriveInterpolatingValue(points, myScalar.value);
    if lambda.Err? {
      return Err(lambda.error);
    }
    var challenge := Challenge(suite, groupCommitment.value, kp.groupPublicKey, msg);
    if challenge.Err? {
      return Err(challenge.error);
    }
    LookupFactor(suite, kp.groupPublicKey, list, msg, kp.id);
    var rho := GetBindingFactor(factors.value, kp.id);
    var sigShare := nonces.hiding;
    sigShare := Add(sigShare, Mul(nonces.binding, rho.value));
    sigShare := Add(sigShare, Mul(Mul(lambda.value, kp.secretShare), challenge.value));
    r := Ok(SignatureShare(kp.id, sigShare));
  }

  /** Which check refuses: they come in this order. */
  lemma {:induction false} RoundTwoFault(suite: Suite, kp: KeyPackage, nonces: Nonces, msg: Bytes,
                                         list: seq<Commitment>)
    ensures var r := RoundTwoResult(suite, kp, nonces, msg, list);
      && (list == [] || !Ascending(list) ==> Validation(list).Err? && r == Err(Validation(list).error))
      && (list != [] && Ascending(list) ==>
            if |list| < kp.minSigners then r == Err(Plain(InsufficientParticipants))
            else if !NoIdentities(list) then r.Err? && r.error.kind == IdentityElement
            else if kp.id !in ListIds(list) then r == Err(Plain(InvalidParameters))
            else r.Ok? || r == Err(Plain(InvalidChallenge)))
  {
    ValidationExact(list);
    GroupCommitmentExact(suite, kp.groupPublicKey, list, msg);
  }

  /** The share equation z*G == D + rho*E + lambda*(c*Y). */
  predicate ShareEquation(c: Commitment, rho: Scalar, lambda: Scalar, challenge: Scalar, key: Element, z: Scalar) {
    ScalarBaseMult(z) == c.hiding.Plus(ScalarMult(c.binding, rho)).Plus(ScalarMult(ScalarMult(key, challenge), lambda))
  }

  /** Against an honest commitment and the key s*G the equation holds of the round-two value and of nothing else. */
  lemma {:induction false} ShareEquationExact(c: Commitment, nonces: Nonces, rho: Scalar, lambda: Scalar,
                                              challenge: Scalar, secret: Scalar, z: Scalar)
    requires Commits(c, c.id, nonces)
    ensures ShareEquation(c, rho, lambda, challenge, ScalarBaseMult(secret), z) <==>
       z == ShareValue(nonces, rho, lambda, secret, challenge)
  {
    MulAssoc(lambda, secret, challenge);
    MulComm(lambda, Mul(secret, challenge));
  }

  /** Shares made with different secrets differ, unless the signer carries no weight. */
  lemma {:induction false} SecretShows(nonces: Nonces, rho: Scalar, lambda: Scalar, a: Scalar, b: Scalar, c: Scalar)
    requires c != 0
    ensures ShareValue(nonces, rho, lambda, a, c) == ShareValue(nonces, rho, lambda, b, c) <==> a == b || lambda == 0
  {
    var base := Add(nonces.hiding, Mul(nonces.binding, rho));
    if lambda == 0 {
      MulZero(a);
      MulZero(b);
    } else if ShareValue(nonces, rho, lambda, a, c) == ShareValue(nonces, rho, lambda, b, c) {
      AddComm(base, Mul(Mul(lambda, a), c));
      AddComm(base, Mul(Mul(lambda, b), c));
      AddCancel(Mul(Mul(lambda, a), c), Mul(Mul(lambda, b), c), base);
      MulComm(Mul(lambda, a), c);
      MulComm(Mul(lambda, b), c);
      MulCancel(c, Mul(lambda, a), Mul(lambda, b));
      MulCancel(lambda, a, b);
    }
  }

  /** A share made with other nonces than the list entry commits to meets the equation exactly if the two pairs of
      nonces come to the same: hiding + rho * binding. */
  lemma {:induction false} OtherNoncesShow(c: Commitment, own: Nonces, other: Nonces, rho: Scalar, lambda: Scalar,
                                           challenge: Scalar, secret: Scalar)
    requires Commits(c, c.id, own)
    ensures ShareEquation(c, rho, lambda, challenge, ScalarBaseMult(secret),
                          ShareValue(other, rho, lambda, secret, challenge)) <==>
      Add(other.hiding, Mul(other.binding, rho)) == Add(own.hiding, Mul(own.binding, rho))
  {
    var key := Mul(Mul(lambda, secret), challenge);
    ShareEquationExact(c, own, rho, lambda, challenge, secret, ShareValue(other, rho, lambda, secret, challenge));
    if ShareValue(other, rho, lambda, secret, challenge) == ShareValue(own, rho, lambda, secret, challenge) {
      AddCancel(Add(other.hiding, Mul(other.binding, rho)), Add(own.hiding, Mul(own.binding, rho)), key);
    }
  }

  function CommitmentOf(list: seq<Commitment>, id: Identifier): Commitment
    requires id in ListIds(list)
  {
    var i := IndexOfId(ListIds(list), id);
    list[i]
  }

  function IndexOfId(ids: seq<Identifier>, id: Identifier): (i: nat)
    requires id in ids
    ensures i < |ids| && ids[i] == id && id !in ids[..i]
  {
    if ids[0] == id then 0 else IndexOfId(ids[1..], id) + 1
  }

  method FindCommitment(list: seq<Commitment>, id: Identifier) returns (found: bool, c: Commitment)
    ensures found <==> id in ListIds(list)
    ensures found ==> c == CommitmentOf(list, id)
  {
    c := Commitment(id, IDENTITY, IDENTITY);
    for i := 0 to |list|
      invariant id !in ListIds(list)[..i]
    {
      if list[i].id == id {
        assert ListIds(list)[i] == id;
        return true, list[i];
      }
      assert ListIds(list)[..i + 1] == ListIds(list)[..i] + [list[i].id];
    }
    assert ListIds(list)[..|list|] == ListIds(list);
    found := false;
  }

  /** The outcome of checking a peer's share: the key is obtained by evaluating the package's
      verification shares as coefficient commitments. */
  function PeerCheckResult(suite: Suite, kp: KeyPackage, share: SignatureShare, msg: Bytes,
                           list: seq<Commitment>): Result<()> {
    var valid := Validation(list);
    if valid.Err? then Err(valid.error)
    else
      var R := GroupCommitment(suite, kp.groupPublicKey, list, msg);
      if R.Err? then Err(R.error)
      else if share.id !in ListIds(list) then Err(Plain(InvalidParameters))
      else
        var c := Challenge(suite, R.value, kp.groupPublicKey, msg);
        if c.Err? then Err(c.error)
        else if ShareEquation(CommitmentOf(list, share.id), Rho(suite, kp.groupPublicKey, list, msg, share.id),
                              Lambda(list, share.id), c.value, PowerSum(Keys(kp.verificationShares), share.id),
                              share.share)
        then Ok(())
        else Err(Plain(InvalidSignatureShare))
  }

  /** A peer's share is accepted only in a session in order that its participant is part of; otherwise the first check
      that fails decides the error. */
  lemma {:induction false} PeerCheckFault(suite: Suite, kp: KeyPackage, share: SignatureShare, msg: Bytes,
                                          list: seq<Commitment>)
    ensures var r := PeerCheckResult(suite, kp, share, msg, list);
            var c := Challenge(suite, ScalarBaseMult(Sum(NonceTerms(suite, kp.groupPublicKey, list, msg))),
                               kp.groupPublicKey, msg);
      && (r.Ok? ==> list != [] && Ascending(list) && NoIdentities(list) && share.id in ListIds(list) && c.Ok?)
      && (list == [] || !Ascending(list) ==> Validation(list).Err? && r == Err(Validation(list).error))
      && (list != [] && Ascending(list) ==>
            if !NoIdentities(list) then r.Err? && r.error.kind == IdentityElement
            else if share.id !in ListIds(list) then r == Err(Plain(InvalidParameters))
            else if c.Err? then r == Err(Plain(InvalidChallenge))
            else r.Ok? || r == Err(Plain(InvalidSignatureShare)))
  {
    ValidationExact(list);
    GroupCommitmentExact(suite, kp.groupPublicKey, list, msg);
  }

  method VerifySignatureShare(suite: Suite, kp: KeyPackage, share: SignatureShare, msg: Bytes, list: seq<Commitment>)
    returns (r: Result<()>)
    ensures r == PeerCheckResult(suite, kp, share, msg, list)
  {
    var valid := ValidateCommitmentList(list);
    if valid.Err? {
      return Err(valid.error);
    }
    var factors := ComputeBindingFactors(suite, kp.groupPublicKey, list, msg);
    var groupCommitment := ComputeGroupCommitment(list, factors.value);
    if groupCommitment.Err? {
      return Err(groupCommitment.error);
    }
    var points := ParticipantScalars(suite, list);
    var shareScalar := IdentifierToScalar(suite, share.id);
    LambdaDerived(list, share.id);
    var lambda := DeriveInterpolatingValue(points, shareScalar.value);
    if lambda.Err? {
      return Err(lambda.error);
    }
    var challenge := Challenge(suite, groupCommitment.value, kp.groupPublicKey, msg);
    if challenge.Err? {
      return Err(challenge.error);
    }
    LookupFactor(suite, kp.groupPublicKey, list, msg, share.id);
    var rho := GetBindingFactor(factors.value, share.id);
    var found, commitment := FindCommitment(list, share.id);
    var key := EvaluateVerificationShares(kp.verificationShares, shareScalar.value);
    var left := ScalarBaseMult(share.share);
    var right := commitment.hiding;
    right := right.Plus(ScalarMult(commitment.binding, rho.value));
    right := right.Plus(ScalarMult(ScalarMult(key, challenge.value), lambda.value));
    if left != right {
      return Err(Plain(InvalidSignatureShare));
    }
    r := Ok(());
  }
}
