/** From key generation to a verified signature: the packages that either way of generating keys hands out sign, under
    the verification keys that it lists. */
module EndToEnd {
  import opened PrimeField
  import opened Group
  import opened Types
  import opened Sums
  import opened MapSums
  import opened Polynomial
  import opened Encoding
  import opened Transcript
  import opened Participant
  import opened Aggregator
  import opened SigningTheorems
  import Dealer
  import opened Dkg
  import opened DkgTheorems

  /** Every entry of the list is a participant's, with the key p(id)*G, and no participant is listed twice. */
  lemma {:induction false} ListedKeys(vs: seq<VerificationShare>, p: Poly, list: seq<Commitment>)
    requires forall i, j :: 0 <= i < j < |vs| ==> vs[i].id != vs[j].id
    requires forall i :: 0 <= i < |vs| ==> vs[i].key == ScalarBaseMult(Eval(p, vs[i].id))
    requires forall id :: id in ListIds(list) ==> exists i :: 0 <= i < |vs| && vs[i].id == id
    ensures KeysOnPolynomial(list, vs, p)
  {
    forall id | id in ListIds(list)
      ensures FirstKey(vs, id) == Ok(ScalarBaseMult(Eval(p, id)))
    {
      var i :| 0 <= i < |vs| && vs[i].id == id;
      FirstListed(vs, id, i);
    }
  }

  /** The nonces are those that the participant's entry in the list commits to. */
  predicate OwnNonces(list: seq<Commitment>, kp: KeyPackage, nonces: Nonces) {
    kp.id in ListIds(list) && Commits(CommitmentOf(list, kp.id), kp.id, nonces)
  }

  // ---- trusted dealer ----

  lemma {:induction false} KeygenKeys(p: Poly, n: nat, ids: seq<Identifier>, packages: seq<KeyPackage>,
                                      public: Dealer.PublicKeyPackage, list: seq<Commitment>)
    requires |p| > 0 && Dealer.KeygenOutcome(p, n, ids, packages, public) && Distinct(ids)
    requires forall id :: id in ListIds(list) ==> id in ids
    ensures KeysOnPolynomial(list, public.verificationShares, p)
  {
    var vs := public.verificationShares;
    forall i | 0 <= i < |ids|
      ensures |vs| == |ids| && vs[i] == VerificationShare(ids[i], ScalarBaseMult(Eval(p, ids[i])))
    {
      Dealer.KeygenFields(p, n, ids, packages, public, i);
    }
    forall id | id in ListIds(list)
      ensures exists i :: 0 <= i < |vs| && vs[i].id == id
    {
      var i :| 0 <= i < |ids| && ids[i] == id;
      assert vs[i].id == id;
    }
    ListedKeys(vs, p, list);
  }

  /** What key generation with a trusted dealer returns, used by any signers with any nonces: once the session is in
      order verified aggregation accepts their shares, and with at least as many signers as the threshold the signature
      verifies under the public key. */
  lemma {:induction false} KeygenSignaturesVerify(suite: Suite, p: Poly, n: nat, ids: seq<Identifier>,
                                                  packages: seq<KeyPackage>, public: Dealer.PublicKeyPackage,
                                                  list: seq<Commitment>, msg: Bytes, kps: seq<KeyPackage>,
                                                  nonces: seq<Nonces>, shares: seq<SignatureShare>)
    requires |p| > 0 && p[0] != 0 && Dealer.KeygenOutcome(p, n, ids, packages, public) && Distinct(ids)
    requires |kps| == |nonces| == |shares| && SameSigners(list, shares)
    requires forall i :: 0 <= i < |kps| ==>
      && kps[i] in packages && OwnNonces(list, kps[i], nonces[i])
      && RoundTwoResult(suite, kps[i], nonces[i], msg, list) == Ok(shares[i])
    requires forall id :: id in ListIds(list) ==> id in ids
    requires Opening(suite, |p|, public.groupPublicKey, list, msg, |shares|, |ids|).Ok?
    ensures |public.verificationShares| == |ids|
    ensures var r := VerifiedResult(suite, |p|, public.groupPublicKey, list, msg, shares, public.verificationShares);
      r.Ok? && Verify(suite, msg, r.value, public.groupPublicKey) == Ok(())
  {
    Dealer.EvalAtZero(p);
    KeygenKeys(p, n, ids, packages, public, list);
    forall i | 0 <= i < |kps|
      ensures SignerOf(public.groupPublicKey, list, p, kps[i], nonces[i])
    {
      var k :| 0 <= k < |packages| && packages[k] == kps[i];
      Dealer.KeygenFields(p, n, ids, packages, public, k);
    }
    EnoughSignersVerify(suite, public.groupPublicKey, list, msg, p, kps, nonces, shares, public.verificationShares);
  }

  lemma {:induction false} EnoughSignersVerify(suite: Suite, pk: Element, list: seq<Commitment>, msg: Bytes, p: Poly,
                                               kps: seq<KeyPackage>, nonces: seq<Nonces>, shares: seq<SignatureShare>,
                                               vs: seq<VerificationShare>)
    requires |kps| == |nonces| == |shares| && SameSigners(list, shares)
    requires KeysOnPolynomial(list, vs, p) && pk == ScalarBaseMult(Eval(p, 0)) && !pk.IsIdentity()
    requires Opening(suite, |p|, pk, list, msg, |shares|, |vs|).Ok?
    requires forall i :: 0 <= i < |kps| ==>
      SignerOf(pk, list, p, kps[i], nonces[i]) && RoundTwoResult(suite, kps[i], nonces[i], msg, list) == Ok(shares[i])
    ensures var r := VerifiedResult(suite, |p|, pk, list, msg, shares, vs);
      r.Ok? && Verify(suite, msg, r.value, pk) == Ok(())
  {
    OpeningFault(suite, |p|, pk, list, msg, |shares|, |vs|);
    ValidationExact(list);
    AscendingDistinct(list);
    SameCount(ShareIds(shares), ListIds(list));
    HonestSharesAreAccepted(suite, |p|, pk, list, msg, p, kps, nonces, shares, vs);
    VerifiedAggregationIsSound(suite, |p|, pk, list, msg, shares, vs, p);
  }

  /** Two listings of the same identifiers have one length. */
  lemma {:induction false} SameCount(a: seq<Identifier>, b: seq<Identifier>)
    requires Distinct(a) && Distinct(b) && forall id :: id in a <==> id in b
    ensures |a| == |b|
  {
    var s := set id | id in a;
    EnumeratesSize(a, s);
    EnumeratesSize(b, s);
  }

  // ---- distributed key generation ----

  ghost predicate Holds(suite: Suite, parties: map<Identifier, Party>, t: nat, id: Identifier, kp: KeyPackage)
    requires Parties(parties, t) && id in parties
  {
    var secret, inbox := Secret2(State1(parties, t, id)), Inbox1(suite, parties, id);
    Complete(secret, inbox) && exists keys :: Part3Outcome(secret, inbox, Inbox2(suite, parties, id), kp, keys)
  }

  /** kp is what party id holds at the end of an honest run. The trigger keeps this folded where only that matters. */
  ghost predicate HonestHolder(suite: Suite, parties: map<Identifier, Party>, t: nat, id: Identifier, kp: KeyPackage)
    requires Parties(parties, t) && id in parties
  {
    forall k {:trigger Holds(suite, parties, t, id, k)} :: k == kp ==> Holds(suite, parties, t, id, k)
  }

  lemma {:induction false} JointShares(all: map<Identifier, seq<Element>>, t: nat, keys: PublicKeys)
    requires t >= 1 && LongEnough(t, all) && keys == JointKeys(all, t)
    ensures keys.verifyingShares.Keys == all.Keys
    ensures forall i :: i in keys.verifyingShares ==>
      keys.verifyingShares[i] == ScalarBaseMult(Eval(Joint(all, t), i))
  {
  }

  lemma {:induction false} SharedKeysAre(parties: map<Identifier, Party>, t: nat, keys: PublicKeys)
    requires Parties(parties, t) && keys == SharedKeys(parties, t)
    ensures keys.verifyingShares.Keys == parties.Keys
    ensures forall i :: i in keys.verifyingShares ==>
      keys.verifyingShares[i] == ScalarBaseMult(Eval(SharedPoly(parties, t), i))
  {
    JointShares(Published(parties), t, keys);
  }

  lemma {:induction false} HolderFields(suite: Suite, parties: map<Identifier, Party>, t: nat, id: Identifier,
                                        kp: KeyPackage)
    returns (keys: PublicKeys)
    requires Parties(parties, t) && id in parties && HonestHolder(suite, parties, t, id, kp)
    ensures kp.id == id && kp.secretShare == Eval(SharedPoly(parties, t), id)
    ensures kp.minSigners == t && kp.maxSigners == |parties|
    ensures kp.groupPublicKey == ScalarBaseMult(SharedPoly(parties, t)[0])
    ensures Lists(kp.verificationShares, keys.verifyingShares) && keys == SharedKeys(parties, t)
  {
    assert Holds(suite, parties, t, id, kp);
    var secret := Secret2(State1(parties, t, id));
    keys :| Part3Outcome(secret, Inbox1(suite, parties, id), Inbox2(suite, parties, id), kp, keys);
    HonestOutcome(suite, parties, t, id, secret, Inbox1(suite, parties, id), Inbox2(suite, parties, id), kp, keys);
  }

  lemma {:induction false} AllListed(vs: seq<VerificationShare>, shares: map<Identifier, Element>, id: Identifier)
    requires Lists(vs, shares) && id in shares
    ensures exists i :: 0 <= i < |vs| && vs[i].id == id
  {
    var ids := VerificationIds(vs);
    var s := set i | i in ids;
    assert Enumerates(ids, s);
    EnumeratesSize(ids, s);
    assert forall i :: i in s ==> i in shares;
    SameSizeSubset(s, shares.Keys);
    var i :| 0 <= i < |ids| && ids[i] == id;
    assert vs[i].id == id;
  }

  lemma {:induction false} ListedFromMap(vs: seq<VerificationShare>, shares: map<Identifier, Element>, p: Poly,
                                         list: seq<Commitment>)
    requires Lists(vs, shares) && forall id :: id in shares ==> shares[id] == ScalarBaseMult(Eval(p, id))
    requires forall id :: id in ListIds(list) ==> id in shares
    ensures KeysOnPolynomial(list, vs, p)
  {
    forall id | id in ListIds(list)
      ensures exists k :: 0 <= k < |vs| && vs[k].id == id
    {
      AllListed(vs, shares, id);
    }
    ListedKeys(vs, p, list);
  }

  lemma {:induction false} HolderLists(suite: Suite, parties: map<Identifier, Party>, t: nat, id: Identifier,
                                       kp: KeyPackage, list: seq<Commitment>)
    requires Parties(parties, t) && id in parties && HonestHolder(suite, parties, t, id, kp)
    requires forall i :: i in ListIds(list) ==> i in parties
    ensures KeysOnPolynomial(list, kp.verificationShares, SharedPoly(parties, t))
    ensures kp.groupPublicKey == ScalarBaseMult(Eval(SharedPoly(parties, t), 0))
  {
    var keys := HolderFields(suite, parties, t, id, kp);
    Dealer.EvalAtZero(SharedPoly(parties, t));
    SharedKeysAre(parties, t, keys);
    ListedFromMap(kp.verificationShares, keys.verifyingShares, SharedPoly(parties, t), list);
  }

  lemma {:induction false} HolderSigns(suite: Suite, parties: map<Identifier, Party>, t: nat, list: seq<Commitment>,
                                       kp: KeyPackage, nonces: Nonces)
    requires Parties(parties, t) && kp.id in parties && HonestHolder(suite, parties, t, kp.id, kp)
    requires OwnNonces(list, kp, nonces)
    ensures SignerOf(ScalarBaseMult(Eval(SharedPoly(parties, t), 0)), list, SharedPoly(parties, t), kp, nonces)
  {
    var keys := HolderFields(suite, parties, t, kp.id, kp);
    Dealer.EvalAtZero(SharedPoly(parties, t));
  }

  /** After an honest distributed key generation, any signers with any nonces: once the session is in order verified
      aggregation with any party's list accepts their shares, and with at least as many signers as the threshold the
      signature verifies under the group's key. */
  lemma {:induction false} DkgSignaturesVerify(suite: Suite, parties: map<Identifier, Party>, t: nat,
                                               lister: Identifier,
                                               holder: KeyPackage, list: seq<Commitment>, msg: Bytes,
                                               kps: seq<KeyPackage>, nonces: seq<Nonces>, shares: seq<SignatureShare>)
    requires Parties(parties, t) && lister in parties && HonestHolder(suite, parties, t, lister, holder)
    requires |kps| == |nonces| == |shares| && SameSigners(list, shares)
    requires forall i :: 0 <= i < |kps| ==>
      && kps[i].id in parties && HonestHolder(suite, parties, t, kps[i].id, kps[i])
      && OwnNonces(list, kps[i], nonces[i])
      && RoundTwoResult(suite, kps[i], nonces[i], msg, list) == Ok(shares[i])
    requires forall id :: id in ListIds(list) ==> id in parties
    requires var pk, vs := holder.groupPublicKey, holder.verificationShares;
      !pk.IsIdentity() && Opening(suite, t, pk, list, msg, |shares|, |vs|).Ok?
    ensures var pk, vs := holder.groupPublicKey, holder.verificationShares;
            var r := VerifiedResult(suite, t, pk, list, msg, shares, vs);
      r.Ok? && Verify(suite, msg, r.value, pk) == Ok(())
  {
    HolderLists(suite, parties, t, lister, holder, list);
    forall i | 0 <= i < |kps|
      ensures SignerOf(holder.groupPublicKey, list, SharedPoly(parties, t), kps[i], nonces[i])
    {
      HolderSigns(suite, parties, t, list, kps[i], nonces[i]);
    }
    EnoughSignersVerify(suite, holder.groupPublicKey, list, msg, SharedPoly(parties, t), kps, nonces, shares,
                        holder.verificationShares);
  }
}
