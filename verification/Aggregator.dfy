/** Aggregation of signature shares, with and without the identification of cheaters, and verification. */
module Aggregator {
  import opened PrimeField
  import opened Group
  import opened Types
  import opened Sums
  import opened PolynomialHelper
  import opened Encoding
  import opened Transcript
  import opened Participant

  datatype Strategy = Disabled | FirstCheater | AllCheaters | Unknown

  function ShareIds(shares: seq<SignatureShare>): (ids: seq<Identifier>)
    ensures |ids| == |shares| && forall i :: 0 <= i < |shares| ==> ids[i] == shares[i].id
  {
    Mapped((s: SignatureShare) => s.id, shares)
  }

  function ShareScalars(shares: seq<SignatureShare>): (zs: seq<Scalar>)
    ensures |zs| == |shares| && forall i :: 0 <= i < |shares| ==> zs[i] == shares[i].share
  {
    Mapped((s: SignatureShare) => s.share, shares)
  }

  function VerificationIds(vs: seq<VerificationShare>): (ids: seq<Identifier>)
    ensures |ids| == |vs| && forall i :: 0 <= i < |vs| ==> ids[i] == vs[i].id
  {
    Mapped((v: VerificationShare) => v.id, vs)
  }

  // ---- the checks every aggregation starts with ----

  function CountCheck(minSigners: nat, list: seq<Commitment>, shareCount: nat): Result<()> {
    var valid := Validation(list);
    if valid.Err? then valid
    else if shareCount < minSigners then Err(Plain(InsufficientParticipants))
    else Ok(())
  }

  /** R, refused when it is the identity. */
  function SessionCommitment(suite: Suite, pk: Element, list: seq<Commitment>, msg: Bytes): Result<Element> {
    var R := GroupCommitment(suite, pk, list, msg);
    if R.Ok? && R.value.IsIdentity() then Err(Plain(IdentityElement)) else R
  }

  method ComputeSessionCommitment(suite: Suite, pk: Element, list: seq<Commitment>, msg: Bytes)
    returns (factors: seq<BindingFactor>, r: Result<Element>)
    requires list != []
    ensures factors == Factors(suite, pk, list, msg)
    ensures r == SessionCommitment(suite, pk, list, msg)
  {
    var computed := ComputeBindingFactors(suite, pk, list, msg);
    factors := computed.value;
    r := ComputeGroupCommitment(list, factors);
    if r.Ok? && r.value.IsIdentity() {
      r := Err(Plain(IdentityElement));
    }
  }

  method SumShares(shares: seq<SignatureShare>) returns (z: Scalar)
    ensures z == Sum(ShareScalars(shares))
  {
    z := 0;
    for i := 0 to |shares|
      invariant z == SumTo(ShareScalars(shares), i)
    {
      z := Add(z, shares[i].share);
    }
  }

  // ---- aggregation without verification ----

  function AggregateResult(suite: Suite, minSigners: nat, pk: Element, list: seq<Commitment>, msg: Bytes,
                           shares: seq<SignatureShare>): Result<Signature> {
    var counted := CountCheck(minSigners, list, |shares|);
    if counted.Err? then Err(counted.error)
    else
      var R := SessionCommitment(suite, pk, list, msg);
      if R.Err? then Err(R.error)
      else Ok(Signature(R.value, Sum(ShareScalars(shares))))
  }

  method Aggregate(suite: Suite, minSigners: nat, pk: Element, list: seq<Commitment>, msg: Bytes,
                   shares: seq<SignatureShare>)
    returns (r: Result<Signature>)
    ensures r == AggregateResult(suite, minSigners, pk, list, msg, shares)
  {
    var valid := ValidateCommitmentList(list);
    if valid.Err? {
      return Err(valid.error);
    }
    if |shares| < minSigners {
      return Err(Plain(InsufficientParticipants));
    }
    var _, groupCommitment := ComputeSessionCommitment(suite, pk, list, msg);
    if groupCommitment.Err? {
      return Err(groupCommitment.error);
    }
    var z := SumShares(shares);
    r := Ok(Signature(groupCommitment.value, z));
  }

  /** Exactly when aggregation succeeds, with what, and which check refuses otherwise. */
  lemma {:induction false} AggregateExact(suite: Suite, minSigners: nat, pk: Element, list: seq<Commitment>, msg: Bytes,
                                          shares: seq<SignatureShare>)
    ensures var r := AggregateResult(suite, minSigners, pk, list, msg, shares);
            var R := Sum(NonceTerms(suite, pk, list, msg));
      && (list == [] || !Ascending(list) ==> Validation(list).Err? && r == Err(Validation(list).error))
      && (list != [] && Ascending(list) ==>
            if |shares| < minSigners then r == Err(Plain(InsufficientParticipants))
            else if NoIdentities(list) && R != 0
            then r == Ok(Signature(ScalarBaseMult(R), Sum(ShareScalars(shares))))
            else r.Err? && r.error.kind == IdentityElement)
  {
    ValidationExact(list);
    GroupCommitmentExact(suite, pk, list, msg);
  }

  // ---- aggregation with verification of every share ----

  /** The first key listed for the participant. */
  function FirstKey(vs: seq<VerificationShare>, id: Identifier): Result<Element> {
    if vs == [] then Err(Blaming([id], InvalidParameters))
    else if vs[0].id == id then Ok(vs[0].key)
    else FirstKey(vs[1..], id)
  }

  /** Later entries for the participant play no part. */
  lemma {:induction false} FirstListed(vs: seq<VerificationShare>, id: Identifier, i: nat)
    requires i <= |vs| && (forall j :: 0 <= j < i ==> vs[j].id != id) && (i < |vs| ==> vs[i].id == id)
    ensures FirstKey(vs, id) == if i < |vs| then Ok(vs[i].key) else Err(Blaming([id], InvalidParameters))
  {
    if i > 0 {
      FirstListed(vs[1..], id, i - 1);
    }
  }

  method FindKey(vs: seq<VerificationShare>, id: Identifier) returns (r: Result<Element>)
    ensures r == FirstKey(vs, id)
  {
    for i := 0 to |vs|
      invariant FirstKey(vs, id) == FirstKey(vs[i..], id)
    {
      if vs[i].id == id {
        return Ok(vs[i].key);
      }
    }
    r := Err(Blaming([id], InvalidParameters));
  }

  /** The session's share equation for one share. */
  predicate ValidShare(suite: Suite, pk: Element, list: seq<Commitment>, msg: Bytes, c: Scalar, share: SignatureShare,
                       key: Element)
    requires share.id in ListIds(list)
  {
    ShareEquation(CommitmentOf(list, share.id), Rho(suite, pk, list, msg, share.id), Lambda(list, share.id), c, key,
                  share.share)
  }

  function ShareCheck(suite: Suite, pk: Element, list: seq<Commitment>, msg: Bytes, c: Scalar,
                      vs: seq<VerificationShare>, share: SignatureShare): Result<()> {
    var key := FirstKey(vs, share.id);
    if key.Err? then Err(key.error)
    else if share.id !in ListIds(list) then Err(Blaming([share.id], InvalidParticipant))
    else if ValidShare(suite, pk, list, msg, c, share, key.value) then Ok(())
    else Err(Blaming([share.id], InvalidSignatureShare))
  }

  /** A share is accepted exactly if a key is listed, its participant is part of the session and the response is the one
      due for the key found; every refusal names the participant. */
  lemma {:induction false} ShareCheckExact(suite: Suite, pk: Element, list: seq<Commitment>, msg: Bytes, c: Scalar,
                                           vs: seq<VerificationShare>, share: SignatureShare)
    ensures var r, id := ShareCheck(suite, pk, list, msg, c, vs, share), share.id;
      if FirstKey(vs, id).Err? then r == Err(FirstKey(vs, id).error)
      else if id !in ListIds(list) then r == Err(Blaming([id], InvalidParticipant))
      else
        var d, key := CommitmentOf(list, id), FirstKey(vs, id).value.log;
        var due := Add(Add(d.hiding.log, Mul(d.binding.log, Rho(suite, pk, list, msg, id))),
                       Mul(Mul(key, c), Lambda(list, id)));
        r == if share.share == due then Ok(()) else Err(Blaming([id], InvalidSignatureShare))
  {
  }

  method CheckShare(suite: Suite, pk: Element, list: seq<Commitment>, msg: Bytes, factors: seq<BindingFactor>,
                    points: seq<Scalar>, c: Scalar, vs: seq<VerificationShare>, share: SignatureShare)
    returns (r: Result<()>)
    requires Validation(list).Ok?
    requires factors == Factors(suite, pk, list, msg) && points == Points(list)
    ensures r == ShareCheck(suite, pk, list, msg, c, vs, share)
  {
    var key := FindKey(vs, share.id);
    if key.Err? {
      return Err(key.error);
    }
    LookupFactor(suite, pk, list, msg, share.id);
    var rho := GetBindingFactor(factors, share.id);
    if rho.Err? {
      return Err(rho.error);
    }
    var found, commitment := FindCommitment(list, share.id);
    var scalar := IdentifierToScalar(suite, share.id);
    LambdaDerived(list, share.id);
    var lambda := DeriveInterpolatingValue(points, scalar.value);
    var left := ScalarBaseMult(share.share);
    var right := commitment.hiding;
    right := right.Plus(ScalarMult(commitment.binding, rho.value));
    right := right.Plus(ScalarMult(ScalarMult(key.value, c), lambda.value));
    if left != right {
      return Err(Blaming([share.id], InvalidSignatureShare));
    }
    r := Ok(());
  }

  function Checks(suite: Suite, pk: Element, list: seq<Commitment>, msg: Bytes, c: Scalar,
                  vs: seq<VerificationShare>, shares: seq<SignatureShare>): (rs: seq<Result<()>>)
    ensures |rs| == |shares|
    ensures forall i :: 0 <= i < |shares| ==> rs[i] == ShareCheck(suite, pk, list, msg, c, vs, shares[i])
  {
    seq(|shares|, i requires 0 <= i < |shares| => ShareCheck(suite, pk, list, msg, c, vs, shares[i]))
  }

  /** The first failure from position i on. */
  function FirstErrorFrom(rs: seq<Result<()>>, i: nat): Result<()>
    requires i <= |rs|
    decreases |rs| - i
  {
    if i == |rs| then Ok(())
    else if rs[i].Err? then rs[i]
    else FirstErrorFrom(rs, i + 1)
  }

  ghost predicate IsCheck(suite: Suite, pk: Element, list: seq<Commitment>, msg: Bytes, c: Scalar,
                          vs: seq<VerificationShare>, share: SignatureShare, r: Result<()>) {
    r == ShareCheck(suite, pk, list, msg, c, vs, share)
  }

  /** rs are the checks of the shares; the trigger keeps them folded where only their order matters. */
  ghost predicate AreChecks(suite: Suite, pk: Element, list: seq<Commitment>, msg: Bytes, c: Scalar,
                            vs: seq<VerificationShare>, shares: seq<SignatureShare>, rs: seq<Result<()>>) {
    |rs| == |shares| &&
    forall i {:trigger IsCheck(suite, pk, list, msg, c, vs, shares[i], rs[i])} :: 0 <= i < |shares| ==>
      IsCheck(suite, pk, list, msg, c, vs, shares[i], rs[i])
  }

  method CheckShares(suite: Suite, pk: Element, list: seq<Commitment>, msg: Bytes, factors: seq<BindingFactor>,
                     points: seq<Scalar>,
                     c: Scalar, vs: seq<VerificationShare>, shares: seq<SignatureShare>, ghost rs: seq<Result<()>>)
    returns (r: Result<()>)
    requires Validation(list).Ok?
    requires factors == Factors(suite, pk, list, msg) && points == Points(list)
    requires AreChecks(suite, pk, list, msg, c, vs, shares, rs)
    ensures r == FirstErrorFrom(rs, 0)
  {
    for i := 0 to |shares|
      invariant FirstErrorFrom(rs, 0) == FirstErrorFrom(rs, i)
    {
      assert IsCheck(suite, pk, list, msg, c, vs, shares[i], rs[i]);
      r := CheckShare(suite, pk, list, msg, factors, points, c, vs, shares[i]);
      if r.Err? {
        return r;
      }
    }
    r := Ok(());
  }

  /** R and the challenge, once the counts are right. */
  function Opening(suite: Suite, minSigners: nat, pk: Element, list: seq<Commitment>, msg: Bytes,
                   shareCount: nat, keyCount: nat): Result<(Element, Scalar)> {
    var counted := CountCheck(minSigners, list, shareCount);
    if counted.Err? then Err(counted.error)
    else if keyCount == 0 then Err(Plain(InvalidParameters))
    else
      var R := SessionCommitment(suite, pk, list, msg);
      if R.Err? then Err(R.error)
      else
        var c := Challenge(suite, R.value, pk, msg);
        if c.Err? then Err(c.error) else Ok((R.value, c.value))
  }

  /** What a session needs, and which check refuses otherwise. */
  lemma {:induction false} OpeningFault(suite: Suite, minSigners: nat, pk: Element, list: seq<Commitment>, msg: Bytes,
                                        shareCount: nat, keyCount: nat)
    ensures var r := Opening(suite, minSigners, pk, list, msg, shareCount, keyCount);
            var R := Sum(NonceTerms(suite, pk, list, msg));
      && (list == [] || !Ascending(list) ==> Validation(list).Err? && r == Err(Validation(list).error))
      && (list != [] && Ascending(list) ==>
            if shareCount < minSigners then r == Err(Plain(InsufficientParticipants))
            else if keyCount == 0 then r == Err(Plain(InvalidParameters))
            else if !NoIdentities(list) || R == 0 then r.Err? && r.error.kind == IdentityElement
            else
              var c := Challenge(suite, ScalarBaseMult(R), pk, msg);
              if c.Ok? then r == Ok((ScalarBaseMult(R), c.value)) else r == Err(Plain(InvalidChallenge)))
  {
    ValidationExact(list);
    GroupCommitmentExact(suite, pk, list, msg);
  }

  method Open(suite: Suite, minSigners: nat, pk: Element, list: seq<Commitment>, msg: Bytes, shareCount: nat,
              keyCount: nat)
    returns (factors: seq<BindingFactor>, r: Result<(Element, Scalar)>)
    ensures r == Opening(suite, minSigners, pk, list, msg, shareCount, keyCount)
    ensures r.Ok? ==> factors == Factors(suite, pk, list, msg)
  {
    factors := [];
    var valid := ValidateCommitmentList(list);
    if valid.Err? {
      return [], Err(valid.error);
    }
    if shareCount < minSigners {
      return [], Err(Plain(InsufficientParticipants));
    }
    if keyCount == 0 {
      return [], Err(Plain(InvalidParameters));
    }
    var groupCommitment;
    factors, groupCommitment := ComputeSessionCommitment(suite, pk, list, msg);
    if groupCommitment.Err? {
      return factors, Err(groupCommitment.error);
    }
    var challenge := Challenge(suite, groupCommitment.value, pk, msg);
    if challenge.Err? {
      return factors, Err(challenge.error);
    }
    r := Ok((groupCommitment.value, challenge.value));
  }

  function VerifiedResult(suite: Suite, minSigners: nat, pk: Element, list: seq<Commitment>, msg: Bytes,
                          shares: seq<SignatureShare>, vs: seq<VerificationShare>): Result<Signature> {
    var session := Opening(suite, minSigners, pk, list, msg, |shares|, |vs|);
    if session.Err? then Err(session.error)
    else
      var (R, c) := session.value;
      var checked := FirstErrorFrom(Checks(suite, pk, list, msg, c, vs, shares), 0);
      if checked.Err? then Err(checked.error) else Ok(Signature(R, Sum(ShareScalars(shares))))
  }

  method AggregateWithVerification(suite: Suite, minSigners: nat, pk: Element, list: seq<Commitment>, msg: Bytes,
                                   shares: seq<SignatureShare>, vs: seq<VerificationShare>)
    returns (r: Result<Signature>)
    ensures r == VerifiedResult(suite, minSigners, pk, list, msg, shares, vs)
  {
    var factors, session := Open(suite, minSigners, pk, list, msg, |shares|, |vs|);
    if session.Err? {
      return Err(session.error);
    }
    var (R, c) := session.value;
    var points := ParticipantScalars(suite, list);
    var checked := CheckShares(suite, pk, list, msg, factors, points, c, vs, shares,
                               Checks(suite, pk, list, msg, c, vs, shares));
    if checked.Err? {
      return Err(checked.error);
    }
    var z := SumShares(shares);
    r := Ok(Signature(R, z));
  }

  // ---- aggregation that collects every cheater ----

  /** The map built by writing the keys in order: a later entry replaces an earlier one. */
  function KeyMapTo(vs: seq<VerificationShare>, k: nat): map<Identifier, Element>
    requires k <= |vs|
  {
    if k == 0 then map[] else KeyMapTo(vs, k - 1)[vs[k - 1].id := vs[k - 1].key]
  }

  predicate Honest(suite: Suite, pk: Element, list: seq<Commitment>, msg: Bytes, c: Scalar,
                   keys: map<Identifier, Element>, share: SignatureShare) {
    share.id in keys && share.id in ListIds(list) && ValidShare(suite, pk, list, msg, c, share, keys[share.id])
  }

  function Verdicts(suite: Suite, pk: Element, list: seq<Commitment>, msg: Bytes, c: Scalar,
                    keys: map<Identifier, Element>, shares: seq<SignatureShare>): (vs: seq<bool>)
    ensures |vs| == |shares|
    ensures forall i :: 0 <= i < |shares| ==> vs[i] == Honest(suite, pk, list, msg, c, keys, shares[i])
  {
    seq(|shares|, i requires 0 <= i < |shares| => Honest(suite, pk, list, msg, c, keys, shares[i]))
  }

  /** The identifiers with a bad verdict among the first k, in order. */
  function BlamedTo(ids: seq<Identifier>, verdicts: seq<bool>, k: nat): seq<Identifier>
    requires k <= |ids| == |verdicts|
  {
    if k == 0 then []
    else if verdicts[k - 1] then BlamedTo(ids, verdicts, k - 1)
    else BlamedTo(ids, verdicts, k - 1) + [ids[k - 1]]
  }

  /** Everybody with a bad verdict is named, in order and as often: the one at position i after those before it. */
  lemma {:induction false} BlamedExact(ids: seq<Identifier>, verdicts: seq<bool>, k: nat, i: nat)
    requires i <= k <= |ids| == |verdicts|
    ensures |BlamedTo(ids, verdicts, k)| == |set j | 0 <= j < k && !verdicts[j]|
    ensures i < k && !verdicts[i] ==>
      var before := |set j | 0 <= j < i && !verdicts[j]|;
      before < |BlamedTo(ids, verdicts, k)| && BlamedTo(ids, verdicts, k)[before] == ids[i]
  {
    if k > 0 {
      var bad := set j | 0 <= j < k - 1 && !verdicts[j];
      assert (set j | 0 <= j < k && !verdicts[j]) == if verdicts[k - 1] then bad else bad + {k - 1};
      BlamedExact(ids, verdicts, k - 1, if i < k then i else k - 1);
      if i == k - 1 {
        assert bad == set j | 0 <= j < i && !verdicts[j];
      }
    }
  }

  function Culprits(suite: Suite, pk: Element, list: seq<Commitment>, msg: Bytes, c: Scalar,
                    vs: seq<VerificationShare>, shares: seq<SignatureShare>): seq<Identifier> {
    BlamedTo(ShareIds(shares), Verdicts(suite, pk, list, msg, c, KeyMapTo(vs, |vs|), shares), |shares|)
  }

  function AllCheatersResult(suite: Suite, minSigners: nat, pk: Element, list: seq<Commitment>, msg: Bytes,
                             shares: seq<SignatureShare>, vs: seq<VerificationShare>): Result<Signature> {
    var session := Opening(suite, minSigners, pk, list, msg, |shares|, |vs|);
    if session.Err? then Err(session.error)
    else
      var (R, c) := session.value;
      var culprits := Culprits(suite, pk, list, msg, c, vs, shares);
      if culprits != [] then Err(Blaming(culprits, InvalidSignatureShare))
        else Ok(Signature(R, Sum(ShareScalars(shares))))
  }

  method BuildKeyMap(vs: seq<VerificationShare>) returns (keys: map<Identifier, Element>)
    ensures keys == KeyMapTo(vs, |vs|)
  {
    keys := map[];
    for i := 0 to |vs|
      invariant keys == KeyMapTo(vs, i)
    {
      keys := keys[vs[i].id := vs[i].key];
    }
  }

  method BuildCommitmentMap(list: seq<Commitment>) returns (commitments: map<Identifier, Commitment>)
    requires Ascending(list)
    ensures commitments.Keys == set id | id in ListIds(list)
    ensures forall id :: id in ListIds(list) ==> commitments[id] == CommitmentOf(list, id)
  {
    commitments := map[];
    for i := 0 to |list|
      invariant forall id :: id in commitments <==> id in ListIds(list)[..i]
      invariant forall k :: 0 <= k < i ==> list[k].id in commitments && commitments[list[k].id] == list[k]
    {
      commitments := commitments[list[i].id := list[i]];
      assert ListIds(list)[..i + 1] == ListIds(list)[..i] + [list[i].id];
    }
    assert ListIds(list)[..|list|] == ListIds(list);
  }

  /** The map built by writing the factors in order. */
  function FactorMapTo(bfs: seq<BindingFactor>, k: nat): map<Identifier, Scalar>
    requires k <= |bfs|
  {
    if k == 0 then map[] else FactorMapTo(bfs, k - 1)[bfs[k - 1].id := bfs[k - 1].factor]
  }

  method BuildFactorMap(bfs: seq<BindingFactor>) returns (rhos: map<Identifier, Scalar>)
    ensures rhos == FactorMapTo(bfs, |bfs|)
  {
    rhos := map[];
    for i := 0 to |bfs|
      invariant rhos == FactorMapTo(bfs, i)
    {
      rhos := rhos[bfs[i].id := bfs[i].factor];
    }
  }

  lemma {:induction false} FactorMapLookup(bfs: seq<BindingFactor>, k: nat, id: Identifier, f: Scalar)
    requires k <= |bfs|
    requires forall i :: 0 <= i < k && bfs[i].id == id ==> bfs[i].factor == f
    ensures id in FactorMapTo(bfs, k) <==> exists i :: 0 <= i < k && bfs[i].id == id
    ensures id in FactorMapTo(bfs, k) ==> FactorMapTo(bfs, k)[id] == f
  {
    if k > 0 {
      FactorMapLookup(bfs, k - 1, id, f);
    }
  }

  lemma {:induction false} SessionFactorMap(suite: Suite, pk: Element, list: seq<Commitment>, msg: Bytes,
                                            id: Identifier)
    ensures var rhos := FactorMapTo(Factors(suite, pk, list, msg), |list|);
      && (id in rhos <==> id in ListIds(list))
      && (id in rhos ==> rhos[id] == Rho(suite, pk, list, msg, id))
  {
    var bfs := Factors(suite, pk, list, msg);
    FactorMapLookup(bfs, |list|, id, Rho(suite, pk, list, msg, id));
    if id in ListIds(list) {
      var i :| 0 <= i < |list| && ListIds(list)[i] == id;
      assert bfs[i].id == id;
    }
  }

  /** What the collecting strategy looks up: the points, the commitments and the binding factors. */
  datatype Lookups = Lookups(points: seq<Scalar>, commitments: map<Identifier, Commitment>,
                             rhos: map<Identifier, Scalar>)

  ghost predicate IsLookups(suite: Suite, pk: Element, list: seq<Commitment>, msg: Bytes, l: Lookups) {
    && l.points == Points(list)
    && l.commitments.Keys == (set id | id in ListIds(list))
    && (forall id :: id in ListIds(list) ==> l.commitments[id] == CommitmentOf(list, id))
    && l.rhos == FactorMapTo(Factors(suite, pk, list, msg), |list|)
  }

  /** The same, folded: it is opened where a share is judged. */
  ghost predicate Serves(suite: Suite, pk: Element, list: seq<Commitment>, msg: Bytes, lookups: Lookups) {
    forall l {:trigger IsLookups(suite, pk, list, msg, l)} :: l == lookups ==> IsLookups(suite, pk, list, msg, l)
  }

  /** The body of the collecting loop: is this share to be kept? */
  method JudgeShare(suite: Suite, ghost pk: Element, ghost list: seq<Commitment>, ghost msg: Bytes, lookups: Lookups,
                    c: Scalar, keys: map<Identifier, Element>,
                    shares: seq<SignatureShare>, ghost verdicts: seq<bool>, i: nat)
    returns (honest: bool)
    requires i < |shares| && AreVerdicts(suite, pk, list, msg, c, keys, shares, verdicts)
    requires Validation(list).Ok? && Serves(suite, pk, list, msg, lookups)
    ensures honest == verdicts[i]
  {
    var share := shares[i];
    assert IsVerdict(suite, pk, list, msg, c, keys, share, verdicts[i]);
    assert IsLookups(suite, pk, list, msg, lookups);
    var Lookups(points, commitments, rhos) := lookups;
    SessionFactorMap(suite, pk, list, msg, share.id);
    LambdaDerived(list, share.id);
    if share.id !in keys {
      return false;
    }
    if share.id !in rhos {
      return false;
    }
    if share.id !in commitments {
      return false;
    }
    var scalar := IdentifierToScalar(suite, share.id);
    var lambda := DeriveInterpolatingValue(points, scalar.value);
    var left := ScalarBaseMult(share.share);
    var right := commitments[share.id].hiding;
    right := right.Plus(ScalarMult(commitments[share.id].binding, rhos[share.id]));
    right := right.Plus(ScalarMult(ScalarMult(keys[share.id], c), lambda.value));
    honest := left == right;
  }

  ghost predicate IsVerdict(suite: Suite, pk: Element, list: seq<Commitment>, msg: Bytes, c: Scalar,
                            keys: map<Identifier, Element>, share: SignatureShare, verdict: bool) {
    verdict == Honest(suite, pk, list, msg, c, keys, share)
  }

  ghost predicate AreVerdicts(suite: Suite, pk: Element, list: seq<Commitment>, msg: Bytes, c: Scalar,
                              keys: map<Identifier, Element>, shares: seq<SignatureShare>, verdicts: seq<bool>) {
    |verdicts| == |shares| &&
    forall i {:trigger IsVerdict(suite, pk, list, msg, c, keys, shares[i], verdicts[i])} :: 0 <= i < |shares| ==>
      IsVerdict(suite, pk, list, msg, c, keys, shares[i], verdicts[i])
  }

  method CollectCulprits(suite: Suite, ghost pk: Element, ghost list: seq<Commitment>, ghost msg: Bytes,
                         lookups: Lookups,
                         c: Scalar, keys: map<Identifier, Element>,
                         shares: seq<SignatureShare>, ghost verdicts: seq<bool>)
    returns (culprits: seq<Identifier>)
    requires Validation(list).Ok? && Serves(suite, pk, list, msg, lookups)
    requires AreVerdicts(suite, pk, list, msg, c, keys, shares, verdicts)
    ensures culprits == BlamedTo(ShareIds(shares), verdicts, |shares|)
  {
    culprits := [];
    for i := 0 to |shares|
      invariant culprits == BlamedTo(ShareIds(shares), verdicts, i)
    {
      var honest := JudgeShare(suite, pk, list, msg, lookups, c, keys, shares, verdicts, i);
      if !honest {
        culprits := culprits + [shares[i].id];
      }
    }
  }

  method AggregateWithAllCheaterDetection(suite: Suite, minSigners: nat, pk: Element, list: seq<Commitment>, msg: Bytes,
                                          shares: seq<SignatureShare>, vs: seq<VerificationShare>)
    returns (r: Result<Signature>)
    ensures r == AllCheatersResult(suite, minSigners, pk, list, msg, shares, vs)
  {
    var factors, session := Open(suite, minSigners, pk, list, msg, |shares|, |vs|);
    if session.Err? {
      return Err(session.error);
    }
    var (R, c) := session.value;
    ValidationExact(list);
    var points := ParticipantScalars(suite, list);
    var keys := BuildKeyMap(vs);
    var commitments := BuildCommitmentMap(list);
    var rhos := BuildFactorMap(factors);
    var lookups := Lookups(points, commitments, rhos);
    assert IsLookups(suite, pk, list, msg, lookups);
    var culprits := CollectCulprits(suite, pk, list, msg, lookups, c, keys, shares,
                                    Verdicts(suite, pk, list, msg, c, keys, shares));
    if |culprits| > 0 {
      return Err(Blaming(culprits, InvalidSignatureShare));
    }
    var z := SumShares(shares);
    r := Ok(Signature(R, z));
  }

  function StrategyResult(suite: Suite, minSigners: nat, pk: Element, list: seq<Commitment>, msg: Bytes,
                          shares: seq<SignatureShare>, vs: seq<VerificationShare>,
                          strategy: Strategy): Result<Signature> {
    match strategy
    case Disabled => AggregateResult(suite, minSigners, pk, list, msg, shares)
    case FirstCheater => VerifiedResult(suite, minSigners, pk, list, msg, shares, vs)
    case AllCheaters => AllCheatersResult(suite, minSigners, pk, list, msg, shares, vs)
    case Unknown => Err(Plain(InvalidParameters))
  }

  method AggregateWithStrategy(suite: Suite, minSigners: nat, pk: Element, list: seq<Commitment>, msg: Bytes,
                               shares: seq<SignatureShare>, vs: seq<VerificationShare>, strategy: Strategy)
    returns (r: Result<Signature>)
    ensures r == StrategyResult(suite, minSigners, pk, list, msg, shares, vs, strategy)
    ensures strategy == Disabled ==> r == AggregateResult(suite, minSigners, pk, list, msg, shares)
    ensures strategy == FirstCheater ==> r == VerifiedResult(suite, minSigners, pk, list, msg, shares, vs)
    ensures strategy == AllCheaters ==> r == AllCheatersResult(suite, minSigners, pk, list, msg, shares, vs)
    ensures strategy == Unknown ==> r == Err(Plain(InvalidParameters))
  {
    match strategy {
      case Disabled => r := Aggregate(suite, minSigners, pk, list, msg, shares);
      case FirstCheater => r := AggregateWithVerification(suite, minSigners, pk, list, msg, shares, vs);
      case AllCheaters => r := AggregateWithAllCheaterDetection(suite, minSigners, pk, list, msg, shares, vs);
      case Unknown => r := Err(Plain(InvalidParameters));
    }
  }

  // ---- verification ----

  /** z*G == R + c*PK */
  predicate SchnorrEquation(sig: Signature, pk: Element, c: Scalar) {
    ScalarBaseMult(sig.z) == sig.R.Plus(ScalarMult(pk, c))
  }

  function Verify(suite: Suite, msg: Bytes, sig: Signature, pk: Element): Result<()> {
    if sig.R.IsIdentity() then Err(Plain(IdentityElement))
    else if pk.IsIdentity() then Err(Plain(IdentityElement))
    else
      var c := Challenge(suite, sig.R, pk, msg);
      if c.Err? then Err(c.error)
      else if SchnorrEquation(sig, pk, c.value) then Ok(())
      else Err(Plain(InvalidSignature))
  }
}
