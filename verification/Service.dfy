/** The service: signing in one call, and the check of a key share. */
module Service {
  import opened PrimeField
  import opened Group
  import opened Types
  import opened Sums
  import opened Polynomial
  import opened Encoding
  import opened Transcript
  import opened Participant
  import opened Aggregator
  import opened Ordering
  import opened SigningTheorems
  import opened Vss
  import Dealer
  import Coordinator

  // ---- validation ----

  function PackageIds(kps: seq<KeyPackage>): (ids: seq<Identifier>)
    ensures |ids| == |kps| && forall i :: 0 <= i < |kps| ==> ids[i] == kps[i].id
  {
    Mapped((kp: KeyPackage) => kp.id, kps)
  }

  function PackagesFrom(kps: seq<KeyPackage>, i: nat): Result<()>
    requires 1 <= i <= |kps|
    decreases |kps| - i
  {
    if i == |kps| then Ok(())
    else if kps[i].groupPublicKey != kps[0].groupPublicKey then Err(Blaming([kps[i].id], InvalidKeyShare))
    else if kps[i].id in PackageIds(kps)[..i] then Err(Blaming([kps[i].id], DuplicateParticipant))
    else PackagesFrom(kps, i + 1)
  }

  function PackagesResult(kps: seq<KeyPackage>): Result<()> {
    if |kps| == 0 then Err(Plain(InsufficientParticipants)) else PackagesFrom(kps, 1)
  }

  /** The package at fault has another public key or the identifier of one before it; those before it are in order. */
  lemma {:induction false} PackagesFault(kps: seq<KeyPackage>, i: nat)
    requires 1 <= i <= |kps| && Distinct(PackageIds(kps)[..i]) && OneKey(kps[..i])
    requires PackagesFrom(kps, i).Err?
    ensures exists k :: i <= k < |kps| && Distinct(PackageIds(kps)[..k])
                        && (forall j :: 0 <= j < k ==> kps[j].groupPublicKey == kps[0].groupPublicKey)
                        && if kps[k].groupPublicKey != kps[0].groupPublicKey
                           then PackagesFrom(kps, i) == Err(Blaming([kps[k].id], InvalidKeyShare))
                           else kps[k].id in PackageIds(kps)[..k]
                                && PackagesFrom(kps, i) == Err(Blaming([kps[k].id], DuplicateParticipant))
    decreases |kps| - i
  {
    var ids := PackageIds(kps);
    assert forall j :: 0 <= j < i ==> kps[..i][j] == kps[j];
    if kps[i].groupPublicKey == kps[0].groupPublicKey && kps[i].id !in ids[..i] {
      assert ids[..i + 1] == ids[..i] + [ids[i]];
      assert kps[..i + 1] == kps[..i] + [kps[i]];
      PackagesFault(kps, i + 1);
    }
  }

  method ValidateKeyPackages(kps: seq<KeyPackage>) returns (r: Result<()>)
    ensures r == PackagesResult(kps)
  {
    if |kps| == 0 {
      return Err(Plain(InsufficientParticipants));
    }
    for i := 1 to |kps|
      invariant PackagesResult(kps) == PackagesFrom(kps, i)
    {
      if kps[i].groupPublicKey != kps[0].groupPublicKey {
        return Err(Blaming([kps[i].id], InvalidKeyShare));
      }
      for j := 0 to i
        invariant kps[i].id !in PackageIds(kps)[..j]
      {
        if kps[j].id == kps[i].id {
          assert PackageIds(kps)[..i][j] == kps[i].id;
          return Err(Blaming([kps[i].id], DuplicateParticipant));
        }
        assert PackageIds(kps)[..j + 1] == PackageIds(kps)[..j] + [kps[j].id];
      }
    }
    r := Ok(());
  }

  ghost predicate OneKey(kps: seq<KeyPackage>) {
    forall i :: 0 <= i < |kps| ==> kps[i].groupPublicKey == kps[0].groupPublicKey
  }

  lemma {:induction false} PackagesFromExact(kps: seq<KeyPackage>, i: nat)
    requires 1 <= i <= |kps| && Distinct(PackageIds(kps)[..i]) && OneKey(kps[..i])
    ensures PackagesFrom(kps, i).Ok? <==> OneKey(kps) && Distinct(PackageIds(kps))
    decreases |kps| - i
  {
    var ids := PackageIds(kps);
    if i == |kps| {
      assert ids[..i] == ids && kps[..i] == kps;
    } else if kps[i].groupPublicKey == kps[0].groupPublicKey {
      if kps[i].id in ids[..i] {
        var j :| 0 <= j < i && ids[..i][j] == ids[i];
        assert ids[j] == ids[i];
      } else {
        assert ids[..i + 1] == ids[..i] + [ids[i]];
        assert kps[..i + 1] == kps[..i] + [kps[i]];
        PackagesFromExact(kps, i + 1);
      }
    }
  }

  // ---- signing ----

  /** The first package whose signer drew a zero nonce, from position i on, or the end. */
  function FirstZeroDraw(draws: seq<Nonces>, i: nat): (k: nat)
    requires i <= |draws|
    ensures i <= k <= |draws|
    ensures k < |draws| ==> draws[k].hiding == 0 || draws[k].binding == 0
    ensures forall j :: i <= j < k ==> draws[j].hiding != 0 && draws[j].binding != 0
    decreases |draws| - i
  {
    if i == |draws| || draws[i].hiding == 0 || draws[i].binding == 0 then i else FirstZeroDraw(draws, i + 1)
  }

  function CommitmentsOf(kps: seq<KeyPackage>, draws: seq<Nonces>): (cs: seq<Commitment>)
    requires |kps| == |draws|
    ensures |cs| == |kps| && forall i :: 0 <= i < |kps| ==> Commits(cs[i], kps[i].id, draws[i])
  {
    seq(|kps|, i requires 0 <= i < |kps| =>
      Commitment(kps[i].id, ScalarBaseMult(draws[i].hiding), ScalarBaseMult(draws[i].binding)))
  }

  /** The signers' answers, each failure naming its signer. */
  function Answers(suite: Suite, kps: seq<KeyPackage>, draws: seq<Nonces>, msg: Bytes,
                   list: seq<Commitment>): (rs: seq<Result<SignatureShare>>)
    requires |kps| == |draws|
    ensures |rs| == |kps|
    ensures AreAnswers(suite, kps, draws, msg, list, rs)
  {
    seq(|kps|, i requires 0 <= i < |kps| =>
      var r := RoundTwoResult(suite, kps[i], draws[i], msg, list);
      if r.Err? then Err(Blaming([kps[i].id], r.error.kind)) else r)
  }

  /** The trigger keeps the answers folded where only their order matters. */
  ghost predicate AreAnswers(suite: Suite, kps: seq<KeyPackage>, draws: seq<Nonces>, msg: Bytes, list: seq<Commitment>,
                             rs: seq<Result<SignatureShare>>)
    requires |kps| == |draws|
  {
    |rs| == |kps| &&
    forall i {:trigger IsAnswer(suite, kps[i], draws[i], msg, list, rs[i])} :: 0 <= i < |kps| ==>
      IsAnswer(suite, kps[i], draws[i], msg, list, rs[i])
  }

  predicate IsAnswer(suite: Suite, kp: KeyPackage, draw: Nonces, msg: Bytes, list: seq<Commitment>,
                     answer: Result<SignatureShare>) {
    var r := RoundTwoResult(suite, kp, draw, msg, list);
    answer == if r.Err? then Err(Blaming([kp.id], r.error.kind)) else r
  }

  /** The number of signers demanded: that of the first package's verification shares, whatever these stand for. */
  function Threshold(kps: seq<KeyPackage>): nat
    requires kps != []
  {
    if |kps[0].verificationShares| > 0 then |kps[0].verificationShares| else |kps|
  }

  function SessionResult(suite: Suite, kps: seq<KeyPackage>, draws: seq<Nonces>, msg: Bytes,
                         list: seq<Commitment>): Result<Signature>
    requires kps != [] && |kps| == |draws|
  {
    var shares := Coordinator.AllOrFirst(Answers(suite, kps, draws, msg, list));
    if shares.Err? then Err(shares.error)
    else AggregateResult(suite, Threshold(kps), kps[0].groupPublicKey, list, msg, shares.value)
  }

  /** What is checked before the rounds begin. */
  function Preliminary(kps: seq<KeyPackage>, draws: seq<Nonces>): Result<()>
    requires |kps| == |draws|
  {
    var valid := PackagesResult(kps);
    if valid.Err? then valid
    else if |kps| < 2 then Err(Plain(InsufficientParticipants))
    else
      var k := FirstZeroDraw(draws, 0);
      if k < |draws| then Err(Blaming([kps[k].id], InvalidNonce)) else Ok(())
  }

  method RunRoundOne(kps: seq<KeyPackage>, draws: seq<Nonces>)
    returns (r: Result<()>, noncesMap: map<Identifier, Nonces>, commitments: seq<Commitment>)
    requires |kps| == |draws| && Distinct(PackageIds(kps))
    ensures var k := FirstZeroDraw(draws, 0);
            r == if k < |draws| then Err(Blaming([kps[k].id], InvalidNonce)) else Ok(())
    ensures r.Ok? ==> commitments == CommitmentsOf(kps, draws)
    ensures r.Ok? ==> forall i :: 0 <= i < |kps| ==> kps[i].id in noncesMap && noncesMap[kps[i].id] == draws[i]
  {
    noncesMap, commitments := map[], [];
    for i := 0 to |kps|
      invariant FirstZeroDraw(draws, 0) == FirstZeroDraw(draws, i)
      invariant |commitments| == i
      invariant forall k :: 0 <= k < i ==> Commits(commitments[k], kps[k].id, draws[k])
      invariant forall k :: 0 <= k < i ==> kps[k].id in noncesMap && noncesMap[kps[k].id] == draws[k]
    {
      var one := RoundOne(kps[i].id, draws[i].hiding, draws[i].binding);
      if one.Err? {
        return Err(Blaming([kps[i].id], one.error.kind)), noncesMap, commitments;
      }
      assert forall k :: 0 <= k < i ==> PackageIds(kps)[k] != PackageIds(kps)[i];
      noncesMap := noncesMap[kps[i].id := one.value.0];
      commitments := commitments + [one.value.1];
    }
    r := Ok(());
  }

  method AskOne(suite: Suite, kps: seq<KeyPackage>, ghost draws: seq<Nonces>, noncesMap: map<Identifier, Nonces>,
                msg: Bytes,
                list: seq<Commitment>, ghost rs: seq<Result<SignatureShare>>, i: nat)
    returns (r: Result<SignatureShare>)
    requires i < |kps| == |draws| && AreAnswers(suite, kps, draws, msg, list, rs)
    requires kps[i].id in noncesMap && noncesMap[kps[i].id] == draws[i]
    ensures r == rs[i]
  {
    assert IsAnswer(suite, kps[i], draws[i], msg, list, rs[i]);
    r := RoundTwo(suite, kps[i], noncesMap[kps[i].id], msg, list);
    if r.Err? {
      r := Err(Blaming([kps[i].id], r.error.kind));
    }
  }

  method RunRoundTwo(suite: Suite, kps: seq<KeyPackage>, ghost draws: seq<Nonces>, noncesMap: map<Identifier, Nonces>,
                     msg: Bytes,
                     list: seq<Commitment>, ghost rs: seq<Result<SignatureShare>>)
    returns (r: Result<seq<SignatureShare>>)
    requires |kps| == |draws|
    requires forall i :: 0 <= i < |kps| ==> kps[i].id in noncesMap && noncesMap[kps[i].id] == draws[i]
    requires AreAnswers(suite, kps, draws, msg, list, rs)
    ensures r == Coordinator.AllOrFirst(rs)
  {
    var shares: seq<SignatureShare> := [];
    for i := 0 to |kps|
      invariant Coordinator.FirstRefusal(rs, 0) == Coordinator.FirstRefusal(rs, i)
      invariant |shares| == i
      invariant forall k :: 0 <= k < i ==> rs[k] == Ok(shares[k])
    {
      var share := AskOne(suite, kps, draws, noncesMap, msg, list, rs, i);
      if share.Err? {
        Coordinator.RefusedAt(rs, i);
        return Err(share.error);
      }
      shares := shares + [share.value];
    }
    Coordinator.AllAnswered(rs, shares);
    r := Ok(shares);
  }

  /** `draws` are the nonces that the signers draw, in turn. */
  method Sign(suite: Suite, kps: seq<KeyPackage>, draws: seq<Nonces>, msg: Bytes) returns (r: Result<Signature>)
    requires |kps| == |draws|
    ensures Preliminary(kps, draws).Err? ==> r == Err(Preliminary(kps, draws).error)
    ensures Preliminary(kps, draws).Ok? ==>
      exists list :: Canonical(CommitmentsOf(kps, draws), list) && r == SessionResult(suite, kps, draws, msg, list)
  {
    var valid := ValidateKeyPackages(kps);
    if valid.Err? {
      return Err(valid.error);
    }
    if |kps| < 2 {
      return Err(Plain(InsufficientParticipants));
    }
    assert PackageIds(kps)[..1] == [kps[0].id] && kps[..1] == [kps[0]];
    PackagesFromExact(kps, 1);
    var minSigners := |kps|;
    if |kps[0].verificationShares| > 0 {
      minSigners := |kps[0].verificationShares|;
    }
    var one, noncesMap, commitments := RunRoundOne(kps, draws);
    if one.Err? {
      return Err(one.error);
    }
    var list := SortById(commitments);
    IsCanonical(kps, draws, list);
    var shares := RunRoundTwo(suite, kps, draws, noncesMap, msg, list, Answers(suite, kps, draws, msg, list));
    if shares.Err? {
      return Err(shares.error);
    }
    r := Aggregate(suite, minSigners, kps[0].groupPublicKey, list, msg, shares.value);
  }

  lemma {:induction false} IsCanonical(kps: seq<KeyPackage>, draws: seq<Nonces>, list: seq<Commitment>)
    requires |kps| == |draws| && Distinct(PackageIds(kps))
    requires Sorted(list) && multiset(list) == multiset(CommitmentsOf(kps, draws))
    ensures Canonical(CommitmentsOf(kps, draws), list)
  {
    var cs := CommitmentsOf(kps, draws);
    assert forall i :: 0 <= i < |kps| ==> cs[i].id == PackageIds(kps)[i];
    DistinctPermuted(cs, list);
    SortedDistinctIsAscending(list);
  }

  // ---- when signing succeeds, and what it produces ----

  /** The packages of one signing, the nonces drawn, and the sorted list of the commitments to them. */
  ghost predicate Session(kps: seq<KeyPackage>, draws: seq<Nonces>, list: seq<Commitment>) {
    && |kps| == |draws| && Preliminary(kps, draws).Ok?
    && Canonical(CommitmentsOf(kps, draws), list)
  }

  /** Signing begins exactly with two packages or more, of one public key and distinct identifiers, and without a zero
      nonce. */
  lemma {:induction false} PreliminaryExact(kps: seq<KeyPackage>, draws: seq<Nonces>)
    requires |kps| == |draws|
    ensures Preliminary(kps, draws).Ok? <==>
      && |kps| >= 2 && Distinct(PackageIds(kps))
      && (forall i :: 0 <= i < |kps| ==> kps[i].groupPublicKey == kps[0].groupPublicKey)
      && (forall i :: 0 <= i < |draws| ==> draws[i].hiding != 0 && draws[i].binding != 0)
    ensures |kps| == 0 ==> Preliminary(kps, draws) == Err(Plain(InsufficientParticipants))
    ensures |kps| == 1 ==> Preliminary(kps, draws) == Err(Plain(InsufficientParticipants))
    ensures |kps| >= 2 && PackagesFrom(kps, 1).Err? ==> Preliminary(kps, draws) == PackagesFrom(kps, 1)
    ensures |kps| >= 2 && PackagesFrom(kps, 1).Ok? && Preliminary(kps, draws).Err? ==>
      exists k :: 0 <= k < |kps| && (draws[k].hiding == 0 || draws[k].binding == 0)
                  && (forall j :: 0 <= j < k ==> draws[j].hiding != 0 && draws[j].binding != 0)
                  && Preliminary(kps, draws) == Err(Blaming([kps[k].id], InvalidNonce))
  {
    if |kps| > 0 {
      assert PackageIds(kps)[..1] == [kps[0].id] && kps[..1] == [kps[0]];
      PackagesFromExact(kps, 1);
    }
  }

  lemma {:induction false} PreliminaryFacts(kps: seq<KeyPackage>, draws: seq<Nonces>)
    requires |kps| == |draws| && Preliminary(kps, draws).Ok?
    ensures |kps| >= 2 && OneKey(kps) && Distinct(PackageIds(kps))
    ensures forall i :: 0 <= i < |draws| ==> draws[i].hiding != 0 && draws[i].binding != 0
  {
    assert PackageIds(kps)[..1] == [kps[0].id] && kps[..1] == [kps[0]];
    PackagesFromExact(kps, 1);
  }

  lemma {:induction false} SessionEntry(kps: seq<KeyPackage>, draws: seq<Nonces>, list: seq<Commitment>, i: nat)
    requires Session(kps, draws, list) && i < |kps|
    ensures kps[i].id in ListIds(list) && Commits(CommitmentOf(list, kps[i].id), kps[i].id, draws[i])
  {
    var cs := CommitmentsOf(kps, draws);
    assert cs[i] in multiset(cs);
    assert cs[i] in multiset(list);
    var j :| 0 <= j < |list| && list[j] == cs[i];
    PositionInList(list, j);
  }

  lemma {:induction false} SessionList(kps: seq<KeyPackage>, draws: seq<Nonces>, list: seq<Commitment>)
    requires Session(kps, draws, list)
    ensures |list| == |kps| && Validation(list).Ok? && NoIdentities(list)
    ensures forall id :: id in ListIds(list) ==> id in PackageIds(kps)
  {
    var cs := CommitmentsOf(kps, draws);
    PreliminaryFacts(kps, draws);
    ValidationExact(list);
    assert |list| == |multiset(list)| == |multiset(cs)| == |cs|;
    forall j | 0 <= j < |list|
      ensures !list[j].hiding.IsIdentity() && !list[j].binding.IsIdentity() && list[j].id in PackageIds(kps)
    {
      assert list[j] in multiset(list);
      assert list[j] in multiset(cs);
      var i :| 0 <= i < |cs| && cs[i] == list[j];
      assert PackageIds(kps)[i] == list[j].id;
    }
  }

  /** The group commitment of the session. */
  function SessionR(suite: Suite, kps: seq<KeyPackage>, msg: Bytes, list: seq<Commitment>): Element
    requires kps != []
  {
    ScalarBaseMult(Sum(NonceTerms(suite, kps[0].groupPublicKey, list, msg)))
  }

  lemma {:induction false} AnswerExact(suite: Suite, kps: seq<KeyPackage>, draws: seq<Nonces>, msg: Bytes,
                                       list: seq<Commitment>, i: nat)
    requires Session(kps, draws, list) && i < |kps|
    ensures RoundTwoResult(suite, kps[i], draws[i], msg, list).Ok? <==>
            kps[i].minSigners <= |kps|
              && Challenge(suite, SessionR(suite, kps, msg, list), kps[0].groupPublicKey, msg).Ok?
  {
    PreliminaryFacts(kps, draws);
    SessionList(kps, draws, list);
    SessionEntry(kps, draws, list, i);
    RoundTwoExact(suite, kps[i], draws[i], msg, list);
  }

  /** Signing succeeds exactly when there are as many packages as each package asks for, and as the first package has
      verification shares, and R is not the identity and the challenge not zero. */
  lemma {:induction false} SigningExact(suite: Suite, kps: seq<KeyPackage>, draws: seq<Nonces>, msg: Bytes,
                                        list: seq<Commitment>)
    requires Session(kps, draws, list)
    ensures SessionResult(suite, kps, draws, msg, list).Ok? <==>
      && Threshold(kps) <= |kps|
      && (forall i :: 0 <= i < |kps| ==> kps[i].minSigners <= |kps|)
      && !SessionR(suite, kps, msg, list).IsIdentity()
      && Challenge(suite, SessionR(suite, kps, msg, list), kps[0].groupPublicKey, msg).Ok?
  {
    var rs := Answers(suite, kps, draws, msg, list);
    Coordinator.AllOrFirstExact(rs);
    SessionList(kps, draws, list);
    GroupCommitmentExact(suite, kps[0].groupPublicKey, list, msg);
    forall i | 0 <= i < |kps|
      ensures rs[i].Ok? <==>
        && kps[i].minSigners <= |kps|
        && Challenge(suite, SessionR(suite, kps, msg, list), kps[0].groupPublicKey, msg).Ok?
    {
      AnswerExact(suite, kps, draws, msg, list, i);
      assert IsAnswer(suite, kps[i], draws[i], msg, list, rs[i]);
    }
  }

  /** The packages hold shares of p. */
  ghost predicate SharesOf(kps: seq<KeyPackage>, p: Poly) {
    forall i :: 0 <= i < |kps| ==> kps[i].secretShare == Eval(p, kps[i].id)
  }

  lemma {:induction false} SignerAnswers(suite: Suite, kps: seq<KeyPackage>, draws: seq<Nonces>, msg: Bytes,
                                         list: seq<Commitment>, p: Poly, i: nat)
    requires Session(kps, draws, list) && SharesOf(kps, p) && i < |kps|
    requires Answers(suite, kps, draws, msg, list)[i].Ok?
    ensures SignerOf(kps[0].groupPublicKey, list, p, kps[i], draws[i])
    ensures RoundTwoResult(suite, kps[i], draws[i], msg, list) == Answers(suite, kps, draws, msg, list)[i]
    ensures Answers(suite, kps, draws, msg, list)[i].value.id == kps[i].id && kps[i].id in ListIds(list)
  {
    PreliminaryFacts(kps, draws);
    assert IsAnswer(suite, kps[i], draws[i], msg, list, Answers(suite, kps, draws, msg, list)[i]);
    SessionEntry(kps, draws, list, i);
  }

  lemma {:induction false} SignersAnswer(suite: Suite, kps: seq<KeyPackage>, draws: seq<Nonces>, msg: Bytes,
                                         list: seq<Commitment>, p: Poly,
                                         shares: seq<SignatureShare>)
    requires Session(kps, draws, list) && SharesOf(kps, p)
    requires Coordinator.AllOrFirst(Answers(suite, kps, draws, msg, list)) == Ok(shares)
    ensures |shares| == |kps| && ShareIds(shares) == PackageIds(kps)
    ensures forall i :: 0 <= i < |kps| ==>
      SignerOf(kps[0].groupPublicKey, list, p, kps[i], draws[i])
        && RoundTwoResult(suite, kps[i], draws[i], msg, list) == Ok(shares[i])
  {
    Coordinator.AllOrFirstExact(Answers(suite, kps, draws, msg, list));
    forall i | 0 <= i < |kps|
      ensures SignerOf(kps[0].groupPublicKey, list, p, kps[i], draws[i])
      ensures RoundTwoResult(suite, kps[i], draws[i], msg, list) == Ok(shares[i]) && shares[i].id == kps[i].id
    {
      SignerAnswers(suite, kps, draws, msg, list, p, i);
    }
  }

  lemma {:induction false} SignersOfSession(kps: seq<KeyPackage>, draws: seq<Nonces>, list: seq<Commitment>,
                                            shares: seq<SignatureShare>)
    requires Session(kps, draws, list) && ShareIds(shares) == PackageIds(kps)
    ensures SameSigners(list, shares)
  {
    PreliminaryFacts(kps, draws);
    SessionList(kps, draws, list);
    forall i | 0 <= i < |kps|
      ensures kps[i].id in ListIds(list)
    {
      SessionEntry(kps, draws, list, i);
    }
  }

  /** Packages of one polynomial: whatever signing produces verifies under their public key. */
  lemma {:induction false} ServiceSigningIsCorrect(suite: Suite, kps: seq<KeyPackage>, draws: seq<Nonces>, msg: Bytes,
                                                   list: seq<Commitment>, p: Poly)
    requires Session(kps, draws, list) && SessionResult(suite, kps, draws, msg, list).Ok?
    requires 0 < |p| <= |kps| && SharesOf(kps, p)
    requires kps[0].groupPublicKey == ScalarBaseMult(p[0]) && !kps[0].groupPublicKey.IsIdentity()
    ensures Verify(suite, msg, SessionResult(suite, kps, draws, msg, list).value, kps[0].groupPublicKey) == Ok(())
  {
    var shares := Coordinator.AllOrFirst(Answers(suite, kps, draws, msg, list)).value;
    SignersAnswer(suite, kps, draws, msg, list, p, shares);
    SignersOfSession(kps, draws, list, shares);
    SessionList(kps, draws, list);
    ThresholdSigningIsCorrect(suite, Threshold(kps), kps[0].groupPublicKey, list, msg, p, kps, draws, shares);
  }

  /** Otherwise the first signer that refuses is the one named. */
  lemma {:induction false} SigningRefused(suite: Suite, kps: seq<KeyPackage>, draws: seq<Nonces>, msg: Bytes,
                                          list: seq<Commitment>, i: nat)
    requires Session(kps, draws, list) && i < |kps|
    requires Challenge(suite, SessionR(suite, kps, msg, list), kps[0].groupPublicKey, msg).Err?
             || kps[i].minSigners > |kps|
    requires Challenge(suite, SessionR(suite, kps, msg, list), kps[0].groupPublicKey, msg).Ok? || i == 0
    requires forall j :: 0 <= j < i ==> kps[j].minSigners <= |kps|
    ensures var r := SessionResult(suite, kps, draws, msg, list);
      r.Err? && GetCulprits(r.error) == [kps[i].id]
  {
    var rs := Answers(suite, kps, draws, msg, list);
    Coordinator.AllOrFirstExact(rs);
    forall j | 0 <= j <= i
      ensures rs[j].Ok? <==> j < i
      ensures rs[j].Err? ==> GetCulprits(rs[j].error) == [kps[j].id]
    {
      AnswerExact(suite, kps, draws, msg, list, j);
      assert IsAnswer(suite, kps[j], draws[j], msg, list, rs[j]);
    }
  }

  /** Packages dealt to n participants with threshold t. `keys` are the t coefficient commitments of GenerateShares, or
      the n participants' keys that TrustedDealerKeygen puts in their place. */
  ghost predicate DealtTo(kps: seq<KeyPackage>, p: Poly, keys: seq<VerificationShare>, n: nat) {
    |p| > 0 && forall i :: 0 <= i < |kps| ==> kps[i] == Dealer.PackageOf(p, kps[i].id, keys, n)
  }

  /** The service demands one signer for every verification share. With the coefficient commitments that is the
      threshold; with the participants' keys any set smaller than all of them is refused, threshold or not. */
  lemma {:induction false} DealtPackagesExact(suite: Suite, kps: seq<KeyPackage>, draws: seq<Nonces>, msg: Bytes,
                                              list: seq<Commitment>,
                                              p: Poly, keys: seq<VerificationShare>, n: nat)
    requires Session(kps, draws, list) && DealtTo(kps, p, keys, n) && |p| <= |keys|
    ensures SessionResult(suite, kps, draws, msg, list).Ok? <==>
      && |keys| <= |kps|
      && !SessionR(suite, kps, msg, list).IsIdentity()
      && Challenge(suite, SessionR(suite, kps, msg, list), kps[0].groupPublicKey, msg).Ok?
  {
    PreliminaryFacts(kps, draws);
    SigningExact(suite, kps, draws, msg, list);
  }

  /** When every signer answers but there are more verification shares than signers, that is what is refused. */
  lemma {:induction false} TooFewForKeys(suite: Suite, kps: seq<KeyPackage>, draws: seq<Nonces>, msg: Bytes,
                                         list: seq<Commitment>)
    requires Session(kps, draws, list) && Threshold(kps) > |kps|
    requires forall i :: 0 <= i < |kps| ==> kps[i].minSigners <= |kps|
    requires Challenge(suite, SessionR(suite, kps, msg, list), kps[0].groupPublicKey, msg).Ok?
    ensures SessionResult(suite, kps, draws, msg, list) == Err(Plain(InsufficientParticipants))
  {
    var rs := Answers(suite, kps, draws, msg, list);
    Coordinator.AllOrFirstExact(rs);
    SessionList(kps, draws, list);
    forall i | 0 <= i < |kps|
      ensures rs[i].Ok?
    {
      AnswerExact(suite, kps, draws, msg, list, i);
      assert IsAnswer(suite, kps[i], draws[i], msg, list, rs[i]);
    }
  }

  /** Of what trusted-dealer key generation returns, for whatever threshold, only all packages together can sign. */
  lemma {:induction false} KeygenPackagesNeedAll(suite: Suite, kps: seq<KeyPackage>, draws: seq<Nonces>, msg: Bytes,
                                                 list: seq<Commitment>,
                                                 p: Poly, n: nat, ids: seq<Identifier>, packages: seq<KeyPackage>,
                                                 public: Dealer.PublicKeyPackage)
    requires 0 < |p| <= |ids| && Dealer.KeygenOutcome(p, n, ids, packages, public)
    requires Session(kps, draws, list) && forall kp :: kp in kps ==> kp in packages
    ensures SessionResult(suite, kps, draws, msg, list).Ok? ==> |kps| >= |ids|
    ensures
      && |p| <= |kps| < |ids|
      && Challenge(suite, SessionR(suite, kps, msg, list), kps[0].groupPublicKey, msg).Ok? ==>
      SessionResult(suite, kps, draws, msg, list) == Err(Plain(InsufficientParticipants))
  {
    PreliminaryFacts(kps, draws);
    forall i | 0 <= i < |kps|
      ensures kps[i] == Dealer.PackageOf(p, kps[i].id, public.verificationShares, n)
    {
      assert kps[i] in kps;
      var k :| 0 <= k < |packages| && packages[k] == kps[i];
    }
    DealtPackagesExact(suite, kps, draws, msg, list, p, public.verificationShares, n);
    if |p| <= |kps| < |ids| && Challenge(suite, SessionR(suite, kps, msg, list), kps[0].groupPublicKey, msg).Ok? {
      TooFewForKeys(suite, kps, draws, msg, list);
    }
  }

  // ---- checking a key share ----

  method VerifyKeyShare(kp: KeyPackage) returns (r: Result<()>)
    ensures kp.verificationShares == [] ==> r == Err(Plain(InvalidKeyShare))
    ensures kp.verificationShares != [] && kp.id == 0 ==> r == Err(Plain(InvalidParticipant))
    ensures kp.verificationShares != [] && kp.id != 0 ==>
      r == if kp.secretShare == Eval(Logs(Keys(kp.verificationShares)), kp.id) then Ok(())
        else Err(Plain(InvalidKeyShare))
  {
    if |kp.verificationShares| == 0 {
      return Err(Plain(InvalidKeyShare));
    }
    r := VerifyShare(kp.id, kp.secretShare, kp.verificationShares);
  }
}
