/** Concrete sessions: that what is said of certain inputs is said of inputs there are. */
module Witnesses {
  import opened PrimeField
  import opened Group
  import opened Types
  import opened Sums
  import opened Polynomial
  import opened Lagrange
  import opened Encoding
  import opened Transcript
  import opened Participant
  import opened Aggregator
  import opened SigningTheorems
  import opened KeyMeanings
  import opened Ordering
  import opened MapSums
  import opened MapFunctions
  import opened MapTheorems
  import Dealer
  import Dkg
  import DkgTheorems
  import Batch
  import Refresh
  import Service
  import Vss

  /** A suite with constant hash functions. */
  const CONSTANT: Suite := SuiteRecord(false, 4, 0, _ => [], _ => 1, _ => 1, _ => [], _ => [], _ => 1)

  const ONES: Nonces := Nonces(1, 1)

  function CommitmentOnes(id: Identifier): Commitment {
    Commitment(id, Element(1), Element(1))
  }

  /** A list of participants that all drew the nonces 1 and 1. */
  ghost predicate AllOnes(list: seq<Commitment>) {
    && 0 < |list| < 10 && Ascending(list)
    && forall i :: 0 <= i < |list| ==> list[i] == CommitmentOnes(list[i].id)
  }

  lemma {:induction false} SmallSum(a: Scalar, b: Scalar)
    requires a < 100 && b < 100
    ensures a + b < Q && Add(a, b) == a + b
  {
    var k := AddRep(a, b);
    SameResidue(Add(a, b), a + b, -k);
  }

  lemma {:induction false} SumOfTwos(ts: seq<Scalar>, k: nat)
    requires k <= |ts| < 10 && forall i :: 0 <= i < |ts| ==> ts[i] == 2
    ensures SumTo(ts, k) == 2 * k
  {
    if k > 0 {
      SumOfTwos(ts, k - 1);
      SmallSum(2 * (k - 1), 2);
    }
  }

  /** Every such list is a session in order: R is not the identity and the challenge is 1. */
  lemma {:induction false} SessionOfOnes(pk: Element, list: seq<Commitment>, msg: Bytes)
    requires AllOnes(list)
    ensures Validation(list).Ok? && NoIdentities(list)
    ensures Sum(NonceTerms(CONSTANT, pk, list, msg)) == 2 * |list| != 0
    ensures SessionCommitment(CONSTANT, pk, list, msg) == GroupCommitment(CONSTANT, pk, list, msg)
      == Ok(Element(2 * |list|))
    ensures Challenge(CONSTANT, Element(2 * |list|), pk, msg) == Ok(1)
  {
    var ts := NonceTerms(CONSTANT, pk, list, msg);
    ValidationExact(list);
    GroupCommitmentExact(CONSTANT, pk, list, msg);
    MulOne(1);
    SmallSum(1, 1);
    forall i | 0 <= i < |list|
      ensures ts[i] == 2
    {
      assert Rho(CONSTANT, pk, list, msg, list[i].id) == 1;
    }
    SumOfTwos(ts, |ts|);
  }

  lemma {:induction false} OpeningOfOnes(minSigners: nat, pk: Element, list: seq<Commitment>, msg: Bytes,
                                         shareCount: nat, keyCount: nat)
    requires AllOnes(list) && minSigners <= shareCount && keyCount > 0
    ensures Opening(CONSTANT, minSigners, pk, list, msg, shareCount, keyCount) == Ok((Element(2 * |list|), 1))
  {
    SessionOfOnes(pk, list, msg);
  }

  lemma {:induction false} CheckableOnes(pk: Element, list: seq<Commitment>, msg: Bytes, i: nat)
    requires AllOnes(list) && i < |list|
    ensures Checkable(CONSTANT, pk, list, msg, list[i].id, ONES)
  {
    SessionOfOnes(pk, list, msg);
    PositionInList(list, i);
  }

  /** A signer of the session answers, whatever its secret. */
  lemma {:induction false} AnswersOnes(kp: KeyPackage, list: seq<Commitment>, msg: Bytes)
    requires AllOnes(list) && kp.id in ListIds(list) && kp.minSigners <= |list|
    ensures RoundTwoResult(CONSTANT, kp, ONES, msg, list).Ok?
    ensures RoundTwoResult(CONSTANT, kp, ONES, msg, list).value.id == kp.id
    ensures AnswerWith(CONSTANT, kp.groupPublicKey, list, msg, kp.id, ONES, kp.secretShare)
      == RoundTwoResult(CONSTANT, kp, ONES, msg, list)
  {
    SessionOfOnes(kp.groupPublicKey, list, msg);
    RoundTwoExact(CONSTANT, kp, ONES, msg, list);
  }

  // ---- the two detecting strategies ----

  /** A participant listed twice, with different keys: FirstCheater returns a signature where AllCheaters blames it. */
  lemma {:induction false} TwoKeysOfOne(vs: seq<VerificationShare>)
    requires vs == [VerificationShare(1, Element(1)), VerificationShare(1, Element(2))]
    ensures FirstKey(vs, 1) == Ok(Element(1)) && LastKey(vs, 1) == Ok(Element(2))
  {
    assert KeyMapTo(vs, 2) == KeyMapTo(vs, 1)[1 := Element(2)];
  }

  lemma {:induction false} OneBlamed(ids: seq<Identifier>, verdicts: seq<bool>)
    requires ids == [1] && verdicts == [false]
    ensures BlamedTo(ids, verdicts, 1) == [1]
  {
    assert BlamedTo(ids, verdicts, 0) == [];
  }

  lemma {:induction false} StrategiesCanDisagree(msg: Bytes)
    ensures exists share: SignatureShare ::
      var list, vs := [CommitmentOnes(1)], [VerificationShare(1, Element(1)), VerificationShare(1, Element(2))];
      && VerifiedResult(CONSTANT, 1, Element(1), list, msg, [share], vs).Ok?
      && AllCheatersResult(CONSTANT, 1, Element(1), list, msg, [share], vs).Err?
      && GetCulprits(AllCheatersResult(CONSTANT, 1, Element(1), list, msg, [share], vs).error) == [1]
  {
    var pk := Element(1);
    var list, vs := [CommitmentOnes(1)], [VerificationShare(1, Element(1)), VerificationShare(1, Element(2))];
    SessionOfOnes(pk, list, msg);
    assert ListIds(list) == [1];
    TwoKeysOfOne(vs);
    DisagreeingShare(CONSTANT, pk, list, msg, 1, vs, 1);
    var share := SignatureShare(1, Response(CONSTANT, pk, list, msg, 1, 1, Element(1)));
    var shares := [share];
    OpeningOfOnes(1, pk, list, msg, |shares|, |vs|);
    VerifiedResultExact(CONSTANT, 1, pk, list, msg, shares, vs);
    AllCheatersResultExact(CONSTANT, 1, pk, list, msg, shares, vs);
    var verdicts := Verdicts(CONSTANT, pk, list, msg, 1, KeyMapTo(vs, |vs|), shares);
    assert verdicts == [false];
    OneBlamed(ShareIds(shares), verdicts);
  }

  // ---- blame and the enumeration of maps ----

  lemma {:induction false} PairListed<T(!new)>(all: map<Identifier, T>, a: T, b: T)
    requires all == map[1 := a, 2 := b]
    ensures ValuesOf(all, [a, b])
  {
    var ids: seq<Identifier> := [1, 2];
    assert Enumerates(ids, all.Keys);
    assert Picked(all, ids) == [a, b];
  }

  const PAIR: seq<Commitment> := [CommitmentOnes(1), CommitmentOnes(2)]
  const PAIR_COMMITMENTS: map<Identifier, Commitment> := map[1 := CommitmentOnes(1), 2 := CommitmentOnes(2)]
  const PAIR_KEYS: map<Identifier, VerificationShare> :=
    map[1 := VerificationShare(1, Element(1)), 2 := VerificationShare(2, Element(1))]

  /** One more than the response demanded for the key. */
  function BadShare(msg: Bytes, id: Identifier): SignatureShare
    requires id in ListIds(PAIR)
  {
    SignatureShare(id, Add(Response(CONSTANT, Element(1), PAIR, msg, 1, id, Element(1)), 1))
  }

  lemma {:induction false} BadShareFails(msg: Bytes, id: Identifier)
    requires id in ListIds(PAIR)
    ensures !PassesUnder(Session(CONSTANT, Element(1), PAIR, msg, 1), BadShare(msg, id), Element(1))
  {
    var good := Response(CONSTANT, Element(1), PAIR, msg, 1, id, Element(1));
    ValidShareExact(CONSTANT, Element(1), PAIR, msg, 1, BadShare(msg, id), Element(1));
    AddComm(good, 1);
    AddZero(good);
    if BadShare(msg, id).share == good {
      AddCancel(1, 0, good);
    }
    assert !MeetsEquation(Session(CONSTANT, Element(1), PAIR, msg, 1), BadShare(msg, id), Element(1));
  }

  lemma {:induction false} OpenOnes(s: Session, m: Maps)
    requires s == Session(CONSTANT, s.pk, s.list, s.msg, 1) && AllOnes(s.list)
    requires SortedValues(m.commitments, s.list) && 1 in m.keys
    ensures OpenSession(s, m)
  {
    OpeningOfOnes(|m.shares|, s.pk, s.list, s.msg, |m.shares|, |m.keys|);
    assert Opens(s, m);
  }

  lemma {:induction false} BadShareCanFail(s: Session, m: Maps, id: Identifier)
    requires id in ListIds(PAIR) && s == Session(CONSTANT, Element(1), PAIR, s.msg, 1)
    requires id in m.shares && m.shares[id] == BadShare(s.msg, id)
    requires id in m.keys && m.keys[id] == VerificationShare(id, Element(1))
    ensures CanFail(s, m, id)
  {
    BadShareFails(s.msg, id);
    assert IsKeyFor(m, id, id);
  }

  lemma {:induction false} PairSorted()
    ensures AllOnes(PAIR) && SortedValues(PAIR_COMMITMENTS, PAIR)
  {
    PairListed(PAIR_COMMITMENTS, PAIR[0], PAIR[1]);
    assert ValuesOf(PAIR_COMMITMENTS, PAIR);
  }

  lemma {:induction false} PairOpen(s: Session, m: Maps)
    requires s == Session(CONSTANT, Element(1), PAIR, s.msg, 1)
    requires m.commitments == PAIR_COMMITMENTS && m.keys == PAIR_KEYS
    ensures OpenSession(s, m)
  {
    PairSorted();
    OpenOnes(s, m);
  }

  /** Two bad shares in one map: either can be the one that the error names. */
  lemma {:induction false} BlameCanVary(msg: Bytes)
    returns (m: Maps, r: Result<Signature>, q: Result<Signature>)
    ensures m.commitments == PAIR_COMMITMENTS && m.keys == PAIR_KEYS
    ensures var s := Session(CONSTANT, Element(1), PAIR, msg, 1);
      Outcome(s, m, r) && Blame(r) == [1] && Outcome(s, m, q) && Blame(q) == [2]
  {
    assert ListIds(PAIR) == [1, 2];
    var s := Session(CONSTANT, Element(1), PAIR, msg, 1);
    m := Maps(PAIR_COMMITMENTS, map[1 := BadShare(msg, 1), 2 := BadShare(msg, 2)], PAIR_KEYS);
    PairOpen(s, m);
    BadShareCanFail(s, m, 1);
    BadShareCanFail(s, m, 2);
    r := AnyFailingIsBlamed(s, m, 1);
    q := AnyFailingIsBlamed(s, m, 2);
  }

  const ALONE: seq<Commitment> := [CommitmentOnes(1)]
  const ALONE_COMMITMENTS: map<Identifier, Commitment> := map[1 := CommitmentOnes(1)]
  const TWO_KEYS: map<Identifier, VerificationShare> :=
    map[1 := VerificationShare(1, Element(1)), 2 := VerificationShare(1, Element(2))]

  lemma {:induction false} AloneListed()
    ensures ListIds(ALONE) == [1] && AllOnes(ALONE) && SortedValues(ALONE_COMMITMENTS, ALONE)
  {
    var ids: seq<Identifier> := [1];
    assert Enumerates(ids, ALONE_COMMITMENTS.Keys) && Picked(ALONE_COMMITMENTS, ids) == ALONE;
    assert ValuesOf(ALONE_COMMITMENTS, ALONE);
  }

  /** The share that participant 1 alone owes for the key G. */
  function AloneShare(msg: Bytes): SignatureShare
    requires 1 in ListIds(ALONE)
  {
    SignatureShare(1, Response(CONSTANT, Element(1), ALONE, msg, 1, 1, Element(1)))
  }

  lemma {:induction false} AloneSharePasses(msg: Bytes, key: Element)
    requires 1 in ListIds(ALONE)
    ensures PassesUnder(Session(CONSTANT, Element(1), ALONE, msg, 1), AloneShare(msg), key) <==> key == Element(1)
  {
    AloneListed();
    ValidShareExact(CONSTANT, Element(1), ALONE, msg, 1, AloneShare(msg), key);
    ResponsesDiffer(CONSTANT, Element(1), ALONE, msg, 1, 1, Element(1), key);
    assert MeetsEquation(Session(CONSTANT, Element(1), ALONE, msg, 1), AloneShare(msg), key) <==> key == Element(1);
  }

  lemma {:induction false} AloneUndecided(s: Session, m: Maps)
    requires s == Session(CONSTANT, Element(1), ALONE, s.msg, 1) && 1 in ListIds(ALONE)
    requires m.shares == map[1 := AloneShare(s.msg)] && m.keys == TWO_KEYS
    ensures CanFail(s, m, 1) && CanSucceed(s, m)
  {
    AloneSharePasses(s.msg, Element(1));
    AloneSharePasses(s.msg, Element(2));
    assert IsKeyFor(m, 1, 1) && IsKeyFor(m, 2, 1);
    assert AllPass(s, m, 1);
  }

  /** Two entries for one participant with different keys: one order of enumeration gives a signature where another
      blames the participant. */
  lemma {:induction false} SuccessCanVary(msg: Bytes)
    returns (m: Maps, r: Result<Signature>, q: Result<Signature>)
    ensures m.commitments == ALONE_COMMITMENTS && m.shares.Keys == {1} && m.keys == TWO_KEYS
    ensures var s := Session(CONSTANT, Element(1), ALONE, msg, 1);
      Outcome(s, m, r) && r.Ok? && Outcome(s, m, q) && Blame(q) == [1]
  {
    AloneListed();
    var s := Session(CONSTANT, Element(1), ALONE, msg, 1);
    m := Maps(ALONE_COMMITMENTS, map[1 := AloneShare(msg)], TWO_KEYS);
    OpenOnes(s, m);
    AloneUndecided(s, m);
    r := BestOrder(s, m);
    q := AnyFailingIsBlamed(s, m, 1);
  }

  // ---- packages from the trusted dealer, for f(x) = 1 + x ----

  const LINE: Poly := [1, 1]

  /** a + b*x for small numbers */
  lemma {:induction false} LineValue(a: Scalar, b: Scalar, x: Scalar)
    requires a < 10 && b < 10 && (x == 1 || (b == 1 && x < 10))
    ensures Eval([a, b], x) == a + b * x
  {
    var p := [a, b];
    assert p[1..] == [b] && [b][0..] == [b];
    EvalLast([b], x);
    MulOne(b);
    MulOne(x);
    SmallSum(a, b * x);
  }

  /** What key generation returns for two participants. */
  lemma {:induction false} DealtPair(packages: seq<KeyPackage>, public: Dealer.PublicKeyPackage)
    requires Dealer.KeygenOutcome(LINE, 2, [1, 2], packages, public)
    ensures var vs := [VerificationShare(1, Element(2)), VerificationShare(2, Element(3))];
      packages == [KeyPackage(1, 2, Element(1), vs, 2, 2), KeyPackage(2, 3, Element(1), vs, 2, 2)]
  {
    var vs := public.verificationShares;
    assert packages[0] == Dealer.PackageOf(LINE, 1, vs, 2) && packages[1] == Dealer.PackageOf(LINE, 2, vs, 2);
    LineValue(1, 1, 1);
    LineValue(1, 1, 2);
    assert vs == [VerificationShare(1, Element(2)), VerificationShare(2, Element(3))];
  }

  lemma {:induction false} PairAnswers(a: KeyPackage, b: KeyPackage, msg: Bytes)
    requires a.id == 1 && b.id == 2 && a.minSigners <= 2 && b.minSigners <= 2
    ensures ListIds(PAIR) == [1, 2] && AllOnes(PAIR)
    ensures RoundTwoResult(CONSTANT, a, ONES, msg, PAIR).Ok? && RoundTwoResult(CONSTANT, b, ONES, msg, PAIR).Ok?
    ensures RoundTwoResult(CONSTANT, a, ONES, msg, PAIR).value.id == 1
    ensures AnswerWith(CONSTANT, a.groupPublicKey, PAIR, msg, 1, ONES, a.secretShare)
      == RoundTwoResult(CONSTANT, a, ONES, msg, PAIR)
  {
    assert ListIds(PAIR) == [1, 2];
    AnswersOnes(a, PAIR, msg);
    AnswersOnes(b, PAIR, msg);
  }

  /** Used in a session of both: participant 2 refuses participant 1's honest share in the peer check. */
  lemma {:induction false} DealtKeysRefuseHonestShare(packages: seq<KeyPackage>, public: Dealer.PublicKeyPackage,
                                                      msg: Bytes)
    requires Dealer.KeygenOutcome(LINE, 2, [1, 2], packages, public)
    ensures var answer := RoundTwoResult(CONSTANT, packages[0], ONES, msg, PAIR);
      answer.Ok? && PeerCheckResult(CONSTANT, packages[1], answer.value, msg, PAIR) == Err(Plain(InvalidSignatureShare))
  {
    DealtPair(packages, public);
    PairAnswers(packages[0], packages[1], msg);
    CheckableOnes(Element(1), PAIR, msg, 0);
    SessionOfOnes(Element(1), PAIR, msg);
    assert Logs(Vss.Keys(packages[1].verificationShares)) == [2, 3];
    LineValue(2, 3, 1);
    var share := RoundTwoResult(CONSTANT, packages[0], ONES, msg, PAIR).value;
    HonestSharePasses(CONSTANT, packages[1], share, msg, PAIR, ONES, 2);
  }

  /** When the first share of a session fails its check, its participant is blamed. */
  lemma {:induction false} FirstRefused(pk: Element, list: seq<Commitment>, msg: Bytes, shares: seq<SignatureShare>,
                                        vs: seq<VerificationShare>)
    requires AllOnes(list) && shares != [] && vs != []
    requires ShareCheck(CONSTANT, pk, list, msg, 1, vs, shares[0]).Err?
    ensures Blame(VerifiedResult(CONSTANT, |shares|, pk, list, msg, shares, vs)) == [shares[0].id]
  {
    OpeningOfOnes(|shares|, pk, list, msg, |shares|, |vs|);
    FirstKeyFound(vs, shares[0].id);
    assert FirstErrorFrom(Checks(CONSTANT, pk, list, msg, 1, vs, shares), 0)
        == ShareCheck(CONSTANT, pk, list, msg, 1, vs, shares[0]);
  }

  /** What GenerateShares returns for two participants: verified aggregation with the packages' list refuses their
      honest shares, and blames participant 1. */
  lemma {:induction false} CoefficientListRefuses(packages: seq<KeyPackage>, vs: seq<VerificationShare>, msg: Bytes)
    requires Dealer.CommitsTo(vs, LINE) && Dealer.Dealt(packages, LINE, [1, 2], vs, 2)
    ensures var a, b := RoundTwoResult(CONSTANT, packages[0], ONES, msg, PAIR),
              RoundTwoResult(CONSTANT, packages[1], ONES, msg, PAIR);
      a.Ok? && b.Ok? && Blame(VerifiedResult(CONSTANT, 2, Element(1), PAIR, msg, [a.value, b.value], vs)) == [1]
  {
    assert packages[0] == Dealer.PackageOf(LINE, 1, vs, 2) && packages[1] == Dealer.PackageOf(LINE, 2, vs, 2);
    assert |vs| == |Vss.Keys(vs)| == 2;
    PairAnswers(packages[0], packages[1], msg);
    LineValue(1, 1, 1);
    CheckableOnes(Element(1), PAIR, msg, 0);
    var a, b := RoundTwoResult(CONSTANT, packages[0], ONES, msg, PAIR).value,
      RoundTwoResult(CONSTANT, packages[1], ONES, msg, PAIR).value;
    SessionOfOnes(Element(1), PAIR, msg);
    CoefficientsAsKeysExact(CONSTANT, Element(1), PAIR, msg, LINE, vs, a, ONES);
    FirstRefused(Element(1), PAIR, msg, [a, b], vs);
  }

  const ROUND: Refresh.Round := Refresh.Round(2, [1], [1, 2])

  /** The group of two that key generation makes. */
  function GroupOfTwo(packages: seq<KeyPackage>): Refresh.GroupState
    requires |packages| == 2
  {
    Refresh.GroupState(map[1 := packages[0], 2 := packages[1]],
                       Dkg.PublicKeys(map[1 := Element(2), 2 := Element(3)], Element(1)))
  }

  lemma {:induction false} FirstGroup(packages: seq<KeyPackage>, public: Dealer.PublicKeyPackage)
    requires Dealer.KeygenOutcome(LINE, 2, [1, 2], packages, public)
    ensures Refresh.SharesOf(GroupOfTwo(packages), LINE)
    ensures forall i :: 0 <= i < 2 ==> packages[i].minSigners == 2
    ensures FirstKey(packages[1].verificationShares, 1) == Ok(Element(2))
  {
    DealtPair(packages, public);
    LineValue(1, 1, 1);
    LineValue(1, 1, 2);
  }

  lemma {:induction false} RoundValues()
    ensures Eval([0] + ROUND.random, 1) == 1 && Eval([0] + ROUND.random, 2) == 2
    ensures Refresh.ShiftOver([ROUND], 1) == 1
  {
    assert [0] + ROUND.random == [0, 1] && [ROUND][..0] == [];
    LineValue(0, 1, 1);
    LineValue(0, 1, 2);
    AddZero(1);
  }

  lemma {:induction false} GroupSteps(g: Refresh.GroupState)
    requires g.packages.Keys == g.keys.verifyingShares.Keys == {1, 2}
    ensures Refresh.Members(ROUND.ids) == {1, 2}
    ensures var g' := Refresh.AfterRound(g, ROUND);
      && Refresh.Step(g, ROUND, g') && g'.packages.Keys == {1, 2}
      && g'.packages[1] == Refresh.Refreshed(g.packages[1], 1) && g'.packages[2] == Refresh.Refreshed(g.packages[2], 2)
  {
    RoundValues();
    assert Refresh.Members(ROUND.ids) == {1, 2};
  }

  lemma {:induction false} RefreshedFirstFails(states: seq<Refresh.GroupState>, msg: Bytes, share: SignatureShare)
    requires Refresh.Run(states, [ROUND]) && Refresh.SharesOf(states[0], LINE) && share.id == 1
    requires 2 in states[0].packages && 1 in states[1].packages && 2 in states[1].packages
    requires 1 in states[0].keys.verifyingShares
    requires FirstKey(states[0].packages[2].verificationShares, 1) == Ok(states[0].keys.verifyingShares[1])
    requires ListIds(PAIR) == [1, 2] && AllOnes(PAIR)
    requires AnswerWith(CONSTANT, states[0].keys.verifyingKey, PAIR, msg, 1, ONES, states[1].packages[1].secretShare)
      == Ok(share)
    ensures ShareCheck(CONSTANT, states[0].keys.verifyingKey, PAIR, msg, 1, states[1].packages[2].verificationShares,
                       share).Err?
  {
    RoundValues();
    CheckableOnes(states[0].keys.verifyingKey, PAIR, msg, 0);
    SessionOfOnes(states[0].keys.verifyingKey, PAIR, msg);
    RefreshedListExact(CONSTANT, PAIR, msg, states, [ROUND], LINE, 2, share, ONES);
  }

  /** After one refresh of what key generation returns: verified aggregation with the list of participant 2's package
      refuses the honest refreshed shares, and blames participant 1. */
  lemma {:induction false} RefreshedListRefuses(packages: seq<KeyPackage>, public: Dealer.PublicKeyPackage, msg: Bytes)
    returns (g: Refresh.GroupState)
    requires Dealer.KeygenOutcome(LINE, 2, [1, 2], packages, public)
    ensures Refresh.Step(GroupOfTwo(packages), ROUND, g) && g.packages.Keys == {1, 2}
    ensures var a, b := RoundTwoResult(CONSTANT, g.packages[1], ONES, msg, PAIR),
              RoundTwoResult(CONSTANT, g.packages[2], ONES, msg, PAIR);
      a.Ok? && b.Ok? && Blame(VerifiedResult(CONSTANT, 2, Element(1), PAIR, msg, [a.value, b.value],
                                             g.packages[2].verificationShares)) == [1]
  {
    FirstGroup(packages, public);
    GroupSteps(GroupOfTwo(packages));
    g := Refresh.AfterRound(GroupOfTwo(packages), ROUND);
    PairAnswers(g.packages[1], g.packages[2], msg);
    var a, b := RoundTwoResult(CONSTANT, g.packages[1], ONES, msg, PAIR).value,
      RoundTwoResult(CONSTANT, g.packages[2], ONES, msg, PAIR).value;
    RefreshedFirstFails([GroupOfTwo(packages), g], msg, a);
    FirstRefused(Element(1), PAIR, msg, [a, b], g.packages[2].verificationShares);
  }

  /** Two of three participants with threshold two: the service signs with the packages of GenerateShares and refuses
      those of TrustedDealerKeygen. */
  lemma {:induction false} ThresholdRefused(packages: seq<KeyPackage>, public: Dealer.PublicKeyPackage,
                                            plain: seq<KeyPackage>, vs: seq<VerificationShare>, msg: Bytes)
    requires Dealer.KeygenOutcome(LINE, 3, [1, 2, 3], packages, public)
    requires Dealer.CommitsTo(vs, LINE) && Dealer.Dealt(plain, LINE, [1, 2, 3], vs, 3)
    ensures var list, draws := [CommitmentOnes(1), CommitmentOnes(2)], [ONES, ONES];
      && Service.Session(packages[..2], draws, list) && Service.Session(plain[..2], draws, list)
      && Service.SessionResult(CONSTANT, packages[..2], draws, msg, list) == Err(Plain(InsufficientParticipants))
      && Service.SessionResult(CONSTANT, plain[..2], draws, msg, list).Ok?
  {
    var list := [CommitmentOnes(1), CommitmentOnes(2)];
    PairSession(packages, public.verificationShares, msg);
    PairSession(plain, vs, msg);
    Service.KeygenPackagesNeedAll(CONSTANT, packages[..2], [ONES, ONES], msg, list, LINE, 3, [1, 2, 3], packages,
                                  public);
    assert |vs| == |Vss.Keys(vs)| == 2;
    Service.DealtPackagesExact(CONSTANT, plain[..2], [ONES, ONES], msg, list, LINE, vs, 3);
  }

  lemma {:induction false} PairPreliminary(kps: seq<KeyPackage>)
    requires |kps| == 2 && kps[0].id == 1 && kps[1].id == 2 && kps[0].groupPublicKey == kps[1].groupPublicKey
    ensures Service.Preliminary(kps, [ONES, ONES]).Ok?
    ensures Service.CommitmentsOf(kps, [ONES, ONES]) == [CommitmentOnes(1), CommitmentOnes(2)]
  {
    assert Service.PackageIds(kps) == [1, 2];
    assert kps[..1] == [kps[0]] && Service.PackageIds(kps)[..1] == [1];
    Service.PackagesFromExact(kps, 1);
  }

  lemma {:induction false} FirstTwoDealt(packages: seq<KeyPackage>, vs: seq<VerificationShare>)
    requires Dealer.Dealt(packages, LINE, [1, 2, 3], vs, 3)
    ensures var kps := packages[..2];
      && kps == [Dealer.PackageOf(LINE, 1, vs, 3), Dealer.PackageOf(LINE, 2, vs, 3)]
      && Service.DealtTo(kps, LINE, vs, 3)
  {
    assert packages[0] == Dealer.PackageOf(LINE, 1, vs, 3) && packages[1] == Dealer.PackageOf(LINE, 2, vs, 3);
  }

  lemma {:induction false} PairSession(packages: seq<KeyPackage>, vs: seq<VerificationShare>, msg: Bytes)
    requires Dealer.Dealt(packages, LINE, [1, 2, 3], vs, 3)
    ensures var list, draws, kps := [CommitmentOnes(1), CommitmentOnes(2)], [ONES, ONES], packages[..2];
      && Service.Session(kps, draws, list) && Service.DealtTo(kps, LINE, vs, 3)
      && Service.SessionR(CONSTANT, kps, msg, list) == Element(4)
      && Challenge(CONSTANT, Element(4), kps[0].groupPublicKey, msg) == Ok(1)
  {
    var list, kps := [CommitmentOnes(1), CommitmentOnes(2)], packages[..2];
    FirstTwoDealt(packages, vs);
    PairPreliminary(kps);
    SessionOfOnes(kps[0].groupPublicKey, list, msg);
  }

  // ---- fewer signers than the threshold ----

  /** One honest signer where two are needed: its share is aggregated, and the signature does not verify. */
  lemma {:induction false} BelowThreshold(msg: Bytes)
    ensures var list, kp := [CommitmentOnes(1)], KeyPackage(1, Eval(LINE, 1), Element(1), [], 0, 0);
            var answer := RoundTwoResult(CONSTANT, kp, ONES, msg, list);
      && answer.Ok?
      && var r := VerifiedResult(CONSTANT, 1, Element(1), list, msg, [answer.value],
                                 [VerificationShare(1, Element(2))]);
         r.Ok? && Verify(CONSTANT, msg, r.value, Element(1)).Err?
  {
    var list, pk, vs := [CommitmentOnes(1)], Element(1), [VerificationShare(1, Element(2))];
    var kp := KeyPackage(1, Eval(LINE, 1), pk, [], 0, 0);
    assert ListIds(list) == [1];
    LineValue(1, 1, 1);
    LineValue(1, 1, 0);
    SessionOfOnes(pk, list, msg);
    AnswersOnes(kp, list, msg);
    var share := RoundTwoResult(CONSTANT, kp, ONES, msg, list).value;
    PositionInList(list, 0);
    var shares := [share];
    assert ShareIds(shares) == [1];
    OpeningOfOnes(1, pk, list, msg, |shares|, |vs|);
    HonestAggregateExact(CONSTANT, 1, pk, list, msg, LINE, [kp], [ONES], shares, vs);
    OnePointAtZero(LINE, 1);
  }

  /** A single point interpolates to its own value. */
  lemma {:induction false} OnePointAtZero(p: Poly, x: Scalar)
    ensures AtZero(p, [x]) == Eval(p, x)
  {
    var ls := Coefficients([x], 0);
    PartitionOfUnity([x], 0);
    assert Sum(ls) == Add(SumTo(ls, 0), ls[0]);
    AddZero(ls[0]);
    var ys := Values(p, [x]);
    assert Dot(ys, ls) == Add(DotTo(ys, ls, 0), Mul(ys[0], ls[0]));
    MulOne(ys[0]);
    AddZero(ys[0]);
  }

  // ---- distributed key generation and batches ----

  /** With own polynomial 1 and a peer package under one's own identifier, both rounds succeed and the final share does
      not match the own key. */
  lemma {:induction false} OwnIdentifierMismatch(q: Poly, k: Scalar)
    requires |q| == 2
    ensures var secret := Dkg.Round2Secret(1, Commit([1, 0]), 1, 2, 2);
            var round1 := map[1 := Dkg.Package1(CONSTANT, 1, q, k)];
            var round2 := map[1 := Dkg.Round2Package(Eval(q, 1))];
      && Dkg.AcceptsRound2(secret, round1, round2) && Dkg.Complete(secret, round1)
      && forall kp, keys :: Dkg.Part3Outcome(secret, round1, round2, kp, keys) ==>
           kp.id in keys.verifyingShares && keys.verifyingShares[kp.id] != ScalarBaseMult(kp.secretShare)
  {
    var secret := Dkg.Round2Secret(1, Commit([1, 0]), 1, 2, 2);
    var round1, round2 := map[1 := Dkg.Package1(CONSTANT, 1, q, k)], map[1 := Dkg.Round2Package(Eval(q, 1))];
    LineValue(1, 0, 1);
    DkgTheorems.OwnIdentifierAccepted(CONSTANT, 1, [1, 0], q, k);
    forall kp, keys | Dkg.Part3Outcome(secret, round1, round2, kp, keys)
      ensures kp.id in keys.verifyingShares && keys.verifyingShares[kp.id] != ScalarBaseMult(kp.secretShare)
    {
      DkgTheorems.OwnKeyExact(secret, [1, 0], round1, round2, kp, keys);
      DkgTheorems.NoTails(DkgTheorems.Commitments(round1), 2, 1);
      AddZero(1);
    }
  }

  /** A peer's commitment with a coefficient too many: round three succeeds and its share never matches the own key. */
  lemma {:induction false} OverlongMismatch(p: Poly, proof: Dkg.Proof)
    requires |p| == 2
    ensures var secret := Dkg.Round2Secret(1, Commit(p), Eval(p, 1), 2, 2);
            var round1 := map[2 := Dkg.Round1Package(Commit([0, 0, 1]), proof)];
            var round2 := map[2 := Dkg.Round2Package(1)];
      && Dkg.AcceptsRound2(secret, round1, round2) && Dkg.Complete(secret, round1)
      && forall kp, keys :: Dkg.Part3Outcome(secret, round1, round2, kp, keys) ==>
           kp.id in keys.verifyingShares && keys.verifyingShares[kp.id] != ScalarBaseMult(kp.secretShare)
  {
    var secret := Dkg.Round2Secret(1, Commit(p), Eval(p, 1), 2, 2);
    var round1 := map[2 := Dkg.Round1Package(Commit([0, 0, 1]), proof)];
    var round2 := map[2 := Dkg.Round2Package(1)];
    DkgTheorems.TailOfSquare(1);
    MulOne(1);
    DkgTheorems.OnePeerAccepted(secret, p, 2, round1, round2);
    forall kp, keys | Dkg.Part3Outcome(secret, round1, round2, kp, keys)
      ensures kp.id in keys.verifyingShares && keys.verifyingShares[kp.id] != ScalarBaseMult(kp.secretShare)
    {
      DkgTheorems.OnePeerMatches(secret, p, 2, round1, round2, kp, keys);
    }
  }

  /** A peer's commitment with a coefficient too few: every share is acceptable, and the call is aborted. */
  lemma {:induction false} ShortCommitmentAccepted(p: Poly, a: Scalar, proof: Dkg.Proof)
    requires |p| == 2
    ensures var secret := Dkg.Round2Secret(1, Commit(p), Eval(p, 1), 2, 2);
            var round1 := map[2 := Dkg.Round1Package(Commit([a]), proof)];
            var round2 := map[2 := Dkg.Round2Package(a)];
      Dkg.AcceptsRound2(secret, round1, round2) && !Dkg.Complete(secret, round1)
  {
    var secret := Dkg.Round2Secret(1, Commit(p), Eval(p, 1), 2, 2);
    var round1 := map[2 := Dkg.Round1Package(Commit([a]), proof)];
    EvalLast([a], 1);
    assert [a][0..] == [a];
    DkgTheorems.OnePeerAccepted(secret, p, 2, round1, map[2 := Dkg.Round2Package(a)]);
  }

  /** There is a suite with zero challenges. */
  lemma {:induction false} ZeroChallengeBatch(msg: Bytes, b: Scalar, d: Scalar)
    ensures exists suite: Suite ::
      var sig := Signature(GENERATOR, 1);
      var item := Batch.ItemFor(suite, GENERATOR, sig, msg);
      && item.Ok? && Batch.Verdict([item.value, item.value], [b, d]).Ok?
      && Verify(suite, msg, sig, GENERATOR) == Err(Plain(InvalidChallenge))
  {
    var suite: Suite := SuiteRecord(false, 4, 0, _ => [], _ => 0, _ => 0, _ => [], _ => [], _ => 0);
    Batch.ZeroChallengeAccepted(suite, msg, 2, [b, d]);
    var item := Batch.ItemFor(suite, GENERATOR, Signature(GENERATOR, 1), msg).value;
    assert seq(2, _ => item) == [item, item];
  }
}
