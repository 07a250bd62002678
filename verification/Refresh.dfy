/** Refreshing the shares with a polynomial that vanishes at 0. */
module Refresh {
  import opened PrimeField
  import opened Group
  import opened Types
  import opened Sums
  import opened Polynomial
  import opened Lagrange
  import opened Encoding
  import opened Vss
  import opened Dkg
  import PolynomialHelper
  import Dealer

  datatype RefreshShare = RefreshShare(id: Identifier, share: Scalar, commitment: seq<Element>)

  // ---- the dealer ----

  /** The share of z for one participant, with the commitments above the constant term. */
  function RefreshShareOf(z: Poly, id: Identifier): RefreshShare
    requires |z| > 0
  {
    RefreshShare(id, Eval(z, id), Commit(z)[1..])
  }

  function NewVerifyingShares(before: map<Identifier, Element>, z: Poly, ids: set<Identifier>): map<Identifier, Element>
    requires ids <= before.Keys
  {
    map id | id in ids :: before[id].Plus(ScalarBaseMult(Eval(z, id)))
  }

  function Members(ids: seq<Identifier>): set<Identifier> {
    set id | id in ids
  }

  method CommitTo(coefficients: Poly) returns (commitment: seq<Element>)
    ensures commitment == Commit(coefficients)
  {
    commitment := [];
    for i := 0 to |coefficients|
      invariant commitment == Commit(coefficients)[..i]
    {
      commitment := commitment + [ScalarBaseMult(coefficients[i])];
    }
    assert Commit(coefficients)[..|coefficients|] == Commit(coefficients);
  }

  ghost predicate IsDealt(z: Poly, id: Identifier, dealt: RefreshShare)
    requires |z| > 0
  {
    dealt == RefreshShareOf(z, id)
  }

  /** The shares of z for all participants; the trigger keeps them folded where only their order matters. */
  ghost predicate AreDealt(z: Poly, ids: seq<Identifier>, dealt: seq<RefreshShare>)
    requires |z| > 0
  {
    |dealt| == |ids| && forall i {:trigger IsDealt(z, ids[i], dealt[i])} :: 0 <= i < |ids| ==>
      IsDealt(z, ids[i], dealt[i])
  }

  function DealtShares(z: Poly, ids: seq<Identifier>): (dealt: seq<RefreshShare>)
    requires |z| > 0
    ensures AreDealt(z, ids, dealt)
  {
    seq(|ids|, i requires 0 <= i < |ids| => RefreshShareOf(z, ids[i]))
  }

  /** The body of the dealing loop: the participant's share and its new verification key. */
  method RefreshOne(suite: Suite, before: map<Identifier, Element>, z: Poly, commitment: seq<Element>,
                    ids: seq<Identifier>, i: nat,
                    ghost dealt: seq<RefreshShare>)
    returns (r: Result<(RefreshShare, Element)>)
    requires |z| > 0 && commitment == Commit(z)
    requires i < |ids| && AreDealt(z, ids, dealt)
    ensures r.Ok? <==> ids[i] in before
    ensures r.Err? ==> r.error == Blaming([ids[i]], InvalidParticipant)
    ensures r.Ok? ==> r.value == (dealt[i], before[ids[i]].Plus(ScalarBaseMult(Eval(z, ids[i]))))
  {
    var id := ids[i];
    assert IsDealt(z, id, dealt[i]);
    var idScalar := IdentifierToScalar(suite, id);
    var share := PolynomialHelper.Evaluate(z, idScalar.value);
    var refreshShare := RefreshShare(id, share, commitment[1..]);
    if id !in before {
      return Err(Blaming([id], InvalidParticipant));
    }
    var refreshKey := EvaluateCommitmentPolynomial(commitment, idScalar.value);
    PowerSumIsEval(commitment, id);
    r := Ok((refreshShare, before[id].Plus(refreshKey)));
  }

  /** `random` are the scalars drawn for the coefficients above the constant term 0. */
  method ComputeRefreshingShares(suite: Suite, current: PublicKeys, maxSigners: nat, minSigners: nat,
                                 ids: seq<Identifier>, random: Poly)
    returns (r: Result<(seq<RefreshShare>, PublicKeys)>)
    requires minSigners >= 1 ==> |random| == minSigners - 1
    ensures r.Ok? <==> ids != [] && 2 <= minSigners <= maxSigners && forall id :: id in ids ==>
      id in current.verifyingShares
    ensures ids == [] ==> r == Err(Plain(InvalidParameters))
    ensures ids != [] && !(2 <= minSigners <= maxSigners) ==> r == Err(Plain(InvalidThreshold))
    ensures r.Err? && ids != [] && 2 <= minSigners <= maxSigners ==>
      exists i :: 0 <= i < |ids| && ids[i] !in current.verifyingShares
        && (forall j :: 0 <= j < i ==> ids[j] in current.verifyingShares)
        && r.error == Blaming([ids[i]], InvalidParticipant)
    ensures r.Ok? ==>
      var z := [0] + random;
      && r.value.0 == DealtShares(z, ids)
      && Members(ids) <= current.verifyingShares.Keys
      && r.value.1 == PublicKeys(NewVerifyingShares(current.verifyingShares, z, Members(ids)), current.verifyingKey)
  {
    if |ids| == 0 {
      return Err(Plain(InvalidParameters));
    }
    if minSigners < 2 {
      return Err(Plain(InvalidThreshold));
    }
    if minSigners > maxSigners {
      return Err(Plain(InvalidThreshold));
    }
    var coefficients := Dealer.Generate(0, random);
    var commitment := CommitTo(coefficients);
    var dealt := RefreshAll(suite, current.verifyingShares, coefficients, commitment, ids,
                            DealtShares(coefficients, ids));
    if dealt.Err? {
      return Err(dealt.error);
    }
    r := Ok((dealt.value.0, PublicKeys(dealt.value.1, current.verifyingKey)));
  }

  /** The dealing loop. */
  method RefreshAll(suite: Suite, before: map<Identifier, Element>, z: Poly, commitment: seq<Element>,
                    ids: seq<Identifier>,
                    ghost dealtShares: seq<RefreshShare>)
    returns (r: Result<(seq<RefreshShare>, map<Identifier, Element>)>)
    requires |z| > 0 && commitment == Commit(z) && AreDealt(z, ids, dealtShares)
    ensures r.Ok? <==> Members(ids) <= before.Keys
    ensures r.Err? ==>
      exists i :: 0 <= i < |ids| && ids[i] !in before && (forall j :: 0 <= j < i ==> ids[j] in before)
        && r.error == Blaming([ids[i]], InvalidParticipant)
    ensures r.Ok? ==> r.value.0 == dealtShares
    ensures r.Ok? ==> r.value.1 == NewVerifyingShares(before, z, Members(ids))
  {
    var shares: seq<RefreshShare> := [];
    var newShares: map<Identifier, Element> := map[];
    ghost var done: set<Identifier> := {};
    for i := 0 to |ids|
      invariant shares == dealtShares[..i]
      invariant done == Members(ids[..i]) && done <= before.Keys
      invariant forall j :: 0 <= j < i ==> ids[j] in before
      invariant newShares == NewVerifyingShares(before, z, done)
    {
      MembersStep(ids, i);
      var dealt := RefreshOne(suite, before, z, commitment, ids, i, dealtShares);
      if dealt.Err? {
        return Err(dealt.error);
      }
      NewShareStep(before, z, done, ids[i]);
      shares := shares + [dealt.value.0];
      newShares := newShares[ids[i] := dealt.value.1];
      done := done + {ids[i]};
    }
    assert ids[..|ids|] == ids && dealtShares[..|ids|] == dealtShares;
    r := Ok((shares, newShares));
  }

  lemma {:induction false} NewShareStep(before: map<Identifier, Element>, z: Poly, done: set<Identifier>,
                                        id: Identifier)
    requires done <= before.Keys && id in before
    ensures NewVerifyingShares(before, z, done)[id := before[id].Plus(ScalarBaseMult(Eval(z, id)))]
         == NewVerifyingShares(before, z, done + {id})
  {
  }

  lemma {:induction false} MembersStep(ids: seq<Identifier>, i: nat)
    requires i < |ids|
    ensures Members(ids[..i + 1]) == Members(ids[..i]) + {ids[i]}
  {
    assert ids[..i + 1] == ids[..i] + [ids[i]];
  }

  // ---- the participant ----

  /** The package after adding the share, with the own verification key replaced wherever it is listed. */
  function Refreshed(kp: KeyPackage, share: Scalar): KeyPackage {
    var secret := Add(kp.secretShare, share);
    kp.(secretShare := secret, verificationShares := ReplaceKey(kp.verificationShares, kp.id, ScalarBaseMult(secret)))
  }

  function ReplaceKey(vs: seq<VerificationShare>, id: Identifier, key: Element): (r: seq<VerificationShare>)
    ensures |r| == |vs|
    ensures forall i :: 0 <= i < |vs| ==> r[i] == if vs[i].id == id then VerificationShare(id, key) else vs[i]
  {
    seq(|vs|, i requires 0 <= i < |vs| => if vs[i].id == id then VerificationShare(id, key) else vs[i])
  }

  /** Is the share the value at its identifier of the committed polynomial with constant term 0? */
  predicate ValidRefresh(rs: RefreshShare) {
    rs.share == Eval([0] + Logs(rs.commitment), rs.id)
  }

  function ApplyResult(rs: RefreshShare, kp: KeyPackage): Result<KeyPackage> {
    if rs.id != kp.id then Err(Plain(InvalidParticipant))
    else if ValidRefresh(rs) then Ok(Refreshed(kp, rs.share))
    else Err(Plain(InvalidKeyShare))
  }

  /** Accepts exactly a share made out to the participant, with the value of the committed polynomial. */
  method ApplyRefreshShare(suite: Suite, rs: RefreshShare, kp: KeyPackage) returns (r: Result<KeyPackage>)
    ensures r == ApplyResult(rs, kp)
    ensures r.Ok? <==> rs.id == kp.id && rs.share == Eval([0] + Logs(rs.commitment), kp.id)
    ensures r.Err? ==> r.error == Plain(if rs.id != kp.id then InvalidParticipant else InvalidKeyShare)
    ensures r.Ok? ==>
      && r.value.id == kp.id && r.value.groupPublicKey == kp.groupPublicKey
      && r.value.minSigners == kp.minSigners && r.value.maxSigners == kp.maxSigners
      && r.value.secretShare == Add(kp.secretShare, rs.share)
      && |r.value.verificationShares| == |kp.verificationShares|
    ensures r.Ok? ==> forall j :: 0 <= j < |kp.verificationShares| ==>
      r.value.verificationShares[j] == if kp.verificationShares[j].id != kp.id then kp.verificationShares[j]
        else VerificationShare(kp.id, ScalarBaseMult(r.value.secretShare))
  {
    if rs.id != kp.id {
      return Err(Plain(InvalidParticipant));
    }
    var fullCommitment := [IDENTITY] + rs.commitment;
    var idScalar := IdentifierToScalar(suite, rs.id);
    var left := ScalarBaseMult(rs.share);
    var right := EvaluateCommitmentPolynomial(fullCommitment, idScalar.value);
    PowerSumIsEval(fullCommitment, idScalar.value);
    assert Logs(fullCommitment) == [0] + Logs(rs.commitment);
    if left != right {
      return Err(Plain(InvalidKeyShare));
    }
    var newShare := Add(kp.secretShare, rs.share);
    var newKey := ScalarBaseMult(newShare);
    var newShares: seq<VerificationShare> := [];
    for i := 0 to |kp.verificationShares|
      invariant newShares == ReplaceKey(kp.verificationShares, kp.id, newKey)[..i]
    {
      if kp.verificationShares[i].id == rs.id {
        newShares := newShares + [VerificationShare(kp.verificationShares[i].id, newKey)];
      } else {
        newShares := newShares + [kp.verificationShares[i]];
      }
    }
    assert newShares == ReplaceKey(kp.verificationShares, kp.id, newKey);
    r := Ok(KeyPackage(kp.id, newShare, kp.groupPublicKey, newShares, kp.minSigners, kp.maxSigners));
  }

  // ---- any number of rounds ----

  /** The public keys, and the key packages of the participants that have taken part so far. */
  datatype GroupState = GroupState(packages: map<Identifier, KeyPackage>, keys: PublicKeys)

  /** One refresh: its threshold, the coefficients drawn, and the participants it is for. */
  datatype Round = Round(minSigners: nat, random: Poly, ids: seq<Identifier>)

  /** Every package is a share of p, under the key it lists and the group's unchanged public key. */
  ghost predicate SharesOf(g: GroupState, p: Poly) {
    && g.packages.Keys <= g.keys.verifyingShares.Keys
    && |p| > 0 && g.keys.verifyingKey == ScalarBaseMult(p[0])
    && forall id :: id in g.packages ==>
         && g.packages[id].id == id
         && g.packages[id].secretShare == Eval(p, id)
         && g.packages[id].groupPublicKey == g.keys.verifyingKey
         && g.keys.verifyingShares[id] == ScalarBaseMult(Eval(p, id))
  }

  /** Wherever the package lists its own participant, it is with the participant's current key. */
  ghost predicate OwnEntryCurrent(kp: KeyPackage, keys: PublicKeys) {
    forall j :: 0 <= j < |kp.verificationShares| && kp.verificationShares[j].id == kp.id ==>
      kp.id in keys.verifyingShares && kp.verificationShares[j].key == keys.verifyingShares[kp.id]
  }

  ghost predicate OwnEntriesCurrent(g: GroupState) {
    forall id :: id in g.packages ==> OwnEntryCurrent(g.packages[id], g.keys)
  }

  /** The group after a round in which the dealer's call succeeds and every addressed participant applies its share. */
  function AfterRound(g: GroupState, round: Round): GroupState
    requires Members(round.ids) <= g.keys.verifyingShares.Keys
  {
    var z, ids := [0] + round.random, Members(round.ids);
    GroupState(map id | id in g.packages && id in ids :: Refreshed(g.packages[id], Eval(z, id)),
               PublicKeys(NewVerifyingShares(g.keys.verifyingShares, z, ids), g.keys.verifyingKey))
  }

  /** The share dealt for a participant is made out to it and holds the value of the refreshing polynomial there; the
      participant accepts it, and arrives at the package that it has after the round. */
  lemma {:induction false} DealtShareApplies(g: GroupState, round: Round, i: nat)
    requires Members(round.ids) <= g.keys.verifyingShares.Keys && i < |round.ids|
    requires round.ids[i] in g.packages && g.packages[round.ids[i]].id == round.ids[i]
    ensures var id, dealt := round.ids[i], DealtShares([0] + round.random, round.ids)[i];
      && dealt.id == id && dealt.share == Eval([0] + round.random, id) && dealt.commitment == Commit(round.random)
      && id in AfterRound(g, round).packages
      && ApplyResult(dealt, g.packages[id]) == Ok(AfterRound(g, round).packages[id])
      && AfterRound(g, round).packages[id].secretShare
         == Add(g.packages[id].secretShare, Eval([0] + round.random, id))
  {
    var z := [0] + round.random;
    assert IsDealt(z, round.ids[i], DealtShares(z, round.ids)[i]);
    assert Commit(z)[1..] == Commit(round.random);
    assert Logs(Commit(round.random)) == round.random;
  }

  ghost predicate Step(g: GroupState, round: Round, g': GroupState) {
    && |round.random| + 1 == round.minSigners
    && Members(round.ids) <= g.keys.verifyingShares.Keys
    && g' == AfterRound(g, round)
  }

  /** One refresh with a threshold not above the number of coefficients keeps the secret. */
  lemma {:induction false} StepKeepsSecret(g: GroupState, round: Round, g': GroupState, p: Poly)
    requires SharesOf(g, p) && Step(g, round, g') && round.minSigners <= |p|
    ensures var p' := Plus(p, Padded([0] + round.random, |p|));
      SharesOf(g', p') && |p'| == |p| && p'[0] == p[0]
    ensures OwnEntriesCurrent(g')
  {
    var z := [0] + round.random;
    var p' := Plus(p, Padded(z, |p|));
    forall id | id in g'.packages
      ensures Eval(p', id) == Add(Eval(p, id), Eval(z, id))
    {
      EvalPlus(p, Padded(z, |p|), id);
      EvalPadded(z, |p|, id);
    }
    PaddedHead(z, |p|);
    AddZero(p[0]);
  }

  lemma {:induction false} PaddedHead(p: Poly, n: nat)
    requires 0 < |p| <= n
    ensures Padded(p, n)[0] == p[0]
    decreases n - |p|
  {
    if |p| < n {
      PaddedHead(p + [0], n);
    }
  }

  ghost predicate Run(states: seq<GroupState>, rounds: seq<Round>) {
    |states| == |rounds| + 1 && forall i :: 0 <= i < |rounds| ==> Step(states[i], rounds[i], states[i + 1])
  }

  /** Over any number of rounds, with thresholds not above t, the shares stay shares of one polynomial with t
      coefficients and the original secret. */
  lemma {:induction false} RefreshPreservesSecret(states: seq<GroupState>, rounds: seq<Round>, p: Poly)
    returns (q: Poly)
    requires Run(states, rounds) && SharesOf(states[0], p)
    requires forall i :: 0 <= i < |rounds| ==> rounds[i].minSigners <= |p|
    ensures SharesOf(states[|rounds|], q) && |q| == |p| && q[0] == p[0]
    ensures states[|rounds|].keys.verifyingKey == states[0].keys.verifyingKey
    ensures |rounds| > 0 ==> OwnEntriesCurrent(states[|rounds|])
    decreases |rounds|
  {
    if |rounds| == 0 {
      q := p;
    } else {
      var n := |rounds| - 1;
      var earlier := RefreshPreservesSecret(states[..n + 1], rounds[..n], p);
      assert states[..n + 1][n] == states[n];
      StepKeepsSecret(states[n], rounds[n], states[n + 1], earlier);
      q := Plus(earlier, Padded([0] + rounds[n].random, |earlier|));
    }
  }

  // ---- the keys a package lists for the others ----

  /** The values at x of the refreshing polynomials, added up. */
  function ShiftOver(rounds: seq<Round>, x: Identifier): Scalar {
    if rounds == [] then 0
    else
      var n := |rounds| - 1;
      Add(ShiftOver(rounds[..n], x), Eval([0] + rounds[n].random, x))
  }

  lemma {:induction false} RunPrefix(states: seq<GroupState>, rounds: seq<Round>)
    requires Run(states, rounds) && rounds != []
    ensures var n := |rounds| - 1;
      Run(states[..n + 1], rounds[..n]) && states[..n + 1][n] == states[n] && states[..n + 1][0] == states[0]
  {
  }

  lemma {:induction false} KeyInStep(g: GroupState, round: Round, g': GroupState, x: Identifier)
    requires Step(g, round, g') && x in g'.keys.verifyingShares
    ensures x in g.keys.verifyingShares
    ensures g'.keys.verifyingShares[x].log == Add(g.keys.verifyingShares[x].log, Eval([0] + round.random, x))
  {
  }

  /** A participant's verification key moves by these values. */
  lemma {:induction false} KeyOverRun(states: seq<GroupState>, rounds: seq<Round>, x: Identifier)
    requires Run(states, rounds) && x in states[|rounds|].keys.verifyingShares
    ensures x in states[0].keys.verifyingShares
    ensures states[|rounds|].keys.verifyingShares[x].log
      == Add(states[0].keys.verifyingShares[x].log, ShiftOver(rounds, x))
    decreases |rounds|
  {
    var first := states[0].keys.verifyingShares;
    if rounds == [] {
      AddZero(first[x].log);
    } else {
      var n := |rounds| - 1;
      RunPrefix(states, rounds);
      KeyInStep(states[n], rounds[n], states[n + 1], x);
      KeyOverRun(states[..n + 1], rounds[..n], x);
      AddAssoc(first[x].log, ShiftOver(rounds[..n], x), Eval([0] + rounds[n].random, x));
    }
  }

  /** The same entries, but for the keys listed under the identifier. */
  predicate SameForOthers(before: seq<VerificationShare>, after: seq<VerificationShare>, id: Identifier) {
    && |after| == |before|
    && forall j :: 0 <= j < |before| ==> after[j].id == before[j].id && (before[j].id != id ==> after[j] == before[j])
  }

  /** A package keeps its name, and the entries it has for others. */
  lemma {:induction false} EntryOverRun(states: seq<GroupState>, rounds: seq<Round>, id: Identifier)
    requires Run(states, rounds) && id in states[|rounds|].packages
    ensures id in states[0].packages && states[|rounds|].packages[id].id == states[0].packages[id].id
    ensures SameForOthers(states[0].packages[id].verificationShares, states[|rounds|].packages[id].verificationShares,
                          states[0].packages[id].id)
    decreases |rounds|
  {
    if rounds != [] {
      var n := |rounds| - 1;
      RunPrefix(states, rounds);
      assert Step(states[n], rounds[n], states[n + 1]);
      EntryOverRun(states[..n + 1], rounds[..n], id);
    }
  }

  lemma {:induction false} SameAfterShift(a: Scalar, shift: Scalar)
    ensures a == Add(a, shift) <==> shift == 0
  {
    AddZero(a);
    AddComm(a, shift);
    if a == Add(a, shift) {
      AddCancel(shift, 0, a);
    }
  }

  /** Applying shares leaves the keys that a package lists for the others as they were. Such a key, current before the
      rounds, is current after them exactly if the values there of the refreshing polynomials add up to 0. */
  lemma {:induction false} OthersEntryCurrent(states: seq<GroupState>, rounds: seq<Round>, id: Identifier, j: nat)
    requires Run(states, rounds) && id in states[0].packages && id in states[|rounds|].packages
    requires j < |states[0].packages[id].verificationShares|
    requires var other := states[0].packages[id].verificationShares[j];
      && other.id != states[0].packages[id].id
      && other.id in states[0].keys.verifyingShares && other.key == states[0].keys.verifyingShares[other.id]
      && other.id in states[|rounds|].keys.verifyingShares
    ensures |states[|rounds|].packages[id].verificationShares| == |states[0].packages[id].verificationShares|
    ensures var other := states[|rounds|].packages[id].verificationShares[j];
      && other.id == states[0].packages[id].verificationShares[j].id
      && (other.key == states[|rounds|].keys.verifyingShares[other.id] <==> ShiftOver(rounds, other.id) == 0)
  {
    var other := states[0].packages[id].verificationShares[j];
    KeyOverRun(states, rounds, other.id);
    EntryOverRun(states, rounds, id);
    SameAfterShift(other.key.log, ShiftOver(rounds, other.id));
  }

  /** After any number of rounds any t of the refreshed shares give back the original secret. */
  lemma {:induction false} RefreshedSharesReconstruct(states: seq<GroupState>, rounds: seq<Round>, p: Poly,
                                                      ids: seq<Identifier>, shares: seq<Scalar>)
    requires Run(states, rounds) && SharesOf(states[0], p)
    requires forall i :: 0 <= i < |rounds| ==> rounds[i].minSigners <= |p|
    requires Distinct(ids) && |p| <= |ids| == |shares|
    requires forall i :: 0 <= i < |ids| ==>
      ids[i] in states[|rounds|].packages && shares[i] == states[|rounds|].packages[ids[i]].secretShare
    ensures Dot(shares, Coefficients(Dealer.Scalars(ids), 0)) == p[0]
  {
    var q := RefreshPreservesSecret(states, rounds, p);
    Interpolation(q, Dealer.Scalars(ids), shares, 0);
    Dealer.EvalAtZero(q);
  }
}
