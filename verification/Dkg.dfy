/** Distributed key generation in three rounds. */
module Dkg {
  import opened PrimeField
  import opened Group
  import opened Types
  import opened Sums
  import opened MapSums
  import opened Polynomial
  import opened Encoding
  import opened Vss
  import PolynomialHelper

  datatype Proof = Proof(R: Element, z: Scalar)

  datatype Round1Package = Round1Package(commitment: seq<Element>, proof: Proof)

  datatype Round1Secret = Round1Secret(
    id: Identifier, coefficients: Poly, commitment: seq<Element>, minSigners: nat, maxSigners: nat)

  datatype Round2Package = Round2Package(share: Scalar)

  datatype Round2Secret = Round2Secret(
    id: Identifier, commitment: seq<Element>, secretShare: Scalar, minSigners: nat, maxSigners: nat)

  datatype PublicKeys = PublicKeys(verifyingShares: map<Identifier, Element>, verifyingKey: Element)

  // ---- round 1 ----

  function ProofInput(suite: Suite, id: Identifier, commitment: Element, R: Element): Bytes {
    IdentifierBytes(suite, id) + suite.ElementBytes(commitment) + suite.ElementBytes(R)
  }

  /** HDKG(identifier || commitment || R) */
  function ProofChallenge(suite: Suite, id: Identifier, commitment: Element, R: Element): Scalar {
    suite.HDKG(ProofInput(suite, id, commitment, R))
  }

  /** What is hashed is the identifier, the commitment and R, in this order. */
  lemma {:induction false} ProofChallengeExact(suite: Suite, id: Identifier, commitment: Element, R: Element,
                                               input: Bytes)
    requires var n, m := suite.scalarLen, |suite.ElementBytes(commitment)|;
      && |input| == n + m + |suite.ElementBytes(R)| && input[..n] == IdentifierBytes(suite, id)
      && input[n..n + m] == suite.ElementBytes(commitment) && input[n + m..] == suite.ElementBytes(R)
    ensures input == ProofInput(suite, id, commitment, R)
    ensures ProofChallenge(suite, id, commitment, R) == suite.HDKG(input)
  {
    var n, m := suite.scalarLen, |suite.ElementBytes(commitment)|;
    assert input == input[..n] + input[n..n + m] + input[n + m..];
  }

  /** Proofs hash one input only if they are of one participant, one commitment and one R. */
  lemma {:induction false} ProofInputBinds(suite: Suite, id: Identifier, commitment: Element, R: Element,
                                           id': Identifier, commitment': Element, R': Element)
    requires FaithfulElements(suite)
    ensures ProofInput(suite, id, commitment, R) == ProofInput(suite, id', commitment', R') <==>
      id == id' && commitment == commitment' && R == R'
  {
    var n, m := suite.scalarLen, suite.elementLen;
    var bs, bs' := ProofInput(suite, id, commitment, R), ProofInput(suite, id', commitment', R');
    assert bs[..n] == IdentifierBytes(suite, id) && bs'[..n] == IdentifierBytes(suite, id');
    assert bs[n..n + m] == suite.ElementBytes(commitment) && bs'[n..n + m] == suite.ElementBytes(commitment');
    assert bs[n + m..] == suite.ElementBytes(R) && bs'[n + m..] == suite.ElementBytes(R');
    if bs == bs' {
      IdentifierBytesInjective(suite, id, id');
    }
  }

  predicate ProofHolds(suite: Suite, id: Identifier, pkg: Round1Package)
    requires pkg.commitment != []
  {
    var c := ProofChallenge(suite, id, pkg.commitment[0], pkg.proof.R);
    ScalarBaseMult(pkg.proof.z) == pkg.proof.R.Plus(ScalarMult(pkg.commitment[0], c))
  }

  function Prove(suite: Suite, id: Identifier, secret: Scalar, commitment: Element, k: Scalar): Proof {
    var R := ScalarBaseMult(k);
    Proof(R, Add(k, Mul(secret, ProofChallenge(suite, id, commitment, R))))
  }

  /** A proof made with the committed secret is always accepted. */
  lemma {:induction false} ProofComplete(suite: Suite, id: Identifier, p: Poly, k: Scalar)
    requires p != []
    ensures ProofHolds(suite, id, Round1Package(Commit(p), Prove(suite, id, p[0], ScalarBaseMult(p[0]), k)))
  {
  }

  /** For a committed secret a and any R exactly one response is accepted: r + a*c. */
  lemma {:induction false} ProofDetermined(suite: Suite, id: Identifier, pkg: Round1Package, a: Scalar)
    requires pkg.commitment != [] && pkg.commitment[0] == ScalarBaseMult(a)
    ensures ProofHolds(suite, id, pkg) <==>
       pkg.proof.z == Add(pkg.proof.R.log, Mul(a, ProofChallenge(suite, id, pkg.commitment[0], pkg.proof.R)))
  {
  }

  /** Knowledge: two accepted proofs with one R whose challenges differ give the committed secret away, as
      (z - z') / (c - c'). The challenges come from two hash functions or two identifiers. */
  lemma {:induction false} ProofExtracts(s: Suite, i: Identifier, p: Round1Package, t: Suite, j: Identifier,
                                         q: Round1Package)
    requires p.commitment != [] && q.commitment != [] && p.commitment[0] == q.commitment[0] && p.proof.R == q.proof.R
    requires ProofHolds(s, i, p) && ProofHolds(t, j, q)
    requires ProofChallenge(s, i, p.commitment[0], p.proof.R) != ProofChallenge(t, j, q.commitment[0], q.proof.R)
    ensures var c, d := ProofChallenge(s, i, p.commitment[0], p.proof.R),
      ProofChallenge(t, j, q.commitment[0], q.proof.R);
            p.commitment[0] == ScalarBaseMult(Mul(Sub(p.proof.z, q.proof.z), Inv(Sub(c, d))))
  {
    var c, d := ProofChallenge(s, i, p.commitment[0], p.proof.R), ProofChallenge(t, j, q.commitment[0], q.proof.R);
    var a, r := p.commitment[0].log, p.proof.R.log;
    ResponseDifference(r, a, c, d);
    SubZero(c, d);
    MulAssoc(a, Sub(c, d), Inv(Sub(c, d)));
    MulInv(Sub(c, d));
    MulOne(a);
  }

  /** (r + a*c) - (r + a*d) == a * (c - d) */
  lemma {:induction false} ResponseDifference(r: Scalar, a: Scalar, c: Scalar, d: Scalar)
    ensures Sub(Add(r, Mul(a, c)), Add(r, Mul(a, d))) == Mul(a, Sub(c, d))
  {
    var e := Mul(a, Sub(c, d));
    SubLaws(c, d, a);
    SubAdd(Mul(a, c), Mul(a, d));
    AddAssoc(r, e, Mul(a, d));
    AddComm(r, e);
    AddAssoc(e, r, Mul(a, d));
    SubAdd(e, Add(r, Mul(a, d)));
  }

  /** The public package of a participant with coefficients p and proof nonce k. */
  function Package1(suite: Suite, id: Identifier, p: Poly, k: Scalar): Round1Package
    requires p != []
  {
    Round1Package(Commit(p), Prove(suite, id, p[0], ScalarBaseMult(p[0]), k))
  }

  /** `random` are the drawn coefficients and k the drawn proof nonce. */
  method Part1(suite: Suite, id: Identifier, maxSigners: nat, minSigners: nat, random: Poly, k: Scalar)
    returns (r: Result<(Round1Secret, Round1Package)>)
    requires |random| == minSigners
    ensures r.Ok? <==> 2 <= minSigners <= maxSigners && id != 0
    ensures r.Ok? ==> r.value == (Round1Secret(id, random, Commit(random), minSigners, maxSigners),
                                  Package1(suite, id, random, k))
    ensures r.Err? ==> r.error == Plain(if 2 <= minSigners <= maxSigners then InvalidParticipant else InvalidThreshold)
  {
    if minSigners < 2 {
      return Err(Plain(InvalidThreshold));
    }
    if maxSigners < 2 {
      return Err(Plain(InvalidThreshold));
    }
    if minSigners > maxSigners {
      return Err(Plain(InvalidThreshold));
    }
    if id == 0 {
      return Err(Plain(InvalidParticipant));
    }
    var coefficients: Poly := [];
    for i := 0 to minSigners
      invariant coefficients == random[..i]
    {
      coefficients := coefficients + [random[i]];
    }
    assert coefficients == random;
    var commitment: seq<Element> := [];
    for i := 0 to |coefficients|
      invariant commitment == Commit(random)[..i]
    {
      commitment := commitment + [ScalarBaseMult(coefficients[i])];
    }
    assert commitment == Commit(random);
    var proof := Prove(suite, id, coefficients[0], commitment[0], k);
    r := Ok((Round1Secret(id, coefficients, commitment, minSigners, maxSigners), Round1Package(commitment, proof)));
  }

  method VerifyProofOfKnowledge(suite: Suite, id: Identifier, pkg: Round1Package) returns (r: Result<()>)
    ensures pkg.commitment == [] ==> r == Err(Plain(InvalidCommitment))
    ensures pkg.commitment != [] ==> r == if ProofHolds(suite, id, pkg) then Ok(())
      else Err(Blaming([id], InvalidSignature))
  {
    if |pkg.commitment| == 0 {
      return Err(Plain(InvalidCommitment));
    }
    var challenge := ProofChallenge(suite, id, pkg.commitment[0], pkg.proof.R);
    var left := ScalarBaseMult(pkg.proof.z);
    var right := pkg.proof.R.Plus(ScalarMult(pkg.commitment[0], challenge));
    if left != right {
      return Err(Blaming([id], InvalidSignature));
    }
    r := Ok(());
  }

  // ---- round 2 ----

  predicate AcceptsRound1(suite: Suite, minSigners: nat, id: Identifier, pkg: Round1Package) {
    |pkg.commitment| == minSigners && pkg.commitment != [] && ProofHolds(suite, id, pkg)
  }

  /** An accepted package has a commitment of the right length and, for the committed secret and its R, the one valid
      response. */
  lemma {:induction false} AcceptsRound1Exact(suite: Suite, minSigners: nat, id: Identifier, pkg: Round1Package)
    ensures AcceptsRound1(suite, minSigners, id, pkg) <==>
      && |pkg.commitment| == minSigners > 0
      && pkg.proof.z == Add(pkg.proof.R.log, Mul(pkg.commitment[0].log,
                                                 ProofChallenge(suite, id, pkg.commitment[0], pkg.proof.R)))
  {
    if pkg.commitment != [] {
      ProofDetermined(suite, id, pkg, pkg.commitment[0].log);
    }
  }

  /** The number of peers expected, in the 32-bit arithmetic of the package. */
  function ExpectedPeers(maxSigners: nat): nat
    requires maxSigners < IDENTIFIER_BOUND
  {
    if maxSigners == 0 then IDENTIFIER_BOUND - 1 else maxSigners - 1
  }

  function Shares2(p: Poly, peers: set<Identifier>): map<Identifier, Round2Package> {
    map id | id in peers :: Round2Package(Eval(p, id))
  }

  function Secret2(secret: Round1Secret): Round2Secret {
    Round2Secret(secret.id, secret.commitment, Eval(secret.coefficients, secret.id), secret.minSigners,
                 secret.maxSigners)
  }

  /** The first loop of round two. The packages are met in any order. */
  method CheckRound1(suite: Suite, minSigners: nat, round1: map<Identifier, Round1Package>) returns (r: Result<()>)
    ensures r.Ok? <==> forall id :: id in round1 ==> AcceptsRound1(suite, minSigners, id, round1[id])
    ensures r.Err? ==>
      exists id :: id in round1 && !AcceptsRound1(suite, minSigners, id, round1[id])
        && r.error == if |round1[id].commitment| != minSigners then Blaming([id], InvalidCommitment)
                      else if minSigners == 0 then Plain(InvalidCommitment)
                      else Blaming([id], InvalidSignature)
  {
    var remaining := round1.Keys;
    while remaining != {}
      invariant remaining <= round1.Keys
      invariant forall id :: id in round1.Keys - remaining ==> AcceptsRound1(suite, minSigners, id, round1[id])
      decreases |remaining|
    {
      var senderID :| senderID in remaining;
      if |round1[senderID].commitment| != minSigners {
        return Err(Blaming([senderID], InvalidCommitment));
      }
      var checked := VerifyProofOfKnowledge(suite, senderID, round1[senderID]);
      if checked.Err? {
        return Err(checked.error);
      }
      remaining := remaining - {senderID};
    }
    r := Ok(());
  }

  /** The second loop of round two. */
  method DealShares(suite: Suite, p: Poly, peers: set<Identifier>) returns (packages: map<Identifier, Round2Package>)
    ensures packages == Shares2(p, peers)
  {
    packages := map[];
    var remaining := peers;
    while remaining != {}
      invariant remaining <= peers
      invariant packages == Shares2(p, peers - remaining)
      decreases |remaining|
    {
      var peerID :| peerID in remaining;
      var peerScalar := IdentifierToScalar(suite, peerID);
      var share := PolynomialHelper.Evaluate(p, peerScalar.value);
      packages := packages[peerID := Round2Package(share)];
      remaining := remaining - {peerID};
    }
    assert peers - remaining == peers;
  }

  /** Succeeds exactly when every peer's package has a commitment of the right length and the one valid response for its
      secret and R. */
  method Part2(suite: Suite, secret: Round1Secret, round1: map<Identifier, Round1Package>)
    returns (r: Result<(Round2Secret, map<Identifier, Round2Package>)>)
    requires secret.maxSigners < IDENTIFIER_BOUND
    ensures r.Ok? <==>
      && |round1| == (if secret.maxSigners == 0 then IDENTIFIER_BOUND - 1 else secret.maxSigners - 1)
      && forall id :: id in round1 ==>
           && |round1[id].commitment| == secret.minSigners > 0
           && var c, proof := round1[id].commitment[0], round1[id].proof;
              proof.z == Add(proof.R.log, Mul(c.log, ProofChallenge(suite, id, c, proof.R)))
    ensures r.Ok? ==> r.value == (Secret2(secret), Shares2(secret.coefficients, round1.Keys))
    ensures r.Ok? ==> r.value.0 == Round2Secret(secret.id, secret.commitment, Eval(secret.coefficients, secret.id),
                                                secret.minSigners, secret.maxSigners)
    ensures r.Ok? ==> r.value.1.Keys == round1.Keys
    ensures r.Ok? ==> forall id :: id in round1 ==> r.value.1[id].share == Eval(secret.coefficients, id)
    ensures |round1| != (if secret.maxSigners == 0 then IDENTIFIER_BOUND - 1 else secret.maxSigners - 1) ==>
      r == Err(Plain(InsufficientParticipants))
    ensures r.Err? && |round1| == ExpectedPeers(secret.maxSigners) ==>
      exists id :: id in round1 && !AcceptsRound1(suite, secret.minSigners, id, round1[id])
        && r.error == if |round1[id].commitment| != secret.minSigners then Blaming([id], InvalidCommitment)
                      else if secret.minSigners == 0 then Plain(InvalidCommitment)
                      else Blaming([id], InvalidSignature)
  {
    if |round1| != ExpectedPeers(secret.maxSigners) {
      return Err(Plain(InsufficientParticipants));
    }
    forall id | id in round1
      ensures AcceptsRound1(suite, secret.minSigners, id, round1[id]) <==>
        && |round1[id].commitment| == secret.minSigners > 0
        && var c, proof := round1[id].commitment[0], round1[id].proof;
           proof.z == Add(proof.R.log, Mul(c.log, ProofChallenge(suite, id, c, proof.R)))
    {
      AcceptsRound1Exact(suite, secret.minSigners, id, round1[id]);
    }
    var checked := CheckRound1(suite, secret.minSigners, round1);
    if checked.Err? {
      return Err(checked.error);
    }
    var myScalar := IdentifierToScalar(suite, secret.id);
    var ownShare := PolynomialHelper.Evaluate(secret.coefficients, myScalar.value);
    var packages := DealShares(suite, secret.coefficients, round1.Keys);
    r := Ok((Round2Secret(secret.id, secret.commitment, ownShare, secret.minSigners, secret.maxSigners), packages));
  }

  method VerifyShare(suite: Suite, id: Identifier, share: Scalar, commitment: seq<Element>) returns (r: Result<()>)
    ensures r == if commitment == [] then Err(Plain(InvalidCommitment))
                 else if share == Eval(Logs(commitment), id) then Ok(())
                 else Err(Blaming([id], InvalidKeyShare))
  {
    if |commitment| == 0 {
      return Err(Plain(InvalidCommitment));
    }
    var idScalar := IdentifierToScalar(suite, id);
    var left := ScalarBaseMult(share);
    var right := EvaluateCommitmentPolynomial(commitment, idScalar.value);
    PowerSumIsEval(commitment, idScalar.value);
    if left != right {
      return Err(Blaming([id], InvalidKeyShare));
    }
    r := Ok(());
  }

  // ---- round 3 ----

  /** The commitments that are added up: one's own, and those of the peers. */
  function AllCommitments(secret: Round2Secret, round1: map<Identifier, Round1Package>): map<Identifier, seq<Element>> {
    map[secret.id := secret.commitment] + map id | id in round1 :: round1[id].commitment
  }

  predicate LongEnough(t: nat, all: map<Identifier, seq<Element>>) {
    forall id :: id in all ==> t <= |all[id]|
  }

  /** The k-th coefficient commitments, as logarithms. */
  function Column(all: map<Identifier, seq<Element>>, k: nat): map<Identifier, Scalar>
    requires LongEnough(k + 1, all)
  {
    map id | id in all :: all[id][k].log
  }

  /** The summed polynomial: coefficient k is the sum of everyone's coefficient k. */
  ghost function Joint(all: map<Identifier, seq<Element>>, t: nat): (p: Poly)
    requires LongEnough(t, all)
    ensures |p| == t && forall k :: 0 <= k < t ==> p[k] == Total(Column(all, k))
  {
    seq(t, k requires 0 <= k < t => Total(Column(all, k)))
  }

  predicate AcceptsShare(secret: Round2Secret, pkg1: Round1Package, pkg2: Round2Package) {
    pkg1.commitment != [] && pkg2.share == Eval(Logs(pkg1.commitment), secret.id)
  }

  predicate AcceptsRound2(secret: Round2Secret, round1: map<Identifier, Round1Package>,
                          round2: map<Identifier, Round2Package>)
    requires secret.maxSigners < IDENTIFIER_BOUND
  {
    && |round1| == |round2| == ExpectedPeers(secret.maxSigners)
    && round1.Keys == round2.Keys
    && forall id :: id in round1 ==> AcceptsShare(secret, round1[id], round2[id])
  }

  function ShareScalars(round2: map<Identifier, Round2Package>): map<Identifier, Scalar> {
    map id | id in round2 :: round2[id].share
  }

  /** Adds the commitments up, coefficient by coefficient, meeting the participants in any order. A commitment with
      fewer than t entries is read past its end. */
  method SumCommitments(all: map<Identifier, seq<Element>>, t: nat) returns (r: Result<seq<Element>>)
    ensures r.Ok? <==> LongEnough(t, all)
    ensures r.Ok? ==> |r.value| == t && Logs(r.value) == Joint(all, t)
    ensures r.Err? ==> r.error == Plain(RuntimePanic)
  {
    var summed: seq<Element> := seq(t, _ => IDENTITY);
    var remaining := all.Keys;
    ghost var done: map<Identifier, seq<Element>> := map[];
    JointEmpty(t);
    while remaining != {}
      invariant remaining <= all.Keys
      invariant done == map id | id in all.Keys - remaining :: all[id]
      invariant LongEnough(t, done) && |summed| == t
      invariant forall k :: 0 <= k < t ==> summed[k].log == Joint(done, t)[k]
      decreases |remaining|
    {
      var id :| id in remaining;
      var added := AddCommitment(summed, all[id]);
      if added.Err? {
        return Err(added.error);
      }
      summed := added.value;
      JointInsert(done, id, all[id], t);
      done := done[id := all[id]];
      remaining := remaining - {id};
    }
    assert done == all;
    r := Ok(summed);
  }

  method AddCommitment(summed: seq<Element>, commitment: seq<Element>) returns (r: Result<seq<Element>>)
    ensures r.Ok? <==> |summed| <= |commitment|
    ensures r.Ok? ==> |r.value| == |summed| && forall k :: 0 <= k < |summed| ==>
      r.value[k] == summed[k].Plus(commitment[k])
    ensures r.Err? ==> r.error == Plain(RuntimePanic)
  {
    var sums := summed;
    for k := 0 to |summed|
      invariant |sums| == |summed| && k <= |commitment|
      invariant forall i :: 0 <= i < k ==> sums[i] == summed[i].Plus(commitment[i])
      invariant forall i :: k <= i < |sums| ==> sums[i] == summed[i]
    {
      if k >= |commitment| {
        return Err(Plain(RuntimePanic));
      }
      sums := sums[k := sums[k].Plus(commitment[k])];
    }
    r := Ok(sums);
  }

  /** Evaluates the summed commitments at every identifier. */
  method VerifyingShares(suite: Suite, summed: seq<Element>, ids: set<Identifier>)
    returns (shares: map<Identifier, Element>)
    ensures shares == map id | id in ids :: ScalarBaseMult(Eval(Logs(summed), id))
  {
    shares := map[];
    var remaining := ids;
    while remaining != {}
      invariant remaining <= ids
      invariant shares == map id | id in ids - remaining :: ScalarBaseMult(Eval(Logs(summed), id))
      decreases |remaining|
    {
      var id :| id in remaining;
      var idScalar := IdentifierToScalar(suite, id);
      var verifyingShare := EvaluateCommitmentPolynomial(summed, idScalar.value);
      PowerSumIsEval(summed, id);
      shares := shares[id := verifyingShare];
      remaining := remaining - {id};
    }
    assert ids - remaining == ids;
  }

  /** Everyone's verification key, and the group's, from the joint polynomial. */
  ghost function JointKeys(all: map<Identifier, seq<Element>>, t: nat): PublicKeys
    requires t >= 1 && LongEnough(t, all)
  {
    PublicKeys(map id | id in all :: ScalarBaseMult(Eval(Joint(all, t), id)), ScalarBaseMult(Joint(all, t)[0]))
  }

  /** Are all the entries there that the aggregation reads? */
  predicate Complete(secret: Round2Secret, round1: map<Identifier, Round1Package>) {
    secret.minSigners >= 1 && LongEnough(secret.minSigners, AllCommitments(secret, round1))
  }

  method AggregateCommitments(suite: Suite, secret: Round2Secret, round1: map<Identifier, Round1Package>)
    returns (r: Result<PublicKeys>)
    ensures r.Ok? <==> Complete(secret, round1)
    ensures r.Ok? ==> r.value == JointKeys(AllCommitments(secret, round1), secret.minSigners)
    ensures r.Err? ==> r.error == Plain(RuntimePanic)
  {
    var all := AllCommitments(secret, round1);
    var summed := SumCommitments(all, secret.minSigners);
    if summed.Err? {
      return Err(summed.error);
    }
    if |summed.value| == 0 {
      return Err(Plain(RuntimePanic));
    }
    var shares := VerifyingShares(suite, summed.value, all.Keys);
    r := Ok(PublicKeys(shares, summed.value[0]));
  }

  lemma {:induction false} JointEmpty(t: nat)
    ensures forall k :: 0 <= k < t ==> Joint(map[], t)[k] == 0
  {
    TotalEmpty();
    forall k | 0 <= k < t
      ensures Joint(map[], t)[k] == 0
    {
      assert Column(map[], k) == map[];
    }
  }

  lemma {:induction false} JointInsert(all: map<Identifier, seq<Element>>, id: Identifier, cs: seq<Element>, t: nat)
    requires id !in all && LongEnough(t, all) && t <= |cs|
    ensures LongEnough(t, all[id := cs])
    ensures forall k :: 0 <= k < t ==> Joint(all[id := cs], t)[k] == Add(Joint(all, t)[k], cs[k].log)
  {
    forall k | 0 <= k < t
      ensures Joint(all[id := cs], t)[k] == Add(Joint(all, t)[k], cs[k].log)
    {
      assert Column(all[id := cs], k) == Column(all, k)[id := cs[k].log];
      TotalInsert(Column(all, k), id, cs[k].log);
    }
  }

  /** Every entry of the map, once each, in some order. */
  ghost predicate Lists(vs: seq<VerificationShare>, shares: map<Identifier, Element>) {
    && |vs| == |shares|
    && (forall i :: 0 <= i < |vs| ==> vs[i].id in shares && vs[i].key == shares[vs[i].id])
    && (forall i, j :: 0 <= i < j < |vs| ==> vs[i].id != vs[j].id)
  }

  method ListShares(shares: map<Identifier, Element>) returns (vs: seq<VerificationShare>)
    ensures Lists(vs, shares)
  {
    vs := [];
    var remaining := shares.Keys;
    while remaining != {}
      invariant remaining <= shares.Keys
      invariant |vs| + |remaining| == |shares|
      invariant forall i :: 0 <= i < |vs| ==> vs[i].id in shares.Keys - remaining && vs[i].key == shares[vs[i].id]
      invariant forall i, j :: 0 <= i < j < |vs| ==> vs[i].id != vs[j].id
      decreases |remaining|
    {
      var id :| id in remaining;
      vs := vs + [VerificationShare(id, shares[id])];
      remaining := remaining - {id};
    }
  }

  /** What a successful third round returns. */
  ghost predicate Part3Outcome(secret: Round2Secret, round1: map<Identifier, Round1Package>,
                               round2: map<Identifier, Round2Package>,
                               kp: KeyPackage, keys: PublicKeys)
    requires Complete(secret, round1)
  {
    && kp.id == secret.id && kp.minSigners == secret.minSigners && kp.maxSigners == secret.maxSigners
    && kp.secretShare == Add(secret.secretShare, Total(ShareScalars(round2)))
    && kp.groupPublicKey == keys.verifyingKey
    && keys == JointKeys(AllCommitments(secret, round1), secret.minSigners)
    && Lists(kp.verificationShares, keys.verifyingShares)
  }

  /** Is there a round-two package for every round-one package? */
  method CheckPresence(round1: set<Identifier>, round2: map<Identifier, Round2Package>) returns (r: Result<()>)
    ensures r.Ok? <==> round1 <= round2.Keys
    ensures r.Err? ==> exists id :: r == Err(Blaming([id], InvalidParameters)) && id in round1 && id !in round2
  {
    var remaining := round1;
    while remaining != {}
      invariant remaining <= round1 && round1 - remaining <= round2.Keys
      decreases |remaining|
    {
      var id :| id in remaining;
      if id !in round2 {
        return Err(Blaming([id], InvalidParameters));
      }
      remaining := remaining - {id};
    }
    r := Ok(());
  }

  method VerifyPeerShare(suite: Suite, secret: Round2Secret, senderID: Identifier, pkg1: Round1Package,
                         pkg2: Round2Package)
    returns (r: Result<()>)
    ensures r.Ok? <==> AcceptsShare(secret, pkg1, pkg2)
    ensures r.Err? ==> GetCulprits(r.error) == [senderID]
  {
    r := VerifyShare(suite, secret.id, pkg2.share, pkg1.commitment);
    if r.Err? {
      r := Err(Blaming([senderID], r.error.kind));
    }
  }

  /** Verifies the peers' shares in the order given and adds them to one's own; `ys` are the shares received. */
  method VerifyInOrder(suite: Suite, secret: Round2Secret, round1: map<Identifier, Round1Package>,
                       round2: map<Identifier, Round2Package>,
                       ids: seq<Identifier>, ghost ys: seq<Scalar>)
    returns (r: Result<Scalar>)
    requires forall i :: 0 <= i < |ids| ==> ids[i] in round1 && ids[i] in round2
    requires |ys| == |ids| && forall i :: 0 <= i < |ids| ==> ys[i] == round2[ids[i]].share
    ensures r.Ok? ==> r.value == Add(secret.secretShare, Sum(ys))
    ensures r.Ok? ==> forall i :: 0 <= i < |ids| ==> AcceptsShare(secret, round1[ids[i]], round2[ids[i]])
    ensures r.Err? ==> exists i :: 0 <= i < |ids| && GetCulprits(r.error) == [ids[i]]
                                   && !AcceptsShare(secret, round1[ids[i]], round2[ids[i]])
  {
    var signingShare := secret.secretShare;
    AddZero(signingShare);
    for i := 0 to |ids|
      invariant signingShare == Add(secret.secretShare, SumTo(ys, i))
      invariant forall k :: 0 <= k < i ==> AcceptsShare(secret, round1[ids[k]], round2[ids[k]])
    {
      var checked := VerifyPeerShare(suite, secret, ids[i], round1[ids[i]], round2[ids[i]]);
      if checked.Err? {
        return Err(checked.error);
      }
      AddAssoc(secret.secretShare, SumTo(ys, i), ys[i]);
      signingShare := Add(signingShare, round2[ids[i]].share);
    }
    r := Ok(signingShare);
  }

  /** The same in whatever order the map is enumerated. */
  method VerifyAndSum(suite: Suite, secret: Round2Secret, round1: map<Identifier, Round1Package>,
                      round2: map<Identifier, Round2Package>)
    returns (r: Result<Scalar>)
    requires round1.Keys == round2.Keys
    ensures r.Ok? <==> forall id :: id in round1 ==> AcceptsShare(secret, round1[id], round2[id])
    ensures r.Ok? ==> r.value == Add(secret.secretShare, Total(ShareScalars(round2)))
    ensures r.Err? ==> exists id :: GetCulprits(r.error) == [id] && id in round1
                                    && !AcceptsShare(secret, round1[id], round2[id])
  {
    var ids := ListIdentifiers(round2.Keys);
    ghost var ys := ValuesAt(ShareScalars(round2), ids);
    assert forall i :: 0 <= i < |ids| ==> ids[i] in ids;
    TotalBy(ShareScalars(round2), ids);
    r := VerifyInOrder(suite, secret, round1, round2, ids, ys);
    if r.Ok? {
      forall id | id in round1
        ensures AcceptsShare(secret, round1[id], round2[id])
      {
        assert id in ids;
      }
    }
  }

  /** The packages match, and every share is the value of its sender's commitment at one's own identifier. */
  lemma {:induction false} AcceptsRound2Exact(secret: Round2Secret, round1: map<Identifier, Round1Package>,
                                              round2: map<Identifier, Round2Package>)
    requires secret.maxSigners < IDENTIFIER_BOUND
    ensures AcceptsRound2(secret, round1, round2) <==>
      && |round1| == |round2| == (if secret.maxSigners == 0 then IDENTIFIER_BOUND - 1 else secret.maxSigners - 1)
      && round1.Keys == round2.Keys
      && forall id :: id in round1 ==>
           round1[id].commitment != [] && round2[id].share == Eval(Logs(round1[id].commitment), secret.id)
  {
  }

  /** All commitments that are added up have at least t entries: the peers', and one's own unless a peer's stands in its
      place. */
  lemma {:induction false} CompleteExact(secret: Round2Secret, round1: map<Identifier, Round1Package>)
    ensures Complete(secret, round1) <==>
      && secret.minSigners >= 1
      && (forall id :: id in round1 ==> |round1[id].commitment| >= secret.minSigners)
      && (secret.id !in round1 ==> |secret.commitment| >= secret.minSigners)
  {
    var all := AllCommitments(secret, round1);
    assert forall id :: id in round1 ==> id in all && all[id] == round1[id].commitment;
    assert secret.id in all && (secret.id !in round1 ==> all[secret.id] == secret.commitment);
  }

  /** What a successful third round returns, field by field: the keys of all participants, each listed once. */
  lemma {:induction false} Part3Fields(secret: Round2Secret, round1: map<Identifier, Round1Package>,
                                       round2: map<Identifier, Round2Package>, kp: KeyPackage, keys: PublicKeys)
    requires Complete(secret, round1) && Part3Outcome(secret, round1, round2, kp, keys)
    ensures kp.id == secret.id && kp.minSigners == secret.minSigners && kp.maxSigners == secret.maxSigners
    ensures kp.groupPublicKey == keys.verifyingKey && keys.verifyingShares.Keys == round1.Keys + {secret.id}
    ensures |kp.verificationShares| == |keys.verifyingShares|
    ensures forall i :: 0 <= i < |kp.verificationShares| ==> var v := kp.verificationShares[i];
      v.id in keys.verifyingShares && v.key == keys.verifyingShares[v.id]
    ensures forall i, j :: 0 <= i < j < |kp.verificationShares| ==>
      kp.verificationShares[i].id != kp.verificationShares[j].id
  {
    assert AllCommitments(secret, round1).Keys == round1.Keys + {secret.id};
  }

  lemma {:induction false} SameSizeSubset(a: set<Identifier>, b: set<Identifier>)
    requires a <= b && |a| == |b|
    ensures a == b
  {
    if x :| x in b && x !in a {
      assert a + {x} <= b;
      SubsetSize(a + {x}, b);
    }
  }

  lemma {:induction false} SubsetSize(a: set<Identifier>, b: set<Identifier>)
    requires a <= b
    ensures |a| <= |b|
    decreases |a|
  {
    if a != {} {
      var x :| x in a;
      SubsetSize(a - {x}, b - {x});
    }
  }

  /** Succeeds exactly when every peer's share is acceptable and the commitments have the entries that are added up;
      when only these are missing the call is aborted. */
  method Part3(suite: Suite, secret: Round2Secret, round1: map<Identifier, Round1Package>,
               round2: map<Identifier, Round2Package>)
    returns (r: Result<(KeyPackage, PublicKeys)>)
    requires secret.maxSigners < IDENTIFIER_BOUND
    ensures r.Ok? <==> AcceptsRound2(secret, round1, round2) && Complete(secret, round1)
    ensures r.Ok? ==> Part3Outcome(secret, round1, round2, r.value.0, r.value.1)
    ensures AcceptsRound2(secret, round1, round2) && !Complete(secret, round1) ==> r == Err(Plain(RuntimePanic))
    ensures |round1| != ExpectedPeers(secret.maxSigners) || |round2| != ExpectedPeers(secret.maxSigners) ==>
      r == Err(Plain(InsufficientParticipants))
    ensures |round1| == |round2| == ExpectedPeers(secret.maxSigners) && round1.Keys != round2.Keys ==>
      exists id :: r == Err(Blaming([id], InvalidParameters)) && id in round1 && id !in round2
    ensures r.Err? && round1.Keys == round2.Keys && |GetCulprits(r.error)| > 0 ==>
      exists id :: GetCulprits(r.error) == [id] && id in round1 && !AcceptsShare(secret, round1[id], round2[id])
  {
    if |round1| != ExpectedPeers(secret.maxSigners) {
      return Err(Plain(InsufficientParticipants));
    }
    if |round2| != ExpectedPeers(secret.maxSigners) {
      return Err(Plain(InsufficientParticipants));
    }
    var present := CheckPresence(round1.Keys, round2);
    if present.Err? {
      return Err(present.error);
    }
    SameSizeSubset(round1.Keys, round2.Keys);
    var signingShare := VerifyAndSum(suite, secret, round1, round2);
    if signingShare.Err? {
      return Err(signingShare.error);
    }
    var keys := AggregateCommitments(suite, secret, round1);
    if keys.Err? {
      return Err(keys.error);
    }
    var verificationShares := ListShares(keys.value.verifyingShares);
    r := Ok((KeyPackage(secret.id, signingShare.value, keys.value.verifyingKey, verificationShares, secret.minSigners,
                        secret.maxSigners), keys.value));
  }
}
