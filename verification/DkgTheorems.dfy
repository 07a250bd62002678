/** The guarantees of distributed key generation: consistency against arbitrary peers, and the honest run. */
module DkgTheorems {
  import opened PrimeField
  import opened Group
  import opened Types
  import opened Sums
  import opened MapSums
  import opened Polynomial
  import opened Lagrange
  import opened Encoding
  import opened Dkg
  import Dealer

  predicate AllOfLength(t: nat, all: map<Identifier, seq<Element>>) {
    forall id :: id in all ==> |all[id]| == t
  }

  /** The value at x of every committed polynomial. */
  function Evals(all: map<Identifier, seq<Element>>, x: Scalar): map<Identifier, Scalar> {
    map id | id in all :: Eval(Logs(all[id]), x)
  }

  lemma {:induction false} EvalsInsert(all: map<Identifier, seq<Element>>, id: Identifier, cs: seq<Element>, x: Scalar)
    requires id !in all
    ensures Evals(all[id := cs], x) == Evals(all, x)[id := Eval(Logs(cs), x)]
  {
  }

  lemma {:induction false} EvalJointStep(all: map<Identifier, seq<Element>>, id: Identifier, cs: seq<Element>, t: nat,
                                         x: Scalar)
    requires AllOfLength(t, all) && id !in all && |cs| == t
    requires Eval(Joint(all, t), x) == Total(Evals(all, x))
    ensures Eval(Joint(all[id := cs], t), x) == Total(Evals(all[id := cs], x))
  {
    JointInsert(all, id, cs, t);
    PlusPointwise(Joint(all, t), Logs(cs), Joint(all[id := cs], t));
    EvalPlus(Joint(all, t), Logs(cs), x);
    EvalsInsert(all, id, cs, x);
    TotalInsert(Evals(all, x), id, Eval(Logs(cs), x));
  }

  lemma {:induction false} TakeOut(all: map<Identifier, seq<Element>>, id: Identifier)
    returns (rest: map<Identifier, seq<Element>>)
    requires id in all
    ensures id !in rest && all == rest[id := all[id]] && |rest| < |all|
    ensures forall i :: i in rest ==> i in all && rest[i] == all[i]
  {
    rest := map i | i in all && i != id :: all[i];
    assert all == rest[id := all[id]];
    assert rest.Keys == all.Keys - {id};
  }

  /** Evaluating the joint polynomial adds up the evaluations: a double sum, taken either way. */
  lemma {:induction false} EvalJoint(all: map<Identifier, seq<Element>>, t: nat, x: Scalar)
    requires AllOfLength(t, all)
    ensures Eval(Joint(all, t), x) == Total(Evals(all, x))
    decreases |all|
  {
    if all == map[] {
      JointEmpty(t);
      EvalAllZero(Joint(all, t), x);
      TotalEmpty();
      assert Evals(all, x) == map[];
    } else {
      var id :| id in all;
      var rest := TakeOut(all, id);
      EvalJoint(rest, t, x);
      EvalJointStep(rest, id, all[id], t, x);
    }
  }

  // ---- commitments longer than the threshold ----

  /** What the coefficients from position t on contribute to the value at x. */
  function Tail(cs: seq<Element>, t: nat, x: Scalar): Scalar
    requires t <= |cs|
  {
    Sub(Eval(Logs(cs), x), Eval(Logs(cs)[..t], x))
  }

  function Tails(all: map<Identifier, seq<Element>>, t: nat, x: Scalar): map<Identifier, Scalar>
    requires LongEnough(t, all)
  {
    map id | id in all :: Tail(all[id], t, x)
  }

  function Cut(all: map<Identifier, seq<Element>>, t: nat): map<Identifier, seq<Element>>
    requires LongEnough(t, all)
  {
    map id | id in all :: all[id][..t]
  }

  lemma {:induction false} JointOfCut(all: map<Identifier, seq<Element>>, t: nat)
    requires LongEnough(t, all)
    ensures AllOfLength(t, Cut(all, t)) && LongEnough(t, Cut(all, t)) && Joint(Cut(all, t), t) == Joint(all, t)
  {
    forall k | 0 <= k < t
      ensures Joint(Cut(all, t), t)[k] == Joint(all, t)[k]
    {
      assert Column(Cut(all, t), k) == Column(all, k);
    }
  }

  /** The whole evaluations add up to the value of the joint polynomial and all the tails. */
  lemma {:induction false} EvalJointTails(all: map<Identifier, seq<Element>>, t: nat, x: Scalar)
    requires LongEnough(t, all)
    ensures Total(Evals(all, x)) == Add(Eval(Joint(all, t), x), Total(Tails(all, t, x)))
  {
    JointOfCut(all, t);
    EvalJoint(Cut(all, t), t, x);
    forall id | id in all
      ensures Evals(all, x)[id] == Add(Evals(Cut(all, t), x)[id], Tails(all, t, x)[id])
    {
      var part := Eval(Logs(all[id])[..t], x);
      assert Logs(Cut(all, t)[id]) == Logs(all[id])[..t];
      SubAdd(Eval(Logs(all[id]), x), part);
      AddComm(Tail(all[id], t, x), part);
    }
    TotalAdd(Evals(Cut(all, t), x), Tails(all, t, x), Evals(all, x));
  }

  lemma {:induction false} TailOfLength(cs: seq<Element>, x: Scalar)
    ensures Tail(cs, |cs|, x) == 0
  {
    assert Logs(cs)[..|cs|] == Logs(cs);
    SubZero(Eval(Logs(cs), x), Eval(Logs(cs), x));
  }

  lemma {:induction false} ZeroSummand(a: Scalar, b: Scalar)
    ensures Add(a, b) == b <==> a == 0
  {
    AddZero(b);
    if Add(a, b) == b {
      AddCancel(a, 0, b);
    }
  }

  /** Commitments of the right length have no tails. */
  lemma {:induction false} NoTails(all: map<Identifier, seq<Element>>, t: nat, x: Scalar)
    requires AllOfLength(t, all)
    ensures Total(Tails(all, t, x)) == 0
  {
    EvalJoint(all, t, x);
    EvalJointTails(all, t, x);
    AddComm(Eval(Joint(all, t), x), Total(Tails(all, t, x)));
    ZeroSummand(Total(Tails(all, t, x)), Eval(Joint(all, t), x));
  }

  lemma {:induction false} PlusPointwise(p: Poly, r: Poly, s: Poly)
    requires |p| == |r| == |s|
    requires forall k :: 0 <= k < |p| ==> s[k] == Add(p[k], r[k])
    ensures s == Plus(p, r)
  {
    if p != [] {
      PlusPointwise(p[1..], r[1..], s[1..]);
      assert s == [s[0]] + s[1..];
    }
  }

  lemma {:induction false} EvalsAdded(peers: map<Identifier, seq<Element>>, id: Identifier, p: Poly, x: Scalar)
    requires id !in peers
    ensures Total(Evals(peers[id := Commit(p)], x)) == Add(Eval(p, x), Total(Evals(peers, x)))
  {
    EvalsInsert(peers, id, Commit(p), x);
    TotalInsert(Evals(peers, x), id, Eval(p, x));
    AddComm(Eval(p, x), Total(Evals(peers, x)));
  }

  /** A commitment of the right length adds no tail. */
  lemma {:induction false} TailsAdded(peers: map<Identifier, seq<Element>>, id: Identifier, cs: seq<Element>, x: Scalar)
    requires id !in peers && LongEnough(|cs|, peers)
    ensures LongEnough(|cs|, peers[id := cs])
    ensures Total(Tails(peers[id := cs], |cs|, x)) == Total(Tails(peers, |cs|, x))
  {
    TailOfLength(cs, x);
    assert Tails(peers[id := cs], |cs|, x) == Tails(peers, |cs|, x)[id := 0];
    TotalInsert(Tails(peers, |cs|, x), id, 0);
    AddZero(Total(Tails(peers, |cs|, x)));
  }

  // ---- consistency against arbitrary peers ----

  /** One's own state after round two, made from the polynomial p. */
  ghost predicate OwnState(secret: Round2Secret, p: Poly) {
    && |p| == secret.minSigners >= 1
    && secret.commitment == Commit(p)
    && secret.secretShare == Eval(p, secret.id)
  }

  function Commitments(round1: map<Identifier, Round1Package>): map<Identifier, seq<Element>> {
    map id | id in round1 :: round1[id].commitment
  }

  lemma {:induction false} SharesAreEvals(secret: Round2Secret, round1: map<Identifier, Round1Package>,
                                          round2: map<Identifier, Round2Package>)
    requires round1.Keys == round2.Keys
    requires forall id :: id in round1 ==> AcceptsShare(secret, round1[id], round2[id])
    ensures ShareScalars(round2) == Evals(Commitments(round1), secret.id)
  {
  }

  /** The part of one's own share that one's own commitment does not account for: all of it, when a peer's package
      stands in its place. */
  function ReplacedShare(secret: Round2Secret, round1: map<Identifier, Round1Package>): Scalar {
    if secret.id in round1 then secret.secretShare else 0
  }

  lemma {:induction false} PeersLongEnough(secret: Round2Secret, round1: map<Identifier, Round1Package>)
    requires Complete(secret, round1)
    ensures LongEnough(secret.minSigners, Commitments(round1))
  {
    var all := AllCommitments(secret, round1);
    assert forall id :: id in round1 ==> id in all && all[id] == round1[id].commitment;
  }

  lemma {:induction false} MoveFirst(a: Scalar, b: Scalar, c: Scalar)
    ensures Add(a, Add(b, c)) == Add(b, Add(a, c))
  {
    AddAssoc(a, b, c);
    AddComm(a, b);
    AddAssoc(b, a, c);
  }

  lemma {:induction false} ReplacedSum(all: map<Identifier, seq<Element>>, x: Identifier, own: Scalar, t: nat)
    requires LongEnough(t, all)
    ensures Add(own, Total(Evals(all, x))) == Add(Eval(Joint(all, t), x), Add(own, Total(Tails(all, t, x))))
  {
    EvalJointTails(all, t, x);
    MoveFirst(own, Eval(Joint(all, t), x), Total(Tails(all, t, x)));
  }

  lemma {:induction false} OwnSum(peers: map<Identifier, seq<Element>>, x: Identifier, p: Poly)
    requires x !in peers && LongEnough(|p|, peers)
    ensures LongEnough(|p|, peers[x := Commit(p)])
    ensures Add(Eval(p, x), Total(Evals(peers, x)))
         == Add(Eval(Joint(peers[x := Commit(p)], |p|), x), Add(0, Total(Tails(peers, |p|, x))))
  {
    TailsAdded(peers, x, Commit(p), x);
    EvalsAdded(peers, x, p, x);
    EvalJointTails(peers[x := Commit(p)], |p|, x);
    AddZero(Total(Tails(peers, |p|, x)));
  }

  /** The accumulated share is the joint polynomial at one's own identifier, and what the sum of the commitments leaves
      out: the tails, and one's own share if a peer uses one's own identifier. */
  lemma {:induction false} AccumulatedShare(secret: Round2Secret, p: Poly, round1: map<Identifier, Round1Package>,
                                            round2: map<Identifier, Round2Package>)
    requires secret.id !in round1 ==> OwnState(secret, p)
    requires Complete(secret, round1) && round1.Keys == round2.Keys
    requires forall id :: id in round1 ==> AcceptsShare(secret, round1[id], round2[id])
    ensures LongEnough(secret.minSigners, Commitments(round1))
    ensures var x, t := secret.id, secret.minSigners;
      Add(secret.secretShare, Total(ShareScalars(round2)))
        == Add(Eval(Joint(AllCommitments(secret, round1), t), x),
               Add(ReplacedShare(secret, round1), Total(Tails(Commitments(round1), t, x))))
  {
    PeersLongEnough(secret, round1);
    SharesAreEvals(secret, round1, round2);
    if secret.id in round1 {
      assert AllCommitments(secret, round1) == Commitments(round1);
      ReplacedSum(Commitments(round1), secret.id, secret.secretShare, secret.minSigners);
    } else {
      assert AllCommitments(secret, round1) == Commitments(round1)[secret.id := Commit(p)];
      OwnSum(Commitments(round1), secret.id, p);
    }
  }

  /** When round three succeeds, its share matches one's own verification key exactly if the tails of the peers'
      commitments, and one's own share if a peer uses one's own identifier, add up to 0. */
  lemma {:induction false} OwnKeyExact(secret: Round2Secret, p: Poly, round1: map<Identifier, Round1Package>,
                                       round2: map<Identifier, Round2Package>, kp: KeyPackage, keys: PublicKeys)
    requires secret.maxSigners < IDENTIFIER_BOUND
    requires secret.id !in round1 ==> OwnState(secret, p)
    requires AcceptsRound2(secret, round1, round2) && Complete(secret, round1)
    requires Part3Outcome(secret, round1, round2, kp, keys)
    ensures LongEnough(secret.minSigners, Commitments(round1)) && kp.id in keys.verifyingShares
    ensures keys.verifyingShares[kp.id] == ScalarBaseMult(kp.secretShare) <==>
      Add(ReplacedShare(secret, round1), Total(Tails(Commitments(round1), secret.minSigners, secret.id))) == 0
  {
    AccumulatedShare(secret, p, round1, round2);
    var joint := Eval(Joint(AllCommitments(secret, round1), secret.minSigners), secret.id);
    var rest := Add(ReplacedShare(secret, round1), Total(Tails(Commitments(round1), secret.minSigners, secret.id)));
    AddComm(joint, rest);
    ZeroSummand(rest, joint);
  }

  lemma {:induction false} AcceptedLengths(suite: Suite, t: nat, round1: map<Identifier, Round1Package>)
    requires forall id :: id in round1 ==> AcceptsRound1(suite, t, id, round1[id])
    ensures AllOfLength(t, Commitments(round1))
  {
  }

  /** So with the packages that round two accepts, from others than oneself, it always does. */
  lemma {:induction false} OwnKeyMatches(suite: Suite, secret: Round2Secret, p: Poly,
                                         round1: map<Identifier, Round1Package>, round2: map<Identifier, Round2Package>,
                                         kp: KeyPackage, keys: PublicKeys)
    requires secret.maxSigners < IDENTIFIER_BOUND
    requires secret.id !in round1 && OwnState(secret, p)
    requires forall id :: id in round1 ==> AcceptsRound1(suite, secret.minSigners, id, round1[id])
    requires AcceptsRound2(secret, round1, round2) && Complete(secret, round1)
    requires Part3Outcome(secret, round1, round2, kp, keys)
    ensures kp.id in keys.verifyingShares && keys.verifyingShares[kp.id] == ScalarBaseMult(kp.secretShare)
  {
    OwnKeyExact(secret, p, round1, round2, kp, keys);
    AcceptedLengths(suite, secret.minSigners, round1);
    NoTails(Commitments(round1), secret.minSigners, secret.id);
    AddZero(0);
  }

  function KeyLogs(keys: map<Identifier, Element>, ids: seq<Identifier>): (ls: seq<Scalar>)
    requires forall id :: id in ids ==> id in keys
    ensures |ls| == |ids| && forall i :: 0 <= i < |ids| ==> ls[i] == keys[ids[i]].log
  {
    seq(|ids|, i requires 0 <= i < |ids| => keys[ids[i]].log)
  }

  /** Whatever the peers sent: when round three succeeds, any t or more verification keys interpolate, in the group, to
      the public key. */
  lemma {:induction false} DkgConsistent(secret: Round2Secret, round1: map<Identifier, Round1Package>,
                                         round2: map<Identifier, Round2Package>, kp: KeyPackage, keys: PublicKeys,
                                         ids: seq<Identifier>)
    requires Complete(secret, round1) && Part3Outcome(secret, round1, round2, kp, keys)
    requires Distinct(ids) && secret.minSigners <= |ids| && forall id :: id in ids ==> id in keys.verifyingShares
    ensures ScalarBaseMult(Dot(KeyLogs(keys.verifyingShares, ids), Coefficients(Dealer.Scalars(ids), 0)))
      == keys.verifyingKey
  {
    var f := Joint(AllCommitments(secret, round1), secret.minSigners);
    Interpolation(f, Dealer.Scalars(ids), KeyLogs(keys.verifyingShares, ids), 0);
    Dealer.EvalAtZero(f);
  }

  /** Such input exists for any two polynomials of length two: both rounds accept a single peer package that carries
      one's own identifier. */
  lemma {:induction false} OwnIdentifierAccepted(suite: Suite, id: Identifier, p: Poly, q: Poly, k: Scalar)
    requires |p| == |q| == 2
    ensures var secret := Round2Secret(id, Commit(p), Eval(p, id), 2, 2);
            var round1, round2 := map[id := Package1(suite, id, q, k)], map[id := Round2Package(Eval(q, id))];
      && |round1| == ExpectedPeers(2) && AcceptsRound1(suite, 2, id, round1[id])
      && AcceptsRound2(secret, round1, round2) && Complete(secret, round1)
  {
    ProofComplete(suite, id, q, k);
  }

  /** The own state of threshold two, and one package from a peer, with its share. */
  ghost predicate OnePeer(secret: Round2Secret, p: Poly, peer: Identifier, round1: map<Identifier, Round1Package>,
                          round2: map<Identifier, Round2Package>) {
    && |p| == 2 && secret == Round2Secret(secret.id, Commit(p), Eval(p, secret.id), 2, 2) && peer != secret.id
    && round1.Keys == round2.Keys == {peer}
    && round1[peer].commitment != [] && round2[peer].share == Eval(Logs(round1[peer].commitment), secret.id)
  }

  /** Round three accepts its share, and reads its commitment past the end exactly if that is too short. */
  lemma {:induction false} OnePeerAccepted(secret: Round2Secret, p: Poly, peer: Identifier,
                                           round1: map<Identifier, Round1Package>,
                                           round2: map<Identifier, Round2Package>)
    requires OnePeer(secret, p, peer, round1, round2)
    ensures OwnState(secret, p) && AcceptsRound2(secret, round1, round2)
    ensures Complete(secret, round1) <==> |round1[peer].commitment| >= 2
  {
    assert AllCommitments(secret, round1) == Commitments(round1)[secret.id := Commit(p)];
    assert Commitments(round1)[peer] == round1[peer].commitment;
  }

  lemma {:induction false} OneTail(all: map<Identifier, seq<Element>>, id: Identifier, t: nat, x: Scalar)
    requires LongEnough(t, all) && all.Keys == {id}
    ensures Total(Tails(all, t, x)) == Tail(all[id], t, x)
  {
    TotalEmpty();
    assert Tails(all, t, x) == map[][id := Tail(all[id], t, x)];
    TotalInsert(map[], id, Tail(all[id], t, x));
    AddZero(Tail(all[id], t, x));
  }

  /** When it is too long, the final share matches one's own key exactly if the commitment has no tail there. */
  lemma {:induction false} OnePeerMatches(secret: Round2Secret, p: Poly, peer: Identifier,
                                          round1: map<Identifier, Round1Package>,
                                          round2: map<Identifier, Round2Package>, kp: KeyPackage, keys: PublicKeys)
    requires OnePeer(secret, p, peer, round1, round2) && Complete(secret, round1)
    requires Part3Outcome(secret, round1, round2, kp, keys)
    ensures |round1[peer].commitment| >= 2 && kp.id in keys.verifyingShares
    ensures keys.verifyingShares[kp.id] == ScalarBaseMult(kp.secretShare) <==>
      Tail(round1[peer].commitment, 2, secret.id) == 0
  {
    OnePeerAccepted(secret, p, peer, round1, round2);
    OwnKeyExact(secret, p, round1, round2, kp, keys);
    OneTail(Commitments(round1), peer, 2, secret.id);
    AddZero(Tail(round1[peer].commitment, 2, secret.id));
  }

  /** The tail of x^2 beyond two coefficients. */
  lemma {:induction false} TailOfSquare(x: Scalar)
    ensures Eval([0, 0, 1], x) == Tail(Commit([0, 0, 1]), 2, x) == Mul(x, x) && (x != 0 ==> Mul(x, x) != 0)
  {
    var p: Poly, q: Poly, one: Poly := [0, 0, 1], [0, 1], [1];
    assert p[1..] == q && q[1..] == one && one[1..] == [];
    MulZero(x);
    AddZero(1);
    MulOne(x);
    AddZero(x);
    AddZero(Mul(x, x));
    assert Eval(one, x) == 1 && Eval(q, x) == x && Eval(p, x) == Mul(x, x);
    EvalAllZero(p[..2], x);
    assert Logs(Commit([0, 0, 1])) == p;
    SubAdd(Mul(x, x), 0);
    if x != 0 {
      ProductNotZero(x, x);
    }
  }

  // ---- the honest run ----

  /** What a participant draws: its coefficients and its proof nonce. */
  datatype Party = Party(p: Poly, k: Scalar)

  ghost predicate Parties(parties: map<Identifier, Party>, t: nat) {
    2 <= t <= |parties| < IDENTIFIER_BOUND && 0 !in parties && forall id :: id in parties ==> |parties[id].p| == t
  }

  /** The packages participant i receives in round one: everybody else's. */
  function Inbox1(suite: Suite, parties: map<Identifier, Party>, i: Identifier): map<Identifier, Round1Package>
    requires forall id :: id in parties ==> parties[id].p != []
  {
    map j | j in parties && j != i :: Package1(suite, j, parties[j].p, parties[j].k)
  }

  /** The packages participant i receives in round two: from each other j, what j's round two addressed to i. */
  function Inbox2(suite: Suite, parties: map<Identifier, Party>, i: Identifier): map<Identifier, Round2Package>
    requires forall id :: id in parties ==> parties[id].p != []
    requires i in parties
  {
    map j | j in parties && j != i :: Shares2(parties[j].p, Inbox1(suite, parties, j).Keys)[i]
  }

  function State1(parties: map<Identifier, Party>, t: nat, i: Identifier): Round1Secret
    requires i in parties
  {
    Round1Secret(i, parties[i].p, Commit(parties[i].p), t, |parties|)
  }

  function Published(parties: map<Identifier, Party>): map<Identifier, seq<Element>> {
    map id | id in parties :: Commit(parties[id].p)
  }

  /** The polynomial the parties share in the end. */
  ghost function SharedPoly(parties: map<Identifier, Party>, t: nat): Poly
    requires Parties(parties, t)
  {
    Joint(Published(parties), t)
  }

  /** The public data they arrive at. */
  ghost function SharedKeys(parties: map<Identifier, Party>, t: nat): PublicKeys
    requires Parties(parties, t)
  {
    JointKeys(Published(parties), t)
  }

  /** The secrets of the parties. */
  function Secrets(parties: map<Identifier, Party>): map<Identifier, Scalar>
    requires forall id :: id in parties ==> parties[id].p != []
  {
    map id | id in parties :: parties[id].p[0]
  }

  /** Round two never rejects an honest package. */
  lemma {:induction false} HonestRound2(suite: Suite, parties: map<Identifier, Party>, t: nat, i: Identifier)
    requires Parties(parties, t) && i in parties
    ensures |Inbox1(suite, parties, i)| == ExpectedPeers(|parties|)
    ensures forall j :: j in Inbox1(suite, parties, i) ==> AcceptsRound1(suite, t, j, Inbox1(suite, parties, i)[j])
  {
    assert Inbox1(suite, parties, i).Keys == parties.Keys - {i};
    forall j | j in Inbox1(suite, parties, i)
      ensures AcceptsRound1(suite, t, j, Inbox1(suite, parties, i)[j])
    {
      ProofComplete(suite, j, parties[j].p, parties[j].k);
    }
  }

  lemma {:induction false} HonestShareAccepted(suite: Suite, parties: map<Identifier, Party>, t: nat, i: Identifier,
                                               j: Identifier)
    requires Parties(parties, t) && i in parties && j in parties && j != i
    ensures j in Inbox1(suite, parties, i) && j in Inbox2(suite, parties, i)
    ensures AcceptsShare(Secret2(State1(parties, t, i)), Inbox1(suite, parties, i)[j], Inbox2(suite, parties, i)[j])
  {
  }

  lemma {:induction false} Inbox1Keys(suite: Suite, parties: map<Identifier, Party>, t: nat, i: Identifier)
    requires Parties(parties, t)
    ensures Inbox1(suite, parties, i).Keys == parties.Keys - {i}
  {
  }

  lemma {:induction false} Inbox2Keys(suite: Suite, parties: map<Identifier, Party>, t: nat, i: Identifier)
    requires Parties(parties, t) && i in parties
    ensures Inbox2(suite, parties, i).Keys == parties.Keys - {i}
  {
  }

  lemma {:induction false} Peers<T>(parties: map<Identifier, Party>, rest: map<Identifier, T>, i: Identifier)
    requires i in parties && rest.Keys == parties.Keys - {i} && |parties| < IDENTIFIER_BOUND
    ensures |rest| == ExpectedPeers(|parties|)
  {
    assert |rest| == |rest.Keys| && |parties| == |parties.Keys|;
  }

  lemma {:induction false} InboxSizes(suite: Suite, parties: map<Identifier, Party>, t: nat, i: Identifier)
    requires Parties(parties, t) && i in parties
    ensures Inbox1(suite, parties, i).Keys == Inbox2(suite, parties, i).Keys == parties.Keys - {i}
    ensures |Inbox1(suite, parties, i)| == |Inbox2(suite, parties, i)| == ExpectedPeers(|parties|)
  {
    Inbox1Keys(suite, parties, t, i);
    Inbox2Keys(suite, parties, t, i);
    Peers(parties, Inbox1(suite, parties, i), i);
    Peers(parties, Inbox2(suite, parties, i), i);
  }

  /** Round three never rejects an honest share. */
  lemma {:induction false} HonestRound3(suite: Suite, parties: map<Identifier, Party>, t: nat, i: Identifier)
    requires Parties(parties, t) && i in parties
    ensures AcceptsRound2(Secret2(State1(parties, t, i)), Inbox1(suite, parties, i), Inbox2(suite, parties, i))
  {
    InboxSizes(suite, parties, t, i);
    forall j | j in Inbox1(suite, parties, i)
      ensures AcceptsShare(Secret2(State1(parties, t, i)), Inbox1(suite, parties, i)[j], Inbox2(suite, parties, i)[j])
    {
      HonestShareAccepted(suite, parties, t, i, j);
    }
  }

  /** Everyone adds up the same commitments. */
  lemma {:induction false} SameCommitments(suite: Suite, parties: map<Identifier, Party>, t: nat, i: Identifier)
    requires Parties(parties, t) && i in parties
    ensures AllCommitments(Secret2(State1(parties, t, i)), Inbox1(suite, parties, i)) == Published(parties)
  {
  }

  /** And each knows its own polynomial, and commitments of the right length from the others. */
  lemma {:induction false} OwnStateOfParty(suite: Suite, parties: map<Identifier, Party>, t: nat, i: Identifier)
    requires Parties(parties, t) && i in parties
    ensures OwnState(Secret2(State1(parties, t, i)), parties[i].p)
    ensures i !in Inbox1(suite, parties, i) && AllOfLength(t, Commitments(Inbox1(suite, parties, i)))
  {
  }

  lemma {:induction false} PublishedSecrets(parties: map<Identifier, Party>, t: nat)
    requires Parties(parties, t)
    ensures SharedPoly(parties, t)[0] == Total(Secrets(parties))
  {
    assert Column(Published(parties), 0) == Secrets(parties);
  }

  /** At the end of an honest run every party holds the shared polynomial's value at its identifier, all parties hold
      the same public data, and the public key commits to the sum of the parties' secrets. */
  lemma {:induction false} HonestOutcome(suite: Suite, parties: map<Identifier, Party>, t: nat, i: Identifier,
                                         secret: Round2Secret,
                                         inbox1: map<Identifier, Round1Package>, inbox2: map<Identifier, Round2Package>,
                                         kp: KeyPackage, keys: PublicKeys)
    requires Parties(parties, t) && i in parties
    requires secret == Secret2(State1(parties, t, i))
    requires inbox1 == Inbox1(suite, parties, i) && inbox2 == Inbox2(suite, parties, i)
    requires Complete(secret, inbox1) && Part3Outcome(secret, inbox1, inbox2, kp, keys)
    ensures keys == SharedKeys(parties, t)
    ensures keys.verifyingKey == ScalarBaseMult(Total(Secrets(parties)))
    ensures kp.secretShare == Eval(SharedPoly(parties, t), i)
  {
    SameCommitments(suite, parties, t, i);
    OwnStateOfParty(suite, parties, t, i);
    HonestRound3(suite, parties, t, i);
    AccumulatedShare(secret, parties[i].p, inbox1, inbox2);
    NoTails(Commitments(inbox1), t, i);
    AddZero(0);
    AddZero(Eval(SharedPoly(parties, t), i));
    PublishedSecrets(parties, t);
  }

  /** Any t or more final shares interpolate to the sum of the parties' secrets. */
  lemma {:induction false} HonestSharesReconstruct(parties: map<Identifier, Party>, t: nat, ids: seq<Identifier>,
                                                   shares: seq<Scalar>)
    requires Parties(parties, t) && Distinct(ids) && t <= |ids| == |shares|
    requires forall i :: 0 <= i < |ids| ==> shares[i] == Eval(SharedPoly(parties, t), ids[i])
    ensures Dot(shares, Coefficients(Dealer.Scalars(ids), 0)) == Total(Secrets(parties))
  {
    var f := SharedPoly(parties, t);
    Interpolation(f, Dealer.Scalars(ids), shares, 0);
    Dealer.EvalAtZero(f);
    PublishedSecrets(parties, t);
  }
}
