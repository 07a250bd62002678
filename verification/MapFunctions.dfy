/** The signing functions that take maps: the order in which Go enumerates a map is arbitrary. */
module MapFunctions {
  import opened PrimeField
  import opened Group
  import opened Types
  import opened Sums
  import opened MapSums
  import opened Encoding
  import opened Transcript
  import opened Participant
  import opened Aggregator
  import opened Ordering

  // ---- the values of a map ----

  /** The values of the map, once per key, in some order. */
  ghost predicate ValuesOf<T(!new)>(all: map<Identifier, T>, list: seq<T>) {
    exists ids: seq<Identifier> :: Enumerates(ids, all.Keys) && list == Picked(all, ids)
  }

  function Picked<T>(all: map<Identifier, T>, ids: seq<Identifier>): (list: seq<T>)
    requires forall id :: id in ids ==> id in all
    ensures |list| == |ids| && forall i :: 0 <= i < |ids| ==> list[i] == all[ids[i]]
  {
    seq(|ids|, i requires 0 <= i < |ids| => all[ids[i]])
  }

  lemma {:induction false} PickedWithout<T>(all: map<Identifier, T>, ids: seq<Identifier>, j: nat)
    requires j < |ids| && forall id :: id in ids ==> id in all
    ensures forall id :: id in Without(ids, j) ==> id in all
    ensures multiset(Picked(all, ids)) == multiset(Picked(all, Without(ids, j))) + multiset{all[ids[j]]}
  {
    assert Picked(all, Without(ids, j)) == Without(Picked(all, ids), j);
    MultisetWithout(Picked(all, ids), j);
  }

  /** Two enumerations of the map are permutations of each other. */
  lemma {:induction false} EnumerationsPermute<T>(all: map<Identifier, T>, a: seq<Identifier>, b: seq<Identifier>,
                                                  s: set<Identifier>)
    requires s <= all.Keys && Enumerates(a, s) && Enumerates(b, s)
    ensures multiset(Picked(all, a)) == multiset(Picked(all, b))
    decreases |a|
  {
    assert |b| > 0 ==> b[0] in s;
    if |a| > 0 {
      var n := |a| - 1;
      assert a[n] in b;
      var j :| 0 <= j < |b| && b[j] == a[n];
      forall id
        ensures id in Without(a, n) <==> id in s - {a[n]}
        ensures id in Without(b, j) <==> id in s - {a[n]}
      {
        RemovedKey(a, n, id);
        RemovedKey(b, j, id);
      }
      EnumerationsPermute(all, Without(a, n), Without(b, j), s - {a[n]});
      PickedWithout(all, a, n);
      PickedWithout(all, b, j);
    }
  }

  lemma {:induction false} ValuesPermute<T(!new)>(all: map<Identifier, T>, a: seq<T>, b: seq<T>)
    requires ValuesOf(all, a) && ValuesOf(all, b)
    ensures multiset(a) == multiset(b)
  {
    var i: seq<Identifier> :| Enumerates(i, all.Keys) && a == Picked(all, i);
    var j: seq<Identifier> :| Enumerates(j, all.Keys) && b == Picked(all, j);
    EnumerationsPermute(all, i, j, all.Keys);
  }

  /** A sorted permutation of the values of the map. */
  ghost predicate SortedValues(all: map<Identifier, Commitment>, list: seq<Commitment>) {
    Sorted(list) && exists unsorted :: ValuesOf(all, unsorted) && multiset(list) == multiset(unsorted)
  }

  /** Two sorted permutations of the values of one map are the same list, or both fail validation alike. */
  lemma {:induction false} SortedValuesAgree(all: map<Identifier, Commitment>, a: seq<Commitment>, b: seq<Commitment>)
    requires SortedValues(all, a) && SortedValues(all, b)
    ensures a == b || (Validation(a).Err? && Validation(a) == Validation(b))
  {
    var u :| ValuesOf(all, u) && multiset(a) == multiset(u);
    var v :| ValuesOf(all, v) && multiset(b) == multiset(v);
    ValuesPermute(all, u, v);
    assert |a| == |multiset(a)| == |multiset(b)| == |b|;
    if DistinctIds(a) {
      SortsAgree(a, b, a, b);
    } else {
      if DistinctIds(b) {
        DistinctPermuted(b, a);
      }
      SortedDuplicates(a, 1);
      SortedDuplicates(b, 1);
    }
  }

  // ---- signing ----

  /** Enumerates the map in an order of its own and sorts. */
  method CollectSorted(all: map<Identifier, Commitment>) returns (list: seq<Commitment>)
    ensures SortedValues(all, list)
  {
    var ids := ListIdentifiers(all.Keys);
    ghost var unsorted := Picked(all, ids);
    var slice := new Commitment[|ids|](i requires 0 <= i < |ids| => assert ids[i] in ids; all[ids[i]]);
    assert slice[..] == unsorted;
    SortCommitmentList(slice);
    list := slice[..];
    assert ValuesOf(all, unsorted);
  }

  /** r is the share, or the error, that round two gives for some sorted permutation of the values of the map. */
  ghost predicate SignOutcome(suite: Suite, msg: Bytes, kp: KeyPackage, nonces: Nonces,
                              all: map<Identifier, Commitment>,
                              r: Result<SignatureShare>) {
    exists list :: SortedValues(all, list) && r == RoundTwoResult(suite, kp, nonces, msg, list)
  }

  method Sign(suite: Suite, msg: Bytes, kp: KeyPackage, nonces: Nonces, all: map<Identifier, Commitment>)
    returns (r: Result<SignatureShare>)
    ensures SignOutcome(suite, msg, kp, nonces, all, r)
  {
    var list := CollectSorted(all);
    r := RoundTwo(suite, kp, nonces, msg, list);
  }

  /** The order in which the map is enumerated does not show in the outcome, even when identifiers are repeated:
      then every order gives the same error. */
  lemma {:induction false} SignIgnoresMapOrder(suite: Suite, msg: Bytes, kp: KeyPackage, nonces: Nonces,
                                               all: map<Identifier, Commitment>,
                                               r: Result<SignatureShare>, q: Result<SignatureShare>)
    requires SignOutcome(suite, msg, kp, nonces, all, r) && SignOutcome(suite, msg, kp, nonces, all, q)
    ensures r == q
  {
    var a :| SortedValues(all, a) && r == RoundTwoResult(suite, kp, nonces, msg, a);
    var b :| SortedValues(all, b) && q == RoundTwoResult(suite, kp, nonces, msg, b);
    SortedValuesAgree(all, a, b);
  }

  lemma {:induction false} PickedExact<T>(all: map<Identifier, T>, ids: seq<Identifier>, c: T)
    requires Enumerates(ids, all.Keys)
    ensures c in Picked(all, ids) <==> exists id :: id in all && all[id] == c
  {
    var list := Picked(all, ids);
    if c in list {
      var i :| 0 <= i < |list| && list[i] == c;
      assert ids[i] in ids;
    }
    if id :| id in all && all[id] == c {
      assert id in ids;
      var i :| 0 <= i < |ids| && ids[i] == id;
      assert list[i] == c;
    }
  }

  /** A sorted permutation of the values holds each of them, and nothing else. */
  lemma {:induction false} SortedValuesExact(all: map<Identifier, Commitment>, list: seq<Commitment>, c: Commitment)
    requires SortedValues(all, list)
    ensures |list| == |all| && (forall i, j :: 0 <= i < j < |list| ==> list[i].id <= list[j].id)
    ensures c in list <==> exists id :: id in all && all[id] == c
  {
    var unsorted :| ValuesOf(all, unsorted) && multiset(list) == multiset(unsorted);
    var ids: seq<Identifier> :| Enumerates(ids, all.Keys) && unsorted == Picked(all, ids);
    EnumeratesSize(ids, all.Keys);
    PickedExact(all, ids, c);
    assert |list| == |multiset(list)| == |multiset(unsorted)| == |unsorted|;
    assert c in list <==> c in multiset(list);
    assert c in unsorted <==> c in multiset(unsorted);
  }

  /** Signing from a map is round two over that list, with the same success and the same error. */
  lemma {:induction false} SignIsRoundTwo(suite: Suite, msg: Bytes, kp: KeyPackage, nonces: Nonces,
                                          all: map<Identifier, Commitment>, list: seq<Commitment>,
                                          r: Result<SignatureShare>)
    requires SortedValues(all, list)
    ensures SignOutcome(suite, msg, kp, nonces, all, r) <==> r == RoundTwoResult(suite, kp, nonces, msg, list)
  {
    assert SignOutcome(suite, msg, kp, nonces, all, RoundTwoResult(suite, kp, nonces, msg, list));
    if SignOutcome(suite, msg, kp, nonces, all, r) {
      SignIgnoresMapOrder(suite, msg, kp, nonces, all, r, RoundTwoResult(suite, kp, nonces, msg, list));
    }
  }

  // ---- aggregation ----

  method CollectValues<T(!new)>(all: map<Identifier, T>) returns (list: seq<T>)
    ensures ValuesOf(all, list)
  {
    var order := ListIdentifiers(all.Keys);
    list := Picked(all, order);
  }

  /** r is the outcome for some enumeration of each map: every share is demanded, and every one is verified. */
  ghost predicate AggregateOutcome(suite: Suite, msg: Bytes, all: map<Identifier, Commitment>,
                                   shares: map<Identifier, SignatureShare>,
                                   keys: map<Identifier, VerificationShare>, pk: Element, r: Result<Signature>) {
    exists list, ss, vs :: SortedValues(all, list) && ValuesOf(shares, ss) && ValuesOf(keys, vs)
                           && r == VerifiedResult(suite, |shares|, pk, list, msg, ss, vs)
  }

  method Aggregate(suite: Suite, msg: Bytes, all: map<Identifier, Commitment>, shares: map<Identifier, SignatureShare>,
                   keys: map<Identifier, VerificationShare>, pk: Element)
    returns (r: Result<Signature>)
    ensures AggregateOutcome(suite, msg, all, shares, keys, pk, r)
  {
    var commitmentList := CollectSorted(all);
    var shareSlice := CollectValues(shares);
    var verificationSlice := CollectValues(keys);
    r := AggregateWithVerification(suite, |shares|, pk, commitmentList, msg, shareSlice, verificationSlice);
  }
}
