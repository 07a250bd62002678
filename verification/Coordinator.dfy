/** The coordinator: it keeps the signers' nonces between the two rounds. */
module Coordinator {
  import opened PrimeField
  import opened Group
  import opened Types
  import opened Sums
  import opened Polynomial
  import opened Encoding
  import opened Transcript
  import opened Participant
  import opened Aggregator
  import opened Ordering
  import opened SigningTheorems
  import Dealer

  // ---- round one ----

  predicate DrawFails(kps: map<Identifier, KeyPackage>, id: Identifier, draw: Nonces) {
    id !in kps || draw.hiding == 0 || draw.binding == 0
  }

  function DrawError(kps: map<Identifier, KeyPackage>, id: Identifier): Error {
    if id !in kps then Plain(InvalidParticipant) else Blaming([id], InvalidNonce)
  }

  /** The first position from i on at which round one fails, or the end. */
  function FirstFault(kps: map<Identifier, KeyPackage>, ids: seq<Identifier>, draws: seq<Nonces>, i: nat): (k: nat)
    requires i <= |ids| == |draws|
    ensures i <= k <= |ids|
    ensures k < |ids| ==> DrawFails(kps, ids[k], draws[k])
    ensures forall j :: i <= j < k ==> !DrawFails(kps, ids[j], draws[j])
    decreases |ids| - i
  {
    if i == |ids| || DrawFails(kps, ids[i], draws[i]) then i else FirstFault(kps, ids, draws, i + 1)
  }

  /** The store after k participants: a repeated identifier keeps its last nonces only. */
  function StoreTo(ids: seq<Identifier>, draws: seq<Nonces>, k: nat): map<Identifier, Nonces>
    requires k <= |ids| == |draws|
  {
    if k == 0 then map[] else StoreTo(ids, draws, k - 1)[ids[k - 1] := draws[k - 1]]
  }

  /** The commitments collected, each under the name its signer uses for itself. */
  function Collected(kps: map<Identifier, KeyPackage>, ids: seq<Identifier>, draws: seq<Nonces>): (cs: seq<Commitment>)
    requires |ids| == |draws| && forall id :: id in ids ==> id in kps
    ensures |cs| == |ids| && forall i :: 0 <= i < |ids| ==> Commits(cs[i], kps[ids[i]].id, draws[i])
  {
    seq(|ids|, i requires 0 <= i < |ids| =>
      assert ids[i] in ids; Commitment(kps[ids[i]].id, ScalarBaseMult(draws[i].hiding),
                                       ScalarBaseMult(draws[i].binding)))
  }

  ghost predicate SortedAndValidated(cs: seq<Commitment>, list: seq<Commitment>, r: Result<seq<Commitment>>) {
    && Sorted(list) && multiset(list) == multiset(cs)
    && r == if Validation(list).Ok? then Ok(list) else Err(Validation(list).error)
  }

  /** The outcome of round one: refused for the first fault, or the commitments sorted and validated. */
  ghost predicate RoundOneOutcome(kps: map<Identifier, KeyPackage>, ids: seq<Identifier>, draws: seq<Nonces>,
                                  r: Result<seq<Commitment>>)
    requires |ids| == |draws|
  {
    if ids == [] then r == Err(Plain(InsufficientParticipants))
    else
      var k := FirstFault(kps, ids, draws, 0);
      if k < |ids| then r == Err(DrawError(kps, ids[k]))
      else exists list :: SortedAndValidated(Collected(kps, ids, draws), list, r)
  }

  // ---- round two ----

  /** The share of the list's i-th participant from the nonces in the store, or why there is none. */
  function ShareAt(suite: Suite, kps: map<Identifier, KeyPackage>, store: map<Identifier, Nonces>, msg: Bytes,
                   list: seq<Commitment>, i: nat): Result<SignatureShare>
    requires i < |list|
  {
    var id := list[i].id;
    if id !in kps then Err(Blaming([id], InvalidParticipant))
    else if id !in store then Err(Blaming([id], InvalidNonce))
    else
      var r := RoundTwoResult(suite, kps[id], store[id], msg, list);
      if r.Err? then Err(Blaming([id], r.error.kind)) else r
  }

  function Answers(suite: Suite, kps: map<Identifier, KeyPackage>, store: map<Identifier, Nonces>, msg: Bytes,
                   list: seq<Commitment>): (rs: seq<Result<SignatureShare>>)
    ensures |rs| == |list| && forall i :: 0 <= i < |list| ==> rs[i] == ShareAt(suite, kps, store, msg, list, i)
  {
    seq(|list|, i requires 0 <= i < |list| => ShareAt(suite, kps, store, msg, list, i))
  }

  ghost predicate IsAnswer(suite: Suite, kps: map<Identifier, KeyPackage>, store: map<Identifier, Nonces>, msg: Bytes,
                           list: seq<Commitment>, i: nat, r: Result<SignatureShare>)
    requires i < |list|
  {
    r == ShareAt(suite, kps, store, msg, list, i)
  }

  /** rs are the answers; the trigger keeps them folded where only their order matters. */
  ghost predicate AreAnswers(suite: Suite, kps: map<Identifier, KeyPackage>, store: map<Identifier, Nonces>, msg: Bytes,
                             list: seq<Commitment>, rs: seq<Result<SignatureShare>>) {
    |rs| == |list| &&
    forall i {:trigger IsAnswer(suite, kps, store, msg, list, i, rs[i])} :: 0 <= i < |list| ==>
      IsAnswer(suite, kps, store, msg, list, i, rs[i])
  }

  /** The first refusal from position i on, or the end. */
  function FirstRefusal(rs: seq<Result<SignatureShare>>, i: nat): (k: nat)
    requires i <= |rs|
    ensures i <= k <= |rs|
    ensures k < |rs| ==> rs[k].Err?
    ensures forall j :: i <= j < k ==> rs[j].Ok?
    decreases |rs| - i
  {
    if i == |rs| || rs[i].Err? then i else FirstRefusal(rs, i + 1)
  }

  /** All the shares, or the first refusal. */
  function AllOrFirst(rs: seq<Result<SignatureShare>>): Result<seq<SignatureShare>> {
    var k := FirstRefusal(rs, 0);
    if k < |rs| then Err(rs[k].error) else Ok(seq(|rs|, i requires 0 <= i < |rs| => rs[i].value))
  }

  lemma {:induction false} AllOrFirstExact(rs: seq<Result<SignatureShare>>)
    ensures var r := AllOrFirst(rs);
      && (r.Ok? <==> forall i :: 0 <= i < |rs| ==> rs[i].Ok?)
      && (r.Ok? ==> |r.value| == |rs| && forall i :: 0 <= i < |rs| ==> rs[i] == Ok(r.value[i]))
      && (r.Err? ==> exists k :: 0 <= k < |rs| && rs[k].Err? && (forall j :: 0 <= j < k ==> rs[j].Ok?)
                                 && r.error == rs[k].error)
  {
  }

  lemma {:induction false} AllAnswered(rs: seq<Result<SignatureShare>>, shares: seq<SignatureShare>)
    requires |shares| == |rs| && forall i :: 0 <= i < |rs| ==> rs[i] == Ok(shares[i])
    ensures FirstRefusal(rs, 0) == |rs| && AllOrFirst(rs) == Ok(shares)
  {
    AllOrFirstExact(rs);
    assert AllOrFirst(rs).value == shares;
  }

  lemma {:induction false} RefusedAt(rs: seq<Result<SignatureShare>>, i: nat)
    requires i < |rs| && rs[i].Err? && FirstRefusal(rs, 0) == FirstRefusal(rs, i)
    ensures FirstRefusal(rs, 0) == i && AllOrFirst(rs) == Err(rs[i].error)
  {
  }

  /** The identifiers of the first k entries. */
  function IdsTo(list: seq<Commitment>, k: nat): set<Identifier>
    requires k <= |list|
  {
    if k == 0 then {} else IdsTo(list, k - 1) + {list[k - 1].id}
  }

  lemma {:induction false} IdsToExact(list: seq<Commitment>, k: nat, id: Identifier)
    requires k <= |list|
    ensures id in IdsTo(list, k) <==> exists j :: 0 <= j < k && list[j].id == id
  {
    if k > 0 {
      IdsToExact(list, k - 1, id);
    }
  }

  /** How far round two gets: a participant that refuses has used its nonces, one that is unknown has not. */
  function Reached(kps: map<Identifier, KeyPackage>, list: seq<Commitment>, rs: seq<Result<SignatureShare>>): (n: nat)
    requires |rs| == |list|
    ensures n <= |list|
  {
    var k := FirstRefusal(rs, 0);
    if k < |list| && list[k].id in kps then k + 1 else k
  }

  class Coordinator {
    const suite: Suite
    const participants: map<Identifier, KeyPackage>
    const groupPublicKey: Element
    const minSigners: nat
    var noncesMap: map<Identifier, Nonces>

    constructor (suite: Suite, participants: map<Identifier, KeyPackage>, groupPublicKey: Element, minSigners: nat)
      ensures this.suite == suite && this.participants == participants
      ensures this.groupPublicKey == groupPublicKey && this.minSigners == minSigners && noncesMap == map[]
    {
      this.suite, this.participants, this.groupPublicKey, this.minSigners := suite, participants, groupPublicKey,
        minSigners;
      noncesMap := map[];
    }

    /** `draws` are the nonces that the participants draw, in turn. */
    method RequestCommitments(ids: seq<Identifier>, draws: seq<Nonces>) returns (r: Result<seq<Commitment>>)
      requires |ids| == |draws|
      modifies this`noncesMap
      ensures RoundOneOutcome(participants, ids, draws, r)
      ensures noncesMap == if ids == [] then old(noncesMap)
        else StoreTo(ids, draws, FirstFault(participants, ids, draws, 0))
    {
      if |ids| == 0 {
        return Err(Plain(InsufficientParticipants));
      }
      noncesMap := map[];
      var commitments: seq<Commitment> := [];
      for i := 0 to |ids|
        invariant FirstFault(participants, ids, draws, 0) == FirstFault(participants, ids, draws, i)
        invariant noncesMap == StoreTo(ids, draws, i)
        invariant |commitments| == i
        invariant forall k :: 0 <= k < i ==>
          ids[k] in participants && Commits(commitments[k], participants[ids[k]].id, draws[k])
      {
        if ids[i] !in participants {
          return Err(Plain(InvalidParticipant));
        }
        var one := RoundOne(participants[ids[i]].id, draws[i].hiding, draws[i].binding);
        if one.Err? {
          return Err(Blaming([ids[i]], one.error.kind));
        }
        noncesMap := noncesMap[ids[i] := one.value.0];
        commitments := commitments + [one.value.1];
      }
      assert commitments == Collected(participants, ids, draws);
      var list := SortById(commitments);
      var valid := ValidateCommitmentList(list);
      r := if valid.Err? then Err(valid.error) else Ok(list);
      assert SortedAndValidated(commitments, list, r);
    }

    /** Takes the nonces of the i-th participant out of the store, those of the earlier ones being gone already,
        and has it answer. */
    method RequestShare(list: seq<Commitment>, i: nat, msg: Bytes, ghost store: map<Identifier, Nonces>,
                        ghost rs: seq<Result<SignatureShare>>)
      returns (r: Result<SignatureShare>)
      requires Ascending(list) && i < |list|
      requires AreAnswers(suite, participants, store, msg, list, rs)
      requires noncesMap == store - IdsTo(list, i)
      modifies this`noncesMap
      ensures r == rs[i] && (r.Ok? ==> list[i].id in participants)
      ensures noncesMap == store - IdsTo(list, if list[i].id in participants then i + 1 else i)
    {
      var id := list[i].id;
      IdsToExact(list, i, id);
      assert IsAnswer(suite, participants, store, msg, list, i, rs[i]);
      if id !in participants {
        return Err(Blaming([id], InvalidParticipant));
      }
      if id !in noncesMap {
        return Err(Blaming([id], InvalidNonce));
      }
      var nonces := noncesMap[id];
      noncesMap := noncesMap - {id};
      r := RoundTwo(suite, participants[id], nonces, msg, list);
      if r.Err? {
        r := Err(Blaming([id], r.error.kind));
      }
    }

    /** Every nonce of a participant reached is gone afterwards, whether or not the participant answered. */
    method RequestSignatureShares(list: seq<Commitment>, msg: Bytes) returns (r: Result<seq<SignatureShare>>)
      modifies this`noncesMap
      ensures Validation(list).Err? ==> r == Err(Validation(list).error) && noncesMap == old(noncesMap)
      ensures Validation(list).Ok? ==>
        var rs := Answers(suite, participants, old(noncesMap), msg, list);
        r == AllOrFirst(rs) && noncesMap == old(noncesMap) - IdsTo(list, Reached(participants, list, rs))
    {
      var valid := ValidateCommitmentList(list);
      if valid.Err? {
        return Err(valid.error);
      }
      ValidationExact(list);
      r := AskAll(list, msg, noncesMap, Answers(suite, participants, noncesMap, msg, list));
    }

    method AskAll(list: seq<Commitment>, msg: Bytes, ghost store: map<Identifier, Nonces>,
                  ghost rs: seq<Result<SignatureShare>>)
      returns (r: Result<seq<SignatureShare>>)
      requires Ascending(list) && noncesMap == store
      requires AreAnswers(suite, participants, store, msg, list, rs)
      modifies this`noncesMap
      ensures r == AllOrFirst(rs) && noncesMap == store - IdsTo(list, Reached(participants, list, rs))
    {
      var shares: seq<SignatureShare> := [];
      for i := 0 to |list|
        invariant FirstRefusal(rs, 0) == FirstRefusal(rs, i)
        invariant noncesMap == store - IdsTo(list, i)
        invariant |shares| == i
        invariant forall k :: 0 <= k < i ==> rs[k] == Ok(shares[k])
      {
        var share := RequestShare(list, i, msg, store, rs);
        if share.Err? {
          RefusedAt(rs, i);
          return Err(share.error);
        }
        shares := shares + [share.value];
      }
      AllAnswered(rs, shares);
      r := Ok(shares);
    }

    /** Both rounds and aggregation. Whenever it succeeds for signers kept under their own names, no nonce is left
        behind. */
    method Sign(ids: seq<Identifier>, draws: seq<Nonces>, msg: Bytes)
      returns (r: Result<Signature>, ghost one: Result<seq<Commitment>>)
      requires |ids| == |draws|
      modifies this`noncesMap
      ensures RoundOneOutcome(participants, ids, draws, one)
      ensures one.Err? ==> r == Err(one.error)
      ensures one.Ok? ==> r == SessionResult(suite, participants, StoreTo(ids, draws, |ids|), minSigners,
                                             groupPublicKey, msg, one.value)
      ensures r.Ok? && Named(participants) ==> noncesMap == map[]
    {
      var list := RequestCommitments(ids, draws);
      one := list;
      if list.Err? {
        return Err(list.error), one;
      }
      if Named(participants) {
        SessionReady(participants, ids, draws, list.value);
      }
      r := Finish(list.value, msg);
    }

    /** Round two and aggregation. */
    method Finish(list: seq<Commitment>, msg: Bytes) returns (r: Result<Signature>)
      modifies this`noncesMap
      ensures r == SessionResult(suite, participants, old(noncesMap), minSigners, groupPublicKey, msg, list)
      ensures r.Ok? && Ready(participants, old(noncesMap), list) ==> noncesMap == map[]
    {
      ghost var store := noncesMap;
      var shares := RequestSignatureShares(list, msg);
      if shares.Err? {
        return Err(shares.error);
      }
      if Ready(participants, store, list) {
        NothingMissing(suite, participants, store, msg, list);
      }
      r := Aggregate(suite, minSigners, groupPublicKey, list, msg, shares.value);
    }
  }

  /** Round two and aggregation over a list from round one. */
  function SessionResult(suite: Suite, kps: map<Identifier, KeyPackage>, store: map<Identifier, Nonces>,
                         minSigners: nat, pk: Element,
                         msg: Bytes, list: seq<Commitment>): Result<Signature> {
    if Validation(list).Err? then Err(Validation(list).error)
    else
      var shares := AllOrFirst(Answers(suite, kps, store, msg, list));
      if shares.Err? then Err(shares.error) else AggregateResult(suite, minSigners, pk, list, msg, shares.value)
  }

  /** Each signer is kept under its own identifier. */
  ghost predicate Named(kps: map<Identifier, KeyPackage>) {
    forall id :: id in kps ==> kps[id].id == id
  }

  /** The signers hold the shares of p and the public key. */
  ghost predicate SharesOf(kps: map<Identifier, KeyPackage>, p: Poly, pk: Element)
    requires |p| > 0
  {
    && pk == ScalarBaseMult(p[0]) && Named(kps)
    && forall id :: id in kps ==> kps[id].secretShare == Eval(p, id) && kps[id].groupPublicKey == pk
  }

  // ---- a session run on its own ----

  lemma {:induction false} StoreHolds(ids: seq<Identifier>, draws: seq<Nonces>, k: nat)
    requires k <= |ids| == |draws| && Distinct(ids)
    ensures StoreTo(ids, draws, k).Keys == set id | id in ids[..k]
    ensures forall i :: 0 <= i < k ==> ids[i] in StoreTo(ids, draws, k) && StoreTo(ids, draws, k)[ids[i]] == draws[i]
  {
    if k > 0 {
      StoreHolds(ids, draws, k - 1);
      assert ids[..k] == ids[..k - 1] + [ids[k - 1]];
    }
  }

  lemma {:induction false} CollectedDistinct(kps: map<Identifier, KeyPackage>, ids: seq<Identifier>, draws: seq<Nonces>)
    requires |ids| == |draws| && (forall id :: id in ids ==> id in kps) && Named(kps)
    ensures Distinct(ids) <==> DistinctIds(Collected(kps, ids, draws))
  {
    var cs := Collected(kps, ids, draws);
    assert forall i :: 0 <= i < |ids| ==> ids[i] in ids && cs[i].id == ids[i];
  }

  /** What round one leaves: the list names exactly the store, and every entry commits to the nonces stored for it. */
  ghost predicate Matching(store: map<Identifier, Nonces>, list: seq<Commitment>) {
    && Ascending(list)
    && (forall id :: id in store ==> id in ListIds(list))
    && forall i :: 0 <= i < |list| ==> list[i].id in store && Commits(list[i], list[i].id, store[list[i].id])
  }

  lemma {:induction false} SessionIds(kps: map<Identifier, KeyPackage>, ids: seq<Identifier>, draws: seq<Nonces>,
                                      list: seq<Commitment>)
    requires |ids| == |draws| && (forall id :: id in ids ==> id in kps) && Named(kps)
    requires Validation(list).Ok? && multiset(list) == multiset(Collected(kps, ids, draws))
    ensures Ascending(list) && Distinct(ids) && |list| == |ids|
  {
    ValidationExact(list);
    DistinctPermuted(list, Collected(kps, ids, draws));
    CollectedDistinct(kps, ids, draws);
    assert |list| == |multiset(list)| == |multiset(Collected(kps, ids, draws))|;
  }

  lemma {:induction false} SessionStore(kps: map<Identifier, KeyPackage>, ids: seq<Identifier>, draws: seq<Nonces>,
                                        list: seq<Commitment>)
    requires |ids| == |draws| && (forall id :: id in ids ==> id in kps) && Named(kps)
    requires Validation(list).Ok? && multiset(list) == multiset(Collected(kps, ids, draws))
    ensures Matching(StoreTo(ids, draws, |ids|), list)
  {
    var cs, store := Collected(kps, ids, draws), StoreTo(ids, draws, |ids|);
    SessionIds(kps, ids, draws, list);
    StoreHolds(ids, draws, |ids|);
    forall j | 0 <= j < |list|
      ensures list[j].id in store && Commits(list[j], list[j].id, store[list[j].id])
    {
      assert list[j] in multiset(list);
      assert list[j] in multiset(cs);
      var i :| 0 <= i < |cs| && cs[i] == list[j];
      assert ids[i] in ids;
    }
    forall id | id in store
      ensures id in ListIds(list)
    {
      assert id in ids[..|ids|];
      var i :| 0 <= i < |ids| && ids[i] == id;
      assert cs[i] in multiset(cs);
      assert cs[i] in multiset(list);
      var j :| 0 <= j < |list| && list[j] == cs[i];
      assert ListIds(list)[j] == id;
    }
  }

  ghost predicate Ready(kps: map<Identifier, KeyPackage>, store: map<Identifier, Nonces>, list: seq<Commitment>) {
    Matching(store, list) && forall id :: id in store ==> id in kps
  }

  lemma {:induction false} SessionReady(kps: map<Identifier, KeyPackage>, ids: seq<Identifier>, draws: seq<Nonces>,
                                        list: seq<Commitment>)
    requires |ids| == |draws| && RoundOneOutcome(kps, ids, draws, Ok(list)) && Named(kps)
    ensures FirstFault(kps, ids, draws, 0) == |ids| == |list| && ids != []
    ensures Ready(kps, StoreTo(ids, draws, |ids|), list)
  {
    SessionIds(kps, ids, draws, list);
    SessionStore(kps, ids, draws, list);
    StoreHolds(ids, draws, |ids|);
    assert ids[..|ids|] == ids;
  }

  // ---- when a session succeeds ----

  /** Round one succeeds exactly for distinct participants that are all known and draw no zero; the list then has
      exactly the commitments to what they drew. Otherwise the first fault decides, or that an identifier is
      repeated. */
  lemma {:induction false} RoundOneExact(kps: map<Identifier, KeyPackage>, ids: seq<Identifier>, draws: seq<Nonces>,
                                         r: Result<seq<Commitment>>)
    requires |ids| == |draws| && RoundOneOutcome(kps, ids, draws, r) && Named(kps)
    ensures r.Ok? <==> && ids != [] && Distinct(ids)
                       && forall i :: 0 <= i < |ids| ==> ids[i] in kps && draws[i].hiding != 0 && draws[i].binding != 0
    ensures r.Ok? ==> Ascending(r.value) && |r.value| == |ids| && forall i :: 0 <= i < |ids| ==>
      Commitment(ids[i], ScalarBaseMult(draws[i].hiding), ScalarBaseMult(draws[i].binding)) in r.value
    ensures ids == [] ==> r == Err(Plain(InsufficientParticipants))
    ensures forall k :: 0 <= k < |ids|
                        && (forall j :: 0 <= j < k ==> ids[j] in kps && draws[j].hiding != 0 && draws[j].binding != 0)
                        && (ids[k] !in kps || draws[k].hiding == 0 || draws[k].binding == 0) ==>
      r == Err(if ids[k] !in kps then Plain(InvalidParticipant) else Blaming([ids[k]], InvalidNonce))
    ensures ids != [] && !Distinct(ids)
            && (forall i :: 0 <= i < |ids| ==> ids[i] in kps && draws[i].hiding != 0 && draws[i].binding != 0) ==>
      r == Err(Plain(DuplicateParticipant))
  {
    if ids != [] {
      var k := FirstFault(kps, ids, draws, 0);
      if k == |ids| {
        assert forall i :: 0 <= i < |ids| ==> !DrawFails(kps, ids[i], draws[i]);
        AllDrawn(kps, ids, draws, r);
      } else {
        assert DrawFails(kps, ids[k], draws[k]);
        assert forall j :: 0 <= j < k ==> !DrawFails(kps, ids[j], draws[j]);
      }
    }
  }

  lemma {:induction false} AllDrawn(kps: map<Identifier, KeyPackage>, ids: seq<Identifier>, draws: seq<Nonces>,
                                    r: Result<seq<Commitment>>)
    requires |ids| == |draws| && ids != [] && Named(kps) && forall id :: id in ids ==> id in kps
    requires exists list :: SortedAndValidated(Collected(kps, ids, draws), list, r)
    ensures if Distinct(ids) then r.Ok? else r == Err(Plain(DuplicateParticipant))
    ensures r.Ok? ==> Ascending(r.value) && |r.value| == |ids| && forall i :: 0 <= i < |ids| ==>
      Commitment(ids[i], ScalarBaseMult(draws[i].hiding), ScalarBaseMult(draws[i].binding)) in r.value
  {
    var cs := Collected(kps, ids, draws);
    var list :| SortedAndValidated(cs, list, r);
    assert |list| == |multiset(list)| == |multiset(cs)| == |cs|;
    CollectedDistinct(kps, ids, draws);
    if DistinctIds(cs) {
      DistinctPermuted(cs, list);
    }
    if DistinctIds(list) {
      DistinctPermuted(list, cs);
    }
    SortedDuplicates(list, 1);
    ValidationExact(list);
    forall i | 0 <= i < |ids|
      ensures Commitment(ids[i], ScalarBaseMult(draws[i].hiding), ScalarBaseMult(draws[i].binding)) in list
    {
      assert ids[i] in ids && Commits(cs[i], ids[i], draws[i]);
      assert cs[i] in multiset(cs);
      assert cs[i] in multiset(list);
    }
  }

  /** Does this signer answer the list? Whatever its nonces, if it is part of it, finds it long enough and free of
      identities, and its challenge is not zero. */
  predicate Willing(suite: Suite, kp: KeyPackage, msg: Bytes, list: seq<Commitment>) {
    && kp.id in ListIds(list) && kp.minSigners <= |list| && NoIdentities(list)
    && Challenge(suite, ScalarBaseMult(Sum(NonceTerms(suite, kp.groupPublicKey, list, msg))), kp.groupPublicKey,
                 msg).Ok?
  }

  lemma {:induction false} ShareAtExact(suite: Suite, kps: map<Identifier, KeyPackage>, store: map<Identifier, Nonces>,
                                        msg: Bytes, list: seq<Commitment>, i: nat)
    requires Ascending(list) && i < |list|
    ensures var r, id := ShareAt(suite, kps, store, msg, list, i), list[i].id;
      if id !in kps then r == Err(Blaming([id], InvalidParticipant))
      else if id !in store then r == Err(Blaming([id], InvalidNonce))
      else
        var answer := RoundTwoResult(suite, kps[id], store[id], msg, list);
        && (r.Ok? <==> Willing(suite, kps[id], msg, list))
        && r == if answer.Ok? then answer else Err(Blaming([id], answer.error.kind))
  {
    if list[i].id in kps && list[i].id in store {
      RoundTwoExact(suite, kps[list[i].id], store[list[i].id], msg, list);
    }
  }

  /** The participant at position i of the list is known, has nonces in the store and answers. */
  predicate AnswersAt(suite: Suite, kps: map<Identifier, KeyPackage>, store: map<Identifier, Nonces>, msg: Bytes,
                      list: seq<Commitment>, i: nat)
    requires i < |list|
  {
    list[i].id in kps && list[i].id in store && Willing(suite, kps[list[i].id], msg, list)
  }

  /** Round two succeeds exactly if every participant of the list answers; it holds at each position that participant's
      own answer. */
  lemma {:induction false} RoundTwoSharesExact(suite: Suite, kps: map<Identifier, KeyPackage>,
                                               store: map<Identifier, Nonces>, msg: Bytes, list: seq<Commitment>)
    requires Ascending(list)
    ensures var r := AllOrFirst(Answers(suite, kps, store, msg, list));
      && (r.Ok? <==> forall i :: 0 <= i < |list| ==> AnswersAt(suite, kps, store, msg, list, i))
      && (r.Ok? ==> |r.value| == |list| && forall i :: 0 <= i < |list| ==>
            list[i].id in kps && list[i].id in store
              && RoundTwoResult(suite, kps[list[i].id], store[list[i].id], msg, list) == Ok(r.value[i]))
  {
    var rs := Answers(suite, kps, store, msg, list);
    AllOrFirstExact(rs);
    forall i | 0 <= i < |list|
      ensures rs[i].Ok? <==> AnswersAt(suite, kps, store, msg, list, i)
      ensures rs[i].Ok? ==> list[i].id in kps && list[i].id in store
                            && rs[i] == RoundTwoResult(suite, kps[list[i].id], store[list[i].id], msg, list)
    {
      ShareAtExact(suite, kps, store, msg, list, i);
    }
  }

  lemma {:induction false} AnswerOrNot(suite: Suite, kps: map<Identifier, KeyPackage>, store: map<Identifier, Nonces>,
                                       msg: Bytes, list: seq<Commitment>, j: nat)
    requires Ascending(list) && j < |list|
    ensures var r := ShareAt(suite, kps, store, msg, list, j);
      && (r.Ok? <==> AnswersAt(suite, kps, store, msg, list, j))
      && (r.Err? ==> GetCulprits(r.error) == [list[j].id])
  {
    ShareAtExact(suite, kps, store, msg, list, j);
  }

  lemma {:induction false} FirstRefusalIs(rs: seq<Result<SignatureShare>>, i: nat)
    requires i <= |rs| && (i < |rs| ==> rs[i].Err?) && forall j :: 0 <= j < i ==> rs[j].Ok?
    ensures FirstRefusal(rs, 0) == i && (i < |rs| ==> AllOrFirst(rs) == Err(rs[i].error))
  {
  }

  /** When round two stops at the first participant that does not answer, at i, its nonces are gone as well if it is
      known, and those of the later ones are still there; otherwise nobody's are. */
  lemma {:induction false} ReachedExact(suite: Suite, kps: map<Identifier, KeyPackage>, store: map<Identifier, Nonces>,
                                        msg: Bytes, list: seq<Commitment>, i: nat, k: nat)
    requires Ascending(list) && i <= |list| && k < |list|
    requires forall j :: 0 <= j < i ==> AnswersAt(suite, kps, store, msg, list, j)
    requires i < |list| ==> !AnswersAt(suite, kps, store, msg, list, i)
    ensures var left := store - IdsTo(list, Reached(kps, list, Answers(suite, kps, store, msg, list)));
      list[k].id in left <==> list[k].id in store && i <= k && !(k == i && list[i].id in kps)
  {
    var rs := Answers(suite, kps, store, msg, list);
    forall j | 0 <= j <= i && j < |list|
      ensures rs[j].Ok? <==> AnswersAt(suite, kps, store, msg, list, j)
    {
      AnswerOrNot(suite, kps, store, msg, list, j);
    }
    FirstRefusalIs(rs, i);
    IdsToExact(list, Reached(kps, list, rs), list[k].id);
  }

  /** That participant is the one named. */
  lemma {:induction false} RoundTwoSharesRefused(suite: Suite, kps: map<Identifier, KeyPackage>,
                                                 store: map<Identifier, Nonces>, msg: Bytes, list: seq<Commitment>,
                                                 i: nat)
    requires Ascending(list) && i < |list| && !AnswersAt(suite, kps, store, msg, list, i)
    requires forall j :: 0 <= j < i ==> AnswersAt(suite, kps, store, msg, list, j)
    ensures var r := AllOrFirst(Answers(suite, kps, store, msg, list));
      r.Err? && GetCulprits(r.error) == [list[i].id]
  {
    var rs := Answers(suite, kps, store, msg, list);
    forall j | 0 <= j <= i
      ensures rs[j].Ok? <==> AnswersAt(suite, kps, store, msg, list, j)
    {
      AnswerOrNot(suite, kps, store, msg, list, j);
    }
    AnswerOrNot(suite, kps, store, msg, list, i);
    FirstRefusalIs(rs, i);
  }

  /** In such a session no participant and no nonce is ever missing: only a signer's own round two can refuse,
      and when none does the store ends up empty. */
  lemma {:induction false} NothingMissing(suite: Suite, kps: map<Identifier, KeyPackage>,
                                          store: map<Identifier, Nonces>, msg: Bytes,
                                          list: seq<Commitment>)
    requires Ready(kps, store, list)
    ensures forall i :: 0 <= i < |list| ==> list[i].id in kps && list[i].id in store
    ensures var rs := Answers(suite, kps, store, msg, list);
            AllOrFirst(rs).Ok? ==> store - IdsTo(list, Reached(kps, list, rs)) == map[]
  {
    var rs := Answers(suite, kps, store, msg, list);
    AllOrFirstExact(rs);
    if AllOrFirst(rs).Ok? {
      assert FirstRefusal(rs, 0) == |list|;
      forall id | id in store
        ensures id in IdsTo(list, |list|)
      {
        var j :| 0 <= j < |list| && ListIds(list)[j] == id;
        assert list[j].id == id;
        IdsToExact(list, |list|, id);
      }
    }
  }

  lemma {:induction false} StoreDrawn(ids: seq<Identifier>, draws: seq<Nonces>, k: nat)
    requires k <= |ids| == |draws|
    ensures forall id :: id in StoreTo(ids, draws, k) <==> id in ids[..k]
    ensures (forall i :: 0 <= i < k ==> draws[i].hiding != 0 && draws[i].binding != 0) ==>
      forall id :: id in StoreTo(ids, draws, k) ==>
        StoreTo(ids, draws, k)[id].hiding != 0 && StoreTo(ids, draws, k)[id].binding != 0
  {
    if k > 0 {
      StoreDrawn(ids, draws, k - 1);
      assert ids[..k] == ids[..k - 1] + [ids[k - 1]];
    }
  }

  /** The list names exactly those in the store, and no commitment to non-zero nonces is the identity. */
  lemma {:induction false} MatchingList(store: map<Identifier, Nonces>, list: seq<Commitment>)
    requires Matching(store, list)
    ensures forall id :: id in ListIds(list) <==> id in store
    ensures (forall id :: id in store ==> store[id].hiding != 0 && store[id].binding != 0) ==> NoIdentities(list)
  {
    forall id | id in ListIds(list)
      ensures id in store
    {
      var j :| 0 <= j < |list| && ListIds(list)[j] == id;
      assert list[j].id == id;
    }
  }

  /** The list of a session names the participants asked, no more and no fewer; nobody draws a zero, so no commitment is
      the identity. */
  lemma {:induction false} SessionList(kps: map<Identifier, KeyPackage>, ids: seq<Identifier>, draws: seq<Nonces>,
                                       list: seq<Commitment>)
    requires |ids| == |draws| && RoundOneOutcome(kps, ids, draws, Ok(list)) && Named(kps)
    ensures |list| == |ids| && Validation(list).Ok? && NoIdentities(list)
    ensures forall id :: id in ListIds(list) <==> id in ids
  {
    SessionReady(kps, ids, draws, list);
    ValidationExact(list);
    assert ids[..|ids|] == ids;
    StoreDrawn(ids, draws, |ids|);
    MatchingList(StoreTo(ids, draws, |ids|), list);
  }

  lemma {:induction false} AllAnswer(suite: Suite, kps: map<Identifier, KeyPackage>, store: map<Identifier, Nonces>,
                                     msg: Bytes, list: seq<Commitment>)
    requires forall i :: 0 <= i < |list| ==> list[i].id in kps && list[i].id in store
    ensures (forall i :: 0 <= i < |list| ==> AnswersAt(suite, kps, store, msg, list, i)) <==>
      forall i :: 0 <= i < |list| ==> Willing(suite, kps[list[i].id], msg, list)
  {
    if forall i :: 0 <= i < |list| ==> AnswersAt(suite, kps, store, msg, list, i) {
      forall i | 0 <= i < |list|
        ensures Willing(suite, kps[list[i].id], msg, list)
      {
        assert AnswersAt(suite, kps, store, msg, list, i);
      }
    }
  }

  /** Over a list from round one: success exactly if every participant answers, there are enough of them and R is not
      the identity. */
  lemma {:induction false} ReadySessionExact(suite: Suite, kps: map<Identifier, KeyPackage>,
                                             store: map<Identifier, Nonces>, minSigners: nat, pk: Element, msg: Bytes,
                                             list: seq<Commitment>)
    requires Ready(kps, store, list) && list != [] && NoIdentities(list)
    ensures forall i :: 0 <= i < |list| ==> list[i].id in kps
    ensures SessionResult(suite, kps, store, minSigners, pk, msg, list).Ok? <==>
      && (forall i :: 0 <= i < |list| ==> Willing(suite, kps[list[i].id], msg, list))
      && minSigners <= |list| && Sum(NonceTerms(suite, pk, list, msg)) != 0
  {
    ValidationExact(list);
    NothingMissing(suite, kps, store, msg, list);
    RoundTwoSharesExact(suite, kps, store, msg, list);
    var shares := AllOrFirst(Answers(suite, kps, store, msg, list));
    AllAnswer(suite, kps, store, msg, list);
    if shares.Ok? {
      AggregateExact(suite, minSigners, pk, list, msg, shares.value);
    }
  }

  /** Every signer finds enough participants, and a challenge that is not zero. */
  predicate SignersReady(suite: Suite, kps: map<Identifier, KeyPackage>, ids: seq<Identifier>, msg: Bytes,
                         list: seq<Commitment>)
    requires forall id :: id in ids ==> id in kps
  {
    forall id :: id in ids ==>
      && kps[id].minSigners <= |ids|
      && Challenge(suite, ScalarBaseMult(Sum(NonceTerms(suite, kps[id].groupPublicKey, list, msg))),
                   kps[id].groupPublicKey, msg).Ok?
  }

  /** Willing, for a participant asked: it is on the list, which has no identities. */
  lemma {:induction false} WillingIfReady(suite: Suite, kps: map<Identifier, KeyPackage>, ids: seq<Identifier>,
                                          msg: Bytes, list: seq<Commitment>, i: nat)
    requires |list| == |ids| && NoIdentities(list) && Named(kps) && i < |list| && list[i].id in ids
    requires (forall id :: id in ids ==> id in kps) && SignersReady(suite, kps, ids, msg, list)
    ensures Willing(suite, kps[list[i].id], msg, list)
  {
    assert ListIds(list)[i] == list[i].id;
  }

  lemma {:induction false} ReadyIfWilling(suite: Suite, kps: map<Identifier, KeyPackage>, ids: seq<Identifier>,
                                          msg: Bytes, list: seq<Commitment>)
    requires |list| == |ids| && forall id :: id in ids ==> id in kps && id in ListIds(list)
    requires forall i :: 0 <= i < |list| ==> list[i].id in kps && Willing(suite, kps[list[i].id], msg, list)
    ensures SignersReady(suite, kps, ids, msg, list)
  {
    forall id | id in ids
      ensures Willing(suite, kps[id], msg, list)
    {
      var i :| 0 <= i < |list| && ListIds(list)[i] == id;
      assert list[i].id == id;
    }
  }

  lemma {:induction false} AllSignersWilling(suite: Suite, kps: map<Identifier, KeyPackage>, ids: seq<Identifier>,
                                             msg: Bytes, list: seq<Commitment>)
    requires |list| == |ids| && NoIdentities(list) && Named(kps) && forall id :: id in ListIds(list) <==> id in ids
    requires forall id :: id in ids ==> id in kps
    ensures forall i :: 0 <= i < |list| ==> list[i].id in kps
    ensures (forall i :: 0 <= i < |list| ==> Willing(suite, kps[list[i].id], msg, list)) <==>
      SignersReady(suite, kps, ids, msg, list)
  {
    forall i | 0 <= i < |list|
      ensures list[i].id in ids && list[i].id in kps
    {
      assert ListIds(list)[i] == list[i].id;
    }
    if SignersReady(suite, kps, ids, msg, list) {
      forall i | 0 <= i < |list|
        ensures Willing(suite, kps[list[i].id], msg, list)
      {
        WillingIfReady(suite, kps, ids, msg, list, i);
      }
    } else if forall i :: 0 <= i < |list| ==> Willing(suite, kps[list[i].id], msg, list) {
      ReadyIfWilling(suite, kps, ids, msg, list);
    }
  }

  /** After round one a session succeeds exactly if every signer, and the coordinator, finds enough participants, no
      signer's challenge is zero and R is not the identity. */
  lemma {:induction false} SessionExact(suite: Suite, kps: map<Identifier, KeyPackage>, minSigners: nat, pk: Element,
                                        ids: seq<Identifier>, draws: seq<Nonces>, msg: Bytes, list: seq<Commitment>)
    requires |ids| == |draws| && RoundOneOutcome(kps, ids, draws, Ok(list)) && Named(kps)
    ensures forall id :: id in ids ==> id in kps
    ensures SessionResult(suite, kps, StoreTo(ids, draws, |ids|), minSigners, pk, msg, list).Ok? <==>
      && SignersReady(suite, kps, ids, msg, list)
      && minSigners <= |ids| && Sum(NonceTerms(suite, pk, list, msg)) != 0
  {
    SessionReady(kps, ids, draws, list);
    SessionList(kps, ids, draws, list);
    RoundOneExact(kps, ids, draws, Ok(list));
    ReadySessionExact(suite, kps, StoreTo(ids, draws, |ids|), minSigners, pk, msg, list);
    AllSignersWilling(suite, kps, ids, msg, list);
  }

  lemma {:induction false} AnswerIsSigners(suite: Suite, kps: map<Identifier, KeyPackage>,
                                           store: map<Identifier, Nonces>, msg: Bytes,
                                           pk: Element, p: Poly, list: seq<Commitment>, i: nat)
    requires |p| > 0 && SharesOf(kps, p, pk)
    requires Ready(kps, store, list) && i < |list|
    requires ShareAt(suite, kps, store, msg, list, i).Ok?
    ensures list[i].id in kps && list[i].id in store
    ensures SignerOf(pk, list, p, kps[list[i].id], store[list[i].id])
    ensures RoundTwoResult(suite, kps[list[i].id], store[list[i].id], msg, list)
      == ShareAt(suite, kps, store, msg, list, i)
    ensures ShareAt(suite, kps, store, msg, list, i).value.id == list[i].id
  {
    SignerIsHolder(kps, store, pk, p, list, i);
  }

  lemma {:induction false} SignerIsHolder(kps: map<Identifier, KeyPackage>, store: map<Identifier, Nonces>,
                                          pk: Element, p: Poly,
                                          list: seq<Commitment>, i: nat)
    requires |p| > 0 && SharesOf(kps, p, pk)
    requires Ready(kps, store, list) && i < |list|
    ensures list[i].id in kps && list[i].id in store && kps[list[i].id].id == list[i].id
    ensures SignerOf(pk, list, p, kps[list[i].id], store[list[i].id])
  {
    PositionInList(list, i);
  }

  lemma {:induction false} SessionVerifies(suite: Suite, kps: map<Identifier, KeyPackage>,
                                           store: map<Identifier, Nonces>, minSigners: nat,
                                           pk: Element, msg: Bytes, list: seq<Commitment>, shares: seq<SignatureShare>,
                                           p: Poly)
    requires Ready(kps, store, list)
    requires AllOrFirst(Answers(suite, kps, store, msg, list)) == Ok(shares)
    requires 0 < |p| <= |list| && SharesOf(kps, p, pk) && !pk.IsIdentity()
    requires AggregateResult(suite, minSigners, pk, list, msg, shares).Ok?
    ensures Verify(suite, msg, AggregateResult(suite, minSigners, pk, list, msg, shares).value, pk) == Ok(())
  {
    var rs := Answers(suite, kps, store, msg, list);
    AllOrFirstExact(rs);
    var signers: seq<KeyPackage> := seq(|list|, i requires 0 <= i < |list| => kps[list[i].id]);
    var nonces: seq<Nonces> := seq(|list|, i requires 0 <= i < |list| => store[list[i].id]);
    forall i | 0 <= i < |list|
      ensures SignerOf(pk, list, p, signers[i], nonces[i])
      ensures RoundTwoResult(suite, signers[i], nonces[i], msg, list) == Ok(shares[i])
      ensures ShareIds(shares)[i] == ListIds(list)[i]
    {
      assert rs[i] == Ok(shares[i]);
      AnswerIsSigners(suite, kps, store, msg, pk, p, list, i);
    }
    assert ShareIds(shares) == ListIds(list);
    AscendingDistinct(list);
    ThresholdSigningIsCorrect(suite, minSigners, pk, list, msg, p, signers, nonces, shares);
  }

  /** With the shares of a dealer polynomial, whatever a session produces verifies. */
  lemma {:induction false} CoordinatedSigningIsCorrect(suite: Suite, kps: map<Identifier, KeyPackage>, minSigners: nat,
                                                       pk: Element,
                                                       ids: seq<Identifier>, draws: seq<Nonces>, msg: Bytes,
                                                       list: seq<Commitment>, p: Poly)
    requires |ids| == |draws| && RoundOneOutcome(kps, ids, draws, Ok(list))
    requires SessionResult(suite, kps, StoreTo(ids, draws, |ids|), minSigners, pk, msg, list).Ok?
    requires 0 < |p| <= |ids| && SharesOf(kps, p, pk) && !pk.IsIdentity()
    ensures Verify(suite, msg, SessionResult(suite, kps, StoreTo(ids, draws, |ids|), minSigners, pk, msg, list).value,
                   pk) == Ok(())
  {
    var store := StoreTo(ids, draws, |ids|);
    SessionReady(kps, ids, draws, list);
    SessionVerifies(suite, kps, store, minSigners, pk, msg, list,
                    AllOrFirst(Answers(suite, kps, store, msg, list)).value, p);
  }
}
