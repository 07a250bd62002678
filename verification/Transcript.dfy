/** What every party of a signing session derives from the commitment list, the public key and the message. */
module Transcript {
  import opened PrimeField
  import opened Group
  import opened Types
  import opened Sums
  import opened Encoding

  datatype BindingFactor = BindingFactor(id: Identifier, factor: Scalar)

  function ListIds(list: seq<Commitment>): (ids: seq<Identifier>)
    ensures |ids| == |list| && forall i :: 0 <= i < |list| ==> ids[i] == list[i].id
  {
    Mapped((c: Commitment) => c.id, list)
  }

  // ---- the order of the list ----

  predicate Ascending(list: seq<Commitment>) {
    forall i, j :: 0 <= i < j < |list| ==> list[i].id < list[j].id
  }

  /** The first neighbouring pair out of order, from position i on, decides the error. */
  function ValidationFrom(list: seq<Commitment>, i: nat): Result<()>
    requires i >= 1
    decreases |list| - i
  {
    if i >= |list| then Ok(())
    else if list[i].id == list[i - 1].id then Err(Plain(DuplicateParticipant))
    else if list[i].id < list[i - 1].id then Err(Plain(UnsortedCommitments))
    else ValidationFrom(list, i + 1)
  }

  function Validation(list: seq<Commitment>): Result<()> {
    if list == [] then Err(Plain(EmptyCommitmentList)) else ValidationFrom(list, 1)
  }

  method ValidateCommitmentList(list: seq<Commitment>) returns (r: Result<()>)
    ensures r == Validation(list)
  {
    if |list| == 0 {
      return Err(Plain(EmptyCommitmentList));
    }
    var i := 1;
    while i < |list|
      invariant 1 <= i <= |list|
      invariant Validation(list) == ValidationFrom(list, i)
    {
      if list[i].id <= list[i - 1].id {
        if list[i].id == list[i - 1].id {
          return Err(Plain(DuplicateParticipant));
        }
        return Err(Plain(UnsortedCommitments));
      }
      i := i + 1;
    }
    r := Ok(());
  }

  lemma {:induction false} ValidationFromExact(list: seq<Commitment>, i: nat)
    requires 1 <= i <= |list| && Ascending(list[..i])
    ensures ValidationFrom(list, i).Ok? <==> Ascending(list)
    decreases |list| - i
  {
    if i == |list| {
      assert list[..i] == list;
    } else if list[i - 1].id < list[i].id {
      forall k | 0 <= k < i
        ensures list[k].id < list[i].id
      {
        assert list[..i][k].id <= list[..i][i - 1].id;
      }
      assert list[..i + 1] == list[..i] + [list[i]];
      ValidationFromExact(list, i + 1);
    }
  }

  /** Accepted exactly when non-empty and strictly ascending. */
  lemma {:induction false} ValidationExact(list: seq<Commitment>)
    ensures Validation(list).Ok? <==> list != [] && Ascending(list)
  {
    if list != [] {
      ValidationFromExact(list, 1);
    }
  }

  /** The first entry that is not above its neighbour decides the error. */
  lemma {:induction false} ValidationFault(list: seq<Commitment>)
    ensures list == [] ==> Validation(list) == Err(Plain(EmptyCommitmentList))
    ensures list != [] && Validation(list).Err? ==>
      exists i :: 1 <= i < |list| && Ascending(list[..i]) && list[i].id <= list[i - 1].id
        && Validation(list).error
           == Plain(if list[i].id == list[i - 1].id then DuplicateParticipant else UnsortedCommitments)
  {
    if list != [] {
      var i := 1;
      while i < |list| && list[i - 1].id < list[i].id
        invariant 1 <= i <= |list| && Ascending(list[..i]) && ValidationFrom(list, 1) == ValidationFrom(list, i)
      {
        assert forall k :: 0 <= k < i ==> list[..i][k].id <= list[..i][i - 1].id;
        assert list[..i + 1] == list[..i] + [list[i]];
        i := i + 1;
      }
    }
  }

  lemma {:induction false} AscendingDistinct(list: seq<Commitment>)
    requires Ascending(list)
    ensures Distinct(ListIds(list))
  {
  }

  // ---- binding factors ----

  function RhoPrefix(suite: Suite, pk: Element, list: seq<Commitment>, msg: Bytes): Bytes {
    suite.ElementBytes(pk) + suite.H4(msg) + suite.H5(EncodeList(suite, list))
  }

  function RhoInput(suite: Suite, pk: Element, list: seq<Commitment>, msg: Bytes, id: Identifier): Bytes {
    RhoPrefix(suite, pk, list, msg) + IdentifierBytes(suite, id)
  }

  /** The binding factor of a participant. */
  function Rho(suite: Suite, pk: Element, list: seq<Commitment>, msg: Bytes, id: Identifier): Scalar {
    suite.H1(RhoInput(suite, pk, list, msg, id))
  }

  function FactorsFor(suite: Suite, prefix: Bytes, list: seq<Commitment>): (bfs: seq<BindingFactor>)
    ensures |bfs| == |list|
    ensures forall i :: 0 <= i < |list| ==>
      bfs[i] == BindingFactor(list[i].id, suite.H1(prefix + IdentifierBytes(suite, list[i].id)))
  {
    seq(|list|, i requires 0 <= i < |list| => BindingFactor(list[i].id,
                                                            suite.H1(prefix + IdentifierBytes(suite, list[i].id))))
  }

  function Factors(suite: Suite, pk: Element, list: seq<Commitment>, msg: Bytes): (bfs: seq<BindingFactor>)
    ensures |bfs| == |list|
    ensures forall i :: 0 <= i < |list| ==> bfs[i] == BindingFactor(list[i].id, Rho(suite, pk, list, msg, list[i].id))
  {
    FactorsFor(suite, RhoPrefix(suite, pk, list, msg), list)
  }

  method ComputeBindingFactors(suite: Suite, pk: Element, list: seq<Commitment>, msg: Bytes)
    returns (r: Result<seq<BindingFactor>>)
    ensures r == if list == [] then Err(Plain(EmptyCommitmentList)) else Ok(Factors(suite, pk, list, msg))
    ensures r.Ok? ==> |r.value| == |list| && forall i :: 0 <= i < |list| ==>
      r.value[i] == BindingFactor(list[i].id, suite.H1(RhoInput(suite, pk, list, msg, list[i].id)))
  {
    if |list| == 0 {
      return Err(Plain(EmptyCommitmentList));
    }
    var encoded := Encode(suite, list);
    var prefix := suite.ElementBytes(pk) + suite.H4(msg) + suite.H5(encoded);
    var factors := HashFactors(suite, prefix, list);
    r := Ok(factors);
  }

  /** The factor of each participant: the prefix, followed by its identifier, hashed. */
  method HashFactors(suite: Suite, prefix: Bytes, list: seq<Commitment>) returns (factors: seq<BindingFactor>)
    ensures factors == FactorsFor(suite, prefix, list)
  {
    factors := [];
    for i := 0 to |list|
      invariant factors == FactorsFor(suite, prefix, list)[..i]
    {
      var identifierBytes := EncodeIdentifier(suite, list[i].id);
      var rhoInput := prefix + identifierBytes[..];
      factors := factors + [BindingFactor(list[i].id, suite.H1(rhoInput))];
    }
    assert FactorsFor(suite, prefix, list)[..|list|] == FactorsFor(suite, prefix, list);
  }

  /** The first factor listed for the participant. */
  function FactorOf(bfs: seq<BindingFactor>, id: Identifier): Result<Scalar> {
    if bfs == [] then Err(Blaming([id], InvalidParticipant))
    else if bfs[0].id == id then Ok(bfs[0].factor)
    else FactorOf(bfs[1..], id)
  }

  method GetBindingFactor(bfs: seq<BindingFactor>, id: Identifier) returns (r: Result<Scalar>)
    ensures r == FactorOf(bfs, id)
  {
    for i := 0 to |bfs|
      invariant FactorOf(bfs, id) == FactorOf(bfs[i..], id)
    {
      if bfs[i].id == id {
        return Ok(bfs[i].factor);
      }
    }
    r := Err(Blaming([id], InvalidParticipant));
  }

  /** Later entries for the participant play no part. */
  lemma {:induction false} FirstFactor(bfs: seq<BindingFactor>, id: Identifier, i: nat)
    requires i <= |bfs| && (forall j :: 0 <= j < i ==> bfs[j].id != id) && (i < |bfs| ==> bfs[i].id == id)
    ensures FactorOf(bfs, id) == if i < |bfs| then Ok(bfs[i].factor) else Err(Blaming([id], InvalidParticipant))
  {
    if i > 0 {
      FirstFactor(bfs[1..], id, i - 1);
    }
  }

  lemma {:induction false} FactorFound(bfs: seq<BindingFactor>, id: Identifier, f: Scalar)
    requires forall i :: 0 <= i < |bfs| && bfs[i].id == id ==> bfs[i].factor == f
    ensures FactorOf(bfs, id) == if exists i :: 0 <= i < |bfs| && bfs[i].id == id then Ok(f)
      else Err(Blaming([id], InvalidParticipant))
  {
    if bfs != [] && bfs[0].id != id {
      FactorFound(bfs[1..], id, f);
      if i :| 0 <= i < |bfs| && bfs[i].id == id {
        assert bfs[1..][i - 1].id == id;
      }
    }
  }

  /** Looking a participant up gives its own factor exactly when it is in the list. */
  lemma {:induction false} LookupFactor(suite: Suite, pk: Element, list: seq<Commitment>, msg: Bytes, id: Identifier)
    ensures FactorOf(Factors(suite, pk, list, msg), id)
         == if id in ListIds(list) then Ok(Rho(suite, pk, list, msg, id)) else Err(Blaming([id], InvalidParticipant))
  {
    var bfs := Factors(suite, pk, list, msg);
    FactorFound(bfs, id, Rho(suite, pk, list, msg, id));
    if id in ListIds(list) {
      var i :| 0 <= i < |list| && ListIds(list)[i] == id;
      assert bfs[i].id == id;
    }
  }

  /** No two participants of one session hash the same input. */
  lemma {:induction false} RhoInputsDiffer(suite: Suite, pk: Element, list: seq<Commitment>, msg: Bytes, a: Identifier,
                                           b: Identifier)
    requires a != b
    ensures RhoInput(suite, pk, list, msg, a) != RhoInput(suite, pk, list, msg, b)
  {
    if RhoInput(suite, pk, list, msg, a) == RhoInput(suite, pk, list, msg, b) {
      SplitBytes(RhoPrefix(suite, pk, list, msg), IdentifierBytes(suite, a), RhoPrefix(suite, pk, list, msg),
                 IdentifierBytes(suite, b));
      IdentifierBytesInjective(suite, a, b);
    }
  }

  /** The parts of what is hashed, at the places that section 4.4 of RFC 9591 gives them: the public key, the digest of
      the message, the digest of the encoded list, the identifier. */
  lemma {:induction false} RhoInputLayout(suite: Suite, pk: Element, list: seq<Commitment>, msg: Bytes, id: Identifier)
    ensures var bs := RhoInput(suite, pk, list, msg, id);
            var n, h, l := |suite.ElementBytes(pk)|, |suite.H4(msg)|, |suite.H5(EncodeList(suite, list))|;
      && |bs| == n + h + l + suite.scalarLen
      && bs[..n] == suite.ElementBytes(pk) && bs[n..n + h] == suite.H4(msg)
      && bs[n + h..n + h + l] == suite.H5(EncodeList(suite, list))
      && bs[n + h + l..] == IdentifierBytes(suite, id)
  {
    var bs := RhoInput(suite, pk, list, msg, id);
    var n, h, l := |suite.ElementBytes(pk)|, |suite.H4(msg)|, |suite.H5(EncodeList(suite, list))|;
    assert bs[..n] == suite.ElementBytes(pk);
    assert bs[n..n + h] == suite.H4(msg);
    assert bs[n + h..n + h + l] == suite.H5(EncodeList(suite, list));
    assert bs[n + h + l..] == IdentifierBytes(suite, id);
  }

  /** Binding: two factors, of any sessions, are hashes of one input only if the public keys, the digests of the
      messages and of the lists and the identifiers are the same. Digests are taken to be of one length, not to be
      without collisions. */
  lemma {:induction false} RhoInputBinds(suite: Suite, pk: Element, list: seq<Commitment>, msg: Bytes, id: Identifier,
                                         pk': Element, list': seq<Commitment>, msg': Bytes, id': Identifier)
    requires FaithfulElements(suite) && |suite.H4(msg)| == |suite.H4(msg')|
    requires |suite.H5(EncodeList(suite, list))| == |suite.H5(EncodeList(suite, list'))|
    ensures RhoInput(suite, pk, list, msg, id) == RhoInput(suite, pk', list', msg', id') <==>
      && pk == pk' && suite.H4(msg) == suite.H4(msg') && id == id'
      && suite.H5(EncodeList(suite, list)) == suite.H5(EncodeList(suite, list'))
  {
    RhoInputLayout(suite, pk, list, msg, id);
    RhoInputLayout(suite, pk', list', msg', id');
    if RhoInput(suite, pk, list, msg, id) == RhoInput(suite, pk', list', msg', id') {
      IdentifierBytesInjective(suite, id, id');
    }
  }

  // ---- group commitment ----

  /** The group commitment over the first k entries, or the first entry at fault. */
  function GroupCommitmentTo(list: seq<Commitment>, bfs: seq<BindingFactor>, k: nat): Result<Element>
    requires k <= |list|
  {
    if k == 0 then Ok(IDENTITY)
    else
      var before := GroupCommitmentTo(list, bfs, k - 1);
      var c := list[k - 1];
      if before.Err? then before
      else if c.hiding.IsIdentity() || c.binding.IsIdentity() then Err(Blaming([c.id], IdentityElement))
      else
        var f := FactorOf(bfs, c.id);
        if f.Err? then Err(Blaming([c.id], InvalidBindingFactor))
        else Ok(before.value.Plus(c.hiding.Plus(ScalarMult(c.binding, f.value))))
  }

  method ComputeGroupCommitment(list: seq<Commitment>, bfs: seq<BindingFactor>) returns (r: Result<Element>)
    ensures r == if list == [] then Err(Plain(EmptyCommitmentList))
                 else if bfs == [] then Err(Plain(InvalidParameters))
                 else GroupCommitmentTo(list, bfs, |list|)
  {
    if |list| == 0 {
      return Err(Plain(EmptyCommitmentList));
    }
    if |bfs| == 0 {
      return Err(Plain(InvalidParameters));
    }
    var groupCommitment := IDENTITY;
    for i := 0 to |list|
      invariant GroupCommitmentTo(list, bfs, i) == Ok(groupCommitment)
    {
      var commitment := list[i];
      if commitment.hiding.IsIdentity() {
        GroupFault(list, bfs, i + 1, |list|);
        return Err(Blaming([commitment.id], IdentityElement));
      }
      if commitment.binding.IsIdentity() {
        GroupFault(list, bfs, i + 1, |list|);
        return Err(Blaming([commitment.id], IdentityElement));
      }
      var found := GetBindingFactor(bfs, commitment.id);
      if found.Err? {
        GroupFault(list, bfs, i + 1, |list|);
        return Err(Blaming([commitment.id], InvalidBindingFactor));
      }
      groupCommitment := groupCommitment.Plus(commitment.hiding.Plus(ScalarMult(commitment.binding, found.value)));
    }
    r := Ok(groupCommitment);
  }

  lemma {:induction false} GroupFault(list: seq<Commitment>, bfs: seq<BindingFactor>, k: nat, n: nat)
    requires k <= n <= |list| && GroupCommitmentTo(list, bfs, k).Err?
    ensures GroupCommitmentTo(list, bfs, n) == GroupCommitmentTo(list, bfs, k)
  {
    if k < n {
      GroupFault(list, bfs, k, n - 1);
    }
  }

  /** The first entry with an identity commitment, or without a factor, is the one at fault. */
  lemma {:induction false} GroupCommitmentFault(list: seq<Commitment>, bfs: seq<BindingFactor>, k: nat)
    requires k <= |list|
    ensures GroupCommitmentTo(list, bfs, k).Ok? ==> forall i :: 0 <= i < k ==>
      list[i].hiding != IDENTITY && list[i].binding != IDENTITY && FactorOf(bfs, list[i].id).Ok?
    ensures GroupCommitmentTo(list, bfs, k).Err? ==>
      exists i :: 0 <= i < k && GroupCommitmentTo(list, bfs, i).Ok?
        && (if list[i].hiding == IDENTITY || list[i].binding == IDENTITY
            then GroupCommitmentTo(list, bfs, k).error == Blaming([list[i].id], IdentityElement)
            else FactorOf(bfs, list[i].id).Err?
                 && GroupCommitmentTo(list, bfs, k).error == Blaming([list[i].id], InvalidBindingFactor))
  {
    if k > 0 {
      GroupCommitmentFault(list, bfs, k - 1);
    }
  }

  /** R for the session, once the list is known to be valid. */
  function GroupCommitment(suite: Suite, pk: Element, list: seq<Commitment>, msg: Bytes): Result<Element> {
    GroupCommitmentTo(list, Factors(suite, pk, list, msg), |list|)
  }

  predicate NoIdentitiesTo(list: seq<Commitment>, k: nat)
    requires k <= |list|
  {
    forall i :: 0 <= i < k ==> !list[i].hiding.IsIdentity() && !list[i].binding.IsIdentity()
  }

  predicate NoIdentities(list: seq<Commitment>) {
    NoIdentitiesTo(list, |list|)
  }

  /** The logarithms of the entries' contributions D_i + rho_i E_i. */
  function NonceTerms(suite: Suite, pk: Element, list: seq<Commitment>, msg: Bytes): (ts: seq<Scalar>)
    ensures |ts| == |list|
    ensures forall i :: 0 <= i < |list| ==>
      ts[i] == Add(list[i].hiding.log, Mul(list[i].binding.log, Rho(suite, pk, list, msg, list[i].id)))
  {
    seq(|list|, i requires 0 <= i < |list| =>
      Add(list[i].hiding.log, Mul(list[i].binding.log, Rho(suite, pk, list, msg, list[i].id))))
  }

  lemma {:induction false} GroupCommitmentSum(list: seq<Commitment>, bfs: seq<BindingFactor>, ts: seq<Scalar>, k: nat)
    requires k <= |list| == |ts|
    requires forall i :: 0 <= i < |list| ==> FactorOf(bfs, list[i].id).Ok?
    requires forall i :: 0 <= i < |list| ==>
      ts[i] == Add(list[i].hiding.log, Mul(list[i].binding.log, FactorOf(bfs, list[i].id).value))
    ensures var r := GroupCommitmentTo(list, bfs, k);
      && (r.Ok? <==> NoIdentitiesTo(list, k))
      && (r.Ok? ==> r.value.log == SumTo(ts, k))
      && (r.Err? ==> r.error.kind == IdentityElement)
  {
    if k > 0 {
      GroupCommitmentSum(list, bfs, ts, k - 1);
    }
  }

  /** The group commitment exists unless some nonce commitment is the identity, and is the sum of the D_i + rho_i
      E_i. */
  lemma {:induction false} GroupCommitmentExact(suite: Suite, pk: Element, list: seq<Commitment>, msg: Bytes)
    ensures var r := GroupCommitment(suite, pk, list, msg);
      && (r.Ok? <==> NoIdentities(list))
      && (r.Ok? ==> r.value == ScalarBaseMult(Sum(NonceTerms(suite, pk, list, msg))))
      && (r.Err? ==> r.error.kind == IdentityElement)
  {
    forall i | 0 <= i < |list|
      ensures FactorOf(Factors(suite, pk, list, msg), list[i].id) == Ok(Rho(suite, pk, list, msg, list[i].id))
    {
      assert ListIds(list)[i] == list[i].id;
      LookupFactor(suite, pk, list, msg, list[i].id);
    }
    GroupCommitmentSum(list, Factors(suite, pk, list, msg), NonceTerms(suite, pk, list, msg), |list|);
  }

  // ---- challenge ----

  function ChallengeInput(suite: Suite, R: Element, pk: Element, msg: Bytes): Bytes {
    suite.ElementBytes(R) + suite.ElementBytes(pk) + msg
  }

  /** The Schnorr challenge; a zero challenge is refused. */
  function Challenge(suite: Suite, R: Element, pk: Element, msg: Bytes): Result<Scalar> {
    var c := suite.H2(ChallengeInput(suite, R, pk, msg));
    if c == 0 then Err(Plain(InvalidChallenge)) else Ok(c)
  }

  /** What is hashed is R, the public key and the whole message, in this order; exactly a zero hash is refused. */
  lemma {:induction false} ChallengeExact(suite: Suite, R: Element, pk: Element, msg: Bytes, input: Bytes)
    requires var n, m := |suite.ElementBytes(R)|, |suite.ElementBytes(pk)|;
      && |input| == n + m + |msg|
      && input[..n] == suite.ElementBytes(R) && input[n..n + m] == suite.ElementBytes(pk) && input[n + m..] == msg
    ensures input == ChallengeInput(suite, R, pk, msg)
    ensures Challenge(suite, R, pk, msg)
         == if suite.H2(input) != 0 then Ok(suite.H2(input)) else Err(Plain(InvalidChallenge))
  {
    var n, m := |suite.ElementBytes(R)|, |suite.ElementBytes(pk)|;
    assert input == input[..n] + input[n..n + m] + input[n + m..];
  }

  /** Binding: two challenges are hashes of one input only if R, the public key and the message are the same. */
  lemma {:induction false} ChallengeBinds(suite: Suite, R: Element, pk: Element, msg: Bytes, R': Element, pk': Element,
                                          msg': Bytes)
    requires FaithfulElements(suite)
    ensures ChallengeInput(suite, R, pk, msg) == ChallengeInput(suite, R', pk', msg') <==>
      R == R' && pk == pk' && msg == msg'
  {
    var n, bs, bs' := suite.elementLen, ChallengeInput(suite, R, pk, msg), ChallengeInput(suite, R', pk', msg');
    assert bs[..n] == suite.ElementBytes(R) && bs'[..n] == suite.ElementBytes(R');
    assert bs[n..n + n] == suite.ElementBytes(pk) && bs'[n..n + n] == suite.ElementBytes(pk');
    assert bs[n + n..] == msg && bs'[n + n..] == msg';
  }
}
