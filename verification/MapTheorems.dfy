/** What may come of aggregating from maps: whether it succeeds and whom it blames, over all orders of enumeration. */
module MapTheorems {
  import opened PrimeField
  import opened Group
  import opened Types
  import opened Sums
  import opened MapSums
  import opened Polynomial
  import opened Encoding
  import opened Transcript
  import opened Participant
  import opened Aggregator
  import opened SigningTheorems
  import opened Ordering
  import opened MapFunctions
  import Dealer

  /** The session in which the shares are judged. */
  datatype Session = Session(suite: Suite, pk: Element, list: seq<Commitment>, msg: Bytes, c: Scalar)

  datatype Maps = Maps(
    commitments: map<Identifier, Commitment>,
    shares: map<Identifier, SignatureShare>,
    keys: map<Identifier, VerificationShare>)

  function SessionOpening(s: Session, m: Maps): Result<(Element, Scalar)> {
    Opening(s.suite, |m.shares|, s.pk, s.list, s.msg, |m.shares|, |m.keys|)
  }

  ghost predicate Opens(s: Session, m: Maps) {
    SortedValues(m.commitments, s.list) && SessionOpening(s, m).Ok? && SessionOpening(s, m).value.1 == s.c
  }

  /** s is the session that these maps open. The triggers keep this, Outcome and PassesUnder folded where what is behind
      them does not matter. */
  ghost predicate OpenSession(s: Session, m: Maps) {
    forall n {:trigger Opens(s, n)} :: n == m ==> Opens(s, n)
  }

  /** No number of shares is demanded: a session opens exactly with commitments of distinct participants, none of them
      to the identity, with a key at least, an R that is not the identity and a challenge that is not zero. */
  lemma {:induction false} SessionOpensExact(s: Session, m: Maps)
    requires SortedValues(m.commitments, s.list)
    ensures var R := Sum(NonceTerms(s.suite, s.pk, s.list, s.msg));
      Opens(s, m) <==>
        && s.list != [] && DistinctIds(s.list) && NoIdentities(s.list) && m.keys != map[] && R != 0
        && Challenge(s.suite, ScalarBaseMult(R), s.pk, s.msg) == Ok(s.c)
  {
    OpeningFault(s.suite, |m.shares|, s.pk, s.list, s.msg, |m.shares|, |m.keys|);
    if DistinctIds(s.list) {
      SortedDistinctIsAscending(s.list);
    }
    if Ascending(s.list) {
      AscendingDistinct(s.list);
    }
  }

  lemma {:induction false} OpenedOver(s: Session, m: Maps)
    requires OpenSession(s, m)
    ensures SortedValues(m.commitments, s.list)
  {
    assert Opens(s, m);
  }

  ghost predicate IsOutcome(s: Session, m: Maps, r: Result<Signature>) {
    AggregateOutcome(s.suite, s.msg, m.commitments, m.shares, m.keys, s.pk, r)
  }

  /** r may come of aggregating from these maps. */
  ghost predicate Outcome(s: Session, m: Maps, r: Result<Signature>) {
    forall q {:trigger IsOutcome(s, m, q)} :: q == r ==> IsOutcome(s, m, q)
  }

  function Blame(r: Result<Signature>): seq<Identifier> {
    if r.Err? then GetCulprits(r.error) else []
  }

  // ---- shares and keys, whatever the names they are kept under ----

  predicate MeetsEquation(s: Session, share: SignatureShare, key: Element) {
    share.id in ListIds(s.list) && ValidShare(s.suite, s.pk, s.list, s.msg, s.c, share, key)
  }

  /** The share is one of the session and meets its equation under the key. */
  ghost predicate PassesUnder(s: Session, share: SignatureShare, key: Element) {
    forall z {:trigger MeetsEquation(s, z, key)} :: z == share ==> MeetsEquation(s, z, key)
  }

  /** The entry k of the keys is one for the identifier. */
  predicate IsKeyFor(m: Maps, k: Identifier, id: Identifier) {
    k in m.keys && m.keys[k].id == id
  }

  /** No key is listed for the share's identifier, or one under which it does not pass. */
  ghost predicate CanFail(s: Session, m: Maps, i: Identifier) {
    i in m.shares && var share := m.shares[i];
      || (forall k :: !IsKeyFor(m, k, share.id))
      || (exists k :: IsKeyFor(m, k, share.id) && !PassesUnder(s, share, m.keys[k].key))
  }

  /** All shares with the identifier of the entry k pass under its key. */
  ghost predicate AllPass(s: Session, m: Maps, k: Identifier)
    requires k in m.keys
  {
    forall i :: i in m.shares && m.shares[i].id == m.keys[k].id ==> PassesUnder(s, m.shares[i], m.keys[k].key)
  }

  /** A key is listed for the identifier under which all its shares pass. */
  ghost predicate CanPass(s: Session, m: Maps, id: Identifier) {
    exists k :: IsKeyFor(m, k, id) && AllPass(s, m, k)
  }

  ghost predicate CanSucceed(s: Session, m: Maps) {
    forall i :: i in m.shares ==> CanPass(s, m, m.shares[i].id)
  }

  /** Entries with one identifier carry one key. */
  predicate OneKeyEach(keys: map<Identifier, VerificationShare>) {
    forall k, l :: k in keys && l in keys && keys[k].id == keys[l].id ==> keys[k].key == keys[l].key
  }

  // ---- one order of enumeration ----

  lemma {:induction false} FirstErrorIs(rs: seq<Result<()>>, i: nat) returns (k: nat)
    requires i <= |rs| && FirstErrorFrom(rs, i).Err?
    ensures i <= k < |rs| && rs[k].Err? && FirstErrorFrom(rs, i) == rs[k] && forall j :: i <= j < k ==> rs[j].Ok?
    decreases |rs| - i
  {
    if rs[i].Err? {
      k := i;
    } else {
      k := FirstErrorIs(rs, i + 1);
    }
  }

  function CheckIn(s: Session, vs: seq<VerificationShare>, share: SignatureShare): Result<()> {
    ShareCheck(s.suite, s.pk, s.list, s.msg, s.c, vs, share)
  }

  lemma {:induction false} CheckExact(s: Session, vs: seq<VerificationShare>, share: SignatureShare)
    ensures CheckIn(s, vs, share).Ok? <==>
      FirstKey(vs, share.id).Ok? && PassesUnder(s, share, FirstKey(vs, share.id).value)
    ensures CheckIn(s, vs, share).Err? ==> GetCulprits(CheckIn(s, vs, share).error) == [share.id]
  {
    FirstKeyFound(vs, share.id);
    if FirstKey(vs, share.id).Ok? && PassesUnder(s, share, FirstKey(vs, share.id).value) {
      assert MeetsEquation(s, share, FirstKey(vs, share.id).value);
    }
  }

  /** Among the entries listed, the key found first is that of one for the identifier, if there is one. */
  lemma {:induction false} FoundAmong(m: Maps, ks: seq<Identifier>, listed: set<Identifier>, id: Identifier)
    requires Enumerates(ks, listed) && listed <= m.keys.Keys
    ensures var found := FirstKey(Picked(m.keys, ks), id);
      if found.Ok? then exists k :: k in listed && IsKeyFor(m, k, id) && found.value == m.keys[k].key
      else forall k :: k in listed ==> !IsKeyFor(m, k, id)
  {
    var vs := Picked(m.keys, ks);
    FirstKeyFound(vs, id);
    if FirstKey(vs, id).Ok? {
      var i :| 0 <= i < |vs| && vs[i].id == id && FirstKey(vs, id) == Ok(vs[i].key);
      assert ks[i] in ks && IsKeyFor(m, ks[i], id);
    } else {
      forall k | k in listed
        ensures !IsKeyFor(m, k, id)
      {
        assert k in ks;
        var i :| 0 <= i < |ks| && ks[i] == k;
        assert vs[i].id != id;
      }
    }
  }

  lemma {:induction false} FoundInMap(m: Maps, ks: seq<Identifier>, id: Identifier)
    requires Enumerates(ks, m.keys.Keys)
    ensures var found := FirstKey(Picked(m.keys, ks), id);
      if found.Ok? then exists k :: IsKeyFor(m, k, id) && found.value == m.keys[k].key
      else forall k :: !IsKeyFor(m, k, id)
  {
    FoundAmong(m, ks, m.keys.Keys, id);
  }

  ghost predicate Orders(m: Maps, ids: seq<Identifier>, ks: seq<Identifier>) {
    Enumerates(ids, m.shares.Keys) && Enumerates(ks, m.keys.Keys)
  }

  /** The outcome for these orders of enumeration. */
  function ResultFor(s: Session, m: Maps, ids: seq<Identifier>, ks: seq<Identifier>): Result<Signature>
    requires (forall i :: i in ids ==> i in m.shares) && (forall k :: k in ks ==> k in m.keys)
  {
    VerifiedResult(s.suite, |m.shares|, s.pk, s.list, s.msg, Picked(m.shares, ids), Picked(m.keys, ks))
  }

  lemma {:induction false} ResultIsOutcome(s: Session, m: Maps, ids: seq<Identifier>, ks: seq<Identifier>)
    requires SortedValues(m.commitments, s.list) && Orders(m, ids, ks)
    ensures Outcome(s, m, ResultFor(s, m, ids, ks))
  {
    assert ValuesOf(m.shares, Picked(m.shares, ids)) && ValuesOf(m.keys, Picked(m.keys, ks));
  }

  /** And every outcome is of that form, over the session's list or one that fails validation alike. */
  lemma {:induction false} OutcomeForm(s: Session, m: Maps, r: Result<Signature>)
    returns (ids: seq<Identifier>, ks: seq<Identifier>)
    requires SortedValues(m.commitments, s.list) && Outcome(s, m, r)
    ensures Orders(m, ids, ks) && r == ResultFor(s, m, ids, ks)
  {
    assert IsOutcome(s, m, r);
    var list, ss, vs :| SortedValues(m.commitments, list) && ValuesOf(m.shares, ss) && ValuesOf(m.keys, vs)
                        && r == VerifiedResult(s.suite, |m.shares|, s.pk, list, s.msg, ss, vs);
    SortedValuesAgree(m.commitments, s.list, list);
    ids :| Enumerates(ids, m.shares.Keys) && ss == Picked(m.shares, ids);
    ks :| Enumerates(ks, m.keys.Keys) && vs == Picked(m.keys, ks);
  }

  /** The orders play no part in what is opened. */
  lemma {:induction false} OpeningFor(s: Session, m: Maps, ids: seq<Identifier>, ks: seq<Identifier>)
    requires Orders(m, ids, ks)
    ensures |Picked(m.shares, ids)| == |m.shares| && |Picked(m.keys, ks)| == |m.keys|
    ensures SessionOpening(s, m).Err? ==> ResultFor(s, m, ids, ks) == Err(SessionOpening(s, m).error)
  {
    EnumeratesSize(ids, m.shares.Keys);
    EnumeratesSize(ks, m.keys.Keys);
  }

  function ChecksFor(s: Session, m: Maps, ids: seq<Identifier>, ks: seq<Identifier>): (rs: seq<Result<()>>)
    requires (forall i :: i in ids ==> i in m.shares) && (forall k :: k in ks ==> k in m.keys)
    ensures |rs| == |ids|
    ensures forall n :: 0 <= n < |ids| ==> rs[n] == CheckIn(s, Picked(m.keys, ks), m.shares[ids[n]])
  {
    Checks(s.suite, s.pk, s.list, s.msg, s.c, Picked(m.keys, ks), Picked(m.shares, ids))
  }

  /** In an open session the checks decide. */
  lemma {:induction false} ChecksDecide(s: Session, m: Maps, ids: seq<Identifier>, ks: seq<Identifier>)
    requires OpenSession(s, m) && Orders(m, ids, ks)
    ensures var r, checked := ResultFor(s, m, ids, ks), FirstErrorFrom(ChecksFor(s, m, ids, ks), 0);
      (r.Ok? <==> checked.Ok?) && (r.Err? ==> r.error == checked.error)
  {
    assert Opens(s, m);
    OpeningFor(s, m, ids, ks);
  }

  /** For one order: success means that every share passes its check... */
  lemma {:induction false} AllPassed(s: Session, m: Maps, ids: seq<Identifier>, ks: seq<Identifier>)
    requires OpenSession(s, m) && Orders(m, ids, ks) && ResultFor(s, m, ids, ks).Ok?
    ensures forall i :: i in m.shares ==> CheckIn(s, Picked(m.keys, ks), m.shares[i]).Ok?
  {
    ChecksDecide(s, m, ids, ks);
    forall i | i in m.shares
      ensures CheckIn(s, Picked(m.keys, ks), m.shares[i]).Ok?
    {
      assert i in ids;
      var n :| 0 <= n < |ids| && ids[n] == i;
      NoErrorFrom(ChecksFor(s, m, ids, ks), 0, n);
    }
  }

  /** ...and a refusal blames a share that does not: the first, if it is one. */
  lemma {:induction false} FailureBlamed(s: Session, m: Maps, ids: seq<Identifier>, ks: seq<Identifier>)
    returns (i: Identifier)
    requires OpenSession(s, m) && Orders(m, ids, ks) && ResultFor(s, m, ids, ks).Err?
    ensures i in m.shares && CheckIn(s, Picked(m.keys, ks), m.shares[i]).Err?
    ensures Blame(ResultFor(s, m, ids, ks)) == [m.shares[i].id]
    ensures |ids| > 0 && CheckIn(s, Picked(m.keys, ks), m.shares[ids[0]]).Err? ==> i == ids[0]
  {
    ChecksDecide(s, m, ids, ks);
    var n := FirstErrorIs(ChecksFor(s, m, ids, ks), 0);
    i := ids[n];
    assert i in ids;
    CheckExact(s, Picked(m.keys, ks), m.shares[i]);
  }

  // ---- what outcomes there are ----

  lemma {:induction false} SuccessNeeds(s: Session, m: Maps, r: Result<Signature>)
    requires OpenSession(s, m) && Outcome(s, m, r) && r.Ok?
    ensures CanSucceed(s, m)
  {
    OpenedOver(s, m);
    var ids, ks := OutcomeForm(s, m, r);
    var vs := Picked(m.keys, ks);
    AllPassed(s, m, ids, ks);
    forall i | i in m.shares
      ensures CanPass(s, m, m.shares[i].id)
    {
      var id := m.shares[i].id;
      CheckExact(s, vs, m.shares[i]);
      FoundInMap(m, ks, id);
      var k :| IsKeyFor(m, k, id) && FirstKey(vs, id).value == m.keys[k].key;
      forall j | j in m.shares && m.shares[j].id == id
        ensures PassesUnder(s, m.shares[j], m.keys[k].key)
      {
        CheckExact(s, vs, m.shares[j]);
      }
      assert AllPass(s, m, k);
    }
  }

  lemma {:induction false} RefusalBlames(s: Session, m: Maps, r: Result<Signature>) returns (i: Identifier)
    requires OpenSession(s, m) && Outcome(s, m, r) && r.Err?
    ensures CanFail(s, m, i) && Blame(r) == [m.shares[i].id]
  {
    OpenedOver(s, m);
    var ids, ks := OutcomeForm(s, m, r);
    i := FailureBlamed(s, m, ids, ks);
    CheckExact(s, Picked(m.keys, ks), m.shares[i]);
    FoundInMap(m, ks, m.shares[i].id);
  }

  /** The elements of t can be met first. */
  lemma {:induction false} EnumerateFirst(s: set<Identifier>, t: set<Identifier>)
    returns (first: seq<Identifier>, rest: seq<Identifier>)
    requires t <= s
    ensures Enumerates(first, t) && Enumerates(rest, s - t) && Enumerates(first + rest, s)
  {
    first, rest := Enumerate(t), Enumerate(s - t);
    assert forall i :: 0 <= i < |first| ==> first[i] in first;
    assert forall i :: 0 <= i < |rest| ==> rest[i] in rest;
  }

  lemma {:induction false} EnumerateFrom(s: set<Identifier>, id: Identifier) returns (ids: seq<Identifier>)
    requires id in s
    ensures Enumerates(ids, s) && |ids| > 0 && ids[0] == id
  {
    var first, rest := EnumerateFirst(s, {id});
    EnumeratesSize(first, {id});
    assert first[0] in first;
    ids := first + rest;
  }

  /** Any share that can fail can be the one met first, under a key met first under which it does not pass, and is then
      the one named. */
  lemma {:induction false} AnyFailingIsBlamed(s: Session, m: Maps, i: Identifier) returns (r: Result<Signature>)
    requires OpenSession(s, m) && CanFail(s, m, i)
    ensures Outcome(s, m, r) && r.Err? && Blame(r) == [m.shares[i].id]
  {
    var share := m.shares[i];
    var ids := EnumerateFrom(m.shares.Keys, i);
    var ks := Enumerate(m.keys.Keys);
    if k :| IsKeyFor(m, k, share.id) && !PassesUnder(s, share, m.keys[k].key) {
      ks := EnumerateFrom(m.keys.Keys, k);
      assert FirstKey(Picked(m.keys, ks), share.id) == Ok(m.keys[k].key);
    } else {
      FoundInMap(m, ks, share.id);
    }
    CheckExact(s, Picked(m.keys, ks), share);
    r := ResultFor(s, m, ids, ks);
    if r.Ok? {
      AllPassed(s, m, ids, ks);
    } else {
      var blamed := FailureBlamed(s, m, ids, ks);
    }
    OpenedOver(s, m);
    ResultIsOutcome(s, m, ids, ks);
  }

  lemma {:induction false} PickedSum<T>(all: map<Identifier, T>, a: seq<Identifier>, b: seq<Identifier>)
    requires forall id :: id in a + b ==> id in all
    ensures (forall id :: id in a ==> id in all) && (forall id :: id in b ==> id in all)
    ensures Picked(all, a + b) == Picked(all, a) + Picked(all, b)
  {
    assert forall id :: id in a || id in b ==> id in a + b;
  }

  lemma {:induction false} FirstKeyOfSum(a: seq<VerificationShare>, b: seq<VerificationShare>, id: Identifier)
    ensures FirstKey(a + b, id) == if FirstKey(a, id).Ok? then FirstKey(a, id) else FirstKey(b, id)
  {
    if a == [] {
      assert a + b == b;
    } else {
      assert (a + b)[1..] == a[1..] + b;
      FirstKeyOfSum(a[1..], b, id);
    }
  }

  /** An identifier with a key among the entries met first finds one of these. */
  lemma {:induction false} FoundFirst(m: Maps, good: set<Identifier>, first: seq<Identifier>, rest: seq<Identifier>,
                                      k: Identifier, id: Identifier)
    requires k in good && IsKeyFor(m, k, id) && good <= m.keys.Keys
    requires Enumerates(first, good) && Enumerates(first + rest, m.keys.Keys)
    ensures var found := FirstKey(Picked(m.keys, first + rest), id);
      found.Ok? && exists l :: l in good && IsKeyFor(m, l, id) && found.value == m.keys[l].key
  {
    FoundAmong(m, first, good, id);
    PickedSum(m.keys, first, rest);
    FirstKeyOfSum(Picked(m.keys, first), Picked(m.keys, rest), id);
  }

  /** When every submitted identifier has a key under which all its shares pass, these keys can be met first. */
  lemma {:induction false} GoodKeysFirst(s: Session, m: Maps) returns (ks: seq<Identifier>)
    requires CanSucceed(s, m)
    ensures Enumerates(ks, m.keys.Keys)
    ensures forall i :: i in m.shares ==> CheckIn(s, Picked(m.keys, ks), m.shares[i]).Ok?
  {
    var good := set k | k in m.keys && AllPass(s, m, k);
    var first, rest := EnumerateFirst(m.keys.Keys, good);
    ks := first + rest;
    forall i | i in m.shares
      ensures CheckIn(s, Picked(m.keys, ks), m.shares[i]).Ok?
    {
      var k :| IsKeyFor(m, k, m.shares[i].id) && AllPass(s, m, k);
      FoundFirst(m, good, first, rest, k, m.shares[i].id);
      CheckExact(s, Picked(m.keys, ks), m.shares[i]);
    }
  }

  /** Some order succeeds exactly then. */
  lemma {:induction false} BestOrder(s: Session, m: Maps) returns (r: Result<Signature>)
    requires OpenSession(s, m)
    ensures Outcome(s, m, r) && (r.Ok? <==> CanSucceed(s, m))
  {
    var ids, ks := Enumerate(m.shares.Keys), Enumerate(m.keys.Keys);
    if CanSucceed(s, m) {
      ks := GoodKeysFirst(s, m);
    }
    r := ResultFor(s, m, ids, ks);
    OpenedOver(s, m);
    ResultIsOutcome(s, m, ids, ks);
    if r.Ok? {
      SuccessNeeds(s, m, r);
    } else {
      var i := FailureBlamed(s, m, ids, ks);
    }
  }

  // ---- when the order of enumeration shows ----

  ghost predicate SomeCanFail(s: Session, m: Maps) {
    exists i :: CanFail(s, m, i)
  }

  lemma {:induction false} NobodySucceeds(s: Session, m: Maps)
    requires OpenSession(s, m) && !CanSucceed(s, m)
    ensures forall r :: Outcome(s, m, r) ==> r.Err?
  {
    forall r | Outcome(s, m, r)
      ensures r.Err?
    {
      if r.Ok? {
        SuccessNeeds(s, m, r);
      }
    }
  }

  lemma {:induction false} NobodyFails(s: Session, m: Maps)
    requires OpenSession(s, m) && !SomeCanFail(s, m)
    ensures forall r :: Outcome(s, m, r) ==> r.Ok?
  {
    forall r | Outcome(s, m, r)
      ensures r.Ok?
    {
      if r.Err? {
        var i := RefusalBlames(s, m, r);
      }
    }
  }

  /** Whether aggregation succeeds is independent of the order of enumeration exactly when every share passes under
      every key listed for its identifier, or some submitted identifier has no listed key under which all its shares
      pass. */
  lemma {:induction false} SuccessStableExactly(s: Session, m: Maps)
    requires OpenSession(s, m)
    ensures (forall r, q :: Outcome(s, m, r) && Outcome(s, m, q) ==> (r.Ok? <==> q.Ok?)) <==>
      !SomeCanFail(s, m) || !CanSucceed(s, m)
  {
    var r := BestOrder(s, m);
    if !CanSucceed(s, m) {
      NobodySucceeds(s, m);
    } else if i :| CanFail(s, m, i) {
      var q := AnyFailingIsBlamed(s, m, i);
    } else {
      NobodyFails(s, m);
    }
  }

  lemma {:induction false} OneIsBlamed(s: Session, m: Maps, i: Identifier)
    requires OpenSession(s, m) && !CanSucceed(s, m) && CanFail(s, m, i)
    requires forall j :: CanFail(s, m, j) ==> m.shares[j].id == m.shares[i].id
    ensures forall r :: Outcome(s, m, r) ==> Blame(r) == [m.shares[i].id]
  {
    forall r | Outcome(s, m, r)
      ensures Blame(r) == [m.shares[i].id]
    {
      NobodySucceeds(s, m);
      var j := RefusalBlames(s, m, r);
    }
  }

  /** All runs over the same maps blame alike exactly when no share can fail, or none of them can succeed and all shares
      that can fail carry one identifier. */
  lemma {:induction false} BlameStableExactly(s: Session, m: Maps)
    requires OpenSession(s, m)
    ensures (forall r, q :: Outcome(s, m, r) && Outcome(s, m, q) ==> Blame(r) == Blame(q)) <==>
      || !SomeCanFail(s, m)
      || (!CanSucceed(s, m) &&
          forall i, j :: CanFail(s, m, i) && CanFail(s, m, j) ==> m.shares[i].id == m.shares[j].id)
  {
    var best := BestOrder(s, m);
    if !SomeCanFail(s, m) {
      NobodyFails(s, m);
    } else if i :| CanFail(s, m, i) && CanSucceed(s, m) {
      var r := AnyFailingIsBlamed(s, m, i);
    } else if i, j :| CanFail(s, m, i) && CanFail(s, m, j) && m.shares[i].id != m.shares[j].id {
      var r := AnyFailingIsBlamed(s, m, i);
      var q := AnyFailingIsBlamed(s, m, j);
      assert Blame(r)[0] != Blame(q)[0];
    } else {
      var i :| CanFail(s, m, i);
      OneIsBlamed(s, m, i);
    }
  }

  /** With one key for each identifier, a share that can fail always does. */
  lemma {:induction false} OneKeyDecides(s: Session, m: Maps)
    requires OneKeyEach(m.keys)
    ensures CanSucceed(s, m) <==> !SomeCanFail(s, m)
  {
    if i :| CanFail(s, m, i) {
      if k :| IsKeyFor(m, k, m.shares[i].id) && AllPass(s, m, k) {
        assert PassesUnder(s, m.shares[i], m.keys[k].key);
      }
    } else {
      forall i | i in m.shares
        ensures CanPass(s, m, m.shares[i].id)
      {
        assert !CanFail(s, m, i);
        var k :| IsKeyFor(m, k, m.shares[i].id);
        forall j | j in m.shares && m.shares[j].id == m.keys[k].id
          ensures PassesUnder(s, m.shares[j], m.keys[k].key)
        {
          assert !CanFail(s, m, j);
        }
        assert AllPass(s, m, k);
      }
    }
  }

  /** A session that cannot be opened is refused with the same error in every order. */
  lemma {:induction false} RefusedAlike(s: Session, m: Maps, r: Result<Signature>)
    requires SortedValues(m.commitments, s.list) && SessionOpening(s, m).Err? && Outcome(s, m, r)
    ensures r == Err(SessionOpening(s, m).error)
  {
    var ids, ks := OutcomeForm(s, m, r);
    OpeningFor(s, m, ids, ks);
  }

  /** Over one list, any two orders that succeed give one signature. */
  lemma {:induction false} SuccessesEqual(s: Session, m: Maps, r: Result<Signature>, q: Result<Signature>)
    requires SortedValues(m.commitments, s.list) && Outcome(s, m, r) && Outcome(s, m, q) && r.Ok? && q.Ok?
    ensures r == q
  {
    var i, ks := OutcomeForm(s, m, r);
    var j, ls := OutcomeForm(s, m, q);
    OpeningFor(s, m, i, ks);
    OpeningFor(s, m, j, ls);
    EnumerationsPermute(m.shares, i, j, m.shares.Keys);
    var scalarOf: SignatureShare -> Scalar := (share: SignatureShare) => share.share;
    var a, b := Picked(m.shares, i), Picked(m.shares, j);
    assert Mapped(scalarOf, a) == ShareScalars(a) && Mapped(scalarOf, b) == ShareScalars(b);
    MappedPermuted(scalarOf, a, b);
    SumPermuted(ShareScalars(a), ShareScalars(b));
  }

  lemma {:induction false} OpenOutcomesAgree(s: Session, m: Maps, r: Result<Signature>, q: Result<Signature>)
    requires OpenSession(s, m) && Outcome(s, m, r) && Outcome(s, m, q) && OneKeyEach(m.keys)
    ensures r.Ok? <==> q.Ok?
  {
    OneKeyDecides(s, m);
    SuccessStableExactly(s, m);
  }

  /** The challenge is not among what aggregation is given. */
  lemma {:induction false} OutcomeOfAny(s: Session, m: Maps, r: Result<Signature>, c: Scalar)
    requires Outcome(s, m, r)
    ensures Outcome(s.(c := c), m, r)
  {
    assert IsOutcome(s, m, r);
  }

  lemma {:induction false} OutcomesAgree(s: Session, m: Maps, r: Result<Signature>, q: Result<Signature>)
    requires SortedValues(m.commitments, s.list) && Outcome(s, m, r) && Outcome(s, m, q) && OneKeyEach(m.keys)
    ensures r.Ok? <==> q.Ok?
  {
    if SessionOpening(s, m).Err? {
      RefusedAlike(s, m, r);
      RefusedAlike(s, m, q);
    } else {
      var c := SessionOpening(s, m).value.1;
      OutcomeOfAny(s, m, r, c);
      OutcomeOfAny(s, m, q, c);
      assert Opens(s.(c := c), m);
      OpenOutcomesAgree(s.(c := c), m, r, q);
    }
  }

  /** Any signature that aggregation from these maps gives is the same in every order; and where entries with one
      identifier carry one key, whether it succeeds is as well. */
  lemma {:induction false} AggregateIgnoresMapOrder(suite: Suite, msg: Bytes, all: map<Identifier, Commitment>,
                                                    shares: map<Identifier, SignatureShare>,
                                                    keys: map<Identifier, VerificationShare>,
                                                    pk: Element, r: Result<Signature>, q: Result<Signature>)
    requires AggregateOutcome(suite, msg, all, shares, keys, pk, r)
      && AggregateOutcome(suite, msg, all, shares, keys, pk, q)
    ensures r.Ok? && q.Ok? ==> r == q
    ensures OneKeyEach(keys) ==> (r.Ok? <==> q.Ok?)
  {
    var list :| SortedValues(all, list);
    var s, m := Session(suite, pk, list, msg, 0), Maps(all, shares, keys);
    assert IsOutcome(s, m, r) && IsOutcome(s, m, q);
    if OneKeyEach(keys) {
      OutcomesAgree(s, m, r, q);
    }
    if r.Ok? && q.Ok? {
      SuccessesEqual(s, m, r, q);
    }
  }

  // ---- no threshold of its own ----

  /** The shares in the map are the round-two answers of holders of shares of p, each under its own name. */
  ghost predicate HonestAnswers(s: Session, m: Maps, p: Poly, kps: map<Identifier, KeyPackage>,
                                nonces: map<Identifier, Nonces>) {
    (forall id :: id in m.shares <==> id in ListIds(s.list)) && forall id :: id in m.shares ==>
      HonestAnswer(s, m, p, kps, nonces, id)
  }

  ghost predicate HonestAnswer(s: Session, m: Maps, p: Poly, kps: map<Identifier, KeyPackage>,
                               nonces: map<Identifier, Nonces>, id: Identifier)
    requires id in m.shares
  {
    && id in kps && id in nonces && kps[id].id == id
    && AnswersWith(s, p, kps[id], nonces[id], m.shares[id])
  }

  ghost predicate AnswersWith(s: Session, p: Poly, kp: KeyPackage, nonces: Nonces, share: SignatureShare) {
    SignerOf(s.pk, s.list, p, kp, nonces) && RoundTwoResult(s.suite, kp, nonces, s.msg, s.list) == Ok(share)
  }

  /** Every participant has an entry, and every entry for it carries the key p(id)*G. */
  ghost predicate KeysOf(s: Session, m: Maps, p: Poly) {
    && (forall id :: id in ListIds(s.list) ==> exists k :: IsKeyFor(m, k, id))
    && (forall k :: k in m.keys && m.keys[k].id in ListIds(s.list) ==>
                      m.keys[k].key == ScalarBaseMult(Eval(p, m.keys[k].id)))
  }

  lemma {:induction false} KeysOfAreOnPolynomial(s: Session, m: Maps, p: Poly, ks: seq<Identifier>)
    requires KeysOf(s, m, p) && Enumerates(ks, m.keys.Keys)
    ensures KeysOnPolynomial(s.list, Picked(m.keys, ks), p)
  {
    forall id | id in ListIds(s.list)
      ensures FirstKey(Picked(m.keys, ks), id) == Ok(ScalarBaseMult(Eval(p, id)))
    {
      FoundInMap(m, ks, id);
    }
  }

  lemma {:induction false} AnswerNamed(s: Session, p: Poly, kp: KeyPackage, nonces: Nonces, share: SignatureShare)
    requires AnswersWith(s, p, kp, nonces, share)
    ensures share.id == kp.id
  {
    RoundTwoShareIsValid(s.suite, s.pk, s.list, s.msg, p, kp, nonces);
  }

  lemma {:induction false} ListedOnce(s: Session, m: Maps, p: Poly, kps: map<Identifier, KeyPackage>,
                                      nonces: map<Identifier, Nonces>, ids: seq<Identifier>)
    requires HonestAnswers(s, m, p, kps, nonces) && Enumerates(ids, m.shares.Keys)
    ensures SameSigners(s.list, Picked(m.shares, ids))
  {
    forall i | 0 <= i < |ids|
      ensures ids[i] in m.shares && m.shares[ids[i]].id == ids[i]
    {
      assert ids[i] in ids;
      AnswerNamed(s, p, kps[ids[i]], nonces[ids[i]], m.shares[ids[i]]);
    }
    assert ShareIds(Picked(m.shares, ids)) == ids;
  }

  /** The packages and the nonces in the order of the answers. */
  lemma {:induction false} AnswersListed(s: Session, m: Maps, p: Poly, kps: map<Identifier, KeyPackage>,
                                         nonces: map<Identifier, Nonces>, ids: seq<Identifier>)
    returns (ks: seq<KeyPackage>, ns: seq<Nonces>)
    requires HonestAnswers(s, m, p, kps, nonces) && Enumerates(ids, m.shares.Keys)
    ensures |ks| == |ns| == |ids|
    ensures forall i :: 0 <= i < |ids| ==> AnswersWith(s, p, ks[i], ns[i], Picked(m.shares, ids)[i])
  {
    assert forall i :: 0 <= i < |ids| ==> ids[i] in ids && HonestAnswer(s, m, p, kps, nonces, ids[i]);
    ks := Picked(kps, ids);
    ns := Picked(nonces, ids);
  }

  lemma {:induction false} OpensFor(s: Session, m: Maps, ids: seq<Identifier>, ks: seq<Identifier>)
    requires OpenSession(s, m) && Orders(m, ids, ks)
    ensures |Picked(m.shares, ids)| == |ids| == |m.shares|
    ensures Opening(s.suite, |m.shares|, s.pk, s.list, s.msg, |Picked(m.shares, ids)|, |Picked(m.keys, ks)|).Ok?
  {
    assert Opens(s, m);
    OpeningFor(s, m, ids, ks);
  }

  lemma {:induction false} EnoughPoints(s: Session, m: Maps, p: Poly)
    requires OpenSession(s, m)
    ensures |p| <= |s.list| ==> AtZero(p, Points(s.list)) == Eval(p, 0)
  {
    assert Opens(s, m);
    ValidationExact(s.list);
    AscendingDistinct(s.list);
    if |p| <= |s.list| {
      AtZeroIsValue(p, Points(s.list));
    }
  }

  lemma {:induction false} AnswersAggregate(s: Session, n: nat, p: Poly, kps: seq<KeyPackage>, ns: seq<Nonces>,
                                            shares: seq<SignatureShare>, vs: seq<VerificationShare>)
    requires |kps| == |ns| == |shares| && SameSigners(s.list, shares) && KeysOnPolynomial(s.list, vs, p)
    requires s.pk == ScalarBaseMult(Eval(p, 0)) && !s.pk.IsIdentity()
    requires Opening(s.suite, n, s.pk, s.list, s.msg, |shares|, |vs|).Ok?
    requires forall i :: 0 <= i < |shares| ==> AnswersWith(s, p, kps[i], ns[i], shares[i])
    ensures var r := VerifiedResult(s.suite, n, s.pk, s.list, s.msg, shares, vs);
      r.Ok? && (Verify(s.suite, s.msg, r.value, s.pk).Ok? <==> AtZero(p, Points(s.list)) == Eval(p, 0))
  {
    forall i | 0 <= i < |kps|
      ensures SignerOf(s.pk, s.list, p, kps[i], ns[i])
      ensures RoundTwoResult(s.suite, kps[i], ns[i], s.msg, s.list) == Ok(shares[i])
    {
      assert AnswersWith(s, p, kps[i], ns[i], shares[i]);
    }
    HonestAggregateExact(s.suite, n, s.pk, s.list, s.msg, p, kps, ns, shares, vs);
  }

  lemma {:induction false} HonestResult(s: Session, m: Maps, p: Poly, kps: map<Identifier, KeyPackage>,
                                        nonces: map<Identifier, Nonces>, ids: seq<Identifier>, ks: seq<Identifier>)
    requires OpenSession(s, m) && Orders(m, ids, ks)
    requires HonestAnswers(s, m, p, kps, nonces) && KeysOf(s, m, p)
    requires s.pk == ScalarBaseMult(Eval(p, 0)) && !s.pk.IsIdentity()
    ensures var r := ResultFor(s, m, ids, ks);
      r.Ok? && (Verify(s.suite, s.msg, r.value, s.pk).Ok? <==> AtZero(p, Points(s.list)) == Eval(p, 0))
  {
    OpensFor(s, m, ids, ks);
    ListedOnce(s, m, p, kps, nonces, ids);
    KeysOfAreOnPolynomial(s, m, p, ks);
    var packages, ns := AnswersListed(s, m, p, kps, nonces, ids);
    AnswersAggregate(s, |m.shares|, p, packages, ns, Picked(m.shares, ids), Picked(m.keys, ks));
  }

  /** However few signers there are, aggregation from maps succeeds on their honest shares. The signature verifies
      exactly when the signers' points interpolate to the secret, which at least t of them do. */
  lemma {:induction false} NoThresholdOfItsOwn(s: Session, m: Maps, p: Poly, kps: map<Identifier, KeyPackage>,
                                               nonces: map<Identifier, Nonces>, r: Result<Signature>)
    requires OpenSession(s, m) && Outcome(s, m, r)
    requires HonestAnswers(s, m, p, kps, nonces) && KeysOf(s, m, p)
    requires |p| > 0 && s.pk == ScalarBaseMult(p[0]) && !s.pk.IsIdentity()
    ensures r.Ok? && (Verify(s.suite, s.msg, r.value, s.pk).Ok? <==> AtZero(p, Points(s.list)) == p[0])
    ensures |p| <= |s.list| ==> AtZero(p, Points(s.list)) == p[0]
  {
    Dealer.EvalAtZero(p);
    OpenedOver(s, m);
    var ids, keyOrder := OutcomeForm(s, m, r);
    HonestResult(s, m, p, kps, nonces, ids, keyOrder);
    EnoughPoints(s, m, p);
  }
}
