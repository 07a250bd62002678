/** The tracker of used commitments: a primary map from hashes to entries and an index of the hashes by session. */
module Tracker {
  import opened Types
  import opened Encoding

  /** Strings are their bytes. Times are instants and durations in one unit. */
  datatype Entry = Entry(sessionId: Bytes, participantId: Bytes, data: Bytes, timestamp: int)

  type State = map<Bytes, Entry>

  /** What is hashed: the three fields run together. */
  function HashInput(e: Entry): Bytes {
    e.sessionId + e.participantId + e.data
  }

  function SessionHashes(m: State, s: Bytes): set<Bytes> {
    set h | h in m && m[h].sessionId == s
  }

  function Sessions(m: State): set<Bytes> {
    set h | h in m :: m[h].sessionId
  }

  /** The index the primary map calls for: a group for every session that has entries, and no empty group. */
  function GroupBy(m: State): (index: map<Bytes, set<Bytes>>) {
    map s | s in Sessions(m) :: SessionHashes(m, s)
  }

  lemma {:induction false} GroupsExact(m: State)
    ensures forall s, h :: (s in GroupBy(m) && h in GroupBy(m)[s]) <==> (h in m && m[h].sessionId == s)
    ensures forall s :: s in GroupBy(m) ==> GroupBy(m)[s] != {}
  {
    forall s | s in GroupBy(m)
      ensures GroupBy(m)[s] != {}
    {
      var h :| h in m && m[h].sessionId == s;
      assert h in GroupBy(m)[s];
    }
  }

  // ---- the operations on the primary map ----

  predicate Expired(e: Entry, now: int, ttl: int) {
    now - e.timestamp > ttl
  }

  datatype Step =
    | Record(entry: Entry)
    | ClearSession(session: Bytes)
    | ClearExpired(now: int, ttl: int)

  /** Does the step take away an entry like e? */
  predicate Removes(step: Step, e: Entry) {
    match step
    case Record(_) => false
    case ClearSession(s) => e.sessionId == s
    case ClearExpired(now, ttl) => Expired(e, now, ttl)
  }

  function Kept(m: State, step: Step): State {
    map h | h in m && !Removes(step, m[h]) :: m[h]
  }

  function Apply(digest: Bytes -> Bytes, m: State, step: Step): State {
    if !step.Record? then Kept(m, step)
    else
      var h := digest(HashInput(step.entry));
      if h in m then m else m[h := step.entry]
  }

  class InMemoryCommitmentTracker {
    const digest: Bytes -> Bytes
    var commitments: State
    var sessionIndex: map<Bytes, set<Bytes>>

    /** The index agrees with the primary map. */
    predicate Valid()
      reads this
    {
      sessionIndex == GroupBy(commitments)
    }

    constructor (digest: Bytes -> Bytes)
      ensures Valid() && this.digest == digest && commitments == map[]
    {
      this.digest := digest;
      commitments, sessionIndex := map[], map[];
    }

    method RecordCommitment(e: Entry) returns (r: Result<()>)
      requires Valid()
      modifies this
      ensures Valid() && commitments == Apply(digest, old(commitments), Record(e))
      ensures var hash := digest(e.sessionId + e.participantId + e.data);
        if hash in old(commitments) then r == Err(Plain(CommitmentReused)) && commitments == old(commitments)
        else r == Ok(()) && commitments == old(commitments)[hash := e]
    {
      var hash := digest(HashInput(e));
      if hash in commitments {
        return Err(Plain(CommitmentReused));
      }
      Recorded(commitments, hash, e);
      commitments := commitments[hash := e];
      if e.sessionId !in sessionIndex {
        sessionIndex := sessionIndex[e.sessionId := {}];
      }
      sessionIndex := sessionIndex[e.sessionId := sessionIndex[e.sessionId] + {hash}];
      r := Ok(());
    }

    /** Succeeds exactly when recording the entry would add it. */
    method CheckCommitment(e: Entry) returns (r: Result<()>)
      ensures r.Ok? <==> Apply(digest, commitments, Record(e)) != commitments
      ensures r.Err? ==> r.error == Plain(CommitmentReused)
    {
      RecordingAdds(digest, commitments, e);
      var hash := digest(HashInput(e));
      if hash in commitments {
        return Err(Plain(CommitmentReused));
      }
      r := Ok(());
    }

    method ClearSession(session: Bytes)
      requires Valid()
      modifies this
      ensures Valid() && commitments == Apply(digest, old(commitments), Step.ClearSession(session))
      ensures commitments == map h | h in old(commitments) && old(commitments)[h].sessionId != session ::
                old(commitments)[h]
    {
      ghost var m := commitments;
      Cleared(m, session);
      if session !in sessionIndex {
        return;
      }
      var remaining := sessionIndex[session];
      while remaining != {}
        invariant remaining <= SessionHashes(m, session)
        invariant commitments == m - (SessionHashes(m, session) - remaining)
        invariant sessionIndex == old(sessionIndex)
        decreases |remaining|
      {
        var hash :| hash in remaining;
        commitments := commitments - {hash};
        remaining := remaining - {hash};
      }
      assert SessionHashes(m, session) - remaining == SessionHashes(m, session);
      sessionIndex := sessionIndex - {session};
    }

    /** Removes exactly the entries older than ttl and returns their number. */
    method ClearExpired(now: int, ttl: int) returns (expiredCount: nat)
      requires Valid()
      modifies this
      ensures Valid() && commitments == Apply(digest, old(commitments), Step.ClearExpired(now, ttl))
      ensures commitments == map h | h in old(commitments) && now - old(commitments)[h].timestamp <= ttl ::
                old(commitments)[h]
      ensures expiredCount == |set h | h in old(commitments) && now - old(commitments)[h].timestamp > ttl|
    {
      ghost var m := commitments;
      var expiredSessions;
      expiredCount, expiredSessions := RemoveExpired(now, ttl);
      assert (set h | h in m && Expired(m[h], now, ttl)) == set h | h in m && now - m[h].timestamp > ttl;
      RebuiltAgrees(m, now, ttl, expiredSessions);
      RebuildSessions(expiredSessions);
    }

    method RebuildSessions(sessions: set<Bytes>)
      modifies this`sessionIndex
      ensures sessionIndex == Rebuilt(old(sessionIndex), commitments, sessions)
    {
      ghost var index, m, done: set<Bytes> := sessionIndex, commitments, {};
      RebuiltNone(index, m);
      var remaining := sessions;
      while remaining != {}
        invariant done + remaining == sessions && done !! remaining
        invariant commitments == m && sessionIndex == Rebuilt(index, m, done)
        decreases |remaining|
      {
        var session :| session in remaining;
        RebuiltStep(index, m, done, session);
        RebuildSession(session);
        remaining := remaining - {session};
        done := done + {session};
      }
      assert done == sessions;
    }

    method RemoveExpired(now: int, ttl: int) returns (expiredCount: nat, expiredSessions: set<Bytes>)
      modifies this`commitments
      ensures commitments == Kept(old(commitments), Step.ClearExpired(now, ttl))
      ensures expiredCount == |set h | h in old(commitments) && Expired(old(commitments)[h], now, ttl)|
      ensures expiredSessions == ExpiredSessions(old(commitments), now, ttl)
    {
      ghost var m := commitments;
      ghost var removed: set<Bytes> := {};
      expiredCount, expiredSessions := 0, {};
      var remaining := commitments.Keys;
      while remaining != {}
        invariant remaining <= m.Keys
        invariant removed <= m.Keys - remaining
        invariant forall h :: h in m && h !in remaining ==> (h in removed <==> Expired(m[h], now, ttl))
        invariant commitments == m - removed
        invariant expiredCount == |removed|
        invariant forall h :: h in removed ==> m[h].sessionId in expiredSessions
        invariant forall s :: s in expiredSessions ==> exists h :: h in removed && m[h].sessionId == s
        decreases |remaining|
      {
        var hash :| hash in remaining;
        if Expired(commitments[hash], now, ttl) {
          expiredSessions := expiredSessions + {commitments[hash].sessionId};
          commitments := commitments - {hash};
          expiredCount := expiredCount + 1;
          removed := removed + {hash};
        }
        remaining := remaining - {hash};
      }
      assert removed == set h | h in m && Expired(m[h], now, ttl);
    }

    /** Keeps of one group the hashes that are still in the primary map; an empty group is dropped. */
    method RebuildSession(session: Bytes)
      modifies this`sessionIndex
      ensures sessionIndex == Regrouped(old(sessionIndex), commitments, session)
    {
      var sessionHashes: set<Bytes> := {};
      var group := if session in sessionIndex then sessionIndex[session] else {};
      var remaining := group;
      while remaining != {}
        invariant remaining <= group
        invariant sessionHashes == (group - remaining) * commitments.Keys
        invariant sessionIndex == old(sessionIndex)
        decreases |remaining|
      {
        var hash :| hash in remaining;
        if hash in commitments {
          sessionHashes := sessionHashes + {hash};
        }
        remaining := remaining - {hash};
      }
      assert sessionHashes == group * commitments.Keys;
      if |sessionHashes| == 0 {
        sessionIndex := sessionIndex - {session};
      } else {
        sessionIndex := sessionIndex[session := sessionHashes];
      }
    }

    /** The session counts added up. */
    method Count() returns (n: nat)
      requires Valid()
      ensures n == CountOver(commitments, sessionIndex.Keys)
    {
      CountIsSumOfSessions(commitments);
      n := |commitments|;
    }

    method CountSession(session: Bytes) returns (n: nat)
      requires Valid()
      ensures n == |SessionHashes(commitments, session)|
    {
      if session !in sessionIndex {
        assert SessionHashes(commitments, session) == {};
        return 0;
      }
      n := |sessionIndex[session]|;
    }

    /** The nonce tracker's recording of a pair. When the second entry is refused the first one stays:
        the clean-up it calls does nothing. */
    method RecordSigningCommitments(hiding: Entry, binding: Entry) returns (r: Result<()>)
      requires Valid()
      modifies this
      ensures Valid() && commitments == RecordedPair(digest, old(commitments), hiding, binding)
      ensures r.Ok? <==>
        var h, b := digest(HashInput(hiding)), digest(HashInput(binding));
        h !in old(commitments) && b !in old(commitments) && h != b
      ensures r.Ok? ==> commitments == old(commitments)[digest(HashInput(hiding)) := hiding]
                [digest(HashInput(binding)) := binding]
    {
      r := RecordCommitment(hiding);
      if r.Ok? {
        r := RecordCommitment(binding);
      }
    }
  }

  lemma {:induction false} RecordingAdds(digest: Bytes -> Bytes, m: State, e: Entry)
    ensures Apply(digest, m, Record(e)) != m <==> digest(HashInput(e)) !in m
  {
    var h := digest(HashInput(e));
    if h !in m {
      assert h in Apply(digest, m, Record(e));
    }
  }

  // ---- the index follows the primary map ----

  lemma {:induction false} Recorded(m: State, hash: Bytes, e: Entry)
    requires hash !in m
    ensures var s := e.sessionId;
            GroupBy(m[hash := e]) == GroupBy(m)[s := (if s in GroupBy(m) then GroupBy(m)[s] else {}) + {hash}]
  {
    var m', s := m[hash := e], e.sessionId;
    assert Sessions(m') == Sessions(m) + {s} by {
      assert forall h :: h in m ==> h in m' && m'[h] == m[h];
      assert m'[hash].sessionId == s;
    }
    assert s !in GroupBy(m) ==> SessionHashes(m, s) == {};
    assert SessionHashes(m', s) == SessionHashes(m, s) + {hash};
    assert forall t :: t != s ==> SessionHashes(m', t) == SessionHashes(m, t);
  }

  lemma {:induction false} Cleared(m: State, session: Bytes)
    ensures Kept(m, Step.ClearSession(session)) == m - SessionHashes(m, session)
    ensures GroupBy(Kept(m, Step.ClearSession(session))) == GroupBy(m) - {session}
    ensures session !in GroupBy(m) ==> Kept(m, Step.ClearSession(session)) == m
  {
    var m' := Kept(m, Step.ClearSession(session));
    assert Sessions(m') == Sessions(m) - {session} by {
      assert forall h :: h in m && m[h].sessionId != session ==> h in m';
    }
    forall s | s != session
      ensures SessionHashes(m', s) == SessionHashes(m, s)
    {
    }
  }

  function ExpiredSessions(m: State, now: int, ttl: int): set<Bytes> {
    set h | h in m && Expired(m[h], now, ttl) :: m[h].sessionId
  }

  function Regrouped(index: map<Bytes, set<Bytes>>, m: State, session: Bytes): map<Bytes, set<Bytes>> {
    var group := (if session in index then index[session] else {}) * m.Keys;
    if group == {} then index - {session} else index[session := group]
  }

  /** The index with the groups of the given sessions reduced to the hashes still in m. */
  function Rebuilt(index: map<Bytes, set<Bytes>>, m: State, sessions: set<Bytes>): map<Bytes, set<Bytes>> {
    map s | s in index && (s in sessions ==> index[s] * m.Keys != {}) :: if s in sessions then index[s] * m.Keys
      else index[s]
  }

  lemma {:induction false} RebuiltNone(index: map<Bytes, set<Bytes>>, m: State)
    ensures Rebuilt(index, m, {}) == index
  {
  }

  lemma {:induction false} RebuiltStep(index: map<Bytes, set<Bytes>>, m: State, done: set<Bytes>, session: Bytes)
    requires session !in done
    ensures Regrouped(Rebuilt(index, m, done), m, session) == Rebuilt(index, m, done + {session})
  {
  }

  lemma {:induction false} RebuiltAgrees(m: State, now: int, ttl: int, sessions: set<Bytes>)
    requires sessions == ExpiredSessions(m, now, ttl)
    ensures var m' := Kept(m, Step.ClearExpired(now, ttl));
            Rebuilt(GroupBy(m), m', sessions) == GroupBy(m')
  {
    var m' := Kept(m, Step.ClearExpired(now, ttl));
    assert forall h :: h in m && Expired(m[h], now, ttl) ==> m[h].sessionId in sessions;
    forall s
      ensures SessionHashes(m', s) == SessionHashes(m, s) * m'.Keys
      ensures s !in sessions ==> SessionHashes(m', s) == SessionHashes(m, s)
    {
    }
    forall s
      ensures s in Sessions(m') <==> SessionHashes(m', s) != {}
      ensures s in Sessions(m) <==> SessionHashes(m, s) != {}
    {
      NonEmptyGroup(m', s);
      NonEmptyGroup(m, s);
    }
  }

  lemma {:induction false} NonEmptyGroup(m: State, s: Bytes)
    ensures s in Sessions(m) <==> SessionHashes(m, s) != {}
  {
    if s in Sessions(m) {
      var h :| h in m && m[h].sessionId == s;
      assert h in SessionHashes(m, s);
    }
    if SessionHashes(m, s) != {} {
      var h :| h in SessionHashes(m, s);
      assert m[h].sessionId == s;
    }
  }

  // ---- counting ----

  /** The session counts added up over a set of sessions. */
  ghost function CountOver(m: State, sessions: set<Bytes>): nat
    decreases |sessions|
  {
    if sessions == {} then 0
    else
      var s :| s in sessions;
      |SessionHashes(m, s)| + CountOver(m, sessions - {s})
  }

  lemma {:induction false} CountOverExact(m: State, sessions: set<Bytes>)
    ensures CountOver(m, sessions) == |set h | h in m && m[h].sessionId in sessions|
    decreases |sessions|
  {
    var all := set h | h in m && m[h].sessionId in sessions;
    if sessions == {} {
      assert all == {};
    } else {
      var s :| s in sessions && CountOver(m, sessions) == |SessionHashes(m, s)| + CountOver(m, sessions - {s});
      CountOverExact(m, sessions - {s});
      var others := set h | h in m && m[h].sessionId in sessions - {s};
      assert all == SessionHashes(m, s) + others;
      assert SessionHashes(m, s) !! others;
    }
  }

  /** Count is the sum of CountSession over the sessions of the index. */
  lemma {:induction false} CountIsSumOfSessions(m: State)
    ensures |m| == CountOver(m, GroupBy(m).Keys)
  {
    CountOverExact(m, Sessions(m));
    assert (set h | h in m && m[h].sessionId in Sessions(m)) == m.Keys;
    assert GroupBy(m).Keys == Sessions(m);
  }

  // ---- runs ----

  function Run(digest: Bytes -> Bytes, steps: seq<Step>): State {
    if steps == [] then map[] else Apply(digest, Run(digest, steps[..|steps| - 1]), steps[|steps| - 1])
  }

  /** Step k is the recording, accepted, of an entry that nothing has removed since. */
  predicate LiveRecording(digest: Bytes -> Bytes, steps: seq<Step>, k: nat, hash: Bytes)
    requires k < |steps|
  {
    && steps[k].Record? && digest(HashInput(steps[k].entry)) == hash
    && hash !in Run(digest, steps[..k])
    && forall j :: k < j < |steps| ==> !Removes(steps[j], steps[k].entry)
  }

  ghost predicate Live(digest: Bytes -> Bytes, steps: seq<Step>, hash: Bytes) {
    exists k :: 0 <= k < |steps| && LiveRecording(digest, steps, k, hash)
  }

  /** A live recording of the shorter run stays live exactly if the last step does not remove it. */
  lemma {:induction false} LivePrefix(digest: Bytes -> Bytes, steps: seq<Step>, k: nat, hash: Bytes)
    requires k < |steps| - 1
    ensures LiveRecording(digest, steps, k, hash) <==>
       LiveRecording(digest, steps[..|steps| - 1], k, hash) && !Removes(steps[|steps| - 1], steps[k].entry)
  {
    var n := |steps| - 1;
    assert steps[..n][..k] == steps[..k];
    assert forall j :: k < j < n ==> steps[..n][j] == steps[j];
  }

  lemma {:induction false} EntryIsRecorded(digest: Bytes -> Bytes, steps: seq<Step>, hash: Bytes)
    requires hash in Run(digest, steps)
    ensures exists k :: 0 <= k < |steps| && LiveRecording(digest, steps, k, hash)
                        && Run(digest, steps)[hash] == steps[k].entry
    decreases |steps|
  {
    var n := |steps| - 1;
    var before, last := Run(digest, steps[..n]), steps[n];
    if hash in before {
      EntryIsRecorded(digest, steps[..n], hash);
      var k :| 0 <= k < n && LiveRecording(digest, steps[..n], k, hash) && before[hash] == steps[..n][k].entry;
      LivePrefix(digest, steps, k, hash);
      assert LiveRecording(digest, steps, k, hash);
    } else {
      assert LiveRecording(digest, steps, n, hash);
    }
  }

  lemma {:induction false} RecordingIsEntry(digest: Bytes -> Bytes, steps: seq<Step>, k: nat, hash: Bytes)
    requires k < |steps| && LiveRecording(digest, steps, k, hash)
    ensures hash in Run(digest, steps) && Run(digest, steps)[hash] == steps[k].entry
    decreases |steps|
  {
    if k < |steps| - 1 {
      LivePrefix(digest, steps, k, hash);
      RecordingIsEntry(digest, steps[..|steps| - 1], k, hash);
    }
  }

  /** In every run, a hash is refused exactly while a recording of it has been neither cleared nor expired. */
  lemma {:induction false} RefusedWhileLive(digest: Bytes -> Bytes, steps: seq<Step>, hash: Bytes)
    ensures hash in Run(digest, steps) <==> Live(digest, steps, hash)
  {
    if hash in Run(digest, steps) {
      EntryIsRecorded(digest, steps, hash);
    }
    if Live(digest, steps, hash) {
      var k :| 0 <= k < |steps| && LiveRecording(digest, steps, k, hash);
      RecordingIsEntry(digest, steps, k, hash);
    }
  }

  // ---- pairs ----

  predicate PairIsNew(digest: Bytes -> Bytes, m: State, hiding: Entry, binding: Entry) {
    var h, b := digest(HashInput(hiding)), digest(HashInput(binding));
    h !in m && b !in m && h != b
  }

  function RecordedPair(digest: Bytes -> Bytes, m: State, hiding: Entry, binding: Entry): State {
    if digest(HashInput(hiding)) in m then m
    else Apply(digest, Apply(digest, m, Record(hiding)), Record(binding))
  }

  /** A refused pair leaves the tracker as it was exactly when the hiding entry was the one refused. */
  lemma {:induction false} RefusedPairLeavesHalf(digest: Bytes -> Bytes, m: State, hiding: Entry, binding: Entry)
    requires !PairIsNew(digest, m, hiding, binding)
    ensures RecordedPair(digest, m, hiding, binding) == m <==> digest(HashInput(hiding)) in m
  {
    var h := digest(HashInput(hiding));
    if h !in m {
      assert h in RecordedPair(digest, m, hiding, binding);
    }
  }

  // ---- what counts as reuse ----

  ghost predicate Collisionless(digest: Bytes -> Bytes) {
    forall a, b :: digest(a) == digest(b) ==> a == b
  }

  /** "-hiding" and "-binding" */
  const HIDING: Bytes := [0x2d, 0x68, 0x69, 0x64, 0x69, 0x6e, 0x67]
  const BINDING: Bytes := [0x2d, 0x62, 0x69, 0x6e, 0x64, 0x69, 0x6e, 0x67]

  /** What the nonce tracker records for one of a participant's commitments: its number in decimal, then the kind. */
  function NonceEntry(session: Bytes, number: Bytes, kind: Bytes, data: Bytes, now: int): Entry {
    Entry(session, number + kind, data, now)
  }

  /** Two pairs of a participant with one binding commitment and different hiding commitments: the second pair is
      refused, and its hiding commitment stays recorded. */
  lemma {:induction false} HalfRecordedPair(digest: Bytes -> Bytes, session: Bytes, number: Bytes, h: Bytes,
                                            other: Bytes, b: Bytes, now: int, later: int)
    requires Collisionless(digest) && h != other
    ensures var hiding, binding := NonceEntry(session, number, HIDING, h, now),
              NonceEntry(session, number, BINDING, b, now);
            var hiding', binding' := NonceEntry(session, number, HIDING, other, later),
              NonceEntry(session, number, BINDING, b, later);
            var m := RecordedPair(digest, map[], hiding, binding);
      && PairIsNew(digest, map[], hiding, binding) && !PairIsNew(digest, m, hiding', binding')
      && digest(HashInput(hiding')) !in m && digest(HashInput(hiding')) in RecordedPair(digest, m, hiding', binding')
  {
    var name := session + number;
    var x, y, z := name + HIDING + h, name + HIDING + other, name + BINDING + b;
    assert HashInput(NonceEntry(session, number, HIDING, h, now)) == x;
    assert HashInput(NonceEntry(session, number, HIDING, other, later)) == y;
    assert HashInput(NonceEntry(session, number, BINDING, b, now)) == z;
    assert HashInput(NonceEntry(session, number, BINDING, b, later)) == z;
    assert x[|name| + 1] == y[|name| + 1] == HIDING[1] != BINDING[1] == z[|name| + 1];
    assert x[|name| + |HIDING|..] == h && y[|name| + |HIDING|..] == other;
  }

  /** With a collision-free hash, entries are taken for each other exactly when their fields run together alike. */
  lemma {:induction false} ReuseIsOfTheRunTogetherFields(digest: Bytes -> Bytes, m: State, e: Entry, f: Entry)
    requires Collisionless(digest) && digest(HashInput(e)) !in m
    ensures digest(HashInput(f)) in Apply(digest, m, Record(e)) <==>
            digest(HashInput(f)) in m
              || e.sessionId + e.participantId + e.data == f.sessionId + f.participantId + f.data
  {
  }

  /** So the same data in a session of another name of the same length is not recognised... */
  lemma {:induction false} OtherSessionIsNotReuse(digest: Bytes -> Bytes, e: Entry, session: Bytes)
    requires Collisionless(digest) && session != e.sessionId && |session| == |e.sessionId|
    ensures digest(HashInput(e.(sessionId := session))) !in Apply(digest, map[], Record(e))
  {
    var f := e.(sessionId := session);
    assert HashInput(f)[..|session|] == session;
    assert HashInput(e)[..|session|] == e.sessionId;
  }

  /** ...and an entry that was never recorded can be refused: session 1, participant 23 against session 12, participant
      3. */
  lemma {:induction false} UnrecordedEntryRefused(digest: Bytes -> Bytes, kind: Bytes, data: Bytes, now: int)
    ensures var e, f := NonceEntry([0x31], [0x32, 0x33], kind, data, now),
              NonceEntry([0x31, 0x32], [0x33], kind, data, now);
            digest(HashInput(f)) in Apply(digest, map[], Record(e))
  {
    assert [0x31 as Byte] + ([0x32, 0x33] + kind) + data == [0x31, 0x32] + ([0x33] + kind) + data;
  }
}
