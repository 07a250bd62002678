/** Coordinator calls running at once: what the lock around each access to the nonce store does and does not
    guarantee. */
module Interleaving {
  import opened Types
  import opened Sums

  /** A nonce pair, by the number of the round-one call that drew it. */
  type Token = nat

  /** A list entry: the participant, and the nonces its commitments were made from. */
  datatype Entry = Entry(id: Identifier, origin: Token)

  /** One call in progress. `held` are nonces drawn and not yet stored, or taken and not yet used. */
  datatype Thread =
    | Committing(ids: seq<Identifier>, list: seq<Entry>, held: Held)
    | Answering(list: seq<Entry>, done: nat, held: Held)
    | Returned(list: seq<Entry>)
    | Failed

  datatype Held = Nothing | Holding(token: Token)

  /** One call of RoundTwo: the thread that makes it, the nonces passed to it, and the list entry it is to answer. */
  datatype Use = Use(caller: nat, token: Token, entry: Entry)

  datatype System = System(threads: seq<Thread>, store: map<Identifier, Token>, drawn: nat, uses: seq<Use>)

  const INITIAL: System := System([], map[], 0, [])

  // ---- steps ----

  datatype Step =
    | CallCommitments(ids: seq<Identifier>)
    | Draw(thread: nat)
    | Store(thread: nat)
    | ReturnList(thread: nat)
    | CallShares(list: seq<Entry>)
    | Take(thread: nat)
    | UseNonces(thread: nat, answered: bool)
    | Fail(thread: nat)

  predicate Enabled(s: System, step: Step) {
    match step
    case CallCommitments(ids) => ids != []
    case CallShares(_) => true
    case Draw(t) => t < |s.threads| && s.threads[t].Committing? && s.threads[t].held.Nothing? &&
                    |s.threads[t].list| < |s.threads[t].ids|
    case Store(t) => t < |s.threads| && s.threads[t].Committing? && s.threads[t].held.Holding? &&
                     |s.threads[t].list| < |s.threads[t].ids|
    case ReturnList(t) => t < |s.threads| && s.threads[t].Committing? && s.threads[t].held.Nothing? &&
                          |s.threads[t].list| == |s.threads[t].ids|
    case Take(t) => t < |s.threads| && s.threads[t].Answering? && s.threads[t].held.Nothing?
      && s.threads[t].done < |s.threads[t].list|
    case UseNonces(t, _) => t < |s.threads| && s.threads[t].Answering? && s.threads[t].held.Holding? &&
                            s.threads[t].done < |s.threads[t].list|
    case Fail(t) => t < |s.threads|
  }

  /** The resetting of the store, each storing and each taking is one critical section. Any call may fail at any
      point: an unknown or excluded participant, a list that does not validate, a signer that refuses. */
  function After(s: System, step: Step): System
    requires Enabled(s, step)
  {
    match step
    case CallCommitments(ids) => s.(threads := s.threads + [Committing(ids, [], Nothing)], store := map[])
    case CallShares(list) => s.(threads := s.threads + [Answering(list, 0, Nothing)])
    case Draw(t) => s.(threads := s.threads[t := Committing(s.threads[t].ids, s.threads[t].list, Holding(s.drawn))],
                       drawn := s.drawn + 1)
    case Store(t) =>
      var thread := s.threads[t];
      var id := thread.ids[|thread.list|];
      s.(threads := s.threads[t := Committing(thread.ids, thread.list + [Entry(id, thread.held.token)], Nothing)],
         store := s.store[id := thread.held.token])
    case ReturnList(t) => s.(threads := s.threads[t := Returned(s.threads[t].list)])
    case Take(t) =>
      var thread := s.threads[t];
      var id := thread.list[thread.done].id;
      if id in s.store then
        s.(threads := s.threads[t := Answering(thread.list, thread.done, Holding(s.store[id]))],
           store := s.store - {id})
      else s.(threads := s.threads[t := Failed])
    case UseNonces(t, answered) =>
      var thread := s.threads[t];
      s.(threads := s.threads[t := if answered then Answering(thread.list, thread.done + 1, Nothing) else Failed],
         uses := s.uses + [Use(t, thread.held.token, thread.list[thread.done])])
    case Fail(t) => s.(threads := s.threads[t := Failed])
  }

  predicate Runs(s: System, steps: seq<Step>)
    decreases |steps|
  {
    steps == [] || (Enabled(s, steps[0]) && Runs(After(s, steps[0]), steps[1..]))
  }

  function End(s: System, steps: seq<Step>): System
    requires Runs(s, steps)
    decreases |steps|
  {
    if steps == [] then s else End(After(s, steps[0]), steps[1..])
  }

  // ---- each nonce pair is in one place ----

  datatype Place = InStore(id: Identifier) | InCall(thread: nat) | InUse(call: nat)

  predicate At(s: System, place: Place, token: Token) {
    match place
    case InStore(id) => id in s.store && s.store[id] == token
    case InCall(t) => t < |s.threads| && (s.threads[t].Committing? || s.threads[t].Answering?)
      && s.threads[t].held == Holding(token)
    case InUse(k) => k < |s.uses| && s.uses[k].token == token
  }

  ghost predicate OnePlace(s: System) {
    && (forall p, token: Token :: At(s, p, token) ==> token < s.drawn)
    && (forall p, q, token: Token :: At(s, p, token) && At(s, q, token) ==> p == q)
    && (forall k :: 0 <= k < |s.uses| ==> s.uses[k].caller < |s.threads|)
  }

  /** Where the nonces at a place after the step were before it. */
  function Before(s: System, step: Step, place: Place): Place
    requires Enabled(s, step)
  {
    match step
    case Store(t) => if place == InStore(s.threads[t].ids[|s.threads[t].list|]) then InCall(t) else place
    case Take(t) => if place == InCall(t) then InStore(s.threads[t].list[s.threads[t].done].id) else place
    case UseNonces(t, _) => if place == InUse(|s.uses|) then InCall(t) else place
    case _ => place
  }

  /** A step moves nonces, or draws new ones, but never copies any. */
  lemma {:induction false} StepMoves(s: System, step: Step, place: Place, token: Token)
    requires Enabled(s, step) && At(After(s, step), place, token)
    ensures At(s, Before(s, step, place), token) || (step.Draw? && place == InCall(step.thread) && token == s.drawn)
  {
  }

  lemma {:induction false} MovesApart(s: System, step: Step, p: Place, q: Place, token: Token)
    requires Enabled(s, step) && At(After(s, step), p, token) && At(After(s, step), q, token)
    requires Before(s, step, p) == Before(s, step, q)
    ensures p == q
  {
  }

  lemma {:induction false} StepKeepsOnePlace(s: System, step: Step)
    requires OnePlace(s) && Enabled(s, step)
    ensures OnePlace(After(s, step))
  {
    var s' := After(s, step);
    forall p, token: Token | At(s', p, token)
      ensures token < s'.drawn
    {
      StepMoves(s, step, p, token);
    }
    forall p, q, token: Token | At(s', p, token) && At(s', q, token)
      ensures p == q
    {
      StepMoves(s, step, p, token);
      StepMoves(s, step, q, token);
      if Before(s, step, p) == Before(s, step, q) {
        MovesApart(s, step, p, q, token);
      }
    }
  }

  lemma {:induction false} RunKeepsOnePlace(s: System, steps: seq<Step>)
    requires OnePlace(s) && Runs(s, steps)
    ensures OnePlace(End(s, steps))
    decreases |steps|
  {
    if steps != [] {
      StepKeepsOnePlace(s, steps[0]);
      RunKeepsOnePlace(After(s, steps[0]), steps[1..]);
    }
  }

  /** In every interleaving, on every error path, nonces reach RoundTwo at most once. */
  lemma {:induction false} NoncesUsedAtMostOnce(steps: seq<Step>, i: nat, j: nat)
    requires Runs(INITIAL, steps)
    requires i < j < |End(INITIAL, steps).uses|
    ensures End(INITIAL, steps).uses[i].token != End(INITIAL, steps).uses[j].token
  {
    var s := End(INITIAL, steps);
    RunKeepsOnePlace(INITIAL, steps);
    assert At(s, InUse(i), s.uses[i].token) && At(s, InUse(j), s.uses[j].token);
  }

  /** Nonces that have been used are in nobody's hands and in no store. */
  lemma {:induction false} UsedNoncesAreGone(steps: seq<Step>, k: nat, id: Identifier)
    requires Runs(INITIAL, steps) && k < |End(INITIAL, steps).uses|
    ensures var s := End(INITIAL, steps); id in s.store ==> s.store[id] != s.uses[k].token
  {
    var s := End(INITIAL, steps);
    RunKeepsOnePlace(INITIAL, steps);
    assert At(s, InUse(k), s.uses[k].token);
    assert id in s.store ==> At(s, InStore(id), s.store[id]);
  }

  // ---- whose nonces they are ----

  ghost predicate Reachable(s: System) {
    exists steps :: Runs(INITIAL, steps) && End(INITIAL, steps) == s
  }

  lemma {:induction false} OneMore(s: System, steps: seq<Step>, step: Step)
    requires Runs(s, steps) && Enabled(End(s, steps), step)
    ensures Runs(s, steps + [step]) && End(s, steps + [step]) == After(End(s, steps), step)
    decreases |steps|
  {
    if steps == [] {
      assert steps + [step] == [step];
      assert [step][1..] == [];
    } else {
      assert (steps + [step])[1..] == steps[1..] + [step];
      OneMore(After(s, steps[0]), steps[1..], step);
    }
  }

  lemma {:induction false} ReachNext(s: System, step: Step, next: System)
    requires Reachable(s) && Enabled(s, step) && next == After(s, step)
    ensures Reachable(next)
  {
    var steps :| Runs(INITIAL, steps) && End(INITIAL, steps) == s;
    OneMore(INITIAL, steps, step);
  }

  function Committed(s: System, id: Identifier): System {
    System(s.threads + [Committing([id], [Entry(id, s.drawn)], Nothing)], map[id := s.drawn], s.drawn + 1, s.uses)
  }

  /** A new call to RequestCommitments for one participant, up to the storing of the nonces. */
  lemma {:induction false} CommitOne(s: System, id: Identifier)
    requires Reachable(s)
    ensures Reachable(Committed(s, id))
  {
    var t := |s.threads|;
    var called := System(s.threads + [Committing([id], [], Nothing)], map[], s.drawn, s.uses);
    ReachNext(s, CallCommitments([id]), called);
    var drew := System(s.threads + [Committing([id], [], Holding(s.drawn))], map[], s.drawn + 1, s.uses);
    assert drew.threads == called.threads[t := drew.threads[t]];
    ReachNext(called, Draw(t), drew);
    var end := Committed(s, id);
    assert [] + [Entry(id, s.drawn)] == [Entry(id, s.drawn)];
    assert end.threads == drew.threads[t := end.threads[t]];
    ReachNext(drew, Store(t), end);
  }

  // ---- a whole session ----

  /** The entries for the first k participants when the first nonces drawn are numbered `first`. */
  function Entries(ids: seq<Identifier>, first: Token, k: nat): (list: seq<Entry>)
    requires k <= |ids|
    ensures |list| == k && forall i :: 0 <= i < k ==> list[i] == Entry(ids[i], first + i)
  {
    seq(k, i requires 0 <= i < k => Entry(ids[i], first + i))
  }

  function StoreOf(ids: seq<Identifier>, first: Token, k: nat): map<Identifier, Token>
    requires k <= |ids|
  {
    if k == 0 then map[] else StoreOf(ids, first, k - 1)[ids[k - 1] := first + k - 1]
  }

  lemma {:induction false} StoreOfExact(ids: seq<Identifier>, first: Token, k: nat)
    requires k <= |ids| && Distinct(ids)
    ensures forall i :: 0 <= i < k ==> ids[i] in StoreOf(ids, first, k) && StoreOf(ids, first, k)[ids[i]] == first + i
    ensures forall id :: id in StoreOf(ids, first, k) ==> id in ids[..k]
  {
    if k > 0 {
      StoreOfExact(ids, first, k - 1);
      assert ids[..k] == ids[..k - 1] + [ids[k - 1]];
    }
  }

  /** Round one after k participants. */
  function CommittingTo(s: System, ids: seq<Identifier>, k: nat): System
    requires k <= |ids|
  {
    System(s.threads + [Committing(ids, Entries(ids, s.drawn, k), Nothing)], StoreOf(ids, s.drawn, k), s.drawn + k,
           s.uses)
  }

  lemma {:induction false} CommitAll(s: System, ids: seq<Identifier>, k: nat)
    requires Reachable(s) && ids != [] && k <= |ids|
    ensures Reachable(CommittingTo(s, ids, k))
  {
    var t, next := |s.threads|, CommittingTo(s, ids, k);
    if k == 0 {
      assert Entries(ids, s.drawn, 0) == [];
      ReachNext(s, CallCommitments(ids), next);
    } else {
      CommitAll(s, ids, k - 1);
      var before, list := CommittingTo(s, ids, k - 1), Entries(ids, s.drawn, k - 1);
      var drew := System(s.threads + [Committing(ids, list, Holding(s.drawn + k - 1))], before.store, s.drawn + k,
                         s.uses);
      assert drew.threads == before.threads[t := drew.threads[t]];
      ReachNext(before, Draw(t), drew);
      assert list + [Entry(ids[k - 1], s.drawn + k - 1)] == Entries(ids, s.drawn, k);
      assert next.threads == drew.threads[t := next.threads[t]];
      ReachNext(drew, Store(t), next);
    }
  }

  function OwnUses(caller: nat, list: seq<Entry>, m: nat): (uses: seq<Use>)
    requires m <= |list|
    ensures |uses| == m && forall i :: 0 <= i < m ==> uses[i] == Use(caller, list[i].origin, list[i])
  {
    seq(m, i requires 0 <= i < m => Use(caller, list[i].origin, list[i]))
  }

  /** What is left of it after m participants. */
  function StoreLeft(ids: seq<Identifier>, first: Token, m: nat): map<Identifier, Token>
    requires m <= |ids|
  {
    map id | id in StoreOf(ids, first, |ids|) && id !in ids[..m] :: StoreOf(ids, first, |ids|)[id]
  }

  /** Round two after m participants. */
  function AnsweringTo(s: System, ids: seq<Identifier>, m: nat): System
    requires m <= |ids|
  {
    var list := Entries(ids, s.drawn, |ids|);
    System(s.threads + [Returned(list), Answering(list, m, Nothing)],
           StoreLeft(ids, s.drawn, m), s.drawn + |ids|, s.uses + OwnUses(|s.threads| + 1, list, m))
  }

  lemma {:induction false} StoreLess(ids: seq<Identifier>, first: Token, m: nat)
    requires Distinct(ids) && m < |ids|
    ensures var store := StoreLeft(ids, first, m);
      && ids[m] in store && store[ids[m]] == first + m
      && StoreLeft(ids, first, m + 1) == store - {ids[m]}
  {
    StoreOfExact(ids, first, |ids|);
    assert ids[..m + 1] == ids[..m] + [ids[m]];
    assert forall i :: 0 <= i < m ==> ids[..m][i] == ids[i];
  }

  lemma {:induction false} TakeAndUse(s: System, ids: seq<Identifier>, m: nat)
    requires Distinct(ids) && m < |ids| && Reachable(AnsweringTo(s, ids, m))
    ensures Reachable(AnsweringTo(s, ids, m + 1))
  {
    var list, before, next := Entries(ids, s.drawn, |ids|), AnsweringTo(s, ids, m), AnsweringTo(s, ids, m + 1);
    var u := |s.threads| + 1;
    StoreLess(ids, s.drawn, m);
    var took := System(s.threads + [Returned(list), Answering(list, m, Holding(s.drawn + m))], next.store,
                       before.drawn, before.uses);
    assert took.threads == before.threads[u := took.threads[u]];
    ReachNext(before, Take(u), took);
    UseTaken(s, list, m, took, next);
  }

  lemma {:induction false} UseTaken(s: System, list: seq<Entry>, m: nat, took: System, next: System)
    requires m < |list| && Reachable(took)
    requires took.threads == s.threads + [Returned(list), Answering(list, m, Holding(list[m].origin))]
    requires next.threads == s.threads + [Returned(list), Answering(list, m + 1, Nothing)]
    requires took.uses == s.uses + OwnUses(|s.threads| + 1, list, m)
    requires next.uses == s.uses + OwnUses(|s.threads| + 1, list, m + 1)
    requires next.store == took.store && next.drawn == took.drawn
    ensures Reachable(next)
  {
    var u := |s.threads| + 1;
    assert next.threads == took.threads[u := next.threads[u]];
    assert next.uses == took.uses + [Use(u, list[m].origin, list[m])];
    ReachNext(took, UseNonces(u, true), next);
  }

  lemma {:induction false} NothingLeftOut(ids: seq<Identifier>, first: Token)
    ensures StoreLeft(ids, first, 0) == StoreOf(ids, first, |ids|)
  {
  }

  lemma {:induction false} AnswerNone(s: System, ids: seq<Identifier>)
    requires Reachable(s) && ids != []
    ensures Reachable(AnsweringTo(s, ids, 0))
  {
    var t, n, list, next := |s.threads|, |ids|, Entries(ids, s.drawn, |ids|), AnsweringTo(s, ids, 0);
    CommitAll(s, ids, n);
    NothingLeftOut(ids, s.drawn);
    var committed := CommittingTo(s, ids, n);
    var returned := System(s.threads + [Returned(list)], committed.store, committed.drawn, s.uses);
    assert returned.threads == committed.threads[t := returned.threads[t]];
    ReachNext(committed, ReturnList(t), returned);
    assert next.threads == returned.threads + [Answering(list, 0, Nothing)];
    assert next.uses == s.uses;
    ReachNext(returned, CallShares(list), next);
  }

  lemma {:induction false} AnswerAll(s: System, ids: seq<Identifier>, m: nat)
    requires Reachable(s) && ids != [] && Distinct(ids) && m <= |ids|
    ensures Reachable(AnsweringTo(s, ids, m))
  {
    if m == 0 {
      AnswerNone(s, ids);
    } else {
      AnswerAll(s, ids, m - 1);
      TakeAndUse(s, ids, m - 1);
    }
  }

  /** From every state that calls can reach, a signing for any distinct participants can run to its end: its two calls
      follow those made before, and every entry is answered, in order, with its own nonces. */
  lemma {:induction false} SessionCanComplete(s: System, ids: seq<Identifier>)
    returns (end: System, list: seq<Entry>)
    requires Reachable(s) && ids != [] && Distinct(ids)
    ensures Reachable(end) && |list| == |ids|
    ensures forall i :: 0 <= i < |ids| ==> list[i] == Entry(ids[i], s.drawn + i)
    ensures end.threads == s.threads + [Returned(list), Answering(list, |ids|, Nothing)]
    ensures end.uses == s.uses + OwnUses(|s.threads| + 1, list, |list|)
  {
    AnswerAll(s, ids, |ids|);
    end, list := AnsweringTo(s, ids, |ids|), Entries(ids, s.drawn, |ids|);
  }

  /** The store is shared between calls: when signings by participant 1 overlap, it can answer the first list with the
      nonces it committed to for the second. They are still used only once, but the share meets its equation only if
      both pairs come to the same (Participant.OtherNoncesShow). */
  lemma {:induction false} OverlappingCallsMixNonces()
    ensures exists s :: Reachable(s) && Returned([Entry(1, 0)]) in s.threads && s.uses == [Use(2, 1, Entry(1, 0))]
  {
    assert Runs(INITIAL, []) && End(INITIAL, []) == INITIAL;
    var mine, other := [Entry(1, 0)], Committing([1], [Entry(1, 1)], Nothing);
    CommitOne(INITIAL, 1);
    var s1 := System([Returned(mine)], map[1 := 0], 1, []);
    ReachNext(Committed(INITIAL, 1), ReturnList(0), s1);
    CommitOne(s1, 1);
    var s2 := System([Returned(mine), other, Answering(mine, 0, Nothing)], map[1 := 1], 2, []);
    ReachNext(Committed(s1, 1), CallShares(mine), s2);
    var s3 := System([Returned(mine), other, Answering(mine, 0, Holding(1))], map[], 2, []);
    ReachNext(s2, Take(2), s3);
    var s4 := System([Returned(mine), other, Answering(mine, 1, Nothing)], map[], 2, [Use(2, 1, mine[0])]);
    ReachNext(s3, UseNonces(2, true), s4);
    assert s4.threads[0] == Returned(mine);
  }

  // ---- a signing that no other round one disturbs ----

  /** Nothing is stored but by call t, and no other round one begins. */
  predicate Undisturbed(step: Step, t: nat) {
    !step.CallCommitments? && (step.Store? ==> step.thread == t)
  }

  /** The entries that call t has made so far. */
  function Made(s: System, t: nat): seq<Entry> {
    if t < |s.threads| && (s.threads[t].Committing? || s.threads[t].Returned?) then s.threads[t].list else []
  }

  predicate Alive(s: System, t: nat) {
    t < |s.threads| && (s.threads[t].Committing? || s.threads[t].Returned?)
  }

  /** All nonces in the store, in later calls and used by later calls are those that call t drew, each for its
      participant. */
  ghost predicate OwnNonces(s: System, t: nat, ids: seq<Identifier>) {
    && Alive(s, t) && |Made(s, t)| <= |ids|
    && (s.threads[t].Committing? ==> s.threads[t].ids == ids)
    && (forall i :: 0 <= i < |Made(s, t)| ==> Made(s, t)[i].id == ids[i])
    && (forall id :: id in s.store ==> Entry(id, s.store[id]) in Made(s, t))
    && (forall u :: t < u < |s.threads| ==> !s.threads[u].Committing?)
    && (forall u :: t < u < |s.threads| && s.threads[u].Answering? && s.threads[u].held.Holding? ==>
          s.threads[u].done < |s.threads[u].list|
          && Entry(s.threads[u].list[s.threads[u].done].id, s.threads[u].held.token) in Made(s, t))
    && (forall k :: 0 <= k < |s.uses| && s.uses[k].caller > t ==>
        Entry(s.uses[k].entry.id, s.uses[k].token) in Made(s, t))
  }

  lemma {:induction false} StepKeepsOwnNonces(s: System, step: Step, t: nat, ids: seq<Identifier>)
    requires OwnNonces(s, t, ids) && Enabled(s, step) && Undisturbed(step, t) && Alive(After(s, step), t)
    ensures OwnNonces(After(s, step), t, ids)
  {
    var s' := After(s, step);
    assert Made(s, t) <= Made(s', t);
    assert forall e :: e in Made(s, t) ==> e in Made(s', t);
  }

  lemma {:induction false} FailedForGood(s: System, steps: seq<Step>, t: nat)
    requires Runs(s, steps) && t < |s.threads| && !Alive(s, t)
    ensures t < |End(s, steps).threads| && !Alive(End(s, steps), t)
    decreases |steps|
  {
    if steps != [] {
      FailedForGood(After(s, steps[0]), steps[1..], t);
    }
  }

  lemma {:induction false} RunKeepsOwnNonces(s: System, steps: seq<Step>, t: nat, ids: seq<Identifier>)
    requires OwnNonces(s, t, ids) && Runs(s, steps) && Alive(End(s, steps), t)
    requires forall i :: 0 <= i < |steps| ==> Undisturbed(steps[i], t)
    ensures OwnNonces(End(s, steps), t, ids)
    decreases |steps|
  {
    if steps != [] {
      var s' := After(s, steps[0]);
      if !Alive(s', t) {
        FailedForGood(s', steps[1..], t);
      }
      assert Undisturbed(steps[0], t);
      StepKeepsOwnNonces(s, steps[0], t, ids);
      RunKeepsOwnNonces(s', steps[1..], t, ids);
    }
  }

  /** A round one on distinct identifiers that succeeds while no other one begins or stores anything: whatever else is
      going on, every later answer to an entry of its list is made with the nonces of that entry. */
  lemma {:induction false} UndisturbedSigningUsesItsOwn(earlier: seq<Step>, ids: seq<Identifier>, later: seq<Step>,
                                                        k: nat)
    requires Runs(INITIAL, earlier) && ids != [] && Distinct(ids)
    requires var t := |End(INITIAL, earlier).threads|;
      && Runs(After(End(INITIAL, earlier), CallCommitments(ids)), later)
      && (forall i :: 0 <= i < |later| ==> Undisturbed(later[i], t))
    requires var t, s := |End(INITIAL, earlier).threads|,
      End(After(End(INITIAL, earlier), CallCommitments(ids)), later);
      && Alive(s, t) && k < |s.uses| && s.uses[k].caller > t && s.uses[k].entry in Made(s, t)
    ensures var s := End(After(End(INITIAL, earlier), CallCommitments(ids)), later);
            s.uses[k].token == s.uses[k].entry.origin
  {
    var s0 := End(INITIAL, earlier);
    var t := |s0.threads|;
    var s1 := After(s0, CallCommitments(ids));
    var s := End(s1, later);
    RunKeepsOnePlace(INITIAL, earlier);
    assert OwnNonces(s1, t, ids);
    RunKeepsOwnNonces(s1, later, t, ids);
    var made := Made(s, t);
    var i :| 0 <= i < |made| && made[i] == s.uses[k].entry;
    var j :| 0 <= j < |made| && made[j] == Entry(s.uses[k].entry.id, s.uses[k].token);
    assert ids[i] == ids[j];
  }

  // ---- exactly when an entry is answered with its own nonces ----

  /** Does the step reset the store, or store or take nonces of this participant? */
  predicate Touches(s: System, step: Step, id: Identifier)
    requires Enabled(s, step)
  {
    match step
    case CallCommitments(_) => true
    case Store(t) => s.threads[t].ids[|s.threads[t].list|] == id
    case Take(t) => s.threads[t].list[s.threads[t].done].id == id
    case _ => false
  }

  predicate Untouched(s: System, steps: seq<Step>, id: Identifier)
    requires Runs(s, steps)
    decreases |steps|
  {
    steps == [] || (!Touches(s, steps[0], id) && Untouched(After(s, steps[0]), steps[1..], id))
  }

  /** Nonces that are no longer in the store, nor with a call that could put them there. */
  ghost predicate Lost(s: System, token: Token) {
    && token < s.drawn
    && (forall id :: id in s.store ==> s.store[id] != token)
    && (forall t :: 0 <= t < |s.threads| && s.threads[t].Committing? ==> s.threads[t].held != Holding(token))
  }

  lemma {:induction false} LostForGood(s: System, steps: seq<Step>, token: Token)
    requires Lost(s, token) && Runs(s, steps)
    ensures Lost(End(s, steps), token)
    decreases |steps|
  {
    if steps != [] {
      LostForGood(After(s, steps[0]), steps[1..], token);
    }
  }

  lemma {:induction false} TouchLoses(s: System, step: Step, id: Identifier)
    requires OnePlace(s) && Enabled(s, step) && id in s.store && Touches(s, step, id)
    ensures Lost(After(s, step), s.store[id])
  {
    var token := s.store[id];
    assert At(s, InStore(id), token);
    forall i | i in s.store && i != id
      ensures s.store[i] != token
    {
      assert At(s, InStore(i), s.store[i]);
    }
    forall t: nat | t < |s.threads| && s.threads[t].Committing?
      ensures s.threads[t].held != Holding(token)
    {
      var place := InCall(t);
      assert !At(s, place, token);
    }
  }

  /** Stored nonces stay exactly as long as nothing touches them. */
  lemma {:induction false} StoredWhileUntouched(s: System, steps: seq<Step>, id: Identifier)
    requires OnePlace(s) && Runs(s, steps) && id in s.store
    ensures var end := End(s, steps); id in end.store && end.store[id] == s.store[id] <==> Untouched(s, steps, id)
    decreases |steps|
  {
    if steps != [] {
      var s' := After(s, steps[0]);
      if Touches(s, steps[0], id) {
        TouchLoses(s, steps[0], id);
        LostForGood(s', steps[1..], s.store[id]);
      } else {
        StepKeepsOnePlace(s, steps[0]);
        StoredWhileUntouched(s', steps[1..], id);
      }
    }
  }

  /** A call stores the nonces of a list entry; later some call takes the nonces of that participant. It gets those of
      the entry exactly if in between no round one began and no nonces of that participant were stored or taken. */
  lemma {:induction false} TakesOwnNoncesExactly(earlier: seq<Step>, t: nat, between: seq<Step>, u: nat)
    requires Runs(INITIAL, earlier) && Enabled(End(INITIAL, earlier), Store(t))
    requires Runs(After(End(INITIAL, earlier), Store(t)), between)
    requires Enabled(End(After(End(INITIAL, earlier), Store(t)), between), Take(u))
    ensures var stored := After(End(INITIAL, earlier), Store(t));
            var entry := stored.threads[t].list[|stored.threads[t].list| - 1];
            var s := End(stored, between);
            var taker := s.threads[u];
      taker.list[taker.done].id == entry.id ==>
        (After(s, Take(u)).threads[u] == Answering(taker.list, taker.done, Holding(entry.origin))
         <==> Untouched(stored, between, entry.id))
  {
    var stored := After(End(INITIAL, earlier), Store(t));
    var entry := stored.threads[t].list[|stored.threads[t].list| - 1];
    RunKeepsOnePlace(INITIAL, earlier);
    StepKeepsOnePlace(End(INITIAL, earlier), Store(t));
    StoredWhileUntouched(stored, between, entry.id);
  }
}
