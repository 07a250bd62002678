/** Canonical commitment lists: the exchange sort of the map-based functions, the insertion sort of the builder, and
    that they agree. */
module Ordering {
  import opened PrimeField
  import opened Group
  import opened Types
  import opened Sums
  import opened Encoding
  import opened Transcript

  predicate Sorted(list: seq<Commitment>) {
    forall i, j :: 0 <= i < j < |list| ==> list[i].id <= list[j].id
  }

  predicate DistinctIds(list: seq<Commitment>) {
    Distinct(ListIds(list))
  }

  // ---- the two sorts ----

  /** Every one of the first i entries is no larger than anything after it. */
  ghost predicate Placed(s: seq<Commitment>, i: nat) {
    forall k, l :: 0 <= k < i && k < l < |s| ==> s[k].id <= s[l].id
  }

  /** Exchanges every later entry that is smaller into place. */
  method SortCommitmentList(list: array<Commitment>)
    modifies list
    ensures Sorted(list[..])
    ensures multiset(list[..]) == multiset(old(list[..]))
  {
    for i := 0 to list.Length
      invariant Placed(list[..], i)
      invariant multiset(list[..]) == multiset(old(list[..]))
    {
      PlaceMinimum(list, i);
    }
  }

  /** s with entries i and j exchanged. */
  function Swapped(s: seq<Commitment>, i: nat, j: nat): (t: seq<Commitment>)
    requires i < |s| && j < |s|
    ensures |t| == |s|
  {
    s[i := s[j]][j := s[i]]
  }

  method Swap(list: array<Commitment>, i: nat, j: nat)
    requires i < list.Length && j < list.Length
    modifies list
    ensures list[..] == Swapped(old(list[..]), i, j)
  {
    list[i], list[j] := list[j], list[i];
  }

  /** The inner loop: afterwards entry i is no larger than anything after it. */
  method PlaceMinimum(list: array<Commitment>, i: nat)
    requires i < list.Length && Placed(list[..], i)
    modifies list
    ensures Placed(list[..], i + 1)
    ensures multiset(list[..]) == multiset(old(list[..]))
  {
    ghost var s := list[..];
    for j := i + 1 to list.Length
      invariant list[..] == s && |s| == list.Length
      invariant PlacedTo(s, i, j)
      invariant multiset(s) == multiset(old(list[..]))
    {
      Exchange(s, i, j);
      if list[i].id > list[j].id {
        SwapPermutes(s, i, j);
        Swap(list, i, j);
        s := Swapped(s, i, j);
      }
    }
  }

  /** Entry i is in addition no larger than the entries between it and j. */
  ghost predicate PlacedTo(s: seq<Commitment>, i: nat, j: nat) {
    && i < j <= |s| && Placed(s, i)
    && forall l :: i < l < j ==> s[i].id <= s[l].id
  }

  lemma {:induction false} SwapPermutes(s: seq<Commitment>, i: nat, j: nat)
    requires i < j < |s|
    ensures multiset(Swapped(s, i, j)) == multiset(s)
  {
  }

  lemma {:induction false} Exchange(s: seq<Commitment>, i: nat, j: nat)
    requires PlacedTo(s, i, j) && j < |s|
    ensures PlacedTo(if s[i].id > s[j].id then Swapped(s, i, j) else s, i, j + 1)
  {
    var t := Swapped(s, i, j);
    assert forall k :: 0 <= k < |s| && k != i && k != j ==> t[k] == s[k];
    forall k, l | 0 <= k < i && k < l < |s|
      ensures t[k].id <= t[l].id
    {
      assert s[k].id <= s[if l == i then j else if l == j then i else l].id;
    }
  }

  /** Inserts each entry into the sorted part before it. */
  method InsertionSort(list: array<Commitment>)
    modifies list
    ensures Sorted(list[..])
    ensures multiset(list[..]) == multiset(old(list[..]))
  {
    if list.Length == 0 {
      return;
    }
    for i := 1 to list.Length
      invariant Sorted(list[..][..i])
      invariant multiset(list[..]) == multiset(old(list[..]))
    {
      InsertInto(list, i);
    }
    assert list[..][..list.Length] == list[..];
  }

  /** s with entry i moved down to position j. */
  function Inserted(s: seq<Commitment>, i: nat, j: nat): (t: seq<Commitment>)
    requires j <= i < |s|
    ensures |t| == |s|
  {
    s[..j] + [s[i]] + s[j..i] + s[i + 1..]
  }

  lemma {:induction false} InsertedPermutes(s: seq<Commitment>, i: nat, j: nat)
    requires j <= i < |s|
    ensures multiset(Inserted(s, i, j)) == multiset(s)
  {
    assert s == s[..j] + s[j..i] + [s[i]] + s[i + 1..];
  }

  lemma {:induction false} InsertedSorted(s: seq<Commitment>, i: nat, j: nat)
    requires j <= i < |s| && Sorted(s[..i])
    requires j > 0 ==> s[j - 1].id <= s[i].id
    requires forall k :: j <= k < i ==> s[i].id < s[k].id
    ensures Sorted(Inserted(s, i, j)[..i + 1])
  {
    var p, t := s[..i], Inserted(s, i, j)[..i + 1];
    assert forall k :: 0 <= k < i ==> p[k] == s[k];
    assert forall k :: 0 <= k < j ==> t[k] == p[k] && p[k].id <= s[i].id;
    assert t[j] == s[i];
    assert forall k :: j < k <= i ==> t[k] == p[k - 1];
  }

  /** s with the entries j to i - 1 moved up by one, which leaves a gap at j. */
  function Opened(s: seq<Commitment>, i: nat, j: nat): (t: seq<Commitment>)
    requires j <= i < |s|
    ensures |t| == |s|
  {
    s[..j + 1] + s[j..i] + s[i + 1..]
  }

  lemma {:induction false} MoveUp(s: seq<Commitment>, i: nat, j: nat)
    requires j < i < |s|
    ensures Opened(s, i, j + 1)[j] == s[j]
    ensures Opened(s, i, j + 1)[j + 1 := s[j]] == Opened(s, i, j)
  {
  }

  lemma {:induction false} FillGap(s: seq<Commitment>, i: nat, j: nat)
    requires j <= i < |s|
    ensures Opened(s, i, i) == s
    ensures Opened(s, i, j)[j := s[i]] == Inserted(s, i, j)
  {
  }

  method Put(list: array<Commitment>, k: nat, c: Commitment)
    requires k < list.Length
    modifies list
    ensures list[..] == old(list[..])[k := c]
  {
    list[k] := c;
  }

  /** Moves the entry before the gap into it. */
  method Shift(list: array<Commitment>, ghost s: seq<Commitment>, i: nat, gap: nat)
    requires |s| == list.Length && 0 < gap <= i < |s| && list[..] == Opened(s, i, gap)
    modifies list
    ensures list[..] == Opened(s, i, gap - 1)
    ensures forall k :: 0 <= k < gap - 1 ==> list[k] == s[k]
  {
    MoveUp(s, i, gap - 1);
    Put(list, gap, list[gap - 1]);
  }

  /** Moves the entries larger than the key up by one and returns the gap. */
  method OpenGap(list: array<Commitment>, i: nat) returns (gap: nat)
    requires i < list.Length
    modifies list
    ensures gap <= i && list[..] == Opened(old(list[..]), i, gap)
    ensures gap > 0 ==> old(list[..])[gap - 1].id <= old(list[..])[i].id
    ensures forall k :: gap <= k < i ==> old(list[..])[i].id < old(list[..])[k].id
  {
    ghost var s := list[..];
    var key := list[i];
    gap := i;
    FillGap(s, i, i);
    while gap > 0 && list[gap - 1].id > key.id
      invariant gap <= i
      invariant list[..] == Opened(s, i, gap)
      invariant forall k :: 0 <= k < gap ==> list[k] == s[k]
      invariant forall k :: gap <= k < i ==> key.id < s[k].id
    {
      Shift(list, s, i, gap);
      gap := gap - 1;
    }
  }

  /** One pass of the insertion sort: moves larger entries up and puts the key into the gap. */
  method InsertInto(list: array<Commitment>, i: nat)
    requires 1 <= i < list.Length && Sorted(list[..][..i])
    modifies list
    ensures Sorted(list[..][..i + 1])
    ensures multiset(list[..]) == multiset(old(list[..]))
  {
    ghost var s := list[..];
    var key := list[i];
    var gap := OpenGap(list, i);
    Put(list, gap, key);
    FillGap(s, i, gap);
    InsertedPermutes(s, i, gap);
    InsertedSorted(s, i, gap);
  }

  /** The standard library's sort by identifier, of which only this contract is used. */
  method SortById(list: seq<Commitment>) returns (sorted: seq<Commitment>)
    ensures Sorted(sorted) && multiset(sorted) == multiset(list)
  {
    var slice := new Commitment[|list|](i requires 0 <= i < |list| => list[i]);
    assert slice[..] == list;
    InsertionSort(slice);
    sorted := slice[..];
  }

  // ---- the ascending permutation is unique ----

  lemma {:induction false} SortedDistinctIsAscending(list: seq<Commitment>)
    requires Sorted(list) && DistinctIds(list)
    ensures Ascending(list)
  {
    forall i, j | 0 <= i < j < |list|
      ensures list[i].id < list[j].id
    {
      assert list[i].id <= list[j].id && list[i].id != list[j].id;
    }
  }

  lemma {:induction false} SameEntry(a: seq<Commitment>, i: nat, b: seq<Commitment>, j: nat)
    requires i < |a| && j < |b| && a[i] == b[j] && multiset(a) == multiset(b)
    ensures multiset(Without(a, i)) == multiset(Without(b, j))
  {
    MultisetWithout(a, i);
    MultisetWithout(b, j);
    assert multiset(Without(a, i)) == multiset(a) - multiset{a[i]};
    assert multiset(Without(b, j)) == multiset(b) - multiset{b[j]};
  }

  /** Distinctness of the identifiers does not depend on the order. */
  lemma {:induction false} DistinctPermuted(a: seq<Commitment>, b: seq<Commitment>)
    requires multiset(a) == multiset(b) && DistinctIds(a)
    ensures DistinctIds(b)
  {
    var idOf := (c: Commitment) => c.id;
    assert Mapped(idOf, a) == ListIds(a) && Mapped(idOf, b) == ListIds(b);
    MappedPermuted(idOf, a, b);
    DistinctReordered(ListIds(a), ListIds(b));
  }

  lemma {:induction false} AscendingHead(a: seq<Commitment>, b: seq<Commitment>)
    requires |a| > 0 && |b| > 0 && multiset(a) == multiset(b) && Ascending(a) && Ascending(b)
    ensures a[0] == b[0]
  {
    assert a[0] in multiset(b) && b[0] in multiset(a);
    var k :| 0 <= k < |b| && b[k] == a[0];
    var m :| 0 <= m < |a| && a[m] == b[0];
  }

  lemma {:induction false} AscendingTail(a: seq<Commitment>)
    requires |a| > 0 && Ascending(a)
    ensures Ascending(Without(a, 0)) && a == [a[0]] + Without(a, 0)
  {
    assert Without(a, 0) == a[1..];
  }

  lemma {:induction false} AscendingUnique(a: seq<Commitment>, b: seq<Commitment>)
    requires multiset(a) == multiset(b) && Ascending(a) && Ascending(b)
    ensures a == b
    decreases |a|
  {
    assert |a| == |multiset(a)| == |multiset(b)| == |b|;
    if |a| > 0 {
      AscendingHead(a, b);
      SameEntry(a, 0, b, 0);
      AscendingTail(a);
      AscendingTail(b);
      AscendingUnique(Without(a, 0), Without(b, 0));
    }
  }

  /** The canonical form of a list: the ascending permutation. */
  ghost predicate Canonical(list: seq<Commitment>, sorted: seq<Commitment>) {
    Ascending(sorted) && multiset(sorted) == multiset(list)
  }

  /** Whatever sorts the list, by whichever algorithm, from whichever order, arrives at the canonical form. */
  lemma {:induction false} SortsAgree(list: seq<Commitment>, reordered: seq<Commitment>, a: seq<Commitment>,
                                      b: seq<Commitment>)
    requires DistinctIds(list) && multiset(list) == multiset(reordered)
    requires Sorted(a) && multiset(a) == multiset(list)
    requires Sorted(b) && multiset(b) == multiset(reordered)
    ensures a == b && Canonical(list, a) && (list != [] ==> Validation(a).Ok?)
  {
    DistinctPermuted(list, a);
    DistinctPermuted(list, b);
    SortedDistinctIsAscending(a);
    SortedDistinctIsAscending(b);
    AscendingUnique(a, b);
    ValidationExact(a);
    assert |a| == |multiset(a)| == |multiset(list)| == |list|;
  }

  /** Sorted but with a repeated identifier: the repetition is what validation reports. */
  lemma {:induction false} SortedDuplicates(list: seq<Commitment>, i: nat)
    requires 1 <= i <= |list| && Sorted(list) && Ascending(list[..i])
    ensures ValidationFrom(list, i) == if DistinctIds(list) then Ok(()) else Err(Plain(DuplicateParticipant))
    decreases |list| - i
  {
    if i == |list| {
      assert list[..i] == list;
    } else if list[i - 1].id < list[i].id {
      forall k | 0 <= k < i
        ensures list[k].id < list[i].id
      {
        assert list[..i][k].id <= list[..i][i - 1].id;
      }
      assert list[..i + 1] == list[..i] + [list[i]];
      SortedDuplicates(list, i + 1);
    } else {
      assert list[i - 1].id == list[i].id;
    }
  }

  // ---- the signing package builder ----

  datatype SigningPackage = SigningPackage(message: Bytes, list: seq<Commitment>, groupPublicKey: Element)

  class SigningPackageBuilder {
    var message: Bytes
    var commitments: seq<Commitment>
    var groupPublicKey: Element

    constructor ()
      ensures commitments == []
    {
      message, commitments, groupPublicKey := [], [], IDENTITY;
    }

    method WithMessage(msg: Bytes)
      modifies this`message
      ensures message == msg
    {
      message := msg;
    }

    method WithGroupPublicKey(pk: Element)
      modifies this`groupPublicKey
      ensures groupPublicKey == pk
    {
      groupPublicKey := pk;
    }

    method AddCommitment(c: Commitment)
      modifies this`commitments
      ensures commitments == old(commitments) + [c]
    {
      commitments := commitments + [c];
    }

    method AddCommitments(cs: seq<Commitment>)
      modifies this`commitments
      ensures commitments == old(commitments) + cs
    {
      commitments := commitments + cs;
    }

    /** Succeeds exactly when there are commitments and their identifiers are distinct; the list is then canonical. */
    method Build() returns (r: Result<SigningPackage>)
      ensures commitments == [] ==> r == Err(Plain(EmptyCommitmentList))
      ensures commitments != [] && !DistinctIds(commitments) ==> r == Err(Plain(DuplicateParticipant))
      ensures commitments != [] && DistinctIds(commitments) ==>
        r.Ok? && Canonical(commitments, r.value.list) && r.value.message == message
          && r.value.groupPublicKey == groupPublicKey
    {
      if |commitments| == 0 {
        return Err(Plain(EmptyCommitmentList));
      }
      var sorted := new Commitment[|commitments|](i requires 0 <= i < |commitments| reads this => commitments[i]);
      assert sorted[..] == commitments;
      InsertionSort(sorted);
      var list := sorted[..];
      assert |multiset(list)| == |multiset(commitments)|;
      for i := 1 to |list|
        invariant Ascending(list[..i])
      {
        if list[i].id == list[i - 1].id {
          if DistinctIds(commitments) {
            DistinctPermuted(commitments, list);
          }
          return Err(Plain(DuplicateParticipant));
        }
        AscendingExtends(list, i);
      }
      assert list[..|list|] == list;
      DistinctPermuted(list, commitments);
      r := Ok(SigningPackage(message, list, groupPublicKey));
    }
  }

  lemma {:induction false} AscendingExtends(list: seq<Commitment>, i: nat)
    requires 1 <= i < |list| && Sorted(list) && Ascending(list[..i]) && list[i].id != list[i - 1].id
    ensures Ascending(list[..i + 1])
  {
    assert list[i - 1].id < list[i].id;
    forall k | 0 <= k < i
      ensures list[k].id < list[i].id
    {
      assert list[..i][k].id <= list[..i][i - 1].id;
    }
    assert list[..i + 1] == list[..i] + [list[i]];
  }

  // ---- what the builder's calls amount to ----

  /** The order in which commitments were added does not show in the package. */
  lemma {:induction false} BuildIgnoresOrder(a: seq<Commitment>, b: seq<Commitment>, x: seq<Commitment>,
                                             y: seq<Commitment>)
    requires multiset(a) == multiset(b)
    ensures DistinctIds(a) <==> DistinctIds(b)
    ensures Canonical(a, x) && Canonical(b, y) ==> x == y
  {
    if DistinctIds(a) {
      DistinctPermuted(a, b);
    }
    if DistinctIds(b) {
      DistinctPermuted(b, a);
    }
    if Canonical(a, x) && Canonical(b, y) {
      AscendingUnique(x, y);
    }
  }

  /** Adding a commitment keeps the builder able to build exactly if its identifier is a new one, and then puts the
      commitment into its place: before it the smaller identifiers, after it the larger ones. */
  lemma {:induction false} AddedCommitment(cs: seq<Commitment>, c: Commitment, x: seq<Commitment>, y: seq<Commitment>,
                                           i: nat)
    requires Canonical(cs, x) && i <= |x|
    requires forall k :: 0 <= k < i ==> x[k].id < c.id
    requires forall k :: i <= k < |x| ==> c.id < x[k].id
    ensures DistinctIds(cs + [c])
    ensures Canonical(cs + [c], y) <==> y == x[..i] + [c] + x[i..]
  {
    var z := x[..i] + [c] + x[i..];
    assert x == x[..i] + x[i..];
    assert multiset(z) == multiset(x) + multiset{c} == multiset(cs + [c]);
    assert Ascending(z);
    DistinctPermuted(z, cs + [c]);
    if Canonical(cs + [c], y) {
      AscendingUnique(y, z);
    }
  }

  lemma {:induction false} RepeatedCommitment(cs: seq<Commitment>, c: Commitment)
    ensures DistinctIds(cs + [c]) <==> DistinctIds(cs) && forall d :: d in cs ==> d.id != c.id
  {
    var ids := ListIds(cs + [c]);
    DistinctSplit(ids, |cs|);
    assert Without(ids, |cs|) == ListIds(cs);
    forall d | d in cs
      ensures d.id in ListIds(cs)
    {
      var i :| 0 <= i < |cs| && cs[i] == d;
      assert ListIds(cs)[i] == d.id;
    }
  }
}
