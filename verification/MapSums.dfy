/** Sums over the entries of a map, which do not depend on the order of enumeration. */
module MapSums {
  import opened PrimeField
  import opened Sums
  import opened Types

  ghost predicate Enumerates(ids: seq<Identifier>, s: set<Identifier>) {
    Distinct(ids) && forall id :: id in ids <==> id in s
  }

  ghost function Enumerate(s: set<Identifier>): (ids: seq<Identifier>)
    ensures Enumerates(ids, s)
    decreases |s|
  {
    if s == {} then []
    else
      var id :| id in s;
      var rest := Enumerate(s - {id});
      assert forall i :: i in rest + [id] <==> i in s;
      rest + [id]
  }

  /** Lists the identifiers in some order. */
  method ListIdentifiers(s: set<Identifier>) returns (ids: seq<Identifier>)
    ensures Enumerates(ids, s) && |ids| == |s|
  {
    ids := [];
    ghost var listed: set<Identifier> := {};
    var remaining := s;
    while remaining != {}
      invariant listed !! remaining && listed + remaining == s
      invariant Enumerates(ids, listed) && |ids| == |listed|
      decreases |remaining|
    {
      var id :| id in remaining;
      EnumeratesMore(ids, listed, id);
      ids := ids + [id];
      listed := listed + {id};
      remaining := remaining - {id};
    }
    assert listed == s;
  }

  lemma {:induction false} EnumeratesMore(ids: seq<Identifier>, s: set<Identifier>, id: Identifier)
    requires Enumerates(ids, s) && id !in s
    ensures Enumerates(ids + [id], s + {id})
  {
    var more := ids + [id];
    assert forall k :: 0 <= k < |ids| ==> more[k] == ids[k] && ids[k] in ids;
    assert forall i :: i in more <==> i in ids || i == id;
  }

  lemma {:induction false} EnumeratesSize(ids: seq<Identifier>, s: set<Identifier>)
    requires Enumerates(ids, s)
    ensures |ids| == |s|
    decreases |ids|
  {
    if |ids| == 0 {
      assert s == {};
    } else {
      var n := |ids| - 1;
      assert ids[n] in ids;
      assert forall i :: 0 <= i < n ==> ids[..n][i] == ids[i] && ids[i] in ids;
      assert forall id :: id in ids <==> id in ids[..n] || id == ids[n] by {
        assert ids == ids[..n] + [ids[n]];
      }
      EnumeratesSize(ids[..n], s - {ids[n]});
    }
  }

  function ValuesAt(m: map<Identifier, Scalar>, ids: seq<Identifier>): (ys: seq<Scalar>)
    requires forall id :: id in ids ==> id in m
    ensures |ys| == |ids| && forall i :: 0 <= i < |ids| ==> ys[i] == m[ids[i]]
  {
    seq(|ids|, i requires 0 <= i < |ids| => m[ids[i]])
  }

  /** The sum of the values of a map. */
  ghost function Total(m: map<Identifier, Scalar>): Scalar {
    Sum(ValuesAt(m, Enumerate(m.Keys)))
  }

  lemma {:induction false} TotalBy(m: map<Identifier, Scalar>, ids: seq<Identifier>)
    requires Enumerates(ids, m.Keys)
    ensures Total(m) == Sum(ValuesAt(m, ids))
  {
    var es := Enumerate(m.Keys);
    SumReordered(ValuesAt(m, es), es, ValuesAt(m, ids), ids);
  }

  lemma {:induction false} TotalEmpty()
    ensures Total(map[]) == 0
  {
    TotalBy(map[], []);
  }

  lemma {:induction false} TotalInsert(m: map<Identifier, Scalar>, id: Identifier, v: Scalar)
    requires id !in m
    ensures Total(m[id := v]) == Add(Total(m), v)
  {
    var es := Enumerate(m.Keys);
    var m' := m[id := v];
    assert Enumerates(es + [id], m'.Keys);
    TotalBy(m', es + [id]);
    SumPrefix(ValuesAt(m', es + [id]), ValuesAt(m, es), |es|);
  }

  lemma {:induction false} TotalAdd(a: map<Identifier, Scalar>, b: map<Identifier, Scalar>, c: map<Identifier, Scalar>)
    requires a.Keys == b.Keys == c.Keys
    requires forall id :: id in a ==> c[id] == Add(a[id], b[id])
    ensures Total(c) == Add(Total(a), Total(b))
  {
    var es := Enumerate(a.Keys);
    assert Enumerates(es, b.Keys) && Enumerates(es, c.Keys);
    TotalBy(a, es);
    TotalBy(b, es);
    TotalBy(c, es);
    SumAdd(ValuesAt(a, es), ValuesAt(b, es), ValuesAt(c, es), |es|);
  }
}
