/** Finite sums and weighted sums of scalars. */
module Sums {
  import opened PrimeField

  /** a[0] + ... + a[k-1], added left to right as the accumulating loops do. */
  function SumTo(a: seq<Scalar>, k: nat): Scalar
    requires k <= |a|
  {
    if k == 0 then 0 else Add(SumTo(a, k - 1), a[k - 1])
  }

  function Sum(a: seq<Scalar>): Scalar {
    SumTo(a, |a|)
  }

  /** a[0] * w[0] + ... + a[k-1] * w[k-1]. */
  function DotTo(a: seq<Scalar>, w: seq<Scalar>, k: nat): Scalar
    requires k <= |a| && k <= |w|
  {
    if k == 0 then 0 else Add(DotTo(a, w, k - 1), Mul(a[k - 1], w[k - 1]))
  }

  function Dot(a: seq<Scalar>, w: seq<Scalar>): Scalar
    requires |a| == |w|
  {
    DotTo(a, w, |a|)
  }

  lemma {:induction false} Swap4(a: Scalar, b: Scalar, c: Scalar, d: Scalar)
    ensures Add(Add(a, b), Add(c, d)) == Add(Add(a, c), Add(b, d))
  {
    AddAssoc(a, b, Add(c, d));
    AddAssoc(b, c, d);
    AddComm(b, c);
    AddAssoc(c, b, d);
    AddAssoc(a, c, Add(b, d));
  }

  lemma {:induction false} SumPrefix(a: seq<Scalar>, b: seq<Scalar>, k: nat)
    requires k <= |a| && k <= |b| && a[..k] == b[..k]
    ensures SumTo(a, k) == SumTo(b, k)
  {
    if k > 0 {
      assert a[..k][..k - 1] == a[..k - 1] && b[..k][..k - 1] == b[..k - 1];
      assert a[k - 1] == a[..k][k - 1] == b[..k][k - 1];
      SumPrefix(a, b, k - 1);
    }
  }

  lemma {:induction false} SumAdd(a: seq<Scalar>, b: seq<Scalar>, c: seq<Scalar>, k: nat)
    requires k <= |a| == |b| == |c|
    requires forall i :: 0 <= i < k ==> c[i] == Add(a[i], b[i])
    ensures SumTo(c, k) == Add(SumTo(a, k), SumTo(b, k))
  {
    if k == 0 {
      AddZero(0);
    } else {
      SumAdd(a, b, c, k - 1);
      Swap4(SumTo(a, k - 1), SumTo(b, k - 1), a[k - 1], b[k - 1]);
    }
  }

  lemma {:induction false} SumScale(m: Scalar, a: seq<Scalar>, c: seq<Scalar>, k: nat)
    requires k <= |a| == |c|
    requires forall i :: 0 <= i < k ==> c[i] == Mul(m, a[i])
    ensures SumTo(c, k) == Mul(m, SumTo(a, k))
  {
    if k == 0 {
      MulZero(m);
    } else {
      SumScale(m, a, c, k - 1);
      Distrib(m, SumTo(a, k - 1), a[k - 1]);
    }
  }

  lemma {:induction false} SumZero(a: seq<Scalar>, k: nat)
    requires k <= |a|
    requires forall i :: 0 <= i < k ==> a[i] == 0
    ensures SumTo(a, k) == 0
  {
    if k > 0 {
      SumZero(a, k - 1);
      AddZero(0);
    }
  }

  /** A weighted sum in which every term but the m-th vanishes. */
  lemma {:induction false} DotSelect(a: seq<Scalar>, w: seq<Scalar>, m: nat, k: nat)
    requires m < |a| == |w| && k <= |a|
    requires w[m] == 1 && forall i :: 0 <= i < |w| && i != m ==> w[i] == 0
    ensures DotTo(a, w, k) == if m < k then a[m] else 0
  {
    if k > 0 {
      DotSelect(a, w, m, k - 1);
      MulZero(a[k - 1]);
      MulOne(a[k - 1]);
      AddZero(a[k - 1]);
      AddZero(DotTo(a, w, k - 1));
    }
  }

  lemma {:induction false} DotIsSum(a: seq<Scalar>, w: seq<Scalar>, c: seq<Scalar>, k: nat)
    requires k <= |a| == |w| == |c|
    requires forall i :: 0 <= i < k ==> c[i] == Mul(a[i], w[i])
    ensures SumTo(c, k) == DotTo(a, w, k)
  {
    if k > 0 {
      DotIsSum(a, w, c, k - 1);
    }
  }

  lemma {:induction false} DotUpdate(a: seq<Scalar>, w: seq<Scalar>, j: nat, v: Scalar, k: nat)
    requires j < k <= |a| == |w|
    ensures Add(DotTo(a[j := v], w, k), Mul(a[j], w[j])) == Add(DotTo(a, w, k), Mul(v, w[j]))
  {
    var a' := a[j := v];
    if j == k - 1 {
      DotSame(a, a', w, j);
      var s := DotTo(a, w, j);
      AddAssoc(s, Mul(v, w[j]), Mul(a[j], w[j]));
      AddComm(Mul(v, w[j]), Mul(a[j], w[j]));
      AddAssoc(s, Mul(a[j], w[j]), Mul(v, w[j]));
    } else {
      DotUpdate(a, w, j, v, k - 1);
      var t := Mul(a[k - 1], w[k - 1]);
      SwapLast(DotTo(a', w, k - 1), t, Mul(a[j], w[j]));
      SwapLast(DotTo(a, w, k - 1), t, Mul(v, w[j]));
    }
  }

  lemma {:induction false} SwapLast(s: Scalar, t: Scalar, u: Scalar)
    ensures Add(Add(s, t), u) == Add(Add(s, u), t)
  {
    AddAssoc(s, t, u);
    AddComm(t, u);
    AddAssoc(s, u, t);
  }

  lemma {:induction false} DotSame(a: seq<Scalar>, b: seq<Scalar>, w: seq<Scalar>, k: nat)
    requires k <= |a| == |b| == |w| && forall i :: 0 <= i < k ==> a[i] == b[i]
    ensures DotTo(a, w, k) == DotTo(b, w, k)
  {
    if k > 0 {
      DotSame(a, b, w, k - 1);
    }
  }

  /** One field, say, of every entry. */
  function Mapped<T, U>(f: T -> U, a: seq<T>): (r: seq<U>)
    ensures |r| == |a| && forall i :: 0 <= i < |a| ==> r[i] == f(a[i])
  {
    seq(|a|, i requires 0 <= i < |a| => f(a[i]))
  }

  // ---- order independence ----

  predicate Distinct<T(==)>(xs: seq<T>) {
    forall i, j :: 0 <= i < j < |xs| ==> xs[i] != xs[j]
  }

  function Without<T>(a: seq<T>, j: nat): (r: seq<T>)
    requires j < |a|
    ensures |r| == |a| - 1
  {
    a[..j] + a[j + 1..]
  }

  lemma {:induction false} SumWithout(a: seq<Scalar>, j: nat)
    requires j < |a|
    ensures Sum(a) == Add(Sum(Without(a, j)), a[j])
    decreases |a|
  {
    var n := |a| - 1;
    SumPrefix(a, a[..n], n);
    if j == n {
      assert Without(a, j) == a[..n];
    } else {
      SumWithout(a[..n], j);
      var w := Without(a, j);
      assert w == Without(a[..n], j) + [a[n]];
      SumPrefix(w, Without(a[..n], j), n - 1);
      var s := Sum(Without(a[..n], j));
      AddAssoc(s, a[j], a[n]);
      AddComm(a[j], a[n]);
      AddAssoc(s, a[n], a[j]);
    }
  }

  /** Two lists of keyed terms with the same keys, each key once, have the same sum. */
  lemma {:induction false} SumReordered<K>(a: seq<Scalar>, ka: seq<K>, b: seq<Scalar>, kb: seq<K>)
    requires |a| == |ka| && |b| == |kb| && Distinct(ka) && Distinct(kb)
    requires forall k :: k in ka <==> k in kb
    requires forall i, j :: 0 <= i < |a| && 0 <= j < |b| && ka[i] == kb[j] ==> a[i] == b[j]
    ensures Sum(a) == Sum(b)
    decreases |a|
  {
    assert |b| > 0 ==> kb[0] in ka;
    if |a| > 0 {
      var n := |a| - 1;
      assert ka[n] in kb;
      var j :| 0 <= j < |kb| && kb[j] == ka[n];
      var b', kb' := Without(b, j), Without(kb, j);
      SumWithout(b, j);
      SumPrefix(a, a[..n], n);
      forall k
        ensures k in ka[..n] <==> k in kb'
      {
        RemovedKey(ka, n, k);
        RemovedKey(kb, j, k);
        assert Without(ka, n) == ka[..n];
      }
      SumReordered(a[..n], ka[..n], b', kb');
    }
  }

  lemma {:induction false} RemovedKey<K>(ks: seq<K>, j: nat, k: K)
    requires j < |ks| && Distinct(ks)
    ensures k in Without(ks, j) <==> k in ks && k != ks[j]
  {
    var w := Without(ks, j);
    if k in w {
      var i :| 0 <= i < |w| && w[i] == k;
      assert ks[if i < j then i else i + 1] == k;
    }
    if k in ks && k != ks[j] {
      var i :| 0 <= i < |ks| && ks[i] == k;
      assert w[if i < j then i else i - 1] == k;
    }
  }

  lemma {:induction false} MultisetWithout<T>(a: seq<T>, j: nat)
    requires j < |a|
    ensures multiset(a) == multiset(Without(a, j)) + multiset{a[j]}
  {
    assert a == a[..j] + [a[j]] + a[j + 1..];
  }

  /** Rearranging the terms does not change the sum. */
  lemma {:induction false} SameRest<T>(a: seq<T>, b: seq<T>) returns (j: nat)
    requires |a| > 0 && multiset(a) == multiset(b)
    ensures j < |b| && b[j] == a[0] && multiset(Without(a, 0)) == multiset(Without(b, j))
  {
    assert a[0] in multiset(b);
    j :| 0 <= j < |b| && b[j] == a[0];
    MultisetWithout(a, 0);
    MultisetWithout(b, j);
    assert multiset(Without(a, 0)) == multiset(a) - multiset{a[0]};
    assert multiset(Without(b, j)) == multiset(b) - multiset{a[0]};
  }

  lemma {:induction false} MappedPermuted<T, U>(f: T -> U, a: seq<T>, b: seq<T>)
    requires multiset(a) == multiset(b)
    ensures multiset(Mapped(f, a)) == multiset(Mapped(f, b))
    decreases |a|
  {
    assert |a| == |multiset(a)| == |multiset(b)| == |b|;
    if |a| > 0 {
      var j := SameRest(a, b);
      MappedPermuted(f, Without(a, 0), Without(b, j));
      assert Mapped(f, Without(a, 0)) == Without(Mapped(f, a), 0);
      assert Mapped(f, Without(b, j)) == Without(Mapped(f, b), j);
      MultisetWithout(Mapped(f, a), 0);
      MultisetWithout(Mapped(f, b), j);
    }
  }

  lemma {:induction false} DistinctSplit<T>(a: seq<T>, j: nat)
    requires j < |a|
    ensures Distinct(a) <==> Distinct(Without(a, j)) && a[j] !in Without(a, j)
  {
    var w := Without(a, j);
    assert forall k :: 0 <= k < j ==> w[k] == a[k];
    assert forall k :: j < k < |a| ==> w[k - 1] == a[k];
  }

  lemma {:induction false} DistinctReordered<T>(a: seq<T>, b: seq<T>)
    requires multiset(a) == multiset(b) && Distinct(a)
    ensures Distinct(b)
    decreases |a|
  {
    assert |a| == |multiset(a)| == |multiset(b)| == |b|;
    if |a| > 0 {
      var j := SameRest(a, b);
      DistinctSplit(a, 0);
      DistinctSplit(b, j);
      DistinctReordered(Without(a, 0), Without(b, j));
      assert b[j] !in multiset(Without(a, 0));
    }
  }

  lemma {:induction false} SumPermuted(a: seq<Scalar>, b: seq<Scalar>)
    requires multiset(a) == multiset(b)
    ensures Sum(a) == Sum(b)
    decreases |a|
  {
    assert |a| == |multiset(a)| == |multiset(b)| == |b|;
    if |a| > 0 {
      var n := |a| - 1;
      assert a[n] in multiset(b);
      var j :| 0 <= j < |b| && b[j] == a[n];
      MultisetWithout(a, n);
      MultisetWithout(b, j);
      assert multiset(Without(a, n)) == multiset(a) - multiset{a[n]};
      assert multiset(Without(b, j)) == multiset(b) - multiset{b[j]};
      SumPermuted(Without(a, n), Without(b, j));
      SumWithout(a, n);
      SumWithout(b, j);
    }
  }

  // ---- double sums ----

  /** The sums of the rows of a table. */
  function RowSums(rows: seq<seq<Scalar>>): (s: seq<Scalar>)
    ensures |s| == |rows| && forall i :: 0 <= i < |rows| ==> s[i] == Sum(rows[i])
  {
    seq(|rows|, i requires 0 <= i < |rows| => Sum(rows[i]))
  }

  predicate Table(rows: seq<seq<Scalar>>, n: nat) {
    forall i :: 0 <= i < |rows| ==> |rows[i]| == n
  }

  /** The j-th entries of the rows. */
  function ColumnOf(rows: seq<seq<Scalar>>, n: nat, j: nat): (c: seq<Scalar>)
    requires Table(rows, n) && j < n
    ensures |c| == |rows| && forall i :: 0 <= i < |rows| ==> c[i] == rows[i][j]
  {
    seq(|rows|, i requires 0 <= i < |rows| => rows[i][j])
  }

  /** The sums of the columns of a table. */
  function ColumnSums(rows: seq<seq<Scalar>>, n: nat): (s: seq<Scalar>)
    requires Table(rows, n)
    ensures |s| == n && forall j :: 0 <= j < n ==> s[j] == Sum(ColumnOf(rows, n, j))
  {
    seq(n, j requires 0 <= j < n => Sum(ColumnOf(rows, n, j)))
  }

  /** Adding a table up by rows or by columns gives the same. */
  lemma {:induction false} SumExchange(rows: seq<seq<Scalar>>, n: nat)
    requires Table(rows, n)
    ensures Sum(RowSums(rows)) == Sum(ColumnSums(rows, n))
    decreases |rows|
  {
    if |rows| == 0 {
      SumZero(ColumnSums(rows, n), n);
    } else {
      var m := |rows| - 1;
      var before := rows[..m];
      SumExchange(before, n);
      SumPrefix(RowSums(rows), RowSums(before), m);
      forall j | 0 <= j < n
        ensures ColumnSums(rows, n)[j] == Add(ColumnSums(before, n)[j], rows[m][j])
      {
        SumPrefix(ColumnOf(rows, n, j), ColumnOf(before, n, j), m);
      }
      SumAdd(ColumnSums(before, n), rows[m], ColumnSums(rows, n), n);
    }
  }
}
