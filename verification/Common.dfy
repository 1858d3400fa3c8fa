// Small vocabulary shared by the models: optional values and finite sums of reals.
module Common {
  datatype Option<+T> = None | Some(value: T)

  function Max(x: real, y: real): real { if x > y then x else y }

  // The sum of the values of a finite table, in no particular order: Go ranges over maps in random order.
  ghost function Sum<K>(m: map<K, real>): real
    decreases |m|
  {
    if m == map[] then 0.0
    else
      var k :| k in m;
      m[k] + Sum(m - {k})
  }

  // Any entry may be taken out first.
  lemma {:induction false} SumTakeOut<K>(m: map<K, real>, k: K)
    requires k in m
    ensures Sum(m) == m[k] + Sum(m - {k})
    decreases |m|
  {
    var j :| j in m && Sum(m) == m[j] + Sum(m - {j});
    if j != k {
      SumTakeOut(m - {j}, k);
      SumTakeOut(m - {k}, j);
      assert m - {j} - {k} == m - {k} - {j};
    }
  }

  // Replacing (or adding) one entry changes the sum by the difference.
  lemma SumPut<K>(m: map<K, real>, k: K, v: real)
    ensures Sum(m[k := v]) == Sum(m) + v - (if k in m then m[k] else 0.0)
  {
    SumTakeOut(m[k := v], k);
    assert m[k := v] - {k} == m - {k};
    if k in m {
      SumTakeOut(m, k);
    } else {
      assert m - {k} == m;
    }
  }

  // A pointwise smaller table has a smaller sum.
  lemma {:induction false} SumMonotone<K>(m: map<K, real>, n: map<K, real>)
    requires m.Keys == n.Keys
    requires forall k :: k in m ==> m[k] <= n[k]
    ensures Sum(m) <= Sum(n)
    decreases |m|
  {
    if m == map[] {
      assert n == map[];
    } else {
      var k :| k in m && Sum(m) == m[k] + Sum(m - {k});
      SumTakeOut(n, k);
      SumMonotone(m - {k}, n - {k});
    }
  }

  // Sums of differences are differences of sums.
  lemma {:induction false} SumMinus<K>(m: map<K, real>, n: map<K, real>, d: map<K, real>)
    requires m.Keys == n.Keys == d.Keys
    requires forall k :: k in m ==> d[k] == m[k] - n[k]
    ensures Sum(d) == Sum(m) - Sum(n)
    decreases |m|
  {
    if m == map[] {
      assert n == map[] && d == map[];
    } else {
      var k :| k in m && Sum(m) == m[k] + Sum(m - {k});
      SumTakeOut(n, k);
      SumTakeOut(d, k);
      SumMinus(m - {k}, n - {k}, d - {k});
    }
  }

  lemma Reassociate<T>(x: seq<T>, y: seq<T>, z: seq<T>)
    ensures x + (y + z) == (x + y) + z
  {}

  // ----- Permutations -----

  predicate NoDuplicates<T(==)>(s: seq<T>) { forall i, j :: 0 <= i < j < |s| ==> s[i] != s[j] }

  lemma {:induction false} AtMostOnce<T>(s: seq<T>, x: T)
    requires NoDuplicates(s)
    ensures multiset(s)[x] <= 1
    decreases |s|
  {
    if s == [] {
    } else {
      assert s == [s[0]] + s[1..];
      AtMostOnce(s[1..], x);
      if s[0] == x {
        assert x !in s[1..];
      }
    }
  }

  // A permutation has the same elements, and none twice if there was none.
  lemma {:induction false} Permuted<T>(p: seq<T>, q: seq<T>)
    requires multiset(p) == multiset(q) && NoDuplicates(p)
    ensures |p| == |q| && NoDuplicates(q)
    ensures forall x :: x in p <==> x in q
  {
    assert |p| == |multiset(p)| && |q| == |multiset(q)|;
    forall x
      ensures x in p <==> x in q
    {
      assert x in multiset(p) <==> x in multiset(q);
    }
    forall i, j | 0 <= i < j < |q|
      ensures q[i] != q[j]
    {
      if q[i] == q[j] {
        assert q == q[..i] + [q[i]] + q[i + 1..j] + [q[j]] + q[j + 1..];
        assert multiset(q)[q[i]] >= 2;
        AtMostOnce(p, q[i]);
      }
    }
  }
}
