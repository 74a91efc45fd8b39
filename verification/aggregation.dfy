/**
 Group-by-sum over the filtered rows, and the selection of the largest groups.

 A grouping is a sequence of buckets with distinct keys, built in one pass over the
 rows the way a group-by accumulates: the first row with a new key opens a bucket,
 later rows add their Sales to it.
 */
module Aggregation {
  import opened Records
  import opened Seqs

  datatype Bucket<K> = Bucket(key: K, total: int)

  ghost predicate DistinctKeys<K>(g: seq<Bucket<K>>)
  {
    forall i, j :: 0 <= i < j < |g| ==> g[i].key != g[j].key
  }

  /** Some bucket of `g` has key `k`. */
  predicate HasKey<K(==)>(g: seq<Bucket<K>>, k: K)
  {
    exists i :: 0 <= i < |g| && g[i].key == k
  }

  /** Sum of Sales over all rows. */
  function Total(rows: seq<Row>): int
    decreases |rows|
  {
    if |rows| == 0 then 0 else Total(rows[..|rows| - 1]) + rows[|rows| - 1].sales
  }

  lemma TotalSnoc(rows: seq<Row>, last: Row)
    ensures Total(rows + [last]) == Total(rows) + last.sales
  {
    assert (rows + [last])[..|rows|] == rows;
  }

  /** Sum of Sales over the rows whose key is `k`: the reference every bucket is checked against. */
  function SalesWhere<K(==)>(rows: seq<Row>, key: Row -> K, k: K): int
    decreases |rows|
  {
    if |rows| == 0 then 0
    else SalesWhere(rows[..|rows| - 1], key, k) + (if key(rows[|rows| - 1]) == k then rows[|rows| - 1].sales else 0)
  }

  /** Sum of the bucket totals. */
  function SumTotals<K>(g: seq<Bucket<K>>): int
  {
    if |g| == 0 then 0 else g[0].total + SumTotals(g[1..])
  }

  /** Adds `v` to the bucket of `k`, opening it at the end when there is none yet. */
  function Accumulate<K(==)>(g: seq<Bucket<K>>, k: K, v: int): (r: seq<Bucket<K>>)
    requires DistinctKeys(g)
    ensures HasKey(g, k) ==> |r| == |g|
    ensures !HasKey(g, k) ==> |r| == |g| + 1 && r[|g|] == Bucket(k, v)
    ensures forall i :: 0 <= i < |g| ==>
              r[i] == Bucket(g[i].key, g[i].total + (if g[i].key == k then v else 0))
  {
    if |g| == 0 then [Bucket(k, v)]
    else if g[0].key == k then
      assert forall i :: 1 <= i < |g| ==> g[i].key != k;
      [Bucket(k, g[0].total + v)] + g[1..]
    else
      var rest := Accumulate(g[1..], k, v);
      assert HasKey(g, k) == HasKey(g[1..], k) by {
        if HasKey(g, k) {
          var i :| 0 <= i < |g| && g[i].key == k;
          assert g[1..][i - 1].key == k;
        }
      }
      [g[0]] + rest
  }

  /** Accumulating keeps the keys distinct. */
  lemma AccumulateKeepsKeysDistinct<K>(g: seq<Bucket<K>>, k: K, v: int)
    requires DistinctKeys(g)
    ensures DistinctKeys(Accumulate(g, k, v))
  {
    var r := Accumulate(g, k, v);
    forall i, j | 0 <= i < j < |r| ensures r[i].key != r[j].key {
      if j == |g| {
        assert r[j].key == k && !HasKey(g, k);
      }
    }
  }

  /** Accumulating `v` adds `v` to the sum of the totals. */
  lemma {:induction false} AccumulateAddsToSum<K>(g: seq<Bucket<K>>, k: K, v: int)
    requires DistinctKeys(g)
    ensures SumTotals(Accumulate(g, k, v)) == SumTotals(g) + v
  {
    if |g| > 0 && g[0].key != k {
      AccumulateAddsToSum(g[1..], k, v);
    }
  }

  /** A key with no row contributes nothing. */
  lemma {:induction false} SalesWhereAbsent<K>(rows: seq<Row>, key: Row -> K, k: K)
    requires forall i :: 0 <= i < |rows| ==> key(rows[i]) != k
    ensures SalesWhere(rows, key, k) == 0
    decreases |rows|
  {
    if |rows| > 0 {
      SalesWhereAbsent(rows[..|rows| - 1], key, k);
    }
  }

  lemma SalesWhereSnoc<K>(front: seq<Row>, last: Row, key: Row -> K, x: K)
    ensures SalesWhere(front + [last], key, x) == SalesWhere(front, key, x) + (if key(last) == x then last.sales else 0)
  {
    assert (front + [last])[..|front|] == front;
  }

  /** One more row whose key already has a bucket adds its Sales to that bucket. */
  lemma GroupStepKnown<K>(front: seq<Row>, last: Row, key: Row -> K, g: seq<Bucket<K>>, u: seq<K>)
    requires |g| == |u| && DistinctKeys(g)
    requires forall i :: 0 <= i < |g| ==> g[i].key == u[i]
    requires forall i :: 0 <= i < |g| ==> g[i].total == SalesWhere(front, key, g[i].key)
    requires key(last) in u
    ensures var r := Accumulate(g, key(last), last.sales);
            && |r| == |u|
            && (forall i :: 0 <= i < |r| ==> r[i].key == u[i])
            && (forall i :: 0 <= i < |r| ==> r[i].total == SalesWhere(front + [last], key, r[i].key))
  {
    var k := key(last);
    var i :| 0 <= i < |u| && u[i] == k;
    assert g[i].key == k;
    assert HasKey(g, k);
    var r := Accumulate(g, k, last.sales);
    assert |r| == |g|;
    forall j | 0 <= j < |r|
      ensures r[j].key == u[j] && r[j].total == SalesWhere(front + [last], key, r[j].key)
    {
      assert r[j] == Bucket(g[j].key, g[j].total + (if g[j].key == k then last.sales else 0));
      SalesWhereSnoc(front, last, key, g[j].key);
    }
  }

  /** One more row with a key not seen before opens a bucket holding its Sales. */
  lemma GroupStepNew<K>(front: seq<Row>, last: Row, key: Row -> K, g: seq<Bucket<K>>, u: seq<K>)
    requires |g| == |u| && DistinctKeys(g)
    requires forall i :: 0 <= i < |g| ==> g[i].key == u[i]
    requires forall i :: 0 <= i < |g| ==> g[i].total == SalesWhere(front, key, g[i].key)
    requires forall i :: 0 <= i < |front| ==> key(front[i]) != key(last)
    requires key(last) !in u
    ensures var r := Accumulate(g, key(last), last.sales);
            && |r| == |u| + 1
            && (forall i :: 0 <= i < |r| ==> r[i].key == (u + [key(last)])[i])
            && (forall i :: 0 <= i < |r| ==> r[i].total == SalesWhere(front + [last], key, r[i].key))
  {
    var k := key(last);
    var r := Accumulate(g, k, last.sales);
    assert !HasKey(g, k);
    SalesWhereAbsent(front, key, k);
    forall j | 0 <= j < |r| ensures r[j].total == SalesWhere(front + [last], key, r[j].key) {
      if j < |g| {
        assert r[j] == Bucket(g[j].key, g[j].total);
        SalesWhereSnoc(front, last, key, g[j].key);
      } else {
        SalesWhereSnoc(front, last, key, k);
      }
    }
  }

  lemma ImageSnoc<T, U>(s: seq<T>, x: T, f: T -> U)
    ensures Image(s + [x], f) == Image(s, f) + [f(x)]
  {
    assert (s + [x])[..|s|] == s;
  }

  lemma UniqueSnoc<T>(s: seq<T>, x: T)
    ensures Unique(s + [x]) == if x in Unique(s) then Unique(s) else Unique(s) + [x]
  {
    assert (s + [x])[..|s|] == s;
  }

  /** What one more row does to a grouping that is correct for the rows before it. */
  lemma GroupStep<K>(rows: seq<Row>, key: Row -> K, g: seq<Bucket<K>>)
    requires |rows| > 0
    requires |g| == |Unique(Image(rows[..|rows| - 1], key))|
    requires forall i :: 0 <= i < |g| ==> g[i].key == Unique(Image(rows[..|rows| - 1], key))[i]
    requires forall i :: 0 <= i < |g| ==> g[i].total == SalesWhere(rows[..|rows| - 1], key, g[i].key)
    requires DistinctKeys(g)
    ensures var r := Accumulate(g, key(rows[|rows| - 1]), rows[|rows| - 1].sales);
            && |r| == |Unique(Image(rows, key))|
            && (forall i :: 0 <= i < |r| ==> r[i].key == Unique(Image(rows, key))[i])
            && (forall i :: 0 <= i < |r| ==> r[i].total == SalesWhere(rows, key, r[i].key))
  {
    var front := rows[..|rows| - 1];
    var last := rows[|rows| - 1];
    assert rows == front + [last];
    var k := key(last);
    var column := Image(front, key);
    var u := Unique(column);
    ImageSnoc(front, last, key);
    UniqueSnoc(column, k);
    if k in u {
      GroupStepKnown(front, last, key, g, u);
    } else {
      forall i | 0 <= i < |front| ensures key(front[i]) != k {
        assert column[i] == key(front[i]);
      }
      GroupStepNew(front, last, key, g, u);
    }
  }

  /** The group-by-sum of the rows by `key`: one bucket per distinct key, in order of first
      appearance, holding the Sales sum of that key; the totals add up to the overall sum. */
  function GroupSum<K(==)>(rows: seq<Row>, key: Row -> K): (g: seq<Bucket<K>>)
    ensures |g| == |Unique(Image(rows, key))|
    ensures forall i :: 0 <= i < |g| ==> g[i].key == Unique(Image(rows, key))[i]
    ensures forall i :: 0 <= i < |g| ==> g[i].total == SalesWhere(rows, key, g[i].key)
    ensures DistinctKeys(g)
    ensures SumTotals(g) == Total(rows)
    decreases |rows|
  {
    if |rows| == 0 then []
    else
      var front := rows[..|rows| - 1];
      var last := rows[|rows| - 1];
      var g := GroupSum(front, key);
      GroupStep(rows, key, g);
      AccumulateKeepsKeysDistinct(g, key(last), last.sales);
      AccumulateAddsToSum(g, key(last), last.sales);
      Accumulate(g, key(last), last.sales)
  }

  /** The total of the bucket of `k`, if there is one. */
  function Lookup<K(==)>(g: seq<Bucket<K>>, k: K): Option<int>
  {
    if |g| == 0 then None
    else if g[0].key == k then Some(g[0].total)
    else Lookup(g[1..], k)
  }

  lemma {:induction false} LookupFinds<K>(g: seq<Bucket<K>>, k: K)
    requires DistinctKeys(g)
    ensures (forall i :: 0 <= i < |g| ==> g[i].key != k) ==> Lookup(g, k) == None
    ensures forall i :: 0 <= i < |g| && g[i].key == k ==> Lookup(g, k) == Some(g[i].total)
  {
    if |g| > 0 {
      LookupFinds(g[1..], k);
      assert forall i :: 1 <= i < |g| ==> g[1..][i - 1] == g[i];
    }
  }

  /** A key has a bucket exactly when some row carries it, and the bucket holds its Sales sum. */
  lemma GroupLookup<K>(rows: seq<Row>, key: Row -> K, k: K)
    ensures Lookup(GroupSum(rows, key), k) ==
              if exists i :: 0 <= i < |rows| && key(rows[i]) == k then Some(SalesWhere(rows, key, k)) else None
  {
    var g := GroupSum(rows, key);
    var column := Image(rows, key);
    var u := Unique(column);
    LookupFinds(g, k);
    if exists i :: 0 <= i < |rows| && key(rows[i]) == k {
      var i :| 0 <= i < |rows| && key(rows[i]) == k;
      assert column[i] == k;
      assert k in u;
      var j :| 0 <= j < |u| && u[j] == k;
      assert g[j].key == k;
    } else {
      forall j | 0 <= j < |g| ensures g[j].key != k {
        assert u[j] in column;
        var i :| 0 <= i < |column| && column[i] == u[j];
        assert key(rows[i]) == u[j];
      }
    }
  }

  // ---------------------------------------------------------------------------
  // Largest groups
  // ---------------------------------------------------------------------------

  ghost predicate NonIncreasing<K>(s: seq<Bucket<K>>)
  {
    forall i, j :: 0 <= i < j < |s| ==> s[i].total >= s[j].total
  }

  /** Where `b` goes in a non-increasing sequence: after every bucket at least as large. */
  function InsertionPoint<K>(b: Bucket<K>, s: seq<Bucket<K>>): (p: nat)
    requires NonIncreasing(s)
    ensures p <= |s|
    ensures forall i :: 0 <= i < p ==> s[i].total >= b.total
    ensures forall i :: p <= i < |s| ==> s[i].total < b.total
  {
    if |s| == 0 || s[0].total < b.total then 0
    else 1 + InsertionPoint(b, s[1..])
  }

  lemma InsertKeepsOrder<K>(b: Bucket<K>, s: seq<Bucket<K>>, p: nat)
    requires NonIncreasing(s) && p == InsertionPoint(b, s)
    ensures NonIncreasing(s[..p] + [b] + s[p..])
  {
    var r := s[..p] + [b] + s[p..];
    forall i, j | 0 <= i < j < |r| ensures r[i].total >= r[j].total {
      if j < p {
        assert r[i] == s[i] && r[j] == s[j];
      } else if j == p {
        assert r[i] == s[i];
      } else if i < p {
        assert r[i] == s[i] && r[j] == s[j - 1];
      } else if i == p {
        assert r[j] == s[j - 1];
      } else {
        assert r[i] == s[i - 1] && r[j] == s[j - 1];
      }
    }
  }

  lemma InsertKeepsKeysDistinct<K>(b: Bucket<K>, s: seq<Bucket<K>>, p: nat)
    requires p <= |s|
    ensures (forall i :: 0 <= i < |s| ==> s[i].key != b.key) && DistinctKeys(s) ==>
              DistinctKeys(s[..p] + [b] + s[p..])
  {
    var r := s[..p] + [b] + s[p..];
    forall i, j | (forall k :: 0 <= k < |s| ==> s[k].key != b.key) && DistinctKeys(s) && 0 <= i < j < |r|
      ensures r[i].key != r[j].key
    {
      if j < p {
        assert r[i] == s[i] && r[j] == s[j];
      } else if j == p {
        assert r[i] == s[i];
      } else if i < p {
        assert r[i] == s[i] && r[j] == s[j - 1];
      } else if i == p {
        assert r[j] == s[j - 1];
      } else {
        assert r[i] == s[i - 1] && r[j] == s[j - 1];
      }
    }
  }

  /** Puts `b` into a largest-first sequence after every bucket at least as large. */
  function InsertByTotal<K(==)>(b: Bucket<K>, s: seq<Bucket<K>>): (r: seq<Bucket<K>>)
    requires NonIncreasing(s)
    ensures NonIncreasing(r)
    ensures multiset(r) == multiset(s) + multiset{b}
    ensures (forall i :: 0 <= i < |s| ==> s[i].key != b.key) && DistinctKeys(s) ==> DistinctKeys(r)
  {
    var p := InsertionPoint(b, s);
    assert s == s[..p] + s[p..];
    InsertKeepsOrder(b, s, p);
    InsertKeepsKeysDistinct(b, s, p);
    s[..p] + [b] + s[p..]
  }

  /** Inserting the last bucket into the sorted front accounts for every bucket of `s`. */
  lemma SortStep<K>(s: seq<Bucket<K>>, sorted: seq<Bucket<K>>)
    requires |s| > 0
    requires NonIncreasing(sorted)
    requires multiset(sorted) == multiset(s[..|s| - 1])
    requires DistinctKeys(s[..|s| - 1]) ==> DistinctKeys(sorted)
    ensures var r := InsertByTotal(s[|s| - 1], sorted);
            && multiset(r) == multiset(s)
            && |r| == |s|
            && (DistinctKeys(s) ==> DistinctKeys(r))
  {
    var front := s[..|s| - 1];
    var b := s[|s| - 1];
    var r := InsertByTotal(b, sorted);
    assert s == front + [b];
    assert |r| == |multiset(r)| == |multiset(s)| == |s|;
    if DistinctKeys(s) {
      forall i | 0 <= i < |sorted| ensures sorted[i].key != b.key {
        assert sorted[i] in multiset(front);
        var t :| 0 <= t < |front| && front[t] == sorted[i];
        assert s[t] == sorted[i];
      }
    }
  }

  /** Insertion sort by total, largest first. */
  function SortByTotal<K(==)>(s: seq<Bucket<K>>): (r: seq<Bucket<K>>)
    ensures NonIncreasing(r)
    ensures multiset(r) == multiset(s)
    ensures |r| == |s|
    ensures DistinctKeys(s) ==> DistinctKeys(r)
    decreases |s|
  {
    if |s| == 0 then []
    else
      var sorted := SortByTotal(s[..|s| - 1]);
      SortStep(s, sorted);
      InsertByTotal(s[|s| - 1], sorted)
  }

  /** No bucket of `rest` is larger than any bucket of `r`. */
  ghost predicate Dominated<K>(rest: multiset<Bucket<K>>, r: seq<Bucket<K>>)
  {
    forall b :: b in rest ==> forall j :: 0 <= j < |r| ==> b.total <= r[j].total
  }

  /** Cutting a largest-first sequence leaves nothing larger than what was kept. */
  lemma PrefixDominates<K>(sorted: seq<Bucket<K>>, m: nat)
    requires NonIncreasing(sorted) && m <= |sorted|
    ensures NonIncreasing(sorted[..m])
    ensures multiset(sorted[..m]) <= multiset(sorted)
    ensures DistinctKeys(sorted) ==> DistinctKeys(sorted[..m])
    ensures Dominated(multiset(sorted) - multiset(sorted[..m]), sorted[..m])
  {
    assert sorted == sorted[..m] + sorted[m..];
    forall b | b in multiset(sorted[m..])
      ensures forall j :: 0 <= j < m ==> b.total <= sorted[j].total
    {
      var t :| 0 <= t < |sorted[m..]| && sorted[m..][t] == b;
      assert sorted[m + t] == b;
    }
  }

  /** The `n` largest buckets by total (all of them when there are fewer), largest first. */
  function TopK<K(==)>(g: seq<Bucket<K>>, n: nat): (r: seq<Bucket<K>>)
    ensures |r| == if |g| < n then |g| else n
    ensures NonIncreasing(r)
    ensures multiset(r) <= multiset(g)
    ensures Dominated(multiset(g) - multiset(r), r)
    ensures DistinctKeys(g) ==> DistinctKeys(r)
  {
    var sorted := SortByTotal(g);
    var m := if |g| < n then |g| else n;
    PrefixDominates(sorted, m);
    sorted[..m]
  }

  /** `v` is no larger than the total of any bucket of `g`. */
  ghost predicate AtMostAll<K>(v: int, g: seq<Bucket<K>>)
  {
    forall i :: 0 <= i < |g| ==> v <= g[i].total
  }

  /** A bucket whose key did not make the cut is no larger than any bucket that did. */
  lemma LeftOutIsSmaller<K>(g: seq<Bucket<K>>, n: nat, t: nat)
    requires t < |g| && !HasKey(TopK(g, n), g[t].key)
    ensures AtMostAll(g[t].total, TopK(g, n))
  {
    var top := TopK(g, n);
    assert g[t] !in multiset(top);
    assert g[t] in multiset(g) - multiset(top);
  }

  /** Every bucket that made the cut is a bucket of `g`. */
  lemma TopKPicksFrom<K>(g: seq<Bucket<K>>, n: nat, i: nat)
    requires i < |TopK(g, n)|
    ensures exists t :: 0 <= t < |g| && g[t] == TopK(g, n)[i]
  {
    assert TopK(g, n)[i] in multiset(g);
  }
}
