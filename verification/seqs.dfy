/**
 Sequence operations the dashboard is built from: substring containment (Python's
 `p in s` on strings), first-occurrence de-duplication (pandas `Series.unique`),
 element-wise mapping, and order-preserving filtering (a boolean row mask).
 */
module Seqs {

  // ---------------------------------------------------------------------------
  // Substring containment
  // ---------------------------------------------------------------------------

  /** `p` occurs in `s` starting at position `i`. */
  predicate OccursAt<T(==)>(p: seq<T>, s: seq<T>, i: nat)
  {
    i + |p| <= |s| && s[i..i + |p|] == p
  }

  /** `p` is a contiguous slice of `s`. */
  ghost predicate IsInfix<T>(p: seq<T>, s: seq<T>)
  {
    exists i: nat :: OccursAt(p, s, i)
  }

  /** Containment test that scans the start positions of `s` from the left. */
  function Contains<T(==)>(s: seq<T>, p: seq<T>): bool
    decreases |s|
  {
    if |p| > |s| then false
    else if s[..|p|] == p then true
    else Contains(s[1..], p)
  }

  /** Dropping the first element shifts every later occurrence one place left. */
  lemma OccursShift<T>(p: seq<T>, s: seq<T>, i: nat)
    requires |s| > 0
    ensures OccursAt(p, s, i + 1) <==> OccursAt(p, s[1..], i)
  {
    if i + 1 + |p| <= |s| {
      assert s[1..][i..i + |p|] == s[i + 1..i + 1 + |p|];
    }
  }

  lemma {:induction false} ContainsIsInfix<T>(s: seq<T>, p: seq<T>)
    ensures Contains(s, p) <==> IsInfix(p, s)
    decreases |s|
  {
    if |p| > |s| {
    } else if s[..|p|] == p {
      assert OccursAt(p, s, 0);
    } else {
      ContainsIsInfix(s[1..], p);
      if IsInfix(p, s) {
        var i: nat :| OccursAt(p, s, i);
        assert i != 0;
        OccursShift(p, s, i - 1);
        assert IsInfix(p, s[1..]);
      }
      if IsInfix(p, s[1..]) {
        var j: nat :| OccursAt(p, s[1..], j);
        OccursShift(p, s, j);
        assert IsInfix(p, s);
      }
    }
  }

  // ---------------------------------------------------------------------------
  // Distinct values in first-occurrence order
  // ---------------------------------------------------------------------------

  ghost predicate Distinct<T>(s: seq<T>)
  {
    forall i, j :: 0 <= i < j < |s| ==> s[i] != s[j]
  }

  /** Position of the first occurrence of `x` in `s`. */
  function IndexOf<T(==)>(s: seq<T>, x: T): (i: nat)
    requires x in s
    ensures i < |s| && s[i] == x && x !in s[..i]
  {
    if s[0] == x then 0
    else
      var j := IndexOf(s[1..], x);
      assert s[..j + 1] == [s[0]] + s[1..][..j];
      1 + j
  }

  /** The first occurrence is the only position with no earlier copy. */
  lemma IndexOfUnique<T>(s: seq<T>, x: T, k: nat)
    requires k < |s| && s[k] == x && x !in s[..k]
    ensures IndexOf(s, x) == k
  {
  }

  /** The distinct elements of `s`, each once, in the order they first appear. */
  function Unique<T(==)>(s: seq<T>): (u: seq<T>)
    ensures Distinct(u)
    ensures forall i :: 0 <= i < |u| ==> u[i] in s
    ensures forall i :: 0 <= i < |s| ==> s[i] in u
    decreases |s|
  {
    if |s| == 0 then []
    else
      var u := Unique(s[..|s| - 1]);
      assert s == s[..|s| - 1] + [s[|s| - 1]];
      if s[|s| - 1] in u then u else u + [s[|s| - 1]]
  }

  /** Appending an element does not move the first occurrence of anything already present. */
  lemma IndexOfSnoc<T>(s: seq<T>, x: T, y: T)
    requires y in s
    ensures IndexOf(s + [x], y) == IndexOf(s, y) < |s|
  {
    var k := IndexOf(s, y);
    assert (s + [x])[..k] == s[..k];
    IndexOfUnique(s + [x], y, k);
  }

  /** The first occurrence of a new element is the position it was appended at. */
  lemma IndexOfAppended<T>(s: seq<T>, x: T)
    requires x !in s
    ensures IndexOf(s + [x], x) == |s|
  {
    assert (s + [x])[..|s|] == s;
    IndexOfUnique(s + [x], x, |s|);
  }

  /** Unique lists the distinct values by increasing position of first occurrence. */
  lemma {:induction false} UniqueFirstOccurrenceOrder<T>(s: seq<T>)
    ensures forall i, j :: 0 <= i < j < |Unique(s)| ==> IndexOf(s, Unique(s)[i]) < IndexOf(s, Unique(s)[j])
    decreases |s|
  {
    if |s| > 0 {
      var s' := s[..|s| - 1];
      var x := s[|s| - 1];
      var u' := Unique(s');
      var u := Unique(s);
      UniqueFirstOccurrenceOrder(s');
      assert s == s' + [x];
      forall i, j | 0 <= i < j < |u|
        ensures IndexOf(s, u[i]) < IndexOf(s, u[j])
      {
        IndexOfSnoc(s', x, u[i]);
        if j < |u'| {
          IndexOfSnoc(s', x, u[j]);
        } else {
          IndexOfAppended(s', x);
        }
      }
    }
  }

  // ---------------------------------------------------------------------------
  // Element-wise mapping (a column of a table)
  // ---------------------------------------------------------------------------

  function Image<T, U>(s: seq<T>, f: T -> U): (r: seq<U>)
    ensures |r| == |s|
    ensures forall i :: 0 <= i < |s| ==> r[i] == f(s[i])
    decreases |s|
  {
    if |s| == 0 then [] else Image(s[..|s| - 1], f) + [f(s[|s| - 1])]
  }

  // ---------------------------------------------------------------------------
  // Order-preserving filtering
  // ---------------------------------------------------------------------------

  /** `r` is the subsequence of `s` picked by the strictly increasing positions `idx`. */
  ghost predicate Embeds<T>(r: seq<T>, s: seq<T>, idx: seq<nat>)
  {
    && |idx| == |r|
    && (forall j :: 0 <= j < |idx| ==> idx[j] < |s| && r[j] == s[idx[j]])
    && (forall i, j :: 0 <= i < j < |idx| ==> idx[i] < idx[j])
  }

  /** The positions of the elements of `s` that satisfy `p`, in increasing order. */
  ghost function Positions<T>(s: seq<T>, p: T -> bool): (idx: seq<nat>)
    ensures forall j :: 0 <= j < |idx| ==> idx[j] < |s| && p(s[idx[j]])
    ensures forall i, j :: 0 <= i < j < |idx| ==> idx[i] < idx[j]
    ensures forall i :: 0 <= i < |s| && p(s[i]) ==> i in idx
    decreases |s|
  {
    if |s| == 0 then []
    else
      var idx := Positions(s[..|s| - 1], p);
      if p(s[|s| - 1]) then idx + [|s| - 1] else idx
  }

  /** Embedding into a prefix of `s` carries over to `s`, and can pick the last element too. */
  lemma EmbedsSnoc<T>(r: seq<T>, s: seq<T>, idx: seq<nat>)
    requires |s| > 0 && Embeds(r, s[..|s| - 1], idx)
    ensures Embeds(r, s, idx)
    ensures Embeds(r + [s[|s| - 1]], s, idx + [|s| - 1])
  {
    assert forall j :: 0 <= j < |idx| ==> s[..|s| - 1][idx[j]] == s[idx[j]];
  }

  /** The elements of `s` that satisfy `p`, in their original order (a boolean mask). */
  function Filter<T>(s: seq<T>, p: T -> bool): (r: seq<T>)
    ensures Embeds(r, s, Positions(s, p))
    decreases |s|
  {
    if |s| == 0 then []
    else
      var r := Filter(s[..|s| - 1], p);
      EmbedsSnoc(r, s, Positions(s[..|s| - 1], p));
      if p(s[|s| - 1]) then r + [s[|s| - 1]] else r
  }

  /** Two predicates that agree on every element of `s` pick the same positions. */
  lemma {:induction false} PositionsCongruent<T>(s: seq<T>, p: T -> bool, q: T -> bool)
    requires forall i :: 0 <= i < |s| ==> p(s[i]) == q(s[i])
    ensures Positions(s, p) == Positions(s, q)
    decreases |s|
  {
    if |s| > 0 {
      PositionsCongruent(s[..|s| - 1], p, q);
    }
  }

  /** A subsequence is determined by the positions it is picked from. */
  lemma EmbedsDetermined<T>(r1: seq<T>, r2: seq<T>, s: seq<T>, idx: seq<nat>)
    requires Embeds(r1, s, idx) && Embeds(r2, s, idx)
    ensures r1 == r2
  {
  }

  /** An element is picked by the positions of `p` exactly when it occurs in `s` and satisfies `p`. */
  lemma PickedMembership<T>(r: seq<T>, s: seq<T>, p: T -> bool, x: T)
    requires Embeds(r, s, Positions(s, p))
    ensures x in r <==> x in s && p(x)
  {
    var idx := Positions(s, p);
    if x in r {
      var j :| 0 <= j < |r| && r[j] == x;
      assert s[idx[j]] == x;
    }
    if x in s && p(x) {
      var i :| 0 <= i < |s| && s[i] == x;
      assert i in idx;
      var j :| 0 <= j < |idx| && idx[j] == i;
      assert r[j] == x;
    }
  }
}
