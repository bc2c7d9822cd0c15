/**
 * A sorted set (member -> score) and the ZRANGE read over it. Members are
 * ordered by score, ties broken by the members' lexicographic order; a
 * reversed range walks that order backwards. A range is described by
 * rank: the member returned at position i has exactly start + i members
 * ahead of it.
 */
module SortedSets {
  import opened Strings

  type ZSet = map<string, int>

  /** `a` comes before `b` in the set's ascending order. */
  predicate Before(z: ZSet, a: string, b: string)
    requires a in z && b in z
  {
    z[a] < z[b] || (z[a] == z[b] && LexLess(a, b))
  }

  /** `a` is returned before `b` by a range read in the given direction. */
  predicate Ahead(z: ZSet, a: string, b: string, rev: bool)
    requires a in z && b in z
  {
    if rev then Before(z, b, a) else Before(z, a, b)
  }

  /** The number of members a range read returns before `x`. */
  function Rank(z: ZSet, x: string, rev: bool): nat
    requires x in z
  {
    |set y | y in z.Keys && Ahead(z, y, x, rev)|
  }

  lemma AheadIrreflexive(z: ZSet, a: string, rev: bool)
    requires a in z
    ensures !Ahead(z, a, a, rev)
  {
    LexIrreflexive(a);
  }

  lemma AheadAsymmetric(z: ZSet, a: string, b: string, rev: bool)
    requires a in z && b in z && Ahead(z, a, b, rev)
    ensures !Ahead(z, b, a, rev)
  {
    if z[a] == z[b] {
      if rev { LexAsymmetric(b, a); } else { LexAsymmetric(a, b); }
    }
  }

  lemma AheadTransitive(z: ZSet, a: string, b: string, c: string, rev: bool)
    requires a in z && b in z && c in z
    requires Ahead(z, a, b, rev) && Ahead(z, b, c, rev)
    ensures Ahead(z, a, c, rev)
  {
    if z[a] == z[b] == z[c] {
      if rev { LexTransitive(c, b, a); } else { LexTransitive(a, b, c); }
    }
  }

  lemma AheadTotal(z: ZSet, a: string, b: string, rev: bool)
    requires a in z && b in z && a != b
    ensures Ahead(z, a, b, rev) || Ahead(z, b, a, rev)
  {
    LexTotal(a, b);
  }

  lemma {:induction false} SubsetCardinality(a: set<string>, b: set<string>)
    requires a <= b
    ensures |a| <= |b|
    ensures a < b ==> |a| < |b|
    decreases |b|
  {
    if a != b {
      assert !(b <= a);
      var x :| x in b && x !in a;
      SubsetCardinality(a, b - {x});
    } else {
      assert a == b;
    }
  }

  /** A member ahead of another has a strictly smaller rank. */
  lemma RankMonotonic(z: ZSet, a: string, b: string, rev: bool)
    requires a in z && b in z && Ahead(z, a, b, rev)
    ensures Rank(z, a, rev) < Rank(z, b, rev)
  {
    var sa := set y | y in z.Keys && Ahead(z, y, a, rev);
    var sb := set y | y in z.Keys && Ahead(z, y, b, rev);
    forall y | y in sa ensures y in sb {
      AheadTransitive(z, y, a, b, rev);
    }
    AheadIrreflexive(z, a, rev);
    assert a in sb && a !in sa;
    SubsetCardinality(sa, sb);
  }

  /** Distinct members have distinct ranks, and the rank order is the read order. */
  lemma RankOrder(z: ZSet, a: string, b: string, rev: bool)
    requires a in z && b in z && Rank(z, a, rev) < Rank(z, b, rev)
    ensures a != b && Ahead(z, a, b, rev)
  {
    if !Ahead(z, a, b, rev) {
      if a == b {
      } else {
        AheadTotal(z, a, b, rev);
        RankMonotonic(z, b, a, rev);
      }
    }
  }

  lemma RankBound(z: ZSet, x: string, rev: bool)
    requires x in z
    ensures Rank(z, x, rev) < |z|
  {
    var s := set y | y in z.Keys && Ahead(z, y, x, rev);
    AheadIrreflexive(z, x, rev);
    assert x in z.Keys && x !in s;
    SubsetCardinality(s, z.Keys);
    assert |z.Keys| == |z|;
  }

  /** `m` is the member of `s` that a read returns first. */
  predicate IsFirst(z: ZSet, s: set<string>, m: string, rev: bool)
    requires s <= z.Keys
  {
    m in s && forall y :: y in s && y != m ==> Ahead(z, m, y, rev)
  }

  /** A non-empty part of the set has a member that is ahead of all its other members. */
  lemma {:induction false} FirstOf(z: ZSet, s: set<string>, rev: bool) returns (m: string)
    requires s != {} && s <= z.Keys
    ensures IsFirst(z, s, m, rev)
    decreases |s|
  {
    var x :| x in s;
    if s == {x} {
      m := x;
    } else {
      var m0 := FirstOf(z, s - {x}, rev);
      if Ahead(z, m0, x, rev) {
        m := m0;
      } else {
        AheadTotal(z, m0, x, rev);
        m := x;
        forall y | y in s && y != x ensures Ahead(z, x, y, rev) {
          if y != m0 { AheadTransitive(z, x, m0, y, rev); }
        }
      }
    }
  }

  /** Every member already read is ahead of every member still to read. */
  predicate Separated(z: ZSet, remaining: set<string>, rev: bool)
    requires remaining <= z.Keys
  {
    forall a, b :: a in z.Keys - remaining && b in remaining ==> Ahead(z, a, b, rev)
  }

  /** Taking the first member of `remaining` out keeps the read members ahead of the rest. */
  lemma SeparatedStep(z: ZSet, remaining: set<string>, m: string, rev: bool)
    requires remaining <= z.Keys && Separated(z, remaining, rev) && IsFirst(z, remaining, m, rev)
    ensures Separated(z, remaining - {m}, rev)
    ensures |z.Keys - (remaining - {m})| == |z.Keys - remaining| + 1
  {
    assert z.Keys - (remaining - {m}) == (z.Keys - remaining) + {m};
  }

  /**
   * When every member outside `remaining` is ahead of every member inside
   * it, the first member of `remaining` has as many members ahead of it as
   * there are outside `remaining`.
   */
  lemma RankOfFirst(z: ZSet, remaining: set<string>, m: string, rev: bool)
    requires remaining <= z.Keys && Separated(z, remaining, rev) && IsFirst(z, remaining, m, rev)
    ensures Rank(z, m, rev) == |z.Keys - remaining|
  {
    var taken := z.Keys - remaining;
    forall y | y in z.Keys && Ahead(z, y, m, rev) ensures y in taken {
      if y in remaining {
        AheadIrreflexive(z, m, rev);
        if y != m { AheadAsymmetric(z, m, y, rev); }
      }
    }
    assert (set y | y in z.Keys && Ahead(z, y, m, rev)) == taken;
  }

  /** Two members with the same rank are the same member. */
  lemma RankInjective(z: ZSet, a: string, b: string, rev: bool)
    requires a in z && b in z && Rank(z, a, rev) == Rank(z, b, rev)
    ensures a == b
  {
    if a != b {
      AheadTotal(z, a, b, rev);
      if Ahead(z, a, b, rev) {
        RankMonotonic(z, a, b, rev);
      } else {
        RankMonotonic(z, b, a, rev);
      }
    }
  }

  /**
   * `ZRANGE key start (start + count - 1)` (with `REV` when `rev`): the
   * members whose ranks are start, start + 1, ..., in that order, as many
   * as exist up to `count`.
   */
  method Range(z: ZSet, start: nat, count: nat, rev: bool) returns (ms: seq<string>)
    ensures |ms| == if start + count <= |z| then count else if start <= |z| then |z| - start else 0
    ensures forall i :: 0 <= i < |ms| ==> ms[i] in z && Rank(z, ms[i], rev) == start + i
    ensures forall x :: x in z && start <= Rank(z, x, rev) < start + |ms| ==> x in ms
  {
    var remaining := z.Keys;
    var k := 0;
    ms := [];
    while k < start + count && remaining != {}
      invariant Walked(z, start, start + count, rev, remaining, k, ms)
      decreases |remaining|
    {
      ghost var first := FirstOf(z, remaining, rev);
      var m :| IsFirst(z, remaining, m, rev);
      WalkStep(z, start, start + count, rev, remaining, k, ms, m);
      if k >= start {
        ms := ms + [m];
      }
      remaining := remaining - {m};
      k := k + 1;
    }
    WalkDone(z, start, count, rev, remaining, k, ms);
  }

  /** A walk that stopped at `start + count` members or on running out has read the range. */
  lemma WalkDone(z: ZSet, start: nat, count: nat, rev: bool, remaining: set<string>, k: nat, ms: seq<string>)
    requires Walked(z, start, start + count, rev, remaining, k, ms)
    requires k == start + count || remaining == {}
    ensures |ms| == if start + count <= |z| then count else if start <= |z| then |z| - start else 0
    ensures forall i :: 0 <= i < |ms| ==> ms[i] in z && Rank(z, ms[i], rev) == start + i
    ensures forall x :: x in z && start <= Rank(z, x, rev) < start + |ms| ==> x in ms
  {
    TakenCount(z, remaining, k, start + count);
    RangeComplete(z, start, ms, rev);
  }

  /**
   * The state of the walk behind `Range`: `k` members taken, in order, out
   * of the set, those from rank `start` on kept in `ms`.
   */
  ghost predicate Walked(z: ZSet, start: nat, limit: nat, rev: bool, remaining: set<string>, k: nat, ms: seq<string>)
  {
    && remaining <= z.Keys
    && |z.Keys - remaining| == k <= limit
    && Separated(z, remaining, rev)
    && |ms| == (if k <= start then 0 else k - start)
    && forall i :: 0 <= i < |ms| ==> ms[i] in z && Rank(z, ms[i], rev) == start + i
  }

  /** Taking the first remaining member, and keeping it from rank `start` on, continues the walk. */
  lemma WalkStep(z: ZSet, start: nat, limit: nat, rev: bool, remaining: set<string>, k: nat, ms: seq<string>, m: string)
    requires Walked(z, start, limit, rev, remaining, k, ms) && k < limit
    requires IsFirst(z, remaining, m, rev)
    ensures Walked(z, start, limit, rev, remaining - {m}, k + 1, if k >= start then ms + [m] else ms)
    ensures |remaining - {m}| < |remaining|
  {
    RankOfFirst(z, remaining, m, rev);
    if k >= start {
      RankedAppend(z, start, ms, m, rev);
    }
    SeparatedStep(z, remaining, m, rev);
  }

  /** Appending the member of the next rank keeps the members at consecutive ranks from `start`. */
  lemma RankedAppend(z: ZSet, start: nat, ms: seq<string>, m: string, rev: bool)
    requires forall i :: 0 <= i < |ms| ==> ms[i] in z && Rank(z, ms[i], rev) == start + i
    requires m in z && Rank(z, m, rev) == start + |ms|
    ensures forall i :: 0 <= i < |ms + [m]| ==> (ms + [m])[i] in z && Rank(z, (ms + [m])[i], rev) == start + i
  {
  }

  /** A walk that stopped at `limit` members or on running out has taken the smaller of `limit` and the set's size. */
  lemma TakenCount(z: ZSet, remaining: set<string>, k: nat, limit: nat)
    requires remaining <= z.Keys && |z.Keys - remaining| == k <= limit
    requires k == limit || remaining == {}
    ensures k == if limit <= |z| then limit else |z|
  {
    assert |z.Keys| == |z|;
    SubsetCardinality(z.Keys - remaining, z.Keys);
    if remaining == {} {
      assert z.Keys - remaining == z.Keys;
    }
  }

  /** Members with consecutive ranks from `start` are all the members whose rank falls in that window. */
  lemma RangeComplete(z: ZSet, start: nat, ms: seq<string>, rev: bool)
    requires forall i :: 0 <= i < |ms| ==> ms[i] in z && Rank(z, ms[i], rev) == start + i
    ensures forall x :: x in z && start <= Rank(z, x, rev) < start + |ms| ==> x in ms
  {
    forall x | x in z && start <= Rank(z, x, rev) < start + |ms| ensures x in ms {
      RankInjective(z, x, ms[Rank(z, x, rev) - start], rev);
    }
  }

  /** Members that share one score are returned in lexicographic order (a BYLEX read). */
  lemma SameScoreIsLexOrder(z: ZSet, a: string, b: string)
    requires a in z && b in z && z[a] == z[b]
    requires Rank(z, a, false) < Rank(z, b, false)
    ensures LexLess(a, b)
  {
    RankOrder(z, a, b, false);
  }

  /** A reversed read returns higher scores first. */
  lemma ReversedIsDescendingScore(z: ZSet, a: string, b: string)
    requires a in z && b in z
    requires Rank(z, a, true) < Rank(z, b, true)
    ensures z[a] >= z[b]
  {
    RankOrder(z, a, b, true);
  }
}
