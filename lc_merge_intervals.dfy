// LeetCode 56: merge overlapping intervals. The intervals are sorted in place
// (lexicographically, as std::vector compares), then each run of intervals that overlap or
// touch the current one is folded into it.
module MergeIntervals {
  import opened Sorting

  /** An interval [lo, hi], as the two-element vector of the input. */
  datatype Interval = Interval(lo: int, hi: int)

  /** std::vector's lexicographic <= on [lo, hi]. */
  predicate LexLe(a: Interval, b: Interval)
  {
    a.lo < b.lo || (a.lo == b.lo && a.hi <= b.hi)
  }

  predicate WellFormed(s: seq<Interval>)
  {
    forall k :: 0 <= k < |s| ==> s[k].lo <= s[k].hi
  }

  /** iv contains the point x / 2. Halves are counted so that [1, 2] and [3, 4], which the
      program keeps apart, do not cover the same points as [1, 4]. */
  predicate Contains(iv: Interval, x: int)
  {
    2 * iv.lo <= x <= 2 * iv.hi
  }

  /** Some interval of s contains the point x / 2. */
  ghost predicate Covered(s: seq<Interval>, x: int)
  {
    exists iv :: iv in s && Contains(iv, x)
  }

  /** a and b cover the same points, halves included. */
  ghost predicate SameCover(a: seq<Interval>, b: seq<Interval>)
  {
    forall x :: Covered(a, x) <==> Covered(b, x)
  }

  /** Each interval ends before the next one starts: the intervals are sorted, disjoint and
      do not touch. */
  predicate Separated(s: seq<Interval>)
  {
    forall k :: 0 <= k < |s| - 1 ==> s[k].hi < s[k + 1].lo
  }

  /** merge: intervals is sorted in place; the result covers exactly the same points with
      separated intervals, which determines it (MergeIsUnique), and is no longer than the input. */
  method Merge(intervals: array<Interval>) returns (sol: seq<Interval>)
    requires WellFormed(intervals[..])
    modifies intervals
    ensures multiset(intervals[..]) == multiset(old(intervals[..]))
    ensures forall i, j :: 0 <= i < j < intervals.Length ==> LexLe(intervals[i], intervals[j])
    ensures WellFormed(sol) && Separated(sol)
    ensures SameCover(sol, old(intervals[..]))
    ensures |sol| <= intervals.Length
  {
    Sort(intervals, LexLe);
    CoverPermutation(old(intervals[..]), intervals[..]);
    sol := MergeSorted(intervals);
  }

  /** The scan over the sorted intervals. */
  method MergeSorted(intervals: array<Interval>) returns (sol: seq<Interval>)
    requires WellFormed(intervals[..])
    requires forall i, j :: 0 <= i < j < intervals.Length ==> LexLe(intervals[i], intervals[j])
    ensures WellFormed(sol) && Separated(sol)
    ensures SameCover(sol, intervals[..])
    ensures |sol| <= intervals.Length
  {
    ghost var s := intervals[..];
    var n := intervals.Length;
    sol := [];
    var i := 0;
    while i < n
      invariant 0 <= i <= n && |sol| <= i
      invariant WellFormed(sol) && Separated(sol) && SameCover(sol, s[..i])
      invariant sol != [] && i < n ==> sol[|sol| - 1].hi < s[i].lo
    {
      ghost var start := i;
      var interval := intervals[i];
      assert s[start..i + 1] == [interval];
      while i + 1 < n && interval.hi >= intervals[i + 1].lo
        invariant start <= i < n && interval.lo == s[start].lo <= interval.hi
        invariant SameCover([interval], s[start..i + 1])
      {
        var next := intervals[i + 1];
        FoldNext(s, start, i, interval);
        interval := Interval(
          if interval.lo > next.lo then next.lo else interval.lo,
          if interval.hi < next.hi then next.hi else interval.hi);
        i := i + 1;
      }
      AppendMerged(s, sol, start, i, interval);
      sol := sol + [interval];
      i := i + 1;
    }
    assert s[..n] == s;
  }

  /** Folding in the next interval, which starts inside the current one, extends the current
      one to cover exactly both. */
  lemma FoldNext(s: seq<Interval>, start: int, i: int, cur: Interval)
    requires WellFormed(s) && forall p, q :: 0 <= p < q < |s| ==> LexLe(s[p], s[q])
    requires 0 <= start <= i < |s| - 1 && cur.lo == s[start].lo <= cur.hi && cur.hi >= s[i + 1].lo
    requires SameCover([cur], s[start..i + 1])
    ensures var next := Interval(
        if cur.lo > s[i + 1].lo then s[i + 1].lo else cur.lo,
        if cur.hi < s[i + 1].hi then s[i + 1].hi else cur.hi);
      next.lo == s[start].lo <= next.hi && SameCover([next], s[start..i + 2])
  {
    var t := s[i + 1];
    assert LexLe(s[start], t);
    assert s[start..i + 2] == s[start..i + 1] + [t];
    var next := Interval(cur.lo, if cur.hi < t.hi then t.hi else cur.hi);
    forall x
      ensures Covered([next], x) <==> Covered(s[start..i + 2], x)
    {
      assert Covered([next], x) <==> Contains(next, x);
      assert Covered([cur], x) <==> Contains(cur, x);
      assert Covered(s[start..i + 2], x) <==> Covered(s[start..i + 1], x) || Contains(t, x);
    }
  }

  /** Closing the current interval: it starts after the previous output ends, and the output
      now covers what the input covers up to i + 1. */
  lemma AppendMerged(s: seq<Interval>, sol: seq<Interval>, start: int, i: int, cur: Interval)
    requires 0 <= start <= i < |s| && cur.lo == s[start].lo <= cur.hi
    requires SameCover([cur], s[start..i + 1])
    requires WellFormed(sol) && Separated(sol) && SameCover(sol, s[..start])
    requires sol != [] ==> sol[|sol| - 1].hi < s[start].lo
    ensures WellFormed(sol + [cur]) && Separated(sol + [cur])
    ensures SameCover(sol + [cur], s[..i + 1])
  {
    assert s[..i + 1] == s[..start] + s[start..i + 1];
    forall x
      ensures Covered(sol + [cur], x) <==> Covered(s[..i + 1], x)
    {
      assert Covered([cur], x) <==> Contains(cur, x);
      CoverConcat(sol, [cur], x);
      CoverConcat(s[..start], s[start..i + 1], x);
    }
  }

  lemma CoverConcat(a: seq<Interval>, b: seq<Interval>, x: int)
    ensures Covered(a + b, x) <==> Covered(a, x) || Covered(b, x)
  {
    if Covered(a + b, x) {
      var iv :| iv in a + b && Contains(iv, x);
    }
  }

  /** Sorting changes neither which integers are covered nor well-formedness. */
  lemma CoverPermutation(s: seq<Interval>, t: seq<Interval>)
    requires multiset(s) == multiset(t)
    ensures SameCover(s, t)
    ensures WellFormed(s) ==> WellFormed(t)
  {
    forall iv
      ensures iv in s <==> iv in t
    {
      assert iv in s <==> iv in multiset(s);
      assert iv in t <==> iv in multiset(t);
    }
    if WellFormed(s) {
      forall m | 0 <= m < |t|
        ensures t[m].lo <= t[m].hi
      {
        assert t[m] in s;
      }
    }
  }

  /** An output with separated, well-formed intervals is determined by the points it covers:
      each interval is one connected piece of the union, so any two such outputs with the same
      cover are equal. */
  lemma {:induction false} MergeIsUnique(a: seq<Interval>, b: seq<Interval>)
    requires WellFormed(a) && Separated(a) && WellFormed(b) && Separated(b)
    requires SameCover(a, b)
    ensures a == b
    decreases |a| + |b|
  {
    if a == [] || b == [] {
      if a != [] {
        assert Covered(a, 2 * a[0].lo) by { assert Contains(a[0], 2 * a[0].lo); }
      }
      if b != [] {
        assert Covered(b, 2 * b[0].lo) by { assert Contains(b[0], 2 * b[0].lo); }
      }
    } else {
      HeadIsFirst(a);
      HeadIsFirst(b);
      assert Covered(a, 2 * a[0].lo) by { assert Contains(a[0], 2 * a[0].lo); }
      assert Covered(b, 2 * b[0].lo) by { assert Contains(b[0], 2 * b[0].lo); }
      assert a[0].lo == b[0].lo;
      if a[0].hi < b[0].hi {
        assert Contains(b[0], 2 * a[0].hi + 1);
      } else if b[0].hi < a[0].hi {
        assert Contains(a[0], 2 * b[0].hi + 1);
      }
      assert a[0] == b[0];
      forall x
        ensures Covered(a[1..], x) <==> Covered(b[1..], x)
      {
        assert Covered(a[1..], x) <==> Covered(a, x) && x > 2 * a[0].hi;
        assert Covered(b[1..], x) <==> Covered(b, x) && x > 2 * b[0].hi;
      }
      MergeIsUnique(a[1..], b[1..]);
      assert a == [a[0]] + a[1..] && b == [b[0]] + b[1..];
    }
  }

  /** In a separated, well-formed sequence the first interval lies below everything else:
      no point before its start is covered, its end plus a half is not covered, and the rest
      covers exactly the covered points past its end. */
  lemma {:induction false} HeadIsFirst(a: seq<Interval>)
    requires WellFormed(a) && Separated(a) && a != []
    ensures forall x :: Covered(a, x) ==> 2 * a[0].lo <= x
    ensures !Covered(a, 2 * a[0].hi + 1)
    ensures forall x :: Covered(a[1..], x) <==> Covered(a, x) && x > 2 * a[0].hi
  {
    forall k | 0 < k < |a|
      ensures a[0].hi < a[k].lo
    {
      LaterStarts(a, k);
    }
    forall x | Covered(a, x)
      ensures 2 * a[0].lo <= x
    {
      var iv :| iv in a && Contains(iv, x);
    }
    forall x
      ensures Covered(a[1..], x) <==> Covered(a, x) && x > 2 * a[0].hi
    {
      assert a == [a[0]] + a[1..];
      CoverConcat([a[0]], a[1..], x);
      assert Covered([a[0]], x) <==> Contains(a[0], x);
      if Covered(a[1..], x) {
        var iv :| iv in a[1..] && Contains(iv, x);
      }
    }
  }

  /** Every later interval starts after the first one ends. */
  lemma {:induction false} LaterStarts(a: seq<Interval>, k: int)
    requires WellFormed(a) && Separated(a) && 0 < k < |a|
    ensures a[0].hi < a[k].lo
    decreases k
  {
    if k > 1 {
      LaterStarts(a, k - 1);
    }
  }

  /** [1, 2] and [3, 4] do not touch: the point 2.5 lies between them, so [1, 4] does not cover
      what they cover, and merge keeps them apart. */
  lemma GapKeepsApart()
    ensures !SameCover([Interval(1, 4)], [Interval(1, 2), Interval(3, 4)])
  {
    assert Contains(Interval(1, 4), 5);
    assert Covered([Interval(1, 4)], 5);
  }
}
