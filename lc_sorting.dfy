// std::sort as used by the LeetCode solutions that sort before scanning: an in-place
// comparison sort under a caller-supplied total preorder.
module Sorting {

  /** le is total and transitive, as std::sort demands of its ordering. */
  ghost predicate TotalPreorder<T(!new)>(le: (T, T) -> bool)
  {
    (forall x, y :: le(x, y) || le(y, x)) &&
    (forall x, y, z :: le(x, y) && le(y, z) ==> le(x, z))
  }

  ghost predicate SortedBy<T>(s: seq<T>, le: (T, T) -> bool)
  {
    forall i, j :: 0 <= i < j < |s| ==> le(s[i], s[j])
  }

  /** s[..i + 1] is ordered except that the element at j is still being moved left. */
  ghost predicate SortedBut<T>(s: seq<T>, i: int, j: int, le: (T, T) -> bool)
    requires 0 <= j <= i < |s|
  {
    forall p, q :: 0 <= p < q <= i && q != j ==> le(s[p], s[q])
  }

  function Swap<T>(s: seq<T>, k: int): (t: seq<T>)
    requires 0 <= k < |s| - 1
    ensures |t| == |s| && multiset(t) == multiset(s)
    ensures t[k] == s[k + 1] && t[k + 1] == s[k]
    ensures forall m :: 0 <= m < |s| && m != k && m != k + 1 ==> t[m] == s[m]
  {
    s[k := s[k + 1]][k + 1 := s[k]]
  }

  /** Sorts a in place: afterwards a is ordered by le and holds the same elements. */
  method Sort<T(!new)>(a: array<T>, le: (T, T) -> bool)
    requires TotalPreorder(le)
    modifies a
    ensures SortedBy(a[..], le)
    ensures multiset(a[..]) == multiset(old(a[..]))
  {
    for i := 0 to a.Length
      invariant SortedBy(a[..i], le)
      invariant multiset(a[..]) == multiset(old(a[..]))
    {
      var j := i;
      StartInsert(a[..], i, le);
      while j > 0 && !le(a[j - 1], a[j])
        invariant 0 <= j <= i
        invariant multiset(a[..]) == multiset(old(a[..]))
        invariant SortedBut(a[..], i, j, le)
      {
        ghost var s := a[..];
        a[j - 1], a[j] := a[j], a[j - 1];
        assert a[..] == Swap(s, j - 1);
        SwapLeft(s, i, j, le);
        j := j - 1;
      }
      EndInsert(a[..], i, j, le);
    }
  }

  lemma StartInsert<T>(s: seq<T>, i: int, le: (T, T) -> bool)
    requires 0 <= i < |s| && SortedBy(s[..i], le)
    ensures SortedBut(s, i, i, le)
  {
    forall p, q | 0 <= p < q <= i && q != i
      ensures le(s[p], s[q])
    {
      assert s[..i][p] == s[p] && s[..i][q] == s[q];
    }
  }

  /** Swapping the moving element past a larger neighbour keeps the rest ordered. */
  lemma SwapLeft<T(!new)>(s: seq<T>, i: int, j: int, le: (T, T) -> bool)
    requires TotalPreorder(le)
    requires 0 < j <= i < |s| && SortedBut(s, i, j, le) && !le(s[j - 1], s[j])
    ensures SortedBut(Swap(s, j - 1), i, j - 1, le)
  {
    var t := Swap(s, j - 1);
    assert le(s[j], s[j - 1]);
    forall p, q | 0 <= p < q <= i && q != j - 1
      ensures le(t[p], t[q])
    {
      if q == j {
        if p < j - 1 {
          assert le(s[p], s[j - 1]);
        }
      } else if p == j {
        assert le(s[j - 1], s[q]);
      } else if p == j - 1 {
        assert le(s[j], s[q]);
      } else {
        assert le(s[p], s[q]);
      }
    }
  }

  /** Once the moving element sits after a smaller-or-equal neighbour, s[..i + 1] is sorted. */
  lemma EndInsert<T(!new)>(s: seq<T>, i: int, j: int, le: (T, T) -> bool)
    requires TotalPreorder(le)
    requires 0 <= j <= i < |s| && SortedBut(s, i, j, le) && (j == 0 || le(s[j - 1], s[j]))
    ensures SortedBy(s[..i + 1], le)
  {
    forall p, q | 0 <= p < q <= i
      ensures le(s[p], s[q])
    {
      if q == j && p < j - 1 {
        assert le(s[p], s[j - 1]);
      }
    }
    assert forall p, q :: 0 <= p < q < i + 1 ==> s[..i + 1][p] == s[p] && s[..i + 1][q] == s[q];
  }
}
