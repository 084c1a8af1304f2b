// LeetCode 61: rotate a linked list to the right by k places by closing it into a ring and
// cutting it open again.
module RotateList {
  import opened ListNodes

  /** The last r elements moved to the front, the others behind them in their order. */
  function Rotated<T>(s: seq<T>, r: nat): (t: seq<T>)
    requires r <= |s|
    ensures |t| == |s|
    ensures forall i :: 0 <= i < r ==> t[i] == s[|s| - r + i]
    ensures forall i :: r <= i < |s| ==> t[i] == s[i - r]
  {
    s[|s| - r..] + s[..|s| - r]
  }

  /** rotateRight: count the nodes while walking to the tail, reduce k modulo the count, walk to
      the node that becomes the new tail, close the ring and cut it behind that node. */
  method RotateRight(head: ListNode?, k: int, ghost spine: seq<ListNode>) returns (result: ListNode?)
    requires IsList(head, spine) && k >= 0
    modifies spine`next
    ensures spine == [] ==> result == null
    ensures spine != [] ==> IsList(result, Rotated(spine, k % |spine|))
  {
    if head == null {
      return head;
    }
    var nNode := 0;
    var tail := head;
    while tail.next != null
      invariant 0 <= nNode < |spine| && tail == spine[nNode]
      invariant tail.next == if nNode + 1 < |spine| then spine[nNode + 1] else null
      decreases |spine| - nNode
    {
      nNode := nNode + 1;
      tail := tail.next;
    }
    nNode := nNode + 1;
    ghost var n := |spine|;
    assert nNode == n;
    var r := k % nNode;
    var current := head;
    for i := 0 to nNode - r - 1
      invariant current == spine[i]
    {
      current := current.next;
    }
    tail.next := head;
    result := current.next;
    current.next := null;
    forall j | 0 <= j < n
      ensures spine[j].next == Successor(spine, r, j)
    {
      if j != n - 1 && j != n - r - 1 {
        assert spine[j] != tail && spine[j] != current;
      }
    }
    RotatedIsList(spine, r);
  }

  /** The new next of spine[j] once the ring is cut r places before the end. */
  function Successor(spine: seq<ListNode>, r: nat, j: nat): ListNode?
    requires r < |spine| && j < |spine|
  {
    if j == |spine| - r - 1 then null
    else if j == |spine| - 1 then spine[0]
    else spine[j + 1]
  }

  /** Nodes linked that way form the rotated list. */
  lemma RotatedIsList(spine: seq<ListNode>, r: nat)
    requires Distinct(spine) && r < |spine|
    requires forall j :: 0 <= j < |spine| ==> spine[j].next == Successor(spine, r, j)
    ensures IsList(Rotated(spine, r)[0], Rotated(spine, r))
  {
    var n, t := |spine|, Rotated(spine, r);
    forall i | 0 <= i < n - 1
      ensures t[i].next == t[i + 1]
    {
      if i < r {
        assert t[i] == spine[n - r + i];
      } else {
        assert t[i] == spine[i - r];
      }
    }
    assert t[n - 1] == spine[n - r - 1];
    RotatedDistinct(spine, r);
  }

  /** Rotation only reorders: no element is repeated that was not repeated before. */
  lemma RotatedDistinct<T>(s: seq<T>, r: nat)
    requires Distinct(s) && r <= |s|
    ensures Distinct(Rotated(s, r))
  {
    var n, t := |s|, Rotated(s, r);
    forall i, j | 0 <= i < j < n
      ensures t[i] != t[j]
    {
      var pi := if i < r then n - r + i else i - r;
      var pj := if j < r then n - r + j else j - r;
      assert t[i] == s[pi] && t[j] == s[pj] && pi != pj;
    }
  }

  /** The values move along with their nodes. */
  lemma RotatedValues(spine: seq<ListNode>, r: nat)
    requires r <= |spine|
    ensures Values(Rotated(spine, r)) == Rotated(Values(spine), r)
  {
  }

  /** Rotating by the length, or by zero, changes nothing, and rotating by r then by the rest
      of the length gives back the list. */
  lemma RotateBack<T>(s: seq<T>, r: nat)
    requires r <= |s|
    ensures Rotated(s, 0) == s && Rotated(s, |s|) == s
    ensures Rotated(Rotated(s, r), |s| - r) == s
  {
    assert s[|s|..] + s[..|s|] == s;
    assert s[0..] + s[..0] == s;
  }
}
