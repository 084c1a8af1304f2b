// LeetCode 24: swap every two adjacent nodes of a linked list by rewiring next pointers.
module SwapPairs {
  import opened ListNodes

  /** The index whose element lands at index i: the other member of i's pair, or i itself for
      an unpaired last element. */
  function Mate(i: nat, n: nat): nat
  {
    if i % 2 == 1 then i - 1 else if i + 1 < n then i + 1 else i
  }

  /** Elements 1 and 2, 3 and 4, ... change places; an odd last element stays. */
  function Swapped<T>(s: seq<T>): (t: seq<T>)
    ensures |t| == |s|
    decreases |s|
  {
    if |s| < 2 then s else [s[1], s[0]] + Swapped(s[2..])
  }

  /** Where every element ends up. */
  lemma {:induction false} SwappedAt<T>(s: seq<T>)
    ensures forall i :: 0 <= i < |s| ==> Swapped(s)[i] == s[Mate(i, |s|)]
    decreases |s|
  {
    if |s| >= 2 {
      var rest := s[2..];
      SwappedAt(rest);
      forall i | 2 <= i < |s|
        ensures Swapped(s)[i] == s[Mate(i, |s|)]
      {
        assert Swapped(s)[i] == Swapped(rest)[i - 2];
        assert Mate(i - 2, |rest|) + 2 == Mate(i, |s|);
      }
    }
  }

  /** Swapping twice restores the order. */
  lemma {:induction false} SwappedTwice<T>(s: seq<T>)
    ensures Swapped(Swapped(s)) == s
    decreases |s|
  {
    if |s| >= 2 {
      SwappedTwice(s[2..]);
      var t := Swapped(s);
      assert t[2..] == Swapped(s[2..]);
    }
  }

  /** The new next of spine[j] once the first m pairs are swapped. */
  function Succ(spine: seq<ListNode>, m: nat, j: nat): ListNode?
    requires 2 * m <= |spine| && j < |spine|
  {
    if j >= 2 * m then (if j + 1 < |spine| then spine[j + 1] else null)
    else if j % 2 == 1 then spine[j - 1]
    else if j + 2 < 2 * m then spine[j + 3]
    else if j + 2 < |spine| then spine[j + 2]
    else null
  }

  /** swapPairs: current walks the first node of each pair; prev is the first node of the
      previous pair, whose next is redirected to the new front of the current pair. */
  method SwapPairs(head: ListNode?, ghost spine: seq<ListNode>) returns (result: ListNode?)
    requires IsList(head, spine)
    modifies spine`next
    ensures IsList(result, Swapped(spine))
  {
    result := head;
    var current: ListNode? := head;
    var prev: ListNode? := null;
    ghost var m: nat := 0;
    ghost var n := |spine|;
    while current != null && current.next != null
      invariant 2 * m <= n
      invariant current == if 2 * m < n then spine[2 * m] else null
      invariant m > 0 ==> prev == spine[2 * m - 2]
      invariant m == 0 ==> result == head
      invariant m > 0 ==> result == spine[1]
      invariant Distinct(spine)
      invariant forall j {:trigger spine[j].next} :: 0 <= j < n ==> spine[j].next == Succ(spine, m, j)
      decreases n - 2 * m
    {
      var next := current.next;
      assert next == spine[2 * m + 1];
      result := SwapPair(prev, current, next, result, spine, m);
      prev := current;
      current := current.next;
      m := m + 1;
    }
    SwappedList(spine, m);
  }

  /** One round of the loop: the pair current, next changes places; the front of the list
      becomes next on the first round, and otherwise prev is linked to next. */
  method SwapPair(prev: ListNode?, current: ListNode, next: ListNode, result: ListNode?,
                  ghost spine: seq<ListNode>, ghost m: nat) returns (front: ListNode?)
    requires Distinct(spine) && 2 * m + 2 <= |spine|
    requires current == spine[2 * m] && next == spine[2 * m + 1]
    requires m > 0 ==> prev == spine[2 * m - 2]
    requires m == 0 ==> result == current
    requires m > 0 ==> result == spine[1]
    requires forall j {:trigger spine[j].next} :: 0 <= j < |spine| ==> spine[j].next == Succ(spine, m, j)
    modifies spine`next
    ensures front == spine[1]
    ensures current.next == if 2 * m + 2 < |spine| then spine[2 * m + 2] else null
    ensures forall j {:trigger spine[j].next} :: 0 <= j < |spine| ==> spine[j].next == Succ(spine, m + 1, j)
  {
    ghost var n := |spine|;
    ghost var nx := seq(n, j requires 0 <= j < n => Succ(spine, m, j));
    front := result;
    Link(current, next.next, spine, nx, 2 * m);
    nx := nx[2 * m := nx[2 * m + 1]];
    Link(next, current, spine, nx, 2 * m + 1);
    nx := nx[2 * m + 1 := current];
    if current == result {
      front := next;
    } else {
      Link(prev, next, spine, nx, 2 * m - 2);
      nx := nx[2 * m - 2 := next];
    }
    forall j | 0 <= j < n
      ensures nx[j] == Succ(spine, m + 1, j)
    {
      SuccStep(spine, m, j);
    }
    SuccStep(spine, m, 2 * m);
  }

  /** Swapping pair m changes the successors of its two nodes and of the first node of the
      pair before it, and of no other node. */
  lemma SuccStep(spine: seq<ListNode>, m: nat, j: nat)
    requires 2 * m + 2 <= |spine| && j < |spine|
    ensures j == 2 * m ==> Succ(spine, m + 1, j) == if 2 * m + 2 < |spine| then spine[2 * m + 2] else null
    ensures j == 2 * m + 1 ==> Succ(spine, m + 1, j) == spine[2 * m]
    ensures m > 0 && j == 2 * m - 2 ==> Succ(spine, m + 1, j) == spine[2 * m + 1]
    ensures j != 2 * m && j != 2 * m + 1 && (m == 0 || j != 2 * m - 2) ==>
      Succ(spine, m + 1, j) == Succ(spine, m, j)
  {
  }

  /** With every pair swapped, the successor of the node at place i is the node at place
      i + 1, and the last node has none. */
  lemma SuccDone(spine: seq<ListNode>, m: nat, i: nat)
    requires 2 * m <= |spine| <= 2 * m + 1 && i < |spine|
    ensures Mate(i, |spine|) < |spine|
    ensures i + 1 < |spine| ==> Mate(i + 1, |spine|) < |spine|
    ensures i + 1 < |spine| ==> Succ(spine, m, Mate(i, |spine|)) == spine[Mate(i + 1, |spine|)]
    ensures i + 1 == |spine| ==> Succ(spine, m, Mate(i, |spine|)) == null
  {
  }

  /** Once every pair is swapped, the nodes form the swapped list. */
  lemma {:induction false} SwappedList(spine: seq<ListNode>, m: nat)
    requires Distinct(spine) && 2 * m <= |spine| <= 2 * m + 1
    requires forall j {:trigger spine[j].next} :: 0 <= j < |spine| ==> spine[j].next == Succ(spine, m, j)
    ensures IsList(if spine == [] then null else spine[Mate(0, |spine|)], Swapped(spine))
  {
    var n, t := |spine|, Swapped(spine);
    SwappedAt(spine);
    forall i | 0 <= i < n - 1
      ensures t[i].next == t[i + 1]
    {
      SuccDone(spine, m, i);
      assert t[i] == spine[Mate(i, n)] && t[i + 1] == spine[Mate(i + 1, n)];
    }
    if n > 0 {
      SuccDone(spine, m, n - 1);
      assert t[n - 1] == spine[Mate(n - 1, n)];
    }
    SwappedDistinct(spine);
  }

  /** Swapping keeps distinct elements distinct. */
  lemma {:induction false} SwappedDistinct<T>(s: seq<T>)
    requires Distinct(s)
    ensures Distinct(Swapped(s))
  {
    var n, t := |s|, Swapped(s);
    SwappedAt(s);
    forall i, j | 0 <= i < j < n
      ensures t[i] != t[j]
    {
      assert t[i] == s[Mate(i, n)] && t[j] == s[Mate(j, n)];
    }
  }

  /** The values are swapped the same way. */
  lemma {:induction false} SwappedValues(spine: seq<ListNode>)
    ensures Values(Swapped(spine)) == Swapped(Values(spine))
    decreases |spine|
  {
    if |spine| >= 2 {
      SwappedValues(spine[2..]);
      assert Values(spine)[2..] == Values(spine[2..]);
    }
  }
}
