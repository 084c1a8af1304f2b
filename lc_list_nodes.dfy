// The singly linked list node shared by the LeetCode list problems.
module ListNodes {

  class ListNode {
    var val: int
    var next: ListNode?

    /** new ListNode: value 0 and no successor. */
    constructor ()
      ensures val == 0 && next == null
    {
      val := 0;
      next := null;
    }
  }

  predicate Distinct<T(==)>(s: seq<T>)
  {
    forall i, j :: 0 <= i < j < |s| ==> s[i] != s[j]
  }

  /** Appending a new element keeps a sequence without repetition. */
  lemma SnocDistinct<T>(s: seq<T>, x: T)
    requires Distinct(s) && x !in s
    ensures Distinct(s + [x])
  {
  }

  /** spine holds the nodes reached from head, in order: each node's next is the following one,
      the last one's next is null, and no node occurs twice. */
  ghost predicate IsList(head: ListNode?, spine: seq<ListNode>)
    reads spine
  {
    (if spine == [] then head == null else head == spine[0] && spine[|spine| - 1].next == null) &&
    (forall i :: 0 <= i < |spine| - 1 ==> spine[i].next == spine[i + 1]) &&
    Distinct(spine)
  }

  /** The values held by the nodes of spine. */
  ghost function Values(spine: seq<ListNode>): (vs: seq<int>)
    reads spine
    ensures |vs| == |spine|
    ensures forall i :: 0 <= i < |spine| ==> vs[i] == spine[i].val
  {
    seq(|spine|, i requires 0 <= i < |spine| reads spine => spine[i].val)
  }

  /** Sets the successor of node, the node at place i of spine; every other node of spine
      keeps the successor recorded for it in nexts. */
  method Link(node: ListNode, to: ListNode?, ghost spine: seq<ListNode>, ghost nexts: seq<ListNode?>, ghost i: nat)
    requires Distinct(spine) && i < |spine| == |nexts| && spine[i] == node
    requires forall j :: 0 <= j < |spine| ==> spine[j].next == nexts[j]
    modifies node`next
    ensures forall j :: 0 <= j < |spine| ==> spine[j].next == nexts[i := to][j]
  {
    node.next := to;
  }
}
