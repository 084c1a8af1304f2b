// LeetCode 23: merge k ascending linked lists into one ascending list by merging the two
// halves of the vector recursively; the lists are merged by relinking their own nodes.
module MergeKLists {
  import opened ListNodes

  /** Ascending by key. */
  predicate Sorted<T>(a: seq<T>, key: T -> int)
  {
    forall i, j :: 0 <= i < j < |a| ==> key(a[i]) <= key(a[j])
  }

  /** mergeTwoLists on the sequences of nodes: the smaller head goes first, and on equal keys
      the head of b does; once one side is used up, the rest of the other follows unchanged. */
  function Merge<T>(a: seq<T>, b: seq<T>, key: T -> int): seq<T>
    decreases |a| + |b|
  {
    if a == [] then b
    else if b == [] then a
    else if key(a[0]) < key(b[0]) then [a[0]] + Merge(a[1..], b, key)
    else [b[0]] + Merge(a, b[1..], key)
  }

  /** Merging keeps exactly the elements of both sides, each as often as it occurs. */
  lemma {:induction false} MergeMultiset<T>(a: seq<T>, b: seq<T>, key: T -> int)
    ensures multiset(Merge(a, b, key)) == multiset(a) + multiset(b)
    decreases |a| + |b|
  {
    if a != [] && b != [] {
      if key(a[0]) < key(b[0]) {
        MergeMultiset(a[1..], b, key);
        ConsMultiset(a, Merge(a[1..], b, key), b);
      } else {
        MergeMultiset(a, b[1..], key);
        ConsMultiset(b, Merge(a, b[1..], key), a);
      }
    }
  }

  /** Putting the head of a back in front keeps the count of every element. */
  lemma ConsMultiset<T>(a: seq<T>, r: seq<T>, b: seq<T>)
    requires a != [] && multiset(r) == multiset(a[1..]) + multiset(b)
    ensures multiset([a[0]] + r) == multiset(a) + multiset(b)
  {
    assert a == [a[0]] + a[1..];
  }

  /** Merging keeps exactly the elements of both sides. */
  lemma {:induction false} MergeMembers<T>(a: seq<T>, b: seq<T>, key: T -> int, x: T)
    ensures x in Merge(a, b, key) <==> x in a || x in b
  {
    MergeMultiset(a, b, key);
    assert x in Merge(a, b, key) <==> x in multiset(Merge(a, b, key));
  }

  /** Putting x in front of an ascending sequence whose keys are all at least key(x). */
  lemma ConsSorted<T>(x: T, r: seq<T>, key: T -> int)
    requires Sorted(r, key)
    requires forall y :: y in r ==> key(x) <= key(y)
    ensures Sorted([x] + r, key)
  {
    var s := [x] + r;
    forall i, j | 0 <= i < j < |s|
      ensures key(s[i]) <= key(s[j])
    {
      assert s[j] == r[j - 1];
      if i > 0 {
        assert s[i] == r[i - 1];
      }
    }
  }

  /** Merging ascending sequences gives an ascending sequence. */
  lemma {:induction false} MergeSorted<T>(a: seq<T>, b: seq<T>, key: T -> int)
    requires Sorted(a, key) && Sorted(b, key)
    ensures Sorted(Merge(a, b, key), key)
    decreases |a| + |b|
  {
    if a != [] && b != [] {
      if key(a[0]) < key(b[0]) {
        var r := Merge(a[1..], b, key);
        MergeSorted(a[1..], b, key);
        forall y | y in r
          ensures key(a[0]) <= key(y)
        {
          MergeMembers(a[1..], b, key, y);
          if y in b {
            var j :| 0 <= j < |b| && b[j] == y;
            assert key(b[0]) <= key(b[j]) || j == 0;
          } else {
            var j :| 0 <= j < |a| - 1 && a[1..][j] == y;
            assert y == a[j + 1];
          }
        }
        ConsSorted(a[0], r, key);
      } else {
        var r := Merge(a, b[1..], key);
        MergeSorted(a, b[1..], key);
        forall y | y in r
          ensures key(b[0]) <= key(y)
        {
          MergeMembers(a, b[1..], key, y);
          if y in a {
            var j :| 0 <= j < |a| && a[j] == y;
            assert key(a[0]) <= key(a[j]) || j == 0;
          } else {
            var j :| 0 <= j < |b| - 1 && b[1..][j] == y;
            assert y == b[j + 1];
          }
        }
        ConsSorted(b[0], r, key);
      }
    }
  }

  /** On equal keys the node of the second list comes first: an element of a is placed in
      front of an element of b only when its key is strictly smaller. */
  lemma {:induction false} TiesTakeSecond<T>(a: seq<T>, b: seq<T>, key: T -> int)
    requires Sorted(b, key)
    requires forall x :: x in a ==> x !in b
    ensures var r := Merge(a, b, key);
      forall i, j :: 0 <= i < j < |r| && r[i] in a && r[j] in b ==> key(r[i]) < key(r[j])
    decreases |a| + |b|
  {
    var r := Merge(a, b, key);
    if a != [] && b != [] {
      if key(a[0]) < key(b[0]) {
        var r' := Merge(a[1..], b, key);
        TiesTakeSecond(a[1..], b, key);
        assert r == [a[0]] + r';
        forall i, j | 0 <= i < j < |r| && r[i] in a && r[j] in b
          ensures key(r[i]) < key(r[j])
        {
          var y := r[j];
          var jb :| 0 <= jb < |b| && b[jb] == y;
          assert key(b[0]) <= key(b[jb]) || jb == 0;
          if i > 0 {
            MergeMembers(a[1..], b, key, r[i]);
            assert r[i] == r'[i - 1] && r[j] == r'[j - 1];
          }
        }
      } else {
        var r' := Merge(a, b[1..], key);
        TiesTakeSecond(a, b[1..], key);
        assert r == [b[0]] + r';
        assert r[0] in b;
        forall i, j | 0 <= i < j < |r| && r[i] in a && r[j] in b
          ensures key(r[i]) < key(r[j])
        {
          MergeMembers(a, b[1..], key, r[j]);
          assert r[i] == r'[i - 1] && r[j] == r'[j - 1];
        }
      }
    }
  }

  /** The node at place i of s, or null one past the end. */
  function At(s: seq<ListNode>, i: int): ListNode?
    requires 0 <= i <= |s|
  {
    if i < |s| then s[i] else null
  }

  /** The state of mergeTwoLists after i1 nodes of s1 and i2 nodes of s2 have been linked:
      fr is the dummy node followed by the linked nodes, each linking to the next; the nodes
      not yet taken still link as in their own lists. */
  ghost predicate Woven(fr: seq<ListNode>, s1: seq<ListNode>, i1: int, s2: seq<ListNode>, i2: int)
    reads fr, s1, s2
  {
    0 <= i1 <= |s1| && 0 <= i2 <= |s2| && |fr| == i1 + i2 + 1 &&
    Distinct(fr) && Distinct(s1) && Distinct(s2) &&
    (forall x :: x in s1 ==> x !in s2) && fr[0] !in s1 && fr[0] !in s2 &&
    (forall j :: 1 <= j < |fr| ==> fr[j] in s1[..i1] || fr[j] in s2[..i2]) &&
    (forall j {:trigger fr[j].next} :: 0 <= j < |fr| - 1 ==> fr[j].next == fr[j + 1]) &&
    (forall j {:trigger s1[j].next} :: i1 <= j < |s1| ==> s1[j].next == At(s1, j + 1)) &&
    (forall j {:trigger s2[j].next} :: i2 <= j < |s2| ==> s2[j].next == At(s2, j + 1))
  }

  /** current->next = l1: the next node of s1 is linked behind the last linked node. */
  method TakeFirst(current: ListNode, l1: ListNode, ghost fr: seq<ListNode>, ghost s1: seq<ListNode>, ghost i1: int,
                   ghost s2: seq<ListNode>, ghost i2: int)
    requires Woven(fr, s1, i1, s2, i2) && i1 < |s1| && l1 == s1[i1] && current == fr[|fr| - 1]
    modifies current`next
    ensures Woven(fr + [l1], s1, i1 + 1, s2, i2)
    ensures current.next == l1 && l1.next == At(s1, i1 + 1)
  {
    Fresh(fr, s1, i1, s2, i2);
    current.next := l1;
    assert s1[..i1 + 1] == s1[..i1] + [s1[i1]];
    SnocDistinct(fr, l1);
  }

  /** In the state Woven describes, the nodes not yet taken are not among the linked ones. */
  lemma Fresh(fr: seq<ListNode>, s1: seq<ListNode>, i1: int, s2: seq<ListNode>, i2: int)
    requires Woven(fr, s1, i1, s2, i2)
    ensures forall j :: i1 <= j < |s1| ==> s1[j] !in fr
    ensures forall j :: i2 <= j < |s2| ==> s2[j] !in fr
  {
    forall j, t | i1 <= j < |s1| && 0 <= t < |fr|
      ensures s1[j] != fr[t]
    {
      assert s1[j] in s1;
      if t > 0 && fr[t] in s1[..i1] {
        var u :| 0 <= u < i1 && s1[..i1][u] == fr[t];
        assert s1[u] == fr[t];
      } else if t > 0 {
        var u :| 0 <= u < i2 && s2[..i2][u] == fr[t];
        assert s2[u] in s2;
      }
    }
    forall j, t | i2 <= j < |s2| && 0 <= t < |fr|
      ensures s2[j] != fr[t]
    {
      assert s2[j] in s2;
      if t > 0 && fr[t] in s2[..i2] {
        var u :| 0 <= u < i2 && s2[..i2][u] == fr[t];
        assert s2[u] == fr[t];
      } else if t > 0 {
        var u :| 0 <= u < i1 && s1[..i1][u] == fr[t];
        assert s1[u] in s1;
      }
    }
  }

  /** Woven does not depend on which list is called the first. */
  lemma WovenSwap(fr: seq<ListNode>, s1: seq<ListNode>, i1: int, s2: seq<ListNode>, i2: int)
    requires Woven(fr, s1, i1, s2, i2)
    ensures Woven(fr, s2, i2, s1, i1)
  {
  }

  /** One step of the merge: the smaller head, or on a tie the head of the second list. */
  lemma MergeStep<T>(a: seq<T>, i: int, b: seq<T>, k: int, key: T -> int)
    requires 0 <= i < |a| && 0 <= k < |b|
    ensures key(a[i]) < key(b[k]) ==> Merge(a[i..], b[k..], key) == [a[i]] + Merge(a[i + 1..], b[k..], key)
    ensures key(a[i]) >= key(b[k]) ==> Merge(a[i..], b[k..], key) == [b[k]] + Merge(a[i..], b[k + 1..], key)
  {
    assert a[i..][1..] == a[i + 1..] && b[k..][1..] == b[k + 1..];
  }

  /** Linking the first node of what is left to merge moves it to the linked part. */
  lemma Consumed(fr: seq<ListNode>, x: ListNode, rest: seq<ListNode>, merged: seq<ListNode>)
    requires |fr| >= 1 && fr[1..] + ([x] + rest) == merged
    ensures (fr + [x])[1..] + rest == merged
  {
    assert (fr + [x])[1..] == fr[1..] + [x];
  }

  /** mergeTwoLists: behind a dummy node, each round links the head with the smaller value,
      or the head of l2 on equal values, and moves that list on; then the rest of the list that
      is left is linked as it is. The dummy node is dropped, so only input nodes remain. */
  method MergeTwoLists(l1: ListNode?, l2: ListNode?, ghost s1: seq<ListNode>, ghost s2: seq<ListNode>,
                       ghost key: ListNode -> int) returns (result: ListNode?, ghost rs: seq<ListNode>)
    requires IsList(l1, s1) && IsList(l2, s2)
    requires forall x :: x in s1 ==> x !in s2
    requires Keyed(s1, key) && Keyed(s2, key)
    modifies s1`next, s2`next
    ensures rs == Merge(s1, s2, key) && IsList(result, rs)
  {
    var dummy := new ListNode();
    WovenStart(dummy, l1, l2, s1, s2);
    var current, p1, p2, fr, i1, i2 := Weave(dummy, l1, l2, s1, s2, key);
    rs := Finish(current, p1, p2, fr, s1, i1, s2, i2, key);
    result := dummy.next;
  }

  /** Before the loop only the dummy node is linked and both lists are untouched. */
  lemma WovenStart(dummy: ListNode, l1: ListNode?, l2: ListNode?, s1: seq<ListNode>, s2: seq<ListNode>)
    requires IsList(l1, s1) && IsList(l2, s2)
    requires forall x :: x in s1 ==> x !in s2
    requires dummy !in s1 && dummy !in s2
    ensures Woven([dummy], s1, 0, s2, 0) && l1 == At(s1, 0) && l2 == At(s2, 0)
  {
  }

  /** The loop of mergeTwoLists: while both lists have nodes, the smaller head is linked. */
  method Weave(dummy: ListNode, l1: ListNode?, l2: ListNode?, ghost s1: seq<ListNode>, ghost s2: seq<ListNode>,
               ghost key: ListNode -> int)
      returns (current: ListNode, p1: ListNode?, p2: ListNode?, ghost fr: seq<ListNode>, ghost i1: int, ghost i2: int)
    requires Woven([dummy], s1, 0, s2, 0) && l1 == At(s1, 0) && l2 == At(s2, 0)
    requires Keyed(s1, key) && Keyed(s2, key)
    modifies dummy`next, s1`next, s2`next
    ensures Woven(fr, s1, i1, s2, i2) && fr[0] == dummy && current == fr[|fr| - 1]
    ensures current == dummy || current in s1 || current in s2
    ensures p1 == At(s1, i1) && p2 == At(s2, i2) && (p1 == null || p2 == null)
    ensures fr[1..] + Merge(s1[i1..], s2[i2..], key) == Merge(s1, s2, key)
  {
    current, p1, p2 := dummy, l1, l2;
    i1, i2 := 0, 0;
    fr := [dummy];
    ghost var merged := Merge(s1, s2, key);
    assert s1[0..] == s1 && s2[0..] == s2;
    while p1 != null && p2 != null
      invariant 0 <= i1 <= |s1| && 0 <= i2 <= |s2| && |fr| == i1 + i2 + 1
      invariant Woven(fr, s1, i1, s2, i2) && fr[0] == dummy && current == fr[|fr| - 1]
      invariant current == dummy || current in s1 || current in s2
      invariant p1 == At(s1, i1) && p2 == At(s2, i2)
      invariant fr[1..] + Merge(s1[i1..], s2[i2..], key) == merged
      decreases |s1| - i1 + |s2| - i2
    {
      current, p1, p2, fr, i1, i2 := Round(current, p1, p2, fr, s1, i1, s2, i2, key, merged);
    }
  }

  /** current->next = l1 ? l1 : l2: the rest of the list that is left over is linked behind. */
  method Finish(current: ListNode, p1: ListNode?, p2: ListNode?, ghost fr: seq<ListNode>,
                ghost s1: seq<ListNode>, ghost i1: int, ghost s2: seq<ListNode>, ghost i2: int,
                ghost key: ListNode -> int) returns (ghost rs: seq<ListNode>)
    requires Woven(fr, s1, i1, s2, i2) && current == fr[|fr| - 1]
    requires p1 == At(s1, i1) && p2 == At(s2, i2) && (p1 == null || p2 == null)
    modifies current`next
    ensures rs == fr[1..] + Merge(s1[i1..], s2[i2..], key) && IsList(fr[0].next, rs)
  {
    if p1 == null {
      WovenSwap(fr, s1, i1, s2, i2);
      Close(current, p2, fr, s2, i2, s1, i1);
      assert Merge(s1[i1..], s2[i2..], key) == s2[i2..];
      rs := fr[1..] + s2[i2..];
    } else {
      Close(current, p1, fr, s1, i1, s2, i2);
      assert Merge(s1[i1..], s2[i2..], key) == s1[i1..];
      rs := fr[1..] + s1[i1..];
    }
  }


  /** One round of mergeTwoLists: the head with the smaller value, or the head of l2 on equal
      values, is linked behind current, its list moves on, and it becomes current. */
  method Round(current: ListNode, l1: ListNode, l2: ListNode, ghost fr: seq<ListNode>,
               ghost s1: seq<ListNode>, ghost i1: int, ghost s2: seq<ListNode>, ghost i2: int,
               ghost key: ListNode -> int, ghost merged: seq<ListNode>)
      returns (last: ListNode, p1: ListNode?, p2: ListNode?, ghost fr': seq<ListNode>, ghost j1: int, ghost j2: int)
    requires Woven(fr, s1, i1, s2, i2) && current == fr[|fr| - 1]
    requires i1 < |s1| && l1 == s1[i1] && i2 < |s2| && l2 == s2[i2]
    requires key(l1) == l1.val && key(l2) == l2.val
    requires fr[1..] + Merge(s1[i1..], s2[i2..], key) == merged
    modifies current`next
    ensures Woven(fr', s1, j1, s2, j2) && last == fr'[|fr'| - 1] && fr'[0] == fr[0]
    ensures last in s1 || last in s2
    ensures p1 == At(s1, j1) && p2 == At(s2, j2)
    ensures fr'[1..] + Merge(s1[j1..], s2[j2..], key) == merged
    ensures i1 <= j1 <= |s1| && i2 <= j2 <= |s2| && j1 + j2 == i1 + i2 + 1 && |fr'| == |fr| + 1
  {
    p1, p2, fr', j1, j2 := l1, l2, fr, i1, i2;
    last := current;
    MergeStep(s1, i1, s2, i2, key);
    if l1.val < l2.val {
      TakeFirst(current, l1, fr, s1, i1, s2, i2);
      p1 := l1.next;
      Consumed(fr, s1[i1], Merge(s1[i1 + 1..], s2[i2..], key), merged);
      fr', j1 := fr + [s1[i1]], i1 + 1;
    } else {
      WovenSwap(fr, s1, i1, s2, i2);
      TakeFirst(current, l2, fr, s2, i2, s1, i1);
      WovenSwap(fr + [s2[i2]], s2, i2 + 1, s1, i1);
      p2 := l2.next;
      Consumed(fr, s2[i2], Merge(s1[i1..], s2[i2 + 1..], key), merged);
      fr', j2 := fr + [s2[i2]], i2 + 1;
    }
    last := current.next;
  }

  /** current->next = l1 ? l1 : l2, once s2 is used up: the rest of s1 is linked as it is,
      and behind the dummy node stand the linked nodes followed by that rest. */
  method Close(current: ListNode, l1: ListNode?, ghost fr: seq<ListNode>, ghost s1: seq<ListNode>, ghost i1: int,
               ghost s2: seq<ListNode>, ghost i2: int)
    requires Woven(fr, s1, i1, s2, i2) && i2 == |s2| && l1 == At(s1, i1) && current == fr[|fr| - 1]
    modifies current`next
    ensures IsList(fr[0].next, fr[1..] + s1[i1..])
  {
    Fresh(fr, s1, i1, s2, i2);
    current.next := l1;
    var rs := fr[1..] + s1[i1..];
    forall j | 0 <= j < |rs| - 1
      ensures rs[j].next == rs[j + 1]
    {
      if j + 1 < |fr| - 1 {
        assert rs[j] == fr[j + 1] && rs[j + 1] == fr[j + 2];
      } else if j + 1 == |fr| - 1 {
        assert rs[j] == current && rs[j + 1] == s1[i1];
      } else {
        assert rs[j] == s1[i1 + j + 1 - |fr| + 1 - 1];
      }
    }
    assert Distinct(rs) by {
      forall a, b | 0 <= a < b < |rs|
        ensures rs[a] != rs[b]
      {
        if b < |fr| - 1 {
          assert rs[a] == fr[a + 1] && rs[b] == fr[b + 1];
        } else if a < |fr| - 1 {
          assert rs[a] == fr[a + 1] && rs[b] == s1[i1 + b - (|fr| - 1)];
        } else {
          assert rs[a] == s1[i1 + a - (|fr| - 1)] && rs[b] == s1[i1 + b - (|fr| - 1)];
        }
      }
    }
    if rs != [] {
      if i1 < |s1| {
        assert rs[|rs| - 1] == s1[|s1| - 1];
      } else {
        assert rs[|rs| - 1] == fr[|fr| - 1];
      }
    }
  }

  /** The nodes of the lists ss[lo..hi]. */
  ghost function Nodes<T>(ss: seq<seq<T>>, lo: int, hi: int): set<T>
  {
    set i, x | lo <= i < hi && 0 <= i < |ss| && x in ss[i] :: x
  }

  /** No node belongs to two of the lists ss[lo..hi]. */
  ghost predicate Apart<T>(ss: seq<seq<T>>, lo: int, hi: int)
    requires 0 <= lo <= hi <= |ss|
  {
    forall i, j, x {:trigger x in ss[i], x in ss[j]} :: lo <= i < j < hi && x in ss[i] ==> x !in ss[j]
  }

  /** key gives the value each node of s holds. */
  ghost predicate Keyed(s: seq<ListNode>, key: ListNode -> int)
    reads s
  {
    forall i :: 0 <= i < |s| ==> key(s[i]) == s[i].val
  }

  /** head starts the list spine, ascending by key, and key gives the values of its nodes. */
  ghost predicate Holds(head: ListNode?, spine: seq<ListNode>, key: ListNode -> int)
    reads spine
  {
    IsList(head, spine) && Keyed(spine, key) && Sorted(spine, key)
  }

  /** The nodes owner places in the lists lo..hi - 1. */
  ghost function Owned(owner: map<ListNode, int>, lo: int, hi: int): set<ListNode>
  {
    set x | x in owner && lo <= owner[x] < hi
  }

  /** merge(lists, head, rear): the lists of lists[head..rear] are merged by merging the two
      halves recursively and then merging the two results; the result is also stored in
      lists[head]. owner tells which list each node starts in. */
  method MergeRange(lists: array<ListNode?>, head: int, rear: int, ghost sp: seq<seq<ListNode>>,
                    ghost owner: map<ListNode, int>, ghost key: ListNode -> int)
      returns (r: ListNode?, ghost rs: seq<ListNode>)
    requires 0 <= head <= rear < lists.Length == |sp|
    requires forall i :: head <= i <= rear ==> Holds(lists[i], sp[i], key)
    requires forall i, x :: head <= i <= rear && x in sp[i] ==> x in owner && owner[x] == i
    modifies lists, Owned(owner, head, rear + 1)`next
    ensures Holds(r, rs, key)
    ensures forall x :: x in rs ==> x in owner && head <= owner[x] <= rear
    ensures forall i, x :: head <= i <= rear && x in sp[i] ==> x in rs
    ensures lists[head] == r
    ensures forall i :: 0 <= i < lists.Length && !(head <= i <= rear) ==> lists[i] == old(lists[i])
    decreases rear - head, 1
  {
    if head == rear {
      return lists[head], sp[head];
    }
    var middle := (head + rear) / 2;
    ghost var rs1;
    lists[head], rs1 := MergeRange(lists, head, middle, sp, owner, key);
    forall i | middle + 1 <= i <= rear
      ensures Holds(lists[i], sp[i], key)
    {
      assert lists[i] == old(lists[i]) && unchanged(sp[i]);
    }
    r, rs := MergeSecond(lists, head, middle, rear, sp, owner, rs1, key);
  }

  /** The rest of merge once lists[head] holds the merged first half: the second half
      lists[middle + 1..rear] is merged recursively and the two results are merged. */
  method MergeSecond(lists: array<ListNode?>, head: int, middle: int, rear: int, ghost sp: seq<seq<ListNode>>,
                     ghost owner: map<ListNode, int>, ghost rs1: seq<ListNode>, ghost key: ListNode -> int)
      returns (r: ListNode?, ghost rs: seq<ListNode>)
    requires 0 <= head <= middle < rear < lists.Length == |sp|
    requires Holds(lists[head], rs1, key)
    requires forall x :: x in rs1 ==> x in owner && head <= owner[x] <= middle
    requires forall i :: middle + 1 <= i <= rear ==> Holds(lists[i], sp[i], key)
    requires forall i, x :: middle + 1 <= i <= rear && x in sp[i] ==> x in owner && owner[x] == i
    modifies lists, Owned(owner, head, rear + 1)`next
    ensures Holds(r, rs, key)
    ensures forall x :: x in rs ==> x in rs1 || (x in owner && middle < owner[x] <= rear)
    ensures forall x :: x in rs1 ==> x in rs
    ensures forall i, x :: middle + 1 <= i <= rear && x in sp[i] ==> x in rs
    ensures lists[head] == r
    ensures forall i :: 0 <= i < lists.Length && i != head && !(middle + 1 <= i <= rear) ==> lists[i] == old(lists[i])
    decreases rear - head, 0
  {
    ghost var rs2;
    lists[middle + 1], rs2 := MergeRange(lists, middle + 1, rear, sp, owner, key);
    assert unchanged(rs1) && lists[head] == old(lists[head]);
    r, rs := Combine(lists, head, middle + 1, rs1, rs2, key);
  }

  /** lists[head] = mergeTwoLists(lists[head], lists[middle + 1]) once both halves are merged. */
  method Combine(lists: array<ListNode?>, head: int, second: int, ghost rs1: seq<ListNode>, ghost rs2: seq<ListNode>,
                 ghost key: ListNode -> int) returns (r: ListNode?, ghost rs: seq<ListNode>)
    requires 0 <= head < second < lists.Length
    requires Holds(lists[head], rs1, key) && Holds(lists[second], rs2, key)
    requires forall x :: x in rs1 ==> x !in rs2
    modifies lists, rs1`next, rs2`next
    ensures Holds(r, rs, key)
    ensures forall x :: x in rs <==> x in rs1 || x in rs2
    ensures lists[head] == r
    ensures forall i :: 0 <= i < lists.Length && i != head ==> lists[i] == old(lists[i])
  {
    r, rs := MergeTwoLists(lists[head], lists[second], rs1, rs2, key);
    MergeSorted(rs1, rs2, key);
    forall x
      ensures x in rs <==> x in rs1 || x in rs2
    {
      MergeMembers(rs1, rs2, key, x);
    }
    forall i | 0 <= i < |rs|
      ensures key(rs[i]) == rs[i].val
    {
      assert rs[i] in rs1 || rs[i] in rs2;
    }
    lists[head] := r;
  }

  /** Ascending by the values the nodes hold. */
  ghost predicate Ascending(s: seq<ListNode>)
    reads s
  {
    forall i, j :: 0 <= i < j < |s| ==> s[i].val <= s[j].val
  }

  /** mergeKLists: no lists give the empty list; otherwise all of them are merged by relinking
      their own nodes into one ascending list that holds each of them once. */
  method MergeKLists(lists: array<ListNode?>, ghost sp: seq<seq<ListNode>>) returns (r: ListNode?, ghost rs: seq<ListNode>)
    requires lists.Length == |sp|
    requires forall i :: 0 <= i < |sp| ==> IsList(lists[i], sp[i]) && Ascending(sp[i])
    requires Apart(sp, 0, |sp|)
    modifies lists, Nodes(sp, 0, |sp|)`next
    ensures lists.Length == 0 ==> r == null
    ensures IsList(r, rs) && Ascending(rs)
    ensures forall x :: x in rs <==> x in Nodes(sp, 0, |sp|)
  {
    if lists.Length == 0 {
      return null, [];
    }
    ghost var key := Keys(lists, sp);
    ghost var owner := Owners(sp);
    r, rs := MergeRange(lists, 0, lists.Length - 1, sp, owner, key);
  }

  /** The values the nodes hold, as a function; it orders each list as the values do. */
  lemma Keys(lists: array<ListNode?>, sp: seq<seq<ListNode>>) returns (key: ListNode -> int)
    requires lists.Length == |sp|
    requires forall i :: 0 <= i < |sp| ==> IsList(lists[i], sp[i]) && Ascending(sp[i])
    ensures forall i :: 0 <= i < |sp| ==> Holds(lists[i], sp[i], key)
  {
    var vals := map x | x in Nodes(sp, 0, |sp|) :: x.val;
    key := (x: ListNode) => if x in vals then vals[x] else 0;
    forall i | 0 <= i < |sp|
      ensures Holds(lists[i], sp[i], key)
    {
      forall k | 0 <= k < |sp[i]|
        ensures key(sp[i][k]) == sp[i][k].val
      {
        InNodes(sp, i, sp[i][k]);
      }
    }
  }

  /** A node of one of the lists is among the nodes of all of them. */
  lemma InNodes<T>(ss: seq<seq<T>>, i: int, x: T)
    requires 0 <= i < |ss| && x in ss[i]
    ensures x in Nodes(ss, 0, |ss|)
  {
  }

  /** Which list each node of sp is in; there is one since no node is in two lists. */
  lemma Owners(sp: seq<seq<ListNode>>) returns (owner: map<ListNode, int>)
    requires Apart(sp, 0, |sp|)
    ensures forall i, x :: 0 <= i < |sp| && x in sp[i] ==> x in owner && owner[x] == i
    ensures forall x :: x in owner ==> x in Nodes(sp, 0, |sp|)
  {
    owner := map x | x in Nodes(sp, 0, |sp|) :: IndexOf(sp, x);
  }

  /** A list that x is in. */
  ghost function IndexOf(sp: seq<seq<ListNode>>, x: ListNode): (i: int)
    requires x in Nodes(sp, 0, |sp|)
    ensures 0 <= i < |sp| && x in sp[i]
  {
    var i :| 0 <= i < |sp| && x in sp[i]; i
  }
}
