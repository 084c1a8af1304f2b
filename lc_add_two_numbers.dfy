// LeetCode 2: add two numbers whose decimal digits are stored in linked lists, least
// significant digit first, and return the sum as a new list in the same form.
module AddTwoNumbers {
  import opened Digits
  import opened ListNodes

  function Head(ds: seq<int>): int
  {
    if ds == [] then 0 else ds[0]
  }

  function Tail(ds: seq<int>): seq<int>
  {
    if ds == [] then [] else ds[1..]
  }

  function Max(x: int, y: int): int
  {
    if x < y then y else x
  }

  /** Schoolbook addition of little-endian digit sequences with an incoming carry; it goes on
      while either sequence has digits or the carry is non-zero. */
  function AddDigits(xs: seq<int>, ys: seq<int>, carry: int): (r: seq<int>)
    requires IsDigits(xs) && IsDigits(ys) && 0 <= carry <= 1
    ensures IsDigits(r)
    ensures Max(|xs|, |ys|) <= |r| <= Max(|xs|, |ys|) + 1
    decreases 2 * (|xs| + |ys|) + carry
  {
    if xs == [] && ys == [] && carry == 0 then []
    else
      var v := carry + Head(xs) + Head(ys);
      [v % 10] + AddDigits(Tail(xs), Tail(ys), v / 10)
  }

  /** One step of the addition, named: v is the column sum, rest the digits after it. */
  lemma Unfold(xs: seq<int>, ys: seq<int>, carry: int) returns (v: int, rest: seq<int>)
    requires IsDigits(xs) && IsDigits(ys) && 0 <= carry <= 1
    requires !(xs == [] && ys == [] && carry == 0)
    ensures v == carry + Head(xs) + Head(ys) && 0 <= v <= 19 && 0 <= v / 10 <= 1
    ensures IsDigits(Tail(xs)) && IsDigits(Tail(ys))
    ensures rest == AddDigits(Tail(xs), Tail(ys), v / 10)
    ensures AddDigits(xs, ys, carry) == [v % 10] + rest
  {
    v := carry + Head(xs) + Head(ys);
    assert IsDigits(Tail(xs)) && IsDigits(Tail(ys)) && 0 <= v <= 19;
    rest := AddDigits(Tail(xs), Tail(ys), v / 10);
  }

  /** The digits of the sum have the sum of the values as their value. */
  lemma {:induction false} AddDigitsValue(xs: seq<int>, ys: seq<int>, carry: int)
    requires IsDigits(xs) && IsDigits(ys) && 0 <= carry <= 1
    ensures FromDigits(AddDigits(xs, ys, carry)) == FromDigits(xs) + FromDigits(ys) + carry
    decreases 2 * (|xs| + |ys|) + carry
  {
    if !(xs == [] && ys == [] && carry == 0) {
      var v, rest := Unfold(xs, ys, carry);
      AddDigitsValue(Tail(xs), Tail(ys), v / 10);
      assert ([v % 10] + rest)[1..] == rest;
      assert FromDigits(AddDigits(xs, ys, carry)) == v % 10 + 10 * FromDigits(rest);
      assert FromDigits(xs) == Head(xs) + 10 * FromDigits(Tail(xs));
      assert FromDigits(ys) == Head(ys) + 10 * FromDigits(Tail(ys));
    }
  }

  /** Addition is symmetric in the two lists. */
  lemma {:induction false} AddDigitsCommute(xs: seq<int>, ys: seq<int>, carry: int)
    requires IsDigits(xs) && IsDigits(ys) && 0 <= carry <= 1
    ensures AddDigits(xs, ys, carry) == AddDigits(ys, xs, carry)
    decreases 2 * (|xs| + |ys|) + carry
  {
    if !(xs == [] && ys == [] && carry == 0) {
      var v, rest := Unfold(xs, ys, carry);
      var v', rest' := Unfold(ys, xs, carry);
      AddDigitsCommute(Tail(xs), Tail(ys), v / 10);
    }
  }

  /** The most significant digit, if any, is not zero. */
  predicate NoLeadingZero(ds: seq<int>)
  {
    ds != [] ==> ds[|ds| - 1] != 0
  }

  lemma TailNoLeadingZero(ds: seq<int>)
    requires NoLeadingZero(ds)
    ensures NoLeadingZero(Tail(ds))
  {
  }

  lemma ConsNoLeadingZero(d: int, ds: seq<int>)
    requires ds != [] && NoLeadingZero(ds)
    ensures NoLeadingZero([d] + ds)
  {
  }

  /** Adding digit sequences without a most significant zero gives one without a most
      significant zero: with AddDigitsValue, the result is the canonical digit sequence of
      the sum (Digits.ToFromDigits). */
  lemma {:induction false} TopDigit(xs: seq<int>, ys: seq<int>, carry: int)
    requires IsDigits(xs) && IsDigits(ys) && 0 <= carry <= 1
    requires NoLeadingZero(xs) && NoLeadingZero(ys)
    ensures NoLeadingZero(AddDigits(xs, ys, carry))
    decreases 2 * (|xs| + |ys|) + carry
  {
    if !(xs == [] && ys == [] && carry == 0) {
      var v, rest := Unfold(xs, ys, carry);
      TailNoLeadingZero(xs);
      TailNoLeadingZero(ys);
      TopDigit(Tail(xs), Tail(ys), v / 10);
      if rest == [] {
        assert Tail(xs) == [] && Tail(ys) == [] && v / 10 == 0;
        assert v > 0 by {
          if xs != [] { assert xs[0] != 0; } else if ys != [] { assert ys[0] != 0; }
        }
      } else {
        ConsNoLeadingZero(v % 10, rest);
      }
    }
  }

  /** addTwoNumbers: a dummy node starts the result, the digits are appended behind it (see
      AddInto), and the list behind the dummy is the answer. The input nodes are only read. */
  method AddTwoNumbers(l1: ListNode?, l2: ListNode?, ghost s1: seq<ListNode>, ghost s2: seq<ListNode>)
      returns (result: ListNode?, ghost rs: seq<ListNode>)
    requires IsList(l1, s1) && IsList(l2, s2)
    requires IsDigits(Values(s1)) && IsDigits(Values(s2))
    ensures forall j :: 0 <= j < |rs| ==> fresh(rs[j])
    ensures IsList(result, rs)
    ensures Values(rs) == AddDigits(Values(s1), Values(s2), 0)
  {
    ListIntact(l1, s1);
    ListIntact(l2, s2);
    var dummy := new ListNode();
    ghost var fr, out := AddInto(dummy, l1, l2, s1, s2, Values(s1), Values(s2));
    result := dummy.next;
    rs := fr[1..];
    forall j | 0 <= j < |rs|
      ensures fresh(rs[j])
    {
      assert rs[j] == fr[j + 1];
    }
    Finish(fr, out, s1, s2, Values(s1), Values(s2));
  }

  /** The loop of addTwoNumbers: each round adds the carry and the current digit of each list
      that still has one, appends a fresh node holding the sum mod 10 and carries the sum
      div 10; it goes on while a list has digits left or the carry is non-zero. */
  method AddInto(dummy: ListNode, l1: ListNode?, l2: ListNode?, ghost s1: seq<ListNode>, ghost s2: seq<ListNode>,
                 ghost xs: seq<int>, ghost ys: seq<int>) returns (ghost fr: seq<ListNode>, ghost out: seq<int>)
    requires Intact(s1, xs) && Intact(s2, ys) && IsDigits(xs) && IsDigits(ys)
    requires l1 == (if s1 == [] then null else s1[0]) && l2 == (if s2 == [] then null else s2[0])
    requires dummy.next == null && dummy !in s1 && dummy !in s2
    modifies dummy`next
    ensures Intact(s1, xs) && Intact(s2, ys)
    ensures Chain(fr, out) && fr[0] == dummy && out == AddDigits(xs, ys, 0)
    ensures forall j :: 1 <= j < |fr| ==> fresh(fr[j])
  {
    var p1, p2 := l1, l2;
    var carry := 0;
    var current := dummy;
    ghost var i1: nat, i2: nat := 0, 0;
    fr, out := [dummy], [];
    while p1 != null || p2 != null || carry != 0
      invariant Intact(s1, xs) && Intact(s2, ys)
      invariant i1 <= |s1| && p1 == if i1 < |s1| then s1[i1] else null
      invariant i2 <= |s2| && p2 == if i2 < |s2| then s2[i2] else null
      invariant 0 <= carry <= 1
      invariant AddDigits(xs, ys, 0) == out + AddDigits(xs[i1..], ys[i2..], carry)
      invariant Chain(fr, out) && fr[0] == dummy && current == fr[|out|] && current !in s1 && current !in s2
      invariant forall j :: 1 <= j < |fr| ==> fresh(fr[j])
      decreases 2 * (|s1| - i1 + |s2| - i2) + carry
    {
      ghost var fr0 := fr;
      p1, p2, carry, current, i1, i2, fr, out := Round(p1, p2, carry, current, s1, s2, xs, ys, i1, i2, fr, out);
      assert fr == fr0 + [current];
      FreshSnoc(fr0, current);
    }
  }

  /** After the loop, the nodes behind the dummy form the list of the sum's digits. */
  lemma {:induction false} Finish(fr: seq<ListNode>, out: seq<int>, s1: seq<ListNode>, s2: seq<ListNode>, xs: seq<int>, ys: seq<int>)
    requires Chain(fr, out) && Intact(s1, xs) && Intact(s2, ys) && IsDigits(xs) && IsDigits(ys)
    requires out == AddDigits(xs, ys, 0)
    ensures IsList(fr[0].next, fr[1..]) && Values(fr[1..]) == AddDigits(Values(s1), Values(s2), 0)
  {
    Built(fr, out);
    IntactValues(s1, xs);
    IntactValues(s2, ys);
  }

  /** The nodes of s still form a list ending in null and holding xs. */
  ghost predicate Intact(s: seq<ListNode>, xs: seq<int>)
    reads s
  {
    |s| == |xs| &&
    (forall j {:trigger s[j].next} :: 0 <= j < |s| ==> s[j].next == if j + 1 < |s| then s[j + 1] else null) &&
    (forall j {:trigger s[j].val} :: 0 <= j < |s| ==> s[j].val == xs[j])
  }

  lemma ListIntact(head: ListNode?, s: seq<ListNode>)
    requires IsList(head, s)
    ensures Intact(s, Values(s))
  {
  }

  lemma IntactValues(s: seq<ListNode>, xs: seq<int>)
    requires Intact(s, xs)
    ensures Values(s) == xs
  {
  }

  /** fr[0] is the dummy node and fr[1..] the nodes appended so far, holding out: each
      node links to the next, the last one to null, and no node occurs twice. */
  ghost predicate Chain(fr: seq<ListNode>, out: seq<int>)
    reads fr
  {
    |fr| == |out| + 1 && Distinct(fr) && fr[|out|].next == null &&
    (forall j {:trigger fr[j].next} :: 0 <= j < |out| ==> fr[j].next == fr[j + 1]) &&
    (forall j {:trigger fr[j].val} :: 1 <= j < |fr| ==> fr[j].val == out[j - 1])
  }

  /** Behind the dummy node fr[0], the appended nodes form a list holding out. */
  lemma Built(fr: seq<ListNode>, out: seq<int>)
    requires Chain(fr, out)
    ensures IsList(fr[0].next, fr[1..]) && Values(fr[1..]) == out
  {
    var rs := fr[1..];
    forall j | 0 <= j < |rs| - 1
      ensures rs[j].next == rs[j + 1]
    {
      assert fr[j + 1].next == fr[j + 2];
    }
    if out != [] {
      assert fr[0].next == fr[1];
    }
    forall j | 0 <= j < |rs|
      ensures rs[j].val == out[j]
    {
      assert fr[j + 1].val == out[j];
    }
  }

  /** One round of the loop: the carry and the current digit of each list that still has
      one are added, a fresh node holding the sum mod 10 is appended behind current, and the
      sum div 10 becomes the carry. */
  method Round(p1: ListNode?, p2: ListNode?, carry: int, current: ListNode,
               ghost s1: seq<ListNode>, ghost s2: seq<ListNode>, ghost xs: seq<int>, ghost ys: seq<int>,
               ghost i1: nat, ghost i2: nat, ghost fr: seq<ListNode>, ghost out: seq<int>)
      returns (q1: ListNode?, q2: ListNode?, carry': int, last: ListNode,
               ghost j1: nat, ghost j2: nat, ghost fr': seq<ListNode>, ghost out': seq<int>)
    requires Intact(s1, xs) && Intact(s2, ys) && IsDigits(xs) && IsDigits(ys)
    requires i1 <= |s1| && p1 == if i1 < |s1| then s1[i1] else null
    requires i2 <= |s2| && p2 == if i2 < |s2| then s2[i2] else null
    requires 0 <= carry <= 1 && (p1 != null || p2 != null || carry != 0)
    requires Chain(fr, out) && current == fr[|out|] && current !in s1 && current !in s2
    modifies current`next
    ensures Intact(s1, xs) && Intact(s2, ys)
    ensures j1 <= |s1| && q1 == if j1 < |s1| then s1[j1] else null
    ensures j2 <= |s2| && q2 == if j2 < |s2| then s2[j2] else null
    ensures 0 <= carry' <= 1
    ensures out + AddDigits(xs[i1..], ys[i2..], carry) == out' + AddDigits(xs[j1..], ys[j2..], carry')
    ensures 2 * (|s1| - j1 + |s2| - j2) + carry' < 2 * (|s1| - i1 + |s2| - i2) + carry
    ensures fresh(last) && last !in s1 && last !in s2
    ensures fr' == fr + [last] && Chain(fr', out') && last == fr'[|out'|]
  {
    ghost var v := AddStep(xs, ys, i1, i2, carry);
    q1, q2, j1, j2 := p1, p2, i1, i2;
    var val := carry;
    if q1 != null {
      val := val + q1.val;
      q1 := q1.next;
      j1 := j1 + 1;
    }
    if q2 != null {
      val := val + q2.val;
      q2 := q2.next;
      j2 := j2 + 1;
    }
    assert val == v;
    carry' := val / 10;
    val := val % 10;
    ghost var tail := AddDigits(xs[j1..], ys[j2..], carry');
    AppendAssoc(out, [val], tail);
    last, fr' := Append(current, val, fr, out);
    out' := out + [val];
  }

  /** Nodes allocated since the method started stay so when a fresh one joins them. */
  twostate lemma FreshSnoc(new fr: seq<ListNode>, new node: ListNode)
    requires forall j :: 1 <= j < |fr| ==> fresh(fr[j])
    requires fresh(node)
    ensures forall j :: 1 <= j < |fr + [node]| ==> fresh((fr + [node])[j])
  {
  }

  /** Appends a fresh node holding val behind current, the last node built so far. */
  method Append(current: ListNode, val: int, ghost fr: seq<ListNode>, ghost out: seq<int>)
      returns (node: ListNode, ghost fr': seq<ListNode>)
    requires Chain(fr, out) && current == fr[|out|]
    modifies current`next
    ensures fresh(node) && fr' == fr + [node] && Chain(fr', out + [val])
  {
    node := new ListNode();
    node.val := val;
    node.next := null;
    current.next := node;
    SnocDistinct(fr, node);
    fr' := fr + [node];
    assert forall j :: 0 <= j < |fr| ==> fr'[j] == fr[j];
  }
  /** One round of the addition: with digits left or a carry, the sum starts with the digit
      of carry plus the next digits, and goes on with the rests and the new carry. */
  lemma AddStep(xs: seq<int>, ys: seq<int>, i1: nat, i2: nat, carry: int) returns (v: int)
    requires IsDigits(xs) && IsDigits(ys) && 0 <= carry <= 1 && i1 <= |xs| && i2 <= |ys|
    requires i1 < |xs| || i2 < |ys| || carry != 0
    ensures v == carry + (if i1 < |xs| then xs[i1] else 0) + (if i2 < |ys| then ys[i2] else 0)
    ensures 0 <= v / 10 <= 1
    ensures AddDigits(xs[i1..], ys[i2..], carry) ==
      [v % 10] + AddDigits(xs[(if i1 < |xs| then i1 + 1 else i1)..], ys[(if i2 < |ys| then i2 + 1 else i2)..], v / 10)
  {
    Advance(xs, i1);
    Advance(ys, i2);
    assert IsDigits(xs[i1..]) && IsDigits(ys[i2..]);
    var rest;
    v, rest := Unfold(xs[i1..], ys[i2..], carry);
  }

  lemma AppendAssoc(a: seq<int>, b: seq<int>, c: seq<int>)
    ensures a + b + c == a + (b + c)
  {
  }

  /** One round consumes the first digit of a non-empty rest, or reads 0 from an empty one. */
  lemma Advance(ds: seq<int>, i: nat)
    requires i <= |ds|
    ensures Head(ds[i..]) == if i < |ds| then ds[i] else 0
    ensures Tail(ds[i..]) == if i < |ds| then ds[i + 1..] else ds[i..]
  {
  }
}
