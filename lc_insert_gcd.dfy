// LeetCode 2807: between every two adjacent nodes of a linked list, insert a new node
// holding the greatest common divisor of their values.
module InsertGcd {
  import opened Digits
  import opened ListNodes

  /** C++'s a % b: the magnitude is |a| mod |b| and the sign is that of a. */
  function Rem(a: int, b: int): (r: int)
    requires b != 0
    ensures Abs(r) < Abs(b)
  {
    TruncRem(a, Abs(b))
  }

  /** gcd: Euclid's recursion, with gcd(a, 0) = a. */
  function Gcd(a: int, b: int): int
    decreases Abs(b)
  {
    if b == 0 then a else Gcd(b, Rem(a, b))
  }

  /** The C++ remainder leaves a minus a multiple of |b|. */
  lemma RemSplit(a: int, b: int)
    requires b != 0
    ensures a == Abs(b) * TruncDiv(a, Abs(b)) + Rem(a, b)
  {
  }

  /** Euclidean division is unique: a quotient and remainder in range are the ones % gives. */
  lemma ModUnique(x: int, d: int, q: int, r: int)
    requires d > 0 && x == d * q + r && 0 <= r < d
    ensures x % d == r
  {
    var t := q - x / d;
    assert d * t == d * q - d * (x / d);
    MulAtLeast(d, t);
  }

  /** A nonzero multiple of d is at least d away from zero. */
  lemma MulAtLeast(d: int, t: int)
    requires d > 0
    ensures t >= 1 ==> d * t >= d
    ensures t <= -1 ==> d * t <= -d
  {
    if t >= 1 {
      assert d * t == d * (t - 1) + d;
      assert d * (t - 1) >= 0;
    } else if t <= -1 {
      assert d * t == -(d * (-t - 1)) - d;
      assert d * (-t - 1) >= 0;
    }
  }

  /** Multiples of d are closed under x + k * y. */
  lemma DividesLinear(d: int, x: int, y: int, k: int)
    requires d > 0 && x % d == 0 && y % d == 0
    ensures (x + k * y) % d == 0
  {
    var p, q := x / d, y / d;
    assert x == d * p && y == d * q;
    assert k * y == d * (k * q);
    ModUnique(x + k * y, d, p + k * q, 0);
  }

  /** The result is zero exactly when both arguments are, and otherwise divides both. */
  lemma {:induction false} GcdDivides(a: int, b: int)
    ensures Gcd(a, b) == 0 <==> a == 0 && b == 0
    ensures Gcd(a, b) != 0 ==> a % Abs(Gcd(a, b)) == 0 && b % Abs(Gcd(a, b)) == 0
    decreases Abs(b)
  {
    if b == 0 {
      if a != 0 {
        DividesLinear(Abs(a), 0, Abs(a), if a < 0 then -1 else 1);
        assert (0 + (if a < 0 then -1 else 1) * Abs(a)) == a;
      }
    } else {
      var r := Rem(a, b);
      GcdDivides(b, r);
      var g := Abs(Gcd(b, r));
      DividesLinear(g, 0, b, -1);
      assert Abs(b) % g == 0 by {
        assert Abs(b) == b || Abs(b) == 0 + -1 * b;
      }
      RemSplit(a, b);
      DividesLinear(g, r, Abs(b), TruncDiv(a, Abs(b)));
    }
  }

  /** Every common divisor of a and b divides the result: it is the greatest one. */
  lemma {:induction false} GcdGreatest(a: int, b: int, d: int)
    requires d > 0 && a % d == 0 && b % d == 0
    ensures Gcd(a, b) % d == 0
    decreases Abs(b)
  {
    if b != 0 {
      var r := Rem(a, b);
      DividesLinear(d, 0, b, -1);
      assert Abs(b) % d == 0 by {
        assert Abs(b) == b || Abs(b) == 0 + -1 * b;
      }
      RemSplit(a, b);
      DividesLinear(d, a, Abs(b), -TruncDiv(a, Abs(b)));
      assert r == a + -TruncDiv(a, Abs(b)) * Abs(b);
      GcdGreatest(b, r, d);
    }
  }

  /** For non-negative arguments the result is non-negative. */
  lemma {:induction false} GcdNonNegative(a: int, b: int)
    requires a >= 0 && b >= 0
    ensures Gcd(a, b) >= 0
    decreases b
  {
    if b != 0 {
      GcdNonNegative(b, Rem(a, b));
    }
  }

  /** s[0], g[0], s[1], g[1], ..., s[|s| - 1]. */
  function Interleave<T>(s: seq<T>, g: seq<T>): (r: seq<T>)
    requires |s| == |g| + 1
    ensures |r| == 2 * |s| - 1
    decreases |g|
  {
    if g == [] then s else [s[0], g[0]] + Interleave(s[1..], g[1..])
  }

  /** Where the elements of both sequences land. */
  lemma {:induction false} InterleaveAt<T>(s: seq<T>, g: seq<T>)
    requires |s| == |g| + 1
    ensures forall i :: 0 <= i < |s| ==> Interleave(s, g)[2 * i] == s[i]
    ensures forall i :: 0 <= i < |g| ==> Interleave(s, g)[2 * i + 1] == g[i]
    decreases |g|
  {
    if g != [] {
      InterleaveAt(s[1..], g[1..]);
      var r := Interleave(s, g);
      assert forall i :: 1 <= i < |s| ==> r[2 * i] == Interleave(s[1..], g[1..])[2 * (i - 1)];
      assert forall i :: 1 <= i < |g| ==> r[2 * i + 1] == Interleave(s[1..], g[1..])[2 * (i - 1) + 1];
    }
  }

  /** The elements at even places, the inverse of interleaving. */
  function Evens<T>(r: seq<T>): (s: seq<T>)
    ensures |s| == (|r| + 1) / 2
    decreases |r|
  {
    if |r| <= 2 then (if r == [] then [] else [r[0]]) else [r[0]] + Evens(r[2..])
  }

  /** Taking the even places of an interleaving gives back the original sequence. */
  lemma {:induction false} EvensInterleave<T>(s: seq<T>, g: seq<T>)
    requires |s| == |g| + 1
    ensures Evens(Interleave(s, g)) == s
    decreases |g|
  {
    if g != [] {
      EvensInterleave(s[1..], g[1..]);
      assert Interleave(s, g)[2..] == Interleave(s[1..], g[1..]);
    }
  }

  /** An interleaving holds the elements of both sequences and nothing else. */
  lemma {:induction false} InterleaveMembers<T>(s: seq<T>, g: seq<T>, x: T)
    requires |s| == |g| + 1
    ensures x in Interleave(s, g) <==> x in s || x in g
    decreases |g|
  {
    if g != [] {
      InterleaveMembers(s[1..], g[1..], x);
      assert s == [s[0]] + s[1..] && g == [g[0]] + g[1..];
    }
  }

  /** Interleaving distinct, disjoint sequences gives a sequence without repetition. */
  lemma {:induction false} InterleaveDistinct<T>(s: seq<T>, g: seq<T>)
    requires |s| == |g| + 1 && Distinct(s) && Distinct(g)
    requires forall i, j :: 0 <= i < |s| && 0 <= j < |g| ==> s[i] != g[j]
    ensures Distinct(Interleave(s, g))
    decreases |g|
  {
    if g != [] {
      var s', g' := s[1..], g[1..];
      InterleaveDistinct(s', g');
      var r := Interleave(s', g');
      InterleaveMembers(s', g', s[0]);
      InterleaveMembers(s', g', g[0]);
      assert s[0] !in s' && g[0] !in g' && s[0] !in g' && g[0] !in s' by {
        assert forall i :: 0 <= i < |s'| ==> s'[i] == s[i + 1];
        assert forall j :: 0 <= j < |g'| ==> g'[j] == g[j + 1];
      }
      ConsDistinct(s[0], g[0], r);
    }
  }

  lemma ConsDistinct<T>(a: T, b: T, r: seq<T>)
    requires a != b && a !in r && b !in r && Distinct(r)
    ensures Distinct([a, b] + r)
  {
    var t := [a, b] + r;
    forall i, j | 0 <= i < j < |t|
      ensures t[i] != t[j]
    {
      if i >= 2 {
        assert t[i] == r[i - 2] && t[j] == r[j - 2];
      } else {
        assert t[j] in [a, b] || t[j] in r;
      }
    }
  }

  /** The gcds of the adjacent pairs of vs. */
  function Gcds(vs: seq<int>): (gs: seq<int>)
    requires vs != []
    ensures |gs| == |vs| - 1
  {
    seq(|vs| - 1, i requires 0 <= i < |vs| - 1 => Gcd(vs[i], vs[i + 1]))
  }

  /** The successor of spine[j] once the first k gcd nodes are in place. */
  function Succ(spine: seq<ListNode>, gs: seq<ListNode>, j: nat): ListNode?
    requires |gs| < |spine| && j < |spine|
  {
    if j < |gs| then gs[j] else if j + 1 < |spine| then spine[j + 1] else null
  }

  /** The state after the first |gs| rounds: behind the dummy node fr[0] the nodes fr link to
      the original nodes, gs holds the fresh gcd nodes, each original node links to its gcd
      node or, past the rounds, to its old successor, and the values are as at the start. */
  ghost predicate Linked(spine: seq<ListNode>, gs: seq<ListNode>, fr: seq<ListNode>, vs: seq<int>)
    reads spine, fr, gs
  {
    |gs| < |spine| == |vs| && |fr| == |gs| + 1 && fr[1..] == gs &&
    Distinct(fr) && Distinct(spine) &&
    (forall i, j :: 0 <= i < |spine| && 0 <= j < |fr| ==> spine[i] != fr[j]) &&
    (forall i :: 0 <= i < |spine| ==> spine[i].val == vs[i]) &&
    (forall j {:trigger fr[j].next} :: 0 <= j < |gs| ==> fr[j].next == spine[j]) &&
    (forall j {:trigger spine[j].next} :: 0 <= j < |spine| ==> spine[j].next == Succ(spine, gs, j)) &&
    (forall j {:trigger gs[j].val} :: 0 <= j < |gs| ==> gs[j].val == Gcd(vs[j], vs[j + 1]))
  }

  /** insertGreatestCommonDivisors: a dummy node starts the new list; each round links the
      current head, moves head on, and links a fresh node holding the gcd of the two values.
      The dummy node is dropped at the end. */
  method InsertGcds(head: ListNode?, ghost spine: seq<ListNode>) returns (result: ListNode?, ghost gs: seq<ListNode>)
    requires head != null && IsList(head, spine)
    modifies spine`next
    ensures |gs| == |spine| - 1
    ensures forall j :: 0 <= j < |gs| ==> fresh(gs[j])
    ensures IsList(result, Interleave(spine, gs))
    ensures Values(Interleave(spine, gs)) == Interleave(old(Values(spine)), Gcds(old(Values(spine))))
  {
    ghost var vs := Values(spine);
    var dummy := new ListNode();
    LinkedStart(dummy, spine, vs);
    var current, h, gs', fr := Rounds(dummy, head, spine, vs);
    gs := gs';
    Close(current, h, spine, gs, fr, vs);
    result := dummy.next;
  }

  /** Before the loop only the dummy node stands in front and the list is untouched. */
  lemma LinkedStart(dummy: ListNode, spine: seq<ListNode>, vs: seq<int>)
    requires spine != [] && IsList(spine[0], spine) && dummy !in spine && vs == Values(spine)
    ensures Linked(spine, [], [dummy], vs)
  {
    assert forall j :: 0 <= j < |spine| ==> spine[j].next == Succ(spine, [], j);
  }

  /** The loop of insertGreatestCommonDivisors: while the head node has a successor, a gcd
      node is linked in behind it. */
  method Rounds(dummy: ListNode, head: ListNode, ghost spine: seq<ListNode>, ghost vs: seq<int>)
      returns (current: ListNode, h: ListNode, ghost gs: seq<ListNode>, ghost fr: seq<ListNode>)
    requires Linked(spine, [], [dummy], vs) && head == spine[0]
    modifies dummy`next, spine`next
    ensures Linked(spine, gs, fr, vs) && |gs| + 1 == |spine| && h == spine[|gs|]
    ensures current == fr[|gs|] && fr[0] == dummy
    ensures forall j :: 0 <= j < |gs| ==> fresh(gs[j])
  {
    current, h := dummy, head;
    gs, fr := [], [dummy];
    while h.next != null
      invariant |gs| < |spine| && h == spine[|gs|]
      invariant fr == [dummy] + gs && current == fr[|gs|]
      invariant forall j :: 0 <= j < |gs| ==> fresh(gs[j])
      invariant Linked(spine, gs, fr, vs)
      decreases |spine| - |gs|
    {
      h, current := Round(h, current, spine, gs, fr, vs);
      gs := gs + [current];
      fr := fr + [current];
    }
    assert h.next == Succ(spine, gs, |gs|);
  }

  /** After the loop: the last gcd node (or the dummy, for a single node) is linked to the
      last original node, which completes the interleaved list behind the dummy. */
  method Close(last: ListNode, head: ListNode, ghost spine: seq<ListNode>, ghost gs: seq<ListNode>,
               ghost fr: seq<ListNode>, ghost vs: seq<int>)
    requires Linked(spine, gs, fr, vs) && |gs| + 1 == |spine| && head == spine[|gs|] && last == fr[|gs|]
    modifies last`next
    ensures fr[0].next == spine[0]
    ensures IsList(spine[0], Interleave(spine, gs))
    ensures Values(Interleave(spine, gs)) == Interleave(vs, Gcds(vs))
  {
    last.next := head;
    forall j | 0 <= j < |gs|
      ensures gs[j].next == spine[j + 1]
    {
      assert gs[j] == fr[j + 1];
    }
    assert forall i, j :: 0 <= i < |spine| && 0 <= j < |gs| ==> spine[i] != gs[j];
    assert Distinct(gs);
    InterleavedList(spine, gs);
    InterleavedValues(spine, gs);
    GcdValues(gs, vs);
    assert Values(spine) == vs;
  }

  /** One round of the loop: current is linked to the head node, head moves on, and the node
      it left is linked to a fresh node holding the gcd of the two values, which becomes
      current. */
  method Round(head: ListNode, last: ListNode, ghost spine: seq<ListNode>, ghost gs: seq<ListNode>,
               ghost fr: seq<ListNode>, ghost vs: seq<int>) returns (h: ListNode, current: ListNode)
    requires Linked(spine, gs, fr, vs) && |gs| + 1 < |spine| && head == spine[|gs|] && last == fr[|gs|]
    modifies head`next, last`next
    ensures fresh(current) && h == spine[|gs| + 1]
    ensures Linked(spine, gs + [current], fr + [current], vs)
  {
    h, current := head, last;
    assert h.next == spine[|gs| + 1] by {
      assert spine[|gs|].next == Succ(spine, gs, |gs|);
    }
    var node := new ListNode();
    node.val := Gcd(h.val, h.next.val);
    current.next := h;
    h := h.next;
    current := current.next;
    current.next := node;
    current := node;
    SnocDistinct(fr, current);
    assert forall j :: 0 <= j < |spine| && j != |gs| ==> Succ(spine, gs, j) == Succ(spine, gs + [current], j);
  }

  /** Once every gcd node is linked in, the nodes form the interleaved list. */
  lemma {:induction false} InterleavedList(spine: seq<ListNode>, gs: seq<ListNode>)
    requires |spine| == |gs| + 1 && Distinct(spine) && Distinct(gs)
    requires forall i, j :: 0 <= i < |spine| && 0 <= j < |gs| ==> spine[i] != gs[j]
    requires forall j {:trigger spine[j].next} :: 0 <= j < |spine| ==> spine[j].next == Succ(spine, gs, j)
    requires forall j {:trigger gs[j].next} :: 0 <= j < |gs| ==> gs[j].next == spine[j + 1]
    ensures IsList(spine[0], Interleave(spine, gs))
  {
    var r := Interleave(spine, gs);
    InterleaveDistinct(spine, gs);
    InterleavedLinks(spine, gs);
    InterleaveIndex(spine, gs, 0);
    InterleaveIndex(spine, gs, |r| - 1);
    assert r[|r| - 1] == spine[|gs|];
    assert spine[|gs|].next == Succ(spine, gs, |gs|);
  }

  /** In the interleaving, each node links to the one after it. */
  lemma {:induction false} InterleavedLinks(spine: seq<ListNode>, gs: seq<ListNode>)
    requires |spine| == |gs| + 1
    requires forall j {:trigger spine[j].next} :: 0 <= j < |spine| ==> spine[j].next == Succ(spine, gs, j)
    requires forall j {:trigger gs[j].next} :: 0 <= j < |gs| ==> gs[j].next == spine[j + 1]
    ensures var r := Interleave(spine, gs); forall p :: 0 <= p < |r| - 1 ==> r[p].next == r[p + 1]
  {
    var r := Interleave(spine, gs);
    forall p | 0 <= p < |r| - 1
      ensures r[p].next == r[p + 1]
    {
      InterleaveIndex(spine, gs, p);
      InterleaveIndex(spine, gs, p + 1);
      var i := p / 2;
      if p % 2 == 0 {
        assert (p + 1) / 2 == i && (p + 1) % 2 == 1;
        assert spine[i].next == Succ(spine, gs, i);
      } else {
        assert (p + 1) / 2 == i + 1 && (p + 1) % 2 == 0;
        assert gs[i].next == spine[i + 1];
      }
    }
  }

  /** Place p of an interleaving: even places hold s, odd places hold g. */
  lemma {:induction false} InterleaveIndex<T>(s: seq<T>, g: seq<T>, p: int)
    requires |s| == |g| + 1 && 0 <= p < 2 * |s| - 1
    ensures p % 2 == 0 ==> Interleave(s, g)[p] == s[p / 2]
    ensures p % 2 == 1 ==> Interleave(s, g)[p] == g[p / 2]
  {
    InterleaveAt(s, g);
    var i := p / 2;
    if p % 2 == 0 {
      assert p == 2 * i;
    } else {
      assert p == 2 * i + 1;
    }
  }

  lemma GcdValues(gs: seq<ListNode>, vs: seq<int>)
    requires |vs| == |gs| + 1
    requires forall j {:trigger gs[j].val} :: 0 <= j < |gs| ==> gs[j].val == Gcd(vs[j], vs[j + 1])
    ensures Values(gs) == Gcds(vs)
  {
  }

  /** The values of an interleaved list interleave the values. */
  lemma {:induction false} InterleavedValues(spine: seq<ListNode>, gs: seq<ListNode>)
    requires |spine| == |gs| + 1
    ensures Values(Interleave(spine, gs)) == Interleave(Values(spine), Values(gs))
    decreases |gs|
  {
    if gs != [] {
      var s', g' := spine[1..], gs[1..];
      InterleavedValues(s', g');
      assert Values(s') == Values(spine)[1..];
      assert Values(g') == Values(gs)[1..];
      var r := Interleave(s', g');
      assert Values([spine[0], gs[0]] + r) == [spine[0].val, gs[0].val] + Values(r);
    }
  }
}
