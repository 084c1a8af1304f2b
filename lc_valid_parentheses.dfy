// LeetCode 20: decide whether a string of brackets is properly nested, with the stack of
// open brackets kept in the solution object.
module ValidParentheses {

  /** The two lookup tables: an open bracket and the closing bracket of the same kind map to
      the same index. */
  const Left: map<char, int> := map['{' := 0, '[' := 1, '(' := 2]
  const Right: map<char, int> := map['}' := 0, ']' := 1, ')' := 2]

  predicate Brackets(s: seq<char>)
  {
    forall i :: 0 <= i < |s| ==> s[i] in Left || s[i] in Right
  }

  predicate Openers(st: seq<char>)
  {
    forall i :: 0 <= i < |st| ==> st[i] in Left
  }

  /** c closes the bracket o. */
  predicate Matches(o: char, c: char)
  {
    o in Left && c in Right && Right[c] == Left[o]
  }

  /** Where the scan stops: the stack at that point, and whether it ran to the end. */
  datatype Outcome = Outcome(stack: seq<char>, ok: bool)

  /** The scan of s from stack st: an open bracket is pushed, a closing bracket pops a
      matching top, and an empty stack or a top of another kind stops the scan. */
  function Run(st: seq<char>, s: seq<char>): (o: Outcome)
    requires Openers(st) && Brackets(s)
    ensures Openers(o.stack)
    decreases |s|
  {
    if s == [] then Outcome(st, true)
    else if s[0] in Left then Run(st + [s[0]], s[1..])
    else if st == [] || !Matches(st[|st| - 1], s[0]) then Outcome(st, false)
    else Run(st[..|st| - 1], s[1..])
  }

  /** The call answers true: the scan ran to the end with an empty stack. */
  predicate Accepts(st: seq<char>, s: seq<char>)
    requires Openers(st) && Brackets(s)
  {
    Run(st, s).ok && Run(st, s).stack == []
  }

  /** Properly nested brackets: empty, or an open bracket, a nested part, its closing bracket
      and a nested rest. */
  ghost predicate Balanced(s: seq<char>)
    decreases |s|, 1
  {
    s == [] || exists i {:trigger Cut(s, i)} :: Cut(s, i)
  }

  /** s[0] and s[i] are a matching pair around a properly nested part, followed by a properly
      nested rest. */
  ghost predicate Cut(s: seq<char>, i: int)
    decreases |s|, 0
  {
    1 <= i < |s| && Matches(s[0], s[i]) && Balanced(s[1..i]) && Balanced(s[i + 1..])
  }

  class Solution {
    var st: seq<char>

    ghost predicate Valid()
      reads this
    {
      Openers(st)
    }

    constructor ()
      ensures Valid() && st == []
    {
      st := [];
    }

    /** isValid: the stack is never cleared, so an early false return leaves the brackets
        pushed so far on it for the next call. */
    method IsValid(s: string) returns (valid: bool)
      requires Valid() && Brackets(s)
      modifies this
      ensures Valid()
      ensures st == Run(old(st), s).stack
      ensures valid <==> Accepts(old(st), s)
    {
      for i := 0 to |s|
        invariant Openers(st)
        invariant Run(old(st), s) == Run(st, s[i..])
      {
        assert s[i..][1..] == s[i + 1..];
        if s[i] in Left {
          st := st + [s[i]];
        } else {
          if st == [] {
            return false;
          }
          if Right[s[i]] != Left[st[|st| - 1]] {
            return false;
          }
          st := st[..|st| - 1];
        }
      }
      return st == [];
    }
  }

  /** Scanning a concatenation scans the second part from where the first left off. */
  lemma {:induction false} RunConcat(st: seq<char>, a: seq<char>, b: seq<char>)
    requires Openers(st) && Brackets(a) && Brackets(b)
    ensures Brackets(a + b)
    ensures Run(st, a + b) == if Run(st, a).ok then Run(Run(st, a).stack, b) else Run(st, a)
    decreases |a|
  {
    assert Brackets(a + b) by {
      forall i | 0 <= i < |a + b| ensures (a + b)[i] in Left || (a + b)[i] in Right {
        if i >= |a| { assert (a + b)[i] == b[i - |a|]; }
      }
    }
    if a != [] {
      assert (a + b)[1..] == a[1..] + b;
      if a[0] in Left {
        RunConcat(st + [a[0]], a[1..], b);
      } else if st != [] && Matches(st[|st| - 1], a[0]) {
        RunConcat(st[..|st| - 1], a[1..], b);
      }
    } else {
      assert a + b == b;
    }
  }

  /** A properly nested string is scanned to the end and leaves the stack as it found it. */
  lemma {:induction false} BalancedRestores(st: seq<char>, s: seq<char>)
    requires Openers(st) && Brackets(s) && Balanced(s)
    ensures Run(st, s) == Outcome(st, true)
    decreases |s|
  {
    if s != [] {
      var i :| Cut(s, i);
      var a, b := s[1..i], s[i + 1..];
      assert s[1..] == a + ([s[i]] + b);
      assert Brackets(a) && Brackets([s[i]] + b) by {
        forall k | 0 <= k < |a| ensures a[k] in Left || a[k] in Right { assert a[k] == s[k + 1]; }
        forall k | 0 <= k < |[s[i]] + b| ensures ([s[i]] + b)[k] in Left || ([s[i]] + b)[k] in Right {
          assert ([s[i]] + b)[k] == s[i + k];
        }
      }
      var up := st + [s[0]];
      BalancedRestores(up, a);
      RunConcat(up, a, [s[i]] + b);
      assert ([s[i]] + b)[1..] == b;
      assert up[..|up| - 1] == st;
      BalancedRestores(st, b);
    }
  }

  /** Inserting a matched pair anywhere into a properly nested string keeps it properly nested. */
  lemma {:induction false} InsertPair(x: seq<char>, y: seq<char>, o: char, c: char)
    requires Balanced(x + y) && Matches(o, c)
    ensures Balanced(x + [o, c] + y)
    decreases |x| + |y|
  {
    var s := x + y;
    var t := x + [o, c] + y;
    if x == [] {
      assert t == [o, c] + y;
      assert t[1..1] == [] && Balanced([]);
      assert t[2..] == y == s;
      assert Cut(t, 1);
    } else {
      var i :| Cut(s, i);
      if |x| <= i {
        var x1, y1 := x[1..], s[|x|..i];
        assert s[1..i] == x1 + y1;
        InsertPair(x1, y1, o, c);
        assert t[0] == s[0] && t[i + 2] == s[i];
        assert t[1..i + 2] == x1 + [o, c] + y1;
        assert t[i + 3..] == s[i + 1..];
        assert Cut(t, i + 2);
      } else {
        var x2 := x[i + 1..];
        assert s[i + 1..] == x2 + y;
        InsertPair(x2, y, o, c);
        assert t[0] == s[0] && t[i] == s[i];
        assert t[1..i] == s[1..i];
        assert t[i + 1..] == x2 + [o, c] + y;
        assert Cut(t, i);
      }
    }
  }

  /** A scan that ends with an empty stack has read a properly nested string: the brackets
      already on the stack followed by s. */
  lemma {:induction false} AcceptedIsBalanced(st: seq<char>, s: seq<char>)
    requires Openers(st) && Brackets(s)
    requires Run(st, s) == Outcome([], true)
    ensures Balanced(st + s)
    decreases |s|
  {
    if s == [] {
      assert st + s == [];
    } else if s[0] in Left {
      assert Run(st, s) == Run(st + [s[0]], s[1..]);
      AcceptedIsBalanced(st + [s[0]], s[1..]);
      assert st + [s[0]] + s[1..] == st + s;
    } else {
      var st0 := st[..|st| - 1];
      assert st != [] && Run(st, s) == Run(st0, s[1..]);
      AcceptedIsBalanced(st0, s[1..]);
      InsertPair(st0, s[1..], st[|st| - 1], s[0]);
      assert st0 + [st[|st| - 1], s[0]] + s[1..] == st + s;
    }
  }

  /** Open brackets alone are all pushed. */
  lemma {:induction false} PushAll(st: seq<char>)
    requires Openers(st)
    ensures Brackets(st)
    ensures Run([], st) == Outcome(st, true)
    decreases |st|
  {
    if st != [] {
      var init := st[..|st| - 1];
      PushAll(init);
      RunConcat([], init, [st[|st| - 1]]);
      assert init + [st[|st| - 1]] == st;
    }
  }

  /** The call answers true exactly when the brackets left on the stack by earlier calls,
      followed by s, are properly nested; from a fresh object, exactly when s is. */
  lemma {:induction false} ValidIffBalanced(st: seq<char>, s: seq<char>)
    requires Openers(st) && Brackets(s)
    ensures Accepts(st, s) <==> Balanced(st + s)
  {
    if Accepts(st, s) {
      AcceptedIsBalanced(st, s);
    }
    if Balanced(st + s) {
      PushAll(st);
      RunConcat([], st, s);
      BalancedRestores([], st + s);
    }
  }
}
