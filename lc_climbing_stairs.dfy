// LeetCode 70: the number of ways to climb n stairs taking one or two steps at a time,
// memoised in a vector kept in the solution object.
module ClimbingStairs {
  import FibonacciNumber

  /** Ways to climb n stairs: the last step is a single or a double one. */
  function Stairs(n: nat): (s: nat)
    ensures s >= 1
  {
    if n < 2 then 1 else Stairs(n - 1) + Stairs(n - 2)
  }

  class Solution {
    var f: seq<int>

    /** Every memo entry holds the number of ways for its index. */
    ghost predicate Valid()
      reads this
    {
      2 <= |f| && forall k :: 0 <= k < |f| ==> f[k] == Stairs(k)
    }

    constructor ()
      ensures Valid() && f == [1, 1]
    {
      f := [1, 1];
    }

    /** climbStairs: a memo hit returns the entry; a miss fills the memo up to n by the two
        recursive calls, appends their sum and returns it. */
    method ClimbStairs(n: int) returns (r: int)
      requires Valid() && n >= 0
      modifies this
      ensures Valid()
      ensures r == Stairs(n)
      ensures n < old(|f|) ==> f == old(f)
      ensures n >= old(|f|) ==> |f| == n + 1
      decreases n
    {
      if n < |f| {
        return f[n];
      }
      var a := ClimbStairs(n - 2);
      var b := ClimbStairs(n - 1);
      f := f + [a + b];
      return f[n];
    }
  }

  /** The number of ways is the Fibonacci number one further on. */
  lemma {:induction false} StairsFibonacci(n: nat)
    ensures Stairs(n) == FibonacciNumber.Fibonacci(n + 1)
  {
    if n >= 2 {
      StairsFibonacci(n - 1);
      StairsFibonacci(n - 2);
    }
  }
}
