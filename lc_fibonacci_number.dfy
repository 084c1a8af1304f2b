// LeetCode 509: Fibonacci numbers through a memo vector kept in the solution object.
module FibonacciNumber {

  /** The Fibonacci numbers: F(0) = 0, F(1) = 1, F(n) = F(n - 1) + F(n - 2). */
  function Fibonacci(n: nat): nat
  {
    if n < 2 then n else Fibonacci(n - 1) + Fibonacci(n - 2)
  }

  /** The sequence a memo seeded with [first, second] fills in. */
  function Recurrence(first: nat, second: nat, n: nat): nat
  {
    if n == 0 then first
    else if n == 1 then second
    else Recurrence(first, second, n - 1) + Recurrence(first, second, n - 2)
  }

  class Solution {
    var f: seq<int>
    ghost const first: nat
    ghost const second: nat

    /** Every memo entry holds the value of the recurrence at its index. */
    ghost predicate Valid()
      reads this
    {
      2 <= |f| && forall k :: 0 <= k < |f| ==> f[k] == Recurrence(first, second, k)
    }

    /** The memo as written: {1, 1}. */
    constructor ()
      ensures Valid() && f == [1, 1]
      ensures first == 1 && second == 1
    {
      f := [1, 1];
      first, second := 1, 1;
    }

    /** The memo seeded with the Fibonacci numbers' own first two values. */
    constructor Corrected()
      ensures Valid() && f == [0, 1]
      ensures first == 0 && second == 1
    {
      f := [0, 1];
      first, second := 0, 1;
    }

    /** fib: a memo hit returns the entry; a miss fills the memo up to n by the two recursive
        calls, appends their sum and returns it. */
    method Fib(n: int) returns (r: int)
      requires Valid() && n >= 0
      modifies this
      ensures Valid()
      ensures r == Recurrence(first, second, n)
      ensures n < old(|f|) ==> f == old(f)
      ensures n >= old(|f|) ==> |f| == n + 1
      decreases n
    {
      if n < |f| {
        return f[n];
      }
      var a := Fib(n - 2);
      var b := Fib(n - 1);
      f := f + [a + b];
      return f[n];
    }
  }

  /** The memo as written shifts the sequence by one place. */
  lemma {:induction false} AsWrittenShifted(n: nat)
    ensures Recurrence(1, 1, n) == Fibonacci(n + 1)
  {
    if n >= 2 {
      AsWrittenShifted(n - 1);
      AsWrittenShifted(n - 2);
    }
  }

  /** So the memo as written answers 1 for n = 0, where F(0) = 0. */
  lemma AsWrittenFibZero()
    ensures Recurrence(1, 1, 0) == 1 != Fibonacci(0)
    ensures Recurrence(1, 1, 2) == 2 != Fibonacci(2)
  {
  }

  /** The corrected memo yields the Fibonacci numbers at every index. */
  lemma {:induction false} CorrectedIsFibonacci(n: nat)
    ensures Recurrence(0, 1, n) == Fibonacci(n)
  {
    if n >= 2 {
      CorrectedIsFibonacci(n - 1);
      CorrectedIsFibonacci(n - 2);
    }
  }
}
