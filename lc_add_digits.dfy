// LeetCode 258: repeatedly replace a number by the sum of its decimal digits until one digit is left.
module DigitRoot {
  import opened Digits

  /** The digital root: digit sums taken until a single digit remains. */
  function DigitalRoot(n: nat): (r: nat)
    ensures r <= 9
    ensures n < 10 ==> r == n
    decreases n
  {
    if n < 10 then n else DigitalRoot(DigitSum(n))
  }

  /** The closed form of the digital root of a positive number. */
  lemma {:induction false} DigitalRootClosedForm(n: nat)
    requires n > 0
    ensures DigitalRoot(n) == 1 + (n - 1) % 9
  {
    if n >= 10 {
      var s := DigitSum(n);
      DigitSumMod9(n);
      DigitalRootClosedForm(s);
      ModNineAdd(s, n, -1);
    }
  }

  /** addDigits: the outer loop repeats while the value has two or more digits; the inner
      loop sums the digits with % and /. A negative input is returned as it is. */
  method AddDigits(num: int) returns (r: int)
    ensures num < 10 ==> r == num
    ensures num >= 10 ==> r == DigitalRoot(num)
  {
    r := num;
    while r >= 10
      invariant num < 10 ==> r == num
      invariant num >= 10 ==> r >= 0 && DigitalRoot(r) == DigitalRoot(num)
      decreases r
    {
      ghost var r0 := r;
      var temp := 0;
      while r > 0
        invariant r >= 0
        invariant temp + DigitSum(r) == DigitSum(r0)
        decreases r
      {
        temp := temp + r % 10;
        r := r / 10;
      }
      r := temp;
    }
  }

  /** For num >= 0 the answer is a single digit; for num > 0 it is 1 + (num - 1) mod 9. */
  lemma {:induction false} AddDigitsRange(num: nat)
    ensures 0 <= DigitalRoot(num) <= 9
    ensures num > 0 ==> DigitalRoot(num) == 1 + (num - 1) % 9
  {
    if num > 0 {
      DigitalRootClosedForm(num);
    }
  }
}
