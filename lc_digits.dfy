// Decimal digit sequences shared by the digit-manipulating LeetCode solutions.
// A digit sequence is little-endian: ds[0] is the least significant digit.
module Digits {

  function Pow10(k: nat): (p: nat)
    ensures p >= 1
    ensures k > 0 ==> p >= 10
  {
    if k == 0 then 1 else 10 * Pow10(k - 1)
  }

  lemma {:induction false} Pow10Mono(a: nat, b: nat)
    requires a <= b
    ensures Pow10(a) <= Pow10(b)
  {
    if a < b {
      Pow10Mono(a, b - 1);
    }
  }

  predicate IsDigits(ds: seq<int>)
  {
    forall i :: 0 <= i < |ds| ==> 0 <= ds[i] <= 9
  }

  /** The little-endian decimal digits of n, without leading zeros (0 has none). */
  function ToDigits(n: nat): (ds: seq<int>)
    ensures IsDigits(ds)
    ensures n == 0 <==> ds == []
    ensures ds != [] ==> ds[|ds| - 1] != 0
  {
    if n == 0 then [] else [n % 10] + ToDigits(n / 10)
  }

  /** The value of a little-endian digit sequence. */
  function FromDigits(ds: seq<int>): int
  {
    if ds == [] then 0 else ds[0] + 10 * FromDigits(ds[1..])
  }

  function Reverse<T>(s: seq<T>): (r: seq<T>)
    ensures |r| == |s|
    ensures forall i :: 0 <= i < |s| ==> r[i] == s[|s| - 1 - i]
  {
    if s == [] then [] else Reverse(s[1..]) + [s[0]]
  }

  lemma {:induction false} ReverseReverse<T>(s: seq<T>)
    ensures Reverse(Reverse(s)) == s
  {
  }

  /** Reading the digits back gives the number. */
  lemma {:induction false} FromToDigits(n: nat)
    ensures FromDigits(ToDigits(n)) == n
  {
    if n > 0 {
      FromToDigits(n / 10);
    }
  }

  /** A digit sequence without a leading zero is the digit sequence of its value. */
  lemma {:induction false} ToFromDigits(ds: seq<int>)
    requires IsDigits(ds)
    requires ds != [] ==> ds[|ds| - 1] != 0
    ensures FromDigits(ds) >= 0
    ensures ToDigits(FromDigits(ds)) == ds
  {
    if ds != [] {
      var t := ds[1..];
      ToFromDigits(t);
      var n := FromDigits(ds);
      assert n == ds[0] + 10 * FromDigits(t);
      assert n % 10 == ds[0] && n / 10 == FromDigits(t);
      assert n > 0 by {
        if t == [] { assert ds[0] != 0; } else { assert FromDigits(t) > 0; }
      }
    }
  }

  /** Trailing (most significant) zeros do not change the value. */
  lemma {:induction false} FromDigitsZeroTail(ds: seq<int>)
    ensures FromDigits(ds + [0]) == FromDigits(ds)
  {
    if ds != [] {
      assert (ds + [0])[1..] == ds[1..] + [0];
      FromDigitsZeroTail(ds[1..]);
    }
  }

  /** A digit sequence of length at most k has value below 10^k. */
  lemma {:induction false} FromDigitsBound(ds: seq<int>)
    requires IsDigits(ds)
    ensures 0 <= FromDigits(ds) < Pow10(|ds|)
  {
    if ds != [] {
      FromDigitsBound(ds[1..]);
    }
  }

  /** n below 10^m has at most m digits. */
  lemma {:induction false} ToDigitsLength(n: nat, m: nat)
    requires n < Pow10(m)
    ensures |ToDigits(n)| <= m
  {
    if n > 0 {
      assert m > 0;
      ToDigitsLength(n / 10, m - 1);
    }
  }

  /** Replacing digit i by v changes the value by (v - ds[i]) * 10^i. */
  lemma {:induction false} FromDigitsUpdate(ds: seq<int>, i: nat, v: int)
    requires i < |ds|
    ensures FromDigits(ds[i := v]) == FromDigits(ds) + (v - ds[i]) * Pow10(i)
  {
    if i > 0 {
      assert ds[i := v][1..] == ds[1..][i - 1 := v];
      FromDigitsUpdate(ds[1..], i - 1, v);
    }
  }

  /** Setting one digit to a non-zero digit keeps a well-formed digit sequence well-formed. */
  lemma UpdateDigit(ds: seq<int>, i: nat, v: int)
    requires IsDigits(ds) && ds != [] && ds[|ds| - 1] != 0
    requires i < |ds| && 0 < v <= 9
    ensures IsDigits(ds[i := v]) && ds[i := v][|ds| - 1] != 0
  {
  }

  /** Sum of the decimal digits of n. */
  function DigitSum(n: nat): (s: nat)
    ensures s <= n
    ensures n > 0 ==> s > 0
    ensures n >= 10 ==> s < n
  {
    if n == 0 then 0 else n % 10 + DigitSum(n / 10)
  }

  /** Casting out nines: a number and its digit sum agree modulo 9. */
  lemma {:induction false} DigitSumMod9(n: nat)
    ensures DigitSum(n) % 9 == n % 9
  {
    if n > 0 {
      var q, m := n / 10, n % 10;
      DigitSumMod9(q);
      ModNineAdd(DigitSum(q), q, m);
      ModNineMultiple(q, q + m);
      assert n == 9 * q + (q + m);
    }
  }

  lemma ModNineMultiple(k: int, x: int)
    ensures (9 * k + x) % 9 == x % 9
  {
  }

  /** Adding the same amount to two numbers congruent modulo 9 keeps them congruent. */
  lemma ModNineAdd(a: int, b: int, c: int)
    requires a % 9 == b % 9
    ensures (a + c) % 9 == (b + c) % 9
  {
    var r := a % 9;
    assert a == 9 * (a / 9) + r && b == 9 * (b / 9) + r;
    ModNineMultiple(a / 9, r + c);
    ModNineMultiple(b / 9, r + c);
  }

  // C++ integer division and remainder truncate toward zero.
  function TruncDiv(a: int, b: int): int
    requires b > 0
  {
    if a >= 0 then a / b else -((-a) / b)
  }

  function TruncRem(a: int, b: int): (r: int)
    requires b > 0
    ensures a >= 0 ==> 0 <= r < b
    ensures a < 0 ==> -b < r <= 0
  {
    if a >= 0 then a % b else -((-a) % b)
  }

  function Abs(x: int): nat
  {
    if x < 0 then -x else x
  }

  predicate InInt32(x: int)
  {
    -0x8000_0000 <= x < 0x8000_0000
  }

  predicate InInt64(x: int)
  {
    -0x8000_0000_0000_0000 <= x < 0x8000_0000_0000_0000
  }
}
