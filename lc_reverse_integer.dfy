// LeetCode 7: reverse the decimal digits of a 32-bit integer, keeping its sign,
// and answer 0 when the reversal does not fit in 32 bits.
module ReverseInteger {
  import opened Digits

  /** The number whose decimal digits are those of |x| in reverse order, with the sign of x. */
  function Reversed(x: int): int
  {
    var r := FromDigits(Reverse(ToDigits(Abs(x))));
    if x < 0 then -r else r
  }

  /** reverse: the digits are peeled off with C++'s truncating % and / into a 64-bit accumulator. */
  method ReverseDigits(x: int) returns (r: int)
    requires InInt32(x)
    ensures InInt32(Reversed(x)) ==> r == Reversed(x)
    ensures !InInt32(Reversed(x)) ==> r == 0
  {
    ghost var ds := ToDigits(Abs(x));
    Pow10Ten();
    ToDigitsLength(Abs(x), 10);
    var result := 0;
    var y := x;
    ghost var k := 0;
    ghost var v := 0;
    while y != 0
      invariant 0 <= k <= |ds| <= 10
      invariant ToDigits(Abs(y)) == ds[k..]
      invariant v == FromDigits(Reverse(ds[..k]))
      invariant (x < 0 ==> y <= 0 && result == -v) && (x >= 0 ==> y >= 0 && result == v)
      decreases Abs(y)
    {
      PeelDigit(y, ds, k);
      AccumulatorBound(ds, k);
      assert InInt64(result * 10);
      result := result * 10 + TruncRem(y, 10);
      y := TruncDiv(y, 10);
      v := 10 * v + ds[k];
      k := k + 1;
      assert InInt64(result);
    }
    assert ds[..k] == ds;
    assert result == Reversed(x);
    if result > 0x7fff_ffff || result < -0x8000_0000 {
      return 0;
    }
    return result;
  }

  /** One C++ step on y: the remainder is the next digit of |y| (with y's sign), and the
      quotient holds the remaining digits; the reversal grows by that digit. */
  lemma PeelDigit(y: int, ds: seq<int>, k: nat)
    requires y != 0 && k <= |ds| && ToDigits(Abs(y)) == ds[k..]
    ensures k < |ds|
    ensures ToDigits(Abs(TruncDiv(y, 10))) == ds[k + 1..]
    ensures y > 0 ==> TruncDiv(y, 10) >= 0 && TruncRem(y, 10) == ds[k]
    ensures y < 0 ==> TruncDiv(y, 10) <= 0 && TruncRem(y, 10) == -ds[k]
    ensures FromDigits(Reverse(ds[..k + 1])) == ds[k] + 10 * FromDigits(Reverse(ds[..k]))
  {
    TruncTen(y);
    assert ToDigits(Abs(y)) == [Abs(y) % 10] + ToDigits(Abs(y) / 10);
    ReverseStep(ds, k);
  }

  /** Truncating division by ten strips the last digit of |y| and keeps the sign. */
  lemma TruncTen(y: int)
    ensures Abs(TruncDiv(y, 10)) == Abs(y) / 10
    ensures y >= 0 ==> TruncDiv(y, 10) >= 0 && TruncRem(y, 10) == Abs(y) % 10
    ensures y < 0 ==> TruncDiv(y, 10) <= 0 && TruncRem(y, 10) == -(Abs(y) % 10)
  {
  }

  lemma Pow10Ten()
    ensures Pow10(10) == 10_000_000_000
  {
    assert Pow10(5) == 100_000;
  }

  /** Appending the next digit to the reversal shifts the reversal up one decimal place. */
  lemma ReverseStep(ds: seq<int>, k: nat)
    requires k < |ds|
    ensures FromDigits(Reverse(ds[..k + 1])) == ds[k] + 10 * FromDigits(Reverse(ds[..k]))
  {
    assert ds[..k + 1] == ds[..k] + [ds[k]];
    ReverseSnoc(ds[..k], ds[k]);
  }

  /** With at most ten digits the accumulator stays far inside 64 bits. */
  lemma AccumulatorBound(ds: seq<int>, k: nat)
    requires IsDigits(ds) && k < |ds| <= 10
    ensures 0 <= 10 * FromDigits(Reverse(ds[..k])) + ds[k] < 10_000_000_000
  {
    var p := Reverse(ds[..k]);
    assert IsDigits(p);
    FromDigitsBound(p);
    Pow10Mono(k, 9);
    assert Pow10(9) == 1_000_000_000;
  }

  lemma {:induction false} ReverseSnoc<T>(s: seq<T>, x: T)
    ensures Reverse(s + [x]) == [x] + Reverse(s)
  {
    if s != [] {
      assert (s + [x])[1..] == s[1..] + [x];
      ReverseSnoc(s[1..], x);
    }
  }

  /** Trailing zeros vanish: 120 reverses to 21. */
  lemma TrailingZerosVanish(x: int)
    requires x != 0
    ensures Reversed(10 * x) == Reversed(x)
  {
    var n := Abs(x);
    assert Abs(10 * x) == 10 * n;
    assert ToDigits(10 * n) == [0] + ToDigits(n);
    assert Reverse([0] + ToDigits(n)) == Reverse(ToDigits(n)) + [0];
    FromDigitsZeroTail(Reverse(ToDigits(n)));
  }

  /** Without trailing zeros, reversing twice gives back the number. */
  lemma ReverseTwice(x: int)
    requires x % 10 != 0
    ensures Reversed(Reversed(x)) == x
  {
    var ds := ToDigits(Abs(x));
    assert ds != [] && ds[0] != 0 by {
      assert x != 0;
      assert Abs(x) % 10 != 0;
    }
    var rs := Reverse(ds);
    assert rs[|rs| - 1] == ds[0];
    ToFromDigits(rs);
    ReverseReverse(ds);
    FromToDigits(Abs(x));
    assert Abs(Reversed(x)) == FromDigits(rs);
  }

}
