// LeetCode 67: add two binary numbers given as strings of '0' and '1'.
module AddBinary {

  predicate IsBinary(s: string)
  {
    forall i :: 0 <= i < |s| ==> s[i] == '0' || s[i] == '1'
  }

  function Bit(c: char): nat
  {
    if c == '1' then 1 else 0
  }

  function Pow2(k: nat): (p: nat)
    ensures p >= 1
  {
    if k == 0 then 1 else 2 * Pow2(k - 1)
  }

  /** The value of a binary string, most significant digit first. */
  function Value(s: string): nat
  {
    if s == [] then 0 else 2 * Value(s[..|s| - 1]) + Bit(s[|s| - 1])
  }

  function Max(x: int, y: int): int
  {
    if x < y then y else x
  }

  /** The value of the last min(k, |s|) digits of s, digit k - 1 from the end at place k - 1. */
  function Low(s: string, k: nat): nat
  {
    if k == 0 then 0
    else Low(s, k - 1) + (if k - 1 < |s| then Bit(s[|s| - k]) * Pow2(k - 1) else 0)
  }

  /** addBinary: both reverse iterators advance together on every round, also past the end of
      the shorter string, where the digit counts as 0. */
  method AddBinary(a: string, b: string) returns (result: string)
    requires IsBinary(a) && IsBinary(b)
    ensures IsBinary(result)
    ensures Value(result) == Value(a) + Value(b)
    ensures |result| == Max(|a|, |b|) + (if Value(a) + Value(b) >= Pow2(Max(|a|, |b|)) then 1 else 0)
  {
    result := "";
    var carry := 0;
    var k := 0;
    while k < |a| || k < |b| || carry != 0
      invariant Sum(a, b, k, carry, result)
      decreases (if k < Max(|a|, |b|) then Max(|a|, |b|) - k else 0) * 2 + carry
    {
      var valA, valB := 0, 0;
      if k < |a| {
        valA := a[|a| - 1 - k] as int - '0' as int;
      }
      if k < |b| {
        valB := b[|b| - 1 - k] as int - '0' as int;
      }
      Round(a, b, k, carry, result, valA, valB);
      var val := valA + valB + carry;
      carry := val / 2;
      val := val % 2;
      if val == 0 {
        result := "0" + result;
      } else if val == 1 {
        result := "1" + result;
      }
      k := k + 1;
    }
    var n := Max(|a|, |b|);
    LowAll(a, k);
    LowAll(b, k);
    ValueBound(result);
    if |result| == n + 1 {
      LeadingOne(result);
    }
  }

  /** After k rounds: result holds the low k digits of the sum and carry the digit above. */
  predicate Sum(a: string, b: string, k: nat, carry: int, result: string)
  {
    0 <= carry <= 1 && |result| == k && IsBinary(result) &&
    (k <= Max(|a|, |b|) || (k == Max(|a|, |b|) + 1 && carry == 0 && result[0] == '1')) &&
    Value(result) + carry * Pow2(k) == Low(a, k) + Low(b, k)
  }

  /** One round keeps Sum: the digits read, plus the carry, give the next digit and carry. */
  lemma Round(a: string, b: string, k: nat, carry: int, result: string, valA: int, valB: int)
    requires IsBinary(a) && IsBinary(b) && Sum(a, b, k, carry, result)
    requires k < |a| || k < |b| || carry != 0
    requires valA == if k < |a| then a[|a| - 1 - k] as int - '0' as int else 0
    requires valB == if k < |b| then b[|b| - 1 - k] as int - '0' as int else 0
    ensures 0 <= valA + valB + carry
    ensures Sum(a, b, k + 1, (valA + valB + carry) / 2,
      [if (valA + valB + carry) % 2 == 0 then '0' else '1'] + result)
  {
    var p := Pow2(k);
    LowNext(a, k, valA, p);
    LowNext(b, k, valB, p);
    var val := valA + valB + carry;
    var c := if val % 2 == 0 then '0' else '1';
    CarryStep(Value(result), carry, p, valA, valB, Low(a, k), Low(b, k), val % 2, val / 2);
    PrependBit(c, result);
    var r := [c] + result;
    assert IsBinary(r) by {
      forall i | 0 <= i < |r| ensures r[i] == '0' || r[i] == '1' {
        if i > 0 { assert r[i] == result[i - 1]; }
      }
    }
  }

  /** The arithmetic of one round: the new digit sits at place p and the new carry at 2p. */
  lemma CarryStep(v: int, carry: int, p: int, da: int, db: int, la: int, lb: int, bit: int, next: int)
    requires v + carry * p == la + lb
    requires 0 <= da + db + carry && bit == (da + db + carry) % 2 && next == (da + db + carry) / 2
    ensures bit * p + v + next * (2 * p) == (la + da * p) + (lb + db * p)
  {
    var val := da + db + carry;
    assert val == val % 2 + 2 * (val / 2);
    assert val * p == (val % 2) * p + (val / 2) * (2 * p);
  }

  /** Putting a digit in front adds it at the place of the current length. */
  lemma {:induction false} PrependBit(c: char, s: string)
    ensures Value([c] + s) == Bit(c) * Pow2(|s|) + Value(s)
    decreases |s|
  {
    if s != [] {
      var init := s[..|s| - 1];
      assert ([c] + s)[..|s|] == [c] + init;
      PrependBit(c, init);
    }
  }

  /** One more digit from the end: the digit the round read, at place k. */
  lemma LowNext(s: string, k: nat, d: int, p: nat)
    requires IsBinary(s) && p == Pow2(k)
    requires d == if k < |s| then s[|s| - 1 - k] as int - '0' as int else 0
    ensures Low(s, k + 1) == Low(s, k) + d * p
  {
  }

  /** The low digits are the value of the suffix of that length. */
  lemma {:induction false} LowSuffix(s: string, k: nat)
    requires k <= |s|
    ensures Low(s, k) == Value(s[|s| - k..])
    decreases k
  {
    if k > 0 {
      LowSuffix(s, k - 1);
      var suffix := s[|s| - (k - 1)..];
      assert s[|s| - k..] == [s[|s| - k]] + suffix;
      PrependBit(s[|s| - k], suffix);
    } else {
      assert s[|s|..] == [];
    }
  }

  /** Past the length of s, the low digits are all of s. */
  lemma {:induction false} LowAll(s: string, k: nat)
    requires |s| <= k
    ensures Low(s, k) == Value(s)
    decreases k
  {
    if k > |s| {
      LowAll(s, k - 1);
    } else {
      LowSuffix(s, k);
      assert s[|s| - k..] == s;
    }
  }

  lemma {:induction false} ValueBound(s: string)
    ensures Value(s) < Pow2(|s|)
    decreases |s|
  {
    if s != [] {
      ValueBound(s[..|s| - 1]);
    }
  }

  /** A string starting with 1 is worth at least the place of that digit. */
  lemma {:induction false} LeadingOne(s: string)
    requires s != [] && s[0] == '1'
    ensures Value(s) >= Pow2(|s| - 1)
  {
    assert s == [s[0]] + s[1..];
    PrependBit(s[0], s[1..]);
  }
}
