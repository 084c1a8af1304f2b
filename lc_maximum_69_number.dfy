// LeetCode 1323: turn the most significant digit 6 of a number into 9.
module Maximum69 {
  import opened Digits

  /** The largest index i with ds[i] == x, or -1 when x does not occur. */
  function LastIndexOf(ds: seq<int>, x: int): (i: int)
    ensures -1 <= i < |ds|
    ensures i >= 0 ==> ds[i] == x && forall j :: i < j < |ds| ==> ds[j] != x
    ensures i < 0 ==> forall j :: 0 <= j < |ds| ==> ds[j] != x
  {
    if ds == [] then -1
    else if ds[|ds| - 1] == x then |ds| - 1
    else LastIndexOf(ds[..|ds| - 1], x)
  }

  /** num with its most significant 6 replaced by 9 (num itself when there is none). */
  function Flip69(num: nat): int
  {
    var ds := ToDigits(num);
    var d := LastIndexOf(ds, 6);
    if d < 0 then num else FromDigits(ds[d := 9])
  }

  lemma SixToNine(ds: seq<int>, i: nat)
    requires i < |ds| && ds[i] == 6
    ensures FromDigits(ds[i := 9]) == FromDigits(ds) + 3 * Pow10(i)
  {
    FromDigitsUpdate(ds, i, 9);
  }

  lemma NineToSix(ds: seq<int>, i: nat)
    requires i < |ds| && ds[i] == 9
    ensures FromDigits(ds[i := 6]) == FromDigits(ds) - 3 * Pow10(i)
  {
    FromDigitsUpdate(ds, i, 6);
  }

  /** The result's digits are num's digits with the most significant 6 turned into a 9,
      and the result is never smaller than num. */
  lemma {:induction false} Flip69Digits(num: nat)
    ensures Flip69(num) >= num
    ensures var ds := ToDigits(num); var d := LastIndexOf(ds, 6);
      ToDigits(Flip69(num)) == (if d < 0 then ds else ds[d := 9])
  {
    var ds := ToDigits(num);
    var d := LastIndexOf(ds, 6);
    if d >= 0 {
      var es := ds[d := 9];
      UpdateDigit(ds, d, 9);
      ToFromDigits(es);
      SixToNine(ds, d);
      FromToDigits(num);
    }
  }

  predicate SixOrNine(d: int)
  {
    d == 6 || d == 9
  }

  /** For a number made of the digits 6 and 9 only, no single 6-to-9 or 9-to-6 change
      gives more than Flip69. */
  lemma {:induction false} Flip69IsMaximal(num: nat, i: nat, v: int)
    requires forall j :: 0 <= j < |ToDigits(num)| ==> SixOrNine(ToDigits(num)[j])
    requires i < |ToDigits(num)| && SixOrNine(v)
    ensures FromDigits(ToDigits(num)[i := v]) <= Flip69(num)
  {
    var ds := ToDigits(num);
    assert SixOrNine(ds[i]);
    if ds[i] == 6 && v == 9 {
      LowerSixGainsLess(ds, i);
    } else {
      FromToDigits(num);
      Flip69Digits(num);
      if ds[i] == v {
        assert ds[i := v] == ds;
      } else {
        NineToSix(ds, i);
      }
    }
  }

  /** Raising a 6 at or below the most significant 6 gains at most as much as raising that one. */
  lemma {:induction false} LowerSixGainsLess(ds: seq<int>, i: nat)
    requires i < |ds| && ds[i] == 6
    ensures LastIndexOf(ds, 6) >= i
    ensures FromDigits(ds[i := 9]) <= FromDigits(ds[LastIndexOf(ds, 6) := 9])
  {
    var d := LastIndexOf(ds, 6);
    SixToNine(ds, i);
    SixToNine(ds, d);
    Pow10Mono(i, d);
  }

  /** maximum69Number: one loop finds the position of the most significant 6, a second
      computes 10^position, and 3 * 10^position is added. */
  method Maximum69Number(num: int) returns (r: int)
    ensures num <= 0 ==> r == num
    ensures num > 0 ==> r == Flip69(num)
  {
    ghost var ds := ToDigits(if num > 0 then num else 0);
    var temp := num;
    var digit := -1;
    var count := 0;
    while temp > 0
      invariant num <= 0 ==> temp == num && digit == -1
      invariant num > 0 ==> 0 <= count <= |ds| && temp >= 0 && ToDigits(temp) == ds[count..]
      invariant num > 0 ==> digit == LastIndexOf(ds[..count], 6)
      decreases temp
    {
      ScanStep(ds, count, temp);
      if temp % 10 == 6 {
        digit := count;
      }
      temp := temp / 10;
      count := count + 1;
    }
    assert num > 0 ==> ds[..count] == ds;
    if digit < 0 {
      return num;
    }
    temp := 1;
    for i := 0 to digit
      invariant temp == Pow10(i)
    {
      temp := temp * 10;
    }
    Flip69Value(num, digit);
    return num + 3 * temp;
  }

  /** One step of the scan: the last digit of temp is ds[count]. */
  lemma {:induction false} ScanStep(ds: seq<int>, count: nat, temp: nat)
    requires temp > 0 && count <= |ds| && ToDigits(temp) == ds[count..]
    ensures count < |ds| && ds[count] == temp % 10 && ToDigits(temp / 10) == ds[count + 1..]
    ensures LastIndexOf(ds[..count + 1], 6) ==
      if temp % 10 == 6 then count else LastIndexOf(ds[..count], 6)
  {
    var t := ToDigits(temp);
    assert t == [temp % 10] + ToDigits(temp / 10);
    assert t[0] == ds[count] && t[1..] == ds[count + 1..];
    LastIndexOfSnoc(ds, count);
  }

  lemma LastIndexOfSnoc(ds: seq<int>, k: nat)
    requires k < |ds|
    ensures LastIndexOf(ds[..k + 1], 6) == if ds[k] == 6 then k else LastIndexOf(ds[..k], 6)
  {
    assert ds[..k + 1][..k] == ds[..k];
  }

  lemma {:induction false} Flip69Value(num: nat, d: nat)
    requires d == LastIndexOf(ToDigits(num), 6)
    ensures Flip69(num) == num + 3 * Pow10(d)
  {
    SixToNine(ToDigits(num), d);
    FromToDigits(num);
  }
}
