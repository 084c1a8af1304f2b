// LeetCode 2125: the number of laser beams in a bank. Every pair of consecutive rows that
// hold devices (rows without devices in between are skipped) contributes the product of
// their device counts.
module LaserBeams {

  /** What the inner loop adds up for a row: each character's offset from '0'. */
  function DeviceCount(row: string): int
  {
    if row == [] then 0
    else DeviceCount(row[..|row| - 1]) + (row[|row| - 1] as int - '0' as int)
  }

  /** The number of '1' characters in a row. */
  function Ones(row: string): (n: nat)
    ensures n <= |row|
  {
    if row == [] then 0
    else Ones(row[..|row| - 1]) + (if row[|row| - 1] == '1' then 1 else 0)
  }

  /** The device counts of the rows that hold devices, in order. */
  function Positives(cs: seq<int>): (p: seq<int>)
    ensures forall k :: 0 <= k < |p| ==> p[k] > 0
  {
    if cs == [] then []
    else
      var c := cs[|cs| - 1];
      Positives(cs[..|cs| - 1]) + (if c > 0 then [c] else [])
  }

  /** The sum of products of neighbouring entries. */
  function AdjacentProducts(f: seq<int>): int
  {
    if |f| < 2 then 0
    else AdjacentProducts(f[..|f| - 1]) + f[|f| - 2] * f[|f| - 1]
  }

  /** The beams between the rows of the bank. */
  function Beams(bank: seq<string>): int
  {
    AdjacentProducts(Positives(Counts(bank)))
  }

  function Counts(bank: seq<string>): (cs: seq<int>)
    ensures |cs| == |bank| && forall k :: 0 <= k < |bank| ==> cs[k] == DeviceCount(bank[k])
  {
    if bank == [] then [] else Counts(bank[..|bank| - 1]) + [DeviceCount(bank[|bank| - 1])]
  }

  /** The last entry of f, or 0 when f is empty. */
  function LastOr0(f: seq<int>): int
  {
    if f == [] then 0 else f[|f| - 1]
  }

  /** numberOfBeams: last is the device count of the latest row that had devices. */
  method NumberOfBeams(bank: seq<string>) returns (result: int)
    ensures result == Beams(bank)
    ensures result >= 0
  {
    ghost var cs := Counts(bank);
    ghost var p: seq<int> := [];
    var last := 0;
    result := 0;
    for v := 0 to |bank|
      invariant p == Positives(cs[..v]) && result == AdjacentProducts(p) && last == LastOr0(p)
      invariant last >= 0 && result >= 0
    {
      var current := RowDevices(bank[v]);
      RowStep(cs, v);
      if current > 0 {
        AppendRow(p, current);
        result := result + last * current;
        last := current;
        p := p + [current];
      }
    }
    assert cs[..|bank|] == cs;
  }

  /** The inner loop: the row's characters' offsets from '0' added up. */
  method RowDevices(row: string) returns (current: int)
    ensures current == DeviceCount(row)
    ensures (forall k :: 0 <= k < |row| ==> row[k] == '0' || row[k] == '1') ==> current == Ones(row)
  {
    current := 0;
    for k := 0 to |row|
      invariant current == DeviceCount(row[..k])
    {
      assert row[..k + 1][..k] == row[..k];
      current := current + (row[k] as int - '0' as int);
    }
    assert row[..|row|] == row;
    if forall k :: 0 <= k < |row| ==> row[k] == '0' || row[k] == '1' {
      BinaryRowCount(row);
    }
  }

  /** One more row: a row with devices joins the positives; any other row changes nothing. */
  lemma RowStep(cs: seq<int>, v: int)
    requires 0 <= v < |cs|
    ensures Positives(cs[..v + 1]) == Positives(cs[..v]) + (if cs[v] > 0 then [cs[v]] else [])
  {
    assert cs[..v + 1][..v] == cs[..v];
  }

  /** A row with c devices after the rows p adds LastOr0(p) * c beams and becomes the last. */
  lemma {:induction false} AppendRow(p: seq<int>, c: int)
    requires c > 0 && LastOr0(p) >= 0
    ensures AdjacentProducts(p + [c]) == AdjacentProducts(p) + LastOr0(p) * c
    ensures LastOr0(p) * c >= 0 && LastOr0(p + [c]) == c
  {
    assert (p + [c])[..|p|] == p;
  }

  /** For a row of '0' and '1' characters the count is the number of '1's. */
  lemma {:induction false} BinaryRowCount(row: string)
    requires forall k :: 0 <= k < |row| ==> row[k] == '0' || row[k] == '1'
    ensures DeviceCount(row) == Ones(row)
  {
    if row != [] {
      BinaryRowCount(row[..|row| - 1]);
    }
  }

  /** Rows without devices anywhere in the bank do not change the number of beams. */
  lemma {:induction false} EmptyRowNoBeams(cs: seq<int>, k: int)
    requires 0 <= k < |cs| && cs[k] <= 0
    ensures Positives(cs[..k] + cs[k + 1..]) == Positives(cs)
    decreases |cs|
  {
    var n := |cs|;
    if k == n - 1 {
      assert cs[..k] + cs[k + 1..] == cs[..n - 1];
    } else {
      var init := cs[..n - 1];
      assert cs[..k] + cs[k + 1..] == (init[..k] + init[k + 1..]) + [cs[n - 1]];
      EmptyRowNoBeams(init, k);
      assert init[k] == cs[k];
    }
  }
}
