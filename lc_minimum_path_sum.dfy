// LeetCode 64: the smallest sum of the cells on a right/down path from the top-left to the
// bottom-right cell, by filling a dp table row by row.
module MinimumPathSum {
  import opened Grids

  /** The dp value at (i, j): the cell plus the smaller of the values above and to the left
      (the only one there is on the first row or column). */
  function MinSum(g: seq<seq<int>>, i: nat, j: nat): int
    requires Rectangular(g) && i < |g| && j < |g[0]|
  {
    if i == 0 && j == 0 then g[0][0]
    else if i == 0 then MinSum(g, 0, j - 1) + g[0][j]
    else if j == 0 then MinSum(g, i - 1, 0) + g[i][0]
    else
      var up, left := MinSum(g, i - 1, j), MinSum(g, i, j - 1);
      (if up < left then up else left) + g[i][j]
  }

  /** A path is its sequence of moves from (0, 0): true moves down, false moves right. */
  function Downs(p: seq<bool>): (d: nat)
    ensures d <= |p|
  {
    if p == [] then 0 else Downs(p[..|p| - 1]) + (if p[|p| - 1] then 1 else 0)
  }

  function Rights(p: seq<bool>): nat
  {
    |p| - Downs(p)
  }

  /** The path ends inside the grid (so every cell it visits is inside). */
  predicate Inside(g: seq<seq<int>>, p: seq<bool>)
  {
    Rectangular(g) && Downs(p) < |g| && Rights(p) < |g[0]|
  }

  /** The sum of the cells a path visits, the start cell included. */
  function Cost(g: seq<seq<int>>, p: seq<bool>): int
    requires Inside(g, p)
  {
    if p == [] then g[0][0]
    else
      var init := p[..|p| - 1];
      assert Downs(init) <= Downs(p) && Rights(init) <= Rights(p);
      Cost(g, init) + g[Downs(p)][Rights(p)]
  }

  /** minPathSum: the first row and column are prefix sums, every other cell adds itself to
      the smaller neighbour. */
  method MinPathSum(g: seq<seq<int>>) returns (result: int)
    requires Rectangular(g)
    ensures result == MinSum(g, |g| - 1, |g[0]| - 1)
  {
    var m, n := |g|, |g[0]|;
    var dp := new int[m, n];
    dp[0, 0] := g[0][0];
    for j := 1 to n
      invariant forall j' {:trigger dp[0, j']} :: 0 <= j' < j ==> dp[0, j'] == MinSum(g, 0, j')
    {
      dp[0, j] := dp[0, j - 1] + g[0][j];
    }
    for i := 1 to m
      invariant forall i', j' {:trigger dp[i', j']} :: 0 <= i' < i && 0 <= j' < n ==> dp[i', j'] == MinSum(g, i', j')
    {
      dp[i, 0] := dp[i - 1, 0] + g[i][0];
      for j := 1 to n
        invariant forall i', j' {:trigger dp[i', j']} :: 0 <= i' < i && 0 <= j' < n ==> dp[i', j'] == MinSum(g, i', j')
        invariant forall j' {:trigger dp[i, j']} :: 0 <= j' < j ==> dp[i, j'] == MinSum(g, i, j')
      {
        var up, left := dp[i - 1, j], dp[i, j - 1];
        var v := (if up < left then up else left) + g[i][j];
        assert v == MinSum(g, i, j);
        dp[i, j] := v;
      }
    }
    result := dp[m - 1, n - 1];
  }

  /** No path to (i, j) costs less than MinSum(g, i, j). */
  lemma {:induction false} MinSumIsMinimal(g: seq<seq<int>>, p: seq<bool>)
    requires Inside(g, p)
    ensures MinSum(g, Downs(p), Rights(p)) <= Cost(g, p)
    decreases |p|
  {
    if p != [] {
      var init := p[..|p| - 1];
      assert Downs(init) <= Downs(p) && Rights(init) <= Rights(p);
      MinSumIsMinimal(g, init);
    }
  }

  /** A path that achieves MinSum(g, i, j). */
  function BestPath(g: seq<seq<int>>, i: nat, j: nat): (p: seq<bool>)
    requires Rectangular(g) && i < |g| && j < |g[0]|
    ensures Downs(p) == i && Rights(p) == j
    ensures Cost(g, p) == MinSum(g, i, j)
    decreases i + j
  {
    if i == 0 && j == 0 then []
    else if FromAbove(g, i, j) then
      var q := BestPath(g, i - 1, j);
      StepDown(g, q)
    else
      var q := BestPath(g, i, j - 1);
      StepRight(g, q)
  }

  /** Whether MinSum(g, i, j) comes from the cell above (else from the cell to the left). */
  predicate FromAbove(g: seq<seq<int>>, i: nat, j: nat)
    requires Rectangular(g) && i < |g| && j < |g[0]| && (i > 0 || j > 0)
    ensures FromAbove(g, i, j) ==> i > 0 && MinSum(g, i, j) == MinSum(g, i - 1, j) + g[i][j]
    ensures !FromAbove(g, i, j) ==> j > 0 && MinSum(g, i, j) == MinSum(g, i, j - 1) + g[i][j]
  {
    i > 0 && (j == 0 || MinSum(g, i - 1, j) < MinSum(g, i, j - 1))
  }

  function StepDown(g: seq<seq<int>>, p: seq<bool>): (q: seq<bool>)
    requires Inside(g, p) && Downs(p) + 1 < |g|
    ensures Downs(q) == Downs(p) + 1 && Rights(q) == Rights(p) && Inside(g, q)
    ensures Cost(g, q) == Cost(g, p) + g[Downs(p) + 1][Rights(p)]
  {
    assert (p + [true])[..|p|] == p;
    p + [true]
  }

  function StepRight(g: seq<seq<int>>, p: seq<bool>): (q: seq<bool>)
    requires Inside(g, p) && Rights(p) + 1 < |g[0]|
    ensures Downs(q) == Downs(p) && Rights(q) == Rights(p) + 1 && Inside(g, q)
    ensures Cost(g, q) == Cost(g, p) + g[Downs(p)][Rights(p) + 1]
  {
    assert (p + [false])[..|p|] == p;
    p + [false]
  }
}
