// LeetCode 62: the number of right/down paths from the top-left to the bottom-right cell of
// an m x n grid, by filling a dp table row by row.
module UniquePaths {
  import opened Grids

  /** The number of right/down paths from (0, 0) to (i, j): a cell is reached from above or
      from the left, and cells of the first row or column in one way. */
  function Paths(i: nat, j: nat): (p: nat)
    ensures p >= 1
  {
    if i == 0 || j == 0 then 1 else Paths(i - 1, j) + Paths(i, j - 1)
  }

  /** uniquePaths: dp[i][j] is 1 on the first row and column, else the sum of its upper and
      left neighbours; the answer is the last cell. */
  method UniquePaths(m: int, n: int) returns (result: int)
    requires m >= 1 && n >= 1
    ensures result == Paths(m - 1, n - 1)
  {
    var dp := new int[m, n];
    for i := 0 to m
      invariant forall i', j' {:trigger dp[i', j']} :: 0 <= i' < i && 0 <= j' < n ==> dp[i', j'] == Paths(i', j')
    {
      for j := 0 to n
        invariant forall i', j' {:trigger dp[i', j']} :: 0 <= i' < i && 0 <= j' < n ==> dp[i', j'] == Paths(i', j')
        invariant forall j' {:trigger dp[i, j']} :: 0 <= j' < j ==> dp[i, j'] == Paths(i, j')
      {
        if i == 0 || j == 0 {
          dp[i, j] := 1;
        } else {
          var v := dp[i - 1, j] + dp[i, j - 1];
          assert v == Paths(i, j);
          dp[i, j] := v;
        }
      }
    }
    result := dp[m - 1, n - 1];
  }

  /** The closed form: Paths(i, j) is the binomial coefficient C(i + j, i). */
  lemma {:induction false} PathsClosedForm(i: nat, j: nat)
    ensures Paths(i, j) * Factorial(i) * Factorial(j) == Factorial(i + j)
    decreases i + j
  {
    if i > 0 && j > 0 {
      PathsClosedForm(i - 1, j);
      PathsClosedForm(i, j - 1);
      var a, b := Paths(i - 1, j), Paths(i, j - 1);
      var fi, fj := Factorial(i - 1), Factorial(j - 1);
      PascalStep(a, b, i, j, fi, fj, Factorial(i + j - 1));
    }
  }

  /** The arithmetic of one Pascal step: if a (i-1)! j! = f and b i! (j-1)! = f, then
      (a + b) i! j! = (i + j) f. */
  lemma PascalStep(a: int, b: int, i: int, j: int, fi: int, fj: int, f: int)
    requires a * fi * (j * fj) == f && b * (i * fi) * fj == f
    ensures (a + b) * (i * fi) * (j * fj) == (i + j) * f
  {
    assert a * (i * fi) * (j * fj) == i * (a * fi * (j * fj));
    assert b * (i * fi) * (j * fj) == j * (b * (i * fi) * fj);
    assert (a + b) * (i * fi) * (j * fj) == a * (i * fi) * (j * fj) + b * (i * fi) * (j * fj);
  }

  /** The count is symmetric: an m x n grid has as many paths as an n x m grid. */
  lemma {:induction false} PathsSymmetric(i: nat, j: nat)
    ensures Paths(i, j) == Paths(j, i)
    decreases i + j
  {
    if i > 0 && j > 0 {
      PathsSymmetric(i - 1, j);
      PathsSymmetric(i, j - 1);
    }
  }
}
