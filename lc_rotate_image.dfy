// LeetCode 48: rotate a square matrix 90 degrees clockwise in place. Every cell outside the
// centre lies on a 4-cycle of positions (r, c) -> (c, n-1-r) -> (n-1-r, n-1-c) -> (n-1-c, r);
// the loops visit each cycle once through its representative in the top-left block of
// (n + 1)/2 rows and n/2 columns.
module RotateImage {

  /** (a, b) lies in the block of representatives: a < (n + 1)/2 and b < n/2. */
  predicate InBlock(n: int, a: int, b: int)
  {
    0 <= a && 2 * a < n && 0 <= b && 2 * b + 1 < n
  }

  /** (a, b) is a representative handled before step (i, j). */
  predicate Before(n: int, i: int, j: int, a: int, b: int)
  {
    InBlock(n, a, b) && (a < i || (a == i && b < j))
  }

  /** The cycle through (r, c) was handled before step (i, j): one of its four cells is a
      representative handled before. */
  predicate Done(n: int, i: int, j: int, r: int, c: int)
  {
    Before(n, i, j, r, c) || Before(n, i, j, c, n - 1 - r) ||
    Before(n, i, j, n - 1 - r, n - 1 - c) || Before(n, i, j, n - 1 - c, r)
  }

  /** (r, c) is one of the four cells of cycle (i, j). */
  predicate OnCycle(n: int, i: int, j: int, r: int, c: int)
  {
    (r, c) == (i, j) || (r, c) == (n - 1 - j, i) || (r, c) == (n - 1 - i, n - 1 - j) || (r, c) == (j, n - 1 - i)
  }

  /** The contents of a matrix as rows of values. */
  ghost function Contents(a: array2<int>): (m: seq<seq<int>>)
    reads a
    ensures |m| == a.Length0
    ensures forall r :: 0 <= r < a.Length0 ==> |m[r]| == a.Length1
    ensures forall r, c :: 0 <= r < a.Length0 && 0 <= c < a.Length1 ==> m[r][c] == a[r, c]
  {
    seq(a.Length0, r requires 0 <= r < a.Length0 reads a =>
      seq(a.Length1, c requires 0 <= c < a.Length1 reads a => a[r, c]))
  }

  /** Before step (i, j) the cells of the cycles done hold the rotated original o, and every
      other cell its original value. */
  ghost predicate Partial(matrix: array2<int>, o: seq<seq<int>>, i: int, j: int)
    reads matrix
  {
    var n := matrix.Length0;
    matrix.Length1 == n && |o| == n && (forall r :: 0 <= r < n ==> |o[r]| == n) &&
    forall r, c {:trigger matrix[r, c]} :: 0 <= r < n && 0 <= c < n ==>
      matrix[r, c] == if Done(n, i, j, r, c) then o[n - 1 - c][r] else o[r][c]
  }

  /** rotate: afterwards matrix[r][c] is the old matrix[n-1-c][r]. */
  method Rotate(matrix: array2<int>)
    requires matrix.Length0 == matrix.Length1
    modifies matrix
    ensures forall r, c :: 0 <= r < matrix.Length0 && 0 <= c < matrix.Length0 ==>
      matrix[r, c] == old(matrix[matrix.Length0 - 1 - c, r])
  {
    var n := matrix.Length0;
    ghost var o := Contents(matrix);
    var x, y := (n + 1) / 2, n / 2;
    for i := 0 to x
      invariant Partial(matrix, o, i, 0)
    {
      for j := 0 to y
        invariant Partial(matrix, o, i, j)
      {
        RotateStep(matrix, o, i, j);
      }
      RowDone(matrix, o, i);
    }
    AllDone(matrix, o);
  }

  /** Finishing row i of the block is starting row i + 1. */
  lemma RowDone(matrix: array2<int>, o: seq<seq<int>>, i: int)
    requires Partial(matrix, o, i, matrix.Length0 / 2)
    ensures Partial(matrix, o, i + 1, 0)
  {
    var n := matrix.Length0;
    assert forall r, c :: Done(n, i, n / 2, r, c) <==> Done(n, i + 1, 0, r, c);
  }

  /** Once every representative is handled, every cell holds its rotated original (the centre
      of an odd matrix is its own rotation). */
  lemma AllDone(matrix: array2<int>, o: seq<seq<int>>)
    requires Partial(matrix, o, (matrix.Length0 + 1) / 2, 0)
    ensures forall r, c :: 0 <= r < matrix.Length0 && 0 <= c < matrix.Length0 ==>
      matrix[r, c] == o[matrix.Length0 - 1 - c][r]
  {
    var n := matrix.Length0;
    forall r, c | 0 <= r < n && 0 <= c < n
      ensures matrix[r, c] == o[n - 1 - c][r]
    {
      assert Done(n, (n + 1) / 2, 0, r, c) || (n - 1 - c == r && c == r);
    }
  }

  /** One pass of the inner loop: rotating cycle (i, j) marks it done. */
  method RotateStep(matrix: array2<int>, ghost o: seq<seq<int>>, i: int, j: int)
    requires InBlock(matrix.Length0, i, j) && Partial(matrix, o, i, j)
    modifies matrix
    ensures Partial(matrix, o, i, j + 1)
  {
    var n := matrix.Length0;
    label before:
    RotateCycle(matrix, i, j);
    CycleDone(n, i, j);
    forall r, c | 0 <= r < n && 0 <= c < n
      ensures matrix[r, c] == if Done(n, i, j + 1, r, c) then o[n - 1 - c][r] else o[r][c]
    {
      if (r, c) == (i, j) {
        assert matrix[r, c] == old@before(matrix[n - 1 - j, i]);
      } else if (r, c) == (n - 1 - j, i) {
        assert matrix[r, c] == old@before(matrix[n - 1 - i, n - 1 - j]);
      } else if (r, c) == (n - 1 - i, n - 1 - j) {
        assert matrix[r, c] == old@before(matrix[j, n - 1 - i]);
      } else if (r, c) == (j, n - 1 - i) {
        assert matrix[r, c] == old@before(matrix[i, j]);
      } else {
        assert matrix[r, c] == old@before(matrix[r, c]);
      }
    }
  }

  /** The inner step: the four cells of cycle (i, j) each take the value of the cell that
      rotates onto them; every other cell keeps its value. */
  method RotateCycle(matrix: array2<int>, i: int, j: int)
    requires matrix.Length0 == matrix.Length1 && InBlock(matrix.Length0, i, j)
    modifies matrix
    ensures var n := matrix.Length0;
      matrix[i, j] == old(matrix[n - 1 - j, i]) &&
      matrix[n - 1 - j, i] == old(matrix[n - 1 - i, n - 1 - j]) &&
      matrix[n - 1 - i, n - 1 - j] == old(matrix[j, n - 1 - i]) &&
      matrix[j, n - 1 - i] == old(matrix[i, j])
    ensures var n := matrix.Length0;
      forall r, c {:trigger matrix[r, c]} :: 0 <= r < n && 0 <= c < n && !OnCycle(n, i, j, r, c) ==>
        matrix[r, c] == old(matrix[r, c])
  {
    var n := matrix.Length0;
    Corners(n, i, j);
    var temp := matrix[i, j];
    matrix[i, j] := matrix[n - j - 1, i];
    matrix[n - j - 1, i] := matrix[n - i - 1, n - j - 1];
    matrix[n - i - 1, n - j - 1] := matrix[j, n - i - 1];
    matrix[j, n - i - 1] := temp;
  }

  /** The four cells of a cycle lie inside the matrix and are distinct. */
  lemma Corners(n: int, i: int, j: int)
    requires InBlock(n, i, j)
    ensures 0 <= i < n && 0 <= j < n && 0 <= n - 1 - i < n && 0 <= n - 1 - j < n
    ensures i != n - 1 - j && j != n - 1 - i
  {
  }

  /** Step (i, j) adds exactly the cells of cycle (i, j) to the cycles done, and those cells
      were not done before. */
  lemma CycleDone(n: int, i: int, j: int)
    requires InBlock(n, i, j)
    ensures forall r, c :: Done(n, i, j + 1, r, c) <==> Done(n, i, j, r, c) || OnCycle(n, i, j, r, c)
    ensures forall r, c :: OnCycle(n, i, j, r, c) ==> !Done(n, i, j, r, c)
  {
  }
}
