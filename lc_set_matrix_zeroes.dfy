// LeetCode 73: set a cell to zero when its row or its column held a zero, in place. The
// rows and columns to clear are collected first, then the matrix is overwritten.
module SetMatrixZeroes {

  /** Row r holds a zero among its first cols cells. */
  ghost predicate RowHasZero(a: array2<int>, r: int, cols: int)
    reads a
    requires 0 <= r < a.Length0 && cols <= a.Length1
  {
    exists c :: 0 <= c < cols && a[r, c] == 0
  }

  /** Column c holds a zero among its first rows cells. */
  ghost predicate ColHasZero(a: array2<int>, c: int, rows: int)
    reads a
    requires 0 <= c < a.Length1 && rows <= a.Length0
  {
    exists r :: 0 <= r < rows && a[r, c] == 0
  }

  /** setZeroes: afterwards a cell is 0 when its row or column originally held a 0, and keeps
      its value otherwise. */
  method SetZeroes(matrix: array2<int>)
    modifies matrix
    ensures forall r, c :: 0 <= r < matrix.Length0 && 0 <= c < matrix.Length1 ==>
      matrix[r, c] == if old(RowHasZero(matrix, r, matrix.Length1)) || old(ColHasZero(matrix, c, matrix.Length0))
        then 0 else old(matrix[r, c])
    ensures forall r, c :: 0 <= r < matrix.Length0 && 0 <= c < matrix.Length1 ==>
      (matrix[r, c] == 0 <==>
        old(RowHasZero(matrix, r, matrix.Length1)) || old(ColHasZero(matrix, c, matrix.Length0)))
  {
    var m, n := matrix.Length0, matrix.Length1;
    var resetRow: set<int> := {};
    var resetCol: set<int> := {};
    for i := 0 to m
      invariant forall r :: r in resetRow <==> 0 <= r < i && RowHasZero(matrix, r, n)
      invariant forall c :: c in resetCol <==> 0 <= c < n && ColHasZero(matrix, c, i)
    {
      for j := 0 to n
        invariant forall r :: r in resetRow <==>
          (0 <= r < i && RowHasZero(matrix, r, n)) || (r == i && RowHasZero(matrix, i, j))
        invariant forall c :: c in resetCol <==>
          0 <= c < n && (ColHasZero(matrix, c, i) || (c < j && matrix[i, c] == 0))
      {
        if matrix[i, j] == 0 {
          resetRow := resetRow + {i};
          resetCol := resetCol + {j};
        }
      }
    }
    for i := 0 to m
      invariant forall r, c :: 0 <= r < m && 0 <= c < n ==>
        matrix[r, c] == if r < i && (r in resetRow || c in resetCol) then 0 else old(matrix[r, c])
    {
      for j := 0 to n
        invariant forall r, c :: 0 <= r < m && 0 <= c < n ==>
          matrix[r, c] == if (r < i || (r == i && c < j)) && (r in resetRow || c in resetCol) then 0
            else old(matrix[r, c])
      {
        if i in resetRow || j in resetCol {
          matrix[i, j] := 0;
        }
      }
    }
  }
}
