// LeetCode 63: the number of right/down paths through a grid that avoid the cells holding 1
// (obstacles), by filling a dp table row by row.
module UniquePathsII {
  import opened Grids
  import UniquePaths
  import opened MinimumPathSum

  /** The dp value at (i, j): 0 on an obstacle, 1 - g[0][0] at the start, and otherwise the
      sum of the values above and to the left (one of them on the first row or column). */
  function Ways(g: seq<seq<int>>, i: nat, j: nat): int
    requires Rectangular(g) && i < |g| && j < |g[0]|
  {
    if i == 0 && j == 0 then 1 - g[0][0]
    else if g[i][j] == 1 then 0
    else if i == 0 then Ways(g, 0, j - 1)
    else if j == 0 then Ways(g, i - 1, 0)
    else Ways(g, i - 1, j) + Ways(g, i, j - 1)
  }

  /** The obstacle grid of the problem: every cell is 0 (free) or 1 (obstacle). */
  predicate Binary(g: seq<seq<int>>)
  {
    forall a, b :: 0 <= a < |g| && 0 <= b < |g[a]| ==> g[a][b] == 0 || g[a][b] == 1
  }

  /** uniquePathsWithObstacles: the first row, then each later row from its first cell. On an
      obstacle grid the result is the number of right/down paths to the last cell that visit
      only free cells. */
  method UniquePathsWithObstacles(g: seq<seq<int>>) returns (result: int)
    requires Rectangular(g)
    ensures result == Ways(g, |g| - 1, |g[0]| - 1)
    ensures Binary(g) ==> result == |ClearPaths(g, |g| - 1, |g[0]| - 1)|
  {
    var m, n := |g|, |g[0]|;
    var dp := new int[m, n];
    dp[0, 0] := 1 - g[0][0];
    for j := 1 to n
      invariant forall j' {:trigger dp[0, j']} :: 0 <= j' < j ==> dp[0, j'] == Ways(g, 0, j')
    {
      dp[0, j] := if g[0][j] == 1 then 0 else dp[0, j - 1];
    }
    for i := 1 to m
      invariant forall i', j' {:trigger dp[i', j']} :: 0 <= i' < i && 0 <= j' < n ==> dp[i', j'] == Ways(g, i', j')
    {
      dp[i, 0] := if g[i][0] == 1 then 0 else dp[i - 1, 0];
      for j := 1 to n
        invariant forall i', j' {:trigger dp[i', j']} :: 0 <= i' < i && 0 <= j' < n ==> dp[i', j'] == Ways(g, i', j')
        invariant forall j' {:trigger dp[i, j']} :: 0 <= j' < j ==> dp[i, j'] == Ways(g, i, j')
      {
        var v := if g[i][j] == 1 then 0 else dp[i - 1, j] + dp[i, j - 1];
        assert v == Ways(g, i, j);
        dp[i, j] := v;
      }
    }
    result := dp[m - 1, n - 1];
    if Binary(g) {
      WaysCountsPaths(g, m - 1, n - 1);
    }
  }

  /** Every cell the path visits, the start cell included, is free. */
  predicate Clear(g: seq<seq<int>>, p: seq<bool>)
    requires Inside(g, p)
    decreases |p|
  {
    g[Downs(p)][Rights(p)] == 0 &&
    (p == [] ||
      var init := p[..|p| - 1];
      assert Downs(init) <= Downs(p) && Rights(init) <= Rights(p);
      Clear(g, init))
  }

  /** The obstacle-free paths to (i, j), built by their last move. ClearPathsExact shows these
      are exactly the clear paths that end at (i, j). */
  function ClearPaths(g: seq<seq<int>>, i: nat, j: nat): set<seq<bool>>
    requires Rectangular(g) && i < |g| && j < |g[0]|
    decreases i + j
  {
    if g[i][j] != 0 then {}
    else if i == 0 && j == 0 then {[]}
    else
      (if i > 0 then Extend(ClearPaths(g, i - 1, j), true) else {}) +
      (if j > 0 then Extend(ClearPaths(g, i, j - 1), false) else {})
  }

  /** Every path of the set followed by one more move. */
  function Extend(ps: set<seq<bool>>, move: bool): set<seq<bool>>
  {
    set p | p in ps :: p + [move]
  }

  /** The extended paths are those ending with the move whose rest is in the set. */
  lemma InExtend(ps: set<seq<bool>>, move: bool, q: seq<bool>)
    ensures q in Extend(ps, move) <==> q != [] && q[|q| - 1] == move && q[..|q| - 1] in ps
  {
    if q != [] && q[|q| - 1] == move && q[..|q| - 1] in ps {
      assert q == q[..|q| - 1] + [move];
    }
  }

  /** The set holds exactly the clear paths that end at (i, j). */
  lemma {:induction false} ClearPathsExact(g: seq<seq<int>>, i: nat, j: nat, p: seq<bool>)
    requires Rectangular(g) && i < |g| && j < |g[0]|
    ensures p in ClearPaths(g, i, j) <==> Downs(p) == i && Rights(p) == j && Inside(g, p) && Clear(g, p)
    decreases |p|
  {
    if p != [] && g[i][j] == 0 && (i > 0 || j > 0) {
      var init := p[..|p| - 1];
      LastMove(g, i, j, p);
      if p[|p| - 1] && i > 0 {
        ClearPathsExact(g, i - 1, j, init);
      } else if !p[|p| - 1] && j > 0 {
        ClearPathsExact(g, i, j - 1, init);
      }
    }
  }

  /** A non-empty path is in the set for a free cell other than the start iff it ends with a
      move into that cell from a cell whose set holds the rest of the path. */
  lemma LastMove(g: seq<seq<int>>, i: nat, j: nat, p: seq<bool>)
    requires Rectangular(g) && i < |g| && j < |g[0]| && g[i][j] == 0 && (i > 0 || j > 0) && p != []
    ensures var init, last := p[..|p| - 1], p[|p| - 1];
      && Downs(p) == Downs(init) + (if last then 1 else 0)
      && Rights(p) == Rights(init) + (if last then 0 else 1)
      && (p in ClearPaths(g, i, j) <==>
           if last then i > 0 && init in ClearPaths(g, i - 1, j)
           else j > 0 && init in ClearPaths(g, i, j - 1))
  {
    var init, last := p[..|p| - 1], p[|p| - 1];
    if i > 0 {
      InExtend(ClearPaths(g, i - 1, j), true, p);
    }
    if j > 0 {
      InExtend(ClearPaths(g, i, j - 1), false, p);
    }
  }

  /** On an obstacle grid the dp value at (i, j) is the number of clear paths to (i, j). */
  lemma {:induction false} WaysCountsPaths(g: seq<seq<int>>, i: nat, j: nat)
    requires Rectangular(g) && Binary(g) && i < |g| && j < |g[0]|
    ensures Ways(g, i, j) == |ClearPaths(g, i, j)|
    decreases i + j
  {
    if g[i][j] != 0 || (i == 0 && j == 0) {
      CountBase(g, i, j);
    } else {
      if i > 0 {
        WaysCountsPaths(g, i - 1, j);
      }
      if j > 0 {
        WaysCountsPaths(g, i, j - 1);
      }
      CountStep(g, i, j);
    }
  }

  /** An obstacle has no path and no count; the free start has the empty path and count 1. */
  lemma CountBase(g: seq<seq<int>>, i: nat, j: nat)
    requires Rectangular(g) && Binary(g) && i < |g| && j < |g[0]| && (g[i][j] != 0 || (i == 0 && j == 0))
    ensures Ways(g, i, j) == |ClearPaths(g, i, j)|
  {
    assert g[i][j] == 0 || g[i][j] == 1;
  }

  /** A free cell other than the start is reached by the paths to the cell above followed by a
      move down and the paths to the cell on the left followed by a move right; these differ in
      their last move, so their numbers add up. */
  lemma CountStep(g: seq<seq<int>>, i: nat, j: nat)
    requires Rectangular(g) && i < |g| && j < |g[0]| && g[i][j] == 0 && (i > 0 || j > 0)
    requires i > 0 ==> Ways(g, i - 1, j) == |ClearPaths(g, i - 1, j)|
    requires j > 0 ==> Ways(g, i, j - 1) == |ClearPaths(g, i, j - 1)|
    ensures Ways(g, i, j) == |ClearPaths(g, i, j)|
  {
    var down := if i > 0 then Extend(ClearPaths(g, i - 1, j), true) else {};
    var right := if j > 0 then Extend(ClearPaths(g, i, j - 1), false) else {};
    if i > 0 {
      ExtendCard(ClearPaths(g, i - 1, j), true);
    }
    if j > 0 {
      ExtendCard(ClearPaths(g, i, j - 1), false);
    }
    assert ClearPaths(g, i, j) == down + right;
    assert down * right == {} by {
      forall q | q in down
        ensures q !in right
      {
        InExtend(ClearPaths(g, i - 1, j), true, q);
        if j > 0 {
          InExtend(ClearPaths(g, i, j - 1), false, q);
        }
      }
    }
    assert |down + right| == |down| + |right|;
  }

  /** Appending the same move to distinct paths keeps them distinct. */
  lemma {:induction false} ExtendCard(ps: set<seq<bool>>, move: bool)
    ensures |Extend(ps, move)| == |ps|
    decreases |ps|
  {
    if ps != {} {
      var p :| p in ps;
      var rest := ps - {p};
      ExtendCard(rest, move);
      assert Extend(ps, move) == Extend(rest, move) + {p + [move]} by {
        forall q | q in Extend(ps, move)
          ensures q in Extend(rest, move) + {p + [move]}
        {
          InExtend(ps, move, q);
          InExtend(rest, move, q);
          if q[..|q| - 1] == p {
            assert q == p + [move];
          }
        }
        assert (p + [move])[..|p|] == p;
      }
      assert (p + [move])[..|p|] == p;
    }
  }

  /** Without obstacles the count is that of the plain grid. */
  lemma {:induction false} NoObstacles(g: seq<seq<int>>, i: nat, j: nat)
    requires Rectangular(g) && i < |g| && j < |g[0]|
    requires forall a, b :: 0 <= a < |g| && 0 <= b < |g[a]| ==> g[a][b] == 0
    ensures Ways(g, i, j) == UniquePaths.Paths(i, j)
    decreases i + j
  {
    if i == 0 && j == 0 {
    } else if i == 0 {
      NoObstacles(g, 0, j - 1);
    } else if j == 0 {
      NoObstacles(g, i - 1, 0);
    } else {
      NoObstacles(g, i - 1, j);
      NoObstacles(g, i, j - 1);
    }
  }

  /** An obstacle at the start blocks every path. */
  lemma {:induction false} BlockedStart(g: seq<seq<int>>, i: nat, j: nat)
    requires Rectangular(g) && i < |g| && j < |g[0]| && g[0][0] == 1
    ensures Ways(g, i, j) == 0
    decreases i + j
  {
    if i == 0 && j == 0 {
    } else if g[i][j] == 1 {
    } else if i == 0 {
      BlockedStart(g, 0, j - 1);
    } else if j == 0 {
      BlockedStart(g, i - 1, 0);
    } else {
      BlockedStart(g, i - 1, j);
      BlockedStart(g, i, j - 1);
    }
  }

  /** On a grid of 0s and 1s the count is never negative, and an obstacle cell has none. */
  lemma {:induction false} WaysNonNegative(g: seq<seq<int>>, i: nat, j: nat)
    requires Rectangular(g) && i < |g| && j < |g[0]|
    requires forall a, b :: 0 <= a < |g| && 0 <= b < |g[a]| ==> g[a][b] == 0 || g[a][b] == 1
    ensures Ways(g, i, j) >= 0
    ensures g[i][j] == 1 ==> Ways(g, i, j) == 0
    decreases i + j
  {
    if i == 0 && j == 0 {
    } else if g[i][j] == 1 {
    } else if i == 0 {
      WaysNonNegative(g, 0, j - 1);
    } else if j == 0 {
      WaysNonNegative(g, i - 1, 0);
    } else {
      WaysNonNegative(g, i - 1, j);
      WaysNonNegative(g, i, j - 1);
    }
  }
}
