// Grids given as vector<vector<int>>: every row as long as the first.
module Grids {

  predicate Rectangular(g: seq<seq<int>>)
  {
    |g| > 0 && |g[0]| > 0 && forall i :: 0 <= i < |g| ==> |g[i]| == |g[0]|
  }

  function Factorial(n: nat): (f: nat)
    ensures f >= 1
  {
    if n == 0 then 1 else n * Factorial(n - 1)
  }
}
