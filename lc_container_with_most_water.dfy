// LeetCode 11: the largest area min(h[i], h[j]) * (j - i) over two bars i < j.
module ContainerWithMostWater {

  function Min(a: int, b: int): int
  {
    if a < b then a else b
  }

  function Area(h: seq<int>, i: int, j: int): int
    requires 0 <= i < j < |h|
  {
    Min(h[i], h[j]) * (j - i)
  }

  lemma MulMono(a: int, b: int, c: int, d: int)
    requires 0 <= a <= b && 0 <= c <= d
    ensures a * c <= b * d
  {
    assert a * c <= b * c;
  }

  /** When h[left] is the shorter end, no pair (left, j) inside the window beats (left, right). */
  lemma ShorterLeftDone(h: seq<int>, left: int, right: int)
    requires 0 <= left < right < |h| && h[left] < h[right]
    requires forall i :: 0 <= i < |h| ==> h[i] >= 0
    ensures forall j :: left < j <= right ==> Area(h, left, j) <= Area(h, left, right)
  {
    forall j | left < j <= right
      ensures Area(h, left, j) <= Area(h, left, right)
    {
      MulMono(Min(h[left], h[j]), h[left], j - left, right - left);
    }
  }

  /** When h[right] is the shorter (or equal) end, no pair (i, right) inside the window beats (left, right). */
  lemma ShorterRightDone(h: seq<int>, left: int, right: int)
    requires 0 <= left < right < |h| && h[left] >= h[right]
    requires forall i :: 0 <= i < |h| ==> h[i] >= 0
    ensures forall i :: left <= i < right ==> Area(h, i, right) <= Area(h, left, right)
  {
    forall i | left <= i < right
      ensures Area(h, i, right) <= Area(h, left, right)
    {
      MulMono(Min(h[i], h[right]), h[right], right - i, right - left);
    }
  }

  /** maxArea: two pointers start at both ends; the shorter side moves inward (the right one
      on a tie) after its area is compared with the best so far. */
  method MaxArea(height: seq<int>) returns (result: int)
    requires forall i :: 0 <= i < |height| ==> height[i] >= 0
    ensures result >= 0
    ensures forall i, j :: 0 <= i < j < |height| ==> Area(height, i, j) <= result
    ensures result == 0 || exists i, j :: 0 <= i < j < |height| && Area(height, i, j) == result
  {
    result := 0;
    var left, right := 0, |height| - 1;
    while left < right
      invariant 0 <= left && right < |height| && (|height| > 0 ==> left <= right)
      invariant result >= 0
      invariant forall i, j :: 0 <= i < j < |height| && (i < left || j > right) ==>
        Area(height, i, j) <= result
      invariant result == 0 || exists i, j :: 0 <= i < j < |height| && Area(height, i, j) == result
      decreases right - left
    {
      var width := right - left;
      var current;
      if height[left] < height[right] {
        ShorterLeftDone(height, left, right);
        current := height[left] * width;
        assert current == Area(height, left, right);
        left := left + 1;
      } else {
        ShorterRightDone(height, left, right);
        current := height[right] * width;
        assert current == Area(height, left, right);
        right := right - 1;
      }
      result := if result > current then result else current;
    }
  }
}
