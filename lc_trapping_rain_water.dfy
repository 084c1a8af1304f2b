// LeetCode 42: the rain water held above each bar is min(highest bar to its left, highest
// bar to its right) - its height; the answer is the total.
module TrappingRainWater {

  function Max(a: int, b: int): int
  {
    if a < b then b else a
  }

  function Min(a: int, b: int): int
  {
    if a < b then a else b
  }

  /** The highest bar among h[0..i] (inclusive). */
  function MaxPrefix(h: seq<int>, i: int): (m: int)
    requires 0 <= i < |h|
    ensures h[i] <= m
  {
    if i == 0 then h[0] else Max(MaxPrefix(h, i - 1), h[i])
  }

  /** The highest bar among h[i..] (inclusive). */
  function MaxSuffix(h: seq<int>, i: int): (m: int)
    requires 0 <= i < |h|
    ensures h[i] <= m
    decreases |h| - i
  {
    if i == |h| - 1 then h[i] else Max(MaxSuffix(h, i + 1), h[i])
  }

  lemma {:induction false} MaxPrefixBound(h: seq<int>, i: int, j: int)
    requires 0 <= j <= i < |h|
    ensures h[j] <= MaxPrefix(h, i)
  {
    if j < i {
      MaxPrefixBound(h, i - 1, j);
    }
  }

  lemma {:induction false} MaxSuffixBound(h: seq<int>, i: int, j: int)
    requires 0 <= i <= j < |h|
    ensures h[j] <= MaxSuffix(h, i)
    decreases j - i
  {
    if i < j {
      MaxSuffixBound(h, i + 1, j);
    }
  }

  /** The water standing above bar i. */
  function WaterAt(h: seq<int>, i: int): (w: int)
    requires 0 <= i < |h|
    ensures w >= 0
  {
    Min(MaxPrefix(h, i), MaxSuffix(h, i)) - h[i]
  }

  /** The water standing above the bars lo..hi-1. */
  function SumWater(h: seq<int>, lo: int, hi: int): (s: int)
    requires 0 <= lo <= hi <= |h|
    ensures s >= 0
    decreases hi - lo
  {
    if lo == hi then 0 else WaterAt(h, lo) + SumWater(h, lo + 1, hi)
  }

  function TrappedWater(h: seq<int>): int
  {
    SumWater(h, 0, |h|)
  }

  lemma {:induction false} SumWaterSnoc(h: seq<int>, lo: int, hi: int)
    requires 0 <= lo <= hi < |h|
    ensures SumWater(h, lo, hi + 1) == SumWater(h, lo, hi) + WaterAt(h, hi)
    decreases hi - lo
  {
    if lo < hi {
      SumWaterSnoc(h, lo + 1, hi);
    }
  }

  /** Moving the left pointer onto bar l + 1 while bar r is the highest on its side and
      at least as high as everything passed on the left: the loop adds exactly the water
      above l + 1. */
  lemma LeftStep(h: seq<int>, l: int, r: int, hl: int, hr: int)
    requires 0 <= l < r < |h|
    requires hl == MaxPrefix(h, l) && hr == MaxSuffix(h, r) && h[r] == hr && hl <= hr
    ensures MaxPrefix(h, l + 1) == Max(hl, h[l + 1])
    ensures SumWater(h, 0, l + 2) == SumWater(h, 0, l + 1) + (if hl < h[l + 1] then 0 else hl - h[l + 1])
  {
    MaxSuffixBound(h, l + 1, r);
    SumWaterSnoc(h, 0, l + 1);
  }

  /** The mirror image of LeftStep for the right pointer moving onto bar r - 1. */
  lemma RightStep(h: seq<int>, l: int, r: int, hl: int, hr: int)
    requires 0 <= l < r < |h|
    requires hl == MaxPrefix(h, l) && hr == MaxSuffix(h, r) && h[l] == hl && hr <= hl
    ensures MaxSuffix(h, r - 1) == Max(hr, h[r - 1])
    ensures SumWater(h, r - 1, |h|) == SumWater(h, r, |h|) + (if hr < h[r - 1] then 0 else hr - h[r - 1])
  {
    MaxPrefixBound(h, r - 1, l);
  }

  /** trap: two pointers move inward from both ends, always the one over the lower bar;
      height_l and height_r are the highest bars passed on each side. */
  method Trap(height: seq<int>) returns (result: int)
    requires |height| > 0
    ensures result == TrappedWater(height)
  {
    result := 0;
    var l, r := 0, |height| - 1;
    var hl, hr := height[l], height[r];
    while l < r
      invariant 0 <= l <= r < |height|
      invariant hl == MaxPrefix(height, l) && hr == MaxSuffix(height, r)
      invariant (height[r] == hr && hl <= hr) || (height[l] == hl && hr <= hl)
      invariant result == SumWater(height, 0, l + 1) + SumWater(height, r, |height|)
      decreases r - l
    {
      if height[l] < height[r] {
        LeftStep(height, l, r, hl, hr);
        l := l + 1;
        if hl < height[l] {
          hl := height[l];
        } else {
          result := result + hl - height[l];
        }
      } else {
        RightStep(height, l, r, hl, hr);
        r := r - 1;
        if hr < height[r] {
          hr := height[r];
        } else {
          result := result + hr - height[r];
        }
      }
    }
    assert WaterAt(height, l) == 0;
    SumWaterSnoc(height, 0, l);
    SumWaterSplit(height, 0, l, |height|);
  }

  lemma {:induction false} SumWaterSplit(h: seq<int>, lo: int, mid: int, hi: int)
    requires 0 <= lo <= mid <= hi <= |h|
    ensures SumWater(h, lo, hi) == SumWater(h, lo, mid) + SumWater(h, mid, hi)
    decreases mid - lo
  {
    if lo < mid {
      SumWaterSplit(h, lo + 1, mid, hi);
    }
  }
}
