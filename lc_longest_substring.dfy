// LeetCode 3: the length of the longest substring without a repeated character, found
// with a sliding window [l, r) whose characters are kept in a set.
module LongestSubstring {

  /** No character occurs twice in t. */
  predicate Distinct(t: seq<char>)
  {
    forall a, b :: 0 <= a < b < |t| ==> t[a] != t[b]
  }

  function Elems(t: seq<char>): set<char>
  {
    set k | 0 <= k < |t| :: t[k]
  }

  /** A window starting at i can never again be repeat-free once the right end passes r:
      s[i..r] already repeats, or it contains s[r]. */
  predicate Blocked(s: seq<char>, i: int, r: int)
    requires 0 <= i <= r <= |s|
  {
    !Distinct(s[i..r]) || (r < |s| && s[r] in Elems(s[i..r]))
  }

  lemma GrowDistinct(s: seq<char>, l: int, r: int)
    requires 0 <= l <= r < |s| && Distinct(s[l..r]) && s[r] !in Elems(s[l..r])
    ensures Distinct(s[l..r + 1])
  {
    var t, u := s[l..r], s[l..r + 1];
    forall a, b | 0 <= a < b < |u|
      ensures u[a] != u[b]
    {
      if b == |t| {
        assert t[a] in Elems(t);
      } else {
        assert t[a] == u[a] && t[b] == u[b];
      }
    }
  }

  /** A blocked start stays blocked when the window's right end moves on. */
  lemma StayBlocked(s: seq<char>, i: int, r: int)
    requires 0 <= i <= r < |s| && Blocked(s, i, r)
    ensures !Distinct(s[i..r + 1])
  {
    if !Distinct(s[i..r]) {
      var a, b :| 0 <= a < b < r - i && s[i..r][a] == s[i..r][b];
      assert s[i..r + 1][a] == s[i..r + 1][b];
    } else {
      var k :| 0 <= k < r - i && s[i..r][k] == s[r];
      assert s[i..r + 1][k] == s[i..r + 1][r - i];
    }
  }

  lemma EmptyDistinct(s: seq<char>)
    ensures Distinct(s[0..0])
  {
  }

  lemma ElemsSnoc(t: seq<char>, c: char)
    ensures Elems(t + [c]) == Elems(t) + {c}
  {
    var u := t + [c];
    forall x | x in Elems(u)
      ensures x in Elems(t) + {c}
    {
      var k :| 0 <= k < |u| && u[k] == x;
      if k < |t| {
        assert t[k] == x;
      }
    }
    forall x | x in Elems(t)
      ensures x in Elems(u)
    {
      var k :| 0 <= k < |t| && t[k] == x;
      assert u[k] == x;
    }
    assert u[|t|] == c;
  }

  /** Taking in a character new to the window: the window stays repeat-free, every start left
      of it stays blocked, and no repeat-free substring ending by r + 1 is longer than the
      best so far or the new window. */
  lemma Grow(s: seq<char>, l: int, r: int, result: int)
    requires 0 <= l <= r < |s| && Distinct(s[l..r]) && s[r] !in Elems(s[l..r])
    requires forall i :: 0 <= i < l ==> Blocked(s, i, r)
    requires forall i, j :: 0 <= i <= j <= r && Distinct(s[i..j]) ==> j - i <= result
    ensures Distinct(s[l..r + 1]) && Elems(s[l..r + 1]) == Elems(s[l..r]) + {s[r]}
    ensures forall i {:trigger Blocked(s, i, r + 1)} :: 0 <= i < l ==> Blocked(s, i, r + 1)
    ensures forall i, j :: 0 <= i <= j <= r + 1 && Distinct(s[i..j]) ==>
      j - i <= (if result < r + 1 - l then r + 1 - l else result)
  {
    GrowDistinct(s, l, r);
    assert s[l..r + 1] == s[l..r] + [s[r]];
    ElemsSnoc(s[l..r], s[r]);
    var r1 := r + 1;
    forall i | 0 <= i < l
      ensures Blocked(s, i, r1)
    {
      StayBlocked(s, i, r);
    }
    forall i, j | 0 <= i <= j <= r1 && Distinct(s[i..j])
      ensures j - i <= (if result < r1 - l then r1 - l else result)
    {
      if j == r1 && i < l {
        StayBlocked(s, i, r);
      }
    }
  }

  /** Dropping the leftmost character while the next character is still in the window keeps
      the set equal to the window, and the dropped start is blocked. */
  lemma Shrink(s: seq<char>, l: int, r: int)
    requires 0 <= l <= r < |s| && Distinct(s[l..r]) && s[r] in Elems(s[l..r])
    ensures l < r && Distinct(s[l + 1..r]) && Blocked(s, l, r)
    ensures Elems(s[l + 1..r]) == Elems(s[l..r]) - {s[l]}
  {
    var t, u := s[l..r], s[l + 1..r];
    assert t == [s[l]] + u;
    forall x | x in Elems(t) - {s[l]}
      ensures x in Elems(u)
    {
      var k :| 0 <= k < |t| && t[k] == x;
      assert u[k - 1] == x;
    }
    forall x | x in Elems(u)
      ensures x in Elems(t) - {s[l]}
    {
      var k :| 0 <= k < |u| && u[k] == x;
      assert t[k + 1] == x;
    }
  }

  /** lengthOfLongestSubstring: grow the window while the next character is new; otherwise
      drop characters from the left until it is. */
  method LengthOfLongestSubstring(s: seq<char>) returns (result: int)
    ensures 0 <= result <= |s|
    ensures forall i, j :: 0 <= i <= j <= |s| && Distinct(s[i..j]) ==> j - i <= result
    ensures exists i, j :: 0 <= i <= j <= |s| && Distinct(s[i..j]) && j - i == result
  {
    result := 0;
    var alphabets: set<char> := {};
    var l, r := 0, 0;
    var len := 0;
    ghost var bi, bj := 0, 0;
    EmptyDistinct(s);
    while r < |s|
      invariant 0 <= l <= r <= |s| && len == r - l
      invariant alphabets == Elems(s[l..r]) && Distinct(s[l..r])
      invariant forall i :: 0 <= i < l ==> Blocked(s, i, r)
      invariant forall i, j :: 0 <= i <= j <= r && Distinct(s[i..j]) ==> j - i <= result
      invariant 0 <= bi <= bj <= |s| && Distinct(s[bi..bj]) && bj - bi == result
      decreases |s| - r, r - l
    {
      if s[r] !in alphabets {
        Grow(s, l, r, result);
        alphabets := alphabets + {s[r]};
        r := r + 1;
        len := len + 1;
      } else {
        while s[r] in alphabets
          invariant 0 <= l <= r && len == r - l
          invariant alphabets == Elems(s[l..r]) && Distinct(s[l..r])
          invariant forall i :: 0 <= i < l ==> Blocked(s, i, r)
          decreases r - l
        {
          Shrink(s, l, r);
          alphabets := alphabets - {s[l]};
          l := l + 1;
          len := len - 1;
        }
      }
      if result < len {
        result := len;
        bi, bj := l, r;
      }
    }
  }
}
