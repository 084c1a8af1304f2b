// LeetCode 14: the longest common prefix of a list of strings, found column by column.
// std::string's operator[] at index size() yields the terminating '\0'.
module CommonPrefix {

  /** The character a C++ string yields at idx, which may be its terminator. */
  function CharAt(s: string, idx: int): char
    requires 0 <= idx <= |s|
  {
    if idx < |s| then s[idx] else '\0'
  }

  /** p is a prefix of every string in strs. */
  ghost predicate IsCommonPrefix(strs: seq<string>, p: string)
  {
    forall i :: 0 <= i < |strs| ==> |p| <= |strs[i]| && strs[i][..|p|] == p
  }

  /** Column idx is shared: strs[0] has a character other than '\0' there, and every string
      has that same character there. */
  predicate Shared(strs: seq<string>, idx: int)
    requires |strs| > 0 && 0 <= idx
  {
    idx < |strs[0]| && strs[0][idx] != '\0' &&
    forall i :: 0 <= i < |strs| ==> idx < |strs[i]| && strs[i][idx] == strs[0][idx]
  }

  /** checkBit: column idx is shared when strs[0] has a character other than '\0' there and
      every other string has the same character there. */
  method CheckBit(strs: seq<string>, idx: int) returns (b: bool)
    requires |strs| > 0
    requires 0 <= idx && forall i :: 0 <= i < |strs| ==> idx <= |strs[i]|
    ensures b <==> Shared(strs, idx)
  {
    var c := CharAt(strs[0], idx);
    if c == '\0' {
      return false;
    }
    for i := 1 to |strs|
      invariant forall i' :: 0 <= i' < i ==> idx < |strs[i']| && strs[i'][idx] == c
    {
      if CharAt(strs[i], idx) != c {
        return false;
      }
    }
    return true;
  }

  /** longestCommonPrefix: the result is strs[0] up to the first column checkBit rejects. */
  method LongestCommonPrefix(strs: seq<string>) returns (sol: string)
    requires |strs| > 0
    ensures IsCommonPrefix(strs, sol) && '\0' !in sol
    ensures forall p :: IsCommonPrefix(strs, p) && '\0' !in p ==> |p| <= |sol|
  {
    var idx := 0;
    var more := CheckBit(strs, idx);
    while more
      invariant 0 <= idx <= |strs[0]| && IsCommonPrefix(strs, strs[0][..idx])
      invariant '\0' !in strs[0][..idx]
      invariant more <==> Shared(strs, idx)
      decreases |strs[0]| - idx
    {
      ExtendPrefix(strs, idx);
      idx := idx + 1;
      more := CheckBit(strs, idx);
    }
    sol := strs[0][..idx];
    forall p | IsCommonPrefix(strs, p) && '\0' !in p
      ensures |p| <= |sol|
    {
      if |p| > idx {
        LongerPrefixSharesColumn(strs, idx, p);
      }
    }
  }

  /** A shared column extends the common prefix by one character. */
  lemma ExtendPrefix(strs: seq<string>, idx: int)
    requires |strs| > 0 && 0 <= idx && Shared(strs, idx)
    requires IsCommonPrefix(strs, strs[0][..idx]) && '\0' !in strs[0][..idx]
    ensures IsCommonPrefix(strs, strs[0][..idx + 1]) && '\0' !in strs[0][..idx + 1]
  {
    assert strs[0][..idx + 1] == strs[0][..idx] + [strs[0][idx]];
    forall i | 0 <= i < |strs|
      ensures strs[i][..idx + 1] == strs[0][..idx + 1]
    {
      assert strs[i][..idx + 1] == strs[i][..idx] + [strs[i][idx]];
    }
  }

  /** A common prefix without '\0' that reaches past column idx makes column idx shared, so
      a rejected column bounds every such prefix. */
  lemma LongerPrefixSharesColumn(strs: seq<string>, idx: int, p: string)
    requires |strs| > 0 && 0 <= idx < |p|
    requires IsCommonPrefix(strs, p) && '\0' !in p
    ensures Shared(strs, idx)
  {
    assert strs[0][..|p|] == p;
    assert strs[0][idx] == p[idx];
    forall i | 0 <= i < |strs|
      ensures idx < |strs[i]| && strs[i][idx] == strs[0][idx]
    {
      assert strs[i][..|p|] == p;
      assert strs[i][idx] == p[idx];
    }
  }
}
