// LeetCode 58: the length of the last word. The scan runs over every character and the
// string's terminating '\0'; a space or a '\0' ends a word.
module LastWord {

  predicate IsSeparator(c: char)
  {
    c == ' ' || c == '\0'
  }

  /** The characters the iterator loop visits: the string and then its terminator. */
  function Scanned(s: string): (t: string)
    ensures |t| == |s| + 1 && t[|s|] == '\0' && t[..|s|] == s
  {
    s + ['\0']
  }

  /** t without its trailing separators. */
  function TrimEnd(t: string): (u: string)
    ensures |u| <= |t| && u == t[..|u|]
    ensures forall k :: |u| <= k < |t| ==> IsSeparator(t[k])
    ensures u == [] || !IsSeparator(u[|u| - 1])
  {
    if t == [] || !IsSeparator(t[|t| - 1]) then t else TrimEnd(t[..|t| - 1])
  }

  /** The number of non-separators at the end of t. */
  function TailRun(t: string): (n: nat)
    ensures n <= |t|
    ensures forall k :: |t| - n <= k < |t| ==> !IsSeparator(t[k])
    ensures n < |t| ==> IsSeparator(t[|t| - n - 1])
  {
    if t == [] || IsSeparator(t[|t| - 1]) then 0 else TailRun(t[..|t| - 1]) + 1
  }

  /** The length of the last word of t: the run of non-separators before the trailing separators. */
  function LastWordLength(t: string): nat
  {
    TailRun(TrimEnd(t))
  }

  /** lengthOfLastWord: current counts the run being read; a separator hands a non-empty run
      over to result. */
  method LengthOfLastWord(s: string) returns (result: int)
    ensures result == LastWordLength(s)
  {
    var t := Scanned(s);
    var current := 0;
    result := 0;
    for i := 0 to |t|
      invariant current == TailRun(t[..i])
      invariant result == LastWordLength(t[..i - current])
    {
      ScanStep(t, i);
      if IsSeparator(t[i]) {
        if current != 0 {
          result := current;
        }
        current := 0;
      } else {
        current := current + 1;
      }
    }
    assert t[..|t|] == t;
    TerminatorIsTrimmed(s);
  }

  /** Reading t[i]: a separator ends the run and leaves the last word unchanged; any other
      character extends the run. */
  lemma ScanStep(t: string, i: int)
    requires 0 <= i < |t|
    ensures IsSeparator(t[i]) ==> TailRun(t[..i + 1]) == 0 && TrimEnd(t[..i + 1]) == TrimEnd(t[..i])
    ensures !IsSeparator(t[i]) ==> TailRun(t[..i + 1]) == TailRun(t[..i]) + 1
  {
    assert t[..i + 1][..i] == t[..i];
  }

  /** The terminator is a separator, so it does not change the last word. */
  lemma TerminatorIsTrimmed(s: string)
    ensures LastWordLength(Scanned(s)) == LastWordLength(s)
  {
    assert Scanned(s)[..|s|] == s;
  }

  /** The last word is a maximal run of non-separators, followed only by separators; it is
      empty exactly when the string has no non-separator at all. */
  lemma {:induction false} LastWordIsLastRun(s: string)
    ensures var e, n := |TrimEnd(s)|, LastWordLength(s);
      n <= e <= |s| &&
      (forall k :: e - n <= k < e ==> !IsSeparator(s[k])) &&
      (e - n > 0 ==> IsSeparator(s[e - n - 1])) &&
      (forall k :: e <= k < |s| ==> IsSeparator(s[k]))
    ensures LastWordLength(s) == 0 <==> forall k :: 0 <= k < |s| ==> IsSeparator(s[k])
  {
    var u := TrimEnd(s);
    var n := TailRun(u);
    if n == 0 && u == [] {
      assert forall k :: 0 <= k < |s| ==> IsSeparator(s[k]);
    }
    forall k | |u| - n <= k < |u|
      ensures !IsSeparator(s[k])
    {
      assert u[k] == s[k];
    }
  }
}
