// LeetCode 771: count the stones that are jewels, by sorting copies of both strings and
// walking them with two iterators.
module JewelsAndStones {
  import opened Sorting

  /** The number of stones whose character occurs among the jewels. */
  function Matches(stones: seq<char>, jewels: seq<char>): (n: nat)
    ensures n <= |stones|
  {
    if stones == [] then 0
    else
      var last := stones[|stones| - 1];
      Matches(stones[..|stones| - 1], jewels) + (if last in jewels then 1 else 0)
  }

  ghost predicate Ascending(s: seq<char>)
  {
    forall p, q :: 0 <= p < q < |s| ==> s[p] <= s[q]
  }

  /** numJewelsInStones: both strings are by-value copies, sorted before the scan. */
  method NumJewelsInStones(jewels: string, stones: string) returns (result: int)
    ensures result == Matches(stones, jewels)
    ensures result <= |stones|
  {
    var js := new char[|jewels|](k requires 0 <= k < |jewels| => jewels[k]);
    var ss := new char[|stones|](k requires 0 <= k < |stones| => stones[k]);
    assert js[..] == jewels && ss[..] == stones;
    Sort(js, (x: char, y: char) => x <= y);
    Sort(ss, (x: char, y: char) => x <= y);
    result := CountJewels(js, ss);
    MatchesPermutation(ss[..], stones, js[..]);
    MatchesSameJewels(stones, js[..], jewels);
  }

  /** The two-iterator scan over sorted jewels and stones; every step advances one iterator. */
  method CountJewels(js: array<char>, ss: array<char>) returns (result: int)
    requires Ascending(js[..]) && Ascending(ss[..])
    ensures result == Matches(ss[..], js[..])
  {
    ghost var J, S := js[..], ss[..];
    result := 0;
    var j, s := 0, 0;
    while j < js.Length && s < ss.Length
      invariant 0 <= j <= |J| && 0 <= s <= |S|
      invariant result == Matches(S[..s], J)
      invariant s < |S| ==> forall p :: 0 <= p < j ==> J[p] < S[s]
      decreases |J| + |S| - j - s
    {
      assert S[..s + 1] == S[..s] + [S[s]] && (S[..s] + [S[s]])[..s] == S[..s];
      if ss[s] == js[j] {
        result := result + 1;
        s := s + 1;
      } else if ss[s] > js[j] {
        j := j + 1;
      } else {
        NotAJewel(J, j, S[s]);
        s := s + 1;
      }
    }
    if s < |S| {
      RestNotJewels(S, s, J);
    }
    assert S[..|S|] == S;
  }

  /** A stone below jewel j and above every earlier jewel is no jewel at all. */
  lemma NotAJewel(J: seq<char>, j: int, c: char)
    requires Ascending(J) && 0 <= j < |J| && c < J[j]
    requires forall p :: 0 <= p < j ==> J[p] < c
    ensures c !in J
  {
    forall p | 0 <= p < |J|
      ensures J[p] != c
    {
      if p > j {
        assert J[j] <= J[p];
      }
    }
  }

  /** Once the jewels are used up below S[s], none of the remaining stones is a jewel. */
  lemma {:induction false} RestNotJewels(S: seq<char>, s: int, J: seq<char>)
    requires Ascending(S) && 0 <= s < |S|
    requires forall p :: 0 <= p < |J| ==> J[p] < S[s]
    ensures Matches(S, J) == Matches(S[..s], J)
    decreases |S|
  {
    var n := |S|;
    if n - 1 > s {
      assert S[..n - 1][..s] == S[..s];
      RestNotJewels(S[..n - 1], s, J);
    } else {
      assert S[..n - 1] == S[..s];
    }
    assert S[s] <= S[n - 1];
  }

  /** Matches depends only on which characters the jewels contain. */
  lemma {:induction false} MatchesSameJewels(s: seq<char>, J1: seq<char>, J2: seq<char>)
    requires multiset(J1) == multiset(J2)
    ensures Matches(s, J1) == Matches(s, J2)
    decreases |s|
  {
    if s != [] {
      var c := s[|s| - 1];
      assert c in J1 <==> c in multiset(J1);
      assert c in J2 <==> c in multiset(J2);
      MatchesSameJewels(s[..|s| - 1], J1, J2);
    }
  }

  /** Matches counts stones, so reordering the stones does not change it. */
  lemma {:induction false} MatchesPermutation(s: seq<char>, t: seq<char>, J: seq<char>)
    requires multiset(s) == multiset(t)
    ensures Matches(s, J) == Matches(t, J)
    decreases |s|
  {
    if s != [] {
      var x := s[|s| - 1];
      var init := s[..|s| - 1];
      assert s == init + [x];
      assert x in multiset(t);
      var k :| 0 <= k < |t| && t[k] == x;
      var rest := t[..k] + t[k + 1..];
      assert t == t[..k] + [x] + t[k + 1..];
      assert multiset(s) == multiset(init) + multiset{x};
      assert multiset(t) == multiset(t[..k]) + multiset{x} + multiset(t[k + 1..]);
      assert multiset(rest) == multiset(t[..k]) + multiset(t[k + 1..]);
      assert multiset(init) == multiset(s) - multiset{x};
      assert multiset(rest) == multiset(t) - multiset{x};
      MatchesPermutation(init, rest, J);
      MatchesRemove(t, k, J);
    }
  }

  /** Removing the stone at k removes exactly its own contribution. */
  lemma {:induction false} MatchesRemove(t: seq<char>, k: int, J: seq<char>)
    requires 0 <= k < |t|
    ensures Matches(t, J) == Matches(t[..k] + t[k + 1..], J) + (if t[k] in J then 1 else 0)
    decreases |t|
  {
    var n := |t|;
    var u := t[..n - 1];
    assert t == u + [t[n - 1]];
    if k == n - 1 {
      assert t[..k] + t[k + 1..] == u;
    } else {
      var uk := u[..k] + u[k + 1..];
      assert t[..k] + t[k + 1..] == uk + [t[n - 1]];
      assert (uk + [t[n - 1]])[..|uk|] == uk;
      assert u[k] == t[k];
      MatchesRemove(u, k, J);
    }
  }
}
