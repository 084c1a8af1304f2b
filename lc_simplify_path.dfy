// LeetCode 71: canonical form of an absolute Unix path, with the stack of kept directory
// names kept in the solution object.
module SimplifyPath {

  /** A directory name that survives simplification. */
  predicate Component(x: string)
  {
    x != "" && x != "." && x != ".." && NoSlash(x)
  }

  predicate NoSlash(x: string)
  {
    x == [] || (x[0] != '/' && NoSlash(x[1..]))
  }

  predicate Components(st: seq<string>)
  {
    forall i :: 0 <= i < |st| ==> Component(st[i])
  }

  /** find("/"): the first index of a slash, or -1 for npos. */
  function FindSlash(p: string): (k: int)
    ensures -1 <= k < |p|
    ensures k >= 0 ==> p[k] == '/' && NoSlash(p[..k])
    ensures k < 0 ==> NoSlash(p)
  {
    if p == [] then -1
    else if p[0] == '/' then 0
    else
      var k := FindSlash(p[1..]);
      assert k >= 0 ==> p[..k + 1][1..] == p[1..][..k];
      if k < 0 then -1 else k + 1
  }

  /** The pieces of p in front of each of its slashes, in order. */
  function Tokens(p: string): seq<string>
    decreases |p|
  {
    var k := FindSlash(p);
    if k < 0 then [] else [p[..k]] + Tokens(p[k + 1..])
  }

  /** One token applied to the stack: empty and "." are skipped, ".." pops unless the stack is
      empty, and any other name is pushed. */
  function Apply(st: seq<string>, tok: string): seq<string>
  {
    if tok == "" || tok == "." then st
    else if tok == ".." then (if st == [] then st else st[..|st| - 1])
    else st + [tok]
  }

  function Fold(st: seq<string>, toks: seq<string>): seq<string>
    decreases |toks|
  {
    if toks == [] then st else Fold(Apply(st, toks[0]), toks[1..])
  }

  /** "/" in front of each name, bottom of the stack first. */
  function Join(st: seq<string>): string
  {
    if st == [] then "" else "/" + st[0] + Join(st[1..])
  }

  /** The answer for path from stack st: "/" when nothing is kept. */
  function Simplified(st: seq<string>, path: string): string
  {
    var j := Join(Fold(st, Tokens(path + "/")));
    if j == "" then "/" else j
  }

  class Solution {
    var argv: seq<string>

    constructor ()
      ensures argv == []
    {
      argv := [];
    }

    /** simplifyPath: a slash is appended, the path is cut at each slash, and the kept names
        are popped off the stack and prepended; the stack is empty afterwards. */
    method SimplifyPath(path: string) returns (r: string)
      modifies this
      ensures argv == []
      ensures r == Simplified(old(argv), path)
    {
      var st := argv;
      var p := path + "/";
      var pos := FindSlash(p);
      while pos >= 0
        invariant pos == FindSlash(p)
        invariant p == "" || p[|p| - 1] == '/'
        invariant Fold(old(argv), Tokens(path + "/")) == Fold(st, Tokens(p))
        decreases |p|
      {
        var token := p[..pos];
        FoldStep(st, p);
        ghost var before := st;
        if token != "" {
          if token == ".." {
            if st != [] {
              st := st[..|st| - 1];
            }
          } else if token != "." {
            st := st + [token];
          }
        }
        assert st == Apply(before, token);
        p := p[pos + 1..];
        pos := FindSlash(p);
      }
      if p != "" {
        NoSlashLast(p);
      }
      ghost var kept := st;
      while st != []
        invariant Join(kept) == Join(st) + p
        decreases |st|
      {
        var top := st[|st| - 1];
        Unwind(st, p);
        p := "/" + top + p;
        st := st[..|st| - 1];
      }
      argv := st;
      r := if p == "" then "/" else p;
    }
  }

  /** Cutting off the first token applies it to the stack. */
  lemma FoldStep(st: seq<string>, p: string)
    requires FindSlash(p) >= 0
    ensures Fold(st, Tokens(p)) == Fold(Apply(st, p[..FindSlash(p)]), Tokens(p[FindSlash(p) + 1..]))
  {
    var k := FindSlash(p);
    var toks := Tokens(p);
    assert toks == [p[..k]] + Tokens(p[k + 1..]);
    assert toks[1..] == Tokens(p[k + 1..]);
  }

  lemma {:induction false} NoSlashLast(x: string)
    requires NoSlash(x) && x != []
    ensures x[|x| - 1] != '/'
    decreases |x|
  {
    if |x| > 1 {
      NoSlashLast(x[1..]);
    }
  }

  /** Popping the top name and prepending it to the text built so far keeps the whole. */
  lemma {:induction false} Unwind(st: seq<string>, p: string)
    requires st != []
    ensures Join(st) + p == Join(st[..|st| - 1]) + ("/" + st[|st| - 1] + p)
  {
    var init, top := st[..|st| - 1], st[|st| - 1];
    assert init + [top] == st;
    JoinSnoc(init, top);
    Regroup(Join(init), "/", top, p);
  }

  /** Re-associates one joined level; kept out of TokensOfJoin, whose context is too large to find it. */
  lemma Regroup5(a: string, b: string, c: string)
    ensures a + ("/" + b + c) + "/" == a + "/" + (b + c + "/")
  {
  }

  lemma Regroup(a: string, b: string, c: string, d: string)
    ensures a + b + c + d == a + (b + c + d)
  {
  }

  lemma {:induction false} JoinSnoc(st: seq<string>, x: string)
    ensures Join(st + [x]) == Join(st) + "/" + x
    decreases |st|
  {
    if st != [] {
      assert (st + [x])[1..] == st[1..] + [x];
      JoinSnoc(st[1..], x);
    } else {
      assert [x][1..] == [];
    }
  }

  /** Only directory names are ever on the stack. */
  lemma {:induction false} FoldComponents(st: seq<string>, p: string)
    requires Components(st)
    ensures Components(Fold(st, Tokens(p)))
    decreases |p|
  {
    var k := FindSlash(p);
    if k >= 0 {
      FoldStep(st, p);
      FoldComponents(Apply(st, p[..k]), p[k + 1..]);
    }
  }

  /** Directory names are pushed one by one. */
  lemma {:induction false} FoldNames(st: seq<string>, kept: seq<string>)
    requires Components(kept)
    ensures Fold(st, kept) == st + kept
    decreases |kept|
  {
    if kept != [] {
      FoldNames(st + [kept[0]], kept[1..]);
      assert st + [kept[0]] + kept[1..] == st + kept;
    }
  }

  /** The first slash after a name is the one right behind it. */
  lemma {:induction false} FindAfterName(x: string, rest: string)
    requires NoSlash(x)
    ensures FindSlash(x + "/" + rest) == |x|
    decreases |x|
  {
    if x != [] {
      assert (x + "/" + rest)[1..] == x[1..] + "/" + rest;
      FindAfterName(x[1..], rest);
    }
  }

  /** A name followed by a slash is the first token. */
  lemma {:induction false} TokensCons(x: string, rest: string)
    requires NoSlash(x)
    ensures Tokens(x + "/" + rest) == [x] + Tokens(rest)
  {
    var p := x + "/" + rest;
    FindAfterName(x, rest);
    assert p[..|x|] == x;
    assert p[|x| + 1..] == rest;
  }

  /** Cutting a joined stack of names at its slashes gives back the names. */
  lemma {:induction false} TokensOfJoin(kept: seq<string>)
    requires Components(kept) && kept != []
    ensures Tokens(kept[0] + Join(kept[1..]) + "/") == kept
    decreases |kept|
  {
    var rest := kept[1..];
    if rest == [] {
      TokensCons(kept[0], "");
      assert kept[0] + Join(rest) + "/" == kept[0] + "/" + "";
      assert Tokens("") == [];
    } else {
      TokensOfJoin(rest);
      var q := rest[0] + Join(rest[1..]) + "/";
      assert Join(rest) == "/" + rest[0] + Join(rest[1..]);
      Regroup5(kept[0], rest[0], Join(rest[1..]));
      assert kept[0] + Join(rest) + "/" == kept[0] + "/" + q;
      TokensCons(kept[0], q);
      assert kept == [kept[0]] + rest;
    }
  }

  /** The root simplifies to itself. */
  lemma RootIsSimplified()
    ensures Simplified([], "/") == "/"
  {
    TokensCons("", "/");
    TokensCons("", "");
    assert "/" + "/" == "" + "/" + ("" + "/" + "");
    assert FindSlash("") == -1;
    assert Tokens("/" + "/") == ["", ""];
    assert Fold([], ["", ""]) == Fold([], [""]) == Fold([], []);
  }

  /** A joined non-empty stack of names simplifies to itself. */
  lemma {:induction false} JoinIsSimplified(kept: seq<string>)
    requires Components(kept) && kept != []
    ensures Simplified([], Join(kept)) == Join(kept)
  {
    var q := kept[0] + Join(kept[1..]) + "/";
    TokensOfJoin(kept);
    assert "/" + kept[0] + Join(kept[1..]) + "/" == "" + "/" + q;
    TokensCons("", q);
    assert Tokens(Join(kept) + "/") == [""] + kept;
    FoldNames([], kept);
    assert Fold([], [""] + kept) == Fold([], kept) by {
      assert ([""] + kept)[1..] == kept;
    }
    assert Fold([], Tokens(Join(kept) + "/")) == kept;
    assert |Join(kept)| > 0;
  }

  /** A simplified path is already simplified. */
  lemma Idempotent(path: string)
    ensures Simplified([], Simplified([], path)) == Simplified([], path)
  {
    var kept := Fold([], Tokens(path + "/"));
    FoldComponents([], path + "/");
    if kept == [] {
      RootIsSimplified();
    } else {
      JoinIsSimplified(kept);
    }
  }
}
