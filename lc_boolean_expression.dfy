// LeetCode 1106: evaluate a boolean expression such as "|(f,&(t,!(f)))" with a character
// stack kept in the solution object.
module BooleanExpression {
  import opened Wrappers

  /** The expressions the input encodes: t, f, !(e), &(e1,...,en) and |(e1,...,en). */
  datatype Expr = True | False | Not(arg: Expr) | And(args: seq<Expr>) | Or(args: seq<Expr>)

  /** Every operator has at least one operand. */
  predicate WellFormed(e: Expr)
    decreases e, 1
  {
    match e
    case True => true
    case False => true
    case Not(a) => WellFormed(a)
    case And(args) => args != [] && AllWellFormed(args)
    case Or(args) => args != [] && AllWellFormed(args)
  }

  predicate AllWellFormed(args: seq<Expr>)
    decreases args, 0
  {
    args == [] || (WellFormed(args[0]) && AllWellFormed(args[1..]))
  }

  function Eval(e: Expr): bool
    decreases e, 1
  {
    match e
    case True => true
    case False => false
    case Not(a) => !Eval(a)
    case And(args) => AllHold(args)
    case Or(args) => AnyHolds(args)
  }

  function AllHold(args: seq<Expr>): bool
    decreases args, 0
  {
    args == [] || (Eval(args[0]) && AllHold(args[1..]))
  }

  function AnyHolds(args: seq<Expr>): bool
    decreases args, 0
  {
    args != [] && (Eval(args[0]) || AnyHolds(args[1..]))
  }

  /** The text of an expression. */
  function Render(e: Expr): string
    decreases e, 1
  {
    match e
    case True => "t"
    case False => "f"
    case Not(a) => "!(" + Render(a) + ")"
    case And(args) => "&(" + RenderArgs(args) + ")"
    case Or(args) => "|(" + RenderArgs(args) + ")"
  }

  /** Operands separated by commas. */
  function RenderArgs(args: seq<Expr>): string
    decreases args, 0
  {
    if args == [] then ""
    else if |args| == 1 then Render(args[0])
    else Render(args[0]) + "," + RenderArgs(args[1..])
  }

  function Value(b: bool): char
  {
    if b then 't' else 'f'
  }

  /** What evaluating an expression leaves on the stack: its value, above its operator. */
  function Residue(e: Expr): string
  {
    match e
    case True => "t"
    case False => "f"
    case Not(_) => ['!', Value(Eval(e))]
    case And(_) => ['&', Value(Eval(e))]
    case Or(_) => ['|', Value(Eval(e))]
  }

  function Residues(args: seq<Expr>): string
  {
    if args == [] then "" else Residue(args[0]) + Residues(args[1..])
  }

  /** How many times c occurs in st. */
  function Count(st: string, c: char): nat
  {
    if st == [] then 0 else Count(st[..|st| - 1], c) + (if st[|st| - 1] == c then 1 else 0)
  }

  /** The do-while loop on ')': pop and count the t and f entries until the top is '('.
      Reading the top of an empty stack is undefined and gives None. */
  function Gather(st: string, nTrue: nat, nFalse: nat): (g: Option<(string, nat, nat)>)
    ensures g.Some? ==> 0 < |g.value.0| < |st| && g.value.0[|g.value.0| - 1] == '('
    ensures g.Some? ==> nTrue <= g.value.1 && nFalse <= g.value.2
    decreases |st|
  {
    if st == [] then None
    else
      var top := st[|st| - 1];
      var t := if top == 't' then nTrue + 1 else nTrue;
      var f := if top == 'f' then nFalse + 1 else nFalse;
      var rest := st[..|st| - 1];
      if rest == [] then None
      else if rest[|rest| - 1] == '(' then Some((rest, t, f))
      else Gather(rest, t, f)
  }

  /** The switch on the operator under '(': the character pushed, or nothing for any other. */
  function Result(op: char, nTrue: nat, nFalse: nat): string
  {
    if op == '!' then [Value(nFalse > 0)]
    else if op == '&' then [Value(nFalse == 0)]
    else if op == '|' then [Value(nTrue > 0)]
    else []
  }

  /** One character of input: ')' closes a group, ',' is skipped, anything else is pushed. */
  function Step(st: string, c: char): Option<string>
  {
    if c == ')' then
      match Gather(st, 0, 0)
      case None => None
      case Some(g) =>
        var below := g.0[..|g.0| - 1];
        if below == [] then None else Some(below + Result(below[|below| - 1], g.1, g.2))
    else if c == ',' then Some(st)
    else Some(st + [c])
  }

  /** The stack after reading all of input, or None when a step reads an empty stack. */
  function Run(st: string, input: string): Option<string>
    decreases |input|
  {
    if input == [] then Some(st)
    else
      match Step(st, input[0])
      case None => None
      case Some(next) => Run(next, input[1..])
  }

  class Solution {
    var s: string

    constructor ()
      ensures s == []
    {
      s := [];
    }

    /** parseBoolExpr: the answer is whether the top of the stack is 't'; the stack is never
        cleared, so what an expression leaves stays there for the next call. */
    method ParseBoolExpr(expression: string) returns (r: bool)
      requires Run(s, expression).Some? && Run(s, expression).value != []
      modifies this
      ensures Run(old(s), expression) == Some(s)
      ensures r <==> s[|s| - 1] == 't'
    {
      var st := s;
      for i := 0 to |expression|
        invariant Run(old(s), expression) == Run(st, expression[i..])
        invariant Run(st, expression[i..]).Some?
      {
        assert expression[i..][1..] == expression[i + 1..];
        var c := expression[i];
        ghost var next := Step(st, c);
        assert Run(st, expression[i..]) == if next.None? then None else Run(next.value, expression[i + 1..]);
        if c == ')' {
          var rest, nTrue, nFalse := PopOperands(st);
          st := rest[..|rest| - 1];
          var op := st[|st| - 1];
          ghost var pushed := Result(op, nTrue, nFalse);
          ghost var below := st;
          assert next == Some(below + pushed);
          if op == '!' {
            st := st + [if nFalse > 0 then 't' else 'f'];
          } else if op == '&' {
            st := st + [if nFalse > 0 then 'f' else 't'];
          } else if op == '|' {
            st := st + [if nTrue > 0 then 't' else 'f'];
          } else {
            assert below + pushed == below;
          }
        } else if c != ',' {
          st := st + [c];
        }
        assert next == Some(st);
      }
      assert expression[|expression|..] == [];
      s := st;
      r := s[|s| - 1] == 't';
    }
  }

  /** The do-while loop that pops the operands of a group down to its '(' and counts them. */
  method PopOperands(st: string) returns (rest: string, nTrue: nat, nFalse: nat)
    requires Gather(st, 0, 0).Some?
    ensures Gather(st, 0, 0) == Some((rest, nTrue, nFalse))
  {
    rest, nTrue, nFalse := st, 0, 0;
    while true
      invariant Gather(rest, nTrue, nFalse) == Gather(st, 0, 0)
      decreases |rest|
    {
      var top := rest[|rest| - 1];
      if top == 't' {
        nTrue := nTrue + 1;
      } else if top == 'f' {
        nFalse := nFalse + 1;
      }
      rest := rest[..|rest| - 1];
      if rest[|rest| - 1] == '(' {
        return;
      }
    }
  }

  /** Reading a concatenation reads the second part from where the first left off. */
  lemma {:induction false} RunConcat(st: string, a: string, b: string)
    ensures Run(st, a + b) == if Run(st, a).None? then None else Run(Run(st, a).value, b)
    decreases |a|
  {
    if a == [] {
      assert a + b == b;
    } else {
      assert (a + b)[0] == a[0] && (a + b)[1..] == a[1..] + b;
      var next := Step(st, a[0]);
      if next.Some? {
        RunConcat(next.value, a[1..], b);
      }
    }
  }

  lemma {:induction false} CountConcat(a: string, b: string, c: char)
    ensures Count(a + b, c) == Count(a, c) + Count(b, c)
    decreases |b|
  {
    if b == [] {
      assert a + b == a;
    } else {
      var ab := a + b;
      assert ab[..|ab| - 1] == a + b[..|b| - 1];
      CountConcat(a, b[..|b| - 1], c);
    }
  }

  predicate NoOpen(st: string)
  {
    forall i :: 0 <= i < |st| ==> st[i] != '('
  }

  /** The do-while loop on a group pops exactly the operands above its '(' and counts them. */
  lemma {:induction false} GatherGroup(base: string, block: string, nTrue: nat, nFalse: nat)
    requires block != [] && NoOpen(block)
    ensures Gather(base + ['('] + block, nTrue, nFalse) ==
      Some((base + ['('], nTrue + Count(block, 't'), nFalse + Count(block, 'f')))
    decreases |block|
  {
    var st := base + ['('] + block;
    var top, init := block[|block| - 1], block[..|block| - 1];
    assert st[..|st| - 1] == base + ['('] + init;
    var t := if top == 't' then nTrue + 1 else nTrue;
    var f := if top == 'f' then nFalse + 1 else nFalse;
    if init == [] {
      assert Count(init, 't') == 0 && Count(init, 'f') == 0;
    } else {
      GatherGroup(base, init, t, f);
    }
  }

  /** Closing a group whose operands left block on the stack replaces the group by the
      operator and what the switch pushes for it. */
  lemma {:induction false} CloseGroup(st: string, op: char, block: string)
    requires block != [] && NoOpen(block)
    ensures Step(st + [op, '('] + block, ')') == Some(st + [op] + Result(op, Count(block, 't'), Count(block, 'f')))
  {
    assert st + [op, '('] + block == (st + [op]) + ['('] + block;
    GatherGroup(st + [op], block, 0, 0);
    assert (st + [op] + ['('])[..|st| + 1] == st + [op];
  }

  /** Reading a group "op(" inner ")" whose inner text leaves block above the '('. */
  lemma {:induction false} ReadGroup(st: string, op: char, inner: string, block: string)
    requires op != ')' && op != ',' && block != [] && NoOpen(block)
    requires Run(st + [op, '('], inner) == Some(st + [op, '('] + block)
    ensures Run(st, [op, '('] + inner + [')']) == Some(st + [op] + Result(op, Count(block, 't'), Count(block, 'f')))
  {
    RunConcat(st, [op, '('], inner);
    RunConcat(st, [op, '('] + inner, [')']);
    assert Run(st, [op, '(']) == Some(st + [op, '(']) by {
      assert [op, '('][1..] == ['('];
      assert Run(st + [op], ['(']) == Run(st + [op] + ['('], []);
      assert st + [op] + ['('] == st + [op, '('];
    }
    CloseGroup(st, op, block);
    assert Run(st + [op, '('] + block, [')']) == Run(Step(st + [op, '('] + block, ')').value, []);
  }

  /** An operand leaves its value as the only t or f it puts on the stack. */
  lemma {:induction false} ResidueCounts(e: Expr)
    ensures NoOpen(Residue(e)) && Residue(e) != []
    ensures Count(Residue(e), 't') == (if Eval(e) then 1 else 0)
    ensures Count(Residue(e), 'f') == (if Eval(e) then 0 else 1)
  {
    var r := Residue(e);
    assert Count(r[..|r| - 1], 't') == 0 && Count(r[..|r| - 1], 'f') == 0 by {
      if |r| == 2 {
        assert r[..1][..0] == [];
      }
    }
  }

  /** The operands of a group leave one value each: there is an f among them exactly when
      not all hold, and a t exactly when one holds. */
  lemma {:induction false} ResiduesCounts(args: seq<Expr>)
    ensures NoOpen(Residues(args))
    ensures Count(Residues(args), 'f') > 0 <==> !AllHold(args)
    ensures Count(Residues(args), 't') > 0 <==> AnyHolds(args)
  {
    if args != [] {
      ResidueCounts(args[0]);
      ResiduesCounts(args[1..]);
      CountConcat(Residue(args[0]), Residues(args[1..]), 'f');
      CountConcat(Residue(args[0]), Residues(args[1..]), 't');
    } else {
      assert Residues(args) == [];
    }
  }

  /** Reading a well-formed expression leaves exactly its residue on top of whatever the
      stack held before. */
  lemma {:induction false} ReadExpr(st: string, e: Expr)
    requires WellFormed(e)
    ensures Run(st, Render(e)) == Some(st + Residue(e))
    decreases e, 1
  {
    match e
    case True =>
      assert Run(st, "t") == Run(st + "t", []);
    case False =>
      assert Run(st, "f") == Run(st + "f", []);
    case Not(a) =>
      ReadExpr(st + ['!', '('], a);
      ResidueCounts(a);
      assert Render(e) == ['!', '('] + Render(a) + [')'];
      ReadGroup(st, '!', Render(a), Residue(a));
      assert Result('!', Count(Residue(a), 't'), Count(Residue(a), 'f')) == [Value(Eval(e))];
      assert st + ['!'] + [Value(Eval(e))] == st + Residue(e);
    case And(args) =>
      ReadArgs(st + ['&', '('], args);
      ResiduesCounts(args);
      assert Render(e) == ['&', '('] + RenderArgs(args) + [')'];
      ReadGroup(st, '&', RenderArgs(args), Residues(args));
      assert st + ['&'] + [Value(Eval(e))] == st + Residue(e);
    case Or(args) =>
      ReadArgs(st + ['|', '('], args);
      ResiduesCounts(args);
      assert Render(e) == ['|', '('] + RenderArgs(args) + [')'];
      ReadGroup(st, '|', RenderArgs(args), Residues(args));
      assert st + ['|'] + [Value(Eval(e))] == st + Residue(e);
  }

  /** Reading comma-separated operands leaves their residues in order. */
  lemma {:induction false} ReadArgs(st: string, args: seq<Expr>)
    requires args != [] && AllWellFormed(args)
    ensures Run(st, RenderArgs(args)) == Some(st + Residues(args)) && Residues(args) != []
    decreases args, 0
  {
    ReadExpr(st, args[0]);
    ResidueCounts(args[0]);
    var first := Render(args[0]);
    var mid := st + Residue(args[0]);
    if |args| == 1 {
      assert Residues(args) == Residue(args[0]) + Residues([]);
      assert Residues(args) == Residue(args[0]);
      assert RenderArgs(args) == first;
    } else {
      ReadArgs(mid, args[1..]);
      RunConcat(st, first, "," + RenderArgs(args[1..]));
      RunConcat(mid, ",", RenderArgs(args[1..]));
      assert Run(mid, ",") == Some(mid);
      assert Residues(args) == Residue(args[0]) + Residues(args[1..]);
      AppendAssoc(st, Residue(args[0]), Residues(args[1..]));
      assert RenderArgs(args) == first + ("," + RenderArgs(args[1..]));
    }
  }

  lemma AppendAssoc(a: string, b: string, c: string)
    ensures a + b + c == a + (b + c)
  {
  }

  /** Reading a well-formed expression never reads an empty stack, and the call answers its
      value; what it leaves stays on the stack. */
  lemma {:induction false} Evaluates(st: string, e: Expr)
    requires WellFormed(e)
    ensures Run(st, Render(e)) == Some(st + Residue(e))
    ensures (st + Residue(e))[|st + Residue(e)| - 1] == 't' <==> Eval(e)
  {
    ReadExpr(st, e);
  }
}
