/** Scenarios of the engine on short texts built from arbitrary literals. They
    pin down how the engine behaves across calls: what a failed `Run` or a
    failed `Parse` leaves behind. */
module Examples {
  import opened Tokens
  import opened Normalize
  import opened Literals
  import opened Lexer
  import opened Convert
  import opened Evaluate
  import opened Engine
  import opened Trees
  import opened Chains

  // ---------------------------------------------------------------------
  // A failed run leaves its values on the stack.

  lemma CalmTrailingPlus(n: nat)
    ensures Calm(Render(n) + "+")
  {
    var r := Render(n);
    CalmRender(n);
    assert IsDigit(Last(r));
    CalmJoin(r, Plus, []);
    assert r + [Char(Plus)] + [] == r + "+";
  }

  /** The scanner reads `n+` as a value and an operator. */
  lemma ScanTrailingPlus(n: nat)
    ensures Scan([], Render(n) + "+") == Lexed([Num(n as real), Op(Plus)], Pass)
  {
    ScanLiteral(n, "+");
    ScanAtSymbol('+', []);
    assert "+" == ['+'] + [];
  }

  /** `n+` reads as a value and an operator. */
  lemma TokenizeTrailingPlus(n: nat)
    ensures var t := Render(n) + "+";
      Normalized(t) == t && Tokenize(t) == Lexed([Num(n as real), Op(Plus)], Pass)
  {
    var t := Render(n) + "+";
    CalmTrailingPlus(n);
    assert t[|t| - 1] == '+';
    CalmTokenize(t, |t| - 1);
    ScanTrailingPlus(n);
  }

  /** `n+` parses: the conversion does not count operands. */
  lemma ParseTrailingPlus(n: nat)
    ensures var post := [Num(n as real), Op(Plus)];
      ParseStep(Initial(), Render(n) + "+") == Parsed(EngineState(post, post, [], true), Pass)
  {
    TokenizeTrailingPlus(n);
    var post := [Num(n as real), Op(Plus)];
    assert [] + post == post;
    assert post[1..] == [Op(Plus)] && post[1..][1..] == [];
    assert ConvertFrom([], [], post) == Conv([Num(n as real)], [Op(Plus)], Pass);
  }

  /** Evaluating `n+` on an empty stack stops at the operator with the lone
      value left; on a stack already holding that value it leaves the sum. */
  lemma EvalTrailingPlus(n: nat)
    ensures var v := Num(n as real); var post := [v, Op(Plus)];
      EvalFrom([], post) == Eval([v], Fail(InsufficientOperands)) &&
      EvalFrom([v], post) == Eval([Num(n as real + n as real)], Pass)
  {
    var v := Num(n as real);
    var post := [v, Op(Plus)];
    assert post[1..] == [Op(Plus)] && post[1..][1..] == [];
    assert [] + [v] == [v];
    assert EvalFrom([v, v], [Op(Plus)]) == Eval([Num(n as real + n as real)], Pass);
  }

  /** The two `Run`s on the state that parsing `n+` leaves. */
  lemma RunTrailingPlus(n: nat)
    ensures var v := Num(n as real); var post := [v, Op(Plus)];
      var e := EngineState(post, post, [], true);
      RunStep(e) == Ran(e.(stack := [v]), Err(InsufficientOperands)) &&
      RunStep(e.(stack := [v])) == Ran(e, Ok(2.0 * n as real))
  {
    EvalTrailingPlus(n);
    assert n as real + n as real == 2.0 * n as real;
  }

  /** After `n+` is parsed, the first `Run` fails on the lone value and
      leaves it on the stack; the second `Run` then finds two values and
      returns `n + n`. */
  lemma RunAfterFailedRun(n: nat)
    ensures var p := ParseStep(Initial(), Render(n) + "+");
      var r1 := RunStep(p.state);
      var r2 := RunStep(r1.state);
      p.status == Pass && r1.value == Err(InsufficientOperands) && r2.value == Ok(2.0 * n as real)
  {
    ParseTrailingPlus(n);
    RunTrailingPlus(n);
  }

  // ---------------------------------------------------------------------
  // A failed parse leaves its tokens behind.

  /** `(a` reads as a bracket and a value. */
  lemma TokenizeOpen(a: nat)
    ensures var t := "(" + Render(a);
      Normalized(t) == t && Tokenize(t) == Lexed([LParen, Num(a as real)], Pass)
  {
    var t := "(" + Render(a);
    forall i | 0 <= i < |t| ensures CalmAt(t, i) {
      if 0 < i {
        assert t[i] == Render(a)[i - 1] && IsDigit(Render(a)[i - 1]);
      }
    }
    CalmTokenize(t, 0);
    assert t == ['('] + Render(a) && Render(a) + [] == Render(a);
    ScanAtSymbol('(', Render(a));
    ScanLiteral(a, []);
  }

  /** The scanner reads `a+b` as value, operator, value. */
  lemma ScanSum(a: nat, b: nat)
    ensures Scan([], Render(a) + (['+'] + Render(b))) == Lexed([Num(a as real), Op(Plus), Num(b as real)], Pass)
  {
    ScanLiteral(a, ['+'] + Render(b));
    ScanAtSymbol('+', Render(b));
    assert Render(b) + [] == Render(b);
    ScanLiteral(b, []);
  }

  /** `a+b` reads as value, operator, value. */
  lemma TokenizeSum(a: nat, b: nat)
    ensures var t := Render(a) + "+" + Render(b);
      Normalized(t) == t && Tokenize(t) == Lexed([Num(a as real), Op(Plus), Num(b as real)], Pass)
  {
    var t := Render(a) + (['+'] + Render(b));
    AppendAssoc(Render(a), ['+'], Render(b));
    CalmChain(a, Plus, b, Plus, b);
    assert t[|Render(a)|] == '+';
    CalmTokenize(t, |Render(a)|);
    ScanSum(a, b);
  }

  /** A number goes straight to the output. */
  lemma ConvertNum(post: seq<Token>, stk: seq<Token>, v: real)
    requires OperatorStack(stk)
    ensures ConvertFrom(post, stk, [Num(v)]) == Conv(post + [Num(v)], stk, Pass)
  {
    assert [Num(v)][1..] == [];
  }

  /** `(` and a value: the `(` waits on the stack. */
  lemma ConvertOpen(post: seq<Token>, v: real)
    ensures ConvertFrom(post, [], [LParen, Num(v)]) == Conv(post + [Num(v)], [LParen], Pass)
  {
    var x := Num(v);
    assert [LParen] + [x] == [LParen, x] && [] + [LParen] == [LParen];
    ConvertFromAppend(post, [], [LParen], [x]);
    ConvertLParen(post, []);
    ConvertNum(post, [LParen], v);
  }

  /** `(a` fails to parse: its `(` is never closed. The conversion has
      popped the `(` and emitted the value, and the tokens stay behind. */
  lemma ParseOpen(a: nat)
    ensures ParseStep(Initial(), "(" + Render(a)) ==
      Parsed(EngineState([LParen, Num(a as real)], [Num(a as real)], [], false), Fail(UnbalancedBrackets))
  {
    TokenizeOpen(a);
    var x := Num(a as real);
    var infix := [LParen, x];
    assert [] + infix == infix && [] + [x] == [x];
    ConvertOpen([], a as real);
  }

  /** The leftover tokens followed by those of `a+b` leave the `(` below
      the `+`. */
  lemma ConvertLeftover(a: nat, b: nat)
    ensures ToPostfix([Num(a as real)], [], [LParen, Num(a as real)] + [Num(a as real), Op(Plus), Num(b as real)]).status
      == Fail(UnbalancedBrackets)
  {
    var x, y := Num(a as real), Num(b as real);
    var head, tail := [LParen, x], [x, Op(Plus), y];
    ConvertOpen([x], a as real);
    assert [x] + [x] == [x, x];
    ConvertFromAppend([x], [], head, tail);
    ConvertSumInside(a, b);
    var post := [x, x, x, y];
    assert Drain(post, [LParen, Op(Plus)]) == Drain(post + [Op(Plus)], [LParen]);
  }

  /** The tokens of `a+b` after an open `(` and two values. */
  lemma ConvertSumInside(a: nat, b: nat)
    ensures var x, y := Num(a as real), Num(b as real);
      ConvertFrom([x, x], [LParen], [x, Op(Plus), y]) == Conv([x, x, x, y], [LParen, Op(Plus)], Pass)
  {
    var x, y := Num(a as real), Num(b as real);
    var post := [x, x, x];
    assert [x] + [Op(Plus), y] == [x, Op(Plus), y] && [Op(Plus)] + [y] == [Op(Plus), y];
    ConvertFromAppend([x, x], [LParen], [x], [Op(Plus), y]);
    ConvertNum([x, x], [LParen], a as real);
    assert [x, x] + [x] == post;
    ConvertFromAppend(post, [LParen], [Op(Plus)], [y]);
    ConvertOperatorOnLParen(post, [], Plus);
    assert [] + [LParen] == [LParen] && [LParen] + [Op(Plus)] == [LParen, Op(Plus)];
    ConvertNum(post, [LParen, Op(Plus)], b as real);
    assert post + [y] == [x, x, x, y];
  }

  /** `a+b` converts on a fresh engine. */
  lemma ConvertSum(a: nat, b: nat)
    ensures ToPostfix([], [], [Num(a as real), Op(Plus), Num(b as real)]).status == Pass
  {
    var x, y := Num(a as real), Num(b as real);
    var toks := [x, Op(Plus), y];
    assert toks[1..] == [Op(Plus), y] && toks[1..][1..] == [y];
    assert [] + [x] == [x];
    assert ConvertFrom([], [], toks) == ConvertFrom([x], [], toks[1..]);
    assert ConvertFrom([x], [], toks[1..]) == ConvertFrom([x], [Op(Plus)], [y]);
    assert ConvertFrom([x], [Op(Plus)], [y]) == Conv([x, y], [Op(Plus)], Pass);
  }

  /** A failed parse of `(a` is not cleared by `Reset`, and its leftover
      `(` makes the next parse of `a+b` fail too, although `a+b` parses on
      a fresh engine. */
  lemma FailedParseLingers(a: nat, b: nat)
    ensures var p := ParseStep(Initial(), "(" + Render(a));
      var q := ParseStep(ResetStep(p.state), Render(a) + "+" + Render(b));
      p.status == Fail(UnbalancedBrackets) && ResetStep(p.state) == p.state &&
      q.status == Fail(UnbalancedBrackets) &&
      ParseStep(Initial(), Render(a) + "+" + Render(b)).status == Pass
  {
    ParseOpen(a);
    TokenizeSum(a, b);
    ConvertLeftover(a, b);
    ConvertSum(a, b);
    var infix := [Num(a as real), Op(Plus), Num(b as real)];
    assert [] + infix == infix;
  }
}
