/** The engine end to end on fully bracketed expressions: the text of an
    expression tree goes through normalisation, tokenisation, conversion
    and evaluation to the tree's value. A tree is a natural-number literal
    or a binary operator applied to two trees; its text brackets every
    operator application, `(l+r)`. */
module Trees {
  import opened Tokens
  import opened Literals
  import opened Normalize
  import opened Lexer
  import opened Convert
  import opened Evaluate
  import opened Engine

  datatype Expr = Lit(n: nat) | Bin(op: BinOp, left: Expr, right: Expr)

  /** The value of a tree: an operator combines the values of its operands
      as `compute` does. None when some division has a zero divisor. */
  function Value(e: Expr): Option<real> {
    match e
    case Lit(n) => Some(n as real)
    case Bin(op, l, r) =>
      match Value(l)
      case None => None
      case Some(a) =>
        match Value(r)
        case None => None
        case Some(b) => Apply(op, a, b)
  }

  /** The text of a tree, brackets around every operator application. */
  function Text(e: Expr): string {
    match e
    case Lit(n) => Render(n)
    case Bin(op, l, r) => "(" + Text(l) + [Symbol(Op(op))] + Text(r) + ")"
  }

  /** The infix tokens the text stands for. */
  function Infix(e: Expr): seq<Token> {
    match e
    case Lit(n) => [Num(n as real)]
    case Bin(op, l, r) => [LParen] + Infix(l) + [Op(op)] + Infix(r) + [RParen]
  }

  /** The postfix form: both operands, then the operator. */
  function Postfix(e: Expr): seq<Token> {
    match e
    case Lit(n) => [Num(n as real)]
    case Bin(op, l, r) => Postfix(l) + Postfix(r) + [Op(op)]
  }

  /** Regrouping a concatenation of five pieces to the right. */
  lemma Regroup<T>(a: seq<T>, b: seq<T>, c: seq<T>, d: seq<T>, f: seq<T>)
    ensures a + b + c + d + f == a + (b + (c + (d + f)))
  {
    AppendAssoc(a + b + c, d, f);
    AppendAssoc(a + b, c, d + f);
    AppendAssoc(a, b, c + (d + f));
  }

  // ---------------------------------------------------------------------
  // Evaluation.

  lemma PushNumber(stk: seq<Token>, v: real)
    requires AllNumbers(stk)
    ensures AllNumbers(stk + [Num(v)])
    ensures Last(stk + [Num(v)]) == Num(v) && DropLast(stk + [Num(v)]) == stk
  {
    assert (stk + [Num(v)])[..|stk|] == stk;
  }

  /** Evaluating the operator of a tree whose operands have been
      evaluated: it pops both values and pushes the combined one. */
  lemma EvalOperator(stk: seq<Token>, op: BinOp, a: real, b: real)
    requires AllNumbers(stk)
    ensures var s := stk + [Num(a)] + [Num(b)];
      AllNumbers(s) &&
      EvalFrom(s, [Op(op)]) ==
        match Apply(op, a, b)
        case None => Eval(stk, Fail(DivisionByZero))
        case Some(v) => Eval(stk + [Num(v)], Pass)
  {
    PushNumber(stk, a);
    PushNumber(stk + [Num(a)], b);
    var s := stk + [Num(a)] + [Num(b)];
    assert s[..|s| - 2] == stk;
    assert [Op(op)][1..] == [];
  }

  /** The postfix form of a tree leaves its value on the stack, or fails on
      a zero divisor. */
  lemma {:induction false} EvalPostfix(stk: seq<Token>, e: Expr)
    requires AllNumbers(stk)
    ensures Value(e).Some? ==> EvalFrom(stk, Postfix(e)) == Eval(stk + [Num(Value(e).value)], Pass)
    ensures Value(e).None? ==> EvalFrom(stk, Postfix(e)).status == Fail(DivisionByZero)
    decreases e
  {
    match e
    case Lit(n) =>
      assert Postfix(e)[1..] == [];
    case Bin(op, l, r) =>
      var pl, pr, po := Postfix(l), Postfix(r), [Op(op)];
      AppendAssoc(pl, pr, po);
      EvalFromAppend(stk, pl, pr + po);
      EvalPostfix(stk, l);
      if Value(l).Some? {
        var s1 := stk + [Num(Value(l).value)];
        PushNumber(stk, Value(l).value);
        EvalFromAppend(s1, pr, po);
        EvalPostfix(s1, r);
        if Value(r).Some? {
          EvalOperator(stk, op, Value(l).value, Value(r).value);
        }
      }
  }

  // ---------------------------------------------------------------------
  // Conversion.

  /** The conversion loop splits at any point of the token sequence. */
  lemma {:induction false} ConvertFromAppend(post: seq<Token>, stk: seq<Token>, a: seq<Token>, b: seq<Token>)
    requires OperatorStack(stk)
    ensures var r := ConvertFrom(post, stk, a);
      ConvertFrom(post, stk, a + b) == if r.status.Fail? then r else ConvertFrom(r.post, r.stk, b)
    decreases |a|
  {
    if a == [] {
      assert a + b == b;
    } else {
      assert (a + b)[0] == a[0] && (a + b)[1..] == a[1..] + b;
      if a[0].Num? {
        ConvertFromAppend(post + [a[0]], stk, a[1..], b);
      } else {
        var h := HandleOperator(post, stk, a[0]);
        HandleKeepsOperatorStack(post, stk, a[0]);
        if h.status.Pass? {
          ConvertFromAppend(h.post, h.stk, a[1..], b);
        }
      }
    }
  }

  lemma PushOperator(stk: seq<Token>, t: Token)
    requires OperatorStack(stk) && (t.Op? || t == LParen)
    ensures OperatorStack(stk + [t])
    ensures Last(stk + [t]) == t && DropLast(stk + [t]) == stk
  {
    assert (stk + [t])[..|stk|] == stk;
  }

  /** One token on its own: `(` is pushed; an operator meeting `(` on top
      is pushed; `)` meeting an operator above `(` emits the operator and
      drops the `(`. */
  lemma ConvertLParen(post: seq<Token>, stk: seq<Token>)
    requires OperatorStack(stk)
    ensures ConvertFrom(post, stk, [LParen]) == Conv(post, stk + [LParen], Pass)
  {
    assert [LParen][1..] == [];
    PushOperator(stk, LParen);
  }

  lemma ConvertOperatorOnLParen(post: seq<Token>, stk: seq<Token>, op: BinOp)
    requires OperatorStack(stk)
    ensures OperatorStack(stk + [LParen])
    ensures ConvertFrom(post, stk + [LParen], [Op(op)]) == Conv(post, stk + [LParen] + [Op(op)], Pass)
  {
    assert [Op(op)][1..] == [];
    PushOperator(stk, LParen);
    RankOrder(op);
    PushOperator(stk + [LParen], Op(op));
  }

  lemma ConvertRParen(post: seq<Token>, stk: seq<Token>, op: BinOp)
    requires OperatorStack(stk)
    ensures OperatorStack(stk + [LParen] + [Op(op)])
    ensures ConvertFrom(post, stk + [LParen] + [Op(op)], [RParen]) == Conv(post + [Op(op)], stk, Pass)
  {
    assert [RParen][1..] == [];
    PushOperator(stk, LParen);
    var s1 := stk + [LParen];
    PushOperator(s1, Op(op));
    assert PopToLParen(post + [Op(op)], s1) == Conv(post + [Op(op)], stk, Pass);
    assert PopToLParen(post, s1 + [Op(op)]) == Conv(post + [Op(op)], stk, Pass);
  }

  /** Converting the infix tokens of a tree emits its postfix form and
      leaves the stack as it found it. */
  lemma {:induction false} ConvertInfix(post: seq<Token>, stk: seq<Token>, e: Expr)
    requires OperatorStack(stk)
    ensures ConvertFrom(post, stk, Infix(e)) == Conv(post + Postfix(e), stk, Pass)
    decreases e
  {
    match e
    case Lit(n) =>
      assert Infix(e)[1..] == [];
    case Bin(op, l, r) =>
      var il, ir, pl, pr := Infix(l), Infix(r), Postfix(l), Postfix(r);
      var a1 := [LParen];
      var a2 := a1 + il;
      var a3 := a2 + [Op(op)];
      var a4 := a3 + ir;
      var s1 := stk + [LParen];
      var s2 := s1 + [Op(op)];
      ConvertLParen(post, stk);
      ConvertFromAppend(post, stk, a1, il);
      PushOperator(stk, LParen);
      ConvertInfix(post, s1, l);
      ConvertFromAppend(post, stk, a2, [Op(op)]);
      ConvertOperatorOnLParen(post + pl, stk, op);
      ConvertFromAppend(post, stk, a3, ir);
      ConvertInfix(post + pl, s2, r);
      ConvertFromAppend(post, stk, a4, [RParen]);
      ConvertRParen(post + pl + pr, stk, op);
      AppendAssoc(post, pl, pr);
      AppendAssoc(post, pl + pr, [Op(op)]);
  }

  // ---------------------------------------------------------------------
  // Scanning.

  /** Digits join the pending gap. */
  lemma {:induction false} ScanDigits(p: string, d: string, s: string)
    requires AllDigits(d)
    ensures Scan(p, d + s) == Scan(p + d, s)
    decreases |d|
  {
    if d == [] {
      assert d + s == s && p + d == p;
    } else {
      assert (d + s)[0] == d[0] && (d + s)[1..] == d[1..] + s;
      assert AllDigits(d[1..]) by {
        forall i | 0 <= i < |d[1..]| ensures IsDigit(d[1..][i]) {
          assert d[1..][i] == d[i + 1];
        }
      }
      assert IsDigit(d[0]);
      ScanDigits(p + [d[0]], d[1..], s);
      AppendAssoc(p, [d[0]], d[1..]);
      assert [d[0]] + d[1..] == d;
    }
  }

  /** An operator or bracket character with nothing pending before it. */
  lemma ScanAtSymbol(c: char, rest: string)
    requires IsOperatorChar(c)
    ensures Scan([], [c] + rest) == Lexed([SymbolToken(c)] + Scan([], rest).tokens, Scan([], rest).status)
  {
    assert ([c] + rest)[0] == c && ([c] + rest)[1..] == rest;
    assert [] + [SymbolToken(c)] == [SymbolToken(c)];
  }

  /** The literal of a leaf, followed by the end of the text or an operator. */
  lemma ScanLiteral(n: nat, s: string)
    requires s == [] || IsOperatorChar(s[0])
    ensures Scan([], Render(n) + s) == Lexed([Num(n as real)] + Scan([], s).tokens, Scan([], s).status)
  {
    var d := Render(n);
    ScanDigits([], d, s);
    assert [] + d == d;
    ParseRender(n);
    assert GapToken(d) == Some([Num(n as real)]);
    if s == [] {
      assert [Num(n as real)] + [] == [Num(n as real)];
    } else {
      assert s == [s[0]] + s[1..];
      ScanAtSymbol(s[0], s[1..]);
      AppendAssoc([Num(n as real)], [SymbolToken(s[0])], Scan([], s[1..]).tokens);
    }
  }

  /** The text of a tree, followed by the end of the text or an operator,
      scans to the tree's infix tokens. */
  lemma {:induction false} ScanText(e: Expr, s: string)
    requires s == [] || IsOperatorChar(s[0])
    ensures Scan([], Text(e) + s) == Lexed(Infix(e) + Scan([], s).tokens, Scan([], s).status)
    decreases e
  {
    match e
    case Lit(n) =>
      ScanLiteral(n, s);
    case Bin(op, l, r) =>
      var c := Symbol(Op(op));
      var w := ")" + s;
      var z := Text(r) + w;
      var y := [c] + z;
      var x := Text(l) + y;
      Regroup("(", Text(l), [c], Text(r), w);
      AppendAssoc("(" + Text(l) + [c] + Text(r), ")", s);
      assert Text(e) + s == "(" + x;
      ScanAtSymbol(')', s);
      ScanText(r, w);
      ScanAtSymbol(c, z);
      SymbolTokenInverse(Op(op));
      ScanText(l, y);
      ScanAtSymbol('(', x);
      var t := Scan([], s).tokens;
      Regroup([LParen], Infix(l), [Op(op)], Infix(r), [RParen] + t);
      AppendAssoc([LParen] + Infix(l) + [Op(op)] + Infix(r), [RParen], t);
  }

  // ---------------------------------------------------------------------
  // Normalisation.

  predicate NoUnaryMinus(t: string) {
    forall i :: 0 <= i < |t| ==> !UnaryMinusAt(t, i)
  }

  /** The text of a tree starts with `(` or a digit, ends with `)` or a
      digit, has no space and no unary minus. */
  lemma {:induction false} TextShape(e: Expr)
    ensures var t := Text(e);
      t != [] && (t[0] == '(' || IsDigit(t[0])) && (Last(t) == ')' || IsDigit(Last(t))) &&
      (forall i :: 0 <= i < |t| ==> t[i] != ' ') && NoUnaryMinus(t)
    decreases e
  {
    match e
    case Lit(n) =>
    case Bin(op, l, r) =>
      TextShape(l);
      TextShape(r);
      var tl, tr, c := Text(l), Text(r), Symbol(Op(op));
      var t := Text(e);
      assert t == "(" + tl + [c] + tr + ")";
      var m := |tl| + 2;
      assert |t| == m + |tr| + 1;
      forall i | 0 <= i < |t|
        ensures t[i] == if i == 0 then '(' else if i < m - 1 then tl[i - 1] else if i == m - 1 then c
                         else if i < m + |tr| then tr[i - m] else ')'
      {
      }
      forall i | 0 <= i < |t| ensures t[i] != ' ' && !UnaryMinusAt(t, i) {
        if 1 < i < m - 1 {
          assert !UnaryMinusAt(tl, i - 1);
        } else if m < i < m + |tr| {
          assert !UnaryMinusAt(tr, i - m);
        }
      }
  }

  /** Normalisation leaves the text of a tree as it is. */
  lemma NormalizedText(e: Expr)
    ensures Normalized(Text(e)) == Text(e)
  {
    var t := Text(e);
    TextShape(e);
    assert ' ' !in t;
    assert StripSpaces(t) == t;
    ZeroBeforeUnaryIdentity(t, |t|);
    assert t[..|t|] == t;
  }

  // ---------------------------------------------------------------------
  // The engine.

  /** The text of an operator tree tokenises to its infix tokens. */
  lemma TokenizeText(e: Expr)
    requires e.Bin?
    ensures Tokenize(Text(e)) == Lexed(Infix(e), Pass)
  {
    var t := Text(e);
    assert t[0] == '(';
    OpPositionsCover(t, |t|);
    assert 0 in OpPositions(t, |t|);
    TokenizeIsScan(t);
    ScanText(e, []);
    assert t + [] == t;
    assert Infix(e) + [] == Infix(e);
  }

  /** `Parse` of the text of an operator tree on a new engine succeeds with
      the tree's infix and postfix forms and an empty stack; `Run` then
      gives the tree's value, or `DivisionByZero`. */
  lemma ParseThenRun(e: Expr)
    requires e.Bin?
    ensures var p := ParseStep(Initial(), Text(e));
      p == Parsed(EngineState(Infix(e), Postfix(e), [], true), Pass) &&
      RunStep(p.state).value == match Value(e) case Some(v) => Ok(v) case None => Err(DivisionByZero)
  {
    NormalizedText(e);
    TokenizeText(e);
    assert [] + Infix(e) == Infix(e);
    ConvertInfix([], [], e);
    assert [] + Postfix(e) == Postfix(e);
    EvalPostfix([], e);
    assert [] + [Num(0.0)] == [Num(0.0)];
    if Value(e).Some? {
      assert [] + [Num(Value(e).value)] == [Num(Value(e).value)];
    }
  }

  lemma {:induction false} DigitsHaveNoOperator(t: string, n: nat)
    requires n <= |t| && AllDigits(t)
    ensures OpPositions(t, n) == []
  {
    if n > 0 {
      DigitsHaveNoOperator(t, n - 1);
      assert IsDigit(t[n - 1]);
    }
  }

  /** A bare literal has no operator, so `Parse` refuses it. */
  lemma LiteralRefused(n: nat)
    ensures ParseStep(Initial(), Text(Lit(n))) == Parsed(EngineState([], [], [], false), Fail(NoOperator))
  {
    NormalizedText(Lit(n));
    var t := Render(n);
    DigitsHaveNoOperator(t, |t|);
    assert Tokenize(t) == Lexed([], Fail(NoOperator));
    var none: seq<Token> := [];
    assert none + none == none;
  }
}
