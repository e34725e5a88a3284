/** The engine on texts without brackets that hold two operators,
    `a o b p c`, and on a leading unary minus, `-a p b`. The rank table and
    the `>=` test of `ge` give the usual conventions of arithmetic: `* /`
    bind tighter than `+ -`, operators of one level group to the left, and
    a leading `-` is the binary minus `0-`. A `-` right after a binary
    operator, as in `a+-b`, is not unary and leaves `Run` short of
    operands. */
module Chains {
  import opened Tokens
  import opened Literals
  import opened Normalize
  import opened Lexer
  import opened Convert
  import opened Evaluate
  import opened Engine
  import opened Trees

  /** The binding level of an operator in ordinary arithmetic notation. */
  function Level(o: BinOp): nat {
    if o == Times || o == Divide then 2 else 1
  }

  /** How `a o b p c` is read by the usual conventions: to the left unless
      `p` binds tighter than `o`. */
  function Grouped(a: nat, o: BinOp, b: nat, p: BinOp, c: nat): Expr {
    if Level(o) >= Level(p) then Bin(p, Bin(o, Lit(a), Lit(b)), Lit(c))
    else Bin(o, Lit(a), Bin(p, Lit(b), Lit(c)))
  }

  /** The character an operator is written with. */
  function Char(o: BinOp): char {
    Symbol(Op(o))
  }

  /** The text `a o b p c`, without spaces or brackets. */
  function ChainText(a: nat, o: BinOp, b: nat, p: BinOp, c: nat): string {
    Render(a) + [Char(o)] + Render(b) + [Char(p)] + Render(c)
  }

  /** Its infix tokens. */
  function ChainInfix(a: nat, o: BinOp, b: nat, p: BinOp, c: nat): seq<Token> {
    [Num(a as real), Op(o), Num(b as real), Op(p), Num(c as real)]
  }

  /** The text `-a p b`, with a leading unary minus. */
  function NegText(a: nat, p: BinOp, b: nat): string {
    "-" + Render(a) + [Char(p)] + Render(b)
  }

  // ---------------------------------------------------------------------
  // Normalisation.

  /** Text that normalisation leaves alone: no space, and no `-` that
      opens the text or follows `(`. */
  predicate Calm(t: string) {
    forall i :: 0 <= i < |t| ==> CalmAt(t, i)
  }

  /** The character at `i` is no space, and if it is a `-` then it has a
      predecessor other than `(`. */
  predicate CalmAt(t: string, i: nat)
    requires i < |t|
  {
    t[i] != ' ' && (t[i] == '-' ==> 0 < i && t[i - 1] != '(')
  }

  lemma CalmNormal(t: string)
    requires Calm(t)
    ensures Normalized(t) == t
  {
    forall i | 0 <= i < |t| ensures t[i] != ' ' && !UnaryMinusAt(t, i) {
      assert CalmAt(t, i);
    }
    assert ' ' !in t;
    ZeroBeforeUnaryIdentity(t, |t|);
    assert t[..|t|] == t;
  }

  lemma CalmRender(n: nat)
    ensures Calm(Render(n))
  {
    var d := Render(n);
    forall i | 0 <= i < |d| ensures CalmAt(d, i) {
      assert IsDigit(d[i]);
    }
  }

  /** Two calm texts joined by an operator stay calm when the first does
      not end in `(`. */
  lemma CalmJoin(x: string, o: BinOp, y: string)
    requires Calm(x) && Calm(y) && |x| > 0 && Last(x) != '('
    ensures Calm(x + [Char(o)] + y)
  {
    var t := x + [Char(o)] + y;
    forall i | 0 <= i < |t| ensures CalmAt(t, i) {
      if i < |x| {
        assert CalmAt(x, i);
        assert t[i] == x[i];
        if 0 < i {
          assert t[i - 1] == x[i - 1];
        }
      } else if i == |x| {
        assert t[i] == Char(o) && t[i - 1] == x[|x| - 1];
      } else {
        var j := i - |x| - 1;
        assert CalmAt(y, j);
        assert t[i] == y[j];
        if 0 < j {
          assert t[i - 1] == y[j - 1];
        }
      }
    }
  }

  lemma CalmChain(a: nat, o: BinOp, b: nat, p: BinOp, c: nat)
    ensures Calm(Render(a) + [Char(o)] + Render(b))
    ensures Calm(ChainText(a, o, b, p, c))
  {
    var ra, rb := Render(a), Render(b);
    CalmRender(a);
    CalmRender(b);
    CalmRender(c);
    assert IsDigit(Last(ra));
    CalmJoin(ra, o, rb);
    var x := ra + [Char(o)] + rb;
    assert Last(x) == Last(rb) && IsDigit(Last(rb));
    CalmJoin(x, p, Render(c));
  }

  /** Calm text with an operator at `k` is already normal, and the
      tokenizer reads it as the reference scanner does. */
  lemma CalmTokenize(t: string, k: nat)
    requires Calm(t) && k < |t| && IsOperatorChar(t[k])
    ensures Normalized(t) == t
    ensures Tokenize(t) == Scan([], t)
  {
    CalmNormal(t);
    OpPositionsCover(t, |t|);
    assert k in OpPositions(t, |t|);
    TokenizeIsScan(t);
  }

  /** A leading `-` followed by no other unary minus gets a `0` in front
      and nothing else. */
  lemma {:induction false} ZeroBeforeLeadingMinus(t: string, n: nat)
    requires 1 <= n <= |t| && t[0] == '-'
    requires forall i :: 0 < i < |t| ==> !UnaryMinusAt(t, i)
    ensures ZeroBeforeUnary(t, n) == "0" + t[..n]
  {
    if n == 1 {
      assert UnaryMinusAt(t, 0);
      assert t[..1] == [t[0]];
    } else {
      ZeroBeforeLeadingMinus(t, n - 1);
      assert !UnaryMinusAt(t, n - 1);
      assert t[..n] == t[..n - 1] + [t[n - 1]];
      AppendAssoc("0", t[..n - 1], [t[n - 1]]);
    }
  }

  /** `-a p b` normalises to `0-a p b`. */
  lemma NegNormal(a: nat, p: BinOp, b: nat)
    ensures Normalized(NegText(a, p, b)) == ChainText(0, Minus, a, p, b)
  {
    var ra, rb := Render(a), Render(b);
    var u := ra + [Char(p)] + rb;
    CalmChain(a, p, b, p, b);
    var t := NegText(a, p, b);
    AppendAssoc("-", ra + [Char(p)], rb);
    AppendAssoc("-", ra, [Char(p)]);
    assert t == "-" + u;
    forall i | 0 <= i < |t| ensures t[i] != ' ' && (0 < i ==> !UnaryMinusAt(t, i)) {
      if 0 < i {
        assert CalmAt(u, i - 1);
        assert t[i] == u[i - 1];
        if 1 < i {
          assert t[i - 1] == u[i - 2];
        }
      }
    }
    assert ' ' !in t;
    ZeroBeforeLeadingMinus(t, |t|);
    assert t[..|t|] == t;
    assert Render(0) == "0";
    assert Char(Minus) == '-';
    assert ChainText(0, Minus, a, p, b) == "0" + "-" + ra + [Char(p)] + rb;
    Regroup("0", "-", ra, [Char(p)], rb);
    Regroup("-", ra, [Char(p)], rb, []);
    assert rb + [] == rb;
  }

  // ---------------------------------------------------------------------
  // Tokenising, conversion and evaluation.

  /** An operator and a literal. */
  lemma ScanOpLiteral(p: BinOp, c: nat)
    ensures Scan([], [Char(p)] + Render(c)) == Lexed([Op(p), Num(c as real)], Pass)
  {
    var rc := Render(c);
    SymbolTokenInverse(Op(p));
    assert rc + [] == rc;
    ScanLiteral(c, []);
    ScanAtSymbol(Char(p), rc);
  }

  /** A literal, an operator and a literal. */
  lemma ScanTail(b: nat, p: BinOp, c: nat)
    ensures Scan([], Render(b) + ([Char(p)] + Render(c))) == Lexed([Num(b as real), Op(p), Num(c as real)], Pass)
  {
    var s := [Char(p)] + Render(c);
    ScanOpLiteral(p, c);
    assert s[0] == Char(p);
    ScanLiteral(b, s);
  }

  lemma ScanChain(a: nat, o: BinOp, b: nat, p: BinOp, c: nat)
    ensures Scan([], ChainText(a, o, b, p, c)) == Lexed(ChainInfix(a, o, b, p, c), Pass)
  {
    var ra, rb, rc := Render(a), Render(b), Render(c);
    var co, cp := Char(o), Char(p);
    var s3 := rb + ([cp] + rc);
    var tail := [Num(b as real), Op(p), Num(c as real)];
    ScanTail(b, p, c);
    SymbolTokenInverse(Op(o));
    ScanAtSymbol(co, s3);
    var s4 := [co] + s3;
    assert s4[0] == co;
    ScanLiteral(a, s4);
    assert [Num(a as real)] + ([Op(o)] + tail) == ChainInfix(a, o, b, p, c);
    Regroup(ra, [co], rb, [cp], rc);
  }

  /** Whether the operator on the stack is popped by the incoming one is
      whether it binds at least as tightly. */
  lemma GeLevel(o: BinOp, p: BinOp)
    ensures Ge(Op(o), Op(p)) <==> Level(o) >= Level(p)
  {
    RankOrder(o);
    RankOrder(p);
  }

  /** The front of `x o y p z`: both numbers go out, `o` waits. */
  lemma ConvertChainFront(x: real, o: BinOp, y: real, p: BinOp, z: real)
    ensures var X, Y, Z := Num(x), Num(y), Num(z);
      ConvertFrom([], [], [X, Op(o), Y, Op(p), Z]) == ConvertFrom([X, Y], [Op(o)], [Op(p), Z])
  {
    var X, Y, Z, O, P := Num(x), Num(y), Num(z), Op(o), Op(p);
    var t := [X, O, Y, P, Z];
    assert t[1..] == [O, Y, P, Z] && [O, Y, P, Z][1..] == [Y, P, Z] && [Y, P, Z][1..] == [P, Z];
    assert [] + [X] == [X] && [X] + [Y] == [X, Y];
    assert ConvertFrom([], [], t) == ConvertFrom([X], [], [O, Y, P, Z]);
    assert ConvertFrom([X], [], [O, Y, P, Z]) == ConvertFrom([X], [O], [Y, P, Z]);
  }

  /** An incoming `p` pops a lone `o` that ranks at least as high. */
  lemma PopsLone(post: seq<Token>, o: BinOp, p: BinOp)
    requires Ge(Op(o), Op(p))
    ensures HandleOperator(post, [Op(o)], Op(p)) == Conv(post + [Op(o)], [Op(p)], Pass)
  {
    assert Last([Op(o)]) == Op(o) && DropLast([Op(o)]) == [];
    assert [] + [Op(p)] == [Op(p)];
    assert PopWhileGe(post + [Op(o)], [], Op(p)) == Conv(post + [Op(o)], [Op(p)], Pass);
    assert PopWhileGe(post, [Op(o)], Op(p)) == PopWhileGe(post + [Op(o)], [], Op(p));
  }

  /** An incoming `p` is pushed above a lone `o` that ranks lower. */
  lemma PushesAboveLone(post: seq<Token>, o: BinOp, p: BinOp)
    requires !Ge(Op(o), Op(p))
    ensures HandleOperator(post, [Op(o)], Op(p)) == Conv(post, [Op(o), Op(p)], Pass)
  {
    assert Last([Op(o)]) == Op(o);
    assert [Op(o)] + [Op(p)] == [Op(o), Op(p)];
  }

  /** `p` pops `o` when `o` ranks at least as high. */
  lemma ConvertChainLeft(x: real, o: BinOp, y: real, p: BinOp, z: real)
    requires Ge(Op(o), Op(p))
    ensures var X, Y, Z := Num(x), Num(y), Num(z);
      ToPostfix([X, Y], [Op(o)], [Op(p), Z]) == Conv([X, Y, Op(o), Z, Op(p)], [], Pass)
  {
    var X, Y, Z, O, P := Num(x), Num(y), Num(z), Op(o), Op(p);
    var post := [X, Y, O];
    PopsLone([X, Y], o, p);
    assert [X, Y] + [O] == post;
    assert [P, Z][1..] == [Z] && [Z][1..] == [];
    assert ConvertFrom([X, Y], [O], [P, Z]) == ConvertFrom(post, [P], [Z]);
    assert post + [Z] == [X, Y, O, Z];
    assert ConvertFrom(post, [P], [Z]) == Conv([X, Y, O, Z], [P], Pass);
    assert Last([P]) == P && DropLast([P]) == [];
    assert [X, Y, O, Z] + [P] == [X, Y, O, Z, P];
    assert Drain([X, Y, O, Z], [P]) == Drain([X, Y, O, Z, P], []);
  }

  /** `p` is pushed above `o` when `o` ranks lower. */
  lemma ConvertChainRight(x: real, o: BinOp, y: real, p: BinOp, z: real)
    requires !Ge(Op(o), Op(p))
    ensures var X, Y, Z := Num(x), Num(y), Num(z);
      ToPostfix([X, Y], [Op(o)], [Op(p), Z]) == Conv([X, Y, Z, Op(p), Op(o)], [], Pass)
  {
    var X, Y, Z, O, P := Num(x), Num(y), Num(z), Op(o), Op(p);
    PushesAboveLone([X, Y], o, p);
    assert [P, Z][1..] == [Z] && [Z][1..] == [];
    assert ConvertFrom([X, Y], [O], [P, Z]) == ConvertFrom([X, Y], [O, P], [Z]);
    assert [X, Y] + [Z] == [X, Y, Z];
    assert ConvertFrom([X, Y], [O, P], [Z]) == Conv([X, Y, Z], [O, P], Pass);
    assert Last([O, P]) == P && DropLast([O, P]) == [O];
    assert [X, Y, Z] + [P] == [X, Y, Z, P] && [X, Y, Z, P] + [O] == [X, Y, Z, P, O];
    assert Drain([X, Y, Z], [O, P]) == Drain([X, Y, Z, P], [O]);
    assert Drain([X, Y, Z, P], [O]) == Drain([X, Y, Z, P, O], []);
  }

  /** The conversion of `x o y p z`: `o` is emitted before `z` when it
      ranks at least as high as `p`, and after everything otherwise. */
  lemma ConvertChain(x: real, o: BinOp, y: real, p: BinOp, z: real)
    ensures var X, Y, Z := Num(x), Num(y), Num(z);
      ToPostfix([], [], [X, Op(o), Y, Op(p), Z]) ==
        if Ge(Op(o), Op(p)) then Conv([X, Y, Op(o), Z, Op(p)], [], Pass)
        else Conv([X, Y, Z, Op(p), Op(o)], [], Pass)
  {
    ConvertChainFront(x, o, y, p, z);
    if Ge(Op(o), Op(p)) {
      ConvertChainLeft(x, o, y, p, z);
    } else {
      ConvertChainRight(x, o, y, p, z);
    }
  }

  /** The postfix form of the conventional reading is what the conversion
      emits. */
  lemma PostfixGrouped(a: nat, o: BinOp, b: nat, p: BinOp, c: nat)
    ensures var X, Y, Z := Num(a as real), Num(b as real), Num(c as real);
      Postfix(Grouped(a, o, b, p, c)) ==
        if Ge(Op(o), Op(p)) then [X, Y, Op(o), Z, Op(p)] else [X, Y, Z, Op(p), Op(o)]
  {
    GeLevel(o, p);
    var X, Y, Z := Num(a as real), Num(b as real), Num(c as real);
    if Level(o) >= Level(p) {
      assert Postfix(Bin(o, Lit(a), Lit(b))) == [X] + [Y] + [Op(o)];
      assert [X] + [Y] + [Op(o)] + [Z] + [Op(p)] == [X, Y, Op(o), Z, Op(p)];
    } else {
      assert Postfix(Bin(p, Lit(b), Lit(c))) == [Y] + [Z] + [Op(p)];
      assert [X] + ([Y] + [Z] + [Op(p)]) + [Op(o)] == [X, Y, Z, Op(p), Op(o)];
    }
  }

  /** Parsing `a o b p c` on a new engine gives the postfix form of its
      conventional reading, and running it gives that reading's value, or
      `DivisionByZero`. */
  lemma ChainParseThenRun(a: nat, o: BinOp, b: nat, p: BinOp, c: nat)
    ensures var e := Grouped(a, o, b, p, c);
      var r := ParseStep(Initial(), ChainText(a, o, b, p, c));
      r == Parsed(EngineState(ChainInfix(a, o, b, p, c), Postfix(e), [], true), Pass) &&
      RunStep(r.state).value == match Value(e) case Some(v) => Ok(v) case None => Err(DivisionByZero)
  {
    var t := ChainText(a, o, b, p, c);
    var infix := ChainInfix(a, o, b, p, c);
    var e := Grouped(a, o, b, p, c);
    CalmChain(a, o, b, p, c);
    var ra := Render(a);
    assert t[|ra|] == Char(o);
    CalmTokenize(t, |ra|);
    ScanChain(a, o, b, p, c);
    assert [] + infix == infix;
    ConvertChain(a as real, o, b as real, p, c as real);
    PostfixGrouped(a, o, b, p, c);
    assert [] + Postfix(e) == Postfix(e);
    EvalPostfix([], e);
    if Value(e).Some? {
      assert [] + [Num(Value(e).value)] == [Num(Value(e).value)];
    }
  }

  /** Parsing `-a p b` is parsing `0-a p b`. */
  lemma NegParseThenRun(a: nat, p: BinOp, b: nat)
    ensures var e := Grouped(0, Minus, a, p, b);
      var r := ParseStep(Initial(), NegText(a, p, b));
      r == Parsed(EngineState(ChainInfix(0, Minus, a, p, b), Postfix(e), [], true), Pass) &&
      RunStep(r.state).value == match Value(e) case Some(v) => Ok(v) case None => Err(DivisionByZero)
  {
    NegNormal(a, p, b);
    CalmChain(0, Minus, a, p, b);
    CalmNormal(ChainText(0, Minus, a, p, b));
    assert ParseStep(Initial(), NegText(a, p, b)) == ParseStep(Initial(), ChainText(0, Minus, a, p, b));
    ChainParseThenRun(0, Minus, a, p, b);
  }

  // ---------------------------------------------------------------------
  // A minus after a binary operator.

  /** The text `a+-b`. */
  function PlusMinusText(a: nat, b: nat): string {
    Render(a) + [Char(Plus)] + [Char(Minus)] + Render(b)
  }

  lemma CalmPlusMinus(a: nat, b: nat)
    ensures Calm(PlusMinusText(a, b))
  {
    var ra, rb := Render(a), Render(b);
    CalmRender(a);
    CalmRender(b);
    assert IsDigit(Last(ra));
    CalmJoin(ra, Plus, []);
    var x := ra + [Char(Plus)];
    assert x + [] == x && Last(x) == Char(Plus);
    CalmJoin(x, Minus, rb);
  }

  lemma ScanPlusMinus(a: nat, b: nat)
    ensures Scan([], PlusMinusText(a, b)) == Lexed([Num(a as real), Op(Plus), Op(Minus), Num(b as real)], Pass)
  {
    var ra, rb := Render(a), Render(b);
    var s2 := [Char(Minus)] + rb;
    ScanOpLiteral(Minus, b);
    SymbolTokenInverse(Op(Plus));
    ScanAtSymbol(Char(Plus), s2);
    var s3 := [Char(Plus)] + s2;
    assert s3[0] == Char(Plus);
    ScanLiteral(a, s3);
    AppendAssoc(ra + [Char(Plus)], [Char(Minus)], rb);
    AppendAssoc(ra, [Char(Plus)], s2);
  }

  lemma TokenizePlusMinus(a: nat, b: nat)
    ensures var t := PlusMinusText(a, b);
      Normalized(t) == t &&
      Tokenize(t) == Lexed([Num(a as real), Op(Plus), Op(Minus), Num(b as real)], Pass)
  {
    var t := PlusMinusText(a, b);
    CalmPlusMinus(a, b);
    assert t[|Render(a)|] == Char(Plus);
    CalmTokenize(t, |Render(a)|);
    ScanPlusMinus(a, b);
  }

  /** The tokens of `a+-b` convert to `a + b -`. */
  lemma ConvertPlusMinus(x: real, y: real)
    ensures var X, Y := Num(x), Num(y);
      ToPostfix([], [], [X, Op(Plus), Op(Minus), Y]) == Conv([X, Op(Plus), Y, Op(Minus)], [], Pass)
  {
    var X, Y, P, M := Num(x), Num(y), Op(Plus), Op(Minus);
    var t := [X, P, M, Y];
    assert t[1..] == [P, M, Y] && [P, M, Y][1..] == [M, Y] && [M, Y][1..] == [Y] && [Y][1..] == [];
    assert [] + [X] == [X] && [] + [P] == [P];
    assert ConvertFrom([], [], t) == ConvertFrom([X], [], [P, M, Y]);
    assert ConvertFrom([X], [], [P, M, Y]) == ConvertFrom([X], [P], [M, Y]);
    RankOrder(Minus);
    PopsLone([X], Plus, Minus);
    assert [X] + [P] == [X, P] && [X, P] + [Y] == [X, P, Y];
    assert ConvertFrom([X], [P], [M, Y]) == ConvertFrom([X, P], [M], [Y]);
    assert ConvertFrom([X, P], [M], [Y]) == Conv([X, P, Y], [M], Pass);
    assert Last([M]) == M && DropLast([M]) == [];
    assert [X, P, Y] + [M] == [X, P, Y, M];
    assert Drain([X, P, Y], [M]) == Drain([X, P, Y, M], []);
  }

  /** `a+b-`, evaluated, meets `+` with one value on the stack. */
  lemma EvalPlusMinus(x: real, y: real)
    ensures var X := Num(x);
      EvalFrom([], [X, Op(Plus), Num(y), Op(Minus)]) == Eval([X], Fail(InsufficientOperands))
  {
    var X := Num(x);
    var post := [X, Op(Plus), Num(y), Op(Minus)];
    assert post[1..] == [Op(Plus), Num(y), Op(Minus)];
    assert [] + [X] == [X];
  }

  /** `a+-b`: a `-` right after a binary operator gets no `0`, so it is
      read as a second binary operator. The text parses, and `Run` finds
      only one value for `+` and fails, leaving `a` on the stack. */
  lemma MinusAfterOperator(a: nat, b: nat)
    ensures var X, Y := Num(a as real), Num(b as real);
      var r := ParseStep(Initial(), PlusMinusText(a, b));
      r.status == Pass &&
      r.state.postfix == [X, Op(Plus), Y, Op(Minus)] &&
      RunStep(r.state) == Ran(r.state.(stack := [X]), Err(InsufficientOperands))
  {
    TokenizePlusMinus(a, b);
    var X, Y := Num(a as real), Num(b as real);
    var infix := [X, Op(Plus), Op(Minus), Y];
    assert [] + infix == infix;
    ConvertPlusMinus(a as real, b as real);
    EvalPlusMinus(a as real, b as real);
  }

  // ---------------------------------------------------------------------
  // The conventions on particular operators.

  /** `a+b*c` is read as `a+(b*c)`. */
  lemma ReadTimesBeforePlus(a: nat, b: nat, c: nat)
    ensures var e := Grouped(a, Plus, b, Times, c);
      Postfix(e) == [Num(a as real), Num(b as real), Num(c as real), Op(Times), Op(Plus)] &&
      Value(e) == Some(a as real + b as real * c as real)
  {
    PostfixGrouped(a, Plus, b, Times, c);
    GeLevel(Plus, Times);
    assert Value(Lit(b)) == Some(b as real) && Value(Lit(c)) == Some(c as real);
    assert Apply(Times, b as real, c as real) == Some(b as real * c as real);
    assert Value(Bin(Times, Lit(b), Lit(c))) == Some(b as real * c as real);
  }

  /** `a+b*c`: the product is taken first. */
  lemma TimesBeforePlus(a: nat, b: nat, c: nat)
    ensures var r := ParseStep(Initial(), ChainText(a, Plus, b, Times, c));
      r.status == Pass &&
      r.state.postfix == [Num(a as real), Num(b as real), Num(c as real), Op(Times), Op(Plus)] &&
      RunStep(r.state).value == Ok(a as real + b as real * c as real)
  {
    ChainParseThenRun(a, Plus, b, Times, c);
    ReadTimesBeforePlus(a, b, c);
  }

  /** `a-b-c` is read as `(a-b)-c`. */
  lemma ReadMinusGroupsLeft(a: nat, b: nat, c: nat)
    ensures var e := Grouped(a, Minus, b, Minus, c);
      Postfix(e) == [Num(a as real), Num(b as real), Op(Minus), Num(c as real), Op(Minus)] &&
      Value(e) == Some((a as real - b as real) - c as real)
  {
    PostfixGrouped(a, Minus, b, Minus, c);
    GeLevel(Minus, Minus);
    assert Value(Bin(Minus, Lit(a), Lit(b))) == Some(a as real - b as real);
  }

  /** `a-b-c`: the first minus is taken first. */
  lemma MinusGroupsLeft(a: nat, b: nat, c: nat)
    ensures var r := ParseStep(Initial(), ChainText(a, Minus, b, Minus, c));
      r.status == Pass &&
      r.state.postfix == [Num(a as real), Num(b as real), Op(Minus), Num(c as real), Op(Minus)] &&
      RunStep(r.state).value == Ok((a as real - b as real) - c as real)
  {
    ChainParseThenRun(a, Minus, b, Minus, c);
    ReadMinusGroupsLeft(a, b, c);
  }

  /** `a-b+c` is read as `(a-b)+c`. */
  lemma ReadMinusThenPlus(a: nat, b: nat, c: nat)
    ensures Value(Grouped(a, Minus, b, Plus, c)) == Some((a as real - b as real) + c as real)
  {
    assert Value(Bin(Minus, Lit(a), Lit(b))) == Some(a as real - b as real);
  }

  /** `a-b+c`: operators of one level group to the left even when they
      differ, so `c` is not subtracted. */
  lemma MinusThenPlus(a: nat, b: nat, c: nat)
    ensures var r := ParseStep(Initial(), ChainText(a, Minus, b, Plus, c));
      r.status == Pass && RunStep(r.state).value == Ok((a as real - b as real) + c as real)
  {
    ChainParseThenRun(a, Minus, b, Plus, c);
    ReadMinusThenPlus(a, b, c);
  }

  /** `-a+b` is read as `(0-a)+b`. */
  lemma ReadLeadingMinus(a: nat, b: nat)
    ensures Value(Grouped(0, Minus, a, Plus, b)) == Some(b as real - a as real)
  {
    assert Value(Bin(Minus, Lit(0), Lit(a))) == Some(0.0 - a as real);
  }

  /** `-a+b`: the leading minus negates `a` only. */
  lemma LeadingMinus(a: nat, b: nat)
    ensures var r := ParseStep(Initial(), NegText(a, Plus, b));
      r.status == Pass &&
      r.state.infix == [Num(0.0), Op(Minus), Num(a as real), Op(Plus), Num(b as real)] &&
      RunStep(r.state).value == Ok(b as real - a as real)
  {
    NegParseThenRun(a, Plus, b);
    ReadLeadingMinus(a, b);
  }
}
