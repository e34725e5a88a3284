/** The compute engine: `Parse`, `Run` and `Reset` over the infix and
    postfix sequences, the parsed flag and the one stack shared by the
    conversion and the evaluation. The transitions are first given as
    functions of an `EngineState` value; the class `ComputeEngine` then
    implements them with the source's loops and is proved to follow them. */
module Engine {
  import opened Tokens
  import opened Stacks
  import opened Normalize
  import opened Literals
  import opened Lexer
  import opened Convert
  import opened Evaluate

  /** What the engine holds: the two sequences, the shared stack's contents
      (bottom first) and the parsed flag. */
  datatype EngineState = EngineState(infix: seq<Token>, postfix: seq<Token>, stack: seq<Token>, parsed: bool)

  /** `NewComputeEngine`: a fresh engine is unparsed and meets the
      invariant. */
  function Initial(): (e: EngineState)
    ensures Inv(e) && !e.parsed
  {
    EngineState([], [], [], false)
  }

  /** What every reachable state satisfies: the postfix sequence holds no
      bracket; the stack holds only values once parsed, and only operators
      and `(` before. */
  predicate Inv(e: EngineState) {
    NoBrackets(e.postfix) &&
    (if e.parsed then AllNumbers(e.stack) else OperatorStack(e.stack))
  }

  datatype Parsed = Parsed(state: EngineState, status: Status)

  datatype Ran = Ran(state: EngineState, value: Result<real>)

  /** `Parse`: nothing to do once parsed; otherwise normalise and tokenise
      the text, appending the tokens to the infix sequence (also the ones
      emitted before a failure), then convert the whole infix sequence onto
      the postfix sequence and the stack as they stand. The flag is set only
      when both phases pass. */
  function ParseStep(e: EngineState, s: string): (r: Parsed)
    requires Inv(e)
    ensures Inv(r.state)
    ensures e.parsed ==> r == Parsed(e, Pass)
    ensures r.state.parsed <==> e.parsed || r.status.Pass?
    ensures r.status.Fail? ==> r.status.error in {NoOperator, MalformedNumber, UnbalancedBrackets}
    ensures !e.parsed ==> |r.state.infix| >= |e.infix| && r.state.infix[..|e.infix|] == e.infix
  {
    if e.parsed then Parsed(e, Pass)
    else
      var t := Normalized(s);
      var l := Tokenize(t);
      TokenizeSpec(t);
      var infix := e.infix + l.tokens;
      assert infix[..|e.infix|] == e.infix;
      if l.status.Fail? then Parsed(e.(infix := infix), l.status)
      else
        var c := ToPostfix(e.postfix, e.stack, infix);
        ToPostfixSpec(e.postfix, e.stack, infix);
        Parsed(EngineState(infix, c.post, c.stk, c.status.Pass?), c.status)
  }

  /** `Run`: refused before a successful parse; otherwise evaluate the
      postfix sequence on the stack as it stands. Only the stack changes. */
  function RunStep(e: EngineState): (r: Ran)
    requires Inv(e)
    ensures Inv(r.state)
    ensures !e.parsed ==> r == Ran(e, Err(NotParsed))
    ensures r.state.infix == e.infix && r.state.postfix == e.postfix && r.state.parsed == e.parsed
    ensures e.parsed && r.value.Ok? ==> r.state.stack == []
  {
    if !e.parsed then Ran(e, Err(NotParsed))
    else
      var c := RunPostfix(e.stack, e.postfix);
      Ran(e.(stack := c.stk), c.value)
  }

  /** `Reset`: a parsed engine goes back to the initial state; an unparsed
      one keeps everything, leftovers included. */
  function ResetStep(e: EngineState): (r: EngineState)
    ensures Inv(e) ==> Inv(r)
    ensures !r.parsed
    ensures e.parsed ==> r == Initial()
    ensures !e.parsed ==> r == e
  {
    if !e.parsed then e else Initial()
  }

  // ---------------------------------------------------------------------
  // Lifecycle properties.

  /** A parse of `s` on an unparsed engine succeeds exactly when the text
      tokenises and the brackets of the whole infix sequence (leftovers
      first) balance against the `(`s left on the stack. On success the
      stack is empty and the new numbers and operators follow those already
      in the postfix sequence. */
  lemma ParseSpec(e: EngineState, s: string)
    requires Inv(e) && !e.parsed
    ensures var l := Tokenize(Normalized(s));
      var r := ParseStep(e, s);
      var infix := e.infix + l.tokens;
      r.state.infix == infix &&
      (r.status.Pass? <==> l.status.Pass? && Depth(LParens(e.stack), infix) == Some(0)) &&
      (l.status.Fail? ==> r.status == l.status && r.state == e.(infix := infix)) &&
      (r.status.Pass? ==>
        r.state.stack == [] &&
        Numbers(r.state.postfix) == Numbers(e.postfix) + Numbers(infix) &&
        Operators(r.state.postfix) == Operators(e.postfix) + Operators(e.stack) + Operators(infix))
  {
    var l := Tokenize(Normalized(s));
    if l.status.Pass? {
      ToPostfixSpec(e.postfix, e.stack, e.infix + l.tokens);
    }
  }

  /** A parse on a fresh engine succeeds exactly when the normalised text
      tokenises and its brackets balance. It then holds the infix tokens,
      an empty stack, and a bracket-free postfix sequence with the numbers
      of the text in order and each of its operators once. */
  lemma FreshParse(s: string)
    ensures var t := Normalized(s);
      var l := Tokenize(t);
      var r := ParseStep(Initial(), s);
      (r.status.Pass? <==> l.status.Pass? && Balanced(l.tokens)) &&
      (l.status.Pass? && !Balanced(l.tokens) ==> r.status == Fail(UnbalancedBrackets)) &&
      (r.status.Pass? ==>
        r.state.parsed && r.state.infix == l.tokens && r.state.stack == [] &&
        NoBrackets(r.state.postfix) &&
        OpSymbols(l.tokens) == OpChars(t) &&
        GapValues(Segments(t)) == Some(Numbers(r.state.postfix)) &&
        Operators(r.state.postfix) == Operators(l.tokens) &&
        |r.state.postfix| == |Numbers(l.tokens)| + |Operators(l.tokens)|)
  {
    var t := Normalized(s);
    var l := Tokenize(t);
    TokenizeSpec(t);
    assert [] + l.tokens == l.tokens;
    if l.status.Pass? {
      FreshConversion(l.tokens);
    }
  }

  /** `Run` on a parsed engine succeeds only when the postfix sequence,
      started from the current stack height, leaves exactly one value; the
      value is then popped and the stack is empty. Such a sequence succeeds
      unless it divides by zero. */
  lemma RunSpec(e: EngineState)
    requires Inv(e) && e.parsed
    ensures var r := RunStep(e);
      (r.value.Ok? ==> r.state.stack == [] && Height(|e.stack|, e.postfix) == Some(1)) &&
      (Height(|e.stack|, e.postfix).None? ==> r.value.Err? && r.value.error in {InsufficientOperands, DivisionByZero}) &&
      (Height(|e.stack|, e.postfix).Some? && Height(|e.stack|, e.postfix) != Some(1) ==>
        r.value.Err? && r.value.error in {ResultCardinality, DivisionByZero}) &&
      (Height(|e.stack|, e.postfix) == Some(1) ==> r.value.Ok? || r.value == Err(DivisionByZero))
  {
    RunPostfixSpec(e.stack, e.postfix);
  }

  /** After a successful `Run` the stack is empty, so from then on every
      `Run` repeats the same value. */
  lemma RunTwice(e: EngineState)
    requires Inv(e) && RunStep(e).value.Ok?
    ensures var r := RunStep(e); RunStep(r.state).value.Ok? ==> RunStep(RunStep(r.state).state) == RunStep(r.state)
    ensures e.stack == [] ==> RunStep(RunStep(e).state) == RunStep(e)
  {
    var r := RunStep(e);
    if RunStep(r.state).value.Ok? {
      RunRepeatable(e.postfix);
    }
    if e.stack == [] {
      RunRepeatable(e.postfix);
    }
  }

  /** A state after a failed parse is one `Reset` does not clear. */
  lemma ResetKeepsFailedParse(e: EngineState, s: string)
    requires Inv(e) && !e.parsed && ParseStep(e, s).status.Fail?
    ensures ResetStep(ParseStep(e, s).state) == ParseStep(e, s).state
  {
  }

  /** The tokens `ts` followed by what a scan emits. */
  function Prepend(ts: seq<Token>, l: Lexed): Lexed {
    Lexed(ts + l.tokens, l.status)
  }

  lemma PrependEmit(ts: seq<Token>, g: seq<Token>, sym: Token, rest: Lexed)
    ensures Prepend(ts, Emit(Some(g), sym, rest)) == Prepend(ts + g + [sym], rest)
  {
    assert ts + (g + [sym] + rest.tokens) == ts + g + [sym] + rest.tokens;
  }

  /** A scan that stopped on a malformed gap has emitted nothing more. */
  lemma PrependStopped(ts: seq<Token>, o: seq<Token>, goal: Lexed, l: Lexed)
    requires Prepend(ts, l) == Prepend(o, goal) && l == Lexed([], Fail(MalformedNumber))
    ensures ts == o + goal.tokens && goal.status == Fail(MalformedNumber)
  {
    assert ts + [] == ts;
  }

  /** The tail's tokens complete the scan. */
  lemma PrependTail(ts: seq<Token>, o: seq<Token>, goal: Lexed, g: seq<Token>)
    requires Prepend(ts, Tail(Some(g))) == Prepend(o, goal)
    ensures ts + g == o + goal.tokens && goal.status == Pass
  {
  }

  /** Dropping one more element of a sequence. */
  lemma DropStep<T>(s: seq<T>, k: nat)
    requires k < |s|
    ensures s[k..][0] == s[k] && s[k..][1..] == s[k + 1..]
  {
  }

  /** One step of the operator loop with the tokens emitted so far: the
      next operator position; a malformed gap before it ends the scan
      there, a good one is followed by the operator. */
  lemma EmitStep(t: string, start: nat, ts: seq<Token>, o: seq<Token>, goal: Lexed)
    requires start <= |t| && OpsFrom(t, start) != []
    requires Prepend(ts, ScanFrom(t, start)) == Prepend(o, goal)
    ensures var end := OpsFrom(t, start)[0];
      start <= end < |t| && IsOperatorChar(t[end]) && OpsFrom(t, start)[1..] == OpsFrom(t, end + 1) &&
      (GapToken(t[start..end]).None? ==> ts == o + goal.tokens && goal.status == Fail(MalformedNumber)) &&
      (GapToken(t[start..end]).Some? ==>
        Prepend(ts + GapToken(t[start..end]).value + [SymbolToken(t[end])], ScanFrom(t, end + 1)) == Prepend(o, goal))
  {
    OpsFromHead(t, start);
    var end := OpsFrom(t, start)[0];
    ScanFromStep(t, start, end);
    var rest := ScanFrom(t, end + 1);
    var sym := SymbolToken(t[end]);
    match GapToken(t[start..end])
    case None =>
      PrependStopped(ts, o, goal, Emit(None, sym, rest));
    case Some(g) =>
      PrependEmit(ts, g, sym, rest);
  }

  /** The tail after the last operator completes the scan. */
  lemma EmitLast(t: string, start: nat, ts: seq<Token>, o: seq<Token>, goal: Lexed)
    requires start <= |t| && OpsFrom(t, start) == []
    requires Prepend(ts, ScanFrom(t, start)) == Prepend(o, goal)
    ensures GapToken(t[start..]).None? ==> ts == o + goal.tokens && goal.status == Fail(MalformedNumber)
    ensures GapToken(t[start..]).Some? ==> ts + GapToken(t[start..]).value == o + goal.tokens && goal.status == Pass
  {
    match GapToken(t[start..])
    case None =>
      PrependStopped(ts, o, goal, Tail(None));
    case Some(g) =>
      PrependTail(ts, o, goal, g);
  }

  // ---------------------------------------------------------------------
  // The engine object.

  class ComputeEngine {
    var infix: seq<Token>
    var postfix: seq<Token>
    var isParsed: bool
    /** The embedded stack, shared by both phases. */
    var stack: Stack<Token>

    function State(): EngineState
      reads this, stack
    {
      EngineState(infix, postfix, stack.elems, isParsed)
    }

    predicate Valid()
      reads this, stack
    {
      Inv(State())
    }

    /** `NewComputeEngine`. */
    constructor ()
      ensures State() == Initial() && Valid()
    {
      infix := [];
      postfix := [];
      isParsed := false;
      stack := new Stack<Token>();
    }

    /** `Parse`. */
    method Parse(s: string) returns (status: Status)
      requires Valid()
      modifies this, stack
      ensures stack == old(stack)
      ensures Parsed(State(), status) == ParseStep(old(State()), s)
      ensures Valid()
    {
      if isParsed {
        return Pass;
      }
      status := ParseToInfix(s);
      if status.Fail? {
        return;
      }
      status := ParseToPostfix();
      if status.Fail? {
        return;
      }
      isParsed := true;
    }

    /** `parseToInfixExpression`: normalise, collect the operator positions,
        then emit each gap's number (if the gap is not empty) and each
        operator, and finally the tail's number. */
    method ParseToInfix(s: string) returns (status: Status)
      modifies this
      ensures stack == old(stack) && postfix == old(postfix) && isParsed == old(isParsed)
      ensures var l := Tokenize(Normalized(s)); infix == old(infix) + l.tokens && status == l.status
    {
      var t := PrevHandle(s);
      var idx := OperatorPositions(t);
      if |idx| == 0 {
        assert Tokenize(t).tokens == [] && infix + [] == infix;
        return Fail(NoOperator);
      }
      OpPositionsAreOpsFrom(t);
      status := EmitTokens(t, idx);
    }

    /** The second loop of `parseToInfixExpression` and the tail after it:
        for each operator position, the gap's number (when the gap is not
        empty) and the operator; then the tail's number. */
    method EmitTokens(t: string, idx: seq<nat>) returns (status: Status)
      requires idx == OpsFrom(t, 0)
      modifies this
      ensures stack == old(stack) && postfix == old(postfix) && isParsed == old(isParsed)
      ensures var l := ScanFrom(t, 0); infix == old(infix) + l.tokens && status == l.status
    {
      assert idx[0..] == idx;
      ghost var goal := ScanFrom(t, 0);
      var start := 0;
      for k := 0 to |idx|
        invariant stack == old(stack) && postfix == old(postfix) && isParsed == old(isParsed)
        invariant start <= |t| && idx[k..] == OpsFrom(t, start)
        invariant Prepend(infix, ScanFrom(t, start)) == Prepend(old(infix), goal)
      {
        var end := idx[k];
        DropStep(idx, k);
        EmitStep(t, start, infix, old(infix), goal);
        assert idx[k + 1..] == OpsFrom(t, end + 1);
        var ok := EmitGap(t[start..end]);
        if !ok {
          return Fail(MalformedNumber);
        }
        infix := infix + [SymbolToken(t[end])];
        start := end + 1;
      }
      assert idx[|idx|..] == [];
      EmitLast(t, start, infix, old(infix), goal);
      var ok := EmitGap(t[start..]);
      if !ok {
        return Fail(MalformedNumber);
      }
      return Pass;
    }

    /** The number of one gap between operators: nothing for an empty
        gap, otherwise the parsed literal; `false` for a malformed one. */
    method EmitGap(gap: string) returns (ok: bool)
      modifies this
      ensures stack == old(stack) && postfix == old(postfix) && isParsed == old(isParsed)
      ensures ok <==> GapToken(gap).Some?
      ensures ok ==> infix == old(infix) + GapToken(gap).value
      ensures !ok ==> infix == old(infix)
    {
      if |gap| != 0 {
        var number := ParseNumber(gap);
        if number.None? {
          return false;
        }
        infix := infix + [Num(number.value)];
      } else {
        assert infix + [] == infix;
      }
      return true;
    }

    /** The first loop of `parseToInfixExpression`: the positions of the
        operator and bracket characters, ascending. */
    static method OperatorPositions(t: string) returns (idx: seq<nat>)
      ensures idx == OpPositions(t, |t|)
    {
      idx := [];
      for i := 0 to |t|
        invariant idx == OpPositions(t, i)
      {
        if IsOperatorChar(t[i]) {
          idx := idx + [i];
        }
      }
    }

    /** `parseToPostfixExpression`: numbers go to the output, everything else
        through `handleOperator`; then the stack is emptied onto the output,
        and a `(` found there fails. */
    method ParseToPostfix() returns (status: Status)
      requires OperatorStack(stack.elems)
      modifies this, stack
      ensures stack == old(stack) && infix == old(infix) && isParsed == old(isParsed)
      ensures Conv(postfix, stack.elems, status) == ToPostfix(old(postfix), old(stack.elems), infix)
    {
      ghost var goal := ConvertFrom(postfix, stack.elems, infix);
      for k := 0 to |infix|
        invariant stack == old(stack) && infix == old(infix) && isParsed == old(isParsed)
        invariant OperatorStack(stack.elems)
        invariant ConvertFrom(postfix, stack.elems, infix[k..]) == goal
      {
        var tok := infix[k];
        assert infix[k..][0] == tok && infix[k..][1..] == infix[k + 1..];
        if tok.Num? {
          postfix := postfix + [tok];
        } else {
          HandleKeepsOperatorStack(postfix, stack.elems, tok);
          status := HandleOperator(tok);
          if status.Fail? {
            return;
          }
        }
      }
      assert infix[|infix|..] == [];
      ghost var final := Drain(postfix, stack.elems);
      while !stack.IsEmpty()
        invariant stack == old(stack) && infix == old(infix) && isParsed == old(isParsed)
        invariant Drain(postfix, stack.elems) == final
        decreases |stack.elems|
      {
        var top := stack.Pop();
        if top == LParen {
          return Fail(UnbalancedBrackets);
        }
        postfix := postfix + [top];
      }
      return Pass;
    }

    /** `handleOperator` for one non-number token. */
    method HandleOperator(tok: Token) returns (status: Status)
      requires OperatorStack(stack.elems) && IsOperatorToken(tok)
      modifies this, stack
      ensures stack == old(stack) && infix == old(infix) && isParsed == old(isParsed)
      ensures Conv(postfix, stack.elems, status) == Convert.HandleOperator(old(postfix), old(stack.elems), tok)
    {
      if tok == LParen {
        stack.Push(tok);
        return Pass;
      }
      if tok == RParen {
        while !stack.IsEmpty()
          invariant stack == old(stack) && infix == old(infix) && isParsed == old(isParsed)
          invariant PopToLParen(postfix, stack.elems) == PopToLParen(old(postfix), old(stack.elems))
          decreases |stack.elems|
        {
          var top := stack.Pop();
          if top == LParen {
            return Pass;
          }
          postfix := postfix + [top];
        }
        return Fail(UnbalancedBrackets);
      }
      if stack.IsEmpty() {
        stack.Push(tok);
        return Pass;
      }
      while !stack.IsEmpty() && Ge(stack.Peek(), tok)
        invariant stack == old(stack) && infix == old(infix) && isParsed == old(isParsed)
        invariant OperatorStack(stack.elems)
        invariant PopWhileGe(postfix, stack.elems, tok) == PopWhileGe(old(postfix), old(stack.elems), tok)
        decreases |stack.elems|
      {
        var top := stack.Pop();
        postfix := postfix + [top];
      }
      stack.Push(tok);
      return Pass;
    }

    /** `compute`: pop the right operand, then the left, and combine them
        with the switch on the symbol, which `Apply` states. */
    method Compute(sym: Token) returns (v: Result<real>)
      requires AllNumbers(stack.elems) && IsOperatorToken(sym)
      modifies stack
      ensures Computed(stack.elems, v) == Evaluate.Compute(old(stack.elems), sym)
    {
      if stack.Size() < 2 {
        return Err(InsufficientOperands);
      }
      ghost var before := stack.elems;
      var right := stack.Pop();
      var left := stack.Pop();
      assert right == Last(before) && left == Last(DropLast(before));
      assert stack.elems == DropLast(DropLast(before));
      if !sym.Op? {
        return Err(UnknownOperator);
      }
      var result := Apply(sym.op, left.value, right.value);
      if result.None? {
        return Err(DivisionByZero);
      }
      v := Ok(result.value);
    }

    /** `Run` (and `run`): refuse an unparsed engine; push each number and
        each computed value; demand exactly one value at the end and pop it. */
    method Run() returns (v: Result<real>)
      requires Valid()
      modifies stack
      ensures Ran(State(), v) == RunStep(old(State()))
      ensures Valid()
    {
      if !isParsed {
        return Err(NotParsed);
      }
      ghost var goal := EvalFrom(stack.elems, postfix);
      for k := 0 to |postfix|
        invariant AllNumbers(stack.elems)
        invariant EvalFrom(stack.elems, postfix[k..]) == goal
      {
        var tok := postfix[k];
        assert postfix[k..][0] == tok && postfix[k..][1..] == postfix[k + 1..];
        if tok.Num? {
          stack.Push(tok);
        } else {
          var c := Compute(tok);
          if c.Err? {
            return c;
          }
          stack.Push(Num(c.value));
        }
      }
      assert postfix[|postfix|..] == [];
      if stack.Size() != 1 {
        return Err(ResultCardinality);
      }
      var top := stack.Pop();
      v := Ok(top.value);
    }

    /** `Reset`: only a parsed engine is cleared, with a fresh stack. */
    method Reset()
      requires Valid()
      modifies this
      ensures State() == ResetStep(old(State()))
      ensures old(isParsed) ==> fresh(stack)
      ensures Valid()
    {
      if !isParsed {
        return;
      }
      stack := new Stack<Token>();
      infix := [];
      postfix := [];
      isParsed := false;
    }
  }
}
