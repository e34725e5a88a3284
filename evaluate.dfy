/** `compute` and `run`: evaluation of a postfix sequence on the engine's
    shared stack (bottom first, top last), as functions of the stack. A
    failure returns the stack as the source leaves it: whatever was pushed
    or popped before the failing step stays so. */
module Evaluate {
  import opened Tokens

  /** The value `compute` gives for `op` on the popped operands. The source
      adds `right + left`; division by a zero right operand has no real
      value. */
  function Apply(op: BinOp, left: real, right: real): (r: Option<real>)
    ensures r.None? <==> op == Divide && right == 0.0
    ensures r.Some? && op == Plus ==> r.value == left + right
    ensures r.Some? && op == Minus ==> r.value + right == left
    ensures r.Some? && op == Times ==> r.value == left * right
    ensures r.Some? && op == Divide ==> r.value * right == left
  {
    match op
    case Plus => Some(right + left)
    case Minus => Some(left - right)
    case Times => Some(left * right)
    case Divide => if right == 0.0 then None else Some(left / right)
  }

  /** The stack after one step of `compute`, with its outcome. */
  datatype Computed = Computed(stk: seq<Token>, value: Result<real>)

  /** `compute`: with fewer than two values it fails and leaves the stack;
      otherwise it pops the right operand, then the left one, and only then
      looks at the symbol, so a bracket symbol or a zero divisor fails with
      both operands gone. */
  function Compute(stk: seq<Token>, sym: Token): (r: Computed)
    requires AllNumbers(stk) && IsOperatorToken(sym)
    ensures AllNumbers(r.stk)
    ensures |stk| < 2 ==> r == Computed(stk, Err(InsufficientOperands))
    ensures |stk| >= 2 ==> r.stk == stk[..|stk| - 2]
    ensures r.value.Ok? <==> |stk| >= 2 && sym.Op? && !(sym.op == Divide && Last(stk).value == 0.0)
    ensures r.value.Err? ==> r.value.error in {InsufficientOperands, UnknownOperator, DivisionByZero}
    ensures |stk| >= 2 && IsBracket(sym) ==> r.value == Err(UnknownOperator)
    ensures |stk| >= 2 && sym.Op? ==>
      r.value == match Apply(sym.op, stk[|stk| - 2].value, Last(stk).value)
                 case None => Err(DivisionByZero)
                 case Some(v) => Ok(v)
  {
    if |stk| < 2 then Computed(stk, Err(InsufficientOperands))
    else
      var right := Last(stk).value;
      var rest := DropLast(stk);
      var left := Last(rest).value;
      var rest2 := DropLast(rest);
      assert rest2 == stk[..|stk| - 2];
      if !sym.Op? then Computed(rest2, Err(UnknownOperator))
      else match Apply(sym.op, left, right)
        case None => Computed(rest2, Err(DivisionByZero))
        case Some(v) => Computed(rest2, Ok(v))
  }

  /** The stack after the evaluation loop and how it ended. */
  datatype Eval = Eval(stk: seq<Token>, status: Status)

  /** The loop of `run`: push each number; for each other token call
      `compute` and push its value; the first failure stops the loop. */
  function EvalFrom(stk: seq<Token>, post: seq<Token>): (r: Eval)
    requires AllNumbers(stk)
    ensures AllNumbers(r.stk)
    decreases |post|
  {
    if post == [] then Eval(stk, Pass)
    else if post[0].Num? then EvalFrom(stk + [post[0]], post[1..])
    else
      var c := Compute(stk, post[0]);
      if c.value.Err? then Eval(c.stk, Fail(c.value.error))
      else EvalFrom(c.stk + [Num(c.value.value)], post[1..])
  }

  /** `run` once the engine is parsed: evaluate, then demand exactly one
      value and pop it. */
  function RunPostfix(stk: seq<Token>, post: seq<Token>): (r: Computed)
    requires AllNumbers(stk)
    ensures AllNumbers(r.stk)
  {
    var e := EvalFrom(stk, post);
    if e.status.Fail? then Computed(e.stk, Err(e.status.error))
    else if |e.stk| != 1 then Computed(e.stk, Err(ResultCardinality))
    else Computed([], Ok(e.stk[0].value))
  }

  // ---------------------------------------------------------------------
  // The stack height a postfix sequence needs.

  /** The stack height after `post`, starting at height `h`: a number adds
      one value, every other token takes two and gives one back; none when
      some operator finds fewer than two values. */
  function Height(h: nat, post: seq<Token>): Option<nat>
    decreases |post|
  {
    if post == [] then Some(h)
    else if post[0].Num? then Height(h + 1, post[1..])
    else if h < 2 then None
    else Height(h - 1, post[1..])
  }

  /** A postfix sequence that leaves exactly one value on an empty stack. */
  predicate WellFormed(post: seq<Token>) {
    Height(0, post) == Some(1)
  }

  /** The evaluation loop fails for lack of operands only when the heights
      run short, always fails when they do, never meets an unknown operator
      in a bracket-free sequence, and there fails only on a zero divisor
      when the heights suffice; on success the height is the final stack
      size. */
  lemma {:induction false} EvalFromSpec(stk: seq<Token>, post: seq<Token>)
    requires AllNumbers(stk)
    ensures var r := EvalFrom(stk, post);
      (r.status.Pass? ==> Height(|stk|, post) == Some(|r.stk|)) &&
      (r.status == Fail(InsufficientOperands) ==> Height(|stk|, post).None?) &&
      (Height(|stk|, post).None? ==> r.status.Fail?) &&
      (r.status.Fail? ==> r.status.error in {InsufficientOperands, UnknownOperator, DivisionByZero}) &&
      (NoBrackets(post) ==> r.status != Fail(UnknownOperator)) &&
      (NoBrackets(post) && Height(|stk|, post).Some? ==> r.status.Pass? || r.status == Fail(DivisionByZero))
    decreases |post|
  {
    if post != [] {
      var tok := post[0];
      assert NoBrackets(post) ==> NoBrackets(post[1..]) && !IsBracket(tok) by {
        if NoBrackets(post) {
          forall i | 0 <= i < |post[1..]| ensures !IsBracket(post[1..][i]) {
            assert post[1..][i] == post[i + 1];
          }
        }
      }
      if tok.Num? {
        EvalFromSpec(stk + [tok], post[1..]);
      } else {
        var c := Compute(stk, tok);
        if c.value.Ok? {
          EvalFromSpec(c.stk + [Num(c.value.value)], post[1..]);
        }
      }
    }
  }

  /** `run` on a parsed engine: it succeeds only for a sequence that leaves
      exactly one value, and then empties the stack; such a sequence
      succeeds unless it divides by zero; a sequence whose
      heights run short fails for lack of operands (or on a zero divisor
      met first); one that leaves another number of values fails with
      `ResultCardinality` (or on a zero divisor). */
  lemma RunPostfixSpec(stk: seq<Token>, post: seq<Token>)
    requires AllNumbers(stk) && NoBrackets(post)
    ensures var r := RunPostfix(stk, post);
      (r.value.Ok? ==> r.stk == [] && Height(|stk|, post) == Some(1)) &&
      (Height(|stk|, post).None? ==> r.value.Err? && r.value.error in {InsufficientOperands, DivisionByZero}) &&
      (Height(|stk|, post).Some? && Height(|stk|, post) != Some(1) ==>
        r.value.Err? && r.value.error in {ResultCardinality, DivisionByZero}) &&
      (Height(|stk|, post) == Some(1) ==> r.value.Ok? || r.value == Err(DivisionByZero)) &&
      (r.value.Err? ==> r.value.error in {InsufficientOperands, ResultCardinality, DivisionByZero})
  {
    EvalFromSpec(stk, post);
  }

  /** On a fresh stack a bracket-free sequence evaluates only when it is
      well formed, and a well-formed one evaluates unless it divides by
      zero. */
  lemma FreshRun(post: seq<Token>)
    requires NoBrackets(post)
    ensures RunPostfix([], post).value.Ok? ==> WellFormed(post)
    ensures WellFormed(post) ==> RunPostfix([], post).value.Ok? || RunPostfix([], post).value == Err(DivisionByZero)
  {
    RunPostfixSpec([], post);
  }

  /** A successful `run` empties the stack, so when it started from an empty
      stack a second `run` gives the same value and the same stack. */
  lemma RunRepeatable(post: seq<Token>)
    requires RunPostfix([], post).value.Ok?
    ensures var r := RunPostfix([], post); r.stk == [] && RunPostfix(r.stk, post) == r
  {
  }

  /** Evaluation splits at any point of the sequence. */
  lemma {:induction false} EvalFromAppend(stk: seq<Token>, a: seq<Token>, b: seq<Token>)
    requires AllNumbers(stk)
    ensures var r := EvalFrom(stk, a);
      EvalFrom(stk, a + b) == if r.status.Fail? then r else EvalFrom(r.stk, b)
    decreases |a|
  {
    if a == [] {
      assert a + b == b;
    } else {
      assert (a + b)[0] == a[0] && (a + b)[1..] == a[1..] + b;
      if a[0].Num? {
        EvalFromAppend(stk + [a[0]], a[1..], b);
      } else {
        var c := Compute(stk, a[0]);
        if c.value.Ok? {
          EvalFromAppend(c.stk + [Num(c.value.value)], a[1..], b);
        }
      }
    }
  }
}
