/** The shunting-yard conversion of `parseToPostfixExpression` and
    `handleOperator`, as functions of the postfix sequence built so far and
    of the operator stack (bottom first, top last). Each step returns the
    new sequence and stack even when it fails, because the source leaves
    what it has already appended and popped as it is. */
module Convert {
  import opened Tokens

  datatype Conv = Conv(post: seq<Token>, stk: seq<Token>, status: Status)

  /** The `)` branch of `handleOperator`: pop and emit until a `(` is popped
      (and dropped); an empty stack means the `)` has no partner. */
  function PopToLParen(post: seq<Token>, stk: seq<Token>): (r: Conv)
    decreases |stk|
  {
    if stk == [] then Conv(post, [], Fail(UnbalancedBrackets))
    else if Last(stk) == LParen then Conv(post, DropLast(stk), Pass)
    else PopToLParen(post + [Last(stk)], DropLast(stk))
  }

  /** The operator branch of `handleOperator`: pop and emit while the top
      ranks at least as high as `o`, then push `o`. */
  function PopWhileGe(post: seq<Token>, stk: seq<Token>, o: Token): (r: Conv)
    requires OperatorStack(stk) && o.Op?
    decreases |stk|
  {
    if stk != [] && Ge(Last(stk), o) then PopWhileGe(post + [Last(stk)], DropLast(stk), o)
    else Conv(post, stk + [o], Pass)
  }

  /** `handleOperator` for a non-number token. */
  function HandleOperator(post: seq<Token>, stk: seq<Token>, tok: Token): (r: Conv)
    requires OperatorStack(stk) && IsOperatorToken(tok)
  {
    match tok
    case LParen => Conv(post, stk + [LParen], Pass)
    case RParen => PopToLParen(post, stk)
    case Op(_) => if stk == [] then Conv(post, [tok], Pass) else PopWhileGe(post, stk, tok)
  }

  /** The loop over the infix tokens: numbers go straight to the output,
      everything else through `handleOperator`; the first failure stops it. */
  function ConvertFrom(post: seq<Token>, stk: seq<Token>, toks: seq<Token>): (r: Conv)
    requires OperatorStack(stk)
    ensures OperatorStack(r.stk)
    decreases |toks|
  {
    if toks == [] then Conv(post, stk, Pass)
    else if toks[0].Num? then ConvertFrom(post + [toks[0]], stk, toks[1..])
    else
      var h := HandleOperator(post, stk, toks[0]);
      HandleKeepsOperatorStack(post, stk, toks[0]);
      if h.status.Fail? then h else ConvertFrom(h.post, h.stk, toks[1..])
  }

  /** The final loop: pop and emit what is left; a `(` still on the stack
      was never closed. */
  function Drain(post: seq<Token>, stk: seq<Token>): (r: Conv)
    decreases |stk|
  {
    if stk == [] then Conv(post, [], Pass)
    else if Last(stk) == LParen then Conv(post, DropLast(stk), Fail(UnbalancedBrackets))
    else Drain(post + [Last(stk)], DropLast(stk))
  }

  /** `parseToPostfixExpression`: convert all of `infix`, then drain the
      stack. */
  function ToPostfix(post: seq<Token>, stk: seq<Token>, infix: seq<Token>): (r: Conv)
    requires OperatorStack(stk)
  {
    var c := ConvertFrom(post, stk, infix);
    if c.status.Fail? then c else Drain(c.post, c.stk)
  }

  // ---------------------------------------------------------------------
  // Lemmas.

  lemma DropLastOperatorStack(stk: seq<Token>)
    requires OperatorStack(stk) && stk != []
    ensures OperatorStack(DropLast(stk)) && (Last(stk).Op? || Last(stk) == LParen)
  {
  }

  lemma {:induction false} PopWhileGeKeepsOperatorStack(post: seq<Token>, stk: seq<Token>, o: Token)
    requires OperatorStack(stk) && o.Op?
    ensures OperatorStack(PopWhileGe(post, stk, o).stk)
    decreases |stk|
  {
    if stk != [] && Ge(Last(stk), o) {
      PopWhileGeKeepsOperatorStack(post + [Last(stk)], DropLast(stk), o);
    }
  }

  lemma HandleKeepsOperatorStack(post: seq<Token>, stk: seq<Token>, tok: Token)
    requires OperatorStack(stk) && IsOperatorToken(tok)
    ensures OperatorStack(HandleOperator(post, stk, tok).stk)
  {
    match tok
    case LParen =>
    case RParen => PopToLParenSpec(post, stk);
    case Op(_) =>
      if stk != [] {
        PopWhileGeKeepsOperatorStack(post, stk, tok);
      }
  }

  /** The reverse of a sequence: what popping a stack segment emits. */
  function Reverse<T>(s: seq<T>): (r: seq<T>)
    ensures |r| == |s|
  {
    if s == [] then [] else [Last(s)] + Reverse(DropLast(s))
  }

  /** How many stack entries an incoming operator `o` leaves in place: the
      entries above them are the ones it pops. */
  function Kept(stk: seq<Token>, o: Token): (k: nat)
    requires OperatorStack(stk) && o.Op?
    ensures k <= |stk|
    decreases |stk|
  {
    if stk != [] && Ge(Last(stk), o) then Kept(DropLast(stk), o) else |stk|
  }

  /** An incoming operator pops, top first, the entries above the lowest
      `Kept` ones, emits them in pop order, and pushes itself. */
  lemma {:induction false} PopWhileGeResult(post: seq<Token>, stk: seq<Token>, o: Token)
    requires OperatorStack(stk) && o.Op?
    ensures var k := Kept(stk, o);
      PopWhileGe(post, stk, o) == Conv(post + Reverse(stk[k..]), stk[..k] + [o], Pass)
    decreases |stk|
  {
    var k := Kept(stk, o);
    if stk != [] && Ge(Last(stk), o) {
      var top := Last(stk);
      PopWhileGeResult(post + [top], DropLast(stk), o);
      assert stk[k..] == DropLast(stk)[k..] + [top];
      assert Reverse(stk[k..]) == [top] + Reverse(DropLast(stk)[k..]);
      assert DropLast(stk)[..k] == stk[..k];
      assert post + [top] + Reverse(DropLast(stk)[k..]) == post + Reverse(stk[k..]);
    } else {
      assert stk[k..] == [] && stk[..k] == stk;
      assert post + Reverse(stk[k..]) == post;
    }
  }

  /** Every popped entry is a binary operator ranking at least as high as
      `o` (a `(` is never popped here, since it ranks lowest), and the entry
      left on top, if any, ranks lower than `o`. */
  lemma {:induction false} PopWhileGeStops(stk: seq<Token>, o: Token)
    requires OperatorStack(stk) && o.Op?
    ensures var k := Kept(stk, o);
      (forall i :: k <= i < |stk| ==> stk[i].Op? && Ge(stk[i], o)) &&
      (k > 0 ==> !Ge(stk[k - 1], o))
    decreases |stk|
  {
    if stk != [] && Ge(Last(stk), o) {
      RankOrder(o.op);
      PopWhileGeStops(DropLast(stk), o);
      var k := Kept(stk, o);
      forall i | k <= i < |stk| ensures stk[i].Op? && Ge(stk[i], o) {
        if i < |stk| - 1 {
          assert stk[i] == DropLast(stk)[i];
        }
      }
      if k > 0 {
        assert stk[k - 1] == DropLast(stk)[k - 1];
      }
    }
  }

  /** Emitting the top (a binary operator) moves it from the stack to the
      output: brackets, numbers, operators and `(` counts are conserved. */
  lemma EmitTop(post: seq<Token>, stk: seq<Token>)
    requires OperatorStack(stk) && stk != [] && Last(stk).Op?
    ensures OperatorStack(DropLast(stk))
    ensures NoBrackets(post) ==> NoBrackets(post + [Last(stk)])
    ensures Numbers(post + [Last(stk)]) == Numbers(post)
    ensures Operators(post + [Last(stk)]) + Operators(DropLast(stk)) == Operators(post) + Operators(stk)
    ensures LParens(DropLast(stk)) == LParens(stk)
  {
    var top := Last(stk);
    DropLastOperatorStack(stk);
    if NoBrackets(post) {
      var out := post + [top];
      forall i | 0 <= i < |out| ensures !IsBracket(out[i]) {
        if i < |post| {
          assert out[i] == post[i];
        }
      }
    }
    assert DropLast(stk) + [top] == stk;
    NumbersAppend(post, [top]);
    OperatorsAppend(post, [top]);
    OperatorsAppend(DropLast(stk), [top]);
    LParensAppend(DropLast(stk), [top]);
  }

  /** Dropping a `(` from the top removes one `(` and no operator. */
  lemma DropLParen(stk: seq<Token>)
    requires OperatorStack(stk) && stk != [] && Last(stk) == LParen
    ensures OperatorStack(DropLast(stk))
    ensures Operators(DropLast(stk)) == Operators(stk)
    ensures LParens(DropLast(stk)) == LParens(stk) - 1
  {
    assert DropLast(stk) + [LParen] == stk;
    OperatorsAppend(DropLast(stk), [LParen]);
    LParensAppend(DropLast(stk), [LParen]);
  }

  /** Popping to the matching `(`: it fails exactly when there is no `(` on
      the stack, then having emptied the stack; it emits only binary
      operators; on success one `(` has gone. */
  lemma {:induction false} PopToLParenSpec(post: seq<Token>, stk: seq<Token>)
    requires OperatorStack(stk)
    ensures var r := PopToLParen(post, stk);
      OperatorStack(r.stk) &&
      (r.status.Pass? <==> LParens(stk) > 0) &&
      (r.status.Fail? ==> r.status == Fail(UnbalancedBrackets) && r.stk == []) &&
      (r.status.Pass? ==> LParens(r.stk) == LParens(stk) - 1) &&
      (NoBrackets(post) ==> NoBrackets(r.post)) &&
      Numbers(r.post) == Numbers(post) &&
      Operators(r.post) + Operators(r.stk) == Operators(post) + Operators(stk)
    decreases |stk|
  {
    if stk != [] {
      if Last(stk) == LParen {
        DropLParen(stk);
      } else {
        EmitTop(post, stk);
        PopToLParenSpec(post + [Last(stk)], DropLast(stk));
      }
    }
  }

  /** The index of the topmost `(` on the stack, or -1 when there is none. */
  function TopLParen(stk: seq<Token>): (k: int)
    ensures -1 <= k < |stk|
    ensures k >= 0 ==> stk[k] == LParen
    ensures forall i :: k < i < |stk| ==> stk[i] != LParen
    decreases |stk|
  {
    if stk == [] then -1
    else if Last(stk) == LParen then |stk| - 1
    else TopLParen(DropLast(stk))
  }

  /** A `)` emits, top first, the entries above the topmost `(`, and drops
      that `(` only, keeping everything below it; with no `(` it emits the
      whole stack and fails. */
  lemma {:induction false} PopToLParenResult(post: seq<Token>, stk: seq<Token>)
    ensures var k := TopLParen(stk);
      PopToLParen(post, stk) ==
        if k < 0 then Conv(post + Reverse(stk), [], Fail(UnbalancedBrackets))
        else Conv(post + Reverse(stk[k + 1..]), stk[..k], Pass)
    decreases |stk|
  {
    var k := TopLParen(stk);
    if stk == [] {
      assert post + Reverse(stk) == post;
    } else if Last(stk) == LParen {
      assert stk[k + 1..] == [] && stk[..k] == DropLast(stk);
      assert post + Reverse(stk[k + 1..]) == post;
    } else {
      var top, rest := Last(stk), DropLast(stk);
      PopToLParenResult(post + [top], rest);
      if k < 0 {
        assert Reverse(stk) == [top] + Reverse(rest);
        AppendAssoc(post, [top], Reverse(rest));
      } else {
        assert stk[k + 1..] == rest[k + 1..] + [top];
        assert Reverse(stk[k + 1..]) == [top] + Reverse(rest[k + 1..]);
        assert rest[..k] == stk[..k];
        AppendAssoc(post, [top], Reverse(rest[k + 1..]));
      }
    }
  }

  /** What an incoming operator guarantees: it never fails, emits only
      binary operators, keeps every `(`, and adds itself to the operators
      held. */
  predicate PopWhileGeGuarantee(post: seq<Token>, stk: seq<Token>, o: Token)
    requires OperatorStack(stk) && o.Op?
  {
    var r := PopWhileGe(post, stk, o);
    r.status == Pass &&
    OperatorStack(r.stk) &&
    LParens(r.stk) == LParens(stk) &&
    (NoBrackets(post) ==> NoBrackets(r.post)) &&
    Numbers(r.post) == Numbers(post) &&
    Operators(r.post) + Operators(r.stk) == Operators(post) + Operators(stk) + multiset{o.op}
  }

  /** The step that emits the top carries the guarantee back. */
  lemma PopWhileGeEmitCase(post: seq<Token>, stk: seq<Token>, o: Token)
    requires OperatorStack(stk) && o.Op? && stk != [] && Ge(Last(stk), o)
    requires OperatorStack(DropLast(stk))
    requires PopWhileGeGuarantee(post + [Last(stk)], DropLast(stk), o)
    ensures PopWhileGeGuarantee(post, stk, o)
  {
    RankOrder(o.op);
    var post', stk' := post + [Last(stk)], DropLast(stk);
    EmitTop(post, stk);
    var r := PopWhileGe(post', stk', o);
    assert r == PopWhileGe(post, stk, o);
    var a, b := Operators(post'), Operators(stk');
    assert Operators(r.post) + Operators(r.stk) == (a + b) + multiset{o.op};
    assert a + b == Operators(post) + Operators(stk);
  }

  /** The step that pushes the operator meets the guarantee. */
  lemma PopWhileGePushCase(post: seq<Token>, stk: seq<Token>, o: Token)
    requires OperatorStack(stk) && o.Op? && !(stk != [] && Ge(Last(stk), o))
    ensures PopWhileGeGuarantee(post, stk, o)
  {
    OperatorsAppend(stk, [o]);
    LParensAppend(stk, [o]);
  }

  /** An incoming operator never fails, emits only binary operators, keeps
      every `(`, and adds itself to the operators held. */
  lemma {:induction false} PopWhileGeSpec(post: seq<Token>, stk: seq<Token>, o: Token)
    requires OperatorStack(stk) && o.Op?
    ensures var r := PopWhileGe(post, stk, o);
      r.status == Pass &&
      OperatorStack(r.stk) &&
      LParens(r.stk) == LParens(stk) &&
      (NoBrackets(post) ==> NoBrackets(r.post)) &&
      Numbers(r.post) == Numbers(post) &&
      Operators(r.post) + Operators(r.stk) == Operators(post) + Operators(stk) + multiset{o.op}
    decreases |stk|
  {
    if stk != [] && Ge(Last(stk), o) {
      RankOrder(o.op);
      EmitTop(post, stk);
      PopWhileGeSpec(post + [Last(stk)], DropLast(stk), o);
      PopWhileGeEmitCase(post, stk, o);
    } else {
      PopWhileGePushCase(post, stk, o);
    }
  }

  /** Draining fails exactly when a `(` is left, empties the stack when it
      succeeds, and emits only binary operators. */
  lemma {:induction false} DrainSpec(post: seq<Token>, stk: seq<Token>)
    requires OperatorStack(stk)
    ensures var r := Drain(post, stk);
      (r.status.Pass? <==> LParens(stk) == 0) &&
      (r.status.Fail? ==> r.status == Fail(UnbalancedBrackets)) &&
      (r.status.Pass? ==> r.stk == []) &&
      OperatorStack(r.stk) &&
      (NoBrackets(post) ==> NoBrackets(r.post)) &&
      Numbers(r.post) == Numbers(post) &&
      Operators(r.post) + Operators(r.stk) == Operators(post) + Operators(stk)
    decreases |stk|
  {
    if stk != [] {
      if Last(stk) == LParen {
        DropLParen(stk);
      } else {
        EmitTop(post, stk);
        DrainSpec(post + [Last(stk)], DropLast(stk));
      }
    }
  }

  /** The bracket nesting depth after `toks`, starting at depth `d`; none
      when a `)` closes more brackets than are open. */
  function Depth(d: nat, toks: seq<Token>): Option<nat>
    decreases |toks|
  {
    if toks == [] then Some(d)
    else if toks[0] == LParen then Depth(d + 1, toks[1..])
    else if toks[0] == RParen then (if d == 0 then None else Depth(d - 1, toks[1..]))
    else Depth(d, toks[1..])
  }

  /** Every `)` closes an open `(` and every `(` is closed. */
  predicate Balanced(toks: seq<Token>) {
    Depth(0, toks) == Some(0)
  }

  /** What `handleOperator` guarantees for one token. */
  predicate HandleGuarantee(post: seq<Token>, stk: seq<Token>, tok: Token)
    requires OperatorStack(stk) && IsOperatorToken(tok)
  {
    var r := HandleOperator(post, stk, tok);
    OperatorStack(r.stk) &&
    (r.status.Pass? <==> (tok == RParen ==> LParens(stk) > 0)) &&
    (r.status.Fail? ==> r.status == Fail(UnbalancedBrackets)) &&
    (NoBrackets(post) ==> NoBrackets(r.post)) &&
    Numbers(r.post) == Numbers(post) &&
    (r.status.Pass? ==>
      LParens(r.stk) == (if tok == LParen then LParens(stk) + 1
                         else if tok == RParen then LParens(stk) - 1
                         else LParens(stk)) &&
      Operators(r.post) + Operators(r.stk) == Operators(post) + Operators(stk) + Operators([tok]))
  }

  /** A `(` is pushed. */
  lemma HandleLParenCase(post: seq<Token>, stk: seq<Token>)
    requires OperatorStack(stk)
    ensures HandleGuarantee(post, stk, LParen)
  {
    assert Operators([LParen]) == multiset{};
    assert OperatorStack(stk + [LParen]) by {
      forall i | 0 <= i < |stk + [LParen]| ensures (stk + [LParen])[i].Op? || (stk + [LParen])[i] == LParen {
        if i < |stk| {
          assert (stk + [LParen])[i] == stk[i];
        }
      }
    }
    OperatorsAppend(stk, [LParen]);
    LParensAppend(stk, [LParen]);
  }

  /** A `)` pops to its `(`. */
  lemma HandleRParenCase(post: seq<Token>, stk: seq<Token>)
    requires OperatorStack(stk)
    ensures HandleGuarantee(post, stk, RParen)
  {
    assert Operators([RParen]) == multiset{};
    PopToLParenSpec(post, stk);
  }

  /** A binary operator pops what ranks at least as high, then is pushed. */
  lemma HandleOpCase(post: seq<Token>, stk: seq<Token>, tok: Token)
    requires OperatorStack(stk) && tok.Op?
    ensures HandleGuarantee(post, stk, tok)
  {
    assert Operators([tok]) == multiset{tok.op};
    if stk == [] {
      assert [] + [tok] == [tok];
    } else {
      PopWhileGeSpec(post, stk, tok);
    }
  }

  /** `handleOperator` on one token: it fails only on a `)` with no `(` on
      the stack; it keeps brackets out of the output and conserves the
      operators; `(` pushes a bracket and `)` removes one. */
  lemma HandleOperatorSpec(post: seq<Token>, stk: seq<Token>, tok: Token)
    requires OperatorStack(stk) && IsOperatorToken(tok)
    ensures var r := HandleOperator(post, stk, tok);
      OperatorStack(r.stk) &&
      (r.status.Pass? <==> (tok == RParen ==> LParens(stk) > 0)) &&
      (r.status.Fail? ==> r.status == Fail(UnbalancedBrackets)) &&
      (NoBrackets(post) ==> NoBrackets(r.post)) &&
      Numbers(r.post) == Numbers(post) &&
      (r.status.Pass? ==>
        LParens(r.stk) == (if tok == LParen then LParens(stk) + 1
                           else if tok == RParen then LParens(stk) - 1
                           else LParens(stk)) &&
        Operators(r.post) + Operators(r.stk) == Operators(post) + Operators(stk) + Operators([tok]))
  {
    match tok
    case LParen => HandleLParenCase(post, stk);
    case RParen => HandleRParenCase(post, stk);
    case Op(_) => HandleOpCase(post, stk, tok);
  }

  /** What the conversion loop guarantees, for one starting state. */
  predicate ConvertFromGuarantee(post: seq<Token>, stk: seq<Token>, toks: seq<Token>)
    requires OperatorStack(stk)
  {
    var r := ConvertFrom(post, stk, toks);
    (r.status.Pass? <==> Depth(LParens(stk), toks).Some?) &&
    (r.status.Fail? ==> r.status == Fail(UnbalancedBrackets)) &&
    (NoBrackets(post) ==> NoBrackets(r.post)) &&
    (r.status.Pass? ==>
      LParens(r.stk) == Depth(LParens(stk), toks).value &&
      Numbers(r.post) == Numbers(post) + Numbers(toks) &&
      Operators(r.post) + Operators(r.stk) == Operators(post) + Operators(stk) + Operators(toks))
  }

  /** A number token split off the front of a sequence. */
  lemma NumberCons(toks: seq<Token>)
    requires toks != [] && toks[0].Num?
    ensures Numbers(toks) == [toks[0].value] + Numbers(toks[1..])
    ensures Operators(toks) == Operators(toks[1..])
  {
  }

  /** A number token appended to the output. */
  lemma NumberSnoc(post: seq<Token>, tok: Token)
    requires tok.Num?
    ensures Numbers(post + [tok]) == Numbers(post) + [tok.value]
    ensures Operators(post + [tok]) == Operators(post)
    ensures NoBrackets(post) ==> NoBrackets(post + [tok])
  {
    NumbersAppend(post, [tok]);
    OperatorsAppend(post, [tok]);
  }

  lemma ConvertNumberStep(post: seq<Token>, stk: seq<Token>, toks: seq<Token>)
    requires OperatorStack(stk) && toks != [] && toks[0].Num?
    requires ConvertFromGuarantee(post + [toks[0]], stk, toks[1..])
    ensures ConvertFromGuarantee(post, stk, toks)
  {
    var tok := toks[0];
    var r := ConvertFrom(post, stk, toks);
    assert r == ConvertFrom(post + [tok], stk, toks[1..]);
    assert Depth(LParens(stk), toks) == Depth(LParens(stk), toks[1..]);
    NumberCons(toks);
    NumberSnoc(post, tok);
    if r.status.Pass? {
      var a, b, c := Numbers(post), [tok.value], Numbers(toks[1..]);
      assert Numbers(r.post) == (a + b) + c;
      AppendAssoc(a, b, c);
    }
  }

  /** One bracket or operator token changes the depth as `Depth` says. */
  lemma DepthStep(d: nat, toks: seq<Token>)
    requires toks != [] && !toks[0].Num?
    ensures Depth(d, toks) ==
      if toks[0] == LParen then Depth(d + 1, toks[1..])
      else if toks[0] == RParen then (if d == 0 then None else Depth(d - 1, toks[1..]))
      else Depth(d, toks[1..])
  {
  }

  /** The operator count of a sequence split after its first token. */
  lemma OperatorsCons(toks: seq<Token>)
    requires toks != []
    ensures Operators(toks) == Operators([toks[0]]) + Operators(toks[1..])
    ensures !toks[0].Num? ==> Numbers(toks) == Numbers(toks[1..])
  {
    assert toks == [toks[0]] + toks[1..];
    OperatorsAppend([toks[0]], toks[1..]);
    NumbersAppend([toks[0]], toks[1..]);
  }

  /** A failing `handleOperator` ends the loop with the guarantee met. */
  lemma ConvertOperatorFail(post: seq<Token>, stk: seq<Token>, toks: seq<Token>)
    requires OperatorStack(stk) && toks != [] && !toks[0].Num?
    requires HandleOperator(post, stk, toks[0]).status.Fail?
    ensures ConvertFromGuarantee(post, stk, toks)
  {
    var tok := toks[0];
    HandleOperatorSpec(post, stk, tok);
    DepthStep(LParens(stk), toks);
    assert ConvertFrom(post, stk, toks) == HandleOperator(post, stk, tok);
  }

  /** A passing `handleOperator` carries the guarantee of the rest back. */
  lemma ConvertOperatorPass(post: seq<Token>, stk: seq<Token>, toks: seq<Token>)
    requires OperatorStack(stk) && toks != [] && !toks[0].Num?
    requires var h := HandleOperator(post, stk, toks[0]);
      h.status.Pass? && OperatorStack(h.stk) && ConvertFromGuarantee(h.post, h.stk, toks[1..])
    ensures ConvertFromGuarantee(post, stk, toks)
  {
    var tok := toks[0];
    HandleOperatorSpec(post, stk, tok);
    var h := HandleOperator(post, stk, tok);
    DepthStep(LParens(stk), toks);
    assert Depth(LParens(stk), toks) == Depth(LParens(h.stk), toks[1..]);
    var r := ConvertFrom(post, stk, toks);
    assert r == ConvertFrom(h.post, h.stk, toks[1..]);
    OperatorsCons(toks);
    if r.status.Pass? {
      var m, n, t, q := Operators(post), Operators(stk), Operators([tok]), Operators(toks[1..]);
      assert Operators(r.post) + Operators(r.stk) == (m + n + t) + q;
      assert Operators(toks) == t + q;
    }
  }

  lemma ConvertOperatorStep(post: seq<Token>, stk: seq<Token>, toks: seq<Token>)
    requires OperatorStack(stk) && toks != [] && !toks[0].Num?
    requires var h := HandleOperator(post, stk, toks[0]);
      OperatorStack(h.stk) && (h.status.Pass? ==> ConvertFromGuarantee(h.post, h.stk, toks[1..]))
    ensures ConvertFromGuarantee(post, stk, toks)
  {
    if HandleOperator(post, stk, toks[0]).status.Pass? {
      ConvertOperatorPass(post, stk, toks);
    } else {
      ConvertOperatorFail(post, stk, toks);
    }
  }

  /** The conversion loop: it fails exactly when some `)` finds no `(` on
      the stack, keeps brackets out of the output whatever happens, and on
      success appends the numbers of `toks` in order and conserves the
      operators. */
  lemma {:induction false} ConvertFromSpec(post: seq<Token>, stk: seq<Token>, toks: seq<Token>)
    requires OperatorStack(stk)
    ensures ConvertFromGuarantee(post, stk, toks)
    decreases |toks|
  {
    if toks == [] {
      assert Operators(toks) == multiset{} && Numbers(toks) == [];
    } else if toks[0].Num? {
      ConvertFromSpec(post + [toks[0]], stk, toks[1..]);
      ConvertNumberStep(post, stk, toks);
    } else {
      var h := HandleOperator(post, stk, toks[0]);
      HandleKeepsOperatorStack(post, stk, toks[0]);
      if h.status.Pass? {
        ConvertFromSpec(h.post, h.stk, toks[1..]);
      }
      ConvertOperatorStep(post, stk, toks);
    }
  }

  /** `parseToPostfixExpression` from any operator stack: it fails only
      with `UnbalancedBrackets`, exactly when the brackets of `infix` (with
      the `(`s already on the stack) do not balance; the output never holds
      a bracket; on success the stack is empty, the numbers of `infix`
      follow those already emitted in the same order, and every operator of
      `infix` and of the old stack has been emitted exactly once. */
  lemma ToPostfixSpec(post: seq<Token>, stk: seq<Token>, infix: seq<Token>)
    requires OperatorStack(stk)
    ensures var r := ToPostfix(post, stk, infix);
      OperatorStack(r.stk) &&
      (r.status.Fail? ==> r.status == Fail(UnbalancedBrackets)) &&
      (r.status.Pass? <==> Depth(LParens(stk), infix) == Some(0)) &&
      (NoBrackets(post) ==> NoBrackets(r.post)) &&
      (r.status.Pass? ==>
        r.stk == [] &&
        Numbers(r.post) == Numbers(post) + Numbers(infix) &&
        Operators(r.post) == Operators(post) + Operators(stk) + Operators(infix))
  {
    ConvertFromSpec(post, stk, infix);
    var c := ConvertFrom(post, stk, infix);
    if c.status.Pass? {
      DrainSpec(c.post, c.stk);
    }
  }

  /** From a fresh engine: the conversion succeeds exactly when the brackets
      balance, and then the postfix sequence has no bracket, holds the
      numbers of the infix sequence in their order and each of its
      operators once, so its length is numbers plus operators. */
  lemma FreshConversion(infix: seq<Token>)
    ensures var r := ToPostfix([], [], infix);
      (r.status.Pass? <==> Balanced(infix)) &&
      (r.status.Fail? ==> r.status == Fail(UnbalancedBrackets)) &&
      NoBrackets(r.post) &&
      (r.status.Pass? ==>
        r.stk == [] &&
        Numbers(r.post) == Numbers(infix) &&
        Operators(r.post) == Operators(infix) &&
        |r.post| == |Numbers(infix)| + |Operators(infix)|)
  {
    ToPostfixSpec([], [], infix);
    var r := ToPostfix([], [], infix);
    BracketFreeLength(r.post);
  }
}
