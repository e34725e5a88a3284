/** Tokens of an arithmetic expression, the operator rank table, and the
    error kinds of the engine. */
module Tokens {

  datatype Option<T> = None | Some(value: T)

  /** The four binary operators `+ - * /`. */
  datatype BinOp = Plus | Minus | Times | Divide

  /** A token of the infix or postfix sequence, and an entry of the engine's
      shared stack (numbers during evaluation, operators and `(` during
      conversion). */
  datatype Token = Num(value: real) | Op(op: BinOp) | LParen | RParen

  /** The reasons the engine reports a failure. */
  datatype Error =
    | NotParsed             // run before a successful parse
    | NoOperator            // the text holds no operator or bracket
    | MalformedNumber       // a gap between operators is not a number
    | UnbalancedBrackets    // a `)` without `(`, or a `(` never closed
    | InsufficientOperands  // an operator met fewer than two values
    | UnknownOperator       // a bracket token reached the evaluator
    | ResultCardinality     // evaluation did not end with exactly one value
    | DivisionByZero        // the right operand of `/` is zero

  datatype Status = Pass | Fail(error: Error)

  datatype Result<T> = Ok(value: T) | Err(error: Error)

  /** The rank of every operator and bracket symbol. A missing key means
      "not an operator". */
  const RankTable: map<char, nat> :=
    map['(' := 1, ')' := 4, '+' := 2, '-' := 2, '*' := 3, '/' := 3]

  /** `isOperator`: brackets count as operators here. */
  predicate IsOperatorChar(c: char) {
    c in RankTable
  }

  predicate IsOperatorToken(t: Token) {
    !t.Num?
  }

  /** The symbol a non-number token is written with. */
  function Symbol(t: Token): (c: char)
    requires IsOperatorToken(t)
    ensures IsOperatorChar(c)
  {
    match t
    case LParen => '('
    case RParen => ')'
    case Op(Plus) => '+'
    case Op(Minus) => '-'
    case Op(Times) => '*'
    case Op(Divide) => '/'
  }

  /** The token a symbol of the rank table stands for. */
  function SymbolToken(c: char): (t: Token)
    requires IsOperatorChar(c)
    ensures IsOperatorToken(t) && Symbol(t) == c
  {
    if c == '(' then LParen
    else if c == ')' then RParen
    else if c == '+' then Op(Plus)
    else if c == '-' then Op(Minus)
    else if c == '*' then Op(Times)
    else Op(Divide)
  }

  lemma SymbolTokenInverse(t: Token)
    requires IsOperatorToken(t)
    ensures SymbolToken(Symbol(t)) == t
  {
  }

  /** The rank of a non-number token, looked up in the table. */
  function Rank(t: Token): nat
    requires IsOperatorToken(t)
  {
    RankTable[Symbol(t)]
  }

  /** `ge`: the rank of `top` is at least the rank of `incoming`. */
  predicate Ge(top: Token, incoming: Token)
    requires IsOperatorToken(top) && IsOperatorToken(incoming)
  {
    Rank(top) >= Rank(incoming)
  }

  /** The operator characters are exactly the six keys of the rank table. */
  lemma OperatorChars(c: char)
    ensures IsOperatorChar(c) <==> c in "()+-*/"
  {
  }

  /** `(` ranks below every binary operator, `)` above all of them, and
      `* /` bind tighter than `+ -`. */
  lemma RankOrder(o: BinOp)
    ensures Rank(LParen) < Rank(Op(o)) < Rank(RParen)
    ensures !Ge(LParen, Op(o))
    ensures Ge(Op(Times), Op(o)) && Ge(Op(Divide), Op(o))
    ensures Ge(Op(o), Op(Plus)) && Ge(Op(o), Op(Minus))
    ensures Ge(Op(Plus), Op(o)) <==> (o == Plus || o == Minus)
  {
  }

  predicate IsBracket(t: Token) {
    t == LParen || t == RParen
  }

  /** No `(` and no `)` anywhere in `ts`. */
  predicate NoBrackets(ts: seq<Token>) {
    forall i :: 0 <= i < |ts| ==> !IsBracket(ts[i])
  }

  /** Every entry is an operator or a `(`: what the conversion phase keeps
      on the shared stack. */
  predicate OperatorStack(ts: seq<Token>) {
    forall i :: 0 <= i < |ts| ==> ts[i].Op? || ts[i] == LParen
  }

  /** Every entry is a number: what the evaluation phase keeps on the
      shared stack. */
  predicate AllNumbers(ts: seq<Token>) {
    forall i :: 0 <= i < |ts| ==> ts[i].Num?
  }

  function Last<T>(s: seq<T>): T
    requires |s| > 0
  {
    s[|s| - 1]
  }

  function DropLast<T>(s: seq<T>): seq<T>
    requires |s| > 0
  {
    s[..|s| - 1]
  }

  lemma AppendAssoc<T>(a: seq<T>, b: seq<T>, c: seq<T>)
    ensures (a + b) + c == a + (b + c)
  {
  }

  /** The values of the number tokens of `ts`, in order. */
  function Numbers(ts: seq<Token>): seq<real> {
    if ts == [] then []
    else (if ts[0].Num? then [ts[0].value] else []) + Numbers(ts[1..])
  }

  /** The binary operators of `ts`, counted with multiplicity. */
  function Operators(ts: seq<Token>): multiset<BinOp> {
    if ts == [] then multiset{}
    else (if ts[0].Op? then multiset{ts[0].op} else multiset{}) + Operators(ts[1..])
  }

  /** How many `(` tokens `ts` holds. */
  function LParens(ts: seq<Token>): nat {
    if ts == [] then 0
    else (if ts[0] == LParen then 1 else 0) + LParens(ts[1..])
  }

  lemma {:induction false} NumbersAppend(a: seq<Token>, b: seq<Token>)
    ensures Numbers(a + b) == Numbers(a) + Numbers(b)
  {
    if a == [] {
      assert a + b == b;
    } else {
      var ab := a + b;
      assert ab != [] && ab[0] == a[0] && ab[1..] == a[1..] + b;
      NumbersAppend(a[1..], b);
    }
  }

  lemma {:induction false} OperatorsAppend(a: seq<Token>, b: seq<Token>)
    ensures Operators(a + b) == Operators(a) + Operators(b)
  {
    if a == [] {
      assert a + b == b;
    } else {
      var ab := a + b;
      assert ab != [] && ab[0] == a[0] && ab[1..] == a[1..] + b;
      OperatorsAppend(a[1..], b);
    }
  }

  lemma {:induction false} LParensAppend(a: seq<Token>, b: seq<Token>)
    ensures LParens(a + b) == LParens(a) + LParens(b)
  {
    if a == [] {
      assert a + b == b;
    } else {
      var ab := a + b;
      assert ab != [] && ab[0] == a[0] && ab[1..] == a[1..] + b;
      LParensAppend(a[1..], b);
    }
  }

  /** A bracket-free sequence is made of its numbers and its operators. */
  lemma {:induction false} BracketFreeLength(ts: seq<Token>)
    requires NoBrackets(ts)
    ensures |ts| == |Numbers(ts)| + |Operators(ts)|
  {
    if ts != [] {
      assert NoBrackets(ts[1..]) by {
        forall i | 0 <= i < |ts[1..]| ensures !IsBracket(ts[1..][i]) {
          assert ts[1..][i] == ts[i + 1];
        }
      }
      BracketFreeLength(ts[1..]);
    }
  }

  /** An operator stack without `(` holds only binary operators. */
  lemma {:induction false} NoLParenMeansOperators(ts: seq<Token>)
    requires OperatorStack(ts) && LParens(ts) == 0
    ensures |Operators(ts)| == |ts| && Numbers(ts) == []
  {
    if ts != [] {
      assert OperatorStack(ts[1..]) by {
        forall i | 0 <= i < |ts[1..]| ensures ts[1..][i].Op? || ts[1..][i] == LParen {
          assert ts[1..][i] == ts[i + 1];
        }
      }
      NoLParenMeansOperators(ts[1..]);
    }
  }

  lemma {:induction false} OperatorStackHasNoNumbers(ts: seq<Token>)
    requires OperatorStack(ts)
    ensures Numbers(ts) == []
  {
    if ts != [] {
      assert OperatorStack(ts[1..]) by {
        forall i | 0 <= i < |ts[1..]| ensures ts[1..][i].Op? || ts[1..][i] == LParen {
          assert ts[1..][i] == ts[i + 1];
        }
      }
      OperatorStackHasNoNumbers(ts[1..]);
    }
  }
}
