# Arithmetic expression engine, modelled in Dafny

The repository is a small Go package (`compute`). It evaluates arithmetic text such as
`2 * (3 + (-4)) / 5`. A `ComputeEngine` has three entry points:

- `Parse` turns the text into an infix token sequence and then, with the
  shunting-yard algorithm, into a postfix sequence.
- `Run` evaluates the postfix sequence on a stack.
- `Reset` clears a parsed engine.

The engine keeps one stack for both phases. During conversion it holds operators and `(`, and
during evaluation it holds values. It also keeps a flag that records a successful parse.

This project models the engine (`engine.go`) and its stack (`stack.go`). It then proves what the
engine guarantees, stage by stage and end to end.

| module | file | what it holds |
|---|---|---|
| `Tokens` | tokens.dfy | tokens, the operator rank table, error kinds, token counting |
| `Stacks` | stack.dfy | the slice-backed stack as a class over a `seq` field |
| `Normalize` | normalize.dfy | `prevHandle`: a method with the source's builder loop, proved against a one-pass reference |
| `Literals` | numbers.dfy | the decimal literal parser that stands in for `strconv.ParseFloat` |
| `Lexer` | lexer.dfy | `parseToInfixExpression` as functions, and a character-at-a-time reference scanner |
| `Convert` | convert.dfy | `parseToPostfixExpression` and `handleOperator` as functions of the output and the stack |
| `Evaluate` | evaluate.dfy | `compute` and `run` as functions of the stack |
| `Engine` | engine.dfy | engine states and their transitions, and the class `ComputeEngine` |
| `Trees` | trees.dfy | expression trees: parsing and running the text of a tree yields its value |
| `Chains` | chains.dfy | texts without brackets holding two operators: precedence, associativity, a leading unary minus and a minus after an operator |
| `Examples` | examples.dfy | scenarios on arbitrary literals showing what failed calls leave behind |

Three patterns recur:

- Every loop of the source is a `method` with loop invariants, inside the class where the source
  has one. Each method is proved to follow a function of the old state. The lemmas about those
  functions carry the promises.
- A failing step returns the state the source leaves. The tokens already appended to the infix
  sequence stay there. So do the operators already moved to the postfix sequence, and the values
  already pushed or popped.
- Numbers are `real`. `compute` and the literal parser are exact over the reals.

Points where the model follows the code rather than the prose:

- Only `' '` is removed from the text (`Normalize.StripSpacesCount`). Tabs and other white space
  stay and then fail as literals.
- `Reset` does nothing to an unparsed engine. The leftovers of a failed `Parse` therefore survive
  it, and the next `Parse` appends to them and converts them again
  (`Examples.FailedParseLingers`).
- A failed `Run` leaves its values on the stack. A second `Run` then starts from them
  (`Examples.RunAfterFailedRun`).
- `+` computes `right + left`. Over the reals this is `left + right`.
- `compute` pops both operands before it looks at the symbol. A bracket symbol therefore fails
  after the pops.
- `Parse` does not count operands. `1+` parses, and the error comes only from `Run`.
- A `-` right after a binary operator is not unary. `prevHandle` writes a `0` only before a
  leading `-` and before a `-` that follows `(`. In `3+-4` the empty gap between `+` and `-`
  adds no token, so the text parses to `3 + 4 -` and `Run` fails for lack of operands
  (`Chains.MinusAfterOperator`). Such a minus has to be bracketed, as in `3+(-4)`.

## Model

| member | source | states |
|---|---|---|
| `Tokens.Symbol` | engine.go:10-17 | every non-number token is written with a character of the rank table |
| `Tokens.SymbolToken` | engine.go:10-17 | each character of the rank table stands for a non-number token spelled with it |
| `Tokens.SymbolTokenInverse` | engine.go:10-17 | reading back the spelling of a non-number token gives the token |
| `Tokens.IsOperatorChar` | engine.go:236-238 | `isOperator` is membership in the rank table; `OperatorChars` states which characters those are |
| `Tokens.OperatorChars` | engine.go:21-33 | a character is an operator exactly when it is one of `( ) + - * /`, the six keys of `operatorMap` |
| `Tokens.Ge` | engine.go:220-222 | `ge` compares table ranks with `>=`; `RankOrder` and `Chains.GeLevel` state what that decides |
| `Tokens.RankOrder` | engine.go:26-33 | `(` ranks below every binary operator and `)` above; `* /` rank at least as high as every operator; `ge(+, o)` holds exactly for `+` and `-` |
| `Stacks.Stack.constructor` | stack.go:15-17 | a new stack is empty |
| `Stacks.Stack.Push` | stack.go:19-21 | appends at the tail: contents grow by exactly `x`, size by one, and `Peek` then gives `x` |
| `Stacks.Stack.Pop` | stack.go:23-27 | needs a non-empty stack; returns the last element and removes only it |
| `Stacks.Stack.Size` | stack.go:29-31 | the number of elements |
| `Stacks.Stack.IsEmpty` | stack.go:33-35 | holds exactly when the size is 0, exactly when there are no elements |
| `Stacks.Stack.Peek` | stack.go:37-39 | needs a non-empty stack; the last element, with the stack unchanged |
| `Stacks.PushThenPop` | stack.go:19-27 | push then pop gives back the pushed element and restores the contents |
| `Stacks.PeekThenPop` | stack.go:23-39 | `Peek` and then `Pop` return the same element, and only that element is removed |
| `Normalize.StripSpaces` | engine.go:241 | the result holds no space, is no longer than the input, and is the input itself when it had none; `StripSpacesCount` and `StripAppend` state what it keeps |
| `Normalize.StripSpacesCount` | engine.go:241 | every `' '` is removed and every other character is kept as often as it occurs |
| `Normalize.StripAppend` | engine.go:241 | a single character is dropped exactly when it is `' '`, and removing spaces from a concatenation concatenates the results, so the kept characters stay in order |
| `Normalize.Built` | engine.go:246-252 | the builder's contents after the loop has visited a prefix; `BuiltIsReference` states what they are |
| `Normalize.Normalized` | engine.go:240-254 | the normal form of a text; `NormalizedProperties` and `NormalizedIdempotent` state its properties |
| `Normalize.PrevHandle` | engine.go:240-254 | the builder loop computes the normal form; it has no space, does not start with `-`, and no `-` follows `(` |
| `Normalize.BuiltIsReference` | engine.go:242-252 | the `0`-prefix plus the builder loop (which reads `in[i-1]` only for a `-`, never at index 0) equals one pass that puts `0` before every unary minus |
| `Normalize.NormalizedProperties` | engine.go:240-254 | normal text has no space, does not start with `-`, and no `-` follows `(` |
| `Normalize.ZeroBeforeUnaryIdentity` | engine.go:247-252 | text without a unary minus passes through unchanged |
| `Normalize.NormalizedIdempotent` | engine.go:240-254 | normalising twice is normalising once |
| `Literals.ParseNumber` | engine.go:232-234 | accepts exactly the decimal shape, with a non-negative value; `ParseRender`, `LeadingZero` and `FractionValue` together give the value of every accepted spelling |
| `Literals.TwoDotsRejected` | engine.go:232-234 | a literal with two dots is malformed |
| `Literals.NoDigitRejected` | engine.go:232-234 | a literal without a digit is malformed |
| `Literals.ParseRender` | engine.go:232-234 | parsing the decimal spelling of `n` gives `n` |
| `Literals.FractionValue` | engine.go:232-234 | for digit runs `a` and `b`, not both empty, `a.b` parses to the value of `ab` shifted right by one decimal place per digit of `b` |
| `Literals.LeadingZero` | engine.go:232-234 | a `0` put before a digit run leaves its value unchanged, so `05` parses as `5` and `007` as `7` |
| `Literals.ParseOneHalf` | engine.go:232-234 | `0.5` parses to 0.5 |
| `Literals.ParseOneAndAHalf` | engine.go:232-234 | `1.5` parses to 1.5 |
| `Literals.ParseTwoAndAQuarter` | engine.go:232-234 | `2.25` parses to 2.25 |
| `Lexer.OpPositions` | engine.go:118-123 | the first loop's collected positions; `OpPositionsCover` and `OpPositionsAreOpsFrom` state what they are |
| `Lexer.GapToken` | engine.go:129-135 | the token of one gap; `GapTokenSpec` states when it exists and what it is |
| `Lexer.GapTokenSpec` | engine.go:129-135 | a gap yields tokens exactly when it is empty or a literal; nothing for the empty gap, one non-negative number otherwise |
| `Lexer.LexFrom` | engine.go:127-145 | the second loop and the tail; `LexFromIsScan` states that it emits what the reference scanner emits |
| `Lexer.Tokenize` | engine.go:111-147 | `parseToInfixExpression` on normal text; `TokenizeIsScan` and `TokenizeSpec` state its outcome |
| `Lexer.OpPositionsCover` | engine.go:118-123 | the first loop collects every operator and bracket position |
| `Lexer.OpPositionsAreOpsFrom` | engine.go:118-123 | the positions it collects are exactly the operator positions in ascending order |
| `Lexer.SegmentsJoin` | engine.go:127-145 | the gaps between the operators, joined with the operators, give the text back |
| `Lexer.ScanStatus` | engine.go:127-145 | the reference scanner fails exactly when some non-empty gap is not a literal, and then with `MalformedNumber` |
| `Lexer.ScanTokens` | engine.go:127-145 | on success the reference scanner emits the operators in order, the gap values in order, and never two adjacent numbers |
| `Lexer.LexFromIsScan` | engine.go:127-145 | the source's walk over the operator positions emits what the reference scanner emits |
| `Lexer.TokenizeIsScan` | engine.go:116-146 | tokenising text that has an operator is the reference scan |
| `Lexer.TokenizeSpec` | engine.go:116-146 | tokenising fails with `NoOperator` exactly when the text has no operator or bracket, and otherwise fails exactly when a non-empty gap is malformed; on success the non-number tokens are the operator characters in order, the numbers are the gap values in order, and no two numbers are adjacent |
| `Convert.ConvertFrom` | engine.go:151-162 | the operator stack holds only operators and `(` throughout |
| `Convert.PopToLParen` | engine.go:198-207 | the `)` branch; `PopToLParenSpec` and `PopToLParenResult` state its outcome |
| `Convert.PopWhileGe` | engine.go:209-217 | the operator branch; `PopWhileGeResult`, `PopWhileGeStops` and `PopWhileGeSpec` state its outcome |
| `Convert.HandleOperator` | engine.go:193-218 | `handleOperator`; `HandleOperatorSpec` states its cases |
| `Convert.Drain` | engine.go:163-170 | the final loop; `DrainSpec` states its outcome |
| `Convert.ToPostfix` | engine.go:149-172 | `parseToPostfixExpression`; `ToPostfixSpec` and `FreshConversion` state its outcome |
| `Convert.HandleKeepsOperatorStack` | engine.go:193-218 | `handleOperator` pushes only operators and `(` |
| `Convert.PopWhileGeResult` | engine.go:213-216 | an incoming operator emits, top first, the entries above the kept ones, then pushes itself |
| `Convert.PopWhileGeStops` | engine.go:213-222 | every popped entry is an operator ranking at least as high as the incoming one (so `(` is never popped), and the entry left on top ranks lower |
| `Convert.PopWhileGeSpec` | engine.go:209-217 | an incoming operator never fails, emits only binary operators, keeps every `(`, and adds itself to the operators held |
| `Convert.PopToLParenSpec` | engine.go:198-207 | `)` fails exactly when no `(` is on the stack, then leaving it empty; it emits only binary operators and removes one `(` |
| `Convert.PopToLParenResult` | engine.go:198-207 | `)` emits, top first, exactly the entries above the topmost `(` and drops only that `(`, keeping everything below it; with no `(` it emits the whole stack and fails |
| `Convert.HandleOperatorSpec` | engine.go:193-218 | `handleOperator` fails only on an unmatched `)`, keeps brackets out of the output and conserves numbers and operators |
| `Convert.DrainSpec` | engine.go:163-170 | the final loop fails exactly when a `(` is left, empties the stack on success, and emits only binary operators |
| `Convert.ConvertFromSpec` | engine.go:151-162 | the conversion loop fails exactly when some `)` finds no `(`; on success it appends the numbers in order and conserves the operators |
| `Convert.ToPostfixSpec` | engine.go:149-172 | conversion from any stack fails only with `UnbalancedBrackets`, exactly when the brackets do not balance; the output has no bracket; on success the stack is empty, the numbers keep their order and every operator is emitted once |
| `Convert.FreshConversion` | engine.go:149-172 | from an empty stack, conversion succeeds exactly on balanced brackets and then gives a bracket-free sequence of length numbers plus operators |
| `Evaluate.Apply` | engine.go:180-189 | `+ - * /` on the popped operands as the switch computes them; no value exactly for division by zero |
| `Evaluate.Compute` | engine.go:174-191 | fewer than two values fails and changes nothing; otherwise both operands are gone, and the call fails exactly on a bracket symbol or a zero divisor; for an operator the result is `Apply` of the second value from the top (the left operand) and the top value (the right one) |
| `Evaluate.EvalFrom` | engine.go:91-104 | the stack holds only values throughout |
| `Evaluate.RunPostfix` | engine.go:86-109 | the stack holds only values after `run` |
| `Evaluate.EvalFromSpec` | engine.go:91-104 | the loop fails for lack of operands exactly when the stack heights run short; on a bracket-free sequence with enough operands only a zero divisor stops it |
| `Evaluate.RunPostfixSpec` | engine.go:105-108 | `run` succeeds only when exactly one value is left, and then empties the stack; a bracket-free sequence that leaves one value succeeds unless it divides by zero; otherwise it reports the operand, cardinality or zero-divisor error |
| `Evaluate.FreshRun` | engine.go:86-109 | from an empty stack, a bracket-free sequence evaluates only if it is well formed, and a well-formed one evaluates unless it divides by zero |
| `Evaluate.RunRepeatable` | engine.go:90-108 | a successful `run` from an empty stack empties it again, so a second `run` gives the same value |
| `Evaluate.EvalFromAppend` | engine.go:91-104 | evaluation splits at any point of the sequence |
| `Engine.Initial` | engine.go:48-50 | a new engine is unparsed and meets the state invariant |
| `Engine.ParseStep` | engine.go:52-64 | a parsed engine is unchanged; the flag is set exactly when both phases pass; errors are `NoOperator`, `MalformedNumber` or `UnbalancedBrackets`; the infix sequence only grows; the state invariant is kept |
| `Engine.RunStep` | engine.go:86-109 | refused before a parse; only the stack changes; the stack is empty after a success; the state invariant is kept |
| `Engine.ResetStep` | engine.go:76-84 | a parsed engine goes back to the initial state, and an unparsed one is unchanged |
| `Engine.ParseSpec` | engine.go:52-64 | a parse on an unparsed engine, leftovers included, succeeds exactly when the text tokenises and the brackets of the whole infix sequence balance, and then appends its numbers in order and every operator once |
| `Engine.FreshParse` | engine.go:52-64 | on a fresh engine, a parse succeeds exactly when the normal text tokenises with balanced brackets, and then the postfix sequence has no bracket, holds the text's numbers in order and each operator once |
| `Engine.RunSpec` | engine.go:86-109 | on a parsed engine, `Run` succeeds only when the postfix sequence leaves exactly one value, and otherwise reports why; when it leaves one value, `Run` succeeds unless it divides by zero |
| `Engine.RunTwice` | engine.go:90-108 | after a successful `Run` at an empty stack, the next `Run` gives the same result |
| `Engine.ResetKeepsFailedParse` | engine.go:76-79 | `Reset` does not clear the state a failed parse leaves |
| `Engine.ComputeEngine.constructor` | engine.go:48-50 | a new engine is in the initial state |
| `Engine.ComputeEngine.Parse` | engine.go:52-64 | follows `ParseStep` and keeps the invariant |
| `Engine.ComputeEngine.ParseToInfix` | engine.go:111-147 | appends the tokens of the normal text to the infix sequence (those before a failure too) and reports the tokeniser's status |
| `Engine.ComputeEngine.OperatorPositions` | engine.go:118-123 | the first loop collects the operator positions |
| `Engine.ComputeEngine.EmitTokens` | engine.go:127-145 | the second loop and the tail emit the scan of the text and nothing else |
| `Engine.ComputeEngine.EmitGap` | engine.go:129-135 | an empty gap adds nothing, a literal adds its number, and a malformed gap fails and adds nothing |
| `Engine.ComputeEngine.ParseToPostfix` | engine.go:149-172 | follows `ToPostfix` on the fields and the shared stack |
| `Engine.ComputeEngine.HandleOperator` | engine.go:193-218 | follows `handleOperator` on the fields and the shared stack |
| `Engine.ComputeEngine.Compute` | engine.go:174-191 | follows `compute` on the shared stack |
| `Engine.ComputeEngine.Run` | engine.go:66-109 | follows `RunStep` and keeps the invariant |
| `Engine.ComputeEngine.Reset` | engine.go:76-84 | follows `ResetStep`, with a fresh stack for a parsed engine |
| `Trees.EvalPostfix` | engine.go:91-104 | evaluating a tree's postfix form pushes its value, or fails on a zero divisor |
| `Trees.ConvertInfix` | engine.go:151-162 | converting a tree's bracketed infix form emits its postfix form and leaves the stack as it was |
| `Trees.ScanText` | engine.go:127-145 | the text of a tree scans to its infix tokens |
| `Trees.NormalizedText` | engine.go:240-254 | the text of a tree is already normal |
| `Trees.TokenizeText` | engine.go:111-147 | the text of a tree with an operator tokenises to its infix tokens |
| `Trees.ParseThenRun` | engine.go:52-109 | parsing the text of a tree with an operator on a fresh engine succeeds with its postfix form, and `Run` then gives the tree's value, or `DivisionByZero` |
| `Trees.LiteralRefused` | engine.go:124-126 | a bare literal is refused with `NoOperator` and changes nothing |
| `Chains.ConvertChain` | engine.go:209-222 | in `x o y p z`, `o` is emitted before `z` when `ge(o, p)` holds, and after `p` otherwise |
| `Chains.GeLevel` | engine.go:220-222 | `ge` on two binary operators holds exactly when the first binds at least as tightly as the second in ordinary notation |
| `Chains.ChainParseThenRun` | engine.go:193-222 | on a fresh engine `a o b p c` parses to the postfix form of its conventional reading (`* /` before `+ -`, one level grouped to the left), and `Run` gives that reading's value, or `DivisionByZero` |
| `Chains.NegNormal` | engine.go:242-244 | `-a p b` normalises to `0-a p b` |
| `Chains.NegParseThenRun` | engine.go:240-254 | on a fresh engine `-a p b` parses and runs as `0-a p b`, read by the usual conventions |
| `Chains.TimesBeforePlus` | engine.go:209-222 | `a+b*c` converts to `a b c * +` and runs to `a + b*c` |
| `Chains.MinusGroupsLeft` | engine.go:213-222 | `a-b-c` converts to `a b - c -` and runs to `(a-b)-c`, because `ge` compares with `>=` |
| `Chains.MinusThenPlus` | engine.go:213-222 | `a-b+c` runs to `(a-b)+c` |
| `Chains.MinusAfterOperator` | engine.go:240-254 | `a+-b` parses to `a + b -`, since the `-` after `+` gets no `0`; `Run` then fails with too few operands and leaves `a` on the stack |
| `Chains.LeadingMinus` | engine.go:240-254 | `-a+b` reads as `0-a+b` and runs to `b - a` |
| `Examples.RunAfterFailedRun` | engine.go:90-108 | after parsing `n+`, the first `Run` fails and leaves `n` on the stack, and the second returns `n + n` |
| `Examples.ParseOpen` | engine.go:163-167 | `(a` fails with `UnbalancedBrackets` and leaves its tokens and the emitted value in the engine |
| `Examples.FailedParseLingers` | engine.go:52-84 | after `(a` fails, `Reset` changes nothing and `a+b` then fails too, although it parses on a fresh engine |

## Left out

- `cmd/main.go` is not part of this model. It reads lines from standard input and prints the results.
- The `Engine` interface and the `interface{}` parameter of `Parse`. The model takes a `string`, so the non-string check (engine.go:112-115) cannot fail.
- The dynamic type switches: their `"type is wrong"` defaults (engine.go:101-102, 159-160) and the type assertions are unreachable, because tokens are a datatype.
- The `recover`/`fmt.Println` wrapper of `Run` (engine.go:67-72). No panic is reachable from the model's states: the invariant keeps values on the stack during evaluation and operators during conversion, and every `Pop` is guarded.
- Literals.ParseNumber: stands in for `strconv.ParseFloat`. It accepts a non-empty run of digits with at most one `.` and at least one digit (`12`, `1.5`, `1.`, `.5`), not ParseFloat's exponents, signs, `inf`, `nan`, hexadecimal forms or underscores, and it yields an exact real, not a rounded `float64`. It also accepts literals beyond the `float64` range, such as a run of 310 digits, which ParseFloat refuses with `ErrRange`, so that `parseToNumber` fails (engine.go:232-234).
- Evaluate.Apply: arithmetic is exact over `real`, with no IEEE rounding, overflow or negative zero. A zero divisor is reported as `DivisionByZero`; Go would give `±Inf` or `NaN`.
- The error texts of the source are modelled as the `Error` datatype: one constructor per reachable message, plus `DivisionByZero`, which has no counterpart in the source (see `Evaluate.Apply`). `MalformedNumber` stands for every error `strconv.ParseFloat` returns, both invalid syntax and out of range, whose texts depend on the input. The unreachable messages `"type is wrong"` and `"param is not string type"` have no constructor; the lines above on the `Engine` interface and the type switches say why they cannot occur.
- Trees.ParseThenRun: covers fully bracketed trees of non-negative integer literals. It does not cover texts relying on precedence, unary minus or decimal literals. `Convert.ToPostfixSpec` and `Lexer.TokenizeSpec` state the structure of those phases for every input. The `Chains` lemmas state precedence, associativity and the leading unary minus for texts with two operators; longer unbracketed texts, and a unary minus after `(` as in `5-(-2)`, have no value theorem.
