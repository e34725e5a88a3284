/** `parseToInfixExpression` on normalised text: the text is cut at every
    operator and bracket character; each such character becomes a token of
    its own, and each non-empty gap between them (and a non-empty tail)
    becomes a number token. */
module Lexer {
  import opened Tokens
  import opened Literals

  /** The tokens emitted so far, and how the scan ended. On a failure the
      tokens emitted before the failing gap are kept, as in the source,
      which appends to the engine's infix sequence as it goes. */
  datatype Lexed = Lexed(tokens: seq<Token>, status: Status)

  /** The positions below `n` that hold an operator or bracket, ascending:
      the first loop of the source. */
  function OpPositions(t: string, n: nat): (idx: seq<nat>)
    requires n <= |t|
  {
    if n == 0 then []
    else OpPositions(t, n - 1) + (if IsOperatorChar(t[n - 1]) then [n - 1] else [])
  }

  /** `idx` is an ascending list of operator positions at or after `start`. */
  predicate ValidSplits(t: string, idx: seq<nat>, start: nat)
    decreases |idx|
  {
    start <= |t| &&
    (idx != [] ==>
      start <= idx[0] < |t| && IsOperatorChar(t[idx[0]]) && ValidSplits(t, idx[1..], idx[0] + 1))
  }

  /** The number token of a gap: nothing for an empty gap, `Num(v)` for a
      well-formed literal, and no result for a malformed one. */
  function GapToken(gap: string): Option<seq<Token>> {
    if gap == [] then Some([])
    else match ParseNumber(gap)
      case None => None
      case Some(v) => Some([Num(v)])
  }

  /** A gap yields a token list exactly when it is empty or a literal:
      no token for the empty gap, one non-negative number otherwise. */
  lemma GapTokenSpec(gap: string)
    ensures GapToken(gap).Some? <==> gap == [] || IsDecimal(gap)
    ensures GapToken(gap).Some? ==> (GapToken(gap).value == [] <==> gap == [])
    ensures GapToken(gap).Some? && gap != [] ==>
      |GapToken(gap).value| == 1 && GapToken(gap).value[0].Num? && GapToken(gap).value[0].value >= 0.0
  {
  }

  /** One step of either scanner: the gap's token (if the gap is a
      literal), the operator, then whatever the rest of the scan emits. */
  function Emit(gap: Option<seq<Token>>, sym: Token, rest: Lexed): Lexed {
    match gap
    case None => Lexed([], Fail(MalformedNumber))
    case Some(ts) => Lexed(ts + [sym] + rest.tokens, rest.status)
  }

  /** The last step of either scanner: the tail's token, if any. */
  function Tail(gap: Option<seq<Token>>): Lexed {
    match gap
    case None => Lexed([], Fail(MalformedNumber))
    case Some(ts) => Lexed(ts, Pass)
  }

  /** The second loop of the source and the tail after it: walk the
      operator positions `idx`, emitting the gap before each one and then
      the operator itself; finally emit the tail after the last one. */
  function LexFrom(t: string, idx: seq<nat>, start: nat): Lexed
    requires ValidSplits(t, idx, start)
    decreases |idx|
  {
    if idx == [] then Tail(GapToken(t[start..]))
    else
      var end := idx[0];
      Emit(GapToken(t[start..end]), SymbolToken(t[end]), LexFrom(t, idx[1..], end + 1))
  }

  /** The tokens of normalised text `t`; text without any operator or
      bracket is refused. */
  function Tokenize(t: string): Lexed {
    var idx := OpPositions(t, |t|);
    OpPositionsAreOpsFrom(t);
    OpsFromValid(t, 0);
    if |idx| == 0 then Lexed([], Fail(NoOperator)) else LexFrom(t, idx, 0)
  }

  // ---------------------------------------------------------------------
  // An independent reference: a character-at-a-time scanner.

  /** Scan `s`, where `pending` is the part of the current gap read so far. */
  function Scan(pending: string, s: string): Lexed
    decreases |s|
  {
    if s == [] then Tail(GapToken(pending))
    else if IsOperatorChar(s[0]) then Emit(GapToken(pending), SymbolToken(s[0]), Scan([], s[1..]))
    else Scan(pending + [s[0]], s[1..])
  }

  /** The operator and bracket characters of `s`, in order. */
  function OpChars(s: string): string {
    if s == [] then []
    else (if IsOperatorChar(s[0]) then [s[0]] else []) + OpChars(s[1..])
  }

  /** The symbols of the non-number tokens of `ts`, in order. */
  function OpSymbols(ts: seq<Token>): string {
    if ts == [] then []
    else (if ts[0].Num? then [] else [Symbol(ts[0])]) + OpSymbols(ts[1..])
  }

  /** `s` cut at its operator characters: one more segment than there are
      operators, each segment free of operators, possibly empty. */
  function Segments(s: string): (segs: seq<string>)
    ensures |segs| == |OpChars(s)| + 1
  {
    if s == [] then [[]]
    else
      var r := Segments(s[1..]);
      if IsOperatorChar(s[0]) then [[]] + r else [[s[0]] + r[0]] + r[1..]
  }

  /** Interleave segments and separators: `segs[0] + ops[0] + segs[1] + ...`. */
  function Join(segs: seq<string>, ops: string): string
    requires |segs| == |ops| + 1
  {
    if ops == [] then segs[0] else segs[0] + [ops[0]] + Join(segs[1..], ops[1..])
  }

  /** The values of the non-empty segments, or nothing if one of them is not
      a literal. */
  function GapValues(segs: seq<string>): Option<seq<real>> {
    if segs == [] then Some([])
    else
      var rest := GapValues(segs[1..]);
      if segs[0] == [] then rest
      else match ParseNumber(segs[0])
        case None => None
        case Some(v) => if rest.None? then None else Some([v] + rest.value)
  }

  /** Number tokens never stand next to each other. */
  predicate NumbersSeparated(ts: seq<Token>) {
    forall i :: 0 <= i < |ts| - 1 ==> !(ts[i].Num? && ts[i + 1].Num?)
  }

  // ---------------------------------------------------------------------
  // Lemmas.

  /** Cutting at the operators and joining again gives the text back. */
  lemma {:induction false} SegmentsJoin(s: string)
    ensures Join(Segments(s), OpChars(s)) == s
  {
    if s != [] {
      SegmentsJoin(s[1..]);
      if IsOperatorChar(s[0]) {
        JoinAtOperator(s);
      } else {
        JoinAtOther(s);
      }
    }
  }

  lemma JoinAtOperator(s: string)
    requires s != [] && IsOperatorChar(s[0])
    requires Join(Segments(s[1..]), OpChars(s[1..])) == s[1..]
    ensures Join(Segments(s), OpChars(s)) == s
  {
    var r := Segments(s[1..]);
    var ops := OpChars(s[1..]);
    var segs := Segments(s);
    var o := OpChars(s);
    assert segs == [[]] + r;
    assert segs[0] == [] && segs[1..] == r;
    assert o == [s[0]] + ops;
    assert o[0] == s[0] && o[1..] == ops;
    assert Join(segs, o) == [] + [s[0]] + s[1..];
    assert s == [s[0]] + s[1..];
  }

  lemma JoinAtOther(s: string)
    requires s != [] && !IsOperatorChar(s[0])
    requires Join(Segments(s[1..]), OpChars(s[1..])) == s[1..]
    ensures Join(Segments(s), OpChars(s)) == s
  {
    SegmentsAtOther(s);
    var r := Segments(s[1..]);
    var ops := OpChars(s[1..]);
    var segs := Segments(s);
    assert OpChars(s) == [] + ops;
    assert OpChars(s) == ops;
    var head := [s[0]];
    if ops == [] {
      assert Join(segs, ops) == head + s[1..];
    } else {
      var o, rest := [ops[0]], Join(r[1..], ops[1..]);
      assert Join(segs, ops) == ((head + r[0]) + o) + rest;
      assert s[1..] == (r[0] + o) + rest;
      AppendAssoc(head, r[0], o);
      AppendAssoc(head, r[0] + o, rest);
      assert Join(segs, ops) == head + s[1..];
    }
    ConsDrop(s);
  }

  lemma ConsDrop<T>(s: seq<T>)
    requires s != []
    ensures [s[0]] + s[1..] == s
  {
  }

  /** Each segment is free of operator characters. */
  lemma {:induction false} SegmentsOperatorFree(s: string, k: nat, i: nat)
    requires k < |Segments(s)| && i < |Segments(s)[k]|
    ensures !IsOperatorChar(Segments(s)[k][i])
  {
    if s != [] {
      var r := Segments(s[1..]);
      if IsOperatorChar(s[0]) {
        if k > 0 {
          SegmentsOperatorFree(s[1..], k - 1, i);
        }
      } else if k == 0 {
        if i > 0 {
          SegmentsOperatorFree(s[1..], 0, i - 1);
        }
      } else {
        SegmentsOperatorFree(s[1..], k, i);
      }
    }
  }

  lemma {:induction false} OpSymbolsAppend(a: seq<Token>, b: seq<Token>)
    ensures OpSymbols(a + b) == OpSymbols(a) + OpSymbols(b)
  {
    if a == [] {
      assert a + b == b;
    } else {
      assert (a + b)[1..] == a[1..] + b;
      OpSymbolsAppend(a[1..], b);
    }
  }

  /** The prefix of the current gap joins the first segment. */
  function WithPending(p: string, segs: seq<string>): seq<string>
    requires |segs| > 0
  {
    [p + segs[0]] + segs[1..]
  }

  lemma GapTokenShape(gap: string)
    ensures GapToken(gap).Some? ==>
      var ts := GapToken(gap).value;
      OpSymbols(ts) == [] && |ts| <= 1 && (|ts| == 1 ==> ts[0].Num?)
  {
  }

  /** The value list of segments headed by the gap `g`. */
  lemma GapValuesCons(g: string, rest: seq<string>)
    ensures GapValues([g] + rest) ==
      if GapToken(g).None? || GapValues(rest).None? then None
      else Some(Numbers(GapToken(g).value) + GapValues(rest).value)
  {
    assert ([g] + rest)[1..] == rest;
    if g == [] {
      assert Numbers([]) == [];
      if GapValues(rest).Some? {
        assert [] + GapValues(rest).value == GapValues(rest).value;
      }
    } else if ParseNumber(g).Some? {
      assert Numbers([Num(ParseNumber(g).value)]) == [ParseNumber(g).value];
    }
  }

  lemma WithPendingAtOperator(p: string, s: string)
    requires s != [] && IsOperatorChar(s[0])
    ensures WithPending(p, Segments(s)) == [p] + WithPending([], Segments(s[1..]))
  {
    var r := Segments(s[1..]);
    assert [] + r[0] == r[0] && p + [] == p;
    assert r == [r[0]] + r[1..];
    assert Segments(s) == [[]] + r;
  }

  lemma WithPendingAtOther(p: string, s: string)
    requires s != [] && !IsOperatorChar(s[0])
    ensures WithPending(p, Segments(s)) == WithPending(p + [s[0]], Segments(s[1..]))
  {
    SegmentsAtOther(s);
    var r := Segments(s[1..]);
    AppendAssoc(p, [s[0]], r[0]);
  }

  lemma SegmentsAtOther(s: string)
    requires s != [] && !IsOperatorChar(s[0])
    ensures var r := Segments(s[1..]);
      Segments(s)[0] == [s[0]] + r[0] && Segments(s)[1..] == r[1..]
  {
    var r := Segments(s[1..]);
    assert Segments(s) == [[s[0]] + r[0]] + r[1..];
  }

  lemma WithPendingAtEnd(p: string)
    ensures WithPending(p, Segments([])) == [p]
  {
    assert p + [] == p;
  }

  lemma ScanAtOperator(p: string, s: string)
    requires s != [] && IsOperatorChar(s[0]) && GapToken(p).Some?
    ensures var rest := Scan([], s[1..]);
      Scan(p, s) == Lexed(GapToken(p).value + [SymbolToken(s[0])] + rest.tokens, rest.status)
  {
  }

  /** The reference scanner fails exactly when a non-empty gap is not a
      literal, and then with `MalformedNumber`. */
  lemma {:induction false} ScanStatus(p: string, s: string)
    ensures Scan(p, s).status.Pass? <==> GapValues(WithPending(p, Segments(s))).Some?
    ensures Scan(p, s).status.Fail? ==> Scan(p, s).status == Fail(MalformedNumber)
    decreases |s|
  {
    if s == [] {
      WithPendingAtEnd(p);
      GapValuesCons(p, []);
    } else if IsOperatorChar(s[0]) {
      WithPendingAtOperator(p, s);
      ScanStatus([], s[1..]);
      GapValuesCons(p, WithPending([], Segments(s[1..])));
      if GapToken(p).Some? {
        ScanAtOperator(p, s);
      }
    } else {
      WithPendingAtOther(p, s);
      ScanStatus(p + [s[0]], s[1..]);
    }
  }

  lemma SeparatedAround(g: seq<Token>, sym: Token, rest: seq<Token>)
    requires |g| <= 1 && !sym.Num? && NumbersSeparated(rest)
    ensures NumbersSeparated(g + [sym] + rest)
  {
    var ts := g + [sym] + rest;
    forall i | 0 <= i < |ts| - 1 ensures !(ts[i].Num? && ts[i + 1].Num?) {
      if i >= |g| + 1 {
        assert ts[i] == rest[i - |g| - 1] && ts[i + 1] == rest[i - |g|];
      } else if i == |g| {
        assert ts[i] == sym;
      } else {
        assert ts[i + 1] == sym;
      }
    }
  }

  /** On success the reference scanner emits the operator symbols of `s`
      in order, the values of the non-empty gaps in order, and never two
      numbers side by side. */
  lemma {:induction false} ScanTokens(p: string, s: string)
    requires Scan(p, s).status.Pass?
    ensures GapValues(WithPending(p, Segments(s))).Some?
    ensures OpSymbols(Scan(p, s).tokens) == OpChars(s)
    ensures Numbers(Scan(p, s).tokens) == GapValues(WithPending(p, Segments(s))).value
    ensures NumbersSeparated(Scan(p, s).tokens)
    decreases |s|
  {
    ScanStatus(p, s);
    GapTokenShape(p);
    if s == [] {
      WithPendingAtEnd(p);
      GapValuesCons(p, []);
      NumbersAppend(GapToken(p).value, []);
      assert GapToken(p).value + [] == GapToken(p).value;
    } else if IsOperatorChar(s[0]) {
      var g := GapToken(p).value;
      var sym := SymbolToken(s[0]);
      var rest := Scan([], s[1..]);
      ScanAtOperator(p, s);
      ScanTokens([], s[1..]);
      WithPendingAtOperator(p, s);
      GapValuesCons(p, WithPending([], Segments(s[1..])));
      OpSymbolsAppend(g + [sym], rest.tokens);
      OpSymbolsAppend(g, [sym]);
      NumbersAppend(g + [sym], rest.tokens);
      NumbersAppend(g, [sym]);
      SeparatedAround(g, sym, rest.tokens);
    } else {
      WithPendingAtOther(p, s);
      ScanTokens(p + [s[0]], s[1..]);
    }
  }

  /** The operator positions of `t` at or after `j`, ascending, collected
      front to back: a reference for the first loop. */
  function OpsFrom(t: string, j: nat): (idx: seq<nat>)
    requires j <= |t|
    decreases |t| - j
  {
    if j == |t| then []
    else
      var rest := OpsFrom(t, j + 1);
      if IsOperatorChar(t[j]) then [j] + rest else rest
  }

  /** The reference lists operator positions at or after `j`, ascending. */
  lemma {:induction false} OpsFromValid(t: string, j: nat)
    requires j <= |t|
    ensures ValidSplits(t, OpsFrom(t, j), j)
    decreases |t| - j
  {
    if j < |t| {
      OpsFromValid(t, j + 1);
    }
  }

  /** The first operator position from `j` on, and the positions after it. */
  lemma {:induction false} OpsFromHead(t: string, j: nat)
    requires j <= |t| && OpsFrom(t, j) != []
    ensures var e := OpsFrom(t, j)[0];
      j <= e < |t| && IsOperatorChar(t[e]) && OpsFrom(t, j)[1..] == OpsFrom(t, e + 1)
    decreases |t| - j
  {
    if !IsOperatorChar(t[j]) {
      OpsFromHead(t, j + 1);
    }
  }

  /** The scan of `t` from position `j` over the operator positions from
      there on. */
  function ScanFrom(t: string, j: nat): Lexed
    requires j <= |t|
  {
    OpsFromValid(t, j);
    LexFrom(t, OpsFrom(t, j), j)
  }

  /** The scan from `start`, whose next operator position is `end`: the
      gap before it, the operator, then the scan after it. */
  lemma ScanFromStep(t: string, start: nat, end: nat)
    requires start <= end < |t| && IsOperatorChar(t[end])
    requires OpsFrom(t, start) != [] && OpsFrom(t, start)[0] == end && OpsFrom(t, start)[1..] == OpsFrom(t, end + 1)
    ensures ScanFrom(t, start) == Emit(GapToken(t[start..end]), SymbolToken(t[end]), ScanFrom(t, end + 1))
  {
    var idx := OpsFrom(t, start);
    OpsFromValid(t, start);
    OpsFromValid(t, end + 1);
    LexFromUnfold(t, idx, start);
    assert ScanFrom(t, start) == LexFrom(t, idx, start);
    assert ScanFrom(t, end + 1) == LexFrom(t, idx[1..], end + 1);
  }

  /** One step of `LexFrom`. */
  lemma LexFromUnfold(t: string, idx: seq<nat>, start: nat)
    requires ValidSplits(t, idx, start) && idx != []
    ensures LexFrom(t, idx, start) ==
      Emit(GapToken(t[start..idx[0]]), SymbolToken(t[idx[0]]), LexFrom(t, idx[1..], idx[0] + 1))
  {
  }

  /** The first loop misses no operator position. */
  lemma {:induction false} OpPositionsCover(t: string, n: nat)
    requires n <= |t|
    ensures forall p :: 0 <= p < n && IsOperatorChar(t[p]) ==> p in OpPositions(t, n)
  {
    if n > 0 {
      OpPositionsCover(t, n - 1);
    }
  }

  lemma {:induction false} OpPositionsSplit(t: string, n: nat)
    requires n <= |t|
    ensures OpPositions(t, n) + OpsFrom(t, n) == OpsFrom(t, 0)
  {
    if n > 0 {
      OpPositionsSplit(t, n - 1);
      var m := if IsOperatorChar(t[n - 1]) then [n - 1] else [];
      assert OpsFrom(t, n - 1) == m + OpsFrom(t, n);
      assert OpPositions(t, n) == OpPositions(t, n - 1) + m;
      AppendAssoc(OpPositions(t, n - 1), m, OpsFrom(t, n));
    } else {
      assert [] + OpsFrom(t, 0) == OpsFrom(t, 0);
    }
  }

  /** The first loop, collecting back to front, lists what the front-to-back
      reference lists. */
  lemma OpPositionsAreOpsFrom(t: string)
    ensures OpPositions(t, |t|) == OpsFrom(t, 0)
  {
    OpPositionsSplit(t, |t|);
    assert OpsFrom(t, |t|) == [];
    assert OpPositions(t, |t|) + [] == OpPositions(t, |t|);
  }

  lemma ScanStep(t: string, j: nat)
    requires j < |t|
    ensures t[j..] != [] && t[j..][0] == t[j] && t[j..][1..] == t[j + 1..]
  {
  }

  lemma ScanAtOperatorChar(p: string, s: string)
    requires s != [] && IsOperatorChar(s[0])
    ensures Scan(p, s) == Emit(GapToken(p), SymbolToken(s[0]), Scan([], s[1..]))
  {
  }

  lemma ScanAtOtherChar(p: string, s: string)
    requires s != [] && !IsOperatorChar(s[0])
    ensures Scan(p, s) == Scan(p + [s[0]], s[1..])
  {
  }

  /** The step of `LexFromIsScan` at an operator character. */
  lemma LexFromAtOperator(t: string, idx: seq<nat>, start: nat, j: nat)
    requires start <= j < |t| && idx != [] && idx[0] == j && IsOperatorChar(t[j])
    requires ValidSplits(t, idx, start)
    requires LexFrom(t, idx[1..], j + 1) == Scan([], t[j + 1..])
    ensures LexFrom(t, idx, start) == Scan(t[start..j], t[j..])
  {
    ScanStep(t, j);
    ScanAtOperatorChar(t[start..j], t[j..]);
  }

  /** The step of `LexFromIsScan` at any other character. */
  lemma LexFromAtOther(t: string, idx: seq<nat>, start: nat, j: nat)
    requires start <= j < |t| && !IsOperatorChar(t[j])
    requires ValidSplits(t, idx, start)
    requires LexFrom(t, idx, start) == Scan(t[start..j + 1], t[j + 1..])
    ensures LexFrom(t, idx, start) == Scan(t[start..j], t[j..])
  {
    ScanStep(t, j);
    ScanAtOtherChar(t[start..j], t[j..]);
    assert t[start..j] + [t[j]] == t[start..j + 1];
  }

  /** The source's two-loop tokenizer agrees with the reference scanner. */
  lemma {:induction false} LexFromIsScan(t: string, idx: seq<nat>, start: nat, j: nat)
    requires start <= j <= |t| && idx == OpsFrom(t, j)
    ensures ValidSplits(t, idx, start) && LexFrom(t, idx, start) == Scan(t[start..j], t[j..])
    decreases |t| - j
  {
    OpsFromValid(t, j);
    assert ValidSplits(t, idx, start);
    if j == |t| {
      assert t[start..] == t[start..j];
      assert t[j..] == [];
    } else if IsOperatorChar(t[j]) {
      assert idx == [j] + OpsFrom(t, j + 1);
      assert idx[1..] == OpsFrom(t, j + 1);
      LexFromIsScan(t, idx[1..], j + 1, j + 1);
      assert t[j + 1..j + 1] == [];
      LexFromAtOperator(t, idx, start, j);
    } else {
      assert idx == OpsFrom(t, j + 1);
      LexFromIsScan(t, idx, start, j + 1);
      LexFromAtOther(t, idx, start, j);
    }
  }

  /** Text with an operator or bracket character is cut at the positions
      the first loop collects. */
  lemma TokenizeSplits(t: string)
    requires OpPositions(t, |t|) != []
    ensures var idx := OpPositions(t, |t|); ValidSplits(t, idx, 0) && Tokenize(t) == LexFrom(t, idx, 0)
  {
    OpPositionsAreOpsFrom(t);
    OpsFromValid(t, 0);
  }

  /** Text with an operator or bracket character is tokenized as the
      reference scanner reads it. */
  lemma TokenizeIsScan(t: string)
    requires OpPositions(t, |t|) != []
    ensures OpPositions(t, |t|)[0] < |t| && IsOperatorChar(t[OpPositions(t, |t|)[0]])
    ensures Tokenize(t) == Scan([], t)
  {
    var idx := OpPositions(t, |t|);
    TokenizeSplits(t);
    OpPositionsAreOpsFrom(t);
    LexFromIsScan(t, idx, 0, 0);
    assert t[0..0] == [] && t[0..] == t;
  }

  lemma {:induction false} OpCharsEmpty(s: string)
    ensures OpChars(s) == [] <==> forall i :: 0 <= i < |s| ==> !IsOperatorChar(s[i])
  {
    if s != [] {
      OpCharsEmpty(s[1..]);
      if !IsOperatorChar(s[0]) {
        forall i | 0 <= i < |s[1..]| ensures s[1..][i] == s[i + 1] {}
        assert (forall i :: 0 <= i < |s| ==> !IsOperatorChar(s[i]))
          <==> (forall i :: 0 <= i < |s[1..]| ==> !IsOperatorChar(s[1..][i]));
      }
    }
  }

  /** What tokenisation of normalised text `t` produces:
      - it refuses text without operator or bracket characters;
      - otherwise it fails exactly when a non-empty gap is not a literal;
      - on success the non-number tokens are the operator and bracket
        characters of `t` in order, the numbers are the values of the
        non-empty gaps in order, and no two numbers are adjacent. */
  lemma TokenizeSpec(t: string)
    ensures Tokenize(t).status == Fail(NoOperator) <==> forall i :: 0 <= i < |t| ==> !IsOperatorChar(t[i])
    ensures Tokenize(t).status.Fail? ==> Tokenize(t).status.error in {NoOperator, MalformedNumber}
    ensures Tokenize(t).status.Fail? && Tokenize(t).status != Fail(NoOperator) ==> GapValues(Segments(t)).None?
    ensures Tokenize(t).status.Pass? ==>
      GapValues(Segments(t)).Some? &&
      OpSymbols(Tokenize(t).tokens) == OpChars(t) &&
      Numbers(Tokenize(t).tokens) == GapValues(Segments(t)).value &&
      NumbersSeparated(Tokenize(t).tokens)
    ensures (exists i :: 0 <= i < |t| && IsOperatorChar(t[i])) && GapValues(Segments(t)).Some? ==>
      Tokenize(t).status.Pass?
  {
    var idx := OpPositions(t, |t|);
    if |idx| != 0 {
      TokenizeIsScan(t);
      ScanStatus([], t);
      if Scan([], t).status.Pass? {
        ScanTokens([], t);
      }
      var segs := Segments(t);
      assert WithPending([], segs) == segs by {
        assert [] + segs[0] == segs[0];
      }
    } else {
      OpPositionsCover(t, |t|);
    }
  }
}
