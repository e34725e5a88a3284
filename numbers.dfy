/** Decimal literals: the number parser the tokenizer applies to each gap
    between operators. It accepts a non-empty run of ASCII digits with at
    most one `.` and at least one digit (`12`, `1.5`, `1.`, `.5`). */
module Literals {
  import opened Tokens

  predicate IsDigit(c: char) {
    '0' <= c <= '9'
  }

  function DigitValue(c: char): nat
    requires IsDigit(c)
  {
    (c as int - '0' as int) as nat
  }

  predicate AllDigits(ds: string) {
    forall i :: 0 <= i < |ds| ==> IsDigit(ds[i])
  }

  /** The value of a digit string, most significant digit first. */
  function DigitsValue(ds: string): nat
    requires AllDigits(ds)
  {
    if ds == [] then 0
    else DigitsValue(ds[..|ds| - 1]) * 10 + DigitValue(ds[|ds| - 1])
  }

  /** `m` shifted left by `places` decimal places: `m` times ten to the
      `places`. */
  function Shifted(m: nat, places: nat): nat {
    if places == 0 then m else 10 * Shifted(m, places - 1)
  }

  /** `x` shifted right by `places` decimal places: `x` divided by ten
      `places` times. */
  function Scaled(x: real, places: nat): (r: real)
    ensures x >= 0.0 ==> r >= 0.0
    decreases places
  {
    if places == 0 then x else Scaled(x / 10.0, places - 1)
  }

  /** Index of the first `.` of `s`, or `|s|` when there is none. */
  function DotIndex(s: string): (k: nat)
    ensures k <= |s|
    ensures forall i :: 0 <= i < k ==> s[i] != '.'
    ensures k < |s| ==> s[k] == '.'
  {
    if s == [] then 0
    else if s[0] == '.' then 0
    else 1 + DotIndex(s[1..])
  }

  /** The shape the parser accepts. */
  predicate IsDecimal(s: string) {
    var k := DotIndex(s);
    |s| > 0 &&
    AllDigits(s[..k]) &&
    (k < |s| ==> AllDigits(s[k + 1..])) &&
    exists i :: 0 <= i < |s| && IsDigit(s[i])
  }

  /** The value of an accepted literal: integer part plus fraction. */
  function DecimalValue(s: string): real
    requires IsDecimal(s)
  {
    var k := DotIndex(s);
    if k == |s| then DigitsValue(s) as real
    else DigitsValue(s[..k]) as real + Scaled(DigitsValue(s[k + 1..]) as real, |s| - k - 1)
  }

  /** `parseToNumber`: the literal's value, or nothing for a malformed gap. */
  function ParseNumber(s: string): (r: Option<real>)
    ensures r.Some? <==> IsDecimal(s)
    ensures r.Some? ==> r.value >= 0.0
  {
    if IsDecimal(s) then Some(DecimalValue(s)) else None
  }

  /** Two dots make a literal malformed. */
  lemma TwoDotsRejected(s: string, i: nat, j: nat)
    requires i < j < |s| && s[i] == '.' && s[j] == '.'
    ensures ParseNumber(s) == None
  {
  }

  /** A literal must hold a digit. */
  lemma NoDigitRejected(s: string)
    requires forall i :: 0 <= i < |s| ==> !IsDigit(s[i])
    ensures ParseNumber(s) == None
  {
  }

  /** The decimal spelling of a natural number, most significant digit first. */
  function Render(n: nat): (r: string)
    ensures |r| > 0 && AllDigits(r)
  {
    var d := ['0' + (n % 10) as char];
    if n < 10 then d else Render(n / 10) + d
  }

  /** Parsing the spelling of `n` gives `n` back. */
  lemma {:induction false} ParseRender(n: nat)
    ensures ParseNumber(Render(n)) == Some(n as real)
  {
    RenderValue(n);
    var r := Render(n);
    assert DotIndex(r) == |r| by {
      AllDigitsNoDot(r);
    }
    assert r[..|r|] == r;
    assert IsDigit(r[0]);
  }

  lemma {:induction false} RenderValue(n: nat)
    ensures DigitsValue(Render(n)) == n
  {
    var d := ['0' + (n % 10) as char];
    if n >= 10 {
      RenderValue(n / 10);
      var r := Render(n);
      assert r[..|r| - 1] == Render(n / 10);
    }
  }

  /** A literal with a `.` is worth its digits without the `.`, scaled
      down by one decimal place per digit after it: `1.5` is 15 scaled by
      one place, `2.25` is 225 scaled by two. With `ParseRender` and
      `LeadingZero` this gives the value of every accepted spelling. */
  lemma FractionValue(a: string, b: string)
    requires AllDigits(a) && AllDigits(b) && |a| + |b| > 0
    ensures ParseNumber(a + b).Some?
    ensures ParseNumber(a + "." + b) == Some(Scaled(ParseNumber(a + b).value, |b|))
  {
    DecimalFraction(a, b);
    ParseScaled(a + b, a + "." + b, |b|);
  }

  /** A leading `0` does not change a literal's value: `05` is `5` and
      `0.5` is `.5`. With `FractionValue` and `ParseRender` this gives the
      value of spellings such as `007` or `0.25`. */
  lemma LeadingZero(s: string)
    requires AllDigits(s) && |s| > 0
    ensures ParseNumber("0" + s) == ParseNumber(s)
  {
    ZeroFirst(s);
    JoinedValue("0", s);
    JoinedValue(s, "");
    assert s + "" == s;
  }

  lemma ZeroFirst(s: string)
    requires AllDigits(s)
    ensures AllDigits("0" + s)
    ensures DigitsValue("0" + s) == DigitsValue(s)
  {
    DigitsAppend("0", s);
    ShiftedZero(|s|);
  }

  lemma {:induction false} ShiftedZero(places: nat)
    ensures Shifted(0, places) == 0
  {
    if places > 0 {
      ShiftedZero(places - 1);
    }
  }

  /** The most common fractional literal. */
  lemma ParseOneHalf()
    ensures ParseNumber("0.5") == Some(0.5)
  {
    FractionValue("0", "5");
    assert "0" + "." + "5" == "0.5";
    LeadingZero("5");
    assert Render(5) == "5";
    ParseRender(5);
  }

  /** The two literals of `1.5 + 2.25`. */
  lemma ParseOneAndAHalf()
    ensures ParseNumber("1.5") == Some(1.5)
  {
    FractionValue("1", "5");
    assert "1" + "." + "5" == "1.5";
    assert Render(15) == "1" + "5";
    ParseRender(15);
  }

  lemma ParseTwoAndAQuarter()
    ensures ParseNumber("2.25") == Some(2.25)
  {
    FractionValue("2", "25");
    assert "2" + "." + "25" == "2.25";
    assert Render(225) == "2" + "25";
    ParseRender(225);
  }

  /** `FractionValue` for the value function. */
  lemma DecimalFraction(a: string, b: string)
    requires AllDigits(a) && AllDigits(b) && |a| + |b| > 0
    ensures IsDecimal(a + b) && IsDecimal(a + "." + b)
    ensures DecimalValue(a + "." + b) == Scaled(DecimalValue(a + b), |b|)
  {
    assert IsDecimal(a + b) && DecimalValue(a + b) == (Shifted(DigitsValue(a), |b|) + DigitsValue(b)) as real by {
      JoinedValue(a, b);
      DigitsAppend(a, b);
    }
    assert IsDecimal(a + "." + b) && DecimalValue(a + "." + b) == DigitsValue(a) as real + Scaled(DigitsValue(b) as real, |b|) by {
      DottedValue(a, b);
    }
    ScaleBack(DecimalValue(a + b), DigitsValue(a), DigitsValue(b), |b|);
  }

  /** Carries a relation between two accepted literals' values over to
      the parser's results. */
  lemma ParseScaled(s: string, t: string, places: nat)
    requires IsDecimal(s) && IsDecimal(t) && DecimalValue(t) == Scaled(DecimalValue(s), places)
    ensures ParseNumber(s).Some?
    ensures ParseNumber(t) == Some(Scaled(ParseNumber(s).value, places))
  {
  }

  /** Scaling back a shifted integer part plus a fraction. */
  lemma ScaleBack(x: real, m: nat, v: nat, places: nat)
    requires x == (Shifted(m, places) + v) as real
    ensures Scaled(x, places) == m as real + Scaled(v as real, places)
  {
    ScaledAdd(Shifted(m, places) as real, v as real, places);
    ScaledShifted(m, places);
  }

  /** Scaling distributes over a sum. */
  lemma {:induction false} ScaledAdd(x: real, y: real, places: nat)
    ensures Scaled(x + y, places) == Scaled(x, places) + Scaled(y, places)
    decreases places
  {
    if places > 0 {
      assert (x + y) / 10.0 == x / 10.0 + y / 10.0;
      ScaledAdd(x / 10.0, y / 10.0, places - 1);
    }
  }

  /** Scaling undoes shifting. */
  lemma {:induction false} ScaledShifted(m: nat, places: nat)
    ensures Scaled(Shifted(m, places) as real, places) == m as real
  {
    if places > 0 {
      assert Shifted(m, places) as real / 10.0 == Shifted(m, places - 1) as real;
      ScaledShifted(m, places - 1);
    }
  }

  /** Two digit runs side by side make one plain literal. */
  lemma JoinedValue(a: string, b: string)
    requires AllDigits(a) && AllDigits(b) && |a| + |b| > 0
    ensures AllDigits(a + b) && IsDecimal(a + b)
    ensures DecimalValue(a + b) == DigitsValue(a + b) as real
  {
    var s := a + b;
    assert AllDigits(s);
    AllDigitsNoDot(s);
    assert s[..|s|] == s;
    assert IsDigit(s[0]);
  }

  /** Two digit runs around a `.` make a literal worth the first run plus
      the second scaled down. */
  lemma DottedValue(a: string, b: string)
    requires AllDigits(a) && AllDigits(b) && |a| + |b| > 0
    ensures IsDecimal(a + "." + b)
    ensures DecimalValue(a + "." + b) == DigitsValue(a) as real + Scaled(DigitsValue(b) as real, |b|)
  {
    var s := a + "." + b;
    DotOfDotted(a, b);
    var k := DotIndex(s);
    assert s[..k] == a && s[k + 1..] == b && |s| - k - 1 == |b|;
    assert IsDecimal(s) by {
      assert IsDigit(s[if |a| > 0 then 0 else k + 1]);
    }
  }

  /** In digits, a `.`, and anything, the first `.` follows the digits. */
  lemma DotOfDotted(a: string, b: string)
    requires AllDigits(a)
    ensures DotIndex(a + "." + b) == |a|
  {
    AllDigitsNoDot(a);
    DotAfterDigits(a, "." + b);
    assert a + "." + b == a + ("." + b);
  }

  /** The first `.` of `a + u`, when `a` has none, is that of `u`. */
  lemma {:induction false} DotAfterDigits(a: string, u: string)
    requires DotIndex(a) == |a|
    ensures DotIndex(a + u) == |a| + DotIndex(u)
  {
    if a != [] {
      assert a[0] != '.';
      assert (a + u)[1..] == a[1..] + u;
      DotAfterDigits(a[1..], u);
    } else {
      assert a + u == u;
    }
  }

  /** The value of adjacent digit runs. */
  lemma {:induction false} DigitsAppend(a: string, b: string)
    requires AllDigits(a) && AllDigits(b)
    ensures AllDigits(a + b)
    ensures DigitsValue(a + b) == Shifted(DigitsValue(a), |b|) + DigitsValue(b)
  {
    if b == [] {
      assert a + b == a;
    } else {
      var b' := b[..|b| - 1];
      assert AllDigits(b');
      DigitsAppend(a, b');
      assert (a + b)[..|a + b| - 1] == a + b';
      assert Last(a + b) == Last(b);
    }
  }

  lemma {:induction false} AllDigitsNoDot(s: string)
    requires AllDigits(s)
    ensures DotIndex(s) == |s|
  {
    if s != [] {
      assert AllDigits(s[1..]) by {
        forall i | 0 <= i < |s[1..]| ensures IsDigit(s[1..][i]) {
          assert s[1..][i] == s[i + 1];
        }
      }
      AllDigitsNoDot(s[1..]);
    }
  }
}
