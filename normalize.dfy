/** `prevHandle`: the text normalisation that runs before tokenisation. It
    removes the spaces and turns every unary minus into a binary one by
    writing a `0` in front of it. */
module Normalize {

  /** `strings.Replace(s, " ", "", -1)`: every space character removed.
      Only `' '` is removed; tabs and other white space are kept. */
  function StripSpaces(s: string): (r: string)
    ensures ' ' !in r
    ensures |r| <= |s|
    ensures ' ' !in s ==> r == s
  {
    if s == [] then []
    else (if s[0] == ' ' then [] else [s[0]]) + StripSpaces(s[1..])
  }

  /** Removing spaces removes every `' '` and keeps every other character
      as often as it occurs. */
  lemma {:induction false} StripSpacesCount(s: string)
    ensures multiset(StripSpaces(s)) == multiset(s)[' ' := 0]
  {
    if s != [] {
      assert s == [s[0]] + s[1..];
      StripSpacesCount(s[1..]);
    }
  }

  /** Removing spaces works piece by piece: a single character is dropped
      exactly when it is a space, and the pieces of a text keep their
      order. So every character other than `' '` is kept, in order. */
  lemma {:induction false} StripAppend(a: string, b: string)
    ensures |a| == 1 ==> StripSpaces(a) == (if a[0] == ' ' then [] else a)
    ensures StripSpaces(a + b) == StripSpaces(a) + StripSpaces(b)
  {
    if a == [] {
      assert a + b == b;
    } else {
      calc {
        StripSpaces(a + b);
        { assert (a + b)[0] == a[0] && (a + b)[1..] == a[1..] + b; }
        (if a[0] == ' ' then [] else [a[0]]) + StripSpaces(a[1..] + b);
        { StripAppend(a[1..], b); }
        (if a[0] == ' ' then [] else [a[0]]) + (StripSpaces(a[1..]) + StripSpaces(b));
        StripSpaces(a) + StripSpaces(b);
      }
      if |a| == 1 {
        assert a[1..] == [];
      }
    }
  }

  /** The text after the leading-minus rewrite: `-x` becomes `0-x`. */
  function PrefixZero(t: string): string {
    if |t| > 0 && t[0] == '-' then "0" + t else t
  }

  /** What the builder holds once the loop has visited `u[..n]`: each
      character is copied, and a `0` is written first when it is a `-`
      whose predecessor is `(`. The predecessor is read only for a `-`,
      which never stands at index 0 of `u`. */
  function Built(u: string, n: nat): string
    requires n <= |u|
    requires |u| > 0 ==> u[0] != '-'
  {
    if n == 0 then []
    else Built(u, n - 1) + (if u[n - 1] == '-' && u[n - 2] == '(' then "0" else "") + [u[n - 1]]
  }

  /** A minus at index `i` of `t` is unary: it opens the text or follows `(`. */
  predicate UnaryMinusAt(t: string, i: nat)
    requires i < |t|
  {
    t[i] == '-' && (i == 0 || t[i - 1] == '(')
  }

  /** Reference one-pass definition over `t[..n]`: copy every character and
      put a `0` before every unary minus. */
  function ZeroBeforeUnary(t: string, n: nat): string
    requires n <= |t|
  {
    if n == 0 then []
    else ZeroBeforeUnary(t, n - 1) + (if UnaryMinusAt(t, n - 1) then "0" else "") + [t[n - 1]]
  }

  /** The normalised form of `s`. */
  function Normalized(s: string): string {
    var t := StripSpaces(s);
    ZeroBeforeUnary(t, |t|)
  }

  /** `prevHandle`, with its builder loop. */
  method PrevHandle(s: string) returns (out: string)
    ensures out == Normalized(s)
    ensures ' ' !in out
    ensures |out| > 0 ==> out[0] != '-'
    ensures forall i :: 0 < i < |out| && out[i] == '-' ==> out[i - 1] != '('
  {
    var t := StripSpaces(s);
    var u := t;
    if |u| > 0 && u[0] == '-' {
      u := "0" + u;
    }
    var builder := "";
    for i := 0 to |u|
      invariant builder == Built(u, i)
    {
      if u[i] == '-' && u[i - 1] == '(' {
        builder := builder + "0";
      }
      builder := builder + [u[i]];
    }
    out := builder;
    BuiltIsReference(t);
    NormalizedProperties(s);
  }

  lemma {:induction false} BuiltWithoutPrefix(t: string, n: nat)
    requires n <= |t|
    requires |t| > 0 ==> t[0] != '-'
    ensures Built(t, n) == ZeroBeforeUnary(t, n)
  {
    if n > 0 {
      BuiltWithoutPrefix(t, n - 1);
    }
  }

  lemma {:induction false} BuiltWithPrefix(t: string, n: nat)
    requires |t| > 0 && t[0] == '-'
    requires 2 <= n <= |t| + 1
    ensures Built("0" + t, n) == ZeroBeforeUnary(t, n - 1)
  {
    var u := "0" + t;
    if n == 2 {
      assert Built(u, 1) == "0";
      assert ZeroBeforeUnary(t, 0) == [];
    } else {
      BuiltWithPrefix(t, n - 1);
      assert u[n - 1] == t[n - 2] && u[n - 2] == t[n - 3];
    }
  }

  /** The source's two-stage rewrite (prefix a `0`, then the loop) is the
      one-pass reference definition. */
  lemma BuiltIsReference(t: string)
    ensures var u := PrefixZero(t); Built(u, |u|) == ZeroBeforeUnary(t, |t|)
  {
    if |t| > 0 && t[0] == '-' {
      BuiltWithPrefix(t, |t| + 1);
    } else {
      BuiltWithoutPrefix(t, |t|);
    }
  }

  lemma {:induction false} ZeroBeforeUnaryNoSpaces(t: string, n: nat)
    requires n <= |t|
    requires ' ' !in t
    ensures ' ' !in ZeroBeforeUnary(t, n)
  {
    if n > 0 {
      ZeroBeforeUnaryNoSpaces(t, n - 1);
      assert t[n - 1] in t;
    }
  }

  lemma {:induction false} ZeroBeforeUnaryShape(t: string, n: nat)
    requires 0 < n <= |t|
    ensures var r := ZeroBeforeUnary(t, n);
      |r| > 0 && r[|r| - 1] == t[n - 1] &&
      r[0] == (if t[0] == '-' then '0' else t[0])
  {
    if n > 1 {
      ZeroBeforeUnaryShape(t, n - 1);
    }
  }

  lemma {:induction false} ZeroBeforeUnaryNoParenMinus(t: string, n: nat)
    requires n <= |t|
    ensures var r := ZeroBeforeUnary(t, n);
      forall i :: 0 < i < |r| && r[i] == '-' ==> r[i - 1] != '('
  {
    if n > 0 {
      ZeroBeforeUnaryNoParenMinus(t, n - 1);
      var prev := ZeroBeforeUnary(t, n - 1);
      var r := ZeroBeforeUnary(t, n);
      if n > 1 {
        ZeroBeforeUnaryShape(t, n - 1);
      }
      forall i | 0 < i < |r| && r[i] == '-' ensures r[i - 1] != '(' {
        if i < |prev| {
          assert r[i] == prev[i] && r[i - 1] == prev[i - 1];
        } else if UnaryMinusAt(t, n - 1) {
          assert r[|prev|] == '0';
        }
      }
    }
  }

  /** The normalised text has no space, does not start with `-`, and no `-`
      in it follows `(`: every unary minus has become `0-`. */
  lemma NormalizedProperties(s: string)
    ensures var r := Normalized(s);
      ' ' !in r &&
      (|r| > 0 ==> r[0] != '-') &&
      (forall i :: 0 < i < |r| && r[i] == '-' ==> r[i - 1] != '(')
  {
    var t := StripSpaces(s);
    ZeroBeforeUnaryNoSpaces(t, |t|);
    ZeroBeforeUnaryNoParenMinus(t, |t|);
    if |t| > 0 {
      ZeroBeforeUnaryShape(t, |t|);
    }
  }

  lemma {:induction false} ZeroBeforeUnaryIdentity(t: string, n: nat)
    requires n <= |t|
    requires forall i :: 0 <= i < n ==> !UnaryMinusAt(t, i)
    ensures ZeroBeforeUnary(t, n) == t[..n]
  {
    if n > 0 {
      ZeroBeforeUnaryIdentity(t, n - 1);
      assert t[..n] == t[..n - 1] + [t[n - 1]];
    }
  }

  /** Normalising twice is normalising once. */
  lemma NormalizedIdempotent(s: string)
    ensures Normalized(Normalized(s)) == Normalized(s)
  {
    var r := Normalized(s);
    NormalizedProperties(s);
    assert StripSpaces(r) == r;
    ZeroBeforeUnaryIdentity(r, |r|);
    assert r[..|r|] == r;
  }
}
