/**
 * The JavaScript string behaviour the gateway relies on: `undefined` inside a
 * template literal, the `||` default, the regular-expression class `\s`,
 * `toLowerCase`, and the decimal rendering of a millisecond timestamp.
 */
module JsText {

  datatype Option<T> = None | Some(value: T)

  /** `${v}` for a value that is a string or `undefined`. */
  function Interpolate(v: Option<string>): (r: string)
    ensures v.Some? ==> r == v.value
    ensures v.None? ==> r == "undefined"
  {
    match v
    case Some(s) => s
    case None => "undefined"
  }

  /** `v || fallback` for a value that is a string or `undefined`: the empty string is falsy. */
  function OrElse(v: Option<string>, fallback: string): (r: string)
    ensures r == fallback || (v.Some? && r == v.value && r != "")
    ensures v.Some? && v.value != "" ==> r == v.value
  {
    if v.Some? && v.value != "" then v.value else fallback
  }

  predicate IsSuffix(a: string, b: string)
  {
    |a| <= |b| && b[|b| - |a|..] == a
  }

  // ---------------------------------------------------------------------
  // Small facts about concatenation, kept apart so that larger proofs can
  // use them without re-deriving sequence equalities.

  lemma ConcatAssoc<T>(a: seq<T>, b: seq<T>, c: seq<T>)
    ensures a + b + c == a + (b + c)
  {
  }

  lemma ConcatCancelRight<T>(a: seq<T>, b: seq<T>, c: seq<T>)
    requires a + c == b + c
    ensures a == b
  {
    assert a == (a + c)[..|a|];
    assert b == (b + c)[..|b|];
  }

  lemma ConcatCancelLeft<T>(a: seq<T>, b: seq<T>, c: seq<T>)
    requires a + b == a + c
    ensures b == c
  {
    assert b == (a + b)[|a|..];
    assert c == (a + c)[|a|..];
  }

  // ---------------------------------------------------------------------
  // Character classes

  predicate IsDigit(c: char) { '0' <= c <= '9' }

  predicate IsUpper(c: char) { 'A' <= c <= 'Z' }

  predicate IsAlnum(c: char) { IsDigit(c) || IsUpper(c) || 'a' <= c <= 'z' }

  predicate AllDigits(s: string) { forall i :: 0 <= i < |s| ==> IsDigit(s[i]) }

  predicate AllAlnum(s: string) { forall i :: 0 <= i < |s| ==> IsAlnum(s[i]) }

  /**
   * The characters `\s` matches in an ECMAScript regular expression: the
   * WhiteSpace code points (tab, vertical tab, form feed, space, no-break
   * space, the byte order mark and every other space separator) and the
   * LineTerminator code points.
   */
  predicate IsJsWhitespace(c: char)
    ensures IsJsWhitespace(c) ==> !IsAlnum(c) && c !in {'.', '_', '-', '/'}
  {
    || c == '\t' || c == '\n' || c == '\U{000B}' || c == '\U{000C}' || c == '\r'
    || c == ' ' || c == '\U{00A0}' || c == '\U{1680}'
    || ('\U{2000}' <= c <= '\U{200A}')
    || c == '\U{2028}' || c == '\U{2029}' || c == '\U{202F}' || c == '\U{205F}'
    || c == '\U{3000}' || c == '\U{FEFF}'
  }

  predicate NoWhitespace(s: string) { forall i :: 0 <= i < |s| ==> !IsJsWhitespace(s[i]) }

  // ---------------------------------------------------------------------
  // Case mapping

  function LowerChar(c: char): (r: char)
    ensures !IsUpper(r)
    ensures IsUpper(c) ==> r as int == c as int + 32
    ensures !IsUpper(c) ==> r == c
  {
    if IsUpper(c) then (c as int + 32) as char else c
  }

  /** `String.prototype.toLowerCase`, restricted to the ASCII letters. */
  function Lower(s: string): (r: string)
    ensures |r| == |s|
    ensures forall i :: 0 <= i < |s| ==> r[i] == LowerChar(s[i])
  {
    if s == [] then [] else [LowerChar(s[0])] + Lower(s[1..])
  }

  lemma {:induction false} LowerConcat(a: string, b: string)
    ensures Lower(a + b) == Lower(a) + Lower(b)
    decreases |a|
  {
    if a == [] {
      assert a + b == b;
    } else {
      assert (a + b)[0] == a[0] && (a + b)[1..] == a[1..] + b;
      LowerConcat(a[1..], b);
      ConcatAssoc([LowerChar(a[0])], Lower(a[1..]), Lower(b));
    }
  }

  /** Lower-casing neither creates nor removes a `.`. */
  lemma {:induction false} LowerKeepsDots(s: string)
    ensures '.' in Lower(s) <==> '.' in s
    decreases |s|
  {
    if s != [] {
      LowerKeepsDots(s[1..]);
      assert s == [s[0]] + s[1..];
      assert '.' in s <==> s[0] == '.' || '.' in s[1..];
      assert '.' in Lower(s) <==> LowerChar(s[0]) == '.' || '.' in Lower(s[1..]);
    }
  }

  // ---------------------------------------------------------------------
  // Decimal rendering of a non-negative integer

  function DigitChar(d: nat): (c: char)
    requires d < 10
    ensures IsDigit(c) && c as int - '0' as int == d
  {
    ('0' as int + d) as char
  }

  function DigitValue(c: char): nat
    requires IsDigit(c)
  {
    c as int - '0' as int
  }

  /** The text `${n}` produces for a non-negative integer below 10^21. */
  function Decimal(n: nat): (r: string)
    ensures |r| >= 1 && AllDigits(r)
    ensures r[0] == '0' ==> n == 0
    decreases n
  {
    if n < 10 then [DigitChar(n)] else Decimal(n / 10) + [DigitChar(n % 10)]
  }

  /** The value of a string of decimal digits. */
  function DecimalValue(s: string): nat
    requires AllDigits(s)
  {
    if s == [] then 0 else DecimalValue(s[..|s| - 1]) * 10 + DigitValue(s[|s| - 1])
  }

  lemma {:induction false} DecimalRoundTrip(n: nat)
    ensures DecimalValue(Decimal(n)) == n
    decreases n
  {
    var s := Decimal(n);
    if n < 10 {
      assert s[..|s| - 1] == [];
    } else {
      assert s[..|s| - 1] == Decimal(n / 10);
      DecimalRoundTrip(n / 10);
    }
  }

  function Pow10(k: nat): (p: nat)
    ensures p >= 1
  {
    if k == 0 then 1 else 10 * Pow10(k - 1)
  }

  /** `Decimal(n)` has at least `k + 1` digits exactly when `n` is at least 10^k (for k >= 1). */
  lemma {:induction false} DecimalLengthBound(n: nat, k: nat)
    requires k >= 1
    ensures |Decimal(n)| >= k + 1 <==> n >= Pow10(k)
    decreases n
  {
    if n < 10 {
      assert Pow10(k) >= 10 by { PowMonotone(k); }
    } else if k > 1 {
      DecimalLengthBound(n / 10, k - 1);
      assert n / 10 >= Pow10(k - 1) <==> n >= 10 * Pow10(k - 1);
    }
  }

  lemma {:induction false} PowMonotone(k: nat)
    requires k >= 1
    ensures Pow10(k) >= 10
  {
    if k > 1 { PowMonotone(k - 1); }
  }

  /** A millisecond timestamp renders to at least nine digits exactly from 10^8 on. */
  lemma NineDigitTimestamp(n: nat)
    ensures |Decimal(n)| >= 9 <==> n >= 100000000
  {
    DecimalLengthBound(n, 8);
    assert Pow10(8) == 100000000;
  }
}
