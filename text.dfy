/** String behaviour of the Rust standard library that the chat server relies on:
    `str::trim` (used on user names) and the `{}` formatting of a counter
    (used to number saved chat files). */
module Text {

  /** The Unicode White_Space property, which is what `char::is_whitespace`
      and therefore `str::trim` use. */
  predicate IsWhitespace(c: char) {
    c == '\t' || c == '\n' || c == '\U{B}' || c == '\U{C}' || c == '\r' || c == ' '
    || c == '\U{85}' || c == '\U{A0}' || c == '\U{1680}'
    || ('\U{2000}' <= c <= '\U{200A}')
    || c == '\U{2028}' || c == '\U{2029}' || c == '\U{202F}' || c == '\U{205F}'
    || c == '\U{3000}'
  }

  /** `str::trim_start`: drops the longest whitespace prefix. */
  function TrimStart(s: string): (r: string)
    ensures |r| <= |s|
    decreases |s|
  {
    if |s| > 0 && IsWhitespace(s[0]) then TrimStart(s[1..]) else s
  }

  /** `str::trim_end`: drops the longest whitespace suffix. */
  function TrimEnd(s: string): (r: string)
    ensures |r| <= |s|
    decreases |s|
  {
    if |s| > 0 && IsWhitespace(s[|s| - 1]) then TrimEnd(s[..|s| - 1]) else s
  }

  /** `TrimStart` leaves a suffix of its input that does not start with
      whitespace, and only whitespace was cut off. */
  lemma {:induction false} TrimStartSpec(s: string)
    ensures var r := TrimStart(s);
      && |r| <= |s| && r == s[|s| - |r|..]
      && (forall i :: 0 <= i < |s| - |r| ==> IsWhitespace(s[i]))
      && (r == [] || !IsWhitespace(r[0]))
    decreases |s|
  {
    if |s| > 0 && IsWhitespace(s[0]) {
      TrimStartSpec(s[1..]);
    }
  }

  /** `TrimEnd` leaves a prefix of its input that does not end with
      whitespace, and only whitespace was cut off. */
  lemma {:induction false} TrimEndSpec(s: string)
    ensures var r := TrimEnd(s);
      && |r| <= |s| && r == s[..|r|]
      && (forall i :: |r| <= i < |s| ==> IsWhitespace(s[i]))
      && (r == [] || !IsWhitespace(r[|r| - 1]))
    decreases |s|
  {
    if |s| > 0 && IsWhitespace(s[|s| - 1]) {
      TrimEndSpec(s[..|s| - 1]);
    }
  }

  /** `str::trim`: whitespace removed from both ends. */
  function Trim(s: string): (r: string)
  {
    TrimEnd(TrimStart(s))
  }

  /** The result of `Trim` is the slice of its input that starts after the
      whitespace prefix; neither of its ends is whitespace, and everything cut
      off on either side is whitespace. */
  lemma TrimIsMaximalSlice(s: string)
    ensures var i, r := |s| - |TrimStart(s)|, Trim(s);
      && i + |r| <= |s| && r == s[i..i + |r|]
      && (forall k :: 0 <= k < i ==> IsWhitespace(s[k]))
      && (forall k :: i + |r| <= k < |s| ==> IsWhitespace(s[k]))
      && (r == [] || (!IsWhitespace(r[0]) && !IsWhitespace(r[|r| - 1])))
  {
    var t := TrimStart(s);
    var r := TrimEnd(t);
    var i := |s| - |t|;
    assert t == s[i..] && forall k :: 0 <= k < i ==> IsWhitespace(s[k]) by {
      TrimStartSpec(s);
    }
    assert t == [] || !IsWhitespace(t[0]) by {
      TrimStartSpec(s);
    }
    TrimEndSpec(t);
    assert r == s[i..i + |r|];
    forall k | i + |r| <= k < |s| ensures IsWhitespace(s[k]) {
      assert s[k] == t[k - i];
    }
    if r != [] {
      assert r[0] == t[0];
    }
  }

  /** A trimmed string is empty exactly when the input is all whitespace. */
  lemma TrimEmptyIffAllWhitespace(s: string)
    ensures Trim(s) == [] <==> forall k :: 0 <= k < |s| ==> IsWhitespace(s[k])
  {
    TrimIsMaximalSlice(s);
    if Trim(s) != [] {
      assert Trim(s)[0] == s[|s| - |TrimStart(s)|];
    }
  }

  /** Trimming twice is trimming once. */
  lemma TrimIdempotent(s: string)
    ensures Trim(Trim(s)) == Trim(s)
  {
    TrimIsMaximalSlice(s);
    var r := Trim(s);
    var t := TrimStart(r);
    TrimStartSpec(r);
    TrimEndSpec(r);
    if r != [] {
      assert t == r;
      assert TrimEnd(r) == r;
    }
  }

  function DigitChar(d: nat): (c: char)
    requires d < 10
  {
    ['0', '1', '2', '3', '4', '5', '6', '7', '8', '9'][d]
  }

  /** The `{}` (Display) formatting of a non-negative integer: decimal digits
      with no leading zero. */
  function DecimalString(n: nat): (r: string)
    ensures 1 <= |r|
    decreases n
  {
    if n < 10 then [DigitChar(n)] else DecimalString(n / 10) + [DigitChar(n % 10)]
  }

  /** The formatting is all digits, one digit exactly for numbers below ten,
      and ends in the last decimal digit. */
  lemma {:induction false} DecimalStringShape(n: nat)
    ensures var r := DecimalString(n);
      && (forall i :: 0 <= i < |r| ==> '0' <= r[i] <= '9')
      && (n < 10 <==> |r| == 1)
      && r[|r| - 1] == DigitChar(n % 10)
    decreases n
  {
    if n >= 10 {
      DecimalStringShape(n / 10);
    }
  }

  /** Different numbers format differently. */
  lemma {:induction false} DecimalStringInjective(a: nat, b: nat)
    requires DecimalString(a) == DecimalString(b)
    ensures a == b
    decreases a
  {
    var s := DecimalString(a);
    DecimalStringShape(a);
    DecimalStringShape(b);
    assert DigitChar(a % 10) == DigitChar(b % 10);
    assert a % 10 == b % 10 by {
      var d, e := a % 10, b % 10;
      assert ['0', '1', '2', '3', '4', '5', '6', '7', '8', '9'][d]
          == ['0', '1', '2', '3', '4', '5', '6', '7', '8', '9'][e];
    }
    if a >= 10 {
      assert b >= 10;
      assert DecimalString(a / 10) == s[..|s| - 1] == DecimalString(b / 10);
      DecimalStringInjective(a / 10, b / 10);
    }
  }
}
