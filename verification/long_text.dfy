/**
 * JVM integer widths and the decimal text form of a `Long`, as used by the
 * checkpoint token: `Long.toString()`, `String.toLongOrNull()`, `String.isBlank()`
 * and the wrap-around of `Int` addition.
 */
module LongText {
  import opened Options

  const MIN_LONG: int := -0x8000_0000_0000_0000
  const MAX_LONG: int := 0x7FFF_FFFF_FFFF_FFFF
  const MIN_INT: int := -0x8000_0000
  const MAX_INT: int := 0x7FFF_FFFF

  /** A JVM `Long`. */
  type Long = x: int | MIN_LONG <= x <= MAX_LONG

  /** A JVM `Int`. */
  type Int32 = x: int | MIN_INT <= x <= MAX_INT

  /** JVM `Int` addition: the mathematical sum wrapped into 32-bit two's complement. */
  function WrapInt(x: int): (r: Int32)
    ensures (r - x) % 0x1_0000_0000 == 0
    ensures MIN_INT <= x <= MAX_INT ==> r == x
  {
    (x - MIN_INT) % 0x1_0000_0000 + MIN_INT
  }

  predicate IsDigit(c: char) {
    '0' <= c <= '9'
  }

  predicate AllDigits(s: string) {
    forall i :: 0 <= i < |s| ==> IsDigit(s[i])
  }

  function DigitValue(c: char): nat
    requires IsDigit(c)
  {
    c as int - '0' as int
  }

  function DigitChar(d: nat): (c: char)
    requires d < 10
    ensures IsDigit(c) && DigitValue(c) == d
  {
    ('0' as int + d) as char
  }

  /** The value of a run of decimal digits, most significant first. */
  function DigitsValue(s: string): nat
    requires AllDigits(s)
    decreases |s|
  {
    if |s| == 0 then 0 else 10 * DigitsValue(s[..|s| - 1]) + DigitValue(s[|s| - 1])
  }

  /** The shortest decimal digits of `n`: no leading zero except for `n == 0` itself. */
  function Digits(n: nat): (s: string)
    ensures 1 <= |s| && AllDigits(s)
    ensures |s| > 1 ==> s[0] != '0'
    decreases n
  {
    if n < 10 then [DigitChar(n)] else Digits(n / 10) + [DigitChar(n % 10)]
  }

  /** `Long.toString()`: a minus sign for negative values, then the digits of the magnitude. */
  function FormatLong(n: int): (s: string)
    ensures 1 <= |s|
    ensures s[0] == '-' <==> n < 0
  {
    if n < 0 then "-" + Digits(-n) else Digits(n)
  }

  /**
   * Kotlin's `String.toLongOrNull()` (radix 10): an optional leading `-` or `+`,
   * then at least one digit; `None` for anything else and for values outside
   * the `Long` range.
   */
  function ParseLong(s: string): (r: Option<Long>)
    ensures r.Some? ==> 1 <= |s| && (IsDigit(s[0]) || s[0] == '-' || s[0] == '+')
    ensures r.Some? && r.value < 0 ==> s[0] == '-'
    ensures |s| == 1 && (s[0] == '-' || s[0] == '+') ==> r.None?
    ensures (exists i :: 1 <= i < |s| && !IsDigit(s[i])) ==> r.None?
    ensures |s| > 0 && AllDigits(s) ==>
      && (r.Some? <==> DigitsValue(s) <= MAX_LONG)
      && (r.Some? ==> r.value == DigitsValue(s))
    ensures |s| > 1 && s[0] == '+' && AllDigits(s[1..]) ==>
      && (r.Some? <==> DigitsValue(s[1..]) <= MAX_LONG)
      && (r.Some? ==> r.value == DigitsValue(s[1..]))
    ensures |s| > 1 && s[0] == '-' && AllDigits(s[1..]) ==>
      && (r.Some? <==> DigitsValue(s[1..]) <= -MIN_LONG)
      && (r.Some? ==> r.value == -(DigitsValue(s[1..]) as int))
  {
    if |s| == 0 then None
    else
      var body := if s[0] == '-' || s[0] == '+' then s[1..] else s;
      if |body| == 0 || !AllDigits(body) then None
      else
        var v: int := if s[0] == '-' then -(DigitsValue(body) as int) else DigitsValue(body);
        if MIN_LONG <= v <= MAX_LONG then Some(v) else None
  }

  /** Kotlin's `Char.isWhitespace()` on the JVM: `Character.isWhitespace` or `Character.isSpaceChar`. */
  predicate IsWhitespace(c: char) {
    || c == ' ' || c == '\t' || c == '\n' || c == '\U{B}' || c == '\U{C}' || c == '\r'
    || ('\U{1C}' <= c <= '\U{1F}')
    || c == '\U{A0}' || c == '\U{1680}' || ('\U{2000}' <= c <= '\U{200A}')
    || c == '\U{2028}' || c == '\U{2029}' || c == '\U{202F}' || c == '\U{205F}' || c == '\U{3000}'
  }

  /** Kotlin's `CharSequence.isBlank()`: empty or whitespace only. */
  predicate IsBlank(s: string) {
    forall i :: 0 <= i < |s| ==> IsWhitespace(s[i])
  }

  /**
   * The whitespace set: tab, line feed, vertical tab, form feed, carriage
   * return, the separators U+001C to U+001F, and every Unicode space, line or
   * paragraph separator, the no-break spaces included. Other controls and
   * zero-width characters are not whitespace.
   */
  lemma WhitespaceSet()
    ensures IsBlank("") && IsBlank(" \t\n\r\U{B}\U{C}\U{1C}\U{1F}")
    ensures IsBlank("\U{A0}\U{1680}\U{2007}\U{2028}\U{2029}\U{202F}\U{205F}\U{3000}")
    ensures !IsWhitespace('0') && !IsWhitespace('\U{0}') && !IsWhitespace('\U{85}') && !IsWhitespace('\U{200B}') && !IsWhitespace('\U{FEFF}')
  {
  }

  /** Blankness is decided character by character: a text is blank exactly when both of its parts are. */
  lemma BlankAppend(a: string, b: string)
    ensures IsBlank(a + b) <==> IsBlank(a) && IsBlank(b)
  {
    if IsBlank(a) && IsBlank(b) {
      forall i | 0 <= i < |a + b|
        ensures IsWhitespace((a + b)[i])
      {
        if i >= |a| { assert (a + b)[i] == b[i - |a|]; }
      }
    }
    if IsBlank(a + b) {
      forall i | 0 <= i < |a|
        ensures IsWhitespace(a[i])
      {
        assert a[i] == (a + b)[i];
      }
      forall i | 0 <= i < |b|
        ensures IsWhitespace(b[i])
      {
        assert b[i] == (a + b)[|a| + i];
      }
    }
  }

  lemma {:induction false} DigitsValueOfDigits(n: nat)
    ensures DigitsValue(Digits(n)) == n
    decreases n
  {
    if n >= 10 {
      var s := Digits(n);
      assert s[..|s| - 1] == Digits(n / 10);
      DigitsValueOfDigits(n / 10);
    }
  }

  /** The token round trip: `toLongOrNull` reads back every `Long` that `toString` writes. */
  lemma ParseFormatRoundTrip(n: Long)
    ensures ParseLong(FormatLong(n)) == Some(n)
  {
    if n < 0 {
      var m: nat := -(n as int);
      assert FormatLong(n)[1..] == Digits(m);
      DigitsValueOfDigits(m);
    } else {
      DigitsValueOfDigits(n);
    }
  }

  /** A blank string is never a number, so no blank token parses. */
  lemma BlankNeverParses(s: string)
    requires IsBlank(s)
    ensures ParseLong(s) == None
  {
    if |s| > 0 {
      assert IsWhitespace(s[0]);
    }
  }

  /** Every formatted `Long` is non-blank: it starts with a digit or a minus sign. */
  lemma FormattedNotBlank(n: int)
    ensures !IsBlank(FormatLong(n))
  {
    var s := FormatLong(n);
    if n >= 0 {
      assert IsDigit(s[0]);
    }
  }
}
