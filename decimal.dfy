/** Decimal digit strings: rendering numbers and reading them back. */
module Decimal {
  import opened Wrappers
  import opened Text

  predicate IsDigit(c: char) {
    '0' <= c <= '9'
  }

  predicate AllDigits(s: string) {
    forall i :: 0 <= i < |s| ==> IsDigit(s[i])
  }

  function DigitChar(d: nat): char
    requires d < 10
  {
    ('0' as int + d) as char
  }

  /** The value of a digit string, most significant digit first (leading zeros allowed). */
  function DigitsValue(s: string): nat
    requires AllDigits(s)
  {
    if s == [] then 0 else 10 * DigitsValue(s[..|s| - 1]) + (s[|s| - 1] as int - '0' as int)
  }

  /** The shortest decimal rendering of `n`, as `str(n)` and `String(n)` produce. */
  function NatToString(n: nat): (s: string)
    ensures s != [] && AllDigits(s)
    ensures DigitsValue(s) == n
    ensures |s| > 1 ==> s[0] != '0'
  {
    if n < 10 then [DigitChar(n)]
    else
      var s := NatToString(n / 10) + [DigitChar(n % 10)];
      assert s[..|s| - 1] == NatToString(n / 10);
      s
  }

  /** Python's `f"{n}"` for an int. */
  function IntToString(n: int): (s: string)
    ensures s != []
  {
    if n < 0 then "-" + NatToString(-n) else NatToString(n)
  }

  /** Digits with single underscores between them, as Python's `int()` accepts. */
  predicate IsPyDigitRun(s: string) {
    && s != []
    && IsDigit(s[0]) && IsDigit(s[|s| - 1])
    && (forall i :: 0 <= i < |s| ==> IsDigit(s[i]) || s[i] == '_')
    && (forall i :: 0 <= i < |s| - 1 ==> !(s[i] == '_' && s[i + 1] == '_'))
  }

  function DropUnderscores(s: string): (r: string)
    requires forall i :: 0 <= i < |s| ==> IsDigit(s[i]) || s[i] == '_'
    ensures AllDigits(r)
  {
    if s == [] then []
    else if s[0] == '_' then DropUnderscores(s[1..])
    else [s[0]] + DropUnderscores(s[1..])
  }

  /**
   * Python's `int(s)` on a string, base 10: surrounding whitespace is ignored,
   * one optional sign, then digits that may be grouped by single underscores.
   * `None` stands for the `ValueError` it raises on anything else.
   */
  function ParsePyInt(s: string): (r: Option<int>)
    ensures r.Some? ==> PyStrip(s) != []
  {
    var t := PyStrip(s);
    if t == [] then None
    else
      var neg := t[0] == '-';
      var body := if t[0] == '-' || t[0] == '+' then t[1..] else t;
      if !IsPyDigitRun(body) then None
      else
        var v: int := DigitsValue(DropUnderscores(body));
        Some(if neg then -v else v)
  }

  /** What `int()` reads back is what `f"{n}"` wrote. */
  lemma {:induction false} IntRoundTrip(n: int)
    ensures ParsePyInt(IntToString(n)) == Some(n)
  {
    if n < 0 {
      ParseNegative(NatToString(-n));
    } else {
      ParseDigits(NatToString(n));
    }
  }

  lemma {:induction false} ParseDigits(digits: string)
    requires digits != [] && AllDigits(digits)
    ensures ParsePyInt(digits) == Some(DigitsValue(digits))
  {
    DigitRunOfDigits(digits);
    assert IsDigit(digits[0]) && IsDigit(digits[|digits| - 1]);
    PyStripKeeps(digits);
  }

  lemma {:induction false} ParseNegative(digits: string)
    requires digits != [] && AllDigits(digits)
    ensures ParsePyInt("-" + digits) == Some(-(DigitsValue(digits) as int))
  {
    DigitRunOfDigits(digits);
    var s := "-" + digits;
    assert s[|s| - 1] == digits[|digits| - 1];
    PyStripKeeps(s);
    var body := s[1..];
    assert body == digits;
    assert IsPyDigitRun(body) && DropUnderscores(body) == digits;
  }

  lemma {:induction false} DigitRunOfDigits(s: string)
    requires s != [] && AllDigits(s)
    ensures IsPyDigitRun(s) && DropUnderscores(s) == s
  {
    DropUnderscoresOfDigits(s);
  }

  lemma {:induction false} DropUnderscoresOfDigits(s: string)
    requires AllDigits(s)
    ensures DropUnderscores(s) == s
  {
    if s != [] {
      DropUnderscoresOfDigits(s[1..]);
      assert [s[0]] + s[1..] == s;
    }
  }
}
