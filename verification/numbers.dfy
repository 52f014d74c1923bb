/**
 The integer conversions PHP performs on the validator's behalf: rendering an
 integer array key as a string (`(string)$i`), recognising the strings PHP
 stores as integer keys, `is_numeric` on a string, and the `(int)` cast of a
 string. Integers are unbounded here; PHP's 64-bit limits are not modelled.
 */
module PhpNumbers {
  import opened Wrappers

  predicate IsDigit(ch: char) {
    '0' <= ch <= '9'
  }

  predicate AllDigits(s: string) {
    forall i :: 0 <= i < |s| ==> IsDigit(s[i])
  }

  function DigitValue(ch: char): nat
    requires IsDigit(ch)
  {
    ch as int - '0' as int
  }

  function DigitChar(d: nat): (c: char)
    requires d < 10
    ensures IsDigit(c) && DigitValue(c) == d
  {
    ('0' as int + d) as char
  }

  /** The value of a run of decimal digits, most significant first. */
  function DigitsValue(s: string): nat
    requires AllDigits(s)
  {
    if s == [] then 0 else DigitsValue(s[..|s| - 1]) * 10 + DigitValue(s[|s| - 1])
  }

  /** A digit string in the form PHP prints: non-empty, no leading zero unless it is "0". */
  predicate Canonical(s: string) {
    |s| >= 1 && AllDigits(s) && (s[0] == '0' ==> |s| == 1)
  }

  /** PHP's decimal rendering of a natural number. */
  function NatToString(n: nat): (r: string)
    ensures Canonical(r)
    ensures DigitsValue(r) == n
  {
    if n < 10 then
      var r := [DigitChar(n)];
      assert r[..0] == [];
      r
    else
      var p := NatToString(n / 10);
      var r := p + [DigitChar(n % 10)];
      assert r[..|r| - 1] == p;
      r
  }

  /** A canonical digit string with more than one digit has a value of at least 10. */
  lemma {:induction false} CanonicalValueBound(s: string)
    requires Canonical(s) && |s| >= 2
    ensures DigitsValue(s) >= 10
  {
    var p := s[..|s| - 1];
    assert p[0] == s[0];
    if |p| >= 2 {
      CanonicalValueBound(p);
    } else {
      assert DigitsValue(p) == DigitsValue(p[..0]) * 10 + DigitValue(p[0]);
      assert p[..0] == [];
    }
  }

  lemma DivModTen(a: nat, v: nat)
    requires v < 10
    ensures (a * 10 + v) / 10 == a && (a * 10 + v) % 10 == v
  {
  }

  /** Rendering a canonical digit string's value gives the string back. */
  lemma {:induction false} NatToStringOfDigits(s: string)
    requires Canonical(s)
    ensures NatToString(DigitsValue(s)) == s
  {
    if |s| == 1 {
      assert s[..0] == [];
      assert DigitsValue(s) == DigitValue(s[0]);
      assert DigitChar(DigitValue(s[0])) == s[0];
    } else {
      var p := s[..|s| - 1];
      var last := s[|s| - 1];
      assert p[0] == s[0];
      CanonicalValueBound(s);
      NatToStringOfDigits(p);
      var n := DigitsValue(s);
      assert n == DigitsValue(p) * 10 + DigitValue(last);
      DivModTen(DigitsValue(p), DigitValue(last));
      assert NatToString(n) == NatToString(n / 10) + [DigitChar(n % 10)];
      assert DigitChar(DigitValue(last)) == last;
      assert p + [last] == s;
    }
  }

  /** Zero is the only canonical digit string of value zero. */
  lemma CanonicalIsZero(s: string)
    requires Canonical(s)
    ensures DigitsValue(s) == 0 <==> s == "0"
  {
    if |s| >= 2 {
      CanonicalValueBound(s);
    } else {
      assert s[..0] == [];
      assert DigitsValue(s) == DigitValue(s[0]);
    }
  }

  /** PHP `(string)$i` for an integer `$i`. */
  function IntToString(i: int): string {
    if i < 0 then "-" + NatToString(-i) else NatToString(i)
  }

  /**
   The strings PHP turns into integer keys when they index an array: "0", or
   an optional minus sign followed by digits with no leading zero ("-0" stays
   a string).
   */
  predicate IsIntegerKeyString(s: string) {
    || Canonical(s)
    || (|s| >= 2 && s[0] == '-' && Canonical(s[1..]) && s[1] != '0')
  }

  function IntegerKeyValue(s: string): int
    requires IsIntegerKeyString(s)
  {
    if s[0] == '-' then -(DigitsValue(s[1..]) as int) else DigitsValue(s)
  }

  /** Every rendered integer is an integer-key string and reads back as itself. */
  lemma IntToStringIsIntegerKey(i: int)
    ensures IsIntegerKeyString(IntToString(i))
    ensures IntegerKeyValue(IntToString(i)) == i
  {
    if i < 0 {
      var d := NatToString(-i);
      assert IntToString(i)[1..] == d;
      CanonicalIsZero(d);
    }
  }

  /** Every integer-key string is the rendering of its own value. */
  lemma IntegerKeyRoundTrip(s: string)
    requires IsIntegerKeyString(s)
    ensures IntToString(IntegerKeyValue(s)) == s
  {
    if s[0] == '-' {
      var d := s[1..];
      NatToStringOfDigits(d);
      CanonicalIsZero(d);
      assert "-" + d == s;
    } else {
      NatToStringOfDigits(s);
    }
  }

  /** The whitespace PHP allows around a numeric string: space, \t, \n, \r, \v, \f. */
  predicate IsWhitespace(ch: char) {
    ch == ' ' || ch == '\t' || ch == '\n' || ch == '\r' || ch == '\U{000B}' || ch == '\U{000C}'
  }

  /** The number of whitespace characters `s` starts with. */
  function LeadingWhitespace(s: string): (n: nat)
    ensures n <= |s|
    ensures forall i :: 0 <= i < n ==> IsWhitespace(s[i])
    ensures n == |s| || !IsWhitespace(s[n])
  {
    if s != [] && IsWhitespace(s[0]) then 1 + LeadingWhitespace(s[1..]) else 0
  }

  /** The number of whitespace characters `s` ends with. */
  function TrailingWhitespace(s: string): (n: nat)
    ensures n <= |s|
    ensures forall i :: |s| - n <= i < |s| ==> IsWhitespace(s[i])
    ensures n == |s| || !IsWhitespace(s[|s| - n - 1])
  {
    if s != [] && IsWhitespace(s[|s| - 1]) then 1 + TrailingWhitespace(s[..|s| - 1]) else 0
  }

  /** The longest run of digits at the start of `s`. */
  function DigitPrefix(s: string): (r: string)
    ensures AllDigits(r) && r <= s
    ensures |r| == |s| || !IsDigit(s[|r|])
  {
    if s != [] && IsDigit(s[0]) then [s[0]] + DigitPrefix(s[1..]) else ""
  }

  /** An optional leading sign: whether it is a minus, and the text after it. */
  function StripSign(s: string): (bool, string) {
    if s != [] && (s[0] == '+' || s[0] == '-') then (s[0] == '-', s[1..]) else (false, s)
  }

  function Signed(negative: bool, n: nat): int {
    if negative then -(n as int) else n
  }

  /**
   `is_numeric` of a string with surrounding whitespace already removed: a
   sign, then digits with an optional fractional part (`12`, `1.`, `.5`,
   `-3.25`). When it holds, the result is the value `(int)` gives it: the
   integer part, with the sign.
   */
  function DecimalValue(b: string): Option<int> {
    var (negative, u) := StripSign(b);
    var whole := DigitPrefix(u);
    var after := u[|whole|..];
    var value := Signed(negative, DigitsValue(whole));
    if after == [] then
      if whole != [] then Some(value) else None
    else if after[0] == '.' && AllDigits(after[1..]) && (whole != [] || |after| > 1) then
      Some(value)
    else
      None
  }

  /**
   PHP `is_numeric($s) ? (int)$s : null` for a string: leading and trailing
   whitespace are allowed around a decimal number.
   */
  function NumericValue(s: string): Option<int> {
    var t := s[LeadingWhitespace(s)..];
    DecimalValue(t[..|t| - TrailingWhitespace(t)])
  }

  /**
   PHP `(int)$s` for any string: leading whitespace, an optional sign and the
   longest run of digits that follows; 0 when there are none.
   */
  function IntCast(s: string): int {
    LeadingInteger(s[LeadingWhitespace(s)..])
  }

  /** The signed run of digits a string starts with; 0 when there is none. */
  function LeadingInteger(t: string): int {
    var (negative, u) := StripSign(t);
    Signed(negative, DigitsValue(DigitPrefix(u)))
  }

  lemma {:induction false} DigitPrefixOfDigits(d: string, t: string)
    requires AllDigits(d)
    requires t == [] || !IsDigit(t[0])
    ensures DigitPrefix(d + t) == d
  {
    if d != [] {
      assert (d + t)[1..] == d[1..] + t;
      DigitPrefixOfDigits(d[1..], t);
      assert [d[0]] + d[1..] == d;
    } else {
      assert d + t == t;
    }
  }

  /** Text that cannot continue a number leaves a decimal's leading integer unchanged. */
  lemma DecimalLeadingInteger(b: string, w: string)
    requires DecimalValue(b).Some?
    requires w == [] || !IsDigit(w[0])
    ensures LeadingInteger(b + w) == DecimalValue(b).value
  {
    var (negative, u) := StripSign(b);
    assert b != [];
    assert (b + w)[0] == b[0];
    if b[0] == '+' || b[0] == '-' {
      assert (b + w)[1..] == b[1..] + w;
    }
    assert StripSign(b + w) == (negative, u + w);
    var whole := DigitPrefix(u);
    var after := u[|whole|..];
    assert u == whole + after;
    assert u + w == whole + (after + w);
    if after == [] {
      assert after + w == w;
    } else {
      assert (after + w)[0] == '.';
    }
    DigitPrefixOfDigits(whole, after + w);
  }

  /** The `(int)` cast agrees with the value of every numeric string. */
  lemma IntCastOfNumeric(s: string)
    requires NumericValue(s).Some?
    ensures IntCast(s) == NumericValue(s).value
  {
    var t := s[LeadingWhitespace(s)..];
    var k := TrailingWhitespace(t);
    var b := t[..|t| - k];
    var w := t[|t| - k..];
    assert t == b + w;
    if w != [] {
      assert w[0] == t[|t| - k];
    }
    DecimalLeadingInteger(b, w);
  }

  lemma RenderedHasNoWhitespace(i: int)
    ensures LeadingWhitespace(IntToString(i)) == 0
    ensures TrailingWhitespace(IntToString(i)) == 0
  {
    var s := IntToString(i);
    var d := NatToString(if i < 0 then -i else i);
    assert s == if i < 0 then "-" + d else d;
    assert s[0] == '-' || IsDigit(s[0]);
    assert IsDigit(s[|s| - 1]);
  }

  lemma DecimalOfRendered(i: int)
    ensures DecimalValue(IntToString(i)) == Some(i)
  {
    var s := IntToString(i);
    var d := NatToString(if i < 0 then -i else i);
    assert s == if i < 0 then "-" + d else d;
    assert StripSign(s) == (i < 0, d);
    DigitPrefixOfDigits(d, []);
    assert d + [] == d;
    assert d[|d|..] == [];
  }

  /** A rendered integer is numeric and casts back to itself. */
  lemma NumericRoundTrip(i: int)
    ensures NumericValue(IntToString(i)) == Some(i)
    ensures IntCast(IntToString(i)) == i
  {
    var s := IntToString(i);
    RenderedHasNoWhitespace(i);
    DecimalOfRendered(i);
    assert s[0..] == s;
    assert s[..|s|] == s;
    IntCastOfNumeric(s);
  }
}
