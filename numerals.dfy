/** The JavaScript number-to-text and text-to-number conversions the
    ingester relies on: `String(n)` of a whole number, `padStart`, and
    `parseInt` with no radix argument (ECMAScript's "parseInt (string,
    radix)", section 19.2.5 of ECMA-262). */
module Numerals {
  import opened Wrappers

  predicate IsDecimalDigit(c: char)
  {
    '0' <= c <= '9'
  }

  /** A digit in base 10, or in base 16 with letters of either case. */
  predicate IsRadixDigit(c: char, radix: nat)
  {
    IsDecimalDigit(c) || (radix == 16 && ('a' <= c <= 'f' || 'A' <= c <= 'F'))
  }

  predicate AllDigits(s: string, radix: nat)
  {
    forall i :: 0 <= i < |s| ==> IsRadixDigit(s[i], radix)
  }

  function DigitValue(c: char): (v: nat)
    requires IsRadixDigit(c, 16)
    ensures v < 16
    ensures IsDecimalDigit(c) ==> v < 10
  {
    if IsDecimalDigit(c) then c as int - '0' as int
    else if 'a' <= c <= 'f' then c as int - 'a' as int + 10
    else c as int - 'A' as int + 10
  }

  function DigitChar(d: nat): (c: char)
    requires d < 10
    ensures IsDecimalDigit(c) && DigitValue(c) == d
  {
    ('0' as int + d) as char
  }

  /** The value of a digit string read most significant digit first. */
  function DigitsValue(s: string, radix: nat): nat
    requires radix == 10 || radix == 16
    requires AllDigits(s, radix)
  {
    if s == [] then 0
    else DigitsValue(s[..|s| - 1], radix) * radix + DigitValue(s[|s| - 1])
  }

  /** `String(n)` for a whole number below 10^21: its decimal digits, with
      no leading zero except for 0 itself. */
  function NatToString(n: nat): (r: string)
    ensures |r| >= 1 && AllDigits(r, 10)
    ensures n == 0 ==> r == "0"
    ensures n > 0 ==> r[0] != '0'
    ensures n < 10 <==> |r| == 1
  {
    if n < 10 then [DigitChar(n)]
    else NatToString(n / 10) + [DigitChar(n % 10)]
  }

  /** `String(x)` for a whole number: a minus sign before the digits of a
      negative one. */
  function IntToString(x: int): string
  {
    if x < 0 then "-" + NatToString(-x) else NatToString(x)
  }

  /** Reading the digits back gives the number. */
  lemma {:induction false} NatToStringRoundTrip(n: nat)
    ensures DigitsValue(NatToString(n), 10) == n
  {
    if n >= 10 {
      NatToStringRoundTrip(n / 10);
      var r := NatToString(n);
      assert r[..|r| - 1] == NatToString(n / 10);
    }
  }

  /** Distinct numbers have distinct texts. */
  lemma IntToStringInjective(x: int, y: int)
    requires IntToString(x) == IntToString(y)
    ensures x == y
  {
    if x < 0 && y < 0 {
      assert NatToString(-x) == IntToString(x)[1..];
      assert NatToString(-y) == IntToString(y)[1..];
      NatToStringRoundTrip(-x);
      NatToStringRoundTrip(-y);
    } else if x >= 0 && y >= 0 {
      NatToStringRoundTrip(x);
      NatToStringRoundTrip(y);
    }
    // otherwise one text starts with '-' and the other with a digit
  }

  /** `s.padStart(len, fill)`: `s` preceded by enough copies of `fill` to
      reach length `len`; a longer `s` is left as it is. */
  function PadStart(s: string, len: nat, fill: char): string
    decreases len - |s|
  {
    if |s| >= len then s else PadStart([fill] + s, len, fill)
  }

  /** The padded text keeps `s` at its end and has only `fill` before it. */
  lemma {:induction false} PadStartShape(s: string, len: nat, fill: char)
    ensures var r := PadStart(s, len, fill);
      |r| == (if |s| >= len then |s| else len)
      && r[|r| - |s|..] == s
      && forall i :: 0 <= i < |r| - |s| ==> r[i] == fill
    decreases len - |s|
  {
    if |s| < len {
      var longer := [fill] + s;
      PadStartShape(longer, len, fill);
      var r := PadStart(s, len, fill);
      assert r == PadStart(longer, len, fill);
      assert r[|r| - |longer|..] == longer;
      assert r[|r| - |s|..] == longer[1..];
      forall i | 0 <= i < |r| - |s| ensures r[i] == fill {
        if i == |r| - |longer| {
          assert r[i] == longer[0];
        }
      }
    }
  }

  /** `String(n).padStart(2, '0')`. */
  function Pad2(n: nat): string
  {
    PadStart(NatToString(n), 2, '0')
  }

  /** Below 100, the padded text has exactly two digits and reads back as `n`. */
  lemma Pad2Digits(n: nat)
    requires n < 100
    ensures |Pad2(n)| == 2 && AllDigits(Pad2(n), 10)
    ensures DigitsValue(Pad2(n), 10) == n
  {
    NatToStringRoundTrip(n);
    var s := NatToString(n);
    PadStartShape(s, 2, '0');
    if n < 10 {
      assert Pad2(n) == ['0'] + s;
      assert Pad2(n)[..1] == "0";
    } else {
      assert |NatToString(n / 10)| == 1;
      assert Pad2(n) == s;
    }
  }

  /** StrWhiteSpaceChar of ECMAScript: the WhiteSpace characters (tab,
      vertical tab, form feed, ZWNBSP and every space separator) and the
      line terminators. */
  predicate IsStrWhiteSpace(c: char)
  {
    c == '\t' || c == '\U{000B}' || c == '\U{000C}' || c == '\U{FEFF}'
    || c == ' ' || c == '\U{00A0}' || c == '\U{1680}' || ('\U{2000}' <= c <= '\U{200A}')
    || c == '\U{202F}' || c == '\U{205F}' || c == '\U{3000}'
    || c == '\n' || c == '\r' || c == '\U{2028}' || c == '\U{2029}'
  }

  /** The text with its leading white space removed. */
  function TrimStart(s: string): (r: string)
    ensures |r| <= |s| && r == s[|s| - |r|..]
    ensures r == [] || !IsStrWhiteSpace(r[0])
    ensures forall i :: 0 <= i < |s| - |r| ==> IsStrWhiteSpace(s[i])
  {
    if s != [] && IsStrWhiteSpace(s[0]) then TrimStart(s[1..]) else s
  }

  /** The longest prefix of `s` made of digits of `radix`. */
  function LeadingDigits(s: string, radix: nat): (r: string)
    ensures |r| <= |s| && r == s[..|r|]
    ensures AllDigits(r, radix)
    ensures |r| == |s| || !IsRadixDigit(s[|r|], radix)
  {
    if s != [] && IsRadixDigit(s[0], radix) then [s[0]] + LeadingDigits(s[1..], radix) else []
  }

  /** `parseInt(s)` with no radix: skip leading white space, take an
      optional sign, read base 16 after a "0x" or "0X" prefix and base 10
      otherwise, and convert the longest run of digits that follows; `None`
      (NaN) when that run is empty. */
  function ParseInt(s: string): Option<int>
  {
    ParseSigned(TrimStart(s))
  }

  /** An optional '-' or '+' followed by an unsigned number. */
  function ParseSigned(t: string): Option<int>
  {
    if t != [] && t[0] == '-' then
      match ParseUnsigned(t[1..])
      case None => None
      case Some(v) => Some(-(v as int))
    else if t != [] && t[0] == '+' then Widen(ParseUnsigned(t[1..]))
    else Widen(ParseUnsigned(t))
  }

  function Widen(v: Option<nat>): (r: Option<int>)
    ensures r.Some? <==> v.Some?
    ensures v.Some? ==> r.value == v.value
  {
    match v
    case None => None
    case Some(n) => Some(n)
  }

  predicate HasHexPrefix(u: string)
  {
    |u| >= 2 && u[0] == '0' && (u[1] == 'x' || u[1] == 'X')
  }

  /** The digits after the sign: hexadecimal behind "0x"/"0X", else decimal. */
  function ParseUnsigned(u: string): Option<nat>
  {
    if HasHexPrefix(u) then DigitRun(u[2..], 16) else DigitRun(u, 10)
  }

  /** The value of the leading run of digits, or `None` when there is none. */
  function DigitRun(u: string, radix: nat): (r: Option<nat>)
    requires radix == 10 || radix == 16
    ensures r.None? <==> u == [] || !IsRadixDigit(u[0], radix)
  {
    var digits := LeadingDigits(u, radix);
    if digits == [] then None else Some(DigitsValue(digits, radix))
  }

  /** A number's decimal text, followed by anything that does not continue
      it, reads as that number. */
  lemma ParseUnsignedDecimalPrefix(n: nat, rest: string)
    requires rest == [] || !IsDecimalDigit(rest[0])
    requires n == 0 ==> rest == [] || (rest[0] != 'x' && rest[0] != 'X')
    ensures ParseUnsigned(NatToString(n) + rest) == Some(n)
  {
    var digits := NatToString(n);
    var u := digits + rest;
    if n < 10 && rest != [] {
      assert u[1] == rest[0];
    }
    assert !HasHexPrefix(u);
    LeadingDigitsOfDigitsPrefix(digits, rest);
    NatToStringRoundTrip(n);
  }

  /** A number's decimal text, followed by anything that does not continue
      it, parses as that number: `parseInt` keeps the leading digits and
      ignores the rest, as in "17e5" giving 17. */
  lemma ParseIntDecimalPrefix(n: nat, rest: string)
    requires rest == [] || !IsDecimalDigit(rest[0])
    requires n == 0 ==> rest == [] || (rest[0] != 'x' && rest[0] != 'X')
    ensures ParseInt(NatToString(n) + rest) == Some(n)
  {
    ParseUnsignedDecimalPrefix(n, rest);
    FirstDigit(n, rest);
    ParseIntUnsigned(NatToString(n) + rest);
  }

  /** The same with a '+' in front, which changes nothing. */
  lemma ParseIntPlusPrefix(n: nat, rest: string)
    requires rest == [] || !IsDecimalDigit(rest[0])
    requires n == 0 ==> rest == [] || (rest[0] != 'x' && rest[0] != 'X')
    ensures ParseInt("+" + NatToString(n) + rest) == Some(n)
  {
    ParseUnsignedDecimalPrefix(n, rest);
    FirstDigit(n, rest);
    ParseIntExplicitPlus(NatToString(n) + rest);
    Assoc("+", NatToString(n), rest);
  }

  /** The same with a '-' in front, which negates the number. */
  lemma ParseIntMinusPrefix(n: nat, rest: string)
    requires rest == [] || !IsDecimalDigit(rest[0])
    requires n == 0 ==> rest == [] || (rest[0] != 'x' && rest[0] != 'X')
    ensures ParseInt("-" + NatToString(n) + rest) == Some(-(n as int))
  {
    ParseUnsignedDecimalPrefix(n, rest);
    FirstDigit(n, rest);
    ParseIntNegative(NatToString(n) + rest, n);
    Assoc("-", NatToString(n), rest);
  }

  /** Concatenation regrouped, stated once so the solver need not search for it. */
  lemma Assoc(a: string, b: string, c: string)
    ensures a + b + c == a + (b + c)
  {
  }

  /** A number's text starts with a digit, whatever follows it. */
  lemma FirstDigit(n: nat, rest: string)
    ensures IsDecimalDigit((NatToString(n) + rest)[0])
  {
    var r := NatToString(n);
    assert IsRadixDigit(r[0], 10);
  }

  /** Text that starts with a digit is read unsigned. */
  lemma ParseIntUnsigned(u: string)
    requires u != [] && IsDecimalDigit(u[0])
    ensures ParseInt(u) == Widen(ParseUnsigned(u))
  {
    NotWhiteSpace(u[0]);
    DigitIsNotSign(u[0]);
  }

  /** A '+' in front of a digit changes nothing. */
  lemma ParseIntExplicitPlus(u: string)
    requires u != [] && IsDecimalDigit(u[0])
    ensures ParseInt("+" + u) == Widen(ParseUnsigned(u))
  {
    NotWhiteSpace('+');
    assert ("+" + u)[1..] == u;
  }

  /** A '-' in front of a digit negates the unsigned reading. */
  lemma ParseIntNegative(u: string, v: nat)
    requires u != [] && IsDecimalDigit(u[0])
    requires ParseUnsigned(u) == Some(v)
    ensures ParseInt("-" + u) == Some(-(v as int))
  {
    NotWhiteSpace('-');
    assert ("-" + u)[1..] == u;
  }

  /** Digits and signs are not white space. */
  lemma NotWhiteSpace(c: char)
    requires IsDecimalDigit(c) || c == '-' || c == '+'
    ensures !IsStrWhiteSpace(c)
  {
  }

  lemma DigitIsNotSign(c: char)
    requires IsDecimalDigit(c)
    ensures c != '-' && c != '+'
  {
  }

  /** The leading-digits run of `digits + rest` is `digits` when `rest` does
      not start with a digit. */
  lemma {:induction false} LeadingDigitsOfDigitsPrefix(digits: string, rest: string)
    requires AllDigits(digits, 10)
    requires rest == [] || !IsDecimalDigit(rest[0])
    ensures LeadingDigits(digits + rest, 10) == digits
  {
    if digits != [] {
      assert (digits + rest)[1..] == digits[1..] + rest;
      LeadingDigitsOfDigitsPrefix(digits[1..], rest);
    } else {
      assert digits + rest == rest;
    }
  }

  /** Text whose first character is neither white space, a sign nor a
      decimal digit parses as NaN. */
  lemma ParseIntNoLeadingDigit(s: string)
    requires s == [] || !(IsStrWhiteSpace(s[0]) || s[0] == '+' || s[0] == '-' || IsDecimalDigit(s[0]))
    ensures ParseInt(s) == None
  {
    assert TrimStart(s) == s;
  }

  /** "17e5" parses as 17: the exponent is not part of the digit run. */
  lemma ParseIntExponentIgnored()
    ensures ParseInt("17e5") == Some(17)
  {
    assert NatToString(17) == "17";
    ParseIntDecimalPrefix(17, "e5");
    assert "17e5" == NatToString(17) + "e5";
  }

  /** A ten-digit epoch value parses as itself. */
  lemma ParseIntEpochSeconds()
    ensures ParseInt("1700000000") == Some(1700000000)
  {
    NatToStringTenDigits();
    ParseIntDecimalPrefix(1700000000, "");
    assert "1700000000" == NatToString(1700000000) + "";
  }

  lemma NatToStringTenDigits()
    ensures NatToString(1700000000) == "1700000000"
  {
    assert NatToString(17) == "17";
    assert NatToString(170) == "170";
    assert NatToString(1700) == "1700";
    assert NatToString(17000) == "17000";
    assert NatToString(170000) == "170000";
    assert NatToString(1700000) == "1700000";
    assert NatToString(17000000) == "17000000";
    assert NatToString(170000000) == "170000000";
  }

  /** A negative number. */
  lemma ParseIntNegativeExample()
    ensures ParseInt("-42") == Some(-42)
  {
    assert NatToString(42) + "" == "42";
    ParseUnsignedDecimalPrefix(42, "");
    ParseIntNegative("42", 42);
    assert "-42" == "-" + "42";
  }

  /** Text with no digits at all is NaN. */
  lemma ParseIntNaN()
    ensures ParseInt("abc") == None
    ensures ParseInt("") == None
  {
    ParseIntNoLeadingDigit("abc");
    ParseIntNoLeadingDigit("");
  }
}
