/** Decimal text: `std::to_wstring` of an unsigned value, as used for action
    ids and for the CLSID hash, and `wcstol(s, nullptr, 10)` as used by the
    legacy activation handler, with Windows' 32-bit `long`. */
module Numbers {

  predicate IsDigit(c: char) {
    '0' <= c <= '9'
  }

  predicate AllDigits(s: string) {
    forall i :: 0 <= i < |s| ==> IsDigit(s[i])
  }

  function DigitValue(c: char): (r: nat)
    requires IsDigit(c)
    ensures r < 10
  {
    c as int - '0' as int
  }

  function DigitChar(d: nat): (c: char)
    requires d < 10
    ensures IsDigit(c) && DigitValue(c) == d
  {
    ('0' as int + d) as char
  }

  function Pow10(k: nat): (r: nat)
    ensures r >= 1
  {
    if k == 0 then 1 else 10 * Pow10(k - 1)
  }

  /** `std::to_wstring(n)` for an unsigned `n`: its digits, most significant
      first, with no leading zero. */
  function DecimalString(n: nat): (r: string)
    ensures |r| >= 1 && AllDigits(r)
    ensures r[0] == '0' ==> n == 0
    decreases n
  {
    if n < 10 then [DigitChar(n)] else DecimalString(n / 10) + [DigitChar(n % 10)]
  }

  /** The number a string of digits denotes. */
  function ValueOf(s: string): nat
    requires AllDigits(s)
  {
    if |s| == 0 then 0 else ValueOf(s[..|s| - 1]) * 10 + DigitValue(s[|s| - 1])
  }

  /** Reading a decimal string back gives the number. */
  lemma {:induction false} ValueOfDecimal(n: nat)
    ensures ValueOf(DecimalString(n)) == n
    decreases n
  {
    if n >= 10 {
      ValueOfDecimal(n / 10);
      var s := DecimalString(n);
      assert s[..|s| - 1] == DecimalString(n / 10);
    }
  }

  /** A number below `10^k` has at most `k` digits; an unsigned 64-bit value
      therefore has at most 20. */
  lemma {:induction false} DecimalLength(n: nat, k: nat)
    requires 1 <= k && n < Pow10(k)
    ensures |DecimalString(n)| <= k
    decreases k
  {
    if n >= 10 {
      assert k >= 2;
      DecimalLength(n / 10, k - 1);
    }
  }

  lemma {:induction false} Pow10Add(a: nat, b: nat)
    ensures Pow10(a + b) == Pow10(a) * Pow10(b)
    decreases a
  {
    if a > 0 {
      Pow10Add(a - 1, b);
    }
  }

  lemma DecimalLength64(n: nat)
    requires n < 0x1_0000_0000_0000_0000
    ensures |DecimalString(n)| <= 20
  {
    Pow10Add(10, 10);
    Pow10Add(5, 5);
    assert Pow10(5) == 100000;
    DecimalLength(n, 20);
  }

  /* `%x` and `%02x`, as used by the short-name GUID. */

  predicate IsHexDigit(c: char) {
    IsDigit(c) || 'a' <= c <= 'f'
  }

  function HexDigitValue(c: char): (r: nat)
    requires IsHexDigit(c)
    ensures r < 16
  {
    if IsDigit(c) then DigitValue(c) else c as int - 'a' as int + 10
  }

  /** A lower-case hexadecimal digit. */
  function HexDigitChar(d: nat): (c: char)
    requires d < 16
    ensures IsHexDigit(c) && HexDigitValue(c) == d
  {
    if d < 10 then DigitChar(d) else ('a' as int + d - 10) as char
  }

  /** `%x` of an unsigned value: its lower-case digits, most significant
      first, with no leading zero. One digit below 16, at most two below
      256. */
  function HexString(n: nat): (r: string)
    ensures |r| >= 1 && forall i :: 0 <= i < |r| ==> IsHexDigit(r[i])
    ensures n < 16 <==> |r| == 1
    ensures n < 256 <==> |r| <= 2
    decreases n
  {
    if n < 16 then [HexDigitChar(n)] else HexString(n / 16) + [HexDigitChar(n % 16)]
  }

  /** `%02x`: the digits of `%x`, padded with `'0'` to at least two. Exactly
      two for a value below 256. */
  function Hex02(n: nat): (r: string)
    ensures |r| >= 2 && forall i :: 0 <= i < |r| ==> IsHexDigit(r[i])
    ensures n < 256 <==> |r| == 2
  {
    if n < 16 then ['0'] + HexString(n) else HexString(n)
  }

  /** The number a string of hexadecimal digits denotes. */
  function HexValueOf(s: string): nat
    requires forall i :: 0 <= i < |s| ==> IsHexDigit(s[i])
  {
    if |s| == 0 then 0 else HexValueOf(s[..|s| - 1]) * 16 + HexDigitValue(s[|s| - 1])
  }

  /** Reading `%x` back gives the number. */
  lemma {:induction false} HexValueOfHexString(n: nat)
    ensures HexValueOf(HexString(n)) == n
    decreases n
  {
    if n >= 16 {
      HexValueOfHexString(n / 16);
      var s := HexString(n);
      assert s[..|s| - 1] == HexString(n / 16);
    }
  }

  /** Reading `%02x` back gives the number: the padding is a leading zero. */
  lemma HexValueOfHex02(n: nat)
    ensures HexValueOf(Hex02(n)) == n
  {
    HexValueOfHexString(n);
    if n < 16 {
      var s := Hex02(n);
      assert s[..1] == "0";
    }
  }

  /* `wcstol(s, nullptr, 10)` with a 32-bit `long`. */

  const LongMax: int := 0x7FFF_FFFF
  const LongMin: int := -0x8000_0000

  /** `iswspace` for the characters the C locale counts as white space. */
  predicate IsSpace(c: char) {
    c == ' ' || c == '\t' || c == '\n' || c == '\r' || c as int == 11 || c as int == 12
  }

  function SkipSpaces(s: string): (r: string)
    ensures |r| <= |s| && r == s[|s| - |r|..]
    ensures |r| > 0 ==> !IsSpace(r[0])
  {
    if |s| > 0 && IsSpace(s[0]) then SkipSpaces(s[1..]) else s
  }

  /** The longest prefix of digits. */
  function LeadingDigits(s: string): (r: string)
    ensures |r| <= |s| && r == s[..|r|] && AllDigits(r)
    ensures |r| < |s| ==> !IsDigit(s[|r|])
  {
    if |s| > 0 && IsDigit(s[0]) then [s[0]] + LeadingDigits(s[1..]) else []
  }

  /** Out-of-range values saturate at `LONG_MIN` / `LONG_MAX`. */
  function ClampLong(v: int): (r: int)
    ensures LongMin <= r <= LongMax
    ensures LongMin <= v <= LongMax ==> r == v
    ensures v > LongMax ==> r == LongMax
    ensures v < LongMin ==> r == LongMin
  {
    if v > LongMax then LongMax else if v < LongMin then LongMin else v
  }

  /** `wcstol`: white space, an optional sign, then as many digits as there
      are; no digits at all gives 0. */
  function Wcstol(s: string): (r: int)
    ensures LongMin <= r <= LongMax
  {
    var t := SkipSpaces(s);
    if |t| > 0 && (t[0] == '-' || t[0] == '+') then
      var v: int := ValueOf(LeadingDigits(t[1..]));
      ClampLong(if t[0] == '-' then -v else v)
    else
      ClampLong(ValueOf(LeadingDigits(t)))
  }

  lemma {:induction false} LeadingDigitsAll(s: string)
    requires AllDigits(s)
    ensures LeadingDigits(s) == s
  {
    if |s| > 0 {
      LeadingDigitsAll(s[1..]);
      assert s == [s[0]] + s[1..];
    }
  }

  /** `wcstol` reads back what `to_wstring` wrote, for every value a `long`
      can hold. */
  lemma WcstolDecimal(n: nat)
    requires n <= LongMax
    ensures Wcstol(DecimalString(n)) == n
  {
    var s := DecimalString(n);
    assert SkipSpaces(s) == s;
    LeadingDigitsAll(s);
    ValueOfDecimal(n);
  }

  /** `wcstol` reads the decimal text of any natural number as that number
      clamped to a `long`. */
  lemma WcstolDecimalClamps(n: nat)
    ensures Wcstol(DecimalString(n)) == ClampLong(n)
  {
    var s := DecimalString(n);
    assert SkipSpaces(s) == s;
    LeadingDigitsAll(s);
    ValueOfDecimal(n);
  }

  /** A digit string that stops early is read only up to the first
      non-digit. */
  lemma WcstolStopsAtNonDigit(digits: string, rest: string)
    requires |digits| > 0 && AllDigits(digits)
    requires |rest| > 0 && !IsDigit(rest[0])
    ensures Wcstol(digits + rest) == ClampLong(ValueOf(digits))
  {
    var s := digits + rest;
    assert s[0] == digits[0] && IsDigit(s[0]);
    assert SkipSpaces(s) == s;
    LeadingDigitsPrefix(digits, rest);
    assert Wcstol(s) == ClampLong(ValueOf(LeadingDigits(s)));
  }

  lemma {:induction false} LeadingDigitsPrefix(digits: string, rest: string)
    requires AllDigits(digits)
    requires |rest| > 0 && !IsDigit(rest[0])
    ensures LeadingDigits(digits + rest) == digits
  {
    if |digits| == 0 {
      assert digits + rest == rest;
    } else {
      assert (digits + rest)[1..] == digits[1..] + rest;
      LeadingDigitsPrefix(digits[1..], rest);
      assert digits == [digits[0]] + digits[1..];
    }
  }
}
