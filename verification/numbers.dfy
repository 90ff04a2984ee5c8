/** Decimal text and Java's integer parsing (`Integer.parseInt`,
    `Short.parseShort`) over ASCII digits, with the 16- and 32-bit ranges
    written out. */
module Numbers {
  import opened Results

  const ShortMin: int := -0x8000
  const ShortMax: int := 0x7FFF
  const IntMin: int := -0x8000_0000
  const IntMax: int := 0x7FFF_FFFF

  predicate IsDigit(c: char)
  {
    '0' <= c <= '9'
  }

  predicate AllDigits(s: string)
  {
    forall i :: 0 <= i < |s| ==> IsDigit(s[i])
  }

  /** `StringUtils.isNumeric`, a project helper that is not part of this
      model, taken to hold exactly for a non-empty run of ASCII digits. */
  predicate IsNumeric(s: string)
  {
    |s| > 0 && AllDigits(s)
  }

  function DigitValue(c: char): nat
    requires IsDigit(c)
  {
    c as int - '0' as int
  }

  function DigitChar(d: nat): (c: char)
    requires d < 10
    ensures IsDigit(c) && DigitValue(c) == d
  {
    ('0' as int + d) as char
  }

  /** The value of a run of decimal digits, most significant first. */
  function DigitsValue(s: string): nat
    requires AllDigits(s)
  {
    if |s| == 0 then 0 else DigitsValue(s[..|s| - 1]) * 10 + DigitValue(s[|s| - 1])
  }

  /** Java's `String.valueOf(long)` for a non-negative value. */
  function DecimalString(n: nat): (s: string)
    ensures IsNumeric(s)
    ensures DigitsValue(s) == n
  {
    if n < 10 then [DigitChar(n)]
    else
      var prefix := DecimalString(n / 10);
      var s := prefix + [DigitChar(n % 10)];
      assert s[..|s| - 1] == prefix;
      s
  }

  /** Java's `Integer.parseInt(s)` followed by a range check `lo..hi`:
      an optional sign, then one or more ASCII digits, the value within
      range; anything else is a `NumberFormatException` (`None`). */
  function ParseInRange(s: string, lo: int, hi: int): (r: Option<int>)
    ensures r.Some? ==> lo <= r.value <= hi
    ensures IsNumeric(s) ==> (r.Some? <==> DigitsValue(s) <= hi && lo <= DigitsValue(s))
    ensures IsNumeric(s) && r.Some? ==> r.value == DigitsValue(s)
    ensures |s| > 1 && (s[0] == '-' || s[0] == '+') && IsNumeric(s[1..]) ==>
      var v := if s[0] == '-' then 0 - DigitsValue(s[1..]) else DigitsValue(s[1..]);
      r == (if lo <= v <= hi then Some(v) else None)
    ensures r.Some? ==> IsNumeric(s) || (|s| > 1 && (s[0] == '-' || s[0] == '+') && IsNumeric(s[1..]))
    ensures |s| == 0 ==> r.None?
  {
    if |s| == 0 then None
    else
      var negative := s[0] == '-';
      var digits := if s[0] == '-' || s[0] == '+' then s[1..] else s;
      if !IsNumeric(digits) then None
      else
        var n: int := DigitsValue(digits);
        var v := if negative then 0 - n else n;
        if lo <= v <= hi then Some(v) else None
  }

  /** `Integer.parseInt`: a signed or unsigned decimal within the 32-bit
      range. */
  function ParseInt(s: string): (r: Option<int>)
    ensures r.Some? ==> IntMin <= r.value <= IntMax
    ensures IsNumeric(s) ==> (r.Some? <==> DigitsValue(s) <= IntMax)
    ensures IsNumeric(s) && r.Some? ==> r.value == DigitsValue(s)
  {
    ParseInRange(s, IntMin, IntMax)
  }

  /** `Short.parseShort`: parsed as an int, then rejected outside the 16-bit
      range. */
  function ParseShort(s: string): (r: Option<int>)
    ensures r.Some? ==> ShortMin <= r.value <= ShortMax
    ensures IsNumeric(s) ==> (r.Some? <==> DigitsValue(s) <= ShortMax)
    ensures IsNumeric(s) && r.Some? ==> r.value == DigitsValue(s)
    ensures r.Some? ==> ParseInt(s) == r
  {
    ParseInRange(s, ShortMin, ShortMax)
  }

  /** Decimal printing and parsing are inverse on the non-negative 32-bit range. */
  lemma ParseDecimal(n: nat)
    requires n <= IntMax
    ensures ParseInt(DecimalString(n)) == Some(n)
    ensures n <= ShortMax ==> ParseShort(DecimalString(n)) == Some(n)
  {
  }

  /** A minus sign reaches one further than a plus: `-32768` is a short,
      `32768` is not. */
  lemma ParseShortSigned(digits: string)
    requires IsNumeric(digits)
    ensures ParseShort("-" + digits).Some? <==> DigitsValue(digits) <= ShortMax + 1
    ensures ParseShort("+" + digits).Some? <==> DigitsValue(digits) <= ShortMax
  {
    assert ("-" + digits)[1..] == digits;
    assert ("+" + digits)[1..] == digits;
  }

  /** A numeric text with no leading zero is the printed form of its own
      value; with `DecimalString` always numeric, these are exactly the
      printed numbers. */
  lemma {:induction false} CanonicalNumericIsPrinted(s: string)
    requires IsNumeric(s) && (s[0] != '0' || |s| == 1)
    ensures DecimalString(DigitsValue(s)) == s
    decreases |s|
  {
    var n := DigitsValue(s);
    if |s| == 1 {
      assert s[..0] == [];
      assert DigitChar(DigitValue(s[0])) == s[0];
    } else {
      var prefix := s[..|s| - 1];
      var d := DigitValue(s[|s| - 1]);
      assert prefix[0] == s[0];
      PositiveValue(prefix);
      assert n / 10 == DigitsValue(prefix) && n % 10 == d;
      CanonicalNumericIsPrinted(prefix);
      assert DigitChar(d) == s[|s| - 1];
      assert prefix + [s[|s| - 1]] == s;
    }
  }

  /** Digits that do not start with a zero have a positive value. */
  lemma {:induction false} PositiveValue(s: string)
    requires IsNumeric(s) && s[0] != '0'
    ensures DigitsValue(s) >= 1
    decreases |s|
  {
    if |s| > 1 {
      var prefix := s[..|s| - 1];
      assert prefix[0] == s[0];
      PositiveValue(prefix);
    }
  }
}
