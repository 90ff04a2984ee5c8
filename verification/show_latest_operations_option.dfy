/** The `--latest` option (`ShowLatestOperationsOption`): either a count of
    operations (`50`) or a time span `N` followed by `s`, `m` or `h`,
    converted to seconds. */
module ShowLatestOperationsOption {
  import opened Results
  import opened Text
  import opened Numbers

  const MinuteInSeconds: nat := 60
  const HourInSeconds: nat := 3600

  /** The exceptions `create` can throw. */
  datatype Error = InvalidLatestOp | NumberFormat

  /** `raw` is the option text as given; `value` a count or a number of
      seconds, as `isTime` says. */
  datatype ShowLatestOperationsOption = ShowLatestOperationsOption(raw: string, isTime: bool, value: int)

  predicate IsTimeSuffix(c: char)
  {
    c == 's' || c == 'm' || c == 'h'
  }

  /** `^\d+(s|m|h){1}$`: one or more ASCII digits and one unit letter. */
  predicate MatchesTimePattern(t: string)
  {
    |t| >= 2 && AllDigits(t[..|t| - 1]) && IsTimeSuffix(t[|t| - 1])
  }

  /** `isValid`: the trimmed text matches the pattern. */
  predicate IsValid(raw: string)
  {
    MatchesTimePattern(Trim(raw))
  }

  /** Seconds per unit letter. */
  function Multiplier(c: char): nat
  {
    if c == 'h' then HourInSeconds else if c == 'm' then MinuteInSeconds else 1
  }

  /** `create`. A numeric input is a count parsed as a short. Anything else
      must match the pattern once trimmed; the multiplier comes from
      whether the input contains `m` or `h`, and the number is the input
      minus its last character, parsed as a short. */
  function Create(input: string): (r: Result<ShowLatestOperationsOption, Error>)
    ensures r.Success? ==> r.value.raw == input
    ensures IsNumeric(input) ==>
      && (r.Success? <==> DigitsValue(input) <= ShortMax)
      && (r.Success? ==> !r.value.isTime && r.value.value == DigitsValue(input))
    ensures !IsNumeric(input) && !IsValid(input) ==> r == Failure(InvalidLatestOp)
    ensures !IsNumeric(input) && r.Success? ==> r.value.isTime
    ensures r.Success? ==> 0 <= r.value.value <= ShortMax * HourInSeconds
  {
    if IsNumeric(input) then
      match ParseShort(input)
      case None => Failure(NumberFormat)
      case Some(n) => Success(ShowLatestOperationsOption(input, false, n))
    else if !IsValid(input) then Failure(InvalidLatestOp)
    else
      var minutesMultiplier := if 'm' in input then MinuteInSeconds else 1;
      var hoursMultiplier := if 'h' in input then HourInSeconds else 1;
      assert |input| > 0 by { assert |Trim(input)| <= |input|; }
      match ParseShort(input[..|input| - 1])
      case None => Failure(NumberFormat)
      case Some(n) =>
        assert n >= 0 by { UnsignedParse(input[..|input| - 1], input); }
        assert minutesMultiplier * hoursMultiplier <= HourInSeconds by {
          OneUnitLetter(input);
        }
        Success(ShowLatestOperationsOption(input, true, n * minutesMultiplier * hoursMultiplier))
  }

  /** Whatever the input, a parsed number in the suffixed branch is
      non-negative: the trimmed input starts with a digit, so the untrimmed
      input starts with a digit or a blank, never with a sign. */
  lemma UnsignedParse(prefix: string, input: string)
    requires IsValid(input) && |input| > 0 && prefix == input[..|input| - 1]
    ensures ParseShort(prefix).Some? ==> ParseShort(prefix).value >= 0
  {
    var a := LeadingTrimmed(input);
    var t := Trim(input);
    assert |t| >= 2 && IsDigit(t[0]);
    assert input[a] == t[0];
    assert a == 0 ==> input[0] == t[0];
    assert a > 0 ==> IsTrimmed(input[0]);
    assert prefix[0] == input[0];
    assert prefix[0] != '-' && prefix[0] != '+';
  }

  /** In a text matching the pattern once trimmed, `m` and `h` can only be
      the unit letter, at the end of the trimmed part; so at most one of
      them occurs. */
  lemma OneUnitLetter(input: string)
    requires IsValid(input)
    ensures forall i :: 0 <= i < |input| && (input[i] == 'm' || input[i] == 'h') ==>
      i == LeadingTrimmed(input) + |Trim(input)| - 1
    ensures !('m' in input && 'h' in input)
  {
    var a := LeadingTrimmed(input);
    var t := Trim(input);
    var last := a + |t| - 1;
    assert forall k :: 0 <= k < |t| - 1 ==> IsDigit(t[k]) by {
      forall k | 0 <= k < |t| - 1
        ensures IsDigit(t[k])
      {
        assert t[..|t| - 1][k] == t[k];
      }
    }
    forall i | 0 <= i < |input| && (input[i] == 'm' || input[i] == 'h')
      ensures i == last
    {
      assert !IsTrimmed(input[i]);
      assert a <= i < a + |t|;
      assert t[i - a] == input[i];
      assert !IsDigit(t[i - a]);
    }
    assert 'm' in input ==> input[last] == 'm';
    assert 'h' in input ==> input[last] == 'h';
  }

  /** A bare unit-suffixed number is accepted exactly when the number fits a
      short, and then yields the number times the unit's seconds. */
  lemma CreateSuffixed(digits: string, unit: char)
    requires IsNumeric(digits) && IsTimeSuffix(unit)
    ensures var r := Create(digits + [unit]);
      && (r.Success? <==> DigitsValue(digits) <= ShortMax)
      && (r.Success? ==> r.value == ShowLatestOperationsOption(digits + [unit], true, DigitsValue(digits) * Multiplier(unit)))
  {
    var input := digits + [unit];
    assert !IsNumeric(input) by { assert !IsDigit(input[|input| - 1]); }
    assert LeadingTrimmed(input) == 0 by { assert !IsTrimmed(input[0]); }
    assert Trim(input) == input by {
      assert !IsTrimmed(input[|input| - 1]);
      KeptEndWhole(input);
    }
    assert input[..|input| - 1] == digits;
    assert ('m' in input <==> unit == 'm') && ('h' in input <==> unit == 'h') by {
      forall i | 0 <= i < |digits| ensures input[i] == digits[i] && IsDigit(input[i]) { }
    }
  }

  lemma KeptEndWhole(s: string)
    requires |s| > 0 && !IsTrimmed(s[|s| - 1])
    ensures KeptEnd(s, 0) == |s|
  {
  }

  /** A number too large for a short is a `NumberFormatException` in both
      forms. */
  lemma CreateTooLarge(digits: string, unit: char)
    requires IsNumeric(digits) && DigitsValue(digits) > ShortMax && IsTimeSuffix(unit)
    ensures Create(digits) == Failure(NumberFormat)
    ensures Create(digits + [unit]) == Failure(NumberFormat)
  {
    CreateSuffixed(digits, unit);
  }

  /** `2h` is 7200 seconds. */
  lemma CreateTwoHours(input: string)
    requires input == "2h"
    ensures Create(input) == Success(ShowLatestOperationsOption(input, true, 7200))
  {
    assert input == "2" + ['h'];
    assert DigitsValue("2") == 2 by { assert "2"[..0] == []; }
    CreateSuffixed("2", 'h');
  }

  /** `50` is a count of 50 operations. */
  lemma CreateCount(input: string)
    requires input == "50"
    ensures Create(input) == Success(ShowLatestOperationsOption(input, false, 50))
  {
    assert input[..1] == "5";
    assert DigitsValue("5") == 5 by { assert "5"[..0] == []; }
    assert DigitValue(input[1]) == 0;
    assert DigitsValue(input) == 50;
  }

  /** The pattern is checked on the trimmed text but the number is parsed
      from the untrimmed one, so any input that passes validation only
      once blanks are trimmed ends in a `NumberFormatException`: a leading
      blank starts the parsed text, and with trailing blanks the unit
      letter stays inside it. */
  lemma PaddedInputRejected(input: string)
    requires IsValid(input) && Trim(input) != input
    ensures Create(input) == Failure(NumberFormat)
  {
    var a := LeadingTrimmed(input);
    var t := Trim(input);
    var unitAt := a + |t| - 1;
    assert input[unitAt] == t[|t| - 1];
    assert !IsNumeric(input) by { assert !IsDigit(input[unitAt]); }
    var prefix := input[..|input| - 1];
    if a > 0 {
      assert IsTrimmed(prefix[0]);
      assert !IsNumeric(prefix) by { assert !IsDigit(prefix[0]); }
    } else {
      assert input[..|input|] == input;
      assert |t| < |input|;
      assert prefix[unitAt] == t[|t| - 1];
      assert prefix[0] == t[0];
      assert !IsNumeric(prefix) by { assert !IsDigit(prefix[unitAt]); }
    }
    assert ParseShort(prefix) == None;
  }

  /** ` 5m`, a five-minute span with a leading blank, is one such input. */
  lemma PaddedFiveMinutes(input: string)
    requires input == " 5m"
    ensures IsValid(input) && Trim(input) != input
  {
    assert LeadingTrimmed(input) == 1 by {
      assert input[1..] == "5m";
      assert LeadingTrimmed(input[1..]) == 0;
    }
    assert KeptEnd(input, 1) == 3;
    assert Trim(input) == "5m" by { assert input[1..3] == "5m"; }
    assert "5m"[..1] == "5";
  }
}
