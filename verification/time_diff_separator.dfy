/** The separator printed between two frames that are far apart in time
    (`TimeDiffSeparator`): the elapsed time written as days, hours,
    minutes, seconds and milliseconds, centred between rows that each hold
    a single dot. Timestamps are integer milliseconds. */
module TimeDiffSeparator {
  import opened Results
  import opened Text
  import opened Numbers

  const DefaultTimeDiffSepMinVal: nat := 5000
  const InternalPaddingLength: nat := 2
  const Padding: char := ' '
  const Dot: char := '.'
  const NewLine: char := '\n'
  const SecondsSymbol: string := "s"

  const MillisPerSecond: nat := 1_000
  const MillisPerMinute: nat := 60_000
  const MillisPerHour: nat := 3_600_000
  const MillisPerDay: nat := 86_400_000

  /** The unit symbols and the space after each part; only the seconds
      symbol is fixed, the others are given. */
  datatype Symbols = Symbols(days: string, hours: string, minutes: string, millis: string, space: string)

  datatype Parts = Parts(days: nat, hours: nat, minutes: nat, seconds: nat, millis: nat)

  function Total(p: Parts): nat
  {
    p.days * MillisPerDay + p.hours * MillisPerHour + p.minutes * MillisPerMinute
      + p.seconds * MillisPerSecond + p.millis
  }

  predicate InRange(p: Parts)
  {
    p.hours < 24 && p.minutes < 60 && p.seconds < 60 && p.millis < 1000
  }

  /** The `TimeUnit` conversions of `getTimeFormattedDiff`: whole days,
      then whole hours of what is left, and so on. */
  function Decompose(ms: nat): (p: Parts)
    ensures InRange(p)
    ensures Total(p) == ms
  {
    var days := ms / MillisPerDay;
    var afterDays := ms - days * MillisPerDay;
    var hours := afterDays / MillisPerHour;
    var afterHours := afterDays - hours * MillisPerHour;
    var minutes := afterHours / MillisPerMinute;
    var afterMinutes := afterHours - minutes * MillisPerMinute;
    var seconds := afterMinutes / MillisPerSecond;
    Parts(days, hours, minutes, seconds, afterMinutes - seconds * MillisPerSecond)
  }

  /** The decomposition is the only one within range: any in-range parts
      that add up to `ms` are `Decompose(ms)`. */
  lemma DecomposeUnique(ms: nat, p: Parts)
    requires InRange(p) && Total(p) == ms
    ensures p == Decompose(ms)
  {
    var low := p.hours * MillisPerHour + p.minutes * MillisPerMinute + p.seconds * MillisPerSecond + p.millis;
    assert ms == p.days * MillisPerDay + low && low < MillisPerDay;
    assert p.days == ms / MillisPerDay;
    var low2 := p.minutes * MillisPerMinute + p.seconds * MillisPerSecond + p.millis;
    assert low == p.hours * MillisPerHour + low2 && low2 < MillisPerHour;
    assert p.hours == low / MillisPerHour;
    var low3 := p.seconds * MillisPerSecond + p.millis;
    assert p.minutes == low2 / MillisPerMinute;
    assert p.seconds == low3 / MillisPerSecond;
  }

  /** One part of the text: the number and its symbol, then `trailing`;
      nothing when the number is zero. */
  function Part(n: nat, symbol: string, trailing: string): (r: string)
    ensures n == 0 <==> r == []
  {
    if n > 0 then DecimalString(n) + symbol + trailing else []
  }

  /** The text of a decomposition: the non-zero parts from days down to
      milliseconds, each but the last followed by a space. */
  function FormatParts(p: Parts, sym: Symbols): string
  {
    Part(p.days, sym.days, sym.space)
      + Part(p.hours, sym.hours, sym.space)
      + Part(p.minutes, sym.minutes, sym.space)
      + Part(p.seconds, SecondsSymbol, sym.space)
      + Part(p.millis, sym.millis, [])
  }

  /** `getTimeFormattedDiff`. */
  function Format(ms: nat, sym: Symbols): (r: string)
    ensures r == [] <==> ms == 0
  {
    FormatPartsEmptyIff(Decompose(ms), sym);
    FormatParts(Decompose(ms), sym)
  }

  lemma FormatPartsEmptyIff(p: Parts, sym: Symbols)
    ensures FormatParts(p, sym) == [] <==> Total(p) == 0
  {
    var a := Part(p.days, sym.days, sym.space);
    var b := Part(p.hours, sym.hours, sym.space);
    var c := Part(p.minutes, sym.minutes, sym.space);
    var d := Part(p.seconds, SecondsSymbol, sym.space);
    var e := Part(p.millis, sym.millis, []);
    assert FormatParts(p, sym) == a + b + c + d + e;
    assert |FormatParts(p, sym)| == |a| + |b| + |c| + |d| + |e|;
    assert Total(p) == 0 <==> p.days == 0 && p.hours == 0 && p.minutes == 0 && p.seconds == 0 && p.millis == 0;
  }

  /** `s` ends with `t`. */
  predicate EndsWith(s: string, t: string)
  {
    |t| <= |s| && s[|s| - |t|..] == t
  }

  /** The text ends with the smallest non-zero part: its number and unit,
      followed by a space unless that part is the milliseconds; a whole
      number of days is that part alone. */
  lemma FormatEndsWithSmallestPart(ms: nat, sym: Symbols)
    ensures var p := Decompose(ms); var r := Format(ms, sym);
      && (p.millis > 0 ==> EndsWith(r, DecimalString(p.millis) + sym.millis))
      && (p.millis == 0 && p.seconds > 0 ==>
            EndsWith(r, DecimalString(p.seconds) + SecondsSymbol + sym.space))
      && (p.millis == 0 && p.seconds == 0 && p.minutes > 0 ==>
            EndsWith(r, DecimalString(p.minutes) + sym.minutes + sym.space))
      && (p.millis == 0 && p.seconds == 0 && p.minutes == 0 && p.hours > 0 ==>
            EndsWith(r, DecimalString(p.hours) + sym.hours + sym.space))
      && (p.millis == 0 && p.seconds == 0 && p.minutes == 0 && p.hours == 0 ==>
            r == Part(p.days, sym.days, sym.space))
  {
    var p := Decompose(ms);
    var a := Part(p.days, sym.days, sym.space);
    var b := Part(p.hours, sym.hours, sym.space);
    var c := Part(p.minutes, sym.minutes, sym.space);
    var d := Part(p.seconds, SecondsSymbol, sym.space);
    var e := Part(p.millis, sym.millis, []);
    var r := Format(ms, sym);
    assert r == a + b + c + d + e;
    if p.millis > 0 {
      SuffixEndsWith(a + b + c + d, e);
    } else if p.seconds > 0 {
      assert r == a + b + c + d;
      SuffixEndsWith(a + b + c, d);
    } else if p.minutes > 0 {
      assert r == a + b + c;
      SuffixEndsWith(a + b, c);
    } else if p.hours > 0 {
      assert r == a + b;
      SuffixEndsWith(a, b);
    } else {
      assert r == a;
    }
  }

  lemma SuffixEndsWith(s: string, t: string)
    ensures EndsWith(s + t, t)
  {
    assert (s + t)[|s|..] == t;
  }

  /** Below one second only the milliseconds are written. */
  lemma FormatMillisOnly(ms: nat, sym: Symbols)
    requires 0 < ms < MillisPerSecond
    ensures Format(ms, sym) == DecimalString(ms) + sym.millis
  {
    var p := Decompose(ms);
    DecomposeUnique(ms, Parts(0, 0, 0, 0, ms));
  }

  /** `create`: no separator before the first frame; otherwise one exactly
      when the elapsed milliseconds exceed the threshold, which is the
      configured value or 5000. */
  function Create(last: Option<int>, current: int, configured: Option<nat>, sym: Symbols): (r: Option<string>)
    ensures last.None? ==> r.None?
    ensures last.Some? ==>
      (r.Some? <==> current - last.value > configured.GetOr(DefaultTimeDiffSepMinVal))
    ensures r.Some? ==> last.Some? && r.value == Format(current - last.value, sym)
  {
    if last.Some? && current - last.value > configured.GetOr(DefaultTimeDiffSepMinVal)
    then Some(Format(current - last.value, sym))
    else None
  }

  /** A separator never has an empty time text. */
  lemma CreateNonEmpty(last: Option<int>, current: int, configured: Option<nat>, sym: Symbols)
    ensures var r := Create(last, current, configured, sym);
      r.Some? ==> r.value != []
  {
  }

  /** `createInternalPadding`: spaces with one dot at the middle position
      `floor((|timeDiff| + 4) / 2)`, as wide as the time-diff row. */
  function InternalPadding(timeDiff: string): (r: string)
    ensures |r| == |timeDiff| + 2 * InternalPaddingLength
    ensures r[(|timeDiff| + 2 * InternalPaddingLength) / 2] == Dot
    ensures forall i :: 0 <= i < |r| && i != (|timeDiff| + 2 * InternalPaddingLength) / 2 ==> r[i] == Padding
  {
    var total := |timeDiff| + InternalPaddingLength * 2;
    var dotPosition := total / 2;
    Repeat(Padding, dotPosition) + [Dot] + Repeat(Padding, total - dotPosition - 1)
  }

  /** The padding row holds exactly one dot. */
  lemma InternalPaddingOneDot(timeDiff: string)
    ensures CountChar(InternalPadding(timeDiff), Dot) == 1
  {
    var total := |timeDiff| + InternalPaddingLength * 2;
    var dotPosition := total / 2;
    CountRepeat(Padding, dotPosition, Dot);
    CountRepeat(Padding, total - dotPosition - 1, Dot);
    CountCharAppend(Repeat(Padding, dotPosition), [Dot], Dot);
    CountCharAppend(Repeat(Padding, dotPosition) + [Dot], Repeat(Padding, total - dotPosition - 1), Dot);
  }

  lemma {:induction false} CountRepeat(c: char, n: nat, d: char)
    ensures CountChar(Repeat(c, n), d) == if c == d then n else 0
    decreases n
  {
    if n > 0 {
      assert Repeat(c, n)[1..] == Repeat(c, n - 1);
      CountRepeat(c, n - 1, d);
    }
  }

  /** `createSeparatorRow`. */
  function SeparatorRow(timeDiff: string): string
  {
    InternalPadding(timeDiff) + [NewLine]
  }

  /** `createTimeDiffRow`: the time text with two spaces on each side. */
  function TimeDiffRow(timeDiff: string): (r: string)
    ensures |r| == |SeparatorRow(timeDiff)|
    ensures r[..InternalPaddingLength] == Repeat(Padding, InternalPaddingLength)
    ensures r[InternalPaddingLength..InternalPaddingLength + |timeDiff|] == timeDiff
    ensures r[InternalPaddingLength + |timeDiff|..|r| - 1] == Repeat(Padding, InternalPaddingLength)
    ensures r[|r| - 1] == NewLine
  {
    var pad := Repeat(Padding, InternalPaddingLength);
    var r := pad + timeDiff + pad + [NewLine];
    assert r[..InternalPaddingLength] == pad;
    assert r[InternalPaddingLength..InternalPaddingLength + |timeDiff|] == timeDiff;
    assert r[InternalPaddingLength + |timeDiff|..|r| - 1] == pad;
    r
  }

  /** The seven lines of `toString`: three separator rows, the time-diff
      row, three separator rows. */
  function Lines(timeDiff: string): (lines: seq<string>)
    ensures |lines| == 7
    ensures forall k :: 0 <= k < 7 ==> |lines[k]| == |timeDiff| + 2 * InternalPaddingLength + 1
  {
    var row := SeparatorRow(timeDiff);
    [row, row, row, TimeDiffRow(timeDiff), row, row, row]
  }

  /** `toString`. */
  function ToString(timeDiff: string): string
  {
    Concat(Lines(timeDiff))
  }

  /** The separator is seven lines of equal width; the fourth carries the
      time text, the others a single centred dot. */
  lemma ToStringLines(timeDiff: string, k: nat)
    requires k < 7
    ensures var w := |timeDiff| + 2 * InternalPaddingLength + 1;
      && |ToString(timeDiff)| == 7 * w
      && ToString(timeDiff)[k * w..(k + 1) * w]
         == if k == 3 then TimeDiffRow(timeDiff) else SeparatorRow(timeDiff)
  {
    ConcatSlice(Lines(timeDiff), |timeDiff| + 2 * InternalPaddingLength + 1, k);
  }
}
