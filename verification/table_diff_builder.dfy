/** The diff table (`TableDiffBuilder`): per row of columns, a horizontal
    border, the column headers, the value line(s) the operation shows and a
    closing border. Every cell is the column's width wide: longer values are
    cut to `width - 3` characters plus an ellipsis, shorter ones padded. */
module TableDiffBuilder {
  import opened Results
  import opened Text
  import opened Numbers
  import opened Diff

  const DefaultMaxColLength: nat := 17
  const DefaultMaxRowLength: nat := 120
  const Ellipsis: string := "..."
  const Padding: char := ' '
  const HeaderUnderlinePadding: char := '_'
  const DiffHorizontalBorder: char := '-'
  const NewLine: char := '\n'

  /** The exceptions the modelled code can throw. */
  datatype Error = NumberFormat | StringIndexOutOfBounds

  /** A width option as `getMaxColumnLength`/`getMaxRowLength` read it:
      `null` or empty gives the default, anything else goes through
      `Short.parseShort`. */
  function ShortOption(option: Option<string>, default: nat): (r: Result<int, Error>)
    ensures option.None? || option.value == [] ==> r == Success(default)
    ensures option.Some? && option.value != [] && r.Success? ==> ShortMin <= r.value <= ShortMax
    ensures option.Some? && IsNumeric(option.value) ==>
      (r.Success? <==> DigitsValue(option.value) <= ShortMax)
    ensures option.Some? && IsNumeric(option.value) && r.Success? ==>
      r.value == DigitsValue(option.value)
  {
    if option.None? || option.value == [] then Success(default)
    else
      match ParseShort(option.value)
      case None => Failure(NumberFormat)
      case Some(n) => Success(n)
  }

  /** `getMaxColumnLength`. */
  function MaxColumnLength(option: Option<string>): Result<int, Error>
  {
    ShortOption(option, DefaultMaxColLength)
  }

  /** `getMaxRowLength`. */
  function MaxRowLength(option: Option<string>): Result<int, Error>
  {
    ShortOption(option, DefaultMaxRowLength)
  }

  /** The maximum column length is 17 without the option, and a printed
      number reads back as itself; the row length likewise defaults to 120. */
  lemma MaxLengthOptions(n: nat)
    requires n <= ShortMax
    ensures MaxColumnLength(None) == Success(17) && MaxColumnLength(Some("")) == Success(17)
    ensures MaxRowLength(None) == Success(120) && MaxRowLength(Some("")) == Success(120)
    ensures MaxColumnLength(Some(DecimalString(n))) == Success(n)
    ensures MaxRowLength(Some(DecimalString(n))) == Success(n)
  {
    ParseDecimal(n);
  }

  /** The width of a column's cells: its own maximum length, capped at 17. */
  function Width(c: StateColumn): (w: nat)
    ensures w <= DefaultMaxColLength && w <= c.maxLength
    ensures w == DefaultMaxColLength || w == c.maxLength
  {
    if DefaultMaxColLength < c.maxLength then DefaultMaxColLength else c.maxLength
  }

  /** The value part of a cell and whether the value was cut. A value longer
      than the width keeps its first `w - 3` characters and gets the
      ellipsis, which throws when `w < 3`; a shorter one is padded. */
  function FitValue(value: string, w: nat, padding: char): (r: Result<(string, bool), Error>)
    ensures r.Failure? <==> |value| > w && w < 3
    ensures r.Success? ==> |r.value.0| == w
    ensures r.Success? ==> (r.value.1 <==> |value| > w)
    ensures r.Success? && |value| > w ==>
      r.value.0[..w - 3] == value[..w - 3] && r.value.0[w - 3..] == Ellipsis
    ensures |value| <= w ==>
      && r.Success? && r.value.0[..|value|] == value
      && forall i :: |value| <= i < w ==> r.value.0[i] == padding
  {
    if |value| > w then
      if w < 3 then Failure(StringIndexOutOfBounds)
      else Success((value[..w - 3] + Ellipsis, true))
    else if |value| < w then Success((value + Repeat(padding, w - |value|), false))
    else Success((value, false))
  }

  /** Fitting is idempotent: a fitted value fits its width exactly and is
      emitted unchanged, without being cut. */
  lemma FitValueIdempotent(value: string, w: nat, padding: char)
    ensures var r := FitValue(value, w, padding);
      r.Success? ==> FitValue(r.value.0, w, padding) == Success((r.value.0, false))
  {
  }

  /** Lengths here count characters, where Java counts UTF-16 code units.
      The two agree on text of the Basic Multilingual Plane: there the
      value fails, is cut or is padded exactly as Java's lengths decide. */
  lemma FitValueOnBmp(value: string, w: nat, padding: char)
    requires InBmp(value)
    ensures FitValue(value, w, padding).Failure? <==> Utf16Length(value) > w && w < 3
    ensures FitValue(value, w, padding).Success? ==>
      (FitValue(value, w, padding).value.1 <==> Utf16Length(value) > w)
  {
    Utf16LengthIsCountIff(value);
  }

  /** Outside that plane they part: nine U+1F600 are 18 code units, so Java
      cuts them at width 17, but they are 9 characters, so here they are
      padded and not cut. */
  lemma AstralValuePadded()
    ensures var value := Repeat('\U{1F600}', 9);
      && Utf16Length(value) == 18
      && FitValue(value, 17, ' ') == Success((value + Repeat(' ', 8), false))
  {
    var value := Repeat('\U{1F600}', 9);
    assert forall k :: 0 <= k <= 9 ==> Utf16Length(value[k..]) == 2 * (9 - k) by {
      forall k | 0 <= k <= 9 ensures Utf16Length(value[k..]) == 2 * (9 - k) {
        AstralLength(value, k);
      }
    }
    assert value[0..] == value;
  }

  lemma {:induction false} AstralLength(value: string, k: nat)
    requires k <= |value|
    requires forall i :: 0 <= i < |value| ==> value[i] as int >= 0x1_0000
    ensures Utf16Length(value[k..]) == 2 * (|value| - k)
    decreases |value| - k
  {
    if k < |value| {
      AstralLength(value, k + 1);
      assert value[k..][1..] == value[k + 1..];
    }
  }

  /** The vertical edge of a cell: the opaque diff border, or a space. */
  function Side(c: StateColumn, verticalBorder: string): string
  {
    if c.hasDiff then verticalBorder else [Padding]
  }

  /** Whether appending `value` to column `c` throws. */
  predicate Overflows(c: StateColumn, value: string)
  {
    |value| > Width(c) && Width(c) < 3
  }

  /** Some column of the line overflows on its part of `field`. */
  predicate LineOverflows(cols: seq<StateColumn>, field: Field)
  {
    exists i :: 0 <= i < |cols| && Overflows(cols[i], FieldOf(cols[i], field))
  }

  /** `append`: the cell for `value`, and the column afterwards (only its
      cut flag can change, and only to true). */
  function Cell(c: StateColumn, value: string, padding: char, verticalBorder: string)
    : (r: Result<(string, StateColumn), Error>)
    ensures r.Failure? <==> Overflows(c, value)
    ensures r.Success? ==> r.value.1 == c.(cut := c.cut || |value| > Width(c))
    ensures r.Success? ==> |r.value.0| == Width(c) + 2 + 2 * |Side(c, verticalBorder)|
    ensures r.Success? ==> r.value.0[0] == Padding && r.value.0[|r.value.0| - 1] == Padding
  {
    var fitted :- FitValue(value, Width(c), padding);
    var side := Side(c, verticalBorder);
    var text := [Padding] + side + fitted.0 + side + [Padding];
    Success((text, if fitted.1 then c.(cut := true) else c))
  }

  /** Everything but the cut flag. */
  function Shape(c: StateColumn): StateColumn
  {
    c.(cut := false)
  }

  predicate SameShape(a: seq<StateColumn>, b: seq<StateColumn>)
  {
    |a| == |b| && forall i :: 0 <= i < |a| ==> Shape(a[i]) == Shape(b[i])
  }

  /** Total width of a line of cells with one-character vertical borders. */
  function RowWidth(cols: seq<StateColumn>): nat
  {
    if |cols| == 0 then 0 else Width(cols[0]) + 4 + RowWidth(cols[1..])
  }

  /** One cell of a horizontal border: a space, `width + 2` fillers (dashes
      when the column differs, spaces otherwise), a space. */
  function BorderCell(c: StateColumn): (r: string)
    ensures |r| == Width(c) + 4
    ensures r[0] == Padding && r[|r| - 1] == Padding
    ensures forall i :: 0 < i < |r| - 1 ==>
      r[i] == (if c.hasDiff then DiffHorizontalBorder else Padding)
  {
    var filler := if c.hasDiff then DiffHorizontalBorder else Padding;
    [Padding] + [filler] + Repeat(filler, Width(c)) + [filler] + [Padding]
  }

  /** `addHorizontalBorders`: the border cells, then a newline. */
  function BorderLine(cols: seq<StateColumn>): (r: string)
    ensures |r| == RowWidth(cols) + 1
    ensures r[|r| - 1] == NewLine
  {
    if |cols| == 0 then [NewLine] else BorderCell(cols[0]) + BorderLine(cols[1..])
  }

  /** Which text of a column a line shows. */
  datatype Field = Name | OldValue | NewValue

  function FieldOf(c: StateColumn, field: Field): string
  {
    match field
    case Name => c.name
    case OldValue => c.oldValue
    case NewValue => c.newValue
  }

  /** A line of cells, one per column in order, then a newline; returns the
      columns with their cut flags updated. */
  function Line(cols: seq<StateColumn>, field: Field, padding: char, verticalBorder: string)
    : (r: Result<(string, seq<StateColumn>), Error>)
    ensures r.Failure? <==> LineOverflows(cols, field)
    ensures r.Success? ==> |r.value.1| == |cols|
    ensures r.Success? ==> forall i :: 0 <= i < |cols| ==>
      r.value.1[i] == cols[i].(cut := cols[i].cut || |FieldOf(cols[i], field)| > Width(cols[i]))
    ensures r.Success? && |verticalBorder| == 1 ==> |r.value.0| == RowWidth(cols) + 1
    ensures r.Success? ==> |r.value.0| > 0 && r.value.0[|r.value.0| - 1] == NewLine
  {
    if |cols| == 0 then Success(([NewLine], []))
    else
      var first :- Cell(cols[0], FieldOf(cols[0], field), padding, verticalBorder);
      var rest :- Line(cols[1..], field, padding, verticalBorder);
      assert forall i :: 1 <= i < |cols| ==> cols[1..][i - 1] == cols[i];
      Success((first.0 + rest.0, [first.1] + rest.1))
  }

  /** The header line pads with underscores, the value lines with spaces. */
  function PaddingOf(field: Field): char
  {
    if field == Name then HeaderUnderlinePadding else Padding
  }

  /** The value lines an operation shows: old then new for UPDATE, new for
      INSERT, old for DELETE. */
  function BodyFields(op: Operation): (fields: seq<Field>)
    ensures op == UPDATE ==> fields == [OldValue, NewValue]
    ensures op == INSERT ==> fields == [NewValue]
    ensures op == DELETE ==> fields == [OldValue]
  {
    match op
    case UPDATE => [OldValue, NewValue]
    case INSERT => [NewValue]
    case DELETE => [OldValue]
  }

  /** Lines for `fields` in order, threading the columns through. */
  function Lines(cols: seq<StateColumn>, fields: seq<Field>, verticalBorder: string)
    : Result<(string, seq<StateColumn>), Error>
    decreases |fields|
  {
    if |fields| == 0 then Success(([], cols))
    else
      var first :- Line(cols, fields[0], PaddingOf(fields[0]), verticalBorder);
      var rest :- Lines(first.1, fields[1..], verticalBorder);
      Success((first.0 + rest.0, rest.1))
  }

  /** One state row of `build`: border, headers, the operation's value
      lines, border. */
  function Row(cols: seq<StateColumn>, op: Operation, verticalBorder: string)
    : Result<(string, seq<StateColumn>), Error>
  {
    var body :- Lines(cols, [Name] + BodyFields(op), verticalBorder);
    Success((BorderLine(cols) + body.0 + BorderLine(body.1), body.1))
  }

  /** A drawn row: its text and its columns with updated cut flags. */
  type Drawn = Result<(string, seq<StateColumn>), Error>

  /** A drawn table: its text and every row's updated columns. */
  type Table = Result<(string, seq<seq<StateColumn>>), Error>

  /** The loop of `build` with the row drawing as a parameter: the rows in
      order, stopping at the first that fails. */
  function BuildWith(rows: seq<seq<StateColumn>>, draw: seq<StateColumn> -> Drawn): (r: Table)
    ensures |rows| == 0 ==> r == Success(([], []))
    ensures r.Success? ==> |r.value.1| == |rows|
  {
    if |rows| == 0 then Success(([], []))
    else if draw(rows[0]).Failure? then Failure(draw(rows[0]).error)
    else if BuildWith(rows[1..], draw).Failure? then Failure(BuildWith(rows[1..], draw).error)
    else
      Success((draw(rows[0]).value.0 + BuildWith(rows[1..], draw).value.0,
               [draw(rows[0]).value.1] + BuildWith(rows[1..], draw).value.1))
  }

  function RowDrawer(op: Operation, verticalBorder: string): seq<StateColumn> -> Drawn
  {
    cols => Row(cols, op, verticalBorder)
  }

  /** `build`: the rows in order. */
  function Build(rows: seq<seq<StateColumn>>, op: Operation, verticalBorder: string): (r: Table)
    ensures |rows| == 0 ==> r == Success(([], []))
    ensures r.Success? ==> |r.value.1| == |rows|
  {
    BuildWith(rows, RowDrawer(op, verticalBorder))
  }

  // ---- The cut flags never change what is drawn.

  lemma {:induction false} RowWidthShape(a: seq<StateColumn>, b: seq<StateColumn>)
    requires SameShape(a, b)
    ensures RowWidth(a) == RowWidth(b)
    decreases |a|
  {
    if |a| > 0 {
      assert Width(a[0]) == Width(b[0]) by { assert Shape(a[0]) == Shape(b[0]); }
      RowWidthShape(a[1..], b[1..]);
    }
  }

  /** The top and bottom borders of a row agree whatever was cut between. */
  lemma {:induction false} BorderLineShape(a: seq<StateColumn>, b: seq<StateColumn>)
    requires SameShape(a, b)
    ensures BorderLine(a) == BorderLine(b)
    decreases |a|
  {
    if |a| > 0 {
      assert BorderCell(a[0]) == BorderCell(b[0]) by { assert Shape(a[0]) == Shape(b[0]); }
      BorderLineShape(a[1..], b[1..]);
    }
  }

  lemma CellShape(a: StateColumn, b: StateColumn, value: string, padding: char, verticalBorder: string)
    requires Shape(a) == Shape(b)
    ensures Cell(a, value, padding, verticalBorder).Success? == Cell(b, value, padding, verticalBorder).Success?
    ensures Cell(a, value, padding, verticalBorder).Success? ==>
      Cell(a, value, padding, verticalBorder).value.0 == Cell(b, value, padding, verticalBorder).value.0
  {
    assert a.hasDiff == b.hasDiff && Width(a) == Width(b);
  }

  /** A line's text and failure depend on the columns' shapes only. */
  lemma {:induction false} LineShape(a: seq<StateColumn>, b: seq<StateColumn>, field: Field,
                                     padding: char, verticalBorder: string)
    requires SameShape(a, b)
    ensures Line(a, field, padding, verticalBorder).Success? == Line(b, field, padding, verticalBorder).Success?
    ensures Line(a, field, padding, verticalBorder).Success? ==>
      Line(a, field, padding, verticalBorder).value.0 == Line(b, field, padding, verticalBorder).value.0
    decreases |a|
  {
    if |a| > 0 {
      assert FieldOf(a[0], field) == FieldOf(b[0], field) by { assert Shape(a[0]) == Shape(b[0]); }
      CellShape(a[0], b[0], FieldOf(a[0], field), padding, verticalBorder);
      LineShape(a[1..], b[1..], field, padding, verticalBorder);
    }
  }

  /** Drawing a line changes no column's shape. */
  lemma LineKeepsShape(cols: seq<StateColumn>, field: Field, padding: char, verticalBorder: string)
    ensures Line(cols, field, padding, verticalBorder).Success? ==>
      SameShape(Line(cols, field, padding, verticalBorder).value.1, cols)
  {
    var r := Line(cols, field, padding, verticalBorder);
    if r.Success? {
      forall i | 0 <= i < |cols|
        ensures Shape(r.value.1[i]) == Shape(cols[i])
      {
      }
    }
  }

  /** The text of `fields`' lines over `cols`, each drawn from `cols` as
      given: the shape-only rendering that `Lines` must agree with. */
  function LinesText(cols: seq<StateColumn>, fields: seq<Field>, verticalBorder: string): Result<string, Error>
  {
    if |fields| == 0 then Success([])
    else
      var first :- Line(cols, fields[0], PaddingOf(fields[0]), verticalBorder);
      var rest :- LinesText(cols, fields[1..], verticalBorder);
      Success(first.0 + rest)
  }

  lemma {:induction false} LinesAgree(cols: seq<StateColumn>, threaded: seq<StateColumn>,
                                      fields: seq<Field>, verticalBorder: string)
    requires SameShape(threaded, cols)
    ensures Lines(threaded, fields, verticalBorder).Success? == LinesText(cols, fields, verticalBorder).Success?
    ensures Lines(threaded, fields, verticalBorder).Success? ==>
      && Lines(threaded, fields, verticalBorder).value.0 == LinesText(cols, fields, verticalBorder).value
      && SameShape(Lines(threaded, fields, verticalBorder).value.1, cols)
    decreases |fields|
  {
    if |fields| > 0 {
      LineShape(threaded, cols, fields[0], PaddingOf(fields[0]), verticalBorder);
      LineKeepsShape(threaded, fields[0], PaddingOf(fields[0]), verticalBorder);
      var first := Line(threaded, fields[0], PaddingOf(fields[0]), verticalBorder);
      if first.Success? {
        assert SameShape(first.value.1, cols);
        LinesAgree(cols, first.value.1, fields[1..], verticalBorder);
      }
    }
  }

  lemma SameShapeRefl(cols: seq<StateColumn>)
    ensures SameShape(cols, cols)
  {
  }

  /** A rendered row is the border, the header line, the operation's value
      lines (old then new for UPDATE, new for INSERT, old for DELETE) and
      the same border again, every line drawn from the columns as given;
      the cut flags set along the way change nothing that is drawn. */
  lemma {:induction false} RowLayout(cols: seq<StateColumn>, op: Operation, verticalBorder: string)
    ensures var r := Row(cols, op, verticalBorder);
      var text := LinesText(cols, [Name] + BodyFields(op), verticalBorder);
      && (r.Success? <==> text.Success?)
      && (r.Success? ==> r.value.0 == BorderLine(cols) + text.value + BorderLine(cols))
      && (r.Success? ==> SameShape(r.value.1, cols))
  {
    SameShapeRefl(cols);
    LinesAgree(cols, cols, [Name] + BodyFields(op), verticalBorder);
    var body := Lines(cols, [Name] + BodyFields(op), verticalBorder);
    if body.Success? {
      BorderLineShape(body.value.1, cols);
    }
  }

  /** With one-character vertical borders every line of a row, borders
      included, is `RowWidth + 1` characters long, so a rendered row is
      `(2 + 1 + lines) * (RowWidth + 1)` characters: four lines for UPDATE,
      three otherwise. */
  lemma {:induction false} LinesTextLength(cols: seq<StateColumn>, fields: seq<Field>, verticalBorder: string)
    requires |verticalBorder| == 1
    ensures var t := LinesText(cols, fields, verticalBorder);
      t.Success? ==> |t.value| == |fields| * (RowWidth(cols) + 1)
    decreases |fields|
  {
    if |fields| > 0 {
      LinesTextLength(cols, fields[1..], verticalBorder);
      var t := LinesText(cols, fields, verticalBorder);
      if t.Success? {
        var first := Line(cols, fields[0], PaddingOf(fields[0]), verticalBorder);
        var rest := LinesText(cols, fields[1..], verticalBorder);
        assert t.value == first.value.0 + rest.value;
        MulStep(|first.value.0|, |rest.value|, |fields[1..]|, |fields|, RowWidth(cols) + 1);
      }
    }
  }

  lemma RowLength(cols: seq<StateColumn>, op: Operation, verticalBorder: string)
    requires |verticalBorder| == 1
    ensures var r := Row(cols, op, verticalBorder);
      r.Success? ==> |r.value.0| == (if op == UPDATE then 5 else 4) * (RowWidth(cols) + 1)
  {
    var r := Row(cols, op, verticalBorder);
    if r.Success? {
      RowLayout(cols, op, verticalBorder);
      var fields := [Name] + BodyFields(op);
      var text := LinesText(cols, fields, verticalBorder);
      LinesTextLength(cols, fields, verticalBorder);
      var lines := if op == UPDATE then 5 else 4;
      assert |fields| + 2 == lines;
      assert |r.value.0| == |BorderLine(cols)| + |text.value| + |BorderLine(cols)|;
      assert |BorderLine(cols)| == RowWidth(cols) + 1;
      assert |text.value| == |fields| * (RowWidth(cols) + 1);
      RowArithmetic(|r.value.0|, |BorderLine(cols)|, |text.value|, |fields|, lines, RowWidth(cols) + 1);
    }
  }

  /** The length of border, body and border again, the body being `n`
      lines of width `w`. */
  lemma RowArithmetic(row: nat, border: nat, body: nat, n: nat, lines: nat, w: nat)
    requires row == border + body + border
    requires border == w
    requires body == n * w
    requires lines == n + 2
    ensures row == lines * w
  {
  }

  lemma MulStep(a: nat, b: nat, m: nat, n: nat, w: nat)
    requires a == w && b == m * w && n == m + 1
    ensures a + b == n * w
  {
  }

  /** A line fails exactly when some column is narrower than the ellipsis
      and its text does not fit. */
  lemma {:induction false} LinesTextFails(cols: seq<StateColumn>, fields: seq<Field>, verticalBorder: string)
    ensures LinesText(cols, fields, verticalBorder).Failure? <==>
      exists k :: 0 <= k < |fields| && LineOverflows(cols, fields[k])
    decreases |fields|
  {
    if |fields| > 0 {
      LinesTextFails(cols, fields[1..], verticalBorder);
      LinesTextStep(cols, fields, verticalBorder);
      if exists k :: 0 <= k < |fields[1..]| && LineOverflows(cols, fields[1..][k]) {
        var k :| 0 <= k < |fields[1..]| && LineOverflows(cols, fields[1..][k]);
        assert LineOverflows(cols, fields[k + 1]);
      }
      if exists k :: 0 <= k < |fields| && LineOverflows(cols, fields[k]) {
        var k :| 0 <= k < |fields| && LineOverflows(cols, fields[k]);
        if k > 0 {
          assert LineOverflows(cols, fields[1..][k - 1]);
        }
      }
    }
  }

  /** One unfolding of `LinesText`: it fails when the first line or the
      remaining lines fail. */
  lemma LinesTextStep(cols: seq<StateColumn>, fields: seq<Field>, verticalBorder: string)
    requires |fields| > 0
    ensures LinesText(cols, fields, verticalBorder).Failure? <==>
      LineOverflows(cols, fields[0]) || LinesText(cols, fields[1..], verticalBorder).Failure?
  {
  }

  /** A row fails exactly when a column narrower than the ellipsis has a
      header or shown value longer than its width. */
  lemma RowFails(cols: seq<StateColumn>, op: Operation, verticalBorder: string)
    ensures Row(cols, op, verticalBorder).Failure? <==>
      exists k :: 0 <= k < |[Name] + BodyFields(op)| && LineOverflows(cols, ([Name] + BodyFields(op))[k])
  {
    RowLayout(cols, op, verticalBorder);
    LinesTextFails(cols, [Name] + BodyFields(op), verticalBorder);
  }

  /** Whether any of `fields` of column `c` is longer than its width. */
  predicate AnyTooLong(c: StateColumn, fields: seq<Field>)
  {
    exists k :: 0 <= k < |fields| && |FieldOf(c, fields[k])| > Width(c)
  }

  lemma AnyTooLongCons(c: StateColumn, d: StateColumn, fields: seq<Field>)
    requires |fields| > 0 && Shape(c) == Shape(d)
    ensures AnyTooLong(c, fields) <==> |FieldOf(c, fields[0])| > Width(c) || AnyTooLong(d, fields[1..])
  {
    assert FieldOf(c, fields[0]) == FieldOf(d, fields[0]) && Width(c) == Width(d);
    if AnyTooLong(c, fields) {
      var k :| 0 <= k < |fields| && |FieldOf(c, fields[k])| > Width(c);
      if k > 0 {
        assert FieldOf(d, fields[1..][k - 1]) == FieldOf(c, fields[k]);
      }
    }
    if AnyTooLong(d, fields[1..]) {
      var k :| 0 <= k < |fields[1..]| && |FieldOf(d, fields[1..][k])| > Width(d);
      assert FieldOf(c, fields[k + 1]) == FieldOf(d, fields[1..][k]);
    }
  }

  /** After the lines of a row, a column is cut exactly when it already
      was, or its header or one of its shown values was longer than its
      width. */
  lemma {:induction false} LinesCut(cols: seq<StateColumn>, fields: seq<Field>, verticalBorder: string)
    ensures var r := Lines(cols, fields, verticalBorder);
      r.Success? ==> |r.value.1| == |cols| && forall i :: 0 <= i < |cols| ==>
        (r.value.1[i].cut <==> cols[i].cut || AnyTooLong(cols[i], fields))
    decreases |fields|
  {
    if |fields| > 0 {
      var first := Line(cols, fields[0], PaddingOf(fields[0]), verticalBorder);
      if first.Success? {
        LinesCut(first.value.1, fields[1..], verticalBorder);
        var r := Lines(cols, fields, verticalBorder);
        if r.Success? {
          forall i | 0 <= i < |cols|
            ensures r.value.1[i].cut <==> cols[i].cut || AnyTooLong(cols[i], fields)
          {
            AnyTooLongCons(cols[i], first.value.1[i], fields);
          }
        }
      }
    }
  }

  /** The table fails exactly when one of its rows does, and on success
      each row's columns come back with the cut flags of that row alone. */
  lemma BuildRowByRow(rows: seq<seq<StateColumn>>, op: Operation, verticalBorder: string)
    ensures var r := Build(rows, op, verticalBorder);
      r.Success? <==> forall k :: 0 <= k < |rows| ==> Row(rows[k], op, verticalBorder).Success?
    ensures var r := Build(rows, op, verticalBorder);
      r.Success? ==> forall k :: 0 <= k < |rows| ==> r.value.1[k] == Row(rows[k], op, verticalBorder).value.1
  {
    var draw := RowDrawer(op, verticalBorder);
    BuildWithRowByRow(rows, draw);
    assert forall k :: 0 <= k < |rows| ==> draw(rows[k]) == Row(rows[k], op, verticalBorder);
  }

  lemma {:induction false} BuildWithRowByRow(rows: seq<seq<StateColumn>>, draw: seq<StateColumn> -> Drawn)
    ensures var r := BuildWith(rows, draw);
      r.Success? <==> forall k :: 0 <= k < |rows| ==> draw(rows[k]).Success?
    ensures var r := BuildWith(rows, draw);
      r.Success? ==> forall k :: 0 <= k < |rows| ==> r.value.1[k] == draw(rows[k]).value.1
    decreases |rows|
  {
    if |rows| > 0 {
      BuildWithRowByRow(rows[1..], draw);
      assert forall k :: 0 < k < |rows| ==> rows[1..][k - 1] == rows[k];
    }
  }

  /** Rows are drawn independently: building two lists of rows one after the
      other gives the same table as building them together. */
  lemma BuildAppend(a: seq<seq<StateColumn>>, b: seq<seq<StateColumn>>, op: Operation, verticalBorder: string)
    requires Build(a, op, verticalBorder).Success? && Build(b, op, verticalBorder).Success?
    ensures var x := Build(a, op, verticalBorder).value;
      var y := Build(b, op, verticalBorder).value;
      Build(a + b, op, verticalBorder) == Success((x.0 + y.0, x.1 + y.1))
  {
    BuildWithAppend(a, b, RowDrawer(op, verticalBorder));
  }

  lemma {:induction false} BuildWithAppend(a: seq<seq<StateColumn>>, b: seq<seq<StateColumn>>, draw: seq<StateColumn> -> Drawn)
    requires BuildWith(a, draw).Success? && BuildWith(b, draw).Success?
    ensures var x := BuildWith(a, draw).value;
      var y := BuildWith(b, draw).value;
      BuildWith(a + b, draw) == Success((x.0 + y.0, x.1 + y.1))
    decreases |a|
  {
    var y := BuildWith(b, draw);
    if |a| == 0 {
      assert a + b == b;
      var none: string := [];
      var noRows: seq<seq<StateColumn>> := [];
      assert none + y.value.0 == y.value.0;
      assert noRows + y.value.1 == y.value.1;
    } else {
      var first := draw(a[0]);
      var x := BuildWith(a[1..], draw);
      BuildWithAppend(a[1..], b, draw);
      var ab := a + b;
      assert ab[0] == a[0];
      assert ab[1..] == a[1..] + b;
      Associate(first.value.0, x.value.0, y.value.0);
      Associate([first.value.1], x.value.1, y.value.1);
    }
  }

  lemma Associate<T>(p: seq<T>, q: seq<T>, r: seq<T>)
    ensures p + (q + r) == (p + q) + r
  {
  }
}
