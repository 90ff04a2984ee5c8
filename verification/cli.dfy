/** Command-line option validation (`CLI.parseArgs` and its `get*`
    helpers) over an already parsed command line: which options were given
    and the text of each. */
module Cli {
  import opened Results
  import opened Text
  import opened Numbers
  import Latest = ShowLatestOperationsOption

  /** The options the watcher understands. */
  datatype Opt =
    | ClearCache | Config | Debug | DeleteFirstNRows | ShowHelp | Interval
    | MaxColWidth | MaxRowWidth | OneOff | Purge | ReuseConfig | Query
    | LatestOp | Tables | TimeDiffSeparator | VerboseDiff

  /** A parsed command line: an option is present when it is a key; its
      value is the argument text (empty for flags). */
  type CommandLine = map<Opt, string>

  /** The reasons a validated option is rejected (the messages are not part
      of this model, only which check failed). */
  datatype CliError =
    | InvalidDeleteNRows
    | NumberFormat
    | IntervalSmall
    | IntervalBig
    | InvalidMaxColumnWidth
    | InvalidMaxRowWidth
    | OneOffNoLatestOp
    | InvalidLatestOp
    | TimeDiffSepLtZero

  /** `UnrecoverableException("InvalidCLIOptionInput", ...)`, carrying the
      cause and the debug flag. */
  datatype Unrecoverable = Unrecoverable(cause: CliError, debug: bool)

  /** `getDeleteFirstNRowsOption`: a number, or the "all" symbol once
      trimmed; the value is returned untrimmed. */
  function GetDeleteFirstNRows(cmd: CommandLine, allSymbol: string): (r: Result<Option<string>, CliError>)
    ensures DeleteFirstNRows !in cmd ==> r == Success(None)
    ensures DeleteFirstNRows in cmd ==>
      var v := cmd[DeleteFirstNRows];
      && (r.Success? <==> IsNumeric(v) || Trim(v) == allSymbol)
      && (r.Success? ==> r.value == Some(v))
      && (r.Failure? ==> r.error == InvalidDeleteNRows)
  {
    if DeleteFirstNRows in cmd then
      var value := cmd[DeleteFirstNRows];
      if !IsNumeric(value) && Trim(value) != allSymbol then Failure(InvalidDeleteNRows)
      else Success(Some(value))
    else Success(None)
  }

  /** A present option parsed with `Short.parseShort`, then range-checked
      by `check`; an absent one is `null`. */
  function ShortOption(cmd: CommandLine, opt: Opt, check: int -> Option<CliError>)
    : (r: Result<Option<int>, CliError>)
    ensures opt !in cmd ==> r == Success(None)
    ensures opt in cmd ==>
      (r.Success? <==> ParseShort(cmd[opt]).Some? && check(ParseShort(cmd[opt]).value).None?)
    ensures opt in cmd && r.Success? ==> r.value == Some(ParseShort(cmd[opt]).value)
    ensures opt in cmd && ParseShort(cmd[opt]).None? ==> r == Failure(NumberFormat)
  {
    if opt in cmd then
      match ParseShort(cmd[opt])
      case None => Failure(NumberFormat)
      case Some(value) =>
        match check(value)
        case Some(e) => Failure(e)
        case None => Success(Some(value))
    else Success(None)
  }

  function IntervalCheck(value: int): Option<CliError>
  {
    if value < 10 then Some(IntervalSmall)
    else if value > 10000 then Some(IntervalBig)
    else None
  }

  /** `getInterval`: accepted exactly when it is a short between 10 and
      10000 inclusive; absent is `null`. */
  function GetInterval(cmd: CommandLine): (r: Result<Option<int>, CliError>)
    ensures Interval !in cmd ==> r == Success(None)
    ensures Interval in cmd ==>
      (r.Success? <==> ParseShort(cmd[Interval]).Some? && 10 <= ParseShort(cmd[Interval]).value <= 10000)
    ensures r.Success? && r.value.Some? ==> 10 <= r.value.value <= 10000
  {
    ShortOption(cmd, Interval, IntervalCheck)
  }

  function MaxColumnWidthCheck(value: int): Option<CliError>
  {
    if value <= 3 then Some(InvalidMaxColumnWidth) else None
  }

  /** `getMaxColumnWidthOption`: accepted exactly when it is a short
      greater than 3. */
  function GetMaxColumnWidth(cmd: CommandLine): (r: Result<Option<int>, CliError>)
    ensures MaxColWidth !in cmd ==> r == Success(None)
    ensures MaxColWidth in cmd ==>
      (r.Success? <==> ParseShort(cmd[MaxColWidth]).Some? && ParseShort(cmd[MaxColWidth]).value > 3)
    ensures r.Success? && r.value.Some? ==> 3 < r.value.value <= ShortMax
  {
    ShortOption(cmd, MaxColWidth, MaxColumnWidthCheck)
  }

  function MaxRowWidthCheck(value: int): Option<CliError>
  {
    if value <= 10 then Some(InvalidMaxRowWidth) else None
  }

  /** `getMaxRowWidthOption`: accepted exactly when it is a short greater
      than 10. */
  function GetMaxRowWidth(cmd: CommandLine): (r: Result<Option<int>, CliError>)
    ensures MaxRowWidth !in cmd ==> r == Success(None)
    ensures MaxRowWidth in cmd ==>
      (r.Success? <==> ParseShort(cmd[MaxRowWidth]).Some? && ParseShort(cmd[MaxRowWidth]).value > 10)
    ensures r.Success? && r.value.Some? ==> 10 < r.value.value <= ShortMax
  {
    ShortOption(cmd, MaxRowWidth, MaxRowWidthCheck)
  }

  /** `getTimeDiffSeparatorMinVal`: an `Integer.parseInt` value, accepted
      exactly when it is not negative. */
  function GetTimeDiffSeparatorMinVal(cmd: CommandLine): (r: Result<Option<nat>, CliError>)
    ensures TimeDiffSeparator !in cmd ==> r == Success(None)
    ensures TimeDiffSeparator in cmd ==>
      (r.Success? <==> ParseInt(cmd[TimeDiffSeparator]).Some? && ParseInt(cmd[TimeDiffSeparator]).value >= 0)
    ensures r.Success? && r.value.Some? ==> r.value.value == ParseInt(cmd[TimeDiffSeparator]).value
  {
    if TimeDiffSeparator in cmd then
      match ParseInt(cmd[TimeDiffSeparator])
      case None => Failure(NumberFormat)
      case Some(value) => if value < 0 then Failure(TimeDiffSepLtZero) else Success(Some(value))
    else Success(None)
  }

  /** The range checks read on plain decimal numbers. */
  lemma RangeChecksOnDecimals(cmd: CommandLine, n: nat)
    requires n <= ShortMax
    requires forall o :: o in cmd ==> cmd[o] == DecimalString(n)
    ensures Interval in cmd ==> (GetInterval(cmd).Success? <==> 10 <= n <= 10000)
    ensures MaxColWidth in cmd ==> (GetMaxColumnWidth(cmd).Success? <==> n > 3)
    ensures MaxRowWidth in cmd ==> (GetMaxRowWidth(cmd).Success? <==> n > 10)
    ensures TimeDiffSeparator in cmd ==> GetTimeDiffSeparatorMinVal(cmd) == Success(Some(n))
  {
    ParseDecimal(n);
  }

  /** `getOneOff`: one-off mode needs the latest-operations option. */
  function GetOneOff(cmd: CommandLine): (r: Result<bool, CliError>)
    ensures r.Failure? <==> OneOff in cmd && LatestOp !in cmd
    ensures r.Success? ==> (r.value <==> OneOff in cmd)
  {
    if OneOff in cmd && LatestOp !in cmd then Failure(OneOffNoLatestOp)
    else Success(OneOff in cmd)
  }

  /** `getShowLatestOperationsOption`. */
  function GetShowLatestOperations(cmd: CommandLine): (r: Result<Option<Latest.ShowLatestOperationsOption>, CliError>)
    ensures LatestOp !in cmd ==> r == Success(None)
    ensures LatestOp in cmd ==> (r.Success? <==> Latest.Create(cmd[LatestOp]).Success?)
    ensures LatestOp in cmd && r.Success? ==> r.value == Some(Latest.Create(cmd[LatestOp]).value)
  {
    if LatestOp in cmd then
      var created := Latest.Create(cmd[LatestOp]);
      if created.Success? then Success(Some(created.value))
      else if created.error.InvalidLatestOp? then Failure(InvalidLatestOp)
      else Failure(NumberFormat)
    else Success(None)
  }

  /** `listOptionToSet`: the comma-separated pieces, as a set. */
  function ListOptionToSet(value: string): (r: set<string>)
    ensures forall x :: x in r ==> ',' !in x
  {
    SplitAllJoin(value, ',');
    set x | x in JavaSplit(value, ',')
  }

  /** A comma-joined list of non-empty, comma-free names reads back as the
      set of those names. */
  lemma ListOptionToSetJoin(names: seq<string>)
    requires |names| >= 1
    requires forall k :: 0 <= k < |names| ==> names[k] != [] && ',' !in names[k]
    ensures ListOptionToSet(Join(names, ',')) == set k | 0 <= k < |names| :: names[k]
  {
    JavaSplitJoin(names, ',');
  }

  /** `getConfigOption` / `getTables`: absent is empty, present is the set. */
  function ListOption(cmd: CommandLine, opt: Opt): (r: Option<set<string>>)
    ensures r.Some? <==> opt in cmd
    ensures r.Some? ==> r.value == ListOptionToSet(cmd[opt])
  {
    if opt in cmd then Some(ListOptionToSet(cmd[opt])) else None
  }

  datatype ParsedOptions = ParsedOptions(
    clearCache: bool,
    configPaths: Option<set<string>>,
    debug: bool,
    deleteFirstNRows: Option<string>,
    showHelp: bool,
    interval: Option<int>,
    maxColumnWidth: Option<int>,
    maxRowWidth: Option<int>,
    oneOff: bool,
    purge: bool,
    reuseConfig: bool,
    showQuery: bool,
    showLatestOperations: Option<Latest.ShowLatestOperationsOption>,
    tables: Option<set<string>>,
    timeDiffSeparatorMinVal: Option<nat>,
    verboseDiff: bool)

  /** The flags, set before any validation. */
  function Flags(cmd: CommandLine): ParsedOptions
  {
    ParsedOptions(
      ClearCache in cmd, ListOption(cmd, Config), Debug in cmd, None, ShowHelp in cmd,
      None, None, None, false, Purge in cmd, ReuseConfig in cmd, Query in cmd,
      None, None, None, VerboseDiff in cmd)
  }

  /** The `try` block of `parseArgs`: the validated options in source order;
      the first that throws ends it. */
  function Validate(cmd: CommandLine, allSymbol: string, flags: ParsedOptions): Result<ParsedOptions, CliError>
  {
    var deleteFirstNRows :- GetDeleteFirstNRows(cmd, allSymbol);
    var interval :- GetInterval(cmd);
    var maxColumnWidth :- GetMaxColumnWidth(cmd);
    var maxRowWidth :- GetMaxRowWidth(cmd);
    var oneOff :- GetOneOff(cmd);
    var showLatestOperations :- GetShowLatestOperations(cmd);
    var tables := ListOption(cmd, Tables);
    var timeDiffSeparatorMinVal :- GetTimeDiffSeparatorMinVal(cmd);
    Success(flags.(
      deleteFirstNRows := deleteFirstNRows,
      interval := interval,
      maxColumnWidth := maxColumnWidth,
      maxRowWidth := maxRowWidth,
      oneOff := oneOff,
      showLatestOperations := showLatestOperations,
      tables := tables,
      timeDiffSeparatorMinVal := timeDiffSeparatorMinVal))
  }

  /** `parseArgs`: the flags always reflect the command line; a rejected
      option surfaces as a single unrecoverable error that carries the
      debug flag. */
  function ParseArgs(cmd: CommandLine, allSymbol: string): (r: Result<ParsedOptions, Unrecoverable>)
    ensures r.Failure? ==> r.error.debug == (Debug in cmd)
    ensures r.Success? ==>
      && r.value.clearCache == (ClearCache in cmd) && r.value.debug == (Debug in cmd)
      && r.value.showHelp == (ShowHelp in cmd) && r.value.purge == (Purge in cmd)
      && r.value.reuseConfig == (ReuseConfig in cmd) && r.value.showQuery == (Query in cmd)
      && r.value.verboseDiff == (VerboseDiff in cmd)
      && (r.value.configPaths.Some? <==> Config in cmd)
      && (r.value.tables.Some? <==> Tables in cmd)
  {
    match Validate(cmd, allSymbol, Flags(cmd))
    case Failure(e) => Failure(Unrecoverable(e, Debug in cmd))
    case Success(options) => Success(options)
  }

  /** Every validated option rejects on its own: `parseArgs` fails exactly
      when one of the validators does, and then reports the first of them in
      source order. On success each field holds its validator's value. */
  lemma ParseArgsSpec(cmd: CommandLine, allSymbol: string)
    ensures var r := ParseArgs(cmd, allSymbol);
      r.Failure? <==>
        || GetDeleteFirstNRows(cmd, allSymbol).Failure?
        || GetInterval(cmd).Failure?
        || GetMaxColumnWidth(cmd).Failure?
        || GetMaxRowWidth(cmd).Failure?
        || GetOneOff(cmd).Failure?
        || GetShowLatestOperations(cmd).Failure?
        || GetTimeDiffSeparatorMinVal(cmd).Failure?
    ensures var r := ParseArgs(cmd, allSymbol);
      var first :=
        if GetDeleteFirstNRows(cmd, allSymbol).Failure? then GetDeleteFirstNRows(cmd, allSymbol).error
        else if GetInterval(cmd).Failure? then GetInterval(cmd).error
        else if GetMaxColumnWidth(cmd).Failure? then GetMaxColumnWidth(cmd).error
        else if GetMaxRowWidth(cmd).Failure? then GetMaxRowWidth(cmd).error
        else if GetOneOff(cmd).Failure? then GetOneOff(cmd).error
        else if GetShowLatestOperations(cmd).Failure? then GetShowLatestOperations(cmd).error
        else if GetTimeDiffSeparatorMinVal(cmd).Failure? then GetTimeDiffSeparatorMinVal(cmd).error
        else NumberFormat;
      r.Failure? ==> r.error.cause == first
    ensures var r := ParseArgs(cmd, allSymbol);
      r.Success? ==>
        && r.value.deleteFirstNRows == GetDeleteFirstNRows(cmd, allSymbol).value
        && r.value.interval == GetInterval(cmd).value
        && r.value.maxColumnWidth == GetMaxColumnWidth(cmd).value
        && r.value.maxRowWidth == GetMaxRowWidth(cmd).value
        && r.value.oneOff == GetOneOff(cmd).value
        && r.value.showLatestOperations == GetShowLatestOperations(cmd).value
        && r.value.timeDiffSeparatorMinVal == GetTimeDiffSeparatorMinVal(cmd).value
  {
  }

  /** `showLatestOperationsPresentAndGtThanZero`. */
  function ShowLatestOperationsPresentAndGtThanZero(options: ParsedOptions): (b: bool)
    ensures b <==> options.showLatestOperations.Some? && options.showLatestOperations.value.value > 0
  {
    options.showLatestOperations.Some? && options.showLatestOperations.value.value > 0
  }

  /** On an accepted command line the latest-operations view is on exactly
      when `--latest` was given and its count or span is positive. */
  lemma LatestPresentAndPositiveIff(cmd: CommandLine, allSymbol: string)
    requires ParseArgs(cmd, allSymbol).Success?
    ensures ShowLatestOperationsPresentAndGtThanZero(ParseArgs(cmd, allSymbol).value) <==>
      && LatestOp in cmd
      && Latest.Create(cmd[LatestOp]).Success?
      && Latest.Create(cmd[LatestOp]).value.value > 0
  {
    ParseArgsSpec(cmd, allSymbol);
  }

  /** `--latest 0` alone is accepted, yet does not switch the view on. */
  lemma LatestZeroIsOff(cmd: CommandLine, allSymbol: string)
    requires cmd == map[LatestOp := "0"]
    ensures ParseArgs(cmd, allSymbol).Success?
    ensures !ShowLatestOperationsPresentAndGtThanZero(ParseArgs(cmd, allSymbol).value)
  {
    assert DigitsValue("0") == 0 by { assert "0"[..0] == []; }
    assert Latest.Create("0").Success? && Latest.Create("0").value.value == 0;
    ParseArgsSpec(cmd, allSymbol);
    LatestPresentAndPositiveIff(cmd, allSymbol);
  }
}
