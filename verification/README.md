# dbw core, modelled in Dafny

The model covers the core of dbw. dbw watches database tables through audit triggers and prints every captured change as a table of old and new column values. Between frames that are far apart in time it prints a separator. The Dafny model covers:

- **Escaping** (`HtmlInXmlEscaper`). This escapes markup inside the column-state elements of the XML that the audit triggers produce. It also detects stray markup there.
- **Diffs and frames** (`Diff`, `AuditFrame`). These cover:
  - the parsed old and new states of a record, whose values may be null;
  - the column names an operation shows;
  - the state columns an audit frame builds from them.
- **Rendering.** `TableDiffBuilder` draws the bordered diff table: fixed-width cells, cut values with an ellipsis, and sticky "cut" flags. `TimeDiffSeparator` prints the time gap between two frames.
- **Output loop** (`OutputManager`). Each drained batch of frames is folded into printed separators and frames.
- **Command line** (`Cli`, `ShowLatestOperationsOption`). This validates every command-line option, including the `--latest` count-or-duration option.
- **Purge** (`TruncateAction`). When the operations limit is reached, the oldest audit rows are purged under the watcher's "removing" flag.
- **Configuration cache** (`Cache`).
- **Database dialects** (`Database`, `Postgres`, `Orcl`, `DatabaseFactory`). These cover:
  - connection strings;
  - audit-trigger names and how table names are recovered from them;
  - the order in which `clean` drops the schema objects;
  - the factory that picks the dialect.

Java's library behaviour is written out where the code depends on it. This is in `text.dfy` and `numbers.dfy`:

- `String.replace` replaces every occurrence, left to right.
- `trim` drops characters up to U+0020.
- `split` with a literal one-character pattern drops trailing empty pieces.
- `Short.parseShort` and `Integer.parseInt` accept an optional sign and ASCII decimal digits within range. Java also accepts other Unicode decimal digits; the model does not (see "## Left out").
- `int` subtraction wraps around.
- A `short` loop counter wraps past 32767.

Some constants are defined in files outside this model. These are the symbols, separators, tag strings, trigger prefix and postfix, and database type names. The model takes them as parameters and states its properties for every value.

Two places where this model follows the code rather than its informal description:

- The time-gap threshold is read as an `Integer` option. `TimeDiffSeparator.create` then assigns it to a `short` local. The model keeps the threshold as a non-negative number and does not narrow it.
- The `--latest` option is checked against its pattern on the trimmed text, but its number is parsed from the untrimmed text. So any input that matches only once blanks are trimmed, such as ` 5m`, passes validation and then fails to parse (`ShowLatestOperationsOption.PaddedInputRejected`).

## Model

| member | source | states |
|---|---|---|
| HtmlInXmlEscaper.TagCountBounded | src/main/java/com/dbw/util/HtmlInXmlEscaper.java:29-37 | every counted column-state start tag contributes one `<` and one `>`, so the tag count never exceeds either character count |
| HtmlInXmlEscaper.StrayMarkupDetected | src/main/java/com/dbw/util/HtmlInXmlEscaper.java:22-27 | a document whose `<` and `>` counts are exactly four plus two per column-state tag is not flagged, and appending text with a `<` and no `>` makes it flagged |
| HtmlInXmlEscaper.EscapeContentIsPerCharacter | src/main/java/com/dbw/util/HtmlInXmlEscaper.java:12-20 | the seven chained global replacements (ampersand first) act as a per-character substitution: each special character becomes its own entity and nothing is escaped twice |
| HtmlInXmlEscaper.EscapeContentSingle | src/main/java/com/dbw/util/HtmlInXmlEscaper.java:67-73 | on a single character, the chained replacements give exactly that character's entity (or the character itself) |
| HtmlInXmlEscaper.EscapeContentPlainAndLength | src/main/java/com/dbw/util/HtmlInXmlEscaper.java:67-73 | a content without special characters is unchanged, and escaping never shortens a content |
| HtmlInXmlEscaper.EscapeContentSafe | src/main/java/com/dbw/util/HtmlInXmlEscaper.java:12-20 | the escaped content holds none of `><"'/\`, every `&` in it starts an entity of the table, and unescaping gives the content back |
| HtmlInXmlEscaper.EscapeEachWellEscaped | src/main/java/com/dbw/util/HtmlInXmlEscaper.java:12-20 | escaping produces well-formed entity text that unescapes to the original |
| HtmlInXmlEscaper.UnescapeThenEscape | src/main/java/com/dbw/util/HtmlInXmlEscaper.java:12-20 | the other direction of the round trip: a well-escaped text is what escaping its unescaping produces |
| HtmlInXmlEscaper.ExtractContentIdentityIff | src/main/java/com/dbw/util/HtmlInXmlEscaper.java:59-65 | removing all start tags and then all end tags leaves a text unchanged exactly when it holds neither tag |
| HtmlInXmlEscaper.ExtractContentOfElement | src/main/java/com/dbw/util/HtmlInXmlEscaper.java:59-65 | from an element whose content holds neither tag, extraction gives back the content |
| HtmlInXmlEscaper.NoGroupsUnchanged | src/main/java/com/dbw/util/HtmlInXmlEscaper.java:48-56 | whenever the pattern finds no match, the code as written and the corrected rewriting both return the document unchanged |
| HtmlInXmlEscaper.NoStartTagNoGroups | src/main/java/com/dbw/util/HtmlInXmlEscaper.java:48-56 | a document without a start tag has no match and is returned unchanged, by the code as written and by the corrected rewriting |
| HtmlInXmlEscaper.TaggedGroupsElement | src/main/java/com/dbw/util/HtmlInXmlEscaper.java:48-51 | the lazy `start.+?end` search finds one element exactly as the whole match |
| HtmlInXmlEscaper.AsWrittenOnElement | src/main/java/com/dbw/util/HtmlInXmlEscaper.java:39-57 | on a single element the code as written replaces every occurrence of the content in the document by its escaped form |
| HtmlInXmlEscaper.AsWrittenOnRepeatedElement | src/main/java/com/dbw/util/HtmlInXmlEscaper.java:51-55 | on two equal elements the code as written applies that global replacement twice, once per match |
| HtmlInXmlEscaper.AsWrittenCorruptsEndTag | src/main/java/com/dbw/util/HtmlInXmlEscaper.java:75-77 | on `<c>/</c>` the code as written escapes the slash of the end tag as well, giving `<c>&#47;<&#47;c>` |
| HtmlInXmlEscaper.AsWrittenEscapesTwice | src/main/java/com/dbw/util/HtmlInXmlEscaper.java:51-55 | on `<c>&</c><c>&</c>` the code as written escapes each ampersand twice, giving `&amp;amp;` |
| HtmlInXmlEscaper.RewriteTaggedAppend | src/main/java/com/dbw/util/HtmlInXmlEscaper.java:48-56 | the corrected rewriting of a document of whole elements is the concatenation of the rewritings of its parts |
| HtmlInXmlEscaper.RewriteTaggedElement | src/main/java/com/dbw/util/HtmlInXmlEscaper.java:48-56 | the corrected rewriting of one element keeps both tags and rewrites only the content between them |
| HtmlInXmlEscaper.RewriteTaggedNoMatch | src/main/java/com/dbw/util/HtmlInXmlEscaper.java:48-56 | the corrected rewriting changes nothing in a document without a start tag |
| HtmlInXmlEscaper.EscapeTaggedContentsElement | src/main/java/com/dbw/util/HtmlInXmlEscaper.java:39-57 | the corrected escaping of one element is the start tag, the escaped content and the end tag |
| HtmlInXmlEscaper.CorrectedOnRepeatedElement | src/main/java/com/dbw/util/HtmlInXmlEscaper.java:51-55 | the corrected escaping escapes each of two equal elements exactly once |
| HtmlInXmlEscaper.CorrectedKeepsEndTag | src/main/java/com/dbw/util/HtmlInXmlEscaper.java:39-57 | on `<c>/</c>` the corrected escaping gives `<c>&#47;</c>`, end tag intact |
| HtmlInXmlEscaper.CorrectedEscapesOnce | src/main/java/com/dbw/util/HtmlInXmlEscaper.java:39-57 | on `<c>&</c><c>&</c>` the corrected escaping gives `<c>&amp;</c><c>&amp;</c>` |
| Diff.Get | src/main/java/com/dbw/diff/Diff.java:26-32 | a state lookup succeeds exactly for a listed column name and gives that column's value |
| Diff.GetListed | src/main/java/com/dbw/diff/Diff.java:26-32 | every listed column is found with its own value |
| Diff.ParseOldData | src/main/java/com/dbw/diff/Diff.java:16-18 | parsing old data sets the old state to the parse result and leaves the new state alone |
| Diff.ParseNewData | src/main/java/com/dbw/diff/Diff.java:20-22 | parsing new data sets the new state to the parse result and leaves the old state alone |
| Diff.CopyOf | src/main/java/com/dbw/diff/Diff.java:26-32 | an immutable copy fails exactly on a null map or a map holding a null value; otherwise it has the same entries in the same order |
| Diff.CopyOfLookups | src/main/java/com/dbw/diff/Diff.java:26-32 | a copy has the original's column names and answers every lookup with the original's value |
| Diff.GetOldState | src/main/java/com/dbw/diff/Diff.java:26-28 | reading the old state fails exactly when it was never parsed or holds a null value; otherwise it has the parsed names and values |
| Diff.GetNewState | src/main/java/com/dbw/diff/Diff.java:30-32 | reading the new state fails exactly when it was never parsed or holds a null value; otherwise it has the parsed names and values |
| Diff.GetStateColumnNames | src/main/java/com/dbw/diff/Diff.java:38-44 | INSERT shows the new state's column names, every other operation the old state's, failing exactly when that state cannot be read |
| Diff.ParseThenGet | src/main/java/com/dbw/diff/Diff.java:16-32 | after parsing one side, reading it back succeeds exactly when the parse has no null value and then gives the parse result; the other side is unchanged |
| Diff.ColumnNamesOfParsedDiff | src/main/java/com/dbw/diff/Diff.java:38-44 | after both sides are parsed, the names shown are those of the new data for INSERT and of the old data otherwise, unless that state holds a null value |
| Diff.NewStateColumn | src/main/java/com/dbw/frame/AuditFrame.java:54 | a new state column holds its name and both values, has no difference and is not cut |
| Diff.Compare | src/main/java/com/dbw/frame/AuditFrame.java:55 | comparing sets only the difference flag, from the two values |
| AuditFrame.SetAuditRecord | src/main/java/com/dbw/frame/AuditFrame.java:32-34 | the record is set and every other field is unchanged |
| AuditFrame.SetDb | src/main/java/com/dbw/frame/AuditFrame.java:36-38 | the database is set and every other field is unchanged |
| AuditFrame.SetFrameNo | src/main/java/com/dbw/frame/AuditFrame.java:40-42 | the frame number is set and every other field is unchanged |
| AuditFrame.SetTimeSincePrevious | src/main/java/com/dbw/frame/AuditFrame.java:65-67 | the time text is set and every other field is unchanged |
| AuditFrame.Columns | src/main/java/com/dbw/frame/AuditFrame.java:51-57 | one column per name, in order, each built from that name's old and new values and compared |
| AuditFrame.BuildColumns | src/main/java/com/dbw/frame/AuditFrame.java:50-57 | the lookups fail exactly when there are names and a state is missing or holds a null value; otherwise one compared column per name, in order |
| AuditFrame.CreateStateColumns | src/main/java/com/dbw/frame/AuditFrame.java:48-59 | building the state columns changes nothing in the frame but its state columns |
| AuditFrame.CreateStateColumnsSpec | src/main/java/com/dbw/frame/AuditFrame.java:48-59 | the columns succeed exactly when the shown state exists without a null value and, if it has columns, both states do; there is one column per shown name, in order, each holding both values as text, compared, uncut, with distinct names |
| TableDiffBuilder.ShortOption | src/main/java/com/dbw/diff/TableDiffBuilder.java:18-24 | an absent or empty option gives the default; a numeric option is accepted exactly when it fits a short, and then gives its value |
| TableDiffBuilder.MaxLengthOptions | src/main/java/com/dbw/diff/TableDiffBuilder.java:13-24 | the column length defaults to 17 and the row length to 120, and a printed number reads back as itself |
| TableDiffBuilder.Width | src/main/java/com/dbw/diff/TableDiffBuilder.java:101 | a column is drawn at the smaller of 17 and its own maximum length |
| TableDiffBuilder.FitValue | src/main/java/com/dbw/diff/TableDiffBuilder.java:101-113 | a value longer than the width is cut to `width - 3` characters plus `...` and marked cut, failing when the width is below 3; a shorter value is padded to the width; the result is always exactly the width |
| TableDiffBuilder.FitValueOnBmp | src/main/java/com/dbw/diff/TableDiffBuilder.java:101-113 | on text of the Basic Multilingual Plane, the value fails, is cut or is padded exactly as Java's UTF-16 lengths decide |
| TableDiffBuilder.AstralValuePadded | src/main/java/com/dbw/diff/TableDiffBuilder.java:101-113 | nine U+1F600 are 18 UTF-16 units, which Java cuts at width 17; the model pads them as 9 characters |
| TableDiffBuilder.FitValueIdempotent | src/main/java/com/dbw/diff/TableDiffBuilder.java:101-113 | a fitted value fits again unchanged and without being cut |
| TableDiffBuilder.Cell | src/main/java/com/dbw/diff/TableDiffBuilder.java:98-117 | a cell fails exactly on an overflow; it sets the column's cut flag when the value is too long, and its text is the width plus padding and borders, starting and ending with a space |
| TableDiffBuilder.BorderCell | src/main/java/com/dbw/diff/TableDiffBuilder.java:50-62 | a border cell is `width + 4` characters: spaces at both ends, dashes between them for a differing column and spaces otherwise |
| TableDiffBuilder.BorderLine | src/main/java/com/dbw/diff/TableDiffBuilder.java:49-64 | a horizontal border is as wide as a row and ends with a newline |
| TableDiffBuilder.Line | src/main/java/com/dbw/diff/TableDiffBuilder.java:66-96 | a line of cells fails exactly when some column overflows; it sets each column's cut flag from its own value, is `RowWidth + 1` long with one-character borders, and ends with a newline |
| TableDiffBuilder.BodyFields | src/main/java/com/dbw/diff/TableDiffBuilder.java:34-44 | UPDATE shows the old then the new values, INSERT the new ones, DELETE the old ones |
| TableDiffBuilder.LinesAgree | src/main/java/com/dbw/diff/TableDiffBuilder.java:98-117 | cut flags set by earlier lines change nothing that later lines draw |
| TableDiffBuilder.RowLayout | src/main/java/com/dbw/diff/TableDiffBuilder.java:30-47 | a row is a border, the header line, the operation's value lines and the same border again, and it keeps every column's shape |
| TableDiffBuilder.LinesTextLength | src/main/java/com/dbw/diff/TableDiffBuilder.java:66-96 | every drawn line is `RowWidth + 1` characters long, so n lines are n times that |
| TableDiffBuilder.RowLength | src/main/java/com/dbw/diff/TableDiffBuilder.java:30-47 | a row has five lines of `RowWidth + 1` characters for UPDATE and four otherwise |
| TableDiffBuilder.LinesTextFails | src/main/java/com/dbw/diff/TableDiffBuilder.java:102-106 | drawing fails exactly when some line has a column narrower than the ellipsis whose value does not fit |
| TableDiffBuilder.RowFails | src/main/java/com/dbw/diff/TableDiffBuilder.java:30-47 | a row fails exactly when its header or one of its shown values overflows a column |
| TableDiffBuilder.Build | src/main/java/com/dbw/diff/TableDiffBuilder.java:30-47 | no rows give an empty table, and a drawn table has one column list per row |
| TableDiffBuilder.BuildRowByRow | src/main/java/com/dbw/diff/TableDiffBuilder.java:30-47 | the table fails exactly when one of its rows does, and each row's columns come back with that row's own cut flags |
| TableDiffBuilder.BuildAppend | src/main/java/com/dbw/diff/TableDiffBuilder.java:30-47 | rows are drawn independently: two lists drawn one after the other give the table of both together |
| TableDiffBuilder.LinesCut | src/main/java/com/dbw/diff/TableDiffBuilder.java:105-107 | after drawing, a column is cut exactly when it was cut before or one of its drawn values was too long |
| TimeDiffSeparator.Decompose | src/main/java/com/dbw/output/TimeDiffSeparator.java:44-52 | the days, hours, minutes, seconds and milliseconds are each within their unit's range and add up to the elapsed milliseconds |
| TimeDiffSeparator.DecomposeUnique | src/main/java/com/dbw/output/TimeDiffSeparator.java:44-52 | any in-range parts adding up to the elapsed time are that decomposition |
| TimeDiffSeparator.Part | src/main/java/com/dbw/output/TimeDiffSeparator.java:54-73 | a unit is written exactly when its count is positive |
| TimeDiffSeparator.Format | src/main/java/com/dbw/output/TimeDiffSeparator.java:44-75 | the formatted gap is empty exactly for zero milliseconds |
| TimeDiffSeparator.FormatEndsWithSmallestPart | src/main/java/com/dbw/output/TimeDiffSeparator.java:54-74 | the text ends with the smallest non-zero part's number and unit, followed by a space unless it is the milliseconds; a whole number of days is that part alone |
| TimeDiffSeparator.FormatMillisOnly | src/main/java/com/dbw/output/TimeDiffSeparator.java:71-73 | below one second only the milliseconds and their symbol are written |
| TimeDiffSeparator.Create | src/main/java/com/dbw/output/TimeDiffSeparator.java:22-35 | there is no separator before the first frame; otherwise there is one exactly when the gap exceeds the configured threshold (5000 ms by default), holding the formatted gap |
| TimeDiffSeparator.CreateNonEmpty | src/main/java/com/dbw/output/TimeDiffSeparator.java:22-35 | a created separator never has an empty time text |
| TimeDiffSeparator.InternalPadding | src/main/java/com/dbw/output/TimeDiffSeparator.java:98-107 | the padding row is the text's width plus four, with a dot at half that width and spaces everywhere else |
| TimeDiffSeparator.InternalPaddingOneDot | src/main/java/com/dbw/output/TimeDiffSeparator.java:98-107 | the padding row holds exactly one dot |
| TimeDiffSeparator.TimeDiffRow | src/main/java/com/dbw/output/TimeDiffSeparator.java:109-116 | the time row is two spaces, the text, two spaces and a newline, as wide as a separator row |
| TimeDiffSeparator.Lines | src/main/java/com/dbw/output/TimeDiffSeparator.java:77-89 | the separator is seven rows of equal width |
| TimeDiffSeparator.ToStringLines | src/main/java/com/dbw/output/TimeDiffSeparator.java:77-96 | the printed separator is three dotted rows, the time row and three dotted rows again |
| OutputManager.Fold | src/main/java/com/dbw/output/OutputManager.java:27-36 | after a batch the last timestamp is that of the batch's last frame, or unchanged for an empty batch |
| OutputManager.FoldPrintsEachFrameOnce | src/main/java/com/dbw/output/OutputManager.java:29-36 | every drained frame is printed exactly once, in drain order |
| OutputManager.FoldSeparatorsPrecedeFrames | src/main/java/com/dbw/output/OutputManager.java:31-34 | each separator is immediately followed by a frame, and a non-empty batch prints something |
| OutputManager.FirstFrameHasNoSeparator | src/main/java/com/dbw/output/OutputManager.java:21 | with no earlier timestamp the output starts with the first frame itself |
| OutputManager.FrameOutputSeparator | src/main/java/com/dbw/output/OutputManager.java:30-34 | a frame's output ends with the frame and starts with a separator exactly when there is an earlier timestamp more than the threshold before it |
| OutputManager.SeparatorBeforeFrame | src/main/java/com/dbw/output/OutputManager.java:29-35 | the output for frame k is decided by the timestamp of frame k-1, or by the last timestamp of earlier batches for the first frame |
| OutputManager.FoldSplit | src/main/java/com/dbw/output/OutputManager.java:29-35 | the batch output splits at any frame into the output before it, its own output and the output after it |
| OutputManager.FoldSnoc | src/main/java/com/dbw/output/OutputManager.java:29-35 | adding a frame at the end of a batch adds its output at the end |
| OutputManager.ProcessBatch | src/main/java/com/dbw/output/OutputManager.java:27-36 | the loop over a drained batch prints every frame once, in order, with separators only directly before frames, and remembers the last frame's timestamp |
| ShowLatestOperationsOption.Create | src/main/java/com/dbw/cli/ShowLatestOperationsOption.java:41-58 | a plain number is a count, accepted exactly when it fits a short; otherwise the text must match `\d+(s\|m\|h)` once trimmed and gives a time in seconds between 0 and 32767 hours |
| ShowLatestOperationsOption.OneUnitLetter | src/main/java/com/dbw/cli/ShowLatestOperationsOption.java:50-51 | in a valid text `m` and `h` can only be the final unit letter, so the two multipliers never combine |
| ShowLatestOperationsOption.UnsignedParse | src/main/java/com/dbw/cli/ShowLatestOperationsOption.java:52 | the number parsed in the suffixed branch is never negative |
| ShowLatestOperationsOption.CreateSuffixed | src/main/java/com/dbw/cli/ShowLatestOperationsOption.java:50-55 | `<digits><unit>` is accepted exactly when the number fits a short, and gives the number times 1, 60 or 3600 seconds |
| ShowLatestOperationsOption.CreateTooLarge | src/main/java/com/dbw/cli/ShowLatestOperationsOption.java:45-52 | a number beyond a short fails to parse, with or without a unit |
| ShowLatestOperationsOption.CreateTwoHours | src/main/java/com/dbw/cli/ShowLatestOperationsOption.java:10-11 | `2h` is 7200 seconds |
| ShowLatestOperationsOption.CreateCount | src/main/java/com/dbw/cli/ShowLatestOperationsOption.java:43-45 | `50` is a count of 50 operations |
| ShowLatestOperationsOption.PaddedInputRejected | src/main/java/com/dbw/cli/ShowLatestOperationsOption.java:52-62 | every input that is valid only once trimmed fails to parse: a leading blank starts the parsed text, and with trailing blanks the unit letter stays in it |
| ShowLatestOperationsOption.PaddedFiveMinutes | src/main/java/com/dbw/cli/ShowLatestOperationsOption.java:41-52 | ` 5m` is one such input: it passes the pattern check on its trimmed text and is not already trimmed |
| Numbers.ParseInRange | src/main/java/com/dbw/cli/CLI.java:103-116 | a parse followed by a range check: only an optional sign and digits are accepted, with the signed value, and only within the range |
| Numbers.ParseShort | src/main/java/com/dbw/cli/CLI.java:106 | a short is accepted exactly within -32768..32767, a plain numeral exactly up to 32767 and with its own value, and every accepted short parses as the same int |
| Numbers.ParseInt | src/main/java/com/dbw/cli/CLI.java:181 | an int is accepted exactly within the 32-bit range, a plain numeral with its own value |
| Numbers.ParseShortSigned | src/main/java/com/dbw/cli/CLI.java:106 | a minus sign reaches 32768, a plus sign only 32767 |
| Numbers.CanonicalNumericIsPrinted | src/main/java/com/dbw/cli/CLI.java:91 | a numeric text without a leading zero is the printed form of its own value |
| Numbers.ParseDecimal | src/main/java/com/dbw/diff/TableDiffBuilder.java:18-24 | printing a number and parsing it back gives the number, as an int and, when it fits, as a short |
| Cli.GetDeleteFirstNRows | src/main/java/com/dbw/cli/CLI.java:88-97 | the option is accepted exactly when it is numeric or trims to the "all" symbol, and its value is returned untrimmed |
| Cli.ShortOption | src/main/java/com/dbw/cli/CLI.java:103-140 | a present option is accepted exactly when it parses as a short and passes its range check, and an unparsable one is a number-format error |
| Cli.GetInterval | src/main/java/com/dbw/cli/CLI.java:103-116 | the interval is accepted exactly when it parses as a short between 10 and 10000 |
| Cli.GetMaxColumnWidth | src/main/java/com/dbw/cli/CLI.java:118-128 | the column width is accepted exactly when it parses as a short above 3 |
| Cli.GetMaxRowWidth | src/main/java/com/dbw/cli/CLI.java:130-140 | the row width is accepted exactly when it parses as a short above 10 |
| Cli.GetTimeDiffSeparatorMinVal | src/main/java/com/dbw/cli/CLI.java:178-188 | the threshold is accepted exactly when it parses as an int that is not negative |
| Cli.RangeChecksOnDecimals | src/main/java/com/dbw/cli/CLI.java:103-140 | on printed decimal numbers the checks are exactly the stated ranges |
| Cli.GetOneOff | src/main/java/com/dbw/cli/CLI.java:142-148 | one-off mode fails exactly without `--latest`, and is otherwise whether the flag was given |
| Cli.GetShowLatestOperations | src/main/java/com/dbw/cli/CLI.java:162-168 | the `--latest` option succeeds exactly when its value is a valid count or duration |
| Cli.ListOptionToSet | src/main/java/com/dbw/cli/CLI.java:194-198 | no listed name contains a comma |
| Cli.ListOptionToSetJoin | src/main/java/com/dbw/cli/CLI.java:194-198 | a comma-joined list of names reads back as the set of those names |
| Cli.ListOption | src/main/java/com/dbw/cli/CLI.java:76-82 | the config paths and tables are present exactly when the option was given, as the set of its comma-separated names |
| Cli.ParseArgs | src/main/java/com/dbw/cli/CLI.java:47-70 | every flag reflects whether its option was given, and an error carries the debug flag |
| Cli.ParseArgsSpec | src/main/java/com/dbw/cli/CLI.java:57-68 | parsing fails exactly when one validated option fails; the error reported is the first failure in the source's order, and on success every validated field is that option's value |
| Cli.LatestPresentAndPositiveIff | src/main/java/com/dbw/cli/CLI.java:270-272 | on an accepted command line the latest-operations view is on exactly when `--latest` was given and its count or span is positive |
| Cli.LatestZeroIsOff | src/main/java/com/dbw/cli/CLI.java:270-272 | `--latest 0` alone is accepted, yet leaves the latest-operations view off |
| TruncateAction.WrapInt | src/main/java/com/dbw/actions/TruncateBasedOnLimitAction.java:24 | Java `int` arithmetic: the result is in range, congruent to the exact value modulo 2^32, and exact when that is in range |
| TruncateAction.RecordsToRemove | src/main/java/com/dbw/actions/TruncateBasedOnLimitAction.java:24 | the count to delete is the exact difference when that fits an int, and is non-negative when the minimum does not exceed the count |
| TruncateAction.Run | src/main/java/com/dbw/actions/TruncateBasedOnLimitAction.java:23-38 | with the flag held nothing happens; otherwise exactly one delete is issued first. After a success or a `SQLException` one error is logged per failed delete, the warning comes last and the flag is released; after an unchecked exception nothing is logged and the flag stays held |
| TruncateAction.SequentialRunsAllDelete | src/main/java/com/dbw/actions/TruncateBasedOnLimitAction.java:28-37 | runs one after another whose failures are all `SQLException`s each delete once, log one error per failure, and leave the flag free |
| TruncateAction.UncheckedFailureBlocksLaterRuns | src/main/java/com/dbw/actions/TruncateBasedOnLimitAction.java:28-37 | after the first unchecked exception the flag stays held: only the runs up to it delete, and every later run does nothing |
| TruncateAction.HeldFlagBlocksAll | src/main/java/com/dbw/actions/TruncateBasedOnLimitAction.java:25-27 | while the flag is held, any number of runs do nothing |
| Cache.CreatePersistentCacheIfDoesntExist | src/main/java/com/dbw/cache/Cache.java:36-40 | afterwards a cache exists; an existing one is kept, otherwise it is a fresh one |
| Cache.Load | src/main/java/com/dbw/cache/Cache.java:24-34 | after loading a cache exists: the one read, or a fresh one; the missing-file warning is logged exactly when the file was not found |
| Cache.CompareConfigFileChecksums | src/main/java/com/dbw/cache/Cache.java:42-52 | a config counts as unchanged exactly when the cache exists, holds the path and its checksum equals the current one |
| Cache.CreateOrGetConfigCache | src/main/java/com/dbw/cache/Cache.java:54-57 | without a cache this fails; otherwise it gives the stored entry, or a fresh one for an unknown path |
| Cache.GetConfigTables | src/main/java/com/dbw/cache/Cache.java:59-61 | this succeeds exactly when the cache holds the path, and gives its tables |
| Cache.IsConfigPresent | src/main/java/com/dbw/cache/Cache.java:96-98 | without a cache this fails; otherwise it says whether the path is stored |
| Cache.HaveLastUsedConfigPathsChanged | src/main/java/com/dbw/cache/Cache.java:63-72 | the paths count as changed when the cache or either set is missing, and otherwise exactly when the two sets differ |
| Cache.PathsChangedIff | src/main/java/com/dbw/cache/Cache.java:63-72 | the size-and-containment test is set inequality when both sets are present, and is true when the cache or either set is missing |
| Cache.SetLastUsedConfigPaths | src/main/java/com/dbw/cache/Cache.java:78-80 | without a cache this fails; otherwise only the last-used paths change |
| Cache.PersistThenLoad | src/main/java/com/dbw/cache/Cache.java:82-90 | the snapshot `persist` hands to the writer is read back by the next load as the same cache, with no warning |
| Cache.RemovalSurvivesReload | src/main/java/com/dbw/cache/Cache.java:82-103 | after `removeConfig` the persisted snapshot loads back as the cache without the entry, and the config then counts as changed |
| Cache.RemoveConfig | src/main/java/com/dbw/cache/Cache.java:100-103 | the path's entry is removed, every other entry and the last-used paths are kept, and the updated cache is persisted |
| Cache.RemovedConfigIsChanged | src/main/java/com/dbw/cache/Cache.java:42-57 | after removal the config counts as changed and gets a fresh entry |
| Cache.RemoveConfigIdempotent | src/main/java/com/dbw/cache/Cache.java:100-103 | removing the same config twice is the same as removing it once |
| Cache.LoadThenCompare | src/main/java/com/dbw/cache/Cache.java:24-52 | after a failed read every config counts as changed and gets a fresh entry |
| Database.SelectNames | src/main/java/com/dbw/db/Postgres.java:101-110 | the trigger loop succeeds exactly when a short can count the list and every name extracts; the results are in order |
| Database.TooManyTriggers | src/main/java/com/dbw/db/Postgres.java:105 | more than 32767 triggers always fail, because the short counter wraps |
| Database.DropTriggersThen | src/main/java/com/dbw/db/Postgres.java:121-123 | each watched table's trigger is dropped in list order, followed by the given statements |
| Postgres.ConnectionString | src/main/java/com/dbw/db/Postgres.java:43-54 | a configured connection string is used as is; otherwise the URL starts with `jdbc:` |
| Postgres.ConnectionStringFields | src/main/java/com/dbw/db/Postgres.java:48-53 | split on `/`, the assembled URL gives back the type, an empty piece, host and port, and the database name |
| Postgres.ExtractTableName | src/main/java/com/dbw/db/Postgres.java:106 | this fails exactly when the name has fewer than two `_`-separated pieces; otherwise it gives the second piece: the text after the first `_`, up to the next `_` or the end |
| Postgres.ExtractTableNameEdges | src/main/java/com/dbw/db/Postgres.java:106 | `a__b` gives the empty name, `_b` and `a_b_` give `b`, and `ab` fails |
| Postgres.SelectAuditTriggers | src/main/java/com/dbw/db/Postgres.java:101-110 | this succeeds exactly when a short counts the list and every name has two pieces, and gives each trigger's table in order |
| Postgres.ExtractFromTriggerName | src/main/java/com/dbw/db/Postgres.java:87 | from `dbw_<table>_audit` the part of the table name before its first `_` is recovered |
| Postgres.TriggerNameRoundTripIff | src/main/java/com/dbw/db/Postgres.java:87-106 | a table comes back from its trigger name exactly when its name holds no `_` |
| Postgres.SelectAuditTriggersOfTables | src/main/java/com/dbw/db/Postgres.java:101-110 | tables without `_`, countable by a short, come back in order from their trigger names |
| Postgres.Clean | src/main/java/com/dbw/db/Postgres.java:120-126 | the watched tables' triggers are dropped in order, then the audit function, then the audit table |
| Orcl.ConnectionStringOnlyFromOverride | src/main/java/com/dbw/db/Orcl.java:34-36 | host, port and name play no part in the connection string |
| Orcl.ExtractTableName | src/main/java/com/dbw/db/Orcl.java:73-75 | with non-empty affixes, removing every prefix and then every postfix never lengthens the name, and leaves a name holding neither unchanged |
| Orcl.SelectAuditTriggers | src/main/java/com/dbw/db/Orcl.java:68-79 | this succeeds exactly when a short counts the list (otherwise an index error) and gives each trigger's extracted table in order |
| Orcl.RoundTrip | src/main/java/com/dbw/db/Orcl.java:54-75 | a table comes back from `prefix + table + postfix` when no prefix occurs in `table + postfix` and no postfix starts inside the table |
| Orcl.StraddlingPrefix | src/main/java/com/dbw/db/Orcl.java:73-75 | table `XDBW` holds neither `DBW_` nor `_AUDIT`, yet comes back as `XAUDIT`, because a prefix forms across the boundary |
| Orcl.Clean | src/main/java/com/dbw/db/Orcl.java:109-114 | the watched tables' triggers are dropped in order, then the audit table, and no audit function is dropped |
| DatabaseFactory.GetDatabase | src/main/java/com/dbw/db/DatabaseFactory.java:8-15 | this succeeds exactly for the PostgreSQL or Oracle type, picks PostgreSQL exactly for its type, keeps the configuration, and otherwise fails with an unknown-type error |
| DatabaseFactory.DispatchOnlyByType | src/main/java/com/dbw/db/DatabaseFactory.java:8-15 | only the type decides the dialect |
| DatabaseFactory.PostgresTakesPrecedence | src/main/java/com/dbw/db/DatabaseFactory.java:9-11 | PostgreSQL is checked first |
| DatabaseFactory.ConnectionStringByDialect | src/main/java/com/dbw/db/Orcl.java:34-36 | a configured connection string is always used; Oracle passes the configured string on as it is, absent included, so only PostgreSQL builds one when none is configured |

## Left out

- I/O is not modelled: reading the cache file, the cache-writer thread, the console output, the logger text and the JDBC calls. Loads take the read's outcome as a parameter. Persists return the snapshot. Schema statements and log lines become a trace of events.
- `OutputManager.pollAndOutput`'s endless loop, its sleep and the frame queue are not modelled. The model covers one drained batch.
- Concurrency is not modelled. The purge flag in `TruncateBasedOnLimitAction` is read and written non-atomically, and runs are modelled one after another.
- `Database` (the shared base class), `DatabaseType`, `Common`, `QueryBuilder`, `PersistentCache`, `ConfigCache`, `StateColumn`, `StateDiffService`, `XmlStateTag` and the SQL query texts are not part of this model.
  - Their constants are parameters.
  - A fresh `ConfigCache` is taken to have no checksum and no tables.
  - A fresh `PersistentCache` is taken to have no entries and no last-used paths.
  - A dropped trigger is recorded by its table name.
- `StateColumn.compare`, `StateColumn.getMaxLength`, `stateValueToString` and `Diff.parseData` are parameters. Properties are stated for every choice of them.
- The frame and column order are not modelled in full. `Set` iteration order in `AuditFrame.createStateColumns` is taken to be the state's listed column order. A state is a list of distinct name/value pairs.
- `HtmlInXmlEscaper`: the column-state start and end tags are compiled as regular expressions. The model matches them as literal text, which is what they are for tag strings without regex metacharacters. `.+?` is modelled as the shortest non-empty run of non-line-terminator characters.
- `Postgres.connect`, `Orcl.connect`, `prepare`, `auditTableExists`, `createAuditTable`, `createAuditTrigger`, `selectMaxId`, `selectAuditRecords`, `Orcl.selectTableColumns` and `close` are left out. These are JDBC and SQL calls with no logic of their own beyond the query they send.
- `TimeDiffSeparator.getTimeDiffInMillis` is not modelled. It is `Duration.between` on two timestamps, and the model takes the timestamps as millisecond counts.
- `TimeDiffSeparator.Create`: the threshold is a non-negative number. The source's assignment of the `Integer` option to a `short` is not narrowed.
- The port is kept as the text it is printed as.
- `ShowLatestOperationsOption.Create`: the `long` products cannot overflow, because the values are at most 32767 times 3600. They are modelled as exact.
- Numbers.ParseInRange: only ASCII digits are accepted. `Short.parseShort` and `Integer.parseInt` read digits with `Character.digit` and also accept other Unicode decimal digits, so `--interval ١٠٠` is 100 in Java and a number-format error here.
- Numbers.IsNumeric: `StringUtils.isNumeric` is a project helper that is not part of this model. It is taken to hold exactly for a non-empty run of ASCII digits.
- TableDiffBuilder.FitValue: lengths and the cut point count characters, where Java's `length()` and `substring` count UTF-16 code units. The two agree on text of the Basic Multilingual Plane (`FitValueOnBmp`). Outside it they part: nine U+1F600 at width 17 are cut to seven emoji plus `...` in Java and padded with 8 spaces here (`AstralValuePadded`). A `substring` that splits a surrogate pair cannot be expressed over characters. `Cell`, `Line`, `LinesCut`, `LinesTextLength` and `RowLength` inherit this.
- AuditFrame.CreateStateColumns: when it throws, the source has already replaced the frame's columns by an empty list. The failure carries no frame, so that empty list is not modelled.
- Diff.CopyOf: column names are never null; only values are.
- TruncateAction.Run: an unchecked exception thrown by `getDb` before the delete is recorded as an attempted delete, like one thrown by the delete itself.
- The commons-cli parsing of `args` into options is not modelled. The command line is given already parsed, as a map from option to its text.

## Findings

| source | as written | input that shows it | evidently intended | confidence | as-written member | corrected member |
|---|---|---|---|---|---|---|
| src/main/java/com/dbw/util/HtmlInXmlEscaper.java:75-77 | the escaped content replaces every occurrence of the raw content in the whole document, tags included | `<c>/</c>` with tags `<c>`, `</c>` becomes `<c>&#47;<&#47;c>` | only the text between the matched tags is escaped: `<c>&#47;</c>` | high, not executed | HtmlInXmlEscaper.AsWrittenCorruptsEndTag | HtmlInXmlEscaper.CorrectedKeepsEndTag |
| src/main/java/com/dbw/util/HtmlInXmlEscaper.java:51-55 | every match triggers a global replacement, so content shared by two elements is escaped again inside already escaped text | `<c>&</c><c>&</c>` becomes `<c>&amp;amp;</c><c>&amp;amp;</c>` | each element escaped once: `<c>&amp;</c><c>&amp;</c>` | high, not executed | HtmlInXmlEscaper.AsWrittenEscapesTwice | HtmlInXmlEscaper.CorrectedEscapesOnce |
