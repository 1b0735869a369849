# SimpleExecutionTimer in Dafny

This is a functional model of `SimpleExecutionTimer`, a small Android helper. A caller starts the timer, adds named
steps and logs a report of the time each step took and the time since the start. The report is laid out as aligned
tables.

The model has two parts, as the Java class does:

- **The recorder** (`timer.dfy`, `steps.dfy`). The timer is an immutable `Timer` record, and `start`, `addStep`,
  `log`, `computeResults`, `disableIf`, `disableIfNot`, `withMillisPrecision` and `withNanoPrecision` are functions from the old record to the new one.
  - Each clock reading is the parameter `now`.
  - The step map, a `LinkedHashMap<String, Long>`, is a sequence of entries with distinct names.
  - Java `long` subtraction wraps around in 64-bit two's complement (`int64.dfy`).
- **The logger** (`templates.dfy`, `tables.dfy`, `text.dfy`, `decimal.dfy`).
  - `{token}` substitution (`replaceVariables`).
  - `String.split("\\|")`, which drops trailing empty fields.
  - The widest field per column, grouped by field count (`computeMaxLengths`). Widths are counted as
    `String.length()` counts them, in UTF-16 code units (`Text.JavaLength`).
  - Aligned rendering (`buildTables`). A line that splits to no field, or to more than 10, ends in the
    `ArrayIndexOutOfBoundsException` the Java code would throw.
  - `print` returns the emitted lines instead of handing them to the Android log.

`Run` applies a sequence of calls, so properties that span several calls can be stated: nothing is recorded while
disabled, and the total is computed once per start.

Steps are not an append-only log. `addStep` puts into a `LinkedHashMap`, so a reused label keeps its first position
and only its time changes; the model does the same (`Steps.Put`).
`DelaysMissTotal` shows the consequence: when the most recent `addStep` reused a label that is not the map's last
entry (and the readings differ), the delays in the report do not add up to the total. `ReusedNameBreaksSum` gives an
instance with concrete delays.

## Model

| member | source | states |
|---|---|---|
| ExecutionTimer.Create | ExecutionTimer/src/main/java/com/nefalas/executiontimer/SimpleExecutionTimer.java:21-37 | a new timer is disabled, has no pending disable request, millisecond precision, no steps and an empty log buffer |
| ExecutionTimer.DisableIf | ExecutionTimer/src/main/java/com/nefalas/executiontimer/SimpleExecutionTimer.java:39-43 | records the request and nothing else: every other field of the timer, whether it is enabled, its steps and its buffer included, is unchanged |
| ExecutionTimer.DisableIfNot | ExecutionTimer/src/main/java/com/nefalas/executiontimer/SimpleExecutionTimer.java:45-49 | records the inverted request and nothing else: every other field of the timer is unchanged |
| ExecutionTimer.WithPrecision | ExecutionTimer/src/main/java/com/nefalas/executiontimer/SimpleExecutionTimer.java:51-61 | sets the precision and nothing else: every other field of the timer is unchanged |
| ExecutionTimer.PrecisionRelabels | ExecutionTimer/src/main/java/com/nefalas/executiontimer/SimpleExecutionTimer.java:101-124 | changing the precision changes only the unit in the report: the same number of lines, the same name and column headers, the same numbers, and the new unit in the total header and in every step row |
| ExecutionTimer.Start | ExecutionTimer/src/main/java/com/nefalas/executiontimer/SimpleExecutionTimer.java:63-75 | with a disable request the timer comes back identical; otherwise it is enabled and not computed, the steps are emptied, the last reading is 0 and the start is the reading, and every other field (name, disable request, precision, buffer, previous total) is kept |
| ExecutionTimer.AddStep | ExecutionTimer/src/main/java/com/nefalas/executiontimer/SimpleExecutionTimer.java:77-84 | a disabled timer is returned unchanged; an enabled one takes the reading as its last recorded time and puts it under the name; no other field changes, and the step names stay distinct |
| ExecutionTimer.AddStepRecords | ExecutionTimer/src/main/java/com/nefalas/executiontimer/SimpleExecutionTimer.java:82-83 | after an enabled `addStep` the name maps to the reading and every other name to its old time; a new name goes at the end of the order and a known one keeps its place |
| ExecutionTimer.NewNameIsLast | ExecutionTimer/src/main/java/com/nefalas/executiontimer/SimpleExecutionTimer.java:82-83 | a step under a new name becomes the last entry of the map, holding the reading |
| Steps.Put | ExecutionTimer/src/main/java/com/nefalas/executiontimer/SimpleExecutionTimer.java:83 | `LinkedHashMap.put`: a known name keeps the name order, a new name is appended, and every entry under another name is unchanged |
| Steps.PutKeepsDistinct | ExecutionTimer/src/main/java/com/nefalas/executiontimer/SimpleExecutionTimer.java:83 | putting into a map with distinct names keeps the names distinct |
| Steps.GetAfterPut | ExecutionTimer/src/main/java/com/nefalas/executiontimer/SimpleExecutionTimer.java:83 | reading after a put gives the new time for that name and the old value, or absence, for every other name |
| Steps.IndexOf | ExecutionTimer/src/main/java/com/nefalas/executiontimer/SimpleExecutionTimer.java:83 | finds the first entry carrying a name, and finds none exactly when the name is absent |
| ExecutionTimer.ComputeResults | ExecutionTimer/src/main/java/com/nefalas/executiontimer/SimpleExecutionTimer.java:95-99 | the total is the last reading minus the start in wrapping `long` arithmetic, the computed flag is set, and nothing else changes |
| Int64.Sub | ExecutionTimer/src/main/java/com/nefalas/executiontimer/SimpleExecutionTimer.java:96 | Java `long` subtraction: the exact difference when it fits in 64 bits, otherwise the difference moved by 2^64 back into range |
| ExecutionTimer.Log | ExecutionTimer/src/main/java/com/nefalas/executiontimer/SimpleExecutionTimer.java:86-126 | a disabled timer emits nothing and is unchanged; an enabled one is marked computed, its total recomputed only if it was not yet computed, and no other field but the buffer changes; the report of the computed timer is appended to the buffer, and on success the tables of the whole buffer are printed and the buffer cleared, while on a layout exception nothing is printed, the outcome is the `IndexOutOfBounds` fault that `buildTables` raises on the buffer, and the buffer keeps every line |
| ExecutionTimer.LogResults | ExecutionTimer/src/main/java/com/nefalas/executiontimer/SimpleExecutionTimer.java:101-126 | the report is appended to the buffer and the buffer laid out; on success the laid-out lines are emitted and the buffer cleared, and on a layout exception the outcome is the `IndexOutOfBounds` fault that `buildTables` raises on the buffer, and the buffer keeps every line |
| ExecutionTimer.StepRows | ExecutionTimer/src/main/java/com/nefalas/executiontimer/SimpleExecutionTimer.java:109-121 | one row per step in map order: the first delay is measured from the start, every later one from the previous step, and each time since the start from the start |
| ExecutionTimer.Telescope | ExecutionTimer/src/main/java/com/nefalas/executiontimer/SimpleExecutionTimer.java:109-121 | a `long` accumulator summing the first k+1 delays holds row k's time since the start, even when the subtractions wrap around |
| ExecutionTimer.ExactTelescope | ExecutionTimer/src/main/java/com/nefalas/executiontimer/SimpleExecutionTimer.java:109-121 | when the exact sum of the first k+1 delays fits in a `long`, it equals, as an integer, row k's time since the start, whatever the partial sums on the way |
| ExecutionTimer.DelaysAddUp | ExecutionTimer/src/main/java/com/nefalas/executiontimer/SimpleExecutionTimer.java:109-121 | all the delays, summed in `long` arithmetic, add up to the last step's time since the start |
| ExecutionTimer.DelaysAddUpToTotal | ExecutionTimer/src/main/java/com/nefalas/executiontimer/SimpleExecutionTimer.java:95-121 | when the last map entry holds the last reading, the delays of the report add up, in `long` arithmetic, to the total that `computeResults` sets |
| ExecutionTimer.DelaysMissTotal | ExecutionTimer/src/main/java/com/nefalas/executiontimer/SimpleExecutionTimer.java:95-121 | when the last map entry does not hold the last reading, the delays of the report, summed in `long` arithmetic, differ from the total that `computeResults` sets |
| ExecutionTimer.ReusedNameBreaksSum | ExecutionTimer/src/main/java/com/nefalas/executiontimer/SimpleExecutionTimer.java:77-121 | for every start time at least 30 below the `long` maximum, reusing a label gives delays 30 and -10, which sum to 20, while the total is 30 |
| ExecutionTimer.TotalWithoutSteps | ExecutionTimer/src/main/java/com/nefalas/executiontimer/SimpleExecutionTimer.java:63-99 | started and logged with no step, the total is 0 minus the start and the report has no step row |
| ExecutionTimer.Unit | ExecutionTimer/src/main/java/com/nefalas/executiontimer/SimpleExecutionTimer.java:150-165 | the unit is a two-letter name ending in `s` that holds neither a brace nor a bar |
| ExecutionTimer.Report | ExecutionTimer/src/main/java/com/nefalas/executiontimer/SimpleExecutionTimer.java:101-124 | the buffered report has 7 + n lines and ends with a blank line, and line 6 + k is step k's row, formatted with the timer's unit |
| ExecutionTimer.ReportLines | ExecutionTimer/src/main/java/com/nefalas/executiontimer/SimpleExecutionTimer.java:101-124 | the buffered report is 7 + n lines: a blank line, the name header, the total header with the decimal total and the unit, a blank line, the column header, a blank line, one row per step holding its name, its delay with the unit and its time since the start, separated by bars, and a closing blank line |
| ExecutionTimer.HeaderLines | ExecutionTimer/src/main/java/com/nefalas/executiontimer/SimpleExecutionTimer.java:102-107 | the six header lines as they are buffered, before `buildTables` lays them out, for any timer name |
| ExecutionTimer.NameHeader | ExecutionTimer/src/main/java/com/nefalas/executiontimer/SimpleExecutionTimer.java:103 | the `{name}` header carries the name exactly, whatever characters it holds apart from `$` and `\` |
| ExecutionTimer.TotalHeader | ExecutionTimer/src/main/java/com/nefalas/executiontimer/SimpleExecutionTimer.java:104 | the total header carries the total in decimal and then the unit |
| ExecutionTimer.ColumnHeader | ExecutionTimer/src/main/java/com/nefalas/executiontimer/SimpleExecutionTimer.java:106 | the column header holds no token and comes out as written |
| ExecutionTimer.RowPattern | ExecutionTimer/src/main/java/com/nefalas/executiontimer/SimpleExecutionTimer.java:121 | once `{precision}` is replaced, the row template becomes the bar-separated pattern of a `%s`, a `%d` followed by the unit, and a `%d`, which `RowLine` fills in |
| ExecutionTimer.DisabledUntilStart | ExecutionTimer/src/main/java/com/nefalas/executiontimer/SimpleExecutionTimer.java:77-93 | a disabled timer records nothing and emits nothing under any sequence of calls without `start` |
| ExecutionTimer.FreshTimerSilent | ExecutionTimer/src/main/java/com/nefalas/executiontimer/SimpleExecutionTimer.java:22 | a new timer emits nothing and records no step until its first `start` |
| ExecutionTimer.RequestedDisableSilences | ExecutionTimer/src/main/java/com/nefalas/executiontimer/SimpleExecutionTimer.java:63-66 | a never-started timer with a disable request ignores every `start`, so as long as the request stands it records and emits nothing |
| ExecutionTimer.TotalComputedOnce | ExecutionTimer/src/main/java/com/nefalas/executiontimer/SimpleExecutionTimer.java:91 | once computed, the total survives every later call except `start`, even when more steps are added |
| ExecutionTimer.RowLine | ExecutionTimer/src/main/java/com/nefalas/executiontimer/SimpleExecutionTimer.java:121 | a step row whose name holds no bar splits back into its name, its delay with the unit, and its time since the start |
| ExecutionTimer.SplitColumnHeader | ExecutionTimer/src/main/java/com/nefalas/executiontimer/SimpleExecutionTimer.java:106 | the column header splits into its three titles |
| ExecutionTimer.PlainReportSplits | ExecutionTimer/src/main/java/com/nefalas/executiontimer/SimpleExecutionTimer.java:229-231 | when the names hold no bar, every report line splits into 1 to 10 fields: the headers into themselves, the column header into its titles and each step row into 3 |
| ExecutionTimer.PlainReportLayout | ExecutionTimer/src/main/java/com/nefalas/executiontimer/SimpleExecutionTimer.java:86-126 | with an empty buffer and names without bars, `log` never throws: it emits 7 + n lines, clears the buffer, prints the two headers unchanged, and makes every step row as long as the column header in UTF-16 code units |
| ExecutionTimer.PlainTables | ExecutionTimer/src/main/java/com/nefalas/executiontimer/SimpleExecutionTimer.java:228-260 | laying out a report with plain names succeeds, keeps the one-field headers as they are, and gives the step rows the length of the column header in UTF-16 code units |
| Templates.ReplaceVariablesExpands | ExecutionTimer/src/main/java/com/nefalas/executiontimer/SimpleExecutionTimer.java:185-187 | if literal text and the unit hold no `{`, substitution gives exactly the template's independent expansion: every token becomes the value read at format time and all literal text is kept |
| Templates.ReplacePass | ExecutionTimer/src/main/java/com/nefalas/executiontimer/SimpleExecutionTimer.java:214-226 | one replace-all pass turns exactly the occurrences of one token into its value |
| Templates.ReplaceVariables | ExecutionTimer/src/main/java/com/nefalas/executiontimer/SimpleExecutionTimer.java:214-226 | a text without `{` holds no token and comes back from substitution unchanged |
| Tables.MaxLengths | ExecutionTimer/src/main/java/com/nefalas/executiontimer/SimpleExecutionTimer.java:262-288 | slot n (0 to 10) is null exactly when no row has n fields, and otherwise holds, per column, a width in UTF-16 code units that bounds every n-field row and that some row attains |
| Tables.AbsorbKeepsMaxWidths | ExecutionTimer/src/main/java/com/nefalas/executiontimer/SimpleExecutionTimer.java:264-285 | one loop iteration keeps the invariant: each non-null slot is the column-wise maximum over the rows seen so far; rows with more than 10 fields are skipped |
| Tables.WidthsFit | ExecutionTimer/src/main/java/com/nefalas/executiontimer/SimpleExecutionTimer.java:247 | every row with at most 10 fields has its slot filled and fits it, so the padding is never negative |
| Tables.BuildTables | ExecutionTimer/src/main/java/com/nefalas/executiontimer/SimpleExecutionTimer.java:228-260 | succeeds exactly when every line splits into 1 to 10 fields, otherwise fails with the index exception; on success it gives one line per buffered line in order, a one-field line as its field and longer ones rendered against the widths, in UTF-16 code units, for their field count |
| Tables.RenderLineFacts | ExecutionTimer/src/main/java/com/nefalas/executiontimer/SimpleExecutionTimer.java:236-241 | a row fails exactly when it has no field (line 237) or more than 10 (line 241), in both cases with an index exception |
| Tables.RenderLine | ExecutionTimer/src/main/java/com/nefalas/executiontimer/SimpleExecutionTimer.java:236-256 | a row with no field fails with the index exception (line 237) and a one-field row is its field; a row of 2 or more fields fails with the index exception past slot 10 and with the null pointer exception when its slot is null, and is otherwise rendered against its slot's widths when it fits them |
| Tables.RenderLines | ExecutionTimer/src/main/java/com/nefalas/executiontimer/SimpleExecutionTimer.java:235-259 | succeeds exactly when every row renders, giving the rows in order; a failure is the exception of some row |
| Tables.RenderRow | ExecutionTimer/src/main/java/com/nefalas/executiontimer/SimpleExecutionTimer.java:242-256 | a rendered row starts with the two-space indent, and when the fields fit it is 2 + (sum of the widths) + 2n UTF-16 code units long |
| Tables.CellAt | ExecutionTimer/src/main/java/com/nefalas/executiontimer/SimpleExecutionTimer.java:242-256 | what precedes column i is 2 + (widths before i) + 2i UTF-16 code units long, column i holds field i padded to exactly its width, and two spaces follow it |
| Tables.CellShape | ExecutionTimer/src/main/java/com/nefalas/executiontimer/SimpleExecutionTimer.java:245-252 | a cell is exactly its column's width in UTF-16 code units: the first column holds the field followed by spaces, the others spaces followed by the field |
| Tables.SameWidthsSameLayout | ExecutionTimer/src/main/java/com/nefalas/executiontimer/SimpleExecutionTimer.java:241-256 | two rows rendered against the same widths are equally long in UTF-16 code units and hold each column at the same offset |
| Tables.SameShapeSameWidths | ExecutionTimer/src/main/java/com/nefalas/executiontimer/SimpleExecutionTimer.java:241 | in the output, two lines with the same field count (2 to 10) are rendered against the same widths and are equally long in UTF-16 code units |
| Text.Split | ExecutionTimer/src/main/java/com/nefalas/executiontimer/SimpleExecutionTimer.java:230 | a string without a bar is one field (so the empty string is one empty field); otherwise the pieces between bars, with trailing empty pieces dropped; no field holds a bar |
| Text.SplitJoin | ExecutionTimer/src/main/java/com/nefalas/executiontimer/SimpleExecutionTimer.java:230 | joining the fields with bars gives back the line, apart from the trailing bars that were dropped |
| Text.SplitRow | ExecutionTimer/src/main/java/com/nefalas/executiontimer/SimpleExecutionTimer.java:230 | a line whose last field is non-empty keeps all its fields, empty ones included |
| Text.FieldsConcat | ExecutionTimer/src/main/java/com/nefalas/executiontimer/SimpleExecutionTimer.java:230 | splitting at a bar gives the fields of the part before it followed by those of the part after it |
| Text.ReplaceAll | ExecutionTimer/src/main/java/com/nefalas/executiontimer/SimpleExecutionTimer.java:219 | replacing a pattern by itself gives back the text |
| Text.ReplaceAllJoin | ExecutionTimer/src/main/java/com/nefalas/executiontimer/SimpleExecutionTimer.java:219 | when `pat[0]` only ever opens an occurrence of `pat`, replace-all substitutes the value for each occurrence and changes nothing else |
| Decimal.Dec | ExecutionTimer/src/main/java/com/nefalas/executiontimer/SimpleExecutionTimer.java:186 | the decimal text of a number is non-empty and all digits after an optional minus, the minus is there exactly when the number is negative, and the digits have no leading zero unless the number is 0, which is written "0" |
| Decimal.ParseDec | ExecutionTimer/src/main/java/com/nefalas/executiontimer/SimpleExecutionTimer.java:186 | reading the decimal text of a number back gives the number, so the rendering loses nothing |
| Decimal.DecHasNoSpecial | ExecutionTimer/src/main/java/com/nefalas/executiontimer/SimpleExecutionTimer.java:121 | a rendered number holds no bar, no `{` and no `%`, so it never splits a row or opens a token |

## Left out

- The clock (`getTime`, `System.nanoTime`, `System.currentTimeMillis`) is not modelled. Each reading is the
  parameter `now` of `Start` and `AddStep`, so a reading's dependence on the precision is not modelled either.
- The Android log sink is not modelled: `Log.i`, the `LogFunction` interface and `setLogFunction`. `print` returns
  the lines it would hand to the sink, in order.
- General `String.format` is not modelled. Only the one pattern the timer uses, `%s|%d<unit>|%d`, is modelled
  (`RowLine`): the name as it is, then the two numbers in decimal with `Locale.ENGLISH` (no grouping).
- `Templates.ReplaceVariables` models `replaceAll` as literal replacement. Java reads the value as a regular-expression
  replacement: `$` followed by a digit names a group, and `\` escapes the next character. Only a timer name can hold
  them; the total and the unit never do. For such a name Java either substitutes other text or throws: on `$1`, on
  a `$` not followed by a group, on a trailing `\`. The `catch` at lines 220-222 then prints a stack trace and leaves
  `{name}` in the header unreplaced. Neither path is modelled.
- `Templates.ReplaceVariables` replaces the tokens in the order `total`, `precision`, `name`. That is the order in
  which a default-capacity `HashMap` visits these three keys; the Java language does not promise any order.
  `ReplaceVariablesExpands` assumes the unit holds no `{`, which both units meet. The name may hold anything, because
  it is substituted last.
- The `catch` branch of `replaceVariables` (lines 220-222) is otherwise unreachable: the three producers cannot throw,
  and the total and the unit give `replaceAll` a valid replacement.
- Strings are sequences of Unicode scalar values. A Java string holding an unpaired surrogate cannot be represented.
- The `null` check at line 111 is not modelled: a boxed reading in the map is never null.
- A `null` name or label is not modelled: names and labels are strings.
- Exceptions from `buildTables` are modelled as `Tables.Fault`, and `Apply` drops them. The Java exception would
  propagate out of `log()` to the caller.
- Concurrency is not modelled: the class is single-threaded.
- The test file is not modelled: it only sleeps and calls `log()`, and asserts nothing.
- ExecutionTimer.DelaysAddUpToTotal: requires that the last map entry holds the last reading. That fails when the
  most recent `addStep` reused a label that is not the map's last entry (and the readings differ), and
  `DelaysMissTotal` shows the sum then always differs from the total.
- ExecutionTimer.PlainReportLayout: states the layout only for names without `|`. A bar in a name changes the
  report's field counts, and `BuildTables` covers that general case.
