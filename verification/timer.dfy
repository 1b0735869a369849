/**
 `SimpleExecutionTimer`: the recorder and the report it logs.

 The timer is an immutable record and each public method a function from
 the old record to the new one. Whatever the Java code reads from the clock
 (`getTime`, which picks `System.nanoTime` or `System.currentTimeMillis` by
 precision) is the parameter `now`. What the logger hands to its log
 function is returned as the sequence of emitted lines.
 */
module ExecutionTimer {

  import opened Wrappers
  import opened Int64
  import opened Decimal
  import opened Text
  import opened Templates
  import opened Tables
  import opened Steps

  datatype Precision = Millis | Nano

  /** `Precision.toString`: the unit printed after the times. */
  function Unit(p: Precision): (s: string)
    ensures |s| == 2 && s[1] == 's' && Opener !in s && Bar !in s
  {
    match p
    case Millis => "ms"
    case Nano => "ns"
  }

  datatype Timer = Timer(
    name: string,
    isDisabled: bool,
    didRequestDisable: bool,
    precision: Precision,
    steps: seq<Step>,
    didCompute: bool,
    start: Long,
    lastRecordedTime: Long,
    total: Long,
    /** The logger's buffer of lines not yet printed. */
    logs: seq<string>)

  /** The timer's recorded steps form a map. */
  predicate Valid(t: Timer) {
    DistinctNames(t.steps)
  }

  /**
   `new SimpleExecutionTimer(name)`: disabled until it is started, with
   millisecond precision, nothing recorded and an empty log buffer. (The
   Java step map is null until `start`; it is only read while enabled.)
   */
  function Create(name: string): (t: Timer)
    ensures t.isDisabled && !t.didRequestDisable && t.precision == Millis
    ensures Valid(t) && t.steps == [] && t.logs == [] && t.name == name
  {
    Timer(name, true, false, Millis, [], false, 0, 0, 0, [])
  }

  /** `disableIf`: only records the request; a running timer is not stopped by it. */
  function DisableIf(t: Timer, disable: bool): (r: Timer)
    ensures r.didRequestDisable == disable
    ensures r == t.(didRequestDisable := r.didRequestDisable)
  {
    t.(didRequestDisable := disable)
  }

  /** `disableIfNot`: the inverted request. */
  function DisableIfNot(t: Timer, enable: bool): (r: Timer)
    ensures r.didRequestDisable == !enable
    ensures r == t.(didRequestDisable := r.didRequestDisable)
  {
    t.(didRequestDisable := !enable)
  }

  /** `withMillisPrecision` and `withNanoPrecision`: only the precision changes. */
  function WithPrecision(t: Timer, p: Precision): (r: Timer)
    ensures r.precision == p
    ensures r == t.(precision := r.precision)
  {
    t.(precision := p)
  }

  /**
   `start`: ignored when a disable was requested (the timer is left exactly
   as it was, enabled or not); otherwise enables the timer, forgets the steps
   and the computed total, resets the last reading to 0 and takes `now` as the
   start. The log buffer and the last total are left alone.
   */
  function Start(t: Timer, now: Long): (r: Timer)
    ensures t.didRequestDisable ==> r == t
    ensures !t.didRequestDisable ==>
              && !r.isDisabled && !r.didCompute && r.steps == [] && r.start == now && r.lastRecordedTime == 0
              && r == t.(isDisabled := r.isDisabled, didCompute := r.didCompute, steps := r.steps,
                         start := r.start, lastRecordedTime := r.lastRecordedTime)
    ensures Valid(r) || r == t
  {
    if t.didRequestDisable then t
    else t.(isDisabled := false, didCompute := false, steps := [], start := now, lastRecordedTime := 0)
  }

  /**
   `addStep`: ignored while disabled; otherwise the reading becomes the last
   recorded time and is put under `name` in the step map. Nothing else
   changes.
   */
  function AddStep(t: Timer, name: string, now: Long): (r: Timer)
    requires Valid(t)
    ensures Valid(r)
    ensures t.isDisabled ==> r == t
    ensures !t.isDisabled ==>
              && r.lastRecordedTime == now
              && r.steps == Put(t.steps, name, now)
              && r == t.(lastRecordedTime := now, steps := r.steps)
  {
    if t.isDisabled then t
    else
      PutKeepsDistinct(t.steps, name, now);
      t.(lastRecordedTime := now, steps := Put(t.steps, name, now))
  }

  /**
   What an enabled `addStep` does to the step map: the name now maps to the
   reading and every other name to what it mapped to before; a new name is
   added at the end of the order and a known one keeps its place.
   */
  lemma AddStepRecords(t: Timer, name: string, now: Long, other: string)
    requires Valid(t) && !t.isDisabled
    ensures var r := AddStep(t, name, now);
            && Get(r.steps, name) == Some(now)
            && (other != name ==> Get(r.steps, other) == Get(t.steps, other))
            && (name in Names(t.steps) ==> Names(r.steps) == Names(t.steps))
            && (name !in Names(t.steps) ==> Names(r.steps) == Names(t.steps) + [name])
  {
    GetAfterPut(t.steps, name, now, other);
  }

  /** `computeResults`: the total is the last reading less the start, in `long` arithmetic. */
  function ComputeResults(t: Timer): (r: Timer)
    ensures r.didCompute
    ensures r.total == Sub(t.lastRecordedTime, t.start)
    ensures r == t.(didCompute := true, total := r.total)
  {
    t.(total := Sub(t.lastRecordedTime, t.start), didCompute := true)
  }

  // ---------------------------------------------------------------------------
  // The report
  // ---------------------------------------------------------------------------

  /** One line of the step table: the step's own delay and its delay since the start. */
  datatype StepRow = StepRow(name: string, elapsed: Long, elapsedTotal: Long)

  /**
   The loop of `logResults`: each step's time less the previous step's (the
   first one's less `previous`), and less the start.
   */
  function StepRows(steps: seq<Step>, previous: Long, start: Long): (rows: seq<StepRow>)
    ensures |rows| == |steps|
    ensures forall k :: 0 <= k < |steps| ==>
              rows[k].name == steps[k].name && rows[k].elapsedTotal == Sub(steps[k].time, start)
    ensures |steps| > 0 ==> rows[0].elapsed == Sub(steps[0].time, previous)
    ensures forall k :: 0 < k < |steps| ==> rows[k].elapsed == Sub(steps[k].time, steps[k - 1].time)
  {
    if |steps| == 0 then []
    else
      [StepRow(steps[0].name, Sub(steps[0].time, previous), Sub(steps[0].time, start))]
        + StepRows(steps[1..], steps[0].time, start)
  }

  /** The sum of the first `j` step delays, as mathematical integers. */
  function ElapsedSum(rows: seq<StepRow>, j: nat): int
    requires j <= |rows|
  {
    if j == 0 then 0 else ElapsedSum(rows, j - 1) + rows[j - 1].elapsed
  }

  /** The sum of the first `j` step delays, as a `long` accumulator holds it. */
  function LongSum(rows: seq<StepRow>, j: nat): Long
    requires j <= |rows|
  {
    if j == 0 then 0 else Add(LongSum(rows, j - 1), rows[j - 1].elapsed)
  }

  /**
   The delays telescope: the first `k + 1` of them add up, in `long`
   arithmetic, to row `k`'s time since the start.
   */
  lemma {:induction false} Telescope(steps: seq<Step>, start: Long, k: nat)
    requires k < |steps|
    ensures var rows := StepRows(steps, start, start);
            LongSum(rows, k + 1) == rows[k].elapsedTotal
  {
    if k > 0 {
      Telescope(steps, start, k - 1);
      AddSub(steps[k - 1].time, steps[k].time, start);
    }
  }

  /** The `long` sum differs from the exact one by whole turns of 2^64. */
  lemma {:induction false} LongSumWraps(rows: seq<StepRow>, j: nat) returns (turns: int)
    requires j <= |rows|
    ensures ElapsedSum(rows, j) == LongSum(rows, j) + turns * Modulus
  {
    if j == 0 {
      turns := 0;
    } else {
      var before := LongSumWraps(rows, j - 1);
      var sum := LongSum(rows, j - 1);
      var e := rows[j - 1].elapsed;
      if Add(sum, e) == sum + e {
        turns := before;
      } else if Add(sum, e) == sum + e - Modulus {
        turns := before + 1;
      } else {
        turns := before - 1;
      }
    }
  }

  /** When the exact sum fits a `long`, the delays add up exactly to the time since the start. */
  lemma {:induction false} ExactTelescope(steps: seq<Step>, start: Long, k: nat)
    requires k < |steps|
    requires MinLong <= ElapsedSum(StepRows(steps, start, start), k + 1) <= MaxLong
    ensures ElapsedSum(StepRows(steps, start, start), k + 1) == StepRows(steps, start, start)[k].elapsedTotal
  {
    Telescope(steps, start, k);
    var turns := LongSumWraps(StepRows(steps, start, start), k + 1);
  }

  /** What the logger's three producers return when a line is formatted. */
  function BindingsOf(t: Timer): Bindings {
    Bindings(t.name, t.total, Unit(t.precision))
  }

  const NameTemplate: seq<Piece> := [Lit("--- Execution time for "), Var(NameToken), Lit(" ---")]
  const TotalTemplate: seq<Piece> := [Lit("TOTAL TIME: "), Var(TotalToken), Lit(" "), Var(PrecisionToken)]
  const ColumnTemplate: seq<Piece> := [Lit("STEP|TIME|TIME SINCE START")]
  const RowTemplate: seq<Piece> := [Lit("%s|%d"), Var(PrecisionToken), Lit("|%d")]

  /**
   `String.format(Locale.ENGLISH, "%s|%d<unit>|%d", name, elapsed,
   elapsedTotal)`, the pattern the row template becomes once its token is
   replaced: the name as it is, then the two numbers in decimal.
   */
  function RowLine(row: StepRow, unit: string): (line: string)
    ensures Bar !in row.name && Bar !in unit ==>
              Split(line) == [row.name, Dec(row.elapsed) + unit, Dec(row.elapsedTotal)]
  {
    var mid := Dec(row.elapsed) + unit;
    var line := row.name + [Bar] + mid + [Bar] + Dec(row.elapsedTotal);
    if Bar in row.name || Bar in unit then line
    else
      DecHasNoSpecial(row.elapsed);
      DecHasNoSpecial(row.elapsedTotal);
      assert Bar !in mid;
      SplitThree(row.name, mid, Dec(row.elapsedTotal));
      line
  }

  function RowLines(rows: seq<StepRow>, unit: string): (lines: seq<string>)
    ensures |lines| == |rows|
    ensures forall k :: 0 <= k < |rows| ==> lines[k] == RowLine(rows[k], unit)
  {
    seq(|rows|, k requires 0 <= k < |rows| => RowLine(rows[k], unit))
  }

  /**
   The lines `logResults` buffers, in order: a blank line, the name and total
   headers, a blank line, the column header, a blank line, one row per step
   in map order, and a closing blank line.
   */
  function Report(t: Timer): (r: seq<string>)
    ensures |r| == 7 + |t.steps| && r[|r| - 1] == ""
    ensures forall k :: 0 <= k < |t.steps| ==>
              r[6 + k] == RowLine(StepRows(t.steps, t.start, t.start)[k], Unit(t.precision))
  {
    var b := BindingsOf(t);
    var h := Headers(b);
    var rows := RowLines(StepRows(t.steps, t.start, t.start), b.precision);
    Assembled(h, rows);
    h + rows + [""]
  }

  /** Six header lines, the rows, and a closing blank line. */
  lemma Assembled(h: seq<string>, rows: seq<string>)
    requires |h| == 6
    ensures var r := h + rows + [""];
            && |r| == 7 + |rows| && r[|r| - 1] == ""
            && forall k :: 0 <= k < |rows| ==> r[6 + k] == rows[k]
  {
  }

  /** The six lines before the step rows, each template formatted with `b`. */
  function Headers(b: Bindings): (h: seq<string>)
    ensures |h| == 6
  {
    ["", ReplaceVariables(Source(NameTemplate), b), ReplaceVariables(Source(TotalTemplate), b), "",
     ReplaceVariables(Source(ColumnTemplate), b), ""]
  }

  /** The name header of a timer called `name`. */
  function NameLine(name: string): string {
    "--- Execution time for " + name + " ---"
  }

  /** The total header: the total in decimal, then the unit. */
  function TotalLine(total: int, unit: string): string {
    "TOTAL TIME: " + Dec(total) + " " + unit
  }

  /** The column header: the three column titles joined by bars. */
  const ColumnLine: string := "STEP|TIME|TIME SINCE START"

  /** The six header lines, blank lines included, that open every report. */
  function HeaderText(name: string, total: int, unit: string): seq<string> {
    ["", NameLine(name), TotalLine(total, unit), "", ColumnLine, ""]
  }

  /** The six header lines as they are buffered, before `buildTables` lays them out, whatever the name. */
  lemma HeaderLines(b: Bindings)
    requires Opener !in b.precision
    ensures Headers(b) == HeaderText(b.name, b.total, b.precision)
  {
    NameHeader(b);
    TotalHeader(b);
    ColumnHeader(b);
  }

  /** The name header carries the timer's name, whatever characters it holds. */
  lemma NameHeader(b: Bindings)
    requires Opener !in b.precision
    ensures ReplaceVariables(Source(NameTemplate), b) == NameLine(b.name)
  {
    var t := NameTemplate;
    assert Opener !in t[0].text && Opener !in t[2].text;
    ReplaceVariablesExpands(t, b);
    assert t[1..][1..][1..] == [];
    assert Expand(t[1..][1..], b) == " ---";
    assert Expand(t[1..], b) == b.name + " ---";
  }

  /** The total header carries the total, in decimal, and the unit. */
  lemma TotalHeader(b: Bindings)
    requires Opener !in b.precision
    ensures ReplaceVariables(Source(TotalTemplate), b) == TotalLine(b.total, b.precision)
  {
    var t := TotalTemplate;
    assert Opener !in t[0].text && Opener !in t[2].text;
    ReplaceVariablesExpands(t, b);
    assert t[1..][1..][1..][1..] == [];
    assert Expand(t[1..][1..][1..], b) == b.precision;
    assert Expand(t[1..][1..], b) == " " + b.precision;
    assert Expand(t[1..], b) == Dec(b.total) + " " + b.precision;
  }

  /** The column header holds no token and is logged as written. */
  lemma ColumnHeader(b: Bindings)
    requires Opener !in b.precision
    ensures ReplaceVariables(Source(ColumnTemplate), b) == ColumnLine
  {
    var s := Source(ColumnTemplate);
    assert s == ColumnLine + Source([]);
    assert Opener !in s;
  }

  /** The row template becomes the `%s|%d<unit>|%d` pattern `RowLine` fills in. */
  lemma RowPattern(b: Bindings)
    requires Opener !in b.precision
    ensures ReplaceVariables(Source(RowTemplate), b) == "%s|%d" + b.precision + "|%d"
  {
    var t := RowTemplate;
    assert Opener !in t[0].text && Opener !in t[2].text;
    ReplaceVariablesExpands(t, b);
    assert t[1..][1..][1..] == [];
    assert Expand(t[1..][1..], b) == "|%d";
    assert Expand(t[1..], b) == b.precision + "|%d";
  }

  /** The lines of the report of `t`, as a reader of the Java source expects them. */
  ghost predicate ReportShape(t: Timer, r: seq<string>) {
    var unit := Unit(t.precision);
    && |r| == 7 + |t.steps|
    && r[..6] == HeaderText(t.name, t.total, unit)
    && r[|r| - 1] == ""
    && forall k :: 0 <= k < |t.steps| ==>
         r[6 + k] == RowLine(StepRows(t.steps, t.start, t.start)[k], unit)
  }

  lemma ReportLines(t: Timer)
    ensures ReportShape(t, Report(t))
  {
    ReportHeaders(t);
  }

  /**
   Changing the precision only relabels the report: the same number of
   lines, the same name and numbers, the new unit after every time.
   */
  lemma PrecisionRelabels(t: Timer, p: Precision)
    ensures var before := Report(t);
            var after := Report(WithPrecision(t, p));
            var unit := Unit(p);
            && |after| == |before|
            && after[1] == before[1] && after[4] == before[4]
            && after[2] == TotalLine(t.total, unit)
            && forall k :: 0 <= k < |t.steps| ==>
                 after[6 + k] == RowLine(StepRows(t.steps, t.start, t.start)[k], unit)
  {
    var r := WithPrecision(t, p);
    ReportLines(t);
    ReportLines(r);
    ShapeLines(t, Report(t));
    ShapeLines(r, Report(r));
  }

  lemma ReportHeaders(t: Timer)
    ensures var r := Report(t);
            && |r| == 7 + |t.steps|
            && r[..6] == HeaderText(t.name, t.total, Unit(t.precision))
            && r[|r| - 1] == ""
  {
    var b := BindingsOf(t);
    HeaderLines(b);
    var h := Headers(b);
    var rest := RowLines(StepRows(t.steps, t.start, t.start), b.precision) + [""];
    assert Report(t) == h + rest;
    assert (h + rest)[..6] == h;
  }

  /** What a call of `log` leaves behind and what it printed or threw. */
  datatype Logged = Logged(timer: Timer, printed: Result<seq<string>, Fault>)

  /**
   `logResults` followed by `print`: the report is appended to the buffer
   and the buffer laid out as tables. If the layout succeeds its lines are
   emitted and the buffer cleared; if it throws, nothing is emitted and the
   buffer keeps every line.
   */
  function LogResults(t: Timer): (o: Logged)
    ensures var buffer := t.logs + Report(t);
            && (o.printed.Success? ==> o.timer.logs == [] && o.printed == BuildTables(buffer))
            && (o.printed.Failure? ==> o.timer.logs == buffer && o.printed == BuildTables(buffer))
            && o.timer == t.(logs := o.timer.logs)
  {
    var buffer := t.logs + Report(t);
    match BuildTables(buffer)
    case Success(lines) => Logged(t.(logs := []), Success(lines))
    case Failure(e) => Logged(t.(logs := buffer), Failure(e))
  }

  /**
   `log`: nothing while disabled; otherwise computes the total if it has not
   been computed since the last start, then logs the report of the timer so
   computed: on success it prints the tables of the whole buffer and clears
   it, on failure the buffer keeps the report. Nothing else changes.
   */
  function Log(t: Timer): (o: Logged)
    ensures t.isDisabled ==> o == Logged(t, Success([]))
    ensures !t.isDisabled ==> o.timer == t.(didCompute := true, total := o.timer.total, logs := o.timer.logs)
    ensures !t.isDisabled && !t.didCompute ==> o.timer.total == Sub(t.lastRecordedTime, t.start)
    ensures t.didCompute ==> o.timer.total == t.total
    ensures !t.isDisabled ==>
              var buffer := t.logs + Report(o.timer);
              && (o.printed.Success? ==> o.timer.logs == [] && o.printed == BuildTables(buffer))
              && (o.printed.Failure? ==> o.timer.logs == buffer && o.printed == BuildTables(buffer))
  {
    if t.isDisabled then Logged(t, Success([]))
    else
      var t' := if t.didCompute then t else ComputeResults(t);
      var o := LogResults(t');
      ReportIgnoresBuffer(t', o.timer.logs);
      o
  }

  /** The report does not depend on what is already buffered. */
  lemma ReportIgnoresBuffer(t: Timer, logs: seq<string>)
    ensures Report(t.(logs := logs)) == Report(t)
  {
    assert BindingsOf(t.(logs := logs)) == BindingsOf(t);
  }

  // ---------------------------------------------------------------------------
  // Sequences of calls
  // ---------------------------------------------------------------------------

  datatype Call =
    | StartCall(now: Long)
    | AddStepCall(name: string, now: Long)
    | LogCall
    | DisableIfCall(disable: bool)
    | DisableIfNotCall(enable: bool)
    | PrecisionCall(p: Precision)

  /** The timer after a sequence of calls, and every line emitted on the way. */
  datatype Outcome = Outcome(timer: Timer, emitted: seq<string>)

  /** One call; a `log` that throws emits nothing and the caller goes on. */
  function Apply(t: Timer, c: Call): (o: Outcome)
    requires Valid(t)
    ensures Valid(o.timer)
  {
    match c
    case StartCall(now) => Outcome(Start(t, now), [])
    case AddStepCall(name, now) => Outcome(AddStep(t, name, now), [])
    case LogCall =>
      var l := Log(t);
      Outcome(l.timer, if l.printed.Success? then l.printed.value else [])
    case DisableIfCall(d) => Outcome(DisableIf(t, d), [])
    case DisableIfNotCall(e) => Outcome(DisableIfNot(t, e), [])
    case PrecisionCall(p) => Outcome(WithPrecision(t, p), [])
  }

  function Run(t: Timer, calls: seq<Call>): (o: Outcome)
    requires Valid(t)
    ensures Valid(o.timer)
    decreases |calls|
  {
    if |calls| == 0 then Outcome(t, [])
    else
      var first := Apply(t, calls[0]);
      var rest := Run(first.timer, calls[1..]);
      Outcome(rest.timer, first.emitted + rest.emitted)
  }

  /** The fields a disabled timer must not touch: what it recorded and what it buffered. */
  predicate SameRecording(a: Timer, b: Timer) {
    && a.isDisabled == b.isDisabled && a.steps == b.steps && a.didCompute == b.didCompute
    && a.start == b.start && a.lastRecordedTime == b.lastRecordedTime && a.total == b.total
    && a.logs == b.logs
  }

  predicate IsStart(c: Call) {
    c.StartCall?
  }

  /**
   Until it is started, a disabled timer records nothing and emits nothing,
   whatever steps are added and however often it is logged.
   */
  lemma {:induction false} DisabledUntilStart(t: Timer, calls: seq<Call>)
    requires Valid(t) && t.isDisabled
    requires forall i :: 0 <= i < |calls| ==> !IsStart(calls[i])
    ensures Run(t, calls).emitted == []
    ensures SameRecording(Run(t, calls).timer, t)
    decreases |calls|
  {
    if |calls| > 0 {
      var first := Apply(t, calls[0]);
      assert SameRecording(first.timer, t) && first.emitted == [];
      DisabledUntilStart(first.timer, calls[1..]);
    }
  }

  /** A fresh timer is silent until its first call of `start`. */
  lemma FreshTimerSilent(name: string, calls: seq<Call>)
    requires forall i :: 0 <= i < |calls| ==> !IsStart(calls[i])
    ensures Run(Create(name), calls).emitted == []
    ensures Run(Create(name), calls).timer.steps == []
  {
    DisabledUntilStart(Create(name), calls);
  }

  predicate ChangesRequest(c: Call) {
    c.DisableIfCall? || c.DisableIfNotCall?
  }

  /**
   A timer that was asked to be disabled before it ever started stays
   disabled: its `start` calls are ignored, so it records and emits nothing.
   */
  lemma {:induction false} RequestedDisableSilences(t: Timer, calls: seq<Call>)
    requires Valid(t) && t.isDisabled && t.didRequestDisable
    requires forall i :: 0 <= i < |calls| ==> !ChangesRequest(calls[i])
    ensures Run(t, calls).emitted == []
    ensures SameRecording(Run(t, calls).timer, t)
    decreases |calls|
  {
    if |calls| > 0 {
      var first := Apply(t, calls[0]);
      assert SameRecording(first.timer, t) && first.emitted == [] && first.timer.didRequestDisable;
      RequestedDisableSilences(first.timer, calls[1..]);
    }
  }

  /**
   The total is computed at most once per start: once computed, no call
   other than `start` changes it, although later steps are still recorded.
   */
  lemma {:induction false} TotalComputedOnce(t: Timer, calls: seq<Call>)
    requires Valid(t) && t.didCompute
    requires forall i :: 0 <= i < |calls| ==> !IsStart(calls[i])
    ensures Run(t, calls).timer.total == t.total
    ensures Run(t, calls).timer.didCompute
    decreases |calls|
  {
    if |calls| > 0 {
      var first := Apply(t, calls[0]);
      assert first.timer.total == t.total && first.timer.didCompute;
      TotalComputedOnce(first.timer, calls[1..]);
    }
  }

  /**
   A timer started and logged with no step reports the negated start as its
   total (the last reading is still 0), and its report has no step row.
   */
  lemma TotalWithoutSteps(t: Timer, now: Long)
    requires !t.didRequestDisable
    ensures Log(Start(t, now)).timer.total == Sub(0, now)
    ensures var l := Log(Start(t, now)).timer;
            Report(l) == Headers(BindingsOf(l)) + [""]
  {
    var l := Log(Start(t, now)).timer;
    assert l.steps == [];
    NoStepsNoRows(l);
  }

  lemma NoStepsNoRows(t: Timer)
    requires t.steps == []
    ensures Report(t) == Headers(BindingsOf(t)) + [""]
  {
    assert RowLines(StepRows(t.steps, t.start, t.start), Unit(t.precision)) == [];
  }

  /**
   When the step map's last entry holds the last reading (no step added
   since the start reused a name), the delays of the report add up, in `long`
   arithmetic, to the total that `log` computes.
   */
  lemma DelaysAddUpToTotal(t: Timer)
    requires |t.steps| > 0 && t.steps[|t.steps| - 1].time == t.lastRecordedTime
    ensures LongSum(StepRows(t.steps, t.start, t.start), |t.steps|) == ComputeResults(t).total
  {
    DelaysAddUp(t.steps, t.start);
  }

  /**
   The converse: when the last map entry does not hold the last reading, as
   after re-adding an earlier label, the delays never add up to the total.
   */
  lemma DelaysMissTotal(t: Timer)
    requires |t.steps| > 0 && t.steps[|t.steps| - 1].time != t.lastRecordedTime
    ensures LongSum(StepRows(t.steps, t.start, t.start), |t.steps|) != ComputeResults(t).total
  {
    DelaysAddUp(t.steps, t.start);
    SubInjective(t.steps[|t.steps| - 1].time, t.lastRecordedTime, t.start);
  }

  /** All the delays add up, in `long` arithmetic, to the last step's time since the start. */
  lemma DelaysAddUp(steps: seq<Step>, start: Long)
    requires |steps| > 0
    ensures var rows := StepRows(steps, start, start);
            LongSum(rows, |rows|) == Sub(steps[|steps| - 1].time, start)
  {
    Telescope(steps, start, |steps| - 1);
  }

  /** Adding a step under a new name makes it the map's last entry, holding the reading. */
  lemma NewNameIsLast(t: Timer, name: string, now: Long)
    requires Valid(t) && !t.isDisabled && name !in Names(t.steps)
    ensures var r := AddStep(t, name, now);
            |r.steps| > 0 && r.steps[|r.steps| - 1] == Step(name, now) && r.lastRecordedTime == now
  {
  }

  /**
   Reusing a name keeps its first position, so the delays no longer add up
   to the total: after a start at `s`, steps `a` at `s + 10`, `b` at `s + 20`
   and `a` again at `s + 30` report delays 30 and -10, which sum to 20, while
   the total is 30.
   */
  lemma ReusedNameBreaksSum(t: Timer, s: Long)
    requires Valid(t) && !t.didRequestDisable && s <= MaxLong - 30
    ensures var t0 := Start(t, s);
            var t3 := AddStep(AddStep(AddStep(t0, "a", s + 10), "b", s + 20), "a", s + 30);
            var l := Log(t3).timer;
            var rows := StepRows(l.steps, l.start, l.start);
            && |rows| == 2 && rows[0].elapsed == 30 && rows[1].elapsed == -10
            && ElapsedSum(rows, 2) == 20 && l.total == 30
  {
    var t0 := Start(t, s);
    var t1 := AddStep(t0, "a", s + 10);
    var t2 := AddStep(t1, "b", s + 20);
    var t3 := AddStep(t2, "a", s + 30);
    assert Put([], "a", s + 10) == [Step("a", s + 10)];
    assert IndexOf(t1.steps, "b") == None;
    assert Put(t1.steps, "b", s + 20) == [Step("a", s + 10), Step("b", s + 20)];
    assert IndexOf(t2.steps, "a") == Some(0);
    assert Put(t2.steps, "a", s + 30) == [Step("a", s + 30), Step("b", s + 20)];
    ReusedRows(t3, s);
    assert Log(t3).timer == ComputeResults(t3).(logs := Log(t3).timer.logs);
  }

  lemma ReusedRows(t: Timer, s: Long)
    requires s <= MaxLong - 30
    requires t.steps == [Step("a", s + 30), Step("b", s + 20)] && t.start == s && t.lastRecordedTime == s + 30
    ensures var l := ComputeResults(t);
            var rows := StepRows(l.steps, l.start, l.start);
            && |rows| == 2 && rows[0].elapsed == 30 && rows[1].elapsed == -10
            && ElapsedSum(rows, 2) == 20 && l.total == 30
  {
    var l := ComputeResults(t);
    var rows := StepRows(l.steps, s, s);
    assert rows[0].elapsed == Sub(s + 30, s) == 30;
    assert rows[1].elapsed == Sub(s + 20, s + 30) == -10;
    assert ElapsedSum(rows, 2) == ElapsedSum(rows, 1) + rows[1].elapsed;
  }

  // ---------------------------------------------------------------------------
  // How the report is laid out
  // ---------------------------------------------------------------------------

  const ColumnFields: seq<string> := ["STEP", "TIME", "TIME SINCE START"]

  lemma SplitColumnHeader()
    ensures Split(ColumnLine) == ColumnFields
  {
    assert ColumnLine == "STEP" + [Bar] + "TIME" + [Bar] + "TIME SINCE START";
    SplitThree("STEP", "TIME", "TIME SINCE START");
  }

  /** Three bar-free fields joined by bars, the last one non-empty, split back into themselves. */
  lemma SplitThree(a: string, b: string, c: string)
    requires Bar !in a && Bar !in b && Bar !in c && c != ""
    ensures Split(a + [Bar] + b + [Bar] + c) == [a, b, c]
  {
    assert a + [Bar] + b + [Bar] + c == (a + [Bar] + b) + [Bar] + c;
    SplitRow(a + [Bar] + b, c);
    FieldsConcat(a, b);
    FieldsWithoutBar(a);
    FieldsWithoutBar(b);
  }

  /** Names holding no bar, for the timer and for every step. */
  predicate PlainNames(t: Timer) {
    && Bar !in t.name
    && forall k :: 0 <= k < |t.steps| ==> Bar !in t.steps[k].name
  }

  /** The six header lines of a report, one by one. */
  lemma ShapeLines(t: Timer, r: seq<string>)
    requires ReportShape(t, r)
    ensures r[0] == "" && r[3] == "" && r[5] == ""
    ensures r[1] == NameLine(t.name)
    ensures r[2] == TotalLine(t.total, Unit(t.precision))
    ensures r[4] == ColumnLine
  {
    assert forall k :: 0 <= k < 6 ==> r[k] == r[..6][k];
  }

  /**
   With plain names, every report line splits into 1 or 3 fields: the
   headers and blank lines into one, the column header into its three
   titles, each step row into its name, delay and time since the start.
   */
  lemma PlainReportSplits(t: Timer, r: seq<string>)
    requires PlainNames(t) && ReportShape(t, r)
    ensures && Split(r[1]) == [r[1]] && Split(r[2]) == [r[2]]
            && Split(r[4]) == ColumnFields
            && (forall k :: 6 <= k < |r| - 1 ==> |Split(r[k])| == 3)
            && forall k :: 0 <= k < |r| ==> 1 <= |Split(r[k])| < Slots
  {
    ShapeLines(t, r);
    PlainHeaders(t);
    assert Bar !in r[1] && Bar !in r[2];
    SplitColumnHeader();
    forall k | 0 <= k < |r| ensures 1 <= |Split(r[k])| < Slots && (6 <= k < |r| - 1 ==> |Split(r[k])| == 3) {
      PlainLine(t, r, k);
    }
  }

  lemma PlainLine(t: Timer, r: seq<string>, k: nat)
    requires PlainNames(t) && ReportShape(t, r) && k < |r|
    ensures 1 <= |Split(r[k])| < Slots
    ensures 6 <= k < |r| - 1 ==> |Split(r[k])| == 3
  {
    ShapeLines(t, r);
    if 6 <= k < |r| - 1 {
      PlainStepLine(t, r, k - 6);
    } else if k == 1 || k == 2 {
      PlainHeaders(t);
    } else if k == 4 {
      SplitColumnHeader();
    } else {
      assert r[k] == "";
    }
  }

  lemma PlainHeaders(t: Timer)
    requires Bar !in t.name
    ensures Bar !in NameLine(t.name)
    ensures Bar !in TotalLine(t.total, Unit(t.precision))
  {
    DecHasNoSpecial(t.total);
    assert Bar !in "--- Execution time for " && Bar !in " ---" && Bar !in "TOTAL TIME: " && Bar !in " ";
  }

  lemma PlainStepLine(t: Timer, r: seq<string>, k: nat)
    requires PlainNames(t) && ReportShape(t, r) && k < |t.steps|
    ensures |Split(r[6 + k])| == 3
  {
    var rows := StepRows(t.steps, t.start, t.start);
    assert r[6 + k] == RowLine(rows[k], Unit(t.precision));
  }

  /**
   With an empty buffer and plain names, `log` always succeeds: it emits the
   7 + n lines of the report and clears the buffer. The two headers come out
   as they are; the column header and the n step rows form one three-column
   table, laid out against the same widths, so they all have the same length
   in UTF-16 code units.
   */
  lemma PlainReportLayout(t: Timer)
    requires !t.isDisabled && t.logs == [] && PlainNames(t)
    ensures var o := Log(t);
            && o.printed.Success?
            && o.timer.logs == []
            && |o.printed.value| == 7 + |t.steps|
            && o.printed.value[1] == NameLine(t.name)
            && o.printed.value[2] == TotalLine(o.timer.total, Unit(t.precision))
            && forall k :: 6 <= k < 6 + |t.steps| ==> JavaLength(o.printed.value[k]) == JavaLength(o.printed.value[4])
  {
    var t' := if t.didCompute then t else ComputeResults(t);
    var buffer := t'.logs + Report(t');
    assert buffer == Report(t');
    assert PlainNames(t');
    ReportLines(t');
    ShapeLines(t', buffer);
    PlainTables(t', buffer);
  }

  /** The tables `buildTables` makes of a report with plain names. */
  lemma PlainTables(t: Timer, r: seq<string>)
    requires PlainNames(t) && ReportShape(t, r)
    ensures var out := BuildTables(r);
            && out.Success?
            && out.value[1] == r[1] && out.value[2] == r[2]
            && forall k :: 6 <= k < |r| - 1 ==> JavaLength(out.value[k]) == JavaLength(out.value[4])
  {
    PlainReportSplits(t, r);
    var out := BuildTables(r);
    var table := MaxLengths(SplitAll(r));
    assert LaidOut(Split(r[1]), table, out.value[1]);
    assert LaidOut(Split(r[2]), table, out.value[2]);
    forall k | 6 <= k < |r| - 1 ensures JavaLength(out.value[k]) == JavaLength(out.value[4]) {
      SameShapeSameWidths(r, k, 4);
    }
  }
}
