/**
 The table layout of the report logger (`Logger.buildTables` and
 `Logger.computeMaxLengths`).

 Every buffered line is split on `|`. Lines with the same number of fields
 form one table: for each field count up to 10 the logger keeps the widest
 field of every column, measured as `String.length()` measures it, in UTF-16
 code units, then writes each line with two or more fields as a
 two-space indent followed by its fields, the first padded on the right and
 the others on the left to their column's width, each followed by two
 spaces. A line with one field is written as that field. A line that splits
 to no field at all, or to more than 10, makes the Java code index outside an
 array; `Fault` records which exception escapes.
 */
module Tables {

  import opened Wrappers
  import opened Text

  /** The exceptions `buildTables` can raise. */
  datatype Fault = IndexOutOfBounds | NullPointer

  /** Length of the `int[11][]` width table: field counts 0 to 10. */
  const Slots: nat := 11

  /** Slot `n` holds the column widths of the rows with `n` fields, or null. */
  type WidthTable = seq<Option<seq<nat>>>

  // ---------------------------------------------------------------------------
  // computeMaxLengths
  // ---------------------------------------------------------------------------

  /** `w` is the column-wise maximum of the field lengths, in UTF-16 code units, of the `n`-field rows. */
  ghost predicate IsMaxWidths(rows: seq<seq<string>>, n: nat, w: seq<nat>) {
    && |w| == n
    && (forall k, i :: 0 <= k < |rows| && |rows[k]| == n && 0 <= i < n ==> JavaLength(rows[k][i]) <= w[i])
    && (forall i :: 0 <= i < n ==> exists k :: 0 <= k < |rows| && |rows[k]| == n && JavaLength(rows[k][i]) == w[i])
  }

  function Lengths(row: seq<string>): (w: seq<nat>)
    ensures |w| == |row|
    ensures forall i :: 0 <= i < |row| ==> w[i] == JavaLength(row[i])
  {
    seq(|row|, i requires 0 <= i < |row| => JavaLength(row[i]))
  }

  /** The widths after a row of the same field count has been seen. */
  function Widen(w: seq<nat>, row: seq<string>): (r: seq<nat>)
    requires |w| == |row|
    ensures |r| == |w|
    ensures forall i :: 0 <= i < |w| ==> r[i] == (if JavaLength(row[i]) > w[i] then JavaLength(row[i]) else w[i])
  {
    seq(|w|, i requires 0 <= i < |w| => if JavaLength(row[i]) > w[i] then JavaLength(row[i]) else w[i])
  }

  /** One iteration of the loop over the rows: rows with more than 10 fields are skipped. */
  function Absorb(table: WidthTable, row: seq<string>): WidthTable
    requires |table| == Slots
    requires forall n :: 0 <= n < Slots && table[n].Some? ==> |table[n].value| == n
  {
    var n := |row|;
    if n >= Slots then table
    else match table[n]
      case None => table[n := Some(Lengths(row))]
      case Some(w) => table[n := Some(Widen(w, row))]
  }

  /**
   `computeMaxLengths`: slot `n` is null exactly when no row has `n` fields,
   and otherwise holds the widest length of each of the `n` columns.
   */
  function MaxLengths(rows: seq<seq<string>>): (table: WidthTable)
    ensures |table| == Slots
    ensures forall n :: 0 <= n < Slots ==>
              (table[n].None? <==> forall k :: 0 <= k < |rows| ==> |rows[k]| != n)
    ensures forall n :: 0 <= n < Slots && table[n].Some? ==> IsMaxWidths(rows, n, table[n].value)
    decreases |rows|
  {
    if |rows| == 0 then seq(Slots, n => None)
    else
      var front := rows[..|rows| - 1];
      var row := rows[|rows| - 1];
      var before := MaxLengths(front);
      var after := Absorb(before, row);
      assert forall k :: 0 <= k < |front| ==> rows[k] == front[k];
      AbsorbKeepsMaxWidths(rows, before, after);
      after
  }

  lemma AbsorbKeepsMaxWidths(rows: seq<seq<string>>, before: WidthTable, after: WidthTable)
    requires |rows| > 0 && |before| == Slots
    requires forall n :: 0 <= n < Slots && before[n].Some? ==> |before[n].value| == n
    requires forall n :: 0 <= n < Slots ==>
               (before[n].None? <==> forall k :: 0 <= k < |rows| - 1 ==> |rows[k]| != n)
    requires forall n :: 0 <= n < Slots && before[n].Some? ==> IsMaxWidths(rows[..|rows| - 1], n, before[n].value)
    requires after == Absorb(before, rows[|rows| - 1])
    ensures |after| == Slots
    ensures forall n :: 0 <= n < Slots ==>
              (after[n].None? <==> forall k :: 0 <= k < |rows| ==> |rows[k]| != n)
    ensures forall n :: 0 <= n < Slots && after[n].Some? ==> IsMaxWidths(rows, n, after[n].value)
  {
    var front := rows[..|rows| - 1];
    var last := |rows| - 1;
    var row := rows[last];
    assert forall k :: 0 <= k < |front| ==> rows[k] == front[k];
    forall n | 0 <= n < Slots
      ensures after[n].None? <==> forall k :: 0 <= k < |rows| ==> |rows[k]| != n
      ensures after[n].Some? ==> IsMaxWidths(rows, n, after[n].value)
    {
      if n != |row| {
        assert after[n] == before[n];
        if before[n].Some? {
          var w := before[n].value;
          assert IsMaxWidths(front, n, w);
          forall i | 0 <= i < n
            ensures exists k :: 0 <= k < |rows| && |rows[k]| == n && JavaLength(rows[k][i]) == w[i]
          {
            var k :| 0 <= k < |front| && |front[k]| == n && JavaLength(front[k][i]) == w[i];
            assert rows[k] == front[k];
          }
        }
      } else if before[n].None? {
        var w := after[n].value;
        assert w == Lengths(row);
        forall i | 0 <= i < n
          ensures exists k :: 0 <= k < |rows| && |rows[k]| == n && JavaLength(rows[k][i]) == w[i]
        {
          assert JavaLength(rows[last][i]) == w[i];
        }
      } else {
        var old_w := before[n].value;
        var w := after[n].value;
        assert w == Widen(old_w, row);
        assert IsMaxWidths(front, n, old_w);
        forall i | 0 <= i < n
          ensures exists k :: 0 <= k < |rows| && |rows[k]| == n && JavaLength(rows[k][i]) == w[i]
        {
          if JavaLength(row[i]) > old_w[i] {
            assert JavaLength(rows[last][i]) == w[i];
          } else {
            var k :| 0 <= k < |front| && |front[k]| == n && JavaLength(front[k][i]) == old_w[i];
            assert rows[k] == front[k];
          }
        }
      }
    }
  }

  /** No field is longer than its column: the padding the logger computes is never negative. */
  lemma WidthsFit(rows: seq<seq<string>>, k: nat)
    requires k < |rows| && |rows[k]| < Slots
    ensures MaxLengths(rows)[|rows[k]|].Some?
    ensures Fits(rows[k], MaxLengths(rows)[|rows[k]|].value)
  {
  }

  // ---------------------------------------------------------------------------
  // Rendering one row
  // ---------------------------------------------------------------------------

  /** The sum of the first `j` widths. */
  function SumTo(w: seq<nat>, j: nat): nat
    requires j <= |w|
  {
    if j == 0 then 0 else SumTo(w, j - 1) + w[j - 1]
  }

  function Sum(w: seq<nat>): nat {
    SumTo(w, |w|)
  }

  /** Every field fits its column. */
  predicate Fits(fields: seq<string>, widths: seq<nat>) {
    |widths| == |fields| && forall i :: 0 <= i < |fields| ==> JavaLength(fields[i]) <= widths[i]
  }

  /** A field padded to its column's width: on the right in the first column, on the left after it. */
  function Cell(field: string, width: nat, first: bool): string {
    if first then field + Pad(width - JavaLength(field)) else Pad(width - JavaLength(field)) + field
  }

  /**
   A cell is exactly as wide as its column when the field fits; the first
   column is left-justified and the others right-justified, the rest spaces.
   */
  lemma CellShape(field: string, width: nat, first: bool)
    requires JavaLength(field) <= width
    ensures var c := Cell(field, width, first);
            var gap := width - JavaLength(field);
            && JavaLength(c) == width
            && |c| == |field| + gap
            && (first ==> c[..|field|] == field && forall i :: |field| <= i < |c| ==> c[i] == ' ')
            && (!first ==> c[gap..] == field && forall i :: 0 <= i < gap ==> c[i] == ' ')
  {
    CellWidth(field, width, first);
  }

  lemma CellWidth(field: string, width: nat, first: bool)
    requires JavaLength(field) <= width
    ensures JavaLength(Cell(field, width, first)) == width
  {
    var pad := Pad(width - JavaLength(field));
    JavaLengthPad(width - JavaLength(field));
    if first {
      JavaLengthConcat(field, pad);
    } else {
      JavaLengthConcat(pad, field);
    }
  }

  /** Each field as a cell followed by the two spaces that separate it from the next. */
  function Pieces(fields: seq<string>, widths: seq<nat>): (ps: seq<string>)
    requires |widths| == |fields|
    ensures |ps| == |fields|
    ensures forall k :: 0 <= k < |fields| ==> ps[k] == Cell(fields[k], widths[k], k == 0) + "  "
  {
    seq(|fields|, k requires 0 <= k < |fields| => Cell(fields[k], widths[k], k == 0) + "  ")
  }

  /** The two-space indent, then the first `j` pieces. */
  function Glue(ps: seq<string>, j: nat): string
    requires j <= |ps|
  {
    if j == 0 then "  " else Glue(ps, j - 1) + ps[j - 1]
  }

  /** Where column `i` begins, in UTF-16 code units, in a line rendered with `widths`. */
  function ColumnStart(widths: seq<nat>, i: nat): nat
    requires i <= |widths|
  {
    2 + SumTo(widths, i) + 2 * i
  }

  /**
   One aligned line: the indent and the cells of all fields, each followed by
   two spaces; when the fields fit, it is two code units, the widths and two
   code units per field long.
   */
  function RenderRow(fields: seq<string>, widths: seq<nat>): (r: string)
    requires |widths| == |fields|
    ensures "  " <= r
    ensures Fits(fields, widths) ==> JavaLength(r) == 2 + Sum(widths) + 2 * |fields|
  {
    var line := Glue(Pieces(fields, widths), |fields|);
    GluePrefix(Pieces(fields, widths), 0, |fields|);
    if Fits(fields, widths) then GlueLength(fields, widths, |fields|); line else line
  }

  /** The first `j` pieces end where column `j` begins. */
  lemma GlueLength(fields: seq<string>, widths: seq<nat>, j: nat)
    requires Fits(fields, widths) && j <= |fields|
    ensures JavaLength(Glue(Pieces(fields, widths), j)) == ColumnStart(widths, j)
  {
    var ps := Pieces(fields, widths);
    forall k | 0 <= k < |ps| ensures JavaLength(ps[k]) == widths[k] + 2 {
      CellWidth(fields[k], widths[k], k == 0);
      JavaLengthConcat(Cell(fields[k], widths[k], k == 0), "  ");
      JavaLengthSeparator();
    }
    GluedWidths(ps, widths, j);
  }

  lemma JavaLengthSeparator()
    ensures JavaLength("  ") == 2
  {
    assert "  "[1..] == " ";
    assert " "[1..] == "";
  }

  /** Pieces each two code units wider than their column add up to the column offsets. */
  lemma {:induction false} GluedWidths(ps: seq<string>, widths: seq<nat>, j: nat)
    requires |ps| == |widths| && j <= |ps|
    requires forall k :: 0 <= k < |ps| ==> JavaLength(ps[k]) == widths[k] + 2
    ensures JavaLength(Glue(ps, j)) == ColumnStart(widths, j)
    decreases j
  {
    if j > 0 {
      GluedWidths(ps, widths, j - 1);
      JavaLengthConcat(Glue(ps, j - 1), ps[j - 1]);
    } else {
      JavaLengthSeparator();
    }
  }

  /** Gluing on more pieces only extends the line. */
  lemma {:induction false} GluePrefix(ps: seq<string>, i: nat, m: nat)
    requires i <= m <= |ps|
    ensures Glue(ps, i) <= Glue(ps, m)
    decreases m
  {
    if m > i {
      GluePrefix(ps, i, m - 1);
      var g := Glue(ps, m - 1);
      assert Glue(ps, m) == g + ps[m - 1];
      assert Glue(ps, m)[..|g|] == g;
    }
  }

  /**
   Column `i` of the rendered row: what comes before it is
   `ColumnStart(widths, i)` code units long, it holds field `i` padded
   to exactly `widths[i]` code units, and two spaces follow it.
   */
  ghost predicate ColumnAt(fields: seq<string>, widths: seq<nat>, i: nat)
    requires |widths| == |fields| && i < |fields|
  {
    var before := Glue(Pieces(fields, widths), i);
    var cell := Cell(fields[i], widths[i], i == 0);
    && JavaLength(before) == ColumnStart(widths, i)
    && JavaLength(cell) == widths[i]
    && before + cell + "  " <= RenderRow(fields, widths)
  }

  /** Rows rendered with the same widths line up column by column. */
  lemma CellAt(fields: seq<string>, widths: seq<nat>, i: nat)
    requires Fits(fields, widths) && i < |fields|
    ensures ColumnAt(fields, widths, i)
  {
    var ps := Pieces(fields, widths);
    var cell := Cell(fields[i], widths[i], i == 0);
    GlueLength(fields, widths, i);
    CellWidth(fields[i], widths[i], i == 0);
    GluedPiece(ps, i, cell);
  }

  /** A piece made of a cell and its separator leaves both in the finished line. */
  lemma GluedPiece(ps: seq<string>, i: nat, cell: string)
    requires i < |ps| && ps[i] == cell + "  "
    ensures Glue(ps, i) + cell + "  " <= Glue(ps, |ps|)
  {
    assert Glue(ps, i + 1) == Glue(ps, i) + cell + "  ";
    GluePrefix(ps, i + 1, |ps|);
  }

  // ---------------------------------------------------------------------------
  // buildTables
  // ---------------------------------------------------------------------------

  /** The body of the loop of `buildTables` for one row, with the width table at hand. */
  function RenderLine(row: seq<string>, table: WidthTable): (r: Result<string, Fault>)
    ensures |row| == 0 ==> r == Failure(IndexOutOfBounds)
    ensures |row| == 1 ==> r == Success(row[0])
    ensures 2 <= |row| && |table| <= |row| ==> r == Failure(IndexOutOfBounds)
    ensures 2 <= |row| < |table| && table[|row|].None? ==> r == Failure(NullPointer)
    ensures 2 <= |row| < |table| && table[|row|].Some? && Fits(row, table[|row|].value) ==>
              r == Success(RenderRow(row, table[|row|].value))
  {
    var n := |row|;
    if n == 0 then Failure(IndexOutOfBounds)
    else if n < 2 then Success(row[0])
    else if n >= |table| then Failure(IndexOutOfBounds)
    else match table[n]
      case None => Failure(NullPointer)
      case Some(w) =>
        if |w| < n then Failure(IndexOutOfBounds)
        else TakeAll(w); Success(RenderRow(row, w[..n]))
  }

  lemma TakeAll(w: seq<nat>)
    ensures w[..|w|] == w
  {
  }

  /** The rows rendered in order; the first failing row ends the loop with its exception. */
  function RenderLines(rows: seq<seq<string>>, table: WidthTable): (r: Result<seq<string>, Fault>)
    ensures r.Success? <==> forall k :: 0 <= k < |rows| ==> RenderLine(rows[k], table).Success?
    ensures r.Success? ==> |r.value| == |rows|
    ensures r.Success? ==> forall k :: 0 <= k < |rows| ==> r.value[k] == RenderLine(rows[k], table).value
    ensures r.Failure? ==> exists k :: 0 <= k < |rows| && RenderLine(rows[k], table) == Failure(r.error)
  {
    if |rows| == 0 then Success([])
    else match RenderLine(rows[0], table)
      case Failure(e) => Failure(e)
      case Success(line) =>
        match RenderLines(rows[1..], table)
        case Failure(e) => Failure(e)
        case Success(lines) => Success([line] + lines)
  }

  function SplitAll(logs: seq<string>): (rows: seq<seq<string>>)
    ensures |rows| == |logs|
    ensures forall k :: 0 <= k < |logs| ==> rows[k] == Split(logs[k])
  {
    seq(|logs|, k requires 0 <= k < |logs| => Split(logs[k]))
  }

  /** `line` is how `buildTables` writes `row` given the width table. */
  ghost predicate LaidOut(row: seq<string>, table: WidthTable, line: string) {
    && (|row| == 1 ==> line == row[0])
    && (2 <= |row| < |table| ==>
          && table[|row|].Some?
          && Fits(row, table[|row|].value)
          && line == RenderRow(row, table[|row|].value))
  }

  /** A row fails exactly when it has no field or more than 10, and then with an index exception. */
  lemma RenderLineFacts(rows: seq<seq<string>>, k: nat)
    requires k < |rows|
    ensures var r := RenderLine(rows[k], MaxLengths(rows));
            && (r.Success? <==> 1 <= |rows[k]| < Slots)
            && (r.Failure? ==> r.error == IndexOutOfBounds)
            && (r.Success? ==> LaidOut(rows[k], MaxLengths(rows), r.value))
  {
    var table := MaxLengths(rows);
    var n := |rows[k]|;
    if 2 <= n < Slots {
      WidthsFit(rows, k);
      assert table[n].value[..n] == table[n].value;
    }
  }

  /**
   `buildTables`: one output line per buffered line, in order, when every
   line splits to between 1 and 10 fields; otherwise the index exception.
   A one-field line becomes its field; a longer one is rendered against the
   widths of its own field count, which it fits.
   */
  function BuildTables(logs: seq<string>): (r: Result<seq<string>, Fault>)
    ensures r.Success? <==> forall k :: 0 <= k < |logs| ==> 1 <= |Split(logs[k])| < Slots
    ensures r.Failure? ==> r.error == IndexOutOfBounds
    ensures r.Success? ==> |r.value| == |logs|
    ensures r.Success? ==> forall k :: 0 <= k < |logs| ==>
              LaidOut(Split(logs[k]), MaxLengths(SplitAll(logs)), r.value[k])
  {
    var rows := SplitAll(logs);
    var table := MaxLengths(rows);
    forall k | 0 <= k < |rows|
      ensures var r := RenderLine(rows[k], table);
              && (r.Success? <==> 1 <= |rows[k]| < Slots)
              && (r.Failure? ==> r.error == IndexOutOfBounds)
              && (r.Success? ==> LaidOut(rows[k], table, r.value))
    {
      RenderLineFacts(rows, k);
    }
    RenderLines(rows, table)
  }

  /**
   Two rows rendered against the same widths have the same length in UTF-16
   code units, `2 + sum of the widths + 2 * n`, and each column at the same place.
   */
  lemma SameWidthsSameLayout(r1: seq<string>, r2: seq<string>, w: seq<nat>, i: nat)
    requires Fits(r1, w) && Fits(r2, w) && i < |w|
    ensures JavaLength(RenderRow(r1, w)) == JavaLength(RenderRow(r2, w)) == 2 + Sum(w) + 2 * |w|
    ensures ColumnAt(r1, w, i) && ColumnAt(r2, w, i)
  {
    CellAt(r1, w, i);
    CellAt(r2, w, i);
  }

  /**
   In the output of `buildTables`, lines with the same field count (from 2
   to 10) are rendered against the same widths, so they have the same
   length in UTF-16 code units and their columns line up.
   */
  lemma SameShapeSameWidths(logs: seq<string>, k1: nat, k2: nat)
    requires BuildTables(logs).Success?
    requires k1 < |logs| && k2 < |logs|
    requires |Split(logs[k1])| == |Split(logs[k2])| >= 2
    ensures var out := BuildTables(logs).value;
            var n := |Split(logs[k1])|;
            var table := MaxLengths(SplitAll(logs));
            && table[n].Some?
            && Fits(Split(logs[k1]), table[n].value) && Fits(Split(logs[k2]), table[n].value)
            && out[k1] == RenderRow(Split(logs[k1]), table[n].value)
            && out[k2] == RenderRow(Split(logs[k2]), table[n].value)
            && JavaLength(out[k1]) == JavaLength(out[k2])
  {
    var out := BuildTables(logs).value;
    var table := MaxLengths(SplitAll(logs));
    assert LaidOut(Split(logs[k1]), table, out[k1]);
    assert LaidOut(Split(logs[k2]), table, out[k2]);
  }
}
