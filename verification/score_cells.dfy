/** The score-entry grid of one judge: validated score cells, the columns
    they come from, and the row of cells shown under the columns. */
module ScoreCells {
  import opened Wrappers
  import opened Text
  import opened Seqs

  // ---------------------------------------------------------------------
  // Score cell

  /** The three validation failures, one message each. */
  datatype CellError = NotANumber | BelowMin | AboveMax

  /** The message shown for an error; `fmt` is how the decimal maximum is
      printed. */
  function Message(e: CellError, max: real, fmt: real -> string): string {
    match e
    case NotANumber => "Not a number."
    case BelowMin => "Min is 0."
    case AboveMax => "Max is " + fmt(max) + "!"
  }

  /** A score cell: its criterion key and maximum, the text typed, the
      accepted value and the error recorded for the text, if any. The
      error dictionary holds at most one entry, for `Text`, with one
      message, so an `Option` stands for it. */
  datatype Cell = Cell(key: string, max: real, text: string, value: Option<real>, error: Option<CellError>)

  /** A new cell: empty text, no value, no error. */
  function NewCell(key: string, max: real): Cell {
    Cell(key, max, "", None, None)
  }

  predicate HasErrors(c: Cell) {
    c.error.Some?
  }

  /** The value and error `ValidateAndSetValue` derives from the text:
      blank after trimming is no value and no error; otherwise the number
      must parse and lie between 0 and the maximum. `parse` stands for
      `decimal.TryParse` under the current culture. */
  function Validate(raw: string, max: real, parse: string -> Option<real>): (r: (Option<real>, Option<CellError>))
    ensures r.0.Some? ==> 0.0 <= r.0.value <= max && r.1.None?
  {
    ValidateTrimmed(Trim(raw), max, parse)
  }

  /** What validation accepts: blank text is the one case with neither a
      value nor an error, and a value is exactly an in-range parse of the
      trimmed text. */
  lemma ValidateMeaning(raw: string, max: real, parse: string -> Option<real>)
    ensures var r := Validate(raw, max, parse);
      (r.0.None? && r.1.None? <==> AllWhite(raw))
      && (r.0.Some? <==> (!AllWhite(raw) && parse(Trim(raw)).Some? && 0.0 <= parse(Trim(raw)).value <= max))
      && (r.0.Some? ==> r.0.value == parse(Trim(raw)).value)
  {
    TrimEmptyIff(raw);
    assert Validate(raw, max, parse) == ValidateTrimmed(Trim(raw), max, parse);
    ValidateTrimmedMeaning(Trim(raw), max, parse);
  }

  /** `ValidateMeaning` for text already trimmed. */
  lemma ValidateTrimmedMeaning(t: string, max: real, parse: string -> Option<real>)
    ensures var r := ValidateTrimmed(t, max, parse);
      (r.0.None? && r.1.None? <==> |t| == 0)
      && (r.0.Some? <==> (|t| > 0 && parse(t).Some? && 0.0 <= parse(t).value <= max))
      && (r.0.Some? ==> r.0.value == parse(t).value)
  {
  }

  /** Validation of the text once trimmed. */
  function ValidateTrimmed(t: string, max: real, parse: string -> Option<real>): (r: (Option<real>, Option<CellError>))
    ensures r.0.Some? ==> 0.0 <= r.0.value <= max && r.1.None?
  {
    if |t| == 0 then (None, None)
    else match parse(t)
      case None => (None, Some(NotANumber))
      case Some(v) =>
        if v < 0.0 then (None, Some(BelowMin))
        else if v > max then (None, Some(AboveMax))
        else (Some(v), None)
  }

  /** The cell's value and error are the ones its text validates to. */
  predicate Consistent(c: Cell, parse: string -> Option<real>) {
    (c.value, c.error) == Validate(c.text, c.max, parse)
  }

  /** The invariant the view relies on: a value is within range and comes
      with no error. */
  predicate InRange(c: Cell) {
    c.value.Some? ==> 0.0 <= c.value.value <= c.max && c.error.None?
  }

  /** The `Text` setter. Setting the text it already has does nothing; null
      (`None`) is stored as "". */
  function SetText(c: Cell, text: Option<string>, parse: string -> Option<real>): (r: Cell)
    ensures r.key == c.key && r.max == c.max
    ensures Consistent(c, parse) ==> Consistent(r, parse)
    ensures text != Some(c.text) ==> Consistent(r, parse) && r.text == text.GetOr("")
    ensures text == Some(c.text) ==> r == c
  {
    if text == Some(c.text) then c
    else
      var t := text.GetOr("");
      var r := Validate(t, c.max, parse);
      c.(text := t, value := r.0, error := r.1)
  }

  /** A cell whose state came from its text keeps the view's invariant. */
  lemma ConsistentInRange(c: Cell, parse: string -> Option<real>)
    requires Consistent(c, parse)
    ensures InRange(c)
  {
  }

  /** A new cell is consistent with its empty text. */
  lemma NewCellConsistent(key: string, max: real, parse: string -> Option<real>)
    ensures Consistent(NewCell(key, max), parse)
  {
    assert AllWhite("");
  }

  /** Only the trimmed text matters: a number typed with padding validates
      as the number typed without it. */
  lemma PaddingIgnored(s: string, max: real, parse: string -> Option<real>)
    requires Trimmed(s) && s != []
    ensures Validate(" " + s + " ", max, parse) == Validate(s, max, parse)
  {
    assert AllWhite(" ");
    TrimPadded(" ", s, " ");
    TrimNoop(s);
    ValidateByTrim(" " + s + " ", s, max, parse);
  }

  /** Validation sees only the trimmed text. */
  lemma ValidateByTrim(a: string, b: string, max: real, parse: string -> Option<real>)
    requires Trim(a) == Trim(b)
    ensures Validate(a, max, parse) == Validate(b, max, parse)
  {
  }

  /** Empty text validates to no value and no error. */
  lemma ValidateEmpty(max: real, parse: string -> Option<real>)
    ensures Validate("", max, parse) == (None, None)
  {
    assert AllWhite("");
    ValidateMeaning("", max, parse);
  }

  /** Text that reads back as an in-range value validates to that value. */
  lemma ValidateReadsBack(text: string, v: real, max: real, parse: string -> Option<real>)
    requires !AllWhite(text) && parse(Trim(text)) == Some(v) && 0.0 <= v <= max
    ensures Validate(text, max, parse) == (Some(v), None)
  {
    ValidateMeaning(text, max, parse);
  }

  /** The numeric part of a cell: the value, or 0 for no value. */
  function Contribution(c: Cell): (r: real)
    ensures c.value.None? ==> r == 0.0
    ensures InRange(c) ==> 0.0 <= r && (c.value.Some? ==> r <= c.max)
  {
    c.value.GetOr(0.0)
  }

  // ---------------------------------------------------------------------
  // Columns

  /** A display column: a criterion's key, header and maximum, or the
      trailing total column, which has no maximum. */
  datatype Column = Column(key: string, header: string, max: Option<real>, isTotal: bool)

  const TotalColumn: Column := Column("TOTAL", "Total", None, true)

  // ---------------------------------------------------------------------
  // Judge row

  /** One displayed cell of a row: the total placeholder, or the score
      cell at an index of the row's cells. */
  datatype RowCell = TotalCell | ScoreCellAt(index: nat)

  datatype JudgeRow = JudgeRow(judgeIndex: int, title: string, cells: seq<Cell>, rowCells: seq<RowCell>)

  /** The row cannot be built: `ToDictionary` met a second cell with this
      key. */
  datatype RowError = DuplicateKey(key: string)

  /** A cell for each non-total column, in column order, whose maximum is
      the column's or 0. */
  function CellsFor(columns: seq<Column>): (r: seq<Cell>)
    ensures forall j | 0 <= j < |r| :: r[j].text == "" && r[j].value.None? && r[j].error.None?
    decreases |columns|
  {
    if |columns| == 0 then []
    else
      var rest := CellsFor(columns[1..]);
      if columns[0].isTotal then rest
      else [NewCell(columns[0].key, columns[0].max.GetOr(0.0))] + rest
  }

  /** The non-total columns, in order. */
  function ScoreColumns(columns: seq<Column>): seq<Column> {
    Filter(columns, (c: Column) => !c.isTotal)
  }

  /** The cells mirror the score columns one to one. */
  lemma {:induction false} CellsForColumns(columns: seq<Column>)
    ensures |CellsFor(columns)| == |ScoreColumns(columns)|
    ensures forall j | 0 <= j < |CellsFor(columns)| ::
      CellsFor(columns)[j] == NewCell(ScoreColumns(columns)[j].key, ScoreColumns(columns)[j].max.GetOr(0.0))
    decreases |columns|
  {
    if |columns| > 0 {
      CellsForColumns(columns[1..]);
    }
  }

  /** The index of the first cell with key `k`, if any: `Cells.First` and,
      for distinct keys, `CellsByKey`. */
  function CellIndex(cells: seq<Cell>, k: string): (r: Option<nat>)
    ensures r.Some? ==>
      (r.value < |cells| && cells[r.value].key == k && forall j | 0 <= j < r.value :: cells[j].key != k)
    ensures r.None? ==> forall j | 0 <= j < |cells| :: cells[j].key != k
    decreases |cells|
  {
    if |cells| == 0 then None
    else if cells[0].key == k then Some(0)
    else match CellIndex(cells[1..], k)
      case None => None
      case Some(j) => Some(j + 1)
  }

  /** A cell's criterion key. */
  function CellKeyOf(c: Cell): string {
    c.key
  }

  /** The first repeated key of the cells, if any. */
  function FirstDuplicate(cells: seq<Cell>): (r: Option<string>)
    ensures r.None? <==> DistinctBy(cells, CellKeyOf)
    decreases |cells|
  {
    if |cells| == 0 then None
    else
      var rest := FirstDuplicate(cells[..|cells| - 1]);
      if rest.Some? then rest
      else if CellIndex(cells[..|cells| - 1], cells[|cells| - 1].key).Some? then Some(cells[|cells| - 1].key)
      else None
  }

  /** One displayed cell per column. */
  function RowCellsFor(columns: seq<Column>, cells: seq<Cell>): (r: seq<RowCell>)
    decreases |columns|
  {
    if |columns| == 0 then []
    else
      var head := if columns[0].isTotal then TotalCell
        else match CellIndex(cells, columns[0].key)
          case Some(j) => ScoreCellAt(j)
          case None => TotalCell;
      [head] + RowCellsFor(columns[1..], cells)
  }

  /** Displayed cells mirror the columns: a total placeholder at a total
      column, the score cell with the column's key elsewhere. */
  predicate Mirrors(columns: seq<Column>, cells: seq<Cell>, rcs: seq<RowCell>) {
    |rcs| == |columns|
    && forall i | 0 <= i < |columns| ::
      (columns[i].isTotal <==> rcs[i].TotalCell?)
      && (rcs[i].ScoreCellAt? ==> rcs[i].index < |cells| && cells[rcs[i].index].key == columns[i].key)
  }

  /** Every score column has a cell with its key. */
  lemma {:induction false} RowCellsMirror(columns: seq<Column>, cells: seq<Cell>)
    requires forall i | 0 <= i < |columns| :: !columns[i].isTotal ==> CellIndex(cells, columns[i].key).Some?
    ensures Mirrors(columns, cells, RowCellsFor(columns, cells))
    decreases |columns|
  {
    if |columns| > 0 {
      RowCellsMirror(columns[1..], cells);
      var r := RowCellsFor(columns, cells);
      assert r[1..] == RowCellsFor(columns[1..], cells);
      forall i | 1 <= i < |columns|
        ensures (columns[i].isTotal <==> r[i].TotalCell?)
          && (r[i].ScoreCellAt? ==> r[i].index < |cells| && cells[r[i].index].key == columns[i].key)
      {
        assert r[i] == r[1..][i - 1];
        assert columns[i] == columns[1..][i - 1];
      }
    }
  }

  /** The score columns' keys are found among the cells made for them. */
  lemma ScoreColumnsHaveCells(columns: seq<Column>, i: nat)
    requires i < |columns| && !columns[i].isTotal
    ensures CellIndex(CellsFor(columns), columns[i].key).Some?
  {
    CellsForColumns(columns);
    var sc := ScoreColumns(columns);
    FilterIn(columns, (c: Column) => !c.isTotal, columns[i]);
    var j :| 0 <= j < |sc| && sc[j] == columns[i];
    assert CellsFor(columns)[j].key == columns[i].key;
  }

  /** The `JudgeRowVM` constructor: cells for the score columns, then the
      key index (which throws on a repeated key), then the displayed row. */
  function NewJudgeRow(judgeIndex: int, title: string, columns: seq<Column>): (r: Result<JudgeRow, RowError>)
    ensures r.Failure? <==> !DistinctBy(CellsFor(columns), CellKeyOf)
    ensures r.Success? ==>
      (r.value.cells == CellsFor(columns) && r.value.judgeIndex == judgeIndex && r.value.title == title
       && Mirrors(columns, r.value.cells, r.value.rowCells))
  {
    var cells := CellsFor(columns);
    match FirstDuplicate(cells)
    case Some(k) => Failure(DuplicateKey(k))
    case None =>
      assert Mirrors(columns, cells, RowCellsFor(columns, cells)) by {
        forall i | 0 <= i < |columns| && !columns[i].isTotal
          ensures CellIndex(cells, columns[i].key).Some?
        {
          ScoreColumnsHaveCells(columns, i);
        }
        RowCellsMirror(columns, cells);
      }
      Success(JudgeRow(judgeIndex, title, cells, RowCellsFor(columns, cells)))
  }

  /** With distinct keys, `CellsByKey` finds each cell under its own key. */
  lemma CellsByKey(cells: seq<Cell>, j: nat)
    requires DistinctBy(cells, CellKeyOf) && j < |cells|
    ensures CellIndex(cells, cells[j].key) == Some(j)
  {
  }

  /** The row's cells and their states. */
  predicate RowConsistent(row: JudgeRow, parse: string -> Option<real>) {
    forall j | 0 <= j < |row.cells| :: Consistent(row.cells[j], parse)
  }

  function Contributions(cells: seq<Cell>): (r: seq<real>)
    ensures |r| == |cells| && forall j | 0 <= j < |r| :: r[j] == Contribution(cells[j])
  {
    seq(|cells|, j requires 0 <= j < |cells| => Contribution(cells[j]))
  }

  /** The sum of the maxima of the cells. */
  function MaxSum(cells: seq<Cell>): real
    decreases |cells|
  {
    if |cells| == 0 then 0.0 else cells[0].max + MaxSum(cells[1..])
  }

  /** `Recalc`: the sum of the cell values, a missing value counting 0. */
  function Total(row: JudgeRow): real {
    SumReal(Contributions(row.cells))
  }

  lemma {:induction false} ContributionsBounded(cells: seq<Cell>)
    requires forall j | 0 <= j < |cells| :: InRange(cells[j]) && cells[j].max >= 0.0
    ensures 0.0 <= SumReal(Contributions(cells)) <= MaxSum(cells)
    decreases |cells|
  {
    if |cells| > 0 {
      ContributionsBounded(cells[1..]);
      assert Contributions(cells)[1..] == Contributions(cells[1..]);
    }
  }

  /** A row's total lies between 0 and the sum of its maxima. */
  lemma TotalBounds(row: JudgeRow, parse: string -> Option<real>)
    requires RowConsistent(row, parse)
    requires forall j | 0 <= j < |row.cells| :: row.cells[j].max >= 0.0
    ensures 0.0 <= Total(row) <= MaxSum(row.cells)
  {
    ContributionsBounded(row.cells);
  }

  /** The total without any values is 0. */
  lemma {:induction false} EmptyContributions(cells: seq<Cell>)
    requires forall j | 0 <= j < |cells| :: cells[j].value.None?
    ensures SumReal(Contributions(cells)) == 0.0
    decreases |cells|
  {
    if |cells| > 0 {
      EmptyContributions(cells[1..]);
      assert Contributions(cells)[1..] == Contributions(cells[1..]);
    }
  }

  /** `Clear`: every cell's text is set to "". */
  function Clear(row: JudgeRow, parse: string -> Option<real>): (r: JudgeRow)
    ensures r.judgeIndex == row.judgeIndex && r.rowCells == row.rowCells && |r.cells| == |row.cells|
    ensures forall j | 0 <= j < |r.cells| :: r.cells[j].key == row.cells[j].key && r.cells[j].max == row.cells[j].max
  {
    row.(cells := seq(|row.cells|, j requires 0 <= j < |row.cells| => SetText(row.cells[j], Some(""), parse)))
  }

  /** Clearing a consistent row leaves every cell empty and error-free, so
      the total is 0; the row stays consistent. */
  lemma ClearEmpties(row: JudgeRow, parse: string -> Option<real>)
    requires RowConsistent(row, parse)
    ensures RowConsistent(Clear(row, parse), parse)
    ensures forall j | 0 <= j < |row.cells| ::
      Clear(row, parse).cells[j].value.None? && !HasErrors(Clear(row, parse).cells[j])
    ensures Total(Clear(row, parse)) == 0.0
  {
    var cells := Clear(row, parse).cells;
    forall j | 0 <= j < |cells|
      ensures Consistent(cells[j], parse) && cells[j].value.None? && cells[j].error.None?
    {
      ClearedCell(row, parse, j);
    }
    EmptyContributions(cells);
  }

  /** Cell `j` of a cleared consistent row is empty and consistent. */
  lemma ClearedCell(row: JudgeRow, parse: string -> Option<real>, j: nat)
    requires RowConsistent(row, parse) && j < |row.cells|
    ensures var c := Clear(row, parse).cells[j];
      Consistent(c, parse) && c.value.None? && c.error.None?
  {
    ClearAt(row, parse, j);
    SetTextEmpty(row.cells[j], parse);
  }

  /** Cell `j` of the cleared row is cell `j` with its text set to "". */
  lemma ClearAt(row: JudgeRow, parse: string -> Option<real>, j: nat)
    requires j < |row.cells|
    ensures Clear(row, parse).cells[j] == SetText(row.cells[j], Some(""), parse)
  {
  }

  /** Setting the text of a consistent cell to "" empties it. */
  lemma SetTextEmpty(c: Cell, parse: string -> Option<real>)
    requires Consistent(c, parse)
    ensures var r := SetText(c, Some(""), parse);
      Consistent(r, parse) && r.text == "" && r.value.None? && r.error.None?
  {
    ValidateEmpty(c.max, parse);
    var r := SetText(c, Some(""), parse);
    if c.text == "" {
      assert r == c;
      assert (c.value, c.error) == Validate("", c.max, parse);
    } else {
      assert r == c.(text := "", value := None, error := None);
      assert (r.value, r.error) == Validate(r.text, c.max, parse);
    }
  }

  /** Clearing only sets texts, so a cell already showing "" is left as
      it is: a value held under an empty text would survive `Clear`. The
      consistency the view keeps is what rules that state out. */
  lemma ClearKeepsEmptyText(row: JudgeRow, parse: string -> Option<real>, j: nat)
    requires j < |row.cells| && row.cells[j].text == ""
    ensures Clear(row, parse).cells[j] == row.cells[j]
  {
  }

  /** Typing into cell `j`. */
  function Edit(row: JudgeRow, j: nat, text: Option<string>, parse: string -> Option<real>): (r: JudgeRow)
    requires j < |row.cells|
    ensures RowConsistent(row, parse) ==> RowConsistent(r, parse)
    ensures |r.cells| == |row.cells| && r.judgeIndex == row.judgeIndex && r.rowCells == row.rowCells
    ensures forall k | 0 <= k < |r.cells| && k != j :: r.cells[k] == row.cells[k]
    ensures r.cells[j] == SetText(row.cells[j], text, parse)
  {
    EditKeepsConsistent(row, j, text, parse);
    row.(cells := row.cells[j := SetText(row.cells[j], text, parse)])
  }

  /** Setting one cell's text keeps a consistent row consistent. */
  lemma EditKeepsConsistent(row: JudgeRow, j: nat, text: Option<string>, parse: string -> Option<real>)
    requires j < |row.cells|
    ensures RowConsistent(row, parse) ==>
      RowConsistent(row.(cells := row.cells[j := SetText(row.cells[j], text, parse)]), parse)
  {
    if RowConsistent(row, parse) {
      var cells := row.cells[j := SetText(row.cells[j], text, parse)];
      forall k | 0 <= k < |cells|
        ensures Consistent(cells[k], parse)
      {
        if k != j {
          assert cells[k] == row.cells[k];
        }
      }
    }
  }
}
