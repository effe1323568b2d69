/** The score-entry tab of one sheet: its columns in criterion order, the
    group headers above them, one row per judge, the totals, and saving the
    rows to and loading them from the event database. */
module ScoreTab {
  import opened Wrappers
  import opened Text
  import opened Seqs
  import Sorting
  import opened ScoreSheets
  import opened GroupHeaders
  import opened ScoreCells
  import opened EventDb
  import opened ScoreRepository

  // ---------------------------------------------------------------------
  // Columns

  predicate ByOrder(a: Criterion, b: Criterion) {
    a.order <= b.order
  }

  lemma ByOrderTotal()
    ensures Sorting.TotalPreorder(ByOrder)
  {
  }

  /** `OrderBy(c => c.Order)`: a stable sort, so criteria with the same
      order keep their declaration order. */
  function OrderedCriteria(cs: seq<Criterion>): (r: seq<Criterion>)
    ensures multiset(r) == multiset(cs) && |r| == |cs|
    ensures forall i, j | 0 <= i < j < |r| :: r[i].order <= r[j].order
    ensures forall v :: Sorting.EquivalentsOf(r, ByOrder, v) == Sorting.EquivalentsOf(cs, ByOrder, v)
  {
    ByOrderTotal();
    Sorting.SortBy(cs, ByOrder)
  }

  /** Criteria already in order come out as they went in; in particular a
      sheet whose orders are the positions is shown in declaration order. */
  lemma DeclarationOrderKept(s: Sheet)
    requires forall i, j | 0 <= i < j < |s.criteria| :: s.criteria[i].order <= s.criteria[j].order
    ensures OrderedCriteria(s.criteria) == s.criteria
  {
    ByOrderTotal();
    Sorting.SortBySorted(s.criteria, ByOrder);
  }

  lemma PositionsAreDeclarationOrder(s: Sheet)
    requires OrdersArePositions(s)
    ensures OrderedCriteria(s.criteria) == s.criteria
  {
    DeclarationOrderKept(s);
  }

  /** The column of a criterion: its key, display name and maximum. */
  function ColumnOf(c: Criterion): Column {
    Column(c.key, c.displayName, Some(c.maxScore), false)
  }

  function ColumnsOf(cs: seq<Criterion>): (r: seq<Column>)
    ensures |r| == |cs| && forall i | 0 <= i < |r| :: r[i] == ColumnOf(cs[i])
  {
    seq(|cs|, i requires 0 <= i < |cs| => ColumnOf(cs[i]))
  }

  /** The tab's columns: one per criterion, by order, then the total. */
  function Columns(s: Sheet): seq<Column> {
    ColumnsOf(OrderedCriteria(s.criteria)) + [TotalColumn]
  }

  /** Every criterion has exactly one column, the total column comes last,
      and the criterion columns follow the criteria's order. */
  lemma ColumnsShape(s: Sheet)
    ensures |Columns(s)| == |s.criteria| + 1 && Columns(s)[|s.criteria|] == TotalColumn
    ensures forall i | 0 <= i < |s.criteria| ::
      !Columns(s)[i].isTotal && exists c :: c in s.criteria && Columns(s)[i] == ColumnOf(c)
    ensures forall c | c in s.criteria :: ColumnOf(c) in Columns(s)
  {
    var oc := OrderedCriteria(s.criteria);
    var cols := Columns(s);
    forall i | 0 <= i < |s.criteria|
      ensures !cols[i].isTotal && exists c :: c in s.criteria && cols[i] == ColumnOf(c)
    {
      assert oc[i] in multiset(s.criteria);
    }
    forall c | c in s.criteria
      ensures ColumnOf(c) in cols
    {
      assert c in multiset(oc);
      var i :| 0 <= i < |oc| && oc[i] == c;
      assert cols[i] == ColumnOf(c);
    }
  }

  /** The column headers of a sheet whose orders are its positions are its
      criteria in declaration order, then the total. */
  lemma ColumnsInDeclarationOrder(s: Sheet)
    requires OrdersArePositions(s)
    ensures Columns(s) == ColumnsOf(s.criteria) + [TotalColumn]
  {
    PositionsAreDeclarationOrder(s);
  }

  /** The groups of the ordered criteria, which the headers are built from. */
  function OrderedGroups(s: Sheet): (r: seq<Option<string>>)
    ensures |r| == |s.criteria|
  {
    var oc := OrderedCriteria(s.criteria);
    seq(|oc|, i requires 0 <= i < |oc| => oc[i].group)
  }

  /** The headers of three consecutive runs of different groups. */
  lemma ThreeRunHeaders(gs: seq<Option<string>>, a: string, n1: nat, b: string, n2: nat, c: string, n3: nat)
    requires gs == Run(a, n1) + Run(b, n2) + Run(c, n3)
    requires n1 >= 1 && n2 >= 1 && n3 >= 1 && a != b && b != c
    ensures Headers(gs) == [Header(a, 0, n1), Header(b, n1, n2), Header(c, n1 + n2, n3)]
  {
    assert gs[0] == Some(a);
    RunEndAt(gs, 0, n1, a);
    assert gs[n1] == Some(b);
    RunEndAt(gs, n1, n1 + n2, b);
    assert gs[n1 + n2] == Some(c);
    RunEndAt(gs, n1 + n2, n1 + n2 + n3, c);
    assert HeadersFrom(gs, n1 + n2 + n3) == [];
    assert HeadersFrom(gs, n1 + n2) == [Header(c, n1 + n2, n3)];
    assert HeadersFrom(gs, n1) == [Header(b, n1, n2), Header(c, n1 + n2, n3)];
    assert HeadersFrom(gs, 0) == [Header(a, 0, n1), Header(b, n1, n2), Header(c, n1 + n2, n3)];
    GuardIsRedundant(gs);
  }

  /** A sheet whose orders are its positions groups its columns as its
      criteria are grouped. */
  lemma OrderedGroupsInDeclarationOrder(s: Sheet)
    requires OrdersArePositions(s)
    ensures OrderedGroups(s) == GroupsOf(s)
  {
    PositionsAreDeclarationOrder(s);
  }

  /** Game Day shows three headers: Fight Song over the first three columns,
      Spirit Raising over the next three and Performance over the last
      four. */
  lemma GameDayHeaders()
    ensures Headers(OrderedGroups(GameDay)) ==
      [Header("Fight Song", 0, 3), Header("Spirit Raising", 3, 3), Header("Performance", 6, 4)]
  {
    GameDayShape();
    var gs := GroupsOf(GameDay);
    ThreeRunHeaders(gs, "Fight Song", 3, "Spirit Raising", 3, "Performance", 4);
    OrderedGroupsInDeclarationOrder(GameDay);
  }

  /** Spirit Rally shows three headers of two columns each. */
  lemma SpiritRallyHeaders()
    ensures Headers(OrderedGroups(SpiritRally)) ==
      [Header("Execution", 0, 2), Header("Choreography", 2, 2), Header("Showmanship", 4, 2)]
  {
    SpiritRallyShape();
    var gs := GroupsOf(SpiritRally);
    ThreeRunHeaders(gs, "Execution", 2, "Choreography", 2, "Showmanship", 2);
    OrderedGroupsInDeclarationOrder(SpiritRally);
  }

  /** An ungrouped sheet, such as Standard or Trendsetters, shows no
      headers. */
  lemma UngroupedNoHeaders(s: Sheet)
    requires Ungrouped(s)
    ensures Headers(OrderedGroups(s)) == []
  {
    var oc := OrderedCriteria(s.criteria);
    forall i | 0 <= i < |oc|
      ensures oc[i].group.None?
    {
      assert oc[i] in multiset(s.criteria);
    }
    HeadersEmptyIff(OrderedGroups(s));
  }

  /** A run of `g` from `i` to `e`, followed by something else, ends at
      `e`. */
  lemma RunEndAt(gs: seq<Option<string>>, i: nat, e: nat, g: string)
    requires i <= e <= |gs|
    requires forall k | i <= k < e :: gs[k] == Some(g)
    requires e < |gs| ==> gs[e] != Some(g)
    ensures RunEnd(gs, i, g) == e
  {
  }

  // ---------------------------------------------------------------------
  // Judge rows

  /** The cells a judge row starts with: an empty cell per criterion. */
  function FreshCells(cs: seq<Criterion>): (r: seq<Cell>)
    ensures |r| == |cs| && forall k | 0 <= k < |r| :: r[k] == NewCell(cs[k].key, cs[k].maxScore)
  {
    seq(|cs|, k requires 0 <= k < |cs| => NewCell(cs[k].key, cs[k].maxScore))
  }

  /** The cells a row builds from the tab's columns are the fresh cells of
      the ordered criteria: the total column gets none. */
  lemma {:induction false} CellsForCriteria(cs: seq<Criterion>)
    ensures CellsFor(ColumnsOf(cs) + [TotalColumn]) == FreshCells(cs)
    decreases |cs|
  {
    var cols := ColumnsOf(cs) + [TotalColumn];
    if |cs| == 0 {
      assert cols == [TotalColumn];
      assert CellsFor(cols) == CellsFor(cols[1..]);
    } else {
      assert cols[1..] == ColumnsOf(cs[1..]) + [TotalColumn];
      CellsForCriteria(cs[1..]);
      assert FreshCells(cs) == [NewCell(cs[0].key, cs[0].maxScore)] + FreshCells(cs[1..]);
    }
  }

  /** The keys of a sheet's cells are distinct exactly when its criteria's
      keys are: ordering the criteria does not change that. */
  lemma CellKeysDistinct(s: Sheet)
    ensures DistinctBy(CellsFor(Columns(s)), CellKeyOf) <==> KeysDistinct(s)
  {
    var oc := OrderedCriteria(s.criteria);
    CellsForCriteria(oc);
    FreshKeysDistinct(oc);
    if DistinctBy(oc, CriterionKeyOf) {
      DistinctByPermutation(oc, s.criteria, CriterionKeyOf);
    }
    if DistinctBy(s.criteria, CriterionKeyOf) {
      DistinctByPermutation(s.criteria, oc, CriterionKeyOf);
    }
  }

  function CriterionKeyOf(c: Criterion): string {
    c.key
  }

  lemma FreshKeysDistinct(cs: seq<Criterion>)
    ensures DistinctBy(FreshCells(cs), CellKeyOf) <==> DistinctBy(cs, CriterionKeyOf)
  {
    var cells := FreshCells(cs);
    assert forall k | 0 <= k < |cells| :: CellKeyOf(cells[k]) == CriterionKeyOf(cs[k]);
  }

  /** The judge rows `Judge 1` to `Judge n` that the constructor's loop
      adds, each built from the same columns. */
  function BuildJudges(columns: seq<Column>, n: int): (r: Result<seq<JudgeRow>, RowError>)
    ensures r.Failure? <==> n >= 1 && !DistinctBy(CellsFor(columns), CellKeyOf)
    ensures r.Success? ==> |r.value| == (if n < 1 then 0 else n)
    ensures r.Success? ==> forall j | 0 <= j < |r.value| ::
      r.value[j].judgeIndex == j + 1 && r.value[j].title == "Judge " + IntToString(j + 1)
      && r.value[j].cells == CellsFor(columns) && Mirrors(columns, r.value[j].cells, r.value[j].rowCells)
    decreases if n < 1 then 0 else n
  {
    if n < 1 then Success([])
    else
      var prev :- BuildJudges(columns, n - 1);
      var row :- NewJudgeRow(n, "Judge " + IntToString(n), columns);
      Success(prev + [row])
  }

  // ---------------------------------------------------------------------
  // The tab

  /** A score-sheet tab: the sheet, its columns and headers, the judge rows,
      the routine being scored and whether there are unsaved edits. The
      totals are derived (`GrandTotal`, `AvgScore`). */
  datatype Tab = Tab(
    sheet: Sheet,
    columns: seq<Column>,
    headers: seq<Header>,
    judges: seq<JudgeRow>,
    routineId: Option<string>,
    dirty: bool)

  /** The `ScoreSheetTabVM` constructor: columns by criterion order plus the
      total, the headers of the ordered groups, and one row per judge. It
      fails as the first row's key index does when two criteria share a
      key, and then only if the sheet has a judge. */
  function NewTab(s: Sheet): (r: Result<Tab, RowError>)
    ensures r.Failure? <==> s.judgeCount >= 1 && !KeysDistinct(s)
    ensures r.Success? ==>
      (r.value.sheet == s && r.value.columns == Columns(s) && r.value.headers == Headers(OrderedGroups(s))
       && r.value.routineId.None? && !r.value.dirty
       && |r.value.judges| == (if s.judgeCount < 1 then 0 else s.judgeCount))
  {
    CellKeysDistinct(s);
    var columns := Columns(s);
    var judges :- BuildJudges(columns, s.judgeCount);
    Success(Tab(s, columns, Headers(OrderedGroups(s)), judges, None, false))
  }

  /** Every built-in sheet makes a tab. */
  lemma BuiltInSheetsMakeTabs(s: Sheet)
    requires s in AllSheets
    ensures NewTab(s).Success?
  {
    BuiltInKeysDistinct(s);
  }

  /** A row laid out after the criteria `cs`: one cell per criterion, with
      its key and maximum. */
  predicate RowShaped(row: JudgeRow, cs: seq<Criterion>) {
    |row.cells| == |cs|
    && forall k | 0 <= k < |cs| :: row.cells[k].key == cs[k].key && row.cells[k].max == cs[k].maxScore
  }

  /** What the tab keeps true: row `j` is judge `j + 1`, laid out after the
      ordered criteria with distinct keys, and every cell's value and error
      are the ones its text validates to. */
  predicate TabValid(t: Tab, parse: string -> Option<real>) {
    forall j | 0 <= j < |t.judges| :: RowValid(t.judges[j], j, OrderedCriteria(t.sheet.criteria), parse)
  }

  /** Row `j` of a valid tab whose ordered criteria are `cs`. */
  predicate RowValid(row: JudgeRow, j: int, cs: seq<Criterion>, parse: string -> Option<real>) {
    row.judgeIndex == j + 1
    && RowShaped(row, cs)
    && DistinctBy(row.cells, CellKeyOf)
    && RowConsistent(row, parse)
  }

  /** A new tab keeps the invariant. */
  lemma NewTabValid(s: Sheet, parse: string -> Option<real>)
    requires NewTab(s).Success?
    ensures TabValid(NewTab(s).value, parse)
  {
    var t := NewTab(s).value;
    var oc := OrderedCriteria(s.criteria);
    CellsForCriteria(oc);
    forall j | 0 <= j < |t.judges|
      ensures RowShaped(t.judges[j], oc) && RowConsistent(t.judges[j], parse)
    {
      forall k | 0 <= k < |t.judges[j].cells|
        ensures Consistent(t.judges[j].cells[k], parse)
      {
        NewCellConsistent(oc[k].key, oc[k].maxScore, parse);
      }
    }
  }

  // ---------------------------------------------------------------------
  // Totals

  function JudgeTotals(js: seq<JudgeRow>): (r: seq<real>)
    ensures |r| == |js| && forall j | 0 <= j < |r| :: r[j] == Total(js[j])
  {
    seq(|js|, j requires 0 <= j < |js| => Total(js[j]))
  }

  /** `Recalc`: the sum of the judges' totals. */
  function GrandTotal(t: Tab): real {
    SumReal(JudgeTotals(t.judges))
  }

  /** `Recalc`: the grand total over the number of judges, 0 without
      judges. */
  function AvgScore(t: Tab): real {
    if |t.judges| == 0 then 0.0 else GrandTotal(t) / (|t.judges| as real)
  }

  /** The maximum of a criterion list, summed from the front. */
  lemma MaxTotalHead(cs: seq<Criterion>)
    requires |cs| > 0
    ensures MaxTotal(cs) == cs[0].maxScore + MaxTotal(cs[1..])
  {
    assert cs == [cs[0]] + cs[1..];
    MaxTotalConcat([cs[0]], cs[1..]);
    assert [cs[0]][..0] == [];
  }

  /** A row laid out after `cs` can hold at most the sheet's maximum. */
  lemma {:induction false} MaxSumShaped(cells: seq<Cell>, cs: seq<Criterion>)
    requires |cells| == |cs| && forall k | 0 <= k < |cs| :: cells[k].max == cs[k].maxScore
    ensures MaxSum(cells) == MaxTotal(cs)
    decreases |cs|
  {
    if |cs| > 0 {
      MaxSumShaped(cells[1..], cs[1..]);
      MaxTotalHead(cs);
    }
  }

  /** Terms between 0 and `m` sum to between 0 and their number times `m`. */
  lemma {:induction false} SumBounded(xs: seq<real>, m: real)
    requires forall i | 0 <= i < |xs| :: 0.0 <= xs[i] <= m
    ensures 0.0 <= SumReal(xs) <= |xs| as real * m
    decreases |xs|
  {
    if |xs| > 0 {
      SumBounded(xs[1..], m);
    }
  }

  /** A row of a valid tab totals between 0 and the maximum of the
      criteria it is laid out after. */
  lemma RowTotalBounded(row: JudgeRow, cs: seq<Criterion>, parse: string -> Option<real>)
    requires RowShaped(row, cs) && RowConsistent(row, parse)
    requires forall k | 0 <= k < |cs| :: cs[k].maxScore >= 0.0
    ensures 0.0 <= Total(row) <= MaxTotal(cs)
  {
    TotalBounds(row, parse);
    MaxSumShaped(row.cells, cs);
  }

  lemma OrderedMaximaNonNegative(cs: seq<Criterion>)
    requires forall i | 0 <= i < |cs| :: cs[i].maxScore >= 0.0
    ensures forall k | 0 <= k < |OrderedCriteria(cs)| :: OrderedCriteria(cs)[k].maxScore >= 0.0
  {
    var oc := OrderedCriteria(cs);
    forall k | 0 <= k < |oc|
      ensures oc[k].maxScore >= 0.0
    {
      assert oc[k] in multiset(cs);
    }
  }

  /** A mean of `n` terms between 0 and `m` lies between 0 and `m`. */
  lemma MeanBounded(g: real, n: nat, m: real)
    requires n > 0 && 0.0 <= g <= n as real * m
    ensures 0.0 <= g / (n as real) <= m
  {
    assert g / (n as real) * (n as real) == g;
  }

  /** On a valid tab whose maxima are not negative, each judge total lies
      between 0 and the sheet's maximum. */
  lemma JudgeTotalsBounded(t: Tab, parse: string -> Option<real>)
    requires TabValid(t, parse)
    requires forall i | 0 <= i < |t.sheet.criteria| :: t.sheet.criteria[i].maxScore >= 0.0
    ensures forall j | 0 <= j < |t.judges| ::
      0.0 <= JudgeTotals(t.judges)[j] <= MaxTotal(OrderedCriteria(t.sheet.criteria))
  {
    var oc := OrderedCriteria(t.sheet.criteria);
    OrderedMaximaNonNegative(t.sheet.criteria);
    forall j | 0 <= j < |t.judges|
      ensures 0.0 <= JudgeTotals(t.judges)[j] <= MaxTotal(oc)
    {
      RowTotalBounded(t.judges[j], oc, parse);
    }
  }

  /** Judge totals between 0 and `m` give a grand total between 0 and `m`
      per judge and an average between 0 and `m`. */
  lemma AverageBounded(t: Tab, m: real)
    requires m >= 0.0
    requires forall j | 0 <= j < |t.judges| :: 0.0 <= JudgeTotals(t.judges)[j] <= m
    ensures 0.0 <= GrandTotal(t) <= |t.judges| as real * m
    ensures 0.0 <= AvgScore(t) <= m
  {
    SumBounded(JudgeTotals(t.judges), m);
    if |t.judges| > 0 {
      MeanBounded(GrandTotal(t), |t.judges|, m);
    }
  }

  /** ... and so does the average. */
  lemma ScoreBounds(t: Tab, parse: string -> Option<real>)
    requires TabValid(t, parse)
    requires forall i | 0 <= i < |t.sheet.criteria| :: t.sheet.criteria[i].maxScore >= 0.0
    ensures 0.0 <= GrandTotal(t) && 0.0 <= AvgScore(t) <= MaxTotal(OrderedCriteria(t.sheet.criteria))
  {
    var m := MaxTotal(OrderedCriteria(t.sheet.criteria));
    JudgeTotalsBounded(t, parse);
    OrderedMaximaNonNegative(t.sheet.criteria);
    MaxTotalNonNegative(OrderedCriteria(t.sheet.criteria));
    AverageBounded(t, m);
  }

  lemma {:induction false} MaxTotalNonNegative(cs: seq<Criterion>)
    requires forall k | 0 <= k < |cs| :: cs[k].maxScore >= 0.0
    ensures MaxTotal(cs) >= 0.0
    decreases |cs|
  {
    if |cs| > 0 {
      MaxTotalNonNegative(cs[..|cs| - 1]);
    }
  }

  /** The built-in sheets' maxima are positive and add up to at most 100,
      in display order as in declaration order. */
  predicate MaximaAtMost100(s: Sheet) {
    (forall i | 0 <= i < |s.criteria| :: s.criteria[i].maxScore >= 0.0)
    && MaxTotal(OrderedCriteria(s.criteria)) <= 100.0
  }

  lemma StandardMaxima()
    ensures MaximaAtMost100(Standard)
  {
    StandardShape();
    PositionsAreDeclarationOrder(Standard);
  }

  lemma GameDayMaxima()
    ensures MaximaAtMost100(GameDay)
  {
    GameDayShape();
    PositionsAreDeclarationOrder(GameDay);
  }

  lemma SpiritRallyMaxima()
    ensures MaximaAtMost100(SpiritRally)
  {
    SpiritRallyShape();
    PositionsAreDeclarationOrder(SpiritRally);
  }

  lemma TrendsettersMaxima()
    ensures MaximaAtMost100(Trendsetters)
  {
    TrendsettersShape();
    PositionsAreDeclarationOrder(Trendsetters);
  }

  lemma BuiltInMaxima(s: Sheet)
    requires s in AllSheets
    ensures MaximaAtMost100(s)
  {
    assert s == Standard || s == GameDay || s == SpiritRally || s == Trendsetters;
    if s == Standard {
      StandardMaxima();
    } else if s == GameDay {
      GameDayMaxima();
    } else if s == SpiritRally {
      SpiritRallyMaxima();
    } else {
      TrendsettersMaxima();
    }
  }

  /** On a built-in sheet no average exceeds 100. */
  lemma BuiltInAverageAtMost100(t: Tab, parse: string -> Option<real>)
    requires TabValid(t, parse) && t.sheet in AllSheets
    ensures 0.0 <= AvgScore(t) <= 100.0
  {
    BuiltInMaxima(t.sheet);
    ScoreBounds(t, parse);
  }

  // ---------------------------------------------------------------------
  // Editing

  /** Replacing one term of a sum moves the sum by the difference. */
  lemma {:induction false} SumRealUpdate(xs: seq<real>, i: nat, v: real)
    requires i < |xs|
    ensures SumReal(xs[i := v]) == SumReal(xs) - xs[i] + v
    decreases i
  {
    if i > 0 {
      SumRealUpdate(xs[1..], i - 1, v);
      assert xs[i := v][1..] == xs[1..][i - 1 := v];
    } else {
      assert xs[i := v][1..] == xs[1..];
    }
  }

  /** Rows that differ only in their cells' states keep the layout. */
  predicate SameLayout(a: JudgeRow, b: JudgeRow) {
    a.judgeIndex == b.judgeIndex && |a.cells| == |b.cells|
    && forall k | 0 <= k < |a.cells| :: a.cells[k].key == b.cells[k].key && a.cells[k].max == b.cells[k].max
  }

  /** A row with the layout of a valid tab's row fits in its place. */
  lemma ReplaceRowValid(t: Tab, j: nat, row: JudgeRow, parse: string -> Option<real>)
    requires TabValid(t, parse) && j < |t.judges|
    requires SameLayout(t.judges[j], row) && RowConsistent(row, parse)
    ensures TabValid(t.(judges := t.judges[j := row]), parse)
  {
    var cs := OrderedCriteria(t.sheet.criteria);
    assert RowValid(t.judges[j], j, cs, parse);
    SameLayoutValid(t.judges[j], row, j, cs, parse);
  }

  lemma SameLayoutValid(a: JudgeRow, b: JudgeRow, j: int, cs: seq<Criterion>, parse: string -> Option<real>)
    requires RowValid(a, j, cs, parse) && SameLayout(a, b) && RowConsistent(b, parse)
    ensures RowValid(b, j, cs, parse)
  {
    forall x, y | 0 <= x < y < |b.cells|
      ensures b.cells[x].key != b.cells[y].key
    {
      assert a.cells[x].key != a.cells[y].key;
    }
  }

  /** Typing `text` into cell `k` of judge `j`. The tab becomes dirty when
      the cell's value changes; a change of text alone, or a value typed
      differently, leaves it as it was. */
  function EditCell(t: Tab, j: nat, k: nat, text: Option<string>, parse: string -> Option<real>): (r: Tab)
    requires j < |t.judges| && k < |t.judges[j].cells|
    ensures r.sheet == t.sheet && r.columns == t.columns && r.headers == t.headers && r.routineId == t.routineId
    ensures |r.judges| == |t.judges| && SameLayout(t.judges[j], r.judges[j])
    ensures forall i | 0 <= i < |t.judges| && i != j :: r.judges[i] == t.judges[i]
    ensures forall c | 0 <= c < |t.judges[j].cells| && c != k :: r.judges[j].cells[c] == t.judges[j].cells[c]
    ensures r.judges[j].cells[k] == SetText(t.judges[j].cells[k], text, parse)
    ensures r.dirty <==> t.dirty || r.judges[j].cells[k].value != t.judges[j].cells[k].value
  {
    var row := Edit(t.judges[j], k, text, parse);
    t.(judges := t.judges[j := row],
       dirty := t.dirty || row.cells[k].value != t.judges[j].cells[k].value)
  }

  /** An edit keeps the tab valid. */
  lemma EditCellValid(t: Tab, j: nat, k: nat, text: Option<string>, parse: string -> Option<real>)
    requires j < |t.judges| && k < |t.judges[j].cells|
    requires TabValid(t, parse)
    ensures TabValid(EditCell(t, j, k, text, parse), parse)
  {
    var r := EditCell(t, j, k, text, parse);
    ReplaceRowValid(t, j, r.judges[j], parse);
    assert r.judges == t.judges[j := r.judges[j]];
  }

  /** Editing one cell moves the row total by the change in that cell's
      numeric part. */
  lemma ContributionsUpdate(cells: seq<Cell>, k: nat, c: Cell)
    requires k < |cells|
    ensures Contributions(cells[k := c]) == Contributions(cells)[k := Contribution(c)]
  {
  }

  lemma RowTotalUpdate(row: JudgeRow, k: nat, text: Option<string>, parse: string -> Option<real>)
    requires k < |row.cells|
    ensures Total(Edit(row, k, text, parse)) ==
      Total(row) - Contribution(row.cells[k]) + Contribution(Edit(row, k, text, parse).cells[k])
  {
    var c := SetText(row.cells[k], text, parse);
    assert Edit(row, k, text, parse).cells == row.cells[k := c];
    ContributionsUpdate(row.cells, k, c);
    SumRealUpdate(Contributions(row.cells), k, Contribution(c));
  }

  /** An edit moves the grand total by the change in the edited cell's
      numeric part. */
  lemma EditCellTotal(t: Tab, j: nat, k: nat, text: Option<string>, parse: string -> Option<real>)
    requires j < |t.judges| && k < |t.judges[j].cells|
    ensures GrandTotal(EditCell(t, j, k, text, parse)) ==
      GrandTotal(t) - Contribution(t.judges[j].cells[k]) + Contribution(EditCell(t, j, k, text, parse).judges[j].cells[k])
  {
    var r := EditCell(t, j, k, text, parse);
    var row' := r.judges[j];
    RowTotalUpdate(t.judges[j], k, text, parse);
    assert JudgeTotals(r.judges) == JudgeTotals(t.judges)[j := Total(row')];
    SumRealUpdate(JudgeTotals(t.judges), j, Total(row'));
  }

  /** `ClearAll`: every judge row is cleared and the tab is no longer
      dirty. */
  function ClearAll(t: Tab, parse: string -> Option<real>): (r: Tab)
    ensures r.sheet == t.sheet && r.columns == t.columns && r.headers == t.headers && r.routineId == t.routineId
    ensures |r.judges| == |t.judges| && forall j | 0 <= j < |t.judges| :: SameLayout(t.judges[j], r.judges[j])
    ensures !r.dirty
  {
    t.(judges := seq(|t.judges|, j requires 0 <= j < |t.judges| => Clear(t.judges[j], parse)), dirty := false)
  }

  /** A cleared row of a valid tab is consistent, empty and error-free,
      and keeps its keys. */
  lemma ClearRow(row: JudgeRow, parse: string -> Option<real>)
    requires RowConsistent(row, parse) && DistinctBy(row.cells, CellKeyOf)
    ensures RowConsistent(Clear(row, parse), parse) && Total(Clear(row, parse)) == 0.0
    ensures forall k | 0 <= k < |row.cells| :: Clear(row, parse).cells[k].value.None? && !HasErrors(Clear(row, parse).cells[k])
    ensures DistinctBy(Clear(row, parse).cells, CellKeyOf)
  {
    ClearEmpties(row, parse);
    ClearKeepsKeys(row, parse);
  }

  lemma ClearKeepsKeys(row: JudgeRow, parse: string -> Option<real>)
    requires DistinctBy(row.cells, CellKeyOf)
    ensures DistinctBy(Clear(row, parse).cells, CellKeyOf)
  {
    var r := Clear(row, parse);
    forall a, b | 0 <= a < b < |r.cells|
      ensures CellKeyOf(r.cells[a]) != CellKeyOf(r.cells[b])
    {
      assert r.cells[a].key == row.cells[a].key && r.cells[b].key == row.cells[b].key;
    }
  }

  /** Clearing a valid tab keeps it valid and leaves every cell empty and
      free of errors. */
  lemma ClearAllValid(t: Tab, parse: string -> Option<real>)
    requires TabValid(t, parse)
    ensures TabValid(ClearAll(t, parse), parse)
    ensures forall j, k | 0 <= j < |t.judges| && 0 <= k < |ClearAll(t, parse).judges[j].cells| ::
      ClearAll(t, parse).judges[j].cells[k].value.None? && !HasErrors(ClearAll(t, parse).judges[j].cells[k])
  {
    var r := ClearAll(t, parse);
    forall j | 0 <= j < |t.judges|
      ensures RowConsistent(r.judges[j], parse) && DistinctBy(r.judges[j].cells, CellKeyOf)
      ensures forall k | 0 <= k < |r.judges[j].cells| :: r.judges[j].cells[k].value.None? && !HasErrors(r.judges[j].cells[k])
    {
      ClearRow(t.judges[j], parse);
    }
  }

  /** After clearing a tab whose cells are consistent both totals are 0. */
  lemma ClearAllZero(t: Tab, parse: string -> Option<real>)
    requires forall j | 0 <= j < |t.judges| :: RowConsistent(t.judges[j], parse)
    ensures GrandTotal(ClearAll(t, parse)) == 0.0 && AvgScore(ClearAll(t, parse)) == 0.0
  {
    var r := ClearAll(t, parse);
    var totals := JudgeTotals(r.judges);
    forall j | 0 <= j < |totals|
      ensures totals[j] == 0.0
    {
      assert r.judges[j] == Clear(t.judges[j], parse);
      ClearEmpties(t.judges[j], parse);
    }
    ZeroSum(totals);
  }

  lemma {:induction false} ZeroSum(xs: seq<real>)
    requires forall i | 0 <= i < |xs| :: xs[i] == 0.0
    ensures SumReal(xs) == 0.0
    decreases |xs|
  {
    if |xs| > 0 {
      ZeroSum(xs[1..]);
    }
  }

  // ---------------------------------------------------------------------
  // Saving

  /** Some cell of some judge has a validation error. */
  predicate HasValidationErrors(t: Tab) {
    exists j, k :: 0 <= j < |t.judges| && 0 <= k < |t.judges[j].cells| && HasErrors(t.judges[j].cells[k])
  }

  /** The rows saved for one judge: one per cell, in cell order, which is
      the order its key index enumerates them in. */
  function RowsOf(routineId: string, sheetKey: string, row: JudgeRow): (r: seq<CellRow>)
    ensures |r| == |row.cells|
    ensures forall k | 0 <= k < |r| ::
      r[k] == CellRow(routineId, sheetKey, row.judgeIndex, row.cells[k].key, row.cells[k].value)
  {
    seq(|row.cells|, k requires 0 <= k < |row.cells| =>
      CellRow(routineId, sheetKey, row.judgeIndex, row.cells[k].key, row.cells[k].value))
  }

  /** The rows `SaveAsync` writes: judge by judge. */
  function RowsToSave(routineId: string, sheetKey: string, js: seq<JudgeRow>): seq<CellRow>
    decreases |js|
  {
    if |js| == 0 then [] else RowsOf(routineId, sheetKey, js[0]) + RowsToSave(routineId, sheetKey, js[1..])
  }

  /** Every saved row belongs to the routine and the sheet, and to one of
      the judges. */
  lemma {:induction false} RowsToSaveOwner(routineId: string, sheetKey: string, js: seq<JudgeRow>, i: nat)
    requires i < |RowsToSave(routineId, sheetKey, js)|
    ensures RowsToSave(routineId, sheetKey, js)[i].routineId == routineId
    ensures RowsToSave(routineId, sheetKey, js)[i].sheetKey == sheetKey
    ensures exists j :: 0 <= j < |js| && RowsToSave(routineId, sheetKey, js)[i].judgeIndex == js[j].judgeIndex
    decreases |js|
  {
    var head := RowsOf(routineId, sheetKey, js[0]);
    var rows := RowsToSave(routineId, sheetKey, js);
    if i >= |head| {
      RowsToSaveOwner(routineId, sheetKey, js[1..], i - |head|);
      var j :| 0 <= j < |js[1..]| && rows[i].judgeIndex == js[1..][j].judgeIndex;
      assert js[1..][j] == js[j + 1];
    } else {
      assert rows[i] == head[i];
    }
  }

  /** Judges with distinct indexes and rows with distinct keys: each cell
      is saved once, so the batch ends with its value. */
  lemma {:induction false} RowsToSaveLast(routineId: string, sheetKey: string, js: seq<JudgeRow>, j: nat, k: nat)
    requires j < |js| && k < |js[j].cells|
    requires forall a, b | 0 <= a < b < |js| :: js[a].judgeIndex != js[b].judgeIndex
    requires DistinctBy(js[j].cells, CellKeyOf)
    ensures LastValue(RowsToSave(routineId, sheetKey, js), CellKey(routineId, sheetKey, js[j].judgeIndex, js[j].cells[k].key))
      == Some(js[j].cells[k].value)
    decreases |js|
  {
    var key := CellKey(routineId, sheetKey, js[j].judgeIndex, js[j].cells[k].key);
    var head := RowsOf(routineId, sheetKey, js[0]);
    var rest := RowsToSave(routineId, sheetKey, js[1..]);
    LastValueConcat(head, rest, key);
    if j > 0 {
      assert js[1..][j - 1] == js[j];
      RowsToSaveLast(routineId, sheetKey, js[1..], j - 1, k);
    } else {
      forall i | 0 <= i < |rest|
        ensures KeyOf(rest[i]) != key
      {
        RowsToSaveOwner(routineId, sheetKey, js[1..], i);
        var b :| 0 <= b < |js[1..]| && rest[i].judgeIndex == js[1..][b].judgeIndex;
        assert js[1..][b] == js[b + 1];
      }
      LastValueAbsent(rest, key);
      LastValueAt(head, key, k);
    }
  }

  /** What `SaveAsync` returns, the tab after it and the database after
      it. A failure is an exception: the steps before it stay done. */
  datatype SaveOutcome = SaveOutcome(saved: Result<bool, DbError>, tab: Tab, db: Db)

  /** `SaveAsync`: nothing without a routine or with an invalid cell;
      otherwise delete the routine's scores on other sheets, upsert every
      cell, record the sheet as the routine's last one, and clear the dirty
      flag. */
  function Save(t: Tab, db: Db): (r: SaveOutcome)
    ensures t.routineId.None? || HasValidationErrors(t) ==> r == SaveOutcome(Success(false), t, db)
    ensures t.routineId.Some? && !HasValidationErrors(t) ==> (r.saved.Failure? <==> !HasRoutine(db, t.routineId.value))
    ensures r.saved.Failure? ==> r.tab == t
    ensures r.saved == Success(true) ==>
      (r.tab == t.(dirty := false)
       && t.routineId.value in r.db.status && r.db.status[t.routineId.value] == Status(true, Some(t.sheet.sheetKey)))
    ensures r.db.routines == db.routines && r.db.participants == db.participants && r.db.links == db.links
  {
    if t.routineId.None? || HasValidationErrors(t) then SaveOutcome(Success(false), t, db)
    else
      var rid := t.routineId.value;
      var key := t.sheet.sheetKey;
      var rows := RowsToSave(rid, key, t.judges);
      var db1 := DeleteScoresExceptSheet(db, rid, key);
      assert (exists i :: 0 <= i < |rows| && !HasRoutine(db1, rows[i].routineId)) <==> |rows| > 0 && !HasRoutine(db, rid) by {
        forall i | 0 <= i < |rows|
          ensures rows[i].routineId == rid
        {
          RowsToSaveOwner(rid, key, t.judges, i);
        }
        assert db1.routines == db.routines;
        if |rows| > 0 {
          assert rows[0].routineId == rid;
        }
      }
      match SaveCells(db1, rid, key, rows)
      case Failure(e) => SaveOutcome(Failure(e), t, db1)
      case Success(db2) =>
        match SetLastSheetKey(db2, rid, key)
        case Failure(e) => SaveOutcome(Failure(e), t, db2)
        case Success(db3) => SaveOutcome(Success(true), t.(dirty := false), db3)
  }

  /** A successful save stores every cell of a valid tab under its routine,
      sheet, judge and criterion, and keeps the cell keys unique. */
  lemma SaveStores(t: Tab, db: Db, parse: string -> Option<real>, j: nat, k: nat)
    requires TabValid(t, parse) && UniqueKeys(db.cells)
    requires Save(t, db).saved == Success(true)
    requires j < |t.judges| && k < |t.judges[j].cells|
    ensures UniqueKeys(Save(t, db).db.cells)
    ensures ValueAt(Save(t, db).db.cells, CellKey(t.routineId.value, t.sheet.sheetKey, j + 1, t.judges[j].cells[k].key))
      == Some(t.judges[j].cells[k].value)
  {
    var rid, key := t.routineId.value, t.sheet.sheetKey;
    var rows := RowsToSave(rid, key, t.judges);
    var db1 := DeleteScoresExceptSheet(db, rid, key);
    var k' := CellKey(rid, key, j + 1, t.judges[j].cells[k].key);
    SavedCells(t, db);
    var cs := OrderedCriteria(t.sheet.criteria);
    assert RowValid(t.judges[j], j, cs, parse);
    forall a, b | 0 <= a < b < |t.judges|
      ensures t.judges[a].judgeIndex != t.judges[b].judgeIndex
    {
      assert RowValid(t.judges[a], a, cs, parse);
      assert RowValid(t.judges[b], b, cs, parse);
    }
    RowsToSaveLast(rid, key, t.judges, j, k);
    SaveCellsValues(db1, rid, key, rows, k');
  }

  /** A successful save leaves the cells the upsert of every row of the tab
      writes over the scores that the delete keeps. */
  lemma SavedCells(t: Tab, db: Db)
    requires Save(t, db).saved == Success(true)
    ensures t.routineId.Some?
    ensures var rid, key := t.routineId.value, t.sheet.sheetKey;
      var db1 := DeleteScoresExceptSheet(db, rid, key);
      var saved := SaveCells(db1, rid, key, RowsToSave(rid, key, t.judges));
      saved.Success? && Save(t, db).db.cells == saved.value.cells
  {
  }

  /** A successful save leaves the scores of every other routine as they
      were. */
  lemma SaveKeepsOtherRoutines(t: Tab, db: Db, k: CellKey)
    requires UniqueKeys(db.cells)
    requires Save(t, db).saved == Success(true)
    requires k.routineId != t.routineId.value
    ensures ValueAt(Save(t, db).db.cells, k) == ValueAt(db.cells, k)
  {
    var rid, key := t.routineId.value, t.sheet.sheetKey;
    var rows := RowsToSave(rid, key, t.judges);
    var db1 := DeleteScoresExceptSheet(db, rid, key);
    forall i | 0 <= i < |rows|
      ensures KeyOf(rows[i]) != k
    {
      RowsToSaveOwner(rid, key, t.judges, i);
    }
    LastValueAbsent(rows, k);
    SaveCellsValues(db1, rid, key, rows, k);
    ValueAtSameRows(db1.cells, db.cells, k);
  }

  /** After a successful save the routine has no scores on any other
      sheet. */
  lemma SaveDropsOtherSheets(t: Tab, db: Db, k: CellKey)
    requires UniqueKeys(db.cells)
    requires Save(t, db).saved == Success(true)
    requires k.routineId == t.routineId.value && k.sheetKey != t.sheet.sheetKey
    ensures ValueAt(Save(t, db).db.cells, k) == None
  {
    var rid, key := t.routineId.value, t.sheet.sheetKey;
    var rows := RowsToSave(rid, key, t.judges);
    var db1 := DeleteScoresExceptSheet(db, rid, key);
    forall i | 0 <= i < |rows|
      ensures KeyOf(rows[i]) != k
    {
      RowsToSaveOwner(rid, key, t.judges, i);
    }
    LastValueAbsent(rows, k);
    forall i | 0 <= i < |db1.cells|
      ensures KeyOf(db1.cells[i]) != k
    {
      assert db1.cells[i] in db1.cells;
    }
    ValueAtAbsent(db1.cells, k);
    SaveCellsValues(db1, rid, key, rows, k);
  }

  // ---------------------------------------------------------------------
  // Loading

  /** How a stored value is shown: `fmt` stands for the stored double's
      `ToString`, and no value shows as "". */
  function StoredText(v: Option<real>, fmt: real -> string): string {
    match v
    case None => ""
    case Some(x) => fmt(x)
  }

  /** `Judges.FirstOrDefault(j => j.JudgeIndex == i)`, as a position. */
  function JudgeAt(js: seq<JudgeRow>, i: int): (r: Option<nat>)
    ensures r.Some? ==>
      (r.value < |js| && js[r.value].judgeIndex == i && forall a | 0 <= a < r.value :: js[a].judgeIndex != i)
    ensures r.None? ==> forall a | 0 <= a < |js| :: js[a].judgeIndex != i
    decreases |js|
  {
    if |js| == 0 then None
    else if js[0].judgeIndex == i then Some(0)
    else match JudgeAt(js[1..], i)
      case None => None
      case Some(a) => Some(a + 1)
  }

  /** One stored cell applied: when a judge has its index and that judge a
      cell with its criterion key, that cell's text becomes the stored
      value's text. */
  function ApplyStored(js: seq<JudgeRow>, c: CellRow, parse: string -> Option<real>, fmt: real -> string): (r: seq<JudgeRow>)
    ensures |r| == |js| && forall j | 0 <= j < |js| :: |r[j].cells| == |js[j].cells|
  {
    match JudgeAt(js, c.judgeIndex)
    case None => js
    case Some(j) =>
      match CellIndex(js[j].cells, c.criterionKey)
      case None => js
      case Some(k) => js[j := Edit(js[j], k, Some(StoredText(c.value, fmt)), parse)]
  }

  /** The stored cells applied in the order the query returns them. */
  function ApplyAll(js: seq<JudgeRow>, rows: seq<CellRow>, parse: string -> Option<real>, fmt: real -> string): (r: seq<JudgeRow>)
    ensures |r| == |js| && forall j | 0 <= j < |js| :: |r[j].cells| == |js[j].cells|
    decreases |rows|
  {
    if |rows| == 0 then js
    else ApplyStored(ApplyAll(js, rows[..|rows| - 1], parse, fmt), rows[|rows| - 1], parse, fmt)
  }

  /** `LoadRoutineAsync`: clear every row, apply the routine's stored cells
      for this sheet, and start clean. */
  function LoadRoutine(t: Tab, routineId: string, db: Db, parse: string -> Option<real>, fmt: real -> string): (r: Tab)
    ensures r.sheet == t.sheet && r.columns == t.columns && r.headers == t.headers
    ensures r.routineId == Some(routineId) && !r.dirty && |r.judges| == |t.judges|
  {
    var cleared := ClearAll(t, parse);
    cleared.(routineId := Some(routineId),
             judges := ApplyAll(cleared.judges, GetCells(db, routineId, t.sheet.sheetKey), parse, fmt),
             dirty := false)
  }

  /** The cell as it is after its text is set to `text`. */
  function Shown(c: Cell, text: string, parse: string -> Option<real>): Cell {
    var r := Validate(text, c.max, parse);
    c.(text := text, value := r.0, error := r.1)
  }

  /** Setting the text of a consistent cell gives the cell that text
      validates to, whether or not the text changes. */
  lemma SetTextShown(c: Cell, text: string, parse: string -> Option<real>)
    requires Consistent(c, parse)
    ensures SetText(c, Some(text), parse) == Shown(c, text, parse)
  {
  }

  /** Row `j` is numbered `j + 1`, with distinct keys and consistent cells. */
  predicate RowOk(row: JudgeRow, j: int, parse: string -> Option<real>) {
    row.judgeIndex == j + 1
    && DistinctBy(row.cells, CellKeyOf)
    && RowConsistent(row, parse)
  }

  /** Rows numbered from 1, with distinct keys and consistent cells. */
  predicate Numbered(js: seq<JudgeRow>, parse: string -> Option<real>) {
    forall j | 0 <= j < |js| :: RowOk(js[j], j, parse)
  }

  /** Typing a stored value into a cell of an ok row sets just the cell
      with that key. */
  lemma EditStoredRow(row: JudgeRow, j: nat, b: nat, text: string, parse: string -> Option<real>)
    requires RowOk(row, j, parse) && b < |row.cells|
    ensures RowOk(Edit(row, b, Some(text), parse), j, parse)
    ensures SameLayout(row, Edit(row, b, Some(text), parse))
  {
    var r := Edit(row, b, Some(text), parse);
    assert forall x | 0 <= x < |r.cells| :: r.cells[x].key == row.cells[x].key;
  }

  lemma EditStoredCell(row: JudgeRow, j: nat, b: nat, text: string, parse: string -> Option<real>, k: nat)
    requires RowOk(row, j, parse) && b < |row.cells| && k < |row.cells|
    ensures Edit(row, b, Some(text), parse).cells[k] ==
      if row.cells[b].key == row.cells[k].key then Shown(row.cells[k], text, parse) else row.cells[k]
  {
    if k == b {
      SetTextShown(row.cells[b], text, parse);
    } else {
      assert row.cells[b].key != row.cells[k].key;
    }
  }

  /** Applying a stored cell to numbered rows keeps them numbered and
      their layout, and sets exactly the cell with its judge and key. */
  lemma ApplyStoredRow(js: seq<JudgeRow>, c: CellRow, parse: string -> Option<real>, fmt: real -> string, j: nat)
    requires Numbered(js, parse) && j < |js|
    ensures RowOk(ApplyStored(js, c, parse, fmt)[j], j, parse)
    ensures SameLayout(js[j], ApplyStored(js, c, parse, fmt)[j])
  {
    var r := ApplyStored(js, c, parse, fmt);
    assert RowOk(js[j], j, parse);
    match JudgeAt(js, c.judgeIndex)
    case None =>
      assert r == js;
    case Some(a) =>
      match CellIndex(js[a].cells, c.criterionKey)
      case None =>
        assert r == js;
      case Some(b) =>
        if a == j {
          assert r[j] == Edit(js[j], b, Some(StoredText(c.value, fmt)), parse);
          EditStoredRow(js[j], j, b, StoredText(c.value, fmt), parse);
        } else {
          assert r[j] == js[j];
        }
  }

  lemma ApplyStoredEffect(js: seq<JudgeRow>, c: CellRow, parse: string -> Option<real>, fmt: real -> string, j: nat, k: nat)
    requires Numbered(js, parse) && j < |js| && k < |js[j].cells|
    ensures ApplyStored(js, c, parse, fmt)[j].cells[k] ==
      if c.judgeIndex == j + 1 && c.criterionKey == js[j].cells[k].key
      then Shown(js[j].cells[k], StoredText(c.value, fmt), parse)
      else js[j].cells[k]
  {
    var r := ApplyStored(js, c, parse, fmt);
    assert RowOk(js[j], j, parse);
    match JudgeAt(js, c.judgeIndex)
    case None =>
      assert r == js;
    case Some(a) =>
      assert RowOk(js[a], a, parse);
      match CellIndex(js[a].cells, c.criterionKey)
      case None =>
        assert r == js;
      case Some(b) =>
        if a == j {
          assert r[j] == Edit(js[j], b, Some(StoredText(c.value, fmt)), parse);
          EditStoredCell(js[j], j, b, StoredText(c.value, fmt), parse, k);
        } else {
          assert r[j] == js[j];
        }
  }

  /** Every row stays ok while the stored cells are applied. */
  lemma {:induction false} ApplyAllNumbered(js: seq<JudgeRow>, rows: seq<CellRow>, parse: string -> Option<real>, fmt: real -> string)
    requires Numbered(js, parse)
    ensures Numbered(ApplyAll(js, rows, parse, fmt), parse)
    decreases |rows|
  {
    if |rows| > 0 {
      var init := rows[..|rows| - 1];
      ApplyAllNumbered(js, init, parse, fmt);
      var r' := ApplyAll(js, init, parse, fmt);
      forall j | 0 <= j < |js|
        ensures RowOk(ApplyAll(js, rows, parse, fmt)[j], j, parse)
      {
        ApplyStoredRow(r', rows[|rows| - 1], parse, fmt, j);
      }
    }
  }

  /** Every row keeps its layout while the stored cells are applied. */
  lemma {:induction false} ApplyAllLayout(js: seq<JudgeRow>, rows: seq<CellRow>, parse: string -> Option<real>, fmt: real -> string)
    requires Numbered(js, parse)
    ensures forall j | 0 <= j < |js| :: SameLayout(js[j], ApplyAll(js, rows, parse, fmt)[j])
    decreases |rows|
  {
    if |rows| > 0 {
      var init := rows[..|rows| - 1];
      ApplyAllLayout(js, init, parse, fmt);
      ApplyAllNumbered(js, init, parse, fmt);
      var r' := ApplyAll(js, init, parse, fmt);
      forall j | 0 <= j < |js|
        ensures SameLayout(js[j], ApplyAll(js, rows, parse, fmt)[j])
      {
        ApplyStoredRow(r', rows[|rows| - 1], parse, fmt, j);
      }
    }
  }

  /** The cell as loaded: unchanged without a stored row, else showing the
      last stored row's value. */
  function Loaded(c: Cell, v: Option<Option<real>>, parse: string -> Option<real>, fmt: real -> string): Cell {
    match v
    case None => c
    case Some(x) => Shown(c, StoredText(x, fmt), parse)
  }

  /** After the stored rows of one routine and sheet are applied, each cell
      shows the value of the last row stored under its judge and key. */
  lemma {:induction false} ApplyAllCell(js: seq<JudgeRow>, rows: seq<CellRow>, routineId: string, sheetKey: string,
                                        parse: string -> Option<real>, fmt: real -> string, j: nat, k: nat)
    requires Numbered(js, parse) && j < |js| && k < |js[j].cells|
    requires forall i | 0 <= i < |rows| :: rows[i].routineId == routineId && rows[i].sheetKey == sheetKey
    ensures ApplyAll(js, rows, parse, fmt)[j].cells[k] ==
      Loaded(js[j].cells[k], LastValue(rows, CellKey(routineId, sheetKey, j + 1, js[j].cells[k].key)), parse, fmt)
    decreases |rows|
  {
    if |rows| > 0 {
      var init, last := rows[..|rows| - 1], rows[|rows| - 1];
      ApplyAllCell(js, init, routineId, sheetKey, parse, fmt, j, k);
      ApplyAllNumbered(js, init, parse, fmt);
      ApplyAllLayout(js, init, parse, fmt);
      var r' := ApplyAll(js, init, parse, fmt);
      assert SameLayout(js[j], r'[j]);
      ApplyStoredEffect(r', last, parse, fmt, j, k);
    }
  }

  /** The text a cell shows after loading: a missing row and a stored
      empty value both show "". */
  function LoadedText(v: Option<Option<real>>, fmt: real -> string): string {
    match v
    case None => ""
    case Some(x) => StoredText(x, fmt)
  }

  /** After loading, each cell of a valid tab shows the text of the last
      stored row under its routine, sheet, judge and key, and holds the
      value and error that text validates to. */
  lemma LoadShows(t: Tab, routineId: string, db: Db, parse: string -> Option<real>, fmt: real -> string, j: nat, k: nat)
    requires TabValid(t, parse) && j < |t.judges| && k < |t.judges[j].cells|
    ensures LoadRoutine(t, routineId, db, parse, fmt).judges[j].cells[k] ==
      Shown(t.judges[j].cells[k],
            LoadedText(LastValue(GetCells(db, routineId, t.sheet.sheetKey),
                                 CellKey(routineId, t.sheet.sheetKey, j + 1, t.judges[j].cells[k].key)), fmt),
            parse)
  {
    var cleared := ClearAll(t, parse);
    ClearAllValid(t, parse);
    assert Numbered(cleared.judges, parse) by {
      forall a | 0 <= a < |cleared.judges|
        ensures RowOk(cleared.judges[a], a, parse)
      {
      }
    }
    var rows := GetCells(db, routineId, t.sheet.sheetKey);
    forall i | 0 <= i < |rows|
      ensures rows[i].routineId == routineId && rows[i].sheetKey == t.sheet.sheetKey
    {
      GetCellsMembers(db, routineId, t.sheet.sheetKey, rows[i]);
    }
    var c := t.judges[j].cells[k];
    assert Consistent(c, parse);
    ClearAllAt(t, parse, j, k);
    ApplyAllCell(cleared.judges, rows, routineId, t.sheet.sheetKey, parse, fmt, j, k);
    LoadedCleared(c, LastValue(rows, CellKey(routineId, t.sheet.sheetKey, j + 1, c.key)), parse, fmt);
  }

  /** Cell `k` of row `j` of the cleared tab is that cell with its text set
      to "". */
  lemma ClearAllAt(t: Tab, parse: string -> Option<real>, j: nat, k: nat)
    requires j < |t.judges| && k < |t.judges[j].cells|
    ensures ClearAll(t, parse).judges[j].cells[k] == SetText(t.judges[j].cells[k], Some(""), parse)
  {
    assert ClearAll(t, parse).judges[j] == Clear(t.judges[j], parse);
    ClearAt(t.judges[j], parse, k);
  }

  /** Loading into a cleared consistent cell shows the loaded text. */
  lemma LoadedCleared(c: Cell, v: Option<Option<real>>, parse: string -> Option<real>, fmt: real -> string)
    requires Consistent(c, parse)
    ensures Loaded(SetText(c, Some(""), parse), v, parse, fmt) == Shown(c, LoadedText(v, fmt), parse)
  {
    if v.Some? {
      LoadedClearedStored(c, v.value, parse, fmt);
    } else {
      LoadedClearedMissing(c, parse, fmt);
    }
  }

  /** `LoadedCleared` without a stored row. */
  lemma LoadedClearedMissing(c: Cell, parse: string -> Option<real>, fmt: real -> string)
    requires Consistent(c, parse)
    ensures Loaded(SetText(c, Some(""), parse), None, parse, fmt) == Shown(c, LoadedText(None, fmt), parse)
  {
    SetTextShown(c, "", parse);
  }

  /** `LoadedCleared` for a stored row. */
  lemma LoadedClearedStored(c: Cell, x: Option<real>, parse: string -> Option<real>, fmt: real -> string)
    requires Consistent(c, parse)
    ensures Loaded(SetText(c, Some(""), parse), Some(x), parse, fmt) == Shown(c, StoredText(x, fmt), parse)
  {
    var e := SetText(c, Some(""), parse);
    ShownKeepsOnlyLayout(e, c, StoredText(x, fmt), parse);
  }

  /** What a cell shows after a text depends only on its key and maximum. */
  lemma ShownKeepsOnlyLayout(a: Cell, b: Cell, text: string, parse: string -> Option<real>)
    requires a.key == b.key && a.max == b.max
    ensures Shown(a, text, parse) == Shown(b, text, parse)
  {
  }

  /** Loading keeps a valid tab valid. */
  lemma LoadValid(t: Tab, routineId: string, db: Db, parse: string -> Option<real>, fmt: real -> string)
    requires TabValid(t, parse)
    ensures TabValid(LoadRoutine(t, routineId, db, parse, fmt), parse)
  {
    var cleared := ClearAll(t, parse);
    ClearAllValid(t, parse);
    assert Numbered(cleared.judges, parse) by {
      forall a | 0 <= a < |cleared.judges|
        ensures RowOk(cleared.judges[a], a, parse)
      {
      }
    }
    var rows := GetCells(db, routineId, t.sheet.sheetKey);
    ApplyAllNumbered(cleared.judges, rows, parse, fmt);
    ApplyAllLayout(cleared.judges, rows, parse, fmt);
    var r := LoadRoutine(t, routineId, db, parse, fmt);
    forall a | 0 <= a < |r.judges|
      ensures RowShaped(r.judges[a], OrderedCriteria(r.sheet.criteria))
    {
      assert SameLayout(cleared.judges[a], r.judges[a]);
      assert RowShaped(cleared.judges[a], OrderedCriteria(t.sheet.criteria));
    }
    forall a | 0 <= a < |r.judges|
      ensures r.judges[a].judgeIndex == a + 1 && DistinctBy(r.judges[a].cells, CellKeyOf) && RowConsistent(r.judges[a], parse)
    {
      assert RowOk(r.judges[a], a, parse);
    }
  }

  /** A value that reads back as itself: formatting it and parsing the
      trimmed text gives the value again. */
  predicate ReadsBack(v: Option<real>, parse: string -> Option<real>, fmt: real -> string) {
    v.Some? ==> !AllWhite(fmt(v.value)) && parse(Trim(fmt(v.value))) == Some(v.value)
  }

  /** Showing the stored text of an error-free cell's value gives the
      cell's value back when that value reads back. */
  lemma ShownStored(c: Cell, parse: string -> Option<real>, fmt: real -> string)
    requires Consistent(c, parse) && !HasErrors(c) && ReadsBack(c.value, parse, fmt)
    ensures Shown(c, StoredText(c.value, fmt), parse).value == c.value
    ensures Shown(c, StoredText(c.value, fmt), parse).error == None
  {
    if c.value.None? {
      ValidateEmpty(c.max, parse);
      assert StoredText(c.value, fmt) == "";
      assert Shown(c, "", parse).value == None;
      assert Shown(c, "", parse).error == None;
    } else {
      ConsistentInRange(c, parse);
      ValidateReadsBack(fmt(c.value.value), c.value.value, c.max, parse);
    }
  }

  /** Saving a valid tab and loading the same routine back gives every
      cell whose value reads back its value and (absent) error again, and
      a clean tab. */
  lemma SaveThenLoad(t: Tab, db: Db, parse: string -> Option<real>, fmt: real -> string, j: nat, k: nat)
    requires TabValid(t, parse) && UniqueKeys(db.cells)
    requires Save(t, db).saved == Success(true)
    requires j < |t.judges| && k < |t.judges[j].cells|
    requires ReadsBack(t.judges[j].cells[k].value, parse, fmt)
    ensures var s := Save(t, db);
      var l := LoadRoutine(s.tab, t.routineId.value, s.db, parse, fmt);
      l.judges[j].cells[k].value == t.judges[j].cells[k].value
      && l.judges[j].cells[k].error == t.judges[j].cells[k].error == None
      && !l.dirty
  {
    var s := Save(t, db);
    var rid, key := t.routineId.value, t.sheet.sheetKey;
    var c := t.judges[j].cells[k];
    var ck := CellKey(rid, key, j + 1, c.key);
    assert !HasErrors(c);
    var t' := s.tab;
    assert t' == t.(dirty := false);
    assert TabValid(t', parse);
    SaveStores(t, db, parse, j, k);
    GetCellsFindsStored(s.db, ck);
    assert LastValue(GetCells(s.db, rid, key), ck) == Some(c.value);
    LoadShows(t', rid, s.db, parse, fmt, j, k);
    ShownStored(c, parse, fmt);
  }
}
