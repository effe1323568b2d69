/** The score repository: score-cell upserts and deletes, the scored-status
    row, the scored-routine and score-cell queries the award services read,
    and the Solo and Duet candidate queries, which average judge totals,
    keep each participant string's best routine and order by class. */
module ScoreRepository {
  import opened Wrappers
  import opened Text
  import opened Seqs
  import opened EventDb
  import JudgeScores
  import Sorting

  // ---------------------------------------------------------------------
  // Score cells

  /** GetCellsAsync: the cells of one routine on one sheet. */
  function GetCells(db: Db, routineId: string, sheetKey: string): (r: seq<CellRow>)
    ensures |r| <= |db.cells|
  {
    Filter(db.cells, (c: CellRow) => c.routineId == routineId && c.sheetKey == sheetKey)
  }

  /** A cell is read back exactly when it belongs to that routine and sheet. */
  lemma GetCellsMembers(db: Db, routineId: string, sheetKey: string, c: CellRow)
    ensures c in GetCells(db, routineId, sheetKey) <==> c in db.cells && c.routineId == routineId && c.sheetKey == sheetKey
  {
    FilterIn(db.cells, (c: CellRow) => c.routineId == routineId && c.sheetKey == sheetKey, c);
  }

  /** The stored value under a key, if a row has that key. */
  function ValueAt(cells: seq<CellRow>, k: CellKey): Option<Option<real>>
    decreases |cells|
  {
    if |cells| == 0 then None
    else if KeyOf(cells[0]) == k then Some(cells[0].value)
    else ValueAt(cells[1..], k)
  }

  function Keys(cells: seq<CellRow>): set<CellKey>
    decreases |cells|
  {
    if |cells| == 0 then {} else {KeyOf(cells[0])} + Keys(cells[1..])
  }

  predicate UniqueKeys(cells: seq<CellRow>) {
    forall i, j | 0 <= i < j < |cells| :: KeyOf(cells[i]) != KeyOf(cells[j])
  }

  lemma {:induction false} KeysIndex(cells: seq<CellRow>, k: CellKey)
    ensures k in Keys(cells) <==> exists i :: 0 <= i < |cells| && KeyOf(cells[i]) == k
    decreases |cells|
  {
    if |cells| > 0 {
      KeysIndex(cells[1..], k);
      if k in Keys(cells[1..]) {
        var i :| 0 <= i < |cells[1..]| && KeyOf(cells[1..][i]) == k;
        assert KeyOf(cells[i + 1]) == k;
      }
      if exists i :: 0 <= i < |cells| && KeyOf(cells[i]) == k {
        var i :| 0 <= i < |cells| && KeyOf(cells[i]) == k;
        if i > 0 {
          assert KeyOf(cells[1..][i - 1]) == k;
        }
      }
    }
  }

  /** One execution of the upsert statement: the row with the cell's key
      takes the new value, or the cell is appended. */
  function UpsertCell(cells: seq<CellRow>, row: CellRow): (r: seq<CellRow>)
    ensures Keys(r) == Keys(cells) + {KeyOf(row)}
    ensures forall k :: ValueAt(r, k) == if k == KeyOf(row) then Some(row.value) else ValueAt(cells, k)
    decreases |cells|
  {
    if |cells| == 0 then [row]
    else if KeyOf(cells[0]) == KeyOf(row) then [cells[0].(value := row.value)] + cells[1..]
    else
      var rest := UpsertCell(cells[1..], row);
      assert ([cells[0]] + rest)[1..] == rest;
      [cells[0]] + rest
  }

  lemma {:induction false} UpsertCellUnique(cells: seq<CellRow>, row: CellRow)
    requires UniqueKeys(cells)
    ensures UniqueKeys(UpsertCell(cells, row))
    decreases |cells|
  {
    if |cells| > 0 {
      if KeyOf(cells[0]) == KeyOf(row) {
        var r := UpsertCell(cells, row);
        assert forall i | 1 <= i < |r| :: r[i] == cells[i];
      } else {
        HeadKeyNotInTail(cells);
        UpsertCellUnique(cells[1..], row);
        ConsUnique(cells[0], UpsertCell(cells[1..], row));
      }
    }
  }

  /** The first row's key is not among the keys of the others. */
  lemma HeadKeyNotInTail(cells: seq<CellRow>)
    requires UniqueKeys(cells) && |cells| > 0
    ensures UniqueKeys(cells[1..]) && KeyOf(cells[0]) !in Keys(cells[1..])
  {
    KeysIndex(cells[1..], KeyOf(cells[0]));
    forall i | 0 <= i < |cells[1..]|
      ensures KeyOf(cells[1..][i]) != KeyOf(cells[0])
    {
      assert cells[1..][i] == cells[i + 1];
    }
  }

  /** A row whose key is new keeps the keys unique in front of the rest. */
  lemma ConsUnique(c: CellRow, rest: seq<CellRow>)
    requires UniqueKeys(rest) && KeyOf(c) !in Keys(rest)
    ensures UniqueKeys([c] + rest)
  {
    forall j | 0 <= j < |rest|
      ensures KeyOf(rest[j]) != KeyOf(c)
    {
      KeysIndex(rest, KeyOf(rest[j]));
    }
  }

  /** The upserts of SaveCellsAsync, in input order. */
  function UpsertAll(cells: seq<CellRow>, rows: seq<CellRow>): seq<CellRow>
    decreases |rows|
  {
    if |rows| == 0 then cells else UpsertCell(UpsertAll(cells, rows[..|rows| - 1]), rows[|rows| - 1])
  }

  /** The value of the last input row with key `k`. */
  function LastValue(rows: seq<CellRow>, k: CellKey): Option<Option<real>>
    decreases |rows|
  {
    if |rows| == 0 then None
    else if KeyOf(rows[|rows| - 1]) == k then Some(rows[|rows| - 1].value)
    else LastValue(rows[..|rows| - 1], k)
  }

  /** Two row lists with unique keys that hold the same rows with key `k`
      store the same value under it. */
  lemma ValueAtSameRows(a: seq<CellRow>, b: seq<CellRow>, k: CellKey)
    requires UniqueKeys(a) && UniqueKeys(b)
    requires forall c | KeyOf(c) == k :: c in a <==> c in b
    ensures ValueAt(a, k) == ValueAt(b, k)
  {
    if ValueAt(a, k).Some? {
      var i := ValueAtFound(a, k);
      assert a[i] in b;
      var m :| 0 <= m < |b| && b[m] == a[i];
      ValueAtRow(b, k, m);
    }
    if ValueAt(b, k).Some? {
      var i := ValueAtFound(b, k);
      assert b[i] in a;
      var m :| 0 <= m < |a| && a[m] == b[i];
      ValueAtRow(a, k, m);
    }
  }

  /** The last value under a key in two batches is the second batch's, if
      it has the key. */
  lemma {:induction false} LastValueConcat(a: seq<CellRow>, b: seq<CellRow>, k: CellKey)
    ensures LastValue(a + b, k) == if LastValue(b, k).Some? then LastValue(b, k) else LastValue(a, k)
    decreases |b|
  {
    if |b| > 0 {
      assert (a + b)[..|a + b| - 1] == a + b[..|b| - 1];
      LastValueConcat(a, b[..|b| - 1], k);
    } else {
      assert a + b == a;
    }
  }

  lemma {:induction false} LastValueAbsent(rows: seq<CellRow>, k: CellKey)
    requires forall i | 0 <= i < |rows| :: KeyOf(rows[i]) != k
    ensures LastValue(rows, k) == None
    decreases |rows|
  {
    if |rows| > 0 {
      LastValueAbsent(rows[..|rows| - 1], k);
    }
  }

  /** The last row with a key gives the last value under it. */
  lemma {:induction false} LastValueAt(rows: seq<CellRow>, k: CellKey, i: nat)
    requires i < |rows| && KeyOf(rows[i]) == k
    requires forall m | i < m < |rows| :: KeyOf(rows[m]) != k
    ensures LastValue(rows, k) == Some(rows[i].value)
    decreases |rows|
  {
    if i < |rows| - 1 {
      LastValueAt(rows[..|rows| - 1], k, i);
    }
  }

  lemma {:induction false} UpsertAllValues(cells: seq<CellRow>, rows: seq<CellRow>, k: CellKey)
    ensures ValueAt(UpsertAll(cells, rows), k) == if LastValue(rows, k).Some? then LastValue(rows, k) else ValueAt(cells, k)
    decreases |rows|
  {
    if |rows| > 0 {
      UpsertAllValues(cells, rows[..|rows| - 1], k);
    }
  }

  lemma {:induction false} UpsertAllUnique(cells: seq<CellRow>, rows: seq<CellRow>)
    requires UniqueKeys(cells)
    ensures UniqueKeys(UpsertAll(cells, rows))
    decreases |rows|
  {
    if |rows| > 0 {
      UpsertAllUnique(cells, rows[..|rows| - 1]);
      UpsertCellUnique(UpsertAll(cells, rows[..|rows| - 1]), rows[|rows| - 1]);
    }
  }

  /** SaveCellsAsync: every cell is upserted inside one transaction; a cell
      whose routine does not exist breaks the foreign key and rolls the
      whole batch back. The routine and sheet arguments are not used. */
  function SaveCells(db: Db, routineId: string, sheetKey: string, rows: seq<CellRow>): (r: Result<Db, DbError>)
    ensures r.Failure? <==> exists i :: 0 <= i < |rows| && !HasRoutine(db, rows[i].routineId)
    ensures r.Success? ==> r.value == db.(cells := r.value.cells)
  {
    if exists i :: 0 <= i < |rows| && !HasRoutine(db, rows[i].routineId) then Failure(ForeignKeyViolation)
    else Success(db.(cells := UpsertAll(db.cells, rows)))
  }

  /** After a successful save, each key holds the value of the last saved
      cell with that key; keys not saved keep their value, and no key is
      stored twice. */
  lemma SaveCellsValues(db: Db, routineId: string, sheetKey: string, rows: seq<CellRow>, k: CellKey)
    requires UniqueKeys(db.cells)
    requires SaveCells(db, routineId, sheetKey, rows).Success?
    ensures var cells := SaveCells(db, routineId, sheetKey, rows).value.cells;
      UniqueKeys(cells)
      && ValueAt(cells, k) == if LastValue(rows, k).Some? then LastValue(rows, k) else ValueAt(db.cells, k)
  {
    UpsertAllValues(db.cells, rows, k);
    UpsertAllUnique(db.cells, rows);
  }

  /** DeleteScoresExceptSheetAsync: removes that routine's cells on every
      other sheet. */
  function DeleteScoresExceptSheet(db: Db, routineId: string, keepSheetKey: string): (r: Db)
    ensures r == db.(cells := r.cells)
    ensures forall c :: c in r.cells <==> c in db.cells && (c.routineId != routineId || c.sheetKey == keepSheetKey)
    ensures UniqueKeys(db.cells) ==> UniqueKeys(r.cells)
  {
    var p := (c: CellRow) => !(c.routineId == routineId && c.sheetKey != keepSheetKey);
    var cells := Filter(db.cells, p);
    assert forall c :: c in cells <==> c in db.cells && p(c) by {
      forall c
        ensures c in cells <==> c in db.cells && p(c)
      {
        FilterIn(db.cells, p, c);
      }
    }
    assert UniqueKeys(db.cells) ==> UniqueKeys(cells) by {
      if UniqueKeys(db.cells) {
        FilterUniqueKeys(db.cells, p);
      }
    }
    db.(cells := cells)
  }

  /** Keeping some of the rows keeps their keys unique. */
  lemma {:induction false} FilterUniqueKeys(cells: seq<CellRow>, p: CellRow -> bool)
    requires UniqueKeys(cells)
    ensures UniqueKeys(Filter(cells, p))
    decreases |cells|
  {
    if |cells| > 0 {
      UniqueKeysTail(cells);
      FilterUniqueKeys(cells[1..], p);
      var rest := Filter(cells[1..], p);
      if p(cells[0]) {
        forall x | x in rest
          ensures KeyOf(x) != KeyOf(cells[0])
        {
          FilterIn(cells[1..], p, x);
          var m :| 0 <= m < |cells[1..]| && cells[1..][m] == x;
          assert cells[m + 1] == x;
        }
        ConsUniqueKeys(cells[0], rest);
        assert Filter(cells, p) == [cells[0]] + rest;
      }
    }
  }

  lemma UniqueKeysTail(cells: seq<CellRow>)
    requires UniqueKeys(cells) && |cells| > 0
    ensures UniqueKeys(cells[1..])
  {
    forall a, b | 0 <= a < b < |cells[1..]|
      ensures KeyOf(cells[1..][a]) != KeyOf(cells[1..][b])
    {
      assert cells[1..][a] == cells[a + 1] && cells[1..][b] == cells[b + 1];
    }
  }

  /** A row whose key is new in front of rows with unique keys. */
  lemma ConsUniqueKeys(c: CellRow, rest: seq<CellRow>)
    requires UniqueKeys(rest)
    requires forall x | x in rest :: KeyOf(x) != KeyOf(c)
    ensures UniqueKeys([c] + rest)
  {
    var r := [c] + rest;
    forall a, b | 0 <= a < b < |r|
      ensures KeyOf(r[a]) != KeyOf(r[b])
    {
      if a == 0 {
        assert r[b] in rest;
      } else {
        assert r[a] == rest[a - 1] && r[b] == rest[b - 1];
      }
    }
  }

  /** Under unique keys, the value under a key is the value of the row with
      that key. */
  lemma {:induction false} ValueAtRow(cells: seq<CellRow>, k: CellKey, i: nat)
    requires UniqueKeys(cells) && i < |cells| && KeyOf(cells[i]) == k
    ensures ValueAt(cells, k) == Some(cells[i].value)
    decreases |cells|
  {
    if i > 0 {
      assert KeyOf(cells[0]) != k;
      UniqueKeysTail(cells);
      ValueAtRow(cells[1..], k, i - 1);
    }
  }

  /** No value is stored under a key no row has. */
  lemma {:induction false} ValueAtAbsent(cells: seq<CellRow>, k: CellKey)
    requires forall i | 0 <= i < |cells| :: KeyOf(cells[i]) != k
    ensures ValueAt(cells, k) == None
    decreases |cells|
  {
    if |cells| > 0 {
      ValueAtAbsent(cells[1..], k);
    }
  }

  /** A stored value comes from a row with that key. */
  lemma {:induction false} ValueAtFound(cells: seq<CellRow>, k: CellKey) returns (i: nat)
    requires ValueAt(cells, k).Some?
    ensures i < |cells| && KeyOf(cells[i]) == k && ValueAt(cells, k) == Some(cells[i].value)
    decreases |cells|
  {
    if KeyOf(cells[0]) == k {
      i := 0;
    } else {
      var j := ValueAtFound(cells[1..], k);
      i := j + 1;
    }
  }

  // ---------------------------------------------------------------------
  // Scored status

  /** SetLastSheetKeyAsync: insert or update the routine's status row with
      the sheet and IsScored = 1; a routine that does not exist breaks the
      foreign key. */
  function SetLastSheetKey(db: Db, routineId: string, sheetKey: string): (r: Result<Db, DbError>)
    ensures r.Failure? <==> !HasRoutine(db, routineId)
    ensures r.Success? ==>
      r.value == db.(status := r.value.status)
      && routineId in r.value.status && r.value.status[routineId] == Status(true, Some(sheetKey))
      && (forall id | id != routineId :: (id in r.value.status <==> id in db.status)
            && (id in db.status ==> r.value.status[id] == db.status[id]))
  {
    if !HasRoutine(db, routineId) then Failure(ForeignKeyViolation)
    else Success(db.(status := db.status[routineId := Status(true, Some(sheetKey))]))
  }

  /** ClearAllScoresAsync: every cell and every status row is deleted. */
  function ClearAllScores(db: Db): (r: Db)
    ensures r.cells == [] && r.status == map[]
    ensures r.routines == db.routines && r.participants == db.participants && r.links == db.links
  {
    db.(cells := [], status := map[])
  }

  // ---------------------------------------------------------------------
  // Scored routines

  /** `EntryTypeRaw LIKE '%word%'`: a substring test that folds ASCII
      letters only, as SQLite's LIKE does. */
  predicate LikeContains(text: string, word: string) {
    ContainsIgnoreCase(text, word)
  }

  /** The routine has a status row with IsScored = 1 and a sheet. */
  predicate IsScored(db: Db, r: Routine) {
    r.routineId in db.status && db.status[r.routineId].isScored && db.status[r.routineId].lastSheetKey.Some?
  }

  /** A row of GetScoredRoutinesAsync. The query does not select the entry
      type, so that field always holds its default, the empty string. */
  datatype ScoredRoutineRow = ScoredRoutineRow(
    routineId: string,
    programNumber: int,
    cls: Option<string>,
    entryType: string,
    participants: Option<string>,
    studioName: Option<string>,
    routineTitle: string,
    lastSheetKey: string)

  function RowOf(db: Db, r: Routine): ScoredRoutineRow
    requires IsScored(db, r)
  {
    ScoredRoutineRow(r.routineId, r.programNumber, r.cls, "", r.participantsRaw, r.studioName,
                     r.routineTitle, db.status[r.routineId].lastSheetKey.value)
  }

  function ScoredFrom(db: Db, routines: seq<Routine>, word: string): (r: seq<ScoredRoutineRow>)
    ensures forall i | 0 <= i < |r| :: r[i].entryType == ""
    decreases |routines|
  {
    if |routines| == 0 then []
    else
      var rest := ScoredFrom(db, routines[1..], word);
      var x := routines[0];
      if LikeContains(x.entryTypeRaw, word) && IsScored(db, x) then [RowOf(db, x)] + rest else rest
  }

  /** GetScoredRoutinesAsync with the pattern `%word%`: the routines whose
      entry type contains the word and that are scored with a sheet, in
      table order. */
  function GetScoredRoutines(db: Db, word: string): (r: seq<ScoredRoutineRow>)
    ensures forall i | 0 <= i < |r| :: r[i].entryType == ""
  {
    ScoredFrom(db, db.routines, word)
  }

  /** Row `i` of the routines matches the word, is scored, and gives `y`. */
  predicate SelectedAt(db: Db, routines: seq<Routine>, word: string, y: ScoredRoutineRow, i: int) {
    0 <= i < |routines| && IsScored(db, routines[i])
    && LikeContains(routines[i].entryTypeRaw, word) && y == RowOf(db, routines[i])
  }

  predicate Selected(db: Db, routines: seq<Routine>, word: string, y: ScoredRoutineRow) {
    exists i | 0 <= i < |routines| :: SelectedAt(db, routines, word, y, i)
  }

  /** A scored routine whose entry type matches is returned. */
  lemma {:induction false} ScoredRoutinesSelect(db: Db, routines: seq<Routine>, word: string, x: Routine)
    requires IsScored(db, x)
    ensures x in routines && LikeContains(x.entryTypeRaw, word) ==> RowOf(db, x) in ScoredFrom(db, routines, word)
    decreases |routines|
  {
    if |routines| > 0 {
      ScoredRoutinesSelect(db, routines[1..], word, x);
      if x in routines && x != routines[0] {
        assert x in routines[1..];
      }
    }
  }

  /** Every returned row is read from a scored routine whose entry type
      matches. */
  lemma {:induction false} ScoredRowsSelected(db: Db, routines: seq<Routine>, word: string)
    ensures forall y | y in ScoredFrom(db, routines, word) :: Selected(db, routines, word, y)
    decreases |routines|
  {
    if |routines| > 0 {
      ScoredRowsSelected(db, routines[1..], word);
      var rest := ScoredFrom(db, routines[1..], word);
      forall y | y in ScoredFrom(db, routines, word)
        ensures Selected(db, routines, word, y)
      {
        if y in rest {
          var i :| 0 <= i < |routines[1..]| && SelectedAt(db, routines[1..], word, y, i);
          assert SelectedAt(db, routines, word, y, i + 1);
        } else {
          assert SelectedAt(db, routines, word, y, 0);
        }
      }
    }
  }

  /** Clearing every score leaves no scored routine. */
  lemma ClearedHasNoScoredRoutines(db: Db, word: string)
    ensures GetScoredRoutines(ClearAllScores(db), word) == []
  {
    NoneScored(ClearAllScores(db), db.routines, word);
  }

  lemma {:induction false} NoneScored(db: Db, routines: seq<Routine>, word: string)
    requires db.status == map[]
    ensures ScoredFrom(db, routines, word) == []
    decreases |routines|
  {
    if |routines| > 0 {
      NoneScored(db, routines[1..], word);
    }
  }

  /** The judge index and value of each cell; a NULL value becomes 0. */
  function ToScoreCells(cells: seq<CellRow>): (r: seq<JudgeScores.ScoreCell>)
    ensures |r| == |cells|
    ensures forall i | 0 <= i < |r| :: r[i].judgeIndex == cells[i].judgeIndex && r[i].value == cells[i].value.GetOr(0.0)
  {
    seq(|cells|, i requires 0 <= i < |cells| => JudgeScores.ScoreCell(cells[i].judgeIndex, cells[i].value.GetOr(0.0)))
  }

  /** GetScoreCellsAsync: the routine's cells on the sheet as score cells. */
  function GetScoreCells(db: Db, routineId: string, sheetKey: string): seq<JudgeScores.ScoreCell> {
    ToScoreCells(GetCells(db, routineId, sheetKey))
  }

  // ---------------------------------------------------------------------
  // Award candidates

  /** A Solo or Duet award candidate: what the candidate queries return, and
      what the Core Duet and Trio services build themselves. */
  datatype Candidate = Candidate(
    cls: Option<string>,
    participants: Option<string>,
    programNumber: int,
    studioName: Option<string>,
    routineTitle: string,
    finalScore: real)

  function CandidateOf(row: ScoredRoutineRow, score: real): Candidate {
    Candidate(row.cls, row.participants, row.programNumber, row.studioName, row.routineTitle, score)
  }

  /** The final score of a scored routine: the mean of its judge totals
      on its last sheet, which fails when the sheet has no cells. */
  function ScoreOf(db: Db, row: ScoredRoutineRow): Result<real, JudgeScores.ScoreError> {
    JudgeScores.AveragedScore(GetScoreCells(db, row.routineId, row.lastSheetKey))
  }

  /** `c` is the candidate the query builds from `row`. */
  predicate ScoredAs(db: Db, row: ScoredRoutineRow, c: Candidate) {
    ScoreOf(db, row).Success? && c == CandidateOf(row, ScoreOf(db, row).value)
  }

  /** A scoring of routines, as the query's join and aggregate give it. */
  type Scoring = ScoredRoutineRow -> Result<real, JudgeScores.ScoreError>

  /** The repository's own scoring of a database's routines. */
  function ScoringOf(db: Db): Scoring {
    row => ScoreOf(db, row)
  }

  /** The rows that `score` scores, in order, each made a candidate; rows
      it fails to score are dropped. */
  function ScoredWith(rows: seq<ScoredRoutineRow>, score: Scoring): (r: seq<Candidate>)
    ensures |r| <= |rows|
    decreases |rows|
  {
    if |rows| == 0 then []
    else
      var rest := ScoredWith(rows[1..], score);
      var first := score(rows[0]);
      if first.Success? then [CandidateOf(rows[0], first.value)] + rest else rest
  }

  lemma {:induction false} ScoredWithSound(rows: seq<ScoredRoutineRow>, score: Scoring, c: Candidate)
    requires c in ScoredWith(rows, score)
    ensures exists i :: 0 <= i < |rows| && score(rows[i]).Success? && c == CandidateOf(rows[i], score(rows[i]).value)
    decreases |rows|
  {
    var rest := ScoredWith(rows[1..], score);
    if c in rest {
      ScoredWithSound(rows[1..], score, c);
      var i :| 0 <= i < |rows[1..]| && score(rows[1..][i]).Success? && c == CandidateOf(rows[1..][i], score(rows[1..][i]).value);
      assert rows[1..][i] == rows[i + 1];
    }
  }

  lemma {:induction false} ScoredWithComplete(rows: seq<ScoredRoutineRow>, score: Scoring, i: nat)
    requires i < |rows| && score(rows[i]).Success?
    ensures CandidateOf(rows[i], score(rows[i]).value) in ScoredWith(rows, score)
    decreases |rows|
  {
    if i > 0 {
      ScoredWithComplete(rows[1..], score, i - 1);
      assert rows[1..][i - 1] == rows[i];
    }
  }

  /** The RoutineScores step: each scored routine with at least one cell on
      its last sheet, scored by the mean of its judge totals. The inner join
      drops routines without cells. */
  function RoutineScores(db: Db, rows: seq<ScoredRoutineRow>): (r: seq<Candidate>)
    ensures |r| <= |rows|
  {
    ScoredWith(rows, ScoringOf(db))
  }

  /** Every candidate comes from a scored routine whose sheet has cells. */
  lemma RoutineScoresSound(db: Db, rows: seq<ScoredRoutineRow>, c: Candidate)
    requires c in RoutineScores(db, rows)
    ensures exists i :: 0 <= i < |rows| && ScoredAs(db, rows[i], c)
  {
    ScoredWithSound(rows, ScoringOf(db), c);
    var i :| 0 <= i < |rows| && ScoringOf(db)(rows[i]).Success? && c == CandidateOf(rows[i], ScoringOf(db)(rows[i]).value);
    assert ScoredAs(db, rows[i], c);
  }

  /** Every scored routine whose sheet has cells gives a candidate. */
  lemma RoutineScoresComplete(db: Db, rows: seq<ScoredRoutineRow>, i: nat)
    requires i < |rows| && ScoreOf(db, rows[i]).Success?
    ensures CandidateOf(rows[i], ScoreOf(db, rows[i]).value) in RoutineScores(db, rows)
  {
    assert ScoringOf(db)(rows[i]) == ScoreOf(db, rows[i]);
    ScoredWithComplete(rows, ScoringOf(db), i);
  }

  /** Candidate `i` is the first of its participant string's best scores:
      `ROW_NUMBER() OVER (PARTITION BY Participants ORDER BY FinalScore
      DESC) = 1`, with the tie among equal scores broken by row order. NULL
      participants form one partition. */
  predicate IsBest(cs: seq<Candidate>, i: nat)
    requires i < |cs|
  {
    forall j | 0 <= j < |cs| && j != i && cs[j].participants == cs[i].participants ::
      cs[j].finalScore < cs[i].finalScore || (cs[j].finalScore == cs[i].finalScore && i < j)
  }

  function BestFrom(cs: seq<Candidate>, k: nat): (r: seq<Candidate>)
    requires k <= |cs|
    ensures forall c | c in r :: exists i :: k <= i < |cs| && IsBest(cs, i) && c == cs[i]
    ensures forall i | k <= i < |cs| && IsBest(cs, i) :: cs[i] in r
    decreases |cs| - k
  {
    if k == |cs| then []
    else (if IsBest(cs, k) then [cs[k]] else []) + BestFrom(cs, k + 1)
  }

  /** The RankedRoutines step with `RoutineRank = 1`. */
  function BestPerParticipants(cs: seq<Candidate>): (r: seq<Candidate>)
    ensures forall c | c in r :: exists i :: 0 <= i < |cs| && IsBest(cs, i) && c == cs[i]
    ensures forall i | 0 <= i < |cs| && IsBest(cs, i) :: cs[i] in r
  {
    BestFrom(cs, 0)
  }

  /** Two kept candidates never share a participant string. */
  lemma BestIsUnique(cs: seq<Candidate>, x: Candidate, y: Candidate)
    requires x in BestPerParticipants(cs) && y in BestPerParticipants(cs)
    requires x.participants == y.participants
    ensures x == y
  {
    var i :| 0 <= i < |cs| && IsBest(cs, i) && x == cs[i];
    var j :| 0 <= j < |cs| && IsBest(cs, j) && y == cs[j];
    if i != j {
      assert false;
    }
  }

  /** The index of the first best candidate with the participants of
      `cs[i]` among indexes `k` and up, or `i` itself. */
  function BestIndex(cs: seq<Candidate>, i: nat, k: nat): (b: nat)
    requires i < |cs| && k <= |cs|
    ensures b < |cs| && cs[b].participants == cs[i].participants
    ensures cs[b].finalScore >= cs[i].finalScore
    decreases |cs| - k
  {
    if k == |cs| then i
    else
      var b := BestIndex(cs, i, k + 1);
      if cs[k].participants == cs[i].participants && cs[k].finalScore >= cs[b].finalScore then k else b
  }

  /** Every participant string keeps a candidate at least as good as each of
      its routines. */
  lemma BestKept(cs: seq<Candidate>, i: nat)
    requires i < |cs|
    ensures exists c :: (c in BestPerParticipants(cs) && c.participants == cs[i].participants
      && c.finalScore >= cs[i].finalScore)
  {
    var b := BestOfAll(cs, i);
    assert cs[b] in BestPerParticipants(cs);
  }

  /** Among the candidates sharing `cs[i]`'s participants, the first one
      with the top score is best. */
  lemma BestOfAll(cs: seq<Candidate>, i: nat) returns (b: nat)
    requires i < |cs|
    ensures b < |cs| && IsBest(cs, b) && cs[b].participants == cs[i].participants
    ensures cs[b].finalScore >= cs[i].finalScore
  {
    var top := TopScore(cs, i, 0);
    b := FirstAt(cs, i, top, 0);
  }

  /** The highest score among `cs[k..]` entries sharing `cs[i]`'s
      participants, and at least `cs[i]`'s. */
  function TopScore(cs: seq<Candidate>, i: nat, k: nat): (t: real)
    requires i < |cs| && k <= |cs|
    ensures t >= cs[i].finalScore
    ensures forall j | k <= j < |cs| && cs[j].participants == cs[i].participants :: cs[j].finalScore <= t
    ensures t == cs[i].finalScore || exists j :: k <= j < |cs| && cs[j].participants == cs[i].participants && cs[j].finalScore == t
    decreases |cs| - k
  {
    if k == |cs| then cs[i].finalScore
    else
      var t := TopScore(cs, i, k + 1);
      if cs[k].participants == cs[i].participants && cs[k].finalScore > t then cs[k].finalScore else t
  }

  lemma FirstAt(cs: seq<Candidate>, i: nat, top: real, k: nat) returns (b: nat)
    requires i < |cs| && k <= |cs|
    requires top == TopScore(cs, i, 0)
    requires forall j | 0 <= j < k && cs[j].participants == cs[i].participants :: cs[j].finalScore != top
    ensures b < |cs| && IsBest(cs, b) && cs[b].participants == cs[i].participants && cs[b].finalScore >= cs[i].finalScore
    decreases |cs| - k
  {
    if k == |cs| {
      assert false;
    } else if cs[k].participants == cs[i].participants && cs[k].finalScore == top {
      b := k;
    } else {
      b := FirstAt(cs, i, top, k + 1);
    }
  }

  /** ORDER BY Class: NULL first, then BINARY collation, which is code-point
      order. */
  predicate ClassLe(a: Option<string>, b: Option<string>) {
    a.None? || (b.Some? && StrLe(a.value, b.value))
  }

  /** ORDER BY Class, FinalScore DESC. */
  predicate CandidateLe(a: Candidate, b: Candidate) {
    ClassLe(a.cls, b.cls) && (ClassLe(b.cls, a.cls) ==> a.finalScore >= b.finalScore)
  }

  lemma ClassLeFacts(a: Option<string>, b: Option<string>, c: Option<string>)
    ensures ClassLe(a, b) || ClassLe(b, a)
    ensures ClassLe(a, b) && ClassLe(b, c) ==> ClassLe(a, c)
    ensures ClassLe(a, b) && ClassLe(b, a) ==> a == b
  {
    if a.Some? && b.Some? {
      StrLeTotal(a.value, b.value);
      if StrLe(a.value, b.value) && StrLe(b.value, a.value) {
        StrLeAntisym(a.value, b.value);
      }
      if c.Some? && StrLe(a.value, b.value) && StrLe(b.value, c.value) {
        StrLeTrans(a.value, b.value, c.value);
      }
    }
  }

  lemma CandidateOrderTotal()
    ensures Sorting.TotalPreorder(CandidateLe)
  {
    forall a: Candidate, b: Candidate
      ensures CandidateLe(a, b) || CandidateLe(b, a)
    {
      ClassLeFacts(a.cls, b.cls, a.cls);
    }
    forall a: Candidate, b: Candidate, c: Candidate | CandidateLe(a, b) && CandidateLe(b, c)
      ensures CandidateLe(a, c)
    {
      ClassLeFacts(a.cls, b.cls, c.cls);
      ClassLeFacts(b.cls, c.cls, a.cls);
      ClassLeFacts(c.cls, a.cls, b.cls);
    }
  }

  /** The candidate query for entry types containing `word`: score, keep
      each participant string's best routine, order by class and then score
      descending (rows the order cannot tell apart stay in row order). */
  function AwardCandidates(db: Db, word: string): (r: seq<Candidate>)
    ensures Sorting.SortedBy(r, CandidateLe)
    ensures multiset(r) == multiset(BestPerParticipants(RoutineScores(db, GetScoredRoutines(db, word))))
  {
    CandidateOrderTotal();
    Sorting.SortBy(BestPerParticipants(RoutineScores(db, GetScoredRoutines(db, word))), CandidateLe)
  }

  /** GetSoloAwardsCandidatesAsync. */
  function SoloCandidates(db: Db): seq<Candidate> {
    AwardCandidates(db, "Solo")
  }

  /** GetDuetAwardsCandidatesAsync: the Solo query with `%Duet%`. */
  function DuetCandidates(db: Db): seq<Candidate> {
    AwardCandidates(db, "Duet")
  }

  /** The candidates come out ordered by class, then by score descending,
      and no two of them share a participant string. */
  lemma CandidatesOrderedAndDeduplicated(db: Db, word: string)
    ensures forall i, j | 0 <= i < j < |AwardCandidates(db, word)| ::
      var a := AwardCandidates(db, word)[i];
      var b := AwardCandidates(db, word)[j];
      ClassLe(a.cls, b.cls) && (a.cls == b.cls ==> a.finalScore >= b.finalScore)
    ensures forall x, y | x in AwardCandidates(db, word) && y in AwardCandidates(db, word) && x.participants == y.participants ::
      x == y
  {
    var r := AwardCandidates(db, word);
    var best := BestPerParticipants(RoutineScores(db, GetScoredRoutines(db, word)));
    forall x, y | x in r && y in r && x.participants == y.participants
      ensures x == y
    {
      assert x in multiset(best) && y in multiset(best);
      BestIsUnique(RoutineScores(db, GetScoredRoutines(db, word)), x, y);
    }
  }

  /** Every scored routine's participant string keeps a candidate scoring
      at least as much as that routine. */
  lemma CandidatesKeepBest(db: Db, word: string, c: Candidate)
    requires c in RoutineScores(db, GetScoredRoutines(db, word))
    ensures exists d :: d in AwardCandidates(db, word) && d.participants == c.participants && d.finalScore >= c.finalScore
  {
    var cs := RoutineScores(db, GetScoredRoutines(db, word));
    var best := BestPerParticipants(cs);
    var out := AwardCandidates(db, word);
    assert multiset(out) == multiset(best);
    var i :| 0 <= i < |cs| && cs[i] == c;
    var b := BestOfAll(cs, i);
    assert cs[b] in best;
    assert cs[b] in multiset(best);
    assert cs[b] in out;
  }

  /** When some row has the key, the last value under it is one such
      row's value. */
  lemma {:induction false} LastValueFound(rows: seq<CellRow>, k: CellKey, m: nat) returns (i: nat)
    requires m < |rows| && KeyOf(rows[m]) == k
    ensures i < |rows| && KeyOf(rows[i]) == k && LastValue(rows, k) == Some(rows[i].value)
    decreases |rows|
  {
    if KeyOf(rows[|rows| - 1]) == k {
      i := |rows| - 1;
    } else {
      i := LastValueFound(rows[..|rows| - 1], k, m);
    }
  }

  /** Reading a routine's cells for a sheet finds, under each key, the
      value stored under it. */
  lemma GetCellsFindsStored(db: Db, k: CellKey)
    requires UniqueKeys(db.cells) && ValueAt(db.cells, k).Some?
    ensures LastValue(GetCells(db, k.routineId, k.sheetKey), k) == ValueAt(db.cells, k)
  {
    var i := ValueAtFound(db.cells, k);
    var rows := GetCells(db, k.routineId, k.sheetKey);
    GetCellsMembers(db, k.routineId, k.sheetKey, db.cells[i]);
    var m :| 0 <= m < |rows| && rows[m] == db.cells[i];
    var l := LastValueFound(rows, k, m);
    GetCellsMembers(db, k.routineId, k.sheetKey, rows[l]);
    var p :| 0 <= p < |db.cells| && db.cells[p] == rows[l];
    ValueAtRow(db.cells, k, p);
  }
}
