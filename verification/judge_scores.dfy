/** How a routine's score cells on its last sheet become one final score:
    each judge's cells are summed, and the final score is the mean of those
    judge totals (Solo, Duet and Trio) or the plain sum of every cell
    (Ensemble). */
module JudgeScores {
  import opened Wrappers
  import opened Seqs
  import Grouping

  /** A cell as the score queries read it: the judge index and the value,
      with a NULL value read as 0 (SQL's `COALESCE(Value, 0)`, and the
      default a non-nullable `decimal` receives). */
  datatype ScoreCell = ScoreCell(judgeIndex: int, value: real)

  /** `Enumerable.Average` on an empty list throws. */
  datatype ScoreError = EmptySequence

  /** The sum of every cell value. */
  function CellSum(cells: seq<ScoreCell>): real
    decreases |cells|
  {
    if |cells| == 0 then 0.0 else cells[0].value + CellSum(cells[1..])
  }

  /** The sum of the cells judge `j` entered. */
  function JudgeSum(cells: seq<ScoreCell>, j: int): real
    decreases |cells|
  {
    if |cells| == 0 then 0.0
    else (if cells[0].judgeIndex == j then cells[0].value else 0.0) + JudgeSum(cells[1..], j)
  }

  /** The judges that entered at least one cell, in order of first cell. */
  function Judges(cells: seq<ScoreCell>): (js: seq<int>)
    ensures Distinct(js)
    ensures forall i | 0 <= i < |cells| :: cells[i].judgeIndex in js
    ensures forall g | 0 <= g < |js| :: exists i :: 0 <= i < |cells| && cells[i].judgeIndex == js[g]
  {
    Grouping.GroupKeys(cells, (c: ScoreCell) => c.judgeIndex)
  }

  /** `cells.GroupBy(c => c.JudgeIndex).Select(g => g.Sum(c => c.Value))`:
      one total per judge, in order of the judge's first cell. */
  function JudgeTotals(cells: seq<ScoreCell>): (r: seq<real>)
    ensures |r| == |Judges(cells)|
    ensures forall g | 0 <= g < |r| :: r[g] == JudgeSum(cells, Judges(cells)[g])
  {
    var js := Judges(cells);
    seq(|js|, g requires 0 <= g < |js| => JudgeSum(cells, js[g]))
  }

  /** `Enumerable.Average`: fails on an empty list, otherwise the mean. */
  function Average(xs: seq<real>): (r: Result<real, ScoreError>)
    ensures r.Failure? <==> |xs| == 0
  {
    if |xs| == 0 then Failure(EmptySequence) else Success(SumReal(xs) / (|xs| as real))
  }

  /** The Solo, Duet and Trio final score: the mean of the judge totals. A
      routine without cells on its sheet has no judges, and the mean fails. */
  function AveragedScore(cells: seq<ScoreCell>): (r: Result<real, ScoreError>)
    ensures r.Failure? <==> |cells| == 0
  {
    assert |cells| > 0 ==> cells[0].judgeIndex in Judges(cells);
    Average(JudgeTotals(cells))
  }

  /** The Ensemble final score: the plain sum of all cells. */
  function SummedScore(cells: seq<ScoreCell>): real {
    CellSum(cells)
  }

  // ---------------------------------------------------------------------
  // Judge totals account for every cell exactly once

  /** The sum over a list of judges of each one's total. */
  function TotalOver(cells: seq<ScoreCell>, js: seq<int>): real
    decreases |js|
  {
    if |js| == 0 then 0.0 else JudgeSum(cells, js[0]) + TotalOver(cells, js[1..])
  }

  lemma {:induction false} TotalOverIsSum(cells: seq<ScoreCell>, js: seq<int>)
    ensures TotalOver(cells, js) == SumReal(seq(|js|, g requires 0 <= g < |js| => JudgeSum(cells, js[g])))
    decreases |js|
  {
    var t := seq(|js|, g requires 0 <= g < |js| => JudgeSum(cells, js[g]));
    if |js| > 0 {
      TotalOverIsSum(cells, js[1..]);
      assert t[1..] == seq(|js[1..]|, g requires 0 <= g < |js[1..]| => JudgeSum(cells, js[1..][g]));
    }
  }

  /** Summed over a list of distinct judges, the first cell's value counts
      once when its judge is listed and not at all otherwise. */
  lemma {:induction false} TotalOverStep(c: ScoreCell, rest: seq<ScoreCell>, js: seq<int>)
    requires Distinct(js)
    ensures TotalOver([c] + rest, js) == TotalOver(rest, js) + (if c.judgeIndex in js then c.value else 0.0)
    decreases |js|
  {
    var cells := [c] + rest;
    assert cells[1..] == rest;
    if |js| > 0 {
      assert Distinct(js[1..]);
      TotalOverStep(c, rest, js[1..]);
      if c.judgeIndex == js[0] {
        assert c.judgeIndex !in js[1..];
      }
    }
  }

  /** Any distinct list of judges covering every cell's judge accounts for
      the full sum. */
  lemma {:induction false} TotalOverCovers(cells: seq<ScoreCell>, js: seq<int>)
    requires Distinct(js)
    requires forall i | 0 <= i < |cells| :: cells[i].judgeIndex in js
    ensures TotalOver(cells, js) == CellSum(cells)
    decreases |cells|
  {
    if |cells| == 0 {
      TotalOverEmpty(js);
    } else {
      assert cells == [cells[0]] + cells[1..];
      TotalOverCovers(cells[1..], js);
      TotalOverStep(cells[0], cells[1..], js);
    }
  }

  lemma {:induction false} TotalOverEmpty(js: seq<int>)
    ensures TotalOver([], js) == 0.0
    decreases |js|
  {
    if |js| > 0 {
      TotalOverEmpty(js[1..]);
    }
  }

  /** The judge totals add up to the sum of all cells. */
  lemma JudgeTotalsPartitionCells(cells: seq<ScoreCell>)
    ensures SumReal(JudgeTotals(cells)) == CellSum(cells)
  {
    var js := Judges(cells);
    TotalOverIsSum(cells, js);
    TotalOverCovers(cells, js);
  }

  /** `k` copies of `v` added up: `k * v`, written so that a count times a
      score stays linear arithmetic. */
  function Times(k: nat, v: real): real {
    if k == 0 then 0.0 else v + Times(k - 1, v)
  }

  lemma {:induction false} TimesIsProduct(k: nat, v: real)
    ensures Times(k, v) == (k as real) * v
  {
    if k > 0 {
      TimesIsProduct(k - 1, v);
    }
  }

  /** The Ensemble score is the judge count times the averaged score. */
  lemma SummedIsJudgesTimesAveraged(cells: seq<ScoreCell>)
    requires |cells| > 0
    ensures AveragedScore(cells).Success?
    ensures Times(|Judges(cells)|, AveragedScore(cells).value) == SummedScore(cells)
  {
    AveragedIsMean(cells);
    MeanTimesCount(JudgeTotals(cells));
    JudgeTotalsPartitionCells(cells);
  }

  lemma AveragedIsMean(cells: seq<ScoreCell>)
    requires |cells| > 0
    ensures AveragedScore(cells).Success?
    ensures AveragedScore(cells) == Average(JudgeTotals(cells))
    ensures |JudgeTotals(cells)| == |Judges(cells)|
  {
  }

  /** The mean times the number of values is their sum. */
  lemma MeanTimesCount(xs: seq<real>)
    requires |xs| > 0
    ensures Average(xs).Success?
    ensures Times(|xs|, Average(xs).value) == SumReal(xs)
  {
    TimesIsProduct(|xs|, Average(xs).value);
  }
}
