/** Score sheets: the criterion record, the four built-in sheets and the
    selector that offers sheets per competition type. */
module ScoreSheets {
  import opened Wrappers

  /** The competition types. The enum is backed by an int, so a value other
      than the three named ones (0, 1, 2) can still reach the selector;
      `Unnamed` stands for those. */
  datatype CompetitionType = TSDance | USASF | OKState | Unnamed(value: int)

  /** One scoring column of a sheet. */
  datatype Criterion = Criterion(
    key: string,
    displayName: string,
    maxScore: real,
    order: int,
    group: Option<string>,
    canonicalKey: string)

  /** The constructor of a criterion with its optional parameters: order 0,
      no group, and a canonical key that defaults to the key. */
  function NewCriterion(key: string, displayName: string, maxScore: real,
                        order: int := 0, group: Option<string> := None,
                        canonicalKey: Option<string> := None): (c: Criterion)
    ensures c.key == key && c.displayName == displayName && c.maxScore == maxScore
    ensures c.order == order && c.group == group
    ensures canonicalKey.Some? ==> c.canonicalKey == canonicalKey.value
    ensures canonicalKey.None? ==> c.canonicalKey == key
  {
    Criterion(key, displayName, maxScore, order, group, canonicalKey.GetOr(key))
  }

  /** A score sheet: its persistence key, tab title, judge count and
      criteria in declaration order. */
  datatype Sheet = Sheet(sheetKey: string, displayName: string, judgeCount: int, criteria: seq<Criterion>)

  // ---------------------------------------------------------------------
  // The four sheets

  const Standard: Sheet := Sheet("STANDARD", "Standard", 3, [
    NewCriterion("Choreography", "Choreography", 10.0, order := 0),
    NewCriterion("Staging", "Staging", 10.0, order := 1),
    NewCriterion("Elements", "Elements", 10.0, order := 2),
    NewCriterion("Execution", "Execution", 10.0, order := 3),
    NewCriterion("Movement", "Movement", 10.0, order := 4),
    NewCriterion("Artistry", "Artistry", 10.0, order := 5),
    NewCriterion("Precision", "Precision", 10.0, order := 6),
    NewCriterion("Performance", "Performance", 10.0, order := 7),
    NewCriterion("Appearance", "Appearance", 10.0, order := 8),
    NewCriterion("Impression", "Impression", 10.0, order := 9)
  ])

  const GameDay: Sheet := Sheet("GAMEDAY", "Game Day", 3, [
    NewCriterion("FightSong_Effectiveness", "Effectiveness", 10.0, order := 0, group := Some("Fight Song"), canonicalKey := Some("Effectiveness")),
    NewCriterion("FightSong_Creativity", "Creativity", 10.0, order := 1, group := Some("Fight Song"), canonicalKey := Some("Creativity")),
    NewCriterion("FightSong_Execution", "Execution", 10.0, order := 2, group := Some("Fight Song"), canonicalKey := Some("Execution")),
    NewCriterion("SpiritRaising_Effectiveness", "Effectiveness", 10.0, order := 3, group := Some("Spirit Raising"), canonicalKey := Some("Effectiveness")),
    NewCriterion("SpiritRaising_Creativity", "Creativity", 10.0, order := 4, group := Some("Spirit Raising"), canonicalKey := Some("Creativity")),
    NewCriterion("SpiritRaising_Execution", "Execution", 10.0, order := 5, group := Some("Spirit Raising"), canonicalKey := Some("Execution")),
    NewCriterion("Performance_Energy", "Energy", 10.0, order := 6, group := Some("Performance"), canonicalKey := Some("Energy")),
    NewCriterion("Performance_Synchronization", "Synchronization", 10.0, order := 7, group := Some("Performance"), canonicalKey := Some("Synchronization")),
    NewCriterion("Performance_Skills", "Skills", 10.0, order := 8, group := Some("Performance"), canonicalKey := Some("Skills")),
    NewCriterion("Performance_Overall", "Overall", 10.0, order := 9, group := Some("Performance"), canonicalKey := Some("Overall"))
  ])

  const SpiritRally: Sheet := Sheet("SPIRIT_RALLY", "Spirit Rally", 3, [
    NewCriterion("Movement", "Movement", 10.0, order := 0, group := Some("Execution")),
    NewCriterion("Musicality", "Musicality", 10.0, order := 1, group := Some("Execution")),
    NewCriterion("Creativity", "Creativity", 10.0, order := 2, group := Some("Choreography")),
    NewCriterion("Execution", "Execution", 10.0, order := 3, group := Some("Choreography")),
    NewCriterion("Difficulty", "Difficulty", 10.0, order := 4, group := Some("Showmanship")),
    // the last one passes its group positionally
    NewCriterion("Overall", "Overall", 10.0, 5, Some("Showmanship"))
  ])

  const Trendsetters: Sheet := Sheet("TRENDSETTERS", "Trendsetters Dance Competition", 3, [
    NewCriterion("Choreography", "Choreography", 25.0, order := 0),
    NewCriterion("Technique", "Technique", 25.0, order := 1),
    NewCriterion("Execution", "Execution", 25.0, order := 2),
    NewCriterion("Artistry", "Artistry", 10.0, order := 3),
    NewCriterion("Showmanship", "Showmanship", 10.0, order := 4),
    NewCriterion("Appearance", "Appearance", 5.0, order := 5)
  ])

  const AllSheets: seq<Sheet> := [Standard, GameDay, SpiritRally, Trendsetters]

  // ---------------------------------------------------------------------
  // Shape of a sheet

  /** Each criterion's order is its position: declaration order is display
      order. */
  predicate OrdersArePositions(s: Sheet) {
    forall i | 0 <= i < |s.criteria| :: s.criteria[i].order == i
  }

  /** No two criteria share a persistence key. */
  predicate KeysDistinct(s: Sheet) {
    forall i, j | 0 <= i < j < |s.criteria| :: s.criteria[i].key != s.criteria[j].key
  }

  predicate Ungrouped(s: Sheet) {
    forall i | 0 <= i < |s.criteria| :: s.criteria[i].group.None?
  }

  /** Every maximum is positive. */
  predicate PositiveMaxima(s: Sheet) {
    forall i | 0 <= i < |s.criteria| :: s.criteria[i].maxScore > 0.0
  }

  predicate WellFormed(s: Sheet) {
    s.judgeCount == 3 && OrdersArePositions(s) && KeysDistinct(s) && PositiveMaxima(s)
  }

  /** The sum of the maxima: the best total one judge can give. */
  function MaxTotal(cs: seq<Criterion>): real
    decreases |cs|
  {
    if |cs| == 0 then 0.0 else MaxTotal(cs[..|cs| - 1]) + cs[|cs| - 1].maxScore
  }

  lemma {:induction false} MaxTotalConcat(a: seq<Criterion>, b: seq<Criterion>)
    ensures MaxTotal(a + b) == MaxTotal(a) + MaxTotal(b)
    decreases |b|
  {
    if |b| > 0 {
      assert (a + b)[..|a + b| - 1] == a + b[..|b| - 1];
      MaxTotalConcat(a, b[..|b| - 1]);
    } else {
      assert a + b == a;
    }
  }

  /** Criteria that all have maximum `m` total `m` times their number. */
  lemma {:induction false} MaxTotalUniform(cs: seq<Criterion>, m: real)
    requires forall i | 0 <= i < |cs| :: cs[i].maxScore == m
    ensures MaxTotal(cs) == |cs| as real * m
    decreases |cs|
  {
    if |cs| > 0 {
      MaxTotalUniform(cs[..|cs| - 1], m);
    }
  }

  /** `n` copies of the group `g`. */
  function Run(g: string, n: nat): (r: seq<Option<string>>)
    ensures |r| == n && forall i | 0 <= i < n :: r[i] == Some(g)
  {
    seq(n, i => Some(g))
  }

  function GroupsOf(s: Sheet): (r: seq<Option<string>>)
    ensures |r| == |s.criteria|
    ensures forall i | 0 <= i < |r| :: r[i] == s.criteria[i].group
  {
    seq(|s.criteria|, i requires 0 <= i < |s.criteria| => s.criteria[i].group)
  }

  // ---------------------------------------------------------------------
  // Facts about the four sheets

  /** The four sheet keys differ from each other. */
  lemma SheetKeysDistinct()
    ensures forall i, j | 0 <= i < j < |AllSheets| :: AllSheets[i].sheetKey != AllSheets[j].sheetKey
  {
    assert Standard.sheetKey[0] == 'S' && GameDay.sheetKey[0] == 'G' && Trendsetters.sheetKey[0] == 'T';
    assert |Standard.sheetKey| != |SpiritRally.sheetKey|;
  }

  /** Standard: ten ungrouped criteria, each out of 10, whose canonical key
      is their key. */
  lemma StandardShape()
    ensures |Standard.criteria| == 10 && Ungrouped(Standard)
    ensures forall i | 0 <= i < 10 ::
      (Standard.criteria[i].maxScore == 10.0 && Standard.criteria[i].canonicalKey == Standard.criteria[i].key)
    ensures WellFormed(Standard) && MaxTotal(Standard.criteria) == 100.0
  {
    StandardKeysDistinct();
    MaxTotalUniform(Standard.criteria, 10.0);
  }

  lemma StandardKeysDistinct()
    ensures KeysDistinct(Standard)
  {
  }

  /** Game Day: three runs of groups, Fight Song three wide, Spirit Raising
      three wide and Performance four wide; every canonical key is the
      criterion's display name, so the same heading in two groups reports
      under one name. */
  lemma GameDayShape()
    ensures GroupsOf(GameDay) == Run("Fight Song", 3) + Run("Spirit Raising", 3) + Run("Performance", 4)
    ensures forall i | 0 <= i < |GameDay.criteria| :: GameDay.criteria[i].canonicalKey == GameDay.criteria[i].displayName
    ensures WellFormed(GameDay) && MaxTotal(GameDay.criteria) == 100.0
    ensures GameDay.criteria[0].canonicalKey == GameDay.criteria[3].canonicalKey
  {
    GameDayGroups();
    GameDayKeysDistinct();
    MaxTotalUniform(GameDay.criteria, 10.0);
  }

  lemma GameDayGroups()
    ensures GroupsOf(GameDay) == Run("Fight Song", 3) + Run("Spirit Raising", 3) + Run("Performance", 4)
  {
    var gs := GroupsOf(GameDay);
    var rs := Run("Fight Song", 3) + Run("Spirit Raising", 3) + Run("Performance", 4);
    assert forall i | 0 <= i < 10 :: gs[i] == rs[i];
  }

  lemma GameDayKeysDistinct()
    ensures KeysDistinct(GameDay)
  {
  }

  /** Spirit Rally: three pairs grouped Execution, Choreography and
      Showmanship. */
  lemma SpiritRallyShape()
    ensures GroupsOf(SpiritRally) == Run("Execution", 2) + Run("Choreography", 2) + Run("Showmanship", 2)
    ensures WellFormed(SpiritRally) && MaxTotal(SpiritRally.criteria) == 60.0
  {
    SpiritRallyGroups();
    SpiritRallyKeysDistinct();
    MaxTotalUniform(SpiritRally.criteria, 10.0);
  }

  lemma SpiritRallyGroups()
    ensures GroupsOf(SpiritRally) == Run("Execution", 2) + Run("Choreography", 2) + Run("Showmanship", 2)
  {
    var gs := GroupsOf(SpiritRally);
    var rs := Run("Execution", 2) + Run("Choreography", 2) + Run("Showmanship", 2);
    assert forall i | 0 <= i < 6 :: gs[i] == rs[i];
  }

  lemma SpiritRallyKeysDistinct()
    ensures KeysDistinct(SpiritRally)
  {
  }

  /** Trendsetters: ungrouped, maxima 25, 25, 25, 10, 10, 5, summing to a
      100-point sheet. */
  lemma TrendsettersShape()
    ensures Ungrouped(Trendsetters) && WellFormed(Trendsetters)
    ensures seq(6, i requires 0 <= i < 6 => Trendsetters.criteria[i].maxScore) == [25.0, 25.0, 25.0, 10.0, 10.0, 5.0]
    ensures MaxTotal(Trendsetters.criteria) == 100.0
  {
    TrendsettersKeysDistinct();
    var cs := Trendsetters.criteria;
    assert cs == cs[..3] + cs[3..5] + cs[5..];
    MaxTotalUniform(cs[..3], 25.0);
    MaxTotalUniform(cs[3..5], 10.0);
    MaxTotalUniform(cs[5..], 5.0);
    MaxTotalConcat(cs[..3], cs[3..5]);
    MaxTotalConcat(cs[..3] + cs[3..5], cs[5..]);
  }

  lemma TrendsettersKeysDistinct()
    ensures KeysDistinct(Trendsetters)
  {
  }

  /** No built-in sheet repeats a criterion key. */
  lemma BuiltInKeysDistinct(s: Sheet)
    requires s in AllSheets
    ensures KeysDistinct(s)
  {
    assert s == Standard || s == GameDay || s == SpiritRally || s == Trendsetters;
    if s == Standard {
      StandardKeysDistinct();
    } else if s == GameDay {
      GameDayKeysDistinct();
    } else if s == SpiritRally {
      SpiritRallyKeysDistinct();
    } else {
      TrendsettersKeysDistinct();
    }
  }

  /** Every built-in sheet is well formed: three judges, orders 0..n-1 and
      distinct keys. */
  lemma AllSheetsWellFormed()
    ensures forall i | 0 <= i < |AllSheets| :: WellFormed(AllSheets[i])
  {
    StandardShape();
    GameDayShape();
    SpiritRallyShape();
    TrendsettersShape();
  }

  // ---------------------------------------------------------------------
  // Selector

  /** The sheets offered and the key of the one shown first. */
  datatype SheetChoice = SheetChoice(sheets: seq<Sheet>, defaultKey: string)

  /** `FirstOrDefault()?.SheetKey ?? string.Empty`. */
  function FirstKeyOrEmpty(sheets: seq<Sheet>): (k: string)
    ensures |sheets| > 0 ==> k == sheets[0].sheetKey
    ensures |sheets| == 0 ==> k == ""
  {
    if |sheets| == 0 then "" else sheets[0].sheetKey
  }

  /** `DefaultScoreSheetSelector.GetSheets`. The routine argument is not
      consulted by any branch, so it is not a parameter here. */
  function GetSheets(t: CompetitionType): (r: SheetChoice)
    ensures exists i :: 0 <= i < |r.sheets| && r.sheets[i].sheetKey == r.defaultKey
    ensures forall i | 0 <= i < |r.sheets| :: r.sheets[i] in AllSheets
    ensures GameDay in r.sheets
    ensures (t.OKState? || t.USASF?) <==> Standard in r.sheets
    ensures (t.OKState? || t.USASF?) <==> r.defaultKey == "STANDARD"
    ensures !(t.OKState? || t.USASF?) <==> r.defaultKey == "TRENDSETTERS"
  {
    var r := match t
      case OKState => SheetChoice([Standard, GameDay, SpiritRally], Standard.sheetKey)
      case USASF => SheetChoice([Standard, GameDay, SpiritRally], Standard.sheetKey)
      case _ =>
        var sheets := [Trendsetters, GameDay];
        SheetChoice(sheets, FirstKeyOrEmpty(sheets));
    assert r.sheets[0].sheetKey == r.defaultKey;
    r
  }

  /** The sheet the selector defaults to, looked up by its key. */
  function DefaultSheet(t: CompetitionType): (s: Sheet)
    ensures s in GetSheets(t).sheets && s.sheetKey == GetSheets(t).defaultKey
  {
    var c := GetSheets(t);
    c.sheets[0]
  }

  /** Unnamed enum values get what TSDance gets. */
  lemma UnnamedIsTSDance(v: int)
    ensures GetSheets(Unnamed(v)) == GetSheets(TSDance)
  {
  }

  /** The sheets offered are well formed, and their keys differ, so the
      default key names exactly one of them. */
  lemma OfferedSheetsDistinct(t: CompetitionType)
    ensures forall i | 0 <= i < |GetSheets(t).sheets| :: WellFormed(GetSheets(t).sheets[i])
    ensures forall i, j | 0 <= i < j < |GetSheets(t).sheets| ::
      GetSheets(t).sheets[i].sheetKey != GetSheets(t).sheets[j].sheetKey
  {
    AllSheetsWellFormed();
    SheetKeysDistinct();
    var ss := GetSheets(t).sheets;
    forall i, j | 0 <= i < j < |ss|
      ensures ss[i].sheetKey != ss[j].sheetKey
    {
      assert ss[i] != ss[j];
      assert ss[i] in AllSheets && ss[j] in AllSheets;
    }
  }
}
