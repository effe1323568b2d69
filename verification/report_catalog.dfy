/** The report lists per competition type and the catalog that looks
    report definitions up by id, ignoring case. */
module Reports {
  import opened Wrappers
  import opened Text
  import opened Seqs
  import ScoreSheets

  type CompetitionType = ScoreSheets.CompetitionType

  // ---------------------------------------------------------------------
  // Report configuration

  /** The lists the configuration's constructor stores, in display order. */
  const Configured: map<CompetitionType, seq<string>> := map[
    ScoreSheets.TSDance := ["SoloAwards", "DuetAwards"],
    ScoreSheets.USASF := ["SoloAwards"],
    ScoreSheets.OKState := ["SoloAwards"]
  ]

  /** `ReportConfiguration.GetReportsFor`: the configured list, or the
      TSDance list for a type that has none. */
  function GetReportsFor(t: CompetitionType): (r: seq<string>)
    ensures |r| >= 1 && r[0] == "SoloAwards" && Distinct(r)
    ensures "DuetAwards" in r <==> !(t.USASF? || t.OKState?)
    ensures forall id | id in r :: id == "SoloAwards" || id == "DuetAwards"
  {
    if t in Configured then Configured[t] else Configured[ScoreSheets.TSDance]
  }

  /** An unnamed enum value gets the TSDance list. */
  lemma UnnamedFallsBack(v: int)
    ensures GetReportsFor(ScoreSheets.Unnamed(v)) == GetReportsFor(ScoreSheets.TSDance)
  {
    assert ScoreSheets.Unnamed(v) !in Configured;
  }

  /** Duet awards are offered exactly for the competition types whose
      default score sheet is the Trendsetters sheet. */
  lemma DuetAwardsFollowSheets(t: CompetitionType)
    ensures "DuetAwards" in GetReportsFor(t) <==> ScoreSheets.GetSheets(t).defaultKey == "TRENDSETTERS"
  {
  }

  // ---------------------------------------------------------------------
  // Report catalog

  /** A report definition: its id and display name. Creating its view is
      not modelled. */
  datatype ReportDefinition = ReportDefinition(id: string, displayName: string)

  /** The exceptions the catalog throws. */
  datatype CatalogError =
    | ArgumentNull               // ArgumentNullException from the constructor
    | DuplicateKey(id: string)   // ArgumentException from ToDictionary
    | InvalidArgument            // ArgumentException from GetReport
    | NotFound(id: string)       // InvalidOperationException from GetReport

  /** The index key of an id under `StringComparer.OrdinalIgnoreCase`. */
  function Folded(id: string): string {
    Upper(id)
  }

  /** The definitions as given and the index built from them. */
  datatype Catalog = Catalog(reports: seq<ReportDefinition>, index: map<string, ReportDefinition>)

  /** Two of the definitions have ids that are equal ignoring case. */
  predicate IdsCollide(rs: seq<ReportDefinition>) {
    exists i, j | 0 <= i < j < |rs| :: EqualsIgnoreCase(rs[i].id, rs[j].id)
  }

  /** The index holds each definition under its folded id, and nothing
      else. */
  predicate Indexes(rs: seq<ReportDefinition>, m: map<string, ReportDefinition>) {
    (forall i | 0 <= i < |rs| :: Folded(rs[i].id) in m && m[Folded(rs[i].id)] == rs[i])
    && (forall k | k in m :: m[k] in rs && Folded(m[k].id) == k)
  }

  /** `ToDictionary(r => r.Id, OrdinalIgnoreCase)`: adds the definitions in
      order and throws at the first id already present. */
  function BuildIndex(rs: seq<ReportDefinition>): (r: Result<map<string, ReportDefinition>, CatalogError>)
    ensures r.Failure? <==> IdsCollide(rs)
    ensures r.Failure? ==> r.error.DuplicateKey?
    ensures r.Success? ==> Indexes(rs, r.value)
    decreases |rs|
  {
    if |rs| == 0 then Success(map[])
    else
      var init := rs[..|rs| - 1];
      var last := rs[|rs| - 1];
      var m :- BuildIndex(init);
      if Folded(last.id) in m then
        CollisionWithLast(rs, m[Folded(last.id)]);
        Failure(DuplicateKey(last.id))
      else
        IndexExtends(rs, m);
        Success(m[Folded(last.id) := last])
  }

  /** Adding a definition whose folded id is new keeps the index exact and
      adds no collision. */
  lemma IndexExtends(rs: seq<ReportDefinition>, m: map<string, ReportDefinition>)
    requires |rs| > 0 && Indexes(rs[..|rs| - 1], m) && !IdsCollide(rs[..|rs| - 1])
    requires Folded(rs[|rs| - 1].id) !in m
    ensures Indexes(rs, m[Folded(rs[|rs| - 1].id) := rs[|rs| - 1]])
    ensures !IdsCollide(rs)
  {
    var init, last := rs[..|rs| - 1], rs[|rs| - 1];
    var m' := m[Folded(last.id) := last];
    forall i, j | 0 <= i < j < |rs|
      ensures !EqualsIgnoreCase(rs[i].id, rs[j].id)
    {
      if j < |rs| - 1 {
        assert init[i] == rs[i] && init[j] == rs[j];
      } else {
        assert m[Folded(init[i].id)] == rs[i];
      }
    }
    forall i | 0 <= i < |rs|
      ensures Folded(rs[i].id) in m' && m'[Folded(rs[i].id)] == rs[i]
    {
      if i < |rs| - 1 {
        assert init[i] == rs[i];
      }
    }
    forall k | k in m'
      ensures m'[k] in rs && Folded(m'[k].id) == k
    {
      if k != Folded(last.id) {
        assert m[k] in init;
      }
    }
  }

  /** A definition before the last one whose id equals the last one's
      ignoring case makes a collision. */
  lemma CollisionWithLast(rs: seq<ReportDefinition>, x: ReportDefinition)
    requires |rs| > 0 && x in rs[..|rs| - 1]
    requires EqualsIgnoreCase(x.id, rs[|rs| - 1].id)
    ensures IdsCollide(rs)
  {
    var i :| 0 <= i < |rs| - 1 && rs[..|rs| - 1][i] == x;
    assert EqualsIgnoreCase(rs[i].id, rs[|rs| - 1].id);
  }

  /** The catalog's constructor. `None` stands for a null sequence. */
  function NewCatalog(reports: Option<seq<ReportDefinition>>): (r: Result<Catalog, CatalogError>)
    ensures reports.None? ==> r == Failure(ArgumentNull)
    ensures reports.Some? ==> (r.Failure? <==> IdsCollide(reports.value))
    ensures r.Success? ==> r.value.reports == reports.value && Indexes(r.value.reports, r.value.index)
  {
    match reports
    case None => Failure(ArgumentNull)
    case Some(rs) =>
      var index :- BuildIndex(rs);
      Success(Catalog(rs, index))
  }

  /** `GetAllReports`: the definitions exactly as given. */
  function GetAllReports(c: Catalog): seq<ReportDefinition> {
    c.reports
  }

  /** `GetReport`: blank ids are rejected; otherwise the id is looked up
      ignoring case, without trimming. */
  function GetReport(c: Catalog, reportId: Option<string>): (r: Result<ReportDefinition, CatalogError>)
    ensures IsNullOrWhiteSpace(reportId) <==> r == Failure(InvalidArgument)
    ensures r.Failure? && !IsNullOrWhiteSpace(reportId) ==> r.error == NotFound(reportId.value)
  {
    if IsNullOrWhiteSpace(reportId) then Failure(InvalidArgument)
    else if Folded(reportId.value) in c.index then Success(c.index[Folded(reportId.value)])
    else Failure(NotFound(reportId.value))
  }

  /** The catalog returns the sequence it was built from. */
  lemma AllReportsRoundTrip(rs: seq<ReportDefinition>)
    requires !IdsCollide(rs)
    ensures NewCatalog(Some(rs)).Success? && GetAllReports(NewCatalog(Some(rs)).value) == rs
  {
  }

  /** On a catalog built from `rs`, a non-blank id finds the definition
      whose id equals it ignoring case, and is not found when there is
      none. */
  lemma GetReportFinds(rs: seq<ReportDefinition>, reportId: string, i: nat)
    requires NewCatalog(Some(rs)).Success?
    requires !AllWhite(reportId)
    requires i < |rs|
    ensures EqualsIgnoreCase(rs[i].id, reportId) <==> GetReport(NewCatalog(Some(rs)).value, Some(reportId)) == Success(rs[i])
  {
    var c := NewCatalog(Some(rs)).value;
    var r := GetReport(c, Some(reportId));
    if r == Success(rs[i]) {
      assert c.index[Folded(reportId)] == rs[i];
    }
  }

  /** An id equal to no definition's id, ignoring case, is not found. */
  lemma GetReportMissing(rs: seq<ReportDefinition>, reportId: string)
    requires NewCatalog(Some(rs)).Success?
    requires !AllWhite(reportId)
    requires forall i | 0 <= i < |rs| :: !EqualsIgnoreCase(rs[i].id, reportId)
    ensures GetReport(NewCatalog(Some(rs)).value, Some(reportId)) == Failure(NotFound(reportId))
  {
  }

  /** Padding is not trimmed: " SoloAwards" is not "SoloAwards". */
  lemma PaddedIdNotFound()
    ensures GetReport(NewCatalog(Some([ReportDefinition("SoloAwards", "Solo Awards")])).value, Some(" SoloAwards"))
      == Failure(NotFound(" SoloAwards"))
  {
    var rs := [ReportDefinition("SoloAwards", "Solo Awards")];
    assert |Upper(" SoloAwards")| != |Upper("SoloAwards")|;
    assert !IsNullOrWhiteSpace(Some(" SoloAwards")) by {
      assert !IsWhiteSpace(" SoloAwards"[1]);
    }
    GetReportMissing(rs, " SoloAwards");
  }
}
