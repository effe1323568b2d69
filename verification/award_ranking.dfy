/** The Solo, Duet and Trio award reports: candidates are grouped by their
    resolved class key (or their trimmed class text when it does not
    resolve), the groups are ordered Studio first, then School, then by the
    class's sort order and display name, and each group ranks its
    candidates by score with shared places for ties and a cut after 12
    entries that keeps ties with the 12th place. */
module AwardRanking {
  import opened Wrappers
  import opened Text
  import opened Seqs
  import Grouping
  import Sorting
  import Placement
  import ClassConfig
  import ClassGrouping
  import JudgeScores
  import EventDb
  import ScoreRepository

  type Candidate = ScoreRepository.Candidate

  /** A ranked entry of an award group. */
  datatype Entry = Entry(
    place: int,
    finalScore: real,
    programNumber: int,
    participants: Option<string>,
    studioName: Option<string>,
    routineTitle: string,
    classKey: string)

  /** A group of the report: its bucket, its heading and its entries. */
  datatype AwardGroup = AwardGroup(bucket: string, cls: string, entries: seq<Entry>)

  // ---------------------------------------------------------------------
  // Grouping by class

  /** The resolved class key, else the trimmed class text, else "". */
  function GroupKey(ev: ClassConfig.Store, c: Candidate): string {
    match ClassConfig.Resolve(ev, c.cls)
    case Some(k) => k
    case None => if c.cls.Some? then Trim(c.cls.value) else ""
  }

  /** GroupKey as the key selector handed to GroupBy. */
  function KeyOf(ev: ClassConfig.Store): Candidate -> string {
    c => GroupKey(ev, c)
  }

  /** Class text that differs only by surrounding white space lands in the
      same group. */
  lemma GroupKeyIgnoresPadding(ev: ClassConfig.Store, c: Candidate, d: Candidate)
    requires c.cls.Some? && d.cls.Some? && Trim(c.cls.value) == Trim(d.cls.value)
    ensures GroupKey(ev, c) == GroupKey(ev, d)
  {
    ClassConfig.ResolveTrims(ev, c.cls.value);
    ClassConfig.ResolveTrims(ev, d.cls.value);
  }

  /** A candidate written with an alias lands in the group of the class the
      alias names, next to candidates written with that class's key. */
  lemma AliasSharesGroup(ev: ClassConfig.Store, c: Candidate, d: Candidate)
    requires ClassConfig.Valid(ev)
    requires c.cls.Some? && !AllWhite(c.cls.value) && Trim(c.cls.value) in ev.aliases
    requires d.cls == Some(ev.aliases[Trim(c.cls.value)].classKey)
    requires Trimmed(d.cls.value) && !AllWhite(d.cls.value) && d.cls.value !in ev.aliases
    ensures GroupKey(ev, c) == GroupKey(ev, d) == d.cls.value
  {
    var k := d.cls.value;
    ClassConfig.ResolveAliasFirst(ev, c.cls.value);
    TrimNoop(k);
    ClassConfig.ResolveWithoutAlias(ev, k);
  }

  /** Studio groups first, then School, then every other bucket; the bucket
      name is compared ignoring case. */
  function BucketPriority(bucket: string): (p: int)
    ensures p == 1 <==> EqualsIgnoreCase(bucket, "studio")
    ensures p == 2 <==> EqualsIgnoreCase(bucket, "school") && !EqualsIgnoreCase(bucket, "studio")
    ensures p == 1 || p == 2 || p == 99
  {
    if EqualsIgnoreCase(bucket, "studio") then 1
    else if EqualsIgnoreCase(bucket, "school") then 2
    else 99
  }

  type ClassGroup = ClassGrouping.ClassGroup<Candidate>

  /** The ordered class groups of a Solo, Duet or Trio report. */
  function ClassGroups(ev: ClassConfig.Store, defs: seq<ClassConfig.ClassDefinition>, cands: seq<Candidate>): seq<ClassGroup> {
    ClassGrouping.ClassGroups(defs, cands, KeyOf(ev), BucketPriority)
  }

  /** Every candidate is in exactly one group, the group of its key; the
      groups run Studio, then School, then the rest. */
  lemma ClassGroupsPartition(ev: ClassConfig.Store, defs: seq<ClassConfig.ClassDefinition>, cands: seq<Candidate>, i: nat)
    requires i < |cands|
    ensures var r := ClassGroups(ev, defs, cands);
      (exists g :: 0 <= g < |r| && r[g].classKey == GroupKey(ev, cands[i]))
      && (forall g | 0 <= g < |r| :: cands[i] in r[g].members <==> GroupKey(ev, cands[i]) == r[g].classKey)
      && (forall g, h | 0 <= g < h < |r| :: r[g].classKey != r[h].classKey
            && BucketPriority(r[g].bucket) <= BucketPriority(r[h].bucket))
  {
    var r := ClassGroups(ev, defs, cands);
    assert r == ClassGrouping.ClassGroups(defs, cands, KeyOf(ev), BucketPriority);
    ClassGrouping.ClassGroupsCover(defs, cands, KeyOf(ev), BucketPriority, i);
    ClassGrouping.ClassGroupKeysDistinct(defs, cands, KeyOf(ev), BucketPriority);
    ClassGrouping.ClassGroupsByPriority(defs, cands, KeyOf(ev), BucketPriority);
    GroupsOfKey(ev, defs, cands, i);
  }

  lemma GroupsOfKey(ev: ClassConfig.Store, defs: seq<ClassConfig.ClassDefinition>, cands: seq<Candidate>, i: nat)
    requires i < |cands|
    ensures var r := ClassGroups(ev, defs, cands);
      forall g | 0 <= g < |r| :: cands[i] in r[g].members <==> GroupKey(ev, cands[i]) == r[g].classKey
  {
    var r := ClassGroups(ev, defs, cands);
    forall g | 0 <= g < |r|
      ensures cands[i] in r[g].members <==> GroupKey(ev, cands[i]) == r[g].classKey
    {
      ClassGrouping.ClassGroupMembers(defs, cands, KeyOf(ev), BucketPriority, g);
    }
  }

  // ---------------------------------------------------------------------
  // Ranking one group

  /** OrderByDescending(c => c.FinalScore). */
  predicate ScoreLe(a: Candidate, b: Candidate) {
    a.finalScore >= b.finalScore
  }

  lemma ScoreOrderTotal()
    ensures Sorting.TotalPreorder(ScoreLe)
  {
  }

  /** The candidates by score, highest first; equal scores keep their
      order. */
  function ByScore(cands: seq<Candidate>): (r: seq<Candidate>)
    ensures |r| == |cands| && multiset(r) == multiset(cands)
    ensures forall j, k | 0 <= j < k < |r| :: r[j].finalScore >= r[k].finalScore
    ensures forall v :: Sorting.EquivalentsOf(r, ScoreLe, v) == Sorting.EquivalentsOf(cands, ScoreLe, v)
  {
    ScoreOrderTotal();
    Sorting.SortBy(cands, ScoreLe)
  }

  function ScoresOf(cs: seq<Candidate>): (r: seq<real>)
    ensures |r| == |cs| && forall k | 0 <= k < |cs| :: r[k] == cs[k].finalScore
  {
    seq(|cs|, k requires 0 <= k < |cs| => cs[k].finalScore)
  }

  function EntryOf(place: int, c: Candidate, classKey: string): Entry {
    Entry(place, c.finalScore, c.programNumber, c.participants, c.studioName, c.routineTitle, classKey)
  }

  /** The entry shows this candidate. */
  predicate Shows(e: Entry, c: Candidate) {
    e.finalScore == c.finalScore && e.programNumber == c.programNumber && e.participants == c.participants
    && e.studioName == c.studioName && e.routineTitle == c.routineTitle
  }

  /** CreateGroup: rank the candidates by score and place them; every
      entry carries `classKey`. */
  function CreateGroup(bucket: string, heading: string, classKey: string, cands: seq<Candidate>): (r: AwardGroup)
    ensures r.bucket == bucket && r.cls == heading
    ensures |r.entries| <= |cands|
    ensures forall k | 0 <= k < |r.entries| :: r.entries[k].classKey == classKey && Shows(r.entries[k], ByScore(cands)[k])
  {
    var sorted := ByScore(cands);
    var places := Placement.Places(ScoresOf(sorted));
    Placement.PlacesShape(ScoresOf(sorted));
    AwardGroup(bucket, heading, seq(|places|, k requires 0 <= k < |places| => EntryOf(places[k], sorted[k], classKey)))
  }

  /** The entries pair the placing loop's places with the scores in rank
      order. */
  lemma CreateGroupShape(bucket: string, heading: string, classKey: string, cands: seq<Candidate>)
    ensures var es := CreateGroup(bucket, heading, classKey, cands).entries;
      var s := ScoresOf(ByScore(cands));
      |es| == |Placement.Places(s)|
      && forall k | 0 <= k < |es| :: es[k].place == Placement.Places(s)[k] && es[k].finalScore == s[k]
  {
  }

  /** The places of a group: the first entry is 1st, places never exceed
      the position and never fall, and scores never rise down the list. */
  lemma CreateGroupPlaces(bucket: string, heading: string, classKey: string, cands: seq<Candidate>)
    ensures var es := CreateGroup(bucket, heading, classKey, cands).entries;
      (|cands| > 0 ==> |es| > 0 && es[0].place == 1)
      && (forall k | 0 <= k < |es| :: 1 <= es[k].place <= k + 1)
      && (forall j, k | 0 <= j < k < |es| :: es[j].finalScore >= es[k].finalScore && es[j].place <= es[k].place)
  {
    var s := ScoresOf(ByScore(cands));
    CreateGroupShape(bucket, heading, classKey, cands);
    Placement.PlacesShape(s);
  }

  /** An entry shares the previous entry's place exactly when it ties the
      first entry holding that place, and otherwise is placed by its
      position. */
  lemma CreateGroupTies(bucket: string, heading: string, classKey: string, cands: seq<Candidate>, k: nat)
    requires 0 < k < |CreateGroup(bucket, heading, classKey, cands).entries|
    ensures var es := CreateGroup(bucket, heading, classKey, cands).entries;
      1 <= es[k - 1].place <= k
      && (Placement.Ties(es[k].finalScore, es[es[k - 1].place - 1].finalScore) ==> es[k].place == es[k - 1].place)
      && (!Placement.Ties(es[k].finalScore, es[es[k - 1].place - 1].finalScore) ==> es[k].place == k + 1)
  {
    var s := ScoresOf(ByScore(cands));
    var es := CreateGroup(bucket, heading, classKey, cands).entries;
    CreateGroupShape(bucket, heading, classKey, cands);
    Placement.PlacesMeetRule(s);
    Placement.PlacesTieRule(s, k);
    assert es[k - 1].place == 1 + Placement.Anchor(s, k - 1);
    assert es[es[k - 1].place - 1].finalScore == s[Placement.Anchor(s, k - 1)];
  }

  /** The cut: a group shows every candidate up to 12, and past the 12th
      entry only entries sharing the 12th's place. */
  lemma CreateGroupCut(bucket: string, heading: string, classKey: string, cands: seq<Candidate>)
    ensures var es := CreateGroup(bucket, heading, classKey, cands).entries;
      |es| >= (if |cands| < Placement.MaxEntriesPerGroup then |cands| else Placement.MaxEntriesPerGroup)
      && (forall k | Placement.MaxEntriesPerGroup <= k < |es| :: es[k].place == es[Placement.MaxEntriesPerGroup - 1].place)
  {
    var s := ScoresOf(ByScore(cands));
    CreateGroupShape(bucket, heading, classKey, cands);
    Placement.PlacesShape(s);
    Placement.PlacesCap(s);
  }

  /** When candidates are left out, the group holds at least 12 entries and
      the first candidate left out does not tie the first entry holding the
      last place. */
  lemma CreateGroupStops(bucket: string, heading: string, classKey: string, cands: seq<Candidate>)
    requires |CreateGroup(bucket, heading, classKey, cands).entries| < |cands|
    ensures var es := CreateGroup(bucket, heading, classKey, cands).entries;
      |es| >= Placement.MaxEntriesPerGroup
      && 1 <= es[|es| - 1].place <= |es|
      && !Placement.Ties(ByScore(cands)[|es|].finalScore, es[es[|es| - 1].place - 1].finalScore)
  {
    var s := ScoresOf(ByScore(cands));
    var es := CreateGroup(bucket, heading, classKey, cands).entries;
    CreateGroupShape(bucket, heading, classKey, cands);
    Placement.PlacesCap(s);
    Placement.PlacesMeetRule(s);
    var a := Placement.Anchor(s, |es| - 1);
    assert es[|es| - 1].place == 1 + a;
    assert es[a].finalScore == s[a];
  }

  /** No candidate left out of a group outscores its last entry. */
  lemma CreateGroupKeepsTop(bucket: string, heading: string, classKey: string, cands: seq<Candidate>, c: Candidate)
    requires c in cands
    requires var es := CreateGroup(bucket, heading, classKey, cands).entries;
      |es| > 0 && c.finalScore > es[|es| - 1].finalScore
    ensures var es := CreateGroup(bucket, heading, classKey, cands).entries;
      exists k :: 0 <= k < |es| && Shows(es[k], c)
  {
    var sorted := ByScore(cands);
    var es := CreateGroup(bucket, heading, classKey, cands).entries;
    assert c in multiset(sorted);
    var i :| 0 <= i < |sorted| && sorted[i] == c;
    assert i < |es|;
    assert Shows(es[i], c);
  }

  /** Distinct scores place 1, 2, 3, ... and the list stops at 12. */
  lemma CreateGroupDistinctScores(bucket: string, heading: string, classKey: string, cands: seq<Candidate>)
    requires forall j, k | 0 <= j < k < |cands| :: !Placement.Ties(cands[j].finalScore, cands[k].finalScore)
    ensures var es := CreateGroup(bucket, heading, classKey, cands).entries;
      |es| == (if |cands| < Placement.MaxEntriesPerGroup then |cands| else Placement.MaxEntriesPerGroup)
      && forall k | 0 <= k < |es| :: es[k].place == k + 1
  {
    var sorted := ByScore(cands);
    var s := ScoresOf(sorted);
    forall j, k | 0 <= j < k < |s|
      ensures !Placement.Ties(s[j], s[k])
    {
      assert sorted[j] in multiset(cands) && sorted[k] in multiset(cands);
      var p :| 0 <= p < |cands| && cands[p] == sorted[j];
      var q :| 0 <= q < |cands| && cands[q] == sorted[k];
      if p == q {
        SameCandidateTwice(cands, sorted, j, k);
      } else if p > q {
        assert !Placement.Ties(cands[q].finalScore, cands[p].finalScore);
      }
    }
    Placement.DistinctScoresPlaces(s);
  }

  /** With pairwise non-tying scores, a candidate appears once, so two
      positions of a reordering cannot hold the same candidate. */
  lemma SameCandidateTwice(cands: seq<Candidate>, sorted: seq<Candidate>, j: nat, k: nat)
    requires forall a, b | 0 <= a < b < |cands| :: !Placement.Ties(cands[a].finalScore, cands[b].finalScore)
    requires multiset(sorted) == multiset(cands)
    requires j < k < |sorted|
    ensures sorted[j] != sorted[k]
  {
    assert DistinctBy(cands, (c: Candidate) => c.finalScore) by {
      forall a, b | 0 <= a < b < |cands|
        ensures cands[a].finalScore != cands[b].finalScore
      {
        assert !Placement.Ties(cands[a].finalScore, cands[b].finalScore);
      }
    }
    DistinctByPermutation(cands, sorted, (c: Candidate) => c.finalScore);
  }

  // ---------------------------------------------------------------------
  // Whole reports

  /** The Core services: each group is headed by its class key and its
      entries carry that key. */
  function CoreReport(ev: ClassConfig.Store, defs: seq<ClassConfig.ClassDefinition>, cands: seq<Candidate>): (r: seq<AwardGroup>)
    ensures |r| == |ClassGroups(ev, defs, cands)|
    ensures forall g | 0 <= g < |r| :: var cg := ClassGroups(ev, defs, cands)[g];
      r[g] == CreateGroup(cg.bucket, cg.classKey, cg.classKey, cg.members)
  {
    var cgs := ClassGroups(ev, defs, cands);
    seq(|cgs|, g requires 0 <= g < |cgs| => CreateGroup(cgs[g].bucket, cgs[g].classKey, cgs[g].classKey, cgs[g].members))
  }

  /** The Application services: each group is headed by its display name;
      the entries are built without a class key and keep the default "". */
  function ApplicationReport(ev: ClassConfig.Store, defs: seq<ClassConfig.ClassDefinition>, cands: seq<Candidate>): (r: seq<AwardGroup>)
    ensures |r| == |ClassGroups(ev, defs, cands)|
    ensures forall g | 0 <= g < |r| :: var cg := ClassGroups(ev, defs, cands)[g];
      r[g] == CreateGroup(cg.bucket, cg.displayName, "", cg.members)
  {
    var cgs := ClassGroups(ev, defs, cands);
    seq(|cgs|, g requires 0 <= g < |cgs| => CreateGroup(cgs[g].bucket, cgs[g].displayName, "", cgs[g].members))
  }

  /** Every entry of a Core report shows a candidate whose class key is the
      group's heading, and carries that key. */
  lemma CoreReportEntries(ev: ClassConfig.Store, defs: seq<ClassConfig.ClassDefinition>, cands: seq<Candidate>, g: nat, k: nat)
    requires g < |CoreReport(ev, defs, cands)| && k < |CoreReport(ev, defs, cands)[g].entries|
    ensures var grp := CoreReport(ev, defs, cands)[g];
      grp.entries[k].classKey == grp.cls
      && exists c :: c in cands && GroupKey(ev, c) == grp.cls && Shows(grp.entries[k], c)
  {
    var cgs := ClassGroups(ev, defs, cands);
    var c := ByScore(cgs[g].members)[k];
    assert c in multiset(cgs[g].members);
    ClassGrouping.GroupMemberIsItem(defs, cands, KeyOf(ev), BucketPriority, g, c);
  }

  /** An Application report heads each group with the display name of the
      definition matching its key ignoring case, or with the key itself when
      no definition matches. Its services build entries with six arguments
      against a seven-parameter record; the model reads the missing class
      key as empty. */
  lemma ApplicationReportLabels(ev: ClassConfig.Store, defs: seq<ClassConfig.ClassDefinition>, cands: seq<Candidate>, g: nat)
    requires g < |ApplicationReport(ev, defs, cands)|
    ensures var grp := ApplicationReport(ev, defs, cands)[g];
      var key := ClassGroups(ev, defs, cands)[g].classKey;
      (ClassGrouping.FindDefinition(defs, key).Some? ==> grp.cls == ClassGrouping.FindDefinition(defs, key).value.displayName)
      && (ClassGrouping.FindDefinition(defs, key).None? ==> grp.cls == key)
      && forall k | 0 <= k < |grp.entries| :: grp.entries[k].classKey == ""
  {
    var x := ClassGrouping.ClassGroupOrigin(defs, cands, KeyOf(ev), BucketPriority, g);
  }

  // ---------------------------------------------------------------------
  // Candidates of the Core Duet and Trio services

  /** The loop of LoadCandidatesAsync for a given scoring of routines:
      one candidate per routine, failing at the first routine whose score
      fails. */
  function LoadWith(rows: seq<ScoreRepository.ScoredRoutineRow>, score: ScoreRepository.ScoredRoutineRow -> Result<real, JudgeScores.ScoreError>): (r: Result<seq<Candidate>, JudgeScores.ScoreError>)
    ensures r.Success? ==> |r.value| == |rows|
    decreases |rows|
  {
    if |rows| == 0 then Success([])
    else
      var first := score(rows[0]);
      if first.Failure? then Failure(first.error)
      else
        var rest := LoadWith(rows[1..], score);
        if rest.Failure? then Failure(rest.error)
        else Success([ScoreRepository.CandidateOf(rows[0], first.value)] + rest.value)
  }

  lemma {:induction false} LoadWithFails(rows: seq<ScoreRepository.ScoredRoutineRow>, score: ScoreRepository.ScoredRoutineRow -> Result<real, JudgeScores.ScoreError>)
    ensures LoadWith(rows, score).Failure? <==> exists i :: 0 <= i < |rows| && score(rows[i]).Failure?
    decreases |rows|
  {
    if |rows| > 0 {
      LoadWithFails(rows[1..], score);
      if exists i :: 0 <= i < |rows[1..]| && score(rows[1..][i]).Failure? {
        var i :| 0 <= i < |rows[1..]| && score(rows[1..][i]).Failure?;
        assert rows[i + 1] == rows[1..][i];
      }
      if exists i :: 0 <= i < |rows| && score(rows[i]).Failure? {
        var i :| 0 <= i < |rows| && score(rows[i]).Failure?;
        if i > 0 {
          assert rows[1..][i - 1] == rows[i];
        }
      }
    }
  }

  lemma {:induction false} LoadWithScores(rows: seq<ScoreRepository.ScoredRoutineRow>, score: ScoreRepository.ScoredRoutineRow -> Result<real, JudgeScores.ScoreError>, i: nat)
    requires LoadWith(rows, score).Success? && i < |rows|
    ensures score(rows[i]).Success? && LoadWith(rows, score).value[i] == ScoreRepository.CandidateOf(rows[i], score(rows[i]).value)
    decreases |rows|
  {
    if i > 0 {
      LoadWithScores(rows[1..], score, i - 1);
      assert rows[1..][i - 1] == rows[i];
    }
  }

  /** LoadCandidatesAsync: one candidate per scored routine, scored by the
      mean of its judge totals; a routine without cells on its sheet makes
      `Average` throw and the report fails. */
  function LoadCandidates(db: EventDb.Db, rows: seq<ScoreRepository.ScoredRoutineRow>): (r: Result<seq<Candidate>, JudgeScores.ScoreError>)
    ensures r.Success? ==> |r.value| == |rows|
  {
    LoadWith(rows, ScoreRepository.ScoringOf(db))
  }

  /** The load fails exactly when some scored routine has no cells on its
      sheet. */
  lemma LoadCandidatesFails(db: EventDb.Db, rows: seq<ScoreRepository.ScoredRoutineRow>)
    ensures LoadCandidates(db, rows).Failure? <==> exists i :: 0 <= i < |rows| && ScoreRepository.ScoreOf(db, rows[i]).Failure?
  {
    LoadWithFails(rows, ScoreRepository.ScoringOf(db));
  }

  /** A successful load gives routine `i` with its mean score as candidate
      `i`. */
  lemma LoadCandidatesScores(db: EventDb.Db, rows: seq<ScoreRepository.ScoredRoutineRow>, i: nat)
    requires LoadCandidates(db, rows).Success? && i < |rows|
    ensures ScoreRepository.ScoredAs(db, rows[i], LoadCandidates(db, rows).value[i])
  {
    LoadWithScores(rows, ScoreRepository.ScoringOf(db), i);
  }

  /** When every routine has cells, the services' own scoring gives the
      same candidates as the repository's RoutineScores step. */
  lemma {:induction false} LoadWithMatchesScored(rows: seq<ScoreRepository.ScoredRoutineRow>, score: ScoreRepository.Scoring)
    requires LoadWith(rows, score).Success?
    ensures LoadWith(rows, score).value == ScoreRepository.ScoredWith(rows, score)
    decreases |rows|
  {
    if |rows| > 0 {
      LoadWithMatchesScored(rows[1..], score);
    }
  }

  lemma LoadCandidatesMatchesQuery(db: EventDb.Db, rows: seq<ScoreRepository.ScoredRoutineRow>)
    requires LoadCandidates(db, rows).Success?
    ensures LoadCandidates(db, rows).value == ScoreRepository.RoutineScores(db, rows)
  {
    LoadWithMatchesScored(rows, ScoreRepository.ScoringOf(db));
  }

  /** Core DuetAwardReportService (word "Duet") and TrioAwardReportService
      (word "Trio"). */
  function CoreScoredReport(db: EventDb.Db, ev: ClassConfig.Store, defs: seq<ClassConfig.ClassDefinition>, word: string): Result<seq<AwardGroup>, JudgeScores.ScoreError> {
    var cands :- LoadCandidates(db, ScoreRepository.GetScoredRoutines(db, word));
    Success(CoreReport(ev, defs, cands))
  }

  /** The Duet and Trio reports fail exactly when a scored routine has no
      cells on its sheet. */
  lemma CoreScoredReportFails(db: EventDb.Db, ev: ClassConfig.Store, defs: seq<ClassConfig.ClassDefinition>, word: string)
    ensures var rows := ScoreRepository.GetScoredRoutines(db, word);
      CoreScoredReport(db, ev, defs, word).Failure? <==>
        exists i :: 0 <= i < |rows| && ScoreRepository.ScoreOf(db, rows[i]).Failure?
  {
    LoadCandidatesFails(db, ScoreRepository.GetScoredRoutines(db, word));
  }

  /** Core SoloAwardReportService: the deduplicated Solo candidates. */
  function CoreSoloReport(db: EventDb.Db, ev: ClassConfig.Store, defs: seq<ClassConfig.ClassDefinition>): seq<AwardGroup> {
    CoreReport(ev, defs, ScoreRepository.SoloCandidates(db))
  }

  /** Application Solo and Duet services. */
  function ApplicationSoloReport(db: EventDb.Db, ev: ClassConfig.Store, defs: seq<ClassConfig.ClassDefinition>): seq<AwardGroup> {
    ApplicationReport(ev, defs, ScoreRepository.SoloCandidates(db))
  }

  function ApplicationDuetReport(db: EventDb.Db, ev: ClassConfig.Store, defs: seq<ClassConfig.ClassDefinition>): seq<AwardGroup> {
    ApplicationReport(ev, defs, ScoreRepository.DuetCandidates(db))
  }
}
