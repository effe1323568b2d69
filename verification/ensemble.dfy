/** The Ensemble award report: scored ensemble routines are grouped by
    canonical class, the classes by bucket, and within a class by ensemble
    type; each type group keeps its twelve best routines and places them
    with standard competition ranking on exactly equal scores. */
module Ensemble {
  import opened Wrappers
  import opened Text
  import opened Seqs
  import Grouping
  import Sorting
  import Placement
  import ClassConfig
  import ClassGrouping
  import JudgeScores
  import EventDb
  import ScoreRepository

  type Row = ScoreRepository.ScoredRoutineRow

  /** An ensemble routine with its final score. Its text fields are the
      record's strings: a NULL column leaves the record's empty-string
      default in place. */
  datatype Candidate = Candidate(
    routineId: string,
    division: string,
    entryType: string,
    programNumber: int,
    studioName: string,
    routineTitle: string,
    finalScore: real)

  /** One placed line of the report. */
  datatype Entry = Entry(
    place: int,
    finalScore: real,
    programNumber: int,
    studioName: string,
    routineTitle: string,
    classKey: string,
    entryType: string,
    division: string)

  datatype TypeGroup = TypeGroup(entryType: string, entries: seq<Entry>)

  datatype ClassGroup = ClassGroup(classKey: string, displayName: string, sortOrder: int, types: seq<TypeGroup>)

  datatype BucketGroup = BucketGroup(bucket: string, classes: seq<ClassGroup>)

  // ---------------------------------------------------------------------
  // Loading candidates

  /** The text a materialised row holds for a nullable text column: the
      row's properties default to the empty string, and a NULL column
      leaves that default in place. */
  function RecordText(v: Option<string>): string {
    v.GetOr("")
  }

  /** The candidate built from a row, its score and its type. */
  function CandidateOf(row: Row, score: real, entryType: string): Candidate {
    Candidate(row.routineId, RecordText(row.cls), entryType, row.programNumber, RecordText(row.studioName), row.routineTitle, score)
  }

  /** A row is used when its last sheet key is not blank. */
  predicate Usable(row: Row) {
    !AllWhite(row.lastSheetKey)
  }

  /** The loading loop, with the score and the type of a row as parameters. */
  function LoadWith(rows: seq<Row>, score: Row -> real, typeOf: Row -> string): (r: seq<Candidate>)
    ensures |r| <= |rows|
    decreases |rows|
  {
    if |rows| == 0 then []
    else
      var rest := LoadWith(rows[1..], score, typeOf);
      if Usable(rows[0]) then [CandidateOf(rows[0], score(rows[0]), typeOf(rows[0]))] + rest else rest
  }

  /** Candidate `c` comes from usable row `i`. */
  predicate LoadedAt(rows: seq<Row>, score: Row -> real, typeOf: Row -> string, c: Candidate, i: int) {
    0 <= i < |rows| && Usable(rows[i]) && c == CandidateOf(rows[i], score(rows[i]), typeOf(rows[i]))
  }

  /** Every candidate comes from a usable row, and every usable row gives
      one. */
  lemma {:induction false} LoadWithMembers(rows: seq<Row>, score: Row -> real, typeOf: Row -> string, c: Candidate)
    ensures c in LoadWith(rows, score, typeOf) <==> exists i :: LoadedAt(rows, score, typeOf, c, i)
    decreases |rows|
  {
    if |rows| > 0 {
      LoadWithMembers(rows[1..], score, typeOf, c);
      var rest := LoadWith(rows[1..], score, typeOf);
      if c in LoadWith(rows, score, typeOf) {
        if c in rest {
          var i :| LoadedAt(rows[1..], score, typeOf, c, i);
          assert LoadedAt(rows, score, typeOf, c, i + 1);
        } else {
          assert LoadedAt(rows, score, typeOf, c, 0);
        }
      }
      if exists i :: LoadedAt(rows, score, typeOf, c, i) {
        var i :| LoadedAt(rows, score, typeOf, c, i);
        if i > 0 {
          assert LoadedAt(rows[1..], score, typeOf, c, i - 1);
        } else {
          assert LoadWith(rows, score, typeOf)[0] == c;
        }
      }
    }
  }

  /** The sum of every cell on the routine's last sheet. */
  function ScoreFn(db: EventDb.Db): Row -> real {
    (row: Row) => JudgeScores.SummedScore(ScoreRepository.GetScoreCells(db, row.routineId, row.lastSheetKey))
  }

  /** The type the query row carries. */
  function RowType(row: Row): string {
    row.entryType
  }

  /** The scored ensemble routines, as the service loads them. */
  function LoadCandidates(db: EventDb.Db): seq<Candidate> {
    LoadWith(ScoreRepository.GetScoredRoutines(db, "Ensemble"), ScoreFn(db), RowType)
  }

  /** The candidates are exactly the scored ensemble rows with a non-blank
      sheet key, each scored by the plain sum of every cell on that sheet. */
  lemma LoadCandidatesMembers(db: EventDb.Db, c: Candidate)
    ensures c in LoadCandidates(db) <==>
      exists row | row in ScoreRepository.GetScoredRoutines(db, "Ensemble") ::
        !AllWhite(row.lastSheetKey)
        && c == CandidateOf(row, JudgeScores.SummedScore(ScoreRepository.GetScoreCells(db, row.routineId, row.lastSheetKey)), row.entryType)
  {
    var rows := ScoreRepository.GetScoredRoutines(db, "Ensemble");
    LoadWithMembers(rows, ScoreFn(db), RowType, c);
    if c in LoadCandidates(db) {
      var i :| LoadedAt(rows, ScoreFn(db), RowType, c, i);
      assert rows[i] in rows;
    }
    if exists row | row in rows :: !AllWhite(row.lastSheetKey)
        && c == CandidateOf(row, JudgeScores.SummedScore(ScoreRepository.GetScoreCells(db, row.routineId, row.lastSheetKey)), row.entryType) {
      var row :| row in rows && !AllWhite(row.lastSheetKey)
        && c == CandidateOf(row, JudgeScores.SummedScore(ScoreRepository.GetScoreCells(db, row.routineId, row.lastSheetKey)), row.entryType);
      var i :| 0 <= i < |rows| && rows[i] == row;
      assert LoadedAt(rows, ScoreFn(db), RowType, c, i);
    }
  }

  // ---------------------------------------------------------------------
  // Priorities

  /** Studio, School, Select School, Elite School, then the rest. */
  function BucketPriority(bucket: string): (p: int)
    ensures p == 1 <==> EqualsIgnoreCase(bucket, "studio")
    ensures p == 2 <==> EqualsIgnoreCase(bucket, "school") && !EqualsIgnoreCase(bucket, "studio")
    ensures p == 3 <==> EqualsIgnoreCase(bucket, "select school") && !EqualsIgnoreCase(bucket, "studio")
                        && !EqualsIgnoreCase(bucket, "school")
    ensures p == 4 <==> EqualsIgnoreCase(bucket, "elite school") && !EqualsIgnoreCase(bucket, "studio")
                        && !EqualsIgnoreCase(bucket, "school") && !EqualsIgnoreCase(bucket, "select school")
    ensures p in {1, 2, 3, 4, 99}
  {
    if EqualsIgnoreCase(bucket, "studio") then 1
    else if EqualsIgnoreCase(bucket, "school") then 2
    else if EqualsIgnoreCase(bucket, "select school") then 3
    else if EqualsIgnoreCase(bucket, "elite school") then 4
    else 99
  }

  /** Small, Medium, Large, XL, then the rest, by the first size word the
      text contains ignoring case. */
  function TypePriority(entryType: string): (p: int)
    ensures p == 1 <==> ContainsIgnoreCase(entryType, "Small")
    ensures p == 99 <==> !ContainsIgnoreCase(entryType, "Small") && !ContainsIgnoreCase(entryType, "Medium")
                         && !ContainsIgnoreCase(entryType, "Large") && !ContainsIgnoreCase(entryType, "XL")
    ensures p in {1, 2, 3, 4, 99}
  {
    if ContainsIgnoreCase(entryType, "Small") then 1
    else if ContainsIgnoreCase(entryType, "Medium") then 2
    else if ContainsIgnoreCase(entryType, "Large") then 3
    else if ContainsIgnoreCase(entryType, "XL") then 4
    else 99
  }

  // ---------------------------------------------------------------------
  // Class keys

  /** The canonical class key, or the trimmed class text when it does not
      resolve. */
  function ClassKeyOf(ev: ClassConfig.Store, c: Candidate): string {
    match ClassConfig.Resolve(ev, Some(c.division))
    case Some(k) => k
    case None => Trim(c.division)
  }

  function KeyOf(ev: ClassConfig.Store): Candidate -> string {
    c => ClassKeyOf(ev, c)
  }

  /** The key of a class group is never padded. */
  lemma ClassKeyTrimmed(ev: ClassConfig.Store, c: Candidate)
    ensures ClassKeyOf(ev, c) == Trim(c.division) || ClassConfig.Resolve(ev, Some(c.division)).Some?
    ensures ClassConfig.Resolve(ev, Some(c.division)).None? ==> Trimmed(ClassKeyOf(ev, c))
  {
  }

  // ---------------------------------------------------------------------
  // Places

  /** The start of the run of exactly equal scores that ends at `k`. */
  function RunStart(s: seq<real>, k: nat): (r: nat)
    requires k < |s|
    ensures r <= k
    ensures forall j | r <= j <= k :: s[j] == s[k]
    ensures r == 0 || s[r - 1] != s[r]
    decreases k
  {
    if k == 0 then 0 else if s[k] == s[k - 1] then RunStart(s, k - 1) else k
  }

  /** The loop of AssignPlaces from index `|acc|` on. */
  function AssignLoop(s: seq<real>, place: int, skip: int, acc: seq<int>): seq<int>
    requires |acc| <= |s|
    decreases |s| - |acc|
  {
    var i := |acc|;
    if i == |s| then acc
    else if i > 0 && s[i] != s[i - 1] then AssignLoop(s, place + skip, 1, acc + [place + skip])
    else if i > 0 then AssignLoop(s, place, skip + 1, acc + [place])
    else AssignLoop(s, place, skip, acc + [place])
  }

  /** Places for a list of scores: a score equal to the previous one shares
      its place, and a new score skips the places the tie used. */
  function AssignPlaces(s: seq<real>): (r: seq<int>)
    ensures |r| == |s|
  {
    AssignLoopLength(s, 1, 1, []);
    AssignLoop(s, 1, 1, [])
  }

  lemma {:induction false} AssignLoopLength(s: seq<real>, place: int, skip: int, acc: seq<int>)
    requires |acc| <= |s|
    ensures |AssignLoop(s, place, skip, acc)| == |s|
    decreases |s| - |acc|
  {
    var i := |acc|;
    if i < |s| {
      if i > 0 && s[i] != s[i - 1] {
        AssignLoopLength(s, place + skip, 1, acc + [place + skip]);
      } else if i > 0 {
        AssignLoopLength(s, place, skip + 1, acc + [place]);
      } else {
        AssignLoopLength(s, place, skip, acc + [place]);
      }
    }
  }

  /** The loop state after `|acc|` scores: every place so far is one past
      the start of its run, and place and skip describe the current run. */
  predicate LoopState(s: seq<real>, place: int, skip: int, acc: seq<int>)
    requires |acc| <= |s|
  {
    (forall j | 0 <= j < |acc| :: acc[j] == 1 + RunStart(s, j))
    && (|acc| == 0 ==> place == 1 && skip == 1)
    && (|acc| > 0 ==> place == 1 + RunStart(s, |acc| - 1) && skip == |acc| - RunStart(s, |acc| - 1))
  }

  lemma {:induction false} AssignLoopRule(s: seq<real>, place: int, skip: int, acc: seq<int>, k: nat)
    requires |acc| <= |s| && k < |s|
    requires LoopState(s, place, skip, acc)
    ensures |AssignLoop(s, place, skip, acc)| == |s|
    ensures AssignLoop(s, place, skip, acc)[k] == 1 + RunStart(s, k)
    decreases |s| - |acc|
  {
    AssignLoopLength(s, place, skip, acc);
    var i := |acc|;
    if i < |s| {
      if i > 0 && s[i] != s[i - 1] {
        AssignLoopRule(s, place + skip, 1, acc + [place + skip], k);
      } else if i > 0 {
        AssignLoopRule(s, place, skip + 1, acc + [place], k);
      } else {
        AssignLoopRule(s, place, skip, acc + [place], k);
      }
    }
  }

  /** The place of a score is one past the start of its run of equal
      scores. */
  lemma AssignPlacesRule(s: seq<real>, k: nat)
    requires k < |s|
    ensures AssignPlaces(s)[k] == 1 + RunStart(s, k)
  {
    AssignLoopRule(s, 1, 1, [], k);
  }

  predicate NonIncreasing(s: seq<real>) {
    forall i, j | 0 <= i < j < |s| :: s[i] >= s[j]
  }

  /** How many scores are strictly above `v`. */
  function CountAbove(s: seq<real>, v: real): nat
    decreases |s|
  {
    if |s| == 0 then 0 else (if s[0] > v then 1 else 0) + CountAbove(s[1..], v)
  }

  lemma {:induction false} CountAboveSplit(s: seq<real>, v: real, m: nat)
    requires m <= |s|
    requires forall j | 0 <= j < m :: s[j] > v
    requires forall j | m <= j < |s| :: s[j] <= v
    ensures CountAbove(s, v) == m
    decreases |s|
  {
    if |s| > 0 {
      if m > 0 {
        CountAboveSplit(s[1..], v, m - 1);
      } else {
        CountAboveSplit(s[1..], v, 0);
      }
    }
  }

  /** On scores sorted best first, a place is one more than the number of
      strictly better scores: standard competition ranking. */
  lemma CompetitionRanking(s: seq<real>, k: nat)
    requires k < |s| && NonIncreasing(s)
    ensures AssignPlaces(s)[k] == 1 + CountAbove(s, s[k])
  {
    AssignPlacesRule(s, k);
    var r := RunStart(s, k);
    forall j | 0 <= j < r
      ensures s[j] > s[k]
    {
      assert s[j] >= s[r - 1];
    }
    CountAboveSplit(s, s[k], r);
  }

  // ---------------------------------------------------------------------
  // Type groups

  /** OrderByDescending(FinalScore).ThenBy(RoutineId). */
  predicate WinnerLe(a: Candidate, b: Candidate) {
    a.finalScore > b.finalScore || (a.finalScore == b.finalScore && StrLe(a.routineId, b.routineId))
  }

  function WinnerOrder(): (Candidate, Candidate) -> bool {
    (a, b) => WinnerLe(a, b)
  }

  lemma WinnerOrderTotal()
    ensures Sorting.TotalPreorder(WinnerOrder())
  {
    forall a: Candidate, b: Candidate
      ensures WinnerLe(a, b) || WinnerLe(b, a)
    {
      StrLeTotal(a.routineId, b.routineId);
    }
    forall a: Candidate, b: Candidate, c: Candidate | WinnerLe(a, b) && WinnerLe(b, c)
      ensures WinnerLe(a, c)
    {
      if a.finalScore == b.finalScore == c.finalScore {
        StrLeTrans(a.routineId, b.routineId, c.routineId);
      }
    }
  }

  /** The members ranked best first. */
  function Ranked(items: seq<Candidate>): (r: seq<Candidate>)
    ensures Sorting.SortedBy(r, WinnerOrder())
    ensures multiset(r) == multiset(items)
    ensures |r| == |items|
  {
    WinnerOrderTotal();
    Sorting.SortBy(items, WinnerOrder())
  }

  function Min(a: int, b: int): int {
    if a <= b then a else b
  }

  /** The first twelve of the ranked members. */
  function Winners(items: seq<Candidate>): (r: seq<Candidate>)
    ensures |r| == Min(Placement.MaxEntriesPerGroup, |items|)
    ensures r == Ranked(items)[..|r|]
  {
    Ranked(items)[..Min(Placement.MaxEntriesPerGroup, |items|)]
  }

  function ScoresOf(cs: seq<Candidate>): (r: seq<real>)
    ensures |r| == |cs|
    ensures forall k | 0 <= k < |r| :: r[k] == cs[k].finalScore
  {
    seq(|cs|, k requires 0 <= k < |cs| => cs[k].finalScore)
  }

  function EntryOf(place: int, c: Candidate, classKey: string): Entry {
    Entry(place, c.finalScore, c.programNumber, c.studioName, c.routineTitle, classKey, c.entryType, c.division)
  }

  /** One type group of a class: its winners, placed. */
  function TypeGroupOf(classKey: string, g: Grouping.Group<string, Candidate>): (r: TypeGroup)
    ensures r.entryType == g.key
    ensures |r.entries| == Min(Placement.MaxEntriesPerGroup, |g.items|)
  {
    var w := Winners(g.items);
    var places := AssignPlaces(ScoresOf(w));
    TypeGroup(g.key, seq(|w|, k requires 0 <= k < |w| => EntryOf(places[k], w[k], classKey)))
  }

  /** Entry `k` shows the `k`-th best member, at its competition place,
      under the class key. */
  lemma TypeGroupEntries(classKey: string, g: Grouping.Group<string, Candidate>, k: nat)
    requires k < |TypeGroupOf(classKey, g).entries|
    ensures var w := Winners(g.items);
      var e := TypeGroupOf(classKey, g).entries[k];
      e == EntryOf(e.place, w[k], classKey)
      && e.place == 1 + CountAbove(ScoresOf(w), w[k].finalScore)
  {
    var w := Winners(g.items);
    var s := ScoresOf(w);
    forall i, j | 0 <= i < j < |s|
      ensures s[i] >= s[j]
    {
      assert WinnerOrder()(Ranked(g.items)[i], Ranked(g.items)[j]);
    }
    CompetitionRanking(s, k);
  }

  /** Every member left out ranks at or below every entry shown. */
  lemma TypeGroupKeepsTop(g: Grouping.Group<string, Candidate>, k: nat, m: nat)
    requires k < |Winners(g.items)| <= m < |g.items|
    ensures WinnerLe(Winners(g.items)[k], Ranked(g.items)[m])
  {
    assert WinnerOrder()(Ranked(g.items)[k], Ranked(g.items)[m]);
  }

  /** Shown entries are members of the group. */
  lemma WinnersAreMembers(items: seq<Candidate>, k: nat)
    requires k < |Winners(items)|
    ensures Winners(items)[k] in items
  {
    assert Ranked(items)[k] in multiset(items);
  }

  // ---------------------------------------------------------------------
  // Ordering groups by the priority of their key

  predicate KeyPriorityLe<T>(prio: string -> int, a: Grouping.Group<string, T>, b: Grouping.Group<string, T>) {
    prio(a.key) <= prio(b.key)
  }

  function KeyPriorityOrder<T>(prio: string -> int): (Grouping.Group<string, T>, Grouping.Group<string, T>) -> bool {
    (a, b) => KeyPriorityLe(prio, a, b)
  }

  /** A stable OrderBy on the priority of the group key: groups of equal
      priority keep their order. */
  function OrderGroups<T(!new)>(gs: seq<Grouping.Group<string, T>>, prio: string -> int): (r: seq<Grouping.Group<string, T>>)
    ensures Sorting.SortedBy(r, KeyPriorityOrder(prio))
    ensures multiset(r) == multiset(gs)
    ensures |r| == |gs|
    ensures forall v :: Sorting.EquivalentsOf(r, KeyPriorityOrder(prio), v) == Sorting.EquivalentsOf(gs, KeyPriorityOrder(prio), v)
  {
    assert Sorting.TotalPreorder(KeyPriorityOrder<T>(prio));
    Sorting.SortBy(gs, KeyPriorityOrder(prio))
  }

  /** Ordering keeps distinct keys distinct. */
  lemma OrderGroupsKeysDistinct<T(!new)>(s: seq<T>, key: T -> string, prio: string -> int)
    ensures var r := OrderGroups(Grouping.GroupBy(s, key), prio);
      forall g, h | 0 <= g < h < |r| :: r[g].key != r[h].key && prio(r[g].key) <= prio(r[h].key)
  {
    var gs := Grouping.GroupBy(s, key);
    Grouping.GroupByPartition(s, key, gs);
    OrderedKeysDistinct(gs, prio);
  }

  lemma OrderedKeysDistinct<T(!new)>(gs: seq<Grouping.Group<string, T>>, prio: string -> int)
    requires forall g, h | 0 <= g < h < |gs| :: gs[g].key != gs[h].key
    ensures var r := OrderGroups(gs, prio);
      forall g, h | 0 <= g < h < |r| :: r[g].key != r[h].key && prio(r[g].key) <= prio(r[h].key)
  {
    var r := OrderGroups(gs, prio);
    assert DistinctBy(gs, GroupKeyOf);
    DistinctByPermutation(gs, r, GroupKeyOf);
    forall g, h | 0 <= g < h < |r|
      ensures prio(r[g].key) <= prio(r[h].key)
    {
      assert KeyPriorityOrder(prio)(r[g], r[h]);
    }
  }

  function GroupKeyOf<T>(x: Grouping.Group<string, T>): string {
    x.key
  }

  /** An ordered group is one GroupBy formed: its members are exactly the
      items with its key. */
  lemma OrderGroupsMembers<T(!new)>(s: seq<T>, key: T -> string, prio: string -> int, g: nat, x: T)
    requires g < |OrderGroups(Grouping.GroupBy(s, key), prio)|
    ensures var r := OrderGroups(Grouping.GroupBy(s, key), prio);
      x in r[g].items <==> x in s && key(x) == r[g].key
  {
    var gs := Grouping.GroupBy(s, key);
    var r := OrderGroups(gs, prio);
    assert r[g] in multiset(gs);
    var y :| 0 <= y < |gs| && gs[y] == r[g];
    if x in r[g].items {
      Grouping.GroupHolds(s, key, gs, y, x);
    } else if x in s {
      var i :| 0 <= i < |s| && s[i] == x;
      Grouping.GroupMember(s, key, gs, y, i);
    }
  }

  // ---------------------------------------------------------------------
  // The report

  function EntryTypeOf(c: Candidate): string {
    c.entryType
  }

  /** The type groups of one class, by type priority. */
  function TypeGroups(classKey: string, members: seq<Candidate>): (r: seq<TypeGroup>)
    ensures |r| == |Grouping.GroupBy(members, EntryTypeOf)|
    ensures forall t | 0 <= t < |r| :: r[t].entryType == OrderGroups(Grouping.GroupBy(members, EntryTypeOf), TypePriority)[t].key
  {
    var gs := Grouping.GroupBy(members, EntryTypeOf);
    var ts := OrderGroups(gs, TypePriority);
    var r := seq(|ts|, t requires 0 <= t < |ts| => TypeGroupOf(classKey, ts[t]));
    assert forall t | 0 <= t < |r| :: r[t].entryType == ts[t].key by {
      forall t | 0 <= t < |r|
        ensures r[t].entryType == ts[t].key
      {
        assert r[t] == TypeGroupOf(classKey, ts[t]);
      }
    }
    r
  }

  function ClassGroupOut(cg: ClassGrouping.ClassGroup<Candidate>): ClassGroup {
    ClassGroup(cg.classKey, cg.displayName, cg.sortOrder, TypeGroups(cg.classKey, cg.members))
  }

  function BucketOf(cg: ClassGrouping.ClassGroup<Candidate>): string {
    cg.bucket
  }

  /** The ordered class groups. */
  function ClassGroups(ev: ClassConfig.Store, defs: seq<ClassConfig.ClassDefinition>, cands: seq<Candidate>): seq<ClassGrouping.ClassGroup<Candidate>> {
    ClassGrouping.ClassGroups(defs, cands, KeyOf(ev), BucketPriority)
  }

  /** The class groups grouped by bucket, by bucket priority. */
  function Buckets(ev: ClassConfig.Store, defs: seq<ClassConfig.ClassDefinition>, cands: seq<Candidate>): seq<Grouping.Group<string, ClassGrouping.ClassGroup<Candidate>>> {
    OrderGroups(Grouping.GroupBy(ClassGroups(ev, defs, cands), BucketOf), BucketPriority)
  }

  /** The report for a list of candidates. */
  function Report(ev: ClassConfig.Store, defs: seq<ClassConfig.ClassDefinition>, cands: seq<Candidate>): seq<BucketGroup> {
    Assemble(Buckets(ev, defs, cands))
  }

  /** The report lines for the ordered buckets. */
  function Assemble(bs: seq<Grouping.Group<string, ClassGrouping.ClassGroup<Candidate>>>): (r: seq<BucketGroup>)
    ensures |r| == |bs|
    ensures forall b | 0 <= b < |r| :: r[b] == BucketOut(bs[b])
  {
    seq(|bs|, b requires 0 <= b < |bs| => BucketOut(bs[b]))
  }

  function BucketOut(g: Grouping.Group<string, ClassGrouping.ClassGroup<Candidate>>): (r: BucketGroup)
    ensures r.bucket == g.key && |r.classes| == |g.items|
    ensures forall c | 0 <= c < |r.classes| :: r.classes[c] == ClassGroupOut(g.items[c])
  {
    BucketGroup(g.key, seq(|g.items|, c requires 0 <= c < |g.items| => ClassGroupOut(g.items[c])))
  }

  /** GenerateReportAsync. */
  function GenerateReport(db: EventDb.Db, ev: ClassConfig.Store, defs: seq<ClassConfig.ClassDefinition>): seq<BucketGroup> {
    Report(ev, defs, LoadCandidates(db))
  }

  // ---------------------------------------------------------------------
  // Properties of the report

  /** A scored ensemble routine with a sheet whose class is NULL. */
  predicate NullClassRoutine(db: EventDb.Db, x: EventDb.Routine) {
    ScoreRepository.IsScored(db, x) && ScoreRepository.LikeContains(x.entryTypeRaw, "Ensemble")
    && !AllWhite(db.status[x.routineId].lastSheetKey.value) && x.cls.None?
  }

  /** A scored ensemble routine with a sheet whose class is NULL is loaded
      with the empty class text, which does not resolve: the report does not
      fail on it but groups it under the empty key, together with any
      routine whose class is blank. */
  lemma NullClassGroupedUnderEmpty(db: EventDb.Db, ev: ClassConfig.Store, defs: seq<ClassConfig.ClassDefinition>, i: nat)
    requires i < |db.routines| && NullClassRoutine(db, db.routines[i])
    ensures exists c ::
              && c in LoadCandidates(db) && c.routineId == db.routines[i].routineId
              && c.division == "" && ClassKeyOf(ev, c) == ""
              && (exists g :: 0 <= g < |ClassGroups(ev, defs, LoadCandidates(db))|
                    && ClassGroups(ev, defs, LoadCandidates(db))[g].classKey == ""
                    && c in ClassGroups(ev, defs, LoadCandidates(db))[g].members)
  {
    var c := NullClassLoaded(db, i);
    assert ClassConfig.Resolve(ev, Some("")) == None;
    var cands := LoadCandidates(db);
    var k :| 0 <= k < |cands| && cands[k] == c;
    ClassGroupsPartition(ev, defs, cands, k);
  }

  /** The candidate a NULL-class routine is loaded as. */
  lemma NullClassLoaded(db: EventDb.Db, i: nat) returns (c: Candidate)
    requires i < |db.routines| && NullClassRoutine(db, db.routines[i])
    ensures c in LoadCandidates(db) && c.routineId == db.routines[i].routineId && c.division == ""
  {
    var rows := ScoreRepository.GetScoredRoutines(db, "Ensemble");
    var x := db.routines[i];
    ScoreRepository.ScoredRoutinesSelect(db, db.routines, "Ensemble", x);
    var row := ScoreRepository.RowOf(db, x);
    var j :| 0 <= j < |rows| && rows[j] == row;
    c := CandidateOf(row, ScoreFn(db)(row), RowType(row));
    LoadWithMembers(rows, ScoreFn(db), RowType, c);
    assert LoadedAt(rows, ScoreFn(db), RowType, c, j);
  }

  /** The routine a scored-routine row was read from. */
  lemma RowRoutine(db: EventDb.Db, row: Row) returns (i: nat)
    requires row in ScoreRepository.GetScoredRoutines(db, "Ensemble")
    ensures ScoreRepository.SelectedAt(db, db.routines, "Ensemble", row, i)
  {
    ScoreRepository.ScoredRowsSelected(db, db.routines, "Ensemble");
    i :| 0 <= i < |db.routines| && ScoreRepository.SelectedAt(db, db.routines, "Ensemble", row, i);
  }

  /** Every candidate sits in exactly one class group, the group of its
      key; no two class groups share a key. */
  lemma ClassGroupsPartition(ev: ClassConfig.Store, defs: seq<ClassConfig.ClassDefinition>, cands: seq<Candidate>, i: nat)
    requires i < |cands|
    ensures var r := ClassGroups(ev, defs, cands);
      (exists g :: 0 <= g < |r| && r[g].classKey == ClassKeyOf(ev, cands[i]))
      && (forall g | 0 <= g < |r| :: cands[i] in r[g].members <==> ClassKeyOf(ev, cands[i]) == r[g].classKey)
      && (forall g, h | 0 <= g < h < |r| :: r[g].classKey != r[h].classKey)
  {
    var r := ClassGroups(ev, defs, cands);
    ClassGrouping.ClassGroupsCover(defs, cands, KeyOf(ev), BucketPriority, i);
    ClassGrouping.ClassGroupKeysDistinct(defs, cands, KeyOf(ev), BucketPriority);
    forall g | 0 <= g < |r|
      ensures cands[i] in r[g].members <==> ClassKeyOf(ev, cands[i]) == r[g].classKey
    {
      ClassGrouping.ClassGroupMembers(defs, cands, KeyOf(ev), BucketPriority, g);
    }
  }

  /** Buckets have distinct names and run Studio, School, Select School,
      Elite School, then the rest. */
  lemma BucketsOrdered(ev: ClassConfig.Store, defs: seq<ClassConfig.ClassDefinition>, cands: seq<Candidate>)
    ensures var r := Report(ev, defs, cands);
      forall b, h | 0 <= b < h < |r| ::
        r[b].bucket != r[h].bucket && BucketPriority(r[b].bucket) <= BucketPriority(r[h].bucket)
  {
    var r := Report(ev, defs, cands);
    var bs := Buckets(ev, defs, cands);
    OrderGroupsKeysDistinct(ClassGroups(ev, defs, cands), BucketOf, BucketPriority);
    forall b, h | 0 <= b < h < |r|
      ensures r[b].bucket != r[h].bucket && BucketPriority(r[b].bucket) <= BucketPriority(r[h].bucket)
    {
      assert r[b].bucket == bs[b].key;
      assert r[h].bucket == bs[h].key;
    }
  }

  /** A bucket holds exactly the class groups of its bucket name. */
  lemma BucketHoldsItsClasses(ev: ClassConfig.Store, defs: seq<ClassConfig.ClassDefinition>, cands: seq<Candidate>, b: nat,
                              cg: ClassGrouping.ClassGroup<Candidate>)
    requires b < |Buckets(ev, defs, cands)|
    ensures var bs := Buckets(ev, defs, cands);
      cg in bs[b].items <==> cg in ClassGroups(ev, defs, cands) && cg.bucket == bs[b].key
  {
    OrderGroupsMembers(ClassGroups(ev, defs, cands), BucketOf, BucketPriority, b, cg);
  }

  /** The type groups of a class have distinct types, in type priority
      order. */
  lemma TypeGroupsOrdered(classKey: string, members: seq<Candidate>)
    ensures var r := TypeGroups(classKey, members);
      forall t, u | 0 <= t < u < |r| :: r[t].entryType != r[u].entryType && TypePriority(r[t].entryType) <= TypePriority(r[u].entryType)
  {
    OrderGroupsKeysDistinct(members, EntryTypeOf, TypePriority);
  }

  /** The entries of a type group are drawn from the members of that type,
      and every member of that type that is left out ranks below them. */
  lemma TypeGroupMembers(classKey: string, members: seq<Candidate>, t: nat, k: nat)
    requires t < |TypeGroups(classKey, members)|
    requires k < |TypeGroups(classKey, members)[t].entries|
    ensures var ts := OrderGroups(Grouping.GroupBy(members, EntryTypeOf), TypePriority);
      var w := Winners(ts[t].items);
      w[k] in members && w[k].entryType == ts[t].key
      && TypeGroups(classKey, members)[t].entries[k] == EntryOf(TypeGroups(classKey, members)[t].entries[k].place, w[k], classKey)
  {
    var ts := OrderGroups(Grouping.GroupBy(members, EntryTypeOf), TypePriority);
    var w := Winners(ts[t].items);
    WinnersAreMembers(ts[t].items, k);
    OrderGroupsMembers(members, EntryTypeOf, TypePriority, t, w[k]);
    TypeGroupEntries(classKey, ts[t], k);
  }

  /** Members of different types never share a type group. */
  lemma DistinctTypesSeparate(classKey: string, members: seq<Candidate>, t: nat, c: Candidate, d: Candidate)
    requires t < |TypeGroups(classKey, members)|
    requires c.entryType != d.entryType
    ensures var ts := OrderGroups(Grouping.GroupBy(members, EntryTypeOf), TypePriority);
      !(c in ts[t].items && d in ts[t].items)
  {
    OrderGroupsMembers(members, EntryTypeOf, TypePriority, t, c);
    OrderGroupsMembers(members, EntryTypeOf, TypePriority, t, d);
  }

  /** The report's class `c` of bucket `b`, with the class group it comes
      from. */
  lemma ReportClassOrigin(ev: ClassConfig.Store, defs: seq<ClassConfig.ClassDefinition>, cands: seq<Candidate>, b: nat, c: nat)
    returns (cg: ClassGrouping.ClassGroup<Candidate>)
    requires b < |Report(ev, defs, cands)| && c < |Report(ev, defs, cands)[b].classes|
    ensures cg in ClassGroups(ev, defs, cands)
    ensures Report(ev, defs, cands)[b].classes[c] == ClassGroupOut(cg)
    ensures forall x | x in cg.members :: x in cands
  {
    var bs := Buckets(ev, defs, cands);
    cg := bs[b].items[c];
    BucketHoldsItsClasses(ev, defs, cands, b, cg);
    var cgs := ClassGroups(ev, defs, cands);
    var g :| 0 <= g < |cgs| && cgs[g] == cg;
    forall x | x in cg.members
      ensures x in cands
    {
      ClassGrouping.GroupMemberIsItem(defs, cands, KeyOf(ev), BucketPriority, g, x);
    }
  }

  // ---------------------------------------------------------------------
  // The ensemble type, as written and as intended

  /** As written, the query row carries no entry type, so every loaded
      candidate has the empty type. */
  lemma LoadedTypesEmpty(db: EventDb.Db, c: Candidate)
    requires c in LoadCandidates(db)
    ensures c.entryType == ""
  {
    var rows := ScoreRepository.GetScoredRoutines(db, "Ensemble");
    LoadWithMembers(rows, ScoreFn(db), RowType, c);
  }

  /** When every member has the same type there is at most one type
      group. */
  lemma OneTypeGroup(classKey: string, members: seq<Candidate>, e: string)
    requires forall x | x in members :: x.entryType == e
    ensures |TypeGroups(classKey, members)| <= 1
  {
    forall i | 0 <= i < |members|
      ensures EntryTypeOf(members[i]) == e
    {
      assert members[i] in members;
    }
    Grouping.GroupKeysSingle(members, EntryTypeOf, e);
  }

  /** As written, every class of the report has a single type group, of
      the empty type, whatever sizes its ensembles have. */
  lemma TypesCollapse(db: EventDb.Db, ev: ClassConfig.Store, defs: seq<ClassConfig.ClassDefinition>, b: nat, c: nat)
    requires b < |GenerateReport(db, ev, defs)| && c < |GenerateReport(db, ev, defs)[b].classes|
    ensures var cl := GenerateReport(db, ev, defs)[b].classes[c];
      |cl.types| <= 1 && forall t | 0 <= t < |cl.types| :: cl.types[t].entryType == ""
  {
    var cands := LoadCandidates(db);
    var cg := ReportClassOrigin(ev, defs, cands, b, c);
    forall x | x in cg.members
      ensures x.entryType == ""
    {
      LoadedTypesEmpty(db, x);
    }
    OneTypeGroup(cg.classKey, cg.members, "");
    UniformTypeGroups(cg.classKey, cg.members, "");
  }

  /** When every member has type `e`, every type group is of type `e`. */
  lemma UniformTypeGroups(classKey: string, members: seq<Candidate>, e: string)
    requires forall x | x in members :: x.entryType == e
    ensures var r := TypeGroups(classKey, members);
      forall t | 0 <= t < |r| :: r[t].entryType == e
  {
    var gs := Grouping.GroupBy(members, EntryTypeOf);
    var ts := OrderGroups(gs, TypePriority);
    forall t | 0 <= t < |ts|
      ensures ts[t].key == e
    {
      assert ts[t] in multiset(gs);
      var y :| 0 <= y < |gs| && gs[y] == ts[t];
      var ks := Grouping.GroupKeys(members, EntryTypeOf);
      var i :| 0 <= i < |members| && EntryTypeOf(members[i]) == ks[y];
    }
  }

  /** The entry type column of the routine with the given id, as the query
      would return it had it selected `EntryTypeRaw AS EntryType`. */
  function RoutineEntryType(routines: seq<EventDb.Routine>, routineId: string): (r: string)
    ensures forall i | 0 <= i < |routines| && routines[i].routineId == routineId
      && (forall j | 0 <= j < i :: routines[j].routineId != routineId) :: r == routines[i].entryTypeRaw
    decreases |routines|
  {
    if |routines| == 0 then ""
    else if routines[0].routineId == routineId then routines[0].entryTypeRaw
    else
      var r := RoutineEntryType(routines[1..], routineId);
      assert forall i | 1 <= i < |routines| :: routines[i] == routines[1..][i - 1];
      r
  }

  function TypedRow(db: EventDb.Db): Row -> string {
    (row: Row) => RoutineEntryType(db.routines, row.routineId)
  }

  /** The corrected loader: each candidate carries its routine's entry
      type. */
  function LoadTypedCandidates(db: EventDb.Db): seq<Candidate> {
    LoadWith(ScoreRepository.GetScoredRoutines(db, "Ensemble"), ScoreFn(db), TypedRow(db))
  }

  /** The corrected report. */
  function GenerateTypedReport(db: EventDb.Db, ev: ClassConfig.Store, defs: seq<ClassConfig.ClassDefinition>): seq<BucketGroup> {
    Report(ev, defs, LoadTypedCandidates(db))
  }

  /** With the correction, a scored ensemble routine with a sheet becomes a
      candidate whose type is the routine's entry type. */
  lemma TypedCandidateOfRoutine(db: EventDb.Db, i: nat)
    requires EventDb.Valid(db)
    requires i < |db.routines|
    requires ScoreRepository.IsScored(db, db.routines[i]) && ScoreRepository.LikeContains(db.routines[i].entryTypeRaw, "Ensemble")
    requires !AllWhite(db.status[db.routines[i].routineId].lastSheetKey.value)
    ensures exists c :: c in LoadTypedCandidates(db) && c.routineId == db.routines[i].routineId
                        && c.entryType == db.routines[i].entryTypeRaw
  {
    var x := db.routines[i];
    var rows := ScoreRepository.GetScoredRoutines(db, "Ensemble");
    ScoreRepository.ScoredRoutinesSelect(db, db.routines, "Ensemble", x);
    var row := ScoreRepository.RowOf(db, x);
    var j :| 0 <= j < |rows| && rows[j] == row;
    var c := CandidateOf(row, ScoreFn(db)(row), TypedRow(db)(row));
    LoadWithMembers(rows, ScoreFn(db), TypedRow(db), c);
    assert LoadedAt(rows, ScoreFn(db), TypedRow(db), c, j);
    assert c.entryType == x.entryTypeRaw;
  }

  /** With the correction, two ensembles of one class whose entry types
      differ are placed in different type groups, and the groups follow the
      size order. */
  lemma TypedReportSeparatesTypes(db: EventDb.Db, ev: ClassConfig.Store, defs: seq<ClassConfig.ClassDefinition>, b: nat, c: nat,
                                  t: nat, x: Candidate, y: Candidate)
    requires b < |GenerateTypedReport(db, ev, defs)| && c < |GenerateTypedReport(db, ev, defs)[b].classes|
    requires t < |GenerateTypedReport(db, ev, defs)[b].classes[c].types|
    requires x.entryType != y.entryType
    ensures var cl := GenerateTypedReport(db, ev, defs)[b].classes[c];
      var ts := OrderGroups(Grouping.GroupBy(Buckets(ev, defs, LoadTypedCandidates(db))[b].items[c].members, EntryTypeOf), TypePriority);
      !(x in ts[t].items && y in ts[t].items)
      && forall u, v | 0 <= u < v < |cl.types| :: TypePriority(cl.types[u].entryType) <= TypePriority(cl.types[v].entryType)
  {
    var cands := LoadTypedCandidates(db);
    var cg := Buckets(ev, defs, cands)[b].items[c];
    DistinctTypesSeparate(cg.classKey, cg.members, t, x, y);
    TypeGroupsOrdered(cg.classKey, cg.members);
  }
}
