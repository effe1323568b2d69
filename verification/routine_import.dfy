/** `RoutineImportService`: importing the parsed rows of a program file into
    the event database, matching routines by fingerprint, and the routine
    listing of the data grid. The whole import runs in one transaction:
    either every row is applied or the database is left as it was. */
module RoutineImport {
  import opened Wrappers
  import opened Seqs
  import opened EventDb
  import Text
  import Fingerprint
  import Sorting

  /** A parsed row of the program file (`CsvRoutineRow`). Missing cells were
      read as "" and an unreadable program number as 0. */
  datatype ImportRow = ImportRow(
    startTime: string,
    programNumber: int,
    entryType: string,
    category: string,
    cls: string,
    participants: string,
    studioName: string,
    routineTitle: string)

  /** The database inside the import's transaction and the number of fresh
      identifiers drawn so far. `Guid.NewGuid` is the oracle `gen`: the n-th
      identifier drawn during one import is `gen(n)`. */
  datatype Session = Session(db: Db, drawn: nat)

  /** The unique indexes, named as the database names them in its error. */
  const RoutineIdIndex: string := "Routine.RoutineId"
  const FingerprintIndex: string := "Routine.Fingerprint"
  const ProgramNumberIndex: string := "Routine.ProgramNumber"
  const ParticipantIdIndex: string := "Participant.ParticipantId"
  const NormalizedNameIndex: string := "Participant.NormalizedName"
  const LinkIndex: string := "RoutineParticipant.RoutineId, RoutineParticipant.ParticipantId"

  /** An error of the routine table's keys. */
  predicate RoutineError(e: DbError) {
    e == UniqueViolation(RoutineIdIndex) || e == UniqueViolation(FingerprintIndex)
    || e == UniqueViolation(ProgramNumberIndex)
  }

  /** An error of the participant table's keys. */
  predicate ParticipantError(e: DbError) {
    e == UniqueViolation(ParticipantIdIndex) || e == UniqueViolation(NormalizedNameIndex)
  }

  /** `b` starts with `a`. */
  predicate Extends<T(==)>(a: seq<T>, b: seq<T>) {
    |a| <= |b| && b[..|a|] == a
  }

  lemma ExtendsTrans<T>(a: seq<T>, b: seq<T>, c: seq<T>)
    requires Extends(a, b) && Extends(b, c)
    ensures Extends(a, c)
  {
    assert c[..|a|] == c[..|b|][..|a|];
  }

  // ---------------------------------------------------------------------
  // Lookups

  /** `SELECT RoutineId FROM Routine WHERE Fingerprint = @Fingerprint`,
      from row `i` on: the first routine with that fingerprint. */
  function FindRoutineFrom(rs: seq<Routine>, fp: string, i: nat): (r: Option<nat>)
    requires i <= |rs|
    ensures r.Some? ==> i <= r.value < |rs| && rs[r.value].fingerprint == fp
    ensures r.Some? ==> forall j | i <= j < r.value :: rs[j].fingerprint != fp
    ensures r.None? <==> forall j | i <= j < |rs| :: rs[j].fingerprint != fp
    decreases |rs| - i
  {
    if i == |rs| then None
    else if rs[i].fingerprint == fp then Some(i)
    else FindRoutineFrom(rs, fp, i + 1)
  }

  function FindRoutine(rs: seq<Routine>, fp: string): (r: Option<nat>)
    ensures r.Some? ==> r.value < |rs| && rs[r.value].fingerprint == fp
    ensures r.Some? ==> forall j | 0 <= j < r.value :: rs[j].fingerprint != fp
    ensures r.None? <==> forall j | 0 <= j < |rs| :: rs[j].fingerprint != fp
  {
    FindRoutineFrom(rs, fp, 0)
  }

  /** `SELECT ParticipantId FROM Participant WHERE NormalizedName=@N`, from
      row `i` on. */
  function FindParticipantFrom(ps: seq<Participant>, name: string, i: nat): (r: Option<nat>)
    requires i <= |ps|
    ensures r.Some? ==> i <= r.value < |ps| && ps[r.value].normalizedName == name
    ensures r.None? <==> forall j | i <= j < |ps| :: ps[j].normalizedName != name
    decreases |ps| - i
  {
    if i == |ps| then None
    else if ps[i].normalizedName == name then Some(i)
    else FindParticipantFrom(ps, name, i + 1)
  }

  function FindParticipant(ps: seq<Participant>, name: string): (r: Option<nat>)
    ensures r.Some? ==> r.value < |ps| && ps[r.value].normalizedName == name
    ensures r.None? <==> forall j | 0 <= j < |ps| :: ps[j].normalizedName != name
  {
    FindParticipantFrom(ps, name, 0)
  }

  /** A routine with that fingerprint exists. */
  predicate Known(rs: seq<Routine>, fp: string) {
    FindRoutine(rs, fp).Some?
  }

  /** Participant `pid` exists and has the normalized name `name`. */
  predicate NamedBy(ps: seq<Participant>, pid: string, name: string) {
    exists m | 0 <= m < |ps| :: ps[m].participantId == pid && ps[m].normalizedName == name
  }

  lemma NamedByExtends(ps: seq<Participant>, qs: seq<Participant>, pid: string, name: string)
    requires Extends(ps, qs) && NamedBy(ps, pid, name)
    ensures NamedBy(qs, pid, name)
  {
    var m :| 0 <= m < |ps| && ps[m].participantId == pid && ps[m].normalizedName == name;
    assert qs[m] == qs[..|ps|][m];
  }

  /** With unique participant ids, one id names one name. */
  lemma NamedByUnique(ps: seq<Participant>, pid: string, a: string, b: string)
    requires ParticipantsValid(ps)
    requires NamedBy(ps, pid, a) && NamedBy(ps, pid, b)
    ensures a == b
  {
    var m :| 0 <= m < |ps| && ps[m].participantId == pid && ps[m].normalizedName == a;
    var n :| 0 <= n < |ps| && ps[n].participantId == pid && ps[n].normalizedName == b;
    assert m == n;
  }

  // ---------------------------------------------------------------------
  // Writes, each checked against the unique indexes of its table

  /** `INSERT INTO Routine`: refused when the id, the fingerprint or the
      program number is taken. */
  function InsertRoutine(db: Db, x: Routine): (r: Result<Db, DbError>)
    ensures r.Success? <==>
      forall i | 0 <= i < |db.routines| ::
        db.routines[i].routineId != x.routineId
        && db.routines[i].fingerprint != x.fingerprint
        && db.routines[i].programNumber != x.programNumber
    ensures r.Success? ==> r.value == db.(routines := db.routines + [x])
    ensures r.Failure? ==> RoutineError(r.error)
    ensures r.Success? && RoutinesValid(db.routines) ==> RoutinesValid(r.value.routines)
  {
    if exists i | 0 <= i < |db.routines| :: db.routines[i].routineId == x.routineId then
      Failure(UniqueViolation(RoutineIdIndex))
    else if exists i | 0 <= i < |db.routines| :: db.routines[i].fingerprint == x.fingerprint then
      Failure(UniqueViolation(FingerprintIndex))
    else if exists i | 0 <= i < |db.routines| :: db.routines[i].programNumber == x.programNumber then
      Failure(UniqueViolation(ProgramNumberIndex))
    else
      Success(db.(routines := db.routines + [x]))
  }

  /** `UPDATE Routine SET ProgramNumber=@ProgramNumber`: refused when
      another routine has that number. */
  function SetProgramNumber(db: Db, i: nat, pn: int): (r: Result<Db, DbError>)
    requires i < |db.routines|
    ensures r.Success? <==> forall j | 0 <= j < |db.routines| && j != i :: db.routines[j].programNumber != pn
    ensures r.Success? ==> r.value == db.(routines := db.routines[i := db.routines[i].(programNumber := pn)])
    ensures r.Failure? ==> r.error == UniqueViolation(ProgramNumberIndex)
    ensures r.Success? && RoutinesValid(db.routines) ==> RoutinesValid(r.value.routines)
  {
    if exists j | 0 <= j < |db.routines| && j != i :: db.routines[j].programNumber == pn then
      Failure(UniqueViolation(ProgramNumberIndex))
    else
      Success(db.(routines := db.routines[i := db.routines[i].(programNumber := pn)]))
  }

  /** `INSERT INTO Participant`. */
  function InsertParticipant(db: Db, p: Participant): (r: Result<Db, DbError>)
    ensures r.Success? <==>
      forall i | 0 <= i < |db.participants| ::
        db.participants[i].participantId != p.participantId
        && db.participants[i].normalizedName != p.normalizedName
    ensures r.Success? ==> r.value == db.(participants := db.participants + [p])
    ensures r.Failure? ==> ParticipantError(r.error)
    ensures r.Success? && ParticipantsValid(db.participants) ==> ParticipantsValid(r.value.participants)
  {
    if exists i | 0 <= i < |db.participants| :: db.participants[i].participantId == p.participantId then
      Failure(UniqueViolation(ParticipantIdIndex))
    else if exists i | 0 <= i < |db.participants| :: db.participants[i].normalizedName == p.normalizedName then
      Failure(UniqueViolation(NormalizedNameIndex))
    else
      Success(db.(participants := db.participants + [p]))
  }

  /** `INSERT INTO RoutineParticipant`: refused when the routine already
      links that participant. */
  function InsertLink(db: Db, l: Link): (r: Result<Db, DbError>)
    ensures r.Success? <==>
      forall i | 0 <= i < |db.links| ::
        db.links[i].routineId != l.routineId || db.links[i].participantId != l.participantId
    ensures r.Success? ==> r.value == db.(links := db.links + [l])
    ensures r.Failure? ==> r.error == UniqueViolation(LinkIndex)
    ensures r.Success? && LinksValid(db.links) ==> LinksValid(r.value.links)
  {
    if exists i | 0 <= i < |db.links| :: db.links[i].routineId == l.routineId && db.links[i].participantId == l.participantId then
      Failure(UniqueViolation(LinkIndex))
    else
      Success(db.(links := db.links + [l]))
  }

  /** `DELETE FROM RoutineParticipant WHERE RoutineId=@RoutineId`: the links
      of every other routine, in order. */
  function OtherLinks(ls: seq<Link>, rid: string): (r: seq<Link>)
    ensures forall k | 0 <= k < |r| :: r[k].routineId != rid
    ensures forall l | l in r :: l in ls
    decreases |ls|
  {
    if |ls| == 0 then []
    else if ls[0].routineId == rid then OtherLinks(ls[1..], rid)
    else [ls[0]] + OtherLinks(ls[1..], rid)
  }

  /** The links of routine `rid`, in order. */
  function LinksOf(ls: seq<Link>, rid: string): (r: seq<Link>)
    ensures forall k | 0 <= k < |r| :: r[k].routineId == rid
    decreases |ls|
  {
    if |ls| == 0 then []
    else if ls[0].routineId == rid then [ls[0]] + LinksOf(ls[1..], rid)
    else LinksOf(ls[1..], rid)
  }

  lemma {:induction false} OtherLinksValid(ls: seq<Link>, rid: string)
    requires LinksValid(ls)
    ensures LinksValid(OtherLinks(ls, rid))
    decreases |ls|
  {
    if |ls| > 0 {
      var t := OtherLinks(ls[1..], rid);
      assert LinksValid(ls[1..]);
      OtherLinksValid(ls[1..], rid);
      if ls[0].routineId != rid {
        var r := [ls[0]] + t;
        forall i, j | 0 <= i < j < |r|
          ensures (r[i].routineId, r[i].participantId) != (r[j].routineId, r[j].participantId)
        {
          if i == 0 {
            assert r[j] in ls[1..];
            var k :| 0 <= k < |ls[1..]| && ls[1..][k] == r[j];
            assert ls[k + 1] == r[j];
          } else {
            assert r[i] == t[i - 1] && r[j] == t[j - 1];
          }
        }
      }
    }
  }

  lemma {:induction false} LinksOfConcat(a: seq<Link>, b: seq<Link>, rid: string)
    ensures LinksOf(a + b, rid) == LinksOf(a, rid) + LinksOf(b, rid)
    ensures OtherLinks(a + b, rid) == OtherLinks(a, rid) + OtherLinks(b, rid)
    decreases |a|
  {
    if |a| > 0 {
      assert (a + b)[1..] == a[1..] + b;
      LinksOfConcat(a[1..], b, rid);
    } else {
      assert a + b == b;
    }
  }

  lemma {:induction false} LinksOfOwn(ls: seq<Link>, rid: string)
    requires forall k | 0 <= k < |ls| :: ls[k].routineId == rid
    ensures LinksOf(ls, rid) == ls
    ensures OtherLinks(ls, rid) == []
    decreases |ls|
  {
    if |ls| > 0 {
      LinksOfOwn(ls[1..], rid);
    }
  }

  lemma {:induction false} LinksOfOthers(ls: seq<Link>, rid: string)
    requires forall k | 0 <= k < |ls| :: ls[k].routineId != rid
    ensures LinksOf(ls, rid) == []
    ensures OtherLinks(ls, rid) == ls
    decreases |ls|
  {
    if |ls| > 0 {
      LinksOfOthers(ls[1..], rid);
    }
  }

  // ---------------------------------------------------------------------
  // One row

  /** The routine a new row inserts: the row's fields, not inactive. */
  function NewRoutine(id: string, row: ImportRow, fp: string): Routine {
    Routine(id, row.programNumber, Some(row.startTime), row.entryType, Some(row.category), Some(row.cls),
            Some(row.studioName), row.routineTitle, Some(row.participants), fp, false)
  }

  /** The descriptive fields a matching row overwrites. The id, the
      fingerprint, the program number and the inactive flag are kept. */
  function Describe(x: Routine, row: ImportRow): (y: Routine)
    ensures y.routineId == x.routineId && y.fingerprint == x.fingerprint
    ensures y.programNumber == x.programNumber && y.isInactive == x.isInactive
  {
    x.(startTimeText := Some(row.startTime), entryTypeRaw := row.entryType, category := Some(row.category),
       cls := Some(row.cls), studioName := Some(row.studioName), routineTitle := row.routineTitle,
       participantsRaw := Some(row.participants))
  }

  /** Only the routine table differs. */
  predicate OnlyRoutinesDiffer(a: Db, b: Db) {
    b.participants == a.participants && b.links == a.links && b.cells == a.cells
    && b.status == a.status && b.programLocked == a.programLocked
  }

  /** Every routine of `a` is still at its place in `b`, with its id and
      fingerprint. */
  predicate KeepsRoutines(a: seq<Routine>, b: seq<Routine>) {
    |a| <= |b|
    && forall i | 0 <= i < |a| :: b[i].routineId == a[i].routineId && b[i].fingerprint == a[i].fingerprint
  }

  /** Every routine of `a` keeps its program number in `b`. */
  predicate KeepsNumbers(a: seq<Routine>, b: seq<Routine>) {
    |a| <= |b| && forall i | 0 <= i < |a| :: b[i].programNumber == a[i].programNumber
  }

  /** Lines 30-100: insert the routine when no routine has the fingerprint,
      otherwise overwrite its descriptive fields and, unless the program is
      locked, its program number. Returns the routine's id. */
  function UpsertRoutine(s: Session, row: ImportRow, fp: string, gen: nat -> string): (r: Result<(Session, string), DbError>)
    ensures r.Success? ==> OnlyRoutinesDiffer(s.db, r.value.0.db)
    ensures r.Failure? ==> RoutineError(r.error)
    ensures r.Success? ==> KeepsRoutines(s.db.routines, r.value.0.db.routines)
    ensures r.Success? && s.db.programLocked ==> KeepsNumbers(s.db.routines, r.value.0.db.routines)
    ensures r.Success? && RoutinesValid(s.db.routines) ==> RoutinesValid(r.value.0.db.routines)
    ensures r.Success? ==> r.value.0.drawn >= s.drawn
    ensures !Known(s.db.routines, fp) && r.Success? ==>
      r.value.1 == gen(s.drawn) && r.value.0.db.routines == s.db.routines + [NewRoutine(gen(s.drawn), row, fp)]
    ensures Known(s.db.routines, fp) && r.Success? ==>
      var i := FindRoutine(s.db.routines, fp).value;
      var x := s.db.routines[i];
      r.value.1 == x.routineId && r.value.0.drawn == s.drawn
      && r.value.0.db.routines == s.db.routines[i := Describe(x, row).(programNumber :=
           if s.db.programLocked then x.programNumber else row.programNumber)]
    ensures Known(s.db.routines, fp) && s.db.programLocked ==> r.Success?
  {
    match FindRoutine(s.db.routines, fp)
    case None =>
      var id := gen(s.drawn);
      var db1 :- InsertRoutine(s.db, NewRoutine(id, row, fp));
      Success((Session(db1, s.drawn + 1), id))
    case Some(i) => UpdateRoutine(s, row, i)
  }

  /** Lines 65-100: overwrite routine `i` with the row's descriptive
      fields and, unless the program is locked, its program number. */
  function UpdateRoutine(s: Session, row: ImportRow, i: nat): (r: Result<(Session, string), DbError>)
    requires i < |s.db.routines|
    ensures r.Failure? ==> RoutineError(r.error)
    ensures s.db.programLocked ==> r.Success?
    ensures r.Success? ==> OnlyRoutinesDiffer(s.db, r.value.0.db)
    ensures r.Success? ==>
      var x := s.db.routines[i];
      r.value.1 == x.routineId && r.value.0.drawn == s.drawn
      && r.value.0.db.routines == s.db.routines[i := Describe(x, row).(programNumber :=
           if s.db.programLocked then x.programNumber else row.programNumber)]
    ensures r.Success? && RoutinesValid(s.db.routines) ==> RoutinesValid(r.value.0.db.routines)
  {
    var x := s.db.routines[i];
    var db1 := s.db.(routines := s.db.routines[i := Describe(x, row)]);
    DescribeKeepsValid(s.db.routines, i, row);
    if s.db.programLocked then
      Success((Session(db1, s.drawn), x.routineId))
    else
      var db2 :- SetProgramNumber(db1, i, row.programNumber);
      Success((Session(db2, s.drawn), x.routineId))
  }

  /** Overwriting the descriptive fields of a routine keeps the table
      valid. */
  lemma DescribeKeepsValid(rs: seq<Routine>, i: nat, row: ImportRow)
    requires i < |rs|
    ensures RoutinesValid(rs) ==> RoutinesValid(rs[i := Describe(rs[i], row)])
  {
    var rs1 := rs[i := Describe(rs[i], row)];
    if RoutinesValid(rs) {
      forall j, k | 0 <= j < k < |rs1|
        ensures rs1[j].routineId != rs1[k].routineId
        ensures rs1[j].fingerprint != rs1[k].fingerprint
        ensures rs1[j].programNumber != rs1[k].programNumber
      {
        assert rs[j].routineId != rs[k].routineId;
      }
    }
  }

  /** After the upsert the fingerprint finds the routine whose id the upsert
      returned. */
  lemma UpsertFinds(s: Session, row: ImportRow, fp: string, gen: nat -> string)
    requires UpsertRoutine(s, row, fp, gen).Success?
    ensures var (s1, rid) := UpsertRoutine(s, row, fp, gen).value;
      Known(s1.db.routines, fp)
      && s1.db.routines[FindRoutine(s1.db.routines, fp).value].routineId == rid
  {
    var (s1, rid) := UpsertRoutine(s, row, fp, gen).value;
    var rs, rs1 := s.db.routines, s1.db.routines;
    if Known(rs, fp) {
      var i := FindRoutine(rs, fp).value;
      assert rs1[i].fingerprint == fp;
      forall j | 0 <= j < i
        ensures rs1[j].fingerprint != fp
      {
        assert rs1[j] == rs[j];
      }
    } else {
      var n := |rs|;
      assert rs1[n].fingerprint == fp;
      forall j | 0 <= j < n
        ensures rs1[j].fingerprint != fp
      {
        assert rs1[j] == rs[j];
      }
    }
  }

  /** Participant `name`, created when no participant has that normalized
      name, with the name as both display and normalized name. Returns the
      participant's id. */
  function EnsureParticipant(s: Session, name: string, gen: nat -> string): (r: Result<(Session, string), DbError>)
    ensures r.Success? ==> r.value.0.db == s.db.(participants := r.value.0.db.participants)
    ensures r.Failure? ==> ParticipantError(r.error)
    ensures r.Success? ==> Extends(s.db.participants, r.value.0.db.participants)
    ensures r.Success? ==> NamedBy(r.value.0.db.participants, r.value.1, name)
    ensures r.Success? && ParticipantsValid(s.db.participants) ==> ParticipantsValid(r.value.0.db.participants)
    ensures r.Success? ==> r.value.0.drawn >= s.drawn
    ensures FindParticipant(s.db.participants, name).Some? ==>
      r == Success((s, s.db.participants[FindParticipant(s.db.participants, name).value].participantId))
    ensures FindParticipant(s.db.participants, name).None? && r.Success? ==>
      r.value.0.db.participants == s.db.participants + [Participant(gen(s.drawn), name, name)]
  {
    match FindParticipant(s.db.participants, name)
    case Some(m) =>
      Success((s, s.db.participants[m].participantId))
    case None =>
      var id := gen(s.drawn);
      var db1 :- InsertParticipant(s.db, Participant(id, name, name));
      assert db1.participants[|s.db.participants|] == Participant(id, name, name);
      assert db1.participants[..|s.db.participants|] == s.db.participants;
      Success((Session(db1, s.drawn + 1), id))
  }

  /** The links appended from position `from` of `ls` name `names[k..]` for
      routine `rid`, with sort orders `k`, `k + 1`, ... */
  ghost predicate AppendedNames(ps: seq<Participant>, ls: seq<Link>, from: nat, rid: string, names: seq<string>, k: nat)
    requires from <= |ls| && k <= |names|
  {
    |ls| - from == |names| - k
    && forall j | from <= j < |ls| ::
         ls[j].routineId == rid && ls[j].sortOrder == k + (j - from)
         && NamedBy(ps, ls[j].participantId, names[k + (j - from)])
  }

  /** Lines 106-127 from the `k`-th name on: find or create the participant,
      then link it with sort order `k`. */
  function LinkNames(s: Session, rid: string, names: seq<string>, k: nat, gen: nat -> string): (r: Result<Session, DbError>)
    requires k <= |names|
    ensures r.Success? ==> r.value.db == s.db.(participants := r.value.db.participants, links := r.value.db.links)
    ensures r.Success? ==> Extends(s.db.participants, r.value.db.participants)
    ensures r.Success? ==> Extends(s.db.links, r.value.db.links)
    ensures r.Success? && ParticipantsValid(s.db.participants) ==> ParticipantsValid(r.value.db.participants)
    ensures r.Success? && LinksValid(s.db.links) ==> LinksValid(r.value.db.links)
    ensures r.Success? ==> r.value.drawn >= s.drawn
    decreases |names| - k
  {
    if k == |names| then Success(s)
    else
      var found :- EnsureParticipant(s, names[k], gen);
      var db2 :- InsertLink(found.0.db, Link(rid, found.1, k));
      assert Extends(s.db.links, db2.links) by {
        assert db2.links[..|s.db.links|] == s.db.links;
      }
      var r := LinkNames(Session(db2, found.0.drawn), rid, names, k + 1, gen);
      if r.Success? then
        ExtendsTrans(s.db.participants, found.0.db.participants, r.value.db.participants);
        ExtendsTrans(s.db.links, db2.links, r.value.db.links);
        r
      else r
  }

  /** The links `LinkNames` appends name `names[k..]` in order. */
  lemma {:induction false} LinkNamesAppend(s: Session, rid: string, names: seq<string>, k: nat, gen: nat -> string)
    requires k <= |names|
    requires LinkNames(s, rid, names, k, gen).Success?
    ensures var t := LinkNames(s, rid, names, k, gen).value.db;
      |t.links| == |s.db.links| + (|names| - k)
      && AppendedNames(t.participants, t.links, |s.db.links|, rid, names, k)
    decreases |names| - k
  {
    if k < |names| {
      var found := EnsureParticipant(s, names[k], gen).value;
      var (s1, pid) := found;
      var db2 := InsertLink(s1.db, Link(rid, pid, k)).value;
      var s2 := Session(db2, s1.drawn);
      assert LinkNames(s, rid, names, k, gen) == LinkNames(s2, rid, names, k + 1, gen);
      LinkNamesAppend(s2, rid, names, k + 1, gen);
      var t := LinkNames(s2, rid, names, k + 1, gen).value.db;
      var from := |s.db.links|;
      assert |db2.links| == from + 1;
      forall j | from <= j < |t.links|
        ensures t.links[j].routineId == rid && t.links[j].sortOrder == k + (j - from)
        ensures NamedBy(t.participants, t.links[j].participantId, names[k + (j - from)])
      {
        if j == from {
          NamedByExtends(s1.db.participants, t.participants, pid, names[k]);
          assert t.links[from] == t.links[..|db2.links|][from] == db2.links[from];
        } else {
          assert from + 1 <= j;
        }
      }
    }
  }

  /** Lines 102-127: drop the routine's links, then link its participants
      in list order. */
  function Relink(s: Session, rid: string, names: seq<string>, gen: nat -> string): (r: Result<Session, DbError>)
    ensures r.Success? ==> r.value.db.routines == s.db.routines && r.value.db.programLocked == s.db.programLocked
    ensures r.Success? ==> r.value.db.cells == s.db.cells && r.value.db.status == s.db.status
    ensures r.Success? ==> Extends(s.db.participants, r.value.db.participants)
    ensures r.Success? && ParticipantsValid(s.db.participants) ==> ParticipantsValid(r.value.db.participants)
    ensures r.Success? && LinksValid(s.db.links) ==> LinksValid(r.value.db.links)
    ensures r.Success? ==> r.value.drawn >= s.drawn
  {
    var s0 := Session(s.db.(links := OtherLinks(s.db.links, rid)), s.drawn);
    assert LinksValid(s.db.links) ==> LinksValid(s0.db.links) by {
      if LinksValid(s.db.links) {
        OtherLinksValid(s.db.links, rid);
      }
    }
    LinkNames(s0, rid, names, 0, gen)
  }

  /** After relinking, the routine's links are its participants in list
      order with sort orders 0, 1, ..., and every other routine's links are
      as they were. */
  lemma RelinkLinks(s: Session, rid: string, names: seq<string>, gen: nat -> string)
    requires Relink(s, rid, names, gen).Success?
    ensures var t := Relink(s, rid, names, gen).value.db;
      OtherLinks(t.links, rid) == OtherLinks(s.db.links, rid)
      && |LinksOf(t.links, rid)| == |names|
      && forall k | 0 <= k < |names| ::
           LinksOf(t.links, rid)[k].sortOrder == k
           && NamedBy(t.participants, LinksOf(t.links, rid)[k].participantId, names[k])
  {
    var t := Relink(s, rid, names, gen).value.db;
    var base := OtherLinks(s.db.links, rid);
    var added := RelinkAdded(s, rid, names, gen);
    LinksOfConcat(base, added, rid);
    LinksOfOthers(base, rid);
    LinksOfOwn(added, rid);
    OtherLinksOfOthers(s.db.links, rid);
    assert LinksOf(t.links, rid) == added;
  }

  /** The links `Relink` appends after the kept links of other routines:
      one per name, in order. */
  lemma RelinkAdded(s: Session, rid: string, names: seq<string>, gen: nat -> string) returns (added: seq<Link>)
    requires Relink(s, rid, names, gen).Success?
    ensures var t := Relink(s, rid, names, gen).value.db;
      t.links == OtherLinks(s.db.links, rid) + added
      && |added| == |names|
      && (forall k | 0 <= k < |added| :: added[k].routineId == rid)
      && forall k | 0 <= k < |names| ::
           added[k].sortOrder == k && NamedBy(t.participants, added[k].participantId, names[k])
  {
    var t := Relink(s, rid, names, gen).value.db;
    var base := OtherLinks(s.db.links, rid);
    added := t.links[|base|..];
    LinkNamesAppend(Session(s.db.(links := base), s.drawn), rid, names, 0, gen);
    assert t.links == base + added;
    forall k | 0 <= k < |added|
      ensures added[k].routineId == rid && added[k].sortOrder == k
      ensures NamedBy(t.participants, added[k].participantId, names[k])
    {
      assert added[k] == t.links[|base| + k];
    }
  }

  lemma OtherLinksOfOthers(ls: seq<Link>, rid: string)
    ensures OtherLinks(OtherLinks(ls, rid), rid) == OtherLinks(ls, rid)
  {
    LinksOfOthers(OtherLinks(ls, rid), rid);
  }

  /** The participants of a row, normalized and sorted; with `dedup` each
      name once. */
  function RowNames(row: ImportRow, dedup: bool): (names: seq<string>)
    ensures dedup ==> Distinct(names)
  {
    var ps := Fingerprint.SplitAndNormalizeParticipants(Some(row.participants));
    if dedup then Dedup(ps) else ps
  }

  /** The fingerprint of a row: its key text (the digest of the key is not
      modelled). The program number is not part of it. */
  function RowFingerprint(row: ImportRow, dedup: bool): string {
    Fingerprint.FingerprintKey(row.studioName, row.routineTitle, row.entryType, Some(row.category), Some(row.cls),
                               RowNames(row, dedup))
  }

  /** One row once its participants and fingerprint are known: upsert the
      routine, then relink it. */
  function ImportPrepared(s: Session, row: ImportRow, names: seq<string>, fp: string, gen: nat -> string): (r: Result<Session, DbError>)
    ensures r.Success? ==> KeepsRoutines(s.db.routines, r.value.db.routines)
    ensures r.Success? && s.db.programLocked ==> KeepsNumbers(s.db.routines, r.value.db.routines)
    ensures r.Success? ==> Known(r.value.db.routines, fp)
    ensures r.Success? ==> r.value.db.cells == s.db.cells && r.value.db.status == s.db.status
    ensures r.Success? ==> r.value.db.programLocked == s.db.programLocked
    ensures r.Success? ==> Extends(s.db.participants, r.value.db.participants)
    ensures r.Success? && Valid(s.db) ==> Valid(r.value.db)
    ensures r.Success? && Known(s.db.routines, fp) ==> |r.value.db.routines| == |s.db.routines|
  {
    var up :- UpsertRoutine(s, row, fp, gen);
    UpsertFinds(s, row, fp, gen);
    Relink(up.0, up.1, names, gen)
  }

  /** A row with a new fingerprint appends one routine holding the row's
      fields, active, under the next fresh id. */
  lemma NewRowInserts(s: Session, row: ImportRow, names: seq<string>, fp: string, gen: nat -> string)
    requires !Known(s.db.routines, fp) && ImportPrepared(s, row, names, fp, gen).Success?
    ensures ImportPrepared(s, row, names, fp, gen).value.db.routines == s.db.routines + [NewRoutine(gen(s.drawn), row, fp)]
  {
  }

  /** A row matching a routine overwrites that routine's descriptive fields
      and keeps its id, its fingerprint and its inactive flag; the program
      number follows the row unless the program is locked. */
  lemma MatchingRowUpdates(s: Session, row: ImportRow, names: seq<string>, fp: string, gen: nat -> string)
    requires Known(s.db.routines, fp) && ImportPrepared(s, row, names, fp, gen).Success?
    ensures var i := FindRoutine(s.db.routines, fp).value;
      var x := s.db.routines[i];
      var y := ImportPrepared(s, row, names, fp, gen).value.db.routines[i];
      y.routineId == x.routineId && y.fingerprint == x.fingerprint && y.isInactive == x.isInactive
      && y.routineTitle == row.routineTitle && y.entryTypeRaw == row.entryType
      && y.studioName == Some(row.studioName) && y.category == Some(row.category) && y.cls == Some(row.cls)
      && y.startTimeText == Some(row.startTime) && y.participantsRaw == Some(row.participants)
      && y.programNumber == (if s.db.programLocked then x.programNumber else row.programNumber)
  {
  }

  /** Lines 28-130 for one row. `dedup` selects the correction that lists
      each participant once. */
  function ImportOne(s: Session, row: ImportRow, gen: nat -> string, dedup: bool): Result<Session, DbError> {
    ImportPrepared(s, row, RowNames(row, dedup), RowFingerprint(row, dedup), gen)
  }

  /** The rows in order; the first failure ends the import. */
  function ImportAll(s: Session, rows: seq<ImportRow>, gen: nat -> string, dedup: bool): (r: Result<Session, DbError>)
    ensures r.Success? ==> KeepsRoutines(s.db.routines, r.value.db.routines)
    ensures r.Success? && s.db.programLocked ==> KeepsNumbers(s.db.routines, r.value.db.routines)
    ensures r.Success? && Valid(s.db) ==> Valid(r.value.db)
    ensures r.Success? ==> r.value.db.cells == s.db.cells && r.value.db.status == s.db.status
    ensures r.Success? ==> r.value.db.programLocked == s.db.programLocked
    decreases |rows|
  {
    if |rows| == 0 then Success(s)
    else
      var s1 :- ImportOne(s, rows[0], gen, dedup);
      ImportAll(s1, rows[1..], gen, dedup)
  }

  /** The outcome of an import: the database after the transaction and the
      count returned, or the error thrown. */
  datatype Outcome = Outcome(db: Db, result: Result<int, DbError>)

  function Run(db: Db, rows: seq<ImportRow>, gen: nat -> string, dedup: bool): (o: Outcome)
    ensures o.result.Success? ==> o.result.value == |rows|
    ensures o.result.Failure? ==> o.db == db
    ensures o.result.Success? ==> KeepsRoutines(db.routines, o.db.routines)
    ensures db.programLocked ==> KeepsNumbers(db.routines, o.db.routines)
    ensures Valid(db) ==> Valid(o.db)
    ensures o.db.cells == db.cells && o.db.status == db.status
  {
    match ImportAll(Session(db, 0), rows, gen, dedup)
    case Success(s) => Outcome(s.db, Success(|rows|))
    case Failure(e) => Outcome(db, Failure(e))
  }

  /** `ImportFromCsv`: every row applied and the row count returned, or the
      error and the database untouched. Routines already present keep their
      ids and fingerprints; while the program is locked they also keep their
      program numbers; the schema's keys still hold afterwards. */
  function ImportFromCsv(db: Db, rows: seq<ImportRow>, gen: nat -> string): (o: Outcome)
    ensures o.result.Success? ==> o.result.value == |rows|
    ensures o.result.Failure? ==> o.db == db
    ensures o.result.Success? ==> KeepsRoutines(db.routines, o.db.routines)
    ensures db.programLocked ==> KeepsNumbers(db.routines, o.db.routines)
    ensures Valid(db) ==> Valid(o.db)
    ensures o.db.cells == db.cells && o.db.status == db.status
  {
    Run(db, rows, gen, false)
  }

  /** The corrected import: participants listed twice in a row are linked
      once. */
  function ImportFromCsvDeduped(db: Db, rows: seq<ImportRow>, gen: nat -> string): (o: Outcome)
    ensures o.result.Success? ==> o.result.value == |rows|
    ensures o.result.Failure? ==> o.db == db
    ensures o.result.Success? ==> KeepsRoutines(db.routines, o.db.routines)
    ensures db.programLocked ==> KeepsNumbers(db.routines, o.db.routines)
    ensures Valid(db) ==> Valid(o.db)
  {
    Run(db, rows, gen, true)
  }

  // ---------------------------------------------------------------------
  // Re-importing

  lemma KnownKept(a: seq<Routine>, b: seq<Routine>, fp: string)
    requires KeepsRoutines(a, b) && Known(a, fp)
    ensures Known(b, fp)
  {
    var i := FindRoutine(a, fp).value;
    assert b[i].fingerprint == fp;
  }

  /** After a successful import every row's fingerprint names a routine. */
  lemma {:induction false} ImportAllMakesKnown(s: Session, rows: seq<ImportRow>, gen: nat -> string, dedup: bool)
    requires ImportAll(s, rows, gen, dedup).Success?
    ensures forall k | 0 <= k < |rows| :: Known(ImportAll(s, rows, gen, dedup).value.db.routines, RowFingerprint(rows[k], dedup))
    decreases |rows|
  {
    if |rows| > 0 {
      ImportAllHead(s, rows, gen, dedup);
      var s1 := ImportOne(s, rows[0], gen, dedup).value;
      var t := ImportAll(s, rows, gen, dedup).value;
      ImportAllMakesKnown(s1, rows[1..], gen, dedup);
      KnownKept(s1.db.routines, t.db.routines, RowFingerprint(rows[0], dedup));
      forall k | 1 <= k < |rows|
        ensures Known(t.db.routines, RowFingerprint(rows[k], dedup))
      {
        TailAt(rows, k);
      }
    }
  }

  /** The first row of a successful import is imported, and names a
      routine, before the rest. */
  lemma ImportAllHead(s: Session, rows: seq<ImportRow>, gen: nat -> string, dedup: bool)
    requires ImportAll(s, rows, gen, dedup).Success? && |rows| > 0
    ensures ImportOne(s, rows[0], gen, dedup).Success?
    ensures ImportAll(s, rows, gen, dedup) == ImportAll(ImportOne(s, rows[0], gen, dedup).value, rows[1..], gen, dedup)
    ensures Known(ImportOne(s, rows[0], gen, dedup).value.db.routines, RowFingerprint(rows[0], dedup))
  {
  }

  /** Rows whose fingerprints all name routines add no routine. */
  lemma {:induction false} ImportAllKnownRows(s: Session, rows: seq<ImportRow>, gen: nat -> string, dedup: bool)
    requires forall k | 0 <= k < |rows| :: Known(s.db.routines, RowFingerprint(rows[k], dedup))
    requires ImportAll(s, rows, gen, dedup).Success?
    ensures |ImportAll(s, rows, gen, dedup).value.db.routines| == |s.db.routines|
    decreases |rows|
  {
    if |rows| > 0 {
      var s1 := ImportOne(s, rows[0], gen, dedup).value;
      forall k | 0 <= k < |rows| - 1
        ensures Known(s1.db.routines, RowFingerprint(rows[1..][k], dedup))
      {
        KnownKept(s.db.routines, s1.db.routines, RowFingerprint(rows[k + 1], dedup));
      }
      ImportAllKnownRows(s1, rows[1..], gen, dedup);
    }
  }

  /** Importing the same rows a second time adds no routine: every routine
      keeps its place, id and fingerprint. */
  lemma ReimportAddsNoRoutine(db: Db, rows: seq<ImportRow>, gen1: nat -> string, gen2: nat -> string)
    requires ImportFromCsv(db, rows, gen1).result.Success?
    ensures var db1 := ImportFromCsv(db, rows, gen1).db;
      var o2 := ImportFromCsv(db1, rows, gen2);
      o2.result.Success? ==> |o2.db.routines| == |db1.routines| && KeepsRoutines(db1.routines, o2.db.routines)
  {
    ImportAllMakesKnown(Session(db, 0), rows, gen1, false);
    var db1 := ImportFromCsv(db, rows, gen1).db;
    if ImportFromCsv(db1, rows, gen2).result.Success? {
      ImportAllKnownRows(Session(db1, 0), rows, gen2, false);
    }
  }

  /** Names that all have participants already create none and draw no
      identifier: participants are reused by normalized name. */
  lemma {:induction false} LinkNamesReuses(s: Session, rid: string, names: seq<string>, k: nat, gen: nat -> string)
    requires k <= |names|
    requires forall j | k <= j < |names| :: FindParticipant(s.db.participants, names[j]).Some?
    requires LinkNames(s, rid, names, k, gen).Success?
    ensures LinkNames(s, rid, names, k, gen).value.db.participants == s.db.participants
    ensures LinkNames(s, rid, names, k, gen).value.drawn == s.drawn
    decreases |names| - k
  {
    if k < |names| {
      LinkNamesUnfold(s, rid, names, k, gen);
      var f := EnsureParticipant(s, names[k], gen).value;
      assert f.0 == s;
      var db2 := InsertLink(s.db, Link(rid, f.1, k)).value;
      LinkNamesReuses(Session(db2, s.drawn), rid, names, k + 1, gen);
    }
  }

  /** One step of `LinkNames`: find or create the participant, link it,
      go on with the next name. */
  lemma LinkNamesUnfold(s: Session, rid: string, names: seq<string>, k: nat, gen: nat -> string)
    requires k < |names| && LinkNames(s, rid, names, k, gen).Success?
    ensures EnsureParticipant(s, names[k], gen).Success?
    ensures var f := EnsureParticipant(s, names[k], gen).value;
      InsertLink(f.0.db, Link(rid, f.1, k)).Success?
      && LinkNames(s, rid, names, k, gen) ==
         LinkNames(Session(InsertLink(f.0.db, Link(rid, f.1, k)).value, f.0.drawn), rid, names, k + 1, gen)
  {
  }

  lemma RelinkReuses(s: Session, rid: string, names: seq<string>, gen: nat -> string)
    requires forall j | 0 <= j < |names| :: FindParticipant(s.db.participants, names[j]).Some?
    requires Relink(s, rid, names, gen).Success?
    ensures Relink(s, rid, names, gen).value.db.participants == s.db.participants
    ensures Relink(s, rid, names, gen).value.drawn == s.drawn
  {
    LinkNamesReuses(Session(s.db.(links := OtherLinks(s.db.links, rid)), s.drawn), rid, names, 0, gen);
  }

  // ---------------------------------------------------------------------
  // A participant listed twice

  /** The identifier oracle draws fresh ids from `s.drawn` on: none is a
      participant id already, and no two draws agree. */
  ghost predicate FreshIds(s: Session, gen: nat -> string) {
    (forall d, m | s.drawn <= d && 0 <= m < |s.db.participants| :: gen(d) != s.db.participants[m].participantId)
    && (forall d1, d2 | s.drawn <= d1 < d2 :: gen(d1) != gen(d2))
  }

  /** With fresh ids, finding or creating a participant cannot fail, and
      the ids left to draw stay fresh. */
  lemma EnsureFresh(s: Session, name: string, gen: nat -> string)
    requires FreshIds(s, gen)
    ensures EnsureParticipant(s, name, gen).Success?
    ensures FreshIds(EnsureParticipant(s, name, gen).value.0, gen)
  {
    if FindParticipant(s.db.participants, name).None? {
      var p := Participant(gen(s.drawn), name, name);
      assert InsertParticipant(s.db, p).Success?;
      var s1 := EnsureParticipant(s, name, gen).value.0;
      assert s1.db.participants == s.db.participants + [p];
      forall d, m | s1.drawn <= d && 0 <= m < |s1.db.participants|
        ensures gen(d) != s1.db.participants[m].participantId
      {
        if m == |s.db.participants| {
          assert gen(s.drawn) != gen(d);
        } else {
          assert s1.db.participants[m] == s.db.participants[m];
        }
      }
    }
  }

  /** As written, relinking a routine to a list that names one person twice,
      at positions `i < j`, fails. The error is the link key's, or a
      participant insert's; with fresh ids it is always the link key's. */
  lemma RelinkTwiceFails(s: Session, rid: string, names: seq<string>, gen: nat -> string, i: nat, j: nat)
    requires ParticipantsValid(s.db.participants)
    requires i < j < |names| && names[i] == names[j]
    ensures Relink(s, rid, names, gen).Failure?
    ensures var e := Relink(s, rid, names, gen).error;
      e == UniqueViolation(LinkIndex) || ParticipantError(e)
    ensures FreshIds(s, gen) ==> Relink(s, rid, names, gen).error == UniqueViolation(LinkIndex)
  {
    var s0 := Session(s.db.(links := OtherLinks(s.db.links, rid)), s.drawn);
    LinkBeforeFirstFails(s0, rid, names, 0, gen, i, j);
  }

  /** How linking a repeated name fails: on the link key, or, unless the
      ids drawn are fresh, on a participant insert. */
  predicate RepeatFailure(r: Result<Session, DbError>, freshIds: bool) {
    r.Failure? && (r.error == UniqueViolation(LinkIndex) || (!freshIds && ParticipantError(r.error)))
  }

  /** One step of `LinkNames`, failing or not: a participant error ends it,
      a repeated link ends it with the link key's error, and otherwise it
      goes on from the next name. */
  lemma LinkNamesStep(s: Session, rid: string, names: seq<string>, k: nat, gen: nat -> string)
    requires k < |names|
    ensures var e := EnsureParticipant(s, names[k], gen);
      && (e.Failure? ==> LinkNames(s, rid, names, k, gen) == Failure(e.error))
      && (e.Success? && InsertLink(e.value.0.db, Link(rid, e.value.1, k)).Failure? ==>
            LinkNames(s, rid, names, k, gen) == Failure(UniqueViolation(LinkIndex)))
      && (e.Success? && InsertLink(e.value.0.db, Link(rid, e.value.1, k)).Success? ==>
            LinkNames(s, rid, names, k, gen) ==
            LinkNames(Session(InsertLink(e.value.0.db, Link(rid, e.value.1, k)).value, e.value.0.drawn), rid, names, k + 1, gen))
  {
  }

  /** A step of `LinkNames` that stops fails as `RepeatFailure` says:
      with fresh ids the participant is always found or created. */
  lemma LinkStepStops(s: Session, rid: string, names: seq<string>, k: nat, gen: nat -> string)
    requires k < |names|
    ensures var e := EnsureParticipant(s, names[k], gen);
      (e.Failure? || InsertLink(e.value.0.db, Link(rid, e.value.1, k)).Failure?) ==>
        RepeatFailure(LinkNames(s, rid, names, k, gen), FreshIds(s, gen))
  {
    LinkNamesStep(s, rid, names, k, gen);
    if FreshIds(s, gen) {
      EnsureFresh(s, names[k], gen);
    }
  }

  /** `LinkNames` from a position `k` up to the first of the two equal
      names. */
  lemma {:induction false} LinkBeforeFirstFails(s: Session, rid: string, names: seq<string>, k: nat, gen: nat -> string, i: nat, j: nat)
    requires ParticipantsValid(s.db.participants)
    requires k <= i < j < |names| && names[i] == names[j]
    ensures RepeatFailure(LinkNames(s, rid, names, k, gen), FreshIds(s, gen))
    decreases i - k
  {
    LinkNamesStep(s, rid, names, k, gen);
    if FreshIds(s, gen) {
      EnsureFresh(s, names[k], gen);
    }
    var e := EnsureParticipant(s, names[k], gen);
    if e.Success? {
      var (s1, pid) := e.value;
      var ins := InsertLink(s1.db, Link(rid, pid, k));
      if ins.Success? {
        var s2 := Session(ins.value, s1.drawn);
        assert FreshIds(s, gen) ==> FreshIds(s2, gen);
        if k == i {
          var l := |s1.db.links|;
          assert s2.db.links[l] == Link(rid, pid, k);
          var m :| 0 <= m < |s2.db.participants| && s2.db.participants[m].participantId == pid
            && s2.db.participants[m].normalizedName == names[i];
          LinkAfterFirstFails(s2, rid, names, k + 1, gen, j, m, l);
        } else {
          LinkBeforeFirstFails(s2, rid, names, k + 1, gen, i, j);
        }
      }
    }
  }

  /** `LinkNames` from a position `k` up to the second of the two equal
      names, once the routine links participant `m` of that name. */
  lemma {:induction false} LinkAfterFirstFails(s: Session, rid: string, names: seq<string>, k: nat, gen: nat -> string, j: nat, m: nat, l: nat)
    requires ParticipantsValid(s.db.participants)
    requires k <= j < |names| && m < |s.db.participants| && s.db.participants[m].normalizedName == names[j]
    requires l < |s.db.links| && s.db.links[l].routineId == rid && s.db.links[l].participantId == s.db.participants[m].participantId
    ensures RepeatFailure(LinkNames(s, rid, names, k, gen), FreshIds(s, gen))
    decreases j - k, 2
  {
    if k == j {
      RepeatedLinkFails(s, rid, names, gen, j, m, l);
    } else {
      LinkBetweenFails(s, rid, names, k, gen, j, m, l);
    }
  }

  /** The step of `LinkAfterFirstFails` at a name before the second one. */
  lemma {:induction false} LinkBetweenFails(s: Session, rid: string, names: seq<string>, k: nat, gen: nat -> string, j: nat, m: nat, l: nat)
    requires ParticipantsValid(s.db.participants)
    requires k < j < |names| && m < |s.db.participants| && s.db.participants[m].normalizedName == names[j]
    requires l < |s.db.links| && s.db.links[l].routineId == rid && s.db.links[l].participantId == s.db.participants[m].participantId
    ensures RepeatFailure(LinkNames(s, rid, names, k, gen), FreshIds(s, gen))
    decreases j - k, 1
  {
    LinkStepStops(s, rid, names, k, gen);
    if StepGoesOn(s, rid, names[k], k, gen) {
      LinkNextFails(s, rid, names, k, gen, j, m, l);
    }
  }

  /** The step at position `k` finds or creates the participant and links
      it. */
  predicate StepGoesOn(s: Session, rid: string, name: string, k: nat, gen: nat -> string) {
    EnsureParticipant(s, name, gen).Success?
    && InsertLink(EnsureParticipant(s, name, gen).value.0.db, Link(rid, EnsureParticipant(s, name, gen).value.1, k)).Success?
  }

  /** The session after such a step. */
  function StepNext(s: Session, rid: string, name: string, k: nat, gen: nat -> string): Session
    requires StepGoesOn(s, rid, name, k, gen)
  {
    var f := EnsureParticipant(s, name, gen).value;
    Session(InsertLink(f.0.db, Link(rid, f.1, k)).value, f.0.drawn)
  }

  /** `LinkBetweenFails` when the step goes on to the next name. */
  lemma {:induction false} LinkNextFails(s: Session, rid: string, names: seq<string>, k: nat, gen: nat -> string, j: nat, m: nat, l: nat)
    requires ParticipantsValid(s.db.participants)
    requires k < j < |names| && m < |s.db.participants| && s.db.participants[m].normalizedName == names[j]
    requires l < |s.db.links| && s.db.links[l].routineId == rid && s.db.links[l].participantId == s.db.participants[m].participantId
    requires StepGoesOn(s, rid, names[k], k, gen)
    ensures RepeatFailure(LinkNames(s, rid, names, k, gen), FreshIds(s, gen))
    decreases j - k, 0
  {
    var s2 := StepNext(s, rid, names[k], k, gen);
    LinkNamesStep(s, rid, names, k, gen);
    assert LinkNames(s, rid, names, k, gen) == LinkNames(s2, rid, names, k + 1, gen);
    LinkKeepsFirst(s, rid, names[k], k, gen, m, l);
    LinkAfterFirstFails(s2, rid, names, k + 1, gen, j, m, l);
  }

  /** A step that links another name keeps what `LinkAfterFirstFails`
      needs: participant `m`, the link at `l`, and fresh ids. */
  lemma LinkKeepsFirst(s: Session, rid: string, next: string, k: nat, gen: nat -> string, m: nat, l: nat)
    requires ParticipantsValid(s.db.participants)
    requires m < |s.db.participants| && l < |s.db.links|
    requires StepGoesOn(s, rid, next, k, gen)
    ensures var s2 := StepNext(s, rid, next, k, gen);
      ParticipantsValid(s2.db.participants)
      && m < |s2.db.participants| && s2.db.participants[m] == s.db.participants[m]
      && l < |s2.db.links| && s2.db.links[l] == s.db.links[l]
      && (FreshIds(s, gen) ==> FreshIds(s2, gen))
  {
    var s2 := StepNext(s, rid, next, k, gen);
    if FreshIds(s, gen) {
      EnsureFresh(s, next, gen);
    }
    assert s2.db.participants[..|s.db.participants|][m] == s2.db.participants[m];
  }

  /** The second of the two equal names finds participant `m`, whose link
      the routine already has. */
  lemma RepeatedLinkFails(s: Session, rid: string, names: seq<string>, gen: nat -> string, j: nat, m: nat, l: nat)
    requires ParticipantsValid(s.db.participants)
    requires j < |names| && m < |s.db.participants| && s.db.participants[m].normalizedName == names[j]
    requires l < |s.db.links| && s.db.links[l].routineId == rid && s.db.links[l].participantId == s.db.participants[m].participantId
    ensures LinkNames(s, rid, names, j, gen) == Failure(UniqueViolation(LinkIndex))
  {
    var ps := s.db.participants;
    var f := FindParticipant(ps, names[j]);
    assert f.value == m;
    assert EnsureParticipant(s, names[j], gen) == Success((s, ps[m].participantId));
    assert InsertLink(s.db, Link(rid, ps[m].participantId, j)).Failure?;
  }

  /** As written, a row whose participants normalize to one name listed
      twice cannot be imported. */
  lemma ImportOneTwiceFails(s: Session, row: ImportRow, gen: nat -> string)
    requires ParticipantsValid(s.db.participants)
    requires Doubled(RowNames(row, false))
    ensures ImportOne(s, row, gen, false).Failure?
  {
    var names := RowNames(row, false);
    var i, j :| 0 <= i < j < |names| && names[i] == names[j];
    var up := UpsertRoutine(s, row, RowFingerprint(row, false), gen);
    if up.Success? {
      RelinkTwiceFails(up.value.0, up.value.1, names, gen, i, j);
    }
  }

  /** The import goes on from the state the first row leaves. */
  lemma ImportAllStep(s: Session, rows: seq<ImportRow>, gen: nat -> string, dedup: bool)
    requires |rows| > 0 && ImportOne(s, rows[0], gen, dedup).Success?
    ensures ImportAll(s, rows, gen, dedup) == ImportAll(ImportOne(s, rows[0], gen, dedup).value, rows[1..], gen, dedup)
    ensures Valid(s.db) ==> Valid(ImportOne(s, rows[0], gen, dedup).value.db)
  {
  }

  /** A row that names someone twice, anywhere in its list. */
  predicate Doubled(names: seq<string>) {
    !Distinct(names)
  }

  /** As written, one such row anywhere in the file fails the import. */
  lemma {:induction false} ImportAllTwiceFails(s: Session, rows: seq<ImportRow>, gen: nat -> string, i: nat, row: ImportRow)
    requires Valid(s.db)
    requires i < |rows| && rows[i] == row && Doubled(RowNames(row, false))
    ensures ImportAll(s, rows, gen, false).Failure?
    decreases i, 1
  {
    if i == 0 {
      ImportOneTwiceFails(s, row, gen);
    } else {
      LaterRowTwiceFails(s, rows, gen, i, row);
    }
  }

  lemma {:induction false} LaterRowTwiceFails(s: Session, rows: seq<ImportRow>, gen: nat -> string, i: nat, row: ImportRow)
    requires Valid(s.db)
    requires 0 < i < |rows| && rows[i] == row && Doubled(RowNames(row, false))
    ensures ImportAll(s, rows, gen, false).Failure?
    decreases i, 0
  {
    var r1 := ImportOne(s, rows[0], gen, false);
    if r1.Success? {
      var rest := rows[1..];
      assert rest[i - 1] == row;
      ImportAllStep(s, rows, gen, false);
      ImportAllTwiceFails(r1.value, rest, gen, i - 1, row);
    }
  }

  /** As written, a participants cell naming one person twice in different
      spelling, such as "Ann, ann", fails the whole import and leaves the
      database as it was. */
  lemma DoubledParticipantFailsImport(db: Db, rows: seq<ImportRow>, gen: nat -> string, i: nat, a: string, b: string)
    requires Valid(db)
    requires i < |rows| && rows[i].participants == Text.Join([a, b], ",")
    requires ',' !in a && ',' !in b && !Text.AllWhite(a)
    requires Fingerprint.NormalizeName(a) == Fingerprint.NormalizeName(b)
    ensures ImportFromCsv(db, rows, gen).result.Failure?
    ensures ImportFromCsv(db, rows, gen).db == db
  {
    Fingerprint.SameNameTwice(a, b);
    assert RowNames(rows[i], false)[0] == RowNames(rows[i], false)[1];
    ImportAllTwiceFails(Session(db, 0), rows, gen, i, rows[i]);
  }

  /** Two names of a valid participant table that differ have different
      ids. */
  lemma NamedDistinctIds(ps: seq<Participant>, p1: string, p2: string, a: string, b: string)
    requires ParticipantsValid(ps)
    requires NamedBy(ps, p1, a) && NamedBy(ps, p2, b) && a != b
    ensures p1 != p2
  {
    var m :| 0 <= m < |ps| && ps[m].participantId == p1 && ps[m].normalizedName == a;
    var n :| 0 <= n < |ps| && ps[n].participantId == p2 && ps[n].normalizedName == b;
    assert m != n;
    if m < n {
      assert ps[m].participantId != ps[n].participantId;
    } else {
      assert ps[n].participantId != ps[m].participantId;
    }
  }

  /** Linking distinct names never repeats a link key: the links made so far
      (from position `from`) are for names before `k`, each under its own
      participant id. */
  lemma {:induction false} LinkNamesNoClash(s: Session, rid: string, names: seq<string>, k: nat, gen: nat -> string, from: nat)
    requires k <= |names| && Distinct(names)
    requires ParticipantsValid(s.db.participants)
    requires from <= |s.db.links| && |s.db.links| - from == k
    requires forall j | 0 <= j < from :: s.db.links[j].routineId != rid
    requires forall j | from <= j < |s.db.links| ::
      s.db.links[j].routineId == rid && NamedBy(s.db.participants, s.db.links[j].participantId, names[j - from])
    ensures LinkNames(s, rid, names, k, gen).Failure? ==> LinkNames(s, rid, names, k, gen).error != UniqueViolation(LinkIndex)
    decreases |names| - k
  {
    if k < |names| {
      var e := EnsureParticipant(s, names[k], gen);
      if e.Success? {
        var (s1, pid) := e.value;
        var ps1 := s1.db.participants;
        var ls := s.db.links;
        assert s1.db.links == ls;
        forall j | 0 <= j < |ls|
          ensures ls[j].routineId != rid || ls[j].participantId != pid
        {
          if j >= from {
            NamedByExtends(s.db.participants, ps1, ls[j].participantId, names[j - from]);
            assert names[j - from] != names[k];
            NamedDistinctIds(ps1, ls[j].participantId, pid, names[j - from], names[k]);
          }
        }
        var db2 := InsertLink(s1.db, Link(rid, pid, k)).value;
        forall j | from <= j < |db2.links|
          ensures db2.links[j].routineId == rid && NamedBy(ps1, db2.links[j].participantId, names[j - from])
        {
          if j < |ls| {
            assert db2.links[j] == ls[j];
            NamedByExtends(s.db.participants, ps1, ls[j].participantId, names[j - from]);
          }
        }
        LinkNamesNoClash(Session(db2, s1.drawn), rid, names, k + 1, gen, from);
      }
    }
  }

  /** Relinking distinct names never fails on the link key. */
  lemma RelinkDistinctNoClash(s: Session, rid: string, names: seq<string>, gen: nat -> string)
    requires Distinct(names) && ParticipantsValid(s.db.participants)
    ensures Relink(s, rid, names, gen).Failure? ==> Relink(s, rid, names, gen).error != UniqueViolation(LinkIndex)
  {
    var s0 := Session(s.db.(links := OtherLinks(s.db.links, rid)), s.drawn);
    LinkNamesNoClash(s0, rid, names, 0, gen, |s0.db.links|);
  }

  /** Corrected: with each participant listed once, importing a row never
      fails on the link key, whatever the row lists. */
  lemma DedupedRowNeverRepeatsLink(s: Session, row: ImportRow, gen: nat -> string)
    requires ParticipantsValid(s.db.participants)
    ensures ImportOne(s, row, gen, true).Failure? ==> ImportOne(s, row, gen, true).error != UniqueViolation(LinkIndex)
  {
    var up := UpsertRoutine(s, row, RowFingerprint(row, true), gen);
    if up.Success? {
      RelinkDistinctNoClash(up.value.0, up.value.1, RowNames(row, true), gen);
    }
  }

  /** Corrected: no import fails on the link key. */
  lemma {:induction false} DedupedImportNeverRepeatsLink(s: Session, rows: seq<ImportRow>, gen: nat -> string)
    requires Valid(s.db)
    ensures ImportAll(s, rows, gen, true).Failure? ==> ImportAll(s, rows, gen, true).error != UniqueViolation(LinkIndex)
    decreases |rows|
  {
    if |rows| > 0 {
      DedupedRowNeverRepeatsLink(s, rows[0], gen);
      var r1 := ImportOne(s, rows[0], gen, true);
      if r1.Success? {
        DedupedImportNeverRepeatsLink(r1.value, rows[1..], gen);
      }
    }
  }

  /** The correction lists the same participants, and changes nothing for a
      row that names nobody twice. */
  lemma DedupKeepsNames(row: ImportRow)
    ensures forall x :: x in RowNames(row, true) <==> x in RowNames(row, false)
    ensures Distinct(RowNames(row, false)) ==> RowNames(row, true) == RowNames(row, false)
  {
    if Distinct(RowNames(row, false)) {
      DedupDistinct(RowNames(row, false));
    }
  }

  // ---------------------------------------------------------------------
  // The data grid

  /** A row of the data grid: the selected columns, with null texts read as
      "". */
  datatype GridRow = GridRow(
    startTime: Option<string>,
    programNumber: int,
    entryType: string,
    category: string,
    cls: string,
    participants: string,
    studioName: string,
    routineTitle: string)

  function GridRowOf(x: Routine): GridRow {
    GridRow(x.startTimeText, x.programNumber, x.entryTypeRaw, x.category.GetOr(""), x.cls.GetOr(""),
            x.participantsRaw.GetOr(""), x.studioName.GetOr(""), x.routineTitle)
  }

  /** `WHERE IsInactive = 0`, in table order. */
  function ActiveRoutines(rs: seq<Routine>): (r: seq<Routine>)
    ensures forall x :: x in r <==> x in rs && !x.isInactive
    decreases |rs|
  {
    if |rs| == 0 then []
    else
      assert rs == [rs[0]] + rs[1..];
      if rs[0].isInactive then ActiveRoutines(rs[1..]) else [rs[0]] + ActiveRoutines(rs[1..])
  }

  predicate ByProgramNumber(a: Routine, b: Routine) {
    a.programNumber <= b.programNumber
  }

  lemma ByProgramNumberTotal()
    ensures Sorting.TotalPreorder(ByProgramNumber)
  {
  }

  /** The active routines by program number, as sorted rows. */
  function SortedActive(rs: seq<Routine>): (r: seq<Routine>)
    ensures multiset(r) == multiset(ActiveRoutines(rs))
    ensures forall i, j | 0 <= i < j < |r| :: r[i].programNumber <= r[j].programNumber
  {
    ByProgramNumberTotal();
    Sorting.SortBy(ActiveRoutines(rs), ByProgramNumber)
  }

  /** `LoadRoutinesForGrid`: the active routines ordered by program
      number. */
  function LoadRoutinesForGrid(db: Db): (r: seq<GridRow>)
    ensures forall i, j | 0 <= i < j < |r| :: r[i].programNumber <= r[j].programNumber
  {
    var sorted := SortedActive(db.routines);
    seq(|sorted|, i requires 0 <= i < |sorted| => GridRowOf(sorted[i]))
  }

  /** Every grid row shows an active routine. */
  lemma GridRowSource(db: Db, i: nat) returns (k: nat)
    requires i < |LoadRoutinesForGrid(db)|
    ensures k < |db.routines| && !db.routines[k].isInactive
    ensures LoadRoutinesForGrid(db)[i] == GridRowOf(db.routines[k])
  {
    var sorted := SortedActive(db.routines);
    assert sorted[i] in multiset(ActiveRoutines(db.routines));
    assert sorted[i] in ActiveRoutines(db.routines);
    k :| 0 <= k < |db.routines| && db.routines[k] == sorted[i];
  }

  /** In a valid database a routine is listed exactly when it is active,
      and the program numbers strictly increase. */
  lemma GridListsActive(db: Db, x: Routine)
    requires RoutinesValid(db.routines) && x in db.routines
    ensures GridRowOf(x) in LoadRoutinesForGrid(db) <==> !x.isInactive
  {
    var r := LoadRoutinesForGrid(db);
    var sorted := SortedActive(db.routines);
    if !x.isInactive {
      assert x in ActiveRoutines(db.routines);
      assert x in multiset(sorted);
      var i :| 0 <= i < |sorted| && sorted[i] == x;
      assert r[i] == GridRowOf(x);
    }
    if GridRowOf(x) in r {
      var i :| 0 <= i < |r| && r[i] == GridRowOf(x);
      var k := GridRowSource(db, i);
      var kx :| 0 <= kx < |db.routines| && db.routines[kx] == x;
      assert db.routines[k].programNumber == x.programNumber;
      assert k == kx;
    }
  }

  lemma GridStrictlyOrdered(db: Db)
    requires RoutinesValid(db.routines)
    ensures var r := LoadRoutinesForGrid(db);
      forall i, j | 0 <= i < j < |r| :: r[i].programNumber < r[j].programNumber
  {
    var r := LoadRoutinesForGrid(db);
    var rs := db.routines;
    var sorted := SortedActive(rs);
    SortedDistinct(rs);
    forall i, j | 0 <= i < j < |r|
      ensures r[i].programNumber < r[j].programNumber
    {
      assert sorted[i] != sorted[j];
      assert sorted[i] in multiset(ActiveRoutines(rs)) && sorted[j] in multiset(ActiveRoutines(rs));
      NumbersApart(rs, sorted[i], sorted[j]);
    }
  }

  /** Two different routines of a valid table have different program
      numbers. */
  lemma NumbersApart(rs: seq<Routine>, x: Routine, y: Routine)
    requires RoutinesValid(rs)
    requires x in ActiveRoutines(rs) && y in ActiveRoutines(rs) && x != y
    ensures x.programNumber != y.programNumber
  {
    var a :| 0 <= a < |rs| && rs[a] == x;
    var b :| 0 <= b < |rs| && rs[b] == y;
    if a < b {
      assert rs[a].programNumber != rs[b].programNumber;
    } else {
      assert rs[b].programNumber != rs[a].programNumber;
    }
  }

  /** Sorting keeps the routines of a valid table apart. */
  lemma SortedDistinct(rs: seq<Routine>)
    requires RoutinesValid(rs)
    ensures Distinct(SortedActive(rs))
  {
    var sorted := SortedActive(rs);
    ActiveDistinct(rs);
    DistinctByPermutation(ActiveRoutines(rs), sorted, (x: Routine) => x);
  }

  lemma {:induction false} ActiveDistinct(rs: seq<Routine>)
    requires RoutinesValid(rs)
    ensures DistinctBy(ActiveRoutines(rs), (x: Routine) => x)
    decreases |rs|
  {
    if |rs| > 0 {
      assert RoutinesValid(rs[1..]);
      ActiveDistinct(rs[1..]);
      var t := ActiveRoutines(rs[1..]);
      if !rs[0].isInactive {
        var r := [rs[0]] + t;
        forall i, j | 0 <= i < j < |r|
          ensures r[i] != r[j]
        {
          if i == 0 {
            assert r[j] in rs[1..];
            var k :| 0 <= k < |rs[1..]| && rs[1..][k] == r[j];
            assert rs[0].routineId != rs[k + 1].routineId;
          } else {
            assert r[i] == t[i - 1] && r[j] == t[j - 1];
          }
        }
      }
    }
  }
}
