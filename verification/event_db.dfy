/** The tables of an event database that the scoring and import code reads
    and writes, as immutable values. A table is a sequence in row order. The
    model assumes that a query without ORDER BY returns rows in that order;
    SQL leaves the order unspecified. */
module EventDb {
  import opened Wrappers

  /** A row of `Routine`. Nullable columns are `Option`s. */
  datatype Routine = Routine(
    routineId: string,
    programNumber: int,
    startTimeText: Option<string>,
    entryTypeRaw: string,
    category: Option<string>,
    cls: Option<string>,
    studioName: Option<string>,
    routineTitle: string,
    participantsRaw: Option<string>,
    fingerprint: string,
    isInactive: bool)

  /** A row of `RoutineScoreCell`, keyed by routine, sheet, judge and
      criterion. */
  datatype CellRow = CellRow(routineId: string, sheetKey: string, judgeIndex: int, criterionKey: string, value: Option<real>)

  datatype CellKey = CellKey(routineId: string, sheetKey: string, judgeIndex: int, criterionKey: string)

  function KeyOf(c: CellRow): CellKey {
    CellKey(c.routineId, c.sheetKey, c.judgeIndex, c.criterionKey)
  }

  /** A row of `RoutineScoreStatus`, keyed by routine. */
  datatype Status = Status(isScored: bool, lastSheetKey: Option<string>)

  /** A row of `Participant`. */
  datatype Participant = Participant(participantId: string, displayName: string, normalizedName: string)

  /** A row of `RoutineParticipant`, keyed by routine and participant. */
  datatype Link = Link(routineId: string, participantId: string, sortOrder: int)

  datatype Db = Db(
    routines: seq<Routine>,
    participants: seq<Participant>,
    links: seq<Link>,
    cells: seq<CellRow>,
    status: map<string, Status>,
    programLocked: bool)

  /** The errors the database reports to these operations. */
  datatype DbError =
    | ForeignKeyViolation
    | UniqueViolation(index: string)

  predicate HasRoutine(db: Db, routineId: string) {
    exists i :: 0 <= i < |db.routines| && db.routines[i].routineId == routineId
  }

  /** `PK_Routine`, `UX_Routine_Fingerprint` and `UX_Routine_ProgramNumber`. */
  predicate RoutinesValid(rs: seq<Routine>) {
    forall i, j | 0 <= i < j < |rs| ::
      rs[i].routineId != rs[j].routineId
      && rs[i].fingerprint != rs[j].fingerprint
      && rs[i].programNumber != rs[j].programNumber
  }

  /** `PK_Participant` and `UX_Participant_NormalizedName`. */
  predicate ParticipantsValid(ps: seq<Participant>) {
    forall i, j | 0 <= i < j < |ps| ::
      ps[i].participantId != ps[j].participantId
      && ps[i].normalizedName != ps[j].normalizedName
  }

  /** `PK_RoutineParticipant`: one link per routine and participant. */
  predicate LinksValid(ls: seq<Link>) {
    forall i, j | 0 <= i < j < |ls| ::
      (ls[i].routineId, ls[i].participantId) != (ls[j].routineId, ls[j].participantId)
  }

  /** The primary key of `RoutineScoreCell`. */
  predicate CellsValid(cs: seq<CellRow>) {
    forall i, j | 0 <= i < j < |cs| :: KeyOf(cs[i]) != KeyOf(cs[j])
  }

  /** The primary keys and unique indexes the schema declares. */
  predicate Valid(db: Db) {
    RoutinesValid(db.routines)
    && ParticipantsValid(db.participants)
    && LinksValid(db.links)
    && CellsValid(db.cells)
  }
}
