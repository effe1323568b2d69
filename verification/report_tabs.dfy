/** The solo and duet award report tabs: refreshing the report from its
    service, when the report may be exported, and the CSV text the export
    writes, with the field escaping that keeps every value one field. */
module ReportTabs {
  import opened Wrappers
  import opened Text
  import Seqs
  import Grouping
  import AwardRanking

  type AwardGroup = AwardRanking.AwardGroup
  type Entry = AwardRanking.Entry

  // ---------------------------------------------------------------------
  // CSV fields

  /** The characters that make a value quoted: comma, quote and line feed.
      A carriage return alone does not. */
  predicate NeedsQuotes(s: string) {
    ',' in s || '"' in s || '\n' in s
  }

  /** `Replace("\"", "\"\"")`: every quote doubled. */
  function DoubleQuotes(s: string): (r: string)
    ensures |r| >= |s|
    decreases |s|
  {
    if |s| == 0 then ""
    else (if s[0] == '"' then "\"\"" else [s[0]]) + DoubleQuotes(s[1..])
  }

  /** `CsvEscape`. `None` stands for null. Null and "" give ""; a value
      with a comma, quote or line feed is quoted with its quotes doubled;
      any other value is written as it is. */
  function CsvEscape(value: Option<string>): (r: string)
    ensures r == "" <==> value.None? || value == Some("")
    ensures value.Some? && !NeedsQuotes(value.value) ==> r == value.value
    ensures (|r| > 0 && r[0] == '"') <==> value.Some? && NeedsQuotes(value.value)
    ensures |r| >= |value.GetOr("")|
  {
    match value
    case None => ""
    case Some(v) =>
      if |v| == 0 then ""
      else if NeedsQuotes(v) then "\"" + DoubleQuotes(v) + "\""
      else
        assert v[0] != '"';
        v
  }

  // ---------------------------------------------------------------------
  // Reading a record back: the field grammar of section 2 of RFC 4180

  /** Reads a quoted field after its opening quote: two quotes stand for
      one, a single quote closes the field. `None` when the text ends
      before the closing quote. */
  function ReadQuoted(s: string): (r: Option<(string, string)>)
    ensures r.Some? ==> |r.value.1| < |s|
    decreases |s|
  {
    if |s| == 0 then None
    else if s[0] == '"' then
      if |s| >= 2 && s[1] == '"' then
        match ReadQuoted(s[2..])
        case None => None
        case Some((v, rest)) => Some(("\"" + v, rest))
      else Some(("", s[1..]))
    else
      match ReadQuoted(s[1..])
      case None => None
      case Some((v, rest)) => Some(([s[0]] + v, rest))
  }

  /** Reads an unquoted field: everything up to the first comma. */
  function ReadPlain(s: string): (r: (string, string))
    ensures r.0 + r.1 == s && ',' !in r.0
    ensures r.1 == "" || r.1[0] == ','
    decreases |s|
  {
    if |s| == 0 || s[0] == ',' then ("", s)
    else
      var (v, rest) := ReadPlain(s[1..]);
      ([s[0]] + v, rest)
  }

  /** Reads one field and returns it with the text after it. */
  function ReadField(s: string): (r: Option<(string, string)>)
    ensures r.Some? ==> |r.value.1| <= |s|
  {
    if |s| > 0 && s[0] == '"' then ReadQuoted(s[1..]) else Some(ReadPlain(s))
  }

  /** Reads the comma-separated fields of one record. */
  function ReadRecord(s: string): (r: Option<seq<string>>)
    ensures r.Some? ==> |r.value| >= 1
    decreases |s|
  {
    match ReadField(s)
    case None => None
    case Some((v, rest)) =>
      if rest == "" then Some([v])
      else if rest[0] != ',' then None
      else
        match ReadRecord(rest[1..])
        case None => None
        case Some(vs) => Some([v] + vs)
  }

  /** The fields of a record joined by commas. */
  function JoinComma(fs: seq<string>): (r: string)
    requires |fs| >= 1
    decreases |fs|
  {
    if |fs| == 1 then fs[0] else fs[0] + ("," + JoinComma(fs[1..]))
  }

  /** Text after a field: the end of the record or the next comma. */
  predicate FieldEnd(rest: string) {
    rest == "" || rest[0] == ','
  }

  /** A quoted field reads back as the value whose quotes were doubled. */
  lemma {:induction false} ReadQuotedDoubled(v: string, rest: string)
    requires FieldEnd(rest)
    ensures ReadQuoted(DoubleQuotes(v) + "\"" + rest) == Some((v, rest))
    decreases |v|
  {
    var s := DoubleQuotes(v) + "\"" + rest;
    if |v| == 0 {
      assert s == "\"" + rest;
      assert s[1..] == rest;
    } else {
      ReadQuotedDoubled(v[1..], rest);
      var tail := DoubleQuotes(v[1..]) + "\"" + rest;
      if v[0] == '"' {
        assert s == "\"\"" + tail;
        assert s[2..] == tail;
        assert "\"" + v[1..] == v;
      } else {
        assert s == [v[0]] + tail;
        assert s[1..] == tail;
        assert [v[0]] + v[1..] == v;
      }
    }
  }

  /** A value without commas reads back as an unquoted field. */
  lemma {:induction false} ReadPlainExact(v: string, rest: string)
    requires ',' !in v && FieldEnd(rest)
    ensures ReadPlain(v + rest) == (v, rest)
    decreases |v|
  {
    if |v| > 0 {
      ReadPlainExact(v[1..], rest);
      assert (v + rest)[1..] == v[1..] + rest;
      assert [v[0]] + v[1..] == v;
    } else {
      assert v + rest == rest;
    }
  }

  /** An escaped value reads back as itself, up to the next comma. */
  lemma EscapeReads(v: string, rest: string)
    requires FieldEnd(rest)
    ensures ReadField(CsvEscape(Some(v)) + rest) == Some((v, rest))
  {
    var s := CsvEscape(Some(v)) + rest;
    if |v| == 0 {
      assert s == rest;
      ReadPlainExact("", rest);
    } else if NeedsQuotes(v) {
      assert s == "\"" + (DoubleQuotes(v) + "\"" + rest);
      assert s[1..] == DoubleQuotes(v) + "\"" + rest;
      ReadQuotedDoubled(v, rest);
    } else {
      ReadPlainExact(v, rest);
    }
  }

  /** The values, each escaped. */
  function Escaped(vs: seq<string>): (r: seq<string>)
    ensures |r| == |vs| && forall i | 0 <= i < |vs| :: r[i] == CsvEscape(Some(vs[i]))
  {
    seq(|vs|, i requires 0 <= i < |vs| => CsvEscape(Some(vs[i])))
  }

  /** A record of escaped values reads back as the values: escaping keeps
      every value one field, whatever it contains. */
  lemma {:induction false} RecordRoundTrip(vs: seq<string>)
    requires |vs| >= 1
    ensures ReadRecord(JoinComma(Escaped(vs))) == Some(vs)
    decreases |vs|
  {
    var es := Escaped(vs);
    if |vs| == 1 {
      EscapeReads(vs[0], "");
      assert JoinComma(es) == es[0] && es[0] + "" == es[0];
      assert vs == [vs[0]];
    } else {
      var rest := "," + JoinComma(es[1..]);
      EscapeReads(vs[0], rest);
      assert JoinComma(es) == es[0] + rest;
      assert es[1..] == Escaped(vs[1..]);
      RecordRoundTrip(vs[1..]);
      assert rest[1..] == JoinComma(es[1..]);
      assert [vs[0]] + vs[1..] == vs;
    }
  }

  /** Null and "" are written alike, so a null value reads back as "". */
  lemma NullReadsAsEmpty(rest: string)
    requires FieldEnd(rest)
    ensures ReadField(CsvEscape(None) + rest) == Some(("", rest))
  {
    EscapeReads("", rest);
  }

  /** A value with only a carriage return is written bare. */
  lemma CarriageReturnNotQuoted()
    ensures CsvEscape(Some("a\rb")) == "a\rb"
  {
    assert !NeedsQuotes("a\rb");
  }

  // ---------------------------------------------------------------------
  // The exported text

  /** The column names of the export. */
  const ColumnNames: seq<string> :=
    ["Bucket", "Class", "Place", "Score", "Program#", "Participants", "Studio", "Routine"]

  /** The header line of the export, written field by field. */
  const CsvHeader: string :=
    "Bucket" + ("," + ("Class" + ("," + ("Place" + ("," + ("Score" + ("," + ("Program#" + ("," +
    ("Participants" + ("," + ("Studio" + ("," + "Routine")))))))))))))

  /** The header is the column names joined by commas. */
  lemma HeaderJoined()
    ensures JoinComma(ColumnNames) == CsvHeader
  {
    var c := ColumnNames;
    assert c[7..] == ["Routine"];
    assert c[6..] == [c[6]] + c[7..];
    JoinCommaCons(c[6], c[7..]);
    assert c[5..] == [c[5]] + c[6..];
    JoinCommaCons(c[5], c[6..]);
    assert c[4..] == [c[4]] + c[5..];
    JoinCommaCons(c[4], c[5..]);
    assert c[3..] == [c[3]] + c[4..];
    JoinCommaCons(c[3], c[4..]);
    assert c[2..] == [c[2]] + c[3..];
    JoinCommaCons(c[2], c[3..]);
    assert c[1..] == [c[1]] + c[2..];
    JoinCommaCons(c[1], c[2..]);
    assert c == [c[0]] + c[1..];
    JoinCommaCons(c[0], c[1..]);
  }

  /** The column names are written bare. */
  lemma NamesPlain()
    ensures Escaped(ColumnNames) == ColumnNames
  {
    forall i | 0 <= i < |ColumnNames|
      ensures !NeedsQuotes(ColumnNames[i])
    {
      NamePlain(i);
    }
    PlainEscaped(ColumnNames);
  }

  lemma NamePlain(i: nat)
    requires i < |ColumnNames|
    ensures !NeedsQuotes(ColumnNames[i])
  {
    if i < 4 {
      PlainNames(ColumnNames[..4]);
      assert ColumnNames[i] == ColumnNames[..4][i];
    } else {
      PlainNames(ColumnNames[4..]);
      assert ColumnNames[i] == ColumnNames[4..][i - 4];
    }
  }

  /** A name of letters and `#` needs no quotes. */
  lemma PlainNames(ns: seq<string>)
    requires ns == ["Bucket", "Class", "Place", "Score"] || ns == ["Program#", "Participants", "Studio", "Routine"]
    ensures forall i | 0 <= i < |ns| :: !NeedsQuotes(ns[i])
  {
  }

  /** Values that need no quotes are written as they are. */
  lemma PlainEscaped(vs: seq<string>)
    requires forall i | 0 <= i < |vs| :: !NeedsQuotes(vs[i])
    ensures Escaped(vs) == vs
  {
  }

  /** The header reads back as the eight column names. */
  lemma HeaderReads()
    ensures ReadRecord(CsvHeader) == Some(ColumnNames) && |ColumnNames| == 8
  {
    NamesPlain();
    RecordRoundTrip(ColumnNames);
    HeaderJoined();
  }

  /** Joining a record of more than one field puts its first field, a
      comma, and the rest. */
  lemma JoinCommaCons(f: string, fs: seq<string>)
    requires |fs| >= 1
    ensures JoinComma([f] + fs) == f + ("," + JoinComma(fs))
  {
    assert ([f] + fs)[1..] == fs;
  }

  /** The fields of an entry's line: the group's bucket and class, the
      place, the score as `fmt` (`F2`) writes it, the program number, the
      participants, the studio and the routine title. */
  function EntryFields(g: AwardGroup, e: Entry, fmt: real -> string): (r: seq<string>)
    ensures |r| == |ColumnNames|
  {
    [CsvEscape(Some(g.bucket)), CsvEscape(Some(g.cls)), IntToString(e.place), fmt(e.finalScore),
     IntToString(e.programNumber), CsvEscape(e.participants), CsvEscape(e.studioName),
     CsvEscape(Some(e.routineTitle))]
  }

  function EntryLine(g: AwardGroup, e: Entry, fmt: real -> string): string {
    JoinComma(EntryFields(g, e, fmt))
  }

  /** Integers are written as bare fields. */
  lemma IntToStringPlain(n: int)
    ensures |IntToString(n)| > 0 && !NeedsQuotes(IntToString(n))
    ensures CsvEscape(Some(IntToString(n))) == IntToString(n)
  {
    var d := NatToString(if n < 0 then -n else n);
    assert forall i | 0 <= i < |d| :: '0' <= d[i] <= '9';
    if n < 0 {
      assert IntToString(n) == "-" + d;
      assert forall i | 1 <= i < |IntToString(n)| :: IntToString(n)[i] == d[i - 1];
    }
  }

  /** An entry's line reads back as its eight values, provided the
      formatted score is a bare field; a null participant or studio reads
      back as "". */
  lemma EntryLineReads(g: AwardGroup, e: Entry, fmt: real -> string)
    requires |fmt(e.finalScore)| > 0 && !NeedsQuotes(fmt(e.finalScore))
    ensures ReadRecord(EntryLine(g, e, fmt)) ==
      Some([g.bucket, g.cls, IntToString(e.place), fmt(e.finalScore), IntToString(e.programNumber),
            e.participants.GetOr(""), e.studioName.GetOr(""), e.routineTitle])
  {
    var vs := [g.bucket, g.cls, IntToString(e.place), fmt(e.finalScore), IntToString(e.programNumber),
               e.participants.GetOr(""), e.studioName.GetOr(""), e.routineTitle];
    FieldsEscaped(g, e, fmt);
    RecordRoundTrip(vs);
  }

  /** With a bare score field, an entry's fields are its values escaped. */
  lemma FieldsEscaped(g: AwardGroup, e: Entry, fmt: real -> string)
    requires !NeedsQuotes(fmt(e.finalScore))
    ensures EntryFields(g, e, fmt) ==
      Escaped([g.bucket, g.cls, IntToString(e.place), fmt(e.finalScore), IntToString(e.programNumber),
               e.participants.GetOr(""), e.studioName.GetOr(""), e.routineTitle])
  {
    var vs := [g.bucket, g.cls, IntToString(e.place), fmt(e.finalScore), IntToString(e.programNumber),
               e.participants.GetOr(""), e.studioName.GetOr(""), e.routineTitle];
    IntToStringPlain(e.place);
    IntToStringPlain(e.programNumber);
    NullEscapesEmpty(e.participants);
    NullEscapesEmpty(e.studioName);
  }

  /** Null escapes as the empty value does. */
  lemma NullEscapesEmpty(v: Option<string>)
    ensures CsvEscape(v) == CsvEscape(Some(v.GetOr("")))
  {
  }

  /** Splitting one field at a comma gives the same text as the two
      halves as fields of their own. */
  lemma {:induction false} JoinSplit(a: seq<string>, x: string, y: string, b: seq<string>)
    ensures JoinComma(a + [x + "," + y] + b) == JoinComma(a + [x, y] + b)
    decreases |a|
  {
    if |a| == 0 {
      assert a + [x + "," + y] + b == [x + "," + y] + b;
      assert a + [x, y] + b == [x] + ([y] + b);
      JoinCommaCons(x, [y] + b);
      if |b| > 0 {
        JoinCommaCons(x + "," + y, b);
        JoinCommaCons(y, b);
      } else {
        assert [x + "," + y] + b == [x + "," + y];
        assert [y] + b == [y];
      }
    } else {
      JoinSplit(a[1..], x, y, b);
      JoinCommaCons(a[0], a[1..] + [x + "," + y] + b);
      JoinCommaCons(a[0], a[1..] + [x, y] + b);
      assert a + [x + "," + y] + b == [a[0]] + (a[1..] + [x + "," + y] + b);
      assert a + [x, y] + b == [a[0]] + (a[1..] + [x, y] + b);
    }
  }

  /** A score written with a comma, as `F2` writes it under a culture whose
      decimal separator is a comma, reads back as two fields: the line
      has nine. */
  lemma CommaScoreSplits(g: AwardGroup, e: Entry, fmt: real -> string, x: string, y: string)
    requires fmt(e.finalScore) == x + "," + y && !NeedsQuotes(x) && !NeedsQuotes(y)
    ensures ReadRecord(EntryLine(g, e, fmt)) ==
      Some([g.bucket, g.cls, IntToString(e.place), x, y, IntToString(e.programNumber),
            e.participants.GetOr(""), e.studioName.GetOr(""), e.routineTitle])
  {
    var vs := [g.bucket, g.cls, IntToString(e.place), x, y, IntToString(e.programNumber),
               e.participants.GetOr(""), e.studioName.GetOr(""), e.routineTitle];
    CommaFields(g, e, fmt, x, y);
    JoinSplit(Escaped(vs[..3]), x, y, Escaped(vs[5..]));
    RecordRoundTrip(vs);
  }

  /** With a comma score, an entry's fields are its values escaped with the
      score's two halves joined into one field. */
  lemma CommaFields(g: AwardGroup, e: Entry, fmt: real -> string, x: string, y: string)
    requires fmt(e.finalScore) == x + "," + y && !NeedsQuotes(x) && !NeedsQuotes(y)
    ensures var vs := [g.bucket, g.cls, IntToString(e.place), x, y, IntToString(e.programNumber),
                       e.participants.GetOr(""), e.studioName.GetOr(""), e.routineTitle];
      EntryFields(g, e, fmt) == Escaped(vs[..3]) + [x + "," + y] + Escaped(vs[5..])
      && Escaped(vs[..3]) + [x, y] + Escaped(vs[5..]) == Escaped(vs)
  {
    IntToStringPlain(e.place);
    IntToStringPlain(e.programNumber);
    NullEscapesEmpty(e.participants);
    NullEscapesEmpty(e.studioName);
  }

  /** The lines of one group, in entry order. */
  function GroupLines(g: AwardGroup, fmt: real -> string): (r: seq<string>)
    ensures |r| == |g.entries| && forall i | 0 <= i < |r| :: r[i] == EntryLine(g, g.entries[i], fmt)
  {
    seq(|g.entries|, i requires 0 <= i < |g.entries| => EntryLine(g, g.entries[i], fmt))
  }

  /** The entry lines of the groups, group after group. */
  function AllLines(groups: seq<AwardGroup>, fmt: real -> string): (r: seq<string>)
    decreases |groups|
  {
    if |groups| == 0 then [] else GroupLines(groups[0], fmt) + AllLines(groups[1..], fmt)
  }

  /** The number of entries of the groups. */
  function EntryCount(groups: seq<AwardGroup>): nat
    decreases |groups|
  {
    if |groups| == 0 then 0 else |groups[0].entries| + EntryCount(groups[1..])
  }

  /** `ExportToCsv`, as the lines it appends. */
  function ExportLines(groups: seq<AwardGroup>, fmt: real -> string): seq<string> {
    [CsvHeader] + AllLines(groups, fmt)
  }

  /** There is one line per entry, and entry `e` of group `g` is on the line
      after the header and the entries of the groups before `g`. */
  lemma AllLinesAt(groups: seq<AwardGroup>, fmt: real -> string, g: nat, e: nat)
    requires g < |groups| && e < |groups[g].entries|
    ensures |AllLines(groups, fmt)| == EntryCount(groups)
    ensures EntryCount(groups[..g]) + e < EntryCount(groups)
    ensures AllLines(groups, fmt)[EntryCount(groups[..g]) + e] == EntryLine(groups[g], groups[g].entries[e], fmt)
  {
    var ls := LinesPerGroup(groups, fmt);
    AllLinesConcat(groups, fmt);
    AllLinesConcat(groups[..g], fmt);
    assert LinesPerGroup(groups[..g], fmt) == ls[..g];
    Seqs.ConcatAt(ls, g, e);
  }

  /** The lines of each group. */
  function LinesPerGroup(groups: seq<AwardGroup>, fmt: real -> string): (r: seq<seq<string>>)
    ensures |r| == |groups| && forall i | 0 <= i < |r| :: r[i] == GroupLines(groups[i], fmt)
  {
    seq(|groups|, i requires 0 <= i < |groups| => GroupLines(groups[i], fmt))
  }

  /** The export's entry lines are the groups' lines one after another, as
      many as there are entries. */
  lemma {:induction false} AllLinesConcat(groups: seq<AwardGroup>, fmt: real -> string)
    ensures AllLines(groups, fmt) == Seqs.Concat(LinesPerGroup(groups, fmt))
    ensures EntryCount(groups) == Seqs.TotalLength(LinesPerGroup(groups, fmt))
    decreases |groups|
  {
    if |groups| > 0 {
      var ls := LinesPerGroup(groups, fmt);
      AllLinesConcat(groups[1..], fmt);
      assert ls[1..] == LinesPerGroup(groups[1..], fmt);
    }
  }

  lemma {:induction false} LinesCount(groups: seq<AwardGroup>, fmt: real -> string)
    ensures |AllLines(groups, fmt)| == EntryCount(groups)
    decreases |groups|
  {
    if |groups| > 0 {
      LinesCount(groups[1..], fmt);
    }
  }

  /** The export is the header and then exactly one line per entry, in
      group then entry order. */
  lemma ExportLinesShape(groups: seq<AwardGroup>, fmt: real -> string, g: nat, e: nat)
    requires g < |groups| && e < |groups[g].entries|
    ensures |ExportLines(groups, fmt)| == 1 + EntryCount(groups) && ExportLines(groups, fmt)[0] == CsvHeader
    ensures EntryCount(groups[..g]) + e < EntryCount(groups)
    ensures ExportLines(groups, fmt)[1 + EntryCount(groups[..g]) + e] == EntryLine(groups[g], groups[g].entries[e], fmt)
  {
    AllLinesAt(groups, fmt, g, e);
    var n := EntryCount(groups[..g]) + e;
    Seqs.ConsAt(CsvHeader, AllLines(groups, fmt), n + 1);
  }

  // ---------------------------------------------------------------------
  // The tab's state

  /** Which of the two tabs: they differ only in their warning text and in
      the duet tab's grouping by bucket. */
  datatype ReportKind = SoloReport | DuetReport

  /** The warning shown when the report has no group. */
  function NoDataWarning(kind: ReportKind): (r: string)
    ensures !IsNullOrWhiteSpace(Some(r))
  {
    var (word, name) := match kind
      case SoloReport => ("solo", "Solo")
      case DuetReport => ("duet", "Duet");
    var r := "No " + word + " routines found with scores. Please ensure routines are marked as '"
      + name + "' and have been scored.";
    assert !IsWhiteSpace(r[0]);
    r
  }

  /** `IsLoading`, `ErrorMessage`, `WarningMessage` and `Report`; `None`
      stands for null. */
  datatype TabState = TabState(
    isLoading: bool,
    errorMessage: Option<string>,
    warningMessage: Option<string>,
    report: Option<seq<AwardGroup>>)

  /** What the report service's `GenerateReportAsync` did. */
  datatype ServiceResult = Generated(groups: seq<AwardGroup>) | Threw(message: string)

  predicate HasError(st: TabState) {
    !IsNullOrWhiteSpace(st.errorMessage)
  }

  predicate HasWarning(st: TabState) {
    !IsNullOrWhiteSpace(st.warningMessage)
  }

  predicate HasData(st: TabState) {
    st.report.Some? && |st.report.value| > 0
  }

  predicate CanExportCsv(st: TabState) {
    HasData(st) && !st.isLoading
  }

  /** The state while the service runs: loading, both messages cleared,
      the old report still shown. */
  function BeginRefresh(st: TabState): (r: TabState)
    ensures r.isLoading && !CanExportCsv(r) && !HasError(r) && !HasWarning(r) && r.report == st.report
  {
    st.(isLoading := true, errorMessage := None, warningMessage := None)
  }

  /** `RefreshAsync`: on success the report is the result, with the
      no-data warning when it has no group; on failure the report is
      dropped and the error names the exception's message. */
  function Refresh(st: TabState, kind: ReportKind, res: ServiceResult): (r: TabState)
    ensures !r.isLoading
    ensures res.Generated? ==>
      r.report == Some(res.groups) && r.errorMessage.None? && (r.warningMessage.Some? <==> |res.groups| == 0)
    ensures res.Threw? ==> r.report.None? && r.warningMessage.None? && r.errorMessage.Some?
  {
    var s := BeginRefresh(st);
    match res
    case Generated(gs) =>
      var s' := s.(report := Some(gs));
      var s'' := if |gs| == 0 then s'.(warningMessage := Some(NoDataWarning(kind))) else s';
      s''.(isLoading := false)
    case Threw(m) =>
      s.(errorMessage := Some("Failed to load report: " + m), report := None).(isLoading := false)
  }

  /** After a refresh exactly one of three holds: the report can be
      exported, a warning is shown, or an error is shown. Export is
      possible exactly when the service returned at least one group. */
  lemma RefreshOutcome(st: TabState, kind: ReportKind, res: ServiceResult)
    ensures var r := Refresh(st, kind, res);
      (CanExportCsv(r) <==> res.Generated? && |res.groups| > 0)
      && (HasWarning(r) <==> res.Generated? && |res.groups| == 0)
      && (HasError(r) <==> res.Threw?)
  {
    var r := Refresh(st, kind, res);
    if res.Threw? {
      assert r.errorMessage.value[0] == 'F';
      assert !IsWhiteSpace(r.errorMessage.value[0]);
    }
    if res.Generated? && |res.groups| == 0 {
      assert r.warningMessage == Some(NoDataWarning(kind));

      assert !IsWhiteSpace(r.warningMessage.value[0]);
    }
  }

  /** The state after a refresh depends only on the service's result, not
      on what the tab showed before. */
  lemma RefreshForgets(a: TabState, b: TabState, kind: ReportKind, res: ServiceResult)
    ensures Refresh(a, kind, res) == Refresh(b, kind, res)
  {
  }

  /** `ExportCsv` past its dialog: nothing without a report or an open
      event; otherwise the report's lines. It does not consult
      `CanExportCsv`. */
  function ExportCsv(st: TabState, eventLoaded: bool, fmt: real -> string): (r: Option<seq<string>>)
    ensures r.Some? <==> st.report.Some? && eventLoaded
    ensures r.Some? ==> |r.value| == 1 + EntryCount(st.report.value) && r.value[0] == CsvHeader
  {
    if st.report.None? || !eventLoaded then None
    else
      LinesCount(st.report.value, fmt);
      Some(ExportLines(st.report.value, fmt))
  }

  /** A report without groups exports the header line alone. */
  lemma EmptyReportExportsHeader(st: TabState, fmt: real -> string)
    requires st.report == Some([])
    ensures ExportCsv(st, true, fmt) == Some([CsvHeader])
  {
    assert AllLines([], fmt) == [];
    assert [CsvHeader] + [] == [CsvHeader];
  }

  /** The duet tab's `GroupedByBucket`: the report's groups by bucket, in
      order of first occurrence; nothing without a report. */
  function GroupedByBucket(st: TabState): (r: seq<Grouping.Group<string, AwardGroup>>)
    ensures st.report.None? ==> r == []
  {
    match st.report
    case None => []
    case Some(gs) => Grouping.GroupBy(gs, (g: AwardGroup) => g.bucket)
  }

  /** Every group of the report lies in exactly the bucket group of its
      bucket, bucket groups have distinct buckets and none is empty. */
  lemma GroupedByBucketPartition(st: TabState)
    requires st.report.Some?
    ensures var bs := GroupedByBucket(st); var gs := st.report.value;
      (forall a, b | 0 <= a < b < |bs| :: bs[a].key != bs[b].key)
      && (forall a | 0 <= a < |bs| :: |bs[a].items| > 0)
      && (forall a, i | 0 <= a < |bs| && 0 <= i < |gs| :: (gs[i] in bs[a].items <==> gs[i].bucket == bs[a].key))
      && (forall i | 0 <= i < |gs| :: exists a :: 0 <= a < |bs| && bs[a].key == gs[i].bucket)
  {
    Grouping.GroupByPartition(st.report.value, (g: AwardGroup) => g.bucket, GroupedByBucket(st));
  }
}
