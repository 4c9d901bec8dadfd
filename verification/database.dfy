/**
 The application tracker's table operations, with the spreadsheet taken as an
 in-memory sequence of rows: building a row for a new application and its
 date-and-count based ID, appending it, updating the status (and notes and
 response date) of the rows with a given ID, registering a tailored resume
 version, and selecting the rows with a given status.

 The current date and time are parameters; reading and writing the workbook
 is not modelled.
 */
module Database {
  import Text
  import Seqs
  import Calendar
  import Tailor
  import opened Results

  datatype Row = Row(
    applicationId: string,
    dateApplied: string,
    company: string,
    jobTitle: string,
    jobUrl: string,
    location: string,
    status: string,
    resumeVersion: string,
    resumePath: string,
    coverLetterUsed: string,
    tailoringScore: int,
    keyMatches: string,
    responseDate: string,
    responseType: string,
    interviewDate: string,
    notes: string,
    followUpDate: string)

  /** The caller's dictionary; optional keys may be absent. */
  datatype ApplicationData = ApplicationData(
    company: string,
    jobTitle: string,
    jobUrl: string,
    location: Option<string>,
    resumeVersion: string,
    resumePath: string,
    coverLetterUsed: Option<bool>,
    tailoringScore: Option<int>,
    keyMatches: Option<seq<string>>,
    notes: Option<string>)

  const AppliedStatus: string := "Applied"
  const ResponseReceived: string := "Response Received"
  /** Length of "APP_" + "%Y%m%d" + "_", after which the row number starts. */
  const IdNumberStart: nat := 13

  /** `f"APP_{%Y%m%d}_{len(df) + 1:04d}"`. */
  function ApplicationId(today: Calendar.Date, rowCount: nat): (id: string)
    requires Calendar.ValidDate(today)
    ensures |id| == IdNumberStart + Text.PaddedWidth(rowCount + 1, 4)
    ensures rowCount + 1 < 10000 ==> |id| == IdNumberStart + 4
    ensures id[..4] == "APP_" && id[4..12] == Calendar.CompactDate(today) && id[12] == '_'
    ensures IdNumberIs(id, rowCount + 1)
  {
    var date := Calendar.CompactDate(today);
    var number := Text.ZeroPadded(rowCount + 1, 4);
    assert Text.Pow10(4) == 10000;
    IdSlices(date, number);
    "APP_" + date + "_" + number
  }

  lemma IdSlices(date: string, number: string)
    requires |date| == 8
    ensures var id := "APP_" + date + "_" + number;
      && |id| == IdNumberStart + |number|
      && id[..4] == "APP_" && id[4..12] == date && id[12] == '_' && id[IdNumberStart..] == number
  {
    var id := "APP_" + date + "_" + number;
    assert id == ("APP_" + date + "_") + number;
    assert ("APP_" + date + "_")[4..12] == date;
  }

  /** The digits after the date part of an ID read as `n`. */
  predicate IdNumberIs(id: string, n: nat) {
    |id| >= IdNumberStart && Text.AllDigits(id[IdNumberStart..]) && Text.ParseNat(id[IdNumberStart..]) == n
  }

  /** An ID determines both the day and the row count it was made from. */
  lemma ApplicationIdInjective(d: Calendar.Date, m: nat, e: Calendar.Date, n: nat)
    requires Calendar.ValidDate(d) && Calendar.ValidDate(e)
    ensures ApplicationId(d, m) == ApplicationId(e, n) <==> d == e && m == n
  {
    if ApplicationId(d, m) == ApplicationId(e, n) {
      Calendar.CompactDateInjective(d, e);
    }
  }

  /** A row has no response, interview or follow-up recorded yet. */
  predicate AwaitingResponse(row: Row) {
    row.status == AppliedStatus && row.responseDate == "" && row.responseType == ""
    && row.interviewDate == "" && row.followUpDate == ""
  }

  /** Key matches are stored as one cell, joined with this separator. */
  const KeyMatchSeparator: string := ", "

  /** The row `add_application` builds, with the defaults for absent optional keys. */
  function NewRow(data: ApplicationData, today: Calendar.Date, rowCount: nat): (row: Row)
    requires Calendar.ValidDate(today)
    ensures AwaitingResponse(row)
    ensures row.applicationId == ApplicationId(today, rowCount)
    ensures row.dateApplied == Calendar.IsoDate(today)
    ensures row.company == data.company && row.jobTitle == data.jobTitle && row.jobUrl == data.jobUrl
    ensures row.resumeVersion == data.resumeVersion && row.resumePath == data.resumePath
    ensures row.coverLetterUsed == "Yes" <==> data.coverLetterUsed == Some(true)
    ensures row.coverLetterUsed == "Yes" || row.coverLetterUsed == "No"
    ensures row.location == (if data.location.Some? then data.location.value else "")
    ensures row.tailoringScore == (if data.tailoringScore.Some? then data.tailoringScore.value else 0)
    ensures row.notes == (if data.notes.Some? then data.notes.value else "")
    ensures data.keyMatches.None? || data.keyMatches == Some([]) ==> row.keyMatches == ""
    ensures data.keyMatches.Some? ==> row.keyMatches == Text.Join(data.keyMatches.value, KeyMatchSeparator)
  {
    Row(
      applicationId := ApplicationId(today, rowCount),
      dateApplied := Calendar.IsoDate(today),
      company := data.company,
      jobTitle := data.jobTitle,
      jobUrl := data.jobUrl,
      location := data.location.GetOr(""),
      status := AppliedStatus,
      resumeVersion := data.resumeVersion,
      resumePath := data.resumePath,
      coverLetterUsed := if data.coverLetterUsed == Some(true) then "Yes" else "No",
      tailoringScore := data.tailoringScore.GetOr(0),
      keyMatches := Text.Join(data.keyMatches.GetOr([]), KeyMatchSeparator),
      responseDate := "",
      responseType := "",
      interviewDate := "",
      notes := data.notes.GetOr(""),
      followUpDate := "")
  }

  /** Appends the new row and returns the table with the new ID. */
  function AddApplication(db: seq<Row>, data: ApplicationData, today: Calendar.Date): (r: (seq<Row>, string))
    requires Calendar.ValidDate(today)
    ensures |r.0| == |db| + 1 && r.0[..|db|] == db
    ensures r.0[|db|] == NewRow(data, today, |db|) && r.1 == r.0[|db|].applicationId
    ensures IdNumberIs(r.1, |r.0|)
  {
    var row := NewRow(data, today, |db|);
    (db + [row], row.applicationId)
  }

  /** Row `i` carries number `i + 1` in its ID, as every table built by `AddApplication` does. */
  predicate NumberedIds(db: seq<Row>) {
    forall i :: 0 <= i < |db| ==> IdNumberIs(db[i].applicationId, i + 1)
  }

  lemma AddApplicationKeepsNumbering(db: seq<Row>, data: ApplicationData, today: Calendar.Date)
    requires Calendar.ValidDate(today) && NumberedIds(db)
    ensures NumberedIds(AddApplication(db, data, today).0)
  {
    var r := AddApplication(db, data, today);
    assert r.0 == db + [r.0[|db|]];
    AppendNumbered(db, r.0[|db|]);
  }

  lemma AppendNumbered(db: seq<Row>, row: Row)
    requires NumberedIds(db) && IdNumberIs(row.applicationId, |db| + 1)
    ensures NumberedIds(db + [row])
  {
    forall i | 0 <= i < |db| + 1 ensures IdNumberIs((db + [row])[i].applicationId, i + 1) {
      if i < |db| {
        assert (db + [row])[i] == db[i];
      }
    }
  }

  /** In a numbered table no two rows share an ID. */
  lemma NumberedIdsDistinct(db: seq<Row>, i: int, j: int)
    requires NumberedIds(db) && 0 <= i < |db| && 0 <= j < |db| && i != j
    ensures db[i].applicationId != db[j].applicationId
  {
    assert IdNumberIs(db[i].applicationId, i + 1);
    assert IdNumberIs(db[j].applicationId, j + 1);
  }

  datatype DbError = IndexError

  /** Position of the first row with the given ID (`.values[0]` of the selection). */
  function FirstMatch(db: seq<Row>, appId: string): (r: Option<nat>)
    ensures r.Some? ==> (r.value < |db| && db[r.value].applicationId == appId
      && forall j :: 0 <= j < r.value ==> db[j].applicationId != appId)
    ensures r.None? <==> forall j :: 0 <= j < |db| ==> db[j].applicationId != appId
  {
    if |db| == 0 then None
    else if db[0].applicationId == appId then Some(0)
    else match FirstMatch(db[1..], appId)
      case None => None
      case Some(k) => Some(k + 1)
  }

  /** The two rows differ at most in Status, Notes and Response_Date. */
  predicate SameOutsideUpdate(a: Row, b: Row) {
    a.(status := b.status, notes := b.notes, responseDate := b.responseDate) == b
  }

  /** `f"{old}\n{%Y-%m-%d}: {notes}"`: the earlier notes are kept as a prefix and the new note closes the text. */
  function AppendNote(previous: string, today: Calendar.Date, notes: string): (r: string)
    requires Calendar.ValidDate(today)
    ensures |r| == |previous| + 13 + |notes|
    ensures r[..|previous|] == previous && r[|r| - |notes|..] == notes
    ensures r[|previous|] == '\n'
    ensures r[|previous| + 1..|previous| + 11] == Calendar.IsoDate(today)
    ensures r[|previous| + 11..|previous| + 13] == ": "
  {
    NoteSlices(previous, Calendar.IsoDate(today), notes);
    previous + ("\n" + Calendar.IsoDate(today) + ": ") + notes
  }

  lemma NoteSlices(previous: string, date: string, notes: string)
    requires |date| == 10
    ensures var r := previous + ("\n" + date + ": ") + notes;
      && |r| == |previous| + 13 + |notes|
      && r[..|previous|] == previous && r[|r| - |notes|..] == notes
      && r[|previous|] == '\n' && r[|previous| + 1..|previous| + 11] == date
      && r[|previous| + 11..|previous| + 13] == ": "
  {
    var stamp := "\n" + date + ": ";
    assert |stamp| == 13 && stamp[1..11] == date && stamp[11..] == ": ";
    var r := previous + stamp + notes;
    assert r[|previous|..|previous| + 13] == stamp;
  }

  /** One selected row after the update: new status, possibly new notes, and the response date when one was received. */
  function UpdatedRow(row: Row, status: string, notes: string, stampedNotes: string, today: Calendar.Date): (r: Row)
    requires Calendar.ValidDate(today)
    ensures r.status == status && SameOutsideUpdate(r, row)
    ensures r.responseDate == (if status == ResponseReceived then Calendar.IsoDate(today) else row.responseDate)
    ensures r.notes == (if notes == "" then row.notes else stampedNotes)
  {
    row.(status := status,
         notes := if notes != "" then stampedNotes else row.notes,
         responseDate := if status == ResponseReceived then Calendar.IsoDate(today) else row.responseDate)
  }

  /** Every row with the ID replaced by its updated version, the others untouched. */
  function UpdateRows(db: seq<Row>, appId: string, status: string, notes: string, stamped: string, today: Calendar.Date): (r: seq<Row>)
    requires Calendar.ValidDate(today)
    ensures |r| == |db|
    ensures forall i :: 0 <= i < |db| ==>
      r[i] == (if db[i].applicationId == appId then UpdatedRow(db[i], status, notes, stamped, today) else db[i])
  {
    seq(|db|, i requires 0 <= i < |db| =>
      if db[i].applicationId == appId then UpdatedRow(db[i], status, notes, stamped, today) else db[i])
  }

  /**
   `update_status`: every row with ID `appId` gets the new status; non-empty
   notes are appended to the first such row's notes (with the date) and the
   result is written to all of them; "Response Received" stamps the response
   date. Non-empty notes with no matching row fail with `IndexError`.
   */
  function UpdateStatus(db: seq<Row>, appId: string, status: string, notes: string, today: Calendar.Date): (r: Result<seq<Row>, DbError>)
    requires Calendar.ValidDate(today)
    ensures r.Err? <==> notes != "" && forall i :: 0 <= i < |db| ==> db[i].applicationId != appId
    ensures r.Ok? ==> |r.value| == |db|
    ensures r.Ok? ==> forall i :: 0 <= i < |db| && db[i].applicationId != appId ==> r.value[i] == db[i]
    ensures r.Ok? ==> forall i :: 0 <= i < |db| && db[i].applicationId == appId ==>
      && r.value[i].status == status
      && SameOutsideUpdate(r.value[i], db[i])
      && r.value[i].responseDate == (if status == ResponseReceived then Calendar.IsoDate(today) else db[i].responseDate)
      && (notes == "" ==> r.value[i].notes == db[i].notes)
    ensures r.Ok? && notes != "" ==> (FirstMatch(db, appId).Some? &&
      var first := db[FirstMatch(db, appId).value];
      forall i :: 0 <= i < |db| && db[i].applicationId == appId ==>
        r.value[i].notes == AppendNote(first.notes, today, notes))
  {
    var first := FirstMatch(db, appId);
    if notes != "" && first.None? then Err(IndexError)
    else
      var stamped := if notes != "" then AppendNote(db[first.value].notes, today, notes) else "";
      Ok(UpdateRows(db, appId, status, notes, stamped, today))
  }

  /** In a numbered table an update changes at most one row and keeps the numbering. */
  lemma UpdateStatusInNumberedTable(db: seq<Row>, appId: string, status: string, notes: string, today: Calendar.Date)
    requires Calendar.ValidDate(today) && NumberedIds(db)
    ensures var r := UpdateStatus(db, appId, status, notes, today);
      r.Ok? ==> (NumberedIds(r.value) &&
        forall i, j :: 0 <= i < j < |db| && r.value[i] != db[i] ==> r.value[j] == db[j])
  {
    var r := UpdateStatus(db, appId, status, notes, today);
    if r.Ok? {
      forall i, j | 0 <= i < j < |db| && r.value[i] != db[i] ensures r.value[j] == db[j] {
        NumberedIdsDistinct(db, i, j);
      }
    }
  }

  /** `get_applications_by_status`: the rows with that status, in table order. */
  function ApplicationsByStatus(db: seq<Row>, status: string): (r: seq<Row>)
    ensures forall i :: 0 <= i < |r| ==> r[i].status == status && r[i] in db
    ensures forall i :: 0 <= i < |db| && db[i].status == status ==> db[i] in r
    ensures Seqs.IsSubsequence(r, db)
    ensures forall x :: multiset(r)[x] == if x.status == status then multiset(db)[x] else 0
  {
    Seqs.FilterIsSubsequence(db, StatusIs(status));
    Seqs.FilterMultiset(db, StatusIs(status));
    Seqs.Filter(db, StatusIs(status))
  }

  function StatusIs(status: string): Row -> bool {
    (row: Row) => row.status == status
  }

  /** After a successful update, the updated rows are exactly the selection's rows with that ID. */
  lemma UpdatedRowsAreSelected(db: seq<Row>, appId: string, status: string, notes: string, today: Calendar.Date)
    requires Calendar.ValidDate(today)
    requires UpdateStatus(db, appId, status, notes, today).Ok?
    ensures var db' := UpdateStatus(db, appId, status, notes, today).value;
      forall i :: 0 <= i < |db'| && db'[i].applicationId == appId ==> db'[i] in ApplicationsByStatus(db', status)
  {
  }

  // ---------------------------------------------------------------------------
  // Resume versions sheet

  datatype VersionData = VersionData(jobHash: string, baseResume: string, company: string, title: string, filePath: string)

  datatype VersionRow = VersionRow(versionId: string, jobHash: string, createdDate: string, baseResume: string,
                                   company: string, title: string, filePath: string)

  /** `add_resume_version`: appends a row whose ID is "V_" + the job hash, stamped to the minute. */
  function AddResumeVersion(versions: seq<VersionRow>, data: VersionData, now: Calendar.DateTime): (r: (seq<VersionRow>, string))
    requires Calendar.ValidDateTime(now)
    ensures |r.0| == |versions| + 1 && r.0[..|versions|] == versions
    ensures |r.1| == 2 + |data.jobHash| && r.1[..2] == "V_" && r.1[2..] == data.jobHash
    ensures r.0[|versions|].versionId == r.1 && r.0[|versions|].jobHash == data.jobHash
    ensures |r.0[|versions|].createdDate| == 16 && r.0[|versions|].createdDate[..10] == Calendar.IsoDate(now.date)
    ensures var row := r.0[|versions|];
      && row.createdDate == Calendar.IsoMinutes(now)
      && row.baseResume == data.baseResume && row.company == data.company
      && row.title == data.title && row.filePath == data.filePath
  {
    var id := "V_" + data.jobHash;
    var row := VersionRow(id, data.jobHash, Calendar.IsoMinutes(now), data.baseResume, data.company, data.title, data.filePath);
    (versions + [row], id)
  }

  /** The new row's Created_Date reads back as the date, hour and minute it was registered at. */
  lemma VersionStampReadsBack(versions: seq<VersionRow>, data: VersionData, now: Calendar.DateTime)
    requires Calendar.ValidDateTime(now)
    ensures var created := AddResumeVersion(versions, data, now).0[|versions|].createdDate;
      && |created| == 16
      && var date := created[..10];
      && Text.AllDigits(date[..4]) && Text.AllDigits(date[5..7]) && Text.AllDigits(date[8..])
      && Calendar.ParseIsoDate(date) == now.date
      && Text.AllDigits(created[11..13]) && Text.ParseNat(created[11..13]) == now.hour
      && Text.AllDigits(created[14..]) && Text.ParseNat(created[14..]) == now.minute
  {
    var created := AddResumeVersion(versions, data, now).0[|versions|].createdDate;
    assert created == Calendar.IsoMinutes(now);
    assert created[..10] == Calendar.IsoDate(now.date);
    Calendar.IsoDateRoundTrip(now.date);
  }

  /** A version registered under a tailoring job hash has a ten-character ID of hex digits after "V_". */
  lemma VersionIdForJobHash(versions: seq<VersionRow>, job: Tailor.JobData, md5: string -> string,
                            data: VersionData, now: Calendar.DateTime)
    requires Tailor.IsDigestFunction(md5) && Calendar.ValidDateTime(now)
    requires data.jobHash == Tailor.GenerateJobHash(job, md5)
    ensures var id := AddResumeVersion(versions, data, now).1;
      |id| == 10 && forall i :: 2 <= i < 10 ==> Tailor.IsHexChar(id[i])
  {
    var id := AddResumeVersion(versions, data, now).1;
    forall i | 2 <= i < 10 ensures Tailor.IsHexChar(id[i]) {
      assert id[i] == data.jobHash[i - 2];
    }
  }
}
