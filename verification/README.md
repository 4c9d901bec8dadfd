# Job-search assistant: pulse bookkeeping, resume tailoring, application tracker and dashboard logic

This project is a Dafny model of the deterministic core of a job-search assistant. Once the clock, the random draws and the language model's reply are passed in as values, every piece below is a pure function over immutable datatypes and sequences.

- **Pulse** (`demo.py`): the "human pulse" session statistics.
  - Applications, batch count and health score, and how an approved or skipped job changes them over the three-job loop.
  - The status panel: COOLDOWN / WAITING APPROVAL / ACTIVE, batch progress `n/3`, and the health band with its 30-cell bar.
- **Tailor** (`backend/resume_tailor.py`): three pieces.
  - The eight-character job hash over `company + title + jd[:100]`.
  - The truthfulness check, which compares company sets and bullet counts position by position.
  - The assembly of the tailored resume, metadata included.
- **Database** (`backend/database_manager.py`): the application tracker with the spreadsheet read as a sequence of rows.
  - Row construction, with its defaults and its date-and-count ID.
  - Appending a row.
  - The status update: status, notes with a date stamp, and the response date.
  - Registering a resume version.
  - Selecting rows by status.
- **Board** (`frontend/src/App.js`):
  - the five-condition job filter;
  - manual submission, with its padded ID;
  - the auto-apply queue, de-duplicated by company and title;
  - the pulse widget's colours and labels.
- **Analytics** (`frontend/src/App.js`): the analytics panel's headline counts, the per-source and per-status tallies, and the CSV export.
- **Support modules** shared by the above:
  - `Text`: decimal rendering and parsing, zero padding, join and split, ASCII case mapping, substring search.
  - `Seqs`: order-preserving filter, count, subsequence.
  - `Calendar`: dates and the `strftime` formats used.
  - `Results`: `Option` and `Result`.

Environment inputs are parameters:
- **The current date or time:** a `Calendar.Date` or `Calendar.DateTime`, or the already formatted timestamp string for `datetime.now().isoformat()`.
- **`random.randint(2, 5)`:** the `decay` of each loop iteration, constrained to 2..5.
- **The text typed at the review prompt:** the `choice` of each iteration.
- **The MD5 hex digest:** a function parameter. It is known only to return 32 lower-case hexadecimal characters.
- **The language model's parsed JSON reply:** a map.

Strings are sequences of Unicode code points, as in Python 3 slicing; JavaScript's UTF-16 indexing agrees on ASCII text.

## Model

| member | source | states |
|---|---|---|
| `Pulse.InitialStatsConsistent` | demo.py:276-280 | A session starts with no applications, an empty batch and full health (100), and that state meets the invariant the loop keeps: batch count equals applications and health lies in 70..100. |
| `Pulse.Approve` | demo.py:311-313 | An approved job adds exactly one to applications and to the batch count. The new health is `max(70, h - d)` for the drawn decay d: it is at least 70 and at least h - d, and it equals one of the two. Hence it is at most 5 below the old value, never above it when the old value was at least 70, and strictly lower while the old value is above 70. |
| `Pulse.Step` | demo.py:301-313 | A typed "3" skips the job and leaves every statistic unchanged. Any other answer approves, and an empty line counts as "1". An approval advances both counters by one and sets health exactly as `Approve` does for the drawn decay. |
| `Pulse.Run` | demo.py:283-313 | Over any sequence of iterations, applications and batch count each grow by exactly the number of approved jobs. With no approved job, the statistics are unchanged. |
| `Pulse.RunKeepsConsistent` | demo.py:283-313 | Over any sequence of iterations, both counters grow by exactly the number of approved jobs and batch count stays equal to applications. Health never rises, never leaves 70..100, and drops by at most 5 per approved job. |
| `Pulse.RunPrefix` | demo.py:283-313 | The loop applies its iterations in order: k+1 iterations are k iterations followed by one more step. |
| `Pulse.Session` | demo.py:276-313 | After the three-job loop the statistics are consistent, and batch count equals applications, at most 3. Health is at least 100 minus 5 per application. The batch is full exactly when no job was skipped. |
| `Pulse.StatusOf` | demo.py:67-75 | Cooldown takes priority. Otherwise a batch count of 3 or more means WAITING APPROVAL and a smaller one means ACTIVE. Each status is characterised by an if-and-only-if, so exactly one applies. |
| `Pulse.BatchProgress` | demo.py:78 | The progress text ends in "/3". The part before it is integer text as `str` writes it, with no leading zero and no "-0", and it reads back as the batch count. |
| `Pulse.HealthBand` | demo.py:81 | The band is green exactly above 70, yellow exactly in 41..70, and red exactly at 40 and below. |
| `Pulse.ScoreText` | demo.py:84 | The score text ends in "/100". The part before it is integer text as `str` writes it, and it reads back as the health score. |
| `Pulse.NumberBeforeIsRendering` | demo.py:78-84 | A number rendered as the progress and score texts are can only be `str(n)` followed by the suffix: canonical integer text is determined by its value. |
| `Pulse.HealthBandRanges` | demo.py:81 | Green is exactly above 70, yellow exactly 41..70, and red exactly 40 and below. A lower score is never in a milder band. |
| `Pulse.FilledCells` | demo.py:82 | `int(h / 100 * 30)` is the quotient 30h/100 truncated toward zero. For h in 0..100 it lies in 0..30. |
| `Pulse.FilledCellsMonotone` | demo.py:82 | A higher non-negative score never fills fewer cells. |
| `Pulse.HealthBar` | demo.py:82-83 | For h in 0..100 the bar has exactly 30 cells. Cell i is '█' exactly when i is below the filled count, and every other cell is '░'. |
| `Pulse.ShowPulseStatus` | demo.py:62-85 | The label is COOLDOWN exactly in cooldown, WAITING APPROVAL exactly when not in cooldown with a batch of 3 or more, and ACTIVE otherwise. The progress and score texts are canonical integer text, as `str` writes it, that reads back as the batch count and the health score. A score in 0..100 gives a 30-cell bar, in the band its value falls in. Cell i of the bar is '█' exactly when i is below the filled count, and every other cell is '░'. |
| `Pulse.StatusBeforeEachJob` | demo.py:283-285 | Before each of the three jobs the panel shows ACTIVE and a green bar of 30 cells. |
| `Pulse.StatusAfterSession` | demo.py:324-326 | After the loop the panel shows WAITING APPROVAL exactly when no job was skipped (ACTIVE otherwise), and the bar is still green. |
| `Tailor.GenerateJobHash` | backend/resume_tailor.py:31-34 | The job hash is 8 hexadecimal characters, and it is the first 8 characters of the digest of the hash key. |
| `Tailor.HashKey` | backend/resume_tailor.py:33 | The hashed key is the company, then the title, then the first min(100, length) characters of the description, with no separator between them. |
| `Tailor.SameHashForSameKeyFields` | backend/resume_tailor.py:33-34 | Two jobs that agree on company, title and the first 100 characters of the description get the same hash. |
| `Tailor.HashIgnoresDescriptionTail` | backend/resume_tailor.py:33 | Text appended after the first 100 description characters never changes the hash. |
| `Tailor.HashKeyBoundaryIsInvisible` | backend/resume_tailor.py:33 | Company and title are run together without a separator, so moving characters from the end of the company to the start of the title gives the same hash. |
| `Tailor.BulletWarnings` | backend/resume_tailor.py:187-192 | The bullet comparison yields only "added bullets" warnings, never more than the shorter of the two experience lists. |
| `Tailor.BulletWarningsSound` | backend/resume_tailor.py:188-192 | Every bullet warning names the original company at a common position whose tailored entry has more bullets. |
| `Tailor.BulletWarningsEmpty` | backend/resume_tailor.py:188-192 | There is no bullet warning exactly when no common position has more tailored bullets than original ones. |
| `Tailor.BulletWarningsStep` | backend/resume_tailor.py:188-192 | The `zip` walk goes left to right: extending both lists by one entry appends at most that entry's warning. |
| `Tailor.BulletWarningsIgnoreExtraEntries` | backend/resume_tailor.py:188 | Tailored entries beyond the length of the original list are never examined. |
| `Tailor.BulletWarningsIgnoreExtraOriginals` | backend/resume_tailor.py:188 | Original entries beyond the length of the tailored list are never examined (the other half of `zip`'s truncation). |
| `Tailor.ValidateTruthfulness` | backend/resume_tailor.py:165-194 | The report passes exactly when the tailored companies are a subset of the original ones, and the changes list is always empty. On failure the first warning is the single "new companies" warning carrying the set difference. All remaining warnings are the bullet warnings, in order. |
| `Tailor.PassedIgnoresBullets` | backend/resume_tailor.py:181-192 | Bullet growth never affects `passed`: lists with equal company sets get the same verdict. |
| `Tailor.NewTitleGoesUnnoticed` | backend/resume_tailor.py:177-185 | As written, a tailored entry that keeps its company but claims a new title passes with no warning. |
| `Tailor.ValidateTruthfulnessWithTitles` | backend/resume_tailor.py:177-185 | Corrected check, following the code's own comment. It passes exactly when both the companies and the titles are subsets of the original ones. With no new title, its warnings are exactly those of the code as written. Otherwise one "new titles" warning carrying the set difference is inserted right after the company warning, if there is one, and before the bullet warnings. |
| `Tailor.NewTitleNowReported` | backend/resume_tailor.py:177-185 | On the input that the code as written passes, the corrected check fails with one warning naming the new title. |
| `Tailor.AssembleTailoredResume` | backend/resume_tailor.py:65-79 | A reply missing "experience" (checked first) or "skills" fails with that key. On success the keys are those of the master resume plus the three reserved keys, and every other master entry is kept. The metadata has exactly five keys: the job hash, company, title, the tailoring timestamp passed in, and the master version, which is "1.0" when the master has none. |
| `Tailor.AlignmentScoreAlwaysDefault` | backend/resume_tailor.py:72-78 | As written, reading `alignment_score` and `key_matches` back from the metadata, as the application record does, always gives the defaults 85 and []. This holds whatever the reply contains. |
| `Tailor.AssembleTailoredResumeWithScores` | backend/resume_tailor.py:72-78 | Corrected assembly. It fails exactly when the as-written one does. Otherwise the recorded score and key matches are the reply's own, with 85 and [] only when the reply lacks them. Every other entry, and every metadata entry, is as the code builds it. |
| `Calendar.CompactDate` | backend/database_manager.py:157 | `%Y%m%d` is 8 digits. |
| `Calendar.CompactDateInjective` | backend/database_manager.py:157 | Different dates give different `%Y%m%d` stamps. |
| `Calendar.IsoDate` | backend/database_manager.py:162 | `%Y-%m-%d` is 10 characters with dashes at positions 4 and 7. |
| `Calendar.IsoDateRoundTrip` | backend/database_manager.py:162 | Parsing the three digit fields of `%Y-%m-%d` gives back the date. |
| `Calendar.CompactIsIsoWithoutDashes` | backend/database_manager.py:157-162 | The ID's date stamp and the Date_Applied cell carry the same digits. |
| `Calendar.IsoMinutes` | backend/database_manager.py:232 | `%Y-%m-%d %H:%M` is 16 characters: the `%Y-%m-%d` date, a space, two digits that read back as the hour, ':', and two digits that read back as the minute. |
| `Text.IntToString` | demo.py:78 | `str(i)` is canonical integer text: digits with an optional '-', no leading zero and no "-0". The sign is '-' exactly when i is negative. |
| `Text.CanonicalIntTextRoundTrip` | demo.py:78 | The converse of the parsing round trip: canonical integer text is exactly `str` of the value it denotes. |
| `Text.ZeroPadded` | backend/database_manager.py:157 | `{n:04d}` is all digits and reads back as n. Its length is exactly the width when n fits in it, and otherwise n's own digit count, never more. |
| `Database.ApplicationId` | backend/database_manager.py:157 | The ID is "APP_", the 8-digit date stamp, "_" and then digits that read back as the row count plus one. Those digits number exactly 4 while the row count plus one is below 10000, and only as many as the number needs beyond that. |
| `Database.ApplicationIdInjective` | backend/database_manager.py:157 | Two IDs are equal exactly when they were made on the same day from the same row count, so an ID determines both. |
| `Database.NewRow` | backend/database_manager.py:159-178 | A new row has status "Applied" and empty Response_Date, Response_Type, Interview_Date and Follow_Up_Date. Company, job title, URL, resume version and resume path are copied from the input. A supplied location, score or notes value is kept, and an absent one defaults to '', 0 or ''. Key matches are joined with ", ", and absent ones give ''. Cover_Letter_Used is "Yes" exactly when the flag is true, else "No". |
| `Database.AddApplication` | backend/database_manager.py:156-188 | Exactly one row is appended at the end, and the earlier rows are unchanged. The returned ID is that row's ID, and its number is the new row count. |
| `Database.AddApplicationKeepsNumbering` | backend/database_manager.py:157-181 | In a table built by appends, the row at position i carries number i+1, and appending keeps this true. |
| `Database.NumberedIdsDistinct` | backend/database_manager.py:157 | In such a table no two rows share an ID. |
| `Database.FirstMatch` | backend/database_manager.py:197 | `.values[0]` is the first row with the ID, and there is none exactly when no row has it. |
| `Database.AppendNote` | backend/database_manager.py:198 | The new notes keep the old notes as a prefix, then a line break, the `%Y-%m-%d` date and ": ", and they end with the new note. |
| `Database.UpdatedRow` | backend/database_manager.py:193-202 | A selected row gets the new status. The response date becomes today's only for "Response Received", and the notes change only when non-empty notes were given. Nothing else in the row changes. |
| `Database.UpdateStatus` | backend/database_manager.py:190-202 | Rows with another ID are untouched, and every row with the ID gets the new status. The response date is stamped only for "Response Received". Non-empty notes replace every matching row's notes with the first match's notes plus the stamped note. Non-empty notes with no matching row fail with IndexError. |
| `Database.UpdateStatusInNumberedTable` | backend/database_manager.py:190-202 | In a numbered table an update changes at most one row and keeps the numbering. |
| `Database.ApplicationsByStatus` | backend/database_manager.py:249-251 | The selection is an order-preserving subsequence of the table. Every selected row has the status, and every row with the status is selected. Each row with the status is kept as many times as it occurs, and no other row is kept. |
| `Database.UpdatedRowsAreSelected` | backend/database_manager.py:193-194 | After a successful update, every row with the ID is among those selected by the new status. |
| `Database.AddResumeVersion` | backend/database_manager.py:224-239 | One version row is appended and the earlier rows are unchanged. Its ID is "V_" followed by the job hash. Its Created_Date is the `%Y-%m-%d %H:%M` rendering of the current time. Base_Resume, Company, Title and File_Path are the caller's values. |
| `Database.VersionStampReadsBack` | backend/database_manager.py:232 | The new row's Created_Date reads back as the date, hour and minute at which the version was registered. |
| `Database.VersionIdForJobHash` | backend/database_manager.py:224 | For a tailoring job hash, the version ID is 10 characters, with hexadecimal digits after "V_". |
| `Board.Keep` | frontend/src/App.js:529-537 | The chain of early rejections keeps a job exactly when all five conditions hold. |
| `Board.FilterJobs` | frontend/src/App.js:529-537 | The shown jobs are an order-preserving subsequence of the list. A listed job is shown exactly when it meets all five conditions, and every copy of it is then kept. |
| `Board.FilterJobsIdempotent` | frontend/src/App.js:529-537 | Filtering the shown jobs again with the same settings changes nothing. |
| `Board.DefaultFiltersKeepGoodMatches` | frontend/src/App.js:519-537 | With the initial filters and an empty search, the list is exactly the jobs with a match of at least 70. |
| `Board.SearchIgnoresCase` | frontend/src/App.js:534-535 | A search term and its lower-case form select the same jobs. |
| `Board.LiteralTitleHitMatches` | frontend/src/App.js:534-535 | A title that literally contains the search term always passes the search condition. |
| `Board.DashboardId` | frontend/src/App.js:541 | The ID is "APP_" followed by digits that read back as n. There are exactly 3 of them for n below 1000, and only as many as n needs beyond that. |
| `Board.SubmitApplication` | frontend/src/App.js:539-546 | The new application is prepended and the rest of the list is unchanged. Its ID is `DashboardId(length + 1)`, so "APP_" followed by the padded number length+1. It has status "Applied", today's ISO date, and the job's company, title, match score and source label. |
| `Board.SubmitKeepsIdsDistinct` | frontend/src/App.js:539-546 | If every ID numbers 1..length and the IDs are distinct, a submission keeps both true. |
| `Board.SampleApplicationsWellNumbered` | frontend/src/App.js:61-68 | The starting application list satisfies that invariant. |
| `Board.AppliedToWitness` | frontend/src/App.js:561 | `applications.find` succeeds exactly when some application has the job's company and title. |
| `Board.Pending` | frontend/src/App.js:560-562 | The auto-apply queue is an order-preserving subsequence of the filtered jobs. It holds exactly those filtered jobs with no application of the same company and title, every copy of each. |
| `Board.PendingWithoutApplications` | frontend/src/App.js:560-562 | With no applications, every filtered job is queued. |
| `Board.SubmittedJobLeavesQueue` | frontend/src/App.js:539-562 | After a queued job is submitted it is no longer queued, and the queue is strictly shorter. |
| `Board.PulseColour` | frontend/src/App.js:124 | The dot is green exactly for "active", amber exactly for "cooldown", and red for every other status. |
| `Board.PulseLabel` | frontend/src/App.js:134 | The label is exactly "NEEDS APPROVAL" for "waiting_approval". Otherwise it is the status upper-cased character by character. |
| `Board.HealthColour` | frontend/src/App.js:154 | The bar fill is green exactly above 70, amber exactly in 41..70, and red exactly at 40 and below. |
| `Board.CooldownMinutes` | frontend/src/App.js:146-149 | Minutes are shown exactly while a cooldown runs, and they are the cooldown's whole number of minutes. |
| `Board.HealthColourMatchesDemoBand` | frontend/src/App.js:154 | The widget's bar colour agrees with the terminal demo's health band for every score. |
| `Board.WidgetLabelsMatchDemo` | frontend/src/App.js:134-140 | The widget and the terminal panel show the same ACTIVE and COOLDOWN labels and the same batch text. They word the waiting state differently. |
| `Analytics.HeadlineCounts` | frontend/src/App.js:315-317 | Total is the list length, and interviews ≤ responses ≤ total, because every interview also counts as a response. |
| `Analytics.ResponsesSplit` | frontend/src/App.js:316-317 | Responses are the interviews plus the entries with status "Response". |
| `Analytics.Bump` | frontend/src/App.js:319-320 | One reduction step increments the key's count, leaves every other count alone, and keeps the keys distinct. A new key is added at the end. |
| `Analytics.TallyOf` | frontend/src/App.js:319-320 | The `reduce` over the list yields a tally with distinct keys. `TallyCounts` and `TallyKeys` fix its contents. |
| `Analytics.TallyCounts` | frontend/src/App.js:319-320 | The tally records each key exactly as often as it occurs, and never a zero count. The counts add up to the number of entries. |
| `Analytics.TallyKeys` | frontend/src/App.js:319-320 | A key appears in the tally exactly when it occurs in the list. |
| `Analytics.BreakdownsSumToTotal` | frontend/src/App.js:319-320 | The per-source counts sum to the total, and so do the per-status counts. |
| `Analytics.StatusBreakdownMatchesCards` | frontend/src/App.js:316-320 | The "Interview" entry of the status breakdown equals the Interviews card. |
| `Analytics.CsvFields` | frontend/src/App.js:324 | Each application gives seven cells in header order: ID, company, title, date, status, the score's decimal text followed by '%', and source. |
| `Analytics.CsvLines` | frontend/src/App.js:323-325 | The header line comes first, then one line per application in list order, with cells joined by ','. |
| `Analytics.ExportCsv` | frontend/src/App.js:322-325 | The exported text starts with the header line. With no applications it is just the header, and otherwise a line break follows the header. Everything after the header is fixed line by line by `Analytics.ExportCsvAppend`. |
| `Analytics.CsvLineRoundTrip` | frontend/src/App.js:324-325 | A line whose cells hold no comma or line break splits back into exactly its cells. |
| `Analytics.ExportCsvAppend` | frontend/src/App.js:322-325 | One more application adds exactly one '\n' and that application's comma-joined cells at the end of the export and leaves the text before unchanged, whatever the cells hold. With the empty case (the header alone) this fixes the whole exported text. |
| `Analytics.CsvSplitsIntoLines` | frontend/src/App.js:322-325 | When no cell holds a line break, even if cells hold commas, splitting the export on '\n' gives the header line and then one line per application, in order. |
| `Analytics.CsvRoundTrip` | frontend/src/App.js:322-325 | When no cell holds a comma or a line break, splitting the export on '\n' and each line on ',' recovers the header and every application's cells in order. |
| `Analytics.CsvLineRecoversApplication` | frontend/src/App.js:324 | Reading a plain application's exported line back, with the '%' dropped from the score, gives the same application. |
| `Analytics.CsvLineColumns` | frontend/src/App.js:325 | Nothing is quoted, so a line reads back as seven columns plus one per comma inside its cells. |
| `Analytics.CommaInCompanyShiftsColumns` | frontend/src/App.js:324-325 | A company such as "Acme, Inc" makes its line read back with more columns than the header. |

## Left out

- **Code whose source is missing:** the human emulator and the stealth applicant, which hold the cooldown timer, batch reset and "can proceed" gating. Their source is not part of this model. The demo's statistics are modelled as the loop in `demo.py` updates them: floor 70, no recovery, batch limit 3. Cooldown expiry and health recovery belong to those absent classes, and the model does not invent them.
- **The HTTP server:** endpoints, CORS, background tasks and the WebSocket loop. Its only modelled part is the read of `alignment_score` and `key_matches` from the metadata at backend/api_server.py:239-240 (`Tailor.RecordedScore`, `Tailor.RecordedKeyMatches`), which the finding below needs.
- **The language-model calls and the prompt text:** the parsed reply is a parameter.
- **MD5 itself:** it is a parameter known only to return 32 hex digits, and the digest is taken over the UTF-8 encoding of the key.
- **Workbook I/O:** sheet creation, formatting and saving to the Excel file. `get_summary_stats` is also left out, because it needs percentages, means and date arithmetic over floats and the clock.
- **pandas storage effects:** an empty Notes cell read back from the workbook is NaN and would render as "nan" in the appended notes. The model keeps notes as plain strings.
- **The repeated clock reads in `add_application` and `update_status`:** `add_application` calls `datetime.now()` for the ID stamp and for Date_Applied. `update_status` calls it for the notes stamp and for Response_Date. Either pair could straddle midnight, and the model uses one date for each call's pair.
- **React rendering:** icons, CSS, the job card, the modal's timers and the file upload.
- **The asynchronous auto-apply loop:** its delays, its cancellation flag and its log. Its stale-list numbering `applications.length + i + 1` is also not modelled. Only the pending-queue filter is modelled.
- **`avgScore`:** it is a rounded float division, and NaN for an empty list.
- **The bar widths in percent.**
- **The export's file creation:** the Blob, the object URL and the download.
- **JavaScript object-key ordering:** `Object.entries` lists integer-like keys first, but the tallies keep first-occurrence order for every key. Sources and statuses are never integer-like in this program. The model also assumes a source or status is never the name of an `Object.prototype` property (`__proto__`, `constructor`, `toString`, …). A plain `{}` tally would mishandle such a key: `acc[k] || 0` starts from the inherited function, so the count becomes a string such as "function …1", and an assignment to `__proto__` never creates an entry. For such keys Analytics.TallyCounts and Analytics.BreakdownsSumToTotal do not describe the program.
- **Terminal output in `demo.py`:** ANSI colours, the printed layout, `time.sleep`, the progress bars, the cover-letter and job displays, `show_database_entry` and the final banner and summary. The "continue to next batch" prompt is also left out.
- **`alignment_score`:** it is a random draw that only feeds the display.
- Tailor.Warning: the report's warnings are constructors, not the source's text. The text would be `f"New companies added: {set}"` (backend/resume_tailor.py:184) and `f"Added bullets to {company}"` (:191). The constructors carry the same set and company. The first string prints a Python `set`, whose element order depends on the per-process string hash seed, so that exact text is not a function of the input.
- Pulse.FilledCells: the source computes `int(h / 100 * 30)` in binary floating point. The model uses exact integer truncation toward zero and does not model floating-point rounding.
- Text.ToLower and Text.ToUpper: only ASCII letters change case. Python's and JavaScript's full Unicode case mappings are not modelled.
- Calendar.ValidDate: four-digit years only (1000..9999). Calendar validity such as month lengths is not checked, because the clock supplies real dates.
- **`datetime.now().isoformat()`:** the tailored-date stamp is passed in as a string.

## Findings

| source | as written | input that shows it | evidently intended | confidence | as-written member | corrected member |
|---|---|---|---|---|---|---|
| backend/resume_tailor.py:177-185 | The comment says new companies or titles are checked, but only company names are compared. | Original `[("Tech Corp", "Software Engineer", …)]`, tailored `[("Tech Corp", "Chief Technology Officer", …)]`: the report passes with no warning. | A new job title fails the check and is reported, just as a new company is. | medium, not executed | `Tailor.NewTitleGoesUnnoticed` | `Tailor.ValidateTruthfulnessWithTitles` |
| backend/resume_tailor.py:72-78 | The prompt asks the model for "alignment_score" and "key_matches" (lines 129-130), but the metadata keeps only five fixed keys and drops them. The application record reads both from the metadata with defaults (backend/api_server.py:239-240). | Any reply, for example one with `"alignment_score": 92`: the recorded tailoring score is 85 and the key matches are empty. | The reply's alignment score and key matches reach the metadata, so the record carries them. | medium, not executed | `Tailor.AlignmentScoreAlwaysDefault` | `Tailor.AssembleTailoredResumeWithScores` |
