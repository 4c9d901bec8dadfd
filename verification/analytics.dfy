/**
 The analytics panel of the dashboard: the headline counts (total, responses,
 interviews), the per-source and per-status tallies built by `reduce` into an
 object, and the CSV export of the application list.
 */
module Analytics {
  import Text
  import Seqs
  import Board

  type Application = Board.Application

  // ---------------------------------------------------------------------------
  // Headline counts

  const InterviewStatus: string := "Interview"
  const ResponseStatus: string := "Response"

  predicate IsInterview(a: Application) {
    a.status == InterviewStatus
  }

  /** An interview counts as a response too. */
  predicate IsResponse(a: Application) {
    a.status == ResponseStatus || a.status == InterviewStatus
  }

  datatype Counts = Counts(total: nat, responses: nat, interviews: nat)

  /** The "Total Applied", "Responses" and "Interviews" cards. */
  function HeadlineCounts(apps: seq<Application>): (c: Counts)
    ensures c.total == |apps|
    ensures c.interviews <= c.responses <= c.total
    ensures c.responses == Seqs.Count(apps, IsResponse) && c.interviews == Seqs.Count(apps, IsInterview)
  {
    Seqs.CountMonotone(apps, IsInterview, IsResponse);
    Counts(|apps|, Seqs.Count(apps, IsResponse), Seqs.Count(apps, IsInterview))
  }

  /** Responses that are not interviews: the difference of the two cards counts exactly the "Response" entries. */
  lemma ResponsesSplit(apps: seq<Application>)
    ensures Seqs.Count(apps, IsResponse) ==
      Seqs.Count(apps, IsInterview) + Seqs.Count(apps, (a: Application) => a.status == ResponseStatus)
  {
    if |apps| > 0 {
      ResponsesSplit(apps[1..]);
    }
  }

  // ---------------------------------------------------------------------------
  // Tallies: `reduce((acc, a) => { acc[k] = (acc[k] || 0) + 1; ... }, {})`

  /** Key and count pairs in the order the keys were first seen. */
  type Tallies = seq<(string, nat)>

  predicate DistinctKeys(t: Tallies) {
    forall i, j :: 0 <= i < j < |t| ==> t[i].0 != t[j].0
  }

  /** The count recorded for `k`, or 0 when `k` is not a key (`acc[k] || 0`). */
  function CountOf(t: Tallies, k: string): nat {
    if |t| == 0 then 0 else if t[0].0 == k then t[0].1 else CountOf(t[1..], k)
  }

  function Total(t: Tallies): nat {
    if |t| == 0 then 0 else t[0].1 + Total(t[1..])
  }

  /** One step of the reduction: increments the key's count, adding the key at the end when it is new. */
  function Bump(t: Tallies, key: string): (r: Tallies)
    requires DistinctKeys(t)
    ensures DistinctKeys(r)
    ensures |t| <= |r| <= |t| + 1
    ensures forall i :: 0 <= i < |t| ==> r[i].0 == t[i].0
    ensures |r| == |t| + 1 ==> r[|t|].0 == key && forall i :: 0 <= i < |t| ==> t[i].0 != key
    ensures CountOf(r, key) == CountOf(t, key) + 1
    ensures forall k :: k != key ==> CountOf(r, k) == CountOf(t, k)
    ensures Total(r) == Total(t) + 1
    ensures (forall i :: 0 <= i < |t| ==> t[i].1 > 0) ==> forall i :: 0 <= i < |r| ==> r[i].1 > 0
    decreases |t|
  {
    if |t| == 0 then [(key, 1)]
    else if t[0].0 == key then [(key, t[0].1 + 1)] + t[1..]
    else [t[0]] + Bump(t[1..], key)
  }

  /** The reduction over a list of keys. */
  function TallyOf(keys: seq<string>): (t: Tallies)
    ensures DistinctKeys(t)
    decreases |keys|
  {
    if |keys| == 0 then [] else Bump(TallyOf(keys[..|keys| - 1]), keys[|keys| - 1])
  }

  /**
   The tally records each key exactly as often as it occurs, only keys that
   occur and never a zero count; its counts add up to the number of entries.
   */
  lemma {:induction false} TallyCounts(keys: seq<string>)
    ensures forall k :: CountOf(TallyOf(keys), k) == multiset(keys)[k]
    ensures Total(TallyOf(keys)) == |keys|
    ensures forall i :: 0 <= i < |TallyOf(keys)| ==> TallyOf(keys)[i].1 > 0
    decreases |keys|
  {
    if |keys| > 0 {
      var init := keys[..|keys| - 1];
      TallyCounts(init);
      assert keys == init + [keys[|keys| - 1]];
    }
  }

  /** A key appears in the tally exactly when it occurs in the list. */
  lemma TallyKeys(keys: seq<string>, k: string)
    ensures (exists i :: 0 <= i < |TallyOf(keys)| && TallyOf(keys)[i].0 == k) <==> k in keys
  {
    TallyCounts(keys);
    var t := TallyOf(keys);
    if k in keys {
      assert multiset(keys)[k] > 0;
      CountOfPositive(t, k);
    } else {
      assert multiset(keys)[k] == 0;
      if exists i :: 0 <= i < |t| && t[i].0 == k {
        var i :| 0 <= i < |t| && t[i].0 == k;
        CountOfAt(t, i);
      }
    }
  }

  lemma {:induction false} CountOfPositive(t: Tallies, k: string)
    requires CountOf(t, k) > 0
    ensures exists i :: 0 <= i < |t| && t[i].0 == k
  {
    if t[0].0 != k {
      CountOfPositive(t[1..], k);
      var i :| 0 <= i < |t[1..]| && t[1..][i].0 == k;
      assert t[i + 1].0 == k;
    }
  }

  lemma {:induction false} CountOfAt(t: Tallies, i: nat)
    requires DistinctKeys(t) && i < |t|
    ensures CountOf(t, t[i].0) == t[i].1
  {
    if i > 0 {
      assert t[0].0 != t[i].0;
      CountOfAt(t[1..], i - 1);
    }
  }

  function Sources(apps: seq<Application>): (r: seq<string>)
    ensures |r| == |apps| && forall i :: 0 <= i < |apps| ==> r[i] == apps[i].source
  {
    seq(|apps|, i requires 0 <= i < |apps| => apps[i].source)
  }

  function Statuses(apps: seq<Application>): (r: seq<string>)
    ensures |r| == |apps| && forall i :: 0 <= i < |apps| ==> r[i] == apps[i].status
  {
    seq(|apps|, i requires 0 <= i < |apps| => apps[i].status)
  }

  /** `bySource` and `byStatus`: each tally's counts add up to the number of applications. */
  lemma BreakdownsSumToTotal(apps: seq<Application>)
    ensures Total(TallyOf(Sources(apps))) == |apps|
    ensures Total(TallyOf(Statuses(apps))) == |apps|
  {
    TallyCounts(Sources(apps));
    TallyCounts(Statuses(apps));
  }

  /** The "Interview" row of the status breakdown agrees with the Interviews card. */
  lemma StatusBreakdownMatchesCards(apps: seq<Application>)
    ensures CountOf(TallyOf(Statuses(apps)), InterviewStatus) == HeadlineCounts(apps).interviews
  {
    TallyCounts(Statuses(apps));
    MultisetCountsInterviews(apps);
  }

  lemma {:induction false} MultisetCountsInterviews(apps: seq<Application>)
    ensures multiset(Statuses(apps))[InterviewStatus] == Seqs.Count(apps, IsInterview)
    decreases |apps|
  {
    if |apps| > 0 {
      MultisetCountsInterviews(apps[1..]);
      assert Statuses(apps) == [apps[0].status] + Statuses(apps[1..]);
    }
  }

  // ---------------------------------------------------------------------------
  // CSV export

  const CsvHeader: seq<string> := ["ID", "Company", "Title", "Date", "Status", "Match Score", "Source"]
  const FieldSeparator: char := ','
  const LineSeparator: char := '\n'

  /** One application's cells, in header order; the score gets a '%' suffix. */
  function CsvFields(a: Application): (r: seq<string>)
    ensures |r| == |CsvHeader|
    ensures r[0] == a.id && r[1] == a.company && r[2] == a.title && r[3] == a.date && r[4] == a.status
    ensures r[6] == a.source
    ensures |r[5]| >= 1 && r[5][..|r[5]| - 1] == Text.IntToString(a.score) && r[5][|r[5]| - 1] == '%'
  {
    var score := Text.IntToString(a.score) + "%";
    assert score[..|score| - 1] == Text.IntToString(a.score);
    [a.id, a.company, a.title, a.date, a.status, score, a.source]
  }

  /** The lines of the file: the header first, then one line per application in list order. */
  function CsvLines(apps: seq<Application>): (r: seq<string>)
    ensures |r| == |apps| + 1
    ensures r[0] == Text.Join(CsvHeader, [FieldSeparator])
    ensures forall i :: 0 <= i < |apps| ==> r[i + 1] == Text.Join(CsvFields(apps[i]), [FieldSeparator])
  {
    [Text.Join(CsvHeader, [FieldSeparator])] +
      seq(|apps|, i requires 0 <= i < |apps| => Text.Join(CsvFields(apps[i]), [FieldSeparator]))
  }

  /** `exportToCSV`'s text: the lines joined by '\n', fields joined by ',', nothing quoted. */
  function ExportCsv(apps: seq<Application>): (r: string)
    ensures Text.IsPrefix(Text.Join(CsvHeader, [FieldSeparator]), r)
    ensures |apps| == 0 ==> r == Text.Join(CsvHeader, [FieldSeparator])
    ensures |apps| > 0 ==> var h := |Text.Join(CsvHeader, [FieldSeparator])|; |r| > h && r[h] == LineSeparator
  {
    var lines := CsvLines(apps);
    assert |lines| > 1 ==> Text.Join(lines, [LineSeparator]) == lines[0] + [LineSeparator] + Text.Join(lines[1..], [LineSeparator]);
    Text.Join(lines, [LineSeparator])
  }

  /**
   One more application adds one line break and that application's
   comma-joined cells at the end, and changes nothing before them, whatever
   the cells hold. With the empty case this fixes the whole export.
   */
  lemma ExportCsvAppend(apps: seq<Application>, a: Application)
    ensures ExportCsv(apps + [a]) == ExportCsv(apps) + [LineSeparator] + Text.Join(CsvFields(a), [FieldSeparator])
  {
    var shorter := CsvLines(apps);
    var line := Text.Join(CsvFields(a), [FieldSeparator]);
    assert (apps + [a])[..|apps|] == apps;
    assert CsvLines(apps + [a]) == shorter + [line];
    Text.JoinSnoc(shorter, line, [LineSeparator]);
  }

  /** A cell the unquoted format can carry: no comma and no line break. */
  predicate PlainCell(s: string) {
    FieldSeparator !in s && LineSeparator !in s
  }

  /** An application none of whose cells holds a line break; commas are allowed. */
  predicate LineFreeApplication(a: Application) {
    LineSeparator !in a.id && LineSeparator !in a.company && LineSeparator !in a.title
    && LineSeparator !in a.date && LineSeparator !in a.status && LineSeparator !in a.source
  }

  predicate PlainApplication(a: Application) {
    PlainCell(a.id) && PlainCell(a.company) && PlainCell(a.title) && PlainCell(a.date)
    && PlainCell(a.status) && PlainCell(a.source)
  }

  lemma IntTextIsPlain(i: int)
    ensures PlainCell(Text.IntToString(i) + "%")
  {
    var s := Text.IntToString(i);
    assert Text.IsIntText(s);
    if s[0] == '-' {
      assert s == [s[0]] + s[1..];
    }
  }

  lemma {:induction false} JoinAvoids(xs: seq<string>, sep: char, c: char)
    requires c != sep && forall i :: 0 <= i < |xs| ==> c !in xs[i]
    ensures c !in Text.Join(xs, [sep])
  {
    if |xs| > 1 {
      JoinAvoids(xs[1..], sep, c);
    }
  }

  /** A plain application's line has no line break and splits back into its cells. */
  lemma CsvLineRoundTrip(a: Application)
    requires PlainApplication(a)
    ensures LineSeparator !in Text.Join(CsvFields(a), [FieldSeparator])
    ensures Text.Split(Text.Join(CsvFields(a), [FieldSeparator]), FieldSeparator) == CsvFields(a)
  {
    var cells := CsvFields(a);
    IntTextIsPlain(a.score);
    assert cells[5] == Text.IntToString(a.score) + "%";
    assert PlainLine(cells);
    JoinAvoids(cells, FieldSeparator, LineSeparator);
    Text.SplitJoin(cells, FieldSeparator);
  }

  lemma CsvHeaderRoundTrip()
    ensures LineSeparator !in Text.Join(CsvHeader, [FieldSeparator])
    ensures Text.Split(Text.Join(CsvHeader, [FieldSeparator]), FieldSeparator) == CsvHeader
  {
    JoinAvoids(CsvHeader, FieldSeparator, LineSeparator);
    Text.SplitJoin(CsvHeader, FieldSeparator);
  }

  /** Reads the cells of one exported line back into an application, dropping the score's '%'. */
  function ApplicationOfCells(cells: seq<string>): Application
    requires |cells| == |CsvHeader| && |cells[5]| >= 1 && Text.IsIntText(cells[5][..|cells[5]| - 1])
  {
    Board.Application(cells[0], cells[1], cells[2], cells[3], cells[4],
                      Text.ParseInt(cells[5][..|cells[5]| - 1]), cells[6])
  }

  /** A plain application's exported line reads back as that very application. */
  lemma CsvLineRecoversApplication(a: Application)
    requires PlainApplication(a)
    ensures var cells := Text.Split(Text.Join(CsvFields(a), [FieldSeparator]), FieldSeparator);
      && |cells| == |CsvHeader| && |cells[5]| >= 1 && Text.IsIntText(cells[5][..|cells[5]| - 1])
      && ApplicationOfCells(cells) == a
  {
    CsvLineRoundTrip(a);
    Text.IntToStringRoundTrip(a.score);
  }

  /**
   When no cell holds a line break, splitting the exported text on line breaks
   gives back the header line and one line per application, in order, however
   many commas the cells hold.
   */
  lemma CsvSplitsIntoLines(apps: seq<Application>)
    requires forall i :: 0 <= i < |apps| ==> LineFreeApplication(apps[i])
    ensures Text.Split(ExportCsv(apps), LineSeparator) == CsvLines(apps)
  {
    var lines := CsvLines(apps);
    CsvHeaderRoundTrip();
    forall i | 0 <= i < |lines| ensures LineSeparator !in lines[i] {
      if i == 0 {
        assert lines[0] == Text.Join(CsvHeader, [FieldSeparator]);
      } else {
        assert lines[i] == Text.Join(CsvFields(apps[i - 1]), [FieldSeparator]);
        CsvLineHasNoBreak(apps[i - 1]);
      }
    }
    Text.SplitJoin(lines, LineSeparator);
    assert ExportCsv(apps) == Text.Join(lines, [LineSeparator]);
  }

  lemma CsvLineHasNoBreak(a: Application)
    requires LineFreeApplication(a)
    ensures LineSeparator !in Text.Join(CsvFields(a), [FieldSeparator])
  {
    var cells := CsvFields(a);
    IntTextIsPlain(a.score);
    assert cells[5] == Text.IntToString(a.score) + "%";
    assert forall k :: 0 <= k < |cells| ==> LineSeparator !in cells[k];
    JoinAvoids(cells, FieldSeparator, LineSeparator);
  }

  /**
   When no cell holds a comma or a line break, splitting the exported text on
   line breaks and each line on commas gives back the header and every
   application's cells, in order.
   */
  lemma CsvRoundTrip(apps: seq<Application>)
    requires forall i :: 0 <= i < |apps| ==> PlainApplication(apps[i])
    ensures Text.Split(ExportCsv(apps), LineSeparator) == CsvLines(apps)
    ensures Text.Split(CsvLines(apps)[0], FieldSeparator) == CsvHeader
    ensures forall i :: 0 <= i < |apps| ==> Text.Split(CsvLines(apps)[i + 1], FieldSeparator) == CsvFields(apps[i])
  {
    var lines := CsvLines(apps);
    CsvHeaderRoundTrip();
    forall i | 0 <= i < |apps|
      ensures Text.Split(lines[i + 1], FieldSeparator) == CsvFields(apps[i])
    {
      CsvLineRoundTrip(apps[i]);
    }
    CsvSplitsIntoLines(apps);
  }

  predicate PlainLine(cells: seq<string>) {
    forall i :: 0 <= i < |cells| ==> PlainCell(cells[i])
  }

  /** Without quoting, every comma inside a cell adds a column when the line is read back. */
  lemma {:induction false} SplitCountsSeparators(s: string, c: char)
    ensures |Text.Split(s, c)| == 1 + multiset(s)[c]
  {
    if |s| > 0 {
      SplitCountsSeparators(s[1..], c);
      assert s == [s[0]] + s[1..];
    }
  }

  /** A line reads back as seven columns plus one per comma inside its cells. */
  lemma CsvLineColumns(a: Application)
    ensures |Text.Split(Text.Join(CsvFields(a), [FieldSeparator]), FieldSeparator)| ==
      |CsvHeader| + SeparatorsIn(CsvFields(a), FieldSeparator)
  {
    SplitCountsSeparators(Text.Join(CsvFields(a), [FieldSeparator]), FieldSeparator);
    JoinCountsSeparators(CsvFields(a), FieldSeparator);
  }

  /** So a company name such as "Acme, Inc" pushes the rest of its line one column to the right. */
  lemma CommaInCompanyShiftsColumns(a: Application)
    requires a.company == "Acme, Inc"
    ensures |Text.Split(Text.Join(CsvFields(a), [FieldSeparator]), FieldSeparator)| > |CsvHeader|
  {
    CsvLineColumns(a);
    var cells := CsvFields(a);
    assert multiset(cells[1])[FieldSeparator] > 0 by {
      assert cells[1][4] == FieldSeparator;
    }
    assert SeparatorsIn(cells, FieldSeparator) >= multiset(cells[1])[FieldSeparator] by {
      assert SeparatorsIn(cells, FieldSeparator) == multiset(cells[0])[FieldSeparator] + SeparatorsIn(cells[1..], FieldSeparator);
      assert cells[1..][0] == cells[1];
    }
  }

  /** The separators in a joined line: one per gap plus those inside the pieces. */
  lemma {:induction false} JoinCountsSeparators(xs: seq<string>, c: char)
    requires |xs| >= 1
    ensures multiset(Text.Join(xs, [c]))[c] == |xs| - 1 + SeparatorsIn(xs, c)
  {
    if |xs| > 1 {
      JoinCountsSeparators(xs[1..], c);
    }
  }

  function SeparatorsIn(xs: seq<string>, c: char): nat {
    if |xs| == 0 then 0 else multiset(xs[0])[c] + SeparatorsIn(xs[1..], c)
  }
}
