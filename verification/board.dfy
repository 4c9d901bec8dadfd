/**
 The dashboard's view-model logic: the job list filter (source, work type,
 location, minimum match and a case-insensitive search), recording a manual
 submission as a new application at the top of the list, the auto-apply queue
 of filtered jobs not yet applied to, and the colours and labels of the human
 pulse widget.

 The date of a submission is passed in; rendering, timers and the
 asynchronous auto-apply loop are not modelled.
 */
module Board {
  import Text
  import Seqs
  import Calendar
  import Pulse
  import opened Results

  /** The wildcard value of the source, work type and location filters. */
  const AnyValue: string := "All"
  const DefaultMinMatch: int := 70

  datatype Job = Job(
    id: int,
    title: string,
    company: string,
    location: string,
    workType: string,
    source: string,
    sourceLabel: string,
    matchScore: int)

  datatype Filters = Filters(source: string, workType: string, location: string, minMatch: int)

  /** The filters the dashboard starts with. */
  function DefaultFilters(): Filters {
    Filters(AnyValue, AnyValue, AnyValue, DefaultMinMatch)
  }

  // ---------------------------------------------------------------------------
  // The job filter

  /** The five conditions a shown job meets, each stated on its own. */
  predicate SourceMatches(f: Filters, j: Job) {
    f.source == AnyValue || j.sourceLabel == f.source
  }

  predicate TypeMatches(f: Filters, j: Job) {
    f.workType == AnyValue || j.workType == f.workType
  }

  predicate LocationMatches(f: Filters, j: Job) {
    f.location == AnyValue || Text.Contains(j.location, f.location)
  }

  predicate MatchHighEnough(f: Filters, j: Job) {
    j.matchScore >= f.minMatch
  }

  /** An empty search matches everything; otherwise it must occur in the title or the company, ignoring case. */
  predicate SearchMatches(search: string, j: Job) {
    || search == ""
    || Text.Contains(Text.ToLower(j.title), Text.ToLower(search))
    || Text.Contains(Text.ToLower(j.company), Text.ToLower(search))
  }

  /** The filter callback: a chain of early rejections, one per condition, then acceptance. */
  function Keep(f: Filters, search: string, j: Job): (keep: bool)
    ensures keep <==>
      SourceMatches(f, j) && TypeMatches(f, j) && LocationMatches(f, j) &&
      MatchHighEnough(f, j) && SearchMatches(search, j)
  {
    if f.source != AnyValue && j.sourceLabel != f.source then false
    else if f.workType != AnyValue && j.workType != f.workType then false
    else if f.location != AnyValue && !Text.Contains(j.location, f.location) then false
    else if j.matchScore < f.minMatch then false
    else if search != "" && !Text.Contains(Text.ToLower(j.title), Text.ToLower(search))
         && !Text.Contains(Text.ToLower(j.company), Text.ToLower(search)) then false
    else true
  }

  function KeepWith(f: Filters, search: string): Job -> bool {
    (j: Job) => Keep(f, search, j)
  }

  /** `filteredJobs`: the jobs meeting all five conditions, in list order. */
  function FilterJobs(jobs: seq<Job>, f: Filters, search: string): (r: seq<Job>)
    ensures Seqs.IsSubsequence(r, jobs)
    ensures forall i :: 0 <= i < |r| ==> Keep(f, search, r[i])
    ensures forall i :: 0 <= i < |jobs| ==> (jobs[i] in r <==> Keep(f, search, jobs[i]))
    ensures forall x :: multiset(r)[x] == if Keep(f, search, x) then multiset(jobs)[x] else 0
  {
    Seqs.FilterIsSubsequence(jobs, KeepWith(f, search));
    Seqs.FilterMultiset(jobs, KeepWith(f, search));
    Seqs.Filter(jobs, KeepWith(f, search))
  }

  /** Applying the same filters to the filtered list changes nothing. */
  lemma FilterJobsIdempotent(jobs: seq<Job>, f: Filters, search: string)
    ensures FilterJobs(FilterJobs(jobs, f, search), f, search) == FilterJobs(jobs, f, search)
  {
    Seqs.FilterIdempotent(jobs, KeepWith(f, search));
  }

  function MatchAtLeast(m: int): Job -> bool {
    (j: Job) => j.matchScore >= m
  }

  /** With the initial filters and no search the list holds exactly the jobs matching at least 70%. */
  lemma DefaultFiltersKeepGoodMatches(jobs: seq<Job>)
    ensures FilterJobs(jobs, DefaultFilters(), "") == Seqs.Filter(jobs, MatchAtLeast(DefaultMinMatch))
  {
    Seqs.FilterCongruent(jobs, KeepWith(DefaultFilters(), ""), MatchAtLeast(DefaultMinMatch));
  }

  /** The search ignores case: a search term and its lower-case form select the same jobs. */
  lemma SearchIgnoresCase(search: string, j: Job)
    ensures SearchMatches(search, j) <==> SearchMatches(Text.ToLower(search), j)
  {
    Text.ToLowerIdempotent(search);
  }

  /** A job whose title literally contains the search term passes the search condition. */
  lemma LiteralTitleHitMatches(search: string, j: Job)
    requires Text.Contains(j.title, search)
    ensures SearchMatches(search, j)
  {
    Text.ContainsLowered(j.title, search);
  }

  // ---------------------------------------------------------------------------
  // Applications and manual submission

  datatype Application = Application(
    id: string,
    company: string,
    title: string,
    date: string,
    status: string,
    score: int,
    source: string)

  const AppliedStatus: string := "Applied"
  /** Length of the "APP_" prefix of a dashboard ID. */
  const IdPrefixLength: nat := 4

  /** `APP_${String(n).padStart(3, '0')}` for the `n`-th application. */
  function DashboardId(n: nat): (id: string)
    ensures |id| == IdPrefixLength + Text.PaddedWidth(n, 3) && id[..IdPrefixLength] == "APP_"
    ensures n < 1000 ==> |id| == IdPrefixLength + 3
    ensures DashboardNumberIs(id, n)
  {
    var number := Text.ZeroPadded(n, 3);
    var id := "APP_" + number;
    assert id[IdPrefixLength..] == number;
    id
  }

  /** The digits after "APP_" read as `n`. */
  predicate DashboardNumberIs(id: string, n: nat) {
    |id| >= IdPrefixLength && Text.AllDigits(id[IdPrefixLength..]) && Text.ParseNat(id[IdPrefixLength..]) == n
  }

  /** `handleSubmitApplication`: the new application goes on top, numbered one past the list length. */
  function SubmitApplication(apps: seq<Application>, job: Job, today: Calendar.Date): (r: seq<Application>)
    requires Calendar.ValidDate(today)
    ensures |r| == |apps| + 1 && r[1..] == apps
    ensures r[0].id == DashboardId(|apps| + 1) && DashboardNumberIs(r[0].id, |apps| + 1)
    ensures r[0].status == AppliedStatus && r[0].date == Calendar.IsoDate(today)
    ensures r[0].company == job.company && r[0].title == job.title
    ensures r[0].score == job.matchScore && r[0].source == job.sourceLabel
  {
    var app := Application(DashboardId(|apps| + 1), job.company, job.title, Calendar.IsoDate(today),
                           AppliedStatus, job.matchScore, job.sourceLabel);
    [app] + apps
  }

  /** The number after "APP_" lies between 1 and `m`. */
  predicate NumberedWithin(id: string, m: nat) {
    |id| >= IdPrefixLength && Text.AllDigits(id[IdPrefixLength..]) && 1 <= Text.ParseNat(id[IdPrefixLength..]) <= m
  }

  /** Every ID carries a number from 1 to the list length, and no two IDs are equal. */
  predicate WellNumbered(apps: seq<Application>) {
    && (forall i :: 0 <= i < |apps| ==> NumberedWithin(apps[i].id, |apps|))
    && (forall i, j :: 0 <= i < j < |apps| ==> apps[i].id != apps[j].id)
  }

  /** A submission numbers the new application past every existing one, so IDs stay distinct. */
  lemma SubmitKeepsIdsDistinct(apps: seq<Application>, job: Job, today: Calendar.Date)
    requires Calendar.ValidDate(today) && WellNumbered(apps)
    ensures WellNumbered(SubmitApplication(apps, job, today))
  {
    var r := SubmitApplication(apps, job, today);
    assert r == [r[0]] + apps;
    PrependWellNumbered(apps, r[0]);
  }

  lemma PrependWellNumbered(apps: seq<Application>, app: Application)
    requires WellNumbered(apps) && DashboardNumberIs(app.id, |apps| + 1)
    ensures WellNumbered([app] + apps)
  {
    var r := [app] + apps;
    forall i | 0 <= i < |r| ensures NumberedWithin(r[i].id, |r|) {
      if i > 0 {
        assert r[i] == apps[i - 1];
      }
    }
    forall i, j | 0 <= i < j < |r| ensures r[i].id != r[j].id {
      assert r[j] == apps[j - 1];
      if i > 0 {
        assert r[i] == apps[i - 1];
      } else {
        assert NumberedWithin(apps[j - 1].id, |apps|);
      }
    }
  }

  /** The six applications the dashboard starts with. */
  function SampleApplications(): seq<Application> {
    [ Application("APP_001", "Anthropic", "Product Specialist", "2026-02-15", "Interview", 92, "LinkedIn"),
      Application("APP_002", "OpenAI", "Integration Engineer", "2026-02-14", "Applied", 87, "Indeed"),
      Application("APP_003", "Stripe", "Solutions Engineer", "2026-02-13", "Response", 84, "Naukri"),
      Application("APP_004", "Razorpay", "PM - Payroll", "2026-02-12", "Applied", 91, "LinkedIn"),
      Application("APP_005", "Zoho", "Product Manager", "2026-02-11", "Rejected", 78, "Naukri"),
      Application("APP_006", "Freshworks", "TAM", "2026-02-10", "Interview", 89, "LinkedIn") ]
  }

  /** The starting list is well numbered, so every later submission gets a fresh ID. */
  lemma SampleApplicationsWellNumbered()
    ensures WellNumbered(SampleApplications())
  {
    var apps := SampleApplications();
    forall i | 0 <= i < |apps| ensures NumberedWithin(apps[i].id, |apps|) {
      var last := Text.DigitChar(i + 1);
      assert apps[i].id[IdPrefixLength..] == "00" + [last];
      Text.ParseNatLeadingZeros("00", [last]);
      assert Text.ParseNat([last]) == i + 1 by {
        assert [last][..0] == [];
      }
    }
  }

  // ---------------------------------------------------------------------------
  // The auto-apply queue

  /** `applications.find(...)` succeeds: some application has the job's company and title. */
  predicate AppliedTo(apps: seq<Application>, j: Job)
    decreases |apps|
  {
    |apps| > 0 && ((apps[0].company == j.company && apps[0].title == j.title) || AppliedTo(apps[1..], j))
  }

  lemma {:induction false} AppliedToWitness(apps: seq<Application>, j: Job)
    ensures AppliedTo(apps, j) <==> exists i :: 0 <= i < |apps| && apps[i].company == j.company && apps[i].title == j.title
    decreases |apps|
  {
    if |apps| > 0 {
      AppliedToWitness(apps[1..], j);
      if AppliedTo(apps[1..], j) {
        var i :| 0 <= i < |apps[1..]| && apps[1..][i].company == j.company && apps[1..][i].title == j.title;
        assert apps[i + 1] == apps[1..][i];
      }
      if exists i :: 0 <= i < |apps| && apps[i].company == j.company && apps[i].title == j.title {
        var i :| 0 <= i < |apps| && apps[i].company == j.company && apps[i].title == j.title;
        if i > 0 {
          assert apps[1..][i - 1] == apps[i];
        }
      }
    }
  }

  function NotAppliedTo(apps: seq<Application>): Job -> bool {
    (j: Job) => !AppliedTo(apps, j)
  }

  /** The auto-apply queue: the filtered jobs, in order, that no application matches by company and title. */
  function Pending(filtered: seq<Job>, apps: seq<Application>): (r: seq<Job>)
    ensures Seqs.IsSubsequence(r, filtered)
    ensures forall i :: 0 <= i < |r| ==> !AppliedTo(apps, r[i])
    ensures forall i :: 0 <= i < |filtered| ==> (filtered[i] in r <==> !AppliedTo(apps, filtered[i]))
    ensures forall x :: multiset(r)[x] == if AppliedTo(apps, x) then 0 else multiset(filtered)[x]
  {
    Seqs.FilterIsSubsequence(filtered, NotAppliedTo(apps));
    Seqs.FilterMultiset(filtered, NotAppliedTo(apps));
    Seqs.Filter(filtered, NotAppliedTo(apps))
  }

  /** With no applications yet every filtered job is queued. */
  lemma PendingWithoutApplications(filtered: seq<Job>)
    ensures Pending(filtered, []) == filtered
  {
    Seqs.FilterAll(filtered, NotAppliedTo([]));
  }

  /** A submitted job leaves the queue, and the queue gets strictly shorter. */
  lemma SubmittedJobLeavesQueue(filtered: seq<Job>, apps: seq<Application>, job: Job, today: Calendar.Date, k: nat)
    requires Calendar.ValidDate(today)
    requires k < |filtered| && filtered[k] == job && !AppliedTo(apps, job)
    ensures job !in Pending(filtered, SubmitApplication(apps, job, today))
    ensures |Pending(filtered, SubmitApplication(apps, job, today))| < |Pending(filtered, apps)|
  {
    var apps' := SubmitApplication(apps, job, today);
    assert AppliedTo(apps', job);
    forall x | !AppliedTo(apps', x) ensures !AppliedTo(apps, x) {
      assert apps'[1..] == apps;
    }
    Seqs.CountStrictlyMonotone(filtered, NotAppliedTo(apps'), NotAppliedTo(apps), k);
  }

  // ---------------------------------------------------------------------------
  // The human pulse widget

  const Green: string := "#00D084"
  const Amber: string := "#FFB800"
  const Red: string := "#FF4757"

  /** Colour of the dot and label: green when active, amber in cooldown, red for anything else. */
  function PulseColour(status: string): (c: string)
    ensures c == Green <==> status == "active"
    ensures c == Amber <==> status == "cooldown"
    ensures c == Red <==> status != "active" && status != "cooldown"
  {
    if status == "active" then Green else if status == "cooldown" then Amber else Red
  }

  /** The status label: "NEEDS APPROVAL" while waiting for approval, else the status upper-cased. */
  function PulseLabel(status: string): (shown: string)
    ensures status == "waiting_approval" ==> shown == "NEEDS APPROVAL"
    ensures status != "waiting_approval" ==> |shown| == |status|
    ensures status != "waiting_approval" ==> forall i :: 0 <= i < |status| ==> shown[i] == Text.UpperChar(status[i])
  {
    if status == "waiting_approval" then "NEEDS APPROVAL" else Text.ToUpper(status)
  }

  /** Colour of the health bar fill. */
  function HealthColour(health: int): (c: string)
    ensures c == Green <==> health > 70
    ensures c == Amber <==> 40 < health <= 70
    ensures c == Red <==> health <= 40
  {
    if health > 70 then Green else if health > 40 then Amber else Red
  }

  /** `{Math.floor(cooldown / 60)}m`, shown only while a cooldown is running. */
  function CooldownMinutes(cooldown: int): (m: Option<int>)
    ensures m.Some? <==> cooldown > 0
    ensures m.Some? ==> 0 <= m.value && m.value * 60 <= cooldown < (m.value + 1) * 60
  {
    if cooldown > 0 then Some(cooldown / 60) else None
  }

  /** `{batch}/3`. */
  function BatchText(batch: int): string {
    Text.IntToString(batch) + "/3"
  }

  /** The status names the backend reports for the three pulse states. */
  function StatusName(s: Pulse.Status): string {
    match s
    case Cooldown => "cooldown"
    case WaitingApproval => "waiting_approval"
    case Active => "active"
  }

  function BandColour(b: Pulse.Band): string {
    match b
    case Green => Green
    case Yellow => Amber
    case Red => Red
  }

  /** The widget's health bar uses the same thresholds as the terminal demo's bands. */
  lemma HealthColourMatchesDemoBand(health: int)
    ensures HealthColour(health) == BandColour(Pulse.HealthBand(health))
  {
    Pulse.HealthBandRanges(health, health);
  }

  /**
   The widget and the terminal demo agree on the ACTIVE and COOLDOWN labels and
   on the batch text; only the waiting state is worded differently.
   */
  lemma WidgetLabelsMatchDemo(s: Pulse.Status, batch: int)
    ensures s != Pulse.WaitingApproval ==> PulseLabel(StatusName(s)) == Pulse.StatusLabel(s)
    ensures s == Pulse.WaitingApproval ==> PulseLabel(StatusName(s)) != Pulse.StatusLabel(s)
    ensures BatchText(batch) == Pulse.BatchProgress(batch)
  {
    if s == Pulse.Active {
      assert Text.ToUpper("active") == "ACTIVE";
    } else if s == Pulse.Cooldown {
      assert Text.ToUpper("cooldown") == "COOLDOWN";
    }
    assert Text.IntToString(3) == "3";
  }
}
