/**
 The "human pulse" bookkeeping of the interactive demo: the session statistics
 (applications submitted, jobs in the current batch, health score), how an
 approved or skipped job changes them over the three-job loop, and the status
 panel that classifies the session (COOLDOWN / WAITING APPROVAL / ACTIVE),
 shows batch progress against the fixed limit of 3 and draws the health score
 as a coloured 30-cell bar.

 The random health decay `randint(2, 5)` and the typed approval choice are
 inputs of each loop iteration.
 */
module Pulse {
  import Text
  import Seqs

  const BatchLimit: int := 3
  const HealthFloor: int := 70
  const MinDecay: int := 2
  const MaxDecay: int := 5
  const BarCells: int := 30
  /** The demo loop offers exactly three jobs, one batch. */
  const JobsPerSession: int := 3

  datatype Stats = Stats(applications: int, batchCount: int, healthScore: int)

  function InitialStats(): Stats {
    Stats(0, 0, 100)
  }

  /** What the demo keeps true of its statistics between jobs. */
  predicate Consistent(s: Stats) {
    && s.batchCount == s.applications
    && 0 <= s.applications
    && HealthFloor <= s.healthScore <= 100
  }

  lemma InitialStatsConsistent()
    ensures Consistent(InitialStats())
    ensures InitialStats().applications == 0 && InitialStats().batchCount == 0
    ensures InitialStats().healthScore == 100
  {
  }

  /** A possible outcome of `random.randint(MinDecay, MaxDecay)`. */
  predicate ValidDecay(d: int) {
    MinDecay <= d <= MaxDecay
  }

  /** Statistics after one approved and submitted job. */
  function Approve(s: Stats, decay: int): (r: Stats)
    requires ValidDecay(decay)
    ensures r.applications == s.applications + 1
    ensures r.batchCount == s.batchCount + 1
    ensures r.healthScore >= HealthFloor && r.healthScore >= s.healthScore - decay
    ensures r.healthScore == HealthFloor || r.healthScore == s.healthScore - decay
    ensures r.healthScore >= s.healthScore - MaxDecay
    ensures s.healthScore >= HealthFloor ==> r.healthScore <= s.healthScore
    ensures s.healthScore > HealthFloor ==> r.healthScore < s.healthScore
  {
    var lowered := s.healthScore - decay;
    Stats(s.applications + 1, s.batchCount + 1, if lowered > HealthFloor then lowered else HealthFloor)
  }

  /**
   One pass of the job loop: the line typed at the review prompt (an empty
   line stands for "1") and the decay the random draw would give.
   */
  datatype Iteration = Iteration(choice: string, decay: int)

  /** Only "3" skips; "1", "2", an empty line and anything else approve. */
  predicate Approved(it: Iteration) {
    var choice := if it.choice == "" then "1" else it.choice;
    choice != "3"
  }

  predicate ValidIterations(its: seq<Iteration>) {
    forall i :: 0 <= i < |its| ==> ValidDecay(its[i].decay)
  }

  function Step(s: Stats, it: Iteration): (r: Stats)
    requires ValidDecay(it.decay)
    ensures !Approved(it) ==> r == s
    ensures Approved(it) ==> r.applications == s.applications + 1 && r.batchCount == s.batchCount + 1
    ensures Approved(it) ==> r == Approve(s, it.decay)
  {
    if Approved(it) then Approve(s, it.decay) else s
  }

  /** The job loop over a sequence of iterations: both counters advance by the number of approved jobs. */
  function Run(s: Stats, its: seq<Iteration>): (r: Stats)
    requires ValidIterations(its)
    ensures r.applications == s.applications + Seqs.Count(its, Approved)
    ensures r.batchCount == s.batchCount + Seqs.Count(its, Approved)
    ensures Seqs.Count(its, Approved) == 0 ==> r == s
    decreases |its|
  {
    if |its| == 0 then s
    else
      assert Seqs.Filter(its, Approved) ==
        (if Approved(its[0]) then [its[0]] else []) + Seqs.Filter(its[1..], Approved);
      Run(Step(s, its[0]), its[1..])
  }

  /**
   Over any number of iterations: both counters advance by the number of
   approved jobs, health never rises, never falls below the floor and falls by
   at most `MaxDecay` per approved job.
   */
  lemma {:induction false} RunKeepsConsistent(s: Stats, its: seq<Iteration>)
    requires Consistent(s) && ValidIterations(its)
    ensures var r := Run(s, its);
      && Consistent(r)
      && r.applications == s.applications + Seqs.Count(its, Approved)
      && r.healthScore <= s.healthScore
      && r.healthScore >= s.healthScore - MaxDecay * Seqs.Count(its, Approved)
    decreases |its|
  {
    if |its| > 0 {
      var t := Step(s, its[0]);
      assert ValidIterations(its[1..]);
      RunKeepsConsistent(t, its[1..]);
      assert Seqs.Filter(its, Approved) ==
        (if Approved(its[0]) then [its[0]] else []) + Seqs.Filter(its[1..], Approved);
    }
  }

  lemma {:induction false} RunPrefix(s: Stats, its: seq<Iteration>, k: nat)
    requires ValidIterations(its) && k < |its|
    ensures ValidIterations(its[..k + 1])
    ensures Run(s, its[..k + 1]) == Step(Run(s, its[..k]), its[k])
    decreases k
  {
    var longer, shorter := its[..k + 1], its[..k];
    assert ValidIterations(longer) && ValidIterations(shorter);
    if k == 0 {
      assert Run(s, shorter) == s;
      assert longer[1..] == [];
    } else {
      var rest := its[1..];
      assert ValidIterations(rest);
      RunPrefix(Step(s, its[0]), rest, k - 1);
      assert longer[0] == its[0] && longer[1..] == rest[..k];
      assert shorter[0] == its[0] && shorter[1..] == rest[..k - 1];
      assert rest[k - 1] == its[k];
    }
  }

  /** The statistics at the end of the demo's three-job loop. */
  function Session(its: seq<Iteration>): (r: Stats)
    requires |its| == JobsPerSession && ValidIterations(its)
    ensures Consistent(r)
    ensures r.batchCount == r.applications <= BatchLimit
    ensures r.healthScore >= 100 - MaxDecay * r.applications
    ensures r.applications == BatchLimit <==> forall i :: 0 <= i < |its| ==> Approved(its[i])
  {
    InitialStatsConsistent();
    RunKeepsConsistent(InitialStats(), its);
    CountAllApproved(its);
    Run(InitialStats(), its)
  }

  lemma CountAllApproved(its: seq<Iteration>)
    ensures Seqs.Count(its, Approved) == |its| <==> forall i :: 0 <= i < |its| ==> Approved(its[i])
  {
    if forall i :: 0 <= i < |its| ==> Approved(its[i]) {
      Seqs.FilterAll(its, Approved);
    } else {
      var i :| 0 <= i < |its| && !Approved(its[i]);
      FilterMissesRejected(its, i);
    }
  }

  lemma {:induction false} FilterMissesRejected(its: seq<Iteration>, i: nat)
    requires i < |its| && !Approved(its[i])
    ensures Seqs.Count(its, Approved) < |its|
  {
    if i == 0 {
    } else {
      FilterMissesRejected(its[1..], i - 1);
    }
  }

  // ---------------------------------------------------------------------------
  // The status panel (`show_pulse_status`)

  datatype Status = Cooldown | WaitingApproval | Active

  /** Cooldown takes priority over a full batch; otherwise the session is active. */
  function StatusOf(inCooldown: bool, batchCount: int): (r: Status)
    ensures r == Cooldown <==> inCooldown
    ensures r == WaitingApproval <==> !inCooldown && batchCount >= BatchLimit
    ensures r == Active <==> !inCooldown && batchCount < BatchLimit
  {
    if inCooldown then Cooldown
    else if batchCount >= BatchLimit then WaitingApproval
    else Active
  }

  function StatusLabel(s: Status): string {
    match s
    case Cooldown => "COOLDOWN"
    case WaitingApproval => "WAITING APPROVAL"
    case Active => "ACTIVE"
  }

  /** The three labels are different strings, so a label tells its status. */
  lemma StatusLabelsDistinct(s: Status)
    ensures StatusLabel(s) == "COOLDOWN" <==> s == Cooldown
    ensures StatusLabel(s) == "WAITING APPROVAL" <==> s == WaitingApproval
    ensures StatusLabel(s) == "ACTIVE" <==> s == Active
  {
    assert |"COOLDOWN"| == 8 && |"WAITING APPROVAL"| == 16 && |"ACTIVE"| == 6;
  }

  /** `text` is the decimal text of `n`, as `str` writes it, followed by `suffix`. */
  predicate NumberBefore(text: string, suffix: string, n: int) {
    && |text| > |suffix|
    && text[|text| - |suffix|..] == suffix
    && Text.CanonicalIntText(text[..|text| - |suffix|])
    && Text.ParseInt(text[..|text| - |suffix|]) == n
  }

  /** Only one text meets `NumberBefore`: `str(n)` followed by the suffix. */
  lemma NumberBeforeIsRendering(text: string, suffix: string, n: int)
    requires NumberBefore(text, suffix, n)
    ensures text == Text.IntToString(n) + suffix
  {
    var k := |text| - |suffix|;
    Text.CanonicalIntTextRoundTrip(text[..k]);
    assert text == text[..k] + text[k..];
  }

  /** "<batch_count>/3". */
  function BatchProgress(batchCount: int): (r: string)
    ensures NumberBefore(r, "/3", batchCount)
  {
    var count := Text.IntToString(batchCount);
    Text.IntToStringRoundTrip(batchCount);
    var r := count + "/" + Text.IntToString(BatchLimit);
    assert r[..|r| - 2] == count;
    r
  }

  /** "<health>/100". */
  function ScoreText(health: int): (r: string)
    ensures NumberBefore(r, "/100", health)
  {
    var score := Text.IntToString(health);
    Text.IntToStringRoundTrip(health);
    var r := score + "/100";
    assert r[..|r| - 4] == score;
    r
  }

  /** Colour of the health bar. */
  datatype Band = Green | Yellow | Red

  function HealthBand(health: int): (b: Band)
    ensures b == Green <==> health > 70
    ensures b == Yellow <==> 40 < health <= 70
    ensures b == Red <==> health <= 40
  {
    if health > 70 then Green else if health > 40 then Yellow else Red
  }

  /** Severity of a band: 0 for green, 2 for red. */
  function Severity(b: Band): nat {
    match b
    case Green => 0
    case Yellow => 1
    case Red => 2
  }

  /** The bands are ranges: above 70, 41 to 70, 40 and below; a lower score is never in a milder band. */
  lemma HealthBandRanges(h: int, g: int)
    ensures HealthBand(h) == Green <==> h >= 71
    ensures HealthBand(h) == Yellow <==> 41 <= h <= 70
    ensures HealthBand(h) == Red <==> h <= 40
    ensures h <= g ==> Severity(HealthBand(g)) <= Severity(HealthBand(h))
  {
  }

  /** `int(health / 100 * 30)`: the number of filled cells, truncated toward zero. */
  function FilledCells(health: int): (n: int)
    ensures health >= 0 ==> 0 <= n && n * 100 <= health * BarCells < (n + 1) * 100
    ensures health < 0 ==> n <= 0 && (-n) * 100 <= (-health) * BarCells < (1 - n) * 100
    ensures 0 <= health <= 100 ==> 0 <= n <= BarCells
  {
    if health >= 0 then health * BarCells / 100 else -((-health) * BarCells / 100)
  }

  lemma FilledCellsMonotone(h: int, g: int)
    requires 0 <= h <= g
    ensures FilledCells(h) <= FilledCells(g)
  {
  }

  /** `'█' * filled + '░' * (30 - filled)`. */
  function HealthBar(health: int): (bar: string)
    ensures 0 <= health <= 100 ==> |bar| == BarCells
    ensures forall i :: 0 <= i < |bar| ==> (bar[i] == '█' <==> i < FilledCells(health))
    ensures forall i :: 0 <= i < |bar| ==> (bar[i] == '█' || bar[i] == '░')
  {
    var filled := FilledCells(health);
    Text.Repeat('█', filled) + Text.Repeat('░', BarCells - filled)
  }

  /** Everything the status panel shows. */
  datatype PulseView = PulseView(status: Status, statusText: string, progress: string, band: Band, bar: string, score: string)

  /**
   `show_pulse_status`: the label names the state (cooldown first, then a full
   batch), the progress and score texts read back as the two numbers, and a
   score in 0..100 fills a 30-cell bar in the matching colour band.
   */
  function ShowPulseStatus(batchCount: int, healthScore: int, inCooldown: bool): (v: PulseView)
    ensures v.statusText == "COOLDOWN" <==> inCooldown
    ensures v.statusText == "WAITING APPROVAL" <==> !inCooldown && batchCount >= BatchLimit
    ensures v.statusText == "ACTIVE" <==> !inCooldown && batchCount < BatchLimit
    ensures v.status == StatusOf(inCooldown, batchCount) && v.band == HealthBand(healthScore)
    ensures NumberBefore(v.progress, "/3", batchCount)
    ensures NumberBefore(v.score, "/100", healthScore)
    ensures 0 <= healthScore <= 100 ==> |v.bar| == BarCells
    ensures v.bar == HealthBar(healthScore)
  {
    var status := StatusOf(inCooldown, batchCount);
    StatusLabelsDistinct(status);
    PulseView(status, StatusLabel(status), BatchProgress(batchCount), HealthBand(healthScore),
              HealthBar(healthScore), ScoreText(healthScore))
  }

  /** Before each of the three jobs the panel (never in cooldown in the demo) shows ACTIVE and a green bar. */
  lemma StatusBeforeEachJob(its: seq<Iteration>, k: nat)
    requires |its| == JobsPerSession && ValidIterations(its) && k < JobsPerSession
    ensures ValidIterations(its[..k])
    ensures var s := Run(InitialStats(), its[..k]);
      var v := ShowPulseStatus(s.batchCount, s.healthScore, false);
      v.status == Active && v.band == Green && |v.bar| == BarCells
  {
    assert ValidIterations(its[..k]);
    InitialStatsConsistent();
    RunKeepsConsistent(InitialStats(), its[..k]);
  }

  /** After the loop the panel shows WAITING APPROVAL exactly when no job was skipped. */
  lemma StatusAfterSession(its: seq<Iteration>)
    requires |its| == JobsPerSession && ValidIterations(its)
    ensures var s := Session(its);
      var v := ShowPulseStatus(s.batchCount, s.healthScore, false);
      (v.status == WaitingApproval <==> forall i :: 0 <= i < |its| ==> Approved(its[i])) &&
      (v.status == WaitingApproval || v.status == Active) &&
      v.band == Green
  {
  }
}
