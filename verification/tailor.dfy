/**
 The deterministic parts of the resume-tailoring engine: the short job hash
 that names a tailored version, the truthfulness check that compares a
 tailored experience list with the original one, and the assembly of the
 tailored resume from the master resume and the language model's parsed reply.

 MD5 is not modelled: the hex-digest function is a parameter whose only known
 property is that it returns 32 lower-case hexadecimal digits. The model's
 reply and the current timestamp are parameters too.
 */
module Tailor {
  import Text
  import Seqs
  import Results

  predicate IsHexChar(c: char) {
    '0' <= c <= '9' || 'a' <= c <= 'f'
  }

  /** The shape of `hashlib.md5(...).hexdigest()`. */
  predicate IsHexDigest(h: string) {
    |h| == 32 && forall i :: 0 <= i < |h| ==> IsHexChar(h[i])
  }

  /** A hex-digest function as `md5` provides one. */
  ghost predicate IsDigestFunction(md5: string -> string) {
    forall s :: IsHexDigest(md5(s))
  }

  datatype JobData = JobData(company: string, title: string, jd: string)

  /** Python's `s[:n]`. */
  function Take(s: string, n: nat): (r: string)
    ensures |r| == if |s| <= n then |s| else n
    ensures Text.IsPrefix(r, s)
  {
    if |s| <= n then s else s[..n]
  }

  /** Only this many characters of the job description take part in the hash. */
  const JdHashChars: nat := 100
  const JobHashLength: nat := 8

  /** The string that is hashed: company, title and the start of the description, run together. */
  function HashKey(job: JobData): (k: string)
    ensures |k| == |job.company| + |job.title| + (if |job.jd| <= JdHashChars then |job.jd| else JdHashChars)
    ensures k[..|job.company|] == job.company
    ensures k[|job.company|..|job.company| + |job.title|] == job.title
    ensures Text.IsPrefix(k[|job.company| + |job.title|..], job.jd)
  {
    var k := job.company + job.title + Take(job.jd, JdHashChars);
    Text.SlicesOfConcat(job.company, job.title, Take(job.jd, JdHashChars));
    k
  }

  function GenerateJobHash(job: JobData, md5: string -> string): (h: string)
    requires IsDigestFunction(md5)
    ensures |h| == JobHashLength
    ensures forall i :: 0 <= i < |h| ==> IsHexChar(h[i])
    ensures Text.IsPrefix(h, md5(HashKey(job)))
  {
    assert IsHexDigest(md5(HashKey(job)));
    md5(HashKey(job))[..JobHashLength]
  }

  /** Jobs that agree on company, title and the first 100 characters of the description share a hash. */
  lemma SameHashForSameKeyFields(a: JobData, b: JobData, md5: string -> string)
    requires IsDigestFunction(md5)
    requires a.company == b.company && a.title == b.title
    requires Take(a.jd, JdHashChars) == Take(b.jd, JdHashChars)
    ensures GenerateJobHash(a, md5) == GenerateJobHash(b, md5)
  {
  }

  /** Text after the first 100 characters of the description never affects the hash. */
  lemma HashIgnoresDescriptionTail(job: JobData, tail: string, md5: string -> string)
    requires IsDigestFunction(md5)
    requires |job.jd| >= JdHashChars
    ensures GenerateJobHash(job.(jd := job.jd + tail), md5) == GenerateJobHash(job, md5)
  {
    assert (job.jd + tail)[..JdHashChars] == job.jd[..JdHashChars];
  }

  /**
   Company and title are concatenated without a separator, so moving characters
   from the end of the company to the start of the title yields the same hash.
   */
  lemma HashKeyBoundaryIsInvisible(company: string, title: string, jd: string, k: nat, md5: string -> string)
    requires IsDigestFunction(md5)
    requires k <= |company|
    ensures var moved := JobData(company[..k], company[k..] + title, jd);
      GenerateJobHash(moved, md5) == GenerateJobHash(JobData(company, title, jd), md5)
  {
    assert company[..k] + (company[k..] + title) == company + title;
  }

  // ---------------------------------------------------------------------------
  // Truthfulness check

  datatype Experience = Experience(company: string, title: string, duration: string, bullets: seq<string>)

  datatype Warning =
    | NewCompaniesAdded(companies: set<string>)
    | AddedBullets(company: string)
    | NewTitlesAdded(titles: set<string>)

  datatype Report = Report(passed: bool, warnings: seq<Warning>, changes: seq<string>)

  function Companies(exps: seq<Experience>): set<string> {
    set e | e in exps :: e.company
  }

  /** Position `i` exists in both lists and the tailored entry there has more bullets. */
  predicate GrownAt(original: seq<Experience>, tailored: seq<Experience>, i: int) {
    0 <= i < |original| && i < |tailored| && |tailored[i].bullets| > |original[i].bullets|
  }

  /** The bullet-count comparison over `zip(original, tailored)`. */
  function BulletWarnings(original: seq<Experience>, tailored: seq<Experience>): (ws: seq<Warning>)
    ensures |ws| <= |original| && |ws| <= |tailored|
    ensures forall j :: 0 <= j < |ws| ==> ws[j].AddedBullets?
    decreases |original|
  {
    if |original| == 0 || |tailored| == 0 then []
    else
      (if GrownAt(original, tailored, 0) then [AddedBullets(original[0].company)] else [])
      + BulletWarnings(original[1..], tailored[1..])
  }

  /** Every bullet warning names the original company at a position whose bullet list grew. */
  lemma {:induction false} BulletWarningsSound(original: seq<Experience>, tailored: seq<Experience>, j: int)
    requires 0 <= j < |BulletWarnings(original, tailored)|
    ensures exists i :: GrownAt(original, tailored, i) && BulletWarnings(original, tailored)[j] == AddedBullets(original[i].company)
    decreases |original|
  {
    var ws := BulletWarnings(original, tailored);
    var rest := BulletWarnings(original[1..], tailored[1..]);
    if GrownAt(original, tailored, 0) && j == 0 {
      assert ws[0] == AddedBullets(original[0].company);
    } else {
      var k := if GrownAt(original, tailored, 0) then j - 1 else j;
      assert ws[j] == rest[k];
      BulletWarningsSound(original[1..], tailored[1..], k);
      var i :| GrownAt(original[1..], tailored[1..], i) && rest[k] == AddedBullets(original[1..][i].company);
      assert GrownAt(original, tailored, i + 1);
    }
  }

  /** No bullet warning exactly when no common position has more tailored bullets than original ones. */
  lemma {:induction false} BulletWarningsEmpty(original: seq<Experience>, tailored: seq<Experience>)
    ensures BulletWarnings(original, tailored) == [] <==> forall i :: !GrownAt(original, tailored, i)
    decreases |original|
  {
    if |original| > 0 && |tailored| > 0 {
      BulletWarningsEmpty(original[1..], tailored[1..]);
      if BulletWarnings(original, tailored) == [] {
        forall i ensures !GrownAt(original, tailored, i) {
          if i > 0 {
            assert !GrownAt(original[1..], tailored[1..], i - 1);
          }
        }
      } else if !GrownAt(original, tailored, 0) {
        var i :| GrownAt(original[1..], tailored[1..], i);
        assert GrownAt(original, tailored, i + 1);
      }
    }
  }

  /** The comparison walks the common positions left to right, one warning per grown position. */
  lemma {:induction false} BulletWarningsStep(original: seq<Experience>, tailored: seq<Experience>, a: Experience, b: Experience)
    requires |original| == |tailored|
    ensures BulletWarnings(original + [a], tailored + [b]) ==
      BulletWarnings(original, tailored) + (if |b.bullets| > |a.bullets| then [AddedBullets(a.company)] else [])
    decreases |original|
  {
    if |original| == 0 {
    } else {
      assert (original + [a])[1..] == original[1..] + [a];
      assert (tailored + [b])[1..] == tailored[1..] + [b];
      BulletWarningsStep(original[1..], tailored[1..], a, b);
    }
  }

  /** Entries beyond the shorter list are never examined. */
  lemma {:induction false} BulletWarningsIgnoreExtraEntries(original: seq<Experience>, tailored: seq<Experience>, extra: seq<Experience>)
    requires |tailored| >= |original|
    ensures BulletWarnings(original, tailored + extra) == BulletWarnings(original, tailored)
    decreases |original|
  {
    if |original| > 0 {
      assert (tailored + extra)[1..] == tailored[1..] + extra;
      BulletWarningsIgnoreExtraEntries(original[1..], tailored[1..], extra);
    }
  }

  /** The same on the other side: original entries beyond the tailored list are never examined. */
  lemma {:induction false} BulletWarningsIgnoreExtraOriginals(original: seq<Experience>, tailored: seq<Experience>, extra: seq<Experience>)
    requires |original| >= |tailored|
    ensures BulletWarnings(original + extra, tailored) == BulletWarnings(original, tailored)
    decreases |tailored|
  {
    if |tailored| > 0 {
      assert (original + extra)[1..] == original[1..] + extra;
      assert (original + extra)[0] == original[0];
      BulletWarningsIgnoreExtraOriginals(original[1..], tailored[1..], extra);
    }
  }

  /**
   The report passes exactly when every tailored company already appears in the
   original; a single warning lists the new companies; bullet growth only adds
   warnings; the list of changes stays empty.
   */
  function ValidateTruthfulness(original: seq<Experience>, tailored: seq<Experience>): (r: Report)
    ensures r.passed <==> Companies(tailored) <= Companies(original)
    ensures r.changes == []
    ensures !r.passed ==> |r.warnings| >= 1 && r.warnings[0] == NewCompaniesAdded(Companies(tailored) - Companies(original))
    ensures r.warnings[(if r.passed then 0 else 1)..] == BulletWarnings(original, tailored)
    ensures forall j :: 0 <= j < |r.warnings| ==> (r.warnings[j].NewCompaniesAdded? <==> j == 0 && !r.passed)
  {
    var added := Companies(tailored) - Companies(original);
    DifferenceEmpty(Companies(tailored), Companies(original));
    var report := Report(true, [], []);
    var report := if added != {} then report.(passed := false, warnings := report.warnings + [NewCompaniesAdded(added)]) else report;
    report.(warnings := report.warnings + BulletWarnings(original, tailored))
  }

  lemma DifferenceEmpty<T>(a: set<T>, b: set<T>)
    ensures a - b == {} <==> a <= b
  {
    if a - b == {} {
      forall x | x in a ensures x in b {
        assert x !in a - b;
      }
    }
  }

  /** Bullet growth never fails the check: only the company sets decide `passed`. */
  lemma PassedIgnoresBullets(original: seq<Experience>, tailored: seq<Experience>, tailored': seq<Experience>)
    requires Companies(tailored) == Companies(tailored')
    ensures ValidateTruthfulness(original, tailored).passed == ValidateTruthfulness(original, tailored').passed
  {
  }

  /** A tailored entry that keeps its company but claims a different title passes without any warning. */
  lemma NewTitleGoesUnnoticed()
    ensures var original := [Experience("Tech Corp", "Software Engineer", "2022 - Present", ["Built services"])];
      var tailored := [Experience("Tech Corp", "Chief Technology Officer", "2022 - Present", ["Built services"])];
      ValidateTruthfulness(original, tailored) == Report(true, [], [])
  {
    var original := [Experience("Tech Corp", "Software Engineer", "2022 - Present", ["Built services"])];
    var tailored := [Experience("Tech Corp", "Chief Technology Officer", "2022 - Present", ["Built services"])];
    assert Companies(tailored) == {"Tech Corp"} == Companies(original);
    assert !GrownAt(original, tailored, 0);
  }

  function Titles(exps: seq<Experience>): set<string> {
    set e | e in exps :: e.title
  }

  /**
   The check the code's own comment describes: a new company or a new title
   fails it. The new titles are reported by one warning placed right after the
   company warning, and everything else is as in `ValidateTruthfulness`.
   */
  function ValidateTruthfulnessWithTitles(original: seq<Experience>, tailored: seq<Experience>): (r: Report)
    ensures r.passed <==> Companies(tailored) <= Companies(original) && Titles(tailored) <= Titles(original)
    ensures r.changes == []
    ensures var v := ValidateTruthfulness(original, tailored);
      Titles(tailored) <= Titles(original) ==> r.warnings == v.warnings
    ensures var v := ValidateTruthfulness(original, tailored);
      var c := if v.passed then 0 else 1;
      !(Titles(tailored) <= Titles(original)) ==>
        r.warnings == v.warnings[..c] + [NewTitlesAdded(Titles(tailored) - Titles(original))] + v.warnings[c..]
  {
    var addedCompanies := Companies(tailored) - Companies(original);
    var addedTitles := Titles(tailored) - Titles(original);
    DifferenceEmpty(Companies(tailored), Companies(original));
    DifferenceEmpty(Titles(tailored), Titles(original));
    var companyWarnings := if addedCompanies != {} then [NewCompaniesAdded(addedCompanies)] else [];
    var titleWarnings := if addedTitles != {} then [NewTitlesAdded(addedTitles)] else [];
    var v := ValidateTruthfulness(original, tailored);
    assert v.warnings == companyWarnings + BulletWarnings(original, tailored);
    Report(addedCompanies == {} && addedTitles == {},
           companyWarnings + titleWarnings + BulletWarnings(original, tailored), [])
  }

  /** The corrected check fails the changed title that the code as written lets through. */
  lemma NewTitleNowReported()
    ensures var original := [Experience("Tech Corp", "Software Engineer", "2022 - Present", ["Built services"])];
      var tailored := [Experience("Tech Corp", "Chief Technology Officer", "2022 - Present", ["Built services"])];
      ValidateTruthfulnessWithTitles(original, tailored) ==
        Report(false, [NewTitlesAdded({"Chief Technology Officer"})], [])
  {
    var original := [Experience("Tech Corp", "Software Engineer", "2022 - Present", ["Built services"])];
    var tailored := [Experience("Tech Corp", "Chief Technology Officer", "2022 - Present", ["Built services"])];
    assert Companies(tailored) == {"Tech Corp"} == Companies(original);
    assert Titles(tailored) == {"Chief Technology Officer"};
    assert Titles(original) == {"Software Engineer"};
    assert Titles(tailored) - Titles(original) == {"Chief Technology Officer"};
    assert !GrownAt(original, tailored, 0);
    assert BulletWarnings(original, tailored) == [] + BulletWarnings(original[1..], tailored[1..]);
  }

  // ---------------------------------------------------------------------------
  // Assembly of the tailored resume

  datatype Json =
    | JNull
    | JBool(b: bool)
    | JInt(i: int)
    | JStr(s: string)
    | JArr(items: seq<Json>)
    | JObj(fields: map<string, Json>)

  datatype TailorError = MissingKey(key: string)

  const ReservedKeys: set<string> := {"tailored_experience", "tailored_skills", "metadata"}
  /** The five keys of the metadata object, and no others. */
  const MetadataKeys: set<string> := {"job_hash", "company", "title", "tailored_date", "master_resume_version"}

  function Metadata(master: map<string, Json>, job: JobData, tailoredDate: string, md5: string -> string): map<string, Json>
    requires IsDigestFunction(md5)
  {
    map[
      "job_hash" := JStr(GenerateJobHash(job, md5)),
      "company" := JStr(job.company),
      "title" := JStr(job.title),
      "tailored_date" := JStr(tailoredDate),
      "master_resume_version" := if "version" in master then master["version"] else JStr("1.0")
    ]
  }

  /**
   `{**master_resume, "tailored_experience": ..., "tailored_skills": ..., "metadata": {...}}`
   built from the parsed reply; a reply without "experience" or "skills" raises `KeyError`.
   */
  function AssembleTailoredResume(master: map<string, Json>, job: JobData, reply: map<string, Json>,
                                  tailoredDate: string, md5: string -> string): (r: Results.Result<map<string, Json>, TailorError>)
    requires IsDigestFunction(md5)
    ensures r.Err? <==> "experience" !in reply || "skills" !in reply
    ensures r.Err? ==> r.error == MissingKey(if "experience" !in reply then "experience" else "skills")
    ensures r.Ok? ==> r.value.Keys == master.Keys + ReservedKeys
    ensures r.Ok? ==> forall k :: k in master && k !in ReservedKeys ==> r.value[k] == master[k]
    ensures r.Ok? ==> r.value["tailored_experience"] == reply["experience"] && r.value["tailored_skills"] == reply["skills"]
    ensures r.Ok? ==> (r.value["metadata"].JObj? &&
      var meta := r.value["metadata"].fields;
      && "job_hash" in meta && meta["job_hash"] == JStr(GenerateJobHash(job, md5))
      && "master_resume_version" in meta
      && meta["master_resume_version"] == (if "version" in master then master["version"] else JStr("1.0"))
      && "company" in meta && meta["company"] == JStr(job.company)
      && "title" in meta && meta["title"] == JStr(job.title)
      && meta.Keys == MetadataKeys
      && meta["tailored_date"] == JStr(tailoredDate))
  {
    if "experience" !in reply then Results.Err(MissingKey("experience"))
    else if "skills" !in reply then Results.Err(MissingKey("skills"))
    else
      Results.Ok(master
        ["tailored_experience" := reply["experience"]]
        ["tailored_skills" := reply["skills"]]
        ["metadata" := JObj(Metadata(master, job, tailoredDate, md5))])
  }

  // ---------------------------------------------------------------------------
  // Reading the score back from the metadata

  /** Python's `d.get(key, default)`. */
  function GetOr(fields: map<string, Json>, key: string, default: Json): Json {
    if key in fields then fields[key] else default
  }

  const DefaultAlignmentScore: Json := JInt(85)

  /** `metadata.get('alignment_score', 85)`: the score an application record takes from a tailored resume. */
  function RecordedScore(tailored: map<string, Json>): Json
    requires "metadata" in tailored && tailored["metadata"].JObj?
  {
    GetOr(tailored["metadata"].fields, "alignment_score", DefaultAlignmentScore)
  }

  /** `metadata.get('key_matches', [])`. */
  function RecordedKeyMatches(tailored: map<string, Json>): Json
    requires "metadata" in tailored && tailored["metadata"].JObj?
  {
    GetOr(tailored["metadata"].fields, "key_matches", JArr([]))
  }

  /**
   The reply's "alignment_score" and "key_matches", which the prompt asks the
   model for, never reach the metadata, so reading them back always gives the
   defaults, whatever the reply holds.
   */
  lemma AlignmentScoreAlwaysDefault(master: map<string, Json>, job: JobData, reply: map<string, Json>,
                                    tailoredDate: string, md5: string -> string)
    requires IsDigestFunction(md5)
    ensures var r := AssembleTailoredResume(master, job, reply, tailoredDate, md5);
      r.Ok? ==> RecordedScore(r.value) == DefaultAlignmentScore && RecordedKeyMatches(r.value) == JArr([])
  {
    var r := AssembleTailoredResume(master, job, reply, tailoredDate, md5);
    if r.Ok? {
      assert "alignment_score" !in MetadataKeys && "key_matches" !in MetadataKeys;
    }
  }

  /** The reply's entries for `key`, if it has one, as a one-entry map. */
  function CarriedOver(reply: map<string, Json>, key: string): (m: map<string, Json>)
    ensures m.Keys == (if key in reply then {key} else {})
    ensures key in reply ==> m[key] == reply[key]
  {
    if key in reply then map[key := reply[key]] else map[]
  }

  /**
   The assembly with the reply's alignment score and key matches carried into
   the metadata: the record then reads the reply's values, and falls back to
   the defaults only when the reply lacks them. Everything else is as in
   `AssembleTailoredResume`.
   */
  function AssembleTailoredResumeWithScores(master: map<string, Json>, job: JobData, reply: map<string, Json>,
                                            tailoredDate: string, md5: string -> string): (r: Results.Result<map<string, Json>, TailorError>)
    requires IsDigestFunction(md5)
    ensures var asWritten := AssembleTailoredResume(master, job, reply, tailoredDate, md5);
      r.Err? <==> asWritten.Err?
    ensures r.Err? ==> r == AssembleTailoredResume(master, job, reply, tailoredDate, md5)
    ensures r.Ok? ==> "metadata" in r.value && r.value["metadata"].JObj?
    ensures r.Ok? ==> RecordedScore(r.value) == GetOr(reply, "alignment_score", DefaultAlignmentScore)
    ensures r.Ok? ==> RecordedKeyMatches(r.value) == GetOr(reply, "key_matches", JArr([]))
    ensures var asWritten := AssembleTailoredResume(master, job, reply, tailoredDate, md5);
      r.Ok? ==> (
        && r.value.Keys == asWritten.value.Keys
        && (forall k :: k in r.value && k != "metadata" ==> r.value[k] == asWritten.value[k])
        && var meta, meta0 := r.value["metadata"].fields, asWritten.value["metadata"].fields;
           && meta.Keys == meta0.Keys + CarriedOver(reply, "alignment_score").Keys + CarriedOver(reply, "key_matches").Keys
           && forall k :: k in meta0 ==> meta[k] == meta0[k])
  {
    match AssembleTailoredResume(master, job, reply, tailoredDate, md5)
    case Err(e) => Results.Err(e)
    case Ok(t) =>
      var meta0 := t["metadata"].fields;
      CarryOverScores(meta0, reply);
      Results.Ok(t["metadata" := JObj(WithScores(meta0, reply))])
  }

  /** The metadata with the reply's score and key matches added. */
  function WithScores(meta0: map<string, Json>, reply: map<string, Json>): map<string, Json> {
    meta0 + CarriedOver(reply, "alignment_score") + CarriedOver(reply, "key_matches")
  }

  lemma CarryOverScores(meta0: map<string, Json>, reply: map<string, Json>)
    requires meta0.Keys == MetadataKeys
    ensures var meta := WithScores(meta0, reply);
      && GetOr(meta, "alignment_score", DefaultAlignmentScore) == GetOr(reply, "alignment_score", DefaultAlignmentScore)
      && GetOr(meta, "key_matches", JArr([])) == GetOr(reply, "key_matches", JArr([]))
      && meta.Keys == meta0.Keys + CarriedOver(reply, "alignment_score").Keys + CarriedOver(reply, "key_matches").Keys
      && forall k :: k in meta0 ==> meta[k] == meta0[k]
  {
    assert "alignment_score" !in meta0 && "key_matches" !in meta0;
  }
}
