/**
 The client-side analysis pipeline `analyzeResume` of the `useAIAnalysis`
 hook. Each backend call is replaced by the outcome the service would give:
 a response that is not OK, a thrown value (a network failure or a body
 that does not decode), or an OK response with its decoded body. The
 pipeline is sequential: parse, classify, the optional skill-gap call, the
 ATS call, then the derived readiness scores and fallback recommendations.
 The result records the report, the final `isLoading` and `error` slots of
 the hook, and the services called, in order.
 */
module AnalysisEngine {
  import opened Wrappers
  import opened Api
  import RoleClassifier
  import SkillGapService
  import AtsScoring

  // ---- service outcomes ----

  /** What a `catch` receives: an `Error` object with its message, or any other value. */
  datatype Thrown = ErrorObject(message: string) | NonErrorValue

  datatype Outcome<+T> = NotOk | Threw(thrown: Thrown) | Ok(body: T)

  /** The decoded `/parse_resume` body; the optional fields may be absent. */
  datatype ParseBody = ParseBody(
    text: string,
    contact: Option<Contact>,
    sections: Option<map<string, string>>,
    skills: Option<seq<string>>)

  /** The decoded `/classify_resume` body. */
  datatype ClassifyBody = ClassifyBody(classifications: seq<Classification>)

  /** The decoded `/skill_gap` body; both lists may be absent. */
  datatype GapBody = GapBody(missingSkills: Option<seq<string>>, recommendations: Option<seq<string>>)

  /** The decoded `/ats_score` body; both fields may be absent. */
  datatype AtsBody = AtsBody(atsScore: Option<real>, suggestions: Option<seq<string>>)

  // ---- the report ----

  datatype Level = Missing | Beginner | Intermediate | Advanced

  /** Both a gap's importance and a recommendation's priority. */
  datatype Rank = High | Medium | Low

  datatype Gap = Gap(skill: string, level: Level, importance: Rank)

  datatype RecKind = Course | Certification | Project

  datatype Recommendation = Recommendation(kind: RecKind, title: string, provider: string, url: string, priority: Rank)

  datatype Readiness = Readiness(role: string, score: int)

  datatype Report = Report(
    fileName: string,
    text: string,
    contact: Contact,
    sections: map<string, string>,
    skills: seq<string>,
    classifications: seq<Classification>,
    skillGaps: seq<Gap>,
    atsScore: real,
    atsIssues: seq<string>,
    recommendations: seq<Recommendation>,
    readinessScores: seq<Readiness>)

  /** A backend request, with the payload fields that come from earlier stages. */
  datatype Call =
    | ParseCall
    | ClassifyCall(text: string)
    | SkillGapCall(role: string, skills: seq<string>)
    | AtsCall(resumeText: string, jobDescription: string)

  /** The outcome of one `analyzeResume` run. */
  datatype Run = Run(report: Report, isLoading: bool, error: Option<string>, calls: seq<Call>)

  // ---- fixed strings ----

  const PlaceholderJob := "Looking for a skilled professional with experience in software development and problem-solving abilities."
  const ParseFailed := "Failed to parse resume"
  const ClassifyFailed := "Failed to classify resume"
  const UnknownError := "An unknown error occurred"
  const AnalysisFailed := "Failed to analyze resume. Please try again."
  const AtsUnavailable := "Unable to analyze ATS compatibility at this time."
  const BackendProvider := "Skill Development"
  const BackendUrl := "https://example.com/skills"
  const FallbackProvider := "Online Learning Platform"
  const FallbackUrl := "https://example.com"

  // ---- stages ----

  /** The message the `catch` block stores: the `Error`'s message or a generic one. */
  function ErrorMessage(t: Thrown): string {
    match t
    case ErrorObject(m) => m
    case NonErrorValue => UnknownError
  }

  /** The message of a fatal stage's failure; a non-OK response throws `Error(notOk)`. */
  function FatalMessage<T>(o: Outcome<T>, notOk: string): (m: string)
    requires !o.Ok?
    ensures o.NotOk? ==> m == notOk
    ensures o.Threw? && o.thrown.ErrorObject? ==> m == o.thrown.message
    ensures o.Threw? && o.thrown.NonErrorValue? ==> m == UnknownError
  {
    if o.NotOk? then notOk else ErrorMessage(o.thrown)
  }

  const EmptyContact := Contact("", "")

  /** The report returned after a fatal failure. */
  function ErrorReport(fileName: string): (r: Report)
    ensures r.fileName == fileName && r.text == "" && r.contact == EmptyContact
    ensures r.sections == map[] && r.skills == [] && r.classifications == []
    ensures r.skillGaps == [] && r.recommendations == [] && r.readinessScores == []
    ensures r.atsScore == 0.0 && r.atsIssues == [AnalysisFailed]
  {
    Report(fileName, "", EmptyContact, map[], [], [], [], 0.0, [AnalysisFailed], [], [])
  }

  /** `topRole && parsedData.skills?.length > 0`: a present, non-empty role and a non-empty skill list. */
  predicate GapGate(p: ParseBody, c: ClassifyBody) {
    && |c.classifications| > 0
    && c.classifications[0].role != ""
    && p.skills.Some?
    && |p.skills.value| > 0
  }

  /** Each missing skill as a missing, high-importance gap. */
  function GapsOf(missing: seq<string>): (r: seq<Gap>)
    ensures |r| == |missing|
    ensures forall i :: 0 <= i < |r| ==> r[i].skill == missing[i] && r[i].level == Missing && r[i].importance == High
  {
    seq(|missing|, i requires 0 <= i < |missing| => Gap(missing[i], Missing, High))
  }

  /** Each backend advice line as a high-priority course from the skill-development provider. */
  function BackendRecommendations(advice: seq<string>): (r: seq<Recommendation>)
    ensures |r| == |advice|
    ensures forall i :: 0 <= i < |r| ==>
      r[i] == Recommendation(Course, advice[i], BackendProvider, BackendUrl, High)
  {
    seq(|advice|, i requires 0 <= i < |advice| => Recommendation(Course, advice[i], BackendProvider, BackendUrl, High))
  }

  /**
   The skill-gap stage: the gaps and backend recommendations it leaves. A
   failed or skipped call leaves both empty.
   */
  function GapStage(called: bool, gap: Outcome<GapBody>): (r: (seq<Gap>, seq<Recommendation>))
    ensures !called || !gap.Ok? ==> r == ([], [])
    ensures called && gap.Ok? ==>
      && r.0 == GapsOf(gap.body.missingSkills.GetOr([]))
      && r.1 == BackendRecommendations(gap.body.recommendations.GetOr([]))
  {
    if called && gap.Ok? then
      (GapsOf(gap.body.missingSkills.GetOr([])), BackendRecommendations(gap.body.recommendations.GetOr([])))
    else ([], [])
  }

  /** `atsData.ats_score || 0`: an absent score reads as 0. */
  function ScoreOrZero(score: Option<real>): (r: real)
    ensures score.Some? ==> r == score.value
    ensures score.None? ==> r == 0.0
  {
    score.GetOr(0.0)
  }

  /** The ATS stage: the score and issues it leaves. */
  function AtsStage(ats: Outcome<AtsBody>): (r: (real, seq<string>))
    ensures ats.NotOk? ==> r == (0.0, [])
    ensures ats.Threw? ==> r == (0.0, [AtsUnavailable])
    ensures ats.Ok? ==> r.0 == ats.body.atsScore.GetOr(0.0) && r.1 == ats.body.suggestions.GetOr([])
  {
    match ats
    case NotOk => (0.0, [])
    case Threw(_) => (0.0, [AtsUnavailable])
    case Ok(body) => (ScoreOrZero(body.atsScore), body.suggestions.GetOr([]))
  }

  /**
   `Math.round(confidence * 0.9)` for a confidence of `h` hundredths: the
   nearest integer to `9h/1000`, halves rounding up.
   */
  function RoundedReadiness(h: int): (s: int)
    ensures 1000 * s <= 9 * h + 500 < 1000 * s + 1000
  {
    (9 * h + 500) / 1000
  }

  function ReadinessOf(cls: seq<Classification>): (r: seq<Readiness>)
    ensures |r| == |cls|
    ensures forall i :: 0 <= i < |r| ==> r[i].role == cls[i].role && r[i].score == RoundedReadiness(cls[i].confidence)
  {
    seq(|cls|, i requires 0 <= i < |cls| => Readiness(cls[i].role, RoundedReadiness(cls[i].confidence)))
  }

  /** A "Learn" course for every high-importance gap, in order. */
  function LearnCourses(gaps: seq<Gap>): (r: seq<Recommendation>)
    ensures |r| <= |gaps|
    ensures forall k :: 0 <= k < |r| ==> r[k].provider == FallbackProvider && r[k].url == FallbackUrl
    ensures (forall i :: 0 <= i < |gaps| ==> gaps[i].importance == High) ==>
      |r| == |gaps| && forall i :: 0 <= i < |r| ==> r[i].title == "Learn " + gaps[i].skill
  {
    if |gaps| == 0 then []
    else
      var rest := LearnCourses(gaps[1..]);
      assert forall i :: 1 <= i < |gaps| ==> gaps[1..][i - 1] == gaps[i];
      if gaps[0].importance == High then
        [Recommendation(Course, "Learn " + gaps[0].skill, FallbackProvider, FallbackUrl, High)] + rest
      else rest
  }

  /** The final recommendations: synthesised courses only when the backend gave none and there are gaps. */
  function WithFallback(backend: seq<Recommendation>, gaps: seq<Gap>): (r: seq<Recommendation>)
    ensures |backend| == 0 && |gaps| > 0 ==> r == LearnCourses(gaps)
    ensures !(|backend| == 0 && |gaps| > 0) ==> r == backend
  {
    if |backend| == 0 && |gaps| > 0 then LearnCourses(gaps) else backend
  }

  // ---- the pipeline ----

  /** `analyzeResume(file, content)` for a file called `fileName`. */
  function AnalyzeResume(
    fileName: string,
    parse: Outcome<ParseBody>,
    classify: Outcome<ClassifyBody>,
    gap: Outcome<GapBody>,
    ats: Outcome<AtsBody>): (run: Run)
    // the hook always ends idle
    ensures !run.isLoading
    // the fatal stages
    ensures |run.calls| >= 1 && run.calls[0] == ParseCall
    ensures !parse.Ok? ==> run.calls == [ParseCall] && run.error == Some(FatalMessage(parse, ParseFailed))
    ensures parse.Ok? && !classify.Ok? ==>
      && run.calls == [ParseCall, ClassifyCall(parse.body.text)]
      && run.error == Some(FatalMessage(classify, ClassifyFailed))
    ensures run.error.Some? <==> !(parse.Ok? && classify.Ok?)
    ensures run.error.Some? ==> run.report == ErrorReport(fileName)
    // a run past classification
    ensures run.error.None? ==>
      && |run.calls| == (if GapGate(parse.body, classify.body) then 4 else 3)
      && run.calls[1] == ClassifyCall(parse.body.text)
      && run.calls[|run.calls| - 1] == AtsCall(parse.body.text, PlaceholderJob)
      && (forall k :: 0 <= k < |run.calls| - 1 ==> !run.calls[k].AtsCall?)
      && (|run.calls| == 4 ==>
            run.calls[2] == SkillGapCall(classify.body.classifications[0].role, parse.body.skills.value))
      && (forall k :: 0 <= k < |run.calls| && k != 2 ==> !run.calls[k].SkillGapCall?)
    ensures run.error.None? ==>
      && run.report.fileName == fileName
      && run.report.text == parse.body.text
      && run.report.contact == parse.body.contact.GetOr(EmptyContact)
      && run.report.sections == parse.body.sections.GetOr(map[])
      && run.report.skills == parse.body.skills.GetOr([])
      && run.report.classifications == classify.body.classifications
    // the skill-gap stage
    ensures run.error.None? && !(GapGate(parse.body, classify.body) && gap.Ok?) ==>
      run.report.skillGaps == [] && run.report.recommendations == []
    ensures run.error.None? && GapGate(parse.body, classify.body) && gap.Ok? ==>
      && |run.report.skillGaps| == |gap.body.missingSkills.GetOr([])|
      && forall i :: 0 <= i < |run.report.skillGaps| ==>
           run.report.skillGaps[i] == Gap(gap.body.missingSkills.value[i], Missing, High)
    // the ATS stage
    ensures run.error.None? ==> (run.report.atsScore, run.report.atsIssues) == AtsStage(ats)
    // readiness
    ensures run.error.None? ==>
      && |run.report.readinessScores| == |classify.body.classifications|
      && forall i :: 0 <= i < |run.report.readinessScores| ==>
           && run.report.readinessScores[i].role == classify.body.classifications[i].role
           && run.report.readinessScores[i].score == RoundedReadiness(classify.body.classifications[i].confidence)
  {
    if !parse.Ok? then
      Run(ErrorReport(fileName), false, Some(FatalMessage(parse, ParseFailed)), [ParseCall])
    else
      var p := parse.body;
      if !classify.Ok? then
        Run(ErrorReport(fileName), false, Some(FatalMessage(classify, ClassifyFailed)), [ParseCall, ClassifyCall(p.text)])
      else
        var cls := classify.body.classifications;
        var gated := GapGate(p, classify.body);
        var gapCalls := if gated then [SkillGapCall(cls[0].role, p.skills.value)] else [];
        var (gaps, backendRecs) := GapStage(gated, gap);
        var (score, issues) := AtsStage(ats);
        var report := Report(
          fileName, p.text, p.contact.GetOr(EmptyContact), p.sections.GetOr(map[]), p.skills.GetOr([]), cls,
          gaps, score, issues, WithFallback(backendRecs, gaps), ReadinessOf(cls));
        Run(report, false, None, [ParseCall, ClassifyCall(p.text)] + gapCalls + [AtsCall(p.text, PlaceholderJob)])
  }

  // ---- properties of whole runs ----

  /**
   The skill-gap endpoint is called exactly when parsing and classification
   succeeded, the top classification names a non-empty role and the parsed
   skill list is present and non-empty; it is then called once, third, with
   that role and those skills.
   */
  lemma SkillGapCalledExactlyWhen(
    fileName: string, parse: Outcome<ParseBody>, classify: Outcome<ClassifyBody>,
    gap: Outcome<GapBody>, ats: Outcome<AtsBody>)
    ensures var run := AnalyzeResume(fileName, parse, classify, gap, ats);
      (exists i :: 0 <= i < |run.calls| && run.calls[i].SkillGapCall?) <==>
        && parse.Ok? && classify.Ok?
        && |classify.body.classifications| > 0 && classify.body.classifications[0].role != ""
        && parse.body.skills.Some? && |parse.body.skills.value| > 0
    ensures var run := AnalyzeResume(fileName, parse, classify, gap, ats);
      forall i :: 0 <= i < |run.calls| && run.calls[i].SkillGapCall? ==>
        && i == 2
        && parse.Ok? && classify.Ok?
        && |classify.body.classifications| > 0 && parse.body.skills.Some?
        && run.calls[i] == SkillGapCall(classify.body.classifications[0].role, parse.body.skills.value)
  {
    var run := AnalyzeResume(fileName, parse, classify, gap, ats);
    if parse.Ok? && classify.Ok? && GapGate(parse.body, classify.body) {
      assert run.calls[2].SkillGapCall?;
    }
  }

  /**
   The two origins of recommendations never mix: after a successful run
   they are all backend advice or all synthesised "Learn" courses, and the
   synthesised ones appear exactly when the backend gave none but there are
   gaps, one per gap.
   */
  lemma RecommendationOrigins(
    fileName: string, parse: Outcome<ParseBody>, classify: Outcome<ClassifyBody>,
    gap: Outcome<GapBody>, ats: Outcome<AtsBody>)
    requires AnalyzeResume(fileName, parse, classify, gap, ats).error.None?
    ensures var r := AnalyzeResume(fileName, parse, classify, gap, ats).report;
      || (forall k :: 0 <= k < |r.recommendations| ==> r.recommendations[k].provider == BackendProvider)
      || (forall k :: 0 <= k < |r.recommendations| ==> r.recommendations[k].provider == FallbackProvider)
    ensures var r := AnalyzeResume(fileName, parse, classify, gap, ats).report;
      var backend := if GapGate(parse.body, classify.body) && gap.Ok? then gap.body.recommendations.GetOr([]) else [];
      && (|backend| > 0 ==> r.recommendations == BackendRecommendations(backend))
      && (|backend| == 0 ==>
            && |r.recommendations| == |r.skillGaps|
            && forall i :: 0 <= i < |r.recommendations| ==>
                 r.recommendations[i] == Recommendation(Course, "Learn " + r.skillGaps[i].skill, FallbackProvider, FallbackUrl, High))
  {
    var r := AnalyzeResume(fileName, parse, classify, gap, ats).report;
    var gated := GapGate(parse.body, classify.body);
    var (gaps, backendRecs) := GapStage(gated, gap);
    assert r.skillGaps == gaps;
    assert r.recommendations == WithFallback(backendRecs, gaps);
    assert forall i :: 0 <= i < |gaps| ==> gaps[i].importance == High;
    var learn := LearnCourses(gaps);
    forall i | 0 <= i < |learn|
      ensures learn[i] == Recommendation(Course, "Learn " + gaps[i].skill, FallbackProvider, FallbackUrl, High)
    {
      LearnCoursesAt(gaps, i);
    }
  }

  /** The `i`-th "Learn" course when every gap is of high importance. */
  lemma {:induction false} LearnCoursesAt(gaps: seq<Gap>, i: nat)
    requires forall k :: 0 <= k < |gaps| ==> gaps[k].importance == High
    requires i < |gaps|
    ensures i < |LearnCourses(gaps)|
    ensures LearnCourses(gaps)[i] == Recommendation(Course, "Learn " + gaps[i].skill, FallbackProvider, FallbackUrl, High)
  {
    if i > 0 {
      LearnCoursesAt(gaps[1..], i - 1);
    }
  }

  /**
   A response the skill-gap service actually produces carries one
   recommendation per missing skill, so it never triggers the fallback.
   */
  lemma ServiceGapNeverFallsBack(
    fileName: string, parse: Outcome<ParseBody>, classify: Outcome<ClassifyBody>,
    g: SkillGapService.GapReport, ats: Outcome<AtsBody>)
    requires |g.recommendations| == |g.missingSkills|
    requires AnalyzeResume(fileName, parse, classify, Ok(GapBody(Some(g.missingSkills), Some(g.recommendations))), ats).error.None?
    ensures var r := AnalyzeResume(fileName, parse, classify, Ok(GapBody(Some(g.missingSkills), Some(g.recommendations))), ats).report;
      forall k :: 0 <= k < |r.recommendations| ==> r.recommendations[k].provider == BackendProvider
  {
    var gap := Ok(GapBody(Some(g.missingSkills), Some(g.recommendations)));
    var r := AnalyzeResume(fileName, parse, classify, gap, ats).report;
    var (gaps, backendRecs) := GapStage(GapGate(parse.body, classify.body), gap);
    assert r.recommendations == WithFallback(backendRecs, gaps);
  }

  /**
   The report the ATS service computes for the parsed text and the
   placeholder job reaches the report unchanged: its score, in [0, 100], and
   its suggestions, at most ten, as the issues.
   */
  lemma ServiceAtsReportShown(
    fileName: string, parse: Outcome<ParseBody>, classify: Outcome<ClassifyBody>, gap: Outcome<GapBody>)
    requires parse.Ok? && classify.Ok?
    ensures var a := AtsScoring.AtsScore(parse.body.text, PlaceholderJob);
      var r := AnalyzeResume(fileName, parse, classify, gap, Ok(AtsBody(Some(a.score), Some(a.suggestions)))).report;
      && r.atsScore == a.score
      && 0.0 <= r.atsScore <= 100.0
      && r.atsIssues == a.suggestions
      && |r.atsIssues| <= AtsScoring.SuggestionLimit
  {
  }

  /** Rounding `0.9·confidence` never raises a whole, non-negative confidence. */
  lemma ReadinessNeverExceedsWholeConfidence(c: int)
    requires c >= 0
    ensures RoundedReadiness(100 * c) <= c
  {
  }

  /** A fractional confidence can round up past itself: 0.56 gives a readiness of 1. */
  lemma ReadinessCanExceedFractionalConfidence()
    ensures RoundedReadiness(56) == 1
  {
  }

  /** Rounding is monotone: a higher confidence never gets a lower readiness. */
  lemma RoundedReadinessMonotone(h: int, k: int)
    requires h <= k
    ensures RoundedReadiness(h) <= RoundedReadiness(k)
  {
  }

  /**
   For a classification the backend produces, the readiness scores keep the
   ranking: they are non-increasing, and there are at most three.
   */
  lemma ReadinessKeepsRanking(
    fileName: string, parse: Outcome<ParseBody>, text: Option<string>, sims: seq<int>,
    gap: Outcome<GapBody>, ats: Outcome<AtsBody>)
    requires RoleClassifier.ClassifyResume(text, sims).Success?
    requires parse.Ok?
    ensures var run := AnalyzeResume(fileName, parse, Ok(ClassifyBody(RoleClassifier.ClassifyResume(text, sims).value)), gap, ats);
      && run.error.None?
      && |run.report.readinessScores| <= RoleClassifier.TopCount
      && forall i, j :: 0 <= i < j < |run.report.readinessScores| ==>
           run.report.readinessScores[i].score >= run.report.readinessScores[j].score
  {
    var cls := RoleClassifier.ClassifyResume(text, sims).value;
    var rs := AnalyzeResume(fileName, parse, Ok(ClassifyBody(cls)), gap, ats).report.readinessScores;
    forall i, j | 0 <= i < j < |rs| ensures rs[i].score >= rs[j].score {
      RoundedReadinessMonotone(cls[j].confidence, cls[i].confidence);
    }
  }
}
