/** Composite scoring of one candidate: experience relevance, the 0.7/0.3
    weighted overall score, rounding to three decimals, and the reported
    record with its skill gaps and strengths. Values are exact reals. */
module Scoring {
  import opened Text
  import opened Skills

  /** A parsed candidate profile, with every field already defaulted. */
  datatype Profile = Profile(rawText: string, technicalSkills: seq<string>, experienceYears: real)

  datatype Breakdown = Breakdown(semantic: real, experienceRelevance: real, skillMatch: real)

  /** What scoring one candidate returns. */
  datatype CandidateScore = CandidateScore(
    overallScore: real,
    breakdown: Breakdown,
    skillGaps: seq<string>,
    strengths: seq<string>)

  const ExperienceCap: real := 8.0
  const SemanticWeight: real := 0.7
  const ExperienceWeight: real := 0.3

  /** `min(exp / 8.0, 1.0)`. */
  function ExperienceRelevance(years: real): (r: real)
    ensures r <= 1.0
    ensures years >= ExperienceCap ==> r == 1.0
    ensures years <= ExperienceCap ==> r == years / ExperienceCap
    ensures years >= 0.0 ==> 0.0 <= r
  {
    if 1.0 < years / ExperienceCap then 1.0 else years / ExperienceCap
  }

  /** `0.7 * sim + 0.3 * exp_score`. */
  function Overall(similarity: real, experience: real): (r: real)
    ensures 0.0 <= similarity <= 1.0 && 0.0 <= experience <= 1.0 ==> 0.0 <= r <= 1.0
    ensures similarity == experience ==> r == similarity
  {
    SemanticWeight * similarity + ExperienceWeight * experience
  }

  /** A higher similarity or more experience never lowers the overall score. */
  lemma OverallMonotone(sim1: real, years1: real, sim2: real, years2: real)
    requires sim1 <= sim2 && years1 <= years2
    ensures Overall(sim1, ExperienceRelevance(years1)) <= Overall(sim2, ExperienceRelevance(years2))
  {
  }

  /** The nearest integer to `v`, ties going to the even one. */
  function RoundHalfEven(v: real): (m: int)
    ensures -0.5 <= v - m as real <= 0.5
    ensures v - m as real == 0.5 || m as real - v == 0.5 ==> m % 2 == 0
  {
    var n := v.Floor;
    var fraction := v - n as real;
    if fraction > 0.5 || (fraction == 0.5 && n % 2 == 1) then n + 1 else n
  }

  lemma RoundHalfEvenMonotone(v: real, w: real)
    requires v <= w
    ensures RoundHalfEven(v) <= RoundHalfEven(w)
  {
  }

  /** `round(x, 3)`: a whole number of thousandths, at most half a thousandth
      away from `x`; [0, 1] is kept. */
  function Round3(x: real): (r: real)
    ensures r * 1000.0 == RoundHalfEven(x * 1000.0) as real
    ensures -0.0005 <= r - x <= 0.0005
    ensures 0.0 <= x <= 1.0 ==> 0.0 <= r <= 1.0
  {
    RoundHalfEven(x * 1000.0) as real / 1000.0
  }

  /** Rounding never reverses an order, though it may merge two values. */
  lemma Round3Monotone(x: real, y: real)
    requires x <= y
    ensures Round3(x) <= Round3(y)
  {
    RoundHalfEvenMonotone(x * 1000.0, y * 1000.0);
  }

  /** Two candidates whose similarities differ by 0.0001 report the same
      overall score, so the ranking treats them as tied. */
  lemma CloseScoresReportTied()
    ensures Overall(0.6, 0.5) < Overall(0.6001, 0.5)
    ensures Round3(Overall(0.6, 0.5)) == Round3(Overall(0.6001, 0.5)) == 0.57
  {
  }

  /** `_score_candidate`, given the semantic similarity of the description and
      the anonymized resume text. The reported skill match is the rounded
      share of the required skills the candidate has, except that at most
      10 missing skills are counted. */
  function ScoreCandidate(jobDescription: string, profile: Profile, similarity: real): (r: CandidateScore)
    ensures var required := RequiredSkills(jobDescription);
      var common := CandidateSkills(profile.technicalSkills) * required;
      var missing := required - CandidateSkills(profile.technicalSkills);
      r.breakdown.skillMatch == Round3(
        if required == {} then 0.0
        else if |missing| <= 10 then |common| as real / |required| as real
        else |common| as real / (|common| + 10) as real)
  {
    var skills := AnalyzeSkills(jobDescription, profile.technicalSkills);
    var experience := ExperienceRelevance(profile.experienceYears);
    SkillMatchOfRequired(skills.required, skills.candidate);
    CandidateScore(
      Round3(Overall(similarity, experience)),
      Breakdown(Round3(similarity), Round3(experience), Round3(SkillMatch(|skills.overlaps|, |skills.gaps|))),
      Take(skills.gaps, 5),
      Strengths(skills.overlaps))
  }

  /** The breakdown and the overall score of a reported score lie in [0, 1]
      when the similarity does and experience is not negative. */
  lemma ScoreBounds(jobDescription: string, profile: Profile, similarity: real)
    ensures var r := ScoreCandidate(jobDescription, profile, similarity);
      && (0.0 <= similarity <= 1.0 ==> 0.0 <= r.breakdown.semantic <= 1.0)
      && (profile.experienceYears >= 0.0 ==> 0.0 <= r.breakdown.experienceRelevance <= 1.0)
      && 0.0 <= r.breakdown.skillMatch <= 1.0
      && (0.0 <= similarity <= 1.0 && profile.experienceYears >= 0.0 ==> 0.0 <= r.overallScore <= 1.0)
  {
    var skills := AnalyzeSkills(jobDescription, profile.technicalSkills);
    var experience := ExperienceRelevance(profile.experienceYears);
    var overall := Overall(similarity, experience);
    var skillMatch := SkillMatch(|skills.overlaps|, |skills.gaps|);
    assert 0.0 <= skillMatch <= 1.0;
  }

  /** At most five gaps are reported, in ascending order, each a taxonomy
      skill the posting requires and the candidate lacks; there is one
      strengths string. */
  lemma ReportedGaps(jobDescription: string, profile: Profile, similarity: real)
    ensures var r := ScoreCandidate(jobDescription, profile, similarity);
      && |r.skillGaps| <= 5
      && Ascending(r.skillGaps)
      && (forall g :: g in r.skillGaps ==>
            g in TechSkills && g in RequiredSkills(jobDescription) && g !in CandidateSkills(profile.technicalSkills))
      && |r.strengths| == 1
  {
    var skills := AnalyzeSkills(jobDescription, profile.technicalSkills);
    var reported := Take(skills.gaps, 5);
    AscendingPrefix(skills.gaps, |reported|);
    assert forall g :: g in reported ==> g in skills.gaps;
  }

  /** The reported gaps are the alphabetically first five missing skills:
      cutting the sorted gaps at 10 and then at 5 is cutting them at 5. */
  lemma ReportedGapsAreFirstMissing(jobDescription: string, profile: Profile, similarity: real)
    ensures var r := ScoreCandidate(jobDescription, profile, similarity);
      var required := RequiredSkills(jobDescription);
      var candidate := CandidateSkills(profile.technicalSkills);
      && r.skillGaps == Take(AllGaps(required, candidate), 5)
      && |r.skillGaps| == (if |required - candidate| <= 5 then |required - candidate| else 5)
      && forall x :: x in required && x !in candidate && x !in r.skillGaps ==>
           forall g :: g in r.skillGaps ==> LexLess(g, x)
  {
    ScoreCandidateParts(jobDescription, profile, similarity);
    FirstFiveGaps(RequiredSkills(jobDescription), CandidateSkills(profile.technicalSkills));
  }

  /** The first five of the kept gaps are the first five missing skills, and
      every missing skill beyond them comes after them. */
  lemma FirstFiveGaps(required: set<string>, candidate: set<string>)
    ensures var reported := Take(CompareSkills(required, candidate).gaps, 5);
      var all := AllGaps(required, candidate);
      && reported == Take(all, 5)
      && |reported| == (if |required - candidate| <= 5 then |required - candidate| else 5)
      && forall x :: x in required && x !in candidate && x !in reported ==>
           forall g :: g in reported ==> LexLess(g, x)
  {
    var reported := Take(CompareSkills(required, candidate).gaps, 5);
    var all := AllGaps(required, candidate);
    assert reported == all[..|reported|];
    forall x | x in required && x !in candidate && x !in reported
      ensures forall g :: g in reported ==> LexLess(g, x)
    {
      BeyondPrefix(all, |reported|, x);
    }
  }

  /** How `ScoreCandidate` assembles its record from the skill analysis
      (used by the scenario below). */
  lemma ScoreCandidateParts(jobDescription: string, profile: Profile, similarity: real)
    ensures var r := ScoreCandidate(jobDescription, profile, similarity);
      var skills := AnalyzeSkills(jobDescription, profile.technicalSkills);
      && r.skillGaps == Take(skills.gaps, 5)
      && r.breakdown.semantic == Round3(similarity)
      && r.breakdown.experienceRelevance == Round3(ExperienceRelevance(profile.experienceYears))
      && r.breakdown.skillMatch == Round3(SkillMatch(|skills.overlaps|, |skills.gaps|))
      && r.overallScore == Round3(Overall(similarity, ExperienceRelevance(profile.experienceYears)))
      && r.strengths == Strengths(skills.overlaps)
  {
  }

  /** A description requiring python and docker against a candidate declaring
      Python and AWS with four years of experience, at similarity 0.6: one
      gap, a skill match of 0.5, an experience relevance of 0.5 and an
      overall score of 0.7 * 0.6 + 0.3 * 0.5 = 0.57. */
  lemma ExampleScore(jobDescription: string, profile: Profile)
    requires RequiredSkills(jobDescription) == {"python", "docker"}
    requires CandidateSkills(profile.technicalSkills) == {"python", "aws"}
    requires profile.experienceYears == 4.0
    ensures var r := ScoreCandidate(jobDescription, profile, 0.6);
      && r.skillGaps == ["docker"]
      && r.breakdown == Breakdown(0.6, 0.5, 0.5)
      && r.overallScore == 0.57
      && r.strengths == ["Technical overlap: " + "python"]
  {
    var skills := AnalyzeSkills(jobDescription, profile.technicalSkills);
    ExampleAnalysis();
    assert skills.overlaps == ["python"] && skills.gaps == ["docker"];
    ScoreCandidateParts(jobDescription, profile, 0.6);
    ExampleArithmetic();
    assert Take(["python"], 5) == ["python"];
    assert Join(["python"], ", ") == "python";
  }

  /** The same scenario starting from the text "We need Python and Docker
      experience" itself. */
  lemma ExampleDescriptionScore(profile: Profile)
    requires CandidateSkills(profile.technicalSkills) == {"python", "aws"}
    requires profile.experienceYears == 4.0
    ensures var r := ScoreCandidate(Join(ExampleWords, " "), profile, 0.6);
      && r.skillGaps == ["docker"]
      && r.breakdown == Breakdown(0.6, 0.5, 0.5)
      && r.overallScore == 0.57
  {
    ExampleDescription();
    ExampleScore(Join(ExampleWords, " "), profile);
  }

  /** The arithmetic of that scenario. */
  lemma ExampleArithmetic()
    ensures ExperienceRelevance(4.0) == 0.5 && SkillMatch(1, 1) == 0.5
    ensures Round3(0.6) == 0.6 && Round3(0.5) == 0.5
    ensures Round3(Overall(0.6, 0.5)) == 0.57
  {
  }
}
