/**
 `/skill_gap`: look the role up in a small table of expected skills and
 report, case-insensitively, which expected skills the resume lacks.
 */
module SkillGapService {
  import opened Wrappers
  import opened Text
  import opened Seqs
  import opened Api

  /** `ROLE_SKILLS`: the skills each supported role is expected to show. */
  const RoleSkills: map<string, seq<string>> := map[
    "Software Engineer" := ["Python", "Java", "C++", "Git", "SQL", "Algorithms", "Data Structures"],
    "Data Scientist" := ["Python", "R", "SQL", "Pandas", "NumPy", "Scikit-learn", "Statistics", "Data Visualization"],
    "Machine Learning Engineer" := ["Python", "TensorFlow", "PyTorch", "Scikit-learn", "ML Ops", "FastAPI", "Docker", "Cloud"],
    "Frontend Developer" := ["HTML", "CSS", "JavaScript", "React", "TypeScript", "UI/UX"],
    "Backend Developer" := ["Python", "Java", "Node.js", "Databases", "APIs", "FastAPI", "Django", "SQL", "Docker"],
    "DevOps Engineer" := ["Linux", "Docker", "Kubernetes", "CI/CD", "AWS", "Azure", "Terraform"],
    "Business Analyst" := ["Excel", "SQL", "Power BI", "Tableau", "Business Process", "Requirements Analysis"],
    "Product Manager" := ["Agile", "Scrum", "Roadmap", "Stakeholder Management", "Market Research"]
  ]

  /** `set([s.lower() for s in xs])`. */
  function LowerSet(xs: seq<string>): set<string> {
    set x | x in xs :: Lower(x)
  }

  /** The advice sentence for one missing skill. */
  function Advice(skill: string): string {
    "Consider adding " + skill + " experience to your resume/projects."
  }

  function Unsupported(role: string): string {
    "Role '" + role + "' not supported"
  }

  datatype GapReport = GapReport(
    role: string,
    givenSkills: seq<string>,
    expectedSkills: seq<string>,
    missingSkills: seq<string>,
    recommendations: seq<string>)

  /**
   The expected skills (lowercased) that no given skill matches once
   lowercased, each once. The order is that of Python's set iteration,
   which is not specified; the method picks elements in an arbitrary order.
   */
  method MissingSkills(expected: seq<string>, given: seq<string>) returns (missing: seq<string>)
    ensures Distinct(missing)
    ensures forall s :: s in missing <==> s in LowerSet(expected) && s !in LowerSet(given)
  {
    var present := LowerSet(given);
    var remaining := LowerSet(expected);
    missing := [];
    while remaining != {}
      invariant remaining <= LowerSet(expected)
      invariant Distinct(missing)
      invariant forall s :: s in missing <==> s in LowerSet(expected) - remaining && s !in present
      decreases |remaining|
    {
      var s :| s in remaining;
      if s !in present {
        missing := missing + [s];
      }
      remaining := remaining - {s};
    }
  }

  /** `skill_gap` for a payload naming `role` and listing `skills`. */
  method SkillGap(role: string, skills: seq<string>) returns (r: Result<GapReport, HttpError>)
    ensures r.Failure? <==> role !in RoleSkills
    ensures r.Failure? ==> r.error == HttpError(400, Unsupported(role))
    ensures r.Success? ==>
      && r.value.role == role
      && r.value.givenSkills == skills
      && r.value.expectedSkills == RoleSkills[role]
    ensures r.Success? ==> Distinct(r.value.missingSkills)
    ensures r.Success? ==> forall s :: s in r.value.missingSkills <==>
      s in LowerSet(RoleSkills[role]) && s !in LowerSet(skills)
    ensures r.Success? ==>
      && |r.value.recommendations| == |r.value.missingSkills|
      && forall i :: 0 <= i < |r.value.missingSkills| ==>
           r.value.recommendations[i] == Advice(r.value.missingSkills[i])
  {
    if role !in RoleSkills {
      return Failure(HttpError(400, Unsupported(role)));
    }
    var expected := RoleSkills[role];
    var missing := MissingSkills(expected, skills);
    var recommendations := seq(|missing|, i requires 0 <= i < |missing| => Advice(missing[i]));
    return Success(GapReport(role, skills, expected, missing, recommendations));
  }
}
