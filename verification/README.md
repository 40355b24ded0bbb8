# Career-clarity resume analysis, modelled in Dafny

This project models the core of a resume-analysis service and proves
properties of the model. The service has two halves.

- **The web client's pipeline.** `analyzeResume` in
  `src/components/AIAnalysisEngine.tsx` runs five steps in order:
  1. It parses the uploaded file; this step is fatal.
  2. It classifies the resume text into roles; this step is also fatal.
  3. It asks for a skill-gap analysis of the top role. This call is optional and may fail without harm.
  4. It asks for an ATS keyword score against a fixed placeholder job description. This call may also fail without harm.
  5. It derives readiness scores and fallback recommendations, then builds the report.

  A fatal failure gives a fixed error report instead.
- **The backend's text and set logic** in `backend/main.py`:
  - section finding (`find_sections`) and skill extraction (`extract_skills_from_section`);
  - the top-3 stable ranking of `classify_resume`;
  - the set difference of `skill_gap`;
  - the keyword extraction and match ratio of `ats_score`.

Each backend call is replaced by the outcome it would produce:
- a response that is not OK;
- a thrown value, which is either an `Error` with its message or any other value;
- an OK response with its decoded body, whose optional fields are `Option`s.

The pipeline returns a `Run`. It holds the report, the hook's final `isLoading` and `error` slots, and the list of backend calls in the order they were issued.

Modules, one per file:

| module | file | models |
|---|---|---|
| `Wrappers` | wrappers.dfy | `Option` and `Result` |
| `Text` | text.dfy | Python string operations: `lower` (ASCII letters), `strip` (Python's whitespace set), `find`, slicing, `re.findall` and `re.split` over one character class |
| `Seqs` | seqs.dfy | duplicate-free sequences, the stable sort behind `sorted` and `list.sort`, first-appearance order (`Counter` keys), filtering |
| `Api` | api.dfy | wire records shared by both halves |
| `ResumeSections` | sections.dfy | `find_sections`, `extract_skills_from_section` |
| `RoleClassifier` | classifier.dfy | `classify_resume` after the similarity scores are computed |
| `SkillGapService` | skill_gap.dfy | `ROLE_SKILLS`, `skill_gap` |
| `AtsScoring` | ats.dfy | `extract_keywords`, `ats_score` |
| `AnalysisEngine` | analysis_engine.dfy | `analyzeResume` and the hook's `isLoading` and `error` slots |

Representation choices:
- Classification confidences are integers counting hundredths, because the backend rounds them to two decimals. So 87.25 is 8725.
- The client's `Math.round(confidence * 0.9)` is then exactly `(9h + 500) / 1000` with floor division.
- The ATS score is an exact `real`.
- `FindSections(text, hs)` takes the heading list as a parameter. The `Heading…` lemmas instantiate it with the source's `HEADINGS`.

Behaviour of the code that the model follows:
- The skill-gap call is awaited before the ATS call is issued. The two never run at the same time.
- The ATS call is made whenever parsing and classification succeed. The skill-gap gate does not apply to it.
- A non-OK ATS response leaves the score 0 and the issue list empty. Only a thrown failure adds the "Unable to analyze ATS compatibility at this time." issue.
- Parsing succeeds on any OK response, whatever its text, even empty text.
- A run's result is always written. No newer run suppresses it, and the hook has no status beyond `isLoading` and `error`.

## Model

| member | source | states |
|---|---|---|
| Text.Lower | backend/main.py:58 | the result has the input's length, and each character is lowered independently, so positions found in the lowered text index the original |
| Text.Strip | backend/main.py:70 | the result is a slice of the input with only whitespace outside it and non-space ends; it is empty exactly when the input is blank |
| Text.Find | backend/main.py:61 | the result is the first index where the pattern occurs; it is -1 exactly when the pattern never occurs |
| Text.FindAll | backend/main.py:245 | the pieces are the texts of the maximal runs of the class, left to right; every piece is non-empty, lies in the class and is part of the input |
| Text.FindAllHasRun | backend/main.py:245 | no maximal run is missed: the text of every run of the class is among the pieces |
| Text.SplitOnSeparators | backend/main.py:79 | no piece contains a newline, comma, bullet, hyphen or semicolon, and every piece is part of the input |
| Text.SplitIsLeadRunsTrail | backend/main.py:79 | the pieces are, in order, an optional empty first piece, the text of every maximal separator-free run from left to right, and an optional empty last piece, so there are as many pieces as runs plus the empty ends |
| Text.SplitShape | backend/main.py:79 | there is at least one piece; empty pieces occur only first or last; the first is empty exactly when the text is empty or opens with a separator, the last exactly when it is empty or ends with one |
| Text.SplitHasRun | backend/main.py:79 | every maximal separator-free run of the text is a piece |
| Text.SplitPieceIsRun | backend/main.py:79 | every non-empty piece is a maximal separator-free run of the text |
| Text.SplitFirst | backend/main.py:79 | a text opening with a separator-free word followed by a separator splits with that word first |
| Text.StripTrimmed | backend/main.py:81 | a string whose ends are not whitespace strips to itself |
| Seqs.SortBy | backend/main.py:65 | the result is ordered by the key and is a permutation of the input |
| Seqs.SortByIsStable | backend/main.py:170 | elements with equal keys keep their input order, as in Python's stable sort |
| Seqs.Dedup | backend/main.py:254 | the keys of `Counter(words)`: no duplicates, the same members as the input, in order of first appearance |
| Seqs.Select | backend/main.py:258-259 | the comprehension filters keep exactly the members inside (or outside) the set, without duplicates when the input has none |
| Seqs.SelectKeepsOrder | backend/main.py:258-259 | filtering keeps the first-appearance order |
| Seqs.SelectPartition | backend/main.py:258-259 | the inside and outside filters together have as many elements as the input |
| Seqs.DistinctCard | backend/main.py:262 | a duplicate-free list has as many elements as its set |
| ResumeSections.HeadingsPrefixFree | backend/main.py:25-30 | no entry of `HEADINGS` is a prefix of another |
| ResumeSections.FoundPositionsDistinct | backend/main.py:60-63 | two different headings that both occur are first found at different positions |
| ResumeSections.Locate | backend/main.py:59-63 | `positions` holds exactly the headings that occur, each with its first index |
| ResumeSections.LocatedFacts | backend/main.py:65 | after sorting, positions strictly increase and no heading repeats |
| ResumeSections.FindSections | backend/main.py:57-71 | every key of the result is a heading of the list that occurs in the lower-cased text |
| ResumeSections.FindSectionsKeys | backend/main.py:57-70 | a heading is a key of the result exactly when it occurs in the lower-cased text |
| ResumeSections.SectionIsSliceToNextHeading | backend/main.py:66-70 | each section is the original text from its heading up to the next heading found after it (or the end), stripped |
| ResumeSections.HeadingSectionKeys | backend/main.py:57-63 | with `HEADINGS`, the keys are exactly the headings that occur |
| ResumeSections.HeadingSectionSlice | backend/main.py:64-70 | with `HEADINGS`, each section runs from its heading to the next found heading |
| ResumeSections.TechnicalSkillsCutShort | backend/main.py:57-70 | when "skills" does not occur before "technical skills", the "skills" inside that heading ends its section, which is then at most the word "technical" |
| ResumeSections.HeadingTechnicalSkillsCutShort | backend/main.py:57-70 | the same for `HEADINGS` itself |
| ResumeSections.KeepSkills | backend/main.py:80-83 | the filter loop keeps at most one skill per part; which parts are kept, in what order and with what shape is stated by KeepSkillsFrom, KeepSkillsSound, KeepSkillsAppend and KeepSkillsComplete |
| ResumeSections.KeepSkillsFrom | backend/main.py:80-83 | every kept skill is the strip of one of the parts and has 1..60 characters |
| ResumeSections.KeepSkillsSound | backend/main.py:80-83 | when the parts are separator-free pieces of a section, every kept skill has non-space ends, no separator, and is part of the section |
| ResumeSections.KeepSkillsAppend | backend/main.py:80-83 | the loop works part by part: filtering a concatenation of part lists gives the two filtered lists one after the other, so skills keep the parts' order |
| ResumeSections.KeepSkillsComplete | backend/main.py:80-83 | every part that strips to 1..60 characters is kept |
| ResumeSections.SkillsOf | backend/main.py:78-83 | every skill of a section satisfies the skill conditions and is part of that section |
| ResumeSections.SkillsOfRuns | backend/main.py:79-83 | the empty first and last pieces add no skill: the skills are the maximal separator-free runs filtered in left-to-right order, at most one per run |
| ResumeSections.SkillsOfComplete | backend/main.py:78-83 | every maximal separator-free run of the section that strips to 1..60 characters is listed, stripped |
| ResumeSections.SkillsOfSound | backend/main.py:78-83 | every listed skill is a maximal separator-free run of the section, stripped |
| ResumeSections.ExtractSkills | backend/main.py:73-85 | the result is the skill list of the "technical skills" section when there is one, else of the "skills" section, else empty |
| ResumeSections.HeadingIsFirstSkill | backend/main.py:76-83 | a section that opens with its heading word and a separator lists that word as its first skill |
| RoleClassifier.ClassifyResume | backend/main.py:156-173 | a blank or absent text is rejected with 400 "Missing resume text"; otherwise there are min(3, roles, scores) entries, each a role paired with its own score, in non-increasing confidence |
| RoleClassifier.RankedFacts | backend/main.py:168-170 | the ranking pairs each role with its own score, holds exactly the zipped pairs, as many as the shorter list, and is in non-increasing score |
| RoleClassifier.Top | backend/main.py:171 | the first three ranked roles, or all when fewer, each becoming a classification with its score |
| RoleClassifier.ClassifyKeepsBestScores | backend/main.py:168-171 | a role left out scores no higher than every role returned |
| RoleClassifier.RankedTiesKeepIndexOrder | backend/main.py:169-170 | equal scores keep the order of `ROLE_DESCRIPTIONS` in the ranking |
| RoleClassifier.ClassifyTiesKeepRoleOrder | backend/main.py:169-171 | returned roles with equal confidence appear in `ROLE_DESCRIPTIONS` order |
| RoleClassifier.ClassifyCutKeepsRoleOrder | backend/main.py:169-171 | at the cut to three, a role left out whose score ties with a returned role comes later in `ROLE_DESCRIPTIONS` than that returned role |
| SkillGapService.MissingSkills | backend/main.py:206-209 | the missing skills are the lower-cased expected skills absent from the lower-cased given skills, each once, in unspecified order |
| SkillGapService.SkillGap | backend/main.py:199-218 | an unknown role is rejected with 400 "Role '…' not supported"; otherwise the report echoes role, given and expected skills, lists the missing skills and one advice line per missing skill |
| AtsScoring.KeepKeywords | backend/main.py:248 | a word is kept exactly when it has more than two letters and is not a stopword |
| AtsScoring.KeepKeywordsAppend | backend/main.py:248 | the filter works word by word: filtering a concatenation gives the two filtered lists one after the other |
| AtsScoring.KeepKeywordsOrder | backend/main.py:248 | kept words keep their relative order in the input |
| AtsScoring.KeywordsInRunOrder | backend/main.py:244-248 | keywords appear in the order of the letter runs of the lower-cased text |
| AtsScoring.KeywordsAreLetterRuns | backend/main.py:244-248 | keywords are exactly the letter runs of the lower-cased text that qualify, and every letter run is lower-case |
| AtsScoring.Keywords | backend/main.py:240-251 | the keywords are exactly the letter runs of the lower-cased text that have more than two letters and are not stopwords; each is lower-case letters only |
| AtsScoring.Percent | backend/main.py:262 | the ratio lies in [0, 100], is 0 without keywords and is 100 exactly when all keywords match |
| AtsScoring.ScoreFacts | backend/main.py:262 | a split of the keywords into matched and missing scores in [0, 100], and 100 exactly when none is missing |
| AtsScoring.KeysPartition | backend/main.py:254-259 | matched and missing keys together number the distinct job-description keywords |
| AtsScoring.Suggestions | backend/main.py:268-271 | one suggestion for each of the first ten missing keywords, in order |
| AtsScoring.Compare | backend/main.py:254-271 | matched and missing partition the distinct job-description keywords, without duplicates, in first-appearance order; the score and suggestions follow |
| AtsScoring.AtsScore | backend/main.py:234-272 | the same stated over the keywords of the two texts, with the score in [0, 100], 0 for a job description without keywords |
| AnalysisEngine.FatalMessage | src/components/AIAnalysisEngine.tsx:190-192 | a non-OK fatal stage reports its fixed message; a thrown `Error` reports its message; any other thrown value reports "An unknown error occurred" |
| AnalysisEngine.ErrorReport | src/components/AIAnalysisEngine.tsx:196-208 | the report after a fatal failure keeps only the file name, scores 0 and has the single issue "Failed to analyze resume. Please try again."; every list and map is empty |
| AnalysisEngine.SkillGapCalledExactlyWhen | src/components/AIAnalysisEngine.tsx:74-91 | the skill-gap endpoint is called exactly when parsing and classification succeed, the top classification has a non-empty role and the parsed skill list is present and non-empty; it is then called once, third, with that role and those skills |
| AnalysisEngine.GapsOf | src/components/AIAnalysisEngine.tsx:98-102 | each missing skill becomes a missing, high-importance gap, one to one, in order |
| AnalysisEngine.BackendRecommendations | src/components/AIAnalysisEngine.tsx:105-115 | each advice line becomes one high-priority course from "Skill Development" at the fixed url, in order |
| AnalysisEngine.GapStage | src/components/AIAnalysisEngine.tsx:93-119 | a skipped, non-OK or thrown skill-gap call leaves no gaps and no recommendations; an OK one maps the lists, absent lists reading as empty |
| AnalysisEngine.ScoreOrZero | src/components/AIAnalysisEngine.tsx:140 | a present score is shown as is; an absent one reads 0 |
| AnalysisEngine.AtsStage | src/components/AIAnalysisEngine.tsx:123-148 | OK gives the score (absent reads 0) and suggestions (absent reads empty); non-OK gives 0 and no issues; thrown gives 0 and the "Unable to analyze" issue |
| AnalysisEngine.RoundedReadiness | src/components/AIAnalysisEngine.tsx:154 | the score is the integer nearest to 0.9 times the confidence, halves rounding up |
| AnalysisEngine.ReadinessOf | src/components/AIAnalysisEngine.tsx:151-155 | one readiness per classification, same role, same order |
| AnalysisEngine.LearnCourses | src/components/AIAnalysisEngine.tsx:159-169 | one "Learn <skill>" course from "Online Learning Platform" per high-importance gap |
| AnalysisEngine.WithFallback | src/components/AIAnalysisEngine.tsx:158-170 | synthesised courses are used exactly when the backend gave none and there are gaps |
| AnalysisEngine.AnalyzeResume | src/components/AIAnalysisEngine.tsx:40-210 | the calls issued; fatal parse or classify failures give the error report, an error message and no later calls; three calls, or four exactly when the skill-gap gate is open, the skill-gap call then third with the top role and the parsed skills; ATS exactly once and last, with the parsed text and the placeholder job; field defaults; the skill-gap, ATS and readiness results; never left loading |
| AnalysisEngine.RecommendationOrigins | src/components/AIAnalysisEngine.tsx:104-170 | recommendations are all backend courses or all synthesised "Learn" courses, one per gap, the latter exactly when the backend gave none |
| AnalysisEngine.ServiceGapNeverFallsBack | src/components/AIAnalysisEngine.tsx:158-170 | a skill-gap response with one advice line per missing skill never triggers the synthesised courses |
| AnalysisEngine.ServiceAtsReportShown | src/components/AIAnalysisEngine.tsx:123-143 | the report the ATS service computes for the parsed text and the placeholder job is shown unchanged: its score, in [0, 100], and its suggestions, at most ten, as the issues |
| AnalysisEngine.ReadinessNeverExceedsWholeConfidence | src/components/AIAnalysisEngine.tsx:154 | for a whole, non-negative confidence the readiness never exceeds it |
| AnalysisEngine.ReadinessCanExceedFractionalConfidence | src/components/AIAnalysisEngine.tsx:154 | a confidence of 0.56 gets readiness 1, above the confidence |
| AnalysisEngine.RoundedReadinessMonotone | src/components/AIAnalysisEngine.tsx:154 | a higher confidence never gets a lower readiness |
| AnalysisEngine.ReadinessKeepsRanking | src/components/AIAnalysisEngine.tsx:151-155 | for a classification the backend produces, readiness scores are non-increasing and at most three |

## Left out

- Network and HTTP plumbing are not modelled: `fetch`, JSON decoding, FastAPI routing and CORS. Each service call is an outcome value instead.
- The composition inside `parse_resume` is not modelled: file-type dispatch, PDF, DOCX and text extraction, and the 500 wrapper. These call foreign libraries.
- The email and phone regexes are not modelled. The contact is an optional input of the parse body.
- Sentence embeddings and cosine similarity are not modelled. The similarity scores are integer inputs.
- RoleClassifier.ClassifyResume: ranks by the confidence in hundredths rather than the raw similarity. Two similarities that round to the same hundredth may be ordered differently in the source.
- AtsScoring.Percent: the exact ratio; the source's rounding to two decimals is not modelled.
- Text.Lower: lower-cases ASCII letters only and keeps the length. Python's `str.lower` also maps other letters, a few of them to ASCII (the Kelvin sign), and can lengthen a string (U+0130 becomes two code points); then the positions `find_sections` finds in the lowered text no longer index the original text at backend/main.py:70, which this model cannot show.
- AnalysisEngine.RoundedReadiness: exact integer arithmetic. The floating-point error of `confidence * 0.9` is not modelled.
- AnalysisEngine.ScoreOrZero: reads an absent score as 0. `NaN`, which `|| 0` also turns into 0, has no counterpart in `real`.
- A classify body without a `classifications` field is not modelled. The source would throw a `TypeError` at line 74, a fatal failure whose message comes from the JavaScript engine.
- Bodies whose fields have the wrong JSON types are not modelled. A thrown failure inside a non-fatal stage is modelled only as the whole stage throwing.
- Stale-run suppression and cancellation are not modelled: the code has none, and each run stores whatever it returns.
- Console logging, the UI components and `src/lib/utils.ts` are not modelled.
