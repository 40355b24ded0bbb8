/**
 `/ats_score`: compare the keywords of a resume with those of a job
 description. A keyword is a maximal run of ASCII letters in the lowercased
 text that is longer than two letters and not a stopword.
 */
module AtsScoring {
  import opened Text
  import opened Seqs
  import opened Numbers

  const Stopwords: set<string> := {
    "and", "or", "with", "in", "the", "to", "for", "a", "of", "on", "at", "is", "as", "by", "an"
  }

  /** How many missing keywords get a suggestion. */
  const SuggestionLimit: nat := 10

  predicate IsKeyword(w: string) {
    |w| > 2 && w !in Stopwords
  }

  predicate IsLowerWord(w: string) {
    forall k :: 0 <= k < |w| ==> IsLowerAscii(w[k])
  }

  /** `[w for w in words if w not in stopwords and len(w) > 2]`. */
  function KeepKeywords(words: seq<string>): (r: seq<string>)
    ensures |r| <= |words|
    ensures forall w :: w in r <==> w in words && IsKeyword(w)
  {
    if |words| == 0 then []
    else
      var rest := KeepKeywords(words[1..]);
      assert words == [words[0]] + words[1..];
      if IsKeyword(words[0]) then [words[0]] + rest else rest
  }

  /** The letters of lowercased text are lowercase letters. */
  lemma LowerLettersAreLower(text: string, w: string)
    requires IsInfix(w, Lower(text))
    requires forall k :: 0 <= k < |w| ==> InClass(w[k], AsciiLetter)
    ensures IsLowerWord(w)
  {
    var low := Lower(text);
    var a, b :| 0 <= a <= b <= |low| && w == low[a..b];
    forall k | 0 <= k < |w| ensures IsLowerAscii(w[k]) {
      assert w[k] == low[a + k] == LowerChar(text[a + k]);
    }
  }

  /** The filter works word by word: filtering a concatenation filters each half. */
  lemma {:induction false} KeepKeywordsAppend(a: seq<string>, b: seq<string>)
    ensures KeepKeywords(a + b) == KeepKeywords(a) + KeepKeywords(b)
  {
    if |a| > 0 {
      assert (a + b)[0] == a[0];
      assert (a + b)[1..] == a[1..] + b;
      KeepKeywordsAppend(a[1..], b);
    } else {
      assert a + b == b;
    }
  }

  /** A single word is kept exactly when it is a keyword. */
  lemma KeepKeywordsSingle(w: string)
    ensures KeepKeywords([w]) == (if IsKeyword(w) then [w] else [])
  {
    assert [w][1..] == [];
  }

  /** Kept words keep their relative order: the `i`-th and `j`-th kept words come from positions `p < q`. */
  lemma {:induction false} KeepKeywordsOrder(words: seq<string>, i: nat, j: nat)
    requires i < j < |KeepKeywords(words)|
    ensures exists p, q :: 0 <= p < q < |words| && words[p] == KeepKeywords(words)[i] && words[q] == KeepKeywords(words)[j]
  {
    var r := KeepKeywords(words);
    var tail := words[1..];
    var rest := KeepKeywords(tail);
    if IsKeyword(words[0]) {
      assert r == [words[0]] + rest;
      if i == 0 {
        assert r[j] == rest[j - 1] && rest[j - 1] in rest;
        var q :| 0 <= q < |tail| && tail[q] == r[j];
        assert words[0] == r[0] && words[q + 1] == r[j];
      } else {
        KeepKeywordsOrder(tail, i - 1, j - 1);
        var p, q :| 0 <= p < q < |tail| && tail[p] == rest[i - 1] && tail[q] == rest[j - 1];
        assert words[p + 1] == r[i] && words[q + 1] == r[j];
      }
    } else {
      assert r == rest;
      KeepKeywordsOrder(tail, i, j);
      var p, q :| 0 <= p < q < |tail| && tail[p] == rest[i] && tail[q] == rest[j];
      assert words[p + 1] == r[i] && words[q + 1] == r[j];
    }
  }

  /** `extract_keywords(text.lower())`. */
  function Keywords(text: string): (r: seq<string>)
    ensures forall w :: w in r <==> w in FindAll(Lower(text), AsciiLetter) && IsKeyword(w)
    ensures forall w :: w in r ==> IsKeyword(w) && IsLowerWord(w)
  {
    var words := FindAll(Lower(text), AsciiLetter);
    KeywordsAreLetterRuns(text);
    KeepKeywords(words)
  }

  /**
   Keywords keep the order of the letter runs: the `i`-th and `j`-th
   keywords are the `p`-th and `q`-th letter runs of the lowercased text,
   for some `p < q`.
   */
  lemma KeywordsInRunOrder(text: string, i: nat, j: nat)
    requires i < j < |Keywords(text)|
    ensures var runs := FindAll(Lower(text), AsciiLetter);
      exists p, q :: 0 <= p < q < |runs| && runs[p] == Keywords(text)[i] && runs[q] == Keywords(text)[j]
  {
    KeepKeywordsOrder(FindAll(Lower(text), AsciiLetter), i, j);
  }

  /**
   The keywords are exactly the letter runs of the lowercased text that are
   keywords, and every letter run is lowercase.
   */
  lemma KeywordsAreLetterRuns(text: string)
    ensures forall w :: w in KeepKeywords(FindAll(Lower(text), AsciiLetter)) <==>
      w in FindAll(Lower(text), AsciiLetter) && IsKeyword(w)
    ensures forall w :: w in FindAll(Lower(text), AsciiLetter) ==> IsLowerWord(w) && IsInfix(w, Lower(text))
  {
    var words := FindAll(Lower(text), AsciiLetter);
    forall w | w in words ensures IsLowerWord(w) && IsInfix(w, Lower(text)) {
      var k :| 0 <= k < |words| && words[k] == w;
      LowerLettersAreLower(text, w);
    }
  }

  function Suggestion(w: string): string {
    "Consider including the keyword '" + w + "' if relevant to your experience."
  }

  datatype AtsReport = AtsReport(
    score: real,
    matchedKeywords: seq<string>,
    missingKeywords: seq<string>,
    suggestions: seq<string>)

  /** The distinct words of a list. */
  function KeySet(words: seq<string>): set<string> {
    set w | w in words
  }

  /**
   `len(matched) / max(len(set(jd_words)), 1) * 100` as an exact ratio; the
   source additionally rounds it to two decimals.
   */
  function Percent(matched: nat, total: nat): (p: real)
    requires matched <= total
    ensures p == (matched as real) / (Max(total, 1) as real) * 100.0
    ensures 0.0 <= p <= 100.0
    ensures total == 0 ==> p == 0.0
    ensures total > 0 ==> (p == 100.0 <==> matched == total)
  {
    var t := Max(total, 1) as real;
    var q := (matched as real) / t;
    RatioBounds(matched as real, t);
    q * 100.0
  }

  lemma RatioBounds(m: real, t: real)
    requires 0.0 <= m <= t && t > 0.0
    ensures 0.0 <= m / t <= 1.0
    ensures m / t == 1.0 <==> m == t
  {
    assert (m / t) * t == m;
  }

  /** The score of a split of `total` keywords into matched and missing ones. */
  lemma ScoreFacts(matched: nat, missing: nat, total: nat)
    requires matched + missing == total
    ensures 0.0 <= Percent(matched, total) <= 100.0
    ensures total == 0 ==> Percent(matched, total) == 0.0
    ensures total > 0 ==> (Percent(matched, total) == 100.0 <==> missing == 0)
  {
  }

  /** One suggestion for each of the first `SuggestionLimit` missing keywords. */
  function Suggestions(missing: seq<string>): (r: seq<string>)
    ensures |r| == Min(SuggestionLimit, |missing|)
    ensures forall i :: 0 <= i < |r| ==> r[i] == Suggestion(missing[i])
  {
    var shown := Min(SuggestionLimit, |missing|);
    seq(shown, i requires 0 <= i < shown => Suggestion(missing[i]))
  }

  /** Matched and missing keys together are the distinct job-description keywords. */
  lemma KeysPartition(jdWords: seq<string>, resume: set<string>)
    ensures |Select(Dedup(jdWords), resume, true)| + |Select(Dedup(jdWords), resume, false)| == |KeySet(jdWords)|
  {
    var keys := Dedup(jdWords);
    SelectPartition(keys, resume);
    DistinctCard(keys);
    assert (set w | w in keys) == KeySet(jdWords);
  }

  /**
   The report for job-description keywords `jdWords` against the set of
   resume keywords `resume`.
   */
  function Compare(jdWords: seq<string>, resume: set<string>): (r: AtsReport)
    ensures Distinct(r.matchedKeywords) && Distinct(r.missingKeywords)
    ensures forall w :: w in r.matchedKeywords <==> w in jdWords && w in resume
    ensures forall w :: w in r.missingKeywords <==> w in jdWords && w !in resume
    ensures InFirstOrder(r.matchedKeywords, jdWords)
    ensures InFirstOrder(r.missingKeywords, jdWords)
    ensures |r.matchedKeywords| + |r.missingKeywords| == |KeySet(jdWords)|
    ensures r.score == Percent(|r.matchedKeywords|, |KeySet(jdWords)|)
    ensures 0.0 <= r.score <= 100.0
    ensures jdWords == [] ==> r.score == 0.0
    ensures jdWords != [] ==> (r.score == 100.0 <==> r.missingKeywords == [])
    ensures r.suggestions == Suggestions(r.missingKeywords)
  {
    var keys := Dedup(jdWords);
    var matched := Select(keys, resume, true);
    var missing := Select(keys, resume, false);
    SelectKeepsOrder(keys, resume, true, jdWords);
    SelectKeepsOrder(keys, resume, false, jdWords);
    KeysPartition(jdWords, resume);
    var total := |KeySet(jdWords)|;
    assert jdWords != [] ==> jdWords[0] in KeySet(jdWords);
    ScoreFacts(|matched|, |missing|, total);
    AtsReport(Percent(|matched|, total), matched, missing, Suggestions(missing))
  }

  /** `ats_score` for a resume text and a job description. */
  function AtsScore(resumeText: string, jobDescription: string): (r: AtsReport)
    ensures Distinct(r.matchedKeywords) && Distinct(r.missingKeywords)
    ensures forall w :: w in r.matchedKeywords <==> w in Keywords(jobDescription) && w in Keywords(resumeText)
    ensures forall w :: w in r.missingKeywords <==> w in Keywords(jobDescription) && w !in Keywords(resumeText)
    ensures InFirstOrder(r.matchedKeywords, Keywords(jobDescription))
    ensures InFirstOrder(r.missingKeywords, Keywords(jobDescription))
    ensures |r.matchedKeywords| + |r.missingKeywords| == |KeySet(Keywords(jobDescription))|
    ensures r.score == Percent(|r.matchedKeywords|, |KeySet(Keywords(jobDescription))|)
    ensures 0.0 <= r.score <= 100.0
    ensures Keywords(jobDescription) == [] ==> r.score == 0.0
    ensures Keywords(jobDescription) != [] ==> (r.score == 100.0 <==> r.missingKeywords == [])
    ensures r.suggestions == Suggestions(r.missingKeywords)
  {
    Compare(Keywords(jobDescription), KeySet(Keywords(resumeText)))
  }
}
