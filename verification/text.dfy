/**
 Python string primitives used by the backend: `str.isspace`, `str.lower`
 (ASCII letters only), `str.strip`, `str.find`, slicing, and the two
 regular-expression scans (`re.findall` and `re.split` over a character
 class followed by `+`).
 */
module Text {

  /** Python's `str.isspace()` for one character. */
  predicate IsSpace(c: char) {
    || ('\t' <= c <= '\r')
    || ('\U{1C}' <= c <= '\U{1F}')
    || c == ' ' || c == '\U{85}' || c == '\U{A0}' || c == '\U{1680}'
    || ('\U{2000}' <= c <= '\U{200A}')
    || c == '\U{2028}' || c == '\U{2029}' || c == '\U{202F}' || c == '\U{205F}' || c == '\U{3000}'
  }

  predicate IsUpperAscii(c: char) { 'A' <= c <= 'Z' }

  predicate IsLowerAscii(c: char) { 'a' <= c <= 'z' }

  function LowerChar(c: char): char {
    if IsUpperAscii(c) then (c as int + 32) as char else c
  }

  /** `str.lower()` restricted to ASCII: every position keeps its index. */
  function Lower(s: string): (r: string)
    ensures |r| == |s|
    ensures forall i :: 0 <= i < |s| ==> r[i] == LowerChar(s[i])
  {
    seq(|s|, i requires 0 <= i < |s| => LowerChar(s[i]))
  }

  /** Lower-casing commutes with slicing. */
  lemma LowerSlice(text: string, a: nat, b: nat)
    requires a <= b <= |text|
    ensures Lower(text[a..b]) == Lower(text)[a..b]
  {
    forall k | 0 <= k < b - a ensures Lower(text[a..b])[k] == Lower(text)[a..b][k] {
      assert text[a..b][k] == text[a + k];
    }
  }

  /** True when every character of `s` is whitespace: `not s.strip()`. */
  predicate IsBlank(s: string) {
    forall i :: 0 <= i < |s| ==> IsSpace(s[i])
  }

  /** Python's `s[a:b]` for non-negative bounds: both ends are clamped to the string. */
  function Slice<T>(s: seq<T>, a: nat, b: nat): (r: seq<T>)
    ensures a <= b <= |s| ==> r == s[a..b]
    ensures |r| <= |s|
  {
    var lo := if a <= |s| then a else |s|;
    var hi := if b <= |s| then b else |s|;
    if lo <= hi then s[lo..hi] else []
  }

  /** `x` is a contiguous part of `s`. */
  predicate IsInfix(x: string, s: string) {
    exists a, b :: 0 <= a <= b <= |s| && x == s[a..b]
  }

  lemma InfixTransitive(x: string, y: string, s: string)
    requires IsInfix(x, y) && IsInfix(y, s)
    ensures IsInfix(x, s)
  {
    var c, d :| 0 <= c <= d <= |y| && x == y[c..d];
    var a, b :| 0 <= a <= b <= |s| && y == s[a..b];
    var z := s[a + c..a + d];
    assert |x| == |z|;
    forall i | 0 <= i < |x| ensures x[i] == z[i] {
      assert x[i] == y[c + i];
      assert y[c + i] == s[a + c + i];
    }
    assert x == z;
  }

  // ---- str.strip ----

  /** The first index at or after `i` that is not whitespace, or `|s|`. */
  function SkipSpace(s: string, i: nat): (j: nat)
    requires i <= |s|
    ensures i <= j <= |s|
    ensures forall k :: i <= k < j ==> IsSpace(s[k])
    ensures j < |s| ==> !IsSpace(s[j])
    decreases |s| - i
  {
    if i == |s| || !IsSpace(s[i]) then i else SkipSpace(s, i + 1)
  }

  /** The end of `s[lo..j]` once trailing whitespace is dropped. */
  function TrimEnd(s: string, lo: nat, j: nat): (k: nat)
    requires lo <= j <= |s|
    ensures lo <= k <= j
    ensures forall m :: k <= m < j ==> IsSpace(s[m])
    ensures k > lo ==> !IsSpace(s[k - 1])
    decreases j
  {
    if j == lo || !IsSpace(s[j - 1]) then j else TrimEnd(s, lo, j - 1)
  }

  /** `str.strip()`: the longest middle part whose first and last characters are not whitespace. */
  function Strip(s: string): (r: string)
    ensures exists i, j ::
              && 0 <= i <= j <= |s| && r == s[i..j]
              && (forall k :: 0 <= k < i ==> IsSpace(s[k]))
              && (forall k :: j <= k < |s| ==> IsSpace(s[k]))
    ensures |r| > 0 ==> !IsSpace(r[0]) && !IsSpace(r[|r| - 1])
    ensures r == [] <==> IsBlank(s)
  {
    var i := SkipSpace(s, 0);
    var j := TrimEnd(s, i, |s|);
    s[i..j]
  }

  // ---- str.find ----

  /** `p` occurs in `s` starting at index `k`. */
  predicate OccursAt(s: string, p: string, k: int) {
    0 <= k && k + |p| <= |s| && s[k..k + |p|] == p
  }

  function FindFrom(s: string, p: string, i: nat): (r: int)
    ensures r == -1 || i <= r
    ensures r >= 0 ==> OccursAt(s, p, r)
    ensures r >= 0 ==> forall k :: i <= k < r ==> !OccursAt(s, p, k)
    ensures r == -1 ==> forall k :: i <= k ==> !OccursAt(s, p, k)
    decreases |s| - i
  {
    if i + |p| > |s| then -1
    else if s[i..i + |p|] == p then i
    else FindFrom(s, p, i + 1)
  }

  /** `s.find(p)`: the first index where `p` occurs, or -1. */
  function Find(s: string, p: string): (r: int)
    ensures r >= -1
    ensures r >= 0 ==> OccursAt(s, p, r) && forall k :: 0 <= k < r ==> !OccursAt(s, p, k)
    ensures r == -1 <==> forall k :: !OccursAt(s, p, k)
  {
    FindFrom(s, p, 0)
  }

  // ---- regular-expression scans over a character class ----

  /** The skill-list separators `[\n,•\-;]`. */
  predicate IsSkillSeparator(c: char) {
    c == '\n' || c == ',' || c == '\U{2022}' || c == '-' || c == ';'
  }

  /** The character classes the backend scans with. */
  datatype CharClass =
    | AsciiLetter         // [a-zA-Z]
    | NotSkillSeparator   // [^\n,•\-;]

  predicate InClass(c: char, cls: CharClass) {
    match cls
    case AsciiLetter => IsUpperAscii(c) || IsLowerAscii(c)
    case NotSkillSeparator => !IsSkillSeparator(c)
  }

  /** A half-open range `[lo, hi)` of positions. */
  datatype Span = Span(lo: nat, hi: nat)

  /** `sp` is a maximal non-empty run of characters of class `cls` in `s`. */
  predicate IsRun(s: string, cls: CharClass, sp: Span) {
    && sp.lo < sp.hi <= |s|
    && (forall k :: sp.lo <= k < sp.hi ==> InClass(s[k], cls))
    && (sp.lo == 0 || !InClass(s[sp.lo - 1], cls))
    && (sp.hi == |s| || !InClass(s[sp.hi], cls))
  }

  predicate Covers(r: seq<Span>, j: int) {
    exists k :: 0 <= k < |r| && r[k].lo <= j < r[k].hi
  }

  /** The end of the run of class `cls` that starts at `i`. */
  function RunEnd(s: string, cls: CharClass, i: nat): (e: nat)
    requires i <= |s|
    ensures i <= e <= |s|
    ensures forall k :: i <= k < e ==> InClass(s[k], cls)
    ensures e < |s| ==> !InClass(s[e], cls)
    decreases |s| - i
  {
    if i == |s| || !InClass(s[i], cls) then i else RunEnd(s, cls, i + 1)
  }

  /** The maximal runs of class `cls` in `s[i..]`, left to right. */
  function RunsFrom(s: string, cls: CharClass, i: nat): (r: seq<Span>)
    requires i <= |s|
    requires i < |s| && InClass(s[i], cls) ==> i == 0 || !InClass(s[i - 1], cls)
    ensures forall k :: 0 <= k < |r| ==> i <= r[k].lo && IsRun(s, cls, r[k])
    ensures forall k :: 0 <= k < |r| - 1 ==> r[k].hi < r[k + 1].lo
    ensures forall j :: i <= j < |s| && InClass(s[j], cls) ==> Covers(r, j)
    decreases |s| - i
  {
    if i == |s| then []
    else if !InClass(s[i], cls) then RunsFrom(s, cls, i + 1)
    else
      var e := RunEnd(s, cls, i + 1);
      var rest := RunsFrom(s, cls, e);
      RunsCons(s, cls, i, e, rest);
      [Span(i, e)] + rest
  }

  /** The run `[i, e)` followed by the runs of `s[e..]` lists the runs of `s[i..]`, left to right. */
  lemma RunsCons(s: string, cls: CharClass, i: nat, e: nat, rest: seq<Span>)
    requires i < e <= |s|
    requires i == 0 || !InClass(s[i - 1], cls)
    requires forall k :: i <= k < e ==> InClass(s[k], cls)
    requires e < |s| ==> !InClass(s[e], cls)
    requires forall k :: 0 <= k < |rest| ==> e <= rest[k].lo && IsRun(s, cls, rest[k])
    requires forall k :: 0 <= k < |rest| - 1 ==> rest[k].hi < rest[k + 1].lo
    requires forall j :: e <= j < |s| && InClass(s[j], cls) ==> Covers(rest, j)
    ensures var r := [Span(i, e)] + rest;
      && (forall k :: 0 <= k < |r| ==> i <= r[k].lo && IsRun(s, cls, r[k]))
      && (forall k :: 0 <= k < |r| - 1 ==> r[k].hi < r[k + 1].lo)
      && (forall j :: i <= j < |s| && InClass(s[j], cls) ==> Covers(r, j))
  {
    var r := [Span(i, e)] + rest;
    assert IsRun(s, cls, Span(i, e));
    forall k | 0 <= k < |r| ensures i <= r[k].lo && IsRun(s, cls, r[k]) {
      if k > 0 {
        assert r[k] == rest[k - 1];
      }
    }
    forall k | 0 <= k < |r| - 1 ensures r[k].hi < r[k + 1].lo {
      if k == 0 {
        assert r[1] == rest[0];
        assert InClass(s[rest[0].lo], cls);
      } else {
        assert r[k] == rest[k - 1] && r[k + 1] == rest[k];
      }
    }
    CoversCons(s, cls, i, e, rest);
  }

  /** Prepending the run `[i, e)` to the runs of `s[e..]` covers every class position from `i` on. */
  lemma CoversCons(s: string, cls: CharClass, i: nat, e: nat, rest: seq<Span>)
    requires i < e <= |s|
    requires forall k :: i <= k < e ==> InClass(s[k], cls)
    requires forall j :: e <= j < |s| && InClass(s[j], cls) ==> Covers(rest, j)
    ensures forall j :: i <= j < |s| && InClass(s[j], cls) ==> Covers([Span(i, e)] + rest, j)
  {
    var r := [Span(i, e)] + rest;
    forall j | i <= j < |s| && InClass(s[j], cls)
      ensures Covers(r, j)
    {
      if j < e {
        assert r[0].lo <= j < r[0].hi;
      } else {
        var k :| 0 <= k < |rest| && rest[k].lo <= j < rest[k].hi;
        assert r[k + 1] == rest[k];
      }
    }
  }

  /** `re.findall('[cls]+', s)` as spans: every maximal run, in order. */
  function Runs(s: string, cls: CharClass): (r: seq<Span>)
    ensures forall k :: 0 <= k < |r| ==> IsRun(s, cls, r[k])
    ensures forall k :: 0 <= k < |r| - 1 ==> r[k].hi < r[k + 1].lo
    ensures forall j :: 0 <= j < |s| && InClass(s[j], cls) ==> Covers(r, j)
  {
    RunsFrom(s, cls, 0)
  }

  function Texts(s: string, spans: seq<Span>): (r: seq<string>)
    requires forall k :: 0 <= k < |spans| ==> spans[k].lo <= spans[k].hi <= |s|
    ensures |r| == |spans|
    ensures forall k :: 0 <= k < |r| ==> r[k] == s[spans[k].lo..spans[k].hi]
  {
    seq(|spans|, k requires 0 <= k < |spans| => s[spans[k].lo..spans[k].hi])
  }

  /** `re.findall('[cls]+', s)`: the text of every maximal run, in order. */
  function FindAll(s: string, cls: CharClass): (r: seq<string>)
    ensures |r| == |Runs(s, cls)|
    ensures forall k :: 0 <= k < |r| ==> r[k] == s[Runs(s, cls)[k].lo..Runs(s, cls)[k].hi]
    ensures forall k :: 0 <= k < |r| ==> |r[k]| > 0 && forall m :: 0 <= m < |r[k]| ==> InClass(r[k][m], cls)
    ensures forall k :: 0 <= k < |r| ==> IsInfix(r[k], s)
  {
    var spans := Runs(s, cls);
    var r := Texts(s, spans);
    assert forall k :: 0 <= k < |r| ==> r[k] == s[spans[k].lo..spans[k].hi];
    r
  }

  /** Every maximal run of the class is one of the spans `Runs` lists. */
  lemma RunInRuns(s: string, cls: CharClass, sp: Span)
    requires IsRun(s, cls, sp)
    ensures exists k :: 0 <= k < |Runs(s, cls)| && Runs(s, cls)[k] == sp
  {
    var r := Runs(s, cls);
    assert InClass(s[sp.lo], cls);
    assert Covers(r, sp.lo);
    var k :| 0 <= k < |r| && r[k].lo <= sp.lo < r[k].hi;
    var t := r[k];
    assert IsRun(s, cls, t);
    assert t.lo == sp.lo;
    assert t.hi == sp.hi;
  }

  /** `re.findall` misses no run: the text of every maximal run is found. */
  lemma FindAllHasRun(s: string, cls: CharClass, sp: Span)
    requires IsRun(s, cls, sp)
    ensures s[sp.lo..sp.hi] in FindAll(s, cls)
  {
    RunInRuns(s, cls, sp);
    var k :| 0 <= k < |Runs(s, cls)| && Runs(s, cls)[k] == sp;
    assert FindAll(s, cls)[k] == s[sp.lo..sp.hi];
  }

  /** Every piece `re.findall` returns is the text of a maximal run. */
  lemma FindAllPieceIsRun(s: string, cls: CharClass, k: nat)
    requires k < |FindAll(s, cls)|
    ensures IsRun(s, cls, Runs(s, cls)[k]) && FindAll(s, cls)[k] == s[Runs(s, cls)[k].lo..Runs(s, cls)[k].hi]
  {
  }

  lemma {:induction false} RunEndAt(s: string, cls: CharClass, i: nat, e: nat)
    requires i <= e <= |s|
    requires forall k :: i <= k < e ==> InClass(s[k], cls)
    requires e < |s| ==> !InClass(s[e], cls)
    ensures RunEnd(s, cls, i) == e
    decreases e - i
  {
    if i < e {
      RunEndAt(s, cls, i + 1, e);
    }
  }

  /** A text that opens with a run `w` ended by a character outside the class finds `w` first. */
  lemma FindAllFirst(w: string, c: char, rest: string, cls: CharClass)
    requires |w| > 0 && forall k :: 0 <= k < |w| ==> InClass(w[k], cls)
    requires !InClass(c, cls)
    ensures |FindAll(w + [c] + rest, cls)| > 0 && FindAll(w + [c] + rest, cls)[0] == w
  {
    var s := w + [c] + rest;
    assert s[|w|] == c;
    assert forall k :: 0 <= k < |w| ==> s[k] == w[k];
    RunEndAt(s, cls, 1, |w|);
    assert Runs(s, cls) == RunsFrom(s, cls, 0);
    assert Runs(s, cls)[0] == Span(0, |w|);
    assert s[0..|w|] == w;
  }

  /**
   `re.split(r'[\n,•\-;]+', s)`: the text between maximal runs of
   separators, with an empty first piece when `s` is empty or starts with a
   separator and an empty last piece when `s` ends with one.
   */
  function SplitOnSeparators(s: string): (r: seq<string>)
    ensures forall k, m :: 0 <= k < |r| && 0 <= m < |r[k]| ==> !IsSkillSeparator(r[k][m])
    ensures forall k :: 0 <= k < |r| ==> IsInfix(r[k], s)
  {
    assert IsInfix("", s) by { assert "" == s[0..0]; }
    SplitLead(s) + FindAll(s, NotSkillSeparator) + SplitTrail(s)
  }

  /** The empty first piece `re.split` yields when `s` is empty or opens with a separator. */
  function SplitLead(s: string): seq<string> {
    if |s| == 0 || IsSkillSeparator(s[0]) then [""] else []
  }

  /** The empty last piece `re.split` yields when `s` ends with a separator. */
  function SplitTrail(s: string): seq<string> {
    if |s| > 0 && IsSkillSeparator(s[|s| - 1]) then [""] else []
  }

  /** Where the middle of a three-part concatenation sits. */
  lemma MiddleIndex<T>(x: seq<T>, y: seq<T>, z: seq<T>)
    ensures |x + y + z| == |x| + |y| + |z|
    ensures forall k :: 0 <= k < |y| ==> (x + y + z)[|x| + k] == y[k]
  {
  }

  /**
   The pieces of `re.split` in order: the optional empty first piece, then
   the text of every maximal separator-free run from left to right, then
   the optional empty last piece.
   */
  lemma SplitIsLeadRunsTrail(s: string)
    ensures var r := SplitOnSeparators(s);
      var runs := Runs(s, NotSkillSeparator);
      && |r| == |SplitLead(s)| + |runs| + |SplitTrail(s)|
      && forall k :: 0 <= k < |runs| ==> r[|SplitLead(s)| + k] == s[runs[k].lo..runs[k].hi]
  {
    var found := FindAll(s, NotSkillSeparator);
    assert SplitOnSeparators(s) == SplitLead(s) + found + SplitTrail(s);
    MiddleIndex(SplitLead(s), found, SplitTrail(s));
  }

  /**
   The shape of `re.split`'s result: at least one piece; empty pieces only
   at the ends; an empty first piece exactly when the text is empty or opens
   with a separator, an empty last piece exactly when it is empty or ends
   with one.
   */
  lemma SplitShape(s: string)
    ensures var r := SplitOnSeparators(s);
      && |r| > 0
      && (forall k :: 0 < k < |r| - 1 ==> r[k] != "")
      && (r[0] == "" <==> |s| == 0 || IsSkillSeparator(s[0]))
      && (r[|r| - 1] == "" <==> |s| == 0 || IsSkillSeparator(s[|s| - 1]))
  {
    SplitMiddle(s);
    SplitOuter(s);
  }

  lemma SplitMiddle(s: string)
    ensures var r := SplitOnSeparators(s); forall k :: 0 < k < |r| - 1 ==> r[k] != ""
  {
    var runs := FindAll(s, NotSkillSeparator);
    var r := SplitOnSeparators(s);
    var lead, trail := SplitLead(s), SplitTrail(s);
    assert r == lead + runs + trail;
    forall k | 0 < k < |r| - 1 ensures r[k] != "" {
      assert r[k] == runs[k - |lead|];
    }
  }

  lemma SplitOuter(s: string)
    ensures var r := SplitOnSeparators(s);
      && |r| > 0
      && (r[0] == "" <==> |s| == 0 || IsSkillSeparator(s[0]))
      && (r[|r| - 1] == "" <==> |s| == 0 || IsSkillSeparator(s[|s| - 1]))
  {
    var runs := FindAll(s, NotSkillSeparator);
    var r := SplitOnSeparators(s);
    var lead, trail := SplitLead(s), SplitTrail(s);
    assert r == lead + runs + trail;
    SplitEnds(s);
  }

  /** Where the separator-free runs start and end: at the text's ends exactly when it has no separator there. */
  lemma SplitEnds(s: string)
    ensures var runs := FindAll(s, NotSkillSeparator);
      && (|s| > 0 && !IsSkillSeparator(s[0]) ==> |runs| > 0 && runs[0] != "")
      && (|s| > 0 && !IsSkillSeparator(s[|s| - 1]) ==> |runs| > 0 && runs[|runs| - 1] != "")
  {
    var r := Runs(s, NotSkillSeparator);
    assert |s| > 0 && !IsSkillSeparator(s[0]) ==> InClass(s[0], NotSkillSeparator) && Covers(r, 0);
    assert |s| > 0 && !IsSkillSeparator(s[|s| - 1]) ==> InClass(s[|s| - 1], NotSkillSeparator) && Covers(r, |s| - 1);
  }

  /** `re.split` misses nothing: the text of every maximal separator-free run is a piece. */
  lemma SplitHasRun(s: string, sp: Span)
    requires IsRun(s, NotSkillSeparator, sp)
    ensures s[sp.lo..sp.hi] in SplitOnSeparators(s)
  {
    FindAllHasRun(s, NotSkillSeparator, sp);
  }

  /** Every non-empty piece of `re.split` is the text of a maximal separator-free run. */
  lemma SplitPieceIsRun(s: string, k: nat)
    requires k < |SplitOnSeparators(s)| && SplitOnSeparators(s)[k] != ""
    ensures exists sp :: IsRun(s, NotSkillSeparator, sp) && SplitOnSeparators(s)[k] == s[sp.lo..sp.hi]
  {
    var r := SplitOnSeparators(s);
    var runs := FindAll(s, NotSkillSeparator);
    var lead, trail := SplitLead(s), SplitTrail(s);
    assert r == lead + runs + trail;
    assert |lead| <= k < |lead| + |runs|;
    var m := k - |lead|;
    assert r[k] == runs[m];
    FindAllPieceIsRun(s, NotSkillSeparator, m);
  }

  /** Text that opens with a separator-free `w` and then a separator splits into `w` first. */
  lemma SplitFirst(w: string, c: char, rest: string)
    requires |w| > 0 && forall k :: 0 <= k < |w| ==> !IsSkillSeparator(w[k])
    requires IsSkillSeparator(c)
    ensures |SplitOnSeparators(w + [c] + rest)| > 0 && SplitOnSeparators(w + [c] + rest)[0] == w
  {
    var s := w + [c] + rest;
    assert s[0] == w[0];
    FindAllFirst(w, c, rest, NotSkillSeparator);
  }

  /** A string whose ends are not whitespace is its own strip. */
  lemma StripTrimmed(s: string)
    requires |s| > 0 && !IsSpace(s[0]) && !IsSpace(s[|s| - 1])
    ensures Strip(s) == s
  {
    var r := Strip(s);
    var i, j :| && 0 <= i <= j <= |s| && r == s[i..j]
                && (forall k :: 0 <= k < i ==> IsSpace(s[k]))
                && (forall k :: j <= k < |s| ==> IsSpace(s[k]));
    assert i == 0;
    assert j == |s|;
  }
}
