/**
 Section extraction of the `/parse_resume` endpoint: `find_sections`
 locates each known heading in the lower-cased text and cuts the text into
 blocks at the heading positions; `extract_skills_from_section` splits the
 skills block into individual skills.
 */
module ResumeSections {
  import opened Text
  import opened Seqs

  /** `HEADINGS`, in the order the source lists them. */
  const Headings: seq<string> := [
    "summary", "objective",
    "skills", "technical skills",
    "experience", "work experience",
    "projects", "education", "certifications"
  ]

  /** A heading and the index of its first occurrence. */
  datatype Found = Found(heading: string, pos: nat)

  function Pos(f: Found): int { f.pos }

  predicate IsPrefix(p: string, s: string) {
    |p| <= |s| && s[..|p|] == p
  }

  predicate PrefixFree(hs: seq<string>) {
    forall i, j :: 0 <= i < |hs| && 0 <= j < |hs| && i != j ==> !IsPrefix(hs[i], hs[j])
  }

  /** No heading is a prefix of another (their first two letters already differ). */
  lemma HeadingsPrefixFree()
    ensures PrefixFree(Headings)
  {
    forall i, j | 0 <= i < |Headings| && 0 <= j < |Headings| && i != j
      ensures !IsPrefix(Headings[i], Headings[j])
    {
      var a, b := Headings[i], Headings[j];
      assert |a| >= 2 && |b| >= 2;
      assert a[0] != b[0] || a[1] != b[1];
    }
  }

  /** Two words that occur at the same index: the shorter is a prefix of the longer. */
  lemma SamePositionPrefix(low: string, h: string, g: string, p: int)
    requires OccursAt(low, h, p) && OccursAt(low, g, p)
    ensures |h| <= |g| ==> IsPrefix(h, g)
    ensures |g| <= |h| ==> IsPrefix(g, h)
  {
    if |h| <= |g| {
      assert g[..|h|] == low[p..p + |h|];
    }
    if |g| <= |h| {
      assert h[..|g|] == low[p..p + |g|];
    }
  }

  /** Two headings matching at the same index of the text are the same heading. */
  lemma SamePositionSameHeading(low: string, hs: seq<string>, h: string, g: string, p: int, q: int)
    requires PrefixFree(hs) && h in hs && g in hs
    requires OccursAt(low, h, p) && OccursAt(low, g, q)
    ensures p == q ==> h == g
  {
    var i :| 0 <= i < |hs| && hs[i] == h;
    var j :| 0 <= j < |hs| && hs[j] == g;
    if p == q {
      SamePositionPrefix(low, h, g, p);
    }
  }

  /** Distinct headings of a prefix-free list that both occur are found at distinct positions. */
  lemma FoundPositionsDistinct(text: string, hs: seq<string>, h: string, g: string)
    requires PrefixFree(hs) && h in hs && g in hs && h != g
    requires Find(Lower(text), h) >= 0 && Find(Lower(text), g) >= 0
    ensures Find(Lower(text), h) != Find(Lower(text), g)
  {
    var low := Lower(text);
    SamePositionSameHeading(low, hs, h, g, Find(low, h), Find(low, g));
  }

  /** `positions`: each heading of `hs` that occurs in `low` with its first index, in `hs` order. */
  function Locate(low: string, hs: seq<string>): (r: seq<Found>)
    ensures forall f :: f in r ==> f.heading in hs && Find(low, f.heading) == f.pos
    ensures forall h :: h in hs && Find(low, h) >= 0 ==> Found(h, Find(low, h)) in r
    ensures Distinct(hs) ==> Distinct(r)
  {
    if |hs| == 0 then []
    else
      var idx := Find(low, hs[0]);
      var rest := Locate(low, hs[1..]);
      assert Distinct(hs) ==> Distinct(hs[1..]) && hs[0] !in hs[1..] by {
        if Distinct(hs) {
          forall i, j | 0 <= i < j < |hs[1..]| ensures hs[1..][i] != hs[1..][j] {
            assert hs[1..][i] == hs[i + 1] && hs[1..][j] == hs[j + 1];
          }
          forall k | 0 <= k < |hs[1..]| ensures hs[1..][k] != hs[0] {
            assert hs[1..][k] == hs[k + 1];
          }
        }
      }
      assert forall h :: h in hs ==> h == hs[0] || h in hs[1..];
      (if idx != -1 then [Found(hs[0], idx)] else []) + rest
  }

  /** `items = sorted(positions.items(), key=lambda x: x[1])`: the found headings sorted by position. */
  function Located(low: string, hs: seq<string>): seq<Found> {
    SortBy(Locate(low, hs), Pos)
  }

  lemma LocatedFacts(low: string, hs: seq<string>)
    requires PrefixFree(hs)
    ensures forall f :: f in Located(low, hs) ==> f.heading in hs && f.pos == Find(low, f.heading)
    ensures forall g :: g in hs && Find(low, g) >= 0 ==> Found(g, Find(low, g)) in Located(low, hs)
    ensures forall f :: f in Located(low, hs) ==> OccursAt(low, f.heading, f.pos)
    ensures forall i, j :: 0 <= i < j < |Located(low, hs)| ==> Located(low, hs)[i].pos < Located(low, hs)[j].pos
    ensures forall i, j :: 0 <= i < j < |Located(low, hs)| ==> Located(low, hs)[i].heading != Located(low, hs)[j].heading
  {
    LocatedMembers(low, hs);
    LocatedOrder(low, hs);
  }

  /** The sorted list holds exactly the found headings with their first positions. */
  lemma LocatedMembers(low: string, hs: seq<string>)
    ensures forall f :: f in Located(low, hs) ==> f.heading in hs && f.pos == Find(low, f.heading)
    ensures forall g :: g in hs && Find(low, g) >= 0 ==> Found(g, Find(low, g)) in Located(low, hs)
    ensures forall f :: f in Located(low, hs) ==> OccursAt(low, f.heading, f.pos)
  {
    var located := Locate(low, hs);
    var items := Located(low, hs);
    assert forall f :: f in items <==> f in multiset(items);
    assert forall f :: f in located <==> f in multiset(located);
  }

  /** Found positions strictly increase along the sorted list, so its headings differ. */
  lemma LocatedOrder(low: string, hs: seq<string>)
    requires PrefixFree(hs)
    ensures forall i, j :: 0 <= i < j < |Located(low, hs)| ==> Located(low, hs)[i].pos < Located(low, hs)[j].pos
    ensures forall i, j :: 0 <= i < j < |Located(low, hs)| ==> Located(low, hs)[i].heading != Located(low, hs)[j].heading
  {
    var items := Located(low, hs);
    LocatedMembers(low, hs);
    forall i, j | 0 <= i < j < |items|
      ensures items[i].pos < items[j].pos
    {
      assert Pos(items[i]) <= Pos(items[j]);
      assert items[i] in items && items[j] in items;
      SamePositionSameHeading(low, hs, items[i].heading, items[j].heading, items[i].pos, items[j].pos);
      PositionsOfDistinct(low, hs, i, j);
    }
  }

  /** Two entries of the sorted list are different found headings. */
  lemma PositionsOfDistinct(low: string, hs: seq<string>, i: nat, j: nat)
    requires PrefixFree(hs)
    requires i < j < |Located(low, hs)|
    ensures Located(low, hs)[i] != Located(low, hs)[j]
  {
    var located := Locate(low, hs);
    var items := Located(low, hs);
    assert Distinct(hs) by {
      forall a, b | 0 <= a < b < |hs| ensures hs[a] != hs[b] {
        assert !IsPrefix(hs[a], hs[b]);
      }
    }
    PermutationKeepsDistinct(located, items);
  }

  /** Where block `i` ends: the next heading's position, or the end of the text. */
  function BlockEnd(items: seq<Found>, i: nat, len: nat): nat {
    if i + 1 < |items| then items[i + 1].pos else len
  }

  /** Block `i`: `text[start:end].strip()`. */
  function Block(text: string, items: seq<Found>, i: nat): string
    requires i < |items|
  {
    Strip(Slice(text, items[i].pos, BlockEnd(items, i, |text|)))
  }

  /** All blocks of `items`, in order. */
  function AllBlocks(text: string, items: seq<Found>): (r: seq<string>)
    ensures |r| == |items|
  {
    seq(|items|, i requires 0 <= i < |items| => Block(text, items, i))
  }

  function Headers(items: seq<Found>): (r: seq<string>)
    ensures |r| == |items|
  {
    seq(|items|, i requires 0 <= i < |items| => items[i].heading)
  }

  /** The dictionary after the first `n` rounds of the loop over `enumerate(items)` that sets `sections[h] = text[start:end].strip()`. */
  function Assign(keys: seq<string>, vals: seq<string>, n: nat): map<string, string>
    requires n <= |keys| == |vals|
  {
    if n == 0 then map[]
    else Assign(keys, vals, n - 1)[keys[n - 1] := vals[n - 1]]
  }

  lemma {:induction false} AssignValues(keys: seq<string>, vals: seq<string>, n: nat)
    requires n <= |keys| == |vals|
    requires Distinct(keys)
    ensures forall k :: 0 <= k < n ==> keys[k] in Assign(keys, vals, n) && Assign(keys, vals, n)[keys[k]] == vals[k]
  {
    if n > 0 {
      AssignValues(keys, vals, n - 1);
      var prev := Assign(keys, vals, n - 1);
      var m := Assign(keys, vals, n);
      forall k | 0 <= k < n ensures keys[k] in m && m[keys[k]] == vals[k] {
        if k < n - 1 {
          assert keys[k] != keys[n - 1];
          assert keys[k] in prev && prev[keys[k]] == vals[k];
        }
      }
    }
  }

  lemma {:induction false} AssignKeys(keys: seq<string>, vals: seq<string>, n: nat)
    requires n <= |keys| == |vals|
    ensures forall h :: h in Assign(keys, vals, n) ==> exists k :: 0 <= k < n && keys[k] == h
  {
    if n > 0 {
      AssignKeys(keys, vals, n - 1);
    }
  }

  /** The blocks of `items` keyed by heading; the facts about them. */
  lemma BlocksFacts(text: string, items: seq<Found>)
    requires forall i, j :: 0 <= i < j < |items| ==> items[i].heading != items[j].heading
    ensures forall k :: 0 <= k < |items| ==>
      items[k].heading in Assign(Headers(items), AllBlocks(text, items), |items|)
      && Assign(Headers(items), AllBlocks(text, items), |items|)[items[k].heading] == AllBlocks(text, items)[k]
    ensures forall h :: h in Assign(Headers(items), AllBlocks(text, items), |items|) ==>
      exists k :: 0 <= k < |items| && items[k].heading == h
  {
    var keys, vals := Headers(items), AllBlocks(text, items);
    assert forall k :: 0 <= k < |items| ==> keys[k] == items[k].heading;
    assert Distinct(keys);
    AssignValues(keys, vals, |items|);
    AssignKeys(keys, vals, |items|);
  }

  /** `find_sections(text)`, with the heading list `HEADINGS` passed in as `hs`. */
  function FindSections(text: string, hs: seq<string>): (r: map<string, string>)
    ensures forall h :: h in r ==> h in hs && Find(Lower(text), h) >= 0
  {
    var items := Located(Lower(text), hs);
    LocatedMembers(Lower(text), hs);
    AssignedKeysFound(Lower(text), hs, items, AllBlocks(text, items));
    Assign(Headers(items), AllBlocks(text, items), |items|)
  }

  /** Only headings of `items` become keys of the dictionary built from them. */
  lemma AssignedKeysFound(low: string, hs: seq<string>, items: seq<Found>, blocks: seq<string>)
    requires |blocks| == |items|
    requires forall f :: f in items ==> f.heading in hs && f.pos == Find(low, f.heading)
    ensures forall h :: h in Assign(Headers(items), blocks, |items|) ==> h in hs && Find(low, h) >= 0
  {
    AssignKeys(Headers(items), blocks, |items|);
    assert forall k :: 0 <= k < |items| ==> Headers(items)[k] == items[k].heading && items[k] in items;
  }

  /**
   The independent reading of where a section ends: the smallest position
   greater than `p` at which some heading of `hs` is first found, or `n`
   when there is none.
   */
  function NextHeadingStart(low: string, hs: seq<string>, p: int, n: int): (q: int)
    ensures q <= n
    ensures q == n || (p < q && exists h :: h in hs && Find(low, h) == q)
    ensures forall h :: h in hs && p < Find(low, h) ==> q <= Find(low, h)
  {
    if |hs| == 0 then n
    else
      var q := NextHeadingStart(low, hs[1..], p, n);
      var f := Find(low, hs[0]);
      assert forall h :: h in hs ==> h == hs[0] || h in hs[1..];
      if p < f < q then f else q
  }

  /** The keys of `find_sections` are exactly the headings that occur in the lower-cased text. */
  lemma FindSectionsKeys(text: string, hs: seq<string>, h: string)
    requires PrefixFree(hs)
    ensures h in FindSections(text, hs) <==> h in hs && exists k :: OccursAt(Lower(text), h, k)
  {
    var low := Lower(text);
    var items := Located(low, hs);
    LocatedFacts(low, hs);
    BlocksFacts(text, items);
    if h in hs && exists k :: OccursAt(low, h, k) {
      assert Found(h, Find(low, h)) in items;
    }
    if h in FindSections(text, hs) {
      var k :| 0 <= k < |items| && items[k].heading == h;
      assert items[k] in items;
    }
  }

  /** In a position-sorted list of exactly the found headings, block `i` ends where the reference says. */
  lemma BlockEndIsNextHeading(low: string, hs: seq<string>, items: seq<Found>, i: nat)
    requires forall f :: f in items ==> f.heading in hs && f.pos == Find(low, f.heading)
    requires forall g :: g in hs && Find(low, g) >= 0 ==> Found(g, Find(low, g)) in items
    requires forall f :: f in items ==> f.pos <= |low|
    requires forall a, b :: 0 <= a < b < |items| ==> items[a].pos < items[b].pos
    requires i < |items|
    ensures BlockEnd(items, i, |low|) == NextHeadingStart(low, hs, items[i].pos, |low|)
  {
    var p := items[i].pos;
    var q := NextHeadingStart(low, hs, p, |low|);
    var e := BlockEnd(items, i, |low|);
    // every found heading after p sits at an index after i, hence at or after e
    forall g | g in hs && p < Find(low, g)
      ensures e <= Find(low, g)
    {
      assert Found(g, Find(low, g)) in items;
      var k :| 0 <= k < |items| && items[k] == Found(g, Find(low, g));
      assert i < k;
      if i + 1 < k {
        assert items[i + 1].pos < items[k].pos;
      }
    }
    if i + 1 < |items| {
      assert items[i + 1] in items;
    }
    assert e <= q by {
      if q != |low| {
        var g :| g in hs && Find(low, g) == q;
      }
    }
  }

  /**
   Each section is the text from its heading's first occurrence up to the
   next heading found after it (or the end of the text), stripped.
   */
  lemma SectionIsSliceToNextHeading(text: string, hs: seq<string>, h: string)
    requires PrefixFree(hs) && h in hs && Find(Lower(text), h) >= 0
    ensures h in FindSections(text, hs)
    ensures var p := Find(Lower(text), h);
      FindSections(text, hs)[h] == Strip(text[p..NextHeadingStart(Lower(text), hs, p, |text|)])
  {
    var low := Lower(text);
    var p := Find(low, h);
    var items := Located(low, hs);
    LocatedMembers(low, hs);
    assert Found(h, p) in items;
    var i :| 0 <= i < |items| && items[i] == Found(h, p);
    SectionIsBlock(text, hs, i);
    LocatedBlockIsSlice(text, hs, i);
  }

  /** Block `i` of the sorted found headings runs to the next heading found after it. */
  lemma LocatedBlockIsSlice(text: string, hs: seq<string>, i: nat)
    requires PrefixFree(hs) && i < |Located(Lower(text), hs)|
    ensures var items := Located(Lower(text), hs);
      && items[i].pos <= NextHeadingStart(Lower(text), hs, items[i].pos, |text|) <= |text|
      && Block(text, items, i) == Strip(text[items[i].pos..NextHeadingStart(Lower(text), hs, items[i].pos, |text|)])
  {
    LocatedFacts(Lower(text), hs);
    BlockIsSliceToNextHeading(text, hs, Located(Lower(text), hs), i);
  }

  /** Section `items[i].heading` of `find_sections` is block `i`. */
  lemma SectionIsBlock(text: string, hs: seq<string>, i: nat)
    requires PrefixFree(hs) && i < |Located(Lower(text), hs)|
    ensures var items := Located(Lower(text), hs);
      items[i].heading in FindSections(text, hs) && FindSections(text, hs)[items[i].heading] == Block(text, items, i)
  {
    var items := Located(Lower(text), hs);
    LocatedOrder(Lower(text), hs);
    BlocksFacts(text, items);
  }

  lemma BlockIsSliceToNextHeading(text: string, hs: seq<string>, items: seq<Found>, i: nat)
    requires items == Located(Lower(text), hs)
    requires forall f :: f in items ==> f.heading in hs && f.pos == Find(Lower(text), f.heading)
    requires forall g :: g in hs && Find(Lower(text), g) >= 0 ==> Found(g, Find(Lower(text), g)) in items
    requires forall f :: f in items ==> OccursAt(Lower(text), f.heading, f.pos)
    requires forall a, b :: 0 <= a < b < |items| ==> items[a].pos < items[b].pos
    requires i < |items|
    ensures items[i].pos <= NextHeadingStart(Lower(text), hs, items[i].pos, |text|) <= |text|
    ensures Block(text, items, i) == Strip(text[items[i].pos..NextHeadingStart(Lower(text), hs, items[i].pos, |text|)])
  {
    var low := Lower(text);
    var p := items[i].pos;
    assert items[i] in items;
    BlockEndIsNextHeading(low, hs, items, i);
    var e := BlockEnd(items, i, |text|);
    assert Slice(text, p, e) == text[p..e];
  }

  // ---- extract_skills_from_section ----

  /** What every skill `extract_skills_from_section` appends satisfies: a stripped, non-empty piece of at most 60 characters. */
  predicate IsSkill(p: string) {
    && 0 < |p| <= 60
    && !IsSpace(p[0]) && !IsSpace(p[|p| - 1])
    && forall m :: 0 <= m < |p| ==> !IsSkillSeparator(p[m])
  }

  /** A piece `re.split` yields from `section`: part of it, holding no separator. */
  predicate IsPart(p: string, section: string) {
    && IsInfix(p, section)
    && forall m :: 0 <= m < |p| ==> !IsSkillSeparator(p[m])
  }

  /** Every one of `parts`, first to last, is a piece of `section`. */
  predicate PartsOf(parts: seq<string>, section: string) {
    |parts| == 0 || (IsPart(parts[0], section) && PartsOf(parts[1..], section))
  }

  lemma {:induction false} PartsOfAll(parts: seq<string>, section: string)
    requires forall k :: 0 <= k < |parts| ==> IsPart(parts[k], section)
    ensures PartsOf(parts, section)
  {
    if |parts| > 0 {
      assert forall k :: 0 <= k < |parts| - 1 ==> parts[1..][k] == parts[k + 1];
      PartsOfAll(parts[1..], section);
    }
  }

  /** The filtering loop: strip each part, keep it when non-empty and at most 60 characters. */
  function KeepSkills(parts: seq<string>): (r: seq<string>)
    ensures |r| <= |parts|
  {
    if |parts| == 0 then []
    else
      var p := Strip(parts[0]);
      (if p != "" && |p| <= 60 then [p] else []) + KeepSkills(parts[1..])
  }

  /** Every kept skill is one of the parts, stripped, of 1..60 characters. */
  lemma {:induction false} KeepSkillsFrom(parts: seq<string>)
    ensures forall x :: x in KeepSkills(parts) ==> 0 < |x| <= 60 && exists y :: y in parts && x == Strip(y)
  {
    if |parts| > 0 {
      var p := Strip(parts[0]);
      var head := if p != "" && |p| <= 60 then [p] else [];
      var rest := KeepSkills(parts[1..]);
      KeepSkillsFrom(parts[1..]);
      assert KeepSkills(parts) == head + rest;
      forall x | x in rest ensures exists y :: y in parts && x == Strip(y) {
        var y :| y in parts[1..] && x == Strip(y);
        assert y in parts;
      }
    }
  }

  /** Every skill kept from pieces of a section satisfies the skill conditions and is part of that section. */
  lemma {:induction false} KeepSkillsSound(parts: seq<string>, section: string)
    requires PartsOf(parts, section)
    ensures forall x :: x in KeepSkills(parts) ==> IsSkill(x) && IsInfix(x, section)
  {
    if |parts| > 0 {
      var p := Strip(parts[0]);
      var head := if p != "" && |p| <= 60 then [p] else [];
      StrippedPart(parts[0], section);
      KeepSkillsSound(parts[1..], section);
      assert KeepSkills(parts) == head + KeepSkills(parts[1..]);
    }
  }

  lemma StrippedPart(part: string, section: string)
    requires IsPart(part, section)
    ensures IsInfix(Strip(part), section)
    ensures var p := Strip(part); 0 < |p| <= 60 ==> IsSkill(p)
  {
    var p := Strip(part);
    var i := SkipSpace(part, 0);
    var j := TrimEnd(part, i, |part|);
    assert p == part[i..j];
    assert IsInfix(p, part);
    InfixTransitive(p, part, section);
    forall m | 0 <= m < |p| ensures !IsSkillSeparator(p[m]) {
      assert p[m] == part[i + m];
    }
  }

  /** No qualifying part is dropped: every part that strips to 1..60 characters is kept. */
  lemma {:induction false} KeepSkillsComplete(parts: seq<string>, k: nat)
    requires k < |parts| && Strip(parts[k]) != "" && |Strip(parts[k])| <= 60
    ensures Strip(parts[k]) in KeepSkills(parts)
  {
    var p := Strip(parts[0]);
    var head := if p != "" && |p| <= 60 then [p] else [];
    var rest := KeepSkills(parts[1..]);
    assert KeepSkills(parts) == head + rest;
    if k > 0 {
      assert parts[1..][k - 1] == parts[k];
      KeepSkillsComplete(parts[1..], k - 1);
      assert Strip(parts[k]) in rest;
    } else {
      assert Strip(parts[k]) in head;
    }
  }

  /** The loop works part by part: filtering a concatenation filters each half, in order. */
  lemma {:induction false} KeepSkillsAppend(a: seq<string>, b: seq<string>)
    ensures KeepSkills(a + b) == KeepSkills(a) + KeepSkills(b)
  {
    if |a| > 0 {
      var p := Strip(a[0]);
      var head := if p != "" && |p| <= 60 then [p] else [];
      assert (a + b)[0] == a[0];
      assert (a + b)[1..] == a[1..] + b;
      KeepSkillsAppend(a[1..], b);
      assert KeepSkills(a + b) == head + KeepSkills(a[1..] + b);
      assert KeepSkills(a) == head + KeepSkills(a[1..]);
      ConcatAssoc(head, KeepSkills(a[1..]), KeepSkills(b));
    } else {
      assert a + b == b;
    }
  }

  /** The pieces `re.split` yields from a section are pieces of it. */
  lemma SplitParts(section: string)
    ensures PartsOf(SplitOnSeparators(section), section)
  {
    PartsOfAll(SplitOnSeparators(section), section);
  }

  /** The skills listed in one section: its separator-free parts, stripped and filtered. */
  function SkillsOf(section: string): (r: seq<string>)
    ensures forall k :: 0 <= k < |r| ==> IsSkill(r[k]) && IsInfix(r[k], section)
  {
    SplitParts(section);
    KeepSkillsSound(SplitOnSeparators(section), section);
    KeepSkills(SplitOnSeparators(section))
  }

  /**
   Only the separator-free runs give skills, in the order they appear: the
   empty first and last pieces `re.split` may add strip to nothing and are
   dropped.
   */
  lemma SkillsOfRuns(section: string)
    ensures SkillsOf(section) == KeepSkills(FindAll(section, NotSkillSeparator))
    ensures |SkillsOf(section)| <= |Runs(section, NotSkillSeparator)|
  {
    var runs := FindAll(section, NotSkillSeparator);
    KeepSkillsDropsEmptyEnds(SplitLead(section), runs, SplitTrail(section));
    assert SplitOnSeparators(section) == SplitLead(section) + runs + SplitTrail(section);
  }

  /** Empty pieces around the parts strip to nothing and add no skill. */
  lemma KeepSkillsDropsEmptyEnds(lead: seq<string>, mid: seq<string>, trail: seq<string>)
    requires lead == [] || lead == [""]
    requires trail == [] || trail == [""]
    ensures KeepSkills(lead + mid + trail) == KeepSkills(mid)
  {
    assert Strip("") == "";
    assert KeepSkills([""]) == [];
    KeepSkillsAppend(lead, mid);
    assert KeepSkills(lead + mid) == KeepSkills(mid);
    KeepSkillsAppend(lead + mid, trail);
  }

  /**
   No skill of a section is missed: every maximal separator-free run of the
   section that strips to 1..60 characters is listed, stripped.
   */
  lemma SkillsOfComplete(section: string, sp: Span)
    requires IsRun(section, NotSkillSeparator, sp)
    requires 0 < |Strip(section[sp.lo..sp.hi])| <= 60
    ensures Strip(section[sp.lo..sp.hi]) in SkillsOf(section)
  {
    var parts := SplitOnSeparators(section);
    SplitHasRun(section, sp);
    var k :| 0 <= k < |parts| && parts[k] == section[sp.lo..sp.hi];
    KeepSkillsComplete(parts, k);
  }

  /** Every skill of a section is a maximal separator-free run of it, stripped. */
  lemma SkillsOfSound(section: string, k: nat)
    requires k < |SkillsOf(section)|
    ensures exists sp :: IsRun(section, NotSkillSeparator, sp) && SkillsOf(section)[k] == Strip(section[sp.lo..sp.hi])
  {
    var parts := SplitOnSeparators(section);
    var r := SkillsOf(section);
    KeepSkillsFrom(parts);
    assert r[k] in r;
    var y :| y in parts && r[k] == Strip(y);
    var j :| 0 <= j < |parts| && parts[j] == y;
    assert IsSkill(r[k]) && Strip("") == "";
    assert parts[j] != "";
    SplitPieceIsRun(section, j);
  }

  /**
   `extract_skills_from_section`: the skills of the "technical skills"
   section when there is one, else of the "skills" section, else none.
   */
  function ExtractSkills(secs: map<string, string>): (r: seq<string>)
    ensures forall k :: 0 <= k < |r| ==> IsSkill(r[k])
    ensures "technical skills" in secs ==>
      forall k :: 0 <= k < |r| ==> IsInfix(r[k], secs["technical skills"])
    ensures "technical skills" !in secs && "skills" in secs ==>
      forall k :: 0 <= k < |r| ==> IsInfix(r[k], secs["skills"])
    ensures "technical skills" !in secs && "skills" !in secs ==> r == []
    ensures "technical skills" in secs ==> r == SkillsOf(secs["technical skills"])
    ensures "technical skills" !in secs && "skills" in secs ==> r == SkillsOf(secs["skills"])
  {
    if "technical skills" in secs then SkillsOf(secs["technical skills"])
    else if "skills" in secs then SkillsOf(secs["skills"])
    else []
  }

  /**
   A section's own heading line counts as a skill: a section that opens
   with a heading word and a separator (a newline, say) lists that word as
   its first skill.
   */
  lemma HeadingIsFirstSkill(heading: string, c: char, rest: string)
    requires IsSkill(heading) && IsSkillSeparator(c)
    ensures |SkillsOf(heading + [c] + rest)| > 0 && SkillsOf(heading + [c] + rest)[0] == heading
  {
    var section := heading + [c] + rest;
    SplitFirst(heading, c, rest);
    StripTrimmed(heading);
    KeepSkillsFirst(SplitOnSeparators(section));
  }

  /** A first part that strips to 1..60 characters gives the first skill. */
  lemma KeepSkillsFirst(parts: seq<string>)
    requires |parts| > 0 && Strip(parts[0]) != "" && |Strip(parts[0])| <= 60
    ensures |KeepSkills(parts)| > 0 && KeepSkills(parts)[0] == Strip(parts[0])
  {
    assert KeepSkills(parts) == [Strip(parts[0])] + KeepSkills(parts[1..]);
  }

  const TechnicalSkills := "technical skills"

  /**
   When "skills" does not occur before the "technical skills" heading, the
   "skills" inside that heading is the next heading found, so the
   "technical skills" section is cut to at most the word "technical".
   */
  lemma TechnicalSkillsCutShort(text: string, hs: seq<string>)
    requires PrefixFree(hs) && TechnicalSkills in hs && "skills" in hs
    requires 0 <= Find(Lower(text), TechnicalSkills) < Find(Lower(text), "skills")
    ensures TechnicalSkills in FindSections(text, hs)
    ensures var sec := FindSections(text, hs)[TechnicalSkills];
      |sec| <= 9 && Lower(sec) == TechnicalSkills[..|sec|]
  {
    var low := Lower(text);
    var p := Find(low, TechnicalSkills);
    SectionIsSliceToNextHeading(text, hs, TechnicalSkills);
    SkillsInsideHeading(low, p);
    var q := NextHeadingStart(low, hs, p, |text|);
    StripAfterTechnical(text, p, q);
  }

  /** "technical skills" at `p` puts "skills" at `p + 10`. */
  lemma SkillsInsideHeading(low: string, p: int)
    requires OccursAt(low, TechnicalSkills, p)
    ensures OccursAt(low, "skills", p + 10)
  {
    assert low[p + 10..p + 16] == low[p..p + 16][10..16];
  }

  /** The stripped text from a "technical skills" heading to at most ten characters on. */
  lemma StripAfterTechnical(text: string, p: int, q: int)
    requires OccursAt(Lower(text), TechnicalSkills, p)
    requires p < q <= p + 10
    ensures var sec := Strip(text[p..q]); |sec| <= 9 && Lower(sec) == TechnicalSkills[..|sec|]
  {
    var low := Lower(text);
    var x := text[p..q];
    LowerSlice(text, p, q);
    assert Lower(x) == low[p..p + 16][..q - p];
    TechnicalSkillsShape();
    StripOfLowerPrefix(x, TechnicalSkills, 9);
  }

  lemma TechnicalSkillsShape()
    ensures |TechnicalSkills| == 16 && TechnicalSkills[0] == 't' && TechnicalSkills[9] == ' '
    ensures TechnicalSkills[..9] == "technical"
  {
  }

  /**
   A text that lower-cases to a prefix of `h`, where `h` opens with a
   non-space and has a space at index `m`, strips to at most `m`
   characters, still a prefix of `h` once lower-cased.
   */
  lemma StripOfLowerPrefix(x: string, h: string, m: nat)
    requires 0 < |x| <= m + 1 <= |h|
    requires Lower(x) == h[..|x|]
    requires !IsSpace(h[0]) && h[m] == ' '
    ensures |Strip(x)| <= m && Lower(Strip(x)) == h[..|Strip(x)|]
  {
    var sec := Strip(x);
    assert LowerChar(x[0]) == h[0];
    assert !IsSpace(x[0]);
    assert |x| == m + 1 ==> LowerChar(x[m]) == ' ' && x[m] == ' ';
    var i := SkipSpace(x, 0);
    var j := TrimEnd(x, i, |x|);
    assert i == 0 && sec == x[0..j];
    assert |sec| <= m;
    LowerSlice(x, 0, j);
  }

  // ---- the source's heading list ----

  /** With `HEADINGS`, the keys are exactly the headings that occur in the lower-cased text. */
  lemma HeadingSectionKeys(text: string, h: string)
    ensures h in FindSections(text, Headings) <==> h in Headings && exists k :: OccursAt(Lower(text), h, k)
  {
    HeadingsPrefixFree();
    FindSectionsKeys(text, Headings, h);
  }

  /** With `HEADINGS`, each section runs from its heading to the next heading found after it. */
  lemma HeadingSectionSlice(text: string, h: string)
    requires h in Headings && Find(Lower(text), h) >= 0
    ensures h in FindSections(text, Headings)
    ensures var p := Find(Lower(text), h);
      FindSections(text, Headings)[h] == Strip(text[p..NextHeadingStart(Lower(text), Headings, p, |text|)])
  {
    HeadingsPrefixFree();
    SectionIsSliceToNextHeading(text, Headings, h);
  }

  /** With `HEADINGS`, a "technical skills" heading not preceded by "skills" yields a section of at most "technical". */
  lemma HeadingTechnicalSkillsCutShort(text: string)
    requires 0 <= Find(Lower(text), TechnicalSkills) < Find(Lower(text), "skills")
    ensures TechnicalSkills in FindSections(text, Headings)
    ensures var sec := FindSections(text, Headings)[TechnicalSkills];
      |sec| <= 9 && Lower(sec) == TechnicalSkills[..|sec|]
  {
    HeadingsPrefixFree();
    assert Headings[2] == "skills" && Headings[3] == TechnicalSkills;
    TechnicalSkillsCutShort(text, Headings);
  }
}
