/**
 The ranking part of `/classify_resume`: reject blank text, pair every
 role with its similarity score, sort by score (highest first, stable) and
 keep the first three. The similarity scores come from a sentence-embedding
 model and are taken here as given integers in hundredths of a percent.
 */
module RoleClassifier {
  import opened Wrappers
  import opened Text
  import opened Seqs
  import opened Api
  import opened Numbers

  /** The keys of `ROLE_DESCRIPTIONS`, in declaration order. */
  const RoleNames: seq<string> := [
    "Software Engineer", "Data Scientist", "Machine Learning Engineer", "Frontend Developer",
    "Backend Developer", "DevOps Engineer", "Business Analyst", "Product Manager"
  ]

  /** How many classifications the endpoint returns. */
  const TopCount: nat := 3

  const MissingText := "Missing resume text"

  /** A role with its score and its index in the role list. */
  datatype Scored = Scored(role: string, sim: int, index: nat)

  /** `list(zip(role_names, sims))`, remembering each pair's index; `zip` stops at the shorter list. */
  function Scores(names: seq<string>, sims: seq<int>): (r: seq<Scored>)
    ensures |r| == Min(|names|, |sims|)
    ensures forall i :: 0 <= i < |r| ==> r[i] == Scored(names[i], sims[i], i)
  {
    seq(Min(|names|, |sims|), i requires 0 <= i < Min(|names|, |sims|) => Scored(names[i], sims[i], i))
  }

  /** `key=lambda x: x[1], reverse=True` as an ascending key. */
  function Descending(e: Scored): int { -e.sim }

  /** The scored roles, best first; equal scores keep their role order. */
  function Ranked(names: seq<string>, sims: seq<int>): seq<Scored> {
    SortBy(Scores(names, sims), Descending)
  }

  /** `classify_resume` for a payload whose "text" field is `text` (absent reads as ""). */
  function ClassifyResume(text: Option<string>, sims: seq<int>): (r: Result<seq<Classification>, HttpError>)
    ensures r.Failure? <==> IsBlank(text.GetOr(""))
    ensures r.Failure? ==> r.error == HttpError(400, MissingText)
    ensures r.Success? ==> |r.value| == Min(TopCount, Min(|RoleNames|, |sims|))
    ensures r.Success? ==>
      forall i, j :: 0 <= i < j < |r.value| ==> r.value[i].confidence >= r.value[j].confidence
    ensures r.Success? ==>
      forall k :: 0 <= k < |r.value| ==>
        exists i :: 0 <= i < |RoleNames| && i < |sims| && r.value[k] == Classification(RoleNames[i], sims[i])
  {
    if Strip(text.GetOr("")) == "" then Failure(HttpError(400, MissingText))
    else
      RankedFacts(RoleNames, sims);
      Success(Top(Ranked(RoleNames, sims)))
  }

  /** The first `TopCount` ranked roles as classifications. */
  function Top(ranked: seq<Scored>): (r: seq<Classification>)
    ensures |r| == Min(TopCount, |ranked|)
    ensures forall k :: 0 <= k < |r| ==> r[k] == Classification(ranked[k].role, ranked[k].sim)
  {
    var n := Min(TopCount, |ranked|);
    seq(n, k requires 0 <= k < n => Classification(ranked[k].role, ranked[k].sim))
  }

  lemma RankedFacts(names: seq<string>, sims: seq<int>)
    ensures |Ranked(names, sims)| == Min(|names|, |sims|)
    ensures forall i, j :: 0 <= i < j < |Ranked(names, sims)| ==> Ranked(names, sims)[i].sim >= Ranked(names, sims)[j].sim
    ensures forall e :: e in Ranked(names, sims) <==> e in Scores(names, sims)
    ensures forall e :: e in Ranked(names, sims) ==>
      0 <= e.index < |names| && e.index < |sims| && e.role == names[e.index] && e.sim == sims[e.index]
  {
    var ranked := Ranked(names, sims);
    var scored := Scores(names, sims);
    assert forall e :: e in ranked <==> e in multiset(ranked);
    assert forall e :: e in scored <==> e in multiset(scored);
    forall i, j | 0 <= i < j < |ranked| ensures ranked[i].sim >= ranked[j].sim {
      assert Descending(ranked[i]) <= Descending(ranked[j]);
    }
    forall e | e in ranked
      ensures 0 <= e.index < |names| && e.index < |sims| && e.role == names[e.index] && e.sim == sims[e.index]
    {
      assert e in scored;
    }
  }

  /** Every role left out of the answer scores no higher than each role in it. */
  lemma ClassifyKeepsBestScores(text: Option<string>, sims: seq<int>, i: nat)
    requires ClassifyResume(text, sims).Success?
    requires i < |RoleNames| && i < |sims|
    requires forall k :: 0 <= k < |ClassifyResume(text, sims).value| ==>
      ClassifyResume(text, sims).value[k].role != RoleNames[i]
    ensures forall k :: 0 <= k < |ClassifyResume(text, sims).value| ==>
      sims[i] <= ClassifyResume(text, sims).value[k].confidence
  {
    var r := ClassifyResume(text, sims).value;
    var ranked := Ranked(RoleNames, sims);
    RankedFacts(RoleNames, sims);
    assert r == Top(ranked);
    var e := Scored(RoleNames[i], sims[i], i);
    assert Scores(RoleNames, sims)[i] == e;
    assert e in ranked;
    var m :| 0 <= m < |ranked| && ranked[m] == e;
    assert m >= |r| by {
      if m < |r| {
        assert false;
      }
    }
    forall k | 0 <= k < |r| ensures sims[i] <= r[k].confidence {
      assert ranked[k].sim >= ranked[m].sim;
    }
  }

  lemma {:induction false} WithKeyIndexIncreasing(s: seq<Scored>, key: Scored -> int, v: int)
    requires forall a, b :: 0 <= a < b < |s| ==> s[a].index < s[b].index
    ensures forall a, b :: 0 <= a < b < |WithKey(s, key, v)| ==> WithKey(s, key, v)[a].index < WithKey(s, key, v)[b].index
  {
    if |s| > 0 {
      var rest := WithKey(s[1..], key, v);
      WithKeyIndexIncreasing(s[1..], key, v);
      WithKeyMembers(s[1..], key, v);
      forall x | x in rest ensures s[0].index < x.index {
        var m :| 0 <= m < |s[1..]| && s[1..][m] == x;
        assert s[1..][m] == s[m + 1];
      }
    }
  }

  /** In the ranking, roles with equal scores keep the order of the role list. */
  lemma RankedTiesKeepIndexOrder(names: seq<string>, sims: seq<int>, a: nat, b: nat)
    requires a < b < |Ranked(names, sims)|
    requires Ranked(names, sims)[a].sim == Ranked(names, sims)[b].sim
    ensures Ranked(names, sims)[a].index < Ranked(names, sims)[b].index
  {
    var scored := Scores(names, sims);
    var ranked := Ranked(names, sims);
    var v := Descending(ranked[a]);
    WithKeyOrder(ranked, Descending, v, a, b);
    SortByIsStable(scored, Descending, v);
    WithKeyIndexIncreasing(scored, Descending, v);
    var w := WithKey(ranked, Descending, v);
    var p, q :| 0 <= p < q < |w| && w[p] == ranked[a] && w[q] == ranked[b];
  }

  /** Stability: roles with equal confidence appear in the order of the role list. */
  lemma ClassifyTiesKeepRoleOrder(text: Option<string>, sims: seq<int>, a: nat, b: nat)
    requires ClassifyResume(text, sims).Success?
    requires a < b < |ClassifyResume(text, sims).value|
    requires ClassifyResume(text, sims).value[a].confidence == ClassifyResume(text, sims).value[b].confidence
    ensures exists ia, ib ::
      && 0 <= ia < ib < |RoleNames|
      && RoleNames[ia] == ClassifyResume(text, sims).value[a].role
      && RoleNames[ib] == ClassifyResume(text, sims).value[b].role
  {
    var r := ClassifyResume(text, sims).value;
    var ranked := Ranked(RoleNames, sims);
    RankedFacts(RoleNames, sims);
    assert r == Top(ranked);
    RankedTiesKeepIndexOrder(RoleNames, sims, a, b);
    assert ranked[a] in ranked && ranked[b] in ranked;
  }

  /**
   Stability at the cut: a role left out whose score ties with a returned
   role comes later in the role list than that returned role.
   */
  lemma ClassifyCutKeepsRoleOrder(text: Option<string>, sims: seq<int>, i: nat, k: nat)
    requires ClassifyResume(text, sims).Success?
    requires i < |RoleNames| && i < |sims|
    requires forall n :: 0 <= n < |ClassifyResume(text, sims).value| ==>
      ClassifyResume(text, sims).value[n].role != RoleNames[i]
    requires k < |ClassifyResume(text, sims).value|
    requires ClassifyResume(text, sims).value[k].confidence == sims[i]
    ensures exists j :: 0 <= j < i && RoleNames[j] == ClassifyResume(text, sims).value[k].role
  {
    var r := ClassifyResume(text, sims).value;
    var ranked := Ranked(RoleNames, sims);
    RankedFacts(RoleNames, sims);
    assert r == Top(ranked);
    var e := Scored(RoleNames[i], sims[i], i);
    assert Scores(RoleNames, sims)[i] == e;
    assert e in ranked;
    var m :| 0 <= m < |ranked| && ranked[m] == e;
    assert m >= |r| by {
      if m < |r| {
        assert false;
      }
    }
    RankedTiesKeepIndexOrder(RoleNames, sims, k, m);
    assert ranked[k] in ranked;
    assert RoleNames[ranked[k].index] == r[k].role;
  }
}
