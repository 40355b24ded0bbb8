/**
 Sequence helpers the backend leans on: duplicate-free sequences, order of
 first appearance (Python's dict and Counter key order), and a stable sort
 of a sequence by an integer key. Python's `sorted` and
 `list.sort` are stable, and `reverse=True` keeps equal elements in their
 original order too, so a descending sort is the ascending sort by the
 negated key.
 */
module Seqs {

  /** Concatenation regroups freely; stated once so that callers need not reason element-wise. */
  lemma ConcatAssoc<T>(x: seq<T>, y: seq<T>, z: seq<T>)
    ensures x + (y + z) == (x + y) + z
  {
  }

  predicate Distinct<T(==)>(s: seq<T>) {
    forall i, j :: 0 <= i < j < |s| ==> s[i] != s[j]
  }

  lemma {:induction false} DistinctCountAtMostOne<T>(s: seq<T>, x: T)
    requires Distinct(s)
    ensures multiset(s)[x] <= 1
  {
    if |s| > 0 {
      assert s == [s[0]] + s[1..];
      assert Distinct(s[1..]) by {
        forall i, j | 0 <= i < j < |s[1..]| ensures s[1..][i] != s[1..][j] {
          assert s[1..][i] == s[i + 1] && s[1..][j] == s[j + 1];
        }
      }
      DistinctCountAtMostOne(s[1..], x);
      if s[0] == x {
        assert x !in s[1..] by {
          forall k | 0 <= k < |s[1..]| ensures s[1..][k] != x {
            assert s[1..][k] == s[k + 1];
          }
        }
      }
    }
  }

  /** Two equal elements at different indices occur at least twice in the multiset. */
  lemma RepeatedCountsTwice<T>(s: seq<T>, i: nat, j: nat)
    requires i < j < |s| && s[i] == s[j]
    ensures multiset(s)[s[i]] >= 2
  {
    assert s == s[..j] + s[j..];
    assert s[i] == s[..j][i];
    assert s[j] == s[j..][0];
    assert multiset(s) == multiset(s[..j]) + multiset(s[j..]);
  }

  /** A permutation of a duplicate-free sequence is duplicate-free. */
  lemma PermutationKeepsDistinct<T>(s: seq<T>, t: seq<T>)
    requires Distinct(s) && multiset(t) == multiset(s)
    ensures Distinct(t)
  {
    forall i, j | 0 <= i < j < |t| ensures t[i] != t[j] {
      if t[i] == t[j] {
        RepeatedCountsTwice(t, i, j);
        DistinctCountAtMostOne(s, t[i]);
        assert false;
      }
    }
  }

  predicate SortedBy<T>(s: seq<T>, key: T -> int) {
    forall i, j :: 0 <= i < j < |s| ==> key(s[i]) <= key(s[j])
  }

  /** The elements of `s` whose key is `v`, in their order in `s`. */
  function WithKey<T>(s: seq<T>, key: T -> int, v: int): (r: seq<T>)
    ensures |r| <= |s|
  {
    if |s| == 0 then []
    else (if key(s[0]) == v then [s[0]] else []) + WithKey(s[1..], key, v)
  }

  /** Places `x` in front of the first element of `s` whose key is not smaller. */
  function Insert<T>(x: T, s: seq<T>, key: T -> int): (r: seq<T>)
    requires SortedBy(s, key)
    ensures SortedBy(r, key)
    ensures multiset(r) == multiset(s) + multiset{x}
  {
    if |s| == 0 || key(x) <= key(s[0]) then [x] + s
    else
      var tail := Insert(x, s[1..], key);
      assert s == [s[0]] + s[1..];
      HeadBelowAll(s[0], x, s[1..], tail, key);
      [s[0]] + tail
  }

  lemma HeadBelowAll<T>(h: T, x: T, rest: seq<T>, tail: seq<T>, key: T -> int)
    requires SortedBy([h] + rest, key) && SortedBy(tail, key)
    requires key(h) < key(x)
    requires multiset(tail) == multiset(rest) + multiset{x}
    ensures SortedBy([h] + tail, key)
  {
    forall k | 0 <= k < |tail|
      ensures key(h) <= key(tail[k])
    {
      assert tail[k] in multiset(tail);
      if tail[k] != x {
        assert tail[k] in multiset(rest);
        assert tail[k] in rest;
        var m :| 0 <= m < |rest| && rest[m] == tail[k];
        var hr := [h] + rest;
        assert hr[0] == h && hr[m + 1] == rest[m];
        assert key(hr[0]) <= key(hr[m + 1]);
      }
    }
    var r := [h] + tail;
    forall i, j | 0 <= i < j < |r|
      ensures key(r[i]) <= key(r[j])
    {
      if i > 0 {
        assert r[i] == tail[i - 1] && r[j] == tail[j - 1];
      } else {
        assert r[j] == tail[j - 1];
      }
    }
  }

  /** Insertion sort: a stable sort of `s` by ascending key. */
  function SortBy<T>(s: seq<T>, key: T -> int): (r: seq<T>)
    ensures SortedBy(r, key)
    ensures multiset(r) == multiset(s)
    ensures |r| == |s|
  {
    if |s| == 0 then []
    else
      assert s == [s[0]] + s[1..];
      Insert(s[0], SortBy(s[1..], key), key)
  }

  lemma {:induction false} InsertKeepsTies<T>(x: T, s: seq<T>, key: T -> int, v: int)
    requires SortedBy(s, key)
    ensures WithKey(Insert(x, s, key), key, v) == WithKey([x] + s, key, v)
    decreases |s|
  {
    if |s| == 0 || key(x) <= key(s[0]) {
    } else {
      var tail := Insert(x, s[1..], key);
      InsertKeepsTies(x, s[1..], key, v);
      assert ([s[0]] + tail)[1..] == tail;
      assert ([x] + s)[1..] == s;
      assert ([x] + s[1..])[1..] == s[1..];
      assert s == [s[0]] + s[1..];
      if key(x) == v {
        // s[0] has a key below key(x), so it is not among the ties of x
        assert key(s[0]) != v;
      }
    }
  }

  /** Stability: for every key value, the elements with that key keep their relative order. */
  lemma {:induction false} SortByIsStable<T>(s: seq<T>, key: T -> int, v: int)
    ensures WithKey(SortBy(s, key), key, v) == WithKey(s, key, v)
  {
    if |s| > 0 {
      var sorted := SortBy(s[1..], key);
      SortByIsStable(s[1..], key, v);
      InsertKeepsTies(s[0], sorted, key, v);
      assert ([s[0]] + sorted)[1..] == sorted;
    }
  }

  lemma {:induction false} WithKeyMembers<T>(s: seq<T>, key: T -> int, v: int)
    ensures forall x :: x in WithKey(s, key, v) <==> x in s && key(x) == v
  {
    if |s| > 0 {
      WithKeyMembers(s[1..], key, v);
      assert s == [s[0]] + s[1..];
    }
  }

  /** Two elements with key `v` keep their relative order in `WithKey(s, key, v)`. */
  lemma {:induction false} WithKeyOrder<T>(s: seq<T>, key: T -> int, v: int, i: nat, j: nat)
    requires i < j < |s| && key(s[i]) == v && key(s[j]) == v
    ensures exists p, q :: 0 <= p < q < |WithKey(s, key, v)| && WithKey(s, key, v)[p] == s[i] && WithKey(s, key, v)[q] == s[j]
  {
    var w := WithKey(s, key, v);
    var rest := WithKey(s[1..], key, v);
    var head := if key(s[0]) == v then [s[0]] else [];
    assert w == head + rest;
    assert s[1..][j - 1] == s[j];
    if i == 0 {
      WithKeyMembers(s[1..], key, v);
      assert s[j] in s[1..];
      var q :| 0 <= q < |rest| && rest[q] == s[j];
      assert w[0] == s[0] && w[q + 1] == rest[q];
    } else {
      assert s[1..][i - 1] == s[i];
      WithKeyOrder(s[1..], key, v, i - 1, j - 1);
      var p, q :| 0 <= p < q < |rest| && rest[p] == s[i] && rest[q] == s[j];
      assert w[|head| + p] == rest[p] && w[|head| + q] == rest[q];
    }
  }

  // ---- order of first appearance ----

  /** The index of the first occurrence of `x` in `s`. */
  function FirstIndex<T(==)>(s: seq<T>, x: T): (i: nat)
    requires x in s
    ensures i < |s| && s[i] == x
    ensures forall k :: 0 <= k < i ==> s[k] != x
  {
    if s[0] == x then 0 else 1 + FirstIndex(s[1..], x)
  }

  lemma {:induction false} FirstIndexInPrefix<T>(s: seq<T>, y: T, x: T)
    requires x in s
    ensures FirstIndex(s + [y], x) == FirstIndex(s, x)
  {
    var i := FirstIndex(s + [y], x);
    var j := FirstIndex(s, x);
    assert (s + [y])[j] == x;
    assert s[i] == x by { if i >= |s| { assert false; } }
  }

  /** `r` lists its elements in the order they first appear in `t`. */
  predicate InFirstOrder<T(==)>(r: seq<T>, t: seq<T>) {
    && (forall i :: 0 <= i < |r| ==> r[i] in t)
    && (forall i, j :: 0 <= i < j < |r| ==> FirstIndex(t, r[i]) < FirstIndex(t, r[j]))
  }

  /**
   The distinct elements of `s` in order of first appearance: the keys of
   `Counter(s)` or `dict.fromkeys(s)`.
   */
  function Dedup<T(==, !new)>(s: seq<T>): (r: seq<T>)
    ensures Distinct(r)
    ensures forall x :: x in r <==> x in s
    ensures InFirstOrder(r, s)
    decreases |s|
  {
    if |s| == 0 then []
    else
      var init := s[..|s| - 1];
      var last := s[|s| - 1];
      var d := Dedup(init);
      assert s == init + [last];
      forall x | x in init ensures FirstIndex(s, x) == FirstIndex(init, x) {
        FirstIndexInPrefix(init, last, x);
      }
      if last in d then d
      else
        var r := d + [last];
        assert FirstIndex(s, last) == |s| - 1;
        assert forall i :: 0 <= i < |d| ==> r[i] == d[i];
        r
  }

  /** A duplicate-free sequence has as many elements as its set. */
  lemma {:induction false} DistinctCard<T>(s: seq<T>)
    requires Distinct(s)
    ensures |set x | x in s| == |s|
  {
    if |s| > 0 {
      var t := s[1..];
      assert Distinct(t) by {
        forall i, j | 0 <= i < j < |t| ensures t[i] != t[j] {
          assert t[i] == s[i + 1] && t[j] == s[j + 1];
        }
      }
      DistinctCard(t);
      assert s[0] !in t by {
        forall k | 0 <= k < |t| ensures t[k] != s[0] {
          assert t[k] == s[k + 1];
        }
      }
      assert (set x | x in s) == {s[0]} + (set x | x in t) by {
        assert s == [s[0]] + t;
      }
    }
  }

  /**
   The elements of `s` whose membership in `keep` is `inside`, in their
   order: `[w for w in s if w in keep]` or `[w for w in s if w not in keep]`.
   */
  function Select<T(==, !new)>(s: seq<T>, keep: set<T>, inside: bool): (r: seq<T>)
    ensures forall x :: x in r <==> x in s && (x in keep <==> inside)
    ensures Distinct(s) ==> Distinct(r)
  {
    if |s| == 0 then []
    else
      var rest := Select(s[1..], keep, inside);
      assert forall i :: 0 <= i < |s| - 1 ==> s[1..][i] == s[i + 1];
      assert forall x :: x in s <==> x == s[0] || x in s[1..] by {
        assert s == [s[0]] + s[1..];
      }
      assert Distinct(s) ==> s[0] !in s[1..];
      if (s[0] in keep) == inside then [s[0]] + rest else rest
  }

  /** Selecting keeps the order of what is selected. */
  lemma {:induction false} SelectKeepsOrder<T(!new)>(s: seq<T>, keep: set<T>, inside: bool, t: seq<T>)
    requires InFirstOrder(s, t)
    ensures InFirstOrder(Select(s, keep, inside), t)
  {
    if |s| > 0 {
      assert forall i :: 0 <= i < |s| - 1 ==> s[1..][i] == s[i + 1];
      SelectKeepsOrder(s[1..], keep, inside, t);
      var rest := Select(s[1..], keep, inside);
      forall x | x in rest ensures FirstIndex(t, s[0]) < FirstIndex(t, x) {
        var k :| 0 <= k < |s[1..]| && s[1..][k] == x;
      }
    }
  }

  /** Selecting inside and outside a set splits a sequence in two. */
  lemma {:induction false} SelectPartition<T(!new)>(s: seq<T>, keep: set<T>)
    ensures |Select(s, keep, true)| + |Select(s, keep, false)| == |s|
  {
    if |s| > 0 {
      SelectPartition(s[1..], keep);
    }
  }
}
