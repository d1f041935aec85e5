/**
  Ranking of the next-character candidates: the entries of the candidate map, Kotlin's stable
  `sortedByDescending { it.value }` over them, and `take(n)` of the result.
 */
module Ranking {

  /** One entry of the candidate map: a next character and its score. */
  datatype Entry = Entry(key: char, score: real)

  /** Scores never increase from left to right. */
  predicate NonIncreasing(s: seq<Entry>) {
    forall i, j :: 0 <= i < j < |s| ==> s[i].score >= s[j].score
  }

  /** The subsequence of the entries of s whose score is v, in the order of s. */
  function WithScore(s: seq<Entry>, v: real): seq<Entry> {
    if s == [] then [] else (if s[0].score == v then [s[0]] else []) + WithScore(s[1..], v)
  }

  lemma WithScoreCons(a: Entry, u: seq<Entry>, v: real)
    ensures WithScore([a] + u, v) == (if a.score == v then [a] else []) + WithScore(u, v)
  {
  }

  lemma {:induction false} WithScoreMembers(s: seq<Entry>, v: real, e: Entry)
    ensures e in WithScore(s, v) <==> e in s && e.score == v
  {
    if s != [] {
      WithScoreMembers(s[1..], v, e);
      assert s == [s[0]] + s[1..];
    }
  }

  /** Inserts x in front of the first entry that does not score higher than x. */
  function InsertDescending(x: Entry, t: seq<Entry>): (r: seq<Entry>)
    ensures |r| == |t| + 1
  {
    if t == [] || x.score >= t[0].score then [x] + t
    else [t[0]] + InsertDescending(x, t[1..])
  }

  /** Inserting adds x and nothing else. */
  lemma {:induction false} InsertDescendingMultiset(x: Entry, t: seq<Entry>)
    ensures multiset(InsertDescending(x, t)) == multiset(t) + multiset{x}
  {
    if !(t == [] || x.score >= t[0].score) {
      InsertDescendingMultiset(x, t[1..]);
      assert t == [t[0]] + t[1..];
    }
  }

  /** Inserting into a non-increasing sequence keeps it non-increasing. */
  lemma {:induction false} InsertDescendingSorted(x: Entry, t: seq<Entry>)
    requires NonIncreasing(t)
    ensures NonIncreasing(InsertDescending(x, t))
  {
    if !(t == [] || x.score >= t[0].score) {
      var rest := InsertDescending(x, t[1..]);
      InsertDescendingSorted(x, t[1..]);
      InsertDescendingMultiset(x, t[1..]);
      var r := [t[0]] + rest;
      forall j | 1 <= j < |r|
        ensures r[0].score >= r[j].score
      {
        assert r[j] == rest[j - 1];
        assert rest[j - 1] in multiset(rest);
        if r[j] != x {
          assert r[j] in multiset(t[1..]);
          var k :| 0 <= k < |t[1..]| && t[1..][k] == r[j];
          assert t[k + 1] == r[j];
        }
      }
    }
  }

  /** Inserting x puts it ahead of the entries of t that score the same (stability). */
  lemma {:induction false} InsertDescendingStable(x: Entry, t: seq<Entry>, v: real)
    ensures WithScore(InsertDescending(x, t), v) == (if x.score == v then [x] else []) + WithScore(t, v)
  {
    if t == [] || x.score >= t[0].score {
      WithScoreCons(x, t, v);
    } else {
      var rest := InsertDescending(x, t[1..]);
      var xs := if x.score == v then [x] else [];
      var ys := if t[0].score == v then [t[0]] else [];
      InsertDescendingStable(x, t[1..], v);
      WithScoreCons(t[0], rest, v);
      WithScoreCons(t[0], t[1..], v);
      assert t == [t[0]] + t[1..];
      assert xs == [] || ys == [];
      calc {
        WithScore(InsertDescending(x, t), v);
        ys + WithScore(rest, v);
        ys + (xs + WithScore(t[1..], v));
        xs + (ys + WithScore(t[1..], v));
        xs + WithScore(t, v);
      }
    }
  }

  /**
    Kotlin's `sortedByDescending { it.value }`: an insertion sort that keeps entries with equal
    scores in their original order (the sort is stable).
   */
  function SortedByDescending(s: seq<Entry>): (r: seq<Entry>)
    ensures |r| == |s|
  {
    if s == [] then [] else InsertDescending(s[0], SortedByDescending(s[1..]))
  }

  /**
    The sorted entries are a permutation of the input, in non-increasing score order, and entries
    of equal score keep their relative order.
   */
  lemma {:induction false} SortedByDescendingCorrect(s: seq<Entry>)
    ensures multiset(SortedByDescending(s)) == multiset(s)
    ensures NonIncreasing(SortedByDescending(s))
    ensures forall v :: WithScore(SortedByDescending(s), v) == WithScore(s, v)
  {
    if s != [] {
      var tail := SortedByDescending(s[1..]);
      SortedByDescendingCorrect(s[1..]);
      InsertDescendingMultiset(s[0], tail);
      InsertDescendingSorted(s[0], tail);
      assert s == [s[0]] + s[1..];
      forall v
        ensures WithScore(SortedByDescending(s), v) == WithScore(s, v)
      {
        InsertDescendingStable(s[0], tail, v);
      }
    }
  }

  /**
    The two properties of a stable descending sort determine its result: any non-increasing
    sequence that keeps each score class of s in order is SortedByDescending(s).
   */
  lemma StableSortUnique(s: seq<Entry>, r: seq<Entry>)
    requires NonIncreasing(r)
    requires forall v :: WithScore(r, v) == WithScore(s, v)
    ensures r == SortedByDescending(s)
  {
    SortedByDescendingCorrect(s);
    SameScoreClasses(r, SortedByDescending(s));
  }

  /** Only the empty sequence has all its score classes empty. */
  lemma EmptyScoreClasses(r: seq<Entry>)
    requires forall v :: WithScore(r, v) == []
    ensures r == []
  {
    if r != [] {
      assert r == [r[0]] + r[1..];
      WithScoreCons(r[0], r[1..], r[0].score);
    }
  }

  lemma {:induction false} SameScoreClasses(r1: seq<Entry>, r2: seq<Entry>)
    requires NonIncreasing(r1) && NonIncreasing(r2)
    requires forall v :: WithScore(r1, v) == WithScore(r2, v)
    ensures r1 == r2
    decreases |r1|
  {
    if r1 == [] {
      EmptyScoreClasses(r2);
    } else if r2 == [] {
      EmptyScoreClasses(r1);
    } else {
      var a, b := r1[0], r2[0];
      WithScoreMembers(r2, b.score, b);
      WithScoreMembers(r1, b.score, b);
      WithScoreMembers(r1, a.score, a);
      WithScoreMembers(r2, a.score, a);
      assert a.score == b.score;
      var v := a.score;
      assert WithScore(r1, v) == [a] + WithScore(r1[1..], v);
      assert WithScore(r2, v) == [b] + WithScore(r2[1..], v);
      assert a == WithScore(r1, v)[0] == WithScore(r2, v)[0] == b;
      forall u
        ensures WithScore(r1[1..], u) == WithScore(r2[1..], u)
      {
        var p := if a.score == u then [a] else [];
        var A, B := WithScore(r1[1..], u), WithScore(r2[1..], u);
        WithScoreCons(a, r1[1..], u);
        WithScoreCons(a, r2[1..], u);
        assert r1 == [a] + r1[1..] && r2 == [a] + r2[1..];
        assert p + A == WithScore(r1, u) == WithScore(r2, u) == p + B;
        assert A == (p + A)[|p|..] == (p + B)[|p|..] == B;
      }
      SameScoreClasses(r1[1..], r2[1..]);
      assert r1 == [a] + r1[1..];
      assert r2 == [b] + r2[1..];
    }
  }

  /** `take(n)` for n >= 0: the first min(n, |s|) elements. */
  function Take<T>(s: seq<T>, n: nat): (r: seq<T>)
    ensures |r| == if n < |s| then n else |s|
    ensures r == s[..|r|]
  {
    if n < |s| then s[..n] else s
  }

  /** The n best-scoring entries: `sortedByDescending { it.value }.take(n)`. */
  function TopK(entries: seq<Entry>, n: nat): seq<Entry> {
    Take(SortedByDescending(entries), n)
  }

  /** In a non-increasing sequence, no element of a prefix scores lower than one left after it. */
  lemma PrefixDominates(sorted: seq<Entry>, k: nat)
    requires NonIncreasing(sorted) && k <= |sorted|
    ensures forall e, x :: e in multiset(sorted) - multiset(sorted[..k]) && x in sorted[..k] ==> x.score >= e.score
  {
    var top, rest := sorted[..k], sorted[k..];
    assert sorted == top + rest;
    assert multiset(sorted) - multiset(top) == multiset(rest);
    forall e, x | e in multiset(sorted) - multiset(top) && x in top
      ensures x.score >= e.score
    {
      assert e in rest;
      var j :| 0 <= j < |rest| && rest[j] == e;
      var i :| 0 <= i < k && top[i] == x;
      assert sorted[i] == x && sorted[k + j] == e;
    }
  }

  /**
    Top-K selection: min(n, |entries|) entries are selected, taken from the candidates, in
    non-increasing score order, and none scores lower than any candidate left out.
   */
  lemma TopKSelection(entries: seq<Entry>, n: nat)
    ensures var top := TopK(entries, n);
      && |top| == (if n < |entries| then n else |entries|)
      && NonIncreasing(top)
      && multiset(top) <= multiset(entries)
      && forall e, x :: e in multiset(entries) - multiset(top) && x in top ==> x.score >= e.score
  {
    var sorted := SortedByDescending(entries);
    SortedByDescendingCorrect(entries);
    var top := TopK(entries, n);
    assert top == sorted[..|top|];
    PrefixDominates(sorted, |top|);
    assert sorted == top + sorted[|top|..];
    assert multiset(sorted) == multiset(top) + multiset(sorted[|top|..]);
  }

  /** The keys are pairwise distinct, as in the entry list of a map. */
  predicate DistinctKeys(s: seq<Entry>) {
    forall i, j :: 0 <= i < j < |s| ==> s[i].key != s[j].key
  }

  /** The map whose entries, in iteration order, are s. */
  function ScoreMap(s: seq<Entry>): map<char, real> {
    if s == [] then map[] else ScoreMap(s[1..])[s[0].key := s[0].score]
  }

  /**
    An entry list with distinct keys is exactly the entry list of ScoreMap: as many entries as
    the map has keys, each key mapped to its score.
   */
  lemma {:induction false} ScoreMapOfEntries(s: seq<Entry>)
    requires DistinctKeys(s)
    ensures |ScoreMap(s)| == |s|
    ensures forall i :: 0 <= i < |s| ==> s[i].key in ScoreMap(s) && ScoreMap(s)[s[i].key] == s[i].score
    ensures forall c :: c in ScoreMap(s) ==> exists i :: 0 <= i < |s| && s[i].key == c
  {
    if s != [] {
      var tail := s[1..];
      ScoreMapOfEntries(tail);
      var m := ScoreMap(tail);
      assert s[0].key !in m;
      forall i | 0 <= i < |s|
        ensures s[i].key in ScoreMap(s) && ScoreMap(s)[s[i].key] == s[i].score
      {
        if i > 0 {
          assert s[i] == tail[i - 1];
          assert s[i].key != s[0].key;
        }
      }
      forall c | c in ScoreMap(s)
        ensures exists i :: 0 <= i < |s| && s[i].key == c
      {
        if c != s[0].key {
          var i :| 0 <= i < |tail| && tail[i].key == c;
          assert s[i + 1].key == c;
        }
      }
    }
  }
}
