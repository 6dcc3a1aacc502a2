/** Ranking of vector-search hits: `sorted(out, key=lambda x: x["score"],
    reverse=True)`.  Python's sort is stable, also with `reverse=True`, so hits
    with equal scores keep the order the index returned them in.  The model
    sorts by insertion and proves the result is the unique sequence that is
    ordered by score, non-increasing, and keeps every score's hits in input
    order. */
module Ranking {
  import opened Seqs
  import opened Layout

  /** One hit of the vector index: its similarity score and the document's
      fields, of which the chunk written by the chunker is one. */
  datatype SearchDoc = SearchDoc(score: real, fields: map<string, Chunk>)

  predicate SortedByScore(s: seq<SearchDoc>)
  {
    forall i, j :: 0 <= i < j < |s| ==> s[i].score >= s[j].score
  }

  function WithScore(v: real): SearchDoc -> bool
  {
    (d: SearchDoc) => d.score == v
  }

  /** The hits scoring exactly `v`, in order. */
  function ScoreClass(s: seq<SearchDoc>, v: real): seq<SearchDoc>
  {
    Filter(s, WithScore(v))
  }

  /** Inserts `d` after every hit scoring at least as much. */
  function Insert(s: seq<SearchDoc>, d: SearchDoc): (r: seq<SearchDoc>)
    ensures |r| == |s| + 1
    ensures multiset(r) == multiset(s) + multiset{d}
  {
    if |s| == 0 then [d]
    else if s[0].score >= d.score then
      assert s == [s[0]] + s[1..];
      [s[0]] + Insert(s[1..], d)
    else [d] + s
  }

  /** Inserting into a ranked list keeps it ranked. */
  lemma {:induction false} InsertKeepsRanking(s: seq<SearchDoc>, d: SearchDoc)
    requires SortedByScore(s)
    ensures SortedByScore(Insert(s, d))
  {
    if |s| == 0 {
    } else if s[0].score >= d.score {
      InsertKeepsRanking(s[1..], d);
      InsertScoresBelow(s[1..], d, s[0].score);
      assert Insert(s, d) == [s[0]] + Insert(s[1..], d);
      RankedCons(s[0], Insert(s[1..], d));
    } else {
      RankedCons(d, s);
    }
  }

  lemma {:induction false} InsertScoresBelow(s: seq<SearchDoc>, d: SearchDoc, v: real)
    requires forall i :: 0 <= i < |s| ==> s[i].score <= v
    requires d.score <= v
    ensures forall i :: 0 <= i < |Insert(s, d)| ==> Insert(s, d)[i].score <= v
  {
    if |s| > 0 && s[0].score >= d.score {
      InsertScoresBelow(s[1..], d, v);
    }
  }

  /** The ranked hits. */
  function SortByScore(s: seq<SearchDoc>): (r: seq<SearchDoc>)
    ensures SortedByScore(r)
    ensures multiset(r) == multiset(s)
    ensures |r| == |s|
  {
    if |s| == 0 then []
    else
      var n := |s| - 1;
      assert s == s[..n] + [s[n]];
      InsertKeepsRanking(SortByScore(s[..n]), s[n]);
      Insert(SortByScore(s[..n]), s[n])
  }

  lemma {:induction false} InsertKeepsClasses(s: seq<SearchDoc>, d: SearchDoc, v: real)
    requires SortedByScore(s)
    ensures ScoreClass(Insert(s, d), v)
            == ScoreClass(s, v) + (if d.score == v then [d] else [])
  {
    if |s| == 0 {
      assert Insert(s, d) == [d];
    } else if s[0].score >= d.score {
      InsertKeepsClasses(s[1..], d, v);
      InsertBehindHead(s, d, v);
    } else {
      InsertAtFront(s, d, v);
    }
  }

  lemma InsertBehindHead(s: seq<SearchDoc>, d: SearchDoc, v: real)
    requires |s| > 0 && s[0].score >= d.score
    requires ScoreClass(Insert(s[1..], d), v) == ScoreClass(s[1..], v) + (if d.score == v then [d] else [])
    ensures ScoreClass(Insert(s, d), v) == ScoreClass(s, v) + (if d.score == v then [d] else [])
  {
    var extra: seq<SearchDoc> := if d.score == v then [d] else [];
    var head := ScoreClass([s[0]], v);
    var tail := ScoreClass(s[1..], v);
    InsertedClassAtHead(s, d, v);
    ClassAtHead(s, v);
    AppendAssociates(head, tail, extra);
  }

  lemma InsertedClassAtHead(s: seq<SearchDoc>, d: SearchDoc, v: real)
    requires |s| > 0 && s[0].score >= d.score
    ensures ScoreClass(Insert(s, d), v) == ScoreClass([s[0]], v) + ScoreClass(Insert(s[1..], d), v)
  {
    var rest := Insert(s[1..], d);
    assert Insert(s, d) == [s[0]] + rest;
    ClassOfCons(s[0], rest, v);
  }

  lemma ClassAtHead(s: seq<SearchDoc>, v: real)
    requires |s| > 0
    ensures ScoreClass(s, v) == ScoreClass([s[0]], v) + ScoreClass(s[1..], v)
  {
    assert s == [s[0]] + s[1..];
    ClassOfCons(s[0], s[1..], v);
  }

  lemma ClassOfCons(x: SearchDoc, t: seq<SearchDoc>, v: real)
    ensures ScoreClass([x] + t, v) == ScoreClass([x], v) + ScoreClass(t, v)
  {
    FilterAppend([x], t, WithScore(v));
  }

  lemma InsertAtFront(s: seq<SearchDoc>, d: SearchDoc, v: real)
    requires SortedByScore(s) && |s| > 0 && s[0].score < d.score
    ensures ScoreClass(Insert(s, d), v) == ScoreClass(s, v) + (if d.score == v then [d] else [])
  {
    assert Insert(s, d) == [d] + s;
    ClassOfCons(d, s, v);
    var head := ScoreClass([d], v);
    var tail := ScoreClass(s, v);
    if d.score == v {
      assert forall i :: 0 <= i < |s| ==> s[i].score <= s[0].score;
      FilterDropsAll(s, WithScore(v));
      assert head == [d] && tail == [];
      AppendEmpty(head);
    } else {
      assert head == [];
      AppendEmpty(tail);
    }
  }

  /** Stability: for every score, the hits with that score come out in the
      order they went in. */
  lemma {:induction false} SortIsStable(s: seq<SearchDoc>, v: real)
    ensures ScoreClass(SortByScore(s), v) == ScoreClass(s, v)
  {
    if |s| > 0 {
      var n := |s| - 1;
      SortIsStable(s[..n], v);
      InsertKeepsClasses(SortByScore(s[..n]), s[n], v);
      FilterLast(s, WithScore(v));
    }
  }

  /** Two sequences ordered by score whose score classes agree are equal:
      ordering plus stability leave no choice, so any stable descending sort
      (Python's included) produces `SortByScore`. */
  lemma {:induction false} StableSortIsUnique(a: seq<SearchDoc>, b: seq<SearchDoc>)
    requires SortedByScore(a) && SortedByScore(b)
    requires forall v :: ScoreClass(a, v) == ScoreClass(b, v)
    ensures a == b
    decreases |a|
  {
    if |a| > 0 {
      assert a[0] in ScoreClass(a, a[0].score);
      assert |b| > 0;
      assert b[0] in ScoreClass(a, b[0].score);
      assert a[0] in ScoreClass(b, a[0].score);
      var m := a[0].score;
      assert b[0].score == m;
      assert ScoreClass(a, m)[0] == a[0];
      assert ScoreClass(b, m)[0] == b[0];
      assert a[0] == b[0];
      forall v
        ensures ScoreClass(a[1..], v) == ScoreClass(b[1..], v)
      {
        ClassAtHead(a, v);
        ClassAtHead(b, v);
        CancelPrefix(ScoreClass([a[0]], v), ScoreClass(a[1..], v), ScoreClass(b[1..], v));
      }
      StableSortIsUnique(a[1..], b[1..]);
    }
  }

  /** Dropping hits from a ranked list leaves it ranked. */
  lemma {:induction false} FilterKeepsRanking(s: seq<SearchDoc>, p: SearchDoc -> bool)
    requires SortedByScore(s)
    ensures SortedByScore(Filter(s, p))
  {
    if |s| > 0 {
      var tail := s[1..];
      FilterKeepsRanking(tail, p);
      FilterScoresBelow(tail, p, s[0].score);
      if p(s[0]) {
        assert Filter(s, p) == [s[0]] + Filter(tail, p);
        RankedCons(s[0], Filter(tail, p));
      } else {
        assert Filter(s, p) == Filter(tail, p);
      }
    }
  }

  lemma {:induction false} FilterScoresBelow(s: seq<SearchDoc>, p: SearchDoc -> bool, v: real)
    requires forall i :: 0 <= i < |s| ==> s[i].score <= v
    ensures forall i :: 0 <= i < |Filter(s, p)| ==> Filter(s, p)[i].score <= v
  {
    if |s| > 0 {
      FilterScoresBelow(s[1..], p, v);
    }
  }

  lemma RankedCons(d: SearchDoc, s: seq<SearchDoc>)
    requires SortedByScore(s)
    requires forall i :: 0 <= i < |s| ==> s[i].score <= d.score
    ensures SortedByScore([d] + s)
  {
    var r := [d] + s;
    forall i, j | 0 <= i < j < |r|
      ensures r[i].score >= r[j].score
    {
      assert r[j] == s[j - 1];
      if i > 0 {
        assert r[i] == s[i - 1];
      }
    }
  }

}
