/**
  Ranking of scored triples, as `retrieve_relevant_subgraph` does it:
  `sorted(similarities.items(), key=lambda x: (-x[1], x[0].head, x[0].relation, x[0].tail))[:top_k]`.
*/
module Ranking {
  import opened Ordering
  import opened Triples

  /** Higher score first; equal scores by `(head, relation, tail)` ascending. */
  predicate RankLess(a: (Triple, real), b: (Triple, real))
  {
    a.1 > b.1 || (a.1 == b.1 && TripleLess(a.0, b.0))
  }

  lemma RankLessIsStrictTotalOrder()
    ensures StrictTotalOrder(RankLess)
  {
    TripleLessIsStrictTotalOrder();
    forall x: (Triple, real), y: (Triple, real) | x != y ensures RankLess(x, y) || RankLess(y, x) {
      if x.1 == y.1 {
        assert x.0 != y.0;
      }
    }
  }

  /**
    `r` is the Python slice `[:topK]` of the triples of `scores` in rank order:
    its length is that of the slice, it holds triples of `scores` in strictly
    descending rank, and every triple of `scores` left out ranks below all of it.
  */
  ghost predicate IsTopRanked(r: seq<Triple>, scores: map<Triple, real>, topK: int)
  {
    && |r| == SliceStop(|scores|, topK)
    && (forall i :: 0 <= i < |r| ==> r[i] in scores)
    && (forall i, j :: 0 <= i < j < |r| ==> RankLess((r[i], scores[r[i]]), (r[j], scores[r[j]])))
    && (forall x, y :: x in scores && x !in r && y in r ==> RankLess((y, scores[y]), (x, scores[x])))
  }

  /** The triples of a list of `(triple, score)` items. */
  function Firsts(items: seq<(Triple, real)>): (r: seq<Triple>)
    ensures |r| == |items| && forall i :: 0 <= i < |r| ==> r[i] == items[i].0
  {
    seq(|items|, i requires 0 <= i < |items| => items[i].0)
  }

  /** The items of `scores`, listed in some order. */
  ghost predicate ListsScores(items: seq<(Triple, real)>, scores: map<Triple, real>)
  {
    && |items| == |scores|
    && (forall i :: 0 <= i < |items| ==> items[i].0 in scores && items[i].1 == scores[items[i].0])
    && (forall x :: x in scores ==> (x, scores[x]) in items)
  }

  lemma TakeOfRanked(ranked: seq<(Triple, real)>, scores: map<Triple, real>, topK: int)
    requires StrictlySorted(ranked, RankLess) && ListsScores(ranked, scores)
    ensures IsTopRanked(Firsts(Take(ranked, topK)), scores, topK)
  {
    var top := Take(ranked, topK);
    var r := Firsts(top);
    forall x, y | x in scores && x !in r && y in r
      ensures RankLess((y, scores[y]), (x, scores[x]))
    {
      var a :| 0 <= a < |ranked| && ranked[a] == (x, scores[x]);
      var b :| 0 <= b < |r| && r[b] == y;
      assert forall i :: 0 <= i < |top| ==> r[i] == ranked[i].0;
      assert a >= |top|;
      assert ranked[b] == (y, scores[y]);
    }
  }

  /** Sorts the scored triples by rank and keeps the first `topK` (Python slice). */
  method RankAndTake(scores: map<Triple, real>, topK: int) returns (r: seq<Triple>)
    ensures IsTopRanked(r, scores, topK)
  {
    var ks := SetToSeq(scores.Keys);
    var items := seq(|ks|, i requires 0 <= i < |ks| => (ks[i], scores[ks[i]]));
    ItemsListScores(ks, scores);
    var ranked := Sort(items, RankLess);
    r := Firsts(Take(ranked, topK));
    SortedListsScores(items, scores);
    TakeOfRanked(ranked, scores, topK);
  }

  /** `similarities.items()`: every key once, with its score. */
  lemma ItemsListScores(ks: seq<Triple>, scores: map<Triple, real>)
    requires Distinct(ks) && Elems(ks) == scores.Keys
    ensures var items := seq(|ks|, i requires 0 <= i < |ks| => (ks[i], scores[ks[i]]));
      Distinct(items) && ListsScores(items, scores)
  {
    var items := seq(|ks|, i requires 0 <= i < |ks| => (ks[i], scores[ks[i]]));
    DistinctCard(ks);
    forall x | x in scores ensures (x, scores[x]) in items {
      assert x in Elems(ks);
      var p :| 0 <= p < |ks| && ks[p] == x;
      assert items[p] == (x, scores[x]);
    }
  }

  /** Sorting the listed items by rank keeps them a listing of the scores, now strictly ascending in rank. */
  lemma SortedListsScores(items: seq<(Triple, real)>, scores: map<Triple, real>)
    requires Distinct(items) && ListsScores(items, scores)
    ensures StrictlySorted(Sort(items, RankLess), RankLess) && ListsScores(Sort(items, RankLess), scores)
  {
    RankLessIsStrictTotalOrder();
    SortedOfDistinct(items, RankLess);
    var ranked := Sort(items, RankLess);
    assert |ranked| == |items| by {
      assert |multiset(ranked)| == |multiset(items)|;
    }
    forall x | x in scores ensures (x, scores[x]) in ranked {
      assert (x, scores[x]) in Elems(items);
    }
    forall i | 0 <= i < |ranked| ensures ranked[i].0 in scores && ranked[i].1 == scores[ranked[i].0] {
      assert ranked[i] in Elems(items);
    }
  }

  /** The `(triple, score)` items of a list of scored triples. */
  ghost function Scored(r: seq<Triple>, scores: map<Triple, real>): seq<(Triple, real)>
    requires forall i :: 0 <= i < |r| ==> r[i] in scores
  {
    seq(|r|, i requires 0 <= i < |r| => (r[i], scores[r[i]]))
  }

  lemma ScoredElems(r1: seq<Triple>, r2: seq<Triple>, scores: map<Triple, real>)
    requires (forall i :: 0 <= i < |r1| ==> r1[i] in scores) && (forall i :: 0 <= i < |r2| ==> r2[i] in scores)
    requires Elems(r1) == Elems(r2)
    ensures Elems(Scored(r1, scores)) == Elems(Scored(r2, scores))
  {
    var p1, p2 := Scored(r1, scores), Scored(r2, scores);
    forall v | v in Elems(p1) ensures v in Elems(p2) {
      var i :| 0 <= i < |p1| && p1[i] == v;
      assert r1[i] in Elems(r2);
      var j :| 0 <= j < |r2| && r2[j] == r1[i];
      assert p2[j] == v;
    }
    forall v | v in Elems(p2) ensures v in Elems(p1) {
      var j :| 0 <= j < |p2| && p2[j] == v;
      assert r2[j] in Elems(r1);
      var i :| 0 <= i < |r1| && r1[i] == r2[j];
      assert p1[i] == v;
    }
  }

  /** The ranked selection is determined by the scores and `topK`: ties cannot reorder it. */
  lemma TopRankedUnique(r1: seq<Triple>, r2: seq<Triple>, scores: map<Triple, real>, topK: int)
    requires IsTopRanked(r1, scores, topK) && IsTopRanked(r2, scores, topK)
    ensures r1 == r2
  {
    SameTopRanked(r1, r2, scores, topK);
    ScoredElems(r1, r2, scores);
    var p1, p2 := Scored(r1, scores), Scored(r2, scores);
    assert StrictlySorted(p1, RankLess) && StrictlySorted(p2, RankLess);
    RankLessIsStrictTotalOrder();
    StrictlySortedUnique(p1, p2, RankLess);
    assert forall i :: 0 <= i < |r1| ==> r1[i] == p1[i].0;
  }

  /** Two rankings of the same scores hold the same triples. */
  lemma SameTopRanked(r1: seq<Triple>, r2: seq<Triple>, scores: map<Triple, real>, topK: int)
    requires IsTopRanked(r1, scores, topK) && IsTopRanked(r2, scores, topK)
    ensures Elems(r1) == Elems(r2)
  {
    RankedDistinct(r1, scores, topK);
    RankedDistinct(r2, scores, topK);
    SubsetOfTopRanked(r1, r2, scores, topK);
    SubsetOfTopRanked(r2, r1, scores, topK);
  }

  lemma RankedDistinct(r: seq<Triple>, scores: map<Triple, real>, topK: int)
    requires IsTopRanked(r, scores, topK)
    ensures |Elems(r)| == |r|
  {
    forall i, j | 0 <= i < j < |r| ensures r[i] != r[j] {
      RankLessIrreflexive((r[i], scores[r[i]]));
    }
    DistinctCard(r);
  }

  lemma RankLessIrreflexive(a: (Triple, real))
    ensures !RankLess(a, a)
  {
    RankLessIsStrictTotalOrder();
  }

  lemma RankLessAsymmetric(a: (Triple, real), b: (Triple, real))
    ensures !(RankLess(a, b) && RankLess(b, a))
  {
    RankLessIsStrictTotalOrder();
  }

  lemma SubsetSameSize<T>(a: set<T>, b: set<T>)
    requires a <= b && |a| == |b|
    ensures a == b
  {
    var d := b - a;
    assert b == a + d && a !! d;
    assert |d| == 0;
  }

  lemma SubsetOfTopRanked(r1: seq<Triple>, r2: seq<Triple>, scores: map<Triple, real>, topK: int)
    requires IsTopRanked(r1, scores, topK) && IsTopRanked(r2, scores, topK)
    requires |Elems(r1)| == |r1| && |Elems(r2)| == |r2|
    ensures Elems(r1) <= Elems(r2)
  {
    if x :| x in Elems(r1) && x !in Elems(r2) {
      forall y | y in Elems(r2) ensures y in Elems(r1) {
        assert RankLess((y, scores[y]), (x, scores[x]));
        RankLessAsymmetric((y, scores[y]), (x, scores[x]));
      }
      SubsetSameSize(Elems(r2), Elems(r1));
      assert false;
    }
  }
}
