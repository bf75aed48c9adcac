/** Facts and the orders Python's `sorted` puts them in. */
module Triples {
  import opened Ordering

  /** A fact `(head, relation, tail)`; equality is structural, as for the dataclass. */
  datatype Triple = Triple(head: string, relation: string, tail: string)

  /** An ordered `(head, tail)` pair: the key of a directed edge. */
  type Edge = (string, string)

  /** Python's `<` on `(str, str)` tuples. */
  predicate PairLess(a: Edge, b: Edge)
  {
    StrLess(a.0, b.0) || (a.0 == b.0 && StrLess(a.1, b.1))
  }

  /** The order of `key=lambda x: (x.head, x.relation, x.tail)`. */
  predicate TripleLess(a: Triple, b: Triple)
  {
    || StrLess(a.head, b.head)
    || (a.head == b.head && StrLess(a.relation, b.relation))
    || (a.head == b.head && a.relation == b.relation && StrLess(a.tail, b.tail))
  }

  lemma PairLessIsStrictTotalOrder()
    ensures StrictTotalOrder(PairLess)
  {
    StrLessIsStrictTotalOrder();
    forall x: Edge, y: Edge | x != y ensures PairLess(x, y) || PairLess(y, x) {
      if x.0 == y.0 {
        assert x.1 != y.1;
      }
    }
  }

  lemma TripleLessIsStrictTotalOrder()
    ensures StrictTotalOrder(TripleLess)
  {
    StrLessIsStrictTotalOrder();
    forall x: Triple, y: Triple | x != y ensures TripleLess(x, y) || TripleLess(y, x) {
      if x.head == y.head && x.relation == y.relation {
        assert x.tail != y.tail;
      }
    }
  }

  /** `t` is the largest triple of `ts`. */
  ghost predicate IsLast(t: Triple, ts: set<Triple>)
  {
    t in ts && forall u :: u in ts && u != t ==> TripleLess(u, t)
  }

  /** A non-empty set of triples has a largest triple. */
  lemma {:induction false} LastExists(ts: set<Triple>)
    requires ts != {}
    ensures exists t :: IsLast(t, ts)
    decreases |ts|
  {
    TripleLessIsStrictTotalOrder();
    var x :| x in ts;
    if ts - {x} == {} {
      forall u | u in ts ensures u == x {
        assert u !in ts - {x};
      }
      assert IsLast(x, ts);
    } else {
      LastExists(ts - {x});
      var y :| IsLast(y, ts - {x});
      if TripleLess(x, y) {
        assert IsLast(y, ts);
      } else {
        assert TripleLess(y, x);
        forall u | u in ts && u != x ensures TripleLess(u, x) {
          if u != y {
            assert TripleLess(u, y);
          }
        }
        assert IsLast(x, ts);
      }
    }
  }

  /** The triples of `ts` in triple order, each once: the largest one last. */
  ghost function TripleOrder(ts: set<Triple>): (r: seq<Triple>)
    ensures Elems(r) == ts
    decreases |ts|
  {
    if ts == {} then []
    else
      LastExists(ts);
      var t :| IsLast(t, ts);
      var front := TripleOrder(ts - {t});
      assert Elems(front + [t]) == Elems(front) + {t};
      front + [t]
  }

  /** `TripleOrder` is strictly ascending and has no repeats. */
  lemma {:induction false} TripleOrderSorted(ts: set<Triple>)
    ensures StrictlySorted(TripleOrder(ts), TripleLess) && Distinct(TripleOrder(ts))
    decreases |ts|
  {
    TripleLessIsStrictTotalOrder();
    if ts != {} {
      var r := TripleOrder(ts);
      var t := r[|r| - 1];
      var front := r[..|r| - 1];
      assert front == TripleOrder(ts - {t}) && IsLast(t, ts);
      TripleOrderSorted(ts - {t});
      forall i, j | 0 <= i < j < |r| ensures TripleLess(r[i], r[j]) {
        if j == |r| - 1 {
          assert r[i] in Elems(front);
        } else {
          assert r[i] == front[i] && r[j] == front[j];
        }
      }
      assert Distinct(r) by {
        forall i, j | 0 <= i < j < |r| ensures r[i] != r[j] {
          assert TripleLess(r[i], r[j]);
        }
      }
    }
  }

  /** `TripleOrder` is Python's `sorted` of the set under the triple order. */
  lemma TripleOrderIsSortedSet(ts: set<Triple>)
    ensures StrictTotalOrder(TripleLess) && TripleOrder(ts) == SortedSet(ts, TripleLess)
  {
    TripleLessIsStrictTotalOrder();
    TripleOrderSorted(ts);
    StrictlySortedUnique(TripleOrder(ts), SortedSet(ts, TripleLess), TripleLess);
  }

  /** `sorted(triples, key=lambda x: (x.head, x.relation, x.tail))` for a set of triples. */
  method SortTriples(ts: set<Triple>) returns (r: seq<Triple>)
    ensures r == TripleOrder(ts)
  {
    TripleLessIsStrictTotalOrder();
    r := SortedOf(ts, TripleLess);
    TripleOrderIsSortedSet(ts);
  }

  /** The endpoints of a triple, as `(triple.head, triple.tail)` names them. */
  function Endpoints(ts: set<Triple>): set<string>
  {
    (set t | t in ts :: t.head) + (set t | t in ts :: t.tail)
  }
}
