/**
  The directed graph of the store (`networkx.DiGraph` with a `relation`
  attribute per edge) as a map from `(head, tail)` to the relation, and the
  notions the bounded expansion is specified with.
*/
module Graph {
  import opened Ordering
  import opened Triples

  /** At most one relation per ordered pair: `add_edge` on an existing pair overwrites it. */
  type Relations = map<Edge, string>

  /** The nodes of the graph: every head and tail of an edge (only `add_edge` adds nodes). */
  function Nodes(g: Relations): set<string>
  {
    (set e | e in g :: e.0) + (set e | e in g :: e.1)
  }

  /** `g.neighbors(n)` of a `DiGraph`: the successors of `n` only. */
  function Successors(g: Relations, n: string): set<string>
  {
    set e | e in g && e.0 == n :: e.1
  }

  /** `t` is an edge of `g` and carries the relation stored for it. */
  predicate IsEdgeTriple(g: Relations, t: Triple)
  {
    (t.head, t.tail) in g && g[(t.head, t.tail)] == t.relation
  }

  /** The triple `g[head][tail]['relation']` reads back for an edge. */
  function EdgeTriple(g: Relations, e: Edge): (t: Triple)
    requires e in g
    ensures IsEdgeTriple(g, t) && (t.head, t.tail) == e
  {
    Triple(e.0, g[e], e.1)
  }

  /**
    The neighbours of `n` that one hop examines: `sorted(g.neighbors(n))[:m]`
    (a negative `m` drops neighbours from the end, as a Python slice does).
  */
  ghost function Examined(g: Relations, n: string, m: int): seq<string>
  {
    StrLessIsStrictTotalOrder();
    Take(SortedSet(Successors(g, n), StrLess), m)
  }

  /** Only successors are examined. */
  lemma ExaminedSuccessor(g: Relations, n: string, m: int, x: string)
    requires x in Examined(g, n, m)
    ensures x in Successors(g, n) && (n, x) in g
  {
    StrLessIsStrictTotalOrder();
    var sorted := SortedSet(Successors(g, n), StrLess);
    assert x in sorted[..SliceStop(|sorted|, m)];
    assert x in Elems(sorted);
  }

  /** A limit of zero examines nothing. */
  lemma ExaminedNothing(g: Relations, n: string)
    ensures Examined(g, n, 0) == []
  {
  }

  /** `sorted(g.neighbors(n))[:m]`, computed. */
  method ListExamined(g: Relations, n: string, m: int) returns (neighbors: seq<string>)
    ensures neighbors == Examined(g, n, m)
  {
    StrLessIsStrictTotalOrder();
    neighbors := SortedOf(Successors(g, n), StrLess);
    neighbors := Take(neighbors, m);
  }

  /** The nodes reachable from `sources` along at most `h` edges. */
  ghost function Ball(g: Relations, sources: set<string>, h: nat): set<string>
  {
    if h == 0 then sources
    else
      var b := Ball(g, sources, h - 1);
      b + (set e | e in g && e.0 in b :: e.1)
  }

  /**
    How an expansion can have found `t`: from one endpoint, the other one was
    among its examined neighbours and was not an endpoint of the seed.
  */
  ghost predicate Discovered(g: Relations, t: Triple, seedNodes: set<string>, m: int)
  {
    || (t.tail in Examined(g, t.head, m) && t.tail !in seedNodes)
    || (t.head in Examined(g, t.tail, m) && t.head !in seedNodes)
  }
}
