/**
  `KnowledgeGraphRAG`: the triple store, similarity retrieval and bounded
  hop expansion. The class is the same in app_using_llama.py and
  app_using_KG.py except for retrieval, which the llama file extends with a
  maximum-score diagnostic (`RetrieveWithMaxScore`) and the other file does
  not (`RetrieveRelevant`).
*/
module KnowledgeGraph {
  import opened Wrappers
  import opened Ordering
  import opened Text
  import opened Triples
  import opened Graph
  import opened Ranking

  /** An embedding vector; the model hands it only to the similarity function. */
  type Embedding = seq<real>

  /** The text `f"{head} {relation} {tail}"` an edge embedding is computed from. */
  function EdgeText(head: string, relation: string, tail: string): string
  {
    head + " " + relation + " " + tail
  }

  /** What `retrieve_relevant_subgraph` of app_using_llama.py returns. */
  datatype Retrieval =
    | NoEdges                        // `return []`: the store has no edge embedding
    | QueryFailed(message: string)   // embedding the query raised
    | Ranked(triples: seq<Triple>, maxScore: real, maxTriple: Option<Triple>)

  /** The endpoints of the seed triples: the initial `seen_nodes`. */
  function SeedNodes(triples: seq<Triple>): set<string>
  {
    Endpoints(set t | t in triples)
  }

  /** One hop's reach: the nodes of `b` and their successors. */
  ghost function Step(g: Relations, b: set<string>): set<string>
  {
    b + (set e | e in g && e.0 in b :: e.1)
  }

  lemma BallStep(g: Relations, sources: set<string>, h: nat)
    ensures Ball(g, sources, h + 1) == Step(g, Ball(g, sources, h))
  {
  }

  lemma StepMonotone(g: Relations, a: set<string>, b: set<string>)
    requires a <= b
    ensures Step(g, a) <= Step(g, b)
  {
  }

  lemma EndpointsUnion(a: set<Triple>, b: set<Triple>)
    ensures Endpoints(a + b) == Endpoints(a) + Endpoints(b)
  {
  }

  lemma EndpointsAdd(a: set<Triple>, t: Triple)
    ensures Endpoints(a + {t}) == Endpoints(a) + {t.head, t.tail}
  {
  }

  lemma EndpointsMonotone(a: set<Triple>, b: set<Triple>)
    requires a <= b
    ensures Endpoints(a) <= Endpoints(b)
  {
  }

  class KnowledgeGraphRAG {
    /** The embedding backend: deterministic; `Err` carries the message of what it raised. */
    const encoder: string -> Result<Embedding, string>

    /** `knowledge_graph`: one relation per ordered `(head, tail)` pair. */
    var graph: Relations
    var nodeEmbeddings: map<string, Embedding>
    var edgeEmbeddings: map<Edge, Embedding>
    /** Never pruned: a triple whose relation was overwritten stays here. */
    var tripleToEdge: map<Triple, Edge>

    /** `_compute_embedding`: normalise the text, then embed it. */
    function ComputeEmbedding(text: string): Result<Embedding, string>
    {
      encoder(NormalizeText(text))
    }

    /** What holds after any sequence of adds, failed ones included. */
    ghost predicate ValidState(g: Relations, nodeEmbs: map<string, Embedding>,
                               edgeEmbs: map<Edge, Embedding>, triples: map<Triple, Edge>)
    {
      && edgeEmbs.Keys <= g.Keys
      && nodeEmbs.Keys <= Nodes(g)
      && (forall n :: n in nodeEmbs ==> ComputeEmbedding(n) == Ok(nodeEmbs[n]))
      && (forall t :: t in triples ==> triples[t] == (t.head, t.tail) && (t.head, t.tail) in edgeEmbs)
    }

    /**
      The store's invariant when every add succeeded: each node and each edge
      has exactly one embedding, computed from its current text, and the
      triple of every edge is recorded.
    */
    ghost predicate ConsistentState(g: Relations, nodeEmbs: map<string, Embedding>,
                                    edgeEmbs: map<Edge, Embedding>, triples: map<Triple, Edge>)
    {
      && ValidState(g, nodeEmbs, edgeEmbs, triples)
      && nodeEmbs.Keys == Nodes(g)
      && edgeEmbs.Keys == g.Keys
      && EdgesEmbedded(g, edgeEmbs)
      && EdgesListed(g, triples)
    }

    /** Every stored edge embedding is the embedding of that edge's current text. */
    ghost predicate EdgesEmbedded(g: Relations, edgeEmbs: map<Edge, Embedding>)
    {
      forall e :: e in edgeEmbs ==> e in g && ComputeEmbedding(EdgeText(e.0, g[e], e.1)) == Ok(edgeEmbs[e])
    }

    /** Every edge of the graph, read as a triple, is a key of `triple_to_edge`. */
    ghost predicate EdgesListed(g: Relations, triples: map<Triple, Edge>)
    {
      forall e :: e in g ==> EdgeTriple(g, e) in triples
    }

    ghost predicate Valid()
      reads this
    {
      ValidState(graph, nodeEmbeddings, edgeEmbeddings, tripleToEdge)
    }

    ghost predicate Consistent()
      reads this
    {
      ConsistentState(graph, nodeEmbeddings, edgeEmbeddings, tripleToEdge)
    }

    constructor (encoder: string -> Result<Embedding, string>)
      ensures this.encoder == encoder
      ensures graph == map[] && nodeEmbeddings == map[]
      ensures edgeEmbeddings == map[] && tripleToEdge == map[]
      ensures Valid() && Consistent()
    {
      this.encoder := encoder;
      graph := map[];
      nodeEmbeddings := map[];
      edgeEmbeddings := map[];
      tripleToEdge := map[];
    }

    // -------------------------------------------------------------------------
    // add_triple

    /**
      The node phase of `add_triple`: embed, in order, each of `nodes` that
      has no embedding yet. The result is the new node-embedding map and the
      message of the embedding that failed, if one did; a failure stops the
      phase and keeps what was added before it.
    */
    function EmbedAll(embs: map<string, Embedding>, nodes: seq<string>): (r: (map<string, Embedding>, Option<string>))
      ensures forall n :: n in embs ==> n in r.0 && r.0[n] == embs[n]
      ensures forall n :: n in r.0 && n !in embs ==> n in nodes && ComputeEmbedding(n) == Ok(r.0[n])
      ensures r.1.None? <==> forall n :: n in nodes ==> n in r.0
      ensures r.1.Some? ==> exists n :: n in nodes && n !in r.0 && ComputeEmbedding(n) == Err(r.1.value)
      decreases |nodes|
    {
      if nodes == [] then (embs, None)
      else if nodes[0] in embs then EmbedAll(embs, nodes[1..])
      else match ComputeEmbedding(nodes[0])
        case Err(message) => (embs, Some(message))
        case Ok(embedding) => EmbedAll(embs[nodes[0] := embedding], nodes[1..])
    }

    /** The loop of `add_triple` over `sorted([head, tail])`. */
    method EmbedNodes(nodes: seq<string>) returns (failure: Option<string>)
      modifies this
      ensures (nodeEmbeddings, failure) == old(EmbedAll(nodeEmbeddings, nodes))
      ensures graph == old(graph) && edgeEmbeddings == old(edgeEmbeddings) && tripleToEdge == old(tripleToEdge)
    {
      ghost var goal := EmbedAll(nodeEmbeddings, nodes);
      for i := 0 to |nodes|
        invariant graph == old(graph) && edgeEmbeddings == old(edgeEmbeddings) && tripleToEdge == old(tripleToEdge)
        invariant EmbedAll(nodeEmbeddings, nodes[i..]) == goal
      {
        assert nodes[i..][1..] == nodes[i + 1..];
        var node := nodes[i];
        if node !in nodeEmbeddings {
          var embedding := ComputeEmbedding(node);
          if embedding.Err? {
            return Some(embedding.error);
          }
          nodeEmbeddings := nodeEmbeddings[node := embedding.value];
        }
      }
      failure := None;
    }

    /**
      `sorted([head, tail])`: the endpoints of an edge in the order
      `add_triple` embeds them and `expand_subgraph` visits them.
    */
    function NodeOrder(head: string, tail: string): (nodes: seq<string>)
      ensures forall n :: n in nodes <==> n == head || n == tail
    {
      if StrLess(tail, head) then [tail, head] else [head, tail]
    }

    /** `NodeOrder` is what the generic insertion sort makes of the pair. */
    lemma NodeOrderIsSorted(head: string, tail: string)
      ensures NodeOrder(head, tail) == Sort([head, tail], StrLess)
    {
      assert Sort([tail], StrLess) == [tail] by {
        assert [tail][1..] == [];
      }
      assert [head, tail][1..] == [tail];
    }

    /**
      `add_triple`: store the edge (overwriting its relation), embed the
      endpoints not yet embedded in sorted order, then (re)embed the edge
      text and record the triple. A failing embedding aborts with
      "Failed to add triple: ..." and leaves what was already done in place.
    */
    method AddTriple(head: string, relation: string, tail: string) returns (outcome: Result<(), string>)
      requires Valid()
      modifies this
      ensures Valid()
      ensures graph == old(graph)[(head, tail) := relation]
      ensures nodeEmbeddings == old(EmbedAll(nodeEmbeddings, NodeOrder(head, tail))).0
      ensures old(EmbedAll(nodeEmbeddings, NodeOrder(head, tail))).1.Some? ==>
                outcome == Err("Failed to add triple: " + old(EmbedAll(nodeEmbeddings, NodeOrder(head, tail))).1.value)
      ensures outcome.Ok? <==>
                old(EmbedAll(nodeEmbeddings, NodeOrder(head, tail))).1.None?
                && ComputeEmbedding(EdgeText(head, relation, tail)).Ok?
      ensures outcome.Ok? ==>
                && edgeEmbeddings == old(edgeEmbeddings)[(head, tail) := ComputeEmbedding(EdgeText(head, relation, tail)).value]
                && tripleToEdge == old(tripleToEdge)[Triple(head, relation, tail) := (head, tail)]
      ensures old(EmbedAll(nodeEmbeddings, NodeOrder(head, tail))).1.None? &&
              ComputeEmbedding(EdgeText(head, relation, tail)).Err? ==>
                outcome == Err("Failed to add triple: " + ComputeEmbedding(EdgeText(head, relation, tail)).error)
      ensures outcome.Err? ==> edgeEmbeddings == old(edgeEmbeddings) && tripleToEdge == old(tripleToEdge)
      ensures old(Consistent()) && outcome.Ok? ==> Consistent()
    {
      ghost var g0, n0, e0, t0 := graph, nodeEmbeddings, edgeEmbeddings, tripleToEdge;
      graph := graph[(head, tail) := relation];
      var nodes := NodeOrder(head, tail);
      var failure := EmbedNodes(nodes);
      NodePhaseValid(g0, n0, e0, t0, head, relation, tail, nodeEmbeddings);
      if failure.Some? {
        outcome := Err("Failed to add triple: " + failure.value);
        return;
      }
      outcome := EmbedEdge(head, relation, tail);
      if outcome.Ok? && ConsistentState(g0, n0, e0, t0) {
        AddKeepsConsistent(g0, n0, e0, t0, head, relation, tail, nodeEmbeddings, edgeEmbeddings[(head, tail)]);
      }
    }

    /** The rest of `add_triple`'s `try` block: embed the edge text, then record the edge and the triple. */
    method EmbedEdge(head: string, relation: string, tail: string) returns (outcome: Result<(), string>)
      requires Valid() && (head, tail) in graph
      modifies this
      ensures Valid()
      ensures graph == old(graph) && nodeEmbeddings == old(nodeEmbeddings)
      ensures outcome.Ok? <==> ComputeEmbedding(EdgeText(head, relation, tail)).Ok?
      ensures outcome.Ok? ==>
                && edgeEmbeddings == old(edgeEmbeddings)[(head, tail) := ComputeEmbedding(EdgeText(head, relation, tail)).value]
                && tripleToEdge == old(tripleToEdge)[Triple(head, relation, tail) := (head, tail)]
      ensures outcome.Err? ==>
                && edgeEmbeddings == old(edgeEmbeddings) && tripleToEdge == old(tripleToEdge)
                && outcome.error == "Failed to add triple: " + ComputeEmbedding(EdgeText(head, relation, tail)).error
    {
      var edgeText := EdgeText(head, relation, tail);
      var edgeEmbedding := ComputeEmbedding(edgeText);
      if edgeEmbedding.Err? {
        outcome := Err("Failed to add triple: " + edgeEmbedding.error);
        return;
      }
      EdgePhaseValid(graph, nodeEmbeddings, edgeEmbeddings, tripleToEdge, head, relation, tail, edgeEmbedding.value);
      edgeEmbeddings := edgeEmbeddings[(head, tail) := edgeEmbedding.value];
      tripleToEdge := tripleToEdge[Triple(head, relation, tail) := (head, tail)];
      outcome := Ok(());
    }

    lemma NodePhaseValid(g: Relations, nodeEmbs: map<string, Embedding>, edgeEmbs: map<Edge, Embedding>,
                         triples: map<Triple, Edge>, head: string, relation: string, tail: string,
                         nodeEmbs': map<string, Embedding>)
      requires ValidState(g, nodeEmbs, edgeEmbs, triples)
      requires nodeEmbs' == EmbedAll(nodeEmbs, NodeOrder(head, tail)).0
      ensures ValidState(g[(head, tail) := relation], nodeEmbs', edgeEmbs, triples)
    {
      NodesOfUpdate(g, head, relation, tail);
    }

    lemma EdgePhaseValid(g: Relations, nodeEmbs: map<string, Embedding>, edgeEmbs: map<Edge, Embedding>,
                         triples: map<Triple, Edge>, head: string, relation: string, tail: string,
                         edgeEmbedding: Embedding)
      requires ValidState(g, nodeEmbs, edgeEmbs, triples) && (head, tail) in g
      ensures ValidState(g, nodeEmbs, edgeEmbs[(head, tail) := edgeEmbedding],
                         triples[Triple(head, relation, tail) := (head, tail)])
    {
    }

    lemma AddKeepsConsistent(g: Relations, nodeEmbs: map<string, Embedding>, edgeEmbs: map<Edge, Embedding>,
                             triples: map<Triple, Edge>, head: string, relation: string, tail: string,
                             nodeEmbs': map<string, Embedding>, edgeEmbedding: Embedding)
      requires ConsistentState(g, nodeEmbs, edgeEmbs, triples)
      requires nodeEmbs' == EmbedAll(nodeEmbs, NodeOrder(head, tail)).0
      requires EmbedAll(nodeEmbs, NodeOrder(head, tail)).1.None?
      requires ComputeEmbedding(EdgeText(head, relation, tail)) == Ok(edgeEmbedding)
      requires ValidState(g[(head, tail) := relation], nodeEmbs', edgeEmbs[(head, tail) := edgeEmbedding],
                          triples[Triple(head, relation, tail) := (head, tail)])
      ensures ConsistentState(g[(head, tail) := relation], nodeEmbs', edgeEmbs[(head, tail) := edgeEmbedding],
                              triples[Triple(head, relation, tail) := (head, tail)])
    {
      NodesOfUpdate(g, head, relation, tail);
      assert nodeEmbs'.Keys == Nodes(g[(head, tail) := relation]) by {
        assert head in nodeEmbs' && tail in nodeEmbs';
      }
      EdgesEmbeddedAfterAdd(g, edgeEmbs, head, relation, tail, edgeEmbedding);
      EdgesListedAfterAdd(g, triples, head, relation, tail);
    }

    lemma EdgesEmbeddedAfterAdd(g: Relations, edgeEmbs: map<Edge, Embedding>,
                                head: string, relation: string, tail: string, edgeEmbedding: Embedding)
      requires EdgesEmbedded(g, edgeEmbs)
      requires ComputeEmbedding(EdgeText(head, relation, tail)) == Ok(edgeEmbedding)
      ensures EdgesEmbedded(g[(head, tail) := relation], edgeEmbs[(head, tail) := edgeEmbedding])
    {
      var g', edgeEmbs' := g[(head, tail) := relation], edgeEmbs[(head, tail) := edgeEmbedding];
      forall e | e in edgeEmbs'
        ensures e in g' && ComputeEmbedding(EdgeText(e.0, g'[e], e.1)) == Ok(edgeEmbs'[e])
      {
        if e != (head, tail) {
          assert g'[e] == g[e] && edgeEmbs'[e] == edgeEmbs[e];
        }
      }
    }

    lemma EdgesListedAfterAdd(g: Relations, triples: map<Triple, Edge>, head: string, relation: string, tail: string)
      requires EdgesListed(g, triples)
      ensures EdgesListed(g[(head, tail) := relation], triples[Triple(head, relation, tail) := (head, tail)])
    {
      var g', triples' := g[(head, tail) := relation], triples[Triple(head, relation, tail) := (head, tail)];
      forall e | e in g' ensures EdgeTriple(g', e) in triples' {
        if e != (head, tail) {
          assert EdgeTriple(g', e) == EdgeTriple(g, e);
        }
      }
    }

    lemma NodesOfUpdate(g: Relations, head: string, relation: string, tail: string)
      ensures Nodes(g[(head, tail) := relation]) == Nodes(g) + {head, tail}
    {
      var g' := g[(head, tail) := relation];
      assert (head, tail) in g';
      forall n | n in Nodes(g') ensures n in Nodes(g) + {head, tail} {
        if e :| e in g' && e.0 == n {
          if e != (head, tail) { assert e in g; }
        } else {
          var e :| e in g' && e.1 == n;
          if e != (head, tail) { assert e in g; }
        }
      }
      forall n | n in Nodes(g) ensures n in Nodes(g') {
        if e :| e in g && e.0 == n {
          assert e in g';
        } else {
          var e :| e in g && e.1 == n;
          assert e in g';
        }
      }
    }

    // -------------------------------------------------------------------------
    // retrieve_relevant_subgraph

    /** The similarity of the query embedding to the stored embedding of edge `e`. */
    function Score(e: Edge, queryEmbedding: Embedding, similarity: (Embedding, Embedding) -> real): real
      reads this
      requires e in edgeEmbeddings
    {
      similarity(queryEmbedding, edgeEmbeddings[e])
    }

    /**
      The `similarities` dictionary retrieval builds: the current triple of
      every embedded edge whose score reaches the threshold, with that score.
    */
    ghost function Qualifying(queryEmbedding: Embedding, similarity: (Embedding, Embedding) -> real,
                              threshold: real): (scores: map<Triple, real>)
      reads this
      requires Valid()
      ensures forall t :: t in scores <==>
                && (t.head, t.tail) in edgeEmbeddings && IsEdgeTriple(graph, t)
                && Score((t.head, t.tail), queryEmbedding, similarity) >= threshold
      ensures forall t :: t in scores ==> scores[t] == Score((t.head, t.tail), queryEmbedding, similarity)
    {
      map e | e in edgeEmbeddings && Score(e, queryEmbedding, similarity) >= threshold
        :: EdgeTriple(graph, e) := Score(e, queryEmbedding, similarity)
    }

    /**
      The diagnostic of the llama variant: `maxScore` is the largest score,
      but never below the initial -1; `maxTriple` is the first edge (in
      sorted key order) reaching it, and there is none when no score exceeds -1.
    */
    ghost predicate IsFirstMaximum(maxScore: real, maxTriple: Option<Triple>, queryEmbedding: Embedding,
                                   similarity: (Embedding, Embedding) -> real)
      reads this
      requires Valid()
    {
      && maxScore >= -1.0
      && (forall e :: e in edgeEmbeddings ==> Score(e, queryEmbedding, similarity) <= maxScore)
      && (maxTriple.None? ==> maxScore == -1.0)
      && (maxTriple.Some? ==>
            var t := maxTriple.value;
            && (t.head, t.tail) in edgeEmbeddings && IsEdgeTriple(graph, t)
            && Score((t.head, t.tail), queryEmbedding, similarity) == maxScore > -1.0
            && forall e :: e in edgeEmbeddings && PairLess(e, (t.head, t.tail)) ==>
                 Score(e, queryEmbedding, similarity) < maxScore)
    }

    /** The edge keys in the order `sorted(self.edge_embeddings.keys())` lists them. */
    method SortedEdgeKeys() returns (keys: seq<Edge>)
      ensures StrictlySorted(keys, PairLess) && Distinct(keys) && Elems(keys) == edgeEmbeddings.Keys
    {
      PairLessIsStrictTotalOrder();
      keys := SortedOf(edgeEmbeddings.Keys, PairLess);
    }

    /**
      After the first `n` keys of a scan: `similarities` holds exactly the
      triples of those keys whose score reaches the threshold, with their scores.
    */
    ghost predicate CollectedUpTo(similarities: map<Triple, real>, keys: seq<Edge>, scores: seq<real>, n: nat,
                                  threshold: real, queryEmbedding: Embedding,
                                  similarity: (Embedding, Embedding) -> real)
      reads this
      requires Valid()
    {
      && n <= |keys| == |scores|
      && (forall t :: t in similarities ==>
            && (t.head, t.tail) in edgeEmbeddings && IsEdgeTriple(graph, t)
            && similarities[t] == Score((t.head, t.tail), queryEmbedding, similarity)
            && similarities[t] >= threshold)
      && (forall j :: 0 <= j < n && keys[j] in graph && scores[j] >= threshold ==>
            EdgeTriple(graph, keys[j]) in similarities)
    }

    lemma CollectStep(similarities: map<Triple, real>, keys: seq<Edge>, scores: seq<real>, n: nat,
                      threshold: real, queryEmbedding: Embedding,
                      similarity: (Embedding, Embedding) -> real)
      requires Valid()
      requires CollectedUpTo(similarities, keys, scores, n, threshold, queryEmbedding, similarity)
      requires n < |keys| && keys[n] in edgeEmbeddings
      requires scores[n] == Score(keys[n], queryEmbedding, similarity)
      ensures CollectedUpTo(if scores[n] >= threshold then similarities[EdgeTriple(graph, keys[n]) := scores[n]]
                            else similarities, keys, scores, n + 1, threshold, queryEmbedding, similarity)
    {
    }

    lemma CollectedIsQualifying(similarities: map<Triple, real>, keys: seq<Edge>, scores: seq<real>,
                                threshold: real, queryEmbedding: Embedding,
                                similarity: (Embedding, Embedding) -> real)
      requires Valid()
      requires Elems(keys) == edgeEmbeddings.Keys
      requires forall i :: 0 <= i < |keys| && i < |scores| ==> scores[i] == Score(keys[i], queryEmbedding, similarity)
      requires CollectedUpTo(similarities, keys, scores, |keys|, threshold, queryEmbedding, similarity)
      ensures similarities == Qualifying(queryEmbedding, similarity, threshold)
    {
      var spec := Qualifying(queryEmbedding, similarity, threshold);
      forall t | t in spec ensures t in similarities {
        var j :| 0 <= j < |keys| && keys[j] == (t.head, t.tail);
        assert EdgeTriple(graph, keys[j]) == t;
      }
      assert similarities.Keys == spec.Keys;
    }

    /**
      After the first `n` keys of the llama scan: the running maximum and the
      triple of the first key that attained it.
    */
    ghost predicate TrackedUpTo(maxScore: real, maxTriple: Option<Triple>, maxIndex: nat,
                                keys: seq<Edge>, scores: seq<real>, n: nat)
      reads this
      requires Valid()
    {
      && n <= |keys| == |scores|
      && maxScore >= -1.0
      && (forall j :: 0 <= j < n ==> scores[j] <= maxScore)
      && (maxTriple.None? ==> maxScore == -1.0)
      && (maxTriple.Some? ==>
            && maxIndex < n && keys[maxIndex] in graph
            && maxTriple.value == EdgeTriple(graph, keys[maxIndex])
            && scores[maxIndex] == maxScore > -1.0
            && forall j :: 0 <= j < maxIndex ==> scores[j] < maxScore)
    }

    lemma TrackStep(maxScore: real, maxTriple: Option<Triple>, maxIndex: nat,
                    keys: seq<Edge>, scores: seq<real>, n: nat)
      requires Valid()
      requires TrackedUpTo(maxScore, maxTriple, maxIndex, keys, scores, n)
      requires n < |keys| && keys[n] in graph
      ensures scores[n] > maxScore ==> TrackedUpTo(scores[n], Some(EdgeTriple(graph, keys[n])), n, keys, scores, n + 1)
      ensures scores[n] <= maxScore ==> TrackedUpTo(maxScore, maxTriple, maxIndex, keys, scores, n + 1)
    {
    }

    lemma TrackedIsFirstMaximum(maxScore: real, maxTriple: Option<Triple>, maxIndex: nat,
                                keys: seq<Edge>, scores: seq<real>,
                                queryEmbedding: Embedding, similarity: (Embedding, Embedding) -> real)
      requires Valid()
      requires StrictlySorted(keys, PairLess) && Elems(keys) == edgeEmbeddings.Keys
      requires forall i :: 0 <= i < |keys| && i < |scores| ==> scores[i] == Score(keys[i], queryEmbedding, similarity)
      requires TrackedUpTo(maxScore, maxTriple, maxIndex, keys, scores, |keys|)
      ensures IsFirstMaximum(maxScore, maxTriple, queryEmbedding, similarity)
    {
      PairLessIsStrictTotalOrder();
      forall e | e in edgeEmbeddings ensures Score(e, queryEmbedding, similarity) <= maxScore {
        var j :| 0 <= j < |keys| && keys[j] == e;
      }
      if maxTriple.Some? {
        forall e | e in edgeEmbeddings && PairLess(e, keys[maxIndex])
          ensures Score(e, queryEmbedding, similarity) < maxScore
        {
          var j :| 0 <= j < |keys| && keys[j] == e;
        }
      }
    }

    /**
      The scan over the sorted edge keys in the llama variant: track the
      first maximum (strict `>` against a running value starting at -1) and
      collect every triple whose score reaches the threshold.
    */
    method ScanEdges(keys: seq<Edge>, scores: seq<real>, threshold: real,
                     ghost queryEmbedding: Embedding, ghost similarity: (Embedding, Embedding) -> real)
      returns (maxScore: real, maxTriple: Option<Triple>, similarities: map<Triple, real>)
      requires Valid()
      requires StrictlySorted(keys, PairLess) && Elems(keys) == edgeEmbeddings.Keys
      requires |scores| == |keys|
      requires forall i :: 0 <= i < |keys| ==> scores[i] == Score(keys[i], queryEmbedding, similarity)
      ensures IsFirstMaximum(maxScore, maxTriple, queryEmbedding, similarity)
      ensures similarities == Qualifying(queryEmbedding, similarity, threshold)
    {
      maxScore, maxTriple, similarities := -1.0, None, map[];
      ghost var maxIndex := 0;
      for idx := 0 to |keys|
        invariant TrackedUpTo(maxScore, maxTriple, maxIndex, keys, scores, idx)
        invariant CollectedUpTo(similarities, keys, scores, idx, threshold, queryEmbedding, similarity)
      {
        var key := keys[idx];
        assert key in edgeEmbeddings && key in graph;
        var head, tail := key.0, key.1;
        var score := scores[idx];
        var relation := graph[(head, tail)];
        TrackStep(maxScore, maxTriple, maxIndex, keys, scores, idx);
        CollectStep(similarities, keys, scores, idx, threshold, queryEmbedding, similarity);
        if score > maxScore {
          maxScore, maxTriple := score, Some(Triple(head, relation, tail));
          maxIndex := idx;
        }
        if score >= threshold {
          similarities := similarities[Triple(head, relation, tail) := score];
        }
      }
      TrackedIsFirstMaximum(maxScore, maxTriple, maxIndex, keys, scores, queryEmbedding, similarity);
      CollectedIsQualifying(similarities, keys, scores, threshold, queryEmbedding, similarity);
    }

    /**
      `retrieve_relevant_subgraph` of app_using_llama.py: nothing for an empty
      store; otherwise the top `topK` qualifying triples by descending score
      (ties by triple), with the first maximum as a diagnostic. Scoring
      embeds the normalised query; normalising inside `_compute_embedding`
      again changes nothing.
    */
    method RetrieveWithMaxScore(query: string, topK: int, threshold: real,
                                similarity: (Embedding, Embedding) -> real) returns (result: Retrieval)
      requires Valid()
      ensures result.NoEdges? <==> edgeEmbeddings == map[]
      ensures result.QueryFailed? <==> edgeEmbeddings != map[] && ComputeEmbedding(query).Err?
      ensures result.QueryFailed? ==> result.message == ComputeEmbedding(query).error
      ensures result.Ranked? ==>
                && ComputeEmbedding(query).Ok?
                && IsTopRanked(result.triples, Qualifying(ComputeEmbedding(query).value, similarity, threshold), topK)
                && IsFirstMaximum(result.maxScore, result.maxTriple, ComputeEmbedding(query).value, similarity)
    {
      if edgeEmbeddings == map[] {
        return NoEdges;
      }
      var normalized := NormalizeText(query);
      NormalizeTextIdempotent(query);
      var queryEmbedding := ComputeEmbedding(normalized);
      if queryEmbedding.Err? {
        return QueryFailed(queryEmbedding.error);
      }
      var qe := queryEmbedding.value;
      var keys := SortedEdgeKeys();
      var scores: seq<real> := [];
      for idx := 0 to |keys|
        invariant |scores| == idx
        invariant forall j :: 0 <= j < idx ==> scores[j] == Score(keys[j], qe, similarity)
      {
        assert keys[idx] in edgeEmbeddings;
        scores := scores + [similarity(qe, edgeEmbeddings[keys[idx]])];
      }
      var maxScore, maxTriple, similarities := ScanEdges(keys, scores, threshold, qe, similarity);
      var triples := RankAndTake(similarities, topK);
      result := Ranked(triples, maxScore, maxTriple);
    }

    /**
      `retrieve_relevant_subgraph` of app_using_KG.py: the same ranking
      without the diagnostic; an empty store gives the empty list.
    */
    method RetrieveRelevant(query: string, topK: int, threshold: real,
                            similarity: (Embedding, Embedding) -> real) returns (result: Result<seq<Triple>, string>)
      requires Valid()
      ensures edgeEmbeddings == map[] ==> result == Ok([])
      ensures result.Err? <==> edgeEmbeddings != map[] && ComputeEmbedding(query).Err?
      ensures result.Err? ==> result.error == ComputeEmbedding(query).error
      ensures result.Ok? && edgeEmbeddings != map[] ==>
                && ComputeEmbedding(query).Ok?
                && IsTopRanked(result.value, Qualifying(ComputeEmbedding(query).value, similarity, threshold), topK)
    {
      if edgeEmbeddings == map[] {
        return Ok([]);
      }
      var normalized := NormalizeText(query);
      NormalizeTextIdempotent(query);
      var queryEmbedding := ComputeEmbedding(normalized);
      if queryEmbedding.Err? {
        return Err(queryEmbedding.error);
      }
      var qe := queryEmbedding.value;
      var keys := SortedEdgeKeys();
      var embeddings := edgeEmbeddings;
      assert forall i :: 0 <= i < |keys| ==> keys[i] in embeddings;
      var scores := seq(|keys|, i requires 0 <= i < |keys| && keys[i] in embeddings => similarity(qe, embeddings[keys[i]]));
      var similarities := FilterEdges(keys, scores, threshold, qe, similarity);
      var triples := RankAndTake(similarities, topK);
      result := Ok(triples);
    }

    /** The scan of app_using_KG.py: collect every triple whose score reaches the threshold. */
    method FilterEdges(keys: seq<Edge>, scores: seq<real>, threshold: real,
                       ghost queryEmbedding: Embedding, ghost similarity: (Embedding, Embedding) -> real)
      returns (similarities: map<Triple, real>)
      requires Valid()
      requires Elems(keys) == edgeEmbeddings.Keys
      requires |scores| == |keys|
      requires forall i :: 0 <= i < |keys| ==> scores[i] == Score(keys[i], queryEmbedding, similarity)
      ensures similarities == Qualifying(queryEmbedding, similarity, threshold)
    {
      similarities := map[];
      for idx := 0 to |keys|
        invariant CollectedUpTo(similarities, keys, scores, idx, threshold, queryEmbedding, similarity)
      {
        var key := keys[idx];
        assert key in edgeEmbeddings && key in graph;
        var head, tail := key.0, key.1;
        var score := scores[idx];
        CollectStep(similarities, keys, scores, idx, threshold, queryEmbedding, similarity);
        if score >= threshold {
          var relation := graph[(head, tail)];
          similarities := similarities[Triple(head, relation, tail) := score];
        }
      }
      CollectedIsQualifying(similarities, keys, scores, threshold, queryEmbedding, similarity);
    }

    // -------------------------------------------------------------------------
    // expand_subgraph

    /**
      A triple one hop may add when it starts from the nodes `frontier`: an
      edge of the graph found from one endpoint among that endpoint's
      examined neighbours, the other endpoint not yet seen, both endpoints
      within one step of the frontier.
    */
    ghost predicate HopTriple(t: Triple, frontier: set<string>, m: int)
      reads this
    {
      && IsEdgeTriple(graph, t)
      && Discovered(graph, t, frontier, m)
      && t.head in Step(graph, frontier) && t.tail in Step(graph, frontier)
    }

    ghost predicate AllHopTriples(found: set<Triple>, frontier: set<string>, m: int)
      reads this
    {
      forall t :: t in found ==> HopTriple(t, frontier, m)
    }

    /**
      What visiting `neighbor` of `node` does to `(seen_nodes, new_triples)`:
      nothing when it is seen already; otherwise add the outgoing edge, the
      incoming edge if there is one, and mark the neighbour seen.
    */
    ghost function NeighborStep(node: string, neighbor: string, seen: set<string>, found: set<Triple>)
      : (set<string>, set<Triple>)
      reads this
    {
      if neighbor in seen then (seen, found)
      else
        var outgoing := if (node, neighbor) in graph then {Triple(node, graph[(node, neighbor)], neighbor)} else {};
        var incoming := if (neighbor, node) in graph then {Triple(neighbor, graph[(neighbor, node)], node)} else {};
        (seen + {neighbor}, found + outgoing + incoming)
    }

    /**
      A seen neighbour contributes nothing. An unseen examined neighbour adds
      the edge `node -> neighbor`, the edge back if there is one, and is
      marked seen.
    */
    lemma NeighborStepEffect(node: string, neighbor: string, m: int, seen: set<string>, found: set<Triple>)
      requires neighbor in Examined(graph, node, m)
      ensures neighbor in seen ==> NeighborStep(node, neighbor, seen, found) == (seen, found)
      ensures neighbor !in seen ==>
                && (node, neighbor) in graph
                && NeighborStep(node, neighbor, seen, found).0 == seen + {neighbor}
                && NeighborStep(node, neighbor, seen, found).1
                     == found + {Triple(node, graph[(node, neighbor)], neighbor)}
                        + (if (neighbor, node) in graph then {Triple(neighbor, graph[(neighbor, node)], node)} else {})
    {
      ExaminedSuccessor(graph, node, m, neighbor);
    }

    lemma NeighborsStepSnoc(node: string, ns: seq<string>, i: nat, seen: set<string>, found: set<Triple>)
      requires i < |ns|
      ensures NeighborsStep(node, ns[..i + 1], seen, found)
           == NeighborStep(node, ns[i], NeighborsStep(node, ns[..i], seen, found).0,
                           NeighborsStep(node, ns[..i], seen, found).1)
    {
      assert ns[..i + 1][..i] == ns[..i];
    }

    lemma NodesStepSnoc(ns: seq<string>, i: nat, m: int, seen: set<string>, found: set<Triple>)
      requires i < |ns|
      ensures NodesStep(ns[..i + 1], m, seen, found)
           == NeighborsStep(ns[i], Examined(graph, ns[i], m), NodesStep(ns[..i], m, seen, found).0,
                            NodesStep(ns[..i], m, seen, found).1)
    {
      assert ns[..i + 1][..i] == ns[..i];
    }

    lemma TriplesStepSnoc(ts: seq<Triple>, i: nat, m: int, seen: set<string>, found: set<Triple>)
      requires i < |ts|
      ensures TriplesStep(ts[..i + 1], m, seen, found)
           == NodesStep(NodeOrder(ts[i].head, ts[i].tail), m, TriplesStep(ts[..i], m, seen, found).0,
                        TriplesStep(ts[..i], m, seen, found).1)
    {
      assert ts[..i + 1][..i] == ts[..i];
    }

    /** Visiting the neighbours `ns` of `node` in order. */
    ghost function NeighborsStep(node: string, ns: seq<string>, seen: set<string>, found: set<Triple>)
      : (set<string>, set<Triple>)
      reads this
      decreases |ns|
    {
      if ns == [] then (seen, found)
      else
        var before := NeighborsStep(node, ns[..|ns| - 1], seen, found);
        NeighborStep(node, ns[|ns| - 1], before.0, before.1)
    }

    /** Visiting the nodes `ns` in order, each with its examined neighbours. */
    ghost function NodesStep(ns: seq<string>, m: int, seen: set<string>, found: set<Triple>)
      : (set<string>, set<Triple>)
      reads this
      decreases |ns|
    {
      if ns == [] then (seen, found)
      else
        var before := NodesStep(ns[..|ns| - 1], m, seen, found);
        var n := ns[|ns| - 1];
        NeighborsStep(n, Examined(graph, n, m), before.0, before.1)
    }

    /** Visiting the triples `ts` in order, each through both its endpoints in name order. */
    ghost function TriplesStep(ts: seq<Triple>, m: int, seen: set<string>, found: set<Triple>)
      : (set<string>, set<Triple>)
      reads this
      decreases |ts|
    {
      if ts == [] then (seen, found)
      else
        var before := TriplesStep(ts[..|ts| - 1], m, seen, found);
        var t := ts[|ts| - 1];
        NodesStep(NodeOrder(t.head, t.tail), m, before.0, before.1)
    }

    /** One hop: visit the expanded triples in triple order, then merge the new triples in. */
    ghost function HopResult(expanded: set<Triple>, seen: set<string>, m: int): (set<Triple>, set<string>)
      reads this
    {
      var visited := TriplesStep(TripleOrder(expanded), m, seen, {});
      (expanded + visited.1, visited.0)
    }

    /** `range(hops)` runs this many times. */
    function HopCount(hops: int): nat
    {
      if hops < 0 then 0 else hops
    }

    /**
      The expanded triples and the seen nodes after `k` hops from `seeds`;
      they satisfy the invariant of the hop loop.
    */
    ghost function Expansion(seeds: set<Triple>, m: int, k: nat): (e: (set<Triple>, set<string>))
      reads this
      ensures ExpansionInvariant(seeds, e.0, e.1, k, m)
    {
      if k == 0 then (seeds, Endpoints(seeds))
      else
        var before := Expansion(seeds, m, k - 1);
        HopResultKeeps(seeds, before.0, before.1, k - 1, m);
        HopResult(before.0, before.1, m)
    }

    /**
      The body of the innermost loop of `expand_subgraph`: when `neighbor`
      (a successor of `node`) is not seen yet, add the outgoing edge, the
      incoming edge if there is one, and mark the neighbour seen.
    */
    method VisitNeighbor(node: string, neighbor: string, m: int, seen: set<string>, found: set<Triple>)
      returns (seen': set<string>, found': set<Triple>)
      requires neighbor in Examined(graph, node, m)
      ensures neighbor in seen ==> seen' == seen && found' == found
      ensures neighbor !in seen ==>
                && (node, neighbor) in graph
                && seen' == seen + {neighbor}
                && found' == found + {Triple(node, graph[(node, neighbor)], neighbor)}
                     + (if (neighbor, node) in graph then {Triple(neighbor, graph[(neighbor, node)], node)} else {})
      ensures (seen', found') == NeighborStep(node, neighbor, seen, found)
    {
      seen', found' := seen, found;
      if neighbor !in seen {
        ExaminedSuccessor(graph, node, m, neighbor);
        if (node, neighbor) in graph {
          found' := found' + {Triple(node, graph[(node, neighbor)], neighbor)};
        }
        if (neighbor, node) in graph {
          found' := found' + {Triple(neighbor, graph[(neighbor, node)], node)};
        }
        seen' := seen' + {neighbor};
      }
    }

    /** The outgoing and the incoming edge between a frontier node and an unseen examined neighbour are hop triples. */
    lemma FoundHopTriple(node: string, neighbor: string, t: Triple, frontier: set<string>, m: int)
      requires node in frontier && neighbor !in frontier && neighbor in Examined(graph, node, m)
      requires (node, neighbor) in graph
      requires t == Triple(node, graph[(node, neighbor)], neighbor)
               || ((neighbor, node) in graph && t == Triple(neighbor, graph[(neighbor, node)], node))
      ensures HopTriple(t, frontier, m)
    {
      ghost var e := (node, neighbor);
      assert e in graph && e.0 in frontier && e.1 == neighbor;
      assert neighbor in Step(graph, frontier);
    }

    /**
      The innermost loop of `expand_subgraph` for one `node`: visit its
      examined neighbours, `sorted(g.neighbors(node))[:m]`, in order.
    */
    method VisitNode(node: string, m: int, seen: set<string>, found: set<Triple>)
      returns (seen': set<string>, found': set<Triple>)
      ensures (seen', found') == NeighborsStep(node, Examined(graph, node, m), seen, found)
    {
      var neighbors := ListExamined(graph, node, m);
      seen', found' := seen, found;
      for i := 0 to |neighbors|
        invariant (seen', found') == NeighborsStep(node, neighbors[..i], seen, found)
      {
        NeighborsStepSnoc(node, neighbors, i, seen, found);
        seen', found' := VisitNeighbor(node, neighbors[i], m, seen', found');
      }
      assert neighbors[..|neighbors|] == neighbors;
    }

    /** Every examined neighbour of `node` is in `seen`. */
    ghost predicate Covers(seen: set<string>, node: string, m: int)
      reads this
    {
      forall nb :: nb in Examined(graph, node, m) ==> nb in seen
    }

    lemma CoversMonotone(seen: set<string>, seen': set<string>, node: string, m: int)
      requires Covers(seen, node, m) && seen <= seen'
      ensures Covers(seen', node, m)
    {
    }

    /** Visiting the next triple of `xs` keeps every visited triple covered as `seen` grows. */
    lemma CoversGrow(xs: seq<Triple>, i: nat, seen: set<string>, seen': set<string>, m: int)
      requires i < |xs| && seen <= seen'
      requires AllCovered(Elems(xs[..i]), seen, m)
      requires Covers(seen', xs[i].head, m) && Covers(seen', xs[i].tail, m)
      ensures AllCovered(Elems(xs[..i + 1]), seen', m)
    {
      assert xs[..i + 1] == xs[..i] + [xs[i]];
      forall t | t in Elems(xs[..i + 1]) ensures Covers(seen', t.head, m) && Covers(seen', t.tail, m) {
        if t != xs[i] {
          assert t in Elems(xs[..i]);
          CoversMonotone(seen, seen', t.head, m);
          CoversMonotone(seen, seen', t.tail, m);
        }
      }
    }

    /** The middle loop of `expand_subgraph`: visit both endpoints of `triple`, in sorted order. */
    method VisitTriple(triple: Triple, m: int, seen: set<string>, found: set<Triple>)
      returns (seen': set<string>, found': set<Triple>)
      ensures (seen', found') == NodesStep(NodeOrder(triple.head, triple.tail), m, seen, found)
    {
      var nodes := NodeOrder(triple.head, triple.tail);
      seen', found' := seen, found;
      for j := 0 to |nodes|
        invariant (seen', found') == NodesStep(nodes[..j], m, seen, found)
      {
        NodesStepSnoc(nodes, j, m, seen, found);
        seen', found' := VisitNode(nodes[j], m, seen', found');
      }
      assert nodes[..|nodes|] == nodes;
    }

    /**
      One iteration of the hop loop: visit every triple expanded so far, in
      triple order. The triples found are only merged in after the whole hop.
    */
    method ExpandHop(current: set<Triple>, seen: set<string>, m: int)
      returns (newTriples: set<Triple>, seen': set<string>)
      requires seen == Endpoints(current)
      ensures (seen', newTriples) == TriplesStep(TripleOrder(current), m, seen, {})
      ensures seen' == Endpoints(current) + Endpoints(newTriples)
      ensures AllHopTriples(newTriples, Endpoints(current), m)
      ensures AllCovered(current, seen', m)
    {
      var snapshot := SortTriples(current);
      newTriples, seen' := {}, seen;
      for i := 0 to |snapshot|
        invariant (seen', newTriples) == TriplesStep(snapshot[..i], m, seen, {})
      {
        TriplesStepSnoc(snapshot, i, m, seen, {});
        seen', newTriples := VisitTriple(snapshot[i], m, seen', newTriples);
      }
      assert snapshot[..|snapshot|] == snapshot;
      SnapshotKeeps(current, seen, m);
    }

    /** A hop's visit of the snapshot of `current` keeps the hop invariants and covers every snapshot triple. */
    lemma SnapshotKeeps(current: set<Triple>, seen: set<string>, m: int)
      requires seen == Endpoints(current)
      ensures var v := TriplesStep(TripleOrder(current), m, seen, {});
        && v.0 == Endpoints(current) + Endpoints(v.1)
        && AllHopTriples(v.1, Endpoints(current), m)
        && AllCovered(current, v.0, m)
    {
      var snapshot := TripleOrder(current);
      assert Endpoints({}) == {};
      forall t | t in snapshot ensures t.head in seen && t.tail in seen {
        assert t in Elems(snapshot);
      }
      TriplesStepKeeps(snapshot, m, seen, {}, seen);
    }

    /**
      A state `(seen, found)` of a hop from `frontier`: the seen nodes are the
      frontier and the endpoints of what was found, and every found triple is
      a hop triple.
    */
    ghost predicate HopState(state: (set<string>, set<Triple>), frontier: set<string>, m: int)
      reads this
    {
      state.0 == frontier + Endpoints(state.1) && AllHopTriples(state.1, frontier, m)
    }

    /** One neighbour visit keeps the hop invariants, only grows `seen`, and marks the neighbour seen. */
    lemma NeighborStepKeeps(node: string, neighbor: string, m: int, seen: set<string>, found: set<Triple>,
                            frontier: set<string>)
      requires node in frontier && neighbor in Examined(graph, node, m)
      requires HopState((seen, found), frontier, m)
      ensures seen <= NeighborStep(node, neighbor, seen, found).0
      ensures neighbor in NeighborStep(node, neighbor, seen, found).0
      ensures HopState(NeighborStep(node, neighbor, seen, found), frontier, m)
    {
      NeighborStepEffect(node, neighbor, m, seen, found);
      if neighbor !in seen {
        var out := Triple(node, graph[(node, neighbor)], neighbor);
        FoundHopTriple(node, neighbor, out, frontier, m);
        EndpointsAdd(found, out);
        if (neighbor, node) in graph {
          var back := Triple(neighbor, graph[(neighbor, node)], node);
          FoundHopTriple(node, neighbor, back, frontier, m);
          EndpointsAdd(found + {out}, back);
        } else {
          assert found + {out} + {} == found + {out};
        }
      }
    }

    /** Visiting examined neighbours of a frontier node keeps the hop invariants and marks all of them seen. */
    lemma {:induction false} NeighborsStepKeeps(node: string, ns: seq<string>, m: int, seen: set<string>,
                                                found: set<Triple>, frontier: set<string>)
      requires node in frontier && forall nb :: nb in ns ==> nb in Examined(graph, node, m)
      requires HopState((seen, found), frontier, m)
      ensures seen <= NeighborsStep(node, ns, seen, found).0
      ensures forall nb :: nb in ns ==> nb in NeighborsStep(node, ns, seen, found).0
      ensures HopState(NeighborsStep(node, ns, seen, found), frontier, m)
      decreases |ns|
    {
      if ns != [] {
        var front, last := ns[..|ns| - 1], ns[|ns| - 1];
        assert ns == front + [last];
        NeighborsStepKeeps(node, front, m, seen, found, frontier);
        var before := NeighborsStep(node, front, seen, found);
        NeighborStepKeeps(node, last, m, before.0, before.1, frontier);
      }
    }

    /** Visiting frontier nodes keeps the hop invariants and covers each visited node. */
    lemma {:induction false} NodesStepKeeps(ns: seq<string>, m: int, seen: set<string>, found: set<Triple>,
                                            frontier: set<string>)
      requires forall n :: n in ns ==> n in frontier
      requires HopState((seen, found), frontier, m)
      ensures seen <= NodesStep(ns, m, seen, found).0
      ensures forall n :: n in ns ==> Covers(NodesStep(ns, m, seen, found).0, n, m)
      ensures HopState(NodesStep(ns, m, seen, found), frontier, m)
      decreases |ns|
    {
      if ns != [] {
        var front, last := ns[..|ns| - 1], ns[|ns| - 1];
        assert ns == front + [last];
        NodesStepKeeps(front, m, seen, found, frontier);
        var before := NodesStep(front, m, seen, found);
        NeighborsStepKeeps(last, Examined(graph, last, m), m, before.0, before.1, frontier);
        var after := NodesStep(ns, m, seen, found);
        forall n | n in ns ensures Covers(after.0, n, m) {
          if n != last {
            assert n in front;
            CoversMonotone(before.0, after.0, n, m);
          }
        }
      }
    }

    /** Visiting triples whose endpoints are in the frontier keeps the hop invariants and covers their endpoints. */
    lemma {:induction false} TriplesStepKeeps(ts: seq<Triple>, m: int, seen: set<string>, found: set<Triple>,
                                              frontier: set<string>)
      requires forall t :: t in ts ==> t.head in frontier && t.tail in frontier
      requires HopState((seen, found), frontier, m)
      ensures seen <= TriplesStep(ts, m, seen, found).0
      ensures AllCovered(Elems(ts), TriplesStep(ts, m, seen, found).0, m)
      ensures HopState(TriplesStep(ts, m, seen, found), frontier, m)
      decreases |ts|
    {
      if ts != [] {
        var i := |ts| - 1;
        var front, last := ts[..i], ts[i];
        assert ts == front + [last];
        TriplesStepKeeps(front, m, seen, found, frontier);
        var before := TriplesStep(front, m, seen, found);
        var nodes := NodeOrder(last.head, last.tail);
        NodesStepKeeps(nodes, m, before.0, before.1, frontier);
        assert last.head in nodes && last.tail in nodes;
        CoversGrow(ts, i, before.0, TriplesStep(ts, m, seen, found).0, m);
        assert ts[..i + 1] == ts;
      }
    }

    /**
      `expand_subgraph`: grow the seed triples for `hops` hops, each hop
      examining at most `maxNodesPerHop` successors (in name order) of every
      endpoint, and return the result in triple order.
    */
    method Expand(triples: seq<Triple>, hops: int, maxNodesPerHop: int) returns (r: seq<Triple>)
      requires hops > 0 ==> SeedNodes(triples) <= Nodes(graph)
      ensures StrictlySorted(r, TripleLess)
      ensures forall t :: t in triples ==> t in r
      ensures forall t :: t in r && t !in triples ==>
                IsEdgeTriple(graph, t) && Discovered(graph, t, SeedNodes(triples), maxNodesPerHop)
      ensures hops <= 0 || maxNodesPerHop == 0 ==> forall t :: t in r ==> t in triples
      ensures forall t :: t in r ==>
                && t.head in Ball(graph, SeedNodes(triples), if hops < 0 then 0 else hops)
                && t.tail in Ball(graph, SeedNodes(triples), if hops < 0 then 0 else hops)
      ensures hops >= 1 ==>
                forall n, nb :: n in SeedNodes(triples) && nb in Examined(graph, n, maxNodesPerHop) ==>
                  nb in Endpoints(Elems(r))
      ensures r == TripleOrder(Expansion((set t | t in triples), maxNodesPerHop, HopCount(hops)).0)
    {
      var seeds := set t | t in triples;
      var expanded, seen := ExpandSet(seeds, hops, maxNodesPerHop);
      r := SortTriples(expanded);
      TripleOrderSorted(expanded);
      ExpansionResult(triples, seeds, expanded, seen, HopCount(hops), hops, maxNodesPerHop, r);
    }

    /** The hop loop of `expand_subgraph`, on the set of expanded triples and the seen nodes. */
    method ExpandSet(seeds: set<Triple>, hops: int, m: int) returns (expanded: set<Triple>, seen: set<string>)
      ensures (expanded, seen) == Expansion(seeds, m, HopCount(hops))
      ensures seen <= Ball(graph, Endpoints(seeds), HopCount(hops))
    {
      expanded := seeds;
      seen := Endpoints(expanded);
      assert Ball(graph, Endpoints(seeds), 0) == seen;
      var hop := 0;
      while hop < hops
        invariant 0 <= hop <= HopCount(hops)
        invariant (expanded, seen) == Expansion(seeds, m, hop)
        invariant seen <= Ball(graph, Endpoints(seeds), hop)
      {
        expanded, seen := Hop(expanded, seen, m, seeds, hop);
        hop := hop + 1;
      }
      assert hop == HopCount(hops);
    }

    /** The body of the hop loop: one hop, whose new triples are merged in after it. */
    method Hop(expanded: set<Triple>, seen: set<string>, m: int, ghost seeds: set<Triple>, ghost hop: nat)
      returns (expanded': set<Triple>, seen': set<string>)
      requires (expanded, seen) == Expansion(seeds, m, hop)
      requires seen <= Ball(graph, Endpoints(seeds), hop)
      ensures (expanded', seen') == HopResult(expanded, seen, m)
      ensures (expanded', seen') == Expansion(seeds, m, hop + 1)
      ensures seen' <= Ball(graph, Endpoints(seeds), hop + 1)
    {
      HopWithinBall(expanded, seen, Endpoints(seeds), hop, m);
      var newTriples;
      newTriples, seen' := ExpandHop(expanded, seen, m);
      expanded' := expanded + newTriples;
    }

    /** One hop keeps the invariant of the hop loop. */
    lemma HopResultKeeps(seeds: set<Triple>, expanded: set<Triple>, seen: set<string>, hop: nat, m: int)
      requires ExpansionInvariant(seeds, expanded, seen, hop, m)
      ensures ExpansionInvariant(seeds, HopResult(expanded, seen, m).0, HopResult(expanded, seen, m).1, hop + 1, m)
    {
      SnapshotKeeps(expanded, seen, m);
      var v := TriplesStep(TripleOrder(expanded), m, seen, {});
      HopPreserves(seeds, expanded, v.1, v.0, hop, m);
    }

    /** The invariant of the hop loop of `expand_subgraph` after `hop` hops from `seeds`. */
    ghost predicate ExpansionInvariant(seeds: set<Triple>, expanded: set<Triple>, seen: set<string>, hop: nat, m: int)
      reads this
    {
      && seeds <= expanded && seen == Endpoints(expanded)
      && AllDiscovered(expanded - seeds, Endpoints(seeds), m)
      && (hop == 0 ==> expanded == seeds)
      && (hop >= 1 ==> AllCovered(seeds, seen, m))
    }

    /** Every triple of `found` is an edge that an expansion from `seedNodes` can discover. */
    ghost predicate AllDiscovered(found: set<Triple>, seedNodes: set<string>, m: int)
      reads this
    {
      forall t :: t in found ==> IsEdgeTriple(graph, t) && Discovered(graph, t, seedNodes, m)
    }

    /** The examined neighbours of both endpoints of every triple of `ts` are in `seen`. */
    ghost predicate AllCovered(ts: set<Triple>, seen: set<string>, m: int)
      reads this
    {
      forall t :: t in ts ==> Covers(seen, t.head, m) && Covers(seen, t.tail, m)
    }

    /** A hop from nodes within `hop` steps of the seed nodes sees only nodes within `hop + 1` steps. */
    lemma HopWithinBall(expanded: set<Triple>, seen: set<string>, seedNodes: set<string>, hop: nat, m: int)
      requires seen == Endpoints(expanded) && seen <= Ball(graph, seedNodes, hop)
      ensures HopResult(expanded, seen, m).1 <= Ball(graph, seedNodes, hop + 1)
    {
      SnapshotKeeps(expanded, seen, m);
      var visited := TriplesStep(TripleOrder(expanded), m, seen, {});
      HopKeepsBall(expanded, visited.1, seedNodes, hop, m);
    }

    /** Merging the triples of one hop into the expanded set keeps the invariant of the hop loop. */
    lemma HopPreserves(seeds: set<Triple>, expanded: set<Triple>, newTriples: set<Triple>, seen': set<string>,
                       hop: nat, m: int)
      requires ExpansionInvariant(seeds, expanded, Endpoints(expanded), hop, m)
      requires seen' == Endpoints(expanded) + Endpoints(newTriples)
      requires AllHopTriples(newTriples, Endpoints(expanded), m)
      requires AllCovered(expanded, seen', m)
      ensures ExpansionInvariant(seeds, expanded + newTriples, seen', hop + 1, m)
    {
      HopKeepsDiscovered(expanded, newTriples, seeds, Endpoints(seeds), m);
      EndpointsUnion(expanded, newTriples);
      assert (expanded + newTriples) - seeds == (expanded - seeds) + newTriples;
    }

    lemma ExpansionResult(triples: seq<Triple>, seeds: set<Triple>, expanded: set<Triple>, seen: set<string>,
                          hop: nat, hops: int, m: int, r: seq<Triple>)
      requires seeds == set t | t in triples
      requires hop == if hops < 0 then 0 else hops
      requires ExpansionInvariant(seeds, expanded, seen, hop, m)
      requires seen <= Ball(graph, Endpoints(seeds), hop)
      requires StrictlySorted(r, TripleLess) && Elems(r) == expanded
      ensures forall t :: t in triples ==> t in r
      ensures forall t :: t in r && t !in triples ==>
                IsEdgeTriple(graph, t) && Discovered(graph, t, SeedNodes(triples), m)
      ensures hops <= 0 || m == 0 ==> forall t :: t in r ==> t in triples
      ensures forall t :: t in r ==> t.head in Ball(graph, SeedNodes(triples), hop) && t.tail in Ball(graph, SeedNodes(triples), hop)
      ensures hops >= 1 ==>
                forall n, nb :: n in SeedNodes(triples) && nb in Examined(graph, n, m) ==> nb in Endpoints(Elems(r))
    {
      assert forall t :: t in triples ==> t in seeds;
      assert SeedNodes(triples) == Endpoints(seeds);
      forall t | t in r && t !in triples
        ensures IsEdgeTriple(graph, t) && Discovered(graph, t, SeedNodes(triples), m)
      {
        assert t in Elems(r) && t !in seeds;
        assert t in expanded - seeds;
      }
      if m == 0 {
        forall t | t in expanded ensures t in seeds {
          ExaminedNothing(graph, t.head);
          ExaminedNothing(graph, t.tail);
          assert !Discovered(graph, t, Endpoints(seeds), m);
          assert t in seeds || t in expanded - seeds;
        }
      }
      if hops >= 1 {
        forall n, nb | n in SeedNodes(triples) && nb in Examined(graph, n, m) ensures nb in Endpoints(Elems(r)) {
          var t :| t in seeds && (n == t.head || n == t.tail);
          assert Covers(seen, n, m);
          assert nb in seen;
          assert seen == Endpoints(Elems(r));
        }
      }
    }

    /** The triples a hop finds can be discovered from the seed nodes. */
    lemma HopKeepsDiscovered(current: set<Triple>, newTriples: set<Triple>, seeds: set<Triple>,
                             seedNodes: set<string>, m: int)
      requires seedNodes == Endpoints(seeds) && seeds <= current
      requires AllHopTriples(newTriples, Endpoints(current), m)
      ensures AllDiscovered(newTriples, seedNodes, m)
    {
      EndpointsMonotone(seeds, current);
    }

    /** The nodes seen after a hop lie one step further out than those seen before it. */
    lemma HopKeepsBall(current: set<Triple>, newTriples: set<Triple>, seedNodes: set<string>, hop: nat, m: int)
      requires Endpoints(current) <= Ball(graph, seedNodes, hop)
      requires AllHopTriples(newTriples, Endpoints(current), m)
      ensures Endpoints(current) + Endpoints(newTriples) <= Ball(graph, seedNodes, hop + 1)
    {
      BallStep(graph, seedNodes, hop);
      StepMonotone(graph, Endpoints(current), Ball(graph, seedNodes, hop));
      forall n | n in Endpoints(newTriples) ensures n in Step(graph, Endpoints(current)) {
        var t :| t in newTriples && (n == t.head || n == t.tail);
      }
    }
  }
}
