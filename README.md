# Knowledge-graph retrieval store, modelled in Dafny

This project models the core of a small retrieval-augmented-generation
helper. Its `KnowledgeGraphRAG` class keeps three things:

- a directed knowledge graph of `(head, relation, tail)` facts;
- a cache of embeddings for the graph's nodes and edges;
- a map from each fact to its edge.

It answers four kinds of request:

- **retrieval**: rank the stored edges by their similarity to a question;
- **expansion**: grow a set of facts hop by hop along the graph;
- **context**: render facts as text for a language model;
- **response parsing**: render the model's entity chains as numbered cause-and-effect text.

The core exists in two variants, `app_using_llama.py` and `app_using_KG.py`.
They share `Triple`, `add_triple`, `expand_subgraph` and `generate_context`.
They differ in retrieval:

- the llama variant also reports the best-scoring triple as a diagnostic;
- the KG variant returns only the list.

The model has one class for both variants, with one retrieval method for each.

Modules (one file each):

- `wrappers.dfy`: `Option` and `Result`.
- `ordering.dfy`: Python's code-point order on strings (`StrLess`), strict total orders, and `sorted` as a stable insertion sort. A sorted set is its unique strictly ascending listing. `xs[:k]` is a Python slice, including negative `k`.
- `text.dfy`: `str.split()` on Python's whitespace, `" ".join`, `str.lower()` and `rstrip("?")`. Also the three normalisations:
  - the one inside `_compute_embedding`;
  - the one in `createQuery`;
  - the one in `demonstrate_rag`.
- `triples.dfy`: `Triple` and the tuple orders that `sorted(..., key=lambda x: (x.head, x.relation, x.tail))` uses.
- `graph.dfy`: the `DiGraph` as a map from `(head, tail)` to the relation. `neighbors` is the set of successors. Also the examined neighbours of one hop (`sorted(...)[:max_nodes_per_hop]`) and the hop-bounded reach (`Ball`).
- `ranking.dfy`: the retrieval ranking. It sorts by descending score, breaks ties by triple, and keeps the first `top_k`.
- `store.dfy`: the class `KnowledgeGraphRAG`. Its fields are the graph, the three dictionaries and the encoder. Its methods are `add_triple`, both retrievals and `expand_subgraph`.
- `context.dfy`: `generate_context`.
- `response.dfy`: `parse_response`, after JSON decoding.

Two points on the store's state:

- **Embeddings.** An embedding is an opaque `seq<real>`. The encoder is a function the store is constructed with. It yields `Ok(vector)` or `Err(message)`. `ComputeEmbedding(text)` applies it to the normalised text.
- **Invariants.** `Valid()` is the invariant that every `add_triple` keeps, including a failing one. `Consistent()` is the stronger invariant that a store built only by successful adds keeps.

## Model

| member | source | states |
|---|---|---|
| Ordering.StrLessIsStrictTotalOrder | app_using_llama.py:298 | Python's `<` on strings (code-point lexicographic) is irreflexive, transitive and total on distinct strings, so `sorted` of distinct names is well defined |
| Ordering.Take | app_using_llama.py:300 | `xs[:k]` is a prefix of `xs`. For `k >= 0` it has `min(k, len(xs))` elements; for negative `k` it drops the last `min(-k, len(xs))` elements |
| Ordering.Sort | app_using_llama.py:338 | `sorted` returns a permutation (same multiset) of its input |
| Ordering.SortNoInversion | app_using_llama.py:338 | under a strict total order, `sorted`'s output has no inversion |
| Ordering.SortPermutationInvariant | app_using_KG.py:271 | sorting by a full key depends only on the multiset of the input, not its order |
| Ordering.NoInversionUnique | app_using_llama.py:338 | two inversion-free arrangements of one multiset are equal |
| Ordering.SortedOf | app_using_llama.py:228 | `sorted` of a set is its unique strictly ascending, duplicate-free listing |
| Ordering.SortOfListedSet | app_using_llama.py:294 | whatever order a set is listed in, sorting the listing gives the same sequence |
| Text.Collapse | app_using_llama.py:439 | `" ".join(s.split())` has no leading, trailing or repeated whitespace |
| Text.SplitJoin | app_using_KG.py:370 | splitting a space-joined list of words gives the words back |
| Text.CollapseIdempotent | app_using_KG.py:370 | collapsing twice equals collapsing once |
| Text.NormalizeText | app_using_llama.py:153 | the embedding normalisation is collapsed and lower-case |
| Text.NormalizeTextIdempotent | app_using_KG.py:102 | the embedding normalisation is idempotent, so the second normalisation in `_compute_embedding` after retrieval's own normalisation changes nothing |
| Text.RStrip | app_using_llama.py:440 | `rstrip("?")` returns a prefix of the input that does not end in `?` and cuts only `?` characters |
| Text.NormalizeQuestion | app_using_llama.py:440 | the `createQuery` question is collapsed and ends in exactly one `?` |
| Text.NormalizeQuestionIdempotent | app_using_KG.py:371 | normalising a normalised question changes nothing |
| Text.NormalizeUserQuery | app_using_llama.py:469 | the `demonstrate_rag` query is collapsed, lower-case and ends in exactly one `?` |
| Text.NormalizeUserQueryIdempotent | app_using_KG.py:403 | normalising a normalised user query changes nothing |
| Text.UserQueryIsNormal | app_using_llama.py:213 | retrieval's normalisation leaves a `demonstrate_rag`-normalised query unchanged |
| Triples.TripleLessIsStrictTotalOrder | app_using_llama.py:294 | the key `(head, relation, tail)` orders distinct triples strictly and totally |
| Triples.PairLessIsStrictTotalOrder | app_using_llama.py:228 | Python's tuple order on `(head, tail)` edge keys is a strict total order |
| Triples.TripleOrderSorted | app_using_llama.py:320 | the triple order of a set is strictly ascending and duplicate-free |
| Triples.SortTriples | app_using_llama.py:320 | `sorted(set_of_triples, key=...)` lists exactly the set, in triple order |
| Triples.TripleOrderIsSortedSet | app_using_llama.py:320 | the triple order of a set is the unique strictly ascending listing of the set by the key `(head, relation, tail)` |
| Graph.EdgeTriple | app_using_llama.py:307 | reading `g[head][tail]['relation']` gives a triple that is an edge carrying its stored relation |
| Graph.ExaminedSuccessor | app_using_llama.py:298-300 | every examined neighbour of a node is a successor of it: the edge `node -> neighbour` exists |
| Graph.ExaminedNothing | app_using_llama.py:300 | with `max_nodes_per_hop = 0` no neighbour is examined |
| Graph.ListExamined | app_using_llama.py:298-300 | the neighbour list of one node is the first `max_nodes_per_hop` of its successors in name order |
| Ranking.RankLessIsStrictTotalOrder | app_using_llama.py:261-264 | the key `(-score, head, relation, tail)` orders distinct scored triples strictly and totally |
| Ranking.TakeOfRanked | app_using_KG.py:194-199 | the slice of a rank-sorted listing is the top-ranked selection: the right length, strictly descending rank, and every omitted triple ranks below every kept one |
| Ranking.SortedListsScores | app_using_llama.py:261-264 | sorting `similarities.items()` by rank keeps every item once and makes the list strictly ascending in rank |
| Ranking.RankAndTake | app_using_llama.py:261-266 | the returned triples are the top-`top_k` of the scores by descending score, ties by triple |
| Ranking.TopRankedUnique | app_using_KG.py:194-199 | the top-ranked selection is unique: equal scores cannot make two runs disagree |
| KnowledgeGraph.KnowledgeGraphRAG.constructor | app_using_llama.py:105-108 | a new store has an empty graph and empty dictionaries, and is valid and consistent |
| KnowledgeGraph.KnowledgeGraphRAG.EmbedAll | app_using_llama.py:182-184 | the node phase keeps existing embeddings and adds computed ones only for listed nodes. It succeeds exactly when every listed node ends up embedded. A failure carries the error of a node that has no embedding |
| KnowledgeGraph.KnowledgeGraphRAG.EmbedNodes | app_using_llama.py:182-184 | the node loop produces exactly `EmbedAll`'s map and failure and changes nothing else |
| KnowledgeGraph.KnowledgeGraphRAG.NodeOrder | app_using_llama.py:182 | `sorted([head, tail])` holds exactly the two endpoints (twice the same name for a self-loop) |
| KnowledgeGraph.KnowledgeGraphRAG.NodeOrderIsSorted | app_using_KG.py:131 | that list is what `sorted` returns for `[head, tail]` |
| KnowledgeGraph.KnowledgeGraphRAG.AddTriple | app_using_llama.py:175-193 | the relation of `(head, tail)` is overwritten and no other edge changes. Node embeddings are added only for endpoints not cached before. Only the `(head, tail)` edge embedding and the triple's entry change. Success happens exactly when every embedding succeeds. A failure gives "Failed to add triple: " plus the provider's message and keeps the steps already done. The store stays valid, and a successful add keeps a consistent store consistent. `add_triple` of app_using_KG.py:124-142 does the same |
| KnowledgeGraph.KnowledgeGraphRAG.EmbedEdge | app_using_llama.py:187-190 | the edge phase (re)writes the `(head, tail)` embedding and the triple's edge exactly when the edge text embeds, and otherwise fails with the prefixed message, changing nothing |
| KnowledgeGraph.KnowledgeGraphRAG.NodePhaseValid | app_using_llama.py:179-184 | adding the edge and the node embeddings keeps the store valid |
| KnowledgeGraph.KnowledgeGraphRAG.EdgePhaseValid | app_using_KG.py:136-139 | recording the edge embedding and the triple keeps the store valid |
| KnowledgeGraph.KnowledgeGraphRAG.AddKeepsConsistent | app_using_KG.py:128-139 | after a successful add, every node and every edge has exactly one embedding of its current text, and every edge's triple is recorded |
| KnowledgeGraph.KnowledgeGraphRAG.NodesOfUpdate | app_using_llama.py:179 | `add_edge` adds both endpoints to the graph's nodes and no others |
| KnowledgeGraph.KnowledgeGraphRAG.Qualifying | app_using_llama.py:254-258 | `similarities` holds exactly the current triples of the embedded edges scoring at least the threshold, each with its score |
| KnowledgeGraph.KnowledgeGraphRAG.SortedEdgeKeys | app_using_llama.py:228 | `sorted(self.edge_embeddings.keys())` lists every key once, ascending |
| KnowledgeGraph.KnowledgeGraphRAG.CollectedIsQualifying | app_using_llama.py:254-258 | after the whole scan the collected dictionary is `Qualifying` |
| KnowledgeGraph.KnowledgeGraphRAG.TrackedIsFirstMaximum | app_using_llama.py:245-253 | the tracked maximum is the largest score, never below the initial -1. Its triple is the first edge in key order that reaches it, and there is none when no score exceeds -1 |
| KnowledgeGraph.KnowledgeGraphRAG.ScanEdges | app_using_llama.py:245-258 | one scan over the sorted keys yields both the first maximum, whatever the threshold, and the qualifying dictionary |
| KnowledgeGraph.KnowledgeGraphRAG.RetrieveWithMaxScore | app_using_llama.py:209-266 | an empty store gives the empty result. A failing query embedding is an error carrying its message. Otherwise the result is the top-`top_k` qualifying triples by descending score (ties by triple), together with the first maximum |
| KnowledgeGraph.KnowledgeGraphRAG.RetrieveRelevant | app_using_KG.py:158-199 | an empty store gives `[]`. A failing query embedding is an error. Otherwise the result is the top-`top_k` qualifying triples in rank order |
| KnowledgeGraph.KnowledgeGraphRAG.FilterEdges | app_using_KG.py:186-191 | the KG scan collects exactly the qualifying triples with their scores |
| KnowledgeGraph.KnowledgeGraphRAG.FoundHopTriple | app_using_llama.py:306-313 | a triple added for an unseen examined neighbour is a graph edge with its stored relation. Its endpoints are one step from the hop's starting nodes |
| KnowledgeGraph.KnowledgeGraphRAG.VisitNeighbor | app_using_llama.py:303-315 | a seen neighbour changes nothing. An unseen one is a successor of the node, is marked seen, and adds exactly the outgoing triple, plus the incoming triple when the reverse edge exists; this is one `NeighborStep` |
| KnowledgeGraph.KnowledgeGraphRAG.NeighborStepEffect | app_using_llama.py:303-315 | the same exact effect, stated of the step function `NeighborStep` for every examined neighbour |
| KnowledgeGraph.KnowledgeGraphRAG.NeighborStepKeeps | app_using_llama.py:303-315 | visiting an examined neighbour of a frontier node only grows the seen set and marks the neighbour seen. Seen stays the frontier plus the endpoints of the found triples, and every found triple is a one-hop edge triple |
| KnowledgeGraph.KnowledgeGraphRAG.VisitNode | app_using_llama.py:298-315 | a node's examined neighbours (`sorted(neighbors)[:max_nodes_per_hop]`) are visited one after another, in name order: the result is `NeighborsStep` over that list |
| KnowledgeGraph.KnowledgeGraphRAG.NeighborsStepKeeps | app_using_llama.py:298-315 | visiting examined neighbours of a frontier node keeps the hop state and leaves every one of them seen |
| KnowledgeGraph.KnowledgeGraphRAG.VisitTriple | app_using_llama.py:296-315 | both endpoints of a triple are processed in turn, in sorted order: the result is `NodesStep` over `sorted([head, tail])` |
| KnowledgeGraph.KnowledgeGraphRAG.NodesStepKeeps | app_using_llama.py:296-315 | processing frontier nodes keeps the hop state, and afterwards every examined neighbour of each processed node is seen |
| KnowledgeGraph.KnowledgeGraphRAG.ExpandHop | app_using_llama.py:291-315 | one hop visits the sorted snapshot of the expanded triples, starting from no new triples: the result is `TriplesStep` over the triple order. The seen nodes are the snapshot's endpoints plus those of the new triples. Every new triple is a one-hop edge triple, and the examined neighbours of every snapshot triple's endpoints are seen |
| KnowledgeGraph.KnowledgeGraphRAG.TriplesStepKeeps | app_using_llama.py:294-315 | visiting triples whose endpoints are in the frontier keeps the hop state and leaves the examined neighbours of their endpoints seen |
| KnowledgeGraph.KnowledgeGraphRAG.SnapshotKeeps | app_using_llama.py:291-315 | the hop over the snapshot, from the snapshot's endpoints, ends with seen = those endpoints plus the new triples' endpoints. Only one-hop edge triples are found, and every snapshot triple is covered |
| KnowledgeGraph.KnowledgeGraphRAG.HopPreserves | app_using_llama.py:317 | merging a hop's triples only after the hop keeps the expansion invariant, one hop further |
| KnowledgeGraph.KnowledgeGraphRAG.HopResultKeeps | app_using_llama.py:290-317 | one hop followed by the merge keeps the expansion invariant, one hop further |
| KnowledgeGraph.KnowledgeGraphRAG.Expansion | app_using_llama.py:286-317 | after `k` hops, the expanded set contains the seeds and seen is its endpoints. Every added triple is an edge that can be discovered from the seed nodes, and nothing is added at hop 0. After at least one hop every examined neighbour of a seed node is seen |
| KnowledgeGraph.KnowledgeGraphRAG.Hop | app_using_llama.py:290-317 | one iteration of the hop loop gives `HopResult`, which is `Expansion` one hop further, and keeps the seen nodes within that many steps of the seed nodes |
| KnowledgeGraph.KnowledgeGraphRAG.ExpandSet | app_using_llama.py:286-317 | the hop loop runs `max(hops, 0)` hops: its expanded set and seen nodes are `Expansion` after that many hops, with the seen nodes within that many steps of the seed nodes |
| KnowledgeGraph.KnowledgeGraphRAG.HopWithinBall | app_using_llama.py:290-317 | a hop from nodes within `h` steps of the seed nodes sees only nodes within `h + 1` steps |
| KnowledgeGraph.KnowledgeGraphRAG.HopKeepsBall | app_using_llama.py:290-317 | nodes reached after `h + 1` hops lie within `h + 1` steps of the seed nodes |
| KnowledgeGraph.KnowledgeGraphRAG.HopKeepsDiscovered | app_using_llama.py:303-315 | the triples a hop finds are edges that can be discovered from the seed nodes |
| KnowledgeGraph.KnowledgeGraphRAG.ExpansionResult | app_using_llama.py:320 | the invariant at the last hop gives the properties of `expand_subgraph`'s result |
| KnowledgeGraph.KnowledgeGraphRAG.Expand | app_using_llama.py:286-320 | the result is sorted by triple with no duplicates and contains every seed triple. Every added triple is a graph edge with its stored relation, found from an examined neighbour. With `hops <= 0` or `max_nodes_per_hop = 0` it is exactly the seeds. Every node lies within `hops` steps of the seed nodes. After at least one hop, every examined neighbour of a seed node is an endpoint of the result. The result is exactly the triple-ordered `Expansion` after `max(hops, 0)` hops. `expand_subgraph` of app_using_KG.py:219-253 is the same |
| Context.NaturalContext | app_using_llama.py:338-346 | the natural context is empty exactly for an empty list and otherwise ends with a full stop |
| Context.NaturalContextOfArrangement | app_using_llama.py:338-346 | it is the `"h r t."` sentences of the triples in their unique ascending arrangement, joined by single spaces |
| Context.NaturalContextOrderFree | app_using_KG.py:271-279 | reordering the input list does not change the natural context |
| Context.GroupByHead | app_using_llama.py:350-352 | the `defaultdict` has one key per distinct head, holding that head's `(relation, tail)` pairs in list order |
| Context.GroupMembers | app_using_llama.py:351-352 | a pair is in a head's group exactly when the list holds the triple `(head, relation, tail)` |
| Context.SortedSubjects | app_using_llama.py:356 | `sorted(subject_groups.keys())` lists the subjects once each, ascending |
| Context.RenderLines | app_using_llama.py:355-362 | line `k` is `"subject -> rel tail; rel tail"` for the `k`-th subject, with that subject's pairs sorted |
| Context.StructuredContext | app_using_llama.py:348-364 | the structured branch returns the lines for the ascending subjects, joined by newlines |
| Context.StructuredEmpty | app_using_llama.py:364 | an empty list renders as the empty string |
| Context.StructuredOrderFree | app_using_KG.py:281-297 | reordering the input list does not change the structured context |
| Context.StructuredLinesContents | app_using_llama.py:350-364 | there is one line per distinct head. Each head has a line listing exactly the `(relation, tail)` pairs of its triples |
| Context.GenerateContext | app_using_llama.py:338-367 | "natural" and "structured" select the two renderings; any other name fails with "Unsupported format type: " followed by the name, as in app_using_KG.py:271-300 too |
| Response.Decimal | app_using_llama.py:55 | `str(i)` is non-empty decimal digits with no leading zero |
| Response.DecimalRoundTrip | app_using_llama.py:55 | reading the printed sequence number back gives the number |
| Response.DecimalInjective | app_using_llama.py:55 | different sequence numbers print differently |
| Response.CauseEffectStepAt | app_using_llama.py:43-48 | a chain of `n >= 1` entities gives `n - 1` steps; step `i` is `"e_i leads to e_{i+1}"` |
| Response.CauseEffectSplit | app_using_llama.py:43-48 | splitting a chain at an entity splits its steps there: that entity is the effect of one step and the cause of the next |
| Response.BuildCauseEffectMap | app_using_llama.py:40-49 | the cause-effect map has one step list per chain, in order |
| Response.AppendSteps | app_using_llama.py:57-64 | the `start`-flag loop appends the steps joined by `" -> "` |
| Response.RenderCauseEffectMap | app_using_llama.py:52-64 | each step list `i` (from 1) contributes `"\nSequence i : "` and then its steps joined by `" -> "` |
| Response.RenderFromAppend | app_using_llama.py:54-55 | rendering two lists one after the other continues the numbering |
| Response.ResponseSnoc | app_using_llama.py:52-66 | no chains give `""`; each further chain appends its own numbered section |
| Response.ParseResponse | app_using_llama.py:40-66 | `parse_response` after decoding returns the numbered sections for the chains |

## Left out

- Embedding backends are not modelled: `SentenceTransformer`, `generate_embeddings`, the float32 conversion, `torch.sort` of the vector and the device. The encoder is a function the store is built with, returning a vector or an error message.
- Cosine similarity (`find_cosine_similarity`, `F.cosine_similarity`) is floating-point numerics. Retrieval takes the similarity as a function to `real`.
- Only the KG variant's encoder sorts the vector; in the model that is part of the encoder function.
- `_set_deterministic_settings`, `_init_encoder`, `parse_query_with_groq` (an HTTP call), `generate_analysis` (the Streamlit page), `load_dotenv` and the sample data of `demonstrate_rag` are out of scope. They are I/O, global randomness settings, or UI.
- `print` output is not modelled.
- The prompt template of `createQuery` is not modelled. Only its two normalisation lines are.
- `json.loads` in `parse_response` is not modelled. `ParseResponse` takes the decoded list of entity chains; a malformed JSON text is out of scope.
- `Text.Lower`: only ASCII `A`-`Z` are lower-cased. Python's `str.lower` maps all of Unicode.
- `KnowledgeGraph.KnowledgeGraphRAG.Expand` requires the seed endpoints to be graph nodes when `hops > 0`. Otherwise `networkx` raises an error for a node that is not in the graph, and the model does not carry that error.
- `KnowledgeGraph.KnowledgeGraphRAG.RetrieveWithMaxScore`: the llama variant returns `[]` for an empty store and a 3-tuple otherwise. The model uses a `Retrieval` datatype whose `NoEdges` case stands for the `[]`.
- Exceptions other than a failing embedding (out of memory, a provider crash that is not an error value) are not modelled.
- `generate_context` is a method of the class but reads no state. It is modelled as functions and methods of the `Context` module.

Two behaviours of the code that the model keeps as they are:

- **Neighbours.** `DiGraph.neighbors` yields successors only, so a node's examined neighbours are its successors. The incoming-edge check in `expand_subgraph` (app_using_llama.py:311, app_using_KG.py:244) therefore adds a triple only when edges exist in both directions.
- **Empty store.** With no edge embeddings, the llama retrieval returns a bare `[]` (app_using_llama.py:210), not a result whose best triple is `None`.
