# Graph rewriting core, modelled in Dafny

This project models the graph layer of a small state-space explorer for
planning problems. It proves properties of that model. The layer has these parts:

- **VertexMapping** (`Graph.py`): a two-way dictionary between vertex ids.
- **Edge**: a labelled, ordered tuple of vertices with a sign.
- **Graph**: a set of edges, with a vertex set `V` and an adjacency index
  `EdgeMap` kept alongside. Adding a negative edge cancels the matching
  positive one, and the other way round.
- **`Graph.match`**: searches for injective vertex mappings under which a
  pattern graph's edges are present.
- **Action** (`main.py`): rewrites a graph at every match of its input pattern.
- **AbstractGraph**: completes its concrete graph so that it contains a given
  graph. It matches every induced subgraph and invents vertices for the rest.
- **Node**: a node of the search tree, which composes parent mappings back to
  the root.

Layout, one module per file:

| file | module | contents |
|---|---|---|
| `wrappers.dfy` | `Wrappers` | `Option`, used for the paths that raise `KeyError` |
| `mappings.dfy` | `Mappings` | `Vertex`, `VertexMapping` as a value, its operations and algebra |
| `edges.dfy` | `Edges` | `Edge`, inversion, relabelling (`map_vertices`), cloning |
| `graph_spec.dfy` | `GraphSpec` | a Graph's state as a value, its invariant, closed forms of `add_edge` runs, the meaning of `match`, containment and equality |
| `graph.dfy` | `Graphs` | `class Graph` with fields `V`, `E`, `EdgeMap`; `VertexMapping.__call__` |
| `planning.dfy` | `Planning` | `Action`, `AbstractGraph`, `Node`, `itertools.combinations` |

How the model is set up:

- **Vertex ids.** A vertex is its id (a `nat`). The source draws fresh ids
  from the global counter `Vertex.ID`. Here every operation that invents
  vertices takes the counter as `nextId` and returns the advanced value
  `next'`.
- **Graph.** `Graph` is a class because `add_edge` and `remove_vertex` update
  its fields in place.
- **VertexMapping.** Its in-place `add_mapping` and `remove_mapping` return
  the updated value.
- **Graph invariant.** `GraphSpec.Valid` holds on every graph that the
  constructor, `add_edge`, `apply`, `clone`, `__or__` and `__getitem__`
  produce. It says four things:
  - no edge repeats a vertex;
  - no edge coexists with its negation;
  - `V` is exactly the set of vertices some edge mentions;
  - `EdgeMap[v]` is exactly the set of edges that mention `v`.

  Under this invariant a graph is determined by its edge set. The method
  contracts therefore state the new edge set in closed form, and the lemmas
  in `GraphSpec` say what that form means.

What is proved:

- **Edge sets.** `add_edge` cancels or inserts. A run of `add_edge` over a
  set of edges that holds no edge together with its negation gives the same
  edge set in any order. So do the constructor, for a list without such a
  pair, and `apply`. With such a pair the order matters: `[x, x, ~x]`
  ends with no edge at all, while `[x, ~x, x]` ends with `x`. For that case
  the model proves only that the result holds listed edges, including every
  edge whose negation is not listed (`GraphSpec.BuiltStep`).
- **`Graph.match`.** It returns every match, only matches, and each one once.
  A match is an injective map from the pattern's vertices into the graph's
  vertices under which every anchored pattern edge has its positive image
  present.
- **Signs in `match`.** The image edge that `match` builds (`Graph.py:172`)
  is always positive. Proved consequence: a graph that holds a negative edge
  contains no copy of itself, so `Graph.__eq__` is not reflexive on it
  (`GraphSpec.NegativeEdgeNotSelfEqual`). This holds under the model's
  reading of that image edge's vertex list as a real list (see "Left out").
  The code as written consumes that list when it hashes the edge, and then
  behaves differently: for `g = Graph([R(1,2), ~R(2,1)])`, `g == g` is true.
- **`Action.__call__`.** It rewrites the graph at exactly the matches of its
  input pattern.
- **`AbstractGraph.match`.** For every vertex subset `S` of `g` and every
  match of `g[S]`, the kept results include that completion or one equal to
  it. Every kept result is such a completion, and no two kept results are
  equal. The results come by non-decreasing size of `S`. The first is the
  empty subset's: `g` applied wholly by fresh vertices.
- **`remove_vertex`.** As written it breaks the index (see "Findings"). A
  corrected version that removes edges through the index keeps the graph
  valid.
- **Root mapping.** The mapping composes along the tree, stays inside the
  root graph, and is injective when every parent mapping is.

## Model

| member | source | states |
|---|---|---|
| Mappings.AddMapping | Graph.py:14-17 | AtoB becomes the old AtoB overwritten by `pairs`. Every new image gets a BtoA entry pointing back to one of its preimages in `pairs`. Old BtoA entries of other images are kept. |
| Mappings.AddedToEmpty | Graph.py:6-12 | `VertexMapping(mapping)` has exactly `mapping` as its forward direction. |
| Mappings.AddedKeepsValid | Graph.py:14-17 | Adding an injective dictionary with new keys and new images keeps AtoB and BtoA mutual inverses. |
| Mappings.ValidInjective | Graph.py:5-17 | Both directions of a consistent two-way mapping are one-to-one. |
| Mappings.AddFreshKeepsValid | Graph.py:97-98 | Mapping an uncovered vertex to the next fresh id sets exactly those two entries. The mapping stays consistent, and all ids stay below the bumped counter. |
| Mappings.RemoveMapping | Graph.py:19-23 | The loop computes exactly RemoveKeys, key by key. Listed keys leave AtoB and absent keys are ignored. On a consistent mapping, their images leave BtoA, nothing raises, and the result is consistent. |
| Mappings.RemoveKeysValid | Graph.py:19-23 | On a consistent mapping, removing keys one at a time equals removing the whole set of keys with their images at once. No KeyError occurs. |
| Mappings.RemoveKeysOnValid | Graph.py:19-23 | On a consistent mapping, remove_mapping succeeds with the set removal, and the result stays consistent. |
| Mappings.RemoveSharedImage | Graph.py:19-23 | On an inconsistent mapping where two keys share one image, the second deletion from BtoA raises KeyError (None). |
| Mappings.ContainsRemoved | Graph.py:19-26 | After a successful remove_mapping, `v in mapping` holds exactly when it held before and v was not a listed key. |
| Mappings.RemovedKeepsValid | Graph.py:19-23 | Removing any set of keys from a consistent mapping leaves it consistent. |
| Mappings.Contains | Graph.py:25-26 | `v in mapping` exactly when v is a forward key. |
| Mappings.Lookup | Graph.py:28-29 | `mapping[key]` is the forward image, or KeyError (None) exactly when the key is absent. |
| Mappings.LookupAdded | Graph.py:14-29 | After add_mapping, `v in mapping` holds exactly when v was covered or is an added key. `mapping[v]` is the added image for an added key, and the old lookup otherwise. |
| Mappings.LookupInverse | Graph.py:28-47 | On a consistent mapping, `(~m)[b] == a` exactly when `m[a] == b`. |
| Mappings.Compose | Graph.py:34-40 | `m1 * m2` is defined exactly on the keys whose image is a key of m2 and sends them through both. So `(m1 * m2)[a]` is `m2[m1[a]]`, with KeyError when either lookup fails. The result is built by add_mapping from empty. |
| Mappings.ComposeValid | Graph.py:34-40 | The product of two consistent mappings is consistent, and its backward direction is the product of the backward directions in the other order. |
| Mappings.ComposeAssociative | Graph.py:34-40 | Composition of the forward dictionaries is associative. |
| Mappings.ComposeWithInverse | Graph.py:34-47 | A consistent mapping times its inverse is the identity on its keys. |
| Mappings.Inverse | Graph.py:42-47 | `~m` swaps the two directions: its AtoB is m's BtoA and its BtoA is m's AtoB. |
| Mappings.InverseInvolutive | Graph.py:42-47 | Inverting twice gives the mapping back, and the inverse of a consistent mapping is consistent. |
| Mappings.ExtendsStep | Graph.py:96-99 | One step of map_vertices: a covered vertex leaves the mapping as it is. An uncovered one extends it injectively with the counter's id. |
| Mappings.ExtendsTrans | Graph.py:94-102 | Two successive map_vertices extensions compose into one extension over the union of the covered vertices. |
| Mappings.ExtendsInjective | Graph.py:94-102 | Extending an injective mapping whose images are below the counter keeps it injective. |
| Edges.Invert | Graph.py:120-123 | `~e` keeps the label and the vertex list and flips the sign. |
| Edges.InvertInvolutive | Graph.py:120-123 | `~~e == e`, and `~e` is never `e`. |
| Edges.CloneEdge | Graph.py:104-107 | A clone keeps label, sign and arity. Its vertices are pairwise distinct fresh ids in [nextId, nextId + arity). |
| Edges.MapVertices | Graph.py:94-102 | The edge is relabelled position by position through the extended mapping, keeping label and sign. The mapping is extended only by fresh ids for the edge's uncovered vertices and stays consistent. |
| Edges.MapSeqInjective | Graph.py:94-102 | Under an injective mapping, equal relabelled vertex lists come from equal lists. |
| GraphSpec.ValidMeans | Graph.py:126-154 | The Graph invariant means: no edge coexists with its negation, `EdgeMap[v]` is exactly the non-empty set of edges at v, and `V` is exactly the index's keys. |
| GraphSpec.ClosureValid | Graph.py:126-132 | Any contradiction-free set of edges with distinct vertices, indexed, is a valid graph. |
| GraphSpec.AddEdgeKeepsValid | Graph.py:140-154 | add_edge keeps the invariant. |
| GraphSpec.AddEdgeCancels | Graph.py:141-147 | Adding e when ~e is present removes ~e. Neither e nor ~e is present afterwards. An endpoint stays a vertex exactly when a remaining edge mentions it, and otherwise also leaves the index. |
| GraphSpec.AddEdgeInserts | Graph.py:148-154 | Adding e when ~e is absent makes e present and indexed under each endpoint. Re-adding a present edge changes nothing. |
| GraphSpec.AddThenCancel | Graph.py:140-154 | Adding an edge and then its negation restores the edge set. |
| GraphSpec.BuiltStep | Graph.py:126-132 | Each edge added by the constructor keeps: only listed edges present, and every listed edge whose negation is not listed present. |
| GraphSpec.BuiltExact | Graph.py:126-132 | If the list holds no edge together with its negation, the constructor's edge set is exactly the listed edges, in any order. |
| GraphSpec.AddAllStep | Graph.py:186-187 | The closed form of adding a set of edges grows by one add_edge, whatever the order. |
| GraphSpec.AddAllMeans | Graph.py:182-188 | After apply, an edge is present exactly when it was added and its negation was not present, or it was present and its negation was not added. |
| GraphSpec.AddAllNoContradiction | Graph.py:182-188 | Adding a contradiction-free set to a contradiction-free graph leaves no contradiction. |
| GraphSpec.RelabelledKeepsShape | Graph.py:31-32 | Relabelling through an injective map keeps an edge set contradiction-free and its edges free of repeated vertices. |
| GraphSpec.RelabelledAdd | Graph.py:31-32 | Relabelling one more edge adds exactly its image, and the image's negation is not among the other images. |
| GraphSpec.InjectionsMeans | Graph.py:164-167 | Zipping the pattern's vertex list with each permutation of V gives exactly the injective maps from the pattern's vertices into V. |
| GraphSpec.MatchNeedsRoom | Graph.py:162-163 | When the graph has fewer vertices than the pattern, no mapping is a match. |
| GraphSpec.EmptyPatternMatch | Graph.py:159-180 | The empty pattern has exactly one match: the empty mapping. |
| GraphSpec.MatchIsEdgewise | Graph.py:170-177 | On valid graphs, match's per-vertex check passes exactly when every pattern edge with a vertex has its positive image in E. Then the image's negation is not in E. |
| GraphSpec.InjectiveCard | Graph.py:164-167 | An injective map has as many images as keys, which is how the vertex-count guard relates to matches. |
| GraphSpec.NegativeEdgeBlocksSelfMatch | Graph.py:172-173 | Because the looked-up image edge is always positive, a graph holding a negative edge with a vertex has no match into itself. |
| GraphSpec.NegativeEdgeNotSelfEqual | Graph.py:196-197 | Such a graph is not `in` itself, and `g == g` is false. |
| Graphs.Graph.Empty | Graph.py:126-132 | `Graph([])` is valid and has no edges. |
| Graphs.Graph.FromEdges | Graph.py:126-132 | `Graph(edges)` is valid. Its edges are listed edges, including every one whose negation is not listed. It is exactly the listed edges when the list has no contradiction. |
| Graphs.Graph.Copy | Graph.py:185 | The deep copy has the same vertices, edges and index. |
| Graphs.Graph.RemoveVertex | Graph.py:134-138 | An absent vertex changes nothing. A present one leaves V, and the edges indexed under it leave E. EdgeMap is left as it was, except that a missing entry is created empty. |
| Graphs.RemoveVertexBreaksIndex | Graph.py:134-138 | On a valid graph, remove_vertex removes exactly the edges mentioning v but leaves the graph invalid: its index still holds v. |
| Graphs.Graph.RemoveVertexKeepingIndex | Graph.py:134-138 | Corrected remove_vertex: the edges mentioning v are removed and v leaves V. The graph stays valid. |
| Graphs.NotMentioned | Graph.py:126-154 | In a valid graph, a vertex that no edge mentions is not in V. |
| Graphs.Graph.AddEdge | Graph.py:140-154 | The graph stays valid and its edge set is the cancel-or-insert closed form. |
| Graphs.Graph.Cancel | Graph.py:141-147 | The first branch removes ~e from E and from each endpoint's index, dropping endpoints left without edges. The result is again valid. |
| Graphs.Graph.Insert | Graph.py:148-154 | The second branch adds e to E, V and each endpoint's index. The result is again valid. |
| Graphs.Graph.AddAll | Graph.py:186-187 | Adding a contradiction-free set edge by edge gives the closed form of apply and keeps the graph valid. |
| Graphs.SetToSeq | Graph.py:164 | `list(s)` holds every element of the set exactly once. |
| Graphs.Permutations | Graph.py:164-167 | The candidate mappings are exactly the injective maps from the pattern's vertices into V. |
| Graphs.Graph.VertexConsistent | Graph.py:170-175 | The inner loop at pattern vertex v1 passes exactly when, for every pattern edge at v1, the positive image is indexed under v1's image and its negation is not. |
| Graphs.Graph.CheckVertices | Graph.py:170-177 | The loop over the pattern's vertices passes exactly when every vertex passes. |
| Graphs.Graph.Candidate | Graph.py:167-177 | One candidate builds a consistent VertexMapping with exactly the zipped pairs. Its flag is the consistency check over all pattern vertices. |
| Graphs.Graph.Match | Graph.py:159-180 | Every yielded mapping is consistent and a match. Every match is yielded, and no mapping twice. |
| Graphs.Graph.Contains | Graph.py:156-157 | `other in g` exactly when some match exists. |
| Graphs.Graph.Equals | Graph.py:196-197 | `g == other` exactly when each contains the other. |
| Graphs.Relabel | Graph.py:31-32 | `mapping(g)` is a valid graph of g's edges relabelled through the extended mapping. The extension covers g's vertices, adds only fresh ids, and stays consistent. |
| Graphs.Graph.Apply | Graph.py:182-188 | A new valid graph: this graph's edges with the relabelled edges of `other` added by add_edge. The mapping is extended with fresh ids for `other`'s uncovered vertices. |
| Graphs.Graph.Clone | Graph.py:190-191 | A new valid graph with one clone per edge: same label, sign and arity, all-fresh distinct vertices, distinct edges giving distinct clones. |
| Graphs.Graph.Or | Graph.py:208-209 | A new valid graph: this graph's edges with a clone of `other`'s edges added. |
| Graphs.Graph.GetItem | Graph.py:211-219 | KeyError (None) exactly when a listed vertex is not in V. Otherwise a new valid graph of the edges that mention a listed vertex and lie within the list. |
| Graphs.Graph.CollectAt | Graph.py:216-218 | The edges at v that lie within the list are collected, and nothing else is added. |
| Planning.Action.constructor | main.py:16-18 | An action keeps the given input and output patterns. |
| Planning.Action.Call | main.py:20-22 | There is one valid new graph per match of Input in g, and the matches are all of them, each once. Each graph is g with Output applied through an extension of its match by fresh ids. |
| Planning.ApplyEach | main.py:21-22 | The k-th result applies the output pattern through an extension of the k-th match, with the counter running on from one result to the next. |
| Planning.Combinations | main.py:38 | `itertools.combinations(xs, r)` in its documented order: those starting with xs[0] first, then those without it. There are none exactly when r exceeds the list's length. |
| Planning.CombinationsSound | main.py:38 | Each r-combination has r positions taken from the list. For a repeat-free list, they are r different vertices. |
| Planning.CombinationsComplete | main.py:38 | Every vertex subset of a repeat-free list is the vertex set of one of its combinations of that size. |
| Planning.AbstractGraph.constructor | main.py:25-28 | Without a graph, an abstract graph starts from a new, valid, empty one. |
| Planning.AbstractGraph.PatternMatches | main.py:39-40 | `ConcreteGraph.match(g[combo])` yields exactly the matches of the subgraph that the combination induces. |
| Planning.Seen | main.py:45 | With the constant Graph hash, set membership is Graph equality against the kept graphs. It reports where an equal graph is, or that none is equal. |
| Planning.AbstractGraph.Offer | main.py:44-47 | Apply g through one match, then keep the result unless an equal one is kept. The kept results stay sound, and this match is realised. |
| Planning.AbstractGraph.TryCombo | main.py:39-47 | After one combination, every match of the induced subgraph is realised among the kept results. |
| Planning.AbstractGraph.TrySize | main.py:38-47 | After all combinations of size r, every r-element vertex set of g is covered. |
| Planning.AbstractGraph.Match | main.py:30-47 | Every kept result is a valid completion: C with g applied through an extension, by fresh ids, of a match of some induced subgraph g[S]. No two kept results are equal. For every S and every match of g[S], some kept result is that completion or equals it. Results come by non-decreasing size of S. The first comes from S = {} and the empty match: C with all of g applied by fresh ids. |
| Planning.SizesDoneStep | main.py:37-47 | One more round of `for r in range(len(g.V) + 1)` covers the patterns of size r. The results gained come from sets of size r, after those from smaller sets. |
| Planning.FirstFromEmpty | main.py:37-47 | Round r = 0 keeps a result, and the first kept result comes from the empty subset with the empty match. |
| Planning.GetRootMapping | main.py:62-71 | It returns the root's concrete graph and the mapping that composes each ParentMapping with the parent's root mapping, starting from the identity on the root graph. |
| Planning.RootMapInto | main.py:62-71 | The root mapping only reaches vertices of the root graph. |
| Planning.RootMapKeys | main.py:62-71 | At the root, the mapping covers exactly the root graph's vertices. Below it, it covers a vertex exactly when the parent's mapping covers its parent image. |
| Planning.RootMapInjective | main.py:62-71 | If every ParentMapping on the way up is one-to-one, the root mapping is one-to-one. |
| Planning.RootMapTwoSteps | main.py:66-71 | Two levels compose as one: the grandparent mapping composed with the two parent mappings in sequence. |

## Findings

| source | as written | input that shows it | evidently intended | confidence | as-written member | corrected member |
|---|---|---|---|---|---|---|
| Graph.py:134-138 | `remove_vertex` removes `v` from `V` and the edges at `v` from `E`, but leaves them in `EdgeMap` and in the other endpoints' entries. | `g = Graph([R(1,2)])`, then `g.remove_vertex(1)`: `V == {2}` and `E == {}`, but `EdgeMap[1]` and `EdgeMap[2]` still hold `R(1,2)`. Vertex 2 has no edge and stays in V. | The graph stays consistent: every edge at `v` is removed through the index, and any endpoint left without edges goes too. | not executed | Graphs.RemoveVertexBreaksIndex | Graphs.Graph.RemoveVertexKeepingIndex |

## Left out

- Python generators (`match`, `Action.__call__`, `AbstractGraph.match`) are
  modelled as the complete sequence of what they yield. Laziness, and the
  early exit of `any()` in `__contains__`, are not modelled.
- The image edge at `Graph.py:172` is given a generator as its vertex list.
  Hashing that edge consumes the generator, so the later equality test and
  `~e` see an empty list. The model treats the image's vertex list as a
  real list, which is evidently what the code means.
- Edge `__eq__` compares vertex lists with `zip`, i.e. only up to the
  shorter one. The model uses structural equality, which agrees when every
  label is used with a single arity. The hash functions of Edge and Graph
  are not modelled. The constant Graph hash is reflected only in `Seen`,
  where set membership becomes an equality scan.
- Iteration order of Python sets and dictionaries is not fixed by the
  model. Every loop picks an arbitrary remaining element, and the contracts
  hold for every order. Only `Combinations` fixes its order, the one
  itertools documents.
- Aliasing is not modelled. `__invert__` makes the new mapping share its
  two dictionaries with the original, and `map_vertices` extends the caller's
  mapping in place. Mappings here are values, and the extended mapping is
  returned. `VertexMapping.clone` (a deepcopy) is the identity on values and
  has no member.
- The global `Vertex.ID` counter is an explicit `nextId` parameter.
  `Vertex.__new__(n)` returning a list and the `Vertex` class itself are not
  modelled: a vertex is its number.
- Planning.Action.Call: requires every vertex of `g` to be below `nextId`,
  which the global counter guarantees in the source. The same holds for
  Planning.AbstractGraph.Match and the concrete graph's vertices.
- Graphs.Graph.AddEdge: requires the edge's vertices to be distinct. The
  source accepts a repeated vertex on insertion, but the later cancellation
  of such an edge fails with a KeyError on the second removal from
  `EdgeMap`. The invariant therefore excludes such edges, and so do
  Graphs.Graph.FromEdges and the methods built on them.
- Graphs.Graph.RemoveVertex: requires the edges indexed under `v` to be in
  `E`. Otherwise the source raises KeyError part-way through the loop. On a
  valid graph the requirement always holds.
- Reads of a missing defaultdict key inside `match` are modelled as reading
  an empty set without creating the entry. On valid graphs the keys are
  always present.
- `__str__`, `__repr__` and `__iter__` are not modelled; they are printing
  and plain iteration.
- The `__main__` demonstrations of both files are not modelled.
- `Constraint` and `AbstractStateExplorer` (main.py:5-13, 74-96) are not
  modelled. They are unfinished: `falsified_by` has no body and
  `compile` refers to undefined names.
- `Node.__init__` is the `Node` datatype's constructor, and
  `ParentMapping` is taken to be a dictionary.
