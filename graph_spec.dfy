/**
 The state of a Graph of Graph.py as a value (its fields V, E and EdgeMap),
 the invariant the class keeps, the closed forms of what add_edge and its
 loops do to E, and the meaning of Graph.match and the relations built on it
 (containment and equality).
 */
module GraphSpec {
  import opened Mappings
  import opened Edges

  datatype GraphState = GraphState(V: set<Vertex>, E: set<Edge>, EdgeMap: map<Vertex, set<Edge>>)

  /** The edges of E that mention v. */
  function Incident(E: set<Edge>, v: Vertex): set<Edge> {
    set e | e in E && v in e.Vertices
  }

  /** The vertices some edge of E mentions. */
  function VerticesOf(E: set<Edge>): set<Vertex> {
    set e, v | e in E && v in e.Vertices :: v
  }

  /** The adjacency index of E: every mentioned vertex to its incident edges. */
  function IndexOf(E: set<Edge>): map<Vertex, set<Edge>> {
    map v | v in VerticesOf(E) :: Incident(E, v)
  }

  /** No edge coexists with its negation. */
  predicate NoContradiction(E: set<Edge>) {
    forall e :: e in E ==> Invert(e) !in E
  }

  /** add_edge's cancellation fails on an edge that repeats a vertex, so every
      edge the model adds has distinct vertices. */
  predicate DistinctVertices(E: set<Edge>) {
    forall e :: e in E ==> Distinct(e.Vertices)
  }

  /** The graph whose edges are E, with V and EdgeMap derived from them. */
  function Closure(E: set<Edge>): GraphState {
    GraphState(VerticesOf(E), E, IndexOf(E))
  }

  /** The invariant every Graph operation except remove_vertex keeps. */
  predicate Valid(s: GraphState) {
    DistinctVertices(s.E) && NoContradiction(s.E) && s == Closure(s.E)
  }

  /** Valid in the three parts the class promises: no contradiction; EdgeMap[v]
      is exactly the edges of E that mention v; V is exactly EdgeMap's keys. */
  lemma ValidMeans(s: GraphState)
    requires Valid(s)
    ensures forall e :: e in s.E ==> Invert(e) !in s.E
    ensures forall v :: v in s.EdgeMap ==> s.EdgeMap[v] == Incident(s.E, v) && s.EdgeMap[v] != {}
    ensures s.V == s.EdgeMap.Keys
    ensures forall e, v :: e in s.E && v in e.Vertices ==> v in s.V && e in s.EdgeMap[v]
  {
    forall v | v in s.EdgeMap ensures s.EdgeMap[v] != {} {
      var e :| e in s.E && v in e.Vertices;
      assert e in Incident(s.E, v);
    }
  }

  lemma ClosureValid(E: set<Edge>)
    requires DistinctVertices(E) && NoContradiction(E)
    ensures Valid(Closure(E))
  {
  }

  // ---------------------------------------------------------------- add_edge

  /** The edge set add_edge leaves: the negation of `e` cancels against `e`,
      otherwise `e` is inserted (a no-op when it is already there). */
  function AddEdgeE(E: set<Edge>, e: Edge): set<Edge> {
    if Invert(e) in E then E - {Invert(e)} else E + {e}
  }

  lemma AddEdgeKeepsValid(s: GraphState, e: Edge)
    requires Valid(s) && Distinct(e.Vertices)
    ensures Valid(Closure(AddEdgeE(s.E, e)))
  {
    var E' := AddEdgeE(s.E, e);
    if Invert(e) !in s.E {
      forall x | x in E' ensures Invert(x) !in E' {
        InvertInvolutive(x);
        InvertInvolutive(e);
      }
    }
    ClosureValid(E');
  }

  /** Cancellation: when the negation of `e` is present, neither `e` nor its
      negation is there afterwards, and an endpoint of `e` stays a vertex
      exactly when some remaining edge still mentions it. */
  lemma AddEdgeCancels(s: GraphState, e: Edge)
    requires Valid(s) && Invert(e) in s.E
    ensures var t := Closure(AddEdgeE(s.E, e));
      && t.E == s.E - {Invert(e)}
      && e !in t.E && Invert(e) !in t.E
      && (forall v :: v in e.Vertices ==> (v in t.V <==> Incident(t.E, v) != {}))
      && (forall v :: v in e.Vertices && v !in t.V ==> v !in t.EdgeMap)
  {
    var t := Closure(AddEdgeE(s.E, e));
    forall v | v in e.Vertices ensures v in t.V <==> Incident(t.E, v) != {} {
      if Incident(t.E, v) != {} {
        var x :| x in Incident(t.E, v);
        assert v in VerticesOf(t.E);
      }
    }
  }

  /** Insertion: when the negation of `e` is absent, `e` is present afterwards,
      its vertices are vertices and index it; adding a present edge changes
      nothing. */
  lemma AddEdgeInserts(s: GraphState, e: Edge)
    requires Valid(s) && Invert(e) !in s.E
    ensures var t := Closure(AddEdgeE(s.E, e));
      && t.E == s.E + {e}
      && (forall v :: v in e.Vertices ==> v in t.V && v in t.EdgeMap && e in t.EdgeMap[v])
      && (e in s.E ==> t == s)
  {
  }

  /** Adding an edge and then its negation restores the edge set. */
  lemma AddThenCancel(E: set<Edge>, e: Edge)
    requires e !in E && Invert(e) !in E
    ensures AddEdgeE(AddEdgeE(E, e), Invert(e)) == E
  {
    InvertInvolutive(e);
  }

  /** What Graph(edges) leaves, whatever the order of `edges`: only edges of
      D, among them every edge of D whose negation is not in D. */
  predicate Built(E: set<Edge>, D: set<Edge>) {
    E <= D && forall x :: x in D && Invert(x) !in D ==> x in E
  }

  /** One more add_edge from the list keeps Built, even for a repeated edge. */
  lemma BuiltStep(E: set<Edge>, D: set<Edge>, x: Edge)
    requires Built(E, D)
    ensures Built(AddEdgeE(E, x), D + {x})
  {
    InvertInvolutive(x);
    forall y | y in D + {x} && Invert(y) !in D + {x} ensures y in AddEdgeE(E, x) {
      InvertInvolutive(y);
      if y != x {
        assert y in E;
      }
    }
  }

  /** Without contradicting edges in the list, Graph(edges) holds exactly its edges. */
  lemma BuiltExact(E: set<Edge>, D: set<Edge>)
    requires Built(E, D) && NoContradiction(D)
    ensures E == D
  {
  }

  // --------------------------------------------------- adding a set of edges

  function InvertAll(X: set<Edge>): set<Edge> {
    set x | x in X :: Invert(x)
  }

  /** The edge set after add_edge was called once for every edge of X, in any
      order, when X holds no edge together with its negation: the negations of
      X that were present are cancelled, the rest of X is inserted. */
  function AddAllE(E: set<Edge>, X: set<Edge>): set<Edge> {
    (E - InvertAll(X)) + (set x | x in X && Invert(x) !in E)
  }

  /** One more add_edge extends the closed form by one edge, whatever the order. */
  lemma AddAllStep(E: set<Edge>, D: set<Edge>, x: Edge)
    requires x !in D && Invert(x) !in D
    ensures AddEdgeE(AddAllE(E, D), x) == AddAllE(E, D + {x})
  {
    InvertInvolutive(x);
    var A := AddAllE(E, D);
    var B := AddAllE(E, D + {x});
    assert InvertAll(D + {x}) == InvertAll(D) + {Invert(x)};
    if Invert(x) in E {
      assert Invert(x) in A;
      forall y | y in A - {Invert(x)} ensures y in B {
        if y in D {
          InvertInvolutive(y);
        }
      }
      forall y | y in B ensures y in A - {Invert(x)} {
        InvertInvolutive(y);
        if y in InvertAll(D) {
          var z :| z in D && Invert(z) == y;
          InvertInvolutive(z);
        }
      }
    } else {
      forall z | z in D ensures Invert(z) != Invert(x) {
        InvertInvolutive(z);
      }
      assert Invert(x) !in A;
    }
  }

  lemma AddAllNothing(E: set<Edge>)
    ensures AddAllE(E, {}) == E
  {
  }

  lemma AddAllToEmpty(X: set<Edge>)
    ensures AddAllE({}, X) == X
  {
  }

  /** Adding a contradiction-free set of edges to a contradiction-free graph
      leaves it contradiction-free. */
  lemma AddAllNoContradiction(E: set<Edge>, X: set<Edge>)
    requires NoContradiction(E) && NoContradiction(X)
    ensures NoContradiction(AddAllE(E, X))
  {
    var R := AddAllE(E, X);
    forall y | y in R ensures Invert(y) !in R {
      InvertInvolutive(y);
      if y in X {
        assert Invert(y) !in X;
      }
      if Invert(y) in InvertAll(X) {
        var z :| z in X && Invert(z) == Invert(y);
        InvertInvolutive(z);
      }
    }
  }

  /** Edge by edge: after adding X, an edge of X is there unless it met its
      negation in E, and an edge of E stays unless X brought its negation. */
  lemma AddAllMeans(E: set<Edge>, X: set<Edge>, e: Edge)
    ensures e in AddAllE(E, X) <==> (e in X && Invert(e) !in E) || (e in E && Invert(e) !in X)
  {
    InvertInvolutive(e);
    if Invert(e) in X {
      assert e in InvertAll(X);
    }
    if e in InvertAll(X) {
      var z :| z in X && Invert(z) == e;
      InvertInvolutive(z);
    }
  }

  // ------------------------------------------------------------- relabelling

  /** The edges of E relabelled through f. */
  function Relabelled(E: set<Edge>, f: map<Vertex, Vertex>): set<Edge> {
    set e | e in E && Covers(f, e.Vertices) :: MapEdge(e, f)
  }

  /** An injective relabelling keeps a contradiction-free set of edges with
      distinct vertices so. */
  lemma RelabelledKeepsShape(E: set<Edge>, f: map<Vertex, Vertex>)
    requires Injective(f) && NoContradiction(E) && DistinctVertices(E)
    ensures NoContradiction(Relabelled(E, f)) && DistinctVertices(Relabelled(E, f))
  {
    var R := Relabelled(E, f);
    forall y | y in R ensures Invert(y) !in R && Distinct(y.Vertices) {
      var e :| e in E && Covers(f, e.Vertices) && MapEdge(e, f) == y;
      MapSeqDistinct(f, e.Vertices);
      assert Invert(e) !in E;
      forall d | d in E && Covers(f, d.Vertices) ensures MapEdge(d, f) != Invert(y) {
        if MapSeq(d.Vertices, f) == MapSeq(e.Vertices, f) {
          MapSeqInjective(f, d.Vertices, e.Vertices);
        }
      }
    }
  }

  lemma VerticesOfAdd(E: set<Edge>, e: Edge)
    ensures VerticesOf(E + {e}) == VerticesOf(E) + SeqSet(e.Vertices)
  {
  }

  /** Relabelling through an extension changes nothing on covered edges. */
  lemma RelabelledAgree(E: set<Edge>, f: map<Vertex, Vertex>, g: map<Vertex, Vertex>)
    requires forall e :: e in E ==> Covers(f, e.Vertices)
    requires forall k :: k in f ==> k in g && g[k] == f[k]
    ensures Relabelled(E, f) == Relabelled(E, g)
  {
    forall e | e in E ensures Covers(g, e.Vertices) && MapEdge(e, g) == MapEdge(e, f) {
      MapSeqAgrees(f, g, e.Vertices);
    }
  }

  /** One more relabelled edge; its negation is not among the others. */
  lemma RelabelledAdd(E: set<Edge>, e: Edge, f: map<Vertex, Vertex>)
    requires Covers(f, e.Vertices) && Injective(f)
    requires NoContradiction(E + {e}) && DistinctVertices(E + {e})
    ensures Relabelled(E + {e}, f) == Relabelled(E, f) + {MapEdge(e, f)}
    ensures Invert(MapEdge(e, f)) !in Relabelled(E, f)
  {
    RelabelledKeepsShape(E + {e}, f);
    assert MapEdge(e, f) in Relabelled(E + {e}, f);
    assert Relabelled(E, f) <= Relabelled(E + {e}, f);
  }

  // --------------------------------------------------------------- subgraphs

  /** The edges __getitem__ collects for the vertices S: those that mention
      some vertex of S (so not the edges without vertices) and whose vertices
      all lie in S. */
  function Induced(E: set<Edge>, S: set<Vertex>): (r: set<Edge>)
    ensures r <= E
  {
    set e | e in E && e.Vertices != [] && forall w :: w in e.Vertices ==> w in S
  }

  // ---------------------------------------------------------------- matching

  /** Every injective map from the list `dom` into `cod`: the mappings that
      zipping `dom` with the permutations of `cod` of length |dom| produces. */
  function Injections(dom: seq<Vertex>, cod: set<Vertex>): set<map<Vertex, Vertex>>
    decreases |dom|
  {
    if dom == [] then {map[]}
    else set mu, y | mu in Injections(dom[1..], cod) && y in cod && y !in mu.Values :: mu[dom[0] := y]
  }

  /** Every member of Injections(dom, cod) is injective from dom into cod. */
  lemma {:induction false} InjectionsSound(dom: seq<Vertex>, cod: set<Vertex>, mu: map<Vertex, Vertex>)
    requires Distinct(dom) && mu in Injections(dom, cod)
    ensures mu.Keys == SeqSet(dom) && Injective(mu) && mu.Values <= cod
    decreases |dom|
  {
    if dom == [] {
      assert SeqSet(dom) == {};
    } else {
      var d, rest := dom[0], dom[1..];
      assert SeqSet(dom) == {d} + SeqSet(rest) by {
        assert dom == [d] + rest;
      }
      var mu', y := InjectionsPick(dom, cod, mu);
      InjectionsSound(rest, cod, mu');
      InjectOne(mu', SeqSet(rest), cod, d, y);
    }
  }

  /** A member of Injections for a non-empty list is one for its tail with
      the head sent to a fresh image. */
  lemma InjectionsPick(dom: seq<Vertex>, cod: set<Vertex>, mu: map<Vertex, Vertex>)
    returns (mu': map<Vertex, Vertex>, y: Vertex)
    requires dom != [] && mu in Injections(dom, cod)
    ensures mu' in Injections(dom[1..], cod) && y in cod && y !in mu'.Values && mu == mu'[dom[0] := y]
  {
    mu', y :| mu' in Injections(dom[1..], cod) && y in cod && y !in mu'.Values && mu == mu'[dom[0] := y];
  }

  /** Sending a new key to a fresh image keeps a map injective. */
  lemma InjectOne(mu: map<Vertex, Vertex>, K: set<Vertex>, cod: set<Vertex>, d: Vertex, y: Vertex)
    requires mu.Keys == K && Injective(mu) && mu.Values <= cod
    requires d !in K && y in cod && y !in mu.Values
    ensures mu[d := y].Keys == {d} + K && Injective(mu[d := y]) && mu[d := y].Values <= cod
  {
    ValuesOfUpdate(mu, d, y);
  }

  /** `f` without the key `k`; for an injective `f`, the image of `k` is then
      no longer an image. */
  function WithoutKey(f: map<Vertex, Vertex>, k: Vertex): (r: map<Vertex, Vertex>)
    requires k in f
    ensures r.Keys == f.Keys - {k} && r.Values <= f.Values
    ensures forall j :: j in r ==> r[j] == f[j]
    ensures f == r[k := f[k]]
    ensures Injective(f) ==> Injective(r) && f[k] !in r.Values
  {
    map j | j in f && j != k :: f[j]
  }

  /** Every injective map from dom into cod is in Injections(dom, cod). */
  lemma {:induction false} InjectionsComplete(dom: seq<Vertex>, cod: set<Vertex>, mu: map<Vertex, Vertex>)
    requires Distinct(dom) && mu.Keys == SeqSet(dom) && Injective(mu) && mu.Values <= cod
    ensures mu in Injections(dom, cod)
    decreases |dom|
  {
    if dom == [] {
      assert mu == map[];
    } else {
      var d, rest := dom[0], dom[1..];
      assert SeqSet(dom) == {d} + SeqSet(rest) by {
        assert dom == [d] + rest;
      }
      var mu' := WithoutKey(mu, d);
      var y := mu[d];
      InjectionsComplete(rest, cod, mu');
      assert mu == mu'[d := y];
      assert mu' in Injections(rest, cod) && y in cod && y !in mu'.Values;
    }
  }

  /** Injections(dom, cod) is exactly the set of injective maps from dom into cod. */
  lemma InjectionsMeans(dom: seq<Vertex>, cod: set<Vertex>, mu: map<Vertex, Vertex>)
    requires Distinct(dom)
    ensures mu in Injections(dom, cod) <==> mu.Keys == SeqSet(dom) && Injective(mu) && mu.Values <= cod
  {
    if mu in Injections(dom, cod) {
      InjectionsSound(dom, cod, mu);
    }
    if mu.Keys == SeqSet(dom) && Injective(mu) && mu.Values <= cod {
      InjectionsComplete(dom, cod, mu);
    }
  }

  /** The check match performs for the pattern edge e1 at the image x of one
      of its vertices: the positive image edge is among x's incident edges and
      its negation is not. */
  predicate ImageOk(s: GraphState, e1: Edge, mu: map<Vertex, Vertex>, x: Vertex) {
    && Covers(mu, e1.Vertices)
    && x in s.EdgeMap
    && PosImage(e1, mu) in s.EdgeMap[x]
    && Invert(PosImage(e1, mu)) !in s.EdgeMap[x]
  }

  /** The inner loop of match for one pattern vertex v1. */
  predicate VertexOk(s: GraphState, p: GraphState, mu: map<Vertex, Vertex>, v1: Vertex)
    requires v1 in mu
  {
    v1 in p.EdgeMap ==> forall e1 :: e1 in p.EdgeMap[v1] ==> ImageOk(s, e1, mu, mu[v1])
  }

  /** The `consistent` flag of match. */
  predicate Consistent(s: GraphState, p: GraphState, mu: map<Vertex, Vertex>) {
    forall v1 :: v1 in p.V && v1 in mu ==> VertexOk(s, p, mu, v1)
  }

  /** A mapping match(p) yields on s: injective from p.V into s.V, and consistent. */
  predicate IsMatch(s: GraphState, p: GraphState, mu: map<Vertex, Vertex>) {
    mu.Keys == p.V && Injective(mu) && mu.Values <= s.V && Consistent(s, p, mu)
  }

  /** Graph.__contains__: `p in s`. */
  ghost predicate Contains(s: GraphState, p: GraphState) {
    exists mu :: IsMatch(s, p, mu)
  }

  /** Graph.__eq__: containment both ways. */
  ghost predicate GraphEq(a: GraphState, b: GraphState) {
    Contains(a, b) && Contains(b, a)
  }

  /** An injective map has as many images as keys. */
  lemma {:induction false} InjectiveCard(f: map<Vertex, Vertex>)
    requires Injective(f)
    ensures |f.Values| == |f.Keys|
    decreases |f.Keys|
  {
    if f.Keys != {} {
      var k :| k in f;
      var g := map j | j in f && j != k :: f[j];
      assert g.Keys == f.Keys - {k};
      InjectiveCard(g);
      forall y | y in f.Values ensures y in g.Values + {f[k]} {
        var j :| j in f && f[j] == y;
        if j != k {
          assert g[j] == y;
        }
      }
      forall y | y in g.Values ensures y in f.Values && y != f[k] {
        var j :| j in g && g[j] == y;
        assert f[j] == y;
      }
      assert f.Values == g.Values + {f[k]};
    }
  }

  lemma SubsetCard<T>(A: set<T>, B: set<T>)
    requires A <= B
    ensures |A| <= |B|
    ensures A < B ==> |A| < |B|
  {
    assert B == A + (B - A);
    assert A * (B - A) == {};
  }

  /** match yields nothing when the pattern has more vertices than the graph. */
  lemma MatchNeedsRoom(s: GraphState, p: GraphState, mu: map<Vertex, Vertex>)
    requires |s.V| < |p.V|
    ensures !IsMatch(s, p, mu)
  {
    if mu.Keys == p.V && Injective(mu) && mu.Values <= s.V {
      InjectiveCard(mu);
      SubsetCard(mu.Values, s.V);
    }
  }

  /** The empty pattern has exactly one match, the empty mapping. */
  lemma EmptyPatternMatch(s: GraphState, p: GraphState, mu: map<Vertex, Vertex>)
    requires p.V == {}
    ensures IsMatch(s, p, mu) <==> mu == map[]
  {
  }

  /** On valid graphs the per-vertex check of match says, edge by edge, that
      every pattern edge with a vertex has its positive image in s and
      (therefore) not its negation. Edges without vertices are never looked at. */
  lemma MatchIsEdgewise(s: GraphState, p: GraphState, mu: map<Vertex, Vertex>)
    requires Valid(s) && Valid(p) && mu.Keys == p.V && mu.Values <= s.V
    ensures Consistent(s, p, mu) <==>
            (forall e1 :: e1 in p.E && e1.Vertices != [] ==> Covers(mu, e1.Vertices) && PosImage(e1, mu) in s.E)
    ensures Consistent(s, p, mu) ==>
            (forall e1 :: e1 in p.E && e1.Vertices != [] ==> Covers(mu, e1.Vertices) && Invert(PosImage(e1, mu)) !in s.E)
  {
    assert forall e1 :: e1 in p.E ==> Covers(mu, e1.Vertices) by {
      forall e1, v | e1 in p.E && v in e1.Vertices ensures v in mu {
        assert v in VerticesOf(p.E);
      }
    }
    if Consistent(s, p, mu) {
      forall e1 | e1 in p.E && e1.Vertices != []
        ensures PosImage(e1, mu) in s.E && Invert(PosImage(e1, mu)) !in s.E
      {
        var v1 := e1.Vertices[0];
        assert v1 in VerticesOf(p.E);
        assert e1 in p.EdgeMap[v1];
        assert VertexOk(s, p, mu, v1);
        assert ImageOk(s, e1, mu, mu[v1]);
        assert PosImage(e1, mu) in s.E;
      }
    }
    if forall e1 :: e1 in p.E && e1.Vertices != [] ==> Covers(mu, e1.Vertices) && PosImage(e1, mu) in s.E {
      forall v1 | v1 in p.V && v1 in mu ensures VertexOk(s, p, mu, v1) {
        forall e1 | v1 in p.EdgeMap && e1 in p.EdgeMap[v1] ensures ImageOk(s, e1, mu, mu[v1]) {
          var img := PosImage(e1, mu);
          assert e1 in p.E && v1 in e1.Vertices;
          var i :| 0 <= i < |e1.Vertices| && e1.Vertices[i] == v1;
          assert img.Vertices[i] == mu[v1];
          assert mu[v1] in VerticesOf(s.E);
          assert img in Incident(s.E, mu[v1]);
        }
      }
    }
  }

  /** The edges of g that mention a vertex. */
  function Anchored(E: set<Edge>): set<Edge> {
    set e | e in E && e.Vertices != []
  }

  /** The positive images of the anchored edges of g under mu. */
  function PosImages(E: set<Edge>, mu: map<Vertex, Vertex>): set<Edge> {
    set e | e in Anchored(E) && Covers(mu, e.Vertices) :: PosImage(e, mu)
  }

  /** Distinct anchored edges of a contradiction-free set have distinct
      positive images under an injective mapping, so there are as many images
      as edges. */
  lemma {:induction false} PosImagesCard(E: set<Edge>, mu: map<Vertex, Vertex>)
    requires NoContradiction(E) && Injective(mu)
    requires forall e :: e in E ==> Covers(mu, e.Vertices)
    ensures |PosImages(E, mu)| == |Anchored(E)|
    decreases |E|
  {
    if E != {} {
      var e :| e in E;
      var E' := E - {e};
      PosImagesCard(E', mu);
      if e.Vertices == [] {
        UnanchoredSkip(E, mu, e);
      } else {
        AnchoredAdd(E, e);
        PosImagesAdd(E, mu, e);
        PosImageFresh(E, mu, e);
        AddOneCard(Anchored(E'), e);
        AddOneCard(PosImages(E', mu), PosImage(e, mu));
      }
    }
  }

  lemma AddOneCard<T>(A: set<T>, x: T)
    requires x !in A
    ensures |A + {x}| == |A| + 1
  {
  }

  lemma UnanchoredSkip(E: set<Edge>, mu: map<Vertex, Vertex>, e: Edge)
    requires e.Vertices == []
    ensures Anchored(E) == Anchored(E - {e}) && PosImages(E, mu) == PosImages(E - {e}, mu)
  {
  }

  lemma AnchoredAdd(E: set<Edge>, e: Edge)
    requires e in E && e.Vertices != []
    ensures Anchored(E) == Anchored(E - {e}) + {e} && e !in Anchored(E - {e})
  {
  }

  lemma PosImagesAdd(E: set<Edge>, mu: map<Vertex, Vertex>, e: Edge)
    requires e in E && e.Vertices != [] && Covers(mu, e.Vertices)
    ensures PosImages(E, mu) == PosImages(E - {e}, mu) + {PosImage(e, mu)}
  {
  }

  /** No other anchored edge has the image of `e`. */
  lemma PosImageFresh(E: set<Edge>, mu: map<Vertex, Vertex>, e: Edge)
    requires NoContradiction(E) && Injective(mu) && e in E
    requires forall d :: d in E ==> Covers(mu, d.Vertices)
    ensures PosImage(e, mu) !in PosImages(E - {e}, mu)
  {
    forall d | d in Anchored(E - {e}) ensures PosImage(d, mu) != PosImage(e, mu) {
      if MapSeq(d.Vertices, mu) == MapSeq(e.Vertices, mu) {
        MapSeqInjective(mu, d.Vertices, e.Vertices);
        assert d.Label != e.Label || d.Neg != e.Neg;
        assert d != Invert(e);
      }
    }
  }

  /** The anchored positive edges of E. */
  function PositiveAnchored(E: set<Edge>): set<Edge> {
    set e | e in Anchored(E) && !e.Neg
  }

  /** A consistent self-mapping sends the anchored edges onto positive ones. */
  lemma SelfMatchImagesPositive(g: GraphState, mu: map<Vertex, Vertex>)
    requires Valid(g) && mu.Keys == g.V && mu.Values <= g.V
    ensures Consistent(g, g, mu) ==> PosImages(g.E, mu) <= PositiveAnchored(g.E)
  {
    MatchIsEdgewise(g, g, mu);
    if Consistent(g, g, mu) {
      forall x | x in PosImages(g.E, mu) ensures x in PositiveAnchored(g.E) {
        var e :| e in Anchored(g.E) && Covers(mu, e.Vertices) && PosImage(e, mu) == x;
        assert |x.Vertices| == |e.Vertices|;
      }
    }
  }

  /** Because the image edge is always positive, a graph that holds a negative
      edge with a vertex has no match into itself: there are more anchored
      edges than positive anchored edges, and a match would send them
      injectively onto positive ones. So Graph.__eq__ is not reflexive on
      such graphs. */
  lemma NegativeEdgeBlocksSelfMatch(g: GraphState, n: Edge, mu: map<Vertex, Vertex>)
    requires Valid(g) && n in g.E && n.Neg && n.Vertices != []
    ensures !IsMatch(g, g, mu)
  {
    if mu.Keys == g.V && Injective(mu) && mu.Values <= g.V {
      assert forall e :: e in g.E ==> Covers(mu, e.Vertices) by {
        forall e, v | e in g.E && v in e.Vertices ensures v in mu {
          assert v in VerticesOf(g.E);
        }
      }
      PosImagesCard(g.E, mu);
      SelfMatchImagesPositive(g, mu);
      assert n in Anchored(g.E) && n !in PositiveAnchored(g.E);
      SubsetCard(PositiveAnchored(g.E), Anchored(g.E));
      if Consistent(g, g, mu) {
        SubsetCard(PosImages(g.E, mu), PositiveAnchored(g.E));
      }
    }
  }

  lemma NegativeEdgeNotSelfEqual(g: GraphState, n: Edge)
    requires Valid(g) && n in g.E && n.Neg && n.Vertices != []
    ensures !Contains(g, g) && !GraphEq(g, g)
  {
    forall mu ensures !IsMatch(g, g, mu) {
      NegativeEdgeBlocksSelfMatch(g, n, mu);
    }
  }
}
