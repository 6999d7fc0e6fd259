/**
 The Graph class of Graph.py: a set of vertices V, a set of signed edges E
 and the adjacency index EdgeMap, all three updated in place.

 E is the meaning of the graph; V and EdgeMap are derived from it, and every
 operation except RemoveVertex keeps them so (GraphSpec.Valid). Fresh vertex
 ids come from a counter `nextId` that the caller passes in and gets back.
 */
module Graphs {
  import opened Wrappers
  import opened Mappings
  import opened Edges
  import opened GraphSpec

  // --------------------------------------------------- add_edge, step by step

  /** The index of u while add_edge walks the endpoints of the edge it adds or
      cancels: already-visited endpoints (`done`) are indexed as in Enew, the
      others still as in Eold. */
  function Side(Eold: set<Edge>, Enew: set<Edge>, done: set<Vertex>, u: Vertex): set<Edge> {
    if u in done then Incident(Enew, u) else Incident(Eold, u)
  }

  /** V and EdgeMap halfway through add_edge: a vertex is present exactly when
      its index is not empty. */
  ghost predicate Midway(V: set<Vertex>, EdgeMap: map<Vertex, set<Edge>>,
                         Eold: set<Edge>, Enew: set<Edge>, done: set<Vertex>) {
    && EdgeMap.Keys == V
    && (forall u :: u in EdgeMap ==> EdgeMap[u] == Side(Eold, Enew, done, u) && EdgeMap[u] != {})
    && (forall u :: u !in EdgeMap ==> Side(Eold, Enew, done, u) == {})
  }

  lemma IncidentNonEmpty(E: set<Edge>, u: Vertex)
    ensures u in VerticesOf(E) <==> Incident(E, u) != {}
  {
    if Incident(E, u) != {} {
      var e :| e in Incident(E, u);
      assert u in VerticesOf(E);
    }
    if u in VerticesOf(E) {
      var e :| e in E && u in e.Vertices;
      assert e in Incident(E, u);
    }
  }

  lemma MidwayStart(s: GraphState, Enew: set<Edge>)
    requires GraphSpec.Valid(s)
    ensures Midway(s.V, s.EdgeMap, s.E, Enew, {})
  {
    forall u ensures u in VerticesOf(s.E) <==> Incident(s.E, u) != {} {
      IncidentNonEmpty(s.E, u);
    }
  }

  /** Once every endpoint of the changed edge `x` is visited, V and EdgeMap are
      those of Enew. */
  lemma MidwayEnd(V: set<Vertex>, EdgeMap: map<Vertex, set<Edge>>,
                  Eold: set<Edge>, Enew: set<Edge>, x: Edge, done: set<Vertex>)
    requires Midway(V, EdgeMap, Eold, Enew, done)
    requires Enew == Eold - {x} || Enew == Eold + {x}
    requires SeqSet(x.Vertices) <= done
    ensures GraphState(V, Enew, EdgeMap) == Closure(Enew)
  {
    MidwaySides(V, EdgeMap, Eold, Enew, x, done);
    Indexed(V, EdgeMap, Enew);
  }

  lemma MidwaySides(V: set<Vertex>, EdgeMap: map<Vertex, set<Edge>>,
                    Eold: set<Edge>, Enew: set<Edge>, x: Edge, done: set<Vertex>)
    requires Midway(V, EdgeMap, Eold, Enew, done)
    requires Enew == Eold - {x} || Enew == Eold + {x}
    requires SeqSet(x.Vertices) <= done
    ensures EdgeMap.Keys == V
    ensures forall u :: u in EdgeMap ==> EdgeMap[u] == Incident(Enew, u) && EdgeMap[u] != {}
    ensures forall u :: u !in EdgeMap ==> Incident(Enew, u) == {}
  {
    forall u ensures Side(Eold, Enew, done, u) == Incident(Enew, u) {
      if u !in done {
        assert u !in x.Vertices;
      }
    }
  }

  /** An index that holds exactly the non-empty incidence sets is the closure. */
  lemma Indexed(V: set<Vertex>, EdgeMap: map<Vertex, set<Edge>>, E: set<Edge>)
    requires EdgeMap.Keys == V
    requires forall u :: u in EdgeMap ==> EdgeMap[u] == Incident(E, u) && EdgeMap[u] != {}
    requires forall u :: u !in EdgeMap ==> Incident(E, u) == {}
    ensures GraphState(V, E, EdgeMap) == Closure(E)
  {
    forall u ensures u in VerticesOf(E) <==> u in V {
      IncidentNonEmpty(E, u);
    }
    assert V == VerticesOf(E);
  }

  /** One endpoint of a cancelled edge: its index loses the edge, and the
      vertex goes when nothing is left. */
  lemma CancelStep(V: set<Vertex>, EdgeMap: map<Vertex, set<Edge>>,
                   Eold: set<Edge>, x: Edge, done: set<Vertex>, v: Vertex)
    requires Midway(V, EdgeMap, Eold, Eold - {x}, done)
    requires x in Eold && v in x.Vertices && v !in done
    ensures v in EdgeMap && x in EdgeMap[v]
    ensures var S := EdgeMap[v] - {x};
      if S == {} then Midway(V - {v}, EdgeMap[v := S] - {v}, Eold, Eold - {x}, done + {v})
      else Midway(V, EdgeMap[v := S], Eold, Eold - {x}, done + {v})
  {
    assert x in Incident(Eold, v);
    assert Incident(Eold - {x}, v) == Incident(Eold, v) - {x};
  }

  /** One endpoint of an inserted edge: it becomes a vertex and its index
      gains the edge. */
  lemma InsertStep(V: set<Vertex>, EdgeMap: map<Vertex, set<Edge>>,
                   Eold: set<Edge>, x: Edge, done: set<Vertex>, v: Vertex)
    requires Midway(V, EdgeMap, Eold, Eold + {x}, done)
    requires v in x.Vertices && v !in done
    ensures Midway(V + {v}, EdgeMap[v := (if v in EdgeMap then EdgeMap[v] else {}) + {x}],
                   Eold, Eold + {x}, done + {v})
  {
    assert x in Incident(Eold + {x}, v);
    assert Incident(Eold + {x}, v) == Incident(Eold, v) + {x};
  }

  lemma SeqSetStep<T>(s: seq<T>, i: nat)
    requires i < |s|
    ensures SeqSet(s[..i + 1]) == SeqSet(s[..i]) + {s[i]}
    ensures Distinct(s) ==> s[i] !in SeqSet(s[..i])
  {
    assert s[..i + 1] == s[..i] + [s[i]];
  }

  /** list(s): the elements of a set, each once, in some order. */
  method SetToSeq<T(==)>(s: set<T>) returns (r: seq<T>)
    ensures SeqSet(r) == s && |r| == |s|
    ensures forall i, j :: 0 <= i < j < |r| ==> r[i] != r[j]
  {
    r := [];
    var todo := s;
    while todo != {}
      invariant todo <= s && SeqSet(r) == s - todo && |r| + |todo| == |s|
      invariant forall i, j :: 0 <= i < j < |r| ==> r[i] != r[j]
      decreases todo
    {
      var x :| x in todo;
      assert SeqSet(r + [x]) == SeqSet(r) + {x};
      r := r + [x];
      todo := todo - {x};
    }
  }

  /** In a valid graph a vertex no edge mentions is not a vertex at all. */
  lemma NotMentioned(s: GraphState, v: Vertex)
    requires GraphSpec.Valid(s) && Incident(s.E, v) == {}
    ensures v !in s.V
  {
    ValidMeans(s);
  }

  /** What remove_vertex does to a valid graph: the edges mentioning `v` go,
      but the index keeps them (and keeps `v`), so the invariant is lost. */
  lemma RemoveVertexBreaksIndex(s: GraphState, v: Vertex)
    requires GraphSpec.Valid(s) && v in s.V
    ensures s.E - s.EdgeMap[v] == set e | e in s.E && v !in e.Vertices
    ensures !GraphSpec.Valid(GraphState(s.V - {v}, s.E - s.EdgeMap[v], s.EdgeMap))
  {
    var t := GraphState(s.V - {v}, s.E - s.EdgeMap[v], s.EdgeMap);
    assert v in t.EdgeMap && v !in t.V;
    assert IndexOf(t.E).Keys == VerticesOf(t.E);
  }

  /** zip(vertices, perm) for every perm in itertools.permutations(cod,
      len(vertices)): all injective maps from the list into cod. */
  method Permutations(vertices: seq<Vertex>, cod: set<Vertex>) returns (perms: set<map<Vertex, Vertex>>)
    requires Distinct(vertices)
    ensures forall mu :: mu in perms <==> mu.Keys == SeqSet(vertices) && Injective(mu) && mu.Values <= cod
  {
    perms := Injections(vertices, cod);
    forall mu ensures mu in perms <==> mu.Keys == SeqSet(vertices) && Injective(mu) && mu.Values <= cod {
      InjectionsMeans(vertices, cod, mu);
    }
  }

  /** The tried candidates that match. */
  ghost function MatchesAmong(s: GraphState, p: GraphState, perms: set<map<Vertex, Vertex>>): set<map<Vertex, Vertex>> {
    set mu | mu in perms && IsMatch(s, p, mu)
  }

  lemma InMatches(s: GraphState, p: GraphState, perms: set<map<Vertex, Vertex>>, mu: map<Vertex, Vertex>, consistent: bool)
    requires mu in perms && mu.Keys == p.V && Injective(mu) && mu.Values <= s.V
    requires consistent <==> Consistent(s, p, mu)
    ensures consistent <==> mu in MatchesAmong(s, p, perms)
  {
  }

  /** The loop invariant of match after trying the candidates in `tried`:
      `ms` holds, once each, exactly the tried candidates that are in M. */
  ghost predicate Found(ms: seq<VertexMapping>, tried: set<map<Vertex, Vertex>>, M: set<map<Vertex, Vertex>>) {
    && (forall k :: 0 <= k < |ms| ==> Mappings.Valid(ms[k]) && ms[k].AtoB in tried * M)
    && (forall mu :: mu in tried * M ==> exists k :: 0 <= k < |ms| && ms[k].AtoB == mu)
    && (forall j, k :: 0 <= j < k < |ms| ==> ms[j].AtoB != ms[k].AtoB)
  }

  lemma FoundStep(ms: seq<VertexMapping>, tried: set<map<Vertex, Vertex>>, M: set<map<Vertex, Vertex>>,
                  mapping: VertexMapping, consistent: bool)
    requires Found(ms, tried, M) && mapping.AtoB !in tried && Mappings.Valid(mapping)
    requires consistent <==> mapping.AtoB in M
    ensures Found(if consistent then ms + [mapping] else ms, tried + {mapping.AtoB}, M)
  {
    var ms' := if consistent then ms + [mapping] else ms;
    forall mu | mu in (tried + {mapping.AtoB}) * M
      ensures exists k :: 0 <= k < |ms'| && ms'[k].AtoB == mu
    {
      if mu == mapping.AtoB {
        assert ms'[|ms'| - 1].AtoB == mu;
      } else {
        assert mu in tried * M;
        var k :| 0 <= k < |ms| && ms[k].AtoB == mu;
        assert ms'[k].AtoB == mu;
      }
    }
  }

  /** VertexMapping.__call__: the graph of g's edges relabelled through the
      mapping, which map_vertices extends with a fresh vertex for every vertex
      of g it does not cover yet. */
  method Relabel(m: VertexMapping, g: Graph, nextId: nat) returns (h: Graph, m': VertexMapping, next': nat)
    requires g.Valid() && Mappings.Valid(m) && Below(m, nextId)
    ensures fresh(h) && h.Valid()
    ensures Mappings.Valid(m') && Below(m', next') && nextId <= next'
    ensures Extends(m.AtoB, m'.AtoB, g.V, nextId, next')
    ensures h.E == Relabelled(g.E, m'.AtoB)
  {
    h := new Graph.Empty();
    m', next' := m, nextId;
    var todo := g.E;
    ghost var done: set<Edge> := {};
    assert VerticesOf(done) == {};
    ExtendsRefl(m.AtoB, nextId, nextId);
    while todo != {}
      invariant todo <= g.E && done <= g.E
      invariant forall e :: e in g.E ==> (e in done <==> e !in todo)
      invariant fresh(h) && h.Valid()
      invariant Mappings.Valid(m') && Below(m', next') && nextId <= next'
      invariant Extends(m.AtoB, m'.AtoB, VerticesOf(done), nextId, next')
      invariant h.E == Relabelled(done, m'.AtoB)
      decreases todo
    {
      var e :| e in todo;
      var e', m2, n2 := MapVertices(e, m', next');
      RelabelStep(g.State(), done, e, m.AtoB, m'.AtoB, m2.AtoB, nextId, next', n2);
      h.AddEdge(e');
      m', next' := m2, n2;
      todo := todo - {e};
      done := done + {e};
    }
    assert done == g.E;
  }

  /** One edge of VertexMapping.__call__: relabelling it extends the mapping
      and the relabelled graph by exactly that edge. */
  lemma RelabelStep(s: GraphState, done: set<Edge>, e: Edge,
                    f: map<Vertex, Vertex>, cur: map<Vertex, Vertex>, ext: map<Vertex, Vertex>,
                    lo: nat, mid: nat, hi: nat)
    requires GraphSpec.Valid(s) && done <= s.E && e in s.E && e !in done
    requires Extends(f, cur, VerticesOf(done), lo, mid) && lo <= mid <= hi
    requires Extends(cur, ext, SeqSet(e.Vertices), mid, hi) && Covers(ext, e.Vertices)
    requires Injective(ext)
    ensures Extends(f, ext, VerticesOf(done + {e}), lo, hi)
    ensures Relabelled(done, cur) == Relabelled(done, ext)
    ensures Distinct(MapEdge(e, ext).Vertices)
    ensures AddEdgeE(Relabelled(done, ext), MapEdge(e, ext)) == Relabelled(done + {e}, ext)
  {
    ExtendsTrans(f, cur, ext, VerticesOf(done), SeqSet(e.Vertices), lo, mid, hi);
    VerticesOfAdd(done, e);
    forall d | d in done ensures Covers(cur, d.Vertices) {
      forall v | v in d.Vertices ensures v in cur {
        assert v in VerticesOf(done);
      }
    }
    RelabelledAgree(done, cur, ext);
    assert NoContradiction(done + {e}) && DistinctVertices(done + {e});
    MapSeqDistinct(ext, e.Vertices);
    RelabelledAdd(done, e, ext);
  }

  /** The edges C are a clone of the edges E with vertices taken from
      [lo, hi), tracked by `src` (clone to original): label, sign and arity are
      kept, every clone has vertices of its own, and distinct edges have
      distinct clones. */
  ghost predicate CloneOf(C: set<Edge>, E: set<Edge>, src: map<Edge, Edge>, lo: nat, hi: nat) {
    && src.Keys == C && src.Values == E
    && (forall c :: c in src ==>
          && c.Label == src[c].Label && c.Neg == src[c].Neg
          && |c.Vertices| == |src[c].Vertices| && Distinct(c.Vertices)
          && (forall v :: v in c.Vertices ==> lo <= v < hi))
    && (forall c, d :: c in src && d in src && c != d ==>
          src[c] != src[d] && SeqSet(c.Vertices) !! SeqSet(d.Vertices))
  }

  /** The invariant of Graph.clone's loop: the clones so far, all of whose
      vertices lie below the counter. */
  ghost predicate Cloning(C: set<Edge>, done: set<Edge>, src: map<Edge, Edge>, lo: nat, cur: nat) {
    && lo <= cur && CloneOf(C, done, src, lo, cur)
    && (forall c :: c in src && c.Vertices == [] ==> c == src[c])
  }

  /** Graph.clone's loop: `done` and `todo` split the edges of the original. */
  ghost predicate CloneLoop(E: set<Edge>, todo: set<Edge>, done: set<Edge>, C: set<Edge>,
                            src: map<Edge, Edge>, lo: nat, cur: nat) {
    todo <= E && done == E - todo && Cloning(C, done, src, lo, cur)
  }

  lemma CloneLoopStep(E: set<Edge>, todo: set<Edge>, done: set<Edge>, C: set<Edge>,
                      src: map<Edge, Edge>, lo: nat, cur: nat, e: Edge)
    requires NoContradiction(E) && CloneLoop(E, todo, done, C, src, lo, cur) && e in todo
    ensures Distinct(CloneEdge(e, cur).Vertices)
    ensures AddEdgeE(C, CloneEdge(e, cur)) == C + {CloneEdge(e, cur)}
    ensures CloneLoop(E, todo - {e}, done + {e}, C + {CloneEdge(e, cur)}, src[CloneEdge(e, cur) := e],
                      lo, cur + |e.Vertices|)
  {
    CloneStep(E, C, done, src, lo, cur, e);
  }

  /** One more edge cloned to fresh vertices starting at the counter. */
  lemma CloneStep(E: set<Edge>, C: set<Edge>, done: set<Edge>, src: map<Edge, Edge>, lo: nat, cur: nat, e: Edge)
    requires NoContradiction(E) && done <= E && e in E && e !in done
    requires Cloning(C, done, src, lo, cur)
    ensures CloneEdge(e, cur) !in C && Invert(CloneEdge(e, cur)) !in C
    ensures Cloning(C + {CloneEdge(e, cur)}, done + {e}, src[CloneEdge(e, cur) := e], lo, cur + |e.Vertices|)
  {
    CloneFresh(E, C, done, src, lo, cur, e);
    var c, src' := CloneEdge(e, cur), src[CloneEdge(e, cur) := e];
    ClonePairs(C, done, src, lo, cur, e);
    CloneEach(C, done, src, lo, cur, e);
    assert src'.Keys == C + {c};
    assert src'.Values == done + {e};
  }

  /** Every clone, the new one included, keeps the shape of its original and
      has its vertices below the advanced counter. */
  lemma CloneEach(C: set<Edge>, done: set<Edge>, src: map<Edge, Edge>, lo: nat, cur: nat, e: Edge)
    requires Cloning(C, done, src, lo, cur)
    ensures var c, src', hi := CloneEdge(e, cur), src[CloneEdge(e, cur) := e], cur + |e.Vertices|;
      && (forall d :: d in src' ==>
            && d.Label == src'[d].Label && d.Neg == src'[d].Neg
            && |d.Vertices| == |src'[d].Vertices| && Distinct(d.Vertices)
            && (forall v :: v in d.Vertices ==> lo <= v < hi))
      && (forall d :: d in src' && d.Vertices == [] ==> d == src'[d])
  {
    var c, src', hi := CloneEdge(e, cur), src[CloneEdge(e, cur) := e], cur + |e.Vertices|;
    forall d | d in src'
      ensures && d.Label == src'[d].Label && d.Neg == src'[d].Neg
              && |d.Vertices| == |src'[d].Vertices| && Distinct(d.Vertices)
              && (forall v :: v in d.Vertices ==> lo <= v < hi)
              && (d.Vertices == [] ==> d == src'[d])
    {
      if d != c {
        assert src'[d] == src[d];
      }
    }
  }

  /** The clone differs from every earlier clone and from its negation. */
  lemma CloneFresh(E: set<Edge>, C: set<Edge>, done: set<Edge>, src: map<Edge, Edge>, lo: nat, cur: nat, e: Edge)
    requires NoContradiction(E) && done <= E && e in E && e !in done
    requires Cloning(C, done, src, lo, cur)
    ensures CloneEdge(e, cur) !in C && Invert(CloneEdge(e, cur)) !in C
  {
    var c := CloneEdge(e, cur);
    if e.Vertices == [] {
      assert c == e;
      assert Invert(e) !in E;
      forall d | d in C ensures d != c && d != Invert(c) {
        if d.Vertices == [] {
          assert d == src[d] && src[d] in done;
        }
      }
    } else {
      assert c.Vertices[0] == cur;
      forall d | d in C ensures d != c && d != Invert(c) {
        assert cur !in d.Vertices;
      }
    }
  }

  /** The new clone is disjoint from, and has another original than, every
      earlier clone. */
  lemma ClonePairs(C: set<Edge>, done: set<Edge>, src: map<Edge, Edge>, lo: nat, cur: nat, e: Edge)
    requires e !in done && Cloning(C, done, src, lo, cur) && CloneEdge(e, cur) !in C
    ensures var c, src' := CloneEdge(e, cur), src[CloneEdge(e, cur) := e];
      forall d :: d in src' && d != c ==> src'[d] != src'[c] && SeqSet(d.Vertices) !! SeqSet(c.Vertices)
  {
    var c, src' := CloneEdge(e, cur), src[CloneEdge(e, cur) := e];
    forall d | d in src' && d != c ensures src'[d] != src'[c] && SeqSet(d.Vertices) !! SeqSet(c.Vertices) {
      assert src'[d] == src[d] && src[d] in done;
      forall v | v in d.Vertices ensures v !in c.Vertices {
        assert v < cur;
      }
    }
  }


  lemma IndexAt(s: GraphState, v: Vertex)
    requires GraphSpec.Valid(s) && v in s.V
    ensures v in s.EdgeMap && s.EdgeMap[v] == Incident(s.E, v)
  {
  }

  /** The test on one pattern edge e1 at a vertex whose image is x, where
      `here` is what the defaultdict EdgeMap gives for x. */
  lemma ImageOkMeans(s: GraphState, p: GraphState, e1: Edge, mu: map<Vertex, Vertex>, x: Vertex, here: set<Edge>)
    requires GraphSpec.Valid(p) && e1 in p.E && mu.Keys == p.V
    requires here == if x in s.EdgeMap then s.EdgeMap[x] else {}
    ensures Covers(mu, e1.Vertices)
    ensures ImageOk(s, e1, mu, x) <==> PosImage(e1, mu) in here && Invert(PosImage(e1, mu)) !in here
  {
    ValidMeans(p);
  }

  /** The loop of Graph.match over the pattern edges `es` at one vertex: each
      must have its positive image, and not its negation, in `here`. */
  method CheckEdges(es: set<Edge>, here: set<Edge>, mapping: VertexMapping,
                    ghost s: GraphState, ghost p: GraphState, x: Vertex) returns (consistent: bool)
    requires GraphSpec.Valid(p) && es <= p.E && mapping.AtoB.Keys == p.V
    requires here == if x in s.EdgeMap then s.EdgeMap[x] else {}
    ensures consistent <==> forall e1 :: e1 in es ==> ImageOk(s, e1, mapping.AtoB, x)
  {
    consistent := true;
    var todo := es;
    ghost var done: set<Edge> := {};
    while todo != {} && consistent
      invariant todo <= es && done == es - todo
      invariant consistent <==> forall e1 :: e1 in done ==> ImageOk(s, e1, mapping.AtoB, x)
      decreases todo
    {
      var e1 :| e1 in todo;
      ImageOkMeans(s, p, e1, mapping.AtoB, x, here);
      var e := Edge(e1.Label, MapSeq(e1.Vertices, mapping.AtoB), false);
      if e !in here || Invert(e) in here {
        consistent := false;
      }
      todo, done := todo - {e1}, done + {e1};
    }
  }

  /** Checking the vertices of a list that holds exactly the pattern's
      vertices is checking consistency. */
  lemma ConsistentByList(s: GraphState, p: GraphState, mu: map<Vertex, Vertex>, vertices: seq<Vertex>)
    requires SeqSet(vertices) == p.V && mu.Keys == p.V
    ensures (forall j :: 0 <= j < |vertices| ==> VertexOk(s, p, mu, vertices[j])) <==> Consistent(s, p, mu)
  {
    if forall j :: 0 <= j < |vertices| ==> VertexOk(s, p, mu, vertices[j]) {
      forall v1 | v1 in p.V && v1 in mu ensures VertexOk(s, p, mu, v1) {
        assert v1 in SeqSet(vertices);
        var j :| 0 <= j < |vertices| && vertices[j] == v1;
      }
    }
    if Consistent(s, p, mu) {
      forall j | 0 <= j < |vertices| ensures VertexOk(s, p, mu, vertices[j]) {
        assert vertices[j] in SeqSet(vertices);
      }
    }
  }

  /** `all(_v in vertices for _v in e)`. */
  predicate Within(e: Edge, vs: seq<Vertex>) {
    forall w :: w in e.Vertices ==> w in vs
  }

  /** The edges __getitem__ has collected after visiting the vertices P of
      the list vs. */
  ghost predicate Collected(edges: set<Edge>, E: set<Edge>, vs: seq<Vertex>, P: set<Vertex>) {
    forall e :: e in edges <==> e in E && (exists w :: w in e.Vertices && w in P) && Within(e, vs)
  }

  lemma CollectedStep(E: set<Edge>, vs: seq<Vertex>, P: set<Vertex>, v: Vertex, before: set<Edge>, after: set<Edge>)
    requires Collected(before, E, vs, P)
    requires forall e :: e in after <==> e in before || (e in Incident(E, v) && Within(e, vs))
    ensures Collected(after, E, vs, P + {v})
  {
  }

  lemma CollectedAll(edges: set<Edge>, E: set<Edge>, vs: seq<Vertex>)
    requires Collected(edges, E, vs, SeqSet(vs))
    ensures edges == Induced(E, SeqSet(vs))
  {
    forall e | e in Induced(E, SeqSet(vs)) ensures e in edges {
      assert e.Vertices[0] in e.Vertices;
    }
  }

  class Graph {
    var V: set<Vertex>
    var E: set<Edge>
    var EdgeMap: map<Vertex, set<Edge>>

    function State(): GraphState
      reads this
    {
      GraphState(V, E, EdgeMap)
    }

    predicate Valid()
      reads this
    {
      GraphSpec.Valid(State())
    }

    /** Graph([]): no vertices, no edges. */
    constructor Empty()
      ensures Valid() && E == {}
    {
      V, E, EdgeMap := {}, {}, map[];
    }

    /** Graph(edges): add_edge for each edge of the list in turn. */
    constructor FromEdges(edges: seq<Edge>)
      requires forall e :: e in edges ==> Distinct(e.Vertices)
      ensures Valid() && Built(E, SeqSet(edges))
      ensures NoContradiction(SeqSet(edges)) ==> E == SeqSet(edges)
    {
      V, E, EdgeMap := {}, {}, map[];
      new;
      var i := 0;
      while i < |edges|
        invariant 0 <= i <= |edges| && Valid()
        invariant Built(E, SeqSet(edges[..i]))
      {
        SeqSetStep(edges, i);
        BuiltStep(E, SeqSet(edges[..i]), edges[i]);
        AddEdge(edges[i]);
        i := i + 1;
      }
      assert edges[..i] == edges;
    }

    /** deepcopy: a new graph with the same vertices, edges and index. */
    constructor Copy(g: Graph)
      ensures V == g.V && E == g.E && EdgeMap == g.EdgeMap
    {
      V, E, EdgeMap := g.V, g.E, g.EdgeMap;
    }

    /** Graph.remove_vertex: `v` leaves V and the edges indexed under it leave
        E; EdgeMap itself is not touched, except that reading the missing
        entry of the defaultdict creates it empty. The edges to remove must be
        in E, as set.remove raises KeyError otherwise. */
    method RemoveVertex(v: Vertex)
      requires v in V && v in EdgeMap ==> EdgeMap[v] <= E
      modifies this
      ensures v !in old(V) ==> V == old(V) && E == old(E) && EdgeMap == old(EdgeMap)
      ensures v in old(V) && v in old(EdgeMap) ==>
                V == old(V) - {v} && E == old(E) - old(EdgeMap[v]) && EdgeMap == old(EdgeMap)
      ensures v in old(V) && v !in old(EdgeMap) ==>
                V == old(V) - {v} && E == old(E) && EdgeMap == old(EdgeMap)[v := {}]
    {
      if v in V {
        V := V - {v};
        if v !in EdgeMap {
          EdgeMap := EdgeMap[v := {}];
        }
        var es := EdgeMap[v];
        var todo := es;
        ghost var V0, E0, EdgeMap0 := V, E, EdgeMap;
        while todo != {}
          invariant todo <= es <= E0 || es == {}
          invariant todo <= es && E == E0 - (es - todo)
          invariant V == V0 && EdgeMap == EdgeMap0
          decreases todo
        {
          var e :| e in todo;
          E := E - {e};
          todo := todo - {e};
        }
      }
    }

    /** remove_vertex as evidently intended: every edge mentioning `v` is
        removed through the index, one at a time, so the graph stays valid and
        `v` leaves V with its last edge. */
    method RemoveVertexKeepingIndex(v: Vertex)
      requires Valid()
      modifies this
      ensures Valid() && E == old(E) - Incident(old(E), v) && v !in V
    {
      ValidMeans(State());
      if v in V {
        var es := EdgeMap[v];
        var todo := es;
        while todo != {}
          invariant Valid() && todo <= es && E == old(E) - (es - todo)
          decreases todo
        {
          var e :| e in todo;
          InvertInvolutive(e);
          Cancel(Invert(e));
          todo := todo - {e};
        }
      }
      NotMentioned(State(), v);
    }

    /** The loop of apply: add_edge for every edge of X, in any order. */
    method AddAll(X: set<Edge>)
      requires Valid() && NoContradiction(X) && DistinctVertices(X)
      modifies this
      ensures Valid() && E == AddAllE(old(E), X)
    {
      ghost var E0 := E;
      AddAllNothing(E0);
      var todo := X;
      while todo != {}
        invariant todo <= X && Valid() && E == AddAllE(E0, X - todo)
        decreases todo
      {
        var x :| x in todo;
        assert X - (todo - {x}) == (X - todo) + {x};
        AddAllStep(E0, X - todo, x);
        AddEdge(x);
        todo := todo - {x};
      }
    }

    /** Graph.add_edge: an edge whose negation is present cancels it (and the
        endpoints left without edges are dropped), otherwise the edge is
        inserted and indexed under each of its vertices. */
    method AddEdge(e: Edge)
      requires Valid() && Distinct(e.Vertices)
      modifies this
      ensures Valid() && E == AddEdgeE(old(E), e)
    {
      if Invert(e) in E {
        Cancel(e);
      } else if e !in E {
        Insert(e);
      }
    }

    /** The first branch of add_edge: the negation of `e` leaves E and the
        index of each endpoint; an endpoint without edges leaves V. */
    method Cancel(e: Edge)
      requires Valid() && Distinct(e.Vertices) && Invert(e) in E
      modifies this
      ensures Valid() && E == old(E) - {Invert(e)}
    {
      ghost var Eold := E;
      AddEdgeKeepsValid(State(), e);
      var ne := Invert(e);
      MidwayStart(State(), E - {ne});
      E := E - {ne};
      var i := 0;
      while i < |e.Vertices|
        invariant 0 <= i <= |e.Vertices| && E == Eold - {ne}
        invariant Midway(V, EdgeMap, Eold, E, SeqSet(e.Vertices[..i]))
      {
        var v := e.Vertices[i];
        SeqSetStep(e.Vertices, i);
        Unindex(v, ne, Eold, SeqSet(e.Vertices[..i]));
        i := i + 1;
      }
      assert e.Vertices[..i] == e.Vertices;
      MidwayEnd(V, EdgeMap, Eold, E, ne, SeqSet(e.Vertices));
    }

    /** One endpoint v of the cancelled edge ne: EdgeMap[v] loses ne, and
        v leaves EdgeMap and V when nothing is left. */
    method Unindex(v: Vertex, ne: Edge, ghost Eold: set<Edge>, ghost done: set<Vertex>)
      requires Midway(V, EdgeMap, Eold, Eold - {ne}, done)
      requires ne in Eold && v in ne.Vertices && v !in done
      modifies this
      ensures E == old(E) && Midway(V, EdgeMap, Eold, Eold - {ne}, done + {v})
    {
      CancelStep(V, EdgeMap, Eold, ne, done, v);
      EdgeMap := EdgeMap[v := EdgeMap[v] - {ne}];
      if |EdgeMap[v]| == 0 {
        EdgeMap := EdgeMap - {v};
        V := V - {v};
      }
    }

    /** The second branch of add_edge: `e` joins E, its endpoints join V and
        each endpoint's index gains `e`. */
    method Insert(e: Edge)
      requires Valid() && Distinct(e.Vertices) && Invert(e) !in E && e !in E
      modifies this
      ensures Valid() && E == old(E) + {e}
    {
      ghost var Eold := E;
      AddEdgeKeepsValid(State(), e);
      MidwayStart(State(), E + {e});
      E := E + {e};
      var i := 0;
      while i < |e.Vertices|
        invariant 0 <= i <= |e.Vertices| && E == Eold + {e}
        invariant Midway(V, EdgeMap, Eold, E, SeqSet(e.Vertices[..i]))
      {
        var v := e.Vertices[i];
        SeqSetStep(e.Vertices, i);
        Index(v, e, Eold, SeqSet(e.Vertices[..i]));
        i := i + 1;
      }
      assert e.Vertices[..i] == e.Vertices;
      MidwayEnd(V, EdgeMap, Eold, E, e, SeqSet(e.Vertices));
    }

    /** One endpoint v of the inserted edge e: v joins V and EdgeMap[v]
        gains e. */
    method Index(v: Vertex, e: Edge, ghost Eold: set<Edge>, ghost done: set<Vertex>)
      requires Midway(V, EdgeMap, Eold, Eold + {e}, done)
      requires v in e.Vertices && v !in done
      modifies this
      ensures E == old(E) && Midway(V, EdgeMap, Eold, Eold + {e}, done + {v})
    {
      InsertStep(V, EdgeMap, Eold, e, done, v);
      V := V + {v};
      // EdgeMap is a defaultdict: a missing key reads as the empty set
      var cur := if v in EdgeMap then EdgeMap[v] else {};
      EdgeMap := EdgeMap[v := cur + {e}];
    }

    /** The inner loop of match's consistency check at the pattern vertex v1:
        for every pattern edge e1 at v1, the positive image of e1 must be
        indexed under the image of v1 and its negation not. */
    method VertexConsistent(other: Graph, mapping: VertexMapping, v1: Vertex) returns (consistent: bool)
      requires Valid() && other.Valid()
      requires mapping.AtoB.Keys == other.V && v1 in mapping.AtoB
      ensures consistent <==> VertexOk(State(), other.State(), mapping.AtoB, v1)
    {
      ghost var s, p := State(), other.State();
      ghost var mu := mapping.AtoB;
      ValidMeans(p);
      var x := Lookup(mapping, v1).value;
      // defaultdicts: a missing key reads as the empty set
      var es := if v1 in other.EdgeMap then other.EdgeMap[v1] else {};
      var here := if x in EdgeMap then EdgeMap[x] else {};
      consistent := CheckEdges(es, here, mapping, s, p, x);
    }

    /** One candidate of match: the VertexMapping built from the zipped pairs
        `mu`, and the `consistent` flag the checks over every pattern vertex
        leave. */
    method Candidate(other: Graph, mu: map<Vertex, Vertex>, vertices: seq<Vertex>)
      returns (mapping: VertexMapping, consistent: bool)
      requires Valid() && other.Valid()
      requires SeqSet(vertices) == other.V && mu.Keys == other.V && Injective(mu)
      ensures mapping.AtoB == mu && Mappings.Valid(mapping)
      ensures consistent <==> Consistent(State(), other.State(), mu)
    {
      mapping := AddMapping(Mappings.Empty, mu);
      AddedKeepsValid(Mappings.Empty, mu, mapping);
      AddedToEmpty(mu, mapping);
      consistent := CheckVertices(other, mapping, vertices);
      ConsistentByList(State(), other.State(), mu, vertices);
    }

    /** The loop over the pattern's vertices, stopping at the first one that
        fails. */
    method CheckVertices(other: Graph, mapping: VertexMapping, vertices: seq<Vertex>) returns (consistent: bool)
      requires Valid() && other.Valid()
      requires SeqSet(vertices) == other.V && mapping.AtoB.Keys == other.V
      ensures consistent <==> forall j :: 0 <= j < |vertices| ==> VertexOk(State(), other.State(), mapping.AtoB, vertices[j])
    {
      ghost var s, p, mu := State(), other.State(), mapping.AtoB;
      consistent := true;
      var i := 0;
      while i < |vertices| && consistent
        invariant 0 <= i <= |vertices|
        invariant consistent <==> forall j :: 0 <= j < i ==> VertexOk(s, p, mu, vertices[j])
      {
        assert vertices[i] in SeqSet(vertices);
        consistent := VertexConsistent(other, mapping, vertices[i]);
        i := i + 1;
      }
    }

    /** Graph.match: every injective mapping from other.V into V, built by
        zipping list(other.V) with the permutations of V, that passes the
        consistency check. Nothing is tried when `other` has more vertices. */
    method Match(other: Graph) returns (ms: seq<VertexMapping>)
      requires Valid() && other.Valid()
      ensures forall k :: 0 <= k < |ms| ==> Mappings.Valid(ms[k]) && IsMatch(State(), other.State(), ms[k].AtoB)
      ensures forall mu :: IsMatch(State(), other.State(), mu) ==> exists k :: 0 <= k < |ms| && ms[k].AtoB == mu
      ensures forall j, k :: 0 <= j < k < |ms| ==> ms[j].AtoB != ms[k].AtoB
    {
      ghost var s, p := State(), other.State();
      ms := [];
      if |V| < |other.V| {
        forall mu ensures !IsMatch(s, p, mu) {
          MatchNeedsRoom(s, p, mu);
        }
        return;
      }
      var vertices := SetToSeq(other.V);
      var perms := Permutations(vertices, V);
      ghost var M := MatchesAmong(s, p, perms);
      var todo := perms;
      ghost var tried := {};
      while todo != {}
        invariant todo <= perms && tried <= perms
        invariant forall mu :: mu in perms ==> (mu in tried <==> mu !in todo)
        invariant Found(ms, tried, M)
        decreases todo
      {
        var mu :| mu in todo;
        var mapping, consistent := Candidate(other, mu, vertices);
        InMatches(s, p, perms, mu, consistent);
        FoundStep(ms, tried, M, mapping, consistent);
        if consistent {
          ms := ms + [mapping];
        }
        todo := todo - {mu};
        tried := tried + {mu};
      }
      forall mu | IsMatch(s, p, mu) ensures exists k :: 0 <= k < |ms| && ms[k].AtoB == mu {
        assert mu in tried * M;
      }
    }

    /** Graph.__contains__: `other in this` when match yields something. */
    method Contains(other: Graph) returns (b: bool)
      requires Valid() && other.Valid()
      ensures b <==> GraphSpec.Contains(State(), other.State())
    {
      var ms := Match(other);
      b := |ms| > 0;
      if b {
        assert IsMatch(State(), other.State(), ms[0].AtoB);
      }
    }

    /** Graph.__eq__: `self in other and other in self`. */
    method Equals(other: Graph) returns (b: bool)
      requires Valid() && other.Valid()
      ensures b <==> GraphEq(State(), other.State())
    {
      b := other.Contains(this);
      if b {
        b := Contains(other);
      }
    }

    /** Graph.apply: a copy of this graph with the edges of `other`, relabelled
        through the mapping, added one by one; the mapping is extended with
        fresh vertices for the vertices of `other` it does not cover. */
    method Apply(other: Graph, m: VertexMapping, nextId: nat) returns (r: Graph, m': VertexMapping, next': nat)
      requires Valid() && other.Valid() && Mappings.Valid(m) && Below(m, nextId)
      ensures fresh(r) && r.Valid()
      ensures r.E == AddAllE(E, Relabelled(other.E, m'.AtoB))
      ensures Mappings.Valid(m') && Below(m', next') && nextId <= next'
      ensures Extends(m.AtoB, m'.AtoB, other.V, nextId, next')
    {
      r := new Graph.Copy(this);
      var h;
      h, m', next' := Relabel(m, other, nextId);
      r.AddAll(h.E);
    }

    /** Graph.clone: a graph of Edge.clone of every edge, each with vertices of
        its own from the counter. */
    method Clone(nextId: nat) returns (r: Graph, next': nat, ghost src: map<Edge, Edge>)
      requires Valid()
      ensures fresh(r) && r.Valid() && nextId <= next'
      ensures CloneOf(r.E, E, src, nextId, next')
    {
      ghost var st := State();
      r := new Graph.Empty();
      next' := nextId;
      src := map[];
      var todo := E;
      ghost var done: set<Edge> := {};
      while todo != {}
        invariant fresh(r) && r.Valid()
        invariant CloneLoop(st.E, todo, done, r.E, src, nextId, next')
        decreases todo
      {
        var e :| e in todo;
        var c := CloneEdge(e, next');
        CloneLoopStep(st.E, todo, done, r.E, src, nextId, next', e);
        r.AddEdge(c);
        src := src[c := e];
        next' := next' + |e.Vertices|;
        todo := todo - {e};
        done := done + {e};
      }
    }

    /** Graph.__or__: a new graph of this graph's edges followed by those of a
        clone of `other`. */
    method Or(other: Graph, nextId: nat) returns (r: Graph, next': nat, ghost C: set<Edge>, ghost src: map<Edge, Edge>)
      requires Valid() && other.Valid()
      ensures fresh(r) && r.Valid() && nextId <= next'
      ensures CloneOf(C, other.E, src, nextId, next')
      ensures r.E == AddAllE(E, C)
    {
      var c;
      c, next', src := other.Clone(nextId);
      C := c.E;
      var mine := SetToSeq(E);
      r := new Graph.FromEdges(mine);
      r.AddAll(c.E);
    }

    /** Graph.__getitem__: the graph of the edges that mention a listed vertex
        and lie entirely within the list; KeyError (None) when a listed vertex
        is not a vertex of the graph. */
    method GetItem(vs: seq<Vertex>) returns (r: Option<Graph>)
      requires Valid()
      ensures r.None? <==> exists v :: v in vs && v !in V
      ensures r.Some? ==> fresh(r.value) && r.value.Valid() && r.value.E == Induced(E, SeqSet(vs))
    {
      ghost var st := State();
      var edges: set<Edge> := {};
      var i := 0;
      ghost var P: set<Vertex> := {};
      while i < |vs|
        invariant 0 <= i <= |vs|
        invariant P == SeqSet(vs[..i]) && P <= st.V
        invariant Collected(edges, st.E, vs, P)
      {
        var v := vs[i];
        if v !in V {
          return None;
        }
        SeqSetStep(vs, i);
        IndexAt(st, v);
        ghost var edges0 := edges;
        edges := CollectAt(v, vs, edges);
        CollectedStep(st.E, vs, P, v, edges0, edges);
        P := P + {v};
        i := i + 1;
      }
      assert vs[..i] == vs;
      CollectedAll(edges, st.E, vs);
      var list := SetToSeq(edges);
      var g := new Graph.FromEdges(list);
      r := Some(g);
    }

    /** The inner loop of __getitem__: the edges indexed under `v` that lie
        within the list join `edges`. */
    method CollectAt(v: Vertex, vs: seq<Vertex>, edges: set<Edge>) returns (edges': set<Edge>)
      requires v in EdgeMap
      ensures forall e :: e in edges' <==> e in edges || (e in EdgeMap[v] && Within(e, vs))
    {
      edges' := edges;
      var here := EdgeMap[v];
      var todo := here;
      while todo != {}
        invariant todo <= here
        invariant forall e :: e in edges' <==> e in edges || (e in here && e !in todo && Within(e, vs))
        decreases todo
      {
        var e :| e in todo;
        if e !in edges' && Within(e, vs) {
          edges' := edges' + {e};
        }
        todo := todo - {e};
      }
    }
  }
}
