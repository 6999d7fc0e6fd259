/**
 The signed, labelled Edge of Graph.py: a label, an ordered list of vertex
 ids and a Neg flag. A negative edge states that the relation does not hold.

 Equality is structural over all three fields. The Python __eq__ compares
 the vertex lists with zip, i.e. only up to the shorter one; the model
 assumes that every label is used with one arity, under which the two agree.
 */
module Edges {
  import opened Mappings

  datatype Edge = Edge(Label: string, Vertices: seq<Vertex>, Neg: bool)

  /** Edge.__invert__: the same relation with the opposite sign. */
  function Invert(e: Edge): (r: Edge)
    ensures r.Label == e.Label && r.Vertices == e.Vertices && r.Neg == !e.Neg
  {
    Edge(e.Label, e.Vertices, !e.Neg)
  }

  lemma InvertInvolutive(e: Edge)
    ensures Invert(Invert(e)) == e
    ensures Invert(e) != e
  {
  }

  predicate Distinct<T(==)>(s: seq<T>) {
    forall i, j :: 0 <= i < j < |s| ==> s[i] != s[j]
  }

  /** Every vertex of `vs` has an image under `f`. */
  predicate Covers(f: map<Vertex, Vertex>, vs: seq<Vertex>) {
    forall v :: v in vs ==> v in f
  }

  /** The list of images of `vs`, position by position. */
  function MapSeq(vs: seq<Vertex>, f: map<Vertex, Vertex>): (r: seq<Vertex>)
    requires Covers(f, vs)
    ensures |r| == |vs|
    ensures forall i :: 0 <= i < |vs| ==> r[i] == f[vs[i]]
  {
    seq(|vs|, i requires 0 <= i < |vs| => f[vs[i]])
  }

  /** The edge with its vertices relabelled; label and sign are kept. */
  function MapEdge(e: Edge, f: map<Vertex, Vertex>): (r: Edge)
    requires Covers(f, e.Vertices)
  {
    Edge(e.Label, MapSeq(e.Vertices, f), e.Neg)
  }

  /** The image edge that Graph.match looks up (Graph.py:172): built with the
      Edge constructor, so it is always positive whatever the sign of `e`. */
  function PosImage(e: Edge, f: map<Vertex, Vertex>): (r: Edge)
    requires Covers(f, e.Vertices)
  {
    Edge(e.Label, MapSeq(e.Vertices, f), false)
  }

  /** Under an injective map, equal images come from equal lists. */
  lemma MapSeqInjective(f: map<Vertex, Vertex>, a: seq<Vertex>, b: seq<Vertex>)
    requires Injective(f) && Covers(f, a) && Covers(f, b)
    requires MapSeq(a, f) == MapSeq(b, f)
    ensures a == b
  {
    assert |a| == |b|;
    forall i | 0 <= i < |a| ensures a[i] == b[i] {
      assert MapSeq(a, f)[i] == MapSeq(b, f)[i];
    }
  }

  /** An injective map keeps a list free of repeats. */
  lemma MapSeqDistinct(f: map<Vertex, Vertex>, vs: seq<Vertex>)
    requires Injective(f) && Covers(f, vs) && Distinct(vs)
    ensures Distinct(MapSeq(vs, f))
  {
  }

  /** Extending the map does not change the images of covered vertices. */
  lemma MapSeqAgrees(f: map<Vertex, Vertex>, g: map<Vertex, Vertex>, vs: seq<Vertex>)
    requires Covers(f, vs) && (forall k :: k in f ==> k in g && g[k] == f[k])
    ensures Covers(g, vs) && MapSeq(vs, g) == MapSeq(vs, f)
  {
  }

  /** `n` consecutive ids starting at `lo`. */
  function Range(lo: nat, n: nat): (r: seq<Vertex>)
    ensures |r| == n
    ensures forall i :: 0 <= i < n ==> r[i] == lo + i
  {
    seq(n, i requires 0 <= i < n => lo + i)
  }

  /** Edge.clone: every position gets a vertex of its own, even where the
      original repeats a vertex or shares one with another edge. */
  function CloneEdge(e: Edge, nextId: nat): (r: Edge)
    ensures r.Label == e.Label && r.Neg == e.Neg && |r.Vertices| == |e.Vertices|
    ensures Distinct(r.Vertices)
    ensures forall v :: v in r.Vertices ==> nextId <= v < nextId + |e.Vertices|
  {
    Edge(e.Label, Range(nextId, |e.Vertices|), e.Neg)
  }

  /** What map_vertices keeps true after the first `i` positions. */
  ghost predicate Mapped(e: Edge, m: VertexMapping, nextId: nat, i: nat,
                         cur: VertexMapping, next': nat, vertices: seq<Vertex>) {
    && i <= |e.Vertices|
    && Valid(cur) && Below(cur, next') && nextId <= next'
    && Extends(m.AtoB, cur.AtoB, SeqSet(e.Vertices[..i]), nextId, next')
    && Covers(cur.AtoB, e.Vertices[..i])
    && vertices == MapSeq(e.Vertices[..i], cur.AtoB)
  }

  lemma MappedCovered(e: Edge, m: VertexMapping, nextId: nat, i: nat,
                      cur: VertexMapping, next': nat, vertices: seq<Vertex>)
    requires Mapped(e, m, nextId, i, cur, next', vertices) && i < |e.Vertices|
    requires e.Vertices[i] in cur.AtoB
    ensures Mapped(e, m, nextId, i + 1, cur, next', vertices + [cur.AtoB[e.Vertices[i]]])
  {
    var v := e.Vertices[i];
    assert e.Vertices[..i + 1] == e.Vertices[..i] + [v];
    assert SeqSet(e.Vertices[..i + 1]) == SeqSet(e.Vertices[..i]) + {v};
    ExtendsStep(m.AtoB, cur.AtoB, SeqSet(e.Vertices[..i]), nextId, next', v);
  }

  lemma MappedNew(e: Edge, m: VertexMapping, nextId: nat, i: nat,
                  cur: VertexMapping, next': nat, vertices: seq<Vertex>)
    requires Mapped(e, m, nextId, i, cur, next', vertices) && i < |e.Vertices|
    requires e.Vertices[i] !in cur.AtoB
    requires Valid(VertexMapping(cur.AtoB[e.Vertices[i] := next'], cur.BtoA[next' := e.Vertices[i]]))
    requires Below(VertexMapping(cur.AtoB[e.Vertices[i] := next'], cur.BtoA[next' := e.Vertices[i]]), next' + 1)
    ensures Mapped(e, m, nextId, i + 1,
                   VertexMapping(cur.AtoB[e.Vertices[i] := next'], cur.BtoA[next' := e.Vertices[i]]),
                   next' + 1, vertices + [next'])
  {
    var v := e.Vertices[i];
    var g := cur.AtoB[v := next'];
    assert e.Vertices[..i + 1] == e.Vertices[..i] + [v];
    assert SeqSet(e.Vertices[..i + 1]) == SeqSet(e.Vertices[..i]) + {v};
    ExtendsStep(m.AtoB, cur.AtoB, SeqSet(e.Vertices[..i]), nextId, next', v);
    MapSeqAgrees(cur.AtoB, g, e.Vertices[..i]);
    assert MapSeq(e.Vertices[..i + 1], g) == MapSeq(e.Vertices[..i], g) + [next'];
  }

  /** Adding the fresh pair through add_mapping gives the mapping MappedNew
      expects. */
  lemma MappedAdded(e: Edge, m: VertexMapping, nextId: nat, i: nat,
                    cur: VertexMapping, next: nat, vertices: seq<Vertex>, cur': VertexMapping)
    requires Mapped(e, m, nextId, i, cur, next, vertices) && i < |e.Vertices|
    requires e.Vertices[i] !in cur.AtoB && Added(cur, map[e.Vertices[i] := next], cur')
    ensures Mapped(e, m, nextId, i + 1, cur', next + 1, vertices + [next])
    ensures Lookup(cur', e.Vertices[i]) == Wrappers.Some(next)
  {
    AddFreshKeepsValid(cur, e.Vertices[i], next, cur');
    MappedNew(e, m, nextId, i, cur, next, vertices);
  }

  /** One step of Edge.map_vertices for a vertex the mapping does not cover
      yet: it is mapped to the next fresh vertex. */
  method MapFresh(e: Edge, m: VertexMapping, nextId: nat, i: nat, cur: VertexMapping, next: nat,
                  vertices: seq<Vertex>)
    returns (cur': VertexMapping, next': nat, vertices': seq<Vertex>)
    requires Mapped(e, m, nextId, i, cur, next, vertices) && i < |e.Vertices|
    requires !Contains(cur, e.Vertices[i])
    ensures Mapped(e, m, nextId, i + 1, cur', next', vertices')
  {
    var v := e.Vertices[i];
    cur' := AddMapping(cur, map[v := next]);
    MappedAdded(e, m, nextId, i, cur, next, vertices, cur');
    var w := Lookup(cur', v).value;
    vertices', next' := vertices + [w], next + 1;
  }

  /** One step of Edge.map_vertices for a vertex the mapping covers: its
      image is looked up. */
  method MapKnown(e: Edge, m: VertexMapping, nextId: nat, i: nat, cur: VertexMapping, next: nat,
                  vertices: seq<Vertex>)
    returns (vertices': seq<Vertex>)
    requires Mapped(e, m, nextId, i, cur, next, vertices) && i < |e.Vertices|
    requires Contains(cur, e.Vertices[i])
    ensures Mapped(e, m, nextId, i + 1, cur, next, vertices')
  {
    MappedCovered(e, m, nextId, i, cur, next, vertices);
    var w := Lookup(cur, e.Vertices[i]).value;
    vertices' := vertices + [w];
  }

  /** Edge.map_vertices: relabel through `m`, extending `m` with a new vertex
      for every vertex it does not cover yet. */
  method MapVertices(e: Edge, m: VertexMapping, nextId: nat) returns (r: Edge, m': VertexMapping, next': nat)
    requires Valid(m) && Below(m, nextId)
    ensures Valid(m') && Below(m', next') && nextId <= next'
    ensures Extends(m.AtoB, m'.AtoB, SeqSet(e.Vertices), nextId, next')
    ensures Covers(m'.AtoB, e.Vertices) && r == MapEdge(e, m'.AtoB)
  {
    m', next' := m, nextId;
    var vertices: seq<Vertex> := [];
    var i := 0;
    assert SeqSet(e.Vertices[..0]) == {};
    while i < |e.Vertices|
      invariant Mapped(e, m, nextId, i, m', next', vertices)
    {
      var covered := Contains(m', e.Vertices[i]);
      if covered {
        vertices := MapKnown(e, m, nextId, i, m', next', vertices);
      } else {
        m', next', vertices := MapFresh(e, m, nextId, i, m', next', vertices);
      }
      i := i + 1;
    }
    assert e.Vertices[..i] == e.Vertices;
    r := Edge(e.Label, vertices, e.Neg);
  }
}
