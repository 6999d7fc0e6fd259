/**
 The planning layer of main.py on top of graphs. An Action rewrites a graph
 at every match of its Input pattern. An AbstractGraph completes its
 concrete graph so that it contains a given graph, inventing vertices for
 whatever has no counterpart yet. A Node of the search tree composes the
 mappings that lead back to the root.
 */
module Planning {
  import opened Wrappers
  import opened Mappings
  import opened Edges
  import opened GraphSpec
  import opened Graphs

  // ------------------------------------------------------------ combinations

  /** itertools.combinations(xs, r): the r-element sub-lists of xs, each in
      the order of xs, the ones starting with xs[0] first. */
  function Combinations(xs: seq<Vertex>, r: nat): (cs: seq<seq<Vertex>>)
    ensures |cs| > 0 <==> r <= |xs|
    decreases |xs|
  {
    if r == 0 then [[]]
    else if |xs| < r then []
    else Prefixed(xs[0], Combinations(xs[1..], r - 1)) + Combinations(xs[1..], r)
  }

  /** Every list of cs with x put in front. */
  function Prefixed(x: Vertex, cs: seq<seq<Vertex>>): (r: seq<seq<Vertex>>)
    ensures |r| == |cs| && forall i :: 0 <= i < |cs| ==> r[i] == [x] + cs[i]
  {
    seq(|cs|, i requires 0 <= i < |cs| => [x] + cs[i])
  }

  lemma SeqSetCons(x: Vertex, s: seq<Vertex>)
    ensures SeqSet([x] + s) == {x} + SeqSet(s)
  {
    assert forall v :: v in [x] + s <==> v == x || v in s;
  }

  lemma {:induction false} SeqSetCard(xs: seq<Vertex>)
    ensures |SeqSet(xs)| <= |xs|
  {
    if xs != [] {
      SeqSetCard(xs[1..]);
      SeqSetCons(xs[0], xs[1..]);
      assert [xs[0]] + xs[1..] == xs;
    }
  }

  /** A set drawn from a list is no larger than the list. */
  lemma ListCard(xs: seq<Vertex>, S: set<Vertex>)
    requires S <= SeqSet(xs)
    ensures |S| <= |xs|
  {
    SeqSetCard(xs);
    SubsetCard(S, SeqSet(xs));
  }

  /** A combination either starts with xs[0] or does without it. */
  lemma CombinationsSplit(xs: seq<Vertex>, r: nat, c: seq<Vertex>) returns (head: bool, d: seq<Vertex>)
    requires 0 < r <= |xs| && c in Combinations(xs, r)
    ensures head ==> c == [xs[0]] + d && d in Combinations(xs[1..], r - 1)
    ensures !head ==> c in Combinations(xs[1..], r)
  {
    head := c != [] && c[0] == xs[0] && c[1..] in Combinations(xs[1..], r - 1);
    d := if head then c[1..] else [];
    InPrefixedOrRest(xs[0], Combinations(xs[1..], r - 1), Combinations(xs[1..], r), c);
  }

  lemma InPrefixedOrRest(x: Vertex, A: seq<seq<Vertex>>, B: seq<seq<Vertex>>, c: seq<Vertex>)
    requires c in Prefixed(x, A) + B
    ensures (c != [] && c[0] == x && c[1..] in A) || c in B
  {
    var P := Prefixed(x, A);
    var i :| 0 <= i < |P + B| && (P + B)[i] == c;
    if i < |P| {
      assert c == [x] + A[i];
      assert c[1..] == A[i];
    } else {
      assert c == B[i - |P|];
    }
  }

  /** Every combination has r vertices, all taken from xs, and when xs
      repeats none, neither does the combination: its r positions hold r
      different vertices. */
  lemma CombinationsSound(xs: seq<Vertex>, r: nat, c: seq<Vertex>)
    requires c in Combinations(xs, r)
    ensures |c| == r && SeqSet(c) <= SeqSet(xs)
    ensures Distinct(xs) ==> |SeqSet(c)| == r
  {
    CombinationsLength(xs, r, c);
    CombinationsWithin(xs, r, c);
    if Distinct(xs) {
      CombinationsCard(xs, r, c);
    }
  }

  lemma {:induction false} CombinationsLength(xs: seq<Vertex>, r: nat, c: seq<Vertex>)
    requires c in Combinations(xs, r)
    ensures |c| == r
    decreases |xs|
  {
    if r > 0 {
      var head, d := CombinationsSplit(xs, r, c);
      if head {
        CombinationsLength(xs[1..], r - 1, d);
      } else {
        CombinationsLength(xs[1..], r, c);
      }
    }
  }

  lemma {:induction false} CombinationsWithin(xs: seq<Vertex>, r: nat, c: seq<Vertex>)
    requires c in Combinations(xs, r)
    ensures SeqSet(c) <= SeqSet(xs)
    decreases |xs|
  {
    if r > 0 {
      var x, tail := xs[0], xs[1..];
      var head, d := CombinationsSplit(xs, r, c);
      TailWithin(xs);
      if head {
        CombinationsWithin(tail, r - 1, d);
        SeqSetCons(x, d);
        assert SeqSet(c) == {x} + SeqSet(d);
      } else {
        CombinationsWithin(tail, r, c);
      }
      assert SeqSet(c) <= {x} + SeqSet(tail);
    }
  }

  /** A non-empty list's vertices are its head and those of its tail. */
  lemma TailWithin(xs: seq<Vertex>)
    requires xs != []
    ensures SeqSet(xs) == {xs[0]} + SeqSet(xs[1..])
  {
    assert xs == [xs[0]] + xs[1..];
    SeqSetCons(xs[0], xs[1..]);
  }

  lemma {:induction false} CombinationsCard(xs: seq<Vertex>, r: nat, c: seq<Vertex>)
    requires Distinct(xs) && c in Combinations(xs, r)
    ensures |SeqSet(c)| == r
    decreases |xs|
  {
    if r == 0 {
      assert c == [];
    } else {
      var x, tail := xs[0], xs[1..];
      var head, d := CombinationsSplit(xs, r, c);
      DropHead(xs, SeqSet(xs));
      if head {
        CombinationsCard(tail, r - 1, d);
        CombinationsWithin(tail, r - 1, d);
        ConsCard(x, d, SeqSet(tail));
      } else {
        CombinationsCard(tail, r, c);
      }
    }
  }

  /** Putting a new vertex in front of a list adds one to its number of
      different vertices. */
  lemma ConsCard(x: Vertex, d: seq<Vertex>, T: set<Vertex>)
    requires SeqSet(d) <= T && x !in T
    ensures |SeqSet([x] + d)| == |SeqSet(d)| + 1
  {
    SeqSetCons(x, d);
  }

  /** Dropping the head of a repeat-free list drops it from every vertex set
      drawn from the list. */
  lemma DropHead(xs: seq<Vertex>, S: set<Vertex>)
    requires Distinct(xs) && xs != [] && S <= SeqSet(xs)
    ensures S - {xs[0]} <= SeqSet(xs[1..]) && Distinct(xs[1..])
    ensures xs[0] !in SeqSet(xs[1..])
  {
    forall m | 1 <= m < |xs| ensures xs[m] != xs[0] {
    }
    forall v | v in S - {xs[0]} ensures v in SeqSet(xs[1..]) {
      var m :| 0 <= m < |xs| && xs[m] == v;
      assert xs[1..][m - 1] == v;
    }
  }

  lemma CombinationsCons(xs: seq<Vertex>, r: nat, c: seq<Vertex>)
    requires 0 < r <= |xs| && c in Combinations(xs[1..], r - 1)
    ensures [xs[0]] + c in Combinations(xs, r)
  {
    InPrefixed(xs[0], Combinations(xs[1..], r - 1), Combinations(xs[1..], r), c);
  }

  lemma CombinationsSkip(xs: seq<Vertex>, r: nat, c: seq<Vertex>)
    requires 0 < r <= |xs| && c in Combinations(xs[1..], r)
    ensures c in Combinations(xs, r)
  {
    InRest(Prefixed(xs[0], Combinations(xs[1..], r - 1)), Combinations(xs[1..], r), c);
  }

  lemma InPrefixed(x: Vertex, A: seq<seq<Vertex>>, B: seq<seq<Vertex>>, c: seq<Vertex>)
    requires c in A
    ensures [x] + c in Prefixed(x, A) + B
  {
    var i :| 0 <= i < |A| && A[i] == c;
    assert (Prefixed(x, A) + B)[i] == [x] + c;
  }

  lemma InRest<T>(A: seq<T>, B: seq<T>, c: T)
    requires c in B
    ensures c in A + B
  {
    var i :| 0 <= i < |B| && B[i] == c;
    assert (A + B)[|A| + i] == c;
  }

  /** Every set of vertices of a repeat-free list is the vertex set of one of
      its combinations of that size. */
  lemma CombinationsComplete(xs: seq<Vertex>, S: set<Vertex>) returns (c: seq<Vertex>)
    requires Distinct(xs) && S <= SeqSet(xs)
    ensures c in Combinations(xs, |S|) && SeqSet(c) == S
  {
    c := CombinationsOf(xs, S, |S|);
  }

  lemma {:induction false} CombinationsOf(xs: seq<Vertex>, S: set<Vertex>, r: nat) returns (c: seq<Vertex>)
    requires Distinct(xs) && S <= SeqSet(xs) && |S| == r
    ensures c in Combinations(xs, r) && SeqSet(c) == S
    decreases |xs|, 1
  {
    if r == 0 {
      c := [];
      assert S == {};
    } else {
      ListCard(xs, S);
      DropHead(xs, S);
      if xs[0] in S {
        c := CombinationsWith(xs, S, r);
      } else {
        c := CombinationsWithout(xs, S, r);
      }
    }
  }

  /** The combination for a set that holds the head of the list. */
  lemma {:induction false} CombinationsWith(xs: seq<Vertex>, S: set<Vertex>, r: nat) returns (c: seq<Vertex>)
    requires xs != [] && Distinct(xs[1..]) && S - {xs[0]} <= SeqSet(xs[1..])
    requires 0 < r == |S| <= |xs| && xs[0] in S
    ensures c in Combinations(xs, r) && SeqSet(c) == S
    decreases |xs|, 0
  {
    var x := xs[0];
    RemoveOneCard(S, x);
    var c' := CombinationsOf(xs[1..], S - {x}, r - 1);
    CombinationsCons(xs, r, c');
    c := [x] + c';
    SeqSetCons(x, c');
  }

  /** The combination for a set that lacks the head of the list. */
  lemma {:induction false} CombinationsWithout(xs: seq<Vertex>, S: set<Vertex>, r: nat) returns (c: seq<Vertex>)
    requires xs != [] && Distinct(xs[1..]) && S - {xs[0]} <= SeqSet(xs[1..])
    requires 0 < r == |S| <= |xs| && xs[0] !in S
    ensures c in Combinations(xs, r) && SeqSet(c) == S
    decreases |xs|, 0
  {
    assert S - {xs[0]} == S;
    c := CombinationsOf(xs[1..], S, r);
    CombinationsSkip(xs, r, c);
  }

  lemma RemoveOneCard(S: set<Vertex>, x: Vertex)
    requires x in S
    ensures |S - {x}| == |S| - 1 && S == (S - {x}) + {x}
  {
  }

  // ------------------------------------------------------ applying a mapping

  /** The graph ConcreteGraph.apply(g, mapping) produces once the mapping has
      been extended to `ext`: the edges of g relabelled and added to C. */
  function Applied(C: GraphState, g: GraphState, ext: map<Vertex, Vertex>): (r: GraphState)
    ensures r.E == AddAllE(C.E, Relabelled(g.E, ext))
  {
    Closure(AddAllE(C.E, Relabelled(g.E, ext)))
  }

  /** A mapping whose images are vertices below the counter is below it. */
  lemma MatchBelow(m: VertexMapping, V: set<Vertex>, n: nat)
    requires Mappings.Valid(m) && m.AtoB.Values <= V && (forall v :: v in V ==> v < n)
    ensures Below(m, n)
  {
    forall b | b in m.BtoA ensures b < n {
      assert m.AtoB[m.BtoA[b]] == b;
      assert b in m.AtoB.Values;
    }
  }

  // ------------------------------------------------------------------ Action

  /** A rewrite rule: wherever Input matches, Output is applied. */
  class Action {
    const Input: Graph
    const Output: Graph

    constructor (input: Graph, output: Graph)
      ensures Input == input && Output == output
    {
      Input := input;
      Output := output;
    }

    /** Action.__call__: one rewritten graph for every match of Input in g,
        produced by g.apply(Output, mapping). */
    method Call(g: Graph, nextId: nat)
      returns (rs: seq<Graph>, next': nat, ghost ms: seq<map<Vertex, Vertex>>, ghost exts: seq<map<Vertex, Vertex>>)
      requires g.Valid() && Input.Valid() && Output.Valid()
      requires forall v :: v in g.V ==> v < nextId
      ensures nextId <= next' && |rs| == |ms| == |exts|
      ensures forall k :: 0 <= k < |ms| ==> IsMatch(g.State(), Input.State(), ms[k])
      ensures forall mu :: IsMatch(g.State(), Input.State(), mu) ==> mu in ms
      ensures forall j, k :: 0 <= j < k < |ms| ==> ms[j] != ms[k]
      ensures forall k :: 0 <= k < |rs| ==>
        && fresh(rs[k]) && rs[k].Valid()
        && Extends(ms[k], exts[k], Output.V, nextId, next')
        && rs[k].State() == Applied(g.State(), Output.State(), exts[k])
    {
      ghost var G, O := g.State(), Output.State();
      var matches := g.Match(Input);
      assert g.State() == G && Output.State() == O;
      ghost var sts;
      rs, next', exts, sts := ApplyEach(g, Output, matches, nextId);
      ms := Forward(matches);
      forall mu | IsMatch(G, Input.State(), mu) ensures mu in ms {
        var k :| 0 <= k < |matches| && matches[k].AtoB == mu;
        assert ms[k] == mu;
      }
    }
  }

  /** The loop of Action.__call__: g.apply(output, mapping) for every
      mapping in turn, the counter running on from one to the next. */
  method ApplyEach(g: Graph, output: Graph, matches: seq<VertexMapping>, nextId: nat)
    returns (rs: seq<Graph>, next': nat, ghost exts: seq<map<Vertex, Vertex>>, ghost sts: seq<GraphState>)
    requires g.Valid() && output.Valid()
    requires forall k :: 0 <= k < |matches| ==> Mappings.Valid(matches[k]) && matches[k].AtoB.Values <= g.V
    requires forall v :: v in g.V ==> v < nextId
    ensures nextId <= next' && Holds(rs, sts) && forall k :: 0 <= k < |rs| ==> fresh(rs[k])
    ensures Rewritten(g.State(), output.State(), Forward(matches), exts, sts, nextId, next')
  {
    ghost var G, O := g.State(), output.State();
    rs, next', exts, sts := [], nextId, [], [];
    ghost var ms: seq<map<Vertex, Vertex>> := [];
    var i := 0;
    while i < |matches|
      invariant 0 <= i <= |matches| && nextId <= next'
      invariant ms == Forward(matches[..i])
      invariant Holds(rs, sts) && forall k :: 0 <= k < |rs| ==> fresh(rs[k])
      invariant Rewritten(G, O, ms, exts, sts, nextId, next')
    {
      var mapping := matches[i];
      var r, ext, n2 := ApplyMatch(g, output, mapping, next', next');
      RewrittenStep(G, O, ms, exts, sts, nextId, next', n2, mapping.AtoB, ext.AtoB);
      HoldsAppend(rs, sts, r);
      ForwardStep(matches, i);
      rs, ms, exts, sts := rs + [r], ms + [mapping.AtoB], exts + [ext.AtoB], sts + [r.State()];
      next' := n2;
      i := i + 1;
    }
    ForwardAll(matches);
  }

  lemma ForwardStep(s: seq<VertexMapping>, i: nat)
    requires i < |s|
    ensures Forward(s[..i + 1]) == Forward(s[..i]) + [s[i].AtoB]
  {
    assert s[..i + 1][..i] == s[..i];
  }

  lemma ForwardAll(s: seq<VertexMapping>)
    ensures Forward(s[..|s|]) == Forward(s)
  {
    assert s[..|s|] == s;
  }

  /** The forward directions of a list of mappings. */
  function Forward(s: seq<VertexMapping>): (r: seq<map<Vertex, Vertex>>)
    ensures |r| == |s| && forall k :: 0 <= k < |s| ==> r[k] == s[k].AtoB
  {
    if s == [] then [] else Forward(s[..|s| - 1]) + [s[|s| - 1].AtoB]
  }

  /** What Action.__call__ has produced so far: the k-th result applies
      Output to G through an extension of the k-th match. */
  ghost predicate Rewritten(G: GraphState, O: GraphState, ms: seq<map<Vertex, Vertex>>,
                            exts: seq<map<Vertex, Vertex>>, sts: seq<GraphState>, lo: nat, hi: nat) {
    && |ms| == |exts| == |sts|
    && forall k :: 0 <= k < |ms| ==> Extends(ms[k], exts[k], O.V, lo, hi) && sts[k] == Applied(G, O, exts[k])
  }

  lemma RewrittenStep(G: GraphState, O: GraphState, ms: seq<map<Vertex, Vertex>>,
                      exts: seq<map<Vertex, Vertex>>, sts: seq<GraphState>, lo: nat, hi: nat, hi': nat,
                      m: map<Vertex, Vertex>, e: map<Vertex, Vertex>)
    requires Rewritten(G, O, ms, exts, sts, lo, hi) && lo <= hi <= hi' && Extends(m, e, O.V, hi, hi')
    ensures Rewritten(G, O, ms + [m], exts + [e], sts + [Applied(G, O, e)], lo, hi')
  {
    forall k | 0 <= k < |ms| ensures Extends(ms[k], exts[k], O.V, lo, hi') {
      ExtendsWiden(ms[k], exts[k], O.V, lo, hi, lo, hi');
    }
    ExtendsWiden(m, e, O.V, hi, hi', lo, hi');
    var P := (a, b, c, d) => Extends(a, b, O.V, lo, hi') && c == Applied(G, O, b) && d == a;
    AppendEach(P, ms, exts, sts, ms, m, e, Applied(G, O, e), m);
  }

  // ----------------------------------------------------------- AbstractGraph

  /** The pattern AbstractGraph.match looks for when it picks the vertex set
      S of g: the subgraph g[S], which keeps the edges lying within S. */
  function Pattern(g: GraphState, S: set<Vertex>): (r: GraphState)
    ensures r.E <= g.E
  {
    Closure(Induced(g.E, S))
  }

  lemma EmptyPattern(g: GraphState)
    ensures Pattern(g, {}).V == {}
  {
    forall e | e in g.E ensures e !in Induced(g.E, {}) {
      if e.Vertices != [] {
        assert e.Vertices[0] in e.Vertices;
      }
    }
    assert Induced(g.E, {}) == {};
  }

  /** One result of AbstractGraph.match: S is the chosen vertex set, `base`
      a match of g[S] in C, and `ext` extends it over all of g with new
      vertices from [lo, hi). */
  ghost predicate Candidate(C: GraphState, g: GraphState, S: set<Vertex>, base: map<Vertex, Vertex>,
                            ext: map<Vertex, Vertex>, lo: nat, hi: nat) {
    S <= g.V && IsMatch(C, Pattern(g, S), base) && Extends(base, ext, g.V, lo, hi)
  }

  /** Some kept result is, or equals in the sense of Graph.__eq__, what
      applying g through an extension of `base` gives. */
  ghost predicate Realised(C: GraphState, g: GraphState, base: map<Vertex, Vertex>,
                           lo: nat, hi: nat, kept: seq<GraphState>) {
    exists k, ext :: && 0 <= k < |kept| && Extends(base, ext, g.V, lo, hi)
                     && (kept[k] == Applied(C, g, ext) || GraphEq(kept[k], Applied(C, g, ext)))
  }

  lemma RealisedNew(C: GraphState, g: GraphState, base: map<Vertex, Vertex>, ext: map<Vertex, Vertex>,
                    lo: nat, hi: nat, kept: seq<GraphState>, x: GraphState)
    requires Extends(base, ext, g.V, lo, hi) && x == Applied(C, g, ext)
    ensures Realised(C, g, base, lo, hi, kept + [x])
  {
    assert (kept + [x])[|kept|] == x;
  }

  lemma RealisedOld(C: GraphState, g: GraphState, base: map<Vertex, Vertex>, ext: map<Vertex, Vertex>,
                    lo: nat, hi: nat, kept: seq<GraphState>, k: nat)
    requires Extends(base, ext, g.V, lo, hi) && k < |kept| && GraphEq(kept[k], Applied(C, g, ext))
    ensures Realised(C, g, base, lo, hi, kept)
  {
  }

  /** The first j matches are accounted for. */
  ghost predicate RealisedUpTo(C: GraphState, g: GraphState, matches: seq<VertexMapping>, j: nat,
                               lo: nat, hi: nat, kept: seq<GraphState>) {
    forall i :: 0 <= i < j && i < |matches| ==> Realised(C, g, matches[i].AtoB, lo, hi, kept)
  }

  lemma RealisedUpToStep(C: GraphState, g: GraphState, matches: seq<VertexMapping>, j: nat,
                         lo: nat, hi: nat, hi': nat, kept: seq<GraphState>, kept': seq<GraphState>)
    requires j < |matches| && RealisedUpTo(C, g, matches, j, lo, hi, kept) && hi <= hi' && kept <= kept'
    requires Realised(C, g, matches[j].AtoB, lo, hi', kept')
    ensures RealisedUpTo(C, g, matches, j + 1, lo, hi', kept')
  {
    forall i | 0 <= i < j ensures Realised(C, g, matches[i].AtoB, lo, hi', kept') {
      RealisedMono(C, g, matches[i].AtoB, lo, hi, hi', kept, kept');
    }
  }

  /** Once every match in a complete list is realised, the pattern is covered. */
  lemma RealisedAll(C: GraphState, g: GraphState, S: set<Vertex>, matches: seq<VertexMapping>,
                    lo: nat, hi: nat, kept: seq<GraphState>)
    requires RealisedUpTo(C, g, matches, |matches|, lo, hi, kept)
    requires forall mu :: IsMatch(C, Pattern(g, S), mu) ==> exists k :: 0 <= k < |matches| && matches[k].AtoB == mu
    ensures Covered(C, g, S, lo, hi, kept)
  {
    forall base | IsMatch(C, Pattern(g, S), base) ensures Realised(C, g, base, lo, hi, kept) {
      var i :| 0 <= i < |matches| && matches[i].AtoB == base;
    }
  }

  /** Every match of g[S] in C is accounted for among the kept results. */
  ghost predicate Covered(C: GraphState, g: GraphState, S: set<Vertex>, lo: nat, hi: nat, kept: seq<GraphState>) {
    forall base :: IsMatch(C, Pattern(g, S), base) ==> Realised(C, g, base, lo, hi, kept)
  }

  /** The first i combinations are accounted for. */
  ghost predicate CoveredUpTo(C: GraphState, g: GraphState, cands: seq<seq<Vertex>>, i: nat,
                              lo: nat, hi: nat, kept: seq<GraphState>) {
    forall j :: 0 <= j < i && j < |cands| ==> Covered(C, g, SeqSet(cands[j]), lo, hi, kept)
  }

  lemma CoveredUpToStep(C: GraphState, g: GraphState, cands: seq<seq<Vertex>>, i: nat,
                        lo: nat, hi: nat, hi': nat, kept: seq<GraphState>, kept': seq<GraphState>)
    requires i < |cands| && CoveredUpTo(C, g, cands, i, lo, hi, kept) && hi <= hi' && kept <= kept'
    requires Covered(C, g, SeqSet(cands[i]), lo, hi', kept')
    ensures CoveredUpTo(C, g, cands, i + 1, lo, hi', kept')
  {
    forall j | 0 <= j < i ensures Covered(C, g, SeqSet(cands[j]), lo, hi', kept') {
      CoveredMono(C, g, SeqSet(cands[j]), lo, hi, hi', kept, kept');
    }
  }

  /** One kept result: the graph applying `g` through `m` gives, where `m`
      extends a match `base` of the pattern that `S` induces. */
  ghost predicate Kept(C: GraphState, g: GraphState, x: GraphState, m: VertexMapping,
                       S: set<Vertex>, base: map<Vertex, Vertex>, lo: nat, hi: nat) {
    Mappings.Valid(m) && Candidate(C, g, S, base, m.AtoB, lo, hi) && x == Applied(C, g, m.AtoB)
  }

  /** The kept results: each a candidate, none equal to another. */
  ghost predicate Sound(C: GraphState, g: GraphState, kept: seq<GraphState>, ms: seq<VertexMapping>,
                        combos: seq<set<Vertex>>, bases: seq<map<Vertex, Vertex>>, lo: nat, hi: nat) {
    && |kept| == |ms| == |combos| == |bases|
    && (forall k :: 0 <= k < |kept| ==> Kept(C, g, kept[k], ms[k], combos[k], bases[k], lo, hi))
    && (forall j, k :: 0 <= j < k < |kept| ==> !GraphEq(kept[j], kept[k]))
  }

  lemma RealisedMono(C: GraphState, g: GraphState, base: map<Vertex, Vertex>, lo: nat, hi: nat, hi': nat,
                     kept: seq<GraphState>, kept': seq<GraphState>)
    requires Realised(C, g, base, lo, hi, kept) && hi <= hi' && kept <= kept'
    ensures Realised(C, g, base, lo, hi', kept')
  {
    var k, ext :| && 0 <= k < |kept| && Extends(base, ext, g.V, lo, hi)
                  && (kept[k] == Applied(C, g, ext) || GraphEq(kept[k], Applied(C, g, ext)));
    ExtendsWiden(base, ext, g.V, lo, hi, lo, hi');
    assert kept'[k] == kept[k];
  }

  lemma CoveredMono(C: GraphState, g: GraphState, S: set<Vertex>, lo: nat, hi: nat, hi': nat,
                    kept: seq<GraphState>, kept': seq<GraphState>)
    requires Covered(C, g, S, lo, hi, kept) && hi <= hi' && kept <= kept'
    ensures Covered(C, g, S, lo, hi', kept')
  {
    forall base | IsMatch(C, Pattern(g, S), base) ensures Realised(C, g, base, lo, hi', kept') {
      RealisedMono(C, g, base, lo, hi, hi', kept, kept');
    }
  }

  lemma SoundMono(C: GraphState, g: GraphState, kept: seq<GraphState>, ms: seq<VertexMapping>,
                  combos: seq<set<Vertex>>, bases: seq<map<Vertex, Vertex>>, lo: nat, hi: nat, hi': nat)
    requires Sound(C, g, kept, ms, combos, bases, lo, hi) && hi <= hi'
    ensures Sound(C, g, kept, ms, combos, bases, lo, hi')
  {
    forall k | 0 <= k < |kept| ensures Kept(C, g, kept[k], ms[k], combos[k], bases[k], lo, hi') {
      ExtendsWiden(bases[k], ms[k].AtoB, g.V, lo, hi, lo, hi');
    }
  }

  /** Keeping a new candidate that equals none of the kept results. */
  lemma SoundAdd(C: GraphState, g: GraphState, kept: seq<GraphState>, ms: seq<VertexMapping>,
                 combos: seq<set<Vertex>>, bases: seq<map<Vertex, Vertex>>, lo: nat, hi: nat,
                 S: set<Vertex>, base: map<Vertex, Vertex>, m: VertexMapping)
    requires Sound(C, g, kept, ms, combos, bases, lo, hi)
    requires Mappings.Valid(m) && Candidate(C, g, S, base, m.AtoB, lo, hi)
    requires forall k :: 0 <= k < |kept| ==> !GraphEq(kept[k], Applied(C, g, m.AtoB))
    ensures Sound(C, g, kept + [Applied(C, g, m.AtoB)], ms + [m], combos + [S], bases + [base], lo, hi)
  {
    SoundAddEach(C, g, kept, ms, combos, bases, lo, hi, S, base, m);
    SoundAddDistinct(kept, Applied(C, g, m.AtoB));
  }

  lemma SoundAddEach(C: GraphState, g: GraphState, kept: seq<GraphState>, ms: seq<VertexMapping>,
                     combos: seq<set<Vertex>>, bases: seq<map<Vertex, Vertex>>, lo: nat, hi: nat,
                     S: set<Vertex>, base: map<Vertex, Vertex>, m: VertexMapping)
    requires Sound(C, g, kept, ms, combos, bases, lo, hi)
    requires Mappings.Valid(m) && Candidate(C, g, S, base, m.AtoB, lo, hi)
    ensures var kept', ms', combos', bases' := kept + [Applied(C, g, m.AtoB)], ms + [m], combos + [S], bases + [base];
      forall k :: 0 <= k < |kept'| ==> Kept(C, g, kept'[k], ms'[k], combos'[k], bases'[k], lo, hi)
  {
    var P := (x, m', S', b') => Kept(C, g, x, m', S', b', lo, hi);
    AppendEach(P, kept, ms, combos, bases, Applied(C, g, m.AtoB), m, S, base);
  }

  /** A property of every position of four parallel lists survives
      appending one more position that has it. */
  lemma AppendEach<A, B, D, E>(P: (A, B, D, E) -> bool, a: seq<A>, b: seq<B>, d: seq<D>, e: seq<E>,
                               x: A, y: B, z: D, w: E)
    requires |a| == |b| == |d| == |e|
    requires forall k :: 0 <= k < |a| ==> P(a[k], b[k], d[k], e[k])
    requires P(x, y, z, w)
    ensures forall k :: 0 <= k < |a| + 1 ==> P((a + [x])[k], (b + [y])[k], (d + [z])[k], (e + [w])[k])
  {
    forall k | 0 <= k < |a| + 1 ensures P((a + [x])[k], (b + [y])[k], (d + [z])[k], (e + [w])[k]) {
      if k < |a| {
        assert (a + [x])[k] == a[k] && (b + [y])[k] == b[k] && (d + [z])[k] == d[k] && (e + [w])[k] == e[k];
      }
    }
  }

  lemma SoundAddDistinct(kept: seq<GraphState>, x: GraphState)
    requires forall j, k :: 0 <= j < k < |kept| ==> !GraphEq(kept[j], kept[k])
    requires forall k :: 0 <= k < |kept| ==> !GraphEq(kept[k], x)
    ensures forall j, k :: 0 <= j < k < |kept + [x]| ==> !GraphEq((kept + [x])[j], (kept + [x])[k])
  {
    var kept' := kept + [x];
    forall j, k | 0 <= j < k < |kept'| ensures !GraphEq(kept'[j], kept'[k]) {
      assert kept'[j] == kept[j];
      if k < |kept| {
        assert kept'[k] == kept[k];
      }
    }
  }

  /** The combinations behind the kept results only grow at the end, and
      every new one has `n` vertices. */
  ghost predicate Extended(combos: seq<set<Vertex>>, combos': seq<set<Vertex>>,
                           bases: seq<map<Vertex, Vertex>>, bases': seq<map<Vertex, Vertex>>, n: nat) {
    && combos <= combos' && bases <= bases'
    && forall k :: |combos| <= k < |combos'| ==> |combos'[k]| == n
  }

  lemma ExtendedTrans(a: seq<set<Vertex>>, b: seq<set<Vertex>>, c: seq<set<Vertex>>,
                      x: seq<map<Vertex, Vertex>>, y: seq<map<Vertex, Vertex>>, z: seq<map<Vertex, Vertex>>, n: nat)
    requires Extended(a, b, x, y, n) && Extended(b, c, y, z, n)
    ensures Extended(a, c, x, z, n)
  {
    forall k | |a| <= k < |c| ensures |c[k]| == n {
      if k < |b| {
        assert c[k] == b[k];
      }
    }
  }

  /** The vertex sets behind the kept results come by non-decreasing size. */
  ghost predicate Ascending(combos: seq<set<Vertex>>) {
    forall j, k :: 0 <= j < k < |combos| ==> |combos[j]| <= |combos[k]|
  }

  /** One more size r: the results so far came from smaller sets, the new
      ones from sets of size r. */
  lemma AscendingStep(combos: seq<set<Vertex>>, combos': seq<set<Vertex>>,
                      bases: seq<map<Vertex, Vertex>>, bases': seq<map<Vertex, Vertex>>, r: nat)
    requires Ascending(combos) && (forall k :: 0 <= k < |combos| ==> |combos[k]| < r)
    requires Extended(combos, combos', bases, bases', r)
    ensures Ascending(combos') && forall k :: 0 <= k < |combos'| ==> |combos'[k]| < r + 1
    ensures |combos| >= 1 ==> combos'[0] == combos[0]
    ensures |bases| >= 1 ==> bases'[0] == bases[0]
  {
    forall j, k | 0 <= j < k < |combos'| ensures |combos'[j]| <= |combos'[k]| {
      if k < |combos| {
        assert combos'[j] == combos[j] && combos'[k] == combos[k];
      } else if j < |combos| {
        assert combos'[j] == combos[j];
      }
    }
    forall k | 0 <= k < |combos'| ensures |combos'[k]| < r + 1 {
      if k < |combos| {
        assert combos'[k] == combos[k];
      }
    }
  }

  /** Every pattern on fewer than r vertices is accounted for, the results
      so far came by ascending size, and from size 1 on the first of them is
      the empty pattern's. */
  ghost predicate SizesDone(C: GraphState, g: GraphState, r: nat, lo: nat, hi: nat, kept: seq<GraphState>,
                            combos: seq<set<Vertex>>, bases: seq<map<Vertex, Vertex>>) {
    && (forall S :: S <= g.V && |S| < r ==> Covered(C, g, S, lo, hi, kept))
    && Ascending(combos) && (forall k :: 0 <= k < |combos| ==> |combos[k]| < r)
    && (r > 0 ==> |kept| >= 1 && |combos| >= 1 && |bases| >= 1 && combos[0] == {} && bases[0] == map[])
  }

  /** What one round of sizes adds to `SizesDone`. */
  lemma SizesDoneStep(C: GraphState, g: GraphState, r: nat, lo: nat, hi: nat, hi': nat,
                      kept: seq<GraphState>, kept': seq<GraphState>, ms': seq<VertexMapping>,
                      combos: seq<set<Vertex>>, combos': seq<set<Vertex>>,
                      bases: seq<map<Vertex, Vertex>>, bases': seq<map<Vertex, Vertex>>)
    requires SizesDone(C, g, r, lo, hi, kept, combos, bases) && hi <= hi' && kept <= kept'
    requires Sound(C, g, kept', ms', combos', bases', lo, hi')
    requires forall S :: S <= g.V && |S| == r ==> Covered(C, g, S, lo, hi', kept')
    requires Extended(combos, combos', bases, bases', r)
    ensures SizesDone(C, g, r + 1, lo, hi', kept', combos', bases')
  {
    forall S | S <= g.V && |S| < r + 1 ensures Covered(C, g, S, lo, hi', kept') {
      if |S| < r {
        CoveredMono(C, g, S, lo, hi, hi', kept, kept');
      }
    }
    AscendingStep(combos, combos', bases, bases', r);
    if r == 0 {
      assert Covered(C, g, {}, lo, hi', kept');
      FirstFromEmpty(C, g, kept', ms', combos', bases', lo, hi');
    }
  }

  /** Once every size up to |g.V| is done, every pattern is accounted for and
      the first result is the empty pattern's. */
  lemma SizesAllDone(C: GraphState, g: GraphState, n: nat, lo: nat, hi: nat, kept: seq<GraphState>,
                     ms: seq<VertexMapping>, combos: seq<set<Vertex>>, bases: seq<map<Vertex, Vertex>>)
    requires SizesDone(C, g, n, lo, hi, kept, combos, bases) && |g.V| < n
    requires Sound(C, g, kept, ms, combos, bases, lo, hi)
    ensures forall S :: S <= g.V ==> Covered(C, g, S, lo, hi, kept)
    ensures |kept| >= 1 && combos[0] == {} && bases[0] == map[]
    ensures kept[0] == Applied(C, g, ms[0].AtoB) && Extends(map[], ms[0].AtoB, g.V, lo, hi)
  {
    forall S | S <= g.V ensures Covered(C, g, S, lo, hi, kept) {
      SubsetCard(S, g.V);
    }
    assert Kept(C, g, kept[0], ms[0], combos[0], bases[0], lo, hi);
  }

  /** Size 0 comes first: the only match of the empty pattern is the empty
      mapping, so the first kept result applies g through fresh vertices
      only. */
  lemma FirstFromEmpty(C: GraphState, g: GraphState, kept: seq<GraphState>, ms: seq<VertexMapping>,
                       combos: seq<set<Vertex>>, bases: seq<map<Vertex, Vertex>>, lo: nat, hi: nat)
    requires Sound(C, g, kept, ms, combos, bases, lo, hi) && Covered(C, g, {}, lo, hi, kept)
    requires forall k :: 0 <= k < |combos| ==> |combos[k]| < 1
    ensures |kept| >= 1 && |combos| >= 1 && |bases| >= 1 && combos[0] == {} && bases[0] == map[]
  {
    EmptyPattern(g);
    EmptyPatternMatch(C, Pattern(g, {}), map[]);
    assert Realised(C, g, map[], lo, hi, kept);
    assert |combos[0]| < 1;
    assert Kept(C, g, kept[0], ms[0], combos[0], bases[0], lo, hi);
    EmptyPatternMatch(C, Pattern(g, {}), bases[0]);
  }

  /** The graphs kept so far are valid and hold the states `kept`. */
  ghost predicate Holds(rs: seq<Graph>, kept: seq<GraphState>)
    reads rs
  {
    |rs| == |kept| && forall k :: 0 <= k < |rs| ==> rs[k].Valid() && rs[k].State() == kept[k]
  }

  lemma HoldsAppend(rs: seq<Graph>, kept: seq<GraphState>, r: Graph)
    requires Holds(rs, kept) && r.Valid()
    ensures Holds(rs + [r], kept + [r.State()])
  {
    var rs', kept' := rs + [r], kept + [r.State()];
    forall k | 0 <= k < |rs'| ensures rs'[k].Valid() && rs'[k].State() == kept'[k] {
      if k < |rs| {
        assert rs'[k] == rs[k] && kept'[k] == kept[k];
      }
    }
  }

  /** ConcreteGraph.apply(g, mapping) for a match `mapping`: the counter
      starts above every vertex of the concrete graph. */
  method ApplyMatch(c: Graph, g: Graph, mapping: VertexMapping, ghost lo: nat, cur: nat)
    returns (r: Graph, ext: VertexMapping, next': nat)
    requires c.Valid() && g.Valid() && Mappings.Valid(mapping) && mapping.AtoB.Values <= c.V
    requires (forall v :: v in c.V ==> v < lo) && lo <= cur
    ensures fresh(r) && r.Valid() && r.State() == Applied(c.State(), g.State(), ext.AtoB)
    ensures cur <= next' && Mappings.Valid(ext)
    ensures Extends(mapping.AtoB, ext.AtoB, g.V, lo, next')
  {
    MatchBelow(mapping, c.V, cur);
    r, ext, next' := c.Apply(g, mapping, cur);
    ExtendsWiden(mapping.AtoB, ext.AtoB, g.V, cur, next', lo, next');
  }

  /** The applied graph equals the kept result at `at`: nothing is added. */
  lemma OfferOld(C: GraphState, g: GraphState, kept: seq<GraphState>, ms: seq<VertexMapping>,
                 combos: seq<set<Vertex>>, bases: seq<map<Vertex, Vertex>>, lo: nat, cur: nat, hi: nat,
                 base: map<Vertex, Vertex>, ext: map<Vertex, Vertex>, at: nat)
    requires Sound(C, g, kept, ms, combos, bases, lo, cur) && cur <= hi
    requires Extends(base, ext, g.V, lo, hi) && at < |kept| && GraphEq(kept[at], Applied(C, g, ext))
    ensures Sound(C, g, kept, ms, combos, bases, lo, hi)
    ensures Realised(C, g, base, lo, hi, kept)
  {
    SoundMono(C, g, kept, ms, combos, bases, lo, cur, hi);
    RealisedOld(C, g, base, ext, lo, hi, kept, at);
  }

  /** The applied graph equals no kept result: it is kept. */
  lemma OfferNew(C: GraphState, g: GraphState, kept: seq<GraphState>, ms: seq<VertexMapping>,
                 combos: seq<set<Vertex>>, bases: seq<map<Vertex, Vertex>>, lo: nat, cur: nat, hi: nat,
                 S: set<Vertex>, base: map<Vertex, Vertex>, ext: VertexMapping)
    requires Sound(C, g, kept, ms, combos, bases, lo, cur) && cur <= hi
    requires Mappings.Valid(ext) && Candidate(C, g, S, base, ext.AtoB, lo, hi)
    requires forall k :: 0 <= k < |kept| ==> !GraphEq(kept[k], Applied(C, g, ext.AtoB))
    ensures Sound(C, g, kept + [Applied(C, g, ext.AtoB)], ms + [ext], combos + [S], bases + [base], lo, hi)
    ensures Realised(C, g, base, lo, hi, kept + [Applied(C, g, ext.AtoB)])
  {
    SoundMono(C, g, kept, ms, combos, bases, lo, cur, hi);
    SoundAdd(C, g, kept, ms, combos, bases, lo, hi, S, base, ext);
    RealisedNew(C, g, base, ext.AtoB, lo, hi, kept, Applied(C, g, ext.AtoB));
  }

  /** `r not in distinct_graphs`: the set's hash is constant, so membership
      is decided by Graph.__eq__ against the graphs kept so far; `at` is
      where the equal one was found. */
  method Seen(rs: seq<Graph>, r: Graph) returns (b: bool, at: nat)
    requires r.Valid() && forall k :: 0 <= k < |rs| ==> rs[k].Valid()
    ensures b ==> at < |rs| && GraphEq(rs[at].State(), r.State())
    ensures !b ==> forall k :: 0 <= k < |rs| ==> !GraphEq(rs[k].State(), r.State())
  {
    b, at := false, 0;
    while at < |rs|
      invariant at <= |rs|
      invariant forall k :: 0 <= k < at ==> !GraphEq(rs[k].State(), r.State())
    {
      b := rs[at].Equals(r);
      if b {
        return;
      }
      at := at + 1;
    }
  }

  /** A graph that is to be made to contain further graphs. */
  class AbstractGraph {
    const ConcreteGraph: Graph

    /** AbstractGraph.__init__: without a graph it starts from the empty one. */
    constructor (concrete: Option<Graph>)
      ensures concrete.Some? ==> ConcreteGraph == concrete.value
      ensures concrete.None? ==> fresh(ConcreteGraph) && ConcreteGraph.Valid() && ConcreteGraph.E == {}
    {
      if concrete.Some? {
        ConcreteGraph := concrete.value;
      } else {
        ConcreteGraph := new Graph.FromEdges([]);
      }
    }

    /** The loop body of AbstractGraph.match for one match of g[combo]:
        apply g through it, and keep the result unless the graphs kept so far
        hold one equal to it. */
    method Offer(g: Graph, mapping: VertexMapping, ghost S: set<Vertex>, ghost lo: nat, cur: nat,
                 rs: seq<Graph>, ms: seq<VertexMapping>, ghost kept: seq<GraphState>,
                 ghost combos: seq<set<Vertex>>, ghost bases: seq<map<Vertex, Vertex>>)
      returns (rs': seq<Graph>, ms': seq<VertexMapping>, next': nat, ghost kept': seq<GraphState>,
               ghost combos': seq<set<Vertex>>, ghost bases': seq<map<Vertex, Vertex>>)
      requires ConcreteGraph.Valid() && g.Valid() && S <= g.V
      requires Mappings.Valid(mapping) && IsMatch(ConcreteGraph.State(), Pattern(g.State(), S), mapping.AtoB)
      requires (forall v :: v in ConcreteGraph.V ==> v < lo) && lo <= cur
      requires Holds(rs, kept)
      requires Sound(ConcreteGraph.State(), g.State(), kept, ms, combos, bases, lo, cur)
      ensures cur <= next' && rs <= rs' && kept <= kept'
      ensures forall k :: |rs| <= k < |rs'| ==> fresh(rs'[k])
      ensures Holds(rs', kept')
      ensures Sound(ConcreteGraph.State(), g.State(), kept', ms', combos', bases', lo, next')
      ensures Realised(ConcreteGraph.State(), g.State(), mapping.AtoB, lo, next', kept')
      ensures Extended(combos, combos', bases, bases', |S|)
    {
      ghost var C, gs := ConcreteGraph.State(), g.State();
      var r, ext;
      r, ext, next' := ApplyMatch(ConcreteGraph, g, mapping, lo, cur);
      var seen, at := Seen(rs, r);
      if seen {
        rs', ms', kept', combos', bases' := rs, ms, kept, combos, bases;
        OfferOld(C, gs, kept, ms, combos, bases, lo, cur, next', mapping.AtoB, ext.AtoB, at);
      } else {
        OfferNew(C, gs, kept, ms, combos, bases, lo, cur, next', S, mapping.AtoB, ext);
        rs', ms', combos', bases' := rs + [r], ms + [ext], combos + [S], bases + [mapping.AtoB];
        kept' := kept + [r.State()];
        HoldsAppend(rs, kept, r);
      }
    }

    /** The middle loop of AbstractGraph.match for one combination: the
        matches of g[combo] in the concrete graph, each offered in turn. */
    method TryCombo(g: Graph, combo: seq<Vertex>, ghost lo: nat, cur: nat,
                    rs: seq<Graph>, ms: seq<VertexMapping>, ghost kept: seq<GraphState>,
                    ghost combos: seq<set<Vertex>>, ghost bases: seq<map<Vertex, Vertex>>)
      returns (rs': seq<Graph>, ms': seq<VertexMapping>, next': nat, ghost kept': seq<GraphState>,
               ghost combos': seq<set<Vertex>>, ghost bases': seq<map<Vertex, Vertex>>)
      requires ConcreteGraph.Valid() && g.Valid() && SeqSet(combo) <= g.V
      requires (forall v :: v in ConcreteGraph.V ==> v < lo) && lo <= cur
      requires Holds(rs, kept)
      requires Sound(ConcreteGraph.State(), g.State(), kept, ms, combos, bases, lo, cur)
      ensures cur <= next' && rs <= rs' && kept <= kept'
      ensures forall k :: |rs| <= k < |rs'| ==> fresh(rs'[k])
      ensures Holds(rs', kept')
      ensures Sound(ConcreteGraph.State(), g.State(), kept', ms', combos', bases', lo, next')
      ensures Covered(ConcreteGraph.State(), g.State(), SeqSet(combo), lo, next', kept')
      ensures Extended(combos, combos', bases, bases', |SeqSet(combo)|)
    {
      ghost var C, gs := ConcreteGraph.State(), g.State();
      ghost var S := SeqSet(combo);
      var matches := PatternMatches(g, combo);
      assert ConcreteGraph.State() == C && g.State() == gs;
      rs', ms', next', kept', combos', bases' := rs, ms, cur, kept, combos, bases;
      var j := 0;
      while j < |matches|
        invariant 0 <= j <= |matches| && cur <= next'
        invariant rs <= rs' && kept <= kept'
        invariant forall k :: |rs| <= k < |rs'| ==> fresh(rs'[k])
        invariant Holds(rs', kept')
        invariant Sound(C, gs, kept', ms', combos', bases', lo, next')
        invariant RealisedUpTo(C, gs, matches, j, lo, next', kept')
        invariant Extended(combos, combos', bases, bases', |S|)
      {
        ghost var next0, kept0, combos0, bases0 := next', kept', combos', bases';
        rs', ms', next', kept', combos', bases' := Offer(g, matches[j], S, lo, next', rs', ms', kept', combos', bases');
        RealisedUpToStep(C, gs, matches, j, lo, next0, next', kept0, kept');
        ExtendedTrans(combos, combos0, combos', bases, bases0, bases', |S|);
        j := j + 1;
      }
      RealisedAll(C, gs, S, matches, lo, next', kept');
    }

    /** ConcreteGraph.match(g[combo]): the matches of the pattern the
        combination induces in g, every one of them and only those. */
    method PatternMatches(g: Graph, combo: seq<Vertex>) returns (matches: seq<VertexMapping>)
      requires ConcreteGraph.Valid() && g.Valid() && SeqSet(combo) <= g.V
      ensures forall k :: 0 <= k < |matches| ==>
        Mappings.Valid(matches[k]) && IsMatch(ConcreteGraph.State(), Pattern(g.State(), SeqSet(combo)), matches[k].AtoB)
      ensures forall mu :: IsMatch(ConcreteGraph.State(), Pattern(g.State(), SeqSet(combo)), mu) ==>
        exists k :: 0 <= k < |matches| && matches[k].AtoB == mu
    {
      ghost var C, P := ConcreteGraph.State(), Pattern(g.State(), SeqSet(combo));
      assert forall v :: v in combo ==> v in SeqSet(combo);
      var sub := g.GetItem(combo);
      var p := sub.value;
      assert p.State() == P;
      matches := ConcreteGraph.Match(p);
      assert ConcreteGraph.State() == C && p.State() == P && Pattern(g.State(), SeqSet(combo)) == P;
    }

    /** The loop of AbstractGraph.match over itertools.combinations(g.V, r)
        for one size r. */
    method TrySize(g: Graph, vl: seq<Vertex>, r: nat, ghost lo: nat, cur: nat,
                   rs: seq<Graph>, ms: seq<VertexMapping>, ghost kept: seq<GraphState>,
                   ghost combos: seq<set<Vertex>>, ghost bases: seq<map<Vertex, Vertex>>)
      returns (rs': seq<Graph>, ms': seq<VertexMapping>, next': nat, ghost kept': seq<GraphState>,
               ghost combos': seq<set<Vertex>>, ghost bases': seq<map<Vertex, Vertex>>)
      requires ConcreteGraph.Valid() && g.Valid() && SeqSet(vl) == g.V && Distinct(vl)
      requires (forall v :: v in ConcreteGraph.V ==> v < lo) && lo <= cur
      requires Holds(rs, kept)
      requires Sound(ConcreteGraph.State(), g.State(), kept, ms, combos, bases, lo, cur)
      ensures cur <= next' && rs <= rs' && kept <= kept'
      ensures forall k :: |rs| <= k < |rs'| ==> fresh(rs'[k])
      ensures Holds(rs', kept')
      ensures Sound(ConcreteGraph.State(), g.State(), kept', ms', combos', bases', lo, next')
      ensures forall S :: S <= g.V && |S| == r ==> Covered(ConcreteGraph.State(), g.State(), S, lo, next', kept')
      ensures Extended(combos, combos', bases, bases', r)
    {
      ghost var C, gs := ConcreteGraph.State(), g.State();
      rs', ms', next', kept', combos', bases' := rs, ms, cur, kept, combos, bases;
      var cands := Combinations(vl, r);
      var i := 0;
      while i < |cands|
        invariant 0 <= i <= |cands| && cur <= next'
        invariant rs <= rs' && kept <= kept'
        invariant forall k :: |rs| <= k < |rs'| ==> fresh(rs'[k])
        invariant Holds(rs', kept')
        invariant Sound(C, gs, kept', ms', combos', bases', lo, next')
        invariant CoveredUpTo(C, gs, cands, i, lo, next', kept')
        invariant Extended(combos, combos', bases, bases', r)
      {
        CombinationsSound(vl, r, cands[i]);
        ghost var next0, kept0, combos0, bases0 := next', kept', combos', bases';
        rs', ms', next', kept', combos', bases' := TryCombo(g, cands[i], lo, next', rs', ms', kept', combos', bases');
        CoveredUpToStep(C, gs, cands, i, lo, next0, next', kept0, kept');
        ExtendedTrans(combos, combos0, combos', bases, bases0, bases', r);
        i := i + 1;
      }
      forall S | S <= g.V && |S| == r ensures Covered(C, gs, S, lo, next', kept') {
        var c := CombinationsComplete(vl, S);
        var j :| 0 <= j < |cands| && cands[j] == c;
      }
    }

    /** AbstractGraph.match: for every set of vertices of g, taken in the
        order of itertools.combinations over list(g.V) by increasing size,
        every match of g[combo] in the concrete graph is completed by
        applying all of g through it, new vertices standing for the rest of
        g. A result equal (Graph.__eq__) to an earlier one is dropped. */
    method Match(g: Graph, nextId: nat)
      returns (rs: seq<Graph>, ms: seq<VertexMapping>, next': nat, ghost kept: seq<GraphState>,
               ghost combos: seq<set<Vertex>>, ghost bases: seq<map<Vertex, Vertex>>)
      requires ConcreteGraph.Valid() && g.Valid()
      requires forall v :: v in ConcreteGraph.V ==> v < nextId
      ensures nextId <= next' && |rs| == |kept| >= 1
      ensures forall k :: 0 <= k < |rs| ==> fresh(rs[k]) && rs[k].Valid() && rs[k].State() == kept[k]
      ensures Sound(ConcreteGraph.State(), g.State(), kept, ms, combos, bases, nextId, next')
      ensures forall S :: S <= g.V ==> Covered(ConcreteGraph.State(), g.State(), S, nextId, next', kept)
      ensures Ascending(combos)
      ensures combos[0] == {} && bases[0] == map[]
      ensures kept[0] == Applied(ConcreteGraph.State(), g.State(), ms[0].AtoB)
      ensures Extends(map[], ms[0].AtoB, g.V, nextId, next')
    {
      ghost var C, gs := ConcreteGraph.State(), g.State();
      rs, ms, next', kept, combos, bases := [], [], nextId, [], [], [];
      var vl := SetToSeq(g.V);
      var r := 0;
      while r <= |vl|
        invariant r <= |vl| + 1 && nextId <= next'
        invariant Holds(rs, kept) && forall k :: 0 <= k < |rs| ==> fresh(rs[k])
        invariant Sound(C, gs, kept, ms, combos, bases, nextId, next')
        invariant SizesDone(C, gs, r, nextId, next', kept, combos, bases)
      {
        ghost var next0, kept0, combos0, bases0 := next', kept, combos, bases;
        rs, ms, next', kept, combos, bases := TrySize(g, vl, r, nextId, next', rs, ms, kept, combos, bases);
        SizesDoneStep(C, gs, r, nextId, next0, next', kept0, kept, ms, combos0, combos, bases0, bases);
        r := r + 1;
      }
      assert C == ConcreteGraph.State() && gs == g.State();
      SizesAllDone(C, gs, r, nextId, next', kept, ms, combos, bases);
    }
  }

  // -------------------------------------------------------------------- Node

  /** A node of the search tree: an abstract graph, its parent, and the map
      from this node's concrete vertices to the parent's. */
  datatype Node = Node(AG: AbstractGraph, Parent: Option<Node>, ParentMapping: map<Vertex, Vertex>)

  /** The abstract graph at the top of the chain of parents. */
  function Root(n: Node): AbstractGraph
    decreases n
  {
    match n.Parent
    case None => n.AG
    case Some(p) => Root(p)
  }

  /** The mapping get_root_mapping returns: the identity on the root's
      concrete vertices, and below it each ParentMapping followed by the
      parent's mapping, where that is defined. */
  ghost function RootMap(n: Node): map<Vertex, Vertex>
    reads Root(n).ConcreteGraph
    decreases n
  {
    match n.Parent
    case None => map v | v in n.AG.ConcreteGraph.V :: v
    case Some(p) => ComposeMap(n.ParentMapping, RootMap(p))
  }

  /** Node.get_root_mapping: the root's concrete graph and the mapping from
      this node's vertices into it. */
  method GetRootMapping(n: Node) returns (g: Graph, m: map<Vertex, Vertex>)
    ensures g == Root(n).ConcreteGraph && m == RootMap(n)
    decreases n
  {
    match n.Parent
    case None =>
      g := n.AG.ConcreteGraph;
      m := map v | v in g.V :: v;
    case Some(p) =>
      var mapping;
      g, mapping := GetRootMapping(p);
      m := map[];
      var todo := n.ParentMapping.Keys;
      while todo != {}
        invariant todo <= n.ParentMapping.Keys
        invariant forall k :: k in m <==> k in n.ParentMapping && k !in todo && n.ParentMapping[k] in mapping
        invariant forall k :: k in m ==> m[k] == mapping[n.ParentMapping[k]]
        decreases todo
      {
        var k :| k in todo;
        var v := n.ParentMapping[k];
        if v in mapping {
          m := m[k := mapping[v]];
        }
        todo := todo - {k};
      }
      assert m == ComposeMap(n.ParentMapping, mapping);
  }

  /** Every vertex the root mapping reaches is a vertex of the root graph. */
  lemma {:induction false} RootMapInto(n: Node)
    ensures RootMap(n).Values <= Root(n).ConcreteGraph.V
    decreases n
  {
    match n.Parent
    case None =>
    case Some(p) =>
      RootMapInto(p);
      forall y | y in RootMap(n).Values ensures y in RootMap(p).Values {
        var a :| a in RootMap(n) && RootMap(n)[a] == y;
        assert RootMap(p)[n.ParentMapping[a]] == y;
      }
  }

  /** Which vertices the root mapping covers: all of the root graph at the
      root, and below it the vertices whose parent image is covered. */
  lemma RootMapKeys(n: Node)
    ensures n.Parent.None? ==> RootMap(n).Keys == n.AG.ConcreteGraph.V
    ensures n.Parent.Some? ==> forall a :: a in RootMap(n) <==> a in n.ParentMapping && n.ParentMapping[a] in RootMap(n.Parent.value)
  {
  }

  /** Every ParentMapping on the way to the root is one-to-one. */
  predicate InjectivePath(n: Node)
    decreases n
  {
    match n.Parent
    case None => true
    case Some(p) => Injective(n.ParentMapping) && InjectivePath(p)
  }

  /** One-to-one parent mappings give a one-to-one root mapping. */
  lemma {:induction false} RootMapInjective(n: Node)
    requires InjectivePath(n)
    ensures Injective(RootMap(n))
    decreases n
  {
    match n.Parent
    case None =>
    case Some(p) =>
      RootMapInjective(p);
  }

  /** Two levels of the tree compose as one: the grandchild's mapping can be
      taken through the composed parent mappings. */
  lemma RootMapTwoSteps(n: Node)
    requires n.Parent.Some? && n.Parent.value.Parent.Some?
    ensures RootMap(n) == ComposeMap(ComposeMap(n.ParentMapping, n.Parent.value.ParentMapping),
                                     RootMap(n.Parent.value.Parent.value))
  {
    var p := n.Parent.value;
    ComposeAssociative(n.ParentMapping, p.ParentMapping, RootMap(p.Parent.value));
  }
}
