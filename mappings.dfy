/**
 Vertex identities and the two-way VertexMapping of Graph.py.

 A VertexMapping holds a forward dictionary AtoB and a backward dictionary
 BtoA. Here it is a value: the operations that the Python code performs in
 place on the two dictionaries return the updated mapping instead.
 */
module Mappings {
  import opened Wrappers

  /** A vertex is nothing but its id. Ids come from an explicit counter `nextId`
      that the callers thread through, instead of the global Vertex.ID. */
  type Vertex = nat

  datatype VertexMapping = VertexMapping(AtoB: map<Vertex, Vertex>, BtoA: map<Vertex, Vertex>)

  const Empty: VertexMapping := VertexMapping(map[], map[])

  predicate Injective(f: map<Vertex, Vertex>) {
    forall a, b :: a in f && b in f && a != b ==> f[a] != f[b]
  }

  /** The invariant of a VertexMapping: its two directions are mutual inverses. */
  predicate Valid(m: VertexMapping) {
    && (forall a :: a in m.AtoB ==> m.AtoB[a] in m.BtoA && m.BtoA[m.AtoB[a]] == a)
    && (forall b :: b in m.BtoA ==> m.BtoA[b] in m.AtoB && m.AtoB[m.BtoA[b]] == b)
  }

  /** Every vertex the mapping mentions as an image lies below the counter. */
  predicate Below(m: VertexMapping, nextId: nat) {
    && (forall a :: a in m.AtoB ==> m.AtoB[a] < nextId)
    && (forall b :: b in m.BtoA ==> b < nextId)
  }

  /** The keys `pairs` maps that lie in `keys`. */
  function Restrict(pairs: map<Vertex, Vertex>, keys: set<Vertex>): (r: map<Vertex, Vertex>)
    ensures r.Keys == pairs.Keys * keys
    ensures forall k :: k in r ==> r[k] == pairs[k]
  {
    map k | k in pairs && k in keys :: pairs[k]
  }

  /** What add_mapping leaves behind: the forward direction is overwritten
      with `pairs`; the backward direction maps every new image to one of its
      preimages in `pairs` (which one depends on the dictionary's iteration
      order when `pairs` is not injective) and keeps all other old entries. */
  ghost predicate Added(m: VertexMapping, pairs: map<Vertex, Vertex>, r: VertexMapping) {
    && r.AtoB == m.AtoB + pairs
    && r.BtoA.Keys == m.BtoA.Keys + pairs.Values
    && (forall b :: b in pairs.Values ==> r.BtoA[b] in pairs && pairs[r.BtoA[b]] == b)
    && (forall b :: b in m.BtoA && b !in pairs.Values ==> r.BtoA[b] == m.BtoA[b])
  }

  /** VertexMapping.add_mapping: both directions are set for every pair. */
  method AddMapping(m: VertexMapping, pairs: map<Vertex, Vertex>) returns (r: VertexMapping)
    ensures Added(m, pairs, r)
  {
    r := m;
    var todo := pairs.Keys;
    ghost var done: map<Vertex, Vertex> := map[];
    while todo != {}
      invariant Adding(m, pairs, todo, done, r)
      decreases todo
    {
      var k :| k in todo;
      AddOne(m, pairs, todo, done, r, k);
      r := VertexMapping(r.AtoB[k := pairs[k]], r.BtoA[pairs[k] := k]);
      done := done[k := pairs[k]];
      todo := todo - {k};
    }
    AddingDone(m, pairs, done, r);
  }

  /** What add_mapping's loop keeps true: the pairs of `done` have been added
      and `todo` holds the keys still to come. */
  ghost predicate Adding(m: VertexMapping, pairs: map<Vertex, Vertex>, todo: set<Vertex>,
                         done: map<Vertex, Vertex>, r: VertexMapping) {
    && todo <= pairs.Keys && done.Keys == pairs.Keys - todo
    && done == Restrict(pairs, done.Keys)
    && Added(m, done, r)
  }

  lemma AddingDone(m: VertexMapping, pairs: map<Vertex, Vertex>, done: map<Vertex, Vertex>, r: VertexMapping)
    requires Adding(m, pairs, {}, done, r)
    ensures Added(m, pairs, r)
  {
    assert done == pairs;
  }

  /** One iteration of add_mapping's loop. */
  lemma AddOne(m: VertexMapping, pairs: map<Vertex, Vertex>, todo: set<Vertex>,
               done: map<Vertex, Vertex>, r: VertexMapping, k: Vertex)
    requires Adding(m, pairs, todo, done, r) && k in todo
    ensures Adding(m, pairs, todo - {k}, done[k := pairs[k]],
                   VertexMapping(r.AtoB[k := pairs[k]], r.BtoA[pairs[k] := k]))
  {
    ValuesOfUpdate(done, k, pairs[k]);
    AddOneStep(m, done, done[k := pairs[k]], r, VertexMapping(r.AtoB[k := pairs[k]], r.BtoA[pairs[k] := k]), k, pairs[k]);
    assert done[k := pairs[k]] == Restrict(pairs, done.Keys + {k});
  }

  /** The mapping after one more pair `k := v` has been added. */
  lemma AddOneStep(m: VertexMapping, done: map<Vertex, Vertex>, d: map<Vertex, Vertex>,
                   r: VertexMapping, r': VertexMapping, k: Vertex, v: Vertex)
    requires Added(m, done, r) && k !in done && d == done[k := v]
    requires r' == VertexMapping(r.AtoB[k := v], r.BtoA[v := k])
    requires d.Values == done.Values + {v}
    ensures Added(m, d, r')
  {
    AddOneNew(m, done, d, r, r', k, v);
    AddOneOld(m, done, d, r, r', k, v);
    assert r'.AtoB == m.AtoB + d;
    assert r'.BtoA.Keys == m.BtoA.Keys + d.Values;
  }

  lemma AddOneNew(m: VertexMapping, done: map<Vertex, Vertex>, d: map<Vertex, Vertex>,
                  r: VertexMapping, r': VertexMapping, k: Vertex, v: Vertex)
    requires Added(m, done, r) && k !in done && d == done[k := v]
    requires r' == VertexMapping(r.AtoB[k := v], r.BtoA[v := k])
    requires d.Values == done.Values + {v}
    ensures forall b :: b in d.Values ==> r'.BtoA[b] in d && d[r'.BtoA[b]] == b
  {
    forall b | b in d.Values ensures r'.BtoA[b] in d && d[r'.BtoA[b]] == b {
      if b != v {
        assert b in done.Values;
      }
    }
  }

  lemma AddOneOld(m: VertexMapping, done: map<Vertex, Vertex>, d: map<Vertex, Vertex>,
                  r: VertexMapping, r': VertexMapping, k: Vertex, v: Vertex)
    requires Added(m, done, r) && k !in done && d == done[k := v]
    requires r' == VertexMapping(r.AtoB[k := v], r.BtoA[v := k])
    requires d.Values == done.Values + {v}
    ensures forall b :: b in m.BtoA && b !in d.Values ==> r'.BtoA[b] == m.BtoA[b]
  {
  }

  lemma ValuesOfUpdate(f: map<Vertex, Vertex>, k: Vertex, v: Vertex)
    requires k !in f
    ensures f[k := v].Values == f.Values + {v}
  {
    var g := f[k := v];
    forall b | b in g.Values ensures b in f.Values + {v} {
      var j :| j in g && g[j] == b;
      if j != k { assert j in f; }
    }
    forall b | b in f.Values ensures b in g.Values {
      var j :| j in f && f[j] == b;
      assert j in g;
    }
    assert k in g;
  }

  /** Both directions of a valid mapping are injective. */
  lemma ValidInjective(m: VertexMapping)
    requires Valid(m)
    ensures Injective(m.AtoB) && Injective(m.BtoA)
  {
    forall a, b | a in m.AtoB && b in m.AtoB && a != b ensures m.AtoB[a] != m.AtoB[b] {
      assert m.BtoA[m.AtoB[a]] == a;
      assert m.BtoA[m.AtoB[b]] == b;
    }
    forall a, b | a in m.BtoA && b in m.BtoA && a != b ensures m.BtoA[a] != m.BtoA[b] {
      assert m.AtoB[m.BtoA[a]] == a;
      assert m.AtoB[m.BtoA[b]] == b;
    }
  }

  /** A mapping built from nothing has exactly the given pairs forward. */
  lemma AddedToEmpty(pairs: map<Vertex, Vertex>, r: VertexMapping)
    requires Added(Empty, pairs, r)
    ensures r.AtoB == pairs
  {
    assert r.AtoB.Keys == pairs.Keys;
  }

  /** Adding an injective dictionary whose keys and images are both new keeps
      the two directions mutual inverses. */
  lemma AddedKeepsValid(m: VertexMapping, pairs: map<Vertex, Vertex>, r: VertexMapping)
    requires Valid(m) && Injective(pairs) && Added(m, pairs, r)
    requires pairs.Keys !! m.AtoB.Keys && pairs.Values !! m.BtoA.Keys
    ensures Valid(r)
  {
    forall a | a in r.AtoB
      ensures r.AtoB[a] in r.BtoA && r.BtoA[r.AtoB[a]] == a
    {
      if a in pairs {
        assert pairs[a] in pairs.Values;
      } else {
        assert m.AtoB[a] in m.BtoA;
      }
    }
  }

  /** One new vertex added for a key the mapping has not seen: add_mapping
      sets exactly the two entries, and the mapping stays valid and below the
      bumped counter. */
  lemma AddFreshKeepsValid(m: VertexMapping, v: Vertex, nextId: nat, r: VertexMapping)
    requires Valid(m) && Below(m, nextId) && v !in m.AtoB
    requires Added(m, map[v := nextId], r)
    ensures r == VertexMapping(m.AtoB[v := nextId], m.BtoA[nextId := v])
    ensures Valid(r) && Below(r, nextId + 1)
  {
    assert map[v := nextId].Values == {nextId};
    AddedKeepsValid(m, map[v := nextId], r);
  }

  /** VertexMapping.remove_mapping on a valid mapping: the keys and their
      images are dropped, absent keys are ignored. */
  function Removed(m: VertexMapping, keys: set<Vertex>): VertexMapping {
    VertexMapping(m.AtoB - keys, m.BtoA - (set k | k in keys && k in m.AtoB :: m.AtoB[k]))
  }

  /** A key outside `keys` keeps its image out of the images of `keys`. */
  lemma ImageOutside(m: VertexMapping, keys: set<Vertex>, a: Vertex)
    requires Valid(m) && a in m.AtoB && a !in keys
    ensures m.AtoB[a] !in (set k | k in keys && k in m.AtoB :: m.AtoB[k])
  {
    ValidInjective(m);
  }

  /** The elements of a list. */
  function SeqSet<T>(s: seq<T>): set<T> {
    set k | k in s
  }

  lemma RemovedKeepsValid(m: VertexMapping, keys: set<Vertex>)
    requires Valid(m)
    ensures Valid(Removed(m, keys))
  {
    var r := Removed(m, keys);
    ValidInjective(m);
    forall a | a in r.AtoB
      ensures r.AtoB[a] in r.BtoA && r.BtoA[r.AtoB[a]] == a
    {
      ImageOutside(m, keys, a);
    }
  }

  /** remove_mapping key by key: a key in AtoB loses its BtoA entry and then
      its AtoB entry, absent keys are skipped, and a key whose image has no
      BtoA entry raises KeyError (None). */
  function RemoveKeys(m: VertexMapping, keys: seq<Vertex>): Option<VertexMapping>
    decreases |keys|
  {
    if keys == [] then Some(m)
    else if keys[0] !in m.AtoB then RemoveKeys(m, keys[1..])
    else if m.AtoB[keys[0]] !in m.BtoA then None
    else RemoveKeys(VertexMapping(m.AtoB - {keys[0]}, m.BtoA - {m.AtoB[keys[0]]}), keys[1..])
  }

  /** What remove_mapping leaves on a consistent mapping: the keys and their
      images are gone, and nothing raises. */
  lemma {:induction false} RemoveKeysValid(m: VertexMapping, keys: seq<Vertex>, gone: set<Vertex>, cur: VertexMapping)
    requires Valid(m) && cur == Removed(m, gone)
    ensures RemoveKeys(cur, keys) == Some(Removed(m, gone + SeqSet(keys)))
    decreases |keys|
  {
    if keys == [] {
      assert gone + SeqSet(keys) == gone;
    } else {
      var k := keys[0];
      assert SeqSet(keys) == {k} + SeqSet(keys[1..]) by {
        assert keys == [k] + keys[1..];
      }
      if k in cur.AtoB {
        ImageOutside(m, gone, k);
        assert Removed(m, gone + {k}) == VertexMapping(cur.AtoB - {k}, cur.BtoA - {cur.AtoB[k]});
        RemoveKeysValid(m, keys[1..], gone + {k}, Removed(m, gone + {k}));
        assert gone + {k} + SeqSet(keys[1..]) == gone + SeqSet(keys);
      } else {
        assert Removed(m, gone + {k}) == cur;
        RemoveKeysValid(m, keys[1..], gone + {k}, cur);
        assert gone + {k} + SeqSet(keys[1..]) == gone + SeqSet(keys);
      }
    }
  }

  /** The KeyError path is reachable: two keys share an image, so after the
      first is removed the second finds no BtoA entry. */
  lemma RemoveSharedImage()
    ensures RemoveKeys(VertexMapping(map[1 := 5, 2 := 5], map[5 := 2]), [1, 2]) == None
  {
    var m := VertexMapping(map[1 := 5, 2 := 5], map[5 := 2]);
    var m1 := VertexMapping(m.AtoB - {1}, m.BtoA - {5});
    assert [1, 2][1..] == [2];
    assert RemoveKeys(m, [1, 2]) == RemoveKeys(m1, [2]);
    assert m1.AtoB[2] == 5 && 5 !in m1.BtoA;
  }

  /** VertexMapping.remove_mapping. A key whose image is missing from the
      backward direction makes the Python code raise KeyError: None here. */
  method RemoveMapping(m: VertexMapping, keys: seq<Vertex>) returns (r: Option<VertexMapping>)
    ensures r == RemoveKeys(m, keys)
    ensures r.Some? ==> r.value.AtoB == m.AtoB - SeqSet(keys)
    ensures Valid(m) ==> r == Some(Removed(m, SeqSet(keys))) && Valid(r.value)
  {
    var cur := m;
    var i := 0;
    while i < |keys|
      invariant 0 <= i <= |keys|
      invariant cur.AtoB == m.AtoB - SeqSet(keys[..i])
      invariant RemoveKeys(m, keys) == RemoveKeys(cur, keys[i..])
    {
      var k := keys[i];
      assert SeqSet(keys[..i + 1]) == SeqSet(keys[..i]) + {k} by {
        assert keys[..i + 1] == keys[..i] + [k];
      }
      assert keys[i..][1..] == keys[i + 1..];
      if k in cur.AtoB {
        if cur.AtoB[k] !in cur.BtoA {
          r := None;
          RemoveKeysOnValid(m, keys, r);
          return;
        }
        cur := VertexMapping(cur.AtoB - {k}, cur.BtoA - {cur.AtoB[k]});
      }
      i := i + 1;
    }
    assert keys[..i] == keys;
    r := Some(cur);
    RemoveKeysOnValid(m, keys, r);
  }

  lemma RemoveKeysOnValid(m: VertexMapping, keys: seq<Vertex>, r: Option<VertexMapping>)
    requires r == RemoveKeys(m, keys)
    ensures Valid(m) ==> r == Some(Removed(m, SeqSet(keys))) && Valid(r.value)
  {
    if Valid(m) {
      assert Removed(m, {}) == m;
      RemoveKeysValid(m, keys, {}, m);
      assert {} + SeqSet(keys) == SeqSet(keys);
      RemovedKeepsValid(m, SeqSet(keys));
    }
  }

  /** VertexMapping.__contains__: membership among the forward keys. */
  function Contains(m: VertexMapping, v: Vertex): (b: bool)
    ensures b <==> v in m.AtoB.Keys
  {
    v in m.AtoB
  }

  /** VertexMapping.__getitem__: KeyError (None) for an absent key. */
  function Lookup(m: VertexMapping, key: Vertex): (r: Option<Vertex>)
    ensures r.Some? <==> key in m.AtoB
    ensures r.Some? ==> r.value == m.AtoB[key]
  {
    if key in m.AtoB then Some(m.AtoB[key]) else None
  }

  /** After add_mapping, `v in mapping` and `mapping[v]` see the added pairs
      first and the old forward direction otherwise. */
  lemma LookupAdded(m: VertexMapping, pairs: map<Vertex, Vertex>, r: VertexMapping, v: Vertex)
    requires Added(m, pairs, r)
    ensures Contains(r, v) <==> Contains(m, v) || v in pairs
    ensures Lookup(r, v) == if v in pairs then Some(pairs[v]) else Lookup(m, v)
  {
  }

  /** On a consistent mapping, `(~m)[b] == a` exactly when `m[a] == b`. */
  lemma LookupInverse(m: VertexMapping, a: Vertex, b: Vertex)
    requires Valid(m)
    ensures Lookup(Inverse(m), b) == Some(a) <==> Lookup(m, a) == Some(b)
  {
  }

  /** Removing keys: `v in mapping` afterwards exactly when it was before and
      was not removed. */
  lemma ContainsRemoved(m: VertexMapping, keys: seq<Vertex>, r: VertexMapping, v: Vertex)
    requires Some(r) == RemoveKeys(m, keys)
    ensures Contains(r, v) <==> Contains(m, v) && v !in keys
    decreases |keys|
  {
    if keys != [] {
      var k := keys[0];
      assert forall x :: x in keys <==> x == k || x in keys[1..] by {
        assert keys == [k] + keys[1..];
      }
      if k !in m.AtoB {
        ContainsRemoved(m, keys[1..], r, v);
      } else {
        ContainsRemoved(VertexMapping(m.AtoB - {k}, m.BtoA - {m.AtoB[k]}), keys[1..], r, v);
      }
    }
  }

  /** The dictionary VertexMapping.__mul__ builds: `a` is kept exactly when
      its image is a key of `g`, and then goes to the image of that image. */
  function ComposeMap(f: map<Vertex, Vertex>, g: map<Vertex, Vertex>): (h: map<Vertex, Vertex>)
  {
    map a | a in f && f[a] in g :: g[f[a]]
  }

  /** VertexMapping.__mul__: compose through the shared middle space. */
  method Compose(m1: VertexMapping, m2: VertexMapping) returns (r: VertexMapping)
    ensures Added(Empty, ComposeMap(m1.AtoB, m2.AtoB), r)
    ensures forall a :: a in r.AtoB <==> a in m1.AtoB && m1.AtoB[a] in m2.AtoB
    ensures forall a :: a in r.AtoB ==> r.AtoB[a] == m2.AtoB[m1.AtoB[a]]
    ensures forall a :: Lookup(r, a) == if Lookup(m1, a).Some? then Lookup(m2, Lookup(m1, a).value) else None
  {
    var mapping: map<Vertex, Vertex> := map[];
    var todo := m1.AtoB.Keys;
    while todo != {}
      invariant todo <= m1.AtoB.Keys
      invariant mapping == ComposeMap(Restrict(m1.AtoB, m1.AtoB.Keys - todo), m2.AtoB)
      decreases todo
    {
      var a :| a in todo;
      var b := m1.AtoB[a];
      if b in m2.AtoB {
        mapping := mapping[a := m2.AtoB[b]];
      }
      todo := todo - {a};
    }
    assert Restrict(m1.AtoB, m1.AtoB.Keys - todo) == m1.AtoB;
    r := AddMapping(Empty, mapping);
  }

  /** Composing two valid mappings gives a valid one whose backward direction
      is the composition of the backward directions, in the other order. */
  lemma ComposeValid(m1: VertexMapping, m2: VertexMapping, r: VertexMapping)
    requires Valid(m1) && Valid(m2)
    requires Added(Empty, ComposeMap(m1.AtoB, m2.AtoB), r)
    ensures Valid(r)
    ensures r.BtoA == ComposeMap(m2.BtoA, m1.BtoA)
  {
    var h := ComposeMap(m1.AtoB, m2.AtoB);
    ComposeInjective(m1, m2);
    AddedKeepsValid(Empty, h, r);
    var g := ComposeMap(m2.BtoA, m1.BtoA);
    forall c | c in r.BtoA ensures c in g && g[c] == r.BtoA[c] {
      var a := r.BtoA[c];
      assert a in h && h[a] == c;
      assert m2.BtoA[c] == m1.AtoB[a];
    }
    forall c | c in g ensures c in r.BtoA {
      var a := g[c];
      assert a in h && h[a] == c;
      assert c in h.Values;
    }
  }

  lemma ComposeInjective(m1: VertexMapping, m2: VertexMapping)
    requires Valid(m1) && Valid(m2)
    ensures Injective(ComposeMap(m1.AtoB, m2.AtoB))
  {
    ValidInjective(m1);
    ValidInjective(m2);
  }

  /** Composition is associative. */
  lemma ComposeAssociative(f: map<Vertex, Vertex>, g: map<Vertex, Vertex>, h: map<Vertex, Vertex>)
    ensures ComposeMap(ComposeMap(f, g), h) == ComposeMap(f, ComposeMap(g, h))
  {
  }

  /** A valid mapping composed with its own inverse is the identity on its keys. */
  lemma ComposeWithInverse(m: VertexMapping)
    requires Valid(m)
    ensures ComposeMap(m.AtoB, Inverse(m).AtoB) == map a | a in m.AtoB :: a
  {
  }

  /** VertexMapping.__invert__: the two directions swap places. */
  function Inverse(m: VertexMapping): (r: VertexMapping)
    ensures r.AtoB == m.BtoA && r.BtoA == m.AtoB
  {
    VertexMapping(m.BtoA, m.AtoB)
  }

  lemma InverseInvolutive(m: VertexMapping)
    ensures Inverse(Inverse(m)) == m
    ensures Valid(m) ==> Valid(Inverse(m))
  {
  }

  /** `ext` agrees with `f` on the keys of `f`, also covers `W`, and sends the
      new keys injectively to ids in [lo, hi): the vertices map_vertices invents. */
  ghost predicate Extends(f: map<Vertex, Vertex>, ext: map<Vertex, Vertex>, W: set<Vertex>, lo: nat, hi: nat) {
    && ext.Keys == f.Keys + W
    && (forall k :: k in f ==> ext[k] == f[k])
    && (forall k :: k in ext && k !in f ==> lo <= ext[k] < hi)
    && (forall a, b :: a in ext && b in ext && a !in f && b !in f && a != b ==> ext[a] != ext[b])
  }

  lemma ExtendsRefl(f: map<Vertex, Vertex>, lo: nat, hi: nat)
    ensures Extends(f, f, {}, lo, hi)
  {
  }

  /** One step of map_vertices: a covered vertex changes nothing, an uncovered
      one is sent to the counter. */
  lemma ExtendsStep(f: map<Vertex, Vertex>, g: map<Vertex, Vertex>, W: set<Vertex>, lo: nat, hi: nat, v: Vertex)
    requires Extends(f, g, W, lo, hi) && lo <= hi && (forall k :: k in g ==> g[k] < hi)
    ensures v in g ==> Extends(f, g, W + {v}, lo, hi)
    ensures v !in g ==> Extends(f, g[v := hi], W + {v}, lo, hi + 1)
  {
  }

  lemma ExtendsTrans(f: map<Vertex, Vertex>, g: map<Vertex, Vertex>, h: map<Vertex, Vertex>,
                     W1: set<Vertex>, W2: set<Vertex>, lo: nat, mid: nat, hi: nat)
    requires Extends(f, g, W1, lo, mid) && Extends(g, h, W2, mid, hi)
    requires lo <= mid <= hi
    ensures Extends(f, h, W1 + W2, lo, hi)
  {
  }

  /** Loosening the id window keeps an extension an extension. */
  lemma ExtendsWiden(f: map<Vertex, Vertex>, ext: map<Vertex, Vertex>, W: set<Vertex>,
                     lo: nat, hi: nat, lo': nat, hi': nat)
    requires Extends(f, ext, W, lo, hi) && lo' <= lo && hi <= hi'
    ensures Extends(f, ext, W, lo', hi')
  {
  }

  /** A nextId extension of an injective mapping whose images lie below `lo`
      is injective. */
  lemma ExtendsInjective(f: map<Vertex, Vertex>, ext: map<Vertex, Vertex>, W: set<Vertex>, lo: nat, hi: nat)
    requires Injective(f) && (forall k :: k in f ==> f[k] < lo)
    requires Extends(f, ext, W, lo, hi)
    ensures Injective(ext)
  {
  }
}
