/**
  Model of perfection/forest.py: ForestGraph, an undirected forest built one
  edge at a time.

  Python shares one set object among all the vertices of a component and
  compares components with `is`. The model gives every such set object an
  identity: `comp` maps a vertex to the identity of its component set and
  `members` maps an identity to the current contents of that set. Growing
  the bigger set in place is an update of `members[big]`; `is` is equality
  of identities; a fresh `{vertex}` gets a fresh identity.
*/
module Forest {
  import opened Wrappers
  import opened Graphs
  import opened Builtins

  /** InvariantError, with the two messages add_edge raises it with. */
  datatype InvariantError = WouldFormCycle(edge: Edge) | CannotAddLoop(edge: Edge)

  // ---------------------------------------------------------------------------
  // The invariant of a ForestGraph, stated on the values of its fields.

  ghost predicate ComponentsWellFormed(vertices: set<Vertex>, comp: map<Vertex, nat>,
                                       members: map<nat, set<Vertex>>, nextId: nat)
  {
    && comp.Keys == vertices
    && (forall x :: x in comp ==> comp[x] in members && x in members[comp[x]])
    && (forall id :: id in members ==> id < nextId && members[id] != {})
    && (forall id, y :: id in members && y in members[id] ==> y in comp && comp[y] == id)
  }

  ghost predicate EdgesWithinComponents(edges: set<Edge>, comp: map<Vertex, nat>)
  {
    forall e :: e in edges ==> e.0 < e.1 && e.0 in comp && e.1 in comp && comp[e.0] == comp[e.1]
  }

  ghost predicate ComponentsConnected(edges: set<Edge>, members: map<nat, set<Vertex>>)
  {
    forall id, x, y :: id in members && x in members[id] && y in members[id] ==> Connected(edges, x, y)
  }

  ghost predicate ForestInvariant(vertices: set<Vertex>, edges: set<Edge>, comp: map<Vertex, nat>,
                                  members: map<nat, set<Vertex>>, nextId: nat)
  {
    && ComponentsWellFormed(vertices, comp, members, nextId)
    && EdgesWithinComponents(edges, comp)
    && ComponentsConnected(edges, members)
    && |edges| + |members| == |vertices|
    && Acyclic(edges)
  }

  /** Every vertex on a walk from a graph vertex is a graph vertex of the same component. */
  lemma {:induction false} PathStaysInComponent(edges: set<Edge>, comp: map<Vertex, nat>, p: seq<Vertex>)
    requires EdgesWithinComponents(edges, comp)
    requires IsPath(edges, p) && p[0] in comp
    ensures forall i :: 0 <= i < |p| ==> p[i] in comp && comp[p[i]] == comp[p[0]]
    decreases |p|
  {
    if |p| > 1 {
      var q := p[..|p| - 1];
      assert IsPath(edges, q) by {
        forall i | 0 <= i < |q| - 1 ensures Adjacent(edges, q[i], q[i + 1]) {
          assert q[i] == p[i] && q[i + 1] == p[i + 1];
        }
      }
      PathStaysInComponent(edges, comp, q);
      var a, b := p[|p| - 2], p[|p| - 1];
      assert Adjacent(edges, a, b);
      assert CanonicalOrder((a, b)) in edges;
      assert q[|q| - 1] == a;
    }
  }

  /**
    Two distinct vertices are connected by the accepted edges exactly when
    both are graph vertices sharing one component.
  */
  lemma ConnectedIffSameComponent(vertices: set<Vertex>, edges: set<Edge>, comp: map<Vertex, nat>,
                                  members: map<nat, set<Vertex>>, nextId: nat, x: Vertex, y: Vertex)
    requires ForestInvariant(vertices, edges, comp, members, nextId)
    requires x != y
    ensures Connected(edges, x, y) <==> x in vertices && y in vertices && comp[x] == comp[y]
  {
    if Connected(edges, x, y) {
      var p :| IsPath(edges, p) && p[0] == x && p[|p| - 1] == y;
      assert Adjacent(edges, p[0], p[1]);
      assert CanonicalOrder((p[0], p[1])) in edges;
      PathStaysInComponent(edges, comp, p);
    }
    if x in vertices && y in vertices && comp[x] == comp[y] {
      assert x in members[comp[x]] && y in members[comp[x]];
    }
  }

  // ---------------------------------------------------------------------------
  /** The component set that vertex x maps to; a vertex not in the graph is alone in its own. */
  ghost function ComponentSet(comp: map<Vertex, nat>, members: map<nat, set<Vertex>>, x: Vertex): set<Vertex>
  {
    if x in comp && comp[x] in members then members[comp[x]] else {x}
  }

  // The merge step of add_edge, on values.

  /** The component sets after the smaller set's vertices joined the bigger set. */
  function MergeInto(members: map<nat, set<Vertex>>, small: nat, big: nat): map<nat, set<Vertex>>
    requires small in members && big in members
  {
    members[big := members[big] + members[small]] - {small}
  }

  /** The vertex-to-component map after every vertex of `moved` points at `big`. */
  function Relabel(comp: map<Vertex, nat>, moved: set<Vertex>, big: nat): map<Vertex, nat>
  {
    map x | x in comp :: if x in moved then big else comp[x]
  }

  lemma MergeKeepsInvariant(vertices: set<Vertex>, edges: set<Edge>, comp: map<Vertex, nat>,
                            members: map<nat, set<Vertex>>, nextId: nat,
                            u: Vertex, v: Vertex, small: nat, big: nat)
    requires ForestInvariant(vertices, edges, comp, members, nextId)
    requires u in vertices && v in vertices && comp[u] != comp[v]
    requires (small, big) == (comp[u], comp[v]) || (small, big) == (comp[v], comp[u])
    ensures CanonicalOrder((u, v)) !in edges
    ensures ForestInvariant(vertices, edges + {CanonicalOrder((u, v))},
                            Relabel(comp, members[small], big), MergeInto(members, small, big), nextId)
  {
    var f := CanonicalOrder((u, v));
    var edges' := edges + {f};
    var comp' := Relabel(comp, members[small], big);
    var members' := MergeInto(members, small, big);
    ConnectedIffSameComponent(vertices, edges, comp, members, nextId, u, v);
    AddEdgeKeepsAcyclic(edges, u, v);
    assert |edges'| == |edges| + 1;
    assert members'.Keys == members.Keys - {small};
    MergeKeepsWellFormed(vertices, comp, members, nextId, small, big);
    assert u in members[comp[u]] && v in members[comp[v]];
    MergeKeepsEdgesWithin(edges, comp, members, nextId, vertices, u, v, small, big);
    ComponentsDisjoint(vertices, comp, members, nextId, small, big);
    MergeKeepsConnected(edges, members, u, v, small, big);
  }

  lemma ComponentsDisjoint(vertices: set<Vertex>, comp: map<Vertex, nat>,
                           members: map<nat, set<Vertex>>, nextId: nat, a: nat, b: nat)
    requires ComponentsWellFormed(vertices, comp, members, nextId)
    requires a in members && b in members && a != b
    ensures members[a] !! members[b]
  {
    forall y | y in members[a] ensures y !in members[b] {
      assert comp[y] == a;
    }
  }

  lemma MergeKeepsWellFormed(vertices: set<Vertex>, comp: map<Vertex, nat>,
                             members: map<nat, set<Vertex>>, nextId: nat, small: nat, big: nat)
    requires ComponentsWellFormed(vertices, comp, members, nextId)
    requires small in members && big in members && small != big
    ensures ComponentsWellFormed(vertices, Relabel(comp, members[small], big), MergeInto(members, small, big), nextId)
  {
    var comp' := Relabel(comp, members[small], big);
    var members' := MergeInto(members, small, big);
    forall x | x in comp'
      ensures comp'[x] in members' && x in members'[comp'[x]]
    {
      assert comp[x] in members && x in members[comp[x]];
    }
    forall id, y | id in members' && y in members'[id]
      ensures y in comp' && comp'[y] == id
    {
      if id == big {
        assert y in members[big] || y in members[small];
      } else {
        assert y in members[id] && comp[y] == id;
      }
    }
  }

  lemma MergeKeepsEdgesWithin(edges: set<Edge>, comp: map<Vertex, nat>, members: map<nat, set<Vertex>>,
                              nextId: nat, vertices: set<Vertex>, u: Vertex, v: Vertex, small: nat, big: nat)
    requires ComponentsWellFormed(vertices, comp, members, nextId)
    requires EdgesWithinComponents(edges, comp)
    requires u != v && u in comp && v in comp
    requires (small, big) == (comp[u], comp[v]) || (small, big) == (comp[v], comp[u])
    ensures EdgesWithinComponents(edges + {CanonicalOrder((u, v))}, Relabel(comp, members[small], big))
  {
    var f := CanonicalOrder((u, v));
    var comp' := Relabel(comp, members[small], big);
    forall e | e in edges + {f}
      ensures e.0 < e.1 && e.0 in comp' && e.1 in comp' && comp'[e.0] == comp'[e.1]
    {
      if e == f {
        assert u in members[comp[u]] && v in members[comp[v]];
      } else {
        assert comp[e.0] == comp[e.1];
        assert e.0 in members[comp[e.0]] && e.1 in members[comp[e.1]];
        assert e.0 in members[small] <==> comp[e.0] == small;
        assert e.1 in members[small] <==> comp[e.1] == small;
      }
    }
  }

  lemma MergeKeepsConnected(edges: set<Edge>, members: map<nat, set<Vertex>>, u: Vertex, v: Vertex,
                            small: nat, big: nat)
    requires ComponentsConnected(edges, members)
    requires small in members && big in members && members[small] !! members[big]
    requires (u in members[small] && v in members[big]) || (u in members[big] && v in members[small])
    ensures ComponentsConnected(edges + {CanonicalOrder((u, v))}, MergeInto(members, small, big))
  {
    var edges' := edges + {CanonicalOrder((u, v))};
    var members' := MergeInto(members, small, big);
    forall id, x, y | id in members' && x in members'[id] && y in members'[id]
      ensures Connected(edges', x, y)
    {
      if id != big {
        assert x in members[id] && y in members[id];
        ConnectedMono(edges, edges', x, y);
      } else {
        MergedPairConnected(edges, members, u, v, small, big, x, y);
      }
    }
  }

  lemma MergedPairConnected(edges: set<Edge>, members: map<nat, set<Vertex>>, u: Vertex, v: Vertex,
                            small: nat, big: nat, x: Vertex, y: Vertex)
    requires ComponentsConnected(edges, members)
    requires small in members && big in members && members[small] !! members[big]
    requires (u in members[small] && v in members[big]) || (u in members[big] && v in members[small])
    requires x in members[big] + members[small] && y in members[big] + members[small]
    ensures Connected(edges + {CanonicalOrder((u, v))}, x, y)
  {
    var edges' := edges + {CanonicalOrder((u, v))};
    ConnectedByEdge(edges', u, v);
    ConnectedSym(edges', u, v);
    var cx := if x in members[small] then small else big;
    var cy := if y in members[small] then small else big;
    if cx == cy {
      assert x in members[cx] && y in members[cx];
      ConnectedMono(edges, edges', x, y);
    } else {
      // x and y lie on opposite sides of the new edge.
      var a := if u in members[cx] then u else v;
      var b := if u in members[cx] then v else u;
      assert a in members[cx] && b in members[cy];
      assert x in members[cx] && y in members[cy];
      assert Connected(edges, x, a) && Connected(edges, b, y);
      ConnectedMono(edges, edges', x, a);
      ConnectedMono(edges, edges', b, y);
      assert Connected(edges', a, b);
      ConnectedTrans(edges', x, a, b);
      ConnectedTrans(edges', x, b, y);
    }
  }

  /** add_vertex of a new vertex: a fresh singleton component. */
  lemma AddVertexKeepsInvariant(vertices: set<Vertex>, edges: set<Edge>, comp: map<Vertex, nat>,
                                members: map<nat, set<Vertex>>, nextId: nat, x: Vertex)
    requires ForestInvariant(vertices, edges, comp, members, nextId)
    requires x !in vertices
    ensures ForestInvariant(vertices + {x}, edges, comp[x := nextId], members[nextId := {x}], nextId + 1)
  {
    assert nextId !in members;
    assert |members[nextId := {x}]| == |members| + 1;
    AddVertexKeepsWellFormed(vertices, comp, members, nextId, x);
    AddVertexKeepsConnected(edges, members, nextId, x);
  }

  /** add_vertex changes no vertex's component set: the new vertex was alone before as after. */
  lemma AddVertexKeepsComponentSets(vertices: set<Vertex>, comp: map<Vertex, nat>,
                                    members: map<nat, set<Vertex>>, nextId: nat, x: Vertex)
    requires ComponentsWellFormed(vertices, comp, members, nextId)
    requires x !in vertices
    ensures forall y :: ComponentSet(comp[x := nextId], members[nextId := {x}], y) == ComponentSet(comp, members, y)
  {
    assert nextId !in members;
    forall y ensures ComponentSet(comp[x := nextId], members[nextId := {x}], y) == ComponentSet(comp, members, y) {
      if y in comp {
        assert y in members[comp[y]];
      }
    }
  }

  lemma AddVertexKeepsWellFormed(vertices: set<Vertex>, comp: map<Vertex, nat>,
                                 members: map<nat, set<Vertex>>, nextId: nat, x: Vertex)
    requires ComponentsWellFormed(vertices, comp, members, nextId)
    requires x !in vertices
    ensures ComponentsWellFormed(vertices + {x}, comp[x := nextId], members[nextId := {x}], nextId + 1)
  {
    var comp' := comp[x := nextId];
    var members' := members[nextId := {x}];
    assert nextId !in members;
    forall id, y | id in members' && y in members'[id]
      ensures y in comp' && comp'[y] == id
    {
      if id != nextId {
        assert y in members[id] && y in comp && comp[y] == id;
      }
    }
  }

  lemma AddVertexKeepsConnected(edges: set<Edge>, members: map<nat, set<Vertex>>, nextId: nat, x: Vertex)
    requires ComponentsConnected(edges, members)
    ensures ComponentsConnected(edges, members[nextId := {x}])
  {
    var members' := members[nextId := {x}];
    ConnectedRefl(edges, x);
    forall id, a, b | id in members' && a in members'[id] && b in members'[id]
      ensures Connected(edges, a, b)
    {
      if id != nextId {
        assert a in members[id] && b in members[id];
      }
    }
  }

  // ---------------------------------------------------------------------------

  class ForestGraph {
    var vertices: set<Vertex>
    var edges: set<Edge>
    /** components: the identity of the set object each vertex maps to. */
    var comp: map<Vertex, nat>
    /** The contents of each live component set object. */
    var members: map<nat, set<Vertex>>
    /** The next unused set identity. */
    var nextId: nat

    ghost predicate Valid()
      reads this
    {
      ForestInvariant(vertices, edges, comp, members, nextId)
    }

    /** ForestGraph() with no edges. */
    constructor ()
      ensures Valid()
      ensures vertices == {} && edges == {} && comp == map[] && members == map[]
    {
      vertices, edges, comp, members, nextId := {}, {}, map[], map[], 0;
    }

    /** The component set a vertex maps to (a vertex not in the graph: itself alone). */
    ghost function ComponentOf(x: Vertex): set<Vertex>
      reads this
    {
      ComponentSet(comp, members, x)
    }

    /** Both ends of every edge are vertices of the graph. */
    ghost predicate EdgesWithinVertices()
      reads this
    {
      forall e :: e in edges ==> e.0 in vertices && e.1 in vertices
    }

    /**
      The facts about a valid graph that its traversal needs, and the forest
      count: one live set object per component, and |edges| = |vertices| -
      #components.
    */
    lemma ValidIsForest()
      requires Valid()
      ensures EdgesWithinVertices() && CanonicalEdges(edges) && Acyclic(edges)
      ensures forall id :: id in members ==> members[id] != {}
      ensures |edges| == |vertices| - |members|
    {
      forall e | e in edges ensures e.0 in vertices && e.1 in vertices {
        assert e.0 in comp && e.1 in comp;
      }
    }

    /** The neighbours the assignment step asks for: w with canonical_order((x, w)) in edges. */
    function Neighbours(x: Vertex): (r: set<Vertex>)
      reads this
      requires EdgesWithinVertices()
      ensures forall w :: w in r <==> Adjacent(edges, x, w)
    {
      var r := set w | w in vertices && CanonicalOrder((x, w)) in edges;
      assert forall w :: Adjacent(edges, x, w) ==> w in vertices by {
        forall w | Adjacent(edges, x, w) ensures w in vertices {
          var e := CanonicalOrder((x, w));
          assert e in edges;
        }
      }
      r
    }

    /** sort_components(u, v): the two component sets ordered by size, ties keeping u's first. */
    function SortComponents(u: Vertex, v: Vertex): (r: (nat, nat))
      reads this
      requires Valid() && u in vertices && v in vertices
      ensures r == (comp[u], comp[v]) || r == (comp[v], comp[u])
      ensures |members[r.0]| <= |members[r.1]|
      ensures |members[comp[u]]| == |members[comp[v]]| ==> r == (comp[u], comp[v])
    {
      if |members[comp[u]]| <= |members[comp[v]]| then (comp[u], comp[v]) else (comp[v], comp[u])
    }

    method AddVertex(x: Vertex)
      requires Valid()
      modifies this
      ensures Valid()
      ensures edges == old(edges)
      ensures x in old(vertices) ==> vertices == old(vertices) && comp == old(comp) && members == old(members)
      ensures x !in old(vertices) ==>
                && vertices == old(vertices) + {x}
                && comp[x] !in old(members) && members == old(members)[comp[x] := {x}]
                && (forall y :: y in old(vertices) ==> comp[y] == old(comp[y]))
      ensures forall y :: ComponentOf(y) == old(ComponentOf(y))
    {
      if x !in vertices {
        AddVertexKeepsInvariant(vertices, edges, comp, members, nextId, x);
        AddVertexKeepsComponentSets(vertices, comp, members, nextId, x);
        assert nextId !in members;
        vertices := vertices + {x};
        comp := comp[x := nextId];
        members := members[nextId := {x}];
        nextId := nextId + 1;
      }
    }

    method AddEdge(edge: Edge) returns (err: Option<InvariantError>)
      requires Valid()
      modifies this
      ensures Valid()
      // A rejection is exactly an edge whose endpoints are already connected
      // (a loop (v, v) included); it changes nothing.
      ensures err.Some? <==> Connected(old(edges), edge.0, edge.1)
      ensures err == Some(WouldFormCycle(edge)) <==>
                edge.0 in old(vertices) && edge.1 in old(vertices) && Connected(old(edges), edge.0, edge.1)
      ensures err == Some(CannotAddLoop(edge)) <==> edge.0 == edge.1 && edge.0 !in old(vertices)
      ensures CanonicalOrder(edge) in old(edges) ==> err.Some?
      ensures err.Some? ==> vertices == old(vertices) && edges == old(edges) && comp == old(comp) && members == old(members)
      // An accepted edge is new; both endpoints are vertices; the two old
      // components became one set, and every other component is as it was.
      ensures err.None? ==>
                && vertices == old(vertices) + {edge.0, edge.1}
                && CanonicalOrder(edge) !in old(edges)
                && edges == old(edges) + {CanonicalOrder(edge)}
                && comp[edge.0] == comp[edge.1]
                && ComponentOf(edge.0) == old(ComponentOf(edge.0)) + old(ComponentOf(edge.1))
                && (forall x :: x in old(vertices) && x !in ComponentOf(edge.0) ==>
                      ComponentOf(x) == old(ComponentOf(x)))
      // When both endpoints existed, the merged set is the bigger one's.
      ensures err.None? && edge.0 in old(vertices) && edge.1 in old(vertices) ==>
                comp[edge.0] == (if |old(members[comp[edge.0]])| <= |old(members[comp[edge.1]])|
                                 then old(comp[edge.1]) else old(comp[edge.0]))
    {
      var u, v := edge.0, edge.1;
      RejectionIsConnectedness(vertices, edges, comp, members, nextId, u, v);
      var bothExist := u in vertices && v in vertices;
      if bothExist && comp[u] == comp[v] {
        return Some(WouldFormCycle(edge));
      }
      if u == v {
        return Some(CannotAddLoop(edge));
      }
      AddEdgeNew(u, v);
      return None;
    }

    /** The accepting half of add_edge: register the vertices and the edge, then merge. */
    method AddEdgeNew(u: Vertex, v: Vertex)
      requires Valid()
      requires u != v && !(u in vertices && v in vertices && comp[u] == comp[v])
      modifies this
      ensures Valid()
      ensures vertices == old(vertices) + {u, v}
      ensures CanonicalOrder((u, v)) !in old(edges)
      ensures edges == old(edges) + {CanonicalOrder((u, v))}
      ensures comp[u] == comp[v]
      ensures ComponentOf(u) == old(ComponentOf(u)) + old(ComponentOf(v))
      ensures forall x :: x in old(vertices) && x !in ComponentOf(u) ==> ComponentOf(x) == old(ComponentOf(x))
      ensures u in old(vertices) && v in old(vertices) ==>
                comp[u] == (if |old(members[comp[u]])| <= |old(members[comp[v]])| then old(comp[v]) else old(comp[u]))
    {
      ghost var cu, cv := ComponentOf(u), ComponentOf(v);
      AddVertex(u);
      AddVertex(v);
      assert ComponentOf(u) == cu && ComponentOf(v) == cv;
      assert vertices == old(vertices) + {u, v} by {
        assert forall y :: y in vertices <==> y in old(vertices) + {u, v};
      }
      JoinComponents(u, v);
    }

    /** Record the edge u-v between two different components and merge those components. */
    method JoinComponents(u: Vertex, v: Vertex)
      requires Valid()
      requires u in vertices && v in vertices && comp[u] != comp[v]
      modifies this
      ensures Valid()
      ensures vertices == old(vertices)
      ensures CanonicalOrder((u, v)) !in old(edges)
      ensures edges == old(edges) + {CanonicalOrder((u, v))}
      ensures comp[u] == comp[v]
      ensures comp[u] == (if |old(members[comp[u]])| <= |old(members[comp[v]])| then old(comp[v]) else old(comp[u]))
      ensures ComponentOf(u) == old(ComponentOf(u)) + old(ComponentOf(v))
      ensures forall x :: x in vertices && x !in ComponentOf(u) ==> ComponentOf(x) == old(ComponentOf(x))
    {
      ghost var V1, E1, C1, M1 := vertices, edges, comp, members;
      var (small, big) := SortComponents(u, v);
      edges := edges + {CanonicalOrder((u, v))};
      assert forall x :: x in members[small] ==> x in comp by {
        forall x | x in members[small] ensures x in comp {
          assert x in M1[small];
        }
      }
      MergeComponents(small, big);
      assert comp == Relabel(C1, M1[small], big) && members == MergeInto(M1, small, big);
      MergeKeepsInvariant(V1, E1, C1, M1, nextId, u, v, small, big);
      MergedComponents(V1, C1, M1, nextId, u, v, small, big);
    }

    /**
      The merge loop of add_edge: every vertex of the smaller set joins the
      bigger set object, and the smaller set object is dropped.
    */
    method MergeComponents(small: nat, big: nat)
      requires small in members && big in members && small != big
      requires forall x :: x in members[small] ==> x in comp
      modifies this
      ensures vertices == old(vertices) && edges == old(edges) && nextId == old(nextId)
      ensures comp == Relabel(old(comp), old(members[small]), big)
      ensures members == MergeInto(old(members), small, big)
    {
      var smaller := members[small];
      var rest := smaller;
      while rest != {}
        invariant rest <= smaller
        invariant members.Keys == old(members).Keys
        invariant members[big] == old(members[big]) + (smaller - rest)
        invariant forall id :: id in members && id != big ==> members[id] == old(members)[id]
        invariant comp.Keys == old(comp).Keys
        invariant forall x :: x in comp ==> comp[x] == if x in smaller - rest then big else old(comp)[x]
        invariant vertices == old(vertices) && edges == old(edges) && nextId == old(nextId)
        decreases rest
      {
        NonEmptyHasMember(rest);
        var w :| w in rest;
        members := members[big := members[big] + {w}];
        comp := comp[w := big];
        rest := rest - {w};
      }
      // The smaller set object is no longer referenced.
      members := members - {small};
      assert smaller - rest == smaller;
      ghost var relabelled, merged := Relabel(old(comp), smaller, big), MergeInto(old(members), small, big);
      assert smaller == old(members[small]);
      MapsEqual(comp, relabelled);
      assert forall id :: id in members <==> id in merged;
      assert forall id :: id in members ==> members[id] == merged[id];
    }
  }


  /** Two vertex-to-component maps with the same keys and values are equal. */
  lemma MapsEqual(a: map<Vertex, nat>, b: map<Vertex, nat>)
    requires forall x :: x in a <==> x in b
    requires forall x :: x in a ==> a[x] == b[x]
    ensures a == b
  {
    assert forall x :: x in a <==> x in b;
    assert forall x :: x in a ==> a[x] == b[x];
    assert a.Keys == b.Keys;
    assert a == b;
  }

  /** add_edge raises exactly when the endpoints are already connected. */
  lemma RejectionIsConnectedness(vertices: set<Vertex>, edges: set<Edge>, comp: map<Vertex, nat>,
                                 members: map<nat, set<Vertex>>, nextId: nat, u: Vertex, v: Vertex)
    requires ForestInvariant(vertices, edges, comp, members, nextId)
    ensures ((u in vertices && v in vertices && comp[u] == comp[v]) || u == v) <==> Connected(edges, u, v)
    ensures CanonicalOrder((u, v)) in edges ==> Connected(edges, u, v)
  {
    if u != v {
      ConnectedIffSameComponent(vertices, edges, comp, members, nextId, u, v);
    } else {
      ConnectedRefl(edges, u);
    }
    if CanonicalOrder((u, v)) in edges {
      ConnectedByEdge(edges, u, v);
    }
  }

  /** What the merge did to the component sets, as add_edge's contract states it. */
  lemma MergedComponents(vertices: set<Vertex>, comp: map<Vertex, nat>, members: map<nat, set<Vertex>>,
                         nextId: nat, u: Vertex, v: Vertex, small: nat, big: nat)
    requires ComponentsWellFormed(vertices, comp, members, nextId)
    requires u in vertices && v in vertices && comp[u] != comp[v]
    requires (small, big) == (comp[u], comp[v]) || (small, big) == (comp[v], comp[u])
    ensures var comp', members' := Relabel(comp, members[small], big), MergeInto(members, small, big);
            && comp'[u] == big && comp'[v] == big
            && ComponentSet(comp', members', u) == ComponentSet(comp, members, u) + ComponentSet(comp, members, v)
            && forall x :: x in vertices && x !in ComponentSet(comp', members', u) ==>
                 ComponentSet(comp', members', x) == ComponentSet(comp, members, x)
  {
    var comp', members' := Relabel(comp, members[small], big), MergeInto(members, small, big);
    assert u in members[comp[u]] && v in members[comp[v]];
    assert big in members';
    assert ComponentSet(comp', members', u) == members[big] + members[small];
    forall x | x in vertices && x !in ComponentSet(comp', members', u)
      ensures ComponentSet(comp', members', x) == ComponentSet(comp, members, x)
    {
      assert x in members[comp[x]];
    }
  }

  /**
    ForestGraph(edges=es): adds the edges in order; the first rejected edge
    makes the whole construction raise.
  */
  method NewForestGraph(es: seq<Edge>) returns (r: Result<ForestGraph, InvariantError>)
    ensures r.Success? <==> Accepts(es)
    ensures r.Success? ==> fresh(r.value) && r.value.Valid() && r.value.edges == EdgeSetOf(es)
                           && r.value.vertices == EndpointsOf(es)
  {
    var graph := new ForestGraph();
    var i := 0;
    while i < |es|
      invariant 0 <= i <= |es|
      invariant fresh(graph) && graph.Valid()
      invariant graph.edges == EdgeSetOf(es[..i]) && graph.vertices == EndpointsOf(es[..i])
      invariant Accepts(es[..i])
    {
      ghost var prefix, next := es[..i], es[..i + 1];
      assert next[..i] == prefix && next[i] == es[i];
      var err := graph.AddEdge(es[i]);
      if err.Some? {
        assert Connected(EdgeSetOf(prefix), es[i].0, es[i].1);
        assert !Accepts(next);
        AcceptsPrefix(es, i + 1);
        return Failure(err.value);
      }
      assert graph.edges == EdgeSetOf(next);
      assert graph.vertices == EndpointsOf(next);
      assert Accepts(next);
      i := i + 1;
    }
    assert es[..i] == es;
    return Success(graph);
  }

  /** The canonical edges of an edge list. */
  function EdgeSetOf(es: seq<Edge>): set<Edge>
  {
    if es == [] then {} else EdgeSetOf(es[..|es| - 1]) + {CanonicalOrder(es[|es| - 1])}
  }

  function EndpointsOf(es: seq<Edge>): set<Vertex>
  {
    if es == [] then {} else EndpointsOf(es[..|es| - 1]) + {es[|es| - 1].0, es[|es| - 1].1}
  }

  /** Adding es in order never raises: no edge joins two already connected vertices. */
  ghost predicate Accepts(es: seq<Edge>)
  {
    if es == [] then true
    else Accepts(es[..|es| - 1]) && !Connected(EdgeSetOf(es[..|es| - 1]), es[|es| - 1].0, es[|es| - 1].1)
  }

  lemma {:induction false} AcceptsPrefix(es: seq<Edge>, k: nat)
    requires k <= |es|
    ensures Accepts(es) ==> Accepts(es[..k])
    decreases |es| - k
  {
    if k < |es| {
      assert es[..|es| - 1][..k] == es[..k];
      AcceptsPrefix(es[..|es| - 1], k);
    } else {
      assert es[..k] == es;
    }
  }

  /** Every listed edge is in the edge set, canonically ordered, with its endpoints among the vertices. */
  lemma {:induction false} EdgeSetOfContains(es: seq<Edge>, i: nat)
    requires i < |es|
    ensures CanonicalOrder(es[i]) in EdgeSetOf(es)
    ensures es[i].0 in EndpointsOf(es) && es[i].1 in EndpointsOf(es)
    decreases |es|
  {
    if i < |es| - 1 {
      assert es[..|es| - 1][i] == es[i];
      EdgeSetOfContains(es[..|es| - 1], i);
    }
  }

  /** Every member of the edge set comes from some listed edge. */
  lemma {:induction false} EdgeSetOfMembers(es: seq<Edge>, e: Edge)
    requires e in EdgeSetOf(es)
    ensures exists i :: 0 <= i < |es| && e == CanonicalOrder(es[i])
    decreases |es|
  {
    var init := es[..|es| - 1];
    if e in EdgeSetOf(init) {
      EdgeSetOfMembers(init, e);
      var i :| 0 <= i < |init| && e == CanonicalOrder(init[i]);
      assert es[i] == init[i];
    } else {
      assert e == CanonicalOrder(es[|es| - 1]);
    }
  }

  /** Every vertex is an endpoint of some listed edge. */
  lemma {:induction false} EndpointsOfMembers(es: seq<Edge>, x: Vertex)
    requires x in EndpointsOf(es)
    ensures exists i :: 0 <= i < |es| && (x == es[i].0 || x == es[i].1)
    decreases |es|
  {
    var init := es[..|es| - 1];
    if x in EndpointsOf(init) {
      EndpointsOfMembers(init, x);
      var i :| 0 <= i < |init| && (x == init[i].0 || x == init[i].1);
      assert es[i] == init[i];
    } else {
      assert x == es[|es| - 1].0 || x == es[|es| - 1].1;
    }
  }

  /**
    An accepted edge list has no loop and no two edges joining the same pair
    of vertices: the second would have closed a cycle.
  */
  lemma {:induction false} AcceptedEdgesDistinct(es: seq<Edge>, i: nat, j: nat)
    requires Accepts(es)
    requires i < j < |es|
    ensures CanonicalOrder(es[i]) != CanonicalOrder(es[j])
    ensures es[j].0 != es[j].1
    decreases |es|
  {
    var init := es[..|es| - 1];
    if j < |es| - 1 {
      assert es[i] == init[i] && es[j] == init[j];
      AcceptedEdgesDistinct(init, i, j);
    } else {
      var last := es[|es| - 1];
      if last.0 == last.1 {
        ConnectedRefl(EdgeSetOf(init), last.0);
        assert false;
      }
      if CanonicalOrder(es[i]) == CanonicalOrder(last) {
        assert es[i] == init[i];
        EdgeSetOfContains(init, i);
        ConnectedByEdge(EdgeSetOf(init), last.0, last.1);
        assert false;
      }
    }
  }

  /** The edge set of an accepted edge list is a forest: canonical edges and no cycle. */
  lemma {:induction false} AcceptedIsForest(es: seq<Edge>)
    requires Accepts(es)
    ensures CanonicalEdges(EdgeSetOf(es)) && Acyclic(EdgeSetOf(es))
    decreases |es|
  {
    if es != [] {
      var init := es[..|es| - 1];
      var last := es[|es| - 1];
      AcceptedIsForest(init);
      if last.0 == last.1 {
        ConnectedRefl(EdgeSetOf(init), last.0);
        assert false;
      }
      AddEdgeKeepsAcyclic(EdgeSetOf(init), last.0, last.1);
      assert EdgeSetOf(es) == EdgeSetOf(init) + {CanonicalOrder((last.0, last.1))};
    }
  }

  /** The edges of the class doctest, (1, 2) and then (2, 3), are accepted in turn. */
  lemma DoctestEdgesAccepted()
    ensures Accepts([(1, 2), (2, 3)])
  {
    var es: seq<Edge> := [(1, 2), (2, 3)];
    assert es[..1] == [(1, 2)] && [(1, 2)][..0] == [];
    ConnectedFromIsolated({}, 2, 1);
    assert EdgeSetOf([(1, 2)]) == {(1, 2)};
    ConnectedFromIsolated({(1, 2)}, 3, 2);
  }

  /** The first line of the class doctest: ForestGraph(edges=[(1, 2), (2, 3)]). */
  method DoctestStart() returns (graph: ForestGraph)
    ensures fresh(graph) && graph.Valid()
    ensures graph.vertices == {1, 2, 3} && graph.edges == {(1, 2), (2, 3)}
  {
    var es: seq<Edge> := [(1, 2), (2, 3)];
    DoctestEdgesAccepted();
    assert es[..1] == [(1, 2)] && [(1, 2)][..0] == [];
    assert EdgeSetOf(es) == {(1, 2), (2, 3)} && EndpointsOf(es) == {1, 2, 3};
    var r := NewForestGraph(es);
    graph := r.value;
  }

  /** The class doctest goes on with += (3, 4), which is accepted: 4 was no vertex yet. */
  method DoctestPath() returns (graph: ForestGraph)
    ensures fresh(graph) && graph.Valid()
    ensures graph.vertices == {1, 2, 3, 4} && graph.edges == {(1, 2), (2, 3), (3, 4)}
  {
    graph := DoctestStart();
    ConnectedFromIsolated(graph.edges, 4, 3);
    var added := graph.AddEdge((3, 4));
  }

  /** The next step of the class doctest: on the path 1-2-3-4, += (4, 2) raises "would form a cycle". */
  method DoctestGraph() returns (graph: ForestGraph, cycle: Option<InvariantError>)
    ensures fresh(graph) && graph.Valid() && graph.vertices == {1, 2, 3, 4}
    ensures cycle == Some(WouldFormCycle((4, 2)))
  {
    graph := DoctestPath();
    ConnectedByEdge(graph.edges, 4, 3);
    ConnectedByEdge(graph.edges, 3, 2);
    ConnectedTrans(graph.edges, 4, 3, 2);
    cycle := graph.AddEdge((4, 2));
  }

  /**
    The class doctest: after the steps above, += (5, 5) raises "cannot add
    loop", and afterwards 4 is a vertex and 5 is not.
  */
  method ForestGraphDoctest() returns (cycle: Option<InvariantError>, loop: Option<InvariantError>, has4: bool, has5: bool)
    ensures cycle == Some(WouldFormCycle((4, 2)))
    ensures loop == Some(CannotAddLoop((5, 5)))
    ensures has4 && !has5
  {
    var graph;
    graph, cycle := DoctestGraph();
    loop := graph.AddEdge((5, 5));
    has4 := 4 in graph.vertices;
    has5 := 5 in graph.vertices;
  }
}
