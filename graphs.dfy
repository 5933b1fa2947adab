/**
  Undirected graphs given by a set of canonical edges: adjacency, paths,
  connectivity and acyclicity. These are the ghost vocabulary in which the
  forest of perfection/forest.py and the assignment step of perfection/czech.py
  are specified.
*/
module Graphs {

  type Vertex = int
  type Edge = (Vertex, Vertex)

  /** ForestGraph.canonical_order: the smaller endpoint first. */
  function CanonicalOrder(e: Edge): (r: Edge)
    ensures r.0 <= r.1
    ensures r == e || r == (e.1, e.0)
  {
    if e.0 < e.1 then e else (e.1, e.0)
  }

  /** canonical_order is symmetric in the two endpoints and idempotent. */
  lemma CanonicalOrderSymmetricIdempotent(u: Vertex, v: Vertex)
    ensures CanonicalOrder((u, v)) == CanonicalOrder((v, u))
    ensures CanonicalOrder(CanonicalOrder((u, v))) == CanonicalOrder((u, v))
  {
  }

  /** Two canonical edges are equal exactly when they join the same endpoints. */
  lemma CanonicalOrderSameEndpoints(a: Edge, b: Edge)
    requires CanonicalOrder(a) == CanonicalOrder(b)
    ensures (a.0 == b.0 && a.1 == b.1) || (a.0 == b.1 && a.1 == b.0)
  {
  }

  predicate Adjacent(edges: set<Edge>, a: Vertex, b: Vertex)
  {
    CanonicalOrder((a, b)) in edges
  }

  /** A walk along edges of the graph: every two consecutive vertices are adjacent. */
  ghost predicate IsPath(edges: set<Edge>, p: seq<Vertex>)
  {
    && |p| > 0
    && forall i, j {:trigger p[i], p[j]} :: 0 <= i && j == i + 1 && j < |p| ==> Adjacent(edges, p[i], p[j])
  }

  ghost predicate Connected(edges: set<Edge>, x: Vertex, y: Vertex)
  {
    exists p :: IsPath(edges, p) && p[0] == x && p[|p| - 1] == y
  }

  /** Every edge is stored smaller endpoint first, as canonical_order gives it. */
  ghost predicate CanonicalEdges(edges: set<Edge>)
  {
    forall e :: e in edges ==> e.0 < e.1
  }

  /** No edge lies on a cycle: removing any edge disconnects its endpoints. */
  ghost predicate Acyclic(edges: set<Edge>)
  {
    forall e :: e in edges ==> !Connected(edges - {e}, e.0, e.1)
  }

  lemma ConnectedRefl(edges: set<Edge>, x: Vertex)
    ensures Connected(edges, x, x)
  {
    assert IsPath(edges, [x]);
  }

  lemma ConnectedByEdge(edges: set<Edge>, x: Vertex, y: Vertex)
    requires Adjacent(edges, x, y)
    ensures Connected(edges, x, y)
  {
    assert IsPath(edges, [x, y]);
  }

  lemma PathJoin(edges: set<Edge>, p: seq<Vertex>, q: seq<Vertex>)
    requires IsPath(edges, p) && IsPath(edges, q)
    requires Adjacent(edges, p[|p| - 1], q[0])
    ensures IsPath(edges, p + q)
  {
    var r := p + q;
    forall i | 0 <= i < |r| - 1
      ensures Adjacent(edges, r[i], r[i + 1])
    {
      if i < |p| - 1 {
        assert r[i] == p[i] && r[i + 1] == p[i + 1];
      } else if i == |p| - 1 {
        assert r[i] == p[|p| - 1] && r[i + 1] == q[0];
      } else {
        assert r[i] == q[i - |p|] && r[i + 1] == q[i - |p| + 1];
      }
    }
  }

  lemma ConnectedTrans(edges: set<Edge>, x: Vertex, y: Vertex, z: Vertex)
    requires Connected(edges, x, y) && Connected(edges, y, z)
    ensures Connected(edges, x, z)
  {
    var p :| IsPath(edges, p) && p[0] == x && p[|p| - 1] == y;
    var q :| IsPath(edges, q) && q[0] == y && q[|q| - 1] == z;
    if |q| == 1 {
      assert z == y;
    } else {
      var q' := q[1..];
      assert IsPath(edges, q') by {
        forall i | 0 <= i < |q'| - 1 ensures Adjacent(edges, q'[i], q'[i + 1]) {
          assert q'[i] == q[i + 1] && q'[i + 1] == q[i + 2];
        }
      }
      assert Adjacent(edges, p[|p| - 1], q'[0]) by { assert q'[0] == q[1]; }
      PathJoin(edges, p, q');
      assert (p + q')[0] == x;
      assert (p + q')[|p + q'| - 1] == q[|q| - 1];
    }
  }

  function Reverse(p: seq<Vertex>): (r: seq<Vertex>)
    ensures |r| == |p|
    ensures forall i :: 0 <= i < |p| ==> r[i] == p[|p| - 1 - i]
  {
    seq(|p|, i requires 0 <= i < |p| => p[|p| - 1 - i])
  }

  lemma ConnectedSym(edges: set<Edge>, x: Vertex, y: Vertex)
    requires Connected(edges, x, y)
    ensures Connected(edges, y, x)
  {
    var p :| IsPath(edges, p) && p[0] == x && p[|p| - 1] == y;
    var r := Reverse(p);
    forall i | 0 <= i < |r| - 1 ensures Adjacent(edges, r[i], r[i + 1]) {
      var j := |p| - 2 - i;
      assert Adjacent(edges, p[j], p[j + 1]);
      CanonicalOrderSymmetricIdempotent(p[j], p[j + 1]);
    }
    assert IsPath(edges, r);
  }

  lemma PathMono(edges: set<Edge>, bigger: set<Edge>, p: seq<Vertex>)
    requires edges <= bigger && IsPath(edges, p)
    ensures IsPath(bigger, p)
  {
  }

  lemma ConnectedMono(edges: set<Edge>, bigger: set<Edge>, x: Vertex, y: Vertex)
    requires edges <= bigger && Connected(edges, x, y)
    ensures Connected(bigger, x, y)
  {
    var p :| IsPath(edges, p) && p[0] == x && p[|p| - 1] == y;
    PathMono(edges, bigger, p);
  }

  /** A vertex with no incident edge is connected only to itself. */
  lemma ConnectedFromIsolated(edges: set<Edge>, x: Vertex, y: Vertex)
    requires forall e :: e in edges ==> e.0 != x && e.1 != x
    ensures Connected(edges, x, y) ==> y == x
    ensures Connected(edges, y, x) ==> y == x
  {
    if Connected(edges, y, x) {
      ConnectedSym(edges, y, x);
    }
    if Connected(edges, x, y) {
      var p :| IsPath(edges, p) && p[0] == x && p[|p| - 1] == y;
      assert |p| > 1 ==> Adjacent(edges, p[0], p[1]);
    }
  }

  /**
    A walk in edges + {f} either avoids f, or can be cut at f: its start
    reaches one endpoint of f and the other endpoint reaches its end, in edges.
  */
  lemma {:induction false} PathSplit(edges: set<Edge>, f: Edge, p: seq<Vertex>)
    requires IsPath(edges + {f}, p)
    ensures || Connected(edges, p[0], p[|p| - 1])
            || (Connected(edges, p[0], f.0) && Connected(edges, f.1, p[|p| - 1]))
            || (Connected(edges, p[0], f.1) && Connected(edges, f.0, p[|p| - 1]))
    decreases |p|
  {
    if |p| == 1 {
      ConnectedRefl(edges, p[0]);
    } else {
      var q := p[..|p| - 1];
      assert IsPath(edges + {f}, q) by {
        forall i | 0 <= i < |q| - 1 ensures Adjacent(edges + {f}, q[i], q[i + 1]) {
          assert q[i] == p[i] && q[i + 1] == p[i + 1];
        }
      }
      PathSplit(edges, f, q);
      var a, b := p[|p| - 2], p[|p| - 1];
      assert q[|q| - 1] == a && q[0] == p[0];
      assert Adjacent(edges + {f}, a, b);
      if Adjacent(edges, a, b) {
        ConnectedByEdge(edges, a, b);
        if Connected(edges, p[0], a) {
          ConnectedTrans(edges, p[0], a, b);
        } else if Connected(edges, p[0], f.0) && Connected(edges, f.1, a) {
          ConnectedTrans(edges, f.1, a, b);
        } else {
          ConnectedTrans(edges, f.0, a, b);
        }
      } else {
        assert CanonicalOrder((a, b)) == f;
        if a == f.0 {
          ConnectedRefl(edges, f.1);
        } else {
          ConnectedRefl(edges, f.0);
        }
      }
    }
  }

  /** Joining two vertices that are not yet connected keeps the graph acyclic. */
  lemma AddEdgeKeepsAcyclic(edges: set<Edge>, u: Vertex, v: Vertex)
    requires CanonicalEdges(edges)
    requires Acyclic(edges)
    requires !Connected(edges, u, v)
    ensures CanonicalOrder((u, v)) !in edges
    ensures Acyclic(edges + {CanonicalOrder((u, v))})
  {
    var f := CanonicalOrder((u, v));
    if f in edges {
      CanonicalOrderSymmetricIdempotent(u, v);
      ConnectedByEdge(edges, u, v);
    }
    var all := edges + {f};
    forall e | e in all
      ensures !Connected(all - {e}, e.0, e.1)
    {
      if e == f {
        assert all - {e} == edges;
        if Connected(edges, f.0, f.1) {
          if f != (u, v) {
            ConnectedSym(edges, f.0, f.1);
          }
        }
      } else {
        assert all - {e} == (edges - {e}) + {f};
        if Connected(all - {e}, e.0, e.1) {
          var p :| IsPath((edges - {e}) + {f}, p) && p[0] == e.0 && p[|p| - 1] == e.1;
          PathSplit(edges - {e}, f, p);
          assert !Connected(edges - {e}, e.0, e.1);
          ConnectedByEdge(edges, e.0, e.1);
          ConnectedSym(edges, e.0, e.1);
          if Connected(edges - {e}, e.0, f.0) && Connected(edges - {e}, f.1, e.1) {
            ConnectedMono(edges - {e}, edges, e.0, f.0);
            ConnectedMono(edges - {e}, edges, f.1, e.1);
            ConnectedSym(edges, e.0, f.0);
            ConnectedTrans(edges, f.0, e.0, e.1);
            ConnectedSym(edges, f.1, e.1);
            ConnectedTrans(edges, f.0, e.1, f.1);
            EndpointsConnected(edges, f, u, v);
          } else {
            assert Connected(edges - {e}, e.0, f.1) && Connected(edges - {e}, f.0, e.1);
            ConnectedMono(edges - {e}, edges, e.0, f.1);
            ConnectedMono(edges - {e}, edges, f.0, e.1);
            ConnectedTrans(edges, f.0, e.1, e.0);
            ConnectedTrans(edges, f.0, e.0, f.1);
            EndpointsConnected(edges, f, u, v);
          }
        }
      }
    }
  }

  /** Connecting the two ends of a canonical edge, in either order, connects u and v. */
  lemma EndpointsConnected(edges: set<Edge>, f: Edge, u: Vertex, v: Vertex)
    requires f == CanonicalOrder((u, v))
    requires Connected(edges, f.0, f.1)
    ensures Connected(edges, u, v)
  {
    if f != (u, v) {
      ConnectedSym(edges, f.0, f.1);
    }
  }

  /**
    In a forest, a vertex w off a walk that ends at v, and adjacent to v, is
    adjacent to no other vertex of the walk: a second such edge would close a
    cycle through the edge v-w.
  */
  lemma StackNeighbourIsTop(edges: set<Edge>, stack: seq<Vertex>, v: Vertex, w: Vertex, x: Vertex)
    requires Acyclic(edges)
    requires IsPath(edges, stack) && stack[|stack| - 1] == v
    requires w !in stack && x in stack
    requires Adjacent(edges, v, w) && Adjacent(edges, x, w)
    ensures x == v
  {
    if x != v {
      var f := CanonicalOrder((v, w));
      var k :| 0 <= k < |stack| && stack[k] == x;
      var p := [w] + stack[k..];
      assert IsPath(edges - {f}, p) by {
        forall i | 0 <= i < |p| - 1 ensures Adjacent(edges - {f}, p[i], p[i + 1]) {
          if i == 0 {
            assert p[1] == x;
            CanonicalOrderSymmetricIdempotent(x, w);
            NotSameEdge(v, w, x, w);
          } else {
            assert p[i] == stack[k + i - 1] && p[i + 1] == stack[k + i];
            assert Adjacent(edges, stack[k + i - 1], stack[k + i]);
            assert p[i] != w && p[i + 1] != w;
            NotSameEdge(v, w, p[i], p[i + 1]);
          }
        }
      }
      assert p[0] == w && p[|p| - 1] == v;
      assert Connected(edges - {f}, w, v);
      if f == (v, w) {
        ConnectedSym(edges - {f}, w, v);
      }
      assert false;
    }
  }

  /** The edge v-w differs from an edge that avoids w, and from an edge x-w with x other than v. */
  lemma NotSameEdge(v: Vertex, w: Vertex, a: Vertex, b: Vertex)
    requires (a != w && b != w) || (a != v && a != w && b == w)
    ensures CanonicalOrder((a, b)) != CanonicalOrder((v, w))
  {
  }
}
