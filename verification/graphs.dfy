/** Directed graphs as the repository represents them: a map from each
    vertex to the list of its successors (roots.py:5-6). */
module Graphs {

  type Graph<V> = map<V, seq<V>>

  /** Every successor named by the graph is itself a vertex of the graph. */
  predicate Closed<V>(g: Graph<V>) {
    forall v, w :: v in g && w in g[v] ==> w in g
  }

  /** p is a walk of g: consecutive entries are joined by edges. */
  ghost predicate IsPath<V>(g: Graph<V>, p: seq<V>) {
    && |p| > 0
    && forall k :: 0 <= k < |p| - 1 ==> p[k] in g && p[k + 1] in g[p[k]]
  }

  /** v can be reached from u by following zero or more edges. */
  ghost predicate Reaches<V(!new)>(g: Graph<V>, u: V, v: V) {
    exists p :: IsPath(g, p) && p[0] == u && p[|p| - 1] == v
  }

  /** Every vertex of vs can be reached from u. */
  ghost predicate ReachesAll<V(!new)>(g: Graph<V>, u: V, vs: seq<V>) {
    forall v :: v in vs ==> Reaches(g, u, v)
  }

  lemma ReachesRefl<V(!new)>(g: Graph<V>, u: V)
    ensures Reaches(g, u, u)
  {
    assert IsPath(g, [u]);
  }

  lemma ReachesEdge<V(!new)>(g: Graph<V>, u: V, w: V)
    requires u in g && w in g[u]
    ensures Reaches(g, u, w)
  {
    assert IsPath(g, [u, w]);
  }

  lemma ReachesTrans<V(!new)>(g: Graph<V>, u: V, v: V, w: V)
    requires Reaches(g, u, v) && Reaches(g, v, w)
    ensures Reaches(g, u, w)
  {
    var p :| IsPath(g, p) && p[0] == u && p[|p| - 1] == v;
    var q :| IsPath(g, q) && q[0] == v && q[|q| - 1] == w;
    var r := p + q[1..];
    forall k | 0 <= k < |r| - 1
      ensures r[k] in g && r[k + 1] in g[r[k]]
    {
      if k < |p| - 1 {
        assert r[k] == p[k] && r[k + 1] == p[k + 1];
      } else {
        assert r[k] == q[k - |p| + 1] && r[k + 1] == q[k - |p| + 2];
      }
    }
    assert IsPath(g, r);
  }

  /** A walk with at least one edge continues as a walk after its first vertex. */
  lemma PathTail<V>(g: Graph<V>, p: seq<V>)
    requires IsPath(g, p) && |p| > 1
    ensures IsPath(g, p[1..]) && p[0] in g && p[1] in g[p[0]]
  {
    forall k | 0 <= k < |p[1..]| - 1
      ensures p[1..][k] in g && p[1..][k + 1] in g[p[1..][k]]
    {
      assert p[1..][k] == p[k + 1] && p[1..][k + 1] == p[k + 2];
    }
  }

  /** No edge leads from a vertex of s to a vertex outside s. */
  ghost predicate NoEdgeLeaves<V>(g: Graph<V>, s: set<V>) {
    forall v, w :: v in s && v in g && w in g[v] ==> w in s
  }

  lemma {:induction false} PathStaysInside<V>(g: Graph<V>, s: set<V>, p: seq<V>)
    requires IsPath(g, p) && NoEdgeLeaves(g, s) && p[0] in s
    ensures p[|p| - 1] in s
    decreases |p|
  {
    if |p| > 1 {
      PathTail(g, p);
      PathStaysInside(g, s, p[1..]);
    }
  }

  /** Nothing outside a set that no edge leaves is reachable from inside it. */
  lemma ReachStaysInside<V(!new)>(g: Graph<V>, s: set<V>, u: V, v: V)
    requires NoEdgeLeaves(g, s) && u in s && Reaches(g, u, v)
    ensures v in s
  {
    var p :| IsPath(g, p) && p[0] == u && p[|p| - 1] == v;
    PathStaysInside(g, s, p);
  }
}
