/** The strongly connected components that `find_roots` obtains from the
    `tarjan` library (roots.py:18), described by the properties the root
    finder relies on, and the demotion rule applied to them (roots.py:28-35). */
module Components {
  import opened Graphs

  /** No component is empty, so every component has a first vertex. */
  predicate NonEmpty<V(==)>(sccs: seq<seq<V>>) {
    forall i :: 0 <= i < |sccs| ==> |sccs[i]| > 0
  }

  /** The members of the components are exactly the vertices of g. */
  predicate Covers<V(==)>(g: Graph<V>, sccs: seq<seq<V>>) {
    && (forall i, v :: 0 <= i < |sccs| && v in sccs[i] ==> v in g)
    && (forall v :: v in g ==> exists i :: 0 <= i < |sccs| && v in sccs[i])
  }

  /** No vertex belongs to two different components. */
  predicate Disjoint<V(==)>(sccs: seq<seq<V>>) {
    forall i, j, v :: 0 <= i < |sccs| && 0 <= j < |sccs| && v in sccs[i] && v in sccs[j] ==> i == j
  }

  /** Members of one component reach each other. */
  ghost predicate MutuallyReachable<V(!new)>(g: Graph<V>, sccs: seq<seq<V>>) {
    forall i, u, v :: 0 <= i < |sccs| && u in sccs[i] && v in sccs[i] ==> Reaches(g, u, v)
  }

  /** Edges never lead to a component of larger index: the reverse
      topological order in which Tarjan's algorithm emits components. */
  predicate ReverseTopological<V(==)>(g: Graph<V>, sccs: seq<seq<V>>) {
    forall i, j, u, w ::
      0 <= i < |sccs| && 0 <= j < |sccs| && u in sccs[i] && u in g && w in g[u] && w in sccs[j] ==> j <= i
  }

  /** What the root finder assumes of the decomposition it is handed. */
  ghost predicate ValidSccs<V(!new)>(g: Graph<V>, sccs: seq<seq<V>>) {
    && NonEmpty(sccs)
    && Covers(g, sccs)
    && Disjoint(sccs)
    && MutuallyReachable(g, sccs)
    && ReverseTopological(g, sccs)
  }

  /** The index of the component that holds v. */
  ghost function ComponentOf<V(!new)>(g: Graph<V>, sccs: seq<seq<V>>, v: V): (i: nat)
    requires ValidSccs(g, sccs) && v in g
    ensures i < |sccs| && v in sccs[i]
    ensures forall j :: 0 <= j < |sccs| && v in sccs[j] ==> j == i
  {
    var i :| 0 <= i < |sccs| && v in sccs[i];
    i
  }

  /** Some vertex of us has an edge into component j. */
  predicate EdgeInto<V(==)>(g: Graph<V>, sccs: seq<seq<V>>, us: seq<V>, j: int)
    requires 0 <= j < |sccs|
  {
    exists u, w :: u in us && u in g && w in g[u] && w in sccs[j]
  }

  /** Component j receives an edge from a component whose index lies
      strictly between j and n. */
  predicate DemotedBelow<V(==)>(g: Graph<V>, sccs: seq<seq<V>>, j: int, n: int)
    requires 0 <= j < |sccs| && n <= |sccs|
  {
    exists i :: j < i < n && EdgeInto(g, sccs, sccs[i], j)
  }

  /** Component j receives an edge from a component of larger index: the
      components the marking loop sets to non-root. */
  predicate Demoted<V(==)>(g: Graph<V>, sccs: seq<seq<V>>, j: int)
    requires 0 <= j < |sccs|
  {
    DemotedBelow(g, sccs, j, |sccs|)
  }

  /** Component j keeps its root flag. */
  predicate IsRoot<V(==)>(g: Graph<V>, sccs: seq<seq<V>>, j: int) {
    0 <= j < |sccs| && !Demoted(g, sccs, j)
  }

  /** For a valid decomposition, comparing indices as the source does
      (`j < i`) is the same as asking for an edge from another component:
      a component is a root exactly when no vertex outside it has an edge
      into it. */
  lemma RootIffNoIncoming<V(!new)>(g: Graph<V>, sccs: seq<seq<V>>, j: int)
    requires ValidSccs(g, sccs) && 0 <= j < |sccs|
    ensures IsRoot(g, sccs, j) <==>
            !exists u, w :: u in g && u !in sccs[j] && w in g[u] && w in sccs[j]
  {
    if exists u, w :: u in g && u !in sccs[j] && w in g[u] && w in sccs[j] {
      var u, w :| u in g && u !in sccs[j] && w in g[u] && w in sccs[j];
      IncomingDemotes(g, sccs, j, u, w);
    }
    if Demoted(g, sccs, j) {
      DemotedHasIncoming(g, sccs, j);
    }
  }

  lemma IncomingDemotes<V(!new)>(g: Graph<V>, sccs: seq<seq<V>>, j: int, u: V, w: V)
    requires ValidSccs(g, sccs) && 0 <= j < |sccs|
    requires u in g && u !in sccs[j] && w in g[u] && w in sccs[j]
    ensures Demoted(g, sccs, j)
  {
    var i := ComponentOf(g, sccs, u);
    assert EdgeInto(g, sccs, sccs[i], j);
  }

  lemma DemotedHasIncoming<V(!new)>(g: Graph<V>, sccs: seq<seq<V>>, j: int)
    requires ValidSccs(g, sccs) && 0 <= j < |sccs| && Demoted(g, sccs, j)
    ensures exists u, w :: u in g && u !in sccs[j] && w in g[u] && w in sccs[j]
  {
    var i :| j < i < |sccs| && EdgeInto(g, sccs, sccs[i], j);
    var u, w :| u in sccs[i] && u in g && w in g[u] && w in sccs[j];
    assert u !in sccs[j];
  }

  /** Following edges never increases the component index. */
  lemma {:induction false} PathDescends<V(!new)>(g: Graph<V>, sccs: seq<seq<V>>, p: seq<V>, i: int, j: int)
    requires ValidSccs(g, sccs) && IsPath(g, p)
    requires 0 <= i < |sccs| && 0 <= j < |sccs| && p[0] in sccs[i] && p[|p| - 1] in sccs[j]
    ensures j <= i
    decreases |p|
  {
    if |p| > 1 {
      PathTail(g, p);
      var i' := if |p| == 2 then j else ComponentOf(g, sccs, p[1]);
      PathDescends(g, sccs, p[1..], i', j);
    }
  }

  /** Two vertices that reach each other lie in the same component, so the
      components are the maximal mutually reachable sets. */
  lemma SameComponentIfMutual<V(!new)>(g: Graph<V>, sccs: seq<seq<V>>, u: V, v: V, i: int, j: int)
    requires ValidSccs(g, sccs)
    requires 0 <= i < |sccs| && 0 <= j < |sccs| && u in sccs[i] && v in sccs[j]
    requires Reaches(g, u, v) && Reaches(g, v, u)
    ensures i == j
  {
    var p :| IsPath(g, p) && p[0] == u && p[|p| - 1] == v;
    var q :| IsPath(g, q) && q[0] == v && q[|q| - 1] == u;
    PathDescends(g, sccs, p, i, j);
    PathDescends(g, sccs, q, j, i);
  }

  /** A walk that starts outside component j and ends inside it enters it
      along an edge from another component, which demotes j. */
  lemma {:induction false} EnteringPathDemotes<V(!new)>(g: Graph<V>, sccs: seq<seq<V>>, p: seq<V>, j: int)
    requires ValidSccs(g, sccs) && IsPath(g, p) && 0 <= j < |sccs|
    requires p[0] !in sccs[j] && p[|p| - 1] in sccs[j]
    ensures Demoted(g, sccs, j)
    decreases |p|
  {
    PathTail(g, p);
    if p[1] in sccs[j] {
      RootIffNoIncoming(g, sccs, j);
    } else {
      EnteringPathDemotes(g, sccs, p[1..], j);
    }
  }

  /** Adding an edge between two members of the same component changes no
      component's root status: the source only demotes for `j < i`, never
      for `j == i`. */
  lemma IntraEdgeDoesNotDemote<V>(g: Graph<V>, sccs: seq<seq<V>>, i: int, u: V, w: V, j: int)
    requires Disjoint(sccs)
    requires 0 <= i < |sccs| && u in sccs[i] && w in sccs[i] && u in g
    requires 0 <= j < |sccs|
    ensures Demoted(g[u := g[u] + [w]], sccs, j) <==> Demoted(g, sccs, j)
  {
    var g' := g[u := g[u] + [w]];
    if Demoted(g', sccs, j) {
      var i' :| j < i' < |sccs| && EdgeInto(g', sccs, sccs[i'], j);
      var u', w' :| u' in sccs[i'] && u' in g' && w' in g'[u'] && w' in sccs[j];
      if u' == u && w' !in g[u] {
        assert false;
      }
      assert EdgeInto(g, sccs, sccs[i'], j);
    }
    if Demoted(g, sccs, j) {
      var i' :| j < i' < |sccs| && EdgeInto(g, sccs, sccs[i'], j);
      var u', w' :| u' in sccs[i'] && u' in g && w' in g[u'] && w' in sccs[j];
      assert w' in g'[u'];
      assert EdgeInto(g', sccs, sccs[i'], j);
    }
  }
}
