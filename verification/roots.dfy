/** `find_roots` (roots.py:17-37): given a decomposition of the graph into
    strongly connected components, keep every component that no component
    of larger index points into, and return the first vertex of each. */
module Roots {
  import opened Outcome
  import opened Graphs
  import opened Components

  /** The KeyError raised at `scc_ind[w]` when a successor w is not a
      vertex of the graph (roots.py:32-33). */
  datatype RootsError<V> = UnknownVertex(from: V, missing: V)

  /** The first vertex of every root component among the first n
      components, in component order (the list built at roots.py:37). */
  function RootRepsBelow<V(==, !new)>(g: Graph<V>, sccs: seq<seq<V>>, n: nat): (reps: seq<V>)
    requires NonEmpty(sccs) && n <= |sccs|
    ensures |reps| <= n
    ensures forall x :: x in reps <==> exists j :: 0 <= j < n && IsRoot(g, sccs, j) && x == sccs[j][0]
  {
    if n == 0 then []
    else RootRepsBelow(g, sccs, n - 1) + (if IsRoot(g, sccs, n - 1) then [sccs[n - 1][0]] else [])
  }

  /** The result `find_roots` promises for a graph and its decomposition. */
  function RootReps<V(==, !new)>(g: Graph<V>, sccs: seq<seq<V>>): seq<V>
    requires NonEmpty(sccs)
  {
    RootRepsBelow(g, sccs, |sccs|)
  }

  /** The indices of the root components among the first n. */
  function RootIndices<V(==, !new)>(g: Graph<V>, sccs: seq<seq<V>>, n: nat): set<int>
    requires n <= |sccs|
  {
    set j | 0 <= j < n && IsRoot(g, sccs, j)
  }

  /** The first loop of `find_roots` (roots.py:21-26): every member of a
      component is mapped to the index of the last component holding it,
      and one root flag per component starts out true. */
  method IndexComponents<V(==)>(sccs: seq<seq<V>>) returns (index: map<V, nat>, isRoot: seq<bool>)
    ensures |isRoot| == |sccs| && forall j :: 0 <= j < |isRoot| ==> isRoot[j]
    ensures forall i, v :: 0 <= i < |sccs| && v in sccs[i] ==> v in index
    ensures forall v :: v in index ==>
              && index[v] < |sccs| && v in sccs[index[v]]
              && forall i :: index[v] < i < |sccs| ==> v !in sccs[i]
  {
    index := map[];
    isRoot := [];
    var i := 0;
    while i < |sccs|
      invariant 0 <= i <= |sccs|
      invariant |isRoot| == i && forall j :: 0 <= j < i ==> isRoot[j]
      invariant forall i', v :: 0 <= i' < i && v in sccs[i'] ==> v in index
      invariant forall v :: v in index ==>
                  && index[v] < i && v in sccs[index[v]]
                  && forall i' :: index[v] < i' < i ==> v !in sccs[i']
    {
      isRoot := isRoot + [true];
      var c := sccs[i];
      var k := 0;
      while k < |c|
        invariant 0 <= k <= |c|
        invariant forall i', v :: 0 <= i' < i && v in sccs[i'] ==> v in index
        invariant forall v :: v in c[..k] ==> v in index && index[v] == i
        invariant forall v :: v in index && v !in c[..k] ==> index[v] < i
        invariant forall v :: v in index ==>
                    && index[v] <= i && v in sccs[index[v]]
                    && forall i' :: index[v] < i' < i ==> v !in sccs[i']
      {
        assert c[..k + 1] == c[..k] + [c[k]];
        index := index[c[k] := i];
        k := k + 1;
      }
      assert c[..|c|] == c;
      i := i + 1;
    }
  }

  /** index maps every vertex of g, and nothing else, to its component. */
  predicate IndexedBy<V(==)>(g: Graph<V>, sccs: seq<seq<V>>, index: map<V, nat>) {
    && index.Keys == g.Keys
    && (forall v :: v in index ==> index[v] < |sccs| && v in sccs[index[v]])
    && (forall i, v :: 0 <= i < |sccs| && v in sccs[i] ==> v in index && index[v] == i)
  }

  /** Some successor of v lies outside the graph. */
  predicate HasUnknownSuccessor<V(==)>(g: Graph<V>, v: V)
    requires v in g
  {
    exists w :: w in g[v] && w !in g
  }

  /** The innermost loop of `find_roots` (roots.py:32-35) for one vertex v
      of component i: every earlier component holding a successor of v
      loses its root flag, and nothing else changes. */
  method DemoteSuccessors<V(==)>(g: Graph<V>, sccs: seq<seq<V>>, index: map<V, nat>, isRoot: seq<bool>, i: nat, v: V)
    returns (r: Result<seq<bool>, RootsError<V>>)
    requires Disjoint(sccs) && IndexedBy(g, sccs, index)
    requires |isRoot| == |sccs| && i < |sccs| && v in g
    ensures r.Err? <==> HasUnknownSuccessor(g, v)
    ensures r.Err? ==> r.error.from == v && r.error.missing in g[v] && r.error.missing !in g
    ensures r.Ok? ==> |r.value| == |sccs|
    ensures r.Ok? ==> forall j :: 0 <= j < |sccs| ==>
              (r.value[j] <==> isRoot[j] && !(j < i && exists w :: w in g[v] && w in sccs[j]))
  {
    var succ := g[v];
    var flags := isRoot;
    var m := 0;
    while m < |succ|
      invariant 0 <= m <= |succ| && |flags| == |sccs|
      invariant forall w :: w in succ[..m] ==> w in g
      invariant forall j :: 0 <= j < |sccs| ==>
                  (flags[j] <==> isRoot[j] && !(j < i && exists w :: w in succ[..m] && w in sccs[j]))
    {
      var w := succ[m];
      if w !in index {
        return Err(UnknownVertex(v, w));
      }
      var j := index[w];
      if j < i {
        flags := flags[j := false];
      }
      assert succ[..m + 1] == succ[..m] + [w];
      m := m + 1;
    }
    assert succ[..m] == succ;
    return Ok(flags);
  }

  /** The two inner loops of `find_roots` (roots.py:31-35) for component i:
      every earlier component that receives an edge from component i loses
      its root flag, and nothing else changes. */
  method DemoteFromComponent<V(==)>(g: Graph<V>, sccs: seq<seq<V>>, index: map<V, nat>, isRoot: seq<bool>, i: nat)
    returns (r: Result<seq<bool>, RootsError<V>>)
    requires Disjoint(sccs) && Covers(g, sccs) && IndexedBy(g, sccs, index)
    requires |isRoot| == |sccs| && i < |sccs|
    ensures r.Err? <==> exists u :: u in sccs[i] && HasUnknownSuccessor(g, u)
    ensures r.Err? ==> r.error.from in g && r.error.missing in g[r.error.from] && r.error.missing !in g
    ensures r.Ok? ==> |r.value| == |sccs|
    ensures r.Ok? ==> forall j :: 0 <= j < |sccs| ==>
              (r.value[j] <==> isRoot[j] && !(j < i && EdgeInto(g, sccs, sccs[i], j)))
  {
    var c := sccs[i];
    var flags := isRoot;
    var k := 0;
    while k < |c|
      invariant 0 <= k <= |c| && |flags| == |sccs|
      invariant forall u :: u in c[..k] ==> !HasUnknownSuccessor(g, u)
      invariant forall j :: 0 <= j < |sccs| ==>
                  (flags[j] <==> isRoot[j] && !(j < i && EdgeInto(g, sccs, c[..k], j)))
    {
      var v := c[k];
      var step := DemoteSuccessors(g, sccs, index, flags, i, v);
      if step.Err? {
        return Err(step.error);
      }
      assert c[..k + 1] == c[..k] + [v];
      flags := step.value;
      k := k + 1;
    }
    assert c[..k] == c;
    return Ok(flags);
  }

  lemma DemotedBelowStep<V>(g: Graph<V>, sccs: seq<seq<V>>, j: int, i: int)
    requires 0 <= j < |sccs| && 0 <= i < |sccs|
    ensures DemotedBelow(g, sccs, j, i + 1) <==> DemotedBelow(g, sccs, j, i) || (j < i && EdgeInto(g, sccs, sccs[i], j))
  {
  }

  /** The graph is closed exactly when no member of any component has a
      successor outside it. */
  lemma ClosedIffKnownSuccessors<V>(g: Graph<V>, sccs: seq<seq<V>>)
    requires Covers(g, sccs)
    ensures Closed(g) <==> forall i, u :: 0 <= i < |sccs| && u in sccs[i] ==> !HasUnknownSuccessor(g, u)
  {
    if !Closed(g) {
      var v, w :| v in g && w in g[v] && w !in g;
      var i :| 0 <= i < |sccs| && v in sccs[i];
      assert HasUnknownSuccessor(g, v);
    }
  }

  /** The list comprehension of roots.py:37 over the final flags. */
  method CollectRoots<V(==, !new)>(g: Graph<V>, sccs: seq<seq<V>>, isRoot: seq<bool>) returns (reps: seq<V>)
    requires NonEmpty(sccs) && |isRoot| == |sccs|
    requires forall j :: 0 <= j < |sccs| ==> (isRoot[j] <==> IsRoot(g, sccs, j))
    ensures reps == RootReps(g, sccs)
  {
    reps := [];
    var j := 0;
    while j < |sccs|
      invariant 0 <= j <= |sccs|
      invariant reps == RootRepsBelow(g, sccs, j)
    {
      if isRoot[j] {
        reps := reps + [sccs[j][0]];
      }
      j := j + 1;
    }
  }

  /** `find_roots` with the decomposition supplied by the caller. The
      result is an error exactly when some successor is not a vertex of g;
      otherwise it lists the first vertex of every component that no
      component of larger index points into, in component order. */
  method FindRoots<V(==, !new)>(g: Graph<V>, sccs: seq<seq<V>>) returns (r: Result<seq<V>, RootsError<V>>)
    requires ValidSccs(g, sccs)
    ensures r.Err? <==> !Closed(g)
    ensures r.Err? ==> r.error.from in g && r.error.missing in g[r.error.from] && r.error.missing !in g
    ensures r.Ok? ==> r.value == RootReps(g, sccs)
    ensures r.Ok? ==> forall x :: x in r.value <==> exists j :: IsRoot(g, sccs, j) && x == sccs[j][0]
  {
    var index, isRoot := IndexComponents(sccs);
    assert IndexedBy(g, sccs, index);
    ClosedIffKnownSuccessors(g, sccs);

    var i := 0;
    while i < |sccs|
      invariant 0 <= i <= |sccs| && |isRoot| == |sccs|
      invariant forall j :: 0 <= j < |sccs| ==> (isRoot[j] <==> !DemotedBelow(g, sccs, j, i))
      invariant forall i', u :: 0 <= i' < i && u in sccs[i'] ==> !HasUnknownSuccessor(g, u)
    {
      var step := DemoteFromComponent(g, sccs, index, isRoot, i);
      if step.Err? {
        return Err(step.error);
      }
      forall j | 0 <= j < |sccs|
        ensures step.value[j] <==> !DemotedBelow(g, sccs, j, i + 1)
      {
        DemotedBelowStep(g, sccs, j, i);
      }
      isRoot := step.value;
      i := i + 1;
    }

    var reps := CollectRoots(g, sccs, isRoot);
    r := Ok(reps);
  }
}
