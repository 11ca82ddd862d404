/** The graph of `test_roots` (roots.py:39-42): two two-vertex cycles
    {1, 2} and {3, 4} that both lead into a chain 5 -> {6, 7, 8} -> 9. */
module RootsExample {
  import opened Graphs
  import opened Components
  import opened Roots
  import opened RootProperties

  function ExampleGraph(): Graph<int> {
    map[1 := [2], 2 := [1, 5], 3 := [4], 4 := [3, 5], 5 := [6], 6 := [7], 7 := [8], 8 := [6, 9], 9 := []]
  }

  /** The components in the order Tarjan's algorithm emits them when it
      visits the vertices in key order 1, 2, ..., 9. */
  function ExampleSccs(): seq<seq<int>> {
    [[9], [8, 7, 6], [5], [2, 1], [4, 3]]
  }

  lemma ExampleSccsCover()
    ensures NonEmpty(ExampleSccs()) && Covers(ExampleGraph(), ExampleSccs()) && Disjoint(ExampleSccs())
  {
    var g, sccs := ExampleGraph(), ExampleSccs();
    forall v | v in g
      ensures exists i :: 0 <= i < |sccs| && v in sccs[i]
    {
      if v == 9 { assert v in sccs[0]; }
      else if v in {6, 7, 8} { assert v in sccs[1]; }
      else if v == 5 { assert v in sccs[2]; }
      else if v in {1, 2} { assert v in sccs[3]; }
      else { assert v in sccs[4]; }
    }
  }

  lemma ExampleSccsConnected()
    ensures MutuallyReachable(ExampleGraph(), ExampleSccs())
  {
    var g, sccs := ExampleGraph(), ExampleSccs();
    forall i, u, v | 0 <= i < |sccs| && u in sccs[i] && v in sccs[i]
      ensures Reaches(g, u, v)
    {
      SameComponentReaches(i, u, v);
    }
  }

  lemma SameComponentReaches(i: int, u: int, v: int)
    requires 0 <= i < |ExampleSccs()| && u in ExampleSccs()[i] && v in ExampleSccs()[i]
    ensures Reaches(ExampleGraph(), u, v)
  {
    var sccs := ExampleSccs();
    if i == 1 {
      assert u in {6, 7, 8} && v in {6, 7, 8};
      if u == v { ReachesRefl(ExampleGraph(), u); } else { TriangleReaches(); }
    } else if i == 3 || i == 4 {
      assert sccs[i] == [2, 1] || sccs[i] == [4, 3];
      TwoCycleReaches(u, v);
    } else {
      assert |sccs[i]| == 1;
      assert u == v;
      ReachesRefl(ExampleGraph(), u);
    }
  }

  lemma TwoCycleReaches(u: int, v: int)
    requires (u in {1, 2} && v in {1, 2}) || (u in {3, 4} && v in {3, 4})
    ensures Reaches(ExampleGraph(), u, v)
  {
    if u == v {
      ReachesRefl(ExampleGraph(), u);
    } else {
      ReachesEdge(ExampleGraph(), u, v);
    }
  }

  /** Around the cycle 6 -> 7 -> 8 -> 6 every vertex reaches every other. */
  lemma TriangleReaches()
    ensures forall u, v :: u in {6, 7, 8} && v in {6, 7, 8} && u != v ==> Reaches(ExampleGraph(), u, v)
  {
    var g := ExampleGraph();
    ReachesEdge(g, 6, 7);
    ReachesEdge(g, 7, 8);
    ReachesEdge(g, 8, 6);
    ReachesTrans(g, 6, 7, 8);
    ReachesTrans(g, 7, 8, 6);
    ReachesTrans(g, 8, 6, 7);
  }

  lemma ExampleSccsOrdered()
    ensures ReverseTopological(ExampleGraph(), ExampleSccs())
  {
  }

  lemma ExampleSccsValid()
    ensures ValidSccs(ExampleGraph(), ExampleSccs())
  {
    ExampleSccsCover();
    ExampleSccsConnected();
    ExampleSccsOrdered();
  }

  /** 8 -> 9, 5 -> 6 and 2 -> 5 demote the first three components. */
  lemma ExampleDemoted()
    ensures !IsRoot(ExampleGraph(), ExampleSccs(), 0)
    ensures !IsRoot(ExampleGraph(), ExampleSccs(), 1)
    ensures !IsRoot(ExampleGraph(), ExampleSccs(), 2)
  {
    var g, sccs := ExampleGraph(), ExampleSccs();
    assert EdgeInto(g, sccs, sccs[1], 0) by { assert 8 in sccs[1] && 8 in g && 9 in g[8] && 9 in sccs[0]; }
    assert EdgeInto(g, sccs, sccs[2], 1) by { assert 5 in sccs[2] && 5 in g && 6 in g[5] && 6 in sccs[1]; }
    assert EdgeInto(g, sccs, sccs[3], 2) by { assert 2 in sccs[3] && 2 in g && 5 in g[2] && 5 in sccs[2]; }
  }

  /** No later component points into {2, 1}, and none at all into {4, 3}. */
  lemma ExampleKept()
    ensures IsRoot(ExampleGraph(), ExampleSccs(), 3)
    ensures IsRoot(ExampleGraph(), ExampleSccs(), 4)
  {
    var g, sccs := ExampleGraph(), ExampleSccs();
    assert !EdgeInto(g, sccs, sccs[4], 3);
  }

  /** Components 0, 1 and 2 ({9}, {8, 7, 6} and {5}) are demoted by the
      edges 8 -> 9, 5 -> 6 and 2 -> 5; components 3 and 4 are not. */
  lemma ExampleFlags()
    ensures !IsRoot(ExampleGraph(), ExampleSccs(), 0)
    ensures !IsRoot(ExampleGraph(), ExampleSccs(), 1)
    ensures !IsRoot(ExampleGraph(), ExampleSccs(), 2)
    ensures IsRoot(ExampleGraph(), ExampleSccs(), 3)
    ensures IsRoot(ExampleGraph(), ExampleSccs(), 4)
  {
    ExampleDemoted();
    ExampleKept();
  }

  /** With that decomposition the result is [2, 4], as `test_roots` prints. */
  lemma ExampleRoots()
    ensures RootReps(ExampleGraph(), ExampleSccs()) == [2, 4]
  {
    var g, sccs := ExampleGraph(), ExampleSccs();
    ExampleFlags();
    assert RootRepsBelow(g, sccs, 1) == [];
    assert RootRepsBelow(g, sccs, 2) == [];
    assert RootRepsBelow(g, sccs, 3) == [];
    assert RootRepsBelow(g, sccs, 4) == [2];
  }

  /** A vertex outside a set that no edge leaves, and that contains v, is
      not in v's component. */
  lemma OutsideComponent(sccs: seq<seq<int>>, v: int, u: int, s: set<int>)
    requires ValidSccs(ExampleGraph(), sccs) && v in ExampleGraph()
    requires NoEdgeLeaves(ExampleGraph(), s) && v in s && u !in s
    ensures u !in sccs[ComponentOf(ExampleGraph(), sccs, v)]
  {
    var g := ExampleGraph();
    if u in sccs[ComponentOf(g, sccs, v)] {
      ReachStaysInside(g, s, v, u);
    }
  }

  /** The sets of vertices that no edge of the example leaves. */
  lemma ExampleClosedSets()
    ensures NoEdgeLeaves(ExampleGraph(), {9})
    ensures NoEdgeLeaves(ExampleGraph(), {6, 7, 8, 9})
    ensures NoEdgeLeaves(ExampleGraph(), {5, 6, 7, 8, 9})
    ensures NoEdgeLeaves(ExampleGraph(), {1, 2, 5, 6, 7, 8, 9})
    ensures NoEdgeLeaves(ExampleGraph(), {3, 4, 5, 6, 7, 8, 9})
  {
  }

  /** The only edges into 1 or 2 come from 1 or 2, and likewise for 3, 4. */
  lemma CyclePredecessors(a: int, b: int)
    requires (a, b) == (1, 2) || (a, b) == (3, 4)
    ensures forall u, w :: u in ExampleGraph() && w in ExampleGraph()[u] && (w == a || w == b) ==> u == a || u == b
  {
  }

  /** The vertices of the cycle a <-> b share a component that holds
      nothing else. */
  lemma CycleComponent(sccs: seq<seq<int>>, a: int, b: int)
    requires ValidSccs(ExampleGraph(), sccs)
    requires (a, b) == (1, 2) || (a, b) == (3, 4)
    ensures ComponentOf(ExampleGraph(), sccs, a) == ComponentOf(ExampleGraph(), sccs, b)
    ensures forall m :: m in sccs[ComponentOf(ExampleGraph(), sccs, a)] ==> m == a || m == b
  {
    var g := ExampleGraph();
    var c := ComponentOf(g, sccs, a);
    ReachesEdge(g, a, b);
    ReachesEdge(g, b, a);
    SameComponentIfMutual(g, sccs, a, b, c, ComponentOf(g, sccs, b));
    ExampleClosedSets();
    var s := {a, b, 5, 6, 7, 8, 9};
    forall m | m in sccs[c]
      ensures m == a || m == b
    {
      ReachStaysInside(g, s, a, m);
      if m in {5, 6, 7, 8, 9} {
        ReachStaysInside(g, {5, 6, 7, 8, 9}, m, a);
      }
    }
  }

  /** Nothing outside the cycle a <-> b points into its component, so that
      component is a root. */
  lemma CycleIsRoot(sccs: seq<seq<int>>, a: int, b: int)
    requires ValidSccs(ExampleGraph(), sccs)
    requires (a, b) == (1, 2) || (a, b) == (3, 4)
    ensures IsRoot(ExampleGraph(), sccs, ComponentOf(ExampleGraph(), sccs, a))
  {
    var g := ExampleGraph();
    var c := ComponentOf(g, sccs, a);
    CycleComponent(sccs, a, b);
    CyclePredecessors(a, b);
    assert a in sccs[c] && b in sccs[c];
    forall u, w | u in g && w in g[u] && w in sccs[c] ensures u in sccs[c] {
      assert w == a || w == b;
    }
    RootIffNoIncoming(g, sccs, c);
  }

  /** 6, 7 and 8 lie in one component. */
  lemma TriangleComponent(sccs: seq<seq<int>>, v: int)
    requires ValidSccs(ExampleGraph(), sccs) && v in {6, 7, 8}
    ensures ComponentOf(ExampleGraph(), sccs, v) == ComponentOf(ExampleGraph(), sccs, 6)
  {
    var g := ExampleGraph();
    ReachesEdge(g, 6, 7);
    ReachesEdge(g, 7, 8);
    ReachesEdge(g, 8, 6);
    ReachesTrans(g, 6, 7, 8);
    ReachesTrans(g, 7, 8, 6);
    ReachesTrans(g, 8, 6, 7);
    SameComponentIfMutual(g, sccs, v, 6, ComponentOf(g, sccs, v), ComponentOf(g, sccs, 6));
  }

  /** An edge u -> w from outside w's component demotes that component. */
  lemma EdgeFromOutsideDemotes(sccs: seq<seq<int>>, u: int, w: int)
    requires ValidSccs(ExampleGraph(), sccs)
    requires u in ExampleGraph() && w in ExampleGraph()[u] && w in ExampleGraph()
    requires u !in sccs[ComponentOf(ExampleGraph(), sccs, w)]
    ensures !IsRoot(ExampleGraph(), sccs, ComponentOf(ExampleGraph(), sccs, w))
  {
    RootIffNoIncoming(ExampleGraph(), sccs, ComponentOf(ExampleGraph(), sccs, w));
  }

  /** The components holding 9, {6, 7, 8} and 5 each receive an edge from
      outside (8 -> 9, 5 -> 6, 2 -> 5), so none of them is a root. */
  lemma ChainNotRoot(sccs: seq<seq<int>>, v: int)
    requires ValidSccs(ExampleGraph(), sccs) && v in {5, 6, 7, 8, 9}
    ensures !IsRoot(ExampleGraph(), sccs, ComponentOf(ExampleGraph(), sccs, v))
  {
    ExampleClosedSets();
    if v == 9 {
      OutsideComponent(sccs, 9, 8, {9});
      EdgeFromOutsideDemotes(sccs, 8, 9);
    } else if v == 5 {
      OutsideComponent(sccs, 5, 2, {5, 6, 7, 8, 9});
      EdgeFromOutsideDemotes(sccs, 2, 5);
    } else {
      TriangleComponent(sccs, v);
      OutsideComponent(sccs, 6, 5, {6, 7, 8, 9});
      EdgeFromOutsideDemotes(sccs, 5, 6);
    }
  }

  /** Whatever valid decomposition the library returns, and in whatever
      order, the result holds one of 1 and 2, one of 3 and 4, and nothing
      else (roots.py:41-42). */
  lemma ExampleRootsAnyDecomposition(sccs: seq<seq<int>>)
    requires ValidSccs(ExampleGraph(), sccs)
    ensures |RootReps(ExampleGraph(), sccs)| == 2
    ensures var r := RootReps(ExampleGraph(), sccs);
            (r[0] in {1, 2} && r[1] in {3, 4}) || (r[0] in {3, 4} && r[1] in {1, 2})
  {
    var g := ExampleGraph();
    var r := RootReps(g, sccs);
    var c1, c3 := ComponentOf(g, sccs, 1), ComponentOf(g, sccs, 3);
    ExampleRootComponents(sccs);
    RootRepsShape(g, sccs);
    CycleComponent(sccs, 1, 2);
    CycleComponent(sccs, 3, 4);
    var x1, x3 := sccs[c1][0], sccs[c3][0];
    assert x1 in r && x3 in r;
    assert x1 in {1, 2} && x3 in {3, 4};
    assert r[0] == x1 || r[0] == x3;
    assert r[1] == x1 || r[1] == x3;
  }

  /** Under any valid decomposition, the root components are exactly those
      of the two cycles. */
  lemma ExampleRootComponents(sccs: seq<seq<int>>)
    requires ValidSccs(ExampleGraph(), sccs)
    ensures ComponentOf(ExampleGraph(), sccs, 1) != ComponentOf(ExampleGraph(), sccs, 3)
    ensures RootIndices(ExampleGraph(), sccs, |sccs|) ==
              {ComponentOf(ExampleGraph(), sccs, 1), ComponentOf(ExampleGraph(), sccs, 3)}
  {
    var g := ExampleGraph();
    CycleIsRoot(sccs, 1, 2);
    CycleIsRoot(sccs, 3, 4);
    CycleComponent(sccs, 1, 2);
    var c1, c3 := ComponentOf(g, sccs, 1), ComponentOf(g, sccs, 3);
    assert c1 != c3 by { assert 3 in sccs[c3]; }
    forall j | 0 <= j < |sccs|
      ensures IsRoot(g, sccs, j) <==> j == c1 || j == c3
    {
      var v := sccs[j][0];
      assert v in g && ComponentOf(g, sccs, v) == j;
      CycleComponent(sccs, 3, 4);
      if v in {5, 6, 7, 8, 9} {
        ChainNotRoot(sccs, v);
      }
    }
  }
}
