/** What the list returned by `find_roots` means: one vertex per root
    component, from which every vertex of the graph can be reached, none of
    them reachable from another (roots.py:3-6, 37), and a marking pass
    whose outcome does not depend on the order it visits components in
    (roots.py:28-35). */
module RootProperties {
  import opened Graphs
  import opened Components
  import opened Roots
  import opened Lists

  /** No two representatives are equal: each comes from its own component. */
  lemma {:induction false} RootRepsDistinct<V(!new)>(g: Graph<V>, sccs: seq<seq<V>>, n: nat)
    requires NonEmpty(sccs) && Disjoint(sccs) && n <= |sccs|
    ensures NoDuplicates(RootRepsBelow(g, sccs, n))
  {
    if n > 0 {
      RootRepsDistinct(g, sccs, n - 1);
      var prev := RootRepsBelow(g, sccs, n - 1);
      if IsRoot(g, sccs, n - 1) {
        var x := sccs[n - 1][0];
        forall y | y in prev
          ensures y != x
        {
          var j :| 0 <= j < n - 1 && IsRoot(g, sccs, j) && y == sccs[j][0];
          assert y in sccs[j] && x in sccs[n - 1];
        }
        var reps := prev + [x];
        assert RootRepsBelow(g, sccs, n) == reps;
        forall a, b | 0 <= a < b < |reps|
          ensures reps[a] != reps[b]
        {
          if b == |prev| {
            assert reps[a] == prev[a] && reps[a] in prev;
          }
        }
      }
    }
  }

  /** There are as many representatives as root components. */
  lemma {:induction false} RootRepsCount<V(!new)>(g: Graph<V>, sccs: seq<seq<V>>, n: nat)
    requires NonEmpty(sccs) && n <= |sccs|
    ensures |RootRepsBelow(g, sccs, n)| == |RootIndices(g, sccs, n)|
  {
    if n > 0 {
      RootRepsCount(g, sccs, n - 1);
      RootIndicesStep(g, sccs, n);
      assert (n - 1) !in RootIndices(g, sccs, n - 1);
    }
  }

  lemma RootIndicesStep<V(!new)>(g: Graph<V>, sccs: seq<seq<V>>, n: nat)
    requires 0 < n <= |sccs|
    ensures RootIndices(g, sccs, n) ==
              RootIndices(g, sccs, n - 1) + (if IsRoot(g, sccs, n - 1) then {n - 1} else {})
  {
  }

  /** The representatives are distinct vertices of g, one per root component. */
  lemma RootRepsShape<V(!new)>(g: Graph<V>, sccs: seq<seq<V>>)
    requires ValidSccs(g, sccs)
    ensures NoDuplicates(RootReps(g, sccs))
    ensures |RootReps(g, sccs)| == |RootIndices(g, sccs, |sccs|)|
    ensures forall x :: x in RootReps(g, sccs) ==> x in g
  {
    RootRepsDistinct(g, sccs, |sccs|);
    RootRepsCount(g, sccs, |sccs|);
  }

  /** Every component is reached, as a whole, from some representative:
      either it is a root itself, or a component of larger index points
      into it and is reached in turn. */
  lemma {:induction false} ComponentReachedFromRoot<V(!new)>(g: Graph<V>, sccs: seq<seq<V>>, j: int)
    requires ValidSccs(g, sccs) && 0 <= j < |sccs|
    ensures exists x :: x in RootReps(g, sccs) && ReachesAll(g, x, sccs[j])
    decreases |sccs| - j
  {
    if IsRoot(g, sccs, j) {
      var x := sccs[j][0];
      assert x in RootReps(g, sccs);
      assert ReachesAll(g, x, sccs[j]);
    } else {
      var i :| j < i < |sccs| && EdgeInto(g, sccs, sccs[i], j);
      var u, w :| u in sccs[i] && u in g && w in g[u] && w in sccs[j];
      ComponentReachedFromRoot(g, sccs, i);
      var x :| x in RootReps(g, sccs) && ReachesAll(g, x, sccs[i]);
      forall v | v in sccs[j]
        ensures Reaches(g, x, v)
      {
        ReachesEdge(g, u, w);
        ReachesTrans(g, x, u, w);
        ReachesTrans(g, x, w, v);
      }
    }
  }

  /** Every vertex of g can be reached from a vertex `find_roots` returns. */
  lemma RootsReachEverything<V(!new)>(g: Graph<V>, sccs: seq<seq<V>>)
    requires ValidSccs(g, sccs)
    ensures forall v :: v in g ==> exists x :: x in RootReps(g, sccs) && Reaches(g, x, v)
  {
    forall v | v in g
      ensures exists x :: x in RootReps(g, sccs) && Reaches(g, x, v)
    {
      var j := ComponentOf(g, sccs, v);
      ComponentReachedFromRoot(g, sccs, j);
    }
  }

  /** Only the members of its own component reach the first vertex of a
      root component. */
  lemma RootReachedOnlyFromItsComponent<V(!new)>(g: Graph<V>, sccs: seq<seq<V>>, j: int, u: V)
    requires ValidSccs(g, sccs) && IsRoot(g, sccs, j) && Reaches(g, u, sccs[j][0])
    ensures u in sccs[j]
  {
    if u !in sccs[j] {
      var p :| IsPath(g, p) && p[0] == u && p[|p| - 1] == sccs[j][0];
      EnteringPathDemotes(g, sccs, p, j);
    }
  }

  /** No returned vertex reaches another, so none can be dropped: the set
      is minimal among those from which everything is reachable. */
  lemma RootsMinimal<V(!new)>(g: Graph<V>, sccs: seq<seq<V>>)
    requires ValidSccs(g, sccs)
    ensures forall x, y :: x in RootReps(g, sccs) && y in RootReps(g, sccs) && x != y ==> !Reaches(g, y, x)
  {
    forall x, y | x in RootReps(g, sccs) && y in RootReps(g, sccs) && x != y
      ensures !Reaches(g, y, x)
    {
      var j :| IsRoot(g, sccs, j) && x == sccs[j][0];
      var k :| IsRoot(g, sccs, k) && y == sccs[k][0];
      if Reaches(g, y, x) {
        RootReachedOnlyFromItsComponent(g, sccs, j, y);
      }
    }
  }

  /** The body of the outer marking loop for component i, as a function of
      the flags (roots.py:31-35). */
  function DemoteFrom<V(==)>(g: Graph<V>, sccs: seq<seq<V>>, flags: seq<bool>, i: int): seq<bool>
    requires |flags| == |sccs| && 0 <= i < |sccs|
  {
    seq(|flags|, j requires 0 <= j < |flags| => flags[j] && !(j < i && EdgeInto(g, sccs, sccs[i], j)))
  }

  /** The marking pass visiting the components in an arbitrary order. */
  function DemoteInOrder<V(==)>(g: Graph<V>, sccs: seq<seq<V>>, flags: seq<bool>, order: seq<int>): (r: seq<bool>)
    requires |flags| == |sccs| && forall t :: 0 <= t < |order| ==> 0 <= order[t] < |sccs|
    ensures |r| == |flags|
    decreases |order|
  {
    if |order| == 0 then flags
    else DemoteInOrder(g, sccs, DemoteFrom(g, sccs, flags, order[0]), order[1..])
  }

  /** Marking only clears flags: after any sequence of visits a flag is set
      exactly when it was set before and no visited component demoted it. */
  lemma {:induction false} DemoteInOrderOnlyClears<V>(g: Graph<V>, sccs: seq<seq<V>>, flags: seq<bool>, order: seq<int>)
    requires |flags| == |sccs| && forall t :: 0 <= t < |order| ==> 0 <= order[t] < |sccs|
    ensures forall j :: 0 <= j < |flags| ==>
              (DemoteInOrder(g, sccs, flags, order)[j] <==>
               flags[j] && !exists t :: 0 <= t < |order| && j < order[t] && EdgeInto(g, sccs, sccs[order[t]], j))
    decreases |order|
  {
    if |order| > 0 {
      var next := DemoteFrom(g, sccs, flags, order[0]);
      DemoteInOrderOnlyClears(g, sccs, next, order[1..]);
      forall j | 0 <= j < |flags|
        ensures DemoteInOrder(g, sccs, flags, order)[j] <==>
                flags[j] && !exists t :: 0 <= t < |order| && j < order[t] && EdgeInto(g, sccs, sccs[order[t]], j)
      {
        if exists t :: 0 <= t < |order| && j < order[t] && EdgeInto(g, sccs, sccs[order[t]], j) {
          var t :| 0 <= t < |order| && j < order[t] && EdgeInto(g, sccs, sccs[order[t]], j);
          if t > 0 {
            assert order[1..][t - 1] == order[t];
          }
        }
        if exists t :: 0 <= t < |order[1..]| && j < order[1..][t] && EdgeInto(g, sccs, sccs[order[1..][t]], j) {
          var t :| 0 <= t < |order[1..]| && j < order[1..][t] && EdgeInto(g, sccs, sccs[order[1..][t]], j);
          assert order[t + 1] == order[1..][t];
        }
      }
    }
  }

  /** Whatever order the components are visited in, as long as each is
      visited, the flags that survive are exactly the root components. */
  lemma MarkingOrderIrrelevant<V>(g: Graph<V>, sccs: seq<seq<V>>, order: seq<int>)
    requires forall t :: 0 <= t < |order| ==> 0 <= order[t] < |sccs|
    requires forall i :: 0 <= i < |sccs| ==> i in order
    ensures forall j :: 0 <= j < |sccs| ==>
              (DemoteInOrder(g, sccs, seq(|sccs|, _ => true), order)[j] <==> IsRoot(g, sccs, j))
  {
    var start := seq(|sccs|, _ => true);
    DemoteInOrderOnlyClears(g, sccs, start, order);
    forall j | 0 <= j < |sccs|
      ensures DemoteInOrder(g, sccs, start, order)[j] <==> IsRoot(g, sccs, j)
    {
      if Demoted(g, sccs, j) {
        var i :| j < i < |sccs| && EdgeInto(g, sccs, sccs[i], j);
        assert i in order;
        var t :| 0 <= t < |order| && order[t] == i;
      }
    }
  }
}
