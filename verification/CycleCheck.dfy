/** The three-colour depth-first search of check_policy.py over the depends_on graph. */
module CycleCheck {
  import opened Common

  type Graph = map<int, seq<int>>

  /** Every edge stays inside the graph. */
  ghost predicate Closed(graph: Graph) {
    forall n, d :: n in graph && d in graph[n] ==> d in graph
  }

  /** The i-th step of p follows an edge. */
  ghost predicate Step(graph: Graph, p: seq<int>, i: nat) {
    i + 1 < |p| && p[i] in graph && p[i + 1] in graph[p[i]]
  }

  /** A walk along edges. */
  ghost predicate IsWalk(graph: Graph, p: seq<int>) {
    |p| > 0 && p[0] in graph && forall i :: 0 <= i < |p| - 1 ==> Step(graph, p, i)
  }

  /** A closed walk with at least one edge. */
  ghost predicate IsCycle(graph: Graph, p: seq<int>) {
    IsWalk(graph, p) && |p| >= 2 && p[0] == p[|p| - 1]
  }

  ghost predicate Acyclic(graph: Graph) {
    forall p :: !IsCycle(graph, p)
  }

  // ---------------------------------------------------------------------
  // A finishing order in which every edge runs backwards rules out cycles
  // ---------------------------------------------------------------------

  ghost predicate EdgesRunBackwards(graph: Graph, order: seq<int>) {
    forall k :: 0 <= k < |order| ==> DependenciesBefore(graph, order, k)
  }

  ghost predicate DependenciesBefore(graph: Graph, order: seq<int>, k: nat)
    requires k < |order|
  {
    order[k] in graph ==> forall d :: d in graph[order[k]] ==> d in order[..k]
  }

  function FirstIndex(s: seq<int>, x: int): (k: nat)
    requires x in s
    ensures k < |s| && s[k] == x && x !in s[..k]
  {
    if s[0] == x then 0
    else
      var k := FirstIndex(s[1..], x) + 1;
      assert s[..k] == [s[0]] + s[1..][..k - 1];
      k
  }

  lemma FirstIndexIsFirst(s: seq<int>, x: int, k: nat)
    requires k <= |s| && x in s[..k]
    ensures x in s && FirstIndex(s, x) < k
  {
    var j :| 0 <= j < k && s[..k][j] == x;
    assert s[j] == x;
    var f := FirstIndex(s, x);
    assert forall i :: 0 <= i < f ==> s[..f][i] == s[i] && s[i] != x;
  }

  /** Along a walk the finishing position drops by at least one per edge. */
  lemma {:induction false} WalkRunsBackwards(graph: Graph, order: seq<int>, p: seq<int>)
    requires IsWalk(graph, p) && EdgesRunBackwards(graph, order) && p[0] in order
    ensures p[|p| - 1] in order && FirstIndex(order, p[|p| - 1]) + |p| - 1 <= FirstIndex(order, p[0])
  {
    if |p| > 1 {
      var init := p[..|p| - 1];
      forall i | 0 <= i < |init| - 1
        ensures Step(graph, init, i)
      {
        assert Step(graph, p, i);
      }
      WalkRunsBackwards(graph, order, init);
      assert Step(graph, p, |p| - 2);
      var k := FirstIndex(order, p[|p| - 2]);
      assert DependenciesBefore(graph, order, k);
      FirstIndexIsFirst(order, p[|p| - 1], k);
    }
  }

  lemma CompleteOrderMeansAcyclic(graph: Graph, order: seq<int>)
    requires EdgesRunBackwards(graph, order) && forall n :: n in graph ==> n in order
    ensures Acyclic(graph)
  {
    forall p
      ensures !IsCycle(graph, p)
    {
      if IsWalk(graph, p) {
        var first := p[0];
        assert first in graph && first in order;
        WalkRunsBackwards(graph, order, p);
      }
    }
  }

  // ---------------------------------------------------------------------
  // The search
  // ---------------------------------------------------------------------

  class Search {
    const graph: Graph
    var visiting: set<int>
    var visited: set<int>
    // The order in which nodes were finished.
    ghost var finished: seq<int>

    constructor (graph: Graph)
      requires Closed(graph)
      ensures Valid() && this.graph == graph && visiting == {} && visited == {}
    {
      this.graph := graph;
      visiting, visited, finished := {}, {}, [];
    }

    ghost predicate Valid()
      reads this
    {
      && Closed(graph)
      && visiting <= graph.Keys && visited <= graph.Keys && visiting !! visited
      && (forall n :: n in visited <==> n in finished)
      && EdgesRunBackwards(graph, finished)
    }

    /** `trail` leads from a root to `number` through exactly the nodes being visited. */
    ghost predicate OnTrail(number: int, trail: seq<int>)
      reads this
    {
      && IsWalk(graph, trail) && trail[|trail| - 1] == number && number in graph
      && (forall n :: n in visiting <==> n in trail[..|trail| - 1])
    }

    /**
     * `visit`: reports a cycle that really is one, or finishes the node and everything
     * below it and leaves the nodes being visited as they were.
     */
    method Visit(number: int, trail: seq<int>) returns (cycle: Option<seq<int>>)
      requires Valid() && OnTrail(number, trail)
      modifies this
      ensures cycle.Some? ==> IsCycle(graph, cycle.value)
      ensures cycle.None? ==> Valid() && visiting == old(visiting) && old(visited) + {number} <= visited
      decreases graph.Keys - visiting
    {
      if number in visiting {
        ClosingTrail(trail);
        var start := FirstIndex(trail, number);
        return Some(trail[start..]);
      }
      if number in visited {
        return None;
      }
      visiting := visiting + {number};
      assert trail[..|trail|] == trail;
      var deps := graph[number];
      for k := 0 to |deps|
        invariant Valid() && visiting == old(visiting) + {number}
        invariant old(visited) <= visited
        invariant forall i :: 0 <= i < k ==> deps[i] in visited
      {
        assert IsWalk(graph, trail + [deps[k]]) by {
          ExtendWalk(graph, trail, deps[k]);
        }
        assert (trail + [deps[k]])[..|trail|] == trail;
        assert forall n :: n in trail <==> n in trail[..|trail| - 1] || n == number by {
          assert trail == trail[..|trail| - 1] + [number];
        }
        cycle := Visit(deps[k], trail + [deps[k]]);
        if cycle.Some? {
          return;
        }
      }
      visiting := visiting - {number};
      visited := visited + {number};
      FinishOne(graph, finished, number);
      finished := finished + [number];
      cycle := None;
    }

    lemma ClosingTrail(trail: seq<int>)
      requires IsWalk(graph, trail) && trail[|trail| - 1] in trail[..|trail| - 1]
      ensures trail[|trail| - 1] in trail
      ensures IsCycle(graph, trail[FirstIndex(trail, trail[|trail| - 1])..])
    {
      FirstIndexIsFirst(trail, trail[|trail| - 1], |trail| - 1);
      var start := FirstIndex(trail, trail[|trail| - 1]);
      WalkSuffix(graph, trail, start);
    }
  }

  lemma WalkSuffix(graph: Graph, trail: seq<int>, start: nat)
    requires IsWalk(graph, trail) && start < |trail| - 1
    ensures IsWalk(graph, trail[start..])
  {
    var p := trail[start..];
    assert Step(graph, trail, start);
    forall i | 0 <= i < |p| - 1
      ensures Step(graph, p, i)
    {
      assert Step(graph, trail, start + i);
    }
  }

  lemma ExtendWalk(graph: Graph, trail: seq<int>, d: int)
    requires Closed(graph) && IsWalk(graph, trail) && trail[|trail| - 1] in graph && d in graph[trail[|trail| - 1]]
    ensures IsWalk(graph, trail + [d])
  {
    var p := trail + [d];
    forall i | 0 <= i < |p| - 1
      ensures Step(graph, p, i)
    {
      if i < |trail| - 1 {
        assert Step(graph, trail, i);
      }
    }
  }

  lemma FinishOne(graph: Graph, order: seq<int>, n: int)
    requires EdgesRunBackwards(graph, order) && n in graph && forall d :: d in graph[n] ==> d in order
    ensures EdgesRunBackwards(graph, order + [n])
  {
    var longer := order + [n];
    forall k | 0 <= k < |longer|
      ensures DependenciesBefore(graph, longer, k)
    {
      if k < |order| {
        assert DependenciesBefore(graph, order, k) && longer[..k] == order[..k];
      } else {
        assert longer[..k] == order;
      }
    }
  }

  /** The outer loop: visits every node; a cycle is reported exactly when there is one. */
  method FindCycle(graph: Graph, numbers: seq<int>) returns (cycle: Option<seq<int>>)
    requires Closed(graph) && forall n :: n in graph <==> n in numbers
    ensures cycle.None? <==> Acyclic(graph)
    ensures cycle.Some? ==> IsCycle(graph, cycle.value)
  {
    var search := new Search(graph);
    for k := 0 to |numbers|
      invariant search.graph == graph && search.Valid() && search.visiting == {}
      invariant forall i :: 0 <= i < k ==> numbers[i] in search.visited
    {
      var number := numbers[k];
      assert number in numbers && number in graph;
      cycle := search.Visit(number, [number]);
      if cycle.Some? {
        return;
      }
    }
    CompleteOrderMeansAcyclic(graph, search.finished);
    cycle := None;
  }
}
