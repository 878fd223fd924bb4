/** The work-package dependency check: depth-first search with an active and a visited set. */
module WorkPackages {
  import opened Common

  type Key = string
  type Graph = map<Key, seq<Key>>

  datatype Outcome = Done | CycleAt(key: Key) | MissingDependency(key: Key)

  // -------------------------------------------------------------- the graph

  /** Every dependency is itself a package. */
  ghost predicate AllDefined(g: Graph) {
    forall k, i :: k in g && 0 <= i < |g[k]| ==> g[k][i] in g
  }

  predicate Edge(g: Graph, a: Key, b: Key) {
    a in g && b in g[a]
  }

  /** A walk along dependencies. */
  predicate IsPath(g: Graph, p: seq<Key>) {
    forall i :: 0 < i < |p| ==> Edge(g, p[i - 1], p[i])
  }

  ghost predicate IsCycle(g: Graph, p: seq<Key>) {
    |p| >= 2 && IsPath(g, p) && p[0] == p[|p| - 1]
  }

  ghost predicate HasCycle(g: Graph) {
    exists p :: IsCycle(g, p)
  }

  /** What a failure names: a package on a cycle, or something undefined that a package depends on. */
  ghost predicate RealFailure(g: Graph, r: Outcome) {
    match r
    case Done => false
    case CycleAt(key) => exists p :: IsCycle(g, p) && key in p
    case MissingDependency(key) => key !in g && exists k :: Edge(g, k, key)
  }

  lemma FailureRefutes(g: Graph, r: Outcome)
    requires RealFailure(g, r)
    ensures r.CycleAt? ==> HasCycle(g)
    ensures r.MissingDependency? ==> !AllDefined(g)
  {
    if r.MissingDependency? {
      var k :| Edge(g, k, r.key);
      var i :| 0 <= i < |g[k]| && g[k][i] == r.key;
    }
  }

  /** Each package comes after all of its dependencies, and comes once. */
  ghost predicate Topological(g: Graph, order: seq<Key>) {
    && (forall i, j :: 0 <= i < j < |order| ==> order[i] != order[j])
    && (forall i, d :: 0 <= i < |order| && Edge(g, order[i], d) ==> d in order[..i])
    && (forall i :: 0 <= i < |order| ==> order[i] in g)
  }

  lemma TopologicalSnoc(g: Graph, order: seq<Key>, key: Key)
    requires Topological(g, order) && key in g && key !in order
    requires forall d :: Edge(g, key, d) ==> d in order
    ensures Topological(g, order + [key])
  {
    var longer := order + [key];
    forall i, d | 0 <= i < |longer| && Edge(g, longer[i], d) ensures d in longer[..i] {
      if i < |order| {
        assert longer[..i] == order[..i];
      } else {
        assert longer[..i] == order;
      }
    }
  }

  /** Positions fall along every edge, so a topological order of everything rules out cycles. */
  lemma {:induction false} PositionsFall(g: Graph, order: seq<Key>, p: seq<Key>, i: nat) returns (j: nat)
    requires Topological(g, order) && IsPath(g, p) && p != [] && i < |order| && order[i] == p[0]
    ensures j <= i && j < |order| && order[j] == p[|p| - 1] && (|p| > 1 ==> j < i)
    decreases |p|
  {
    if |p| == 1 {
      j := i;
    } else {
      assert Edge(g, p[0], p[1]);
      assert p[1] in order[..i];
      var k :| 0 <= k < i && order[..i][k] == p[1];
      assert IsPath(g, p[1..]) by {
        forall m | 0 < m < |p[1..]| ensures Edge(g, p[1..][m - 1], p[1..][m]) {
          assert Edge(g, p[m], p[m + 1]);
        }
      }
      j := PositionsFall(g, order, p[1..], k);
    }
  }

  lemma TopologicalMeansAcyclic(g: Graph, order: seq<Key>)
    requires Topological(g, order) && SetOf(order) == g.Keys
    ensures AllDefined(g) && !HasCycle(g)
  {
    forall k, i | k in g && 0 <= i < |g[k]| ensures g[k][i] in g {
      assert k in order;
      var n :| 0 <= n < |order| && order[n] == k;
      assert Edge(g, order[n], g[k][i]);
      assert g[k][i] in SetOf(order);
    }
    if HasCycle(g) {
      var p :| IsCycle(g, p);
      assert Edge(g, p[0], p[1]);
      assert p[0] in SetOf(order);
      var i :| 0 <= i < |order| && order[i] == p[0];
      var j := PositionsFall(g, order, p, i);
      assert false;
    }
  }

  // ------------------------------------------------------------- the search

  class Search {
    const graph: Graph
    var active: set<Key>
    var visited: set<Key>
    /** The keys in the order in which they were marked visited. */
    ghost var order: seq<Key>
    /** The keys being visited, outermost first. */
    ghost var stack: seq<Key>

    constructor (graph: Graph)
      ensures this.graph == graph && Valid() && stack == [] && order == []
    {
      this.graph := graph;
      active, visited, order, stack := {}, {}, [], [];
    }

    ghost predicate Valid()
      reads this
    {
      && active == SetOf(stack) && active <= graph.Keys && active !! visited
      && IsPath(graph, stack)
      && visited == SetOf(order)
      && Topological(graph, order)
    }

    /** A key found active closes a cycle through the stack. */
    lemma ActiveClosesCycle(key: Key)
      requires Valid() && key in active && stack != [] && Edge(graph, stack[|stack| - 1], key)
      ensures exists p :: IsCycle(graph, p) && key in p
    {
      assert key in stack;
      var i :| 0 <= i < |stack| && stack[i] == key;
      var p := stack[i..] + [key];
      forall m | 0 < m < |p| ensures Edge(graph, p[m - 1], p[m]) {
        if m < |p| - 1 { assert Edge(graph, stack[i + m - 1], stack[i + m]); }
      }
      assert IsCycle(graph, p) && p[|p| - 1] == key;
    }

    lemma PushKeepsPath(key: Key)
      requires Valid() && (stack == [] || Edge(graph, stack[|stack| - 1], key))
      ensures IsPath(graph, stack + [key])
    {
      var p := stack + [key];
      forall m | 0 < m < |p| ensures Edge(graph, p[m - 1], p[m]) {
        if m < |stack| { assert Edge(graph, stack[m - 1], stack[m]); }
      }
    }

    /** The nested `visit`. It terminates because the active set only grows down the recursion; the
        key a failure names is on a cycle, or is undefined and depended upon. */
    method Visit(key: Key) returns (r: Outcome)
      requires Valid() && key in graph
      requires stack == [] || Edge(graph, stack[|stack| - 1], key)
      requires stack == [] ==> active == {}
      modifies this
      ensures r.Done? ==> Valid() && active == old(active) && stack == old(stack)
      ensures r.Done? ==> key in visited && old(visited) <= visited && old(order) <= order
      ensures !r.Done? ==> RealFailure(graph, r)
      decreases graph.Keys - active
    {
      if key in active {
        ActiveClosesCycle(key);
        return CycleAt(key);
      }
      if key in visited {
        return Done;
      }
      PushKeepsPath(key);
      ghost var outer := stack;
      active, stack := active + {key}, stack + [key];
      var deps := graph[key];
      for i := 0 to |deps|
        invariant Valid() && stack == outer + [key] && active == old(active) + {key}
        invariant old(visited) <= visited && old(order) <= order
        invariant forall j :: 0 <= j < i ==> deps[j] in visited
      {
        assert Edge(graph, key, deps[i]);
        if deps[i] !in graph {
          return MissingDependency(deps[i]);
        }
        r := Visit(deps[i]);
        if !r.Done? {
          return r;
        }
      }
      TopologicalSnoc(graph, order, key);
      active, stack := active - {key}, outer;
      visited, order := visited + {key}, order + [key];
      PathPrefix(outer, key);
      return Done;
    }

    lemma PathPrefix(outer: seq<Key>, key: Key)
      requires IsPath(graph, outer + [key])
      ensures IsPath(graph, outer)
    {
      var p := outer + [key];
      forall m | 0 < m < |outer| ensures Edge(graph, outer[m - 1], outer[m]) {
        assert Edge(graph, p[m - 1], p[m]);
      }
    }
  }

  /** The check over all keys completes exactly when every dependency is defined and the graph has
      no cycle, and then the order of marking is a topological order of all packages. */
  method CheckDependencies(g: Graph, keys: seq<Key>) returns (r: Outcome, ghost order: seq<Key>)
    requires SetOf(keys) == g.Keys
    ensures r.Done? <==> AllDefined(g) && !HasCycle(g)
    ensures r.Done? ==> Topological(g, order) && SetOf(order) == g.Keys
    ensures !r.Done? ==> RealFailure(g, r)
  {
    var search := new Search(g);
    for i := 0 to |keys|
      invariant search.Valid() && search.graph == g && search.stack == [] && search.active == {}
      invariant forall j :: 0 <= j < i ==> keys[j] in search.visited
    {
      r := search.Visit(keys[i]);
      if !r.Done? {
        FailureRefutes(g, r);
        return r, [];
      }
    }
    order := search.order;
    assert SetOf(order) == g.Keys;
    TopologicalMeansAcyclic(g, order);
    return Done, order;
  }
}
