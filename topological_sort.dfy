/**
 * getTopologicalSort: a depth-first search with temporary and permanent
 * marks that fails on a cycle and otherwise returns its finish order
 * reversed.
 */
module TopologicalSort {
  import opened Wrappers
  import opened Types
  import opened Seqs
  import opened Graphs

  /** `x` lies on a cycle that can be reached from a key of `nodes`. */
  ghost predicate OnReachableCycle(g: DependencyGraph, x: string) {
    FromKeys(g, x) && exists c :: IsCycle(g, c) && c[0] == x
  }

  /** For every edge between two listed nodes, the source is listed before the target. */
  predicate DependentsFirst(g: DependencyGraph, r: seq<string>) {
    forall i, j :: 0 <= i < |r| && 0 <= j < |r| && Edge(g, r[i], r[j]) ==> i < j
  }

  /** For every edge between two listed nodes, the target is listed before the source. */
  predicate DependenciesFirst(g: DependencyGraph, r: seq<string>) {
    forall i, j :: 0 <= i < |r| && 0 <= j < |r| && Edge(g, r[i], r[j]) ==> j < i
  }

  /** The state the source's `visit` closure shares: `sorted`, `visited` and `temp`. */
  class TopologicalSorter {
    const graph: DependencyGraph
    var sorted: seq<string>
    var visited: set<string>
    var temp: set<string>
    /** The active `visit` calls, outermost first; its elements are `temp`. */
    ghost var stack: seq<string>

    ghost predicate Valid()
      reads this
    {
      Sorting(graph, sorted, visited, temp, stack)
    }

    constructor(graph: DependencyGraph)
      ensures Valid()
      ensures this.graph == graph && sorted == [] && visited == {} && temp == {} && stack == []
    {
      this.graph := graph;
      sorted := [];
      visited := {};
      temp := {};
      stack := [];
    }

    /**
     * `visit(node)`, with the thrown error as `Some(node)`. On success
     * `node` is finished and the active calls are as before; a failing
     * node lies on a cycle reachable from a key.
     */
    method Visit(node: string) returns (failure: Option<string>)
      requires Valid()
      requires node in Universe(graph) && FromKeys(graph, node)
      requires stack != [] ==> IsWalk(graph, stack + [node])
      modifies this
      ensures Valid()
      ensures failure.None? ==> node in visited && temp == old(temp) && stack == old(stack) && old(visited) <= visited
      ensures failure.Some? ==> OnReachableCycle(graph, failure.value)
      decreases Universe(graph) - (visited + temp), 0
    {
      if node in temp {
        OnStackCycle(graph, stack, node);
        return Some(node);
      }
      if node in visited {
        return None;
      }
      MarkStep(graph, sorted, visited, temp, stack, node);
      temp := temp + {node};
      stack := stack + [node];
      failure := VisitNeighbors(node);
      if failure.Some? {
        return;
      }
      FinishStep(graph, sorted, visited, temp, old(stack), node);
      temp := temp - {node};
      stack := old(stack);
      visited := visited + {node};
      sorted := sorted + [node];
    }

    /** The loop of `visit` over the dependencies of `node`, the last node of the active walk. */
    method VisitNeighbors(node: string) returns (failure: Option<string>)
      requires Valid()
      requires stack != [] && stack[|stack| - 1] == node && node in temp
      modifies this
      ensures Valid()
      ensures failure.None? ==> temp == old(temp) && stack == old(stack) && old(visited) <= visited
      ensures failure.None? ==> forall y :: y in Succ(graph, node) ==> y in visited
      ensures failure.Some? ==> OnReachableCycle(graph, failure.value)
      decreases Universe(graph) - (visited + temp), 1
    {
      var neighbors := Succ(graph, node);
      for n := 0 to |neighbors|
        invariant Valid()
        invariant temp == old(temp) && stack == old(stack)
        invariant old(visited) <= visited
        invariant forall k :: 0 <= k < n ==> neighbors[k] in visited
      {
        var neighbor := neighbors[n];
        assert Edge(graph, node, neighbor);
        ReachesStep(graph, ReachingKey(node), node, neighbor);
        WalkSnoc(graph, stack, neighbor);
        failure := Visit(neighbor);
        if failure.Some? {
          return;
        }
      }
      return None;
    }

    /** A key that `x` is reachable from. */
    ghost function ReachingKey(x: string): (k: string)
      requires FromKeys(graph, x)
      reads this
      ensures k in graph.keys && Reaches(graph, k, x)
    {
      var k :| k in graph.keys && Reaches(graph, k, x); k
    }
  }

  /**
   * The search state between calls: the finished nodes are `visited`,
   * listed once each in post-order; the marked nodes are the active walk,
   * disjoint from the finished ones; and every node met is reachable from
   * a key.
   */
  ghost predicate Sorting(graph: DependencyGraph, sorted: seq<string>, visited: set<string>,
                          temp: set<string>, stack: seq<string>)
  {
    && (forall x :: x in sorted <==> x in visited)
    && NoDup(sorted)
    && PostOrdered(graph, sorted)
    && (forall x :: x in temp <==> x in stack)
    && visited !! temp
    && (stack != [] ==> IsWalk(graph, stack))
    && (forall x :: x in visited ==> FromKeys(graph, x))
    && (forall x :: x in temp ==> FromKeys(graph, x))
  }

  /** Marking an unmarked, unfinished node reachable from a key extends the active walk. */
  lemma MarkStep(graph: DependencyGraph, sorted: seq<string>, visited: set<string>,
                 temp: set<string>, stack: seq<string>, node: string)
    requires Sorting(graph, sorted, visited, temp, stack)
    requires node !in temp && node !in visited && FromKeys(graph, node)
    requires stack != [] ==> IsWalk(graph, stack + [node])
    ensures Sorting(graph, sorted, visited, temp + {node}, stack + [node])
  {
    assert IsWalk(graph, stack + [node]) by {
      if stack == [] {
        assert stack + [node] == [node];
      }
    }
  }

  /** Finishing the last node of the walk, once its successors are finished, extends the post-order. */
  lemma FinishStep(graph: DependencyGraph, sorted: seq<string>, visited: set<string>,
                   temp: set<string>, stack: seq<string>, node: string)
    requires Sorting(graph, sorted, visited, temp, stack + [node])
    requires node !in stack && forall y :: y in Succ(graph, node) ==> y in visited
    ensures Sorting(graph, sorted + [node], visited + {node}, temp - {node}, stack)
  {
    PushFinished(graph, sorted, node);
    if stack != [] {
      assert (stack + [node])[..|stack|] == stack;
      WalkPrefix(graph, stack + [node], |stack|);
    }
  }

  /** Meeting a node of the active walk again closes a cycle through it. */
  lemma OnStackCycle(g: DependencyGraph, stack: seq<string>, x: string)
    requires x in stack && IsWalk(g, stack + [x])
    ensures exists c :: IsCycle(g, c) && c[0] == x
  {
    var w := stack + [x];
    var i := IndexOf(stack, x);
    var c := stack[i..];
    forall k | 0 <= k < |c| - 1 ensures Edge(g, c[k], c[k + 1]) {
      assert c[k] == w[i + k] && c[k + 1] == w[i + k + 1];
    }
    assert w[|w| - 2] == c[|c| - 1] && w[|w| - 1] == c[0];
    assert IsCycle(g, c);
  }

  /** A finished node, whose successors are all finished, extends the post-order. */
  lemma PushFinished(g: DependencyGraph, s: seq<string>, x: string)
    requires NoDup(s) && PostOrdered(g, s) && x !in s && forall y :: y in Succ(g, x) ==> y in s
    ensures NoDup(s + [x]) && PostOrdered(g, s + [x])
  {
    var t := s + [x];
    forall i, y | 0 <= i < |t| && y in Succ(g, t[i]) ensures y in t[..i] {
      if i < |s| {
        assert t[..i] == s[..i];
      } else {
        assert t[..i] == s;
      }
    }
  }

  /** Reversing a duplicate-free post-order puts every node before its successors. */
  lemma ReversedPostOrder(g: DependencyGraph, s: seq<string>)
    requires NoDup(s) && PostOrdered(g, s)
    ensures DependentsFirst(g, Reverse(s))
  {
    var r := Reverse(s);
    forall i, j | 0 <= i < |r| && 0 <= j < |r| && Edge(g, r[i], r[j]) ensures i < j {
      var a, b := |s| - 1 - i, |s| - 1 - j;
      assert r[i] == s[a] && r[j] == s[b];
      PostOrderedEdge(g, s, s[a], s[b]);
      IndexOfNoDup(s, a);
      IndexOfNoDup(s, b);
    }
  }

  /** A duplicate-free post-order puts every node after its successors. */
  lemma PostOrderIsBuildOrder(g: DependencyGraph, s: seq<string>)
    requires NoDup(s) && PostOrdered(g, s)
    ensures DependenciesFirst(g, s)
  {
    forall i, j | 0 <= i < |s| && 0 <= j < |s| && Edge(g, s[i], s[j]) ensures j < i {
      PostOrderedEdge(g, s, s[i], s[j]);
      IndexOfNoDup(s, i);
      IndexOfNoDup(s, j);
    }
  }

  /**
   * The search of both entry points: a failing node, or the finish order,
   * which holds every node reachable from a key once, after its successors.
   */
  method FinishOrder(graph: DependencyGraph) returns (r: Result<seq<string>, string>)
    ensures r.Failure? <==> HasReachableCycle(graph)
    ensures r.Failure? ==> OnReachableCycle(graph, r.error)
    ensures r.Success? ==> NoDup(r.value) && PostOrdered(graph, r.value)
    ensures r.Success? ==> forall x :: x in r.value <==> FromKeys(graph, x)
  {
    var sorter := new TopologicalSorter(graph);
    var keys := graph.keys;
    for i := 0 to |keys|
      invariant sorter.Valid() && sorter.graph == graph && sorter.temp == {} && sorter.stack == []
      invariant forall k :: k in keys[..i] ==> k in sorter.visited
    {
      var node := keys[i];
      if node !in sorter.visited {
        ReachesRefl(graph, node);
        var failure := sorter.Visit(node);
        if failure.Some? {
          var c :| IsCycle(graph, c) && c[0] == failure.value;
          return Failure(failure.value);
        }
      }
      assert keys[..i + 1] == keys[..i] + [node];
    }
    assert keys[..|keys|] == keys;
    PostOrderedAcyclic(graph, sorter.sorted);
    PostOrderedCoversReach(graph, sorter.sorted);
    return Success(sorter.sorted);
  }

  /**
   * getTopologicalSort as written: it fails exactly when a cycle is
   * reachable from a key, naming a node on such a cycle; otherwise it lists
   * every reachable node once, each before the nodes it depends on.
   */
  method GetTopologicalSort(graph: DependencyGraph) returns (r: Result<seq<string>, string>)
    ensures r.Failure? <==> HasReachableCycle(graph)
    ensures r.Failure? ==> OnReachableCycle(graph, r.error)
    ensures r.Success? ==> NoDup(r.value) && (forall x :: x in r.value <==> FromKeys(graph, x))
    ensures r.Success? ==> DependentsFirst(graph, r.value)
  {
    r := FinishOrder(graph);
    if r.Success? {
      var sorted := r.value;
      ReversePreserves(sorted);
      ReversedPostOrder(graph, sorted);
      r := Success(Reverse(sorted));
    }
  }

  /**
   * The build order the source's comment and its test ask for: the same
   * search without the final reversal, each node after its dependencies.
   */
  method GetBuildOrder(graph: DependencyGraph) returns (r: Result<seq<string>, string>)
    ensures r.Failure? <==> HasReachableCycle(graph)
    ensures r.Failure? ==> OnReachableCycle(graph, r.error)
    ensures r.Success? ==> NoDup(r.value) && (forall x :: x in r.value <==> FromKeys(graph, x))
    ensures r.Success? ==> DependenciesFirst(graph, r.value)
  {
    r := FinishOrder(graph);
    if r.Success? {
      PostOrderIsBuildOrder(graph, r.value);
    }
  }

  /** The graph of the build-order test: `api` depends on `core`, `web` on both. */
  function BuildOrderTestGraph(): DependencyGraph {
    DependencyGraph(
      ["core", "api", "web"],
      map["core" := GraphNode("core", "core", []),
          "api" := GraphNode("api", "api", ["core"]),
          "web" := GraphNode("web", "web", ["api", "core"])],
      map["core" := [], "api" := ["core"], "web" := ["api", "core"]])
  }

  /**
   * On the test's graph any order getTopologicalSort can return lists
   * `web` before `api` before `core`: the reverse of what the test expects.
   */
  lemma TopologicalSortOfTestGraph(r: seq<string>)
    requires DependentsFirst(BuildOrderTestGraph(), r) && "core" in r && "api" in r && "web" in r
    ensures IndexOf(r, "api") < IndexOf(r, "core")
    ensures IndexOf(r, "web") < IndexOf(r, "core")
    ensures IndexOf(r, "web") < IndexOf(r, "api")
  {
    var g := BuildOrderTestGraph();
    var core, api, web := IndexOf(r, "core"), IndexOf(r, "api"), IndexOf(r, "web");
    assert Edge(g, r[api], r[core]);
    assert Edge(g, r[web], r[core]);
    assert Edge(g, r[web], r[api]);
  }

  /** On the test's graph the corrected order lists `core` before `api` before `web`, as the test expects. */
  lemma BuildOrderOfTestGraph(r: seq<string>)
    requires DependenciesFirst(BuildOrderTestGraph(), r) && "core" in r && "api" in r && "web" in r
    ensures IndexOf(r, "core") < IndexOf(r, "api")
    ensures IndexOf(r, "core") < IndexOf(r, "web")
    ensures IndexOf(r, "api") < IndexOf(r, "web")
  {
    var g := BuildOrderTestGraph();
    var core, api, web := IndexOf(r, "core"), IndexOf(r, "api"), IndexOf(r, "web");
    assert Edge(g, r[api], r[core]);
    assert Edge(g, r[web], r[core]);
    assert Edge(g, r[web], r[api]);
  }

  /** The test's graph has no cycle, and each of its three projects is reachable from a key. */
  lemma TestGraphAcyclic()
    ensures !HasReachableCycle(BuildOrderTestGraph())
    ensures FromKeys(BuildOrderTestGraph(), "core") && FromKeys(BuildOrderTestGraph(), "api") && FromKeys(BuildOrderTestGraph(), "web")
  {
    var g := BuildOrderTestGraph();
    var s := ["core", "api", "web"];
    assert s[..1] == ["core"] && s[..2] == ["core", "api"];
    assert PostOrdered(g, s);
    PostOrderedAcyclic(g, s);
    ReachesRefl(g, "core");
    ReachesRefl(g, "api");
    ReachesRefl(g, "web");
  }

  /**
   * Both sorts succeed on the test's graph: getTopologicalSort as written
   * lists `web`, `api`, `core`, and the corrected order `core`, `api`, `web`.
   */
  method SortTestGraph() returns (sorted: seq<string>, buildOrder: seq<string>)
    ensures "core" in sorted && "api" in sorted && "web" in sorted
    ensures IndexOf(sorted, "web") < IndexOf(sorted, "api") < IndexOf(sorted, "core")
    ensures "core" in buildOrder && "api" in buildOrder && "web" in buildOrder
    ensures IndexOf(buildOrder, "core") < IndexOf(buildOrder, "api") < IndexOf(buildOrder, "web")
  {
    var g := BuildOrderTestGraph();
    TestGraphAcyclic();
    var r := GetTopologicalSort(g);
    var b := GetBuildOrder(g);
    sorted, buildOrder := r.value, b.value;
    TopologicalSortOfTestGraph(sorted);
    BuildOrderOfTestGraph(buildOrder);
  }
}
