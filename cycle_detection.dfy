/**
 * detectCircularDependencies: a depth-first search from every unvisited key
 * of `nodes` that reports the stack segment closed by each back edge.
 */
module CycleDetection {
  import opened Types
  import opened Seqs
  import opened Graphs

  /** The state the source's `dfs` closure shares: `cycles`, `visited` and `recursionStack`. */
  class CycleDetector {
    const graph: DependencyGraph
    var cycles: seq<seq<string>>
    var visited: set<string>
    var recursionStack: set<string>
    /** The nodes whose `dfs` call has returned, in the order they returned. */
    ghost var finished: seq<string>

    ghost predicate Valid()
      reads this
    {
      Searching(graph, cycles, visited, recursionStack, finished)
    }

    constructor(graph: DependencyGraph)
      ensures Valid()
      ensures this.graph == graph && cycles == [] && visited == {} && recursionStack == {} && finished == []
    {
      this.graph := graph;
      cycles := [];
      visited := {};
      recursionStack := {};
      finished := [];
    }

    /**
     * `dfs(node, path)`: `path` is the chain of active calls, which is
     * exactly `recursionStack`, and it ends with an edge into `node`.
     */
    method Dfs(node: string, path: seq<string>)
      requires Valid()
      requires node in Universe(graph) && node !in visited && FromKeys(graph, node)
      requires IsWalk(graph, path + [node])
      requires forall x :: x in path <==> x in recursionStack
      modifies this
      ensures Valid()
      ensures recursionStack == old(recursionStack)
      ensures old(visited) + {node} <= visited
      ensures old(cycles) <= cycles
      decreases Universe(graph) - visited, 0
    {
      EnterStep(graph, cycles, visited, recursionStack, finished, node);
      visited := visited + {node};
      recursionStack := recursionStack + {node};
      DfsNeighbors(node, path + [node]);
      LeaveStep(graph, cycles, visited, recursionStack, finished, node);
      recursionStack := recursionStack - {node};
      finished := finished + [node];
    }

    /** The loop of `dfs` over the dependencies of `node`, the last node of the active path `stackPath`. */
    method DfsNeighbors(node: string, stackPath: seq<string>)
      requires Valid()
      requires IsWalk(graph, stackPath) && stackPath[|stackPath| - 1] == node && node in visited
      requires forall x :: x in stackPath <==> x in recursionStack
      modifies this
      ensures Valid()
      ensures recursionStack == old(recursionStack)
      ensures old(visited) <= visited
      ensures old(cycles) <= cycles
      ensures cycles == [] ==> forall y :: y in Succ(graph, node) ==> y in finished
      decreases Universe(graph) - visited, 1
    {
      var neighbors := Succ(graph, node);
      for n := 0 to |neighbors|
        invariant Valid()
        invariant recursionStack == old(recursionStack)
        invariant old(visited) <= visited
        invariant old(cycles) <= cycles
        invariant cycles == [] ==> forall k :: 0 <= k < n ==> neighbors[k] in finished
      {
        var neighbor := neighbors[n];
        assert Edge(graph, node, neighbor);
        if neighbor !in visited {
          ReachesStep(graph, ReachingKey(node), node, neighbor);
          WalkSnoc(graph, stackPath, neighbor);
          Dfs(neighbor, stackPath);
        } else if neighbor in recursionStack {
          var cycleStart := IndexOf(stackPath, neighbor);
          BackEdgeStep(graph, cycles, visited, recursionStack, finished, stackPath, cycleStart);
          cycles := cycles + [stackPath[cycleStart..]];
        }
      }
    }

    /** A key that `x` is reachable from. */
    ghost function ReachingKey(x: string): (k: string)
      requires FromKeys(graph, x)
      reads this
      ensures k in graph.keys && Reaches(graph, k, x)
    {
      var k :| k in graph.keys && Reaches(graph, k, x); k
    }
  }

  /**
   * The search state between calls: everything visited is a node reachable
   * from a key, the active calls are visited, the finished nodes are the
   * visited ones no longer active, every reported cycle is a reachable
   * cycle, and while none is reported the finished nodes are in post-order.
   */
  ghost predicate Searching(graph: DependencyGraph, cycles: seq<seq<string>>, visited: set<string>,
                            stack: set<string>, finished: seq<string>)
  {
    && visited <= Universe(graph)
    && stack <= visited
    && (forall x :: x in finished <==> x in visited && x !in stack)
    && (forall x :: x in visited ==> FromKeys(graph, x))
    && (forall c :: c in cycles ==> IsCycle(graph, c) && FromKeys(graph, c[0]))
    && (cycles == [] ==> PostOrdered(graph, finished))
  }

  /** Entering an unvisited node reachable from a key marks it visited and active. */
  lemma EnterStep(graph: DependencyGraph, cycles: seq<seq<string>>, visited: set<string>,
                  stack: set<string>, finished: seq<string>, node: string)
    requires Searching(graph, cycles, visited, stack, finished)
    requires node in Universe(graph) && node !in visited && FromKeys(graph, node)
    ensures Searching(graph, cycles, visited + {node}, stack + {node}, finished)
  {
  }

  /** Reporting the cycle a back edge closes on the active path keeps the state. */
  lemma BackEdgeStep(graph: DependencyGraph, cycles: seq<seq<string>>, visited: set<string>,
                     stack: set<string>, finished: seq<string>, path: seq<string>, i: nat)
    requires Searching(graph, cycles, visited, stack, finished)
    requires IsWalk(graph, path) && i < |path| && Edge(graph, path[|path| - 1], path[i]) && path[i] in visited
    ensures Searching(graph, cycles + [path[i..]], visited, stack, finished)
  {
    BackEdgeCycle(graph, path, i);
    assert FromKeys(graph, path[i..][0]);
  }

  /** Leaving an active node whose successors have all finished (when no cycle was reported) finishes it. */
  lemma LeaveStep(graph: DependencyGraph, cycles: seq<seq<string>>, visited: set<string>,
                  stack: set<string>, finished: seq<string>, node: string)
    requires Searching(graph, cycles, visited, stack, finished)
    requires node in stack
    requires cycles == [] ==> forall y :: y in Succ(graph, node) ==> y in finished
    ensures Searching(graph, cycles, visited, stack - {node}, finished + [node])
  {
    if cycles == [] {
      PostOrderedSnoc(graph, finished, node);
    }
  }

  /** A back edge from the end of a walk to one of its nodes closes the walk's suffix into a cycle. */
  lemma BackEdgeCycle(g: DependencyGraph, w: seq<string>, i: nat)
    requires IsWalk(g, w) && i < |w| && Edge(g, w[|w| - 1], w[i])
    ensures IsCycle(g, w[i..])
  {
    var c := w[i..];
    forall k | 0 <= k < |c| - 1 ensures Edge(g, c[k], c[k + 1]) {
      assert c[k] == w[i + k] && c[k + 1] == w[i + k + 1];
    }
  }

  /** A node whose successors are all already listed may be appended to a post-order. */
  lemma PostOrderedSnoc(g: DependencyGraph, s: seq<string>, x: string)
    requires PostOrdered(g, s) && forall y :: y in Succ(g, x) ==> y in s
    ensures PostOrdered(g, s + [x])
  {
    var t := s + [x];
    forall i, y | 0 <= i < |t| && y in Succ(g, t[i]) ensures y in t[..i] {
      if i < |s| {
        assert t[..i] == s[..i];
      } else {
        assert t[..i] == s;
      }
    }
  }

  /**
   * Every reported cycle is a cycle reachable from a key, and nothing is
   * reported exactly when no cycle is reachable from any key.
   */
  method DetectCircularDependencies(graph: DependencyGraph) returns (cycles: seq<seq<string>>)
    ensures forall c :: c in cycles ==> IsCycle(graph, c) && FromKeys(graph, c[0])
    ensures cycles == [] <==> !HasReachableCycle(graph)
  {
    var detector := new CycleDetector(graph);
    var keys := graph.keys;
    for i := 0 to |keys|
      invariant detector.Valid() && detector.graph == graph && detector.recursionStack == {}
      invariant detector.cycles == [] ==> forall k :: k in keys[..i] ==> k in detector.finished
    {
      var node := keys[i];
      if node !in detector.visited {
        ReachesRefl(graph, node);
        assert IsWalk(graph, [] + [node]);
        detector.Dfs(node, []);
      }
      assert keys[..i + 1] == keys[..i] + [node];
    }
    assert keys[..|keys|] == keys;
    cycles := detector.cycles;
    if cycles == [] {
      PostOrderedAcyclic(graph, detector.finished);
    } else {
      assert cycles[0] in cycles;
    }
  }
}
