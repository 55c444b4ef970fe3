/**
 * getTransitiveDependencies: a depth-first traversal from one project that
 * collects every node met along an edge.
 */
module Transitive {
  import opened Types
  import opened Graphs

  /** The state the source's `traverse` closure shares: `transitive` and `visited`. */
  class TransitiveCollector {
    const graph: DependencyGraph
    const root: string
    var transitive: set<string>
    var visited: set<string>

    ghost predicate Valid()
      reads this
    {
      && (forall x :: x in visited ==> Reaches(graph, root, x))
      && (forall y :: y in transitive ==> ReachesPlus(graph, root, y))
    }

    constructor(graph: DependencyGraph, root: string)
      ensures Valid()
      ensures this.graph == graph && this.root == root && transitive == {} && visited == {}
    {
      this.graph := graph;
      this.root := root;
      transitive := {};
      visited := {};
    }

    /**
     * `traverse(node)`: afterwards `node` is visited, and every node this
     * call visited has all its successors visited and collected.
     */
    method Traverse(node: string)
      requires Valid()
      requires node in Universe(graph) + {root} && Reaches(graph, root, node)
      modifies this
      ensures Valid()
      ensures node in visited && old(visited) <= visited && old(transitive) <= transitive
      ensures forall x, y :: x in visited && x !in old(visited) && Edge(graph, x, y) ==> y in transitive && y in visited
      decreases Universe(graph) + {root} - visited
    {
      if node in visited {
        return;
      }
      visited := visited + {node};
      var neighbors := Succ(graph, node);
      for n := 0 to |neighbors|
        invariant Valid()
        invariant old(visited) + {node} <= visited && old(transitive) <= transitive
        invariant forall k :: 0 <= k < n ==> neighbors[k] in transitive && neighbors[k] in visited
        invariant forall x, y :: x in visited && x !in old(visited) && x != node && Edge(graph, x, y) ==> y in transitive && y in visited
      {
        var neighbor := neighbors[n];
        assert Edge(graph, node, neighbor);
        ReachesStep(graph, root, node, neighbor);
        transitive := transitive + {neighbor};
        Traverse(neighbor);
      }
    }
  }

  /**
   * The transitive dependencies of a project are exactly the nodes it
   * reaches by one or more edges (so the project itself only when it lies
   * on a cycle, by `Graphs.ReachesPlusSelf`).
   */
  method GetTransitiveDependencies(projectName: string, graph: DependencyGraph) returns (transitive: set<string>)
    ensures forall x :: x in transitive <==> ReachesPlus(graph, projectName, x)
  {
    var collector := new TransitiveCollector(graph, projectName);
    ReachesRefl(graph, projectName);
    collector.Traverse(projectName);
    transitive := collector.transitive;
    assert Closed(graph, collector.visited);
    forall y | ReachesPlus(graph, projectName, y) ensures y in transitive {
      ReachesPlusLast(graph, projectName, y);
      var z :| Reaches(graph, projectName, z) && Edge(graph, z, y);
      ClosedReach(graph, collector.visited, projectName, z);
    }
  }
}
