/**
 * Reachability over a `DependencyGraph`. A node's successors are its
 * `edges` entry, or none when it has no entry (`graph.edges.get(node) || []`).
 */
module Graphs {
  import opened Types
  import opened Seqs

  function Succ(g: DependencyGraph, x: string): seq<string> {
    if x in g.edges then g.edges[x] else []
  }

  predicate Edge(g: DependencyGraph, x: string, y: string) {
    y in Succ(g, x)
  }

  /**
   * The convention a `DependencyGraph` keeps: `keys` lists each key of
   * `nodes` once (the iteration order of `nodes.keys()`), and `edges` has the
   * same keys as `nodes`.
   */
  predicate WellFormed(g: DependencyGraph) {
    && NoDup(g.keys)
    && (forall k :: k in g.keys ==> k in g.nodes)
    && (forall k :: k in g.nodes ==> k in g.keys)
    && g.nodes.Keys == g.edges.Keys
  }

  /** A non-empty sequence of nodes in which each node has an edge to the next. */
  predicate IsWalk(g: DependencyGraph, w: seq<string>) {
    |w| > 0 && forall i :: 0 <= i < |w| - 1 ==> Edge(g, w[i], w[i + 1])
  }

  /** `y` can be reached from `x` by zero or more edges. */
  ghost predicate Reaches(g: DependencyGraph, x: string, y: string) {
    exists w :: IsWalk(g, w) && w[0] == x && w[|w| - 1] == y
  }

  /** `y` can be reached from `x` by one or more edges. */
  ghost predicate ReachesPlus(g: DependencyGraph, x: string, y: string) {
    exists w :: IsWalk(g, w) && |w| >= 2 && w[0] == x && w[|w| - 1] == y
  }

  /** A walk whose last node has an edge back to its first. */
  predicate IsCycle(g: DependencyGraph, c: seq<string>) {
    IsWalk(g, c) && Edge(g, c[|c| - 1], c[0])
  }

  /** `x` is reachable from a key of `nodes`. */
  ghost predicate FromKeys(g: DependencyGraph, x: string) {
    exists k :: k in g.keys && Reaches(g, k, x)
  }

  /** Some cycle can be reached from a key of `nodes`. */
  ghost predicate HasReachableCycle(g: DependencyGraph) {
    exists c :: IsCycle(g, c) && FromKeys(g, c[0])
  }

  /** Every node a search can meet: the keys and every node named by an edge list. */
  function Universe(g: DependencyGraph): (u: set<string>)
    ensures forall k :: k in g.keys ==> k in u
    ensures forall x, y :: Edge(g, x, y) ==> y in u
  {
    var targets := set x, y | x in g.edges && y in g.edges[x] :: y;
    (set k | k in g.keys) + targets
  }

  /** Every node of `s` comes after all its successors (the order of a depth-first finish). */
  predicate PostOrdered(g: DependencyGraph, s: seq<string>) {
    forall i, y :: 0 <= i < |s| && y in Succ(g, s[i]) ==> y in s[..i]
  }

  // ---------------------------------------------------------------- walks

  lemma ReachesRefl(g: DependencyGraph, x: string)
    ensures Reaches(g, x, x)
  {
    assert IsWalk(g, [x]);
  }

  /** A walk extended by one edge. */
  lemma ReachesStep(g: DependencyGraph, x: string, y: string, z: string)
    requires Reaches(g, x, y) && Edge(g, y, z)
    ensures Reaches(g, x, z) && ReachesPlus(g, x, z)
  {
    var w :| IsWalk(g, w) && w[0] == x && w[|w| - 1] == y;
    var w' := w + [z];
    assert IsWalk(g, w');
  }

  lemma ReachesTrans(g: DependencyGraph, x: string, y: string, z: string)
    requires Reaches(g, x, y) && Reaches(g, y, z)
    ensures Reaches(g, x, z)
  {
    var v :| IsWalk(g, v) && v[0] == x && v[|v| - 1] == y;
    var w :| IsWalk(g, w) && w[0] == y && w[|w| - 1] == z;
    var u := v + w[1..];
    forall i | 0 <= i < |u| - 1 ensures Edge(g, u[i], u[i + 1]) {
      if i < |v| - 1 {
      } else {
        assert u[i] == w[i - |v| + 1] && u[i + 1] == w[i - |v| + 2];
      }
    }
    assert IsWalk(g, u) && u[0] == x && u[|u| - 1] == z;
  }

  /** A walk followed by an edge from its last node is a walk. */
  lemma WalkSnoc(g: DependencyGraph, w: seq<string>, y: string)
    requires IsWalk(g, w) && Edge(g, w[|w| - 1], y)
    ensures IsWalk(g, w + [y])
  {
  }

  /** A non-empty prefix of a walk is a walk. */
  lemma WalkPrefix(g: DependencyGraph, w: seq<string>, n: nat)
    requires IsWalk(g, w) && 0 < n <= |w|
    ensures IsWalk(g, w[..n])
  {
  }

  /** Any two positions of a walk, the later reachable from the earlier. */
  lemma WalkReaches(g: DependencyGraph, w: seq<string>, i: nat, j: nat)
    requires IsWalk(g, w) && i <= j < |w|
    ensures Reaches(g, w[i], w[j])
  {
    var v := w[i..j + 1];
    assert IsWalk(g, v) && v[0] == w[i] && v[|v| - 1] == w[j];
  }

  /** One or more edges: some reachable node has an edge to the target. */
  lemma ReachesPlusLast(g: DependencyGraph, x: string, y: string)
    ensures ReachesPlus(g, x, y) <==> exists z :: Reaches(g, x, z) && Edge(g, z, y)
  {
    if ReachesPlus(g, x, y) {
      var w :| IsWalk(g, w) && |w| >= 2 && w[0] == x && w[|w| - 1] == y;
      WalkReaches(g, w, 0, |w| - 2);
    }
    if exists z :: Reaches(g, x, z) && Edge(g, z, y) {
      var z :| Reaches(g, x, z) && Edge(g, z, y);
      ReachesStep(g, x, z, y);
    }
  }

  /** A node reaches itself by one or more edges exactly when it lies on a cycle. */
  lemma ReachesPlusSelf(g: DependencyGraph, x: string)
    ensures ReachesPlus(g, x, x) <==> exists c :: IsCycle(g, c) && c[0] == x
  {
    if ReachesPlus(g, x, x) {
      var w :| IsWalk(g, w) && |w| >= 2 && w[0] == x && w[|w| - 1] == x;
      var c := w[..|w| - 1];
      WalkPrefix(g, w, |w| - 1);
      assert Edge(g, w[|w| - 2], w[|w| - 1]);
      assert IsCycle(g, c) && c[0] == x;
    }
    if exists c :: IsCycle(g, c) && c[0] == x {
      var c :| IsCycle(g, c) && c[0] == x;
      WalkSnoc(g, c, x);
      var w := c + [x];
      assert w[0] == x && w[|w| - 1] == x;
    }
  }

  /** A rotation of a cycle is a cycle through any of its nodes. */
  lemma CycleThrough(g: DependencyGraph, c: seq<string>, i: nat)
    requires IsCycle(g, c) && i < |c|
    ensures IsCycle(g, c[i..] + c[..i]) && (c[i..] + c[..i])[0] == c[i]
  {
    var r := c[i..] + c[..i];
    forall k | 0 <= k < |r| - 1 ensures Edge(g, r[k], r[k + 1]) {
      if k < |c| - i - 1 {
        assert r[k] == c[i + k] && r[k + 1] == c[i + k + 1];
      } else if k == |c| - i - 1 {
        assert r[k] == c[|c| - 1] && r[k + 1] == c[0];
      } else {
        assert r[k] == c[k - (|c| - i)] && r[k + 1] == c[k - (|c| - i) + 1];
      }
    }
    if i > 0 {
      assert r[|r| - 1] == c[i - 1] && Edge(g, c[i - 1], c[i]);
    }
  }

  // ---------------------------------------------------------------- post-order

  /** A post-ordered sequence is closed under edges, hence under reachability. */
  lemma {:induction false} PostOrderedClosed(g: DependencyGraph, s: seq<string>, w: seq<string>)
    requires PostOrdered(g, s) && IsWalk(g, w) && w[0] in s
    ensures forall j :: 0 <= j < |w| ==> w[j] in s
    decreases |w|
  {
    if |w| > 1 {
      PostOrderedClosed(g, s, w[..|w| - 1]);
      var x := w[|w| - 2];
      assert x == w[..|w| - 1][|w| - 2] && x in s;
      var i := IndexOf(s, x);
      assert w[|w| - 1] in Succ(g, s[i]);
    }
  }

  lemma PostOrderedReach(g: DependencyGraph, s: seq<string>, x: string, y: string)
    requires PostOrdered(g, s) && x in s && Reaches(g, x, y)
    ensures y in s
  {
    var w :| IsWalk(g, w) && w[0] == x && w[|w| - 1] == y;
    PostOrderedClosed(g, s, w);
  }

  /** Along an edge inside a post-ordered sequence the first position strictly drops. */
  lemma PostOrderedEdge(g: DependencyGraph, s: seq<string>, x: string, y: string)
    requires PostOrdered(g, s) && x in s && Edge(g, x, y)
    ensures y in s && IndexOf(s, y) < IndexOf(s, x)
  {
    var i := IndexOf(s, x);
    assert y in s[..i];
    IndexOfBefore(s, y, i);
  }

  /** A post-ordered sequence holds no node of a cycle. */
  lemma PostOrderedNoCycle(g: DependencyGraph, s: seq<string>, c: seq<string>)
    requires PostOrdered(g, s) && IsCycle(g, c)
    ensures c[0] !in s
  {
    if c[0] !in s {
      return;
    }
    PostOrderedClosed(g, s, c);
    var k := 0;
    while k < |c| - 1
      invariant 0 <= k < |c|
      invariant IndexOf(s, c[k]) + k <= IndexOf(s, c[0])
    {
      PostOrderedEdge(g, s, c[k], c[k + 1]);
      k := k + 1;
    }
    PostOrderedEdge(g, s, c[|c| - 1], c[0]);
    assert false;
  }

  /** A post-ordered sequence holding every key rules out a reachable cycle. */
  lemma PostOrderedAcyclic(g: DependencyGraph, s: seq<string>)
    requires PostOrdered(g, s) && forall k :: k in g.keys ==> k in s
    ensures !HasReachableCycle(g)
  {
    if HasReachableCycle(g) {
      var c :| IsCycle(g, c) && FromKeys(g, c[0]);
      var k :| k in g.keys && Reaches(g, k, c[0]);
      PostOrderedReach(g, s, k, c[0]);
      PostOrderedNoCycle(g, s, c);
    }
  }

  /** A post-ordered sequence holding every key holds every node reachable from the keys. */
  lemma PostOrderedCoversReach(g: DependencyGraph, s: seq<string>)
    requires PostOrdered(g, s) && forall k :: k in g.keys ==> k in s
    ensures forall x :: FromKeys(g, x) ==> x in s
  {
    forall x | FromKeys(g, x) ensures x in s {
      var k :| k in g.keys && Reaches(g, k, x);
      PostOrderedReach(g, s, k, x);
    }
  }

  // ---------------------------------------------------------------- closed sets

  /** A set closed under edges. */
  ghost predicate Closed(g: DependencyGraph, v: set<string>) {
    forall x, y :: x in v && Edge(g, x, y) ==> y in v
  }

  lemma {:induction false} ClosedWalk(g: DependencyGraph, v: set<string>, w: seq<string>)
    requires Closed(g, v) && IsWalk(g, w) && w[0] in v
    ensures w[|w| - 1] in v
    decreases |w|
  {
    if |w| > 1 {
      var w' := w[..|w| - 1];
      assert IsWalk(g, w');
      ClosedWalk(g, v, w');
      assert Edge(g, w[|w| - 2], w[|w| - 1]);
    }
  }

  /** A set closed under edges holds everything reachable from its members. */
  lemma ClosedReach(g: DependencyGraph, v: set<string>, x: string, y: string)
    requires Closed(g, v) && x in v && Reaches(g, x, y)
    ensures y in v
  {
    var w :| IsWalk(g, w) && w[0] == x && w[|w| - 1] == y;
    ClosedWalk(g, v, w);
  }

  /** When every edge ends at a key, the keys are all the nodes there are. */
  lemma UniverseOfClosed(g: DependencyGraph)
    requires forall x, y :: Edge(g, x, y) ==> y in g.keys
    ensures forall x :: x in Universe(g) <==> x in g.keys
  {
    forall x | x in Universe(g) ensures x in g.keys {
      if x !in g.keys {
        var a, b :| a in g.edges && b in g.edges[a] && b == x;
        assert Edge(g, a, b);
      }
    }
  }
}
