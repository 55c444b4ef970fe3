/**
 * buildDependencyGraph and the resolution of `project(':a:b')` references
 * to project names.
 */
module GraphBuilder {
  import opened Wrappers
  import opened Text
  import opened Seqs
  import opened Types
  import opened Graphs

  /** A Gradle project with its build file already parsed. */
  datatype ParsedProject = ParsedProject(name: string, path: string, build: GradleBuild)

  /** `parts.filter(Boolean)`: the non-empty pieces, in order. */
  function NonEmptyParts(parts: seq<string>): (r: seq<string>)
    ensures forall k :: 0 <= k < |r| ==> r[k] != ""
    ensures forall x :: x in r <==> x in parts && x != ""
  {
    if |parts| == 0 then []
    else (if parts[0] == "" then [] else [parts[0]]) + NonEmptyParts(parts[1..])
  }

  /** `s.split(sep).filter(Boolean)`. */
  function Segments(s: string, sep: char): (r: seq<string>)
    ensures forall k :: 0 <= k < |r| ==> r[k] != "" && sep !in r[k]
  {
    var parts := Split(s, sep);
    var r := NonEmptyParts(parts);
    assert forall k :: 0 <= k < |r| ==> r[k] in parts;
    r
  }

  /** A Gradle path `:a:b` denotes a project at path `a/b`: the same segments, empty ones ignored. */
  predicate PathMatches(gradlePath: string, projectPath: string) {
    Segments(gradlePath, ':') == Segments(projectPath, '/')
  }

  /** The name of the first project, in list order, whose path matches. */
  function Resolve(gradlePath: string, projects: seq<ParsedProject>): Option<string>
  {
    if |projects| == 0 then None
    else if PathMatches(gradlePath, projects[0].path) then Some(projects[0].name)
    else Resolve(gradlePath, projects[1..])
  }

  /**
   * The resolved name belongs to the first project whose path matches, and
   * there is none exactly when no project's path matches.
   */
  lemma {:induction false} ResolveMeaning(gradlePath: string, projects: seq<ParsedProject>)
    ensures Resolve(gradlePath, projects).None? <==>
      forall i :: 0 <= i < |projects| ==> !PathMatches(gradlePath, projects[i].path)
    ensures Resolve(gradlePath, projects).Some? ==>
      exists i :: 0 <= i < |projects| && PathMatches(gradlePath, projects[i].path)
        && Resolve(gradlePath, projects).value == projects[i].name
        && forall j :: 0 <= j < i ==> !PathMatches(gradlePath, projects[j].path)
  {
    if |projects| > 0 && !PathMatches(gradlePath, projects[0].path) {
      var rest := projects[1..];
      ResolveMeaning(gradlePath, rest);
      assert forall i :: 1 <= i < |projects| ==> projects[i] == rest[i - 1];
      if Resolve(gradlePath, rest).Some? {
        var i :| 0 <= i < |rest| && PathMatches(gradlePath, rest[i].path)
          && Resolve(gradlePath, rest).value == rest[i].name
          && forall j :: 0 <= j < i ==> !PathMatches(gradlePath, rest[j].path);
        assert PathMatches(gradlePath, projects[i + 1].path);
        assert forall j :: 0 <= j < i + 1 ==> !PathMatches(gradlePath, projects[j].path) by {
          forall j | 0 <= j < i + 1 ensures !PathMatches(gradlePath, projects[j].path) {
            if j > 0 {
              assert projects[j] == rest[j - 1];
            }
          }
        }
      }
    }
  }

  /**
   * The inner loop of resolveProjectName: the Gradle parts are compared
   * one by one with the last `|pathParts|` project parts, stopping at the
   * first difference.
   */
  method SuffixMatches(pathParts: seq<string>, projectParts: seq<string>) returns (matches: bool)
    requires |pathParts| <= |projectParts|
    ensures matches <==> projectParts[|projectParts| - |pathParts|..] == pathParts
  {
    var offset := |projectParts| - |pathParts|;
    matches := true;
    var i := 0;
    while i < |pathParts|
      invariant 0 <= i <= |pathParts|
      invariant matches
      invariant forall k :: 0 <= k < i ==> pathParts[k] == projectParts[offset + k]
    {
      if pathParts[i] != projectParts[offset + i] {
        matches := false;
        break;
      }
      i := i + 1;
    }
    if matches {
      assert projectParts[offset..] == pathParts;
    } else {
      assert projectParts[offset..][i] != pathParts[i];
    }
  }

  /**
   * resolveProjectName: the suffix comparison runs only when both part
   * lists have the same length, so it compares the whole lists.
   */
  method ResolveProjectName(gradlePath: string, allProjects: seq<ParsedProject>) returns (r: Option<string>)
    ensures r == Resolve(gradlePath, allProjects)
  {
    var pathParts := Segments(gradlePath, ':');
    for p := 0 to |allProjects|
      invariant Resolve(gradlePath, allProjects[p..]) == Resolve(gradlePath, allProjects)
    {
      var project := allProjects[p];
      assert allProjects[p..][1..] == allProjects[p + 1..];
      var projectParts := Segments(project.path, '/');
      if |pathParts| == |projectParts| {
        var matches := SuffixMatches(pathParts, projectParts);
        if matches {
          assert projectParts[0..] == projectParts;
          return Some(project.name);
        }
      }
    }
    return None;
  }

  /** The edge a dependency contributes: its resolved project name, when it is a project reference that resolves to a non-empty name. */
  function EdgeOf(dep: GradleDependency, projects: seq<ParsedProject>): seq<string> {
    if dep.isProject && dep.projectPath.Some? && dep.projectPath.value != "" then
      match Resolve(dep.projectPath.value, projects)
      case Some(name) => if name != "" then [name] else []
      case None => []
    else []
  }

  /** The edges of a list of dependencies, in dependency order. */
  function ProjectEdges(deps: seq<GradleDependency>, projects: seq<ParsedProject>): seq<string>
    decreases |deps|
  {
    if |deps| == 0 then []
    else ProjectEdges(deps[..|deps| - 1], projects) + EdgeOf(deps[|deps| - 1], projects)
  }

  method ExtractProjectDependencies(dependencies: seq<GradleDependency>, allProjects: seq<ParsedProject>) returns (projectDeps: seq<string>)
    ensures projectDeps == ProjectEdges(dependencies, allProjects)
  {
    projectDeps := [];
    for d := 0 to |dependencies|
      invariant projectDeps == ProjectEdges(dependencies[..d], allProjects)
    {
      var dep := dependencies[d];
      assert dependencies[..d + 1][..d] == dependencies[..d];
      if dep.isProject && dep.projectPath.Some? && dep.projectPath.value != "" {
        var projectName := ResolveProjectName(dep.projectPath.value, allProjects);
        if projectName.Some? && projectName.value != "" {
          projectDeps := projectDeps + [projectName.value];
        }
      }
    }
    assert dependencies[..|dependencies|] == dependencies;
  }

  /** Edges of consecutive dependency lists concatenate: each dependency contributes independently, in order. */
  lemma {:induction false} ProjectEdgesConcat(a: seq<GradleDependency>, b: seq<GradleDependency>, projects: seq<ParsedProject>)
    ensures ProjectEdges(a + b, projects) == ProjectEdges(a, projects) + ProjectEdges(b, projects)
    decreases |b|
  {
    if |b| == 0 {
      assert a + b == a;
    } else {
      var b' := b[..|b| - 1];
      assert (a + b)[..|a + b| - 1] == a + b';
      assert (a + b)[|a + b| - 1] == b[|b| - 1];
      ProjectEdgesConcat(a, b', projects);
    }
  }

  /** There are no more edges than dependencies, and every edge target is the non-empty name of some project. */
  lemma {:induction false} ProjectEdgesTargets(deps: seq<GradleDependency>, projects: seq<ParsedProject>)
    ensures |ProjectEdges(deps, projects)| <= |deps|
    ensures forall t :: t in ProjectEdges(deps, projects) ==>
      t != "" && exists i :: 0 <= i < |projects| && projects[i].name == t
    decreases |deps|
  {
    if |deps| > 0 {
      ProjectEdgesTargets(deps[..|deps| - 1], projects);
      var dep := deps[|deps| - 1];
      if EdgeOf(dep, projects) != [] {
        ResolveMeaning(dep.projectPath.value, projects);
      }
    }
  }

  /** The project names, in list order. */
  function Names(projects: seq<ParsedProject>): (r: seq<string>)
    ensures |r| == |projects| && forall i :: 0 <= i < |projects| ==> r[i] == projects[i].name
  {
    if |projects| == 0 then [] else Names(projects[..|projects| - 1]) + [projects[|projects| - 1].name]
  }

  /** Where the last project with the given name sits: later `set`s on a `Map` overwrite earlier ones. */
  function LastIndex(projects: seq<ParsedProject>, name: string): (i: nat)
    requires name in Names(projects)
    ensures i < |projects| && projects[i].name == name
    ensures forall j :: i < j < |projects| ==> projects[j].name != name
  {
    var last := |projects| - 1;
    if projects[last].name == name then last
    else
      var init := projects[..last];
      assert name in Names(init) by {
        var i :| 0 <= i < |projects| && Names(projects)[i] == name;
        assert i < last && Names(init)[i] == name;
      }
      LastIndex(init, name)
  }

  function LastNamed(projects: seq<ParsedProject>, name: string): ParsedProject
    requires name in Names(projects)
  {
    projects[LastIndex(projects, name)]
  }

  /** The node of a name: the path of the last project with that name and the edges of its dependencies. */
  function NodeOf(projects: seq<ParsedProject>, name: string): GraphNode
    requires name in Names(projects)
  {
    var p := LastNamed(projects, name);
    GraphNode(name, p.path, ProjectEdges(p.build.dependencies, projects))
  }

  /**
   * `g` is the graph of `projects`: its keys are the project names in order
   * of first appearance, and each name maps to its node in `nodes` and to
   * the node's dependency list in `edges`.
   */
  ghost predicate BuiltFrom(projects: seq<ParsedProject>, g: DependencyGraph) {
    && g.keys == Distinct(Names(projects))
    && (forall n :: n in g.nodes <==> n in Names(projects))
    && (forall n :: n in g.edges <==> n in Names(projects))
    && (forall n :: n in g.nodes ==> g.nodes[n] == NodeOf(projects, n) && g.edges[n] == g.nodes[n].dependencies)
  }

  method BuildDependencyGraph(projects: seq<ParsedProject>) returns (graph: DependencyGraph)
    ensures BuiltFrom(projects, graph)
    ensures WellFormed(graph)
  {
    var keys, nodes, edges := CreateNodes(projects);
    SecondPassStart(projects, nodes, edges);
    nodes, edges := AddDependencies(projects, nodes, edges);
    SecondPassDone(projects, keys, nodes, edges);
    graph := DependencyGraph(keys, nodes, edges);
  }

  /** The first loop of buildDependencyGraph: one node with no dependencies and one empty edge list per name. */
  method CreateNodes(projects: seq<ParsedProject>) returns (keys: seq<string>, nodes: map<string, GraphNode>, edges: map<string, seq<string>>)
    ensures keys == Distinct(Names(projects))
    ensures FirstPass(projects, nodes, edges)
  {
    keys, nodes, edges := [], map[], map[];
    for i := 0 to |projects|
      invariant keys == Distinct(Names(projects[..i]))
      invariant FirstPass(projects[..i], nodes, edges)
    {
      var project := projects[i];
      KeysStep(projects[..i], project, keys, nodes);
      FirstPassStep(projects[..i], project, nodes, edges);
      PrefixSnoc(projects, i);
      if project.name !in nodes {
        keys := keys + [project.name];
      }
      nodes := nodes[project.name := GraphNode(project.name, project.path, [])];
      edges := edges[project.name := []];
    }
    assert projects[..|projects|] == projects;
  }

  /** The second loop of buildDependencyGraph: each project's resolved dependencies, on its node and as its edge list. */
  method AddDependencies(projects: seq<ParsedProject>, nodes0: map<string, GraphNode>, edges0: map<string, seq<string>>)
    returns (nodes: map<string, GraphNode>, edges: map<string, seq<string>>)
    requires SecondPass([], projects, nodes0, edges0)
    ensures SecondPass(projects, projects, nodes, edges)
  {
    nodes, edges := nodes0, edges0;
    for i := 0 to |projects|
      invariant SecondPass(projects[..i], projects, nodes, edges)
    {
      var project := projects[i];
      var projectDeps := ExtractProjectDependencies(project.build.dependencies, projects);
      SecondPassStep(projects[..i], project, projects, nodes, edges, projectDeps);
      PrefixSnoc(projects, i);
      var node := nodes[project.name];
      nodes := nodes[project.name := node.(dependencies := projectDeps)];
      edges := edges[project.name := projectDeps];
    }
    assert projects[..|projects|] == projects;
  }

  /** After the first pass over `done`: each of its names with an empty node and edge list. */
  ghost predicate FirstPass(done: seq<ParsedProject>, nodes: map<string, GraphNode>, edges: map<string, seq<string>>) {
    && (forall n :: n in nodes <==> n in Names(done))
    && (forall n :: n in edges <==> n in Names(done))
    && (forall n :: n in nodes ==> nodes[n] == GraphNode(n, LastNamed(done, n).path, []) && edges[n] == [])
  }

  /** During the second pass over `all`, after `done`: every node has its final path, and the names met so far their edges. */
  ghost predicate SecondPass(done: seq<ParsedProject>, all: seq<ParsedProject>, nodes: map<string, GraphNode>, edges: map<string, seq<string>>) {
    && (forall n :: n in nodes <==> n in Names(all))
    && (forall n :: n in edges <==> n in Names(all))
    && (forall n :: n in nodes ==> Settled(done, all, nodes, edges, n))
  }

  /** The node of `n` has its final name and path, its edge list is its dependency list, and that list is final once `n` was met in `done`. */
  ghost predicate Settled(done: seq<ParsedProject>, all: seq<ParsedProject>, nodes: map<string, GraphNode>, edges: map<string, seq<string>>, n: string)
    requires n in nodes && n in edges && n in Names(all)
  {
    && nodes[n].projectName == n && nodes[n].projectPath == LastNamed(all, n).path
    && edges[n] == nodes[n].dependencies
    && nodes[n].dependencies == if n in Names(done) then ProjectEdges(LastNamed(done, n).build.dependencies, all) else []
  }

  /** One more project: its name is appended, and it is now the last project with that name. */
  lemma NamesSnoc(done: seq<ParsedProject>, p: ParsedProject)
    ensures Names(done + [p]) == Names(done) + [p.name]
    ensures forall n :: n in Names(done + [p]) <==> n in Names(done) || n == p.name
    ensures forall n :: n in Names(done + [p]) ==>
      LastNamed(done + [p], n) == if n == p.name then p else LastNamed(done, n)
  {
    var b := done + [p];
    assert b[..|done|] == done;
    assert Names(b) == Names(done) + [p.name];
    forall n | n in Names(b)
      ensures LastNamed(b, n) == if n == p.name then p else LastNamed(done, n)
    {
      if n != p.name {
        var k := LastIndex(done, n);
        assert LastIndex(b, n) == k && b[k] == done[k];
      }
    }
  }

  /** A name is appended to the keys exactly when it has no node yet. */
  lemma KeysStep(done: seq<ParsedProject>, p: ParsedProject, keys: seq<string>, nodes: map<string, GraphNode>)
    requires keys == Distinct(Names(done))
    requires forall n :: n in nodes <==> n in Names(done)
    ensures (if p.name in nodes then keys else keys + [p.name]) == Distinct(Names(done + [p]))
  {
    NamesSnoc(done, p);
    DistinctSnoc(Names(done), p.name);
  }

  lemma FirstPassStep(done: seq<ParsedProject>, p: ParsedProject, nodes: map<string, GraphNode>, edges: map<string, seq<string>>)
    requires FirstPass(done, nodes, edges)
    ensures FirstPass(done + [p], nodes[p.name := GraphNode(p.name, p.path, [])], edges[p.name := []])
  {
    NamesSnoc(done, p);
    var d := done + [p];
    var nodes', edges' := nodes[p.name := GraphNode(p.name, p.path, [])], edges[p.name := []];
    forall n | n in nodes' ensures nodes'[n] == GraphNode(n, LastNamed(d, n).path, []) && edges'[n] == [] {
      if n != p.name {
        assert n in Names(done);
      }
    }
  }

  lemma SecondPassStart(all: seq<ParsedProject>, nodes: map<string, GraphNode>, edges: map<string, seq<string>>)
    requires FirstPass(all, nodes, edges)
    ensures SecondPass([], all, nodes, edges)
  {
  }

  lemma SecondPassStep(done: seq<ParsedProject>, p: ParsedProject, all: seq<ParsedProject>,
                       nodes: map<string, GraphNode>, edges: map<string, seq<string>>, deps: seq<string>)
    requires SecondPass(done, all, nodes, edges) && p in all
    requires deps == ProjectEdges(p.build.dependencies, all)
    ensures p.name in nodes
    ensures SecondPass(done + [p], all, nodes[p.name := nodes[p.name].(dependencies := deps)], edges[p.name := deps])
  {
    var i :| 0 <= i < |all| && all[i] == p;
    assert Names(all)[i] == p.name;
    var nodes', edges' := nodes[p.name := nodes[p.name].(dependencies := deps)], edges[p.name := deps];
    UpdateKeeps(nodes, p.name, nodes[p.name].(dependencies := deps), Names(all));
    UpdateKeeps(edges, p.name, deps, Names(all));
    forall n | n in nodes' ensures Settled(done + [p], all, nodes', edges', n) {
      SecondPassName(done, p, all, nodes, edges, deps, n);
    }
    assert SecondPass(done + [p], all, nodes', edges');
  }

  /** Overwriting the value of a present key keeps the keys. */
  lemma UpdateKeeps<V>(m: map<string, V>, k: string, v: V, names: seq<string>)
    requires k in m && forall n :: n in m <==> n in names
    ensures forall n :: n in m[k := v] <==> n in names
  {
    assert m[k := v].Keys == m.Keys;
  }

  /** The step of `SecondPassStep` for one name. */
  lemma SecondPassName(done: seq<ParsedProject>, p: ParsedProject, all: seq<ParsedProject>,
                       nodes: map<string, GraphNode>, edges: map<string, seq<string>>, deps: seq<string>, n: string)
    requires SecondPass(done, all, nodes, edges) && p.name in nodes && n in nodes
    requires deps == ProjectEdges(p.build.dependencies, all)
    ensures var nodes', edges' := nodes[p.name := nodes[p.name].(dependencies := deps)], edges[p.name := deps];
      Settled(done + [p], all, nodes', edges', n)
  {
    NamesSnoc(done, p);
    assert Settled(done, all, nodes, edges, n);
  }

  lemma SecondPassDone(all: seq<ParsedProject>, keys: seq<string>, nodes: map<string, GraphNode>, edges: map<string, seq<string>>)
    requires keys == Distinct(Names(all)) && SecondPass(all, all, nodes, edges)
    ensures BuiltFrom(all, DependencyGraph(keys, nodes, edges))
  {
    forall n | n in nodes ensures nodes[n] == NodeOf(all, n) {
      assert n in Names(all);
    }
  }

  /**
   * A built graph has no dangling edges: every edge target is a key, so
   * the keys are every node a search can meet.
   */
  lemma BuiltGraphIsClosed(projects: seq<ParsedProject>, g: DependencyGraph)
    requires BuiltFrom(projects, g)
    ensures NoDup(g.keys)
    ensures forall x, y :: Edge(g, x, y) ==> y in g.keys
    ensures forall x :: x in Universe(g) <==> x in g.keys
  {
    forall x, y | Edge(g, x, y) ensures y in g.keys {
      var p := LastNamed(projects, x);
      ProjectEdgesTargets(p.build.dependencies, projects);
      var i :| 0 <= i < |projects| && projects[i].name == y;
      assert Names(projects)[i] == y;
    }
    UniverseOfClosed(g);
  }
}
