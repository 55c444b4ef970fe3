/** The data shapes of the build-file parser and the dependency graph. */
module Types {
  import opened Wrappers

  /**
   * One entry of a `dependencies { ... }` block. A coordinate entry has a
   * group and a version and `isProject == false`; a project entry has
   * `isProject == true` and its `:a:b` path in `projectPath` (and in `name`).
   * An absent `isProject` is falsy, so it is a plain `bool` here.
   */
  datatype GradleDependency = GradleDependency(
    configuration: string,
    group: Option<string>,
    name: string,
    version: Option<string>,
    isProject: bool,
    projectPath: Option<string>)

  /** The facts extracted from one build file. */
  datatype GradleBuild = GradleBuild(
    plugins: seq<string>,
    dependencies: seq<GradleDependency>,
    repositories: seq<string>,
    sourceCompatibility: Option<string>,
    targetCompatibility: Option<string>,
    group: Option<string>,
    version: Option<string>)

  /** A node of the dependency graph. */
  datatype GraphNode = GraphNode(projectName: string, projectPath: string, dependencies: seq<string>)

  /**
   * The dependency graph: two JavaScript `Map`s keyed by project name.
   * `keys` is the insertion order of `nodes`, which is the order in which
   * `nodes.keys()` iterates; the algorithms only read `keys` and `edges`.
   */
  datatype DependencyGraph = DependencyGraph(
    keys: seq<string>,
    nodes: map<string, GraphNode>,
    edges: map<string, seq<string>>)
}
