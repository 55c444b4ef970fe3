# nx-gradle-plus core, modelled in Dafny

nx-gradle-plus is an Nx plugin for Gradle workspaces. This project models
its core logic and proves properties about it:

- **The build-file text extractor** (`gradle-parser.ts`). It covers the
  settings `include` list, plugin ids, the first `dependencies { … }` and
  `repositories { … }` bodies, and scalar `name = "value"` properties.
  Groovy and Kotlin DSL are told apart by the `.kts` suffix.
- **The module dependency-graph engine** (`dependency-graph.ts`):
  - graph construction from parsed build facts;
  - resolution of `project(":a:b")` references;
  - cycle detection, topological sort and transitive dependencies.
- **Task inference** (`task-inference.ts`): parsing of the text Gradle
  prints for `tasks --all`, the fixed table that maps Gradle tasks to Nx
  targets, and the output and cache-input path lists.
- **Generator option normalisation** (`normalizeOptions` in `generator.ts`).

Module layout:

| file | module | models |
|---|---|---|
| `wrappers.dfy` | `Wrappers` | `Option`, `Result` |
| `seqs.dfy` | `Seqs` | `[...new Set(xs)]` as `Distinct`, `indexOf`, `reverse` |
| `text.dfy` | `Text` | the `String.prototype` operations used (`includes`, `startsWith`, `endsWith`, `trim`, `split`, `replace`) and JavaScript's `\s`, `\w` and `\d` |
| `types.dfy` | `Types` | the data shapes of `types.ts` |
| `gradle_patterns.dfy` | `GradlePatterns` | the fixed regular expressions of `gradle-parser.ts`, one scanner each, plus global `exec` |
| `gradle_parser.dfy` | `GradleParser` | `gradle-parser.ts` over file text |
| `graphs.dfy` | `Graphs` | walks, reachability, cycles and post-orders over a `DependencyGraph` |
| `graph_builder.dfy` | `GraphBuilder` | `buildDependencyGraph`, `extractProjectDependencies`, `resolveProjectName` |
| `cycle_detection.dfy` | `CycleDetection` | `detectCircularDependencies` |
| `topological_sort.dfy` | `TopologicalSort` | `getTopologicalSort` |
| `transitive.dfy` | `Transitive` | `getTransitiveDependencies` |
| `task_inference.dfy` | `TaskInference` | `task-inference.ts` without the Gradle process |
| `generator.dfy` | `Generator` | `normalizeOptions` |

## How the source is modelled

**Regular expressions.** Each regular expression is a dedicated scanner.
`MatchAt(p, s, i)` is the match the backtracking matcher finds when it
starts at index `i`.

- `Exec` is one `exec` call on a global pattern: the leftmost match at or
  after `lastIndex`.
- `Found` is the list a `while ((match = pattern.exec(text)) !== null)`
  loop sees, each search resuming at the previous match's end.
- The loop itself is the method `GradleParser.ExecAll`.
- `Search` and `Collect` are the same two steps for any scanner, a function
  from an index to an optional match. `Exec` and `Found` apply them to one
  pattern's scanner, so the facts about the loop are proved once.
- Backtracking matters only for the greedy `[^}]*` before `url` in the
  Maven pattern. There the last `url` of the brace-free run that completes
  a match wins (`LastUrl`).

**DFS closures.** Each depth-first search keeps its closure state
(`visited`, `recursionStack`/`temp`, `cycles`/`sorted`/`transitive`) as the
fields of a class. The recursive closure is a method with `modifies this`.
The loop over a node's successors is a second method (`DfsNeighbors`,
`VisitNeighbors`) that calls back into the first one.
The exported function allocates the object and runs the outer loop over
`graph.nodes.keys()`.

**Map insertion order.** The graph's `nodes` Map is a Dafny `map`, plus a
`keys` sequence that records the Map's insertion order, which is the order
`nodes.keys()` iterates in.

**Points where the code, not the intent, is followed:**

- **Versions may contain `:`.** A coordinate's version may itself contain
  `:`: `[^"']+` follows the second colon.
- **First match wins.** `resolveProjectName` returns the first matching
  project in list order, even when several match.
  - The two part lists must have equal length, so the suffix comparison is
    a full comparison.
- **Transitive dependencies can include the project itself.**
  `getTransitiveDependencies(p)` contains `p` exactly when `p` lies on a
  cycle.
- **The sort order is reversed.** `getTopologicalSort` returns the
  depth-first finish order reversed, which puts every project before the
  projects it depends on. See Findings.
- **Nested braces cut blocks short.** A `dependencies`/`repositories` body
  ends at the first `}`.
- **Repository URLs are not deduplicated.**
- **Groovy tries one property pattern twice.** `extractProperty` lists the
  same pattern twice, so the second attempt adds nothing.

## Model

Two members model source code without a row of their own, because their
facts are stated by the members that use them: `TaskInference.TaskMappings`,
the eight-entry `taskMappings` table (task-inference.ts:24-67), is described
by the rows of `TaskDependencies`, `TaskOutputsPresent`,
`TaskOutputsUnderBuild` and `TargetForMeaning`; `GradleParser.IsKotlinFile`,
the `.endsWith('.kts')` dialect choice (gradle-parser.ts:9 and 35), is
stated by the rows of `ParseSettingsGradle` and `ParseBuildGradle`.

| member | source | states |
|---|---|---|
| GradleParser.ParseSettingsGradle | nx-gradle-plus/src/utils/gradle-parser.ts:33-49 | The result is group 1 of every `include` match, in order, duplicates kept. The dialect follows the `.kts` suffix. Every token is non-empty and holds no quote. |
| GradleParser.IncludesAreComplete | nx-gradle-plus/src/utils/gradle-parser.ts:43-46 | Every position where an `include` statement starts lies inside one of the reported matches, whose token is reported. |
| GradleParser.ExecAll | nx-gradle-plus/src/utils/gradle-parser.ts:43-46 | The `exec` loop collects exactly the successive leftmost matches, each search starting where the previous match ended. |
| GradlePatterns.Exec | nx-gradle-plus/src/utils/gradle-parser.ts:44 | `exec` returns the match starting at the first position at or after `lastIndex` where the pattern matches. It returns none exactly when no such position exists. |
| GradlePatterns.FoundMatches | nx-gradle-plus/src/utils/gradle-parser.ts:43-46 | Every collected match is the pattern's match at its own start, at or after the starting index. |
| GradlePatterns.FoundOrdered | nx-gradle-plus/src/utils/gradle-parser.ts:43-46 | Collected matches come in text order and do not overlap. |
| GradlePatterns.Search | nx-gradle-plus/src/utils/gradle-parser.ts:43-46 | One `exec` step for any scanner: the first position from the index on where the scanner matches, or none when no later position matches. |
| GradlePatterns.FoundIsComplete | nx-gradle-plus/src/utils/gradle-parser.ts:43-46 | No occurrence is skipped: every position where the pattern matches lies inside a collected match. |
| GradlePatterns.CapturesOfFound | nx-gradle-plus/src/utils/gradle-parser.ts:44-46 | Every captured group is non-empty and made of its group's character class. |
| GradlePatterns.MatchAt | nx-gradle-plus/src/utils/gradle-parser.ts:39-41 | A match of any of the file's patterns starts where asked, lies inside the text, and has the pattern's number of groups, each non-empty and of the group's class. |
| GradlePatterns.WordFormAt | nx-gradle-plus/src/utils/gradle-parser.ts:41 | `include\s+["']([^"']+)["']`: one non-empty unquoted group. |
| GradlePatterns.CallFormAt | nx-gradle-plus/src/utils/gradle-parser.ts:40 | `include\s*\(\s*["']([^"']+)["']\s*\)`: one non-empty unquoted group. |
| GradlePatterns.ApplyPluginAt | nx-gradle-plus/src/utils/gradle-parser.ts:62 | `apply\s+plugin:\s*["']([^"']+)["']`: one non-empty unquoted group. |
| GradlePatterns.CoordinateTextAt | nx-gradle-plus/src/utils/gradle-parser.ts:100 | A quoted `group:name:version` has three non-empty groups. Group and name contain no `:`; the version may. |
| GradlePatterns.CoordinateAt | nx-gradle-plus/src/utils/gradle-parser.ts:94-102 | A coordinate dependency has four groups: a word configuration, then group, name and version as above. |
| GradlePatterns.ProjectRefAt | nx-gradle-plus/src/utils/gradle-parser.ts:94-102 | A project dependency has two groups: a word configuration and a non-empty unquoted project path. |
| GradlePatterns.BlockAt | nx-gradle-plus/src/utils/gradle-parser.ts:84 | A block body is non-empty and free of `}`. |
| GradlePatterns.LastUrl | nx-gradle-plus/src/utils/gradle-parser.ts:159 | Greedy `[^}]*` backtracking: the chosen `url` is the last one in the run that completes a match. When none is chosen, none completes a match. |
| GradlePatterns.MavenUrlAt | nx-gradle-plus/src/utils/gradle-parser.ts:159 | A `maven { … url = '…'` match has one non-empty unquoted group. |
| GradlePatterns.JavaVersionAt | nx-gradle-plus/src/utils/gradle-parser.ts:179 | `name = JavaVersion.VERSION_<digits>` captures a non-empty run of digits. |
| GradleParser.ExtractPlugins | nx-gradle-plus/src/utils/gradle-parser.ts:54-72 | The loop over the two patterns returns the deduplicated captures of both patterns, in turn. |
| GradleParser.PluginsShape | nx-gradle-plus/src/utils/gradle-parser.ts:57-71 | The plugin list has no duplicates. It holds exactly the ids of both patterns, puts every id of the first pattern before any id found only by the second, and contains no empty or quoted id. |
| GradleParser.ExtractDependencies | nx-gradle-plus/src/utils/gradle-parser.ts:77-127 | The result is `[]` without a block. Otherwise it is all coordinate matches of the first block body, then all its project matches. |
| GradleParser.DependencyBlockEndsAtFirstBrace | nx-gradle-plus/src/utils/gradle-parser.ts:84-91 | The scanned body is non-empty, contains no `}`, and is followed by one, so nested braces cut it short. |
| GradleParser.DependenciesShape | nx-gradle-plus/src/utils/gradle-parser.ts:94-124 | The result is `[]` without a block. All coordinate entries (`isProject` false, no `:` in group or name) come before all project entries (`isProject` true, `name == projectPath`). |
| GradleParser.ExtractRepositories | nx-gradle-plus/src/utils/gradle-parser.ts:132-166 | The result is `[]` without a block. Otherwise it is the well-known names the body contains, then every Maven URL. |
| GradleParser.PresentReposShape | nx-gradle-plus/src/utils/gradle-parser.ts:145-156 | Filtering the name list keeps its order, has no duplicates, and keeps a name exactly when the body contains it. |
| GradleParser.PresentReposMembers | nx-gradle-plus/src/utils/gradle-parser.ts:145-156 | The filtered list holds a name exactly when it is one of the names and the body contains it. |
| GradleParser.PresentReposOrdered | nx-gradle-plus/src/utils/gradle-parser.ts:145-156 | With distinct names, the filtered list keeps their order. |
| GradleParser.RepositoriesShape | nx-gradle-plus/src/utils/gradle-parser.ts:138-165 | The well-known names each appear at most once, in fixed order, exactly when the block contains them. The Maven URLs follow in order, not deduplicated, each non-empty and unquoted. |
| GradleParser.ExtractProperty | nx-gradle-plus/src/utils/gradle-parser.ts:171-194 | The loop returns group 1 of the first pattern that matches anywhere, or nothing. |
| GradleParser.PropertyMeaning | nx-gradle-plus/src/utils/gradle-parser.ts:176-193 | Groovy gives the first `name = "value"` match. Kotlin gives that, or failing it the digits of `JavaVersion.VERSION_<digits>`. The result is absent exactly when no position matches, and a value is never empty. |
| GradleParser.ParseBuildGradle | nx-gradle-plus/src/utils/gradle-parser.ts:7-28 | The build facts are the five extractors applied to the text, with the dialect chosen by the `.kts` suffix. |
| GraphBuilder.ResolveProjectName | nx-gradle-plus/src/utils/dependency-graph.ts:66-92 | The loop returns the reference resolution `Resolve`: the first project in list order whose path matches. |
| GraphBuilder.SuffixMatches | nx-gradle-plus/src/utils/dependency-graph.ts:77-84 | The early-exit loop reports a match exactly when the last project parts equal the Gradle parts. |
| GraphBuilder.ResolveMeaning | nx-gradle-plus/src/utils/dependency-graph.ts:71-91 | Resolution fails exactly when no project's `/`-segments equal the `:`-segments. Otherwise it names the first project whose segments do. |
| GraphBuilder.ExtractProjectDependencies | nx-gradle-plus/src/utils/dependency-graph.ts:44-61 | The edge list has one name per project reference that resolves to a non-empty name, in dependency order. |
| GraphBuilder.ProjectEdgesConcat | nx-gradle-plus/src/utils/dependency-graph.ts:50-58 | Each dependency contributes its edge independently and in order. |
| GraphBuilder.ProjectEdgesTargets | nx-gradle-plus/src/utils/dependency-graph.ts:50-58 | There are no more edges than dependencies, and every edge target is a project's non-empty name. |
| GraphBuilder.BuildDependencyGraph | nx-gradle-plus/src/utils/dependency-graph.ts:12-39 | Keys are the project names in first-appearance order, and `nodes` and `edges` have exactly those keys. Each node has the path of the last project with its name and that project's resolved edges, and `edges` holds the same list. The result is well formed: `keys` lists each key of `nodes` once, and `edges` has the same keys. |
| GraphBuilder.CreateNodes | nx-gradle-plus/src/utils/dependency-graph.ts:18-26 | After the first loop, every name has a node with no dependencies and an empty edge list, and keys are in insertion order. |
| GraphBuilder.AddDependencies | nx-gradle-plus/src/utils/dependency-graph.ts:28-36 | After the second loop, every node has its final dependency list, also stored in `edges`. |
| GraphBuilder.BuiltGraphIsClosed | nx-gradle-plus/src/utils/dependency-graph.ts:12-39 | A built graph has duplicate-free keys and no dangling edges, so the keys are every node a search can meet. |
| CycleDetection.DetectCircularDependencies | nx-gradle-plus/src/utils/dependency-graph.ts:97-130 | Every reported cycle is a cycle reachable from a key. Nothing is reported exactly when no cycle is reachable from any key. |
| CycleDetection.CycleDetector.Dfs | nx-gradle-plus/src/utils/dependency-graph.ts:104-121 | Each call runs only on an unvisited node. It restores the recursion stack and keeps the finished nodes post-ordered while no cycle has been found. |
| CycleDetection.CycleDetector.DfsNeighbors | nx-gradle-plus/src/utils/dependency-graph.ts:109-118 | The neighbour loop searches unvisited successors, records the stack slice a back edge closes, and leaves the recursion stack as it found it. With no cycle found, every successor ends up finished. |
| CycleDetection.BackEdgeCycle | nx-gradle-plus/src/utils/dependency-graph.ts:113-117 | The path slice that a back edge closes is a cycle. |
| TopologicalSort.TopologicalSorter.Visit | nx-gradle-plus/src/utils/dependency-graph.ts:140-158 | A thrown error names a node on a reachable cycle. Success finishes the node after all its successors. |
| TopologicalSort.TopologicalSorter.VisitNeighbors | nx-gradle-plus/src/utils/dependency-graph.ts:150-153 | The neighbour loop either fails, naming a node on a reachable cycle, or visits every successor and leaves the in-progress marks as they were. |
| TopologicalSort.FinishOrder | nx-gradle-plus/src/utils/dependency-graph.ts:135-164 | The search fails exactly when a cycle is reachable from a key. Otherwise the finish order lists every reachable node once, after its successors. |
| TopologicalSort.GetTopologicalSort | nx-gradle-plus/src/utils/dependency-graph.ts:135-167 | The sort fails exactly when a reachable cycle exists, naming a node on one. Otherwise it returns every reachable node once, each before the nodes it has edges to. |
| TopologicalSort.ReversedPostOrder | nx-gradle-plus/src/utils/dependency-graph.ts:150-166 | Reversing a duplicate-free finish order puts the source of every edge first. |
| TopologicalSort.TopologicalSortOfTestGraph | nx-gradle-plus/src/utils/dependency-graph.spec.ts:81-101 | On the test's graph every order the sort can return lists `web`, then `api`, then `core`: the reverse of the test's expectation. |
| TopologicalSort.PostOrderIsBuildOrder | nx-gradle-plus/src/utils/dependency-graph.ts:150-157 | A duplicate-free finish order puts the target of every edge first. |
| TopologicalSort.GetBuildOrder | nx-gradle-plus/src/utils/dependency-graph.spec.ts:97-101 | Corrected sort: same failure cases and contents, with every node after the nodes it depends on. |
| TopologicalSort.BuildOrderOfTestGraph | nx-gradle-plus/src/utils/dependency-graph.spec.ts:97-101 | On the test's graph the corrected order lists `core`, then `api`, then `web`, as the test expects. |
| TopologicalSort.TestGraphAcyclic | nx-gradle-plus/src/utils/dependency-graph.spec.ts:81-92 | The test's graph has no reachable cycle, and each of `core`, `api` and `web` is reachable from a key. |
| TopologicalSort.SortTestGraph | nx-gradle-plus/src/utils/dependency-graph.spec.ts:81-101 | Both sorts succeed on the test's graph and return all three projects: the sort as written lists `web`, `api`, `core`; the corrected order lists `core`, `api`, `web`. |
| Graphs.PostOrderedAcyclic | nx-gradle-plus/src/utils/dependency-graph.ts:160-164 | A post-order holding every key rules out a cycle reachable from a key. |
| Graphs.PostOrderedCoversReach | nx-gradle-plus/src/utils/dependency-graph.ts:160-164 | A post-order holding every key holds every node reachable from a key. |
| Graphs.PostOrderedNoCycle | nx-gradle-plus/src/utils/dependency-graph.ts:141-143 | No node of a cycle can be in a post-order. |
| Transitive.TransitiveCollector.Traverse | nx-gradle-plus/src/utils/dependency-graph.ts:179-190 | Every node the call visits has all its successors visited and collected, and only reachable nodes are collected. |
| Transitive.GetTransitiveDependencies | nx-gradle-plus/src/utils/dependency-graph.ts:172-194 | The result is exactly the nodes reachable from the project by one or more edges. |
| Graphs.ReachesPlusSelf | nx-gradle-plus/src/utils/dependency-graph.ts:176-193 | A project reaches itself by one or more edges exactly when it lies on a cycle, so it is its own transitive dependency exactly then. |
| TaskInference.MapTargets | nx-gradle-plus/src/utils/task-inference.ts:69-83 | There is one target per task with a table entry, in input order, each built from its entry. |
| TaskInference.MappedConcat | nx-gradle-plus/src/utils/task-inference.ts:69-71 | Tasks are mapped one by one: mapping a concatenation concatenates the mappings. |
| TaskInference.MappedOne | nx-gradle-plus/src/utils/task-inference.ts:70-71 | A single task yields itself when the table has it and nothing otherwise. |
| TaskInference.MappedMembers | nx-gradle-plus/src/utils/task-inference.ts:69-83 | A task gets a target exactly when it is an input task with a table entry. |
| TaskInference.TargetForMeaning | nx-gradle-plus/src/utils/task-inference.ts:72-81 | A target has the table's executor, outputs and `dependsOn`, `gradlePath` equal to the project path, and every option of the table. |
| TaskInference.TaskDependencies | nx-gradle-plus/src/utils/task-inference.ts:24-67 | Only `check` depends on another target, namely `test`. |
| TaskInference.TaskOutputsPresent | nx-gradle-plus/src/utils/task-inference.ts:24-67 | `clean` and `bootRun` have no outputs; every other mapped task declares some. |
| TaskInference.TaskOutputsUnderBuild | nx-gradle-plus/src/utils/task-inference.ts:24-67 | Every declared output lies under `{projectRoot}/build`. |
| TaskInference.ParseGradleTasks | nx-gradle-plus/src/utils/task-inference.ts:110-138 | The line loop's pushed names, deduplicated in first-appearance order. |
| TaskInference.RunConcat | nx-gradle-plus/src/utils/task-inference.ts:115-135 | Reading lines in two parts is the same as reading them at once, carrying the state across. |
| TaskInference.RunExtends | nx-gradle-plus/src/utils/task-inference.ts:115-135 | The loop only appends to the names already pushed. |
| TaskInference.RunTaskShape | nx-gradle-plus/src/utils/task-inference.ts:128-133 | Every pushed name is non-empty, trimmed and not a `help` task. It is the trimmed text before the first ` - ` of a non-header line that holds ` - `. |
| TaskInference.HeaderOpens | nx-gradle-plus/src/utils/task-inference.ts:117-120 | A line with `tasks` and `-` opens a section and yields no task. |
| TaskInference.BlankCloses | nx-gradle-plus/src/utils/task-inference.ts:122-126 | After a blank line, nothing more is pushed until the next header. |
| TaskInference.OutsideSection | nx-gradle-plus/src/utils/task-inference.ts:117-134 | Outside a section, lines without a header push nothing and stay outside. |
| TaskInference.ParsedTasksShape | nx-gradle-plus/src/utils/task-inference.ts:110-138 | The result is duplicate-free and holds exactly the pushed names. Each is a well-formed name taken from a task line. |
| TaskInference.GetGradleOutputs | nx-gradle-plus/src/utils/task-inference.ts:143-151 | There are five distinct outputs: the project's `build` directory and four non-empty subdirectories of it. |
| TaskInference.GetGradleCacheInputs | nx-gradle-plus/src/utils/task-inference.ts:156-166 | There are seven cache inputs, and the last is the workspace's `gradle.properties` whatever the project. |
| TaskInference.CacheInputsInProject | nx-gradle-plus/src/utils/task-inference.ts:157-163 | The first six inputs lie inside the project directory. |
| TaskInference.CacheInputsDialects | nx-gradle-plus/src/utils/task-inference.ts:158-161 | Of the build files, and of the settings files, exactly the second is a Kotlin (`.kts`) file. |
| Generator.ProjectPaths | nx-gradle-plus/src/generators/project/generator.ts:96-101 | The directory is `directory/name`, or `name` when no directory is given. The root equals it. The name is it with every `/` turned into `-`: same length, no `/`. |
| Generator.NormalizeOptions | nx-gradle-plus/src/generators/project/generator.ts:92-119 | The given name, directory and tags are kept, no defaulted option is empty, the root equals the directory, the name is `/`-free and as long as the directory, and the extension is `kts` exactly for the Kotlin DSL. The lemmas below pin each field down. |
| Generator.ParsedTags | nx-gradle-plus/src/generators/project/generator.ts:102 | Absent or empty tags give `[]`. Otherwise there is one tag more than commas, each the trimmed piece between commas, free of commas and of surrounding space. |
| Generator.TrimAll | nx-gradle-plus/src/generators/project/generator.ts:102 | Each piece is trimmed and the count is kept. |
| Generator.BuildFileExt | nx-gradle-plus/src/generators/project/generator.ts:103 | The extension is `kts` exactly when the given build tool is the Kotlin DSL, and empty otherwise. |
| Generator.Defaults | nx-gradle-plus/src/generators/project/generator.ts:105-117 | Absent or empty options take their defaults and given ones are kept, so no option is empty. The wrapper is initialised unless explicitly declined. |
| Generator.NormalizeIdempotent | nx-gradle-plus/src/generators/project/generator.ts:92-119 | Normalising the options a normalised record carries gives the same record. |
| Text.Split | nx-gradle-plus/src/generators/project/generator.ts:102 | `split` on one character gives one more piece than there are separators, none containing it, and joining them restores the text. |
| Text.BeforeFirst | nx-gradle-plus/src/utils/task-inference.ts:130 | `split(' - ')[0]` is the longest prefix with no separator in it, stopping at the first separator. |
| Text.ReplaceAll | nx-gradle-plus/src/generators/project/generator.ts:100 | Every `/` becomes `-` and nothing else changes. |
| Text.TrimShape | nx-gradle-plus/src/utils/task-inference.ts:130 | `trim` cuts the text into white space, the result and white space, with no white space at either end of the result. |
| Text.TrimIdempotent | nx-gradle-plus/src/utils/task-inference.ts:130 | Trimming twice is trimming once. |
| Seqs.Distinct | nx-gradle-plus/src/utils/gradle-parser.ts:71 | `[...new Set(xs)]` has no duplicates, the same members, and first-appearance order. |
| Seqs.DistinctOrder | nx-gradle-plus/src/utils/task-inference.ts:137 | Deduplication orders two elements by their first appearances. |
| Seqs.DistinctConcat | nx-gradle-plus/src/utils/gradle-parser.ts:64-71 | Deduplicating two lists in turn keeps both lists' elements, and the first list's before those only in the second. |
| Seqs.Reverse | nx-gradle-plus/src/utils/dependency-graph.ts:166 | `reverse()` keeps the length and puts the element at position `i` at position `n - 1 - i`. |

## Findings

| source | as written | input that shows it | evidently intended | confidence | as-written member | corrected member |
|---|---|---|---|---|---|---|
| nx-gradle-plus/src/utils/dependency-graph.ts:166 | `getTopologicalSort` returns the depth-first finish order reversed, which lists each project before the projects it depends on. | Edges `api → core`, `web → api`, `web → core`: the sort succeeds on this graph and lists `web`, `api`, `core` in that order. | A build order (the function's own comment, and the test at dependency-graph.spec.ts:99-101): dependencies first, `core` before `api` before `web`, which is the finish order itself. | not executed | TopologicalSort.GetTopologicalSort, TopologicalSort.TopologicalSortOfTestGraph, TopologicalSort.SortTestGraph | TopologicalSort.GetBuildOrder, TopologicalSort.BuildOrderOfTestGraph |

## Left out

- File I/O is not modelled. The parsers take the file text as a parameter beside the path. `readFileSync` is not part of this model.
- `buildDependencyGraph` does not call `parseBuildGradle` in this model. Each project arrives with its build facts already parsed (`ParsedProject.build`), and `GradleParser.ParseBuildGradle` states how those facts arise from text.
- `getGradleTasks` is left out because it runs a process. `inferTargetsFromGradle` is modelled as its target loop over a given task list (`MapTargets`).
- `gradle-detector.ts`, the three executors, `projectGenerator` and `initializeGradleWrapper` are left out. They are filesystem probing, process execution, console output and Nx devkit file templating.
- Strings are sequences of Unicode scalar values, not UTF-16 code units. `\s` is JavaScript's white-space set over those values.
- `taskMappings` lookups are a map over its eight keys. JavaScript prototype keys (`constructor`, `toString`, …), which would also index the object literal, are not modelled.
- Option records are maps, so the order of their keys is not modelled.
- The node objects in `nodes` are values: the aliasing between a node's `dependencies` array and its `edges` entry is not modelled. The two are stated equal instead.
- `sorted.reverse()` is modelled as a value (`Seqs.Reverse`) rather than an in-place reversal.
- A `DependencyGraph` given to `detectCircularDependencies`, `getTopologicalSort` or `getTransitiveDependencies` is not required to be well formed (`Graphs.WellFormed`). Their contracts hold for any graph, with the outer loop running over `keys`; `keys` is the iteration order of `nodes.keys()` only for a well-formed graph, such as every graph `BuildDependencyGraph` returns.
- Exact error-message text is not modelled. A failing topological sort is a `Failure` carrying the node that closed the cycle.
- `extractProperty`'s property name is treated as literal text. The source interpolates it into a regular expression, which matters only for names holding regex metacharacters; the source only uses plain names.
- Generator.NormalizeOptions: the `tree` parameter is unused by the source and omitted. `projectType` and `buildTool` are kept as free text.
- GradleParser.DependenciesShape: the sample build files of the parser's tests are not evaluated. The shape lemmas state the order and form of the entries for every text instead of the three-entry count of one sample.
