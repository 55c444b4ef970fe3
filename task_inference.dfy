/**
 * Task inference: reading the task names out of the text Gradle prints for
 * `tasks --all`, turning the known ones into Nx targets through a fixed
 * table, and the output and cache-input paths of a Gradle project.
 */
module TaskInference {
  import opened Wrappers
  import opened Seqs
  import opened Text

  // ---------------------------------------------------------------- targets

  /** A value of a target's `options` record: a task name or path, or an argument list. */
  datatype OptionValue = Str(s: string) | Args(args: seq<string>)

  /** An entry of `taskMappings`: the partial target a Gradle task maps to. */
  datatype TaskMapping = TaskMapping(
    executor: string,
    outputs: Option<seq<string>>,
    options: map<string, OptionValue>,
    dependsOn: Option<seq<string>>)

  /** An inferred Nx target. */
  datatype InferredTarget = InferredTarget(
    name: string,
    executor: string,
    options: map<string, OptionValue>,
    outputs: Option<seq<string>>,
    dependsOn: Option<seq<string>>)

  /** `taskMappings`: the eight Gradle tasks that become Nx targets. */
  function TaskMappings(): map<string, TaskMapping> {
    map[
      "build" := TaskMapping("nx-gradle-plus:build", Some(["{projectRoot}/build"]), map["task" := Str("build")], None),
      "test" := TaskMapping("nx-gradle-plus:test", Some(["{projectRoot}/build/test-results", "{projectRoot}/build/reports"]),
                            map["task" := Str("test")], None),
      "assemble" := TaskMapping("nx-gradle-plus:build", Some(["{projectRoot}/build/libs"]), map["task" := Str("assemble")], None),
      "jar" := TaskMapping("nx-gradle-plus:build", Some(["{projectRoot}/build/libs"]), map["task" := Str("jar")], None),
      "clean" := TaskMapping("nx-gradle-plus:gradle", None, map["args" := Args(["clean"])], None),
      "check" := TaskMapping("nx-gradle-plus:gradle", Some(["{projectRoot}/build/reports"]), map["args" := Args(["check"])], Some(["test"])),
      "bootJar" := TaskMapping("nx-gradle-plus:build", Some(["{projectRoot}/build/libs"]), map["task" := Str("bootJar")], None),
      "bootRun" := TaskMapping("nx-gradle-plus:gradle", None, map["args" := Args(["bootRun"])], None)
    ]
  }

  /** The target a mapped task becomes: the table's entry, with `gradlePath` put in front of the table's options. */
  function TargetFor(projectPath: string, task: string): InferredTarget
    requires task in TaskMappings()
  {
    var m := TaskMappings()[task];
    InferredTarget(task, m.executor, map["gradlePath" := Str(projectPath)] + m.options, m.outputs, m.dependsOn)
  }

  /** The tasks that have a table entry, in input order. */
  function Mapped(tasks: seq<string>): (r: seq<string>)
    ensures forall t :: t in r ==> t in TaskMappings()
  {
    if |tasks| == 0 then []
    else
      var last := tasks[|tasks| - 1];
      Mapped(tasks[..|tasks| - 1]) + if last in TaskMappings() then [last] else []
  }

  /**
   * The target loop of inferTargetsFromGradle, given the task list:
   * one target per mapped task, in input order, each built from its entry.
   */
  method MapTargets(projectPath: string, gradleTasks: seq<string>) returns (targets: seq<InferredTarget>)
    ensures |targets| == |Mapped(gradleTasks)|
    ensures forall i :: 0 <= i < |targets| ==> targets[i] == TargetFor(projectPath, Mapped(gradleTasks)[i])
  {
    var taskMappings := TaskMappings();
    targets := [];
    for i := 0 to |gradleTasks|
      invariant |targets| == |Mapped(gradleTasks[..i])|
      invariant forall k :: 0 <= k < |targets| ==> targets[k] == TargetFor(projectPath, Mapped(gradleTasks[..i])[k])
    {
      var task := gradleTasks[i];
      PrefixSnoc(gradleTasks, i);
      if task in taskMappings {
        var mapping := taskMappings[task];
        targets := targets + [InferredTarget(task, mapping.executor,
                                             map["gradlePath" := Str(projectPath)] + mapping.options,
                                             mapping.outputs, mapping.dependsOn)];
      }
    }
    assert gradleTasks[..|gradleTasks|] == gradleTasks;
  }

  /** Mapping works task by task: a list of tasks maps to its parts' mappings, concatenated. */
  lemma {:induction false} MappedConcat(a: seq<string>, b: seq<string>)
    ensures Mapped(a + b) == Mapped(a) + Mapped(b)
    decreases |b|
  {
    if |b| == 0 {
      assert a + b == a;
    } else {
      var c := a + b;
      var b' := b[..|b| - 1];
      var last := b[|b| - 1];
      var tail := if last in TaskMappings() then [last] else [];
      assert c[..|c| - 1] == a + b' && c[|c| - 1] == last;
      assert Mapped(c) == Mapped(a + b') + tail;
      assert Mapped(b) == Mapped(b') + tail;
      MappedConcat(a, b');
    }
  }

  /** A single task maps to itself when it has a table entry and to nothing otherwise. */
  lemma MappedOne(t: string)
    ensures Mapped([t]) == if t in TaskMappings() then [t] else []
  {
    assert [t][..0] == [];
  }

  /** A task is mapped exactly when it is an input task with a table entry. */
  lemma {:induction false} MappedMembers(tasks: seq<string>)
    ensures forall t :: t in Mapped(tasks) <==> t in tasks && t in TaskMappings()
    decreases |tasks|
  {
    if |tasks| > 0 {
      var init := tasks[..|tasks| - 1];
      MappedMembers(init);
      assert tasks == init + [tasks[|tasks| - 1]];
    }
  }

  /**
   * A target carries its task's executor, outputs and dependencies from the
   * table, `gradlePath` set to the project path, and every option of the table.
   */
  lemma TargetForMeaning(projectPath: string, task: string)
    requires task in TaskMappings()
    ensures var t, m := TargetFor(projectPath, task), TaskMappings()[task];
      && t.name == task && t.executor == m.executor && t.outputs == m.outputs && t.dependsOn == m.dependsOn
      && t.options.Keys == {"gradlePath"} + m.options.Keys
      && t.options["gradlePath"] == Str(projectPath)
      && forall k :: k in m.options ==> t.options[k] == m.options[k]
  {
    var m := TaskMappings()[task];
    assert "gradlePath" !in m.options;
  }

  /** Only `check` depends on another target, and it depends on `test`. */
  lemma TaskDependencies()
    ensures TaskMappings()["check"].dependsOn == Some(["test"])
    ensures forall t :: t in TaskMappings() && t != "check" ==> TaskMappings()[t].dependsOn == None
  {
    assert TaskMappings().Keys == {"build", "test", "assemble", "jar", "clean", "check", "bootJar", "bootRun"};
  }

  /** `clean` and `bootRun` have no outputs and every other task has some. */
  lemma TaskOutputsPresent()
    ensures TaskMappings()["clean"].outputs == None && TaskMappings()["bootRun"].outputs == None
    ensures forall t :: t in TaskMappings() && t != "clean" && t != "bootRun" ==> TaskMappings()[t].outputs.Some?
  {
    assert TaskMappings().Keys == {"build", "test", "assemble", "jar", "clean", "check", "bootJar", "bootRun"};
  }

  /** Every declared output lies under the project's build directory. */
  lemma TaskOutputsUnderBuild()
    ensures forall t, o :: t in TaskMappings() && TaskMappings()[t].outputs.Some? && o in TaskMappings()[t].outputs.value ==>
      StartsWith(o, "{projectRoot}/build")
  {
    var m := TaskMappings();
    assert m.Keys == {"build", "test", "assemble", "jar", "clean", "check", "bootJar", "bootRun"};
    var p := "{projectRoot}/build";
    assert StartsWith("{projectRoot}/build", p);
    assert OccursAt("{projectRoot}/build/libs", p, 0);
    assert OccursAt("{projectRoot}/build/reports", p, 0);
    assert OccursAt("{projectRoot}/build/test-results", p, 0);
  }

  // ---------------------------------------------------------------- task list

  /** The line loop's state: the `inTaskSection` flag and the names pushed so far. */
  datatype ScanState = ScanState(inTaskSection: bool, tasks: seq<string>)

  /** A line like "Build tasks" followed by a rule of dashes: it holds `tasks` and `-`. */
  predicate IsHeader(line: string) {
    Contains(line, "tasks") && Contains(line, "-")
  }

  /** A line that is empty after trimming. */
  predicate IsBlank(line: string) {
    Trim(line) == ""
  }

  /** The name a task line offers: its text before the first " - ", trimmed. */
  function TaskNameOf(line: string): string {
    Trim(BeforeFirst(line, " - "))
  }

  /** The name is kept unless it is empty or a `help` task. */
  predicate Keeps(name: string) {
    name != "" && !StartsWith(name, "help")
  }

  /** One iteration of the line loop. */
  function Step(st: ScanState, line: string): ScanState {
    if IsHeader(line) then ScanState(true, st.tasks)
    else if st.inTaskSection && IsBlank(line) then ScanState(false, st.tasks)
    else if st.inTaskSection && Contains(line, " - ") && Keeps(TaskNameOf(line)) then
      ScanState(true, st.tasks + [TaskNameOf(line)])
    else st
  }

  /** The state after the loop has read `lines`, starting from `st`. */
  function Run(st: ScanState, lines: seq<string>): ScanState {
    if |lines| == 0 then st else Step(Run(st, lines[..|lines| - 1]), lines[|lines| - 1])
  }

  /** The names the loop pushes, from the start state, duplicates kept. */
  function RawTasks(output: string): seq<string> {
    Run(ScanState(false, []), Split(output, '\n')).tasks
  }

  /** parseGradleTasks: the pushed names without repetitions, each at its first appearance. */
  method ParseGradleTasks(output: string) returns (result: seq<string>)
    ensures result == Distinct(RawTasks(output))
  {
    var tasks: seq<string> := [];
    var lines := Split(output, '\n');
    var inTaskSection := false;
    for i := 0 to |lines|
      invariant Run(ScanState(false, []), lines[..i]) == ScanState(inTaskSection, tasks)
    {
      var line := lines[i];
      PrefixSnoc(lines, i);
      ghost var next := Step(ScanState(inTaskSection, tasks), line);
      assert Run(ScanState(false, []), lines[..i + 1]) == next;
      if Contains(line, "tasks") && Contains(line, "-") {
        inTaskSection := true;
        continue;
      }
      if inTaskSection && Trim(line) == "" {
        inTaskSection := false;
        continue;
      }
      if inTaskSection && Contains(line, " - ") {
        var taskName := Trim(BeforeFirst(line, " - "));
        if taskName != "" && !StartsWith(taskName, "help") {
          tasks := tasks + [taskName];
        }
      }
    }
    assert lines[..|lines|] == lines;
    result := Distinct(tasks);
  }

  /** Reading lines one after another: the second part starts from the state the first part left. */
  lemma {:induction false} RunConcat(st: ScanState, a: seq<string>, b: seq<string>)
    ensures Run(st, a + b) == Run(Run(st, a), b)
    decreases |b|
  {
    if |b| == 0 {
      assert a + b == a;
    } else {
      var c := a + b;
      var b', line := b[..|b| - 1], b[|b| - 1];
      assert c[..|c| - 1] == a + b' && c[|c| - 1] == line;
      RunConcat(st, a, b');
      assert Run(st, c) == Step(Run(st, a + b'), line);
    }
  }

  /** The loop only ever appends to the names it has pushed. */
  lemma {:induction false} RunExtends(st: ScanState, lines: seq<string>)
    ensures st.tasks <= Run(st, lines).tasks
    decreases |lines|
  {
    if |lines| > 0 {
      RunExtends(st, lines[..|lines| - 1]);
    }
  }

  /**
   * Every pushed name is the trimmed text before the first " - " of a line
   * holding " - " that is not a header, and it is non-empty, trimmed and not
   * a `help` task.
   */
  lemma {:induction false} RunTaskShape(st: ScanState, lines: seq<string>)
    ensures forall x :: x in Run(st, lines).tasks && x !in st.tasks ==>
      && x != "" && Trim(x) == x && !StartsWith(x, "help")
      && exists l :: l in lines && Contains(l, " - ") && !IsHeader(l) && x == TaskNameOf(l)
    decreases |lines|
  {
    if |lines| > 0 {
      var init := lines[..|lines| - 1];
      var line := lines[|lines| - 1];
      assert lines == init + [line];
      RunTaskShape(st, init);
      var s := Run(st, init);
      StepTaskShape(s, line);
      forall x | x in Run(st, lines).tasks && x !in st.tasks
        ensures x != "" && Trim(x) == x && !StartsWith(x, "help")
        ensures exists l :: l in lines && Contains(l, " - ") && !IsHeader(l) && x == TaskNameOf(l)
      {
        if x in s.tasks {
          var l :| l in init && Contains(l, " - ") && !IsHeader(l) && x == TaskNameOf(l);
          assert l in lines;
        } else {
          assert line in lines;
        }
      }
    }
  }

  /** One line pushes at most its own name, and only when that name is kept. */
  lemma StepTaskShape(st: ScanState, line: string)
    ensures forall x :: x in Step(st, line).tasks && x !in st.tasks ==>
      && x == TaskNameOf(line) && Contains(line, " - ") && !IsHeader(line)
      && x != "" && Trim(x) == x && !StartsWith(x, "help")
  {
    TrimIdempotent(BeforeFirst(line, " - "));
  }

  /** Lines with no header in them never open a section, so from outside a section they push nothing. */
  lemma {:induction false} OutsideSection(lines: seq<string>, tasks: seq<string>)
    requires forall l :: l in lines ==> !IsHeader(l)
    ensures Run(ScanState(false, tasks), lines) == ScanState(false, tasks)
    decreases |lines|
  {
    if |lines| > 0 {
      OutsideSection(lines[..|lines| - 1], tasks);
      assert lines[|lines| - 1] in lines;
    }
  }

  /** A header line opens a section and pushes nothing itself. */
  lemma HeaderOpens(st: ScanState, line: string)
    requires IsHeader(line)
    ensures Step(st, line) == ScanState(true, st.tasks)
  {
  }

  /**
   * A blank line closes the section: whatever came before, the lines after
   * it push nothing until the next header.
   */
  lemma BlankCloses(st: ScanState, before: seq<string>, blank: string, after: seq<string>)
    requires IsBlank(blank) && forall l :: l in after ==> !IsHeader(l)
    ensures Run(st, before + [blank] + after).tasks == Run(st, before).tasks
  {
    var s := Run(st, before);
    assert !IsHeader(blank) by {
      assert Trim(blank) == "";
      if IsHeader(blank) {
        var i :| 0 <= i <= |blank| && OccursAt(blank, "tasks", i);
        assert blank[i] == blank[i..i + 5][0] == 't';
        NonSpaceSurvivesTrim(blank, i);
        assert false;
      }
    }
    RunConcat(st, before, [blank]);
    assert [blank][..0] == [];
    RunConcat(st, before + [blank], after);
    OutsideSection(after, s.tasks);
  }

  /** A string holding a character that is not white space does not trim to the empty string. */
  lemma NonSpaceSurvivesTrim(s: string, i: nat)
    requires i < |s| && !IsSpace(s[i])
    ensures Trim(s) != ""
  {
    TrimShape(s);
  }

  /**
   * parseGradleTasks yields each task once, in order of first appearance,
   * and every name it yields was offered by a task line.
   */
  lemma ParsedTasksShape(output: string)
    ensures var r := Distinct(RawTasks(output));
      && NoDup(r)
      && (forall x :: x in r <==> x in RawTasks(output))
      && (forall x :: x in r ==> x != "" && Trim(x) == x && !StartsWith(x, "help"))
      && (forall x :: x in r ==> exists l :: l in Split(output, '\n') && Contains(l, " - ") && !IsHeader(l) && x == TaskNameOf(l))
  {
    RunTaskShape(ScanState(false, []), Split(output, '\n'));
  }

  // ---------------------------------------------------------------- paths

  /** getGradleOutputs: the build directory and four directories inside it. */
  function GetGradleOutputs(projectPath: string): (r: seq<string>)
    ensures |r| == 5 && NoDup(r)
    ensures r[0] == projectPath + "/build"
    ensures forall i :: 0 < i < |r| ==> exists d :: r[i] == r[0] + "/" + d && d != ""
  {
    var b := projectPath + "/build";
    var r := [b, b + "/libs", b + "/classes", b + "/resources", b + "/generated"];
    assert r[1] == b + "/" + "libs" && r[2] == b + "/" + "classes";
    assert r[3] == b + "/" + "resources" && r[4] == b + "/" + "generated";
    assert r[1][|b| + 1..] == "libs" && r[2][|b| + 1..] == "classes";
    assert r[3][|b| + 1..] == "resources" && r[4][|b| + 1..] == "generated";
    r
  }

  /**
   * getGradleCacheInputs: the project's build and settings files in both
   * dialects, its sources and properties, and the workspace's properties,
   * which is the same entry whatever the project.
   */
  function GetGradleCacheInputs(projectPath: string): (r: seq<string>)
    ensures |r| == 7
    ensures r[6] == "{workspaceRoot}/gradle.properties"
  {
    var p := projectPath + "/";
    [p + "build.gradle", p + "build.gradle.kts", p + "settings.gradle", p + "settings.gradle.kts",
     p + "src/**/*", p + "gradle.properties", "{workspaceRoot}/gradle.properties"]
  }

  /** The first six cache inputs lie inside the project directory. */
  lemma CacheInputsInProject(projectPath: string)
    ensures var r := GetGradleCacheInputs(projectPath);
      forall i :: 0 <= i < 6 ==> StartsWith(r[i], projectPath + "/")
  {
    var p := projectPath + "/";
    var r := GetGradleCacheInputs(projectPath);
    forall i | 0 <= i < 6 ensures StartsWith(r[i], p) {
      assert r[i][..|p|] == p;
    }
  }

  /** Of the build files and of the settings files among the cache inputs, exactly the second is in the Kotlin dialect. */
  lemma CacheInputsDialects(projectPath: string)
    ensures var r := GetGradleCacheInputs(projectPath);
      && EndsWith(r[1], ".kts") && !EndsWith(r[0], ".kts")
      && EndsWith(r[3], ".kts") && !EndsWith(r[2], ".kts")
  {
    var p := projectPath + "/";
    Under(p, "build.gradle");
    Under(p, "build.gradle.kts");
    Under(p, "settings.gradle");
    Under(p, "settings.gradle.kts");
    BuildFileSuffixes();
  }

  /** A path joined under a directory ends with ".kts" exactly when the joined part does. */
  lemma Under(dir: string, x: string)
    requires |x| >= 4
    ensures EndsWith(dir + x, ".kts") <==> EndsWith(x, ".kts")
  {
    var s := dir + x;
    assert s[|s| - 4..] == x[|x| - 4..];
  }

  /** Which of the four build and settings file names carry the Kotlin suffix. */
  lemma BuildFileSuffixes()
    ensures EndsWith("build.gradle.kts", ".kts") && !EndsWith("build.gradle", ".kts")
    ensures EndsWith("settings.gradle.kts", ".kts") && !EndsWith("settings.gradle", ".kts")
  {
    assert "build.gradle.kts"[12..16] == ".kts";
    assert "settings.gradle.kts"[15..19] == ".kts";
    assert "build.gradle"[8] == 'a';
    assert "settings.gradle"[11] == 'a';
  }
}
