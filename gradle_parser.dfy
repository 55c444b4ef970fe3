/**
 * gradle-parser.ts over file text: the settings `include` list, and the
 * plugins, dependencies, repositories and scalar properties of a build
 * file. Every extractor is total: an absent section gives `[]` or `None`.
 */
module GradleParser {
  import opened Wrappers
  import opened Text
  import opened Seqs
  import opened Types
  import opened GradlePatterns

  /** The Kotlin dialect is chosen by a `.kts` file name, for build and settings files alike. */
  predicate IsKotlinFile(path: string) {
    EndsWith(path, ".kts")
  }

  // ---------------------------------------------------------------- settings

  /** Every `include` token of a settings file, in order of appearance, duplicates kept. */
  function Includes(content: string, isKotlin: bool): seq<string> {
    Captures(Found(Include(isKotlin), content, 0), 0)
  }

  /**
   * The `while ((match = pattern.exec(text)) !== null)` loop every
   * extractor runs on a global pattern: all matches, each search resuming
   * at `lastIndex`, the end of the previous match.
   */
  method ExecAll(pattern: Pattern, text: string) returns (matches: seq<Match>)
    ensures matches == Found(pattern, text, 0)
  {
    matches := [];
    var lastIndex := 0;
    while true
      invariant lastIndex <= |text|
      invariant matches + Found(pattern, text, lastIndex) == Found(pattern, text, 0)
      decreases |text| - lastIndex
    {
      var match_ := Exec(pattern, text, lastIndex);
      FoundUnfold(pattern, text, lastIndex);
      if match_.None? {
        break;
      }
      var m := match_.value;
      assert matches + [m] + Found(pattern, text, m.end) == matches + Found(pattern, text, lastIndex);
      matches := matches + [m];
      lastIndex := m.end;
    }
  }

  method ParseSettingsGradle(settingsFilePath: string, content: string) returns (subprojects: seq<string>)
    ensures subprojects == Includes(content, IsKotlinFile(settingsFilePath))
    ensures forall t :: t in subprojects ==> t != [] && '"' !in t && '\'' !in t
  {
    var isKotlin := IsKotlinFile(settingsFilePath);
    var matches := ExecAll(Include(isKotlin), content);
    subprojects := Captures(matches, 0);
    CapturesOfFound(Include(isKotlin), content, 0);
  }

  /** The settings parser reports every `include` occurrence: each position where the pattern matches lies inside a reported match. */
  lemma IncludesAreComplete(content: string, isKotlin: bool, i: nat)
    requires i <= |content| && MatchAt(Include(isKotlin), content, i).Some?
    ensures var ms := Found(Include(isKotlin), content, 0);
      exists k :: 0 <= k < |ms| && ms[k].start <= i < ms[k].end && Includes(content, isKotlin)[k] == Group(ms[k], 0) != []
  {
    CoveringCapture(Include(isKotlin), content, i, 0);
  }

  // ---------------------------------------------------------------- plugins

  /** The two plugin patterns of each dialect, in the order they are applied. */
  function PluginPatterns(isKotlin: bool): seq<Pattern> {
    if isKotlin then [PluginId(true), KotlinPlugin] else [PluginId(false), ApplyPlugin]
  }

  /** The captures of each pattern in turn, all of one pattern before the next. */
  function AllCaptures(patterns: seq<Pattern>, content: string): seq<string>
    decreases |patterns|
  {
    if |patterns| == 0 then []
    else AllCaptures(patterns[..|patterns| - 1], content) + Captures(Found(patterns[|patterns| - 1], content, 0), 0)
  }

  function Plugins(content: string, isKotlin: bool): seq<string> {
    Distinct(AllCaptures(PluginPatterns(isKotlin), content))
  }

  method ExtractPlugins(content: string, isKotlin: bool) returns (result: seq<string>)
    ensures result == Plugins(content, isKotlin)
  {
    var plugins: seq<string> := [];
    var patterns := PluginPatterns(isKotlin);
    for n := 0 to |patterns|
      invariant plugins == AllCaptures(patterns[..n], content)
    {
      assert patterns[..n + 1][..n] == patterns[..n];
      var matches := ExecAll(patterns[n], content);
      plugins := plugins + Captures(matches, 0);
    }
    assert patterns[..|patterns|] == patterns;
    result := Distinct(plugins);
  }

  /**
   * The plugin list has no duplicates, holds exactly the captures of the
   * two patterns, and lists every capture of the first pattern before any
   * id found only by the second; every id is non-empty and unquoted.
   */
  lemma PluginsShape(content: string, isKotlin: bool)
    ensures var first := Captures(Found(PluginPatterns(isKotlin)[0], content, 0), 0);
      var second := Captures(Found(PluginPatterns(isKotlin)[1], content, 0), 0);
      var r := Plugins(content, isKotlin);
      && NoDup(r)
      && (forall x :: x in r <==> x in first || x in second)
      && (forall x, y :: x in first && y in second && y !in first ==> IndexOf(r, x) < IndexOf(r, y))
      && (forall x :: x in r ==> x != [] && '"' !in x && '\'' !in x)
  {
    var ps := PluginPatterns(isKotlin);
    assert ps == [ps[0], ps[1]];
    TwoPatterns(ps[0], ps[1], content);
    DistinctConcat(Captures(Found(ps[0], content, 0), 0), Captures(Found(ps[1], content, 0), 0));
  }

  /** Two patterns contribute their captures in turn, each non-empty and unquoted. */
  lemma TwoPatterns(p: Pattern, q: Pattern, content: string)
    requires 0 < Arity(p) && 0 < Arity(q)
    requires GroupClass(p, 0) == NotQuote && GroupClass(q, 0) == NotQuote
    ensures var first := Captures(Found(p, content, 0), 0);
      var second := Captures(Found(q, content, 0), 0);
      && AllCaptures([p, q], content) == first + second
      && (forall x :: x in first + second ==> x != [] && '"' !in x && '\'' !in x)
  {
    AllCapturesPair(p, q, content);
    UnquotedCaptures(p, content);
    UnquotedCaptures(q, content);
  }

  lemma AllCapturesPair(p: Pattern, q: Pattern, content: string)
    ensures AllCaptures([p, q], content) == Captures(Found(p, content, 0), 0) + Captures(Found(q, content, 0), 0)
  {
    var ps := [p, q];
    assert ps[..1] == [p];
    assert [p][..0] == [];
    assert AllCaptures([p], content) == Captures(Found(p, content, 0), 0);
  }

  lemma UnquotedCaptures(p: Pattern, content: string)
    requires 0 < Arity(p) && GroupClass(p, 0) == NotQuote
    ensures forall x :: x in Captures(Found(p, content, 0), 0) ==> x != [] && '"' !in x && '\'' !in x
  {
    CapturesOfFound(p, content, 0);
    forall x | x in Captures(Found(p, content, 0), 0) ensures '"' !in x && '\'' !in x {
      assert AllIn(x, NotQuote);
    }
  }

  // ---------------------------------------------------------------- dependencies

  /** The body of the first non-empty `dependencies { ... }` block, up to the first `}`. */
  function DependencyBlock(content: string): Option<string> {
    match Exec(Block("dependencies"), content, 0)
    case None => None
    case Some(m) => Some(Group(m, 0))
  }

  function CoordinateDependency(m: Match): GradleDependency {
    GradleDependency(Group(m, 0), Some(Group(m, 1)), Group(m, 2), Some(Group(m, 3)), false, None)
  }

  function ProjectDependency(m: Match): GradleDependency {
    GradleDependency(Group(m, 0), None, Group(m, 1), None, true, Some(Group(m, 1)))
  }

  function CoordinateDependencies(ms: seq<Match>): (r: seq<GradleDependency>)
    ensures |r| == |ms| && forall k :: 0 <= k < |ms| ==> r[k] == CoordinateDependency(ms[k])
  {
    if |ms| == 0 then [] else [CoordinateDependency(ms[0])] + CoordinateDependencies(ms[1..])
  }

  function ProjectDependencies(ms: seq<Match>): (r: seq<GradleDependency>)
    ensures |r| == |ms| && forall k :: 0 <= k < |ms| ==> r[k] == ProjectDependency(ms[k])
  {
    if |ms| == 0 then [] else [ProjectDependency(ms[0])] + ProjectDependencies(ms[1..])
  }

  /** All coordinate entries of the first block body, then all its project entries. */
  function Dependencies(content: string, isKotlin: bool): seq<GradleDependency> {
    match DependencyBlock(content)
    case None => []
    case Some(body) =>
      CoordinateDependencies(Found(Coordinate(isKotlin), body, 0))
      + ProjectDependencies(Found(ProjectRef(isKotlin), body, 0))
  }

  method ExtractDependencies(content: string, isKotlin: bool) returns (dependencies: seq<GradleDependency>)
    ensures dependencies == Dependencies(content, isKotlin)
  {
    var depBlockMatch := Exec(Block("dependencies"), content, 0);
    if depBlockMatch.None? {
      return [];
    }
    var depBlock := depBlockMatch.value.groups[0];
    var coordinates := ExecAll(Coordinate(isKotlin), depBlock);
    var projects := ExecAll(ProjectRef(isKotlin), depBlock);
    dependencies := CoordinateDependencies(coordinates) + ProjectDependencies(projects);
  }

  /** The block body is non-empty, contains no `}`, and is followed by one: nested braces cut it short. */
  lemma DependencyBlockEndsAtFirstBrace(content: string)
    requires DependencyBlock(content).Some?
    ensures var body := DependencyBlock(content).value;
      body != [] && '}' !in body
      && exists e :: |body| < e < |content| && content[e] == '}' && content[e - |body|..e] == body
  {
    var m := Exec(Block("dependencies"), content, 0).value;
    BlockBody(content, m.start, "dependencies");
  }

  lemma BlockBody(s: string, i: nat, kw: string)
    requires i <= |s| && BlockAt(s, i, kw).Some?
    ensures var m := BlockAt(s, i, kw).value; var body := m.groups[0];
      body != [] && '}' !in body
      && |body| < m.end - 1 < |s| && s[m.end - 1] == '}' && s[m.end - 1 - |body|..m.end - 1] == body
  {
  }

  /** A coordinate entry: a word configuration, a group and a name without `:`, a version that may contain `:`; none empty or quoted. */
  predicate CoordinateEntry(d: GradleDependency) {
    && !d.isProject
    && d.configuration != [] && AllIn(d.configuration, Word)
    && d.group.Some? && d.group.value != [] && ':' !in d.group.value && AllIn(d.group.value, NotQuote)
    && d.name != [] && ':' !in d.name && AllIn(d.name, NotQuote)
    && d.version.Some? && d.version.value != [] && AllIn(d.version.value, NotQuote)
    && d.projectPath.None?
  }

  /** A project entry: a word configuration and a non-empty unquoted project path, which is also its name. */
  predicate ProjectEntry(d: GradleDependency) {
    && d.isProject
    && d.configuration != [] && AllIn(d.configuration, Word)
    && d.projectPath == Some(d.name) && d.name != [] && AllIn(d.name, NotQuote)
    && d.group.None? && d.version.None?
  }

  /** The first `n` entries are coordinate entries and the rest project entries. */
  predicate SplitAt(deps: seq<GradleDependency>, n: nat) {
    && n <= |deps|
    && (forall k :: 0 <= k < n ==> CoordinateEntry(deps[k]))
    && (forall k :: n <= k < |deps| ==> ProjectEntry(deps[k]))
  }

  /** Coordinate entries, then project entries. */
  ghost predicate EntriesInOrder(deps: seq<GradleDependency>) {
    exists n :: SplitAt(deps, n)
  }

  /**
   * Without a block there are no dependencies; otherwise every coordinate
   * entry comes before every project entry, and each is well formed.
   */
  lemma DependenciesShape(content: string, isKotlin: bool)
    ensures DependencyBlock(content).None? ==> Dependencies(content, isKotlin) == []
    ensures EntriesInOrder(Dependencies(content, isKotlin))
  {
    match DependencyBlock(content)
    case None =>
      EntriesShape([], [], content, isKotlin);
    case Some(body) =>
      FoundFits(Coordinate(isKotlin), body, 0);
      FoundFits(ProjectRef(isKotlin), body, 0);
      EntriesShape(Found(Coordinate(isKotlin), body, 0), Found(ProjectRef(isKotlin), body, 0), body, isKotlin);
  }

  lemma EntriesShape(cs: seq<Match>, ps: seq<Match>, body: string, isKotlin: bool)
    requires forall k :: 0 <= k < |cs| ==> Fits(Coordinate(isKotlin), body, cs[k].start, cs[k])
    requires forall k :: 0 <= k < |ps| ==> Fits(ProjectRef(isKotlin), body, ps[k].start, ps[k])
    ensures EntriesInOrder(CoordinateDependencies(cs) + ProjectDependencies(ps))
  {
    var first := CoordinateDependencies(cs);
    var second := ProjectDependencies(ps);
    CoordinateEntries(cs, body, isKotlin);
    ProjectEntries(ps, body, isKotlin);
    var deps := first + second;
    forall k | |first| <= k < |deps| ensures ProjectEntry(deps[k]) {
      assert deps[k] == second[k - |first|];
    }
    assert SplitAt(deps, |first|);
  }

  lemma CoordinateEntries(cs: seq<Match>, body: string, isKotlin: bool)
    requires forall k :: 0 <= k < |cs| ==> Fits(Coordinate(isKotlin), body, cs[k].start, cs[k])
    ensures forall k :: 0 <= k < |cs| ==> CoordinateEntry(CoordinateDependencies(cs)[k])
  {
    forall k | 0 <= k < |cs| ensures CoordinateEntry(CoordinateDependencies(cs)[k]) {
      CoordinateEntryOf(cs[k], body, isKotlin);
    }
  }

  lemma ProjectEntries(ps: seq<Match>, body: string, isKotlin: bool)
    requires forall k :: 0 <= k < |ps| ==> Fits(ProjectRef(isKotlin), body, ps[k].start, ps[k])
    ensures forall k :: 0 <= k < |ps| ==> ProjectEntry(ProjectDependencies(ps)[k])
  {
    forall k | 0 <= k < |ps| ensures ProjectEntry(ProjectDependencies(ps)[k]) {
      ProjectEntryOf(ps[k], body, isKotlin);
    }
  }

  lemma CoordinateEntryOf(m: Match, body: string, isKotlin: bool)
    requires Fits(Coordinate(isKotlin), body, m.start, m)
    ensures CoordinateEntry(CoordinateDependency(m))
  {
    assert GroupClass(Coordinate(isKotlin), 1) == NotQuoteOrColon;
    assert GroupClass(Coordinate(isKotlin), 2) == NotQuoteOrColon;
    assert !InClass(':', NotQuoteOrColon);
  }

  lemma ProjectEntryOf(m: Match, body: string, isKotlin: bool)
    requires Fits(ProjectRef(isKotlin), body, m.start, m)
    ensures ProjectEntry(ProjectDependency(m))
  {
  }

  // ---------------------------------------------------------------- repositories

  /** The well-known repositories, in the order they are tested. */
  const CommonRepos: seq<string> := ["mavenCentral", "mavenLocal", "google", "gradlePluginPortal"]

  /** The names among `names` that occur in `body`, in the order of `names`. */
  function PresentRepos(names: seq<string>, body: string): seq<string>
    decreases |names|
  {
    if |names| == 0 then []
    else
      var last := names[|names| - 1];
      PresentRepos(names[..|names| - 1], body) + (if Contains(body, last) then [last] else [])
  }

  /** The body of the first non-empty `repositories { ... }` block, up to the first `}`. */
  function RepositoryBlock(content: string): Option<string> {
    match Exec(Block("repositories"), content, 0)
    case None => None
    case Some(m) => Some(Group(m, 0))
  }

  function Repositories(content: string): seq<string> {
    match RepositoryBlock(content)
    case None => []
    case Some(body) => PresentRepos(CommonRepos, body) + Captures(Found(MavenUrl, body, 0), 0)
  }

  /** The dialect flag is accepted and ignored, as in the source. */
  method ExtractRepositories(content: string, isKotlin: bool) returns (repositories: seq<string>)
    ensures repositories == Repositories(content)
  {
    repositories := [];
    var repoMatch := Exec(Block("repositories"), content, 0);
    if repoMatch.None? {
      return;
    }
    var repoBlock := repoMatch.value.groups[0];
    var commonRepos := CommonRepos;
    for n := 0 to |commonRepos|
      invariant repositories == PresentRepos(commonRepos[..n], repoBlock)
    {
      assert commonRepos[..n + 1][..n] == commonRepos[..n];
      if Contains(repoBlock, commonRepos[n]) {
        repositories := repositories + [commonRepos[n]];
      }
    }
    assert commonRepos[..|commonRepos|] == commonRepos;
    var urls := ExecAll(MavenUrl, repoBlock);
    repositories := repositories + Captures(urls, 0);
  }

  /** A filtered list holds exactly the names that occur in the body. */
  lemma {:induction false} PresentReposMembers(names: seq<string>, body: string)
    ensures forall x :: x in PresentRepos(names, body) <==> x in names && Contains(body, x)
    decreases |names|
  {
    if |names| > 0 {
      var init := names[..|names| - 1];
      assert names == init + [names[|names| - 1]];
      PresentReposMembers(init, body);
    }
  }

  /** Without repeated names, a filtered list keeps the order of `names`. */
  lemma {:induction false} PresentReposOrdered(names: seq<string>, body: string)
    requires NoDup(names)
    ensures var r := PresentRepos(names, body);
      && (forall x :: x in r ==> x in names)
      && forall i, j :: 0 <= i < j < |r| ==> IndexOf(names, r[i]) < IndexOf(names, r[j])
    decreases |names|
  {
    if |names| > 0 {
      var init := names[..|names| - 1];
      var last := names[|names| - 1];
      assert names == init + [last];
      assert NoDup(init) by {
        forall i, j | 0 <= i < j < |init| ensures init[i] != init[j] {
          assert init[i] == names[i] && init[j] == names[j];
        }
      }
      PresentReposOrdered(init, body);
      OrderedSnoc(init, last, PresentRepos(init, body), Contains(body, last));
    }
  }

  /** Keeping or dropping a new last name preserves the order of the names kept so far. */
  lemma OrderedSnoc(init: seq<string>, last: string, kept: seq<string>, keep: bool)
    requires last !in init && forall x :: x in kept ==> x in init
    requires forall i, j :: 0 <= i < j < |kept| ==> IndexOf(init, kept[i]) < IndexOf(init, kept[j])
    ensures var names, r := init + [last], if keep then kept + [last] else kept;
      && (forall x :: x in r ==> x in names)
      && forall i, j :: 0 <= i < j < |r| ==> IndexOf(names, r[i]) < IndexOf(names, r[j])
  {
    var names := init + [last];
    assert names[..|init|] == init;
    forall x | x in init ensures IndexOf(names, x) == IndexOf(init, x) < |init| {
      IndexOfPrefix(names, |init|, x);
    }
    if keep {
      assert IndexOf(names, last) == |init|;
      var r := kept + [last];
      forall i, j | 0 <= i < j < |r| ensures IndexOf(names, r[i]) < IndexOf(names, r[j]) {
        assert r[i] == kept[i] && kept[i] in init;
        if j < |kept| {
          assert r[j] == kept[j] && kept[j] in init;
        }
      }
    }
  }

  /** A filtered list keeps the order of `names`, repeats nothing and holds exactly the names that occur in the body. */
  lemma PresentReposShape(names: seq<string>, body: string)
    requires NoDup(names)
    ensures var r := PresentRepos(names, body);
      && NoDup(r)
      && (forall x :: x in r <==> x in names && Contains(body, x))
      && (forall i, j :: 0 <= i < j < |r| ==> IndexOf(names, r[i]) < IndexOf(names, r[j]))
  {
    PresentReposMembers(names, body);
    PresentReposOrdered(names, body);
  }

  /**
   * Without a block there are no repositories. Otherwise the well-known
   * names come first, each at most once, in their fixed order, exactly when
   * the block text contains them, followed by one URL per `maven { url }`
   * match, not deduplicated.
   */
  lemma RepositoriesShape(content: string)
    ensures RepositoryBlock(content).None? ==> Repositories(content) == []
    ensures RepositoryBlock(content).Some? ==>
      var body := RepositoryBlock(content).value;
      var named := PresentRepos(CommonRepos, body);
      var urls := Found(MavenUrl, body, 0);
      && Repositories(content) == named + Captures(urls, 0)
      && NoDup(named)
      && (forall x :: x in named <==> x in CommonRepos && Contains(body, x))
      && (forall i, j :: 0 <= i < j < |named| ==> IndexOf(CommonRepos, named[i]) < IndexOf(CommonRepos, named[j]))
      && (forall u :: u in Captures(urls, 0) ==> u != [] && '"' !in u && '\'' !in u)
  {
    if RepositoryBlock(content).Some? {
      var body := RepositoryBlock(content).value;
      assert NoDup(CommonRepos);
      PresentReposShape(CommonRepos, body);
      UnquotedCaptures(MavenUrl, body);
    }
  }

  // ---------------------------------------------------------------- properties

  /** The patterns tried for a property; Groovy lists the same pattern twice. */
  function PropertyPatterns(name: string, isKotlin: bool): seq<Pattern> {
    if isKotlin then [Assignment(name), JavaVersionAssignment(name)]
    else [Assignment(name), Assignment(name)]
  }

  /** Group 1 of the first pattern that matches anywhere in the text. */
  function FirstCapture(patterns: seq<Pattern>, content: string): Option<string>
    decreases |patterns|
  {
    if |patterns| == 0 then None
    else match Exec(patterns[0], content, 0)
      case Some(m) => Some(Group(m, 0))
      case None => FirstCapture(patterns[1..], content)
  }

  function Property(content: string, name: string, isKotlin: bool): Option<string> {
    FirstCapture(PropertyPatterns(name, isKotlin), content)
  }

  method ExtractProperty(content: string, propertyName: string, isKotlin: bool) returns (value: Option<string>)
    ensures value == Property(content, propertyName, isKotlin)
  {
    var patterns := PropertyPatterns(propertyName, isKotlin);
    for n := 0 to |patterns|
      invariant FirstCapture(patterns[n..], content) == FirstCapture(patterns, content)
    {
      var match_ := Exec(patterns[n], content, 0);
      if match_.Some? {
        return Some(match_.value.groups[0]);
      }
      assert patterns[n..][1..] == patterns[n + 1..];
    }
    return None;
  }

  /** The value of the leftmost match of a pattern, if it matches anywhere. */
  function Leftmost(p: Pattern, content: string): Option<string> {
    match Exec(p, content, 0)
    case Some(m) => Some(Group(m, 0))
    case None => None
  }

  /**
   * A property is the quoted value of the first textual `name = "value"`;
   * in Kotlin, when there is none, the digits of the first
   * `name = JavaVersion.VERSION_<digits>`; otherwise absent.
   */
  lemma PropertyMeaning(content: string, name: string, isKotlin: bool)
    ensures !isKotlin ==> Property(content, name, isKotlin) == Leftmost(Assignment(name), content)
    ensures isKotlin ==> (Property(content, name, isKotlin) ==
      if Leftmost(Assignment(name), content).Some? then Leftmost(Assignment(name), content)
      else Leftmost(JavaVersionAssignment(name), content))
    ensures Leftmost(Assignment(name), content).None? <==>
      forall i :: 0 <= i <= |content| ==> MatchAt(Assignment(name), content, i).None?
    ensures Property(content, name, isKotlin).Some? ==> Property(content, name, isKotlin).value != []
  {
    var ps := PropertyPatterns(name, isKotlin);
    var second := if isKotlin then JavaVersionAssignment(name) else Assignment(name);
    assert ps[1..] == [second];
    assert FirstCapture([second], content) == Leftmost(second, content) by {
      assert [second][1..] == [];
    }
    assert FirstCapture(ps, content) ==
      if Leftmost(Assignment(name), content).Some? then Leftmost(Assignment(name), content)
      else FirstCapture(ps[1..], content);
    if Exec(Assignment(name), content, 0).Some? {
      var m := Exec(Assignment(name), content, 0).value;
      assert Fits(Assignment(name), content, m.start, m);
    } else if Exec(second, content, 0).Some? {
      var m := Exec(second, content, 0).value;
      assert Fits(second, content, m.start, m);
    }
  }

  // ---------------------------------------------------------------- build file

  /** The facts of one build file, its dialect chosen by the file name. */
  function BuildFacts(buildFilePath: string, content: string): GradleBuild {
    var isKotlin := IsKotlinFile(buildFilePath);
    GradleBuild(
      Plugins(content, isKotlin),
      Dependencies(content, isKotlin),
      Repositories(content),
      Property(content, "sourceCompatibility", isKotlin),
      Property(content, "targetCompatibility", isKotlin),
      Property(content, "group", isKotlin),
      Property(content, "version", isKotlin))
  }

  /** parseBuildGradle with the file already read: `content` is the text of `buildFilePath`. */
  method ParseBuildGradle(buildFilePath: string, content: string) returns (build: GradleBuild)
    ensures build == BuildFacts(buildFilePath, content)
  {
    var isKotlin := IsKotlinFile(buildFilePath);
    var plugins := ExtractPlugins(content, isKotlin);
    var dependencies := ExtractDependencies(content, isKotlin);
    var repositories := ExtractRepositories(content, isKotlin);
    var sourceCompatibility := ExtractProperty(content, "sourceCompatibility", isKotlin);
    var targetCompatibility := ExtractProperty(content, "targetCompatibility", isKotlin);
    var group := ExtractProperty(content, "group", isKotlin);
    var version := ExtractProperty(content, "version", isKotlin);
    build := GradleBuild(plugins, dependencies, repositories, sourceCompatibility, targetCompatibility, group, version);
  }
}
