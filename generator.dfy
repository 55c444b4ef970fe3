/**
 * Option normalisation of the project generator: defaults for absent or
 * empty options, the project's directory, root and name, its tag list and
 * its build-file extension.
 */
module Generator {
  import opened Wrappers
  import opened Text

  /**
   * The generator's options as given. Every optional field may be absent;
   * the enumerated ones (`projectType`, `buildTool`) are kept as text, since
   * the values reach the generator unchecked.
   */
  datatype Schema = Schema(
    name: string,
    directory: Option<string>,
    projectType: Option<string>,
    gradleVersion: Option<string>,
    javaVersion: Option<string>,
    buildTool: Option<string>,
    groupId: Option<string>,
    initWrapper: Option<bool>,
    tags: Option<string>)

  /** The normalised options: the given ones with their defaults applied, and the derived fields. */
  datatype NormalizedSchema = NormalizedSchema(
    name: string,
    directory: Option<string>,
    projectType: string,
    gradleVersion: string,
    javaVersion: string,
    buildTool: string,
    groupId: string,
    initWrapper: bool,
    tags: Option<string>,
    projectName: string,
    projectRoot: string,
    projectDirectory: string,
    parsedTags: seq<string>,
    buildFileExt: string)

  /** JavaScript truthiness of an optional string: present and not empty. */
  predicate Truthy(o: Option<string>) {
    o.Some? && o.value != ""
  }

  /** `o || d`. */
  function Or(o: Option<string>, d: string): string {
    if Truthy(o) then o.value else d
  }

  /** Every piece trimmed (`.map((s) => s.trim())`). */
  function TrimAll(parts: seq<string>): (r: seq<string>)
    ensures |r| == |parts| && forall i :: 0 <= i < |parts| ==> r[i] == Trim(parts[i])
  {
    if |parts| == 0 then [] else [Trim(parts[0])] + TrimAll(parts[1..])
  }

  /**
   * normalizeOptions: the given options with their defaults applied (none of
   * the defaulted options is empty), the project's root equal to its
   * directory, a `/`-free project name of the directory's length, and the
   * Kotlin extension exactly for the Kotlin DSL.
   */
  function NormalizeOptions(options: Schema): (r: NormalizedSchema)
    ensures r.name == options.name && r.directory == options.directory && r.tags == options.tags
    ensures r.projectType != "" && r.gradleVersion != "" && r.javaVersion != "" && r.buildTool != "" && r.groupId != ""
    ensures r.projectRoot == r.projectDirectory
    ensures |r.projectName| == |r.projectDirectory| && '/' !in r.projectName
    ensures r.buildFileExt == "kts" <==> r.buildTool == "gradle-kotlin-dsl"
  {
    var projectDirectory := if Truthy(options.directory) then options.directory.value + "/" + options.name else options.name;
    var projectName := ReplaceAll(projectDirectory, '/', '-');
    var projectRoot := projectDirectory;
    var parsedTags := if Truthy(options.tags) then TrimAll(Split(options.tags.value, ',')) else [];
    var buildFileExt := if options.buildTool == Some("gradle-kotlin-dsl") then "kts" else "";
    NormalizedSchema(
      options.name, options.directory,
      Or(options.projectType, "application"),
      Or(options.gradleVersion, "8.5"),
      Or(options.javaVersion, "17"),
      Or(options.buildTool, "gradle"),
      Or(options.groupId, "com.example"),
      options.initWrapper != Some(false),
      options.tags,
      projectName, projectRoot, projectDirectory, parsedTags, buildFileExt)
  }

  /**
   * The project directory is the given directory and the name joined by
   * `/` when a directory is given, and the name alone otherwise; the root
   * is the same path, and the name is that path with every `/` turned
   * into `-`, the same length and free of `/`.
   */
  lemma ProjectPaths(options: Schema)
    ensures var r := NormalizeOptions(options);
      && (Truthy(options.directory) ==>
            && StartsWith(r.projectDirectory, options.directory.value + "/")
            && r.projectDirectory[|options.directory.value| + 1..] == options.name)
      && (!Truthy(options.directory) ==> r.projectDirectory == options.name)
      && r.projectRoot == r.projectDirectory
      && |r.projectName| == |r.projectDirectory|
      && '/' !in r.projectName
      && forall i :: 0 <= i < |r.projectName| ==>
           r.projectName[i] == if r.projectDirectory[i] == '/' then '-' else r.projectDirectory[i]
  {
    var r := NormalizeOptions(options);
    if Truthy(options.directory) {
      var d := options.directory.value + "/";
      assert r.projectDirectory[..|d|] == d;
    }
  }

  /**
   * Without tags, or with empty tags, there are none; otherwise there is one
   * more tag than there are commas, each the trimmed piece between commas,
   * free of commas and surrounding white space.
   */
  lemma ParsedTags(options: Schema)
    ensures var r := NormalizeOptions(options);
      && (!Truthy(options.tags) ==> r.parsedTags == [])
      && (Truthy(options.tags) ==>
            var pieces := Split(options.tags.value, ',');
            && |r.parsedTags| == Count(options.tags.value, ',') + 1
            && Join(pieces, ',') == options.tags.value
            && forall i :: 0 <= i < |r.parsedTags| ==>
                 r.parsedTags[i] == Trim(pieces[i]) && ',' !in r.parsedTags[i] && Trim(r.parsedTags[i]) == r.parsedTags[i])
  {
    var r := NormalizeOptions(options);
    if Truthy(options.tags) {
      var pieces := Split(options.tags.value, ',');
      forall i | 0 <= i < |r.parsedTags|
        ensures ',' !in r.parsedTags[i] && Trim(r.parsedTags[i]) == r.parsedTags[i]
      {
        TrimIdempotent(pieces[i]);
        TrimInside(pieces[i]);
      }
    }
  }

  /** What trimming keeps is a piece of the original, so a character absent from the original is absent from it. */
  lemma TrimInside(s: string)
    ensures forall c :: c in Trim(s) ==> c in s
  {
    var i := |s| - |TrimStart(s)|;
    TrimEndAt(s, TrimStart(s), i);
    var r := Trim(s);
    assert s[i..i + |r|] == r;
    forall c | c in r ensures c in s {
      var k :| 0 <= k < |r| && r[k] == c;
      assert s[i..i + |r|][k] == s[i + k];
    }
  }

  /** The Kotlin extension is chosen exactly when the given build tool is the Kotlin DSL; the default tool never is. */
  lemma BuildFileExt(options: Schema)
    ensures var r := NormalizeOptions(options);
      && (r.buildFileExt == "kts" <==> options.buildTool == Some("gradle-kotlin-dsl"))
      && (r.buildFileExt != "kts" ==> r.buildFileExt == "")
      && (r.buildFileExt == "kts" <==> r.buildTool == "gradle-kotlin-dsl")
  {
  }

  /**
   * Absent or empty options take their defaults and given ones are kept, so
   * no normalised option is empty; the wrapper is initialised unless it
   * was explicitly declined.
   */
  lemma Defaults(options: Schema)
    ensures var r := NormalizeOptions(options);
      && (Truthy(options.projectType) ==> r.projectType == options.projectType.value)
      && (!Truthy(options.projectType) ==> r.projectType == "application")
      && (Truthy(options.gradleVersion) ==> r.gradleVersion == options.gradleVersion.value)
      && (!Truthy(options.gradleVersion) ==> r.gradleVersion == "8.5")
      && (Truthy(options.javaVersion) ==> r.javaVersion == options.javaVersion.value)
      && (!Truthy(options.javaVersion) ==> r.javaVersion == "17")
      && (Truthy(options.buildTool) ==> r.buildTool == options.buildTool.value)
      && (!Truthy(options.buildTool) ==> r.buildTool == "gradle")
      && (Truthy(options.groupId) ==> r.groupId == options.groupId.value)
      && (!Truthy(options.groupId) ==> r.groupId == "com.example")
      && r.projectType != "" && r.gradleVersion != "" && r.javaVersion != "" && r.buildTool != "" && r.groupId != ""
      && (r.initWrapper <==> options.initWrapper != Some(false))
      && r.name == options.name && r.directory == options.directory && r.tags == options.tags
  {
  }

  /** The given options that the normalised record carries, with their defaults now explicit. */
  function Given(r: NormalizedSchema): Schema {
    Schema(r.name, r.directory, Some(r.projectType), Some(r.gradleVersion), Some(r.javaVersion),
           Some(r.buildTool), Some(r.groupId), Some(r.initWrapper), r.tags)
  }

  /** Normalising is idempotent: normalising the options a normalised record carries gives the same record. */
  lemma NormalizeIdempotent(options: Schema)
    ensures NormalizeOptions(Given(NormalizeOptions(options))) == NormalizeOptions(options)
  {
    Defaults(options);
  }
}
