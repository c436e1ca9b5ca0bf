/** Project discovery and package-reference resolution (`GetValidProjects`,
    `ParseSolution`, `GetFilteredProjects`, `GetProjectReferences*` and
    `GetPackages` in src/Methods.cs). File contents, directory enumeration
    and XML/JSON parsing are oracles; what is modelled is which source is
    consulted, in what order, and how a reference string is built and split. */
module Projects {
  import opened Wrappers
  import opened Text
  import opened Seqs
  import opened Model
  import Packages

  /** A path ending in one of the `GetProjectExtensions()` extensions. */
  predicate IsProjectFile(path: string) {
    EndsWith(path, ".csproj") || EndsWith(path, ".fsproj")
  }

  // ---------------------------------------------------------------------------
  // Solution files

  /** One line of a solution file: a line starting with "Project" that has a
      second comma-separated segment contributes that segment, passed through
      the path-separator fixer and stripped of double quotes. */
  function SolutionEntry(line: string, fixPath: string -> string): Option<string> {
    if !StartsWith(line, "Project") then None
    else
      var segments := Split(line, ',');
      if |segments| < 2 then None
      else Some(Trim(fixPath(segments[1]), {'"'}))
  }

  /** `ParseSolution` over the lines of an existing solution file. */
  function ParseSolution(lines: seq<string>, fixPath: string -> string): (r: seq<string>)
    ensures |r| <= |lines|
    ensures forall i :: 0 <= i < |r| ==> exists j :: 0 <= j < |lines| && SolutionEntry(lines[j], fixPath) == Some(r[i])
    ensures forall j :: 0 <= j < |lines| && SolutionEntry(lines[j], fixPath).Some? ==> SolutionEntry(lines[j], fixPath).value in r
    decreases |lines|
  {
    if |lines| == 0 then []
    else
      var rest := ParseSolution(lines[1..], fixPath);
      assert forall j :: 1 <= j < |lines| ==> lines[j] == lines[1..][j - 1];
      assert forall i :: 0 <= i < |rest| ==> exists j :: 0 <= j < |lines| && SolutionEntry(lines[j], fixPath) == Some(rest[i]) by {
        forall i | 0 <= i < |rest|
          ensures exists j :: 0 <= j < |lines| && SolutionEntry(lines[j], fixPath) == Some(rest[i])
        {
          var j :| 0 <= j < |lines[1..]| && SolutionEntry(lines[1..][j], fixPath) == Some(rest[i]);
          assert lines[j + 1] == lines[1..][j];
        }
      }
      match SolutionEntry(lines[0], fixPath)
      case None => rest
      case Some(p) => [p] + rest
  }

  /** Lines are read one at a time: the entries of a file are the entries of
      its first part followed by those of the rest. */
  lemma {:induction false} ParseSolutionAppend(a: seq<string>, b: seq<string>, fixPath: string -> string)
    ensures ParseSolution(a + b, fixPath) == ParseSolution(a, fixPath) + ParseSolution(b, fixPath)
    decreases |a|
  {
    if |a| == 0 {
      assert a + b == b;
    } else {
      assert (a + b)[0] == a[0];
      assert (a + b)[1..] == a[1..] + b;
      ParseSolutionAppend(a[1..], b, fixPath);
    }
  }

  /** The path of a project line is its second comma-separated segment, the
      one after the display name. */
  lemma SolutionEntryTakesPathSegment(kind: string, name: string, path: string, guid: string, fixPath: string -> string)
    requires ',' !in kind && ',' !in name && ',' !in path
    ensures SolutionEntry("Project" + kind + name + "," + path + "," + guid, fixPath) == Some(Trim(fixPath(path), {'"'}))
  {
    var head := "Project" + kind + name;
    var line := head + [','] + (path + [','] + guid);
    assert line == "Project" + kind + name + "," + path + "," + guid;
    assert line[..7] == "Project";
    assert ',' !in "Project";
    assert ',' !in head;
    SplitConcat(head, path + [','] + guid, ',');
    SplitConcat(path, guid, ',');
  }

  /** A line that does not start with "Project" contributes nothing. */
  lemma OtherLinesIgnored(line: string, fixPath: string -> string)
    requires !StartsWith(line, "Project")
    ensures ParseSolution([line], fixPath) == []
  {
  }

  // ---------------------------------------------------------------------------
  // Project filter

  /** A project path is skipped when it contains a filter entry, ignoring case. */
  predicate IsSkippedProject(projectFilter: seq<string>, project: string) {
    exists i | 0 <= i < |projectFilter| :: ContainsIgnoreCase(project, projectFilter[i])
  }

  /** `GetFilteredProjects`. */
  function FilterProjects(projectFilter: seq<string>, projects: seq<string>): (r: seq<string>)
    ensures |projectFilter| == 0 ==> r == projects
    ensures forall i :: 0 <= i < |r| ==> r[i] in projects && !IsSkippedProject(projectFilter, r[i])
    ensures forall i :: 0 <= i < |projects| && !IsSkippedProject(projectFilter, projects[i]) ==> projects[i] in r
  {
    if |projectFilter| == 0 then projects
    else Filter((p: string) => !IsSkippedProject(projectFilter, p), projects)
  }

  /** Filtering keeps the relative order of the kept projects: filtering a
      concatenation is the concatenation of the filtered parts. */
  lemma FilterProjectsAppend(projectFilter: seq<string>, a: seq<string>, b: seq<string>)
    ensures FilterProjects(projectFilter, a + b) == FilterProjects(projectFilter, a) + FilterProjects(projectFilter, b)
  {
    if |projectFilter| > 0 {
      FilterAppend((p: string) => !IsSkippedProject(projectFilter, p), a, b);
    }
  }

  // ---------------------------------------------------------------------------
  // Project discovery

  /** What `GetValidProjects` reads from the file system. `solutionLines` is
      None when the solution file does not exist; `locate` is a solution
      entry resolved against the solution's directory, with its full name
      when that file exists; `jsonList` reads a JSON list of paths;
      `enumerate` lists the *.csproj and *.fsproj files below a directory
      (throwing when the directory does not exist);
      `fixPath` is the path-separator fixer. */
  datatype Discovery = Discovery(
    solutionLines: string -> Option<seq<string>>,
    locate: string -> Option<string>,
    jsonList: string -> Reply<seq<string>>,
    enumerate: string -> Reply<seq<string>>,
    fixPath: string -> string)

  /** The existing project files of a solution. */
  function SolutionProjects(entries: seq<string>, locate: string -> Option<string>): (r: seq<string>)
    ensures forall i :: 0 <= i < |r| ==> IsProjectFile(r[i])
    ensures forall i :: 0 <= i < |r| ==> exists j :: 0 <= j < |entries| && locate(entries[j]) == Some(r[i])
    decreases |entries|
  {
    if |entries| == 0 then []
    else
      var rest := SolutionProjects(entries[1..], locate);
      assert forall i :: 0 <= i < |rest| ==> exists j :: 0 <= j < |entries| && locate(entries[j]) == Some(rest[i]) by {
        forall i | 0 <= i < |rest|
          ensures exists j :: 0 <= j < |entries| && locate(entries[j]) == Some(rest[i])
        {
          var j :| 0 <= j < |entries[1..]| && locate(entries[1..][j]) == Some(rest[i]);
          assert entries[j + 1] == entries[1..][j];
        }
      }
      match locate(entries[0])
      case Some(full) => if IsProjectFile(full) then [full] + rest else rest
      case None => rest
  }

  /** `GetValidProjects`: dispatch on the extension of the input path, then
      the project filter. */
  function GetValidProjects(path: string, projectFilter: seq<string>, d: Discovery): (r: Result<seq<string>, Error>)
    ensures EndsWith(path, ".sln") && d.solutionLines(path).None? ==> r == Err(ProjectNotFound)
    ensures EndsWith(path, ".sln") && r.Ok? ==> forall i :: 0 <= i < |r.value| ==> IsProjectFile(r.value[i])
    ensures IsProjectFile(path) ==> r == Ok(FilterProjects(projectFilter, [path]))
    ensures !EndsWith(path, ".sln") && !IsProjectFile(path) && !EndsWith(path, ".json") && d.enumerate(path).Threw?
            ==> r == Err(IoFault)
    ensures r.Ok? ==> forall i :: 0 <= i < |r.value| ==> !IsSkippedProject(projectFilter, r.value[i])
  {
    ProjectFileIsNotSolution(path);
    if EndsWith(path, ".sln") then
      match d.solutionLines(path)
      case None => Err(ProjectNotFound)
      case Some(lines) => Ok(FilterProjects(projectFilter, SolutionProjects(ParseSolution(lines, d.fixPath), d.locate)))
    else if IsProjectFile(path) then
      Ok(FilterProjects(projectFilter, [path]))
    else if EndsWith(path, ".json") then
      match d.jsonList(path)
      case Threw => Err(IoFault)
      case Returned(list) => Ok(FilterProjects(projectFilter, seq(|list|, i requires 0 <= i < |list| => d.fixPath(list[i]))))
    else
      match d.enumerate(path)
      case Threw => Err(IoFault)
      case Returned(found) => Ok(FilterProjects(projectFilter, found))
  }

  /** A project file given directly is its own only project, unless the
      project filter names it. */
  lemma ProjectFileIsItsOwnProject(path: string, projectFilter: seq<string>, d: Discovery)
    requires IsProjectFile(path) && !IsSkippedProject(projectFilter, path)
    ensures GetValidProjects(path, projectFilter, d) == Ok([path])
  {
    var r := FilterProjects(projectFilter, [path]);
    assert [path][0] == path;
    assert path in r;
    assert |r| == 1 && r[0] == path;
    assert r == [path];
  }

  /** The extension tests are exclusive: a project file is not a solution. */
  lemma ProjectFileIsNotSolution(path: string)
    ensures IsProjectFile(path) ==> !EndsWith(path, ".sln") && !EndsWith(path, ".json")
  {
    if IsProjectFile(path) {
      if EndsWith(path, ".csproj") {
        assert path[|path| - 1] == ".csproj"[6];
      } else {
        assert path[|path| - 1] == ".fsproj"[6];
      }
      assert ".sln"[3] == 'n' && ".json"[4] == 'n';
      assert path[|path| - 1] == 'j';
    }
  }

  // ---------------------------------------------------------------------------
  // References

  /** A PackageReference element of a project file: its `Include` and
      `Version` attributes and the (local name, value) of its child elements. */
  datatype ReferenceElement = ReferenceElement(
    includeAttribute: Option<string>,
    versionAttribute: Option<string>,
    children: seq<(string, string)>)

  /** The value of the first child element named "Version", or "". */
  function FirstVersionChild(children: seq<(string, string)>): (r: string)
    ensures (forall i :: 0 <= i < |children| ==> children[i].0 != "Version") ==> r == ""
    ensures forall k :: (0 <= k < |children| && children[k].0 == "Version"
                         && (forall i :: 0 <= i < k ==> children[i].0 != "Version")) ==> r == children[k].1
    decreases |children|
  {
    if |children| == 0 then ""
    else if children[0].0 == "Version" then children[0].1
    else
      var r := FirstVersionChild(children[1..]);
      assert forall i :: 1 <= i < |children| ==> children[i] == children[1..][i - 1];
      r
  }

  /** `GetProjectReferenceFromElement`: "package,version", the version from
      the attribute when present, else from the first Version child. */
  function ElementReference(e: ReferenceElement): (r: string)
    ensures e.versionAttribute.Some? ==> r == e.includeAttribute.GetOr("") + "," + e.versionAttribute.value
    ensures e.versionAttribute.None? ==> r == e.includeAttribute.GetOr("") + "," + FirstVersionChild(e.children)
  {
    var version := if e.versionAttribute.Some? then e.versionAttribute.value else FirstVersionChild(e.children);
    e.includeAttribute.GetOr("") + "," + version
  }

  /** A `package` element of packages.config: "id,version", missing
      attributes read as "". */
  function PackagesConfigReference(id: Option<string>, version: Option<string>): (r: string)
    ensures r == id.GetOr("") + "," + version.GetOr("")
  {
    id.GetOr("") + "," + version.GetOr("")
  }

  /** A dependency key of project.assets.json ("name/version") as a
      reference: keys that do not split into exactly two parts on '/' are
      skipped; the others are re-joined with ','. */
  function AssetsKeyReference(key: string): (r: Option<string>)
    ensures r.Some? <==> multiset(key)['/'] == 1
    ensures r.Some? ==> exists i :: 0 <= i < |key| && key[i] == '/' && r.value == key[..i] + "," + key[i + 1..]
  {
    var parts := Split(key, '/');
    SplitCount(key, '/');
    if |parts| != 2 then None
    else
      JoinSplit(key, '/');
      assert key == parts[0] + "/" + parts[1];
      assert key[|parts[0]|] == '/';
      assert key[..|parts[0]|] == parts[0] && key[|parts[0]| + 1..] == parts[1];
      assert Join(parts, ",") == parts[0] + "," + Join(parts[1..], ",");
      assert Join(parts, ",") == key[..|parts[0]|] + "," + key[|parts[0]| + 1..];
      Some(Join(parts, ","))
  }

  /** A "name/version" key becomes the reference "name,version". */
  lemma AssetsKeyRoundTrip(name: string, version: string)
    requires '/' !in name && '/' !in version
    ensures AssetsKeyReference(name + "/" + version) == Some(name + "," + version)
  {
    assert name + "/" + version == name + ['/'] + version;
    SplitConcat(name, version, '/');
    SplitNoSeparator(version, '/');
    assert Split(name + "/" + version, '/') == [name, version];
    assert Join([name, version], ",") == name + "," + Join([version], ",");
  }

  /** `GetProjectReferencesFromAssetsFile` over the dependency keys of each
      target, in document order. */
  function AssetsReferences(targets: seq<seq<string>>): (r: seq<string>)
    ensures forall i :: 0 <= i < |r| ==> ',' in r[i]
    decreases |targets|
  {
    if |targets| == 0 then []
    else TargetReferences(targets[0]) + AssetsReferences(targets[1..])
  }

  function TargetReferences(keys: seq<string>): (r: seq<string>)
    ensures |r| <= |keys|
    ensures forall i :: 0 <= i < |r| ==> ',' in r[i]
    decreases |keys|
  {
    if |keys| == 0 then []
    else
      var rest := TargetReferences(keys[1..]);
      match AssetsKeyReference(keys[0])
      case None => rest
      case Some(reference) =>
        var i :| 0 <= i < |keys[0]| && keys[0][i] == '/' && reference == keys[0][..i] + "," + keys[0][i + 1..];
        assert reference[i] == ',';
        [reference] + rest
  }

  /** The three reference sources of a project. `assets` is None when the
      assets file does not exist; the project file and packages.config reads
      may throw (a missing packages.config reads as no references). */
  datatype ReferenceSources = ReferenceSources(
    assets: Option<Reply<seq<string>>>,
    projectFile: Reply<seq<string>>,
    packagesConfig: Reply<seq<string>>)

  /** The source priority of `GetProjectReferences`: the assets file when
      enabled and present, else the project file, else packages.config; a
      source is read only when every earlier one gave nothing. */
  function SelectReferences(useAssets: bool, src: ReferenceSources): (r: Result<seq<string>, Error>)
    ensures useAssets && src.assets.Some? && src.assets.value.Returned? && |src.assets.value.value| > 0
            ==> r == Ok(src.assets.value.value)
    ensures useAssets && src.assets == Some(Threw) ==> r == Err(IoFault)
    ensures r.Ok? && |r.value| == 0 ==> src.projectFile == Returned([]) && src.packagesConfig == Returned([])
    ensures (!useAssets || src.assets.None? || src.assets == Some(Returned([])))
            ==> (match src.projectFile
                 case Threw => r == Err(IoFault)
                 case Returned(refs) => |refs| > 0 ==> r == Ok(refs))
  {
    var fromAssets :- if useAssets && src.assets.Some? then
        (match src.assets.value case Threw => Err(IoFault) case Returned(refs) => Ok(refs))
      else Ok([]);
    if |fromAssets| > 0 then Ok(fromAssets)
    else
      var fromProject :- (match src.projectFile case Threw => Err(IoFault) case Returned(refs) => Ok(refs));
      if |fromProject| > 0 then Ok(fromProject)
      else match src.packagesConfig
        case Threw => Err(IoFault)
        case Returned(refs) => Ok(refs)
  }

  /** Once the assets file yields references, neither the project file nor
      packages.config is read. */
  lemma AssetsShadowLaterSources(src: ReferenceSources, projectFile: Reply<seq<string>>, packagesConfig: Reply<seq<string>>)
    requires src.assets.Some? && src.assets.value.Returned? && |src.assets.value.value| > 0
    ensures SelectReferences(true, src.(projectFile := projectFile, packagesConfig := packagesConfig))
         == SelectReferences(true, src)
  {
  }

  /** `GetProjectReferences`: a blank path is an error; a path that is not a
      project file is replaced by the first project `GetValidProjects` finds
      there, and it is an error when there is none. */
  function GetProjectReferences(
    path: string, useAssets: bool,
    firstValidProject: string -> Result<Option<string>, Error>,
    sources: string -> ReferenceSources): (r: Result<seq<string>, Error>)
    ensures IsBlank(path) ==> r == Err(MissingProjectPath)
    ensures !IsBlank(path) && IsProjectFile(path) ==> r == SelectReferences(useAssets, sources(path))
    ensures !IsBlank(path) && !IsProjectFile(path) && firstValidProject(path) == Ok(None) ==> r == Err(ProjectNotFound)
  {
    if IsBlank(path) then Err(MissingProjectPath)
    else
      var project :- if IsProjectFile(path) then Ok(Some(path)) else firstValidProject(path);
      if project.None? then Err(ProjectNotFound)
      else SelectReferences(useAssets, sources(project.value))
  }

  // ---------------------------------------------------------------------------
  // Reference strings and GetPackages

  /** The selector of `GetPackages` AS WRITTEN: split on every ',' and take
      pieces 0 and 1 (an index error without a comma). */
  function ParseReferenceAsWritten(reference: string): (r: Result<Packages.PackageRef, Error>)
    ensures r.Err? <==> ',' !in reference
    ensures r.Ok? ==> ',' !in r.value.name && ',' !in r.value.version
  {
    var parts := Split(reference, ',');
    SplitCount(reference, ',');
    if |parts| < 2 then Err(ReferenceWithoutVersion(reference))
    else Ok(Packages.PackageRef(parts[0], parts[1]))
  }

  /** The corrected selector: the name is the text before the first ',' and
      the version spec is everything after it. */
  function ParseReference(reference: string): (r: Result<Packages.PackageRef, Error>)
    ensures r.Err? <==> ',' !in reference
    ensures r.Ok? ==> r.value.name + "," + r.value.version == reference && ',' !in r.value.name
  {
    match IndexOf(reference, ',')
    case None => Err(ReferenceWithoutVersion(reference))
    case Some(i) =>
      assert reference == reference[..i] + "," + reference[i + 1..];
      Ok(Packages.PackageRef(reference[..i], reference[i + 1..]))
  }

  /** Every reference built as "name,version" from a comma-free name is read
      back as that name and version, whatever the version spec holds. */
  lemma ParseReferenceRoundTrip(name: string, version: string)
    requires ',' !in name
    ensures ParseReference(name + "," + version) == Ok(Packages.PackageRef(name, version))
  {
    var s := name + "," + version;
    assert s[|name|] == ',';
    var r := ParseReference(s);
    var n := r.value.name;
    assert s[|n|] == ',';
    assert |n| == |name|;
    assert n == s[..|n|] == name;
    assert r.value.version == s[|name| + 1..] == version;
  }

  /** The two selectors agree on references with exactly one comma. */
  lemma SelectorsAgreeOnPlainVersions(name: string, version: string)
    requires ',' !in name && ',' !in version
    ensures ParseReferenceAsWritten(name + "," + version) == ParseReference(name + "," + version)
  {
    assert name + "," + version == name + [','] + version;
    SplitConcat(name, version, ',');
    SplitNoSeparator(version, ',');
    ParseReferenceRoundTrip(name, version);
  }

  /** A version range written with a comma loses its upper bound in the
      selector as written, but not in the corrected one. */
  lemma RangeUpperBoundLost(name: string, lo: string, hi: string)
    requires ',' !in name && ',' !in lo && ',' !in hi
    ensures ParseReferenceAsWritten(name + "," + lo + "," + hi) == Ok(Packages.PackageRef(name, lo))
    ensures ParseReference(name + "," + lo + "," + hi) == Ok(Packages.PackageRef(name, lo + "," + hi))
  {
    var s := name + "," + lo + "," + hi;
    assert s == name + [','] + (lo + [','] + hi);
    SplitConcat(name, lo + [','] + hi, ',');
    SplitConcat(lo, hi, ',');
    assert name + "," + (lo + "," + hi) == s;
    ParseReferenceRoundTrip(name, lo + "," + hi);
  }

  /** A spec holding only a lower bound yields that bound alone. */
  lemma LowerBoundTokens()
    ensures Packages.VersionTokens("[4.1.0") == ["4.1.0"]
  {
    var spec := "[4.1.0";
    assert SkipStart(spec, Packages.VersionBrackets, 1) == 1;
    assert SkipStart(spec, Packages.VersionBrackets, 0) == 1;
    assert SkipEnd(spec, Packages.VersionBrackets, 1, 6) == 6;
    assert Trim(spec, Packages.VersionBrackets) == spec[1..6] == "4.1.0";
    SplitNoSeparator("4.1.0", ',');
  }

  /** The closed range of the test suite, "[4.1.0,4.3.0]": as written only
      4.1.0 is ever queried; corrected, both end points are. */
  lemma ClosedRangeReference()
    ensures Packages.VersionTokens(ParseReferenceAsWritten("System.Linq,[4.1.0,4.3.0]").value.version) == ["4.1.0"]
    ensures Packages.VersionTokens(ParseReference("System.Linq,[4.1.0,4.3.0]").value.version) == ["4.1.0", "4.3.0"]
  {
    var name, lo, hi := "System.Linq", "[4.1.0", "4.3.0]";
    assert name + "," + lo + "," + hi == "System.Linq,[4.1.0,4.3.0]";
    assert lo + "," + hi == "[4.1.0,4.3.0]";
    RangeUpperBoundLost(name, lo, hi);
    LowerBoundTokens();
    Packages.ClosedRangeTokens();
  }

  /** Parses every reference of a project, stopping at the first failure. */
  function ParseReferences(references: seq<string>): (r: Result<seq<Packages.PackageRef>, Error>)
    ensures r.Ok? <==> forall i :: 0 <= i < |references| ==> ',' in references[i]
    ensures r.Ok? ==> |r.value| == |references|
    ensures r.Ok? ==> forall i :: 0 <= i < |references| ==> r.value[i].name + "," + r.value[i].version == references[i]
    decreases |references|
  {
    if |references| == 0 then Ok([])
    else
      var head := ParseReference(references[0]);
      var tail := ParseReferences(references[1..]);
      assert forall i :: 1 <= i < |references| ==> references[i] == references[1..][i - 1];
      if head.Err? then Err(head.error)
      else if tail.Err? then
        assert exists i :: 0 <= i < |references[1..]| && ',' !in references[1..][i];
        Err(tail.error)
      else Ok([head.value] + tail.value)
  }

  /** Per-project results, in the order projects were first assigned. */
  type ProjectTable = seq<(string, Packages.PackageList)>

  predicate HasProject(table: ProjectTable, project: string) {
    exists i | 0 <= i < |table| :: table[i].0 == project
  }

  ghost predicate DistinctProjects(table: ProjectTable) {
    forall i, j :: 0 <= i < j < |table| ==> table[i].0 != table[j].0
  }

  /** `licenses[projectFile] = list`: replaces the entry of that project in
      place, or appends one. */
  function Assign(table: ProjectTable, project: string, list: Packages.PackageList): (r: ProjectTable)
    ensures DistinctProjects(table) ==> DistinctProjects(r)
    ensures (project, list) in r
    ensures forall i :: 0 <= i < |table| && table[i].0 != project ==> table[i] in r
    ensures forall i :: 0 <= i < |r| ==> r[i] == (project, list) || r[i] in table
    ensures HasProject(table, project) ==> |r| == |table|
    decreases |table|
  {
    if |table| == 0 then [(project, list)]
    else if table[0].0 == project then [(project, list)] + table[1..]
    else
      var rest := Assign(table[1..], project, list);
      assert forall i :: 1 <= i < |table| ==> table[i] == table[1..][i - 1];
      assert HasProject(table, project) ==> HasProject(table[1..], project) by {
        if HasProject(table, project) {
          var i :| 0 <= i < |table| && table[i].0 == project;
          assert table[1..][i - 1].0 == project;
        }
      }
      [table[0]] + rest
  }

  /** The projects of a table after an assignment: the assigned one, every
      earlier one, and nothing else. */
  lemma AssignProjects(table: ProjectTable, project: string, list: Packages.PackageList)
    ensures HasProject(Assign(table, project, list), project)
    ensures forall i :: 0 <= i < |table| ==> HasProject(Assign(table, project, list), table[i].0)
    ensures var next := Assign(table, project, list);
            forall i :: 0 <= i < |next| ==> (next[i].0 == project || HasProject(table, next[i].0))
  {
    var next := Assign(table, project, list);
    var k :| 0 <= k < |next| && next[k] == (project, list);
    forall i | 0 <= i < |table|
      ensures HasProject(next, table[i].0)
    {
      if table[i].0 != project {
        var k :| 0 <= k < |next| && next[k] == table[i];
      }
    }
    forall i | 0 <= i < |next|
      ensures next[i].0 == project || HasProject(table, next[i].0)
    {
      if next[i] != (project, list) {
        var k :| 0 <= k < |table| && table[k] == next[i];
      }
    }
  }

  /** `GetPackages`: for each project, its references, then their lookup
      (with the caches shared across projects). */
  function GetPackages(
    env: Packages.Env, caches: Packages.Caches, projects: seq<string>,
    referencesOf: string -> Result<seq<string>, Error>, fuel: nat): (r: Result<(ProjectTable, Packages.Caches), Error>)
    ensures r.Ok? ==> DistinctProjects(r.value.0)
    ensures r.Ok? ==> forall i :: 0 <= i < |projects| ==> HasProject(r.value.0, projects[i])
    ensures r.Ok? ==> forall i :: 0 <= i < |r.value.0| ==> r.value.0[i].0 in projects && Packages.DistinctKeys(r.value.0[i].1)
    ensures r.Ok? ==> Packages.Grows(caches, r.value.1)
    decreases |projects|
  {
    GetPackagesFrom(env, [], caches, projects, referencesOf, fuel)
  }

  /** One iteration of the loop of `GetPackages`: the references of one
      project, their lookup, and the assignment of the result. */
  function ProjectStep(
    env: Packages.Env, table: ProjectTable, caches: Packages.Caches, project: string,
    referencesOf: string -> Result<seq<string>, Error>, fuel: nat): (r: Result<(ProjectTable, Packages.Caches), Error>)
    requires DistinctProjects(table)
    requires forall i :: 0 <= i < |table| ==> Packages.DistinctKeys(table[i].1)
    ensures r.Ok? ==> DistinctProjects(r.value.0)
    ensures r.Ok? ==> HasProject(r.value.0, project)
    ensures r.Ok? ==> forall i :: 0 <= i < |table| ==> HasProject(r.value.0, table[i].0)
    ensures r.Ok? ==> forall i :: 0 <= i < |r.value.0| ==> (r.value.0[i].0 == project || HasProject(table, r.value.0[i].0))
    ensures r.Ok? ==> forall i :: 0 <= i < |r.value.0| ==> Packages.DistinctKeys(r.value.0[i].1)
    ensures r.Ok? ==> Packages.Grows(caches, r.value.1)
  {
    var references :- referencesOf(project);
    var refs :- ParseReferences(references);
    var st := Packages.GetNugetInformation(env, caches, refs, fuel);
    if st.None? then Err(OutOfFuel)
    else
      AssignProjects(table, project, st.value.licenses);
      Ok((Assign(table, project, st.value.licenses), st.value.caches))
  }

  function GetPackagesFrom(
    env: Packages.Env, table: ProjectTable, caches: Packages.Caches, projects: seq<string>,
    referencesOf: string -> Result<seq<string>, Error>, fuel: nat): (r: Result<(ProjectTable, Packages.Caches), Error>)
    requires DistinctProjects(table)
    requires forall i :: 0 <= i < |table| ==> Packages.DistinctKeys(table[i].1)
    ensures r.Ok? ==> DistinctProjects(r.value.0)
    ensures r.Ok? ==> forall i :: 0 <= i < |projects| ==> HasProject(r.value.0, projects[i])
    ensures r.Ok? ==> forall i :: 0 <= i < |table| ==> HasProject(r.value.0, table[i].0)
    ensures r.Ok? ==> forall i :: 0 <= i < |r.value.0| ==> (r.value.0[i].0 in projects || HasProject(table, r.value.0[i].0))
    ensures r.Ok? ==> forall i :: 0 <= i < |r.value.0| ==> Packages.DistinctKeys(r.value.0[i].1)
    ensures r.Ok? ==> Packages.Grows(caches, r.value.1)
    decreases |projects|
  {
    if |projects| == 0 then Ok((table, caches))
    else
      var step :- ProjectStep(env, table, caches, projects[0], referencesOf, fuel);
      var r := GetPackagesFrom(env, step.0, step.1, projects[1..], referencesOf, fuel);
      assert forall i :: 1 <= i < |projects| ==> projects[i] == projects[1..][i - 1];
      r
  }
}
