/** Package metadata lookup (`GetNugetInformationAsync`, `ReadNuspecFile`,
    `AddTransitivePackages` and the first half of `HandleLicensing` in
    src/Methods.cs). A version spec is expanded into literal tokens; each
    (name, version) is answered from the request cache, the local NuGet
    folder, the registry's .nuspec endpoint or the package archive, in that
    order; transitive dependencies are looked up recursively.

    The request and license-file caches are process-wide dictionaries in the
    source; here they are state threaded through every call. The registry,
    the local folder and the archive are oracles. The source puts no bound
    on the transitive recursion; the model spends one unit of `fuel` per
    descent and answers `None` when it runs out. */
module Packages {
  import opened Wrappers
  import opened Text
  import opened Seqs
  import opened Model

  /** `PackageNameAndVersion`: a package name and a version spec. */
  datatype PackageRef = PackageRef(name: string, version: string)

  /** `PackageList`: a dictionary keyed "name,version", kept in insertion
      order. */
  type PackageList = seq<(string, Package)>

  /** The key of a `PackageList` entry. */
  function ListKey(name: string, version: string): string {
    name + "," + version
  }

  predicate HasKey(list: PackageList, key: string) {
    exists i | 0 <= i < |list| :: list[i].0 == key
  }

  /** No key occurs twice: what `Dictionary` guarantees. */
  ghost predicate DistinctKeys(list: PackageList) {
    forall i, j :: 0 <= i < j < |list| ==> list[i].0 != list[j].0
  }

  /** `Dictionary.TryAdd`: appends the entry unless the key is present. */
  function TryAdd(list: PackageList, key: string, p: Package): (r: PackageList)
    ensures HasKey(r, key)
    ensures HasKey(list, key) ==> r == list
    ensures !HasKey(list, key) ==> r == list + [(key, p)]
    ensures DistinctKeys(list) ==> DistinctKeys(r)
  {
    if HasKey(list, key) then list
    else
      assert (list + [(key, p)])[|list|].0 == key;
      list + [(key, p)]
  }

  /** The characters `Trim` strips from a version spec. */
  const VersionBrackets: set<char> := {'[', ']', '(', ')'}

  /** The literal versions queried for a spec: the spec with its bracket
      characters trimmed, split on ','. This is not range resolution. */
  function VersionTokens(spec: string): (r: seq<string>)
    ensures forall i :: 0 <= i < |r| ==> ',' !in r[i]
    ensures Join(r, ",") == Trim(spec, VersionBrackets)
  {
    JoinSplit(Trim(spec, VersionBrackets), ',');
    Split(Trim(spec, VersionBrackets), ',')
  }

  /** A closed range yields both end points. */
  lemma ClosedRangeTokens()
    ensures VersionTokens("[4.1.0,4.3.0]") == ["4.1.0", "4.3.0"]
  {
    ClosedRangeTrim();
    SplitConcat("4.1.0", "4.3.0", ',');
    SplitNoSeparator("4.3.0", ',');
  }

  lemma ClosedRangeTrim()
    ensures Trim("[4.1.0,4.3.0]", VersionBrackets) == "4.1.0" + [','] + "4.3.0"
  {
    var spec := "[4.1.0,4.3.0]";
    assert SkipStart(spec, VersionBrackets, 1) == 1;
    assert SkipStart(spec, VersionBrackets, 0) == 1;
    assert SkipEnd(spec, VersionBrackets, 1, 12) == 12;
    assert SkipEnd(spec, VersionBrackets, 1, 13) == 12;
    assert spec[1..12] == "4.1.0" + [','] + "4.3.0";
  }

  /** An open lower bound yields an empty token, which is later skipped,
      and the upper bound. */
  lemma OpenLowerBoundTokens()
    ensures VersionTokens("(,4.1.0)") == ["", "4.1.0"]
  {
    var spec := "(,4.1.0)";
    assert SkipStart(spec, VersionBrackets, 1) == 1;
    assert SkipStart(spec, VersionBrackets, 0) == 1;
    assert SkipEnd(spec, VersionBrackets, 1, 7) == 7;
    assert SkipEnd(spec, VersionBrackets, 1, 8) == 7;
    assert Trim(spec, VersionBrackets) == spec[1..7] == "" + [','] + "4.1.0";
    SplitConcat("", "4.1.0", ',');
    SplitNoSeparator("4.1.0", ',');
  }

  /** The request cache (`_requestCache`) and the license-file cache
      (`_licenseFileCache`, whose value may be null). */
  datatype Caches = Caches(
    requests: map<PackageKey, Package>,
    licenseFiles: map<PackageKey, Option<string>>)

  /** The caches are read before they are written and never evicted: keys
      of the request cache only accumulate, and a license-file entry, once
      written, keeps its value. */
  ghost predicate Grows(c: Caches, d: Caches) {
    && c.requests.Keys <= d.requests.Keys
    && (forall k :: k in c.licenseFiles ==> k in d.licenseFiles && d.licenseFiles[k] == c.licenseFiles[k])
  }

  /** The state of one lookup call: its result list and the shared caches. */
  datatype State = State(licenses: PackageList, caches: Caches)

  /** `t` is a later state than `s`: the list only gained entries at its
      end, so no entry was replaced, and the caches grew. */
  ghost predicate Extends(s: State, t: State) {
    && s.licenses <= t.licenses
    && Grows(s.caches, t.caches)
  }

  /** The .nuspec in the local NuGet folder: absent, or present and read
      (reading may throw; a document that is not a package reads as null). */
  datatype LocalNuspec = NotInLocalCache | InLocalCache(read: Reply<Option<Package>>)

  /** The registry's answer to a .nuspec request. */
  datatype RegistryReply =
    | Unreachable                            // SendAsync threw
    | NotSuccess                             // a non-success status code
    | Received(nuspec: Reply<Option<Package>>)  // deserialization may throw

  /** Options and oracles of a lookup. `archiveNuspec` and `archiveFile`
      are `GetNuGetPackageFileResult` for the .nuspec and for a license file. */
  datatype Env = Env(
    includeTransitive: bool,
    packageFilter: seq<string>,
    packageRegex: Option<string -> bool>,
    licenseMappings: map<string, string>,
    allowedLicenseTypes: seq<string>,
    localNuspec: PackageKey -> LocalNuspec,
    registry: PackageKey -> RegistryReply,
    archiveNuspec: PackageKey -> Reply<Option<Package>>,
    archiveFile: (PackageKey, Option<string>) -> Reply<Option<string>>)

  /** A package is skipped when a filter entry equals its name ignoring case,
      or when the filter regular expression matches it. */
  predicate IsFiltered(env: Env, name: string) {
    || (exists i | 0 <= i < |env.packageFilter| :: EqualsIgnoreCase(env.packageFilter[i], name))
    || (env.packageRegex.Some? && env.packageRegex.value(name))
  }

  /** The first half of `HandleLicensing`: a package whose license has no
      text but whose license URL is in the mapping table gets the mapped
      license type as its license. */
  function MapLicense(p: Package, mappings: map<string, string>): (r: Package)
    ensures r == p.(license := r.license)
    ensures p.licenseUrl.Some? && (p.license.None? || p.license.value.text.None?) && p.licenseUrl.value in mappings
            ==> r.license == Some(License(None, Some(mappings[p.licenseUrl.value])))
    ensures !(p.licenseUrl.Some? && (p.license.None? || p.license.value.text.None?) && p.licenseUrl.value in mappings)
            ==> r == p
  {
    if p.licenseUrl.Some? && (p.license.None? || p.license.value.text.None?) && p.licenseUrl.value in mappings
    then p.(license := Some(License(None, Some(mappings[p.licenseUrl.value]))))
    else p
  }

  /** The second half of `HandleLicensing`: when an allow-list is configured
      and the license is a file in the package, fetch that file once into
      the license-file cache. The flag reports a thrown exception. */
  function FetchLicenseFile(env: Env, caches: Caches, p: Package): (r: (Caches, bool))
    ensures Grows(caches, r.0) && r.0.requests == caches.requests
    ensures IsLicenseFile(p.license) && |env.allowedLicenseTypes| > 0 && !r.1
            ==> PackageKey(p.id, p.version) in r.0.licenseFiles
  {
    if !IsLicenseFile(p.license) || |env.allowedLicenseTypes| == 0 then (caches, false)
    else
      var k := PackageKey(p.id, p.version);
      if k in caches.licenseFiles then (caches, false)
      else match env.archiveFile(k, p.license.value.text)
        case Threw => (caches, true)
        case Returned(text) => (caches.(licenseFiles := caches.licenseFiles[k := text]), false)
  }

  /** The result of admitting a fetched package, and whether an exception
      cut it short (the state reached so far persists). */
  datatype Step = Step(state: State, threw: bool)

  /** The "id,version" key of a dependency; a null version prints as "". */
  function DependencyKey(d: Dependency): string {
    ListKey(d.id, d.version.GetOr(""))
  }

  /** The dependencies of a group whose "id,version" key is not yet in the
      list, in group order: the only ones queried. */
  function Dependants(list: PackageList, group: seq<Dependency>): (r: seq<Dependency>)
    ensures |r| <= |group|
    ensures forall i :: 0 <= i < |r| ==> r[i] in group && !HasKey(list, DependencyKey(r[i]))
    ensures forall j :: 0 <= j < |group| && !HasKey(list, DependencyKey(group[j])) ==> group[j] in r
    decreases |group|
  {
    if |group| == 0 then []
    else
      var d := group[0];
      var rest := Dependants(list, group[1..]);
      assert forall j :: 1 <= j < |group| ==> group[j] == group[1..][j - 1];
      if !HasKey(list, DependencyKey(d)) then [d] + rest
      else rest
  }

  /** The lookups `GetNugetInformationAsync` makes for a list of dependencies
      before it reaches one without a version, whose `Trim` throws; the flag
      tells whether it reaches one. */
  function BeforeNullVersion(deps: seq<Dependency>): (r: (seq<PackageRef>, bool))
    ensures |r.0| <= |deps|
    ensures forall i :: 0 <= i < |r.0| ==> deps[i].version.Some? && r.0[i] == PackageRef(deps[i].id, deps[i].version.value)
    ensures r.1 <==> exists i :: 0 <= i < |deps| && deps[i].version.None?
    ensures r.1 ==> deps[|r.0|].version.None?
    ensures !r.1 ==> |r.0| == |deps|
    decreases |deps|
  {
    if |deps| == 0 then ([], false)
    else if deps[0].version.None? then ([], true)
    else
      var (refs, hit) := BeforeNullVersion(deps[1..]);
      assert forall i :: 1 <= i < |deps| ==> deps[i] == deps[1..][i - 1];
      ([PackageRef(deps[0].id, deps[0].version.value)] + refs, hit)
  }

  /** The merge loop of `AddTransitivePackages`: entries of `nested` whose
      key is absent are appended; present entries are left alone. */
  function MergeAbsent(list: PackageList, nested: PackageList): (r: PackageList)
    ensures list <= r
    ensures DistinctKeys(list) ==> DistinctKeys(r)
    ensures forall i :: 0 <= i < |nested| ==> HasKey(r, nested[i].0)
    ensures forall i :: |list| <= i < |r| ==> r[i] in nested
    decreases |nested|
  {
    if |nested| == 0 then list
    else
      var next := TryAdd(list, nested[0].0, nested[0].1);
      var r := MergeAbsent(next, nested[1..]);
      assert HasKey(next, nested[0].0);
      assert forall i :: 1 <= i < |nested| ==> nested[i] == nested[1..][i - 1];
      assert HasKey(r, nested[0].0) by {
        var i :| 0 <= i < |next| && next[i].0 == nested[0].0;
        assert r[i] == next[i];
      }
      r
  }

  /** `ReadNuspecFile` (and the archive fallback, which does the same): add
      the package under "name,version" (throwing if the key is present),
      expand its dependencies, cache it, then apply `HandleLicensing`, which
      rewrites the listed and cached package in place. An exception from the
      expansion leaves the package listed as read, uncached and without
      `HandleLicensing`. */
  function Admit(env: Env, st: State, name: string, version: string, p: Package, fuel: nat): (r: Option<Step>)
    ensures r.Some? ==> Extends(st, r.value.state)
    ensures r.Some? && DistinctKeys(st.licenses) ==> DistinctKeys(r.value.state.licenses)
    ensures r.Some? && !r.value.threw ==> PackageKey(name, version) in r.value.state.caches.requests
    ensures r.Some? && !HasKey(st.licenses, ListKey(name, version)) ==> HasKey(r.value.state.licenses, ListKey(name, version))
    decreases fuel, 2, 0
  {
    var key := ListKey(name, version);
    if HasKey(st.licenses, key) then Some(Step(st, true))
    else
      var added := State(st.licenses + [(key, p)], st.caches);
      assert added.licenses[|st.licenses|].0 == key;
      var t :- AddTransitive(env, added, p.dependencyGroups, fuel);
      assert t.state.licenses[|st.licenses|] == added.licenses[|st.licenses|];
      if t.threw then Some(t)
      else
        var q := MapLicense(p, env.licenseMappings);
        var licenses := t.state.licenses[|st.licenses| := (key, q)];
        assert forall i :: 0 <= i < |licenses| ==> licenses[i].0 == t.state.licenses[i].0;
        assert st.licenses <= licenses by {
          assert forall i :: 0 <= i < |st.licenses| ==> licenses[i] == t.state.licenses[i] == st.licenses[i];
        }
        var cached := t.state.caches.(requests := t.state.caches.requests[PackageKey(name, version) := q]);
        var (files, threw) := FetchLicenseFile(env, cached, q);
        Some(Step(State(licenses, files), threw))
  }

  /** The network half of one lookup: the registry's .nuspec, else the
      package archive, else a placeholder record. */
  function FetchOnline(env: Env, st: State, name: string, version: string, fuel: nat): (r: Option<State>)
    ensures r.Some? ==> Extends(st, r.value)
    ensures r.Some? && DistinctKeys(st.licenses) ==> DistinctKeys(r.value.licenses)
    decreases fuel, 3, 0
  {
    var k := PackageKey(name, version);
    var key := ListKey(name, version);
    match env.registry(k)
    case Unreachable => Some(st)
    case NotSuccess =>
      (match env.archiveNuspec(k)
       case Threw => Some(st)
       case Returned(Some(p)) =>
         var step :- Admit(env, st, name, version, p, fuel);
         Some(step.state)
       case Returned(None) =>
         if HasKey(st.licenses, key) then Some(st)
         else Some(st.(licenses := st.licenses + [(key, Placeholder(name, version))])))
    case Received(Threw) => Some(st)
    case Received(Returned(None)) => Some(st)
    case Received(Returned(Some(p))) =>
      var step :- Admit(env, st, name, version, p, fuel);
      Some(step.state)
  }

  /** The body of the inner loop of `GetNugetInformationAsync` for one
      literal version. */
  function ProcessVersion(env: Env, st: State, name: string, version: string, fuel: nat): (r: Option<State>)
    ensures r.Some? ==> Extends(st, r.value)
    ensures r.Some? && DistinctKeys(st.licenses) ==> DistinctKeys(r.value.licenses)
    decreases fuel, 4, 0
  {
    if IsBlank(name) || IsBlank(version) then Some(st)
    else if IsFiltered(env, name) then Some(st)
    else
      var k := PackageKey(name, version);
      if k in st.caches.requests then
        Some(st.(licenses := TryAdd(st.licenses, ListKey(name, version), st.caches.requests[k])))
      else match env.localNuspec(k)
        case InLocalCache(Returned(Some(p))) =>
          var step :- Admit(env, st, name, version, p, fuel);
          if step.threw then FetchOnline(env, step.state, name, version, fuel) else Some(step.state)
        case InLocalCache(Returned(None)) => Some(st)
        case _ => FetchOnline(env, st, name, version, fuel)
  }

  /** The inner loop of `GetNugetInformationAsync`: one package name, each
      literal version in turn. */
  function QueryVersions(env: Env, st: State, name: string, versions: seq<string>, fuel: nat): (r: Option<State>)
    ensures r.Some? ==> Extends(st, r.value)
    ensures r.Some? && DistinctKeys(st.licenses) ==> DistinctKeys(r.value.licenses)
    decreases fuel, 5, |versions|
  {
    if |versions| == 0 then Some(st)
    else
      var next :- ProcessVersion(env, st, name, versions[0], fuel);
      QueryVersions(env, next, name, versions[1..], fuel)
  }

  /** The outer loop of `GetNugetInformationAsync`, continuing from `st`. */
  function Query(env: Env, st: State, refs: seq<PackageRef>, fuel: nat): (r: Option<State>)
    ensures r.Some? ==> Extends(st, r.value)
    ensures r.Some? && DistinctKeys(st.licenses) ==> DistinctKeys(r.value.licenses)
    decreases fuel, 6, |refs|
  {
    if |refs| == 0 then Some(st)
    else
      var next :- QueryVersions(env, st, refs[0].name, VersionTokens(refs[0].version), fuel);
      Query(env, next, refs[1..], fuel)
  }

  /** `AddTransitivePackages`: for each dependency group, look up the
      dependencies not yet in the list (with a fresh list and the shared
      caches) and merge in the entries whose key is still absent. A
      dependency without a version throws out of the nested lookup: the
      nested list is lost, the cache entries it made stay, and the remaining
      groups are not visited. */
  function AddTransitive(env: Env, st: State, groups: seq<seq<Dependency>>, fuel: nat): (r: Option<Step>)
    ensures r.Some? ==> Extends(st, r.value.state)
    ensures r.Some? && DistinctKeys(st.licenses) ==> DistinctKeys(r.value.state.licenses)
    decreases fuel, 1, |groups|
  {
    if !env.includeTransitive || |groups| == 0 then Some(Step(st, false))
    else if fuel == 0 then None
    else
      var (refs, nullVersion) := BeforeNullVersion(Dependants(st.licenses, groups[0]));
      var nested :- Query(env, State([], st.caches), refs, fuel - 1);
      if nullVersion then Some(Step(State(st.licenses, nested.caches), true))
      else AddTransitive(env, State(MergeAbsent(st.licenses, nested.licenses), nested.caches), groups[1..], fuel)
  }

  /** `GetNugetInformationAsync`: a fresh result list, the shared caches. */
  function GetNugetInformation(env: Env, caches: Caches, refs: seq<PackageRef>, fuel: nat): (r: Option<State>)
    ensures r.Some? ==> Grows(caches, r.value.caches)
    ensures r.Some? ==> DistinctKeys(r.value.licenses)
  {
    Query(env, State([], caches), refs, fuel)
  }

  /** A cached (name, version) is answered from the request cache: the cached
      package is added under "name,version" if that key is absent, and no
      oracle (local folder, registry, archive) is consulted. */
  lemma CacheHitConsultsNoOracle(
    env: Env, st: State, name: string, version: string, fuel: nat,
    local: PackageKey -> LocalNuspec, registry: PackageKey -> RegistryReply,
    archiveNuspec: PackageKey -> Reply<Option<Package>>,
    archiveFile: (PackageKey, Option<string>) -> Reply<Option<string>>)
    requires !IsBlank(name) && !IsBlank(version) && !IsFiltered(env, name)
    requires PackageKey(name, version) in st.caches.requests
    ensures ProcessVersion(env, st, name, version, fuel)
         == Some(st.(licenses := TryAdd(st.licenses, ListKey(name, version), st.caches.requests[PackageKey(name, version)])))
    ensures ProcessVersion(env.(localNuspec := local, registry := registry, archiveNuspec := archiveNuspec, archiveFile := archiveFile),
                           st, name, version, fuel)
         == ProcessVersion(env, st, name, version, fuel)
  {
  }

  /** Once a lookup has cached a (name, version), every later lookup of it
      in the run, from any later state, is a cache hit: the registry is
      asked at most once per package. */
  lemma FetchedAtMostOnce(
    env: Env, st: State, name: string, version: string, fuel: nat,
    later: State, fuel2: nat,
    registry: PackageKey -> RegistryReply)
    requires !IsBlank(name) && !IsBlank(version) && !IsFiltered(env, name)
    requires ProcessVersion(env, st, name, version, fuel).Some?
    requires PackageKey(name, version) in ProcessVersion(env, st, name, version, fuel).value.caches.requests
    requires Extends(ProcessVersion(env, st, name, version, fuel).value, later)
    ensures ProcessVersion(env.(registry := registry), later, name, version, fuel2)
         == ProcessVersion(env, later, name, version, fuel2)
    ensures ProcessVersion(env, later, name, version, fuel2).Some?
  {
    CacheHitConsultsNoOracle(env, later, name, version, fuel2,
      env.localNuspec, registry, env.archiveNuspec, env.archiveFile);
  }

  /** A filtered package is skipped without any change. */
  lemma FilteredPackageSkipped(env: Env, st: State, name: string, version: string, fuel: nat)
    requires IsFiltered(env, name)
    ensures ProcessVersion(env, st, name, version, fuel) == Some(st)
  {
  }

  predicate NonBlank(s: string) {
    !IsBlank(s)
  }

  /** Blank version tokens are skipped: querying the tokens is the same as
      querying only the non-blank ones. */
  lemma {:induction false} BlankTokensSkipped(env: Env, st: State, name: string, versions: seq<string>, fuel: nat)
    ensures QueryVersions(env, st, name, versions, fuel) == QueryVersions(env, st, name, Filter(NonBlank, versions), fuel)
    decreases |versions|
  {
    if |versions| > 0 {
      var rest := Filter(NonBlank, versions[1..]);
      if IsBlank(versions[0]) {
        assert ProcessVersion(env, st, name, versions[0], fuel) == Some(st);
        BlankTokensSkipped(env, st, name, versions[1..], fuel);
      } else {
        var f := Filter(NonBlank, versions);
        assert f == [versions[0]] + rest;
        assert f[1..] == rest;
        match ProcessVersion(env, st, name, versions[0], fuel)
        case None =>
        case Some(next) =>
          BlankTokensSkipped(env, next, name, versions[1..], fuel);
      }
    }
  }

  /** Disabling transitive inclusion leaves a fetched package's dependency
      groups unvisited. */
  lemma NoTransitiveWithoutOption(env: Env, st: State, groups: seq<seq<Dependency>>, fuel: nat)
    requires !env.includeTransitive
    ensures AddTransitive(env, st, groups, fuel) == Some(Step(st, false))
  {
  }

  /** A dependency that omits its version ends the expansion of a fetched
      package with an exception: the package stays listed as read, but it is
      neither cached nor rewritten by `HandleLicensing`, and later groups are
      not visited. */
  lemma NullDependencyVersionThrows(env: Env, st: State, name: string, version: string, p: Package,
                                    dep: string, later: seq<seq<Dependency>>, fuel: nat)
    requires env.includeTransitive && fuel > 0
    requires !HasKey(st.licenses, ListKey(name, version))
    requires p.dependencyGroups == [[Dependency(dep, None)]] + later
    requires ListKey(dep, "") != ListKey(name, version) && !HasKey(st.licenses, ListKey(dep, ""))
    ensures Admit(env, st, name, version, p, fuel)
         == Some(Step(State(st.licenses + [(ListKey(name, version), p)], st.caches), true))
  {
    var added := State(st.licenses + [(ListKey(name, version), p)], st.caches);
    var group := [Dependency(dep, None)];
    assert !HasKey(added.licenses, DependencyKey(group[0]));
    assert Dependants(added.licenses, group) == group;
    assert BeforeNullVersion(group) == ([], true);
    assert AddTransitive(env, added, p.dependencyGroups, fuel) == Some(Step(added, true));
  }
}
