# nuget-license attribution collector, modelled in Dafny

This project models the core of Origam's fork of nuget-license. That core
collects the NuGet packages referenced by a .NET solution and writes an
attribution report.

The C# collector (`CsAttributionCollector.Execute`) runs these steps:

1. It finds the project files of a solution, a project file, a JSON list or
   a directory.
2. It reads each project's package references. It tries `project.assets.json`
   first, then the project file, then `packages.config`.
3. It looks up each package's `.nuspec`. It tries the request cache, then
   the local NuGet folder, then the registry, then the package archive. It
   also follows transitive dependencies.
4. It maps each package to a `LibraryInfo` record and merges in manual
   records.
5. It checks the records against the allow-list of license types.
6. It drops Origam's own packages.
7. It fetches a license text for each record. It tries GitHub first, then
   the license URL (or the package archive), then a hand-maintained override
   file.
8. It rewrites Microsoft's deprecated license URL.
9. It renders the plain-text report.

The Origam attributions generator then cuts yarn's disclaimer down to its
notices and prepends it to that report.

Each step is a pure function over immutable data. Everything the program
reads from outside is a function-typed parameter ("oracle"):

- files and directories;
- HTTP;
- the GitHub API;
- the package archive;
- the last run's records.

Exceptions become `Result` errors, and an exception the source catches
becomes the state reached so far.

Modules, one per file:

| module | file | models |
|---|---|---|
| `Wrappers` | wrappers.dfy | `Option`, `Result`, and `Reply` (a call that threw or returned) |
| `Text` | text.dfy | the .NET string operations used: `Split`, `Trim`, `Contains`, `StartsWith`, `ToLower`, `Replace`, ordinal order |
| `Seqs` | seqs.dfy | LINQ `Where` |
| `Model` | model.dfy | the nuspec `Package` metadata, `LibraryInfo`, `TrySetLicenseText`, the error kinds |
| `GitHub` | github.dfy | src/GitHubUrlParser.cs |
| `Packages` | packages.dfy | `GetNugetInformationAsync`, `ReadNuspecFile`, `AddTransitivePackages`, `HandleLicensing` |
| `Projects` | projects.dfy | `GetValidProjects`, `ParseSolution`, `GetFilteredProjects`, `GetProjectReferences` and its three readers, `GetPackages` |
| `Licensing` | licensing.dfy | `MapPackagesToLibraryInfo`, `MapPackageToLibraryInfo`, both `ValidateLicenses`, `HandleDeprecateMSFTLicense` |
| `LicenseTexts` | licensetexts.dfy | `AddLicenseTexts` and its three stages, `DownloadFile`, `CorrectUri`, `GetLicenseFileName`, `GetLicenseOverrideFile` |
| `Report` | report.dfy | `SaveAsTextFile` |
| `Collector` | collector.dfy | src/CsAttributionCollector.cs |
| `Attributions` | attributions.dfy | `CleanJsAttributionsFile` and `MergeFiles` of the Origam generator |

## Model

| member | source | states |
|---|---|---|
| Model.TrySetLicenseText | src/Model/LibraryInfo.cs:32-41 | Blank text (null or white space) leaves the record unchanged. Otherwise the text and its source are both replaced. Nothing else changes, and the invariant "a text always has a source" is kept. |
| Model.Describe | src/Model/LibraryInfo.cs:27-30 | `ToString` renders "name vversion". It has no contract of its own; Model.DescribeParts and Model.DescribeInjective state what the rendering keeps. |
| Model.DescribeParts | src/Model/LibraryInfo.cs:27-30 | `ToString`'s "name vversion" can be read back: the name is the first space-separated field and the version follows " v". |
| Model.DescribeInjective | src/Model/LibraryInfo.cs:27-30 | Two records with space-free names render alike only if they have the same name and version. |
| Model.Placeholder | src/Methods.cs:158-161 | The record added when neither the registry nor the archive has a .nuspec carries only the id and version: no license, no license URL, no dependencies. |
| GitHub.StripGitSuffix | src/GitHubUrlParser.cs:46-48 | A trailing ".git" is removed exactly (re-appending it gives the segment back). Any other segment is kept. |
| GitHub.IsValid | src/GitHubUrlParser.cs:51-56 | A URL is valid when it is not blank, contains "github" in any letter case, and starts with "http" or "git://". This is a definition; GitHub.CanonicalIsValid, GitHub.HostOnlyUrlIsValidButUnparsable and GitHub.SshRemoteIsInvalid state its consequences. |
| GitHub.CanonicalIsValid | src/GitHubUrlParser.cs:51-56 | Every URL starting "https://github.com/" is valid, whatever follows. |
| GitHub.Parse | src/GitHubUrlParser.cs:37-56 | Parsing succeeds exactly when the URL is valid and has at least five '/'-separated segments. An invalid URL gives "cannot parse". A valid URL with fewer segments fails on the index. Owner and repository never contain '/'. |
| GitHub.ParseCanonicalUrl | src/GitHubUrlParser.cs:37-49 | "https://github.com/owner/repo" parses to that owner and to the repository without ".git". |
| GitHub.HostOnlyUrlIsValidButUnparsable | src/GitHubUrlParser.cs:37-56 | `IsValid` does not imply parsable: "https://github.com" passes `IsValid` yet fails to parse. |
| GitHub.SshRemoteIsInvalid | src/GitHubUrlParser.cs:51-56 | An scp-style remote "git@github.com:owner/repo.git" is rejected, since it starts with neither "http" nor "git://". |
| GitHub.NewParser | src/GitHubUrlParser.cs:32-35 | A new parser holds the URL and has not parsed yet. |
| GitHub.User | src/GitHubUrlParser.cs:11-19 | A parser marked parsed answers its stored owner unchanged. An unmarked one parses: it succeeds exactly when `Parse` does, fails with `Parse`'s error, returns `Parse`'s owner, and stays unmarked. |
| GitHub.RepositoryName | src/GitHubUrlParser.cs:21-30 | The same for the repository name: a marked parser answers its stored name, an unmarked one parses again and stays unmarked. |
| GitHub.GettersReparse | src/GitHubUrlParser.cs:11-30 | On an unmarked parser both getters together: each succeeds exactly when `Parse` does and returns `Parse`'s owner or repository name. The `parsed` flag is never set, so every read parses again. |
| GitHub.InvalidUrlGetterThrows | src/GitHubUrlParser.cs:11-42 | For an invalid URL both getters throw "cannot parse". |
| Packages.TryAdd | src/Methods.cs:107 | After the call the key is present. An existing key leaves the list unchanged; a new key is appended. Distinct keys stay distinct. |
| Packages.VersionTokens | src/Methods.cs:85 | The version spec loses its surrounding bracket characters and is split on ','. No token contains ',', and joining the tokens with ',' gives back the trimmed spec. |
| Packages.IsFiltered | src/Methods.cs:96-100 | A package is skipped when a filter entry equals its name ignoring case, or the regular expression matches the name. This is a definition; Packages.FilteredPackageSkipped states its effect. |
| Packages.ClosedRangeTokens | src/Methods.cs:85 | "[4.1.0,4.3.0]" is queried as the two literal versions "4.1.0" and "4.3.0". This agrees with the version-range test in tests/NugetUtility.Tests/MethodsTests.cs. |
| Packages.OpenLowerBoundTokens | src/Methods.cs:85 | "(,4.1.0)" yields an empty token and "4.1.0". |
| Packages.MapLicense | src/Methods.cs:523-533 | A license URL that is in the mapping table replaces a license that has no text by the mapped license type. Every other package is unchanged, and nothing but the license ever changes. Licensing.MapLicenseAgreesWithMetadata relates it to the record mapping. |
| Packages.FetchLicenseFile | src/Methods.cs:535-541 | The license-file cache only grows and the request cache is untouched. An embedded license file with an allow-list configured ends up cached unless the archive read threw. |
| Packages.Dependants | src/Methods.cs:222-226 | Exactly the dependencies of the group whose "id,version" key is absent from the list are queried, each taken from the group. A dependency without a version is keyed "id,", as the string interpolation of null gives. |
| Packages.BeforeNullVersion | src/Methods.cs:83-85 | The queried references are those before the first dependency without a version. The flag is set exactly when some dependency has no version, and then the dependency right after the queried ones is such a one: trimming its null version throws. |
| Packages.MergeAbsent | src/Methods.cs:229-235 | The merge only appends, and only entries of the nested list. Afterwards every nested key is present. Distinct keys stay distinct. |
| Packages.Admit | src/Methods.cs:204-213 | Adding a fetched package only extends the list and grows the caches, and keys stay distinct. A new key is always added. Unless an exception cut it short, the package is then in the request cache. |
| Packages.FetchOnline | src/Methods.cs:145-165 | The registry or archive step only extends the list and grows the caches, with keys kept distinct. |
| Packages.ProcessVersion | src/Methods.cs:88-185 | One (name, version) lookup only extends the list and grows the caches, with keys kept distinct. |
| Packages.QueryVersions | src/Methods.cs:86-186 | Looking up every literal version of a name only extends the list and grows the caches, with keys kept distinct. |
| Packages.Query | src/Methods.cs:83-187 | Looking up a sequence of references only extends the list and grows the caches, with keys kept distinct. |
| Packages.AddTransitive | src/Methods.cs:215-238 | Expanding dependency groups only extends the list and grows the caches, with keys kept distinct, also when a dependency without a version cuts the expansion short. |
| Packages.GetNugetInformation | src/Methods.cs:79-189 | The resulting list has distinct "name,version" keys. No request-cache key is evicted, and a license-file cache entry never changes once written. |
| Packages.CacheHitConsultsNoOracle | src/Methods.cs:102-109 | A (name, version) in the request cache is answered from it, whatever the local folder, the registry and the archive would answer. |
| Packages.FetchedAtMostOnce | src/Methods.cs:102-109 | Once a lookup has cached a package, any later lookup of it is answered from the cache without asking the registry. |
| Packages.FilteredPackageSkipped | src/Methods.cs:96-100 | A package excluded by the name filter or the regular expression leaves the state unchanged. |
| Packages.BlankTokensSkipped | src/Methods.cs:85-94 | Blank version tokens contribute nothing: querying all tokens equals querying only the non-blank ones. |
| Packages.NoTransitiveWithoutOption | src/Methods.cs:217-218 | Without the include-transitive option, dependency groups are ignored: the state is unchanged and nothing throws. |
| Packages.NullDependencyVersionThrows | src/Methods.cs:204-226 | A package whose first dependency has no version throws after it was added to the list and before it is cached: the list gains the package unmapped and the caches are unchanged. |
| Projects.ParseSolution | src/Methods.cs:700-719 | Every entry comes from some line of the solution, every line with a project entry contributes its entry, and there are no more entries than lines. |
| Projects.ParseSolutionAppend | src/Methods.cs:708-716 | Lines are parsed independently: parsing a concatenation concatenates the results. |
| Projects.SolutionEntryTakesPathSegment | src/Methods.cs:710-714 | A "Project(...) = name, path, guid" line yields its second ','-field, path-fixed and stripped of quotes. |
| Projects.OtherLinesIgnored | src/Methods.cs:710 | Any line that does not start with "Project" yields nothing. |
| Projects.FilterProjects | src/Methods.cs:505-521 | An empty filter keeps everything. Otherwise a project is kept exactly when no filter entry occurs in it, ignoring case. |
| Projects.FilterProjectsAppend | src/Methods.cs:512-515 | The filter judges each project on its own: it distributes over concatenation. |
| Projects.SolutionProjects | src/Methods.cs:669-672 | Every project kept from a solution is an existing .csproj or .fsproj file that resolves from one of the solution's entries. |
| Projects.GetValidProjects | src/Methods.cs:661-698 | A missing solution fails. A solution yields only project files. A project file is its own (filtered) project. A directory that cannot be enumerated fails with an I/O error. Nothing the project filter excludes is ever returned. |
| Projects.ProjectFileIsItsOwnProject | src/Methods.cs:675-680 | An unfiltered .csproj or .fsproj path yields exactly itself. |
| Projects.ProjectFileIsNotSolution | src/Methods.cs:260-263 | The project extensions do not overlap the ".sln" and ".json" cases of the switch. |
| Projects.FirstVersionChild | src/Methods.cs:594-596 | With no child named "Version" the result is empty. Otherwise it is the value of the first such child. |
| Projects.ElementReference | src/Methods.cs:587-601 | A `PackageReference` yields "Include,Version". The version comes from the attribute when present, else from the first `Version` child, else is empty; a missing Include counts as empty. |
| Projects.PackagesConfigReference | src/Methods.cs:608-624 | A `package` element yields "id,version", with a missing attribute counted as empty. |
| Projects.AssetsKeyReference | src/Methods.cs:646-656 | An assets key yields a reference exactly when it has one '/'; that '/' becomes ','. |
| Projects.AssetsKeyRoundTrip | src/Methods.cs:646-656 | "name/version" yields "name,version". |
| Projects.AssetsReferences | src/Methods.cs:631-659 | Every reference read from the assets targets holds a ','. |
| Projects.TargetReferences | src/Methods.cs:644-657 | A target yields at most one reference per key, each holding a ','. |
| Projects.SelectReferences | src/Methods.cs:288-316 | Non-empty assets references, when that option is on, win. A failed assets read fails. Otherwise non-empty project-file references win. The result is empty only when both the project file and packages.config gave nothing. |
| Projects.AssetsShadowLaterSources | src/Methods.cs:288-310 | Once the assets file gives references, what the project file or packages.config hold does not matter. |
| Projects.GetProjectReferences | src/Methods.cs:270-317 | A blank path fails. A project file is read directly. A non-project path is replaced by the first valid project under it, and fails when there is none. |
| Projects.ParseReferenceAsWritten | src/Methods.cs:248-252 | The selector as written: it fails exactly when the reference has no ','. Name and version never contain ','. |
| Projects.ParseReference | src/Methods.cs:248-252 | The corrected selector splits at the first ',' only. Name, ',' and version rebuild the reference, and it fails exactly when there is no ','. |
| Projects.ParseReferenceRoundTrip | src/Methods.cs:248-252 | "name,version" with a comma-free name parses back to (name, version), whatever the version holds. |
| Projects.SelectorsAgreeOnPlainVersions | src/Methods.cs:248-252 | For a version without ',' the written and the corrected selector agree. |
| Projects.RangeUpperBoundLost | src/Methods.cs:248-252 | For "name,lo,hi" the selector as written returns version lo; the corrected one returns "lo,hi". |
| Projects.LowerBoundTokens | src/Methods.cs:85 | The truncated range "[4.1.0" is queried as 4.1.0 only. |
| Projects.ClosedRangeReference | src/Methods.cs:248-252 | Reference "System.Linq,[4.1.0,4.3.0]": as written only 4.1.0 is queried; corrected, both 4.1.0 and 4.3.0 are. |
| Projects.ParseReferences | src/Methods.cs:248-252 | With the corrected selector: all references parse exactly when each holds a ','. Each parsed pair rebuilds its reference, and the count is kept. |
| Projects.Assign | src/Methods.cs:254 | Dictionary assignment: the project maps to the new list, other entries are kept, and nothing else is added. An existing key keeps the size, and keys stay distinct. |
| Projects.AssignProjects | src/Methods.cs:254 | After `licenses[projectFile] = list` the table holds that project and every earlier one, and no other. |
| Projects.GetPackages | src/Methods.cs:240-258 | With the corrected selector: every project passed in gets an entry, and only those do. Projects are distinct, each list has distinct keys, and the caches only grow. |
| Projects.GetPackagesFrom | src/Methods.cs:245-255 | With the corrected selector: the loop keeps every entry added before and adds one per project, keeping projects distinct and caches growing. |
| Projects.ProjectStep | src/Methods.cs:247-254 | With the corrected selector: one project's references are parsed and looked up, and the result is assigned to that project. Projects stay distinct, earlier entries survive, and the caches only grow. |
| Licensing.FindByKey | src/Methods.cs:361-362 | `FirstOrDefault` by name and version: None exactly when no record has that key, else a record of the list. |
| Licensing.MetadataLicenseType | src/Methods.cs:351-359 | A non-blank license text is the license type. A blank or missing one is replaced by the mapping of the license URL, if any. |
| Licensing.MapLicenseAgreesWithMetadata | src/Methods.cs:351-359 | Mapping the license in `HandleLicensing` never changes the license type the record mapping reads. A changed license is not a license file and holds exactly that type. |
| Licensing.MapPackage | src/Methods.cs:349-383 | Name, version, copyright and repository come from the metadata. The project is recorded only with the option. No license text is set yet. Without a manual record, the fields come from the metadata. |
| Licensing.ManualFieldsWin | src/Methods.cs:361-380 | A manual record's authors, license type and URL win when present. Its package URL and description win only when non-blank. |
| Licensing.TextBeatsMapping | src/Methods.cs:351-359 | A non-blank license text in the metadata is not overridden by the URL mapping. |
| Licensing.MapList | src/Methods.cs:330-334 | Each package of a project maps to one record, in order. |
| Licensing.MapTable | src/Methods.cs:328-335 | The records of all projects in table order. It has no contract of its own; Licensing.MapTableRecords states its contents. |
| Licensing.MapTableRecords | src/Methods.cs:328-335 | Every package of every project maps to a record in the result, with that project, and every record in the result is such a mapping. |
| Licensing.ExceptByKey | src/Methods.cs:338 | LINQ `Except` by (name, version): only manual records whose key was not seen remain. |
| Licensing.ExceptByKeyDistinct | src/Methods.cs:338 | The records `Except` returns have pairwise distinct keys. |
| Licensing.ExceptByKeyComplete | src/Methods.cs:338 | Every manual key not seen is represented in the result. |
| Licensing.Keys | src/Methods.cs:338 | The key set is exactly the keys present in the list. |
| Licensing.InsertByName | src/Methods.cs:344-346 | Inserting into a name-sorted list keeps it sorted and adds exactly one element. |
| Licensing.InsertByNameStable | src/Methods.cs:344-346 | Inserting a record places it before no record of its own name: records of each name keep their order. |
| Licensing.SortByName | src/Methods.cs:344-346 | The result is sorted by package name and is a permutation of the input. The sort is stable: the records of any one name keep their input order. |
| Licensing.MapPackages | src/Methods.cs:324-347 | The result is sorted by name, and it is a permutation of the mapped records plus the manual records whose key no package has. Records of one name keep that order (stable `OrderBy`). |
| Licensing.AutomaticRecordsKept | src/Methods.cs:324-347 | Every record mapped from a package is in the result. |
| Licensing.ManualPairsCovered | src/Methods.cs:337-341 | Every manual record's key is present in the result. |
| Licensing.AddedRecordsAreMissedManual | src/Methods.cs:337-341 | A record not mapped from a package is a manual record whose key no package has. |
| Licensing.ValidateInfos | src/Methods.cs:431-460 | An empty allow-list is valid with no offenders. Otherwise the offenders are exactly the records no allowed type accepts, and the result is valid exactly when there are none. |
| Licensing.ValidIffAllMatch | src/Methods.cs:431-460 | With an allow-list, the records are valid exactly when every record is accepted by some allowed type. |
| Licensing.InfoAllowedBy | src/Methods.cs:442-455 | One allowed type against a record: a mapped URL decides by the mapping alone; otherwise a URL containing the type (ignoring case) accepts; otherwise the license type must equal it. This is a definition; the lemmas beside it state its consequences. |
| Licensing.InfoAllowed | src/Methods.cs:440-456 | `Any` over the allow-list: some allowed type accepts the record. A definition, used by Licensing.ValidateInfos. |
| Licensing.MappedUrlDecidesAlone | src/Methods.cs:443-447 | For a mapped license URL only the mapping decides; the license type plays no part. |
| Licensing.MappedUrlOverridesSubstring | src/Methods.cs:443-452 | A mapped URL whose text contains the allowed type is still rejected when the mapping differs. |
| Licensing.CheckPackage | src/Methods.cs:395-423 | One allowed type against a package. It throws exactly when the check reaches a null cached license file, naming that key. Otherwise the verdict is exactly "the mapping names the type, or the URL contains it, or the cached file contains it, or the license text equals it". Accepting through the cached file rewrites the license text to the type and nothing else; no other path changes the package. |
| Licensing.PackageAllowed | src/Methods.cs:395-423 | `Any` over the allowed types, in order. It throws exactly when a null cached file is reached before any type accepts. Otherwise the verdict is exactly "some allowed type accepts". Id, version and URL are kept, and a rejected package is unchanged. |
| Licensing.ThrowsOnNullTextTail | src/Methods.cs:395-423 | A first allowed type that neither accepts nor throws can be dropped: the rest decides acceptance, and neither throws. |
| Licensing.PackageVerdictMatchesRecordVerdict | src/Methods.cs:385-460 | Without an embedded license file, the package verdict equals the record verdict on the same URL and type. |
| Licensing.RecordVerdictCarriesOver | src/Methods.cs:385-460 | A record accepted by the record check has its package accepted by the package check. Without a license file the two verdicts agree. |
| Licensing.ValidatePackages | src/Methods.cs:385-429 | An empty allow-list is valid with no offenders. Otherwise the check throws exactly when some entry throws, the offenders are exactly the entries no allowed type accepts, in table order, and validity means no offenders. |
| Licensing.ValidateEach | src/Methods.cs:393-425 | Each entry is judged in order and keeps its project. Licensing.ValidateEachOffenders states the verdict. |
| Licensing.ValidateEachOffenders | src/Methods.cs:393-425 | The per-entry pass throws exactly when some entry throws. Otherwise its offenders are exactly the entries no allowed type accepts, in order. |
| Licensing.GalleryLicenseUrl | src/Methods.cs:777 | The gallery URL that replaces the deprecated one is never itself the deprecated URL. |
| Licensing.HandleDeprecatedUrl | src/Methods.cs:769-781 | Only the license URL changes, and only the deprecated one. It becomes the gallery URL of that name and version, so no deprecated URL remains. |
| Licensing.HandleDeprecatedUrlIdempotent | src/Methods.cs:769-781 | Applying the rewrite twice is the same as once. |
| LicenseTexts.LicenseFileName | src/Methods.cs:981-984 | The file name starts with the package name and '_', and ends with ".txt". |
| LicenseTexts.LicenseFileNameParts | src/Methods.cs:981-984 | For a name without '_', the name and the version can be read back from the file name. |
| LicenseTexts.LicenseFileNameCollides | src/Methods.cs:981-984 | Without that condition two packages, ("a_b", "1") and ("a", "b_1"), share one override file. |
| LicenseTexts.OverridePath | src/Methods.cs:814-818 | The override file lies in "./LicenseFiles/ManualOverrides" and is named by `GetLicenseFileName`. |
| LicenseTexts.CorrectUri | src/Methods.cs:985-1014 | Only a GitHub URI containing "/blob/" is changed, and such a URI always is. A changed URI is shorter. |
| LicenseTexts.CorrectUriRewritesBlob | src/Methods.cs:1003-1006 | A GitHub URI whose first "/blob/" follows a prefix becomes that prefix, "/raw/", and the rest with each later "/blob/" replaced too. With no later "/blob/" the rest is kept as is. |
| LicenseTexts.CorrectUriOfLicensePage | src/Methods.cs:1003-1006 | "https://github.com/o/r/blob/main/LICENSE" becomes "https://github.com/o/r/raw/main/LICENSE". |
| Text.ReplaceAtFirst | src/Methods.cs:1005 | Ordinal `Replace` copies the text before the first occurrence, writes the replacement, and goes on after the occurrence. |
| LicenseTexts.Download | src/Methods.cs:943-979 | A returned body was served for a URI that needs no correction, so never for a GitHub blob page. A non-success status gives null, and an unreachable server throws. |
| LicenseTexts.DownloadWithoutRedirects | src/Methods.cs:956-963 | When the server never redirects, the redirect allowance plays no part. |
| LicenseTexts.FirstLicenseEntry | src/Methods.cs:834-839 | None exactly when no entry's lower-cased name contains "license". Otherwise the path of the first such entry: no entry before it matches. |
| LicenseTexts.AddFromGitHub | src/Methods.cs:820-864 | A record without a git repository is unchanged. An unparsable URL throws. Otherwise only text fields change, and a changed record's text is non-blank with source "GitHub". |
| LicenseTexts.ArchiveFile | src/Methods.cs:874-906 | The archive file read for a URL: the license type for the deprecated URL, "dotnet_library_license.txt" for the two .NET URLs, "License.txt" for licenses.nuget.org, and none for anything else. |
| LicenseTexts.ArchiveUrlsDisjoint | src/Methods.cs:874-906 | The three archive cases never overlap, so at most one archive read happens. |
| LicenseTexts.ArchiveStage | src/Methods.cs:874-906 | The archive ends the stage only for an archive URL. Only text fields change, and a failure is an I/O fault. |
| LicenseTexts.FromBody | src/Methods.cs:909-934 | A non-HTML body becomes the text with source "LicenseUrl". An HTML body is stored aside. It fails exactly when the last run's record has a different text source and cached pages may not be updated, and the error names the override file. |
| LicenseTexts.AddFromLicenseUrlAsWritten | src/Methods.cs:866-935 | As written: an empty license URL leaves the record unchanged. |
| LicenseTexts.AddFromLicenseUrl | src/Methods.cs:866-935 | Corrected: an empty URL leaves the record unchanged, only text fields change, and a failure is I/O, out of fuel or HTML drift. |
| LicenseTexts.FailedDownload | src/Methods.cs:908-910 | A failed download of a non-archive URL aborts the run as written (the HTML test of null). Corrected, it leaves the record to the override stage. |
| LicenseTexts.AsWrittenAgreesOtherwise | src/Methods.cs:866-935 | Apart from that case, the written and the corrected stage agree. |
| LicenseTexts.HtmlContentIrrelevant | src/Methods.cs:909-930 | Two HTML bodies give the same outcome apart from the stored page. The page content is never compared. |
| LicenseTexts.DriftMeansSourceRecorded | src/Methods.cs:912-916 | For a record with no text yet, drift means the last run recorded a text source for it. |
| LicenseTexts.HtmlDrift | src/Methods.cs:912-916 | Drift: the last run has a record of the same name and version whose text source differs from the current one. A definition; LicenseTexts.FromBody and LicenseTexts.DriftMeansSourceRecorded state its effect. |
| LicenseTexts.AddFromLocalFile | src/Methods.cs:802-812 | A missing override file fails with its path. Otherwise its text is set with source "Local File". |
| LicenseTexts.AddLicenseText | src/Methods.cs:783-800 | With the corrected license-URL stage: only text fields change. A success leaves a non-empty text, unless the override file exists but is blank. |
| LicenseTexts.GitHubTextEndsChain | src/Methods.cs:786-790 | A text found on GitHub ends the chain; the URL, the archive and the override file are not consulted. |
| LicenseTexts.UrlTextEndsChain | src/Methods.cs:792-796 | A text found through the license URL ends the chain before the override file. |
| LicenseTexts.OverrideOnlyRecord | src/Methods.cs:783-800 | A record with no repository, no URL and no text is decided by the override file alone. |
| LicenseTexts.AddLicenseTexts | src/Methods.cs:783-800 | With the corrected license-URL stage: all records succeed exactly when each does. The result is each record's own outcome, in order. |
| LicenseTexts.AddLicenseTextsKeepsRecords | src/Methods.cs:783-800 | The list keeps every record apart from its text fields. |
| Report.Credit | src/Methods.cs:1039-1050 | A non-blank copyright is the credit. Otherwise the authors are the credit, and with no authors the run fails naming the package. |
| Report.Header | src/Methods.cs:1036 | The sentence naming the package and its URL that opens every notice. A definition; Report.NoticeShape and Report.ReportOpensWithFirstNotice state where it appears. |
| Report.Notice | src/Methods.cs:1036-1059 | A notice renders exactly when the record has a credit and a non-blank license text. Otherwise it fails with the first missing piece. |
| Report.NoticeShape | src/Methods.cs:1036-1059 | A notice opens with the header and a blank line, and ends with " text" and a blank line. |
| Report.Collect | src/Methods.cs:1034-1060 | Rendering all parts succeeds exactly when every part does. |
| Report.CollectFirstError | src/Methods.cs:1034-1060 | The run fails with the first failing part's error. |
| Report.CollectAppend | src/Methods.cs:1034-1060 | The report of a concatenation is the concatenation of the reports. |
| Report.Notices | src/Methods.cs:1034-1060 | All notices render exactly when every record is renderable. |
| Report.NoticesFirstError | src/Methods.cs:1034-1060 | The first unrenderable record decides the error. |
| Report.NoticesAppend | src/Methods.cs:1034-1060 | The notices of two lists concatenate. |
| Report.NoticeInPlace | src/Methods.cs:1034-1060 | The report is the notices before a record, its notice, and the notices after it. |
| Report.SaveAsText | src/Methods.cs:1030-1063 | An empty list writes nothing. Otherwise the report is written exactly when every record is renderable. |
| Report.ReportOpensWithFirstNotice | src/Methods.cs:1034-1038 | A report opens with the first record's header. |
| Report.NoticeHoldsText | src/Methods.cs:1057-1059 | A notice contains its record's license text. |
| Report.ReportHoldsEveryText | src/Methods.cs:1030-1063 | A written report contains every record's license text. |
| Collector.RemoveOrigam | src/CsAttributionCollector.cs:68-73 | No kept record is Origam's, and the result is drawn from the input. |
| Collector.RemoveOrigamKeeps | src/CsAttributionCollector.cs:68-73 | A record is kept exactly when it is in the input and its lower-cased name does not contain "origam". |
| Collector.OrigamIgnoresCase | src/CsAttributionCollector.cs:71 | Lower-casing the name does not change the verdict. |
| Collector.FirstValidProject | src/Methods.cs:278-281 | `FirstOrDefault` over the valid projects: None exactly when there are none, else the first. Errors propagate. |
| Collector.CheckLicenses | src/CsAttributionCollector.cs:76-84 | The run goes on exactly when the records are valid. Otherwise it fails with the offenders and the allow-list. |
| Collector.Mapped | src/CsAttributionCollector.cs:31-34 | Finding the projects fails the run with its own error. The mapped records are sorted by name. |
| Collector.Finish | src/CsAttributionCollector.cs:37-51 | With the corrected license-URL stage: every written record is not Origam's, carries no deprecated URL and is renderable. No report is written exactly when no record is left. |
| Collector.TextsKeepNames | src/CsAttributionCollector.cs:37-42 | Fetching texts and rewriting the deprecated URL keep every name, so Origam's packages, once removed, do not come back. |
| Collector.Pipeline | src/CsAttributionCollector.cs:29-55 | With the corrected stages: a mapping failure is the run's failure. The run goes past the allow-list check exactly on valid records, and fails with the offenders otherwise. A finished run writes only renderable records that are not Origam's, and its report is their rendering. |
| Collector.Execute | src/CsAttributionCollector.cs:10-66 | With the corrected stages: the exit code is 1 exactly when the directory is blank, or assets are used without transitive lookup. It is -1 when the pipeline fails and 0 otherwise. Only 0 writes anything. |
| Collector.ExecuteSucceeded | src/CsAttributionCollector.cs:29-54 | Exit code 0 means the pipeline ran to its end. The written report is the rendering of the persisted records, which are not Origam's and carry no deprecated URL. |
| Collector.SuccessfulRunReport | src/CsAttributionCollector.cs:29-54 | After a successful run each persisted record is not Origam's, has no deprecated URL and is renderable, and its license text is in the report. |
| Collector.InvalidLicensesStopBeforeTexts | src/CsAttributionCollector.cs:33-39 | A failed allow-list check fails the run before any license text is fetched. |
| Collector.OrigamPackagesStillValidated | src/CsAttributionCollector.cs:35-37 | Origam's own packages are checked before they are dropped: a disallowed one fails the run. |
| Collector.BlankDirectoryRefused | src/CsAttributionCollector.cs:13-19 | A blank project directory is refused with exit code 1 before anything is read. |
| Attributions.FirstBanner | OrigamAttributionsGenerator/Program.cs:128-135 | None exactly when no line holds the banner. Otherwise the least index of a banner line. |
| Attributions.CleanedJs | OrigamAttributionsGenerator/Program.cs:118-139 | The cleaned disclaimer is empty exactly when no line holds the banner. |
| Attributions.CleanJsAttributions | OrigamAttributionsGenerator/Program.cs:118-139 | The loop with its "begun" flag computes the cleaned disclaimer: the lines from the first banner line on, each closed by CR LF. |
| Attributions.CleanedAfterBanner | OrigamAttributionsGenerator/Program.cs:124-127 | After the banner every later line is kept, banner lines included. |
| Attributions.CleanedBeforeBanner | OrigamAttributionsGenerator/Program.cs:128-135 | Lines before the banner are dropped. |
| Attributions.CleanedStartsWithBanner | OrigamAttributionsGenerator/Program.cs:130-133 | The cleaned text opens with the first banner line and contains the banner. |
| Attributions.MergeFiles | OrigamAttributionsGenerator/Program.cs:50-60 | The merged file is the cleaned disclaimer, then two CR LF, then the report, at exactly those positions. |
| Attributions.MergeWithoutBanner | OrigamAttributionsGenerator/Program.cs:50-60 | Without the banner only the separator precedes the report. |

## Left out

- Console output, logging (`WriteOutput`), `PrintLicenses`, the elapsed-time message and the exit message are not modelled. They do not affect results.
- `PersistRunInfo` and every file write are not modelled. `Execute` returns the report and the records it would persist.
- File reads are oracles: the solution, project, packages.config and assets files, the JSON project list and the override files. So are HTTP (`HttpClient`), the GitHub API (Octokit), `GetNuGetPackageFileResult`, `GetLicenceFromNpkgFile`, the local NuGet folder and the last run's records. XML and JSON parsing are given as their parsed results (`ReferenceElement`, package attributes, assets target keys).
- The Linux lower-case retry for the local .nuspec path is inside the `localNuspec` oracle.
- `IsHtml`'s regular expression is not modelled. It is the uninterpreted predicate `isHtml`.
- The GitHub auth token and the rate-limit warning are not modelled.
- `HtmlLicenseLink` (significant-text extraction with HtmlAgilityPack) is not modelled. The stored page is kept as a string, since the drift check never compares its content.
- `LibraryInfo.Owners`, `SourceData` and `Source` are not modelled. `PackageVersion` is a string rather than `System.Version`.
- `ExportJavascriptAttributionsToFile` (the yarn process), `ExportCsAttributionsToFile` and the generator's `Main` are not modelled.
- `LibraryNameAndVersionComparer` is not part of this model. It is taken to compare name and version, which is how `Except` uses it.
- `License.IsLicenseFile` is not part of this model. It is taken to mean a license element whose type is "file".
- `ToLower` and `OrdinalIgnoreCase` comparisons fold ASCII letters only. Culture-sensitive `StartsWith` and `OrderBy` are ordinal.
- Path handling (`Path.Combine`, `FileInfo`, `EnsureCorrectPathCharacter`) is inside the `Discovery` oracles. Paths use '/' as their separator.
- Packages.GetNugetInformation: the source puts no bound on the transitive recursion. The model spends one unit of fuel per transitive descent and answers None when the fuel runs out.
- LicenseTexts.Download: `DownloadFile` loops on redirects without a bound of its own (the HTTP client caps them). The model bounds redirects by a count and reports OutOfFuel beyond it.
- Licensing.ValidatePackages: `ValidateLicenses` over the package table is not called by `Execute`. It is modelled on its own, with its in-place rewrite of the license text returned as a new package.
- Projects.GetValidProjects: a JSON list that fails to read is an I/O error, and so is a directory `EnumerateFiles` cannot read. A directory that does not exist is not distinguished from an unreadable one.
- LicenseTexts.AddLicenseText: composes the corrected license-URL stage (LicenseTexts.AddFromLicenseUrl). So it does not promise the source's abort when a non-archive license URL fails to download; LicenseTexts.AddFromLicenseUrlAsWritten and LicenseTexts.FailedDownload model that.
- LicenseTexts.AddLicenseTexts: composes LicenseTexts.AddLicenseText, so it has the same difference.
- Collector.Finish: composes LicenseTexts.AddLicenseTexts, so it has the same difference.
- Collector.Pipeline: composes the corrected license-URL stage and the corrected reference selector (Projects.ParseReference). The source aborts on a failed download, and queries only the lower bound of a range reference.
- Collector.Execute: runs Collector.Pipeline, so a run the source ends with -1 on a failed download may end with 0 here.
- Projects.ParseReferences: uses the corrected selector, which splits at the first ',' only. Projects.ParseReferenceAsWritten, Projects.RangeUpperBoundLost and Projects.ClosedRangeReference model the selector as written.
- Projects.ProjectStep: uses Projects.ParseReferences, so it has the same difference.
- Projects.GetPackagesFrom: uses Projects.ProjectStep, so it has the same difference.
- Projects.GetPackages: uses Projects.GetPackagesFrom, so it has the same difference.
- Licensing.ValidateEach: its own contract states only lengths and projects. Licensing.ValidateEachOffenders states its verdict, kept out of the function's contract to keep each proof small.
- LicenseTexts.AddFromGitHub: the source does not catch exceptions from the GitHub API, so they end the run (-1) rather than being skipped.
- LicenseTexts.FromBody: the drift check compares the text source of the last run's record with the current record's, which at that point is unset. It does not compare page contents.

## Findings

| source | as written | input that shows it | evidently intended | confidence | as-written member | corrected member |
|---|---|---|---|---|---|---|
| src/Methods.cs:908-910 | `DownloadFile` returns null on a non-success status, and `IsHtml(null)` then throws inside `Regex.IsMatch`, aborting the whole run | a record whose license URL is not an archive URL and answers 404 | a failed download leaves the text empty, so the override file is consulted next | not executed | LicenseTexts.AddFromLicenseUrlAsWritten (shown by LicenseTexts.FailedDownload) | LicenseTexts.AddFromLicenseUrl |
| src/Methods.cs:248-252 | a reference is split on every ',' and piece 1 is taken as the version | "System.Linq,[4.1.0,4.3.0]" from a project file becomes version "[4.1.0", so 4.3.0 is never looked up | split at the first ',' only, so the range reaches the version expansion whole | not executed | Projects.ParseReferenceAsWritten (shown by Projects.RangeUpperBoundLost and Projects.ClosedRangeReference) | Projects.ParseReference |
