/** The records the pipeline passes around: the package metadata read from a
    .nuspec, the per-package `LibraryInfo` output record (src/Model/LibraryInfo.cs)
    and the failures that end a run. */
module Model {
  import opened Wrappers
  import opened Text

  /** `string.IsNullOrWhiteSpace`. */
  predicate IsNullOrWhiteSpace(s: Option<string>) {
    s.None? || IsBlank(s.value)
  }

  /** `string.IsNullOrEmpty`. */
  predicate IsNullOrEmpty(s: Option<string>) {
    s.None? || |s.value| == 0
  }

  /** The repository element of a .nuspec: its `type` and `url` attributes. */
  datatype Repository = Repository(kind: Option<string>, url: Option<string>)

  /** The license element of a .nuspec: its `type` attribute (`file` for a
      license shipped inside the package) and its text. */
  datatype License = License(kind: Option<string>, text: Option<string>)

  /** One dependency of a dependency group: package id and version spec.
      A `<dependency>` element may omit its version, which reads as null. */
  datatype Dependency = Dependency(id: string, version: Option<string>)

  /** The metadata of one package as read from its .nuspec. A missing
      dependency list is the empty sequence. */
  datatype Package = Package(
    id: string,
    version: string,
    license: Option<License>,
    licenseUrl: Option<string>,
    projectUrl: Option<string>,
    copyright: Option<string>,
    authors: Option<string>,
    description: Option<string>,
    repository: Option<Repository>,
    dependencyGroups: seq<seq<Dependency>>)

  /** The record synthesized when neither the registry nor the package
      archive yields metadata: only id and version are known. */
  function Placeholder(name: string, version: string): (p: Package)
    ensures p.id == name && p.version == version
    ensures p.license.None? && p.licenseUrl.None? && p.dependencyGroups == []
  {
    Package(name, version, None, None, None, None, None, None, None, [])
  }

  /** `License.IsLicenseFile()`: the license element points at a file inside
      the package (its `type` attribute is "file"). */
  predicate IsLicenseFile(license: Option<License>) {
    license.Some? && license.value.kind == Some("file")
  }

  /** A (name, version) pair: the key of the request and license-file caches. */
  datatype PackageKey = PackageKey(name: string, version: string)

  /** The per-package output record. `licenseText` and `licenseTextSource`
      have private setters in the source and change only through
      `TrySetLicenseText`; `licenseTextHtml` holds a downloaded HTML page. */
  datatype LibraryInfo = LibraryInfo(
    packageName: string,
    packageVersion: string,
    packageUrl: string,
    copyright: string,
    authors: Option<seq<string>>,
    description: string,
    licenseUrl: Option<string>,
    licenseType: Option<string>,
    projects: Option<string>,
    repository: Option<Repository>,
    licenseText: Option<string>,
    licenseTextSource: Option<string>,
    licenseTextHtml: Option<string>)

  /** What the private setters guarantee: text and its source are set
      together, and a set text is never blank. */
  ghost predicate TextInvariant(info: LibraryInfo) {
    && (info.licenseText.Some? <==> info.licenseTextSource.Some?)
    && (info.licenseText.Some? ==> !IsBlank(info.licenseText.value))
  }

  /** `LibraryInfo.TrySetLicenseText`: blank text is ignored; otherwise text
      and source are both replaced. */
  function TrySetLicenseText(info: LibraryInfo, text: Option<string>, source: string): (r: LibraryInfo)
    ensures IsNullOrWhiteSpace(text) ==> r == info
    ensures !IsNullOrWhiteSpace(text) ==> r.licenseText == text && r.licenseTextSource == Some(source)
    ensures r == info.(licenseText := r.licenseText, licenseTextSource := r.licenseTextSource)
    ensures TextInvariant(info) ==> TextInvariant(r)
  {
    if IsNullOrWhiteSpace(text) then info
    else info.(licenseText := text, licenseTextSource := Some(source))
  }

  /** `LibraryInfo.ToString`: "{PackageName} v{PackageVersion}". */
  function Describe(info: LibraryInfo): string {
    info.packageName + " v" + info.packageVersion
  }

  /** The rendering is readable back: with a space-free package name, the
      name is the text before the first space and the version the text after
      " v". */
  lemma DescribeParts(info: LibraryInfo)
    requires ' ' !in info.packageName
    ensures Split(Describe(info), ' ')[0] == info.packageName
    ensures Describe(info)[|info.packageName| + 2..] == info.packageVersion
  {
    var d := Describe(info);
    assert d == info.packageName + [' '] + ("v" + info.packageVersion);
    SplitConcat(info.packageName, "v" + info.packageVersion, ' ');
  }

  /** Two space-free names never render alike unless name and version agree. */
  lemma DescribeInjective(a: LibraryInfo, b: LibraryInfo)
    requires ' ' !in a.packageName && ' ' !in b.packageName
    requires Describe(a) == Describe(b)
    ensures a.packageName == b.packageName && a.packageVersion == b.packageVersion
  {
    DescribeParts(a);
    DescribeParts(b);
  }

  /** The failures that end a run (thrown exceptions in the source). */
  datatype Error =
    | IoFault                                 // an exception from the network, a file or a library call
    | OutOfFuel                               // the model's recursion bound was reached
    | MissingProjectPath                      // ArgumentNullException in GetProjectReferences
    | ProjectNotFound                         // FileNotFoundException in GetProjectReferences
    | ReferenceWithoutVersion(reference: string)
    | NullLicenseFileText(key: PackageKey)    // NullReferenceException in ValidateLicenses
    | CannotParseRepositoryUrl(url: string)
    | RepositoryUrlTooShort(url: string)      // IndexOutOfRangeException in GitHubUrlParser.Parse
    | NullHtmlInput                           // ArgumentNullException from IsHtml(null)
    | HtmlLicenseChanged(overrideFile: string)
    | MissingLicenseOverride(overrideFile: string)
    | InvalidLicenses(packages: seq<LibraryInfo>, allowed: seq<string>)
    | NoCopyrightOrAuthor(packageName: string)
    | LicenseTextNotFound(packageName: string)
}
