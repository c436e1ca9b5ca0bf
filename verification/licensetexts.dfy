/** The license-text fallback chain of src/Methods.cs (`AddLicenseTexts`,
    `AddLicenseTextFromGitHub`, `AddLicenseTextFormLicenseUrl`,
    `AddLicenseTextFromLocalFile`, `DownloadFile`, `CorrectUri`,
    `GetLicenseFileName`). For each record the GitHub stage runs first; the
    license-URL stage runs only when the text is still empty, and the
    local override file only when both left it empty.

    The GitHub API, the package archive, HTTP and the file system are
    oracles gathered in `TextSources`. */
module LicenseTexts {
  import opened Wrappers
  import opened Text
  import opened Model
  import GitHub
  import Licensing

  /** The directory of hand-maintained license files. */
  const LicenseOverrideDir: string := "./LicenseFiles/ManualOverrides"

  /** `GetLicenseFileName`: "{name}_{version}.txt". */
  function LicenseFileName(info: LibraryInfo): (r: string)
    ensures EndsWith(r, ".txt") && StartsWith(r, info.packageName + "_")
  {
    var r := info.packageName + "_" + info.packageVersion + ".txt";
    assert r[..|info.packageName| + 1] == info.packageName + "_";
    r
  }

  /** With an underscore-free package name, the file name gives back the
      name (the text before the first '_') and the version. */
  lemma LicenseFileNameParts(info: LibraryInfo)
    requires '_' !in info.packageName
    ensures Split(LicenseFileName(info), '_')[0] == info.packageName
    ensures LicenseFileName(info)[|info.packageName| + 1..|LicenseFileName(info)| - 4] == info.packageVersion
  {
    var f := LicenseFileName(info);
    assert f == info.packageName + ['_'] + (info.packageVersion + ".txt");
    SplitConcat(info.packageName, info.packageVersion + ".txt", '_');
  }

  /** The name is not unique when names contain '_': two different packages
      share an override file. */
  lemma LicenseFileNameCollides()
    ensures LicenseFileName(LibraryInfo("a_b", "1", "", "", None, "", None, None, None, None, None, None, None))
         == LicenseFileName(LibraryInfo("a", "b_1", "", "", None, "", None, None, None, None, None, None, None))
  {
  }

  /** `GetLicenseOverrideFile`: the file name under the override directory
      (the path separator is '/'). */
  function OverridePath(info: LibraryInfo): (r: string)
    ensures StartsWith(r, LicenseOverrideDir + "/") && EndsWith(r, LicenseFileName(info))
  {
    var r := LicenseOverrideDir + "/" + LicenseFileName(info);
    assert r[..|LicenseOverrideDir| + 1] == LicenseOverrideDir + "/";
    assert r[|r| - |LicenseFileName(info)|..] == LicenseFileName(info);
    r
  }

  // ---------------------------------------------------------------------------
  // Downloads

  /** `IsGithub`: an ordinal prefix test. */
  predicate IsGitHubUri(uri: string) {
    StartsWith(uri, "https://github.com")
  }

  /** `CorrectUri`: a GitHub "/blob/" page becomes its "/raw/" file. */
  function CorrectUri(uri: string): (r: string)
    ensures !IsGitHubUri(uri) || !Contains(uri, "/blob/") ==> r == uri
    ensures r != uri ==> |r| < |uri|
    ensures IsGitHubUri(uri) && Contains(uri, "/blob/") ==> r != uri
  {
    if IsGitHubUri(uri) && Contains(uri, "/blob/") then Replace(uri, "/blob/", "/raw/") else uri
  }

  /** Every "/blob/" of a GitHub URI, scanning left to right, becomes
      "/raw/": the text before the first one is kept, and the rest is
      rewritten in the same way. */
  lemma CorrectUriRewritesBlob(a: string, t: string)
    requires IsGitHubUri(a + "/blob/" + t)
    requires FirstAt(a + "/blob/" + t, "/blob/", |a|)
    ensures CorrectUri(a + "/blob/" + t) == a + "/raw/" + Replace(t, "/blob/", "/raw/")
    ensures !Contains(t, "/blob/") ==> CorrectUri(a + "/blob/" + t) == a + "/raw/" + t
  {
    ReplaceAtFirst(a, "/blob/", t, "/raw/");
  }

  /** A repository's license page becomes its raw file. */
  lemma CorrectUriOfLicensePage()
    ensures CorrectUri("https://github.com/o/r" + "/blob/main/LICENSE") == "https://github.com/o/r" + "/raw/main/LICENSE"
  {
    var a := "https://github.com/o/r";
    var t := "main/LICENSE";
    var s := a + "/blob/" + t;
    assert s == a + "/blob/main/LICENSE";
    assert a + "/raw/" + t == a + "/raw/main/LICENSE";
    assert StartsWith(s, "https://github.com") by {
      assert s[..18] == "https://github.com";
    }
    forall i | 0 <= i < |a|
      ensures !ContainsAt(s, "/blob/", i)
    {
      assert s[i..i + 6][1] == s[i + 1] && s[i..i + 6][0] == s[i];
    }
    assert ContainsAt(s, "/blob/", |a|) by {
      assert s[|a|..|a| + 6] == "/blob/";
    }
    assert !Contains(t, "/blob/") by {
      forall i | 0 <= i <= |t| - 6
        ensures !ContainsAt(t, "/blob/", i)
      {
        assert t[i..i + 6][0] == t[i] && t[i..i + 6][1] == t[i + 1];
      }
    }
    CorrectUriRewritesBlob(a, t);
  }

  /** The answer of one GET: the request failed to send, a non-success
      status, or a body with the URI the request ended at (after the HTTP
      client's own redirects). */
  datatype Response = Unreachable | NonSuccess | Success(requestUri: string, body: string)

  /** A downloaded document and the URI it was read from. */
  datatype Fetched = Fetched(uri: string, body: string)

  /** `DownloadFile`: a non-success status gives null; a redirect restarts
      from the URI reached; a URI `CorrectUri` would change restarts from
      the corrected URI; otherwise the body is the result. The source loop is
      unbounded on redirects; the model allows `redirects` of them. The
      correction branch needs no bound: each correction shortens the URI. */
  function Download(fetch: string -> Response, source: string, redirects: nat): (r: Result<Option<Fetched>, Error>)
    ensures r.Ok? && r.value.Some? ==>
              fetch(r.value.value.uri) == Success(r.value.value.uri, r.value.value.body)
              && CorrectUri(r.value.value.uri) == r.value.value.uri
    ensures r.Ok? && r.value.Some? ==> !(IsGitHubUri(r.value.value.uri) && Contains(r.value.value.uri, "/blob/"))
    ensures r.Err? ==> r.error == IoFault || r.error == OutOfFuel
    ensures fetch(source) == NonSuccess ==> r == Ok(None)
    ensures fetch(source) == Unreachable ==> r == Err(IoFault)
    decreases redirects, |source|
  {
    match fetch(source)
    case Unreachable => Err(IoFault)
    case NonSuccess => Ok(None)
    case Success(uri, body) =>
      if uri != source then
        if redirects == 0 then Err(OutOfFuel) else Download(fetch, uri, redirects - 1)
      else if CorrectUri(source) != source then Download(fetch, CorrectUri(source), redirects)
      else Ok(Some(Fetched(source, body)))
  }

  /** Without redirects the bound on them plays no part. */
  lemma {:induction false} DownloadWithoutRedirects(fetch: string -> Response, source: string, n: nat, m: nat)
    requires forall u :: fetch(u).Success? ==> fetch(u).requestUri == u
    ensures Download(fetch, source, n) == Download(fetch, source, m)
    decreases |source|
  {
    match fetch(source)
    case Unreachable =>
    case NonSuccess =>
    case Success(uri, body) =>
      if CorrectUri(source) != source {
        DownloadWithoutRedirects(fetch, CorrectUri(source), n, m);
      }
  }

  // ---------------------------------------------------------------------------
  // Stages

  /** The outside world of the chain. `gitHubContents` lists the (name, path)
      of a repository's root entries; `gitHubFile` is the content of the
      first entry at a path; `packageFile` is `GetLicenceFromNpkgFile`
      (package, file in the package, version); `overrideFile` is the text of
      an existing file; `lastRun` holds the records persisted by the previous
      run; `isHtml` is the HTML test, an uninterpreted predicate. */
  datatype TextSources = TextSources(
    gitHubContents: (string, string) -> Reply<seq<(string, string)>>,
    gitHubFile: (string, string, string) -> Reply<Option<string>>,
    packageFile: (string, Option<string>, string) -> Reply<Option<string>>,
    fetch: string -> Response,
    redirects: nat,
    isHtml: string -> bool,
    overrideFile: string -> Option<string>,
    lastRun: seq<LibraryInfo>,
    updateCachedHtml: bool)

  /** Only the text fields of a record differ. */
  predicate SameButText(a: LibraryInfo, b: LibraryInfo) {
    b == a.(licenseText := b.licenseText, licenseTextSource := b.licenseTextSource, licenseTextHtml := b.licenseTextHtml)
  }

  /** The first repository entry whose lower-cased name contains "license". */
  function FirstLicenseEntry(entries: seq<(string, string)>): (r: Option<string>)
    ensures r.None? <==> forall i :: 0 <= i < |entries| ==> !Contains(Lower(entries[i].0), "license")
    ensures r.Some? ==> exists i :: 0 <= i < |entries| && entries[i].1 == r.value && Contains(Lower(entries[i].0), "license")
                          && forall j :: 0 <= j < i ==> !Contains(Lower(entries[j].0), "license")
    decreases |entries|
  {
    if |entries| == 0 then None
    else if Contains(Lower(entries[0].0), "license") then Some(entries[0].1)
    else
      var r := FirstLicenseEntry(entries[1..]);
      assert forall i :: 1 <= i < |entries| ==> entries[i] == entries[1..][i - 1];
      if r.Some? then
        var i :| 0 <= i < |entries[1..]| && entries[1..][i].1 == r.value && Contains(Lower(entries[1..][i].0), "license")
                 && forall j :: 0 <= j < i ==> !Contains(Lower(entries[1..][j].0), "license");
        assert entries[i + 1] == entries[1..][i];
        r
      else r
  }

  /** The repository is a git repository with a URL. */
  predicate HasGitRepository(info: LibraryInfo) {
    && info.repository.Some?
    && info.repository.value.kind.Some?
    && Lower(info.repository.value.kind.value) == "git"
    && !IsNullOrEmpty(info.repository.value.url)
  }

  /** `AddLicenseTextFromGitHub`. Nothing in it catches: a repository URL
      the parser rejects, or a failing API call, ends the run. */
  function AddFromGitHub(info: LibraryInfo, src: TextSources): (r: Result<LibraryInfo, Error>)
    ensures !HasGitRepository(info) ==> r == Ok(info)
    ensures HasGitRepository(info) && !GitHub.IsValid(info.repository.value.url.value)
            ==> r == Err(CannotParseRepositoryUrl(info.repository.value.url.value))
    ensures r.Ok? ==> SameButText(info, r.value) && r.value.licenseTextHtml == info.licenseTextHtml
    ensures r.Ok? && r.value != info ==> r.value.licenseTextSource == Some("GitHub") && !IsNullOrWhiteSpace(r.value.licenseText)
    ensures TextInvariant(info) && r.Ok? ==> TextInvariant(r.value)
  {
    if !HasGitRepository(info) then Ok(info)
    else
      var repo :- GitHub.Parse(info.repository.value.url.value);
      match src.gitHubContents(repo.user, repo.repositoryName)
      case Threw => Err(IoFault)
      case Returned(entries) =>
        match FirstLicenseEntry(entries)
        case None => Ok(info)
        case Some(path) =>
          match src.gitHubFile(repo.user, repo.repositoryName, path)
          case Threw => Err(IoFault)
          case Returned(text) =>
            if IsNullOrEmpty(text) then Ok(info) else Ok(TrySetLicenseText(info, text, "GitHub"))
  }

  /** The URLs that stand for the .NET library license. */
  const DotnetLicenseUrls: seq<string> := [
    "http://go.microsoft.com/fwlink/?LinkId=329770",
    "https://dotnet.microsoft.com/en/" + "dotnet_library_license.htm"]

  /** The file read from the package archive for a license URL, if any: the
      license type for the deprecated URL, the .NET library license for its
      two URLs, and License.txt for licenses.nuget.org. */
  function ArchiveFile(url: string, licenseType: Option<string>): (r: Option<Option<string>>)
    ensures url == Licensing.DeprecatedLicenseUrl ==> r == Some(licenseType)
    ensures url in DotnetLicenseUrls ==> r == Some(Some("dotnet_library_license.txt"))
    ensures StartsWith(url, "https://licenses.nuget.org") ==> r == Some(Some("License.txt"))
    ensures r.None? <==> url != Licensing.DeprecatedLicenseUrl && url !in DotnetLicenseUrls && !StartsWith(url, "https://licenses.nuget.org")
  {
    ArchiveUrlsDisjoint(url);
    if url == Licensing.DeprecatedLicenseUrl then Some(licenseType)
    else if url in DotnetLicenseUrls then Some(Some("dotnet_library_license.txt"))
    else if StartsWith(url, "https://licenses.nuget.org") then Some(Some("License.txt"))
    else None
  }

  /** The three archive cases never overlap, so at most one archive read
      happens per record. */
  lemma ArchiveUrlsDisjoint(url: string)
    ensures url == Licensing.DeprecatedLicenseUrl ==> url !in DotnetLicenseUrls && !StartsWith(url, "https://licenses.nuget.org")
    ensures url in DotnetLicenseUrls ==> !StartsWith(url, "https://licenses.nuget.org")
  {
    var deprecated := "https://aka.ms/deprecateLicenseUrl";
    var fwlink := "http://go.microsoft.com/fwlink/?LinkId=329770";
    var dotnet := "https://dotnet.microsoft.com/en/" + "dotnet_library_license.htm";
    var nuget := "https://licenses.nuget.org";
    assert DotnetLicenseUrls == [fwlink, dotnet];
    assert deprecated[8] == 'a' && fwlink[4] == ':' && dotnet[8] == 'd' && nuget[8] == 'l' && nuget[4] == 's';
    if StartsWith(url, nuget) {
      assert url[8] == url[..26][8] == 'l';
      assert url[4] == url[..26][4] == 's';
    }
  }

  /** The tag of texts read from the package archive. */
  const ArchiveTag: string := "LicenseUrl (NpkgFile)"

  /** The archive half of the URL stage: Some when the stage ends there. The
      stage ends when the archive gives a non-empty text, set or not (a text
      of white space only is ignored by the setter). */
  function ArchiveStage(info: LibraryInfo, url: string, src: TextSources): (r: Option<Result<LibraryInfo, Error>>)
    ensures ArchiveFile(url, info.licenseType).None? ==> r.None?
    ensures r.Some? && r.value.Ok? ==> SameButText(info, r.value.value) && r.value.value.licenseTextHtml == info.licenseTextHtml
    ensures TextInvariant(info) && r.Some? && r.value.Ok? ==> TextInvariant(r.value.value)
    ensures r.Some? && r.value.Err? ==> r.value.error == IoFault
  {
    match ArchiveFile(url, info.licenseType)
    case None => None
    case Some(file) =>
      match src.packageFile(info.packageName, file, info.packageVersion)
      case Threw => Some(Err(IoFault))
      case Returned(text) =>
        if IsNullOrEmpty(text) then None
        else Some(Ok(TrySetLicenseText(info, text, ArchiveTag)))
  }

  /** The drift check: a record of the last run with the same name and
      version whose `licenseTextSource` differs from the current one. */
  predicate HtmlDrift(info: LibraryInfo, lastRun: seq<LibraryInfo>) {
    var previous := Licensing.FindByKey(lastRun, info.packageName, info.packageVersion);
    previous.Some? && previous.value.licenseTextSource != info.licenseTextSource
  }

  /** A downloaded body: an HTML page is stored aside (an error when the
      page drifted and cached pages may not be updated); any other body is
      the license text. */
  function FromBody(info: LibraryInfo, body: string, src: TextSources): (r: Result<LibraryInfo, Error>)
    ensures !src.isHtml(body) ==> r == Ok(TrySetLicenseText(info, Some(body), "LicenseUrl"))
    ensures src.isHtml(body) ==> (r.Err? <==> HtmlDrift(info, src.lastRun) && !src.updateCachedHtml)
    ensures src.isHtml(body) && r.Ok? ==> r.value == info.(licenseTextHtml := Some(body))
    ensures r.Err? ==> r.error == HtmlLicenseChanged(OverridePath(info))
  {
    if src.isHtml(body) then
      if HtmlDrift(info, src.lastRun) && !src.updateCachedHtml then Err(HtmlLicenseChanged(OverridePath(info)))
      else Ok(info.(licenseTextHtml := Some(body)))
    else Ok(TrySetLicenseText(info, Some(body), "LicenseUrl"))
  }

  /** `AddLicenseTextFormLicenseUrl` AS WRITTEN: a failed download yields
      null, and the HTML test of null throws. */
  function AddFromLicenseUrlAsWritten(info: LibraryInfo, src: TextSources): (r: Result<LibraryInfo, Error>)
    ensures IsNullOrEmpty(info.licenseUrl) ==> r == Ok(info)
  {
    if IsNullOrEmpty(info.licenseUrl) then Ok(info)
    else
      var url := info.licenseUrl.value;
      match ArchiveStage(info, url, src)
      case Some(result) => result
      case None =>
        var downloaded :- Download(src.fetch, url, src.redirects);
        if downloaded.None? then Err(NullHtmlInput)
        else FromBody(info, downloaded.value.body, src)
  }

  /** `AddLicenseTextFormLicenseUrl` as intended: a failed download leaves
      the text unset, so the chain goes on to the override file. */
  function AddFromLicenseUrl(info: LibraryInfo, src: TextSources): (r: Result<LibraryInfo, Error>)
    ensures IsNullOrEmpty(info.licenseUrl) ==> r == Ok(info)
    ensures r.Ok? ==> SameButText(info, r.value)
    ensures TextInvariant(info) && r.Ok? ==> TextInvariant(r.value)
    ensures r.Err? ==> r.error in {IoFault, OutOfFuel, HtmlLicenseChanged(OverridePath(info))}
  {
    if IsNullOrEmpty(info.licenseUrl) then Ok(info)
    else
      var url := info.licenseUrl.value;
      match ArchiveStage(info, url, src)
      case Some(result) => result
      case None =>
        var downloaded :- Download(src.fetch, url, src.redirects);
        if downloaded.None? then Ok(info)
        else FromBody(info, downloaded.value.body, src)
  }

  /** A license URL outside the archive cases whose server answers with a
      failure status: as written the run ends with an error, while the
      corrected stage leaves the record unchanged. */
  lemma FailedDownload(info: LibraryInfo, src: TextSources)
    requires !IsNullOrEmpty(info.licenseUrl)
    requires ArchiveFile(info.licenseUrl.value, info.licenseType).None?
    requires src.fetch(info.licenseUrl.value) == NonSuccess
    ensures AddFromLicenseUrlAsWritten(info, src) == Err(NullHtmlInput)
    ensures AddFromLicenseUrl(info, src) == Ok(info)
  {
  }

  /** The two versions differ only on a failed download. */
  lemma AsWrittenAgreesOtherwise(info: LibraryInfo, src: TextSources)
    requires AddFromLicenseUrlAsWritten(info, src) != Err(NullHtmlInput)
    ensures AddFromLicenseUrlAsWritten(info, src) == AddFromLicenseUrl(info, src)
  {
  }

  /** An HTML page decides nothing by its content: two pages give the same
      outcome up to the stored page. */
  lemma HtmlContentIrrelevant(info: LibraryInfo, a: string, b: string, src: TextSources)
    requires src.isHtml(a) && src.isHtml(b)
    ensures FromBody(info, a, src).Ok? <==> FromBody(info, b, src).Ok?
    ensures FromBody(info, a, src).Ok? ==> FromBody(info, a, src).value.(licenseTextHtml := None) == FromBody(info, b, src).value.(licenseTextHtml := None)
  {
  }

  /** At the URL stage the record has no text, hence (by the setter
      invariant) no source: drift means the last run recorded any source
      at all for this package. */
  lemma DriftMeansSourceRecorded(info: LibraryInfo, lastRun: seq<LibraryInfo>)
    requires TextInvariant(info) && info.licenseText.None?
    ensures HtmlDrift(info, lastRun) <==>
              var previous := Licensing.FindByKey(lastRun, info.packageName, info.packageVersion);
              previous.Some? && previous.value.licenseTextSource.Some?
  {
  }

  /** `AddLicenseTextFromLocalFile`: the override file must exist. */
  function AddFromLocalFile(info: LibraryInfo, src: TextSources): (r: Result<LibraryInfo, Error>)
    ensures src.overrideFile(OverridePath(info)).None? <==> r == Err(MissingLicenseOverride(OverridePath(info)))
    ensures r.Ok? ==> r.value == TrySetLicenseText(info, src.overrideFile(OverridePath(info)), "Local File")
  {
    match src.overrideFile(OverridePath(info))
    case None => Err(MissingLicenseOverride(OverridePath(info)))
    case Some(text) => Ok(TrySetLicenseText(info, Some(text), "Local File"))
  }

  /** One record through the chain: the first stage that leaves a non-empty
      text wins. */
  function AddLicenseText(info: LibraryInfo, src: TextSources): (r: Result<LibraryInfo, Error>)
    ensures r.Ok? ==> SameButText(info, r.value)
    ensures TextInvariant(info) && r.Ok? ==> TextInvariant(r.value)
    ensures r.Ok? ==> !IsNullOrEmpty(r.value.licenseText)
                      || (src.overrideFile(OverridePath(info)).Some? && IsBlank(src.overrideFile(OverridePath(info)).value))
  {
    var fromGitHub :- AddFromGitHub(info, src);
    if !IsNullOrEmpty(fromGitHub.licenseText) then Ok(fromGitHub)
    else
      var fromUrl :- AddFromLicenseUrl(fromGitHub, src);
      if !IsNullOrEmpty(fromUrl.licenseText) then Ok(fromUrl)
      else
        assert OverridePath(fromUrl) == OverridePath(info);
        AddFromLocalFile(fromUrl, src)
  }

  /** A text found on GitHub ends the chain: neither the license URL, the
      package archive nor the override directory is consulted. */
  lemma GitHubTextEndsChain(info: LibraryInfo, src: TextSources,
                            fetch: string -> Response,
                            packageFile: (string, Option<string>, string) -> Reply<Option<string>>,
                            overrideFile: string -> Option<string>)
    requires AddFromGitHub(info, src).Ok? && !IsNullOrEmpty(AddFromGitHub(info, src).value.licenseText)
    ensures AddLicenseText(info, src.(fetch := fetch, packageFile := packageFile, overrideFile := overrideFile))
         == AddFromGitHub(info, src)
  {
    var src' := src.(fetch := fetch, packageFile := packageFile, overrideFile := overrideFile);
    assert AddFromGitHub(info, src') == AddFromGitHub(info, src);
  }

  /** A text found through the license URL ends the chain before the
      override directory. */
  lemma UrlTextEndsChain(info: LibraryInfo, src: TextSources, overrideFile: string -> Option<string>)
    requires AddFromGitHub(info, src).Ok? && IsNullOrEmpty(AddFromGitHub(info, src).value.licenseText)
    requires AddFromLicenseUrl(AddFromGitHub(info, src).value, src).Ok?
    requires !IsNullOrEmpty(AddFromLicenseUrl(AddFromGitHub(info, src).value, src).value.licenseText)
    ensures AddLicenseText(info, src.(overrideFile := overrideFile)) == AddFromLicenseUrl(AddFromGitHub(info, src).value, src)
  {
    var src' := src.(overrideFile := overrideFile);
    assert AddFromGitHub(info, src') == AddFromGitHub(info, src);
    var a := AddFromGitHub(info, src).value;
    assert AddFromLicenseUrl(a, src') == AddFromLicenseUrl(a, src) by {
      if !IsNullOrEmpty(a.licenseUrl) {
        assert ArchiveStage(a, a.licenseUrl.value, src') == ArchiveStage(a, a.licenseUrl.value, src);
        if ArchiveStage(a, a.licenseUrl.value, src).None? {
          assert Download(src'.fetch, a.licenseUrl.value, src'.redirects) == Download(src.fetch, a.licenseUrl.value, src.redirects);
          var d := Download(src.fetch, a.licenseUrl.value, src.redirects);
          if d.Ok? && d.value.Some? {
            assert FromBody(a, d.value.value.body, src') == FromBody(a, d.value.value.body, src);
          }
        }
      }
    }
  }

  /** A record without a git repository and without a license URL takes its
      text from the override file, which must exist. */
  lemma OverrideOnlyRecord(info: LibraryInfo, src: TextSources)
    requires !HasGitRepository(info) && IsNullOrEmpty(info.licenseUrl) && IsNullOrEmpty(info.licenseText)
    ensures AddLicenseText(info, src) == AddFromLocalFile(info, src)
  {
  }

  /** `AddLicenseTexts`: every record in order; the first failure ends the run. */
  function AddLicenseTexts(infos: seq<LibraryInfo>, src: TextSources): (r: Result<seq<LibraryInfo>, Error>)
    ensures r.Ok? <==> forall i :: 0 <= i < |infos| ==> AddLicenseText(infos[i], src).Ok?
    ensures r.Ok? ==> |r.value| == |infos| && forall i :: 0 <= i < |infos| ==> r.value[i] == AddLicenseText(infos[i], src).value
    decreases |infos|
  {
    if |infos| == 0 then Ok([])
    else
      var head :- AddLicenseText(infos[0], src);
      var tail := AddLicenseTexts(infos[1..], src);
      assert forall i :: 1 <= i < |infos| ==> infos[i] == infos[1..][i - 1];
      if tail.Err? then
        assert exists i :: 0 <= i < |infos[1..]| && AddLicenseText(infos[1..][i], src).Err?;
        Err(tail.error)
      else
        Ok([head] + tail.value)
  }

  /** The records leave the chain with only their text fields changed and
      with the setter invariant intact. */
  lemma AddLicenseTextsKeepsRecords(infos: seq<LibraryInfo>, src: TextSources)
    requires AddLicenseTexts(infos, src).Ok?
    ensures forall i :: 0 <= i < |infos| ==> SameButText(infos[i], AddLicenseTexts(infos, src).value[i])
    ensures (forall i :: 0 <= i < |infos| ==> TextInvariant(infos[i]))
            ==> forall i :: 0 <= i < |infos| ==> TextInvariant(AddLicenseTexts(infos, src).value[i])
  {
  }
}
