/** `GitHubUrlParser` (src/GitHubUrlParser.cs): recognises a GitHub repository
    URL and extracts owner and repository name from it. */
module GitHub {
  import opened Wrappers
  import opened Text
  import opened Model

  /** `GitHubUrlParser.IsValid`: non-blank, mentions "github" in any case,
      and starts with "http" or "git://". */
  predicate IsValid(url: string) {
    && !IsBlank(url)
    && Contains(Lower(url), "github")
    && (StartsWith(url, "http") || StartsWith(url, "git://"))
  }

  /** Owner and repository extracted from a URL. */
  datatype GitHubRepo = GitHubRepo(user: string, repositoryName: string)

  /** The repository segment with one trailing ".git" removed, if present. */
  function StripGitSuffix(segment: string): (r: string)
    ensures EndsWith(segment, ".git") ==> r + ".git" == segment
    ensures !EndsWith(segment, ".git") ==> r == segment
  {
    if EndsWith(segment, ".git") then segment[..|segment| - 4] else segment
  }

  /** The private `Parse`: rejects invalid URLs, then reads segments 3 and 4
      of the URL split on '/'. `IsValid` does not promise five segments, so
      a short URL fails with an index error. */
  function Parse(url: string): (r: Result<GitHubRepo, Error>)
    ensures r.Ok? <==> IsValid(url) && |Split(url, '/')| >= 5
    ensures !IsValid(url) ==> r == Err(CannotParseRepositoryUrl(url))
    ensures IsValid(url) && |Split(url, '/')| < 5 ==> r == Err(RepositoryUrlTooShort(url))
    ensures r.Ok? ==> '/' !in r.value.user && '/' !in r.value.repositoryName
  {
    if !IsValid(url) then Err(CannotParseRepositoryUrl(url))
    else
      var segments := Split(url, '/');
      if |segments| < 5 then Err(RepositoryUrlTooShort(url))
      else Ok(GitHubRepo(segments[3], StripGitSuffix(segments[4])))
  }

  /** A canonical https URL parses back into its owner and repository. */
  lemma ParseCanonicalUrl(owner: string, repo: string)
    requires '/' !in owner && '/' !in repo
    ensures Parse("https://github.com/" + owner + "/" + repo) == Ok(GitHubRepo(owner, StripGitSuffix(repo)))
  {
    var url := "https://github.com/" + owner + "/" + repo;
    assert url == "https://github.com/" + (owner + "/" + repo);
    CanonicalSegments(owner, repo);
    CanonicalIsValid(owner + "/" + repo);
    var segments := Split(url, '/');
    assert segments[3] == owner && segments[4] == repo;
  }

  lemma CanonicalSegments(owner: string, repo: string)
    requires '/' !in owner && '/' !in repo
    ensures Split("https://github.com/" + owner + "/" + repo, '/') == ["https:", "", "github.com", owner, repo]
  {
    var tail3 := owner + "/" + repo;
    var tail2 := "github.com" + "/" + tail3;
    var tail1 := "" + "/" + tail2;
    var url := "https:" + "/" + tail1;
    assert url == "https://github.com/" + owner + "/" + repo;
    SplitConcat("https:", tail1, '/');
    SplitConcat("", tail2, '/');
    SplitConcat("github.com", tail3, '/');
    SplitConcat(owner, repo, '/');
    SplitNoSeparator(repo, '/');
  }

  lemma CanonicalIsValid(path: string)
    ensures IsValid("https://github.com/" + path)
  {
    var url := "https://github.com/" + path;
    assert url[8..14] == "github";
    assert ContainsAt(Lower(url), "github", 8);
    assert !IsWhiteSpace(url[0]);
    assert url[..4] == "http";
  }

  /** `IsValid` accepts a URL that names only the host, yet `Parse` cannot
      index its owner segment. */
  lemma HostOnlyUrlIsValidButUnparsable(host: string)
    requires '/' !in host && StartsWith(host, "github")
    ensures IsValid("https://" + host)
    ensures Parse("https://" + host) == Err(RepositoryUrlTooShort("https://" + host))
  {
    var url := "https://" + host;
    assert url[8..14] == host[..6] == "github";
    assert ContainsAt(Lower(url), "github", 8);
    assert !IsWhiteSpace(url[0]);
    assert url[..4] == "http";
    assert url == "https:" + "/" + ("" + "/" + host);
    SplitConcat("https:", "" + "/" + host, '/');
    SplitConcat("", host, '/');
    SplitNoSeparator(host, '/');
    assert |Split(url, '/')| == 3;
  }

  /** An scp-style SSH remote is not a URL the parser accepts. */
  lemma SshRemoteIsInvalid()
    ensures !IsValid("git@github.com:owner/repo.git")
  {
    var url := "git@github.com:owner/repo.git";
    assert url[..4][0] != "http"[0];
    assert url[..6][3] != "git://"[3];
  }

  /** The parser object. `parsed` starts false and nothing ever sets it. */
  datatype UrlParser = UrlParser(
    repositoryUrl: string,
    parsed: bool,
    user: Option<string>,
    repositoryName: Option<string>)

  /** The constructor. */
  function NewParser(url: string): (p: UrlParser)
    ensures p.repositoryUrl == url && !p.parsed
  {
    UrlParser(url, false, None, None)
  }

  /** The private `Parse` as a state update: it fills `user` and
      `repositoryName` but leaves `parsed` as it was. */
  function ParseInto(p: UrlParser): Result<UrlParser, Error> {
    var repo :- Parse(p.repositoryUrl);
    Ok(p.(user := Some(repo.user), repositoryName := Some(repo.repositoryName)))
  }

  /** The `User` getter: parses first unless `parsed` is set. */
  function User(p: UrlParser): (r: Result<(Option<string>, UrlParser), Error>)
    ensures p.parsed ==> r == Ok((p.user, p))
    ensures !p.parsed ==> (r.Ok? <==> Parse(p.repositoryUrl).Ok?)
    ensures !p.parsed && r.Err? ==> r.error == Parse(p.repositoryUrl).error
    ensures !p.parsed && r.Ok? ==> r.value.0 == Some(Parse(p.repositoryUrl).value.user)
    ensures !p.parsed && r.Ok? ==> !r.value.1.parsed && r.value.1.repositoryUrl == p.repositoryUrl
  {
    if !p.parsed then
      var q :- ParseInto(p);
      Ok((q.user, q))
    else Ok((p.user, p))
  }

  /** The `RepositoryName` getter: parses first unless `parsed` is set. */
  function RepositoryName(p: UrlParser): (r: Result<(Option<string>, UrlParser), Error>)
    ensures p.parsed ==> r == Ok((p.repositoryName, p))
    ensures !p.parsed ==> (r.Ok? <==> Parse(p.repositoryUrl).Ok?)
    ensures !p.parsed && r.Err? ==> r.error == Parse(p.repositoryUrl).error
    ensures !p.parsed && r.Ok? ==> r.value.0 == Some(Parse(p.repositoryUrl).value.repositoryName)
    ensures !p.parsed && r.Ok? ==> !r.value.1.parsed && r.value.1.repositoryUrl == p.repositoryUrl
  {
    if !p.parsed then
      var q :- ParseInto(p);
      Ok((q.repositoryName, q))
    else Ok((p.repositoryName, p))
  }

  /** Every getter call on a parser that has not been marked parsed parses
      the URL again; the answer depends on the URL alone, fails exactly when
      `Parse` fails, and leaves the parser still unmarked. */
  lemma GettersReparse(p: UrlParser)
    requires !p.parsed
    ensures User(p).Ok? <==> Parse(p.repositoryUrl).Ok?
    ensures RepositoryName(p).Ok? <==> Parse(p.repositoryUrl).Ok?
    ensures User(p).Err? ==> User(p).error == Parse(p.repositoryUrl).error
    ensures User(p).Ok? ==> User(p).value.0 == Some(Parse(p.repositoryUrl).value.user)
    ensures User(p).Ok? ==> !User(p).value.1.parsed && User(p).value.1.repositoryUrl == p.repositoryUrl
    ensures RepositoryName(p).Ok? ==> RepositoryName(p).value.0 == Some(Parse(p.repositoryUrl).value.repositoryName)
    ensures RepositoryName(p).Ok? ==> !RepositoryName(p).value.1.parsed
  {
  }

  /** Reading `User` of an invalid URL throws. */
  lemma InvalidUrlGetterThrows(url: string)
    requires !IsValid(url)
    ensures User(NewParser(url)) == Err(CannotParseRepositoryUrl(url))
    ensures RepositoryName(NewParser(url)) == Err(CannotParseRepositoryUrl(url))
  {
  }
}
