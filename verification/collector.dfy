/** The entry point of the C# collector (src/CsAttributionCollector.cs):
    option checks, then the pipeline — projects, package lookup, mapping to
    records, the allow-list check, dropping Origam's own packages, license
    texts, the deprecated-URL rewrite and the report — with any failure
    turned into exit code -1. Console output and the elapsed-time message
    are left out; the report and the persisted records are returned. */
module Collector {
  import opened Wrappers
  import opened Text
  import opened Seqs
  import opened Model
  import Packages
  import Projects
  import Licensing
  import LicenseTexts
  import Report

  /** The options `Execute` checks itself. */
  datatype Options = Options(projectDirectory: Option<string>, useProjectAssetsJson: bool)

  /** Everything else the run reads: lookup options and oracles, the
      initial caches, project discovery and filter, the reference sources
      of each project file, the manual records, the license-text sources,
      the platform line break and the model's recursion bound. */
  datatype World = World(
    env: Packages.Env,
    caches: Packages.Caches,
    discovery: Projects.Discovery,
    projectFilter: seq<string>,
    referenceSources: string -> Projects.ReferenceSources,
    manual: seq<LibraryInfo>,
    includeProjectFile: bool,
    texts: LicenseTexts.TextSources,
    newline: string,
    fuel: nat)

  /** What a run leaves behind: its exit code, the attribution report (when
      one is written) and the records persisted for the next run. */
  datatype Outcome = Outcome(exitCode: int, report: Option<string>, persisted: Option<seq<LibraryInfo>>)

  /** A package of Origam's own: its lower-cased name contains "origam". */
  predicate IsOrigamPackage(info: LibraryInfo) {
    Contains(Lower(info.packageName), "origam")
  }

  /** `RemoveOrigamPackages`. */
  function RemoveOrigam(infos: seq<LibraryInfo>): (r: seq<LibraryInfo>)
    ensures forall i :: 0 <= i < |r| ==> !IsOrigamPackage(r[i])
    ensures multiset(r) <= multiset(infos)
  {
    Filter((info: LibraryInfo) => !IsOrigamPackage(info), infos)
  }

  /** A record survives exactly when it is not Origam's. */
  lemma RemoveOrigamKeeps(infos: seq<LibraryInfo>, info: LibraryInfo)
    ensures info in RemoveOrigam(infos) <==> info in infos && !IsOrigamPackage(info)
  {
    var r := RemoveOrigam(infos);
    if info in r {
      var i :| 0 <= i < |r| && r[i] == info;
    }
    if info in infos && !IsOrigamPackage(info) {
      var i :| 0 <= i < |infos| && infos[i] == info;
    }
  }

  /** The case of the name plays no part. */
  lemma OrigamIgnoresCase(info: LibraryInfo)
    ensures IsOrigamPackage(info) <==> IsOrigamPackage(info.(packageName := Lower(info.packageName)))
  {
    LowerIdempotent(info.packageName);
  }

  lemma {:induction false} LowerIdempotent(s: string)
    ensures Lower(Lower(s)) == Lower(s)
    decreases |s|
  {
    if |s| > 0 {
      LowerIdempotent(s[1..]);
      assert s == [s[0]] + s[1..];
      LowerAppend([s[0]], s[1..]);
      LowerAppend([LowerChar(s[0])], Lower(s[1..]));
    }
  }

  /** `GetValidProjects(path).FirstOrDefault()`. */
  function FirstValidProject(projectFilter: seq<string>, d: Projects.Discovery, path: string): (r: Result<Option<string>, Error>)
    ensures var found := Projects.GetValidProjects(path, projectFilter, d);
            && (r.Err? <==> found.Err?)
            && (r.Ok? ==> (r.value.None? <==> |found.value| == 0))
            && (r.Ok? && r.value.Some? ==> r.value.value == found.value[0])
  {
    var projects :- Projects.GetValidProjects(path, projectFilter, d);
    Ok(if |projects| == 0 then None else Some(projects[0]))
  }

  /** The references of a project as `GetPackages` reads them. */
  function ReferencesOf(
    useAssets: bool, projectFilter: seq<string>, d: Projects.Discovery,
    sources: string -> Projects.ReferenceSources): string -> Result<seq<string>, Error>
  {
    (path: string) => Projects.GetProjectReferences(path, useAssets,
                        (p: string) => FirstValidProject(projectFilter, d, p), sources)
  }

  /** The records mapped from the packages of the projects. */
  function Mapped(opts: Options, w: World): (r: Result<seq<LibraryInfo>, Error>)
    requires opts.projectDirectory.Some?
    ensures var found := Projects.GetValidProjects(opts.projectDirectory.value, w.projectFilter, w.discovery);
            found.Err? ==> r == Err(found.error)
    ensures r.Ok? ==> Licensing.SortedByName(r.value)
  {
    var projects :- Projects.GetValidProjects(opts.projectDirectory.value, w.projectFilter, w.discovery);
    var found :- Projects.GetPackages(w.env, w.caches, projects, ReferencesOf(opts.useProjectAssetsJson, w.projectFilter, w.discovery, w.referenceSources), w.fuel);
    Ok(Licensing.MapPackages(found.0, Licensing.MapOptions(w.manual, w.env.licenseMappings, w.includeProjectFile)))
  }

  /** `HandleInvalidLicenses`: the allow-list verdict over all mapped
      records, Origam's included. */
  function CheckLicenses(infos: seq<LibraryInfo>, w: World): (r: Result<seq<LibraryInfo>, Error>)
    ensures r.Ok? <==> Licensing.ValidateInfos(infos, w.env.allowedLicenseTypes, w.env.licenseMappings).isValid
    ensures r.Ok? ==> r.value == infos
    ensures r.Err? ==> r.error == InvalidLicenses(
              Licensing.ValidateInfos(infos, w.env.allowedLicenseTypes, w.env.licenseMappings).invalid,
              w.env.allowedLicenseTypes)
  {
    var verdict := Licensing.ValidateInfos(infos, w.env.allowedLicenseTypes, w.env.licenseMappings);
    if verdict.isValid then Ok(infos) else Err(InvalidLicenses(verdict.invalid, w.env.allowedLicenseTypes))
  }

  /** The steps after the allow-list check: the records that reach the
      report and the report itself. */
  function Finish(checked: seq<LibraryInfo>, texts: LicenseTexts.TextSources, newline: string): (r: Result<(Option<string>, seq<LibraryInfo>), Error>)
    ensures r.Ok? ==> forall i :: 0 <= i < |r.value.1| ==> !IsOrigamPackage(r.value.1[i])
    ensures r.Ok? ==> forall i :: 0 <= i < |r.value.1| ==> r.value.1[i].licenseUrl != Some(Licensing.DeprecatedLicenseUrl)
    ensures r.Ok? ==> forall i :: 0 <= i < |r.value.1| ==> Report.Renderable(r.value.1[i])
    ensures r.Ok? ==> (r.value.0.None? <==> |r.value.1| == 0)
    ensures r.Ok? ==> Report.SaveAsText(r.value.1, newline) == Ok(r.value.0)
  {
    var kept := RemoveOrigam(checked);
    var withTexts :- LicenseTexts.AddLicenseTexts(kept, texts);
    var final := Licensing.HandleDeprecatedUrl(withTexts);
    TextsKeepNames(kept, texts);
    var report :- Report.SaveAsText(final, newline);
    Ok((report, final))
  }

  /** Fetching license texts and rewriting the deprecated URL keep every
      record's name, so no Origam package comes back. */
  lemma TextsKeepNames(kept: seq<LibraryInfo>, texts: LicenseTexts.TextSources)
    requires LicenseTexts.AddLicenseTexts(kept, texts).Ok?
    requires forall i :: 0 <= i < |kept| ==> !IsOrigamPackage(kept[i])
    ensures var final := Licensing.HandleDeprecatedUrl(LicenseTexts.AddLicenseTexts(kept, texts).value);
            forall i :: 0 <= i < |final| ==> !IsOrigamPackage(final[i])
  {
    var withTexts := LicenseTexts.AddLicenseTexts(kept, texts).value;
    LicenseTexts.AddLicenseTextsKeepsRecords(kept, texts);
    var final := Licensing.HandleDeprecatedUrl(withTexts);
    forall i | 0 <= i < |final|
      ensures !IsOrigamPackage(final[i])
    {
      assert LicenseTexts.SameButText(kept[i], withTexts[i]);
      assert final[i].packageName == withTexts[i].packageName == kept[i].packageName;
    }
  }

  /** The pipeline inside the `try` of `Execute`. */
  function Pipeline(opts: Options, w: World): (r: Result<(Option<string>, seq<LibraryInfo>), Error>)
    requires opts.projectDirectory.Some?
    ensures Mapped(opts, w).Err? ==> r == Err(Mapped(opts, w).error)
    ensures r.Ok? ==> (Mapped(opts, w).Ok? &&
              Licensing.ValidateInfos(Mapped(opts, w).value, w.env.allowedLicenseTypes, w.env.licenseMappings).isValid)
    ensures Mapped(opts, w).Ok? && !Licensing.ValidateInfos(Mapped(opts, w).value, w.env.allowedLicenseTypes, w.env.licenseMappings).isValid ==>
              r == Err(InvalidLicenses(Licensing.ValidateInfos(Mapped(opts, w).value, w.env.allowedLicenseTypes, w.env.licenseMappings).invalid,
                                       w.env.allowedLicenseTypes))
    ensures r.Ok? ==> forall i :: 0 <= i < |r.value.1| ==> !IsOrigamPackage(r.value.1[i]) && Report.Renderable(r.value.1[i])
    ensures r.Ok? ==> Report.SaveAsText(r.value.1, w.newline) == Ok(r.value.0)
  {
    var mapped :- Mapped(opts, w);
    var checked :- CheckLicenses(mapped, w);
    Finish(checked, w.texts, w.newline)
  }

  /** `Execute`: 1 for rejected options, -1 for a failed run, 0 with the
      report and the persisted records otherwise. */
  function Execute(opts: Options, w: World): (r: Outcome)
    ensures r.exitCode in {-1, 0, 1}
    ensures r.exitCode == 1 <==> IsNullOrWhiteSpace(opts.projectDirectory) || (opts.useProjectAssetsJson && !w.env.includeTransitive)
    ensures r.exitCode != 0 ==> r.report.None? && r.persisted.None?
    ensures r.exitCode == 0 ==> r.persisted.Some?
  {
    if IsNullOrWhiteSpace(opts.projectDirectory) then Outcome(1, None, None)
    else if opts.useProjectAssetsJson && !w.env.includeTransitive then Outcome(1, None, None)
    else
      match Pipeline(opts, w)
      case Err(_) => Outcome(-1, None, None)
      case Ok((report, final)) => Outcome(0, report, Some(final))
  }

  /** A successful run writes only records that are not Origam's, carry no
      deprecated license URL and have someone to credit and a license text;
      and each of those texts is in the report. */
  lemma SuccessfulRunReport(opts: Options, w: World, k: nat)
    requires Execute(opts, w).exitCode == 0
    requires k < |Execute(opts, w).persisted.value|
    ensures var info := Execute(opts, w).persisted.value[k];
            && !IsOrigamPackage(info)
            && info.licenseUrl != Some(Licensing.DeprecatedLicenseUrl)
            && Report.Renderable(info)
    ensures Execute(opts, w).report.Some?
    ensures Contains(Execute(opts, w).report.value, Execute(opts, w).persisted.value[k].licenseText.value)
  {
    var p := ExecuteSucceeded(opts, w);
    Report.ReportHoldsEveryText(p.1, w.newline, k);
  }

  /** A run that exits with 0 ran the pipeline to its end. */
  lemma ExecuteSucceeded(opts: Options, w: World) returns (p: (Option<string>, seq<LibraryInfo>))
    requires Execute(opts, w).exitCode == 0
    ensures Execute(opts, w) == Outcome(0, p.0, Some(p.1))
    ensures Report.SaveAsText(p.1, w.newline) == Ok(p.0)
    ensures forall i :: 0 <= i < |p.1| ==> !IsOrigamPackage(p.1[i])
    ensures forall i :: 0 <= i < |p.1| ==> p.1[i].licenseUrl != Some(Licensing.DeprecatedLicenseUrl)
  {
    var mapped := Mapped(opts, w).value;
    var checked := CheckLicenses(mapped, w).value;
    p := Finish(checked, w.texts, w.newline).value;
  }

  /** The allow-list check comes before any license text is fetched: when
      it fails, the run fails whatever the text sources answer. */
  lemma InvalidLicensesStopBeforeTexts(opts: Options, w: World, texts: LicenseTexts.TextSources)
    requires opts.projectDirectory.Some? && Mapped(opts, w).Ok?
    requires !Licensing.ValidateInfos(Mapped(opts, w).value, w.env.allowedLicenseTypes, w.env.licenseMappings).isValid
    ensures Pipeline(opts, w.(texts := texts)) == Pipeline(opts, w)
    ensures Pipeline(opts, w).Err? && Pipeline(opts, w).error.InvalidLicenses?
  {
    assert Mapped(opts, w.(texts := texts)) == Mapped(opts, w);
  }

  /** Origam's own packages are checked against the allow-list too: one
      with a disallowed license fails the run although it would not be
      written. */
  lemma OrigamPackagesStillValidated(infos: seq<LibraryInfo>, w: World, k: nat)
    requires |w.env.allowedLicenseTypes| > 0
    requires k < |infos| && IsOrigamPackage(infos[k])
    requires !Licensing.InfoAllowed(infos[k], w.env.allowedLicenseTypes, w.env.licenseMappings)
    ensures CheckLicenses(infos, w).Err?
    ensures infos[k] !in RemoveOrigam(infos)
  {
    RemoveOrigamKeeps(infos, infos[k]);
  }

  /** A blank project directory is refused before anything is read. */
  lemma BlankDirectoryRefused(opts: Options, w: World, w': World)
    requires IsNullOrWhiteSpace(opts.projectDirectory)
    ensures Execute(opts, w) == Execute(opts, w') == Outcome(1, None, None)
  {
  }
}
