/** License classification of src/Methods.cs: mapping package metadata to
    `LibraryInfo` records (`MapPackageToLibraryInfo`,
    `MapPackagesToLibraryInfo`), the allow-list verdicts (both
    `ValidateLicenses` overloads) and the rewrite of the deprecated license
    URL (`HandleDeprecateMSFTLicense`). */
module Licensing {
  import opened Wrappers
  import opened Text
  import opened Seqs
  import opened Model
  import Packages
  import Projects

  /** Options read by the mapping. `manual` is the manual-information list. */
  datatype MapOptions = MapOptions(
    manual: seq<LibraryInfo>,
    licenseMappings: map<string, string>,
    includeProjectFile: bool)

  /** The comparer of manual and automatic records: package name and version. */
  function KeyOf(info: LibraryInfo): PackageKey {
    PackageKey(info.packageName, info.packageVersion)
  }

  /** `FirstOrDefault` by name and version: the first record with the given
      package name and version (used on the manual records and on the
      records of the last run). */
  function FindByKey(infos: seq<LibraryInfo>, id: string, version: string): (r: Option<LibraryInfo>)
    ensures r.None? <==> forall i :: 0 <= i < |infos| ==> KeyOf(infos[i]) != PackageKey(id, version)
    ensures r.Some? ==> exists k :: 0 <= k < |infos| && infos[k] == r.value
                          && KeyOf(r.value) == PackageKey(id, version)
                          && forall i :: 0 <= i < k ==> KeyOf(infos[i]) != PackageKey(id, version)
    decreases |infos|
  {
    if |infos| == 0 then None
    else if KeyOf(infos[0]) == PackageKey(id, version) then Some(infos[0])
    else
      var r := FindByKey(infos[1..], id, version);
      assert forall i :: 1 <= i < |infos| ==> infos[i] == infos[1..][i - 1];
      if r.Some? then
        var k :| 0 <= k < |infos[1..]| && infos[1..][k] == r.value && KeyOf(r.value) == PackageKey(id, version)
                 && forall i :: 0 <= i < k ==> KeyOf(infos[1..][i]) != PackageKey(id, version);
        assert infos[k + 1] == r.value;
        r
      else r
  }

  /** The license type read from metadata: the license text, replaced by the
      mapped type of the license URL when the text is blank. */
  function MetadataLicenseType(p: Package, mappings: map<string, string>): (r: Option<string>)
    ensures p.license.Some? && !IsNullOrWhiteSpace(p.license.value.text) ==> r == p.license.value.text
    ensures p.licenseUrl.Some? && p.licenseUrl.value in mappings && (p.license.None? || IsNullOrWhiteSpace(p.license.value.text))
            ==> r == Some(mappings[p.licenseUrl.value])
    ensures p.licenseUrl.None? || p.licenseUrl.value !in mappings
            ==> r == (if p.license.Some? then p.license.value.text else None)
  {
    var text := if p.license.Some? then p.license.value.text else None;
    if p.licenseUrl.Some? && IsNullOrWhiteSpace(text) && p.licenseUrl.value in mappings
    then Some(mappings[p.licenseUrl.value])
    else text
  }

  /** `HandleLicensing`'s rewrite of a package agrees with the license type
      the mapping later reads: the type is unchanged by the rewrite, and a
      rewritten license carries exactly that type as its text and is no
      longer a file. */
  lemma MapLicenseAgreesWithMetadata(p: Package, mappings: map<string, string>)
    ensures MetadataLicenseType(Packages.MapLicense(p, mappings), mappings) == MetadataLicenseType(p, mappings)
    ensures Packages.MapLicense(p, mappings) != p ==>
              && Packages.MapLicense(p, mappings).license.Some?
              && Packages.MapLicense(p, mappings).license.value.text == MetadataLicenseType(p, mappings)
              && !IsLicenseFile(Packages.MapLicense(p, mappings).license)
  {
  }

  /** `s.Split(',')` of a nullable authors string. */
  function SplitAuthors(authors: Option<string>): seq<string> {
    if authors.None? then [] else Split(authors.value, ',')
  }

  /** `MapPackageToLibraryInfo`. A manual record with the same id and
      version overrides the package URL and description when those are
      non-blank, and the authors, license type and license URL when those
      are present; the copyright always comes from the metadata. */
  function MapPackage(p: Package, project: string, opts: MapOptions): (r: LibraryInfo)
    ensures r.packageName == p.id && r.packageVersion == p.version
    ensures r.copyright == p.copyright.GetOr("")
    ensures r.repository == p.repository
    ensures r.projects == (if opts.includeProjectFile then Some(project) else None)
    ensures r.licenseText.None? && r.licenseTextSource.None? && r.licenseTextHtml.None?
    ensures r.authors.Some? && r.licenseType.Some? && r.licenseUrl.Some?
    ensures FindByKey(opts.manual, p.id, p.version).None? ==>
              && r.packageUrl == p.projectUrl.GetOr("")
              && r.description == p.description.GetOr("")
              && r.authors == Some(SplitAuthors(p.authors))
              && r.licenseType == Some(MetadataLicenseType(p, opts.licenseMappings).GetOr(""))
              && r.licenseUrl == Some(p.licenseUrl.GetOr(""))
  {
    var manual := FindByKey(opts.manual, p.id, p.version);
    var licenseType := MetadataLicenseType(p, opts.licenseMappings);
    LibraryInfo(
      packageName := p.id,
      packageVersion := p.version,
      packageUrl := if manual.Some? && !IsBlank(manual.value.packageUrl) then manual.value.packageUrl else p.projectUrl.GetOr(""),
      copyright := p.copyright.GetOr(""),
      authors := Some(if manual.Some? && manual.value.authors.Some? then manual.value.authors.value else SplitAuthors(p.authors)),
      description := if manual.Some? && !IsBlank(manual.value.description) then manual.value.description else p.description.GetOr(""),
      licenseUrl := Some(if manual.Some? && manual.value.licenseUrl.Some? then manual.value.licenseUrl.value else p.licenseUrl.GetOr("")),
      licenseType := Some(if manual.Some? && manual.value.licenseType.Some? then manual.value.licenseType.value else licenseType.GetOr("")),
      projects := if opts.includeProjectFile then Some(project) else None,
      repository := p.repository,
      licenseText := None,
      licenseTextSource := None,
      licenseTextHtml := None)
  }

  /** The fields a manual record sets win over the metadata. */
  lemma ManualFieldsWin(p: Package, project: string, opts: MapOptions, m: LibraryInfo)
    requires FindByKey(opts.manual, p.id, p.version) == Some(m)
    ensures m.authors.Some? ==> MapPackage(p, project, opts).authors == m.authors
    ensures m.licenseType.Some? ==> MapPackage(p, project, opts).licenseType == m.licenseType
    ensures m.licenseUrl.Some? ==> MapPackage(p, project, opts).licenseUrl == m.licenseUrl
    ensures !IsBlank(m.packageUrl) ==> MapPackage(p, project, opts).packageUrl == m.packageUrl
    ensures !IsBlank(m.description) ==> MapPackage(p, project, opts).description == m.description
    ensures IsBlank(m.packageUrl) ==> MapPackage(p, project, opts).packageUrl == p.projectUrl.GetOr("")
    ensures m.authors.None? ==> MapPackage(p, project, opts).authors == Some(SplitAuthors(p.authors))
  {
  }

  /** The metadata's own license text is never replaced by a mapped type. */
  lemma TextBeatsMapping(p: Package, project: string, opts: MapOptions)
    requires FindByKey(opts.manual, p.id, p.version).None?
    requires p.license.Some? && p.license.value.text.Some? && !IsBlank(p.license.value.text.value)
    ensures MapPackage(p, project, opts).licenseType == p.license.value.text
  {
  }

  /** The automatic records of a project table, project by project, in
      table order. */
  function MapTable(table: Projects.ProjectTable, opts: MapOptions): (r: seq<LibraryInfo>)
    decreases |table|
  {
    if |table| == 0 then []
    else MapList(table[0].1, table[0].0, opts) + MapTable(table[1..], opts)
  }

  function MapList(list: Packages.PackageList, project: string, opts: MapOptions): (r: seq<LibraryInfo>)
    ensures |r| == |list|
    ensures forall i :: 0 <= i < |list| ==> r[i] == MapPackage(list[i].1, project, opts)
  {
    seq(|list|, i requires 0 <= i < |list| => MapPackage(list[i].1, project, opts))
  }

  /** The automatic records are exactly the mappings of the table's
      packages, each with the project it was found in. */
  lemma {:induction false} MapTableRecords(table: Projects.ProjectTable, opts: MapOptions)
    ensures forall j, k :: 0 <= j < |table| && 0 <= k < |table[j].1| ==>
              MapPackage(table[j].1[k].1, table[j].0, opts) in MapTable(table, opts)
    ensures forall x :: x in MapTable(table, opts) ==>
              (exists j, k :: 0 <= j < |table| && 0 <= k < |table[j].1| && x == MapPackage(table[j].1[k].1, table[j].0, opts))
    decreases |table|
  {
    if |table| > 0 {
      MapTableRecords(table[1..], opts);
      var head := MapList(table[0].1, table[0].0, opts);
      var rest := MapTable(table[1..], opts);
      assert MapTable(table, opts) == head + rest;
      forall j, k | 0 <= j < |table| && 0 <= k < |table[j].1|
        ensures MapPackage(table[j].1[k].1, table[j].0, opts) in MapTable(table, opts)
      {
        if j == 0 {
          assert head[k] == MapPackage(table[j].1[k].1, table[j].0, opts);
        } else {
          assert table[1..][j - 1] == table[j];
          assert MapPackage(table[1..][j - 1].1[k].1, table[1..][j - 1].0, opts) in rest;
        }
      }
      forall x | x in MapTable(table, opts)
        ensures exists j, k :: 0 <= j < |table| && 0 <= k < |table[j].1| &&
                  x == MapPackage(table[j].1[k].1, table[j].0, opts)
      {
        if x in head {
          var k :| 0 <= k < |head| && head[k] == x;
          assert x == MapPackage(table[0].1[k].1, table[0].0, opts);
        } else {
          assert x in rest;
          var j, k :| 0 <= j < |table[1..]| && 0 <= k < |table[1..][j].1| &&
                      x == MapPackage(table[1..][j].1[k].1, table[1..][j].0, opts);
          assert table[1..][j] == table[j + 1];
        }
      }
    }
  }

  predicate HasKeyIn(infos: seq<LibraryInfo>, k: PackageKey) {
    exists i | 0 <= i < |infos| :: KeyOf(infos[i]) == k
  }

  /** `Enumerable.Except` with the name-and-version comparer, `seen` holding
      the keys already present: the manual records whose key is new, each
      key yielded once, in order. */
  function ExceptByKey(manual: seq<LibraryInfo>, seen: set<PackageKey>): (r: seq<LibraryInfo>)
    ensures forall i :: 0 <= i < |r| ==> r[i] in manual && KeyOf(r[i]) !in seen
    decreases |manual|
  {
    if |manual| == 0 then []
    else
      var k := KeyOf(manual[0]);
      if k in seen then ExceptByKey(manual[1..], seen)
      else
        var rest := ExceptByKey(manual[1..], seen + {k});
        assert forall i :: 0 <= i < |rest| ==> rest[i] in manual;
        [manual[0]] + rest
  }

  /** `Except` yields each name-and-version pair at most once. */
  lemma {:induction false} ExceptByKeyDistinct(manual: seq<LibraryInfo>, seen: set<PackageKey>)
    ensures forall i, j :: 0 <= i < j < |ExceptByKey(manual, seen)| ==>
              KeyOf(ExceptByKey(manual, seen)[i]) != KeyOf(ExceptByKey(manual, seen)[j])
    decreases |manual|
  {
    if |manual| > 0 {
      var k := KeyOf(manual[0]);
      if k in seen {
        ExceptByKeyDistinct(manual[1..], seen);
      } else {
        ExceptByKeyDistinct(manual[1..], seen + {k});
        var rest := ExceptByKey(manual[1..], seen + {k});
        var r := ExceptByKey(manual, seen);
        assert r == [manual[0]] + rest;
        assert forall j :: 1 <= j < |r| ==> r[j] == rest[j - 1] && KeyOf(r[j]) != k;
      }
    }
  }

  /** Every manual pair is either already present or yielded. */
  lemma {:induction false} ExceptByKeyComplete(manual: seq<LibraryInfo>, seen: set<PackageKey>)
    ensures forall i :: 0 <= i < |manual| ==> KeyOf(manual[i]) in seen || HasKeyIn(ExceptByKey(manual, seen), KeyOf(manual[i]))
    decreases |manual|
  {
    if |manual| > 0 {
      var k := KeyOf(manual[0]);
      var r := ExceptByKey(manual, seen);
      assert forall i :: 1 <= i < |manual| ==> manual[i] == manual[1..][i - 1];
      if k in seen {
        ExceptByKeyComplete(manual[1..], seen);
      } else {
        ExceptByKeyComplete(manual[1..], seen + {k});
        var rest := ExceptByKey(manual[1..], seen + {k});
        assert r == [manual[0]] + rest;
        assert KeyOf(r[0]) == k;
        forall i | 1 <= i < |manual|
          ensures KeyOf(manual[i]) in seen || HasKeyIn(r, KeyOf(manual[i]))
        {
          if KeyOf(manual[i]) !in seen + {k} {
            var j :| 0 <= j < |rest| && KeyOf(rest[j]) == KeyOf(manual[i]);
            assert r[j + 1] == rest[j];
          }
        }
      }
    }
  }

  /** The keys of a list of records. */
  function Keys(infos: seq<LibraryInfo>): (r: set<PackageKey>)
    ensures forall k :: k in r <==> HasKeyIn(infos, k)
  {
    set i | 0 <= i < |infos| :: KeyOf(infos[i])
  }

  /** The records sorted by `packageName`. */
  ghost predicate SortedByName(infos: seq<LibraryInfo>) {
    forall i, j :: 0 <= i < j < |infos| ==> StrLeq(infos[i].packageName, infos[j].packageName)
  }

  /** Inserts a record before the first one whose name is not smaller, so
      that it precedes every record of equal name. */
  function InsertByName(x: LibraryInfo, s: seq<LibraryInfo>): (r: seq<LibraryInfo>)
    requires SortedByName(s)
    ensures SortedByName(r)
    ensures multiset(r) == multiset(s) + multiset{x}
    decreases |s|
  {
    if |s| == 0 then [x]
    else if StrLeq(x.packageName, s[0].packageName) then
      assert forall j :: 0 <= j < |s| ==> StrLeq(x.packageName, s[j].packageName) by {
        forall j | 0 <= j < |s| ensures StrLeq(x.packageName, s[j].packageName) {
          if j > 0 { StrLeqTrans(x.packageName, s[0].packageName, s[j].packageName); }
        }
      }
      var r := [x] + s;
      assert forall j :: 1 <= j < |r| ==> r[j] == s[j - 1];
      r
    else
      StrLeqTotal(x.packageName, s[0].packageName);
      var rest := InsertByName(x, s[1..]);
      assert s == [s[0]] + s[1..];
      var r := [s[0]] + rest;
      assert forall j :: 0 <= j < |rest| ==> StrLeq(s[0].packageName, rest[j].packageName) by {
        forall j | 0 <= j < |rest| ensures StrLeq(s[0].packageName, rest[j].packageName) {
          assert rest[j] in multiset(rest);
          if rest[j] != x {
            assert rest[j] in multiset(s[1..]);
            var m :| 0 <= m < |s[1..]| && s[1..][m] == rest[j];
            assert s[m + 1] == rest[j];
          }
        }
      }
      assert forall j :: 1 <= j < |r| ==> r[j] == rest[j - 1];
      r
  }

  /** The test for records named `n`. */
  function NamedAs(n: string): LibraryInfo -> bool {
    (x: LibraryInfo) => x.packageName == n
  }

  /** Insertion puts the record ahead of the records of its own name and
      leaves their order alone. */
  lemma {:induction false} InsertByNameStable(x: LibraryInfo, s: seq<LibraryInfo>, n: string)
    requires SortedByName(s)
    ensures Filter(NamedAs(n), InsertByName(x, s)) == (if x.packageName == n then [x] else []) + Filter(NamedAs(n), s)
    decreases |s|
  {
    if |s| == 0 || StrLeq(x.packageName, s[0].packageName) {
      assert InsertByName(x, s) == [x] + s;
      FilterCons(NamedAs(n), x, s);
    } else {
      var rest := InsertByName(x, s[1..]);
      assert InsertByName(x, s) == [s[0]] + rest;
      InsertByNameStable(x, s[1..], n);
      assert s == [s[0]] + s[1..];
      StrLeqTotal(x.packageName, x.packageName);
      FilterPastOther(NamedAs(n), s[0], rest, s[1..], if x.packageName == n then [x] else []);
    }
  }

  /** `OrderBy(p => p.PackageName)`: a stable sort by name. The records of
      any one name keep their input order. */
  function SortByName(s: seq<LibraryInfo>): (r: seq<LibraryInfo>)
    ensures SortedByName(r)
    ensures multiset(r) == multiset(s)
    ensures forall n :: Filter(NamedAs(n), r) == Filter(NamedAs(n), s)
    decreases |s|
  {
    if |s| == 0 then []
    else
      assert s == [s[0]] + s[1..];
      var sorted := SortByName(s[1..]);
      var r := InsertByName(s[0], sorted);
      assert forall n :: Filter(NamedAs(n), r) == Filter(NamedAs(n), s) by {
        forall n
          ensures Filter(NamedAs(n), r) == Filter(NamedAs(n), s)
        {
          InsertByNameStable(s[0], sorted, n);
        }
      }
      r
  }

  /** `MapPackagesToLibraryInfo`: the automatic records, then the manual
      records whose name and version match none of them, sorted by name;
      records of the same name keep that order. */
  function MapPackages(table: Projects.ProjectTable, opts: MapOptions): (r: seq<LibraryInfo>)
    ensures SortedByName(r)
    ensures multiset(r) == multiset(MapTable(table, opts) + ExceptByKey(opts.manual, Keys(MapTable(table, opts))))
    ensures forall n :: Filter(NamedAs(n), r) == Filter(NamedAs(n), MapTable(table, opts) + ExceptByKey(opts.manual, Keys(MapTable(table, opts))))
  {
    var autos := MapTable(table, opts);
    SortByName(autos + ExceptByKey(opts.manual, Keys(autos)))
  }

  /** Every automatic record is in the output unchanged. */
  lemma AutomaticRecordsKept(table: Projects.ProjectTable, opts: MapOptions)
    ensures forall i :: 0 <= i < |MapTable(table, opts)| ==> MapTable(table, opts)[i] in MapPackages(table, opts)
  {
    var autos := MapTable(table, opts);
    var missed := ExceptByKey(opts.manual, Keys(autos));
    var r := MapPackages(table, opts);
    forall i | 0 <= i < |autos| ensures autos[i] in r {
      assert autos[i] in multiset(autos + missed);
      assert autos[i] in multiset(r);
    }
  }

  /** Every manual name-and-version pair is covered by some output record. */
  lemma ManualPairsCovered(table: Projects.ProjectTable, opts: MapOptions)
    ensures forall i :: 0 <= i < |opts.manual| ==> HasKeyIn(MapPackages(table, opts), KeyOf(opts.manual[i]))
  {
    var autos := MapTable(table, opts);
    var missed := ExceptByKey(opts.manual, Keys(autos));
    var r := MapPackages(table, opts);
    ExceptByKeyComplete(opts.manual, Keys(autos));
    forall i | 0 <= i < |opts.manual|
      ensures HasKeyIn(r, KeyOf(opts.manual[i]))
    {
      var k := KeyOf(opts.manual[i]);
      var x: LibraryInfo;
      if k in Keys(autos) {
        var j :| 0 <= j < |autos| && KeyOf(autos[j]) == k;
        x := autos[j];
      } else {
        var j :| 0 <= j < |missed| && KeyOf(missed[j]) == k;
        x := missed[j];
      }
      assert x in multiset(autos + missed);
      assert x in multiset(r);
      var m :| 0 <= m < |r| && r[m] == x;
    }
  }

  /** An output record that is not automatic is a manual record whose pair
      matches no automatic record. */
  lemma AddedRecordsAreMissedManual(table: Projects.ProjectTable, opts: MapOptions)
    ensures forall x :: x in MapPackages(table, opts) && x !in MapTable(table, opts) ==>
              x in opts.manual && !HasKeyIn(MapTable(table, opts), KeyOf(x))
  {
    var autos := MapTable(table, opts);
    var missed := ExceptByKey(opts.manual, Keys(autos));
    var r := MapPackages(table, opts);
    forall x | x in r && x !in autos
      ensures x in opts.manual && !HasKeyIn(autos, KeyOf(x))
    {
      assert x in multiset(r);
      assert x in multiset(autos + missed);
      assert x in autos + missed;
      var j :| 0 <= j < |missed| && missed[j] == x;
    }
  }

  // ---------------------------------------------------------------------------
  // Allow-list verdicts

  /** One allowed entry against a record (`ValidateLicenses` over
      `LibraryInfo`): a mapped license URL decides by the mapped type alone;
      otherwise a URL containing the entry, ignoring case, accepts; otherwise
      the license type must equal the entry. */
  predicate InfoAllowedBy(info: LibraryInfo, allowed: string, mappings: map<string, string>) {
    if info.licenseUrl.Some? && info.licenseUrl.value in mappings then allowed == mappings[info.licenseUrl.value]
    else if info.licenseUrl.Some? && ContainsIgnoreCase(info.licenseUrl.value, allowed) then true
    else info.licenseType == Some(allowed)
  }

  predicate InfoAllowed(info: LibraryInfo, allowed: seq<string>, mappings: map<string, string>) {
    exists i | 0 <= i < |allowed| :: InfoAllowedBy(info, allowed[i], mappings)
  }

  /** The outcome of a validation: the verdict and the offending entries. */
  datatype Validation<T> = Validation(isValid: bool, invalid: seq<T>)

  /** `ValidateLicenses(List<LibraryInfo>)`. */
  function ValidateInfos(infos: seq<LibraryInfo>, allowed: seq<string>, mappings: map<string, string>): (r: Validation<LibraryInfo>)
    ensures |allowed| == 0 ==> r == Validation(true, [])
    ensures r.isValid <==> |r.invalid| == 0
    ensures |allowed| > 0 ==> forall i :: 0 <= i < |r.invalid| ==> r.invalid[i] in infos && !InfoAllowed(r.invalid[i], allowed, mappings)
    ensures |allowed| > 0 ==> forall i :: 0 <= i < |infos| && !InfoAllowed(infos[i], allowed, mappings) ==> infos[i] in r.invalid
  {
    if |allowed| == 0 then Validation(true, [])
    else
      var invalid := Filter((info: LibraryInfo) => !InfoAllowed(info, allowed, mappings), infos);
      Validation(|invalid| == 0, invalid)
  }

  /** A non-empty allow-list accepts the records exactly when each of them
      matches some entry. */
  lemma ValidIffAllMatch(infos: seq<LibraryInfo>, allowed: seq<string>, mappings: map<string, string>)
    requires |allowed| > 0
    ensures ValidateInfos(infos, allowed, mappings).isValid <==> forall i :: 0 <= i < |infos| ==> InfoAllowed(infos[i], allowed, mappings)
  {
    var r := ValidateInfos(infos, allowed, mappings);
    if !r.isValid {
      assert r.invalid[0] in infos;
    }
  }

  /** When the license URL is in the mapping table, neither the URL text nor
      the license type matters: only the mapped type is compared. */
  lemma MappedUrlDecidesAlone(info: LibraryInfo, allowed: string, mappings: map<string, string>, licenseType: Option<string>)
    requires info.licenseUrl.Some? && info.licenseUrl.value in mappings
    ensures InfoAllowedBy(info, allowed, mappings) <==> allowed == mappings[info.licenseUrl.value]
    ensures InfoAllowedBy(info.(licenseType := licenseType), allowed, mappings) == InfoAllowedBy(info, allowed, mappings)
  {
  }

  /** A mapped URL whose mapped type is not the entry is refused even when
      the URL itself contains the entry. */
  lemma MappedUrlOverridesSubstring()
    ensures !InfoAllowedBy(
      LibraryInfo("p", "1", "", "", None, "", Some("https://x/MIT"), Some("MIT"), None, None, None, None, None),
      "MIT", map["https://x/MIT" := "Apache-2.0"])
  {
    assert "MIT" != "Apache-2.0";
  }

  /** The license URL of `p` is in the mapping table. */
  predicate UrlMapped(p: Package, mappings: map<string, string>) {
    p.licenseUrl.Some? && p.licenseUrl.value in mappings
  }

  /** The license URL of `p` contains the entry, ignoring case. */
  predicate UrlNames(p: Package, allowed: string) {
    p.licenseUrl.Some? && ContainsIgnoreCase(p.licenseUrl.value, allowed)
  }

  /** The license of `p` is a file in the package whose cached text contains
      the entry, ignoring case. */
  predicate FileNames(p: Package, allowed: string, files: map<PackageKey, Option<string>>) {
    && IsLicenseFile(p.license)
    && PackageKey(p.id, p.version) in files
    && files[PackageKey(p.id, p.version)].Some?
    && ContainsIgnoreCase(files[PackageKey(p.id, p.version)].value, allowed)
  }

  /** When the entry accepts the package: by the mapped type alone when the
      URL is mapped, otherwise when the URL, the cached license file or the
      license type names it. */
  predicate PackageAcceptedBy(p: Package, allowed: string, mappings: map<string, string>,
                              files: map<PackageKey, Option<string>>) {
    if UrlMapped(p, mappings) then allowed == mappings[p.licenseUrl.value]
    else UrlNames(p, allowed) || FileNames(p, allowed, files)
         || (p.license.Some? && p.license.value.text == Some(allowed))
  }

  /** Checking the entry reads a null cached license text, and so throws. */
  predicate ReachesNullText(p: Package, allowed: string, mappings: map<string, string>,
                            files: map<PackageKey, Option<string>>) {
    && !UrlMapped(p, mappings)
    && !UrlNames(p, allowed)
    && IsLicenseFile(p.license)
    && PackageKey(p.id, p.version) in files
    && files[PackageKey(p.id, p.version)].None?
  }

  /** `p` with its license text replaced by the entry. */
  function Relabel(p: Package, allowed: string): Package
    requires p.license.Some?
  {
    p.(license := Some(p.license.value.(text := Some(allowed))))
  }

  /** One allowed entry against a package (`ValidateLicenses` over the
      project table). Besides the URL tests, a license shipped as a file
      whose cached text contains the entry accepts it, relabelling the
      package's license with the entry; a cached null text throws. The
      result is the verdict and the (possibly relabelled) package. */
  function CheckPackage(p: Package, allowed: string, mappings: map<string, string>,
                        files: map<PackageKey, Option<string>>): (r: Result<(bool, Package), Error>)
    ensures r.Err? <==> ReachesNullText(p, allowed, mappings, files)
    ensures r.Err? ==> r.error == NullLicenseFileText(PackageKey(p.id, p.version))
    ensures r.Ok? ==> (r.value.0 <==> PackageAcceptedBy(p, allowed, mappings, files))
    ensures r.Ok? && !UrlMapped(p, mappings) && !UrlNames(p, allowed) && FileNames(p, allowed, files)
            ==> r.value.1 == Relabel(p, allowed)
    ensures r.Ok? && r.value.1 != p ==> p.license.Some? && r.value.1 == Relabel(p, allowed) && FileNames(p, allowed, files)
  {
    if p.licenseUrl.Some? && p.licenseUrl.value in mappings then Ok((allowed == mappings[p.licenseUrl.value], p))
    else if p.licenseUrl.Some? && ContainsIgnoreCase(p.licenseUrl.value, allowed) then Ok((true, p))
    else if IsLicenseFile(p.license) && PackageKey(p.id, p.version) in files then
      match files[PackageKey(p.id, p.version)]
      case None => Err(NullLicenseFileText(PackageKey(p.id, p.version)))
      case Some(text) =>
        if ContainsIgnoreCase(text, allowed) then Ok((true, Relabel(p, allowed)))
        else Ok((p.license.Some? && p.license.value.text == Some(allowed), p))
    else Ok((p.license.Some? && p.license.value.text == Some(allowed), p))
  }

  /** Some entry of the allow-list accepts the package. */
  predicate PackageAccepted(p: Package, allowed: seq<string>, mappings: map<string, string>,
                            files: map<PackageKey, Option<string>>) {
    exists i | 0 <= i < |allowed| :: PackageAcceptedBy(p, allowed[i], mappings, files)
  }

  /** The entries are tried in order, and one of them reads a null cached
      license text before any earlier one accepts. */
  predicate ThrowsOnNullText(p: Package, allowed: seq<string>, mappings: map<string, string>,
                             files: map<PackageKey, Option<string>>) {
    exists i | 0 <= i < |allowed| :: ReachesNullText(p, allowed[i], mappings, files)
      && forall j | 0 <= j < i :: !PackageAcceptedBy(p, allowed[j], mappings, files)
  }

  /** An entry that neither accepts nor throws passes the decision to the
      entries after it. Such an entry shows that no entry can throw: a
      package whose check reads a null cached text is accepted by exactly
      the entries its URL contains, and every other entry throws. */
  lemma ThrowsOnNullTextTail(p: Package, allowed: seq<string>, mappings: map<string, string>,
                             files: map<PackageKey, Option<string>>)
    requires |allowed| > 0
    requires !PackageAcceptedBy(p, allowed[0], mappings, files) && !ReachesNullText(p, allowed[0], mappings, files)
    ensures !ThrowsOnNullText(p, allowed, mappings, files) && !ThrowsOnNullText(p, allowed[1..], mappings, files)
    ensures PackageAccepted(p, allowed, mappings, files) <==> PackageAccepted(p, allowed[1..], mappings, files)
  {
    forall i | 0 <= i < |allowed|
      ensures !ReachesNullText(p, allowed[i], mappings, files)
    {
    }
    assert forall i :: 1 <= i < |allowed| ==> allowed[i] == allowed[1..][i - 1];
    if PackageAccepted(p, allowed, mappings, files) {
      var i :| 0 <= i < |allowed| && PackageAcceptedBy(p, allowed[i], mappings, files);
      assert PackageAcceptedBy(p, allowed[1..][i - 1], mappings, files);
    }
  }

  /** `AllowedLicenseType.Any(...)` for one package: entries in order until
      one accepts. */
  function PackageAllowed(p: Package, allowed: seq<string>, mappings: map<string, string>,
                          files: map<PackageKey, Option<string>>): (r: Result<(bool, Package), Error>)
    ensures r.Err? <==> ThrowsOnNullText(p, allowed, mappings, files)
    ensures r.Ok? ==> (r.value.0 <==> PackageAccepted(p, allowed, mappings, files))
    ensures r.Ok? && !r.value.0 ==> r.value.1 == p
    ensures r.Ok? ==> r.value.1.id == p.id && r.value.1.version == p.version && r.value.1.licenseUrl == p.licenseUrl
    decreases |allowed|
  {
    if |allowed| == 0 then Ok((false, p))
    else
      var (ok, q) :- CheckPackage(p, allowed[0], mappings, files);
      if ok then Ok((true, q))
      else
        var r := PackageAllowed(p, allowed[1..], mappings, files);
        assert forall i :: 1 <= i < |allowed| ==> allowed[i] == allowed[1..][i - 1];
        ThrowsOnNullTextTail(p, allowed, mappings, files);
        r
  }

  /** Without license-file entries, a package verdict is the record verdict
      over the same URL and license type. */
  lemma PackageVerdictMatchesRecordVerdict(p: Package, allowed: seq<string>, mappings: map<string, string>,
                                           files: map<PackageKey, Option<string>>, info: LibraryInfo)
    requires !IsLicenseFile(p.license)
    requires info.licenseUrl == p.licenseUrl
    requires info.licenseType == (if p.license.Some? then p.license.value.text else None)
    ensures PackageAllowed(p, allowed, mappings, files) == Ok((InfoAllowed(info, allowed, mappings), p))
    decreases |allowed|
  {
    if |allowed| > 0 {
      PackageVerdictMatchesRecordVerdict(p, allowed[1..], mappings, files, info);
    }
  }

  /** The package verdict accepts whatever the record verdict over the same
      URL and license type accepts; the cached license file can only add
      acceptances, so without one the two verdicts agree. */
  lemma RecordVerdictCarriesOver(p: Package, allowed: seq<string>, mappings: map<string, string>,
                                 files: map<PackageKey, Option<string>>, info: LibraryInfo)
    requires info.licenseUrl == p.licenseUrl
    requires info.licenseType == (if p.license.Some? then p.license.value.text else None)
    ensures InfoAllowed(info, allowed, mappings) ==> PackageAccepted(p, allowed, mappings, files)
    ensures !IsLicenseFile(p.license) ==> (PackageAccepted(p, allowed, mappings, files) <==> InfoAllowed(info, allowed, mappings))
  {
    forall i | 0 <= i < |allowed|
      ensures InfoAllowedBy(info, allowed[i], mappings) ==> PackageAcceptedBy(p, allowed[i], mappings, files)
      ensures !IsLicenseFile(p.license) ==> (PackageAcceptedBy(p, allowed[i], mappings, files) <==> InfoAllowedBy(info, allowed[i], mappings))
    {
    }
  }

  /** The verdict on one (project, package) entry: no allowed type accepts
      its package. */
  function Rejected(allowed: seq<string>, mappings: map<string, string>,
                    files: map<PackageKey, Option<string>>): ((string, Package)) -> bool
  {
    (e: (string, Package)) => !PackageAccepted(e.1, allowed, mappings, files)
  }

  /** The offenders of a table are its first entry, when rejected, followed
      by the offenders of the rest. */
  lemma RejectedCons(entries: seq<(string, Package)>, allowed: seq<string>, mappings: map<string, string>,
                     files: map<PackageKey, Option<string>>)
    requires |entries| > 0
    ensures Filter(Rejected(allowed, mappings, files), entries)
         == (if PackageAccepted(entries[0].1, allowed, mappings, files) then []
             else [entries[0]]) + Filter(Rejected(allowed, mappings, files), entries[1..])
  {
    var rejected := Rejected(allowed, mappings, files);
    assert rejected(entries[0]) == !PackageAccepted(entries[0].1, allowed, mappings, files);
  }

  /** `ValidateLicenses(Dictionary<string, PackageList>)` over the flattened
      (project, package) pairs: the offending pairs and the table with
      relabelled packages. The first null cached license text reached
      throws. */
  function ValidatePackages(entries: seq<(string, Package)>, allowed: seq<string>, mappings: map<string, string>,
                            files: map<PackageKey, Option<string>>): (r: Result<(Validation<(string, Package)>, seq<(string, Package)>), Error>)
    ensures |allowed| == 0 ==> r == Ok((Validation(true, []), entries))
    ensures |allowed| > 0 ==> (r.Err? <==> exists i | 0 <= i < |entries| :: ThrowsOnNullText(entries[i].1, allowed, mappings, files))
    ensures r.Ok? ==> (r.value.0.isValid <==> |r.value.0.invalid| == 0)
    ensures r.Ok? && |allowed| > 0 ==> r.value.0.invalid == Filter(Rejected(allowed, mappings, files), entries)
    ensures r.Ok? ==> |r.value.1| == |entries|
  {
    if |allowed| == 0 then Ok((Validation(true, []), entries))
    else
      ValidateEachOffenders(entries, allowed, mappings, files);
      var (invalid, relabelled) :- ValidateEach(entries, allowed, mappings, files);
      Ok((Validation(|invalid| == 0, invalid), relabelled))
  }

  /** The entries judged in order: the offenders, in table order, and every
      entry with its package as the verdict left it. */
  function ValidateEach(entries: seq<(string, Package)>, allowed: seq<string>, mappings: map<string, string>,
                        files: map<PackageKey, Option<string>>): (r: Result<(seq<(string, Package)>, seq<(string, Package)>), Error>)
    ensures r.Ok? ==> |r.value.1| == |entries|
    ensures r.Ok? ==> forall i :: 0 <= i < |entries| ==> r.value.1[i].0 == entries[i].0
    decreases |entries|
  {
    if |entries| == 0 then Ok(([], []))
    else
      var (ok, q) :- PackageAllowed(entries[0].1, allowed, mappings, files);
      var (invalid, relabelled) :- ValidateEach(entries[1..], allowed, mappings, files);
      var invalid' := if ok then invalid else [entries[0]] + invalid;
      var relabelled' := [(entries[0].0, q)] + relabelled;
      assert forall i :: 1 <= i < |entries| ==> relabelled'[i] == relabelled[i - 1] && entries[i] == entries[1..][i - 1];
      Ok((invalid', relabelled'))
  }

  /** Judging the table fails exactly when some entry's verdict throws, and
      otherwise the offenders are exactly the rejected entries, in table
      order. */
  lemma {:induction false} ValidateEachOffenders(entries: seq<(string, Package)>, allowed: seq<string>,
                                                 mappings: map<string, string>, files: map<PackageKey, Option<string>>)
    ensures ValidateEach(entries, allowed, mappings, files).Err?
        <==> exists i | 0 <= i < |entries| :: ThrowsOnNullText(entries[i].1, allowed, mappings, files)
    ensures ValidateEach(entries, allowed, mappings, files).Ok?
        ==> ValidateEach(entries, allowed, mappings, files).value.0 == Filter(Rejected(allowed, mappings, files), entries)
    decreases |entries|
  {
    if |entries| > 0 {
      ValidateEachOffenders(entries[1..], allowed, mappings, files);
      var head := PackageAllowed(entries[0].1, allowed, mappings, files);
      var tail := ValidateEach(entries[1..], allowed, mappings, files);
      if tail.Err? {
        var i :| 0 <= i < |entries[1..]| && ThrowsOnNullText(entries[1..][i].1, allowed, mappings, files);
        assert entries[i + 1] == entries[1..][i];
      }
      if head.Ok? && tail.Ok? {
        forall i | 0 <= i < |entries|
          ensures !ThrowsOnNullText(entries[i].1, allowed, mappings, files)
        {
          if i > 0 {
            assert entries[i] == entries[1..][i - 1];
          }
        }
        RejectedCons(entries, allowed, mappings, files);
      }
    }
  }

  // ---------------------------------------------------------------------------
  // Deprecated license URL

  /** The license URL NuGet puts on packages whose license is an expression
      or a file. */
  const DeprecatedLicenseUrl: string := "https://aka.ms/deprecateLicenseUrl"

  /** The gallery page of a package's license. */
  function GalleryLicenseUrl(name: string, version: string): (r: string)
    ensures r != DeprecatedLicenseUrl
  {
    var r := "https://www.nuget.org/packages/" + name + "/" + version + "/License";
    assert r[8] == 'w' && DeprecatedLicenseUrl[8] == 'a';
    r
  }

  /** `HandleDeprecateMSFTLicense`: each record whose license URL is the
      deprecated URL gets the gallery page of its package instead. */
  function HandleDeprecatedUrl(infos: seq<LibraryInfo>): (r: seq<LibraryInfo>)
    ensures |r| == |infos|
    ensures forall i :: 0 <= i < |r| ==> r[i] == infos[i].(licenseUrl := r[i].licenseUrl)
    ensures forall i :: 0 <= i < |r| ==> r[i].licenseUrl != Some(DeprecatedLicenseUrl)
    ensures forall i :: 0 <= i < |r| && infos[i].licenseUrl != Some(DeprecatedLicenseUrl) ==> r[i] == infos[i]
    ensures forall i :: 0 <= i < |r| && infos[i].licenseUrl == Some(DeprecatedLicenseUrl) ==>
              r[i].licenseUrl == Some(GalleryLicenseUrl(infos[i].packageName, infos[i].packageVersion))
  {
    seq(|infos|, i requires 0 <= i < |infos| =>
      if infos[i].licenseUrl == Some(DeprecatedLicenseUrl)
      then infos[i].(licenseUrl := Some(GalleryLicenseUrl(infos[i].packageName, infos[i].packageVersion)))
      else infos[i])
  }

  /** Rewriting twice changes nothing more. */
  lemma HandleDeprecatedUrlIdempotent(infos: seq<LibraryInfo>)
    ensures HandleDeprecatedUrl(HandleDeprecatedUrl(infos)) == HandleDeprecatedUrl(infos)
  {
  }
}
