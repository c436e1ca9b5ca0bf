/** The merge step of the Origam attributions generator
    (OrigamAttributionsGenerator/Program.cs): the yarn disclaimer is cut
    down to its part from the attribution-notices banner on, and the C#
    report is appended after it. Files are given by their contents: the
    disclaimer as the sequence of its lines, the report as its text. */
module Attributions {
  import opened Wrappers
  import opened Text

  /** The banner line that opens yarn's notices. */
  const Banner: string := "THE FOLLOWING SETS FORTH ATTRIBUTION NOTICES"

  /** The line break the generator writes. */
  const CrLf: string := "\r\n"

  predicate IsBannerLine(line: string) {
    Contains(line, Banner)
  }

  /** Each line followed by CR LF, in order. */
  function Terminated(lines: seq<string>): (r: string)
    ensures |lines| == 0 <==> r == ""
    decreases |lines|
  {
    if |lines| == 0 then "" else lines[0] + CrLf + Terminated(lines[1..])
  }

  lemma {:induction false} TerminatedAppend(a: seq<string>, b: seq<string>)
    ensures Terminated(a + b) == Terminated(a) + Terminated(b)
    decreases |a|
  {
    if |a| == 0 {
      assert a + b == b;
    } else {
      assert (a + b)[0] == a[0];
      assert (a + b)[1..] == a[1..] + b;
      TerminatedAppend(a[1..], b);
    }
  }

  /** The index of the first banner line, if any. */
  function FirstBanner(lines: seq<string>): (r: Option<nat>)
    ensures r.None? <==> forall i :: 0 <= i < |lines| ==> !IsBannerLine(lines[i])
    ensures r.Some? ==> r.value < |lines| && IsBannerLine(lines[r.value])
    ensures r.Some? ==> forall i :: 0 <= i < r.value ==> !IsBannerLine(lines[i])
    decreases |lines|
  {
    if |lines| == 0 then None
    else if IsBannerLine(lines[0]) then Some(0)
    else
      var rest := FirstBanner(lines[1..]);
      assert forall i :: 1 <= i < |lines| ==> lines[i] == lines[1..][i - 1];
      match rest
      case None => None
      case Some(k) => Some(k + 1)
  }

  /** The cleaned disclaimer: nothing when no line holds the banner, else
      every line from the first banner line on, each closed by CR LF. */
  function CleanedJs(lines: seq<string>): (r: string)
    ensures r == "" <==> forall i :: 0 <= i < |lines| ==> !IsBannerLine(lines[i])
  {
    match FirstBanner(lines)
    case None => ""
    case Some(k) => Terminated(lines[k..])
  }

  /** A banner line with none before it is the first. */
  lemma FirstBannerAt(lines: seq<string>, i: nat)
    requires i < |lines| && IsBannerLine(lines[i])
    requires forall j :: 0 <= j < i ==> !IsBannerLine(lines[j])
    ensures FirstBanner(lines) == Some(i)
  {
  }

  lemma TerminatedSnoc(lines: seq<string>, k: nat, i: nat)
    requires k <= i < |lines|
    ensures Terminated(lines[k..i + 1]) == Terminated(lines[k..i]) + lines[i] + CrLf
  {
    assert lines[k..i + 1] == lines[k..i] + [lines[i]];
    TerminatedAppend(lines[k..i], [lines[i]]);
    assert [lines[i]][1..] == [];
  }

  /** `CleanJsAttributionsFile`: one pass over the lines, copying from the
      first banner line on. */
  method CleanJsAttributions(lines: seq<string>) returns (output: string)
    ensures output == CleanedJs(lines)
  {
    var begun := false;
    output := "";
    var i := 0;
    ghost var start := 0;
    while i < |lines|
      invariant 0 <= i <= |lines|
      invariant !begun ==> output == "" && forall j :: 0 <= j < i ==> !IsBannerLine(lines[j])
      invariant begun ==> start < i && FirstBanner(lines) == Some(start) && output == Terminated(lines[start..i])
    {
      if begun {
        TerminatedSnoc(lines, start, i);
        output := output + lines[i] + CrLf;
      } else if Contains(lines[i], Banner) {
        FirstBannerAt(lines, i);
        TerminatedSnoc(lines, i, i);
        assert lines[i..i] == [];
        output := output + lines[i] + CrLf;
        begun := true;
        start := i;
      }
      i := i + 1;
    }
    if begun {
      assert lines[start..|lines|] == lines[start..];
    }
  }

  /** Once the banner has been seen, every later line is kept, banner lines
      included. */
  lemma CleanedAfterBanner(a: seq<string>, b: seq<string>)
    requires exists i :: 0 <= i < |a| && IsBannerLine(a[i])
    ensures CleanedJs(a + b) == CleanedJs(a) + Terminated(b)
  {
    var k := FirstBanner(a).value;
    assert forall i :: 0 <= i < |a| ==> (a + b)[i] == a[i];
    assert FirstBanner(a + b) == Some(k);
    assert (a + b)[k..] == a[k..] + b;
    TerminatedAppend(a[k..], b);
  }

  /** Lines before the banner are dropped. */
  lemma CleanedBeforeBanner(a: seq<string>, b: seq<string>)
    requires forall i :: 0 <= i < |a| ==> !IsBannerLine(a[i])
    ensures CleanedJs(a + b) == CleanedJs(b)
  {
    var ab := a + b;
    assert forall i :: 0 <= i < |b| ==> ab[|a| + i] == b[i];
    match FirstBanner(b)
    case None =>
    case Some(k) =>
      assert FirstBanner(ab) == Some(|a| + k);
      assert ab[|a| + k..] == b[k..];
  }

  lemma CleanedUnfold(lines: seq<string>)
    requires FirstBanner(lines).Some?
    ensures CleanedJs(lines) == lines[FirstBanner(lines).value] + (CrLf + Terminated(lines[FirstBanner(lines).value + 1..]))
  {
    var k := FirstBanner(lines).value;
    assert lines[k..][0] == lines[k];
    assert lines[k..][1..] == lines[k + 1..];
  }

  /** The cleaned disclaimer opens with the first banner line. */
  lemma CleanedStartsWithBanner(lines: seq<string>)
    requires FirstBanner(lines).Some?
    ensures StartsWith(CleanedJs(lines), lines[FirstBanner(lines).value] + CrLf)
    ensures Contains(CleanedJs(lines), Banner)
  {
    var k := FirstBanner(lines).value;
    var line := lines[k];
    var rest := CrLf + Terminated(lines[k + 1..]);
    CleanedUnfold(lines);
    var r := line + rest;
    assert r[..|line + CrLf|] == line + CrLf;
    var i :| ContainsAt(line, Banner, i);
    ContainsAtExtend(line, rest, Banner, i);
  }

  /** `MergeFiles`: the cleaned disclaimer, a blank line, the C# report. */
  function MergeFiles(report: string, disclaimer: seq<string>): (r: string)
    ensures |r| == |CleanedJs(disclaimer)| + 4 + |report|
    ensures r[..|CleanedJs(disclaimer)|] == CleanedJs(disclaimer)
    ensures r[|CleanedJs(disclaimer)|..|CleanedJs(disclaimer)| + 4] == CrLf + CrLf
    ensures r[|CleanedJs(disclaimer)| + 4..] == report
  {
    var js := CleanedJs(disclaimer);
    var r := js + CrLf + CrLf + report;
    assert r == js + (CrLf + CrLf) + report;
    r
  }

  /** A disclaimer without the banner leaves only the separator before the
      report. */
  lemma MergeWithoutBanner(report: string, disclaimer: seq<string>)
    requires forall i :: 0 <= i < |disclaimer| ==> !IsBannerLine(disclaimer[i])
    ensures MergeFiles(report, disclaimer) == "\r\n\r\n" + report
  {
    var r := MergeFiles(report, disclaimer);
    assert r[4..] == report;
    assert r[..4] == "\r\n\r\n";
    assert r == r[..4] + r[4..];
  }
}
