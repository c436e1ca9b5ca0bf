/** The attribution report of src/Methods.cs (`SaveAsTextFile`): one notice
    per record, in the order of the records. The file write is left out;
    the model returns the text, and `None` where no file is written. */
module Report {
  import opened Wrappers
  import opened Text
  import opened Model

  /** The sentence that opens every notice. */
  function Header(info: LibraryInfo): string {
    "The following software may be included in this product: " + info.packageName
      + ". A copy of the source code may be downloaded from " + info.packageUrl
      + ". This software contains the following license and notice below:"
  }

  /** A record has someone to credit: a copyright line, or else at least
      one author. */
  predicate HasCredit(info: LibraryInfo) {
    !IsBlank(info.copyright) || (info.authors.Some? && |info.authors.value| > 0)
  }

  /** A record can be written: it has someone to credit and a license text. */
  predicate Renderable(info: LibraryInfo) {
    HasCredit(info) && !IsNullOrWhiteSpace(info.licenseText)
  }

  /** The credit line: the copyright when it is not blank, else the authors
      joined with ", ". */
  function Credit(info: LibraryInfo): (r: Result<string, Error>)
    ensures r.Ok? <==> HasCredit(info)
    ensures r.Err? ==> r.error == NoCopyrightOrAuthor(info.packageName)
    ensures !IsBlank(info.copyright) ==> r == Ok(info.copyright)
  {
    if !IsBlank(info.copyright) then Ok(info.copyright)
    else if info.authors.None? || |info.authors.value| == 0 then Err(NoCopyrightOrAuthor(info.packageName))
    else Ok("Authors: " + Join(info.authors.value, ", "))
  }

  /** The notice of one record, with `nl` the platform line break. */
  function Notice(info: LibraryInfo, nl: string): (r: Result<string, Error>)
    ensures r.Ok? <==> Renderable(info)
    ensures !HasCredit(info) ==> r == Err(NoCopyrightOrAuthor(info.packageName))
    ensures HasCredit(info) && IsNullOrWhiteSpace(info.licenseText) ==> r == Err(LicenseTextNotFound(info.packageName))
  {
    var credit :- Credit(info);
    if IsNullOrWhiteSpace(info.licenseText) then Err(LicenseTextNotFound(info.packageName))
    else Ok(Header(info) + nl + nl + (credit + nl + nl) + (" " + info.licenseText.value + nl + nl))
  }

  /** A notice opens with its header and two line breaks, and closes with
      the license text, indented by one space, and two line breaks. */
  lemma NoticeShape(info: LibraryInfo, nl: string)
    requires Renderable(info)
    ensures StartsWith(Notice(info, nl).value, Header(info) + nl + nl)
    ensures EndsWith(Notice(info, nl).value, " " + info.licenseText.value + nl + nl)
  {
    var head := Header(info) + nl + nl;
    var tail := " " + info.licenseText.value + nl + nl;
    var r := Notice(info, nl).value;
    assert r == head + (Credit(info).value + nl + nl) + tail;
    assert r[..|head|] == head;
    assert r[|r| - |tail|..] == tail;
  }

  /** The parts of a report, concatenated in order; the first failed part
      is the report's failure. */
  function Collect(parts: seq<Result<string, Error>>): (r: Result<string, Error>)
    ensures r.Ok? <==> forall i :: 0 <= i < |parts| ==> parts[i].Ok?
    decreases |parts|
  {
    if |parts| == 0 then Ok("")
    else
      var first :- parts[0];
      var rest := Collect(parts[1..]);
      assert forall i :: 1 <= i < |parts| ==> parts[i] == parts[1..][i - 1];
      if rest.Err? then
        assert exists i :: 0 <= i < |parts[1..]| && parts[1..][i].Err?;
        Err(rest.error)
      else Ok(first + rest.value)
  }

  /** The failure of a collection is that of its first failed part. */
  lemma {:induction false} CollectFirstError(parts: seq<Result<string, Error>>, k: nat)
    requires k < |parts| && parts[k].Err?
    requires forall i :: 0 <= i < k ==> parts[i].Ok?
    ensures Collect(parts) == Err(parts[k].error)
    decreases k
  {
    if k > 0 {
      assert parts[1..][k - 1] == parts[k];
      assert forall i :: 0 <= i < k - 1 ==> parts[1..][i] == parts[i + 1];
      CollectFirstError(parts[1..], k - 1);
    }
  }

  /** Collections compose: collecting two lists of parts is joining the
      two collections. */
  lemma {:induction false} CollectAppend(a: seq<Result<string, Error>>, b: seq<Result<string, Error>>)
    requires Collect(a).Ok? && Collect(b).Ok?
    ensures Collect(a + b) == Ok(Collect(a).value + Collect(b).value)
    decreases |a|
  {
    if |a| == 0 {
      assert a + b == b;
      assert "" + Collect(b).value == Collect(b).value;
    } else {
      assert (a + b)[0] == a[0];
      assert (a + b)[1..] == a[1..] + b;
      CollectAppend(a[1..], b);
      var first := a[0].value;
      assert first + (Collect(a[1..]).value + Collect(b).value)
          == (first + Collect(a[1..]).value) + Collect(b).value;
    }
  }

  /** The notice of every record, in order. */
  function NoticeList(infos: seq<LibraryInfo>, nl: string): (r: seq<Result<string, Error>>)
    ensures |r| == |infos| && forall i :: 0 <= i < |infos| ==> r[i] == Notice(infos[i], nl)
  {
    seq(|infos|, i requires 0 <= i < |infos| => Notice(infos[i], nl))
  }

  lemma NoticeListAppend(a: seq<LibraryInfo>, b: seq<LibraryInfo>, nl: string)
    ensures NoticeList(a + b, nl) == NoticeList(a, nl) + NoticeList(b, nl)
  {
    var l, la, lb := NoticeList(a + b, nl), NoticeList(a, nl), NoticeList(b, nl);
    assert forall i :: 0 <= i < |l| ==> l[i] == (la + lb)[i] by {
      forall i | 0 <= i < |l|
        ensures l[i] == (la + lb)[i]
      {
        if i < |a| {
          assert (a + b)[i] == a[i];
        } else {
          assert (a + b)[i] == b[i - |a|];
        }
      }
    }
  }

  /** The notices of all records, concatenated; the first record that
      cannot be written ends the run. */
  function Notices(infos: seq<LibraryInfo>, nl: string): (r: Result<string, Error>)
    ensures r.Ok? <==> forall i :: 0 <= i < |infos| ==> Renderable(infos[i])
  {
    Collect(NoticeList(infos, nl))
  }

  /** The error of a failed report is the first unwritable record's. */
  lemma NoticesFirstError(infos: seq<LibraryInfo>, nl: string, k: nat)
    requires k < |infos| && !Renderable(infos[k])
    requires forall i :: 0 <= i < k ==> Renderable(infos[i])
    ensures Notices(infos, nl) == Err(Notice(infos[k], nl).error)
  {
    CollectFirstError(NoticeList(infos, nl), k);
  }

  /** Reports compose: the report of two lists is the two reports joined. */
  lemma NoticesAppend(a: seq<LibraryInfo>, b: seq<LibraryInfo>, nl: string)
    requires Notices(a, nl).Ok? && Notices(b, nl).Ok?
    ensures Notices(a + b, nl) == Ok(Notices(a, nl).value + Notices(b, nl).value)
  {
    NoticeListAppend(a, b, nl);
    CollectAppend(NoticeList(a, nl), NoticeList(b, nl));
  }

  /** A part of a successful collection sits between the collections of
      the parts before and after it. */
  lemma CollectInPlace(parts: seq<Result<string, Error>>, k: nat)
    requires Collect(parts).Ok? && k < |parts|
    ensures Collect(parts[..k]).Ok? && Collect(parts[k + 1..]).Ok?
    ensures Collect(parts).value == Collect(parts[..k]).value + parts[k].value + Collect(parts[k + 1..]).value
  {
    var pre, single, post := parts[..k], [parts[k]], parts[k + 1..];
    SplitAround(parts, k);
    CollectParts(pre, single + post);
    CollectParts(single, post);
    CollectSingle(parts[k]);
    CollectAppend(single, post);
    CollectAppend(pre, single + post);
    var x, y, z := Collect(pre).value, parts[k].value, Collect(post).value;
    assert x + (y + z) == x + y + z;
  }

  lemma SplitAround<T>(s: seq<T>, k: nat)
    requires k < |s|
    ensures s == s[..k] + ([s[k]] + s[k + 1..])
  {
  }

  lemma CollectSingle(part: Result<string, Error>)
    requires part.Ok?
    ensures Collect([part]) == Ok(part.value)
  {
    assert [part][1..] == [];
    assert Collect([part][1..]) == Ok("");
    assert part.value + "" == part.value;
  }

  lemma CollectParts(a: seq<Result<string, Error>>, b: seq<Result<string, Error>>)
    requires Collect(a + b).Ok?
    ensures Collect(a).Ok? && Collect(b).Ok?
  {
    assert forall i :: 0 <= i < |a| ==> a[i] == (a + b)[i];
    assert forall i :: 0 <= i < |b| ==> b[i] == (a + b)[|a| + i];
  }

  lemma NoticeListSlice(infos: seq<LibraryInfo>, nl: string, lo: nat, hi: nat)
    requires lo <= hi <= |infos|
    ensures NoticeList(infos[lo..hi], nl) == NoticeList(infos, nl)[lo..hi]
  {
    var l, m := NoticeList(infos[lo..hi], nl), NoticeList(infos, nl)[lo..hi];
    assert forall i :: 0 <= i < |l| ==> l[i] == m[i] by {
      forall i | 0 <= i < |l|
        ensures l[i] == m[i]
      {
        assert infos[lo..hi][i] == infos[lo + i];
      }
    }
  }

  /** Every record's notice appears in the report, in place: after the
      notices of the records before it and before those of the records
      after it. */
  lemma NoticeInPlace(infos: seq<LibraryInfo>, nl: string, k: nat)
    requires Notices(infos, nl).Ok? && k < |infos|
    ensures Notices(infos[..k], nl).Ok? && Notices(infos[k + 1..], nl).Ok?
    ensures Notices(infos, nl).value
         == Notices(infos[..k], nl).value + Notice(infos[k], nl).value + Notices(infos[k + 1..], nl).value
  {
    CollectInPlace(NoticeList(infos, nl), k);
    NoticeListSlice(infos, nl, 0, k);
    NoticeListSlice(infos, nl, k + 1, |infos|);
    assert infos[0..k] == infos[..k];
    assert infos[k + 1..|infos|] == infos[k + 1..];
    assert NoticeList(infos, nl)[0..k] == NoticeList(infos, nl)[..k];
    assert NoticeList(infos, nl)[k + 1..|infos|] == NoticeList(infos, nl)[k + 1..];
  }

  /** `SaveAsTextFile`: no records, no file; otherwise the notices. */
  function SaveAsText(infos: seq<LibraryInfo>, nl: string): (r: Result<Option<string>, Error>)
    ensures |infos| == 0 <==> r == Ok(None)
    ensures |infos| > 0 ==> (r.Ok? <==> forall i :: 0 <= i < |infos| ==> Renderable(infos[i]))
  {
    if |infos| == 0 then Ok(None)
    else
      var text :- Notices(infos, nl);
      Ok(Some(text))
  }

  /** A written report opens with the notice of the first record. */
  lemma ReportOpensWithFirstNotice(infos: seq<LibraryInfo>, nl: string)
    requires |infos| > 0 && SaveAsText(infos, nl).Ok?
    ensures StartsWith(SaveAsText(infos, nl).value.value, Header(infos[0]) + nl + nl)
  {
    var first := Notice(infos[0], nl).value;
    NoticeShape(infos[0], nl);
    NoticeInPlace(infos, nl, 0);
    assert NoticeList(infos[..0], nl) == [];
    var rest := Notices(infos[1..], nl).value;
    assert SaveAsText(infos, nl).value.value == "" + first + rest;
    assert "" + first == first;
    PrefixExtend(first, rest, Header(infos[0]) + nl + nl);
  }

  lemma PrefixExtend(a: string, b: string, p: string)
    requires StartsWith(a, p)
    ensures StartsWith(a + b, p)
  {
    assert (a + b)[..|p|] == a[..|p|];
  }

  /** A notice holds its record's license text. */
  lemma NoticeHoldsText(info: LibraryInfo, nl: string)
    requires Renderable(info)
    ensures Contains(Notice(info, nl).value, info.licenseText.value)
  {
    var notice := Notice(info, nl).value;
    var text := info.licenseText.value;
    var tail := " " + text + nl + nl;
    var at := |notice| - |tail| + 1;
    NoticeShape(info, nl);
    assert notice[|notice| - |tail|..] == tail;
    assert notice[at..at + |text|] == tail[1..1 + |text|];
    assert ContainsAt(notice, text, at);
  }

  /** Every license text of a written report appears in it. */
  lemma ReportHoldsEveryText(infos: seq<LibraryInfo>, nl: string, k: nat)
    requires SaveAsText(infos, nl).Ok? && k < |infos|
    ensures SaveAsText(infos, nl).value.Some?
    ensures Contains(SaveAsText(infos, nl).value.value, infos[k].licenseText.value)
  {
    NoticeInPlace(infos, nl, k);
    NoticeHoldsText(infos[k], nl);
    var notice := Notice(infos[k], nl).value;
    var text := infos[k].licenseText.value;
    var i :| ContainsAt(notice, text, i);
    var before := Notices(infos[..k], nl).value;
    var after := Notices(infos[k + 1..], nl).value;
    ContainsAtShift(before, notice, text, i);
    ContainsAtExtend(before + notice, after, text, |before| + i);
  }

  lemma ContainsAtShift(a: string, b: string, p: string, i: int)
    requires ContainsAt(b, p, i)
    ensures ContainsAt(a + b, p, |a| + i)
  {
    assert (a + b)[|a| + i..|a| + i + |p|] == b[i..i + |p|];
  }
}
