/** The .NET string operations the pipeline relies on, as functions on
    `seq<char>`: white-space tests, prefix/suffix/substring tests, ASCII case
    folding, `Split` on one character, `Join`, `Trim` of a character set and
    ordinal `Replace`. */
module Text {
  import opened Wrappers

  /** `char.IsWhiteSpace`: the Unicode space separators, the line and
      paragraph separators, and the controls U+0009..U+000D and U+0085. */
  predicate IsWhiteSpace(c: char) {
    || c == ' '
    || ('\t' <= c <= '\r')
    || c == '\U{0085}'
    || c == '\U{00A0}'
    || c == '\U{1680}'
    || ('\U{2000}' <= c <= '\U{200A}')
    || c == '\U{2028}'
    || c == '\U{2029}'
    || c == '\U{202F}'
    || c == '\U{205F}'
    || c == '\U{3000}'
  }

  /** `string.IsNullOrWhiteSpace` of a non-null string. */
  predicate IsBlank(s: string) {
    forall i :: 0 <= i < |s| ==> IsWhiteSpace(s[i])
  }

  /** `s.StartsWith(p)`, compared character by character. */
  predicate StartsWith(s: string, p: string) {
    |p| <= |s| && s[..|p|] == p
  }

  /** `s.EndsWith(p)`, compared character by character. */
  predicate EndsWith(s: string, p: string) {
    |p| <= |s| && s[|s| - |p|..] == p
  }

  /** `p` occurs in `s` at index `i`. */
  predicate ContainsAt(s: string, p: string, i: int) {
    0 <= i && i + |p| <= |s| && s[i..i + |p|] == p
  }

  /** Ordinal `s.Contains(p)`. */
  predicate Contains(s: string, p: string) {
    exists i | 0 <= i <= |s| - |p| :: ContainsAt(s, p, i)
  }

  /** An occurrence of `p` in the tail of `s` is an occurrence in `s`. */
  lemma ContainsInTail(s: string, p: string, i: int)
    requires |s| > 0 && ContainsAt(s[1..], p, i)
    ensures ContainsAt(s, p, i + 1)
  {
    assert s[i + 1..i + 1 + |p|] == s[1..][i..i + |p|];
  }

  /** An occurrence of `p` in `s` away from index 0 is an occurrence in the tail. */
  lemma ContainsAtInTail(s: string, p: string, i: int)
    requires ContainsAt(s, p, i) && i > 0
    ensures ContainsAt(s[1..], p, i - 1)
  {
    assert s[1..][i - 1..i - 1 + |p|] == s[i..i + |p|];
  }

  /** An occurrence in a prefix is an occurrence in the whole string. */
  lemma ContainsAtExtend(a: string, b: string, p: string, i: int)
    requires ContainsAt(a, p, i)
    ensures ContainsAt(a + b, p, i)
  {
    assert (a + b)[i..i + |p|] == a[i..i + |p|];
  }

  /** ASCII lower-casing of one character (`ToLower` restricted to A..Z). */
  function LowerChar(c: char): char {
    if 'A' <= c <= 'Z' then (c as int + 32) as char else c
  }

  /** `s.ToLower()` restricted to ASCII letters. */
  function Lower(s: string): (r: string)
    ensures |r| == |s|
    ensures forall i :: 0 <= i < |s| ==> r[i] == LowerChar(s[i])
  {
    seq(|s|, i requires 0 <= i < |s| => LowerChar(s[i]))
  }

  lemma LowerAppend(a: string, b: string)
    ensures Lower(a + b) == Lower(a) + Lower(b)
  {
  }

  /** `s.Contains(p, StringComparison.OrdinalIgnoreCase)` on ASCII letters. */
  predicate ContainsIgnoreCase(s: string, p: string) {
    Contains(Lower(s), Lower(p))
  }

  /** `string.Compare(a, b, StringComparison.OrdinalIgnoreCase) == 0` on ASCII letters. */
  predicate EqualsIgnoreCase(a: string, b: string) {
    Lower(a) == Lower(b)
  }

  /** `s.Split(sep)`: the pieces between occurrences of `sep`, empty pieces
      included, so that there is always one more piece than separators. */
  function Split(s: string, sep: char): (r: seq<string>)
    ensures |r| >= 1
    ensures forall i :: 0 <= i < |r| ==> sep !in r[i]
    decreases |s|
  {
    if |s| == 0 then [""]
    else
      var rest := Split(s[1..], sep);
      if s[0] == sep then [""] + rest
      else [[s[0]] + rest[0]] + rest[1..]
  }

  /** `string.CompareOrdinal(a, b) <= 0`: lexicographic order on characters,
      a proper prefix first. */
  predicate StrLeq(a: string, b: string)
    decreases |a|
  {
    if |a| == 0 then true
    else if |b| == 0 then false
    else if a[0] != b[0] then a[0] < b[0]
    else StrLeq(a[1..], b[1..])
  }

  /** Any two strings are ordered one way or the other. */
  lemma {:induction false} StrLeqTotal(a: string, b: string)
    ensures StrLeq(a, b) || StrLeq(b, a)
    decreases |a|
  {
    if |a| > 0 && |b| > 0 && a[0] == b[0] {
      StrLeqTotal(a[1..], b[1..]);
    }
  }

  /** The order is transitive. */
  lemma {:induction false} StrLeqTrans(a: string, b: string, c: string)
    requires StrLeq(a, b) && StrLeq(b, c)
    ensures StrLeq(a, c)
    decreases |a|
  {
    if |a| > 0 && |b| > 0 && |c| > 0 && a[0] == b[0] && b[0] == c[0] {
      StrLeqTrans(a[1..], b[1..], c[1..]);
    }
  }

  /** Strings ordered both ways are equal. */
  lemma {:induction false} StrLeqAntisymmetric(a: string, b: string)
    requires StrLeq(a, b) && StrLeq(b, a)
    ensures a == b
    decreases |a|
  {
    if |a| > 0 && |b| > 0 {
      StrLeqAntisymmetric(a[1..], b[1..]);
      assert a == [a[0]] + a[1..] && b == [b[0]] + b[1..];
    }
  }

  /** `s.IndexOf(c)`: the position of the first occurrence of `c`, if any. */
  function IndexOf(s: string, c: char): (r: Option<nat>)
    ensures r.None? <==> c !in s
    ensures r.Some? ==> r.value < |s| && s[r.value] == c && c !in s[..r.value]
    decreases |s|
  {
    if |s| == 0 then None
    else if s[0] == c then Some(0)
    else match IndexOf(s[1..], c)
      case None => None
      case Some(i) =>
        assert s[..i + 1] == [s[0]] + s[1..][..i];
        Some(i + 1)
  }

  /** `string.Join(sep, parts)`. */
  function Join(parts: seq<string>, sep: string): string
    decreases |parts|
  {
    if |parts| == 0 then ""
    else if |parts| == 1 then parts[0]
    else parts[0] + sep + Join(parts[1..], sep)
  }

  /** Joining the pieces of a split with the separator gives back the string. */
  lemma {:induction false} JoinSplit(s: string, sep: char)
    ensures Join(Split(s, sep), [sep]) == s
    decreases |s|
  {
    if |s| > 0 {
      var rest := Split(s[1..], sep);
      JoinSplit(s[1..], sep);
      if s[0] == sep {
        assert Split(s, sep) == [""] + rest;
        assert s == [sep] + s[1..];
      } else {
        var r := Split(s, sep);
        assert r == [[s[0]] + rest[0]] + rest[1..];
        if |rest| == 1 {
          assert s == [s[0]] + rest[0];
        } else {
          assert Join(rest, [sep]) == rest[0] + [sep] + Join(rest[1..], [sep]);
          assert r[1..] == rest[1..];
          assert s == [s[0]] + s[1..];
        }
      }
    }
  }

  /** A string free of the separator is one piece. */
  lemma {:induction false} SplitNoSeparator(s: string, sep: char)
    requires sep !in s
    ensures Split(s, sep) == [s]
    decreases |s|
  {
    if |s| > 0 {
      assert sep !in s[1..];
      SplitNoSeparator(s[1..], sep);
      assert s == [s[0]] + s[1..];
    }
  }

  /** Splitting `a + sep + b`, with `a` free of the separator, yields `a`
      followed by the pieces of `b`. */
  lemma {:induction false} SplitConcat(a: string, b: string, sep: char)
    requires sep !in a
    ensures Split(a + [sep] + b, sep) == [a] + Split(b, sep)
    decreases |a|
  {
    var s := a + [sep] + b;
    if |a| == 0 {
      assert s[0] == sep && s[1..] == b;
    } else {
      assert s[1..] == a[1..] + [sep] + b;
      assert sep !in a[1..];
      SplitConcat(a[1..], b, sep);
      assert s[0] == a[0];
      assert [a[0]] + a[1..] == a;
    }
  }

  /** Splitting a join of separator-free pieces gives the pieces back. */
  lemma {:induction false} SplitJoin(parts: seq<string>, sep: char)
    requires |parts| >= 1
    requires forall i :: 0 <= i < |parts| ==> sep !in parts[i]
    ensures Split(Join(parts, [sep]), sep) == parts
    decreases |parts|
  {
    if |parts| == 1 {
      SplitNoSeparator(parts[0], sep);
    } else {
      SplitJoin(parts[1..], sep);
      SplitConcat(parts[0], Join(parts[1..], [sep]), sep);
      assert [parts[0]] + parts[1..] == parts;
    }
  }

  /** There is one more piece than there are separators. */
  lemma {:induction false} SplitCount(s: string, sep: char)
    ensures |Split(s, sep)| == multiset(s)[sep] + 1
    decreases |s|
  {
    if |s| > 0 {
      SplitCount(s[1..], sep);
      assert s == [s[0]] + s[1..];
      assert multiset(s) == multiset([s[0]]) + multiset(s[1..]);
    }
  }

  /** First index at or after `i` whose character is not in `cs`. */
  function SkipStart(s: string, cs: set<char>, i: nat): (k: nat)
    requires i <= |s|
    ensures i <= k <= |s|
    ensures forall m :: i <= m < k ==> s[m] in cs
    ensures k < |s| ==> s[k] !in cs
    decreases |s| - i
  {
    if i < |s| && s[i] in cs then SkipStart(s, cs, i + 1) else i
  }

  /** One past the last index below `j`, and at or above `lo`, whose
      character is not in `cs`. */
  function SkipEnd(s: string, cs: set<char>, lo: nat, j: nat): (k: nat)
    requires lo <= j <= |s|
    ensures lo <= k <= j
    ensures forall m :: k <= m < j ==> s[m] in cs
    ensures k > lo ==> s[k - 1] !in cs
    decreases j
  {
    if j > lo && s[j - 1] in cs then SkipEnd(s, cs, lo, j - 1) else j
  }

  /** `r` is `s` with every leading and trailing character of `cs` removed. */
  ghost predicate IsTrimOf(r: string, s: string, cs: set<char>) {
    exists i, j :: 0 <= i <= j <= |s| && r == s[i..j]
      && (forall k :: 0 <= k < i ==> s[k] in cs)
      && (forall k :: j <= k < |s| ==> s[k] in cs)
      && (i < j ==> s[i] !in cs && s[j - 1] !in cs)
  }

  /** `s.Trim(cs)`. */
  function Trim(s: string, cs: set<char>): (r: string)
    ensures IsTrimOf(r, s, cs)
    ensures r == [] || (r[0] !in cs && r[|r| - 1] !in cs)
  {
    var i := SkipStart(s, cs, 0);
    var j := SkipEnd(s, cs, i, |s|);
    assert i < j ==> s[i] !in cs;
    s[i..j]
  }

  /** Ordinal `s.Replace(pat, rep)`: occurrences are replaced left to right
      without overlap. */
  function Replace(s: string, pat: string, rep: string): (r: string)
    requires |pat| > 0
    ensures !Contains(s, pat) ==> r == s
    ensures |rep| <= |pat| ==> |r| <= |s|
    ensures |rep| < |pat| && Contains(s, pat) ==> |r| < |s|
    decreases |s|
  {
    if |s| < |pat| then
      assert !Contains(s, pat);
      s
    else if s[..|pat|] == pat then
      assert ContainsAt(s, pat, 0);
      rep + Replace(s[|pat|..], pat, rep)
    else
      var rest := Replace(s[1..], pat, rep);
      assert !Contains(s, pat) ==> !Contains(s[1..], pat) by {
        if Contains(s[1..], pat) {
          var i :| ContainsAt(s[1..], pat, i);
          ContainsInTail(s, pat, i);
        }
      }
      assert Contains(s, pat) ==> Contains(s[1..], pat) by {
        if Contains(s, pat) {
          var i :| ContainsAt(s, pat, i);
          assert i != 0;
          ContainsAtInTail(s, pat, i);
        }
      }
      assert !Contains(s, pat) ==> s == [s[0]] + s[1..];
      [s[0]] + rest
  }

  /** `pat` occurs in `s` at `k` and nowhere before. */
  predicate FirstAt(s: string, pat: string, k: int) {
    ContainsAt(s, pat, k) && forall i | 0 <= i < k :: !ContainsAt(s, pat, i)
  }

  /** `Replace` scans left to right: the text before the first occurrence is
      copied, that occurrence becomes `rep`, and the scan resumes after it. */
  lemma ReplaceAtFirst(a: string, pat: string, t: string, rep: string)
    requires |pat| > 0
    requires FirstAt(a + pat + t, pat, |a|)
    ensures Replace(a + pat + t, pat, rep) == a + rep + Replace(t, pat, rep)
  {
    var s := a + pat + t;
    ReplaceBefore(s, pat, rep, |a|);
    assert s[..|a|] == a && s[|a|..] == pat + t;
    ReplaceAtStart(pat, t, rep);
  }

  /** The characters before the first occurrence are copied unchanged. */
  lemma {:induction false} ReplaceBefore(s: string, pat: string, rep: string, k: nat)
    requires |pat| > 0 && k <= |s|
    requires forall i | 0 <= i < k :: !ContainsAt(s, pat, i)
    ensures Replace(s, pat, rep) == s[..k] + Replace(s[k..], pat, rep)
    decreases k
  {
    if k == 0 {
      assert s[..0] == [] && s[0..] == s;
    } else {
      ReplaceSkips(s, pat, rep);
      var tail := s[1..];
      forall i | 0 <= i < k - 1
        ensures !ContainsAt(tail, pat, i)
      {
        if ContainsAt(tail, pat, i) {
          ContainsInTail(s, pat, i);
        }
      }
      ReplaceBefore(tail, pat, rep, k - 1);
      SliceOfTail(s, k);
      ConsAssoc(s[0], tail[..k - 1], Replace(s[k..], pat, rep));
    }
  }

  /** Slicing the tail of a string is slicing the string one further on. */
  lemma SliceOfTail(s: string, k: nat)
    requires 0 < k <= |s|
    ensures s[1..][k - 1..] == s[k..]
    ensures s[..k] == [s[0]] + s[1..][..k - 1]
  {
  }

  /** Prepending a character associates with concatenation. */
  lemma ConsAssoc(c: char, u: string, v: string)
    ensures [c] + (u + v) == ([c] + u) + v
  {
  }

  /** An occurrence at the start is replaced. */
  lemma ReplaceAtStart(pat: string, t: string, rep: string)
    requires |pat| > 0
    ensures Replace(pat + t, pat, rep) == rep + Replace(t, pat, rep)
  {
    var s := pat + t;
    assert s[..|pat|] == pat && s[|pat|..] == t;
  }

  /** A character that starts no occurrence is copied. */
  lemma ReplaceSkips(s: string, pat: string, rep: string)
    requires |pat| > 0 && |s| > 0 && !ContainsAt(s, pat, 0)
    ensures Replace(s, pat, rep) == [s[0]] + Replace(s[1..], pat, rep)
  {
    if |s| >= |pat| {
      assert s[..|pat|] != pat;
    } else {
      assert !Contains(s, pat);
      assert s == [s[0]] + s[1..];
      assert !Contains(s[1..], pat);
    }
  }
}
