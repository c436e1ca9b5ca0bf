/** LINQ `Where` over sequences. */
module Seqs {

  /** The elements of `s` that satisfy `p`, in their original order. */
  function Filter<T>(p: T -> bool, s: seq<T>): (r: seq<T>)
    ensures |r| <= |s|
    ensures forall i :: 0 <= i < |r| ==> r[i] in s && p(r[i])
    ensures forall i :: 0 <= i < |s| && p(s[i]) ==> s[i] in r
    ensures multiset(r) <= multiset(s)
    decreases |s|
  {
    if |s| == 0 then []
    else
      var rest := Filter(p, s[1..]);
      assert s == [s[0]] + s[1..];
      if p(s[0]) then [s[0]] + rest else rest
  }

  /** Filtering distributes over concatenation, so relative order is kept. */
  /** Filtering a sequence with a given head. */
  lemma FilterCons<T>(p: T -> bool, h: T, t: seq<T>)
    ensures Filter(p, [h] + t) == (if p(h) then [h] else []) + Filter(p, t)
  {
    assert ([h] + t)[1..] == t;
  }

  /** An element that does not pass `p` alongside elements that do keeps
      its place relative to them. */
  lemma FilterPastOther<T>(p: T -> bool, h: T, rest: seq<T>, t: seq<T>, front: seq<T>)
    requires Filter(p, rest) == front + Filter(p, t)
    requires front == [] || !p(h)
    ensures Filter(p, [h] + rest) == front + Filter(p, [h] + t)
  {
    FilterCons(p, h, rest);
    FilterCons(p, h, t);
    if p(h) {
      assert Filter(p, rest) == Filter(p, t);
    } else {
      assert Filter(p, [h] + t) == Filter(p, t);
    }
  }

  lemma {:induction false} FilterAppend<T>(p: T -> bool, a: seq<T>, b: seq<T>)
    ensures Filter(p, a + b) == Filter(p, a) + Filter(p, b)
    decreases |a|
  {
    if |a| > 0 {
      assert (a + b)[1..] == a[1..] + b;
      FilterAppend(p, a[1..], b);
    } else {
      assert a + b == b;
    }
  }

  /** Filtering twice with the same predicate changes nothing more. */
  lemma {:induction false} FilterIdempotent<T>(p: T -> bool, s: seq<T>)
    ensures Filter(p, Filter(p, s)) == Filter(p, s)
    decreases |s|
  {
    if |s| > 0 {
      FilterIdempotent(p, s[1..]);
    }
  }
}
