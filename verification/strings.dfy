/** The few `str` operations of Python the library relies on: substring search
    (`split(sep, 1)`), prefix and suffix tests, and slicing with Python's
    clamping of out-of-range and negative indices. */
module Strings {
  import opened Outcomes

  /** `pat` occurs in `s` starting at index `j`. */
  predicate OccursAt(s: string, pat: string, j: int)
  {
    0 <= j && j + |pat| <= |s| && s[j..j + |pat|] == pat
  }

  /** Index of the first occurrence of a non-empty `pat` in `s`, if any. */
  function IndexOf(s: string, pat: string): (r: Option<nat>)
    requires |pat| > 0
    ensures r.Some? ==> OccursAt(s, pat, r.value)
    ensures r.Some? ==> forall j :: 0 <= j < r.value ==> !OccursAt(s, pat, j)
    ensures r.None? ==> forall j :: !OccursAt(s, pat, j)
  {
    IndexOfFrom(s, pat, 0)
  }

  function IndexOfFrom(s: string, pat: string, start: nat): (r: Option<nat>)
    requires |pat| > 0
    ensures r.Some? ==> start <= r.value && OccursAt(s, pat, r.value)
    ensures r.Some? ==> forall j :: start <= j < r.value ==> !OccursAt(s, pat, j)
    ensures r.None? ==> forall j :: start <= j ==> !OccursAt(s, pat, j)
    decreases |s| - start
  {
    if start + |pat| > |s| then None
    else if s[start..start + |pat|] == pat then Some(start)
    else IndexOfFrom(s, pat, start + 1)
  }

  /** Whether `pat` occurs anywhere in `s`. */
  predicate Contains(s: string, pat: string)
  {
    exists j :: 0 <= j <= |s| && OccursAt(s, pat, j)
  }

  /** `s.split(sep, 1)`: the text before and after the first `sep`, or `[s]`. */
  function SplitOnce(s: string, sep: string): (parts: seq<string>)
    requires |sep| > 0
    ensures 1 <= |parts| <= 2
    ensures |parts| == 2 <==> Contains(s, sep)
    ensures |parts| == 1 ==> parts[0] == s
    ensures |parts| == 2 ==> s == parts[0] + sep + parts[1] && !Contains(parts[0], sep)
  {
    match IndexOf(s, sep)
    case None => [s]
    case Some(i) =>
      var before, after := s[..i], s[i + |sep|..];
      assert s == before + sep + after by {
        assert s[i..i + |sep|] == sep;
      }
      assert !Contains(before, sep) by {
        forall j | OccursAt(before, sep, j)
          ensures false
        {
          assert s[j..j + |sep|] == before[j..j + |sep|];
          assert OccursAt(s, sep, j) && j < i;
        }
      }
      [before, after]
  }

  /** Appending text in which `pat` cannot start, and across whose seam it
      cannot straddle, leaves the first occurrence where it was. */
  lemma IndexOfAppend(u: string, rest: string, pat: string)
    requires |pat| > 0
    requires forall j :: |u| - |pat| < j ==> !OccursAt(u + rest, pat, j)
    ensures IndexOf(u + rest, pat) == IndexOf(u, pat)
  {
    forall j | 0 <= j <= |u| - |pat|
      ensures OccursAt(u + rest, pat, j) <==> OccursAt(u, pat, j)
    {
      assert (u + rest)[j..j + |pat|] == u[j..j + |pat|];
    }
    var r1, r2 := IndexOf(u + rest, pat), IndexOf(u, pat);
    if r1.Some? && r2.Some? {
      assert !(r1.value < r2.value) && !(r2.value < r1.value);
    }
  }

  /** Python's normalisation of one slice bound against a length. */
  function SliceBound(i: int, len: nat): (b: nat)
    ensures b <= len
  {
    if i < 0 then (if i + len < 0 then 0 else i + len)
    else if i > len then len
    else i
  }

  /** `s[start:stop]` with Python's semantics: negative bounds count from the
      end, out-of-range bounds are clamped, and a crossed range is empty. */
  function PySlice(s: string, start: int, stop: int): (r: string)
    ensures |r| <= |s|
  {
    var lo, hi := SliceBound(start, |s|), SliceBound(stop, |s|);
    if hi <= lo then "" else s[lo..hi]
  }

  /** Cutting a known prefix and suffix off a string returns what lies between. */
  lemma PySliceBetween(prefix: string, middle: string, suffix: string)
    requires |suffix| > 0
    ensures PySlice(prefix + middle + suffix, |prefix|, -|suffix|) == middle
  {
    var s := prefix + middle + suffix;
    assert s[|prefix|..|prefix| + |middle|] == middle;
  }

  /** The same, with the middle and suffix grouped. */
  lemma PySliceBetweenGrouped(prefix: string, middle: string, suffix: string)
    requires |suffix| > 0
    ensures PySlice(prefix + (middle + suffix), |prefix|, -|suffix|) == middle
  {
    var s := prefix + (middle + suffix);
    assert s[|prefix|..|prefix| + |middle|] == middle;
  }

  /** A slice from `lo` to `tail` characters before the end is the plain
      slice between them. */
  lemma PySliceInner(s: string, lo: nat, n: nat, tail: nat)
    requires lo + n + tail == |s| && tail > 0
    ensures PySlice(s, lo, -(tail as int)) == s[lo..lo + n]
  {
  }

  /** `"".join(parts)`. */
  function Concat(parts: seq<string>): string
  {
    if parts == [] then "" else parts[0] + Concat(parts[1..])
  }

  /** `"".join(f(x) for x in xs)`. */
  function ConcatMap<T>(xs: seq<T>, f: T --> string): string
    requires forall x :: x in xs ==> f.requires(x)
  {
    if xs == [] then "" else f(xs[0]) + ConcatMap(xs[1..], f)
  }

  lemma {:induction false} ConcatAppend(xs: seq<string>, ys: seq<string>)
    ensures Concat(xs + ys) == Concat(xs) + Concat(ys)
    decreases |xs|
  {
    if xs == [] {
      assert xs + ys == ys;
    } else {
      assert (xs + ys)[1..] == xs[1..] + ys;
      ConcatAppend(xs[1..], ys);
    }
  }

  lemma ConcatSnoc(xs: seq<string>, x: string)
    ensures Concat(xs + [x]) == Concat(xs) + x
  {
    ConcatAppend(xs, [x]);
    assert Concat([x]) == x + Concat([]);
  }

  /** `xs` lists the elements of `s`, each exactly once, in some order: what
      iterating over a Python set or dict's keys yields. */
  ghost predicate Enumerates(xs: seq<string>, s: set<string>)
  {
    && (forall i, j :: 0 <= i < j < |xs| ==> xs[i] != xs[j])
    && (forall x :: x in xs <==> x in s)
  }
}
