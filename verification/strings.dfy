/** The JavaScript string operations the schematics rely on, over `seq<char>`:
    `indexOf`, `lastIndexOf`, `endsWith`, one-argument `slice`,
    `replace(pattern, '')` with a string pattern, and `Array.prototype.join`. */
module Strings {

  /** `pat` occurs in `s` starting at index `i`. */
  predicate OccursAt(s: string, pat: string, i: int) {
    0 <= i && i + |pat| <= |s| && s[i..i + |pat|] == pat
  }

  predicate StartsWith(s: string, prefix: string) {
    |prefix| <= |s| && s[..|prefix|] == prefix
  }

  /** `s.endsWith(suffix)` */
  predicate EndsWith(s: string, suffix: string) {
    |suffix| <= |s| && s[|s| - |suffix|..] == suffix
  }

  /** The first index at or after `from` where `pat` occurs, or -1. */
  function IndexFrom(s: string, pat: string, from: nat): (r: int)
    requires from <= |s|
    ensures r == -1 || (from <= r && OccursAt(s, pat, r))
    ensures r >= 0 ==> forall j :: from <= j < r ==> !OccursAt(s, pat, j)
    ensures r == -1 ==> forall j :: from <= j ==> !OccursAt(s, pat, j)
    decreases |s| - from
  {
    if OccursAt(s, pat, from) then from
    else if from == |s| then -1
    else IndexFrom(s, pat, from + 1)
  }

  /** `s.indexOf(pat)`: the first index where `pat` occurs, or -1 when it
      occurs nowhere. The empty pattern occurs at 0. */
  function IndexOf(s: string, pat: string): (r: int)
    ensures r >= 0 ==> OccursAt(s, pat, r)
    ensures r >= 0 ==> forall j :: 0 <= j < r ==> !OccursAt(s, pat, j)
    ensures r == -1 <==> forall j :: !OccursAt(s, pat, j)
    ensures r >= -1
  {
    IndexFrom(s, pat, 0)
  }

  /** `s.lastIndexOf([c])`: the last index holding `c`, or -1. */
  function LastIndexOf(s: string, c: char): (r: int)
    ensures -1 <= r < |s|
    ensures r >= 0 ==> s[r] == c && forall j :: r < j < |s| ==> s[j] != c
    ensures r == -1 <==> c !in s
  {
    if |s| == 0 then -1
    else if s[|s| - 1] == c then |s| - 1
    else LastIndexOf(s[..|s| - 1], c)
  }

  /** `s.slice(start)`: a negative start counts from the end (clamped at 0),
      a start past the end gives the empty string. */
  function SliceFrom(s: string, start: int): (r: string)
    ensures EndsWith(s, r)
    ensures 0 <= start <= |s| ==> |r| == |s| - start
    ensures start < 0 ==> |r| == if -start <= |s| then -start else |s|
    ensures start > |s| ==> r == []
  {
    if start < 0 then
      (if |s| + start < 0 then s else s[|s| + start..])
    else if start <= |s| then s[start..]
    else []
  }

  /** `s.replace(pat, '')`: removes the first occurrence of `pat`, if any.
      With a string pattern and an empty replacement no `$` substitution
      can take place. */
  function RemoveFirst(s: string, pat: string): (r: string)
    ensures IndexOf(s, pat) == -1 ==> r == s
    ensures IndexOf(s, pat) >= 0 ==> |r| == |s| - |pat|
    ensures IndexOf(s, pat) >= 0 ==>
              var i := IndexOf(s, pat); s == r[..i] + pat + r[i..]
  {
    var i := IndexOf(s, pat);
    if i < 0 then s else s[..i] + s[i + |pat|..]
  }

  /** Removing an occurrence adds no character. */
  lemma RemoveFirstKeepsAbsent(s: string, pat: string, c: char)
    requires c !in s
    ensures c !in RemoveFirst(s, pat)
  {
    var i := IndexOf(s, pat);
    if i >= 0 {
      var head, rest := s[..i], s[i + |pat|..];
      assert forall k :: 0 <= k < |head| ==> head[k] == s[k];
      assert forall k :: 0 <= k < |rest| ==> rest[k] == s[i + |pat| + k];
    }
  }

  /** Removing the first occurrence found at `i` splices `s` around it. */
  lemma RemoveFirstAt(s: string, pat: string, i: nat)
    requires IndexOf(s, pat) == i
    ensures RemoveFirst(s, pat) == s[..i] + s[i + |pat|..]
  {
  }

  lemma ConcatAssociates(a: string, b: string, c: string)
    ensures a + (b + c) == a + b + c
  {
  }

  lemma DropPrefix(a: string, b: string, c: string)
    ensures (a + b + c)[|a|..] == b + c
  {
  }

  /** Removing `b` found right after `a` leaves `a + c`. */
  lemma SpliceOut(a: string, b: string, c: string)
    requires IndexOf(a + b + c, b) == |a|
    ensures RemoveFirst(a + b + c, b) == a + c
  {
    var s := a + b + c;
    assert s[..|a|] == a;
    assert s[|a| + |b|..] == c;
  }

  /** `xs.join(sep)` */
  function Join(xs: seq<string>, sep: string): (r: string)
    ensures xs == [] ==> r == ""
    ensures |xs| > 0 ==> StartsWith(r, xs[0]) && EndsWith(r, xs[|xs| - 1])
    decreases |xs|
  {
    if |xs| == 0 then ""
    else if |xs| == 1 then xs[0]
    else
      var rest := Join(xs[1..], sep);
      assert EndsWith(xs[0] + sep + rest, rest);
      xs[0] + sep + rest
  }

  /** `s.split(sep)` for a non-empty separator; the partner of `Join`. */
  function Split(s: string, sep: string): (parts: seq<string>)
    requires |sep| > 0
    ensures |parts| >= 1
    decreases |s|
  {
    var i := IndexOf(s, sep);
    if i < 0 then [s] else [s[..i]] + Split(s[i + |sep|..], sep)
  }

  /** When `pat` starts `s`, `replace` strips exactly that prefix. */
  lemma RemoveFirstOfPrefix(s: string, pat: string)
    ensures StartsWith(s, pat) ==> RemoveFirst(s, pat) == s[|pat|..]
  {
    if StartsWith(s, pat) {
      assert OccursAt(s, pat, 0);
    }
  }

  /** A pattern whose first character is absent from `s` does not occur. */
  lemma AbsentWhenFirstCharMissing(s: string, pat: string)
    requires |pat| > 0 && pat[0] !in s
    ensures IndexOf(s, pat) == -1
  {
  }

  /** In `a + sep + b`, the first `sep` is the one right after `a` when `a`
      does not contain the separator's first character. */
  lemma IndexOfAfterPrefix(a: string, sep: string, b: string)
    requires |sep| > 0 && sep[0] !in a
    ensures IndexOf(a + sep + b, sep) == |a|
  {
    var s := a + sep + b;
    assert s[|a|..|a| + |sep|] == sep;
    assert OccursAt(s, sep, |a|);
  }

  /** Splitting at a separator found right after `a` peels `a` off. */
  lemma SplitAfterPrefix(a: string, sep: string, rest: string)
    requires |sep| > 0 && sep[0] !in a
    ensures Split(a + sep + rest, sep) == [a] + Split(rest, sep)
  {
    var s := a + sep + rest;
    IndexOfAfterPrefix(a, sep, rest);
    assert s[..|a|] == a;
    assert s[|a| + |sep|..] == rest;
  }

  /** Splitting a join recovers the parts, provided no part contains the
      separator's first character. */
  lemma {:induction false} SplitJoin(xs: seq<string>, sep: string)
    requires |xs| > 0 && |sep| > 0
    requires forall i :: 0 <= i < |xs| ==> sep[0] !in xs[i]
    ensures Split(Join(xs, sep), sep) == xs
    decreases |xs|
  {
    if |xs| == 1 {
      AbsentWhenFirstCharMissing(xs[0], sep);
    } else {
      SplitAfterPrefix(xs[0], sep, Join(xs[1..], sep));
      SplitJoin(xs[1..], sep);
      assert xs == [xs[0]] + xs[1..];
    }
  }
}
