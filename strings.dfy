/**
 * The few Python string operations the pipeline relies on: `sep.join(parts)`,
 * `s.split(sep)` (used here only as the inverse that pins down what a join
 * produced) and `s.strip()`.
 */
module Strings {
  import opened Wrappers

  /** `sep.join(parts)`: the parts in order, with `sep` between neighbours. */
  function Join(sep: string, parts: seq<string>): string
    decreases |parts|
  {
    if |parts| == 0 then ""
    else if |parts| == 1 then parts[0]
    else parts[0] + sep + Join(sep, parts[1..])
  }

  /** `sep` occurs in `s` starting at index `i`. */
  predicate MatchAt(sep: string, s: string, i: nat) {
    i + |sep| <= |s| && s[i..i + |sep|] == sep
  }

  /** The first index at or after `from` where `sep` occurs in `s` (`s.find(sep, from)`). */
  function Find(sep: string, s: string, from: nat): (r: Option<nat>)
    requires from <= |s|
    ensures r.Some? ==> from <= r.value && MatchAt(sep, s, r.value)
    ensures forall k: nat :: from <= k && (r.None? || k < r.value) ==> !MatchAt(sep, s, k)
    decreases |s| - from
  {
    if MatchAt(sep, s, from) then Some(from)
    else if from == |s| then None
    else Find(sep, s, from + 1)
  }

  /** `s.split(sep)` for a non-empty separator: cut at each occurrence, scanning left to right. */
  function Split(sep: string, s: string): (r: seq<string>)
    requires |sep| > 0
    ensures |r| > 0
    decreases |s|
  {
    match Find(sep, s, 0)
    case None => [s]
    case Some(i) => [s[..i]] + Split(sep, s[i + |sep|..])
  }

  /** A string in which the separator's first character never occurs is not cut by `Split`. */
  lemma NoLeadNoMatch(sep: string, s: string)
    requires |sep| > 0 && sep[0] !in s
    ensures Find(sep, s, 0) == None
  {
  }

  /** In `p + sep + rest` with `sep[0]` absent from `p`, the first cut is right after `p`. */
  lemma FirstMatchAfter(sep: string, p: string, rest: string)
    requires |sep| > 0 && sep[0] !in p
    ensures Find(sep, p + sep + rest, 0) == Some(|p|)
  {
    var s := p + sep + rest;
    assert s[|p|..|p| + |sep|] == sep;
    assert MatchAt(sep, s, |p|);
  }

  /**
   * Splitting a join on the same separator gives the parts back, provided no
   * part contains the separator's first character.
   */
  lemma {:induction false} SplitJoin(sep: string, parts: seq<string>)
    requires |sep| > 0 && |parts| > 0
    requires forall k :: 0 <= k < |parts| ==> sep[0] !in parts[k]
    ensures Split(sep, Join(sep, parts)) == parts
  {
    var p := parts[0];
    if |parts| == 1 {
      NoLeadNoMatch(sep, p);
    } else {
      var rest := Join(sep, parts[1..]);
      var s := p + sep + rest;
      FirstMatchAfter(sep, p, rest);
      assert s[..|p|] == p;
      assert s[|p| + |sep|..] == rest;
      SplitJoin(sep, parts[1..]);
      assert parts == [p] + parts[1..];
    }
  }

  /** Where part `k` starts in `Join(sep, parts)`: the lengths of the parts before it, each followed by `sep`. */
  function JoinOffset(sep: string, parts: seq<string>, k: nat): nat
    requires k <= |parts|
    decreases k
  {
    if k == 0 then 0 else |parts[0]| + |sep| + JoinOffset(sep, parts[1..], k - 1)
  }

  /** A slice of the tail of `p + sep + rest` is the same slice of `rest`, shifted. */
  lemma SliceOfTail(p: string, sep: string, rest: string, lo: nat, hi: nat)
    requires lo <= hi <= |rest|
    ensures (p + sep + rest)[|p| + |sep| + lo..|p| + |sep| + hi] == rest[lo..hi]
  {
    var j := p + sep + rest;
    assert j[|p| + |sep|..] == rest;
    assert j[|p| + |sep| + lo..|p| + |sep| + hi] == j[|p| + |sep|..][lo..hi];
  }

  /** In `p + sep + rest`, `sep` sits right after `p`. */
  lemma SepAfterFirst(p: string, sep: string, rest: string)
    ensures (p + sep + rest)[|p|..|p| + |sep|] == sep
  {
  }

  /** A join of two or more parts is the first part, `sep`, and the join of the others. */
  lemma JoinUnfold(sep: string, parts: seq<string>)
    requires |parts| > 1
    ensures Join(sep, parts) == parts[0] + sep + Join(sep, parts[1..])
  {
  }

  /** In any join, part `k` sits at `JoinOffset(sep, parts, k)`. */
  lemma {:induction false} JoinPartAt(sep: string, parts: seq<string>, k: nat)
    requires k < |parts|
    ensures JoinOffset(sep, parts, k) + |parts[k]| <= |Join(sep, parts)|
    ensures Join(sep, parts)[JoinOffset(sep, parts, k)..JoinOffset(sep, parts, k) + |parts[k]|] == parts[k]
  {
    if |parts| > 1 {
      var p := parts[0];
      var rest := Join(sep, parts[1..]);
      JoinUnfold(sep, parts);
      if k == 0 {
        assert (p + sep + rest)[..|p|] == p;
      } else {
        JoinPartAt(sep, parts[1..], k - 1);
        var o := JoinOffset(sep, parts[1..], k - 1);
        assert parts[1..][k - 1] == parts[k];
        SliceOfTail(p, sep, rest, o, o + |parts[k]|);
      }
    }
  }

  /** In any join, every part but the last is followed by `sep`. */
  lemma {:induction false} JoinSepAfter(sep: string, parts: seq<string>, k: nat)
    requires k + 1 < |parts|
    ensures JoinOffset(sep, parts, k) + |parts[k]| + |sep| <= |Join(sep, parts)|
    ensures Join(sep, parts)[JoinOffset(sep, parts, k) + |parts[k]|..JoinOffset(sep, parts, k) + |parts[k]| + |sep|] == sep
  {
    var p := parts[0];
    var rest := Join(sep, parts[1..]);
    JoinUnfold(sep, parts);
    if k == 0 {
      SepAfterFirst(p, sep, rest);
    } else {
      JoinSepAfter(sep, parts[1..], k - 1);
      var e := JoinOffset(sep, parts[1..], k - 1) + |parts[k]|;
      assert parts[1..][k - 1] == parts[k];
      SliceOfTail(p, sep, rest, e, e + |sep|);
    }
  }

  /** A join of at least one part ends with its last part. */
  lemma {:induction false} JoinLength(sep: string, parts: seq<string>)
    requires |parts| > 0
    ensures |Join(sep, parts)| == JoinOffset(sep, parts, |parts| - 1) + |parts[|parts| - 1]|
  {
    var n := |parts|;
    if n > 1 {
      JoinLength(sep, parts[1..]);
      assert parts[1..][n - 2] == parts[n - 1];
      assert JoinOffset(sep, parts, n - 1) == |parts[0]| + |sep| + JoinOffset(sep, parts[1..], n - 2);
      assert |Join(sep, parts)| == |parts[0]| + |sep| + |Join(sep, parts[1..])|;
    }
  }

  /** A join of at least one part is empty only when every part is. */
  lemma {:induction false} JoinNonEmpty(sep: string, parts: seq<string>, k: nat)
    requires k < |parts| && parts[k] != ""
    ensures Join(sep, parts) != ""
  {
    if |parts| > 1 && k > 0 {
      JoinNonEmpty(sep, parts[1..], k - 1);
    }
  }

  /** Python's `str.isspace` on one character (the whitespace `str.strip()` removes). */
  predicate IsSpace(c: char) {
    var n := c as int;
    (9 <= n <= 13) || (28 <= n <= 32) || n == 0x85 || n == 0xA0 || n == 0x1680
    || (0x2000 <= n <= 0x200A) || n == 0x2028 || n == 0x2029 || n == 0x202F
    || n == 0x205F || n == 0x3000
  }

  /** `s.lstrip()`: drop leading whitespace. */
  function TrimStart(s: string): string {
    if |s| > 0 && IsSpace(s[0]) then TrimStart(s[1..]) else s
  }

  /** `s.rstrip()`: drop trailing whitespace. */
  function TrimEnd(s: string): string {
    if |s| > 0 && IsSpace(s[|s| - 1]) then TrimEnd(s[..|s| - 1]) else s
  }

  /** What `lstrip` keeps is a suffix that does not start with whitespace, and all it drops is whitespace. */
  lemma {:induction false} TrimStartSuffix(s: string)
    ensures var r := TrimStart(s);
            && |r| <= |s| && r == s[|s| - |r|..]
            && (forall k :: 0 <= k < |s| - |r| ==> IsSpace(s[k]))
            && (r == "" || !IsSpace(r[0]))
  {
    if |s| > 0 && IsSpace(s[0]) {
      TrimStartSuffix(s[1..]);
      var r := TrimStart(s);
      assert r == s[1..][|s| - 1 - |r|..];
      forall k | 0 <= k < |s| - |r| ensures IsSpace(s[k]) {
        if k > 0 { assert s[k] == s[1..][k - 1]; }
      }
    }
  }

  /** What `rstrip` keeps is a prefix that does not end with whitespace, and all it drops is whitespace. */
  lemma {:induction false} TrimEndPrefix(s: string)
    ensures var r := TrimEnd(s);
            && |r| <= |s| && r == s[..|r|]
            && (forall k :: |r| <= k < |s| ==> IsSpace(s[k]))
            && (r == "" || !IsSpace(r[|r| - 1]))
  {
    if |s| > 0 && IsSpace(s[|s| - 1]) {
      TrimEndPrefix(s[..|s| - 1]);
      var r := TrimEnd(s);
      assert r == s[..|s| - 1][..|r|];
      forall k | |r| <= k < |s| ensures IsSpace(s[k]) {
        if k < |s| - 1 { assert s[k] == s[..|s| - 1][k]; }
      }
    }
  }

  /** `s.strip()`. */
  function Strip(s: string): string {
    TrimEnd(TrimStart(s))
  }

  /** `s.strip()` is empty exactly when every character of `s` is whitespace. */
  lemma StripEmptyIffBlank(s: string)
    ensures Strip(s) == "" <==> forall k :: 0 <= k < |s| ==> IsSpace(s[k])
  {
    var t := TrimStart(s);
    TrimStartSuffix(s);
    TrimEndPrefix(t);
    if Strip(s) != "" {
      var u := Strip(s);
      assert !IsSpace(u[0]);
      assert u[0] == t[0] == s[|s| - |t|];
    }
  }
}
