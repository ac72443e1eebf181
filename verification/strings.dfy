/**
 The handful of Python `str` operations the rewriting pipeline relies on,
 written over `string` (a `seq<char>`): prefix tests, `find`, `split` on a
 single character and `lstrip`/`rstrip` of one character.
 */
module Strings {

  datatype Option<T> = None | Some(value: T)

  /** Python's `s.startswith(p)`. */
  predicate StartsWith(s: string, p: string) {
    |p| <= |s| && s[..|p|] == p
  }

  /** Python's `s.endswith(c)` for a one-character suffix. */
  predicate EndsWith(s: string, c: char) {
    |s| > 0 && s[|s| - 1] == c
  }

  /** `p` occurs in `s` starting at index `k`. */
  predicate OccursAt(s: string, p: string, k: nat) {
    k + |p| <= |s| && s[k..k + |p|] == p
  }

  /** Python's `s.find(p)`: the lowest index at which `p` occurs, if any. */
  function Find(s: string, p: string): (r: Option<nat>)
    ensures r.Some? ==> OccursAt(s, p, r.value)
    decreases |s|
  {
    if StartsWith(s, p) then Some(0)
    else if |s| == 0 then None
    else
      match Find(s[1..], p)
      case None => None
      case Some(k) =>
        assert s[k + 1..k + 1 + |p|] == s[1..][k..k + |p|];
        Some(k + 1)
  }

  /** `find` returns the first occurrence: there is none before the index it returns, and none at all when it returns nothing. */
  lemma {:induction false} FindIsFirst(s: string, p: string)
    ensures Find(s, p).Some? ==> forall j :: 0 <= j < Find(s, p).value ==> !OccursAt(s, p, j)
    ensures Find(s, p).None? ==> forall j :: 0 <= j <= |s| ==> !OccursAt(s, p, j)
    decreases |s|
  {
    if !StartsWith(s, p) && |s| > 0 {
      FindIsFirst(s[1..], p);
      OccursAtShift(s, p);
    }
  }

  /** An occurrence in `s` past index 0 is an occurrence in `s[1..]`, one index earlier. */
  lemma {:induction false} OccursAtShift(s: string, p: string)
    requires |s| > 0
    ensures forall j: nat :: 0 < j ==> (OccursAt(s, p, j) <==> OccursAt(s[1..], p, j - 1))
  {
    forall j: nat | 0 < j
      ensures OccursAt(s, p, j) <==> OccursAt(s[1..], p, j - 1)
    {
      if j + |p| <= |s| {
        var a, b := s[j..j + |p|], s[1..][j - 1..j - 1 + |p|];
        assert forall i :: 0 <= i < |p| ==> a[i] == b[i];
        assert a == b;
      }
    }
  }

  /** Python's `s.find(c)` for one character, as an index that is `|s|` when `c` is absent. */
  function IndexOf(s: string, c: char): (k: nat)
    ensures k <= |s|
    ensures c !in s[..k]
    ensures k < |s| <==> c in s
    ensures k < |s| ==> s[k] == c
    decreases |s|
  {
    if |s| == 0 then 0
    else if s[0] == c then 0
    else
      var k := IndexOf(s[1..], c);
      assert s[..k + 1] == [s[0]] + s[1..][..k];
      k + 1
  }

  /** Python's `s.split(c)[0]`: everything before the first `c`. */
  function Before(s: string, c: char): (r: string)
    ensures StartsWith(s, r)
    ensures c !in r
    ensures |r| < |s| ==> s[|r|] == c
    ensures |r| == |s| <==> c !in s
  {
    s[..IndexOf(s, c)]
  }

  /** Python's `s.split(c, 1)[1]`: everything after the first `c`. */
  function After(s: string, c: char): (r: string)
    requires c in s
    ensures s == Before(s, c) + [c] + r
  {
    var k := IndexOf(s, c);
    assert s == s[..k] + [c] + s[k + 1..];
    s[k + 1..]
  }

  /** Python's `s.rstrip(c)`: drops every trailing `c`. */
  function RStrip(s: string, c: char): (r: string)
    ensures StartsWith(s, r)
    ensures !EndsWith(r, c)
    ensures forall k :: |r| <= k < |s| ==> s[k] == c
    decreases |s|
  {
    if EndsWith(s, c) then RStrip(s[..|s| - 1], c) else s
  }

  /** Python's `s.lstrip(c)`: drops every leading `c`. */
  function LStrip(s: string, c: char): (r: string)
    ensures |r| <= |s| && r == s[|s| - |r|..]
    ensures |r| == 0 || r[0] != c
    ensures forall k :: 0 <= k < |s| - |r| ==> s[k] == c
    decreases |s|
  {
    if |s| > 0 && s[0] == c then LStrip(s[1..], c) else s
  }
}
