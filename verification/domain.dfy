/**
 Step 1 of the pipeline: the literal domain substitution, Python's
 `content.replace(OLD_DOMAIN, NEW_DOMAIN)`. No pattern syntax is involved;
 occurrences are replaced left to right and never overlap.
 */
module Domain {
  import opened Strings

  /** `s.replace("", rep)`: Python inserts `rep` before every character and once at the end. */
  function InsertEverywhere(s: string, rep: string): (r: string)
    ensures |r| == |s| + (|s| + 1) * |rep|
    ensures StartsWith(r, rep)
    decreases |s|
  {
    if |s| == 0 then rep else rep + [s[0]] + InsertEverywhere(s[1..], rep)
  }

  /**
   Python's `s.replace(pat, rep)`: scanning left to right, an occurrence of
   `pat` at the scan position becomes `rep` and the scan resumes after it;
   any other character is copied. A text without `pat` comes back as it
   was; an empty `pat` inserts `rep` everywhere, so even `""` changes.
   */
  function Replace(s: string, pat: string, rep: string): (r: string)
    ensures |pat| > 0 && Find(s, pat).None? ==> r == s
    ensures |pat| == 0 ==> StartsWith(r, rep) && |r| == |s| + (|s| + 1) * |rep|
    decreases |s|
  {
    if |pat| == 0 then InsertEverywhere(s, rep)
    else if |s| == 0 then s
    else if StartsWith(s, pat) then rep + Replace(s[|pat|..], pat, rep)
    else [s[0]] + Replace(s[1..], pat, rep)
  }

  /**
   Where `s.replace("", rep)` puts things: with `w == |rep| + 1`, the `k`-th
   block of `w` characters, starting at `b == k * w`, is `rep` followed by
   `s[k]`.
   */
  lemma {:induction false} InsertEverywhereAt(s: string, rep: string, k: nat, b: int)
    requires k < |s| && b == k * (|rep| + 1)
    ensures var r := Replace(s, "", rep);
      && 0 <= b && b + |rep| + 1 <= |r|
      && r[b..b + |rep|] == rep
      && r[b + |rep|] == s[k]
    decreases k
  {
    var r, w := Replace(s, "", rep), |rep| + 1;
    var t := Replace(s[1..], "", rep);
    assert r == rep + [s[0]] + t;
    if k == 0 {
      assert r[..|rep|] == rep;
    } else {
      var o := (k - 1) * w;
      MulStep(k, w, b, o);
      InsertEverywhereAt(s[1..], rep, k - 1, o);
      assert r[w + o..w + o + |rep|] == t[o..o + |rep|];
      assert r[w + o + |rep|] == t[o + |rep|] == s[1..][k - 1];
    }
  }

  /** After the last block, which starts at `b == |s| * (|rep| + 1)`, `s.replace("", rep)` ends with one more `rep`. */
  lemma {:induction false} InsertEverywhereEnd(s: string, rep: string, b: int)
    requires b == |s| * (|rep| + 1)
    ensures var r := Replace(s, "", rep);
      0 <= b <= |r| && r[b..] == rep
    decreases |s|
  {
    var w := |rep| + 1;
    if |s| > 0 {
      var r, t := Replace(s, "", rep), Replace(s[1..], "", rep);
      var o := (|s| - 1) * w;
      MulStep(|s|, w, b, o);
      InsertEverywhereEnd(s[1..], rep, o);
      assert r == rep + [s[0]] + t;
      assert r[w + o..] == t[o..];
    }
  }

  /** One block later: `k * w == w + (k - 1) * w`, and neither is negative. */
  lemma {:induction false} MulStep(k: nat, w: nat, b: int, o: int)
    requires 0 < k && b == k * w && o == (k - 1) * w
    ensures b == w + o && 0 <= o
  {
  }

  /**
   A reference definition of the same substitution, phrased as "find the
   first occurrence, splice `rep` in its place, continue after it"; between
   two occurrences the text is copied verbatim.
   */
  function ReplaceByFind(s: string, pat: string, rep: string): string
    requires |pat| > 0
    decreases |s|
  {
    match Find(s, pat)
    case None => s
    case Some(k) => s[..k] + rep + ReplaceByFind(s[k + |pat|..], pat, rep)
  }

  /** Python's `s.count(p)`: the number of non-overlapping occurrences, found left to right. */
  function Count(s: string, p: string): nat
    requires |p| > 0
    decreases |s|
  {
    match Find(s, p)
    case None => 0
    case Some(k) => 1 + Count(s[k + |p|..], p)
  }

  /** The scanning substitution equals the find-and-splice one: every occurrence is replaced literally and nothing else changes. */
  lemma {:induction false} ReplaceIsFindAndSplice(s: string, pat: string, rep: string)
    requires |pat| > 0
    ensures Replace(s, pat, rep) == ReplaceByFind(s, pat, rep)
    decreases |s|
  {
    if |s| == 0 {
    } else if StartsWith(s, pat) {
      var rest := s[|pat|..];
      assert Replace(s, pat, rep) == rep + Replace(rest, pat, rep);
      assert Find(s, pat) == Some(0);
      SpliceAt(s, pat, rep, 0);
      ReplaceIsFindAndSplice(rest, pat, rep);
      assert s[..0] + rep == rep;
    } else {
      assert Replace(s, pat, rep) == [s[0]] + Replace(s[1..], pat, rep);
      ReplaceIsFindAndSplice(s[1..], pat, rep);
      SpliceSkip(s, pat, rep);
    }
  }

  /** Where `find` stops, the splice puts `rep` and continues after the occurrence. */
  lemma {:induction false} SpliceAt(s: string, pat: string, rep: string, k: nat)
    requires |pat| > 0 && Find(s, pat) == Some(k)
    ensures k + |pat| <= |s|
    ensures ReplaceByFind(s, pat, rep) == s[..k] + rep + ReplaceByFind(s[k + |pat|..], pat, rep)
  {
  }

  /** Without an occurrence at the front, the find-and-splice substitution copies the first character. */
  lemma {:induction false} SpliceSkip(s: string, pat: string, rep: string)
    requires |pat| > 0 && |s| > 0 && !StartsWith(s, pat)
    ensures ReplaceByFind(s, pat, rep) == [s[0]] + ReplaceByFind(s[1..], pat, rep)
  {
    var t := s[1..];
    match Find(t, pat)
    case None =>
      assert Find(s, pat).None?;
      assert s == [s[0]] + t;
    case Some(k) =>
      assert Find(s, pat) == Some(k + 1);
      SpliceAt(s, pat, rep, k + 1);
      SpliceAt(t, pat, rep, k);
      var r := s[k + 1 + |pat|..];
      assert t[k + |pat|..] == r;
      assert s[..k + 1] == [s[0]] + t[..k];
      ConsSplice(s[0], s[..k + 1], t[..k], rep, ReplaceByFind(r, pat, rep));
  }

  /** A text that starts with `c` spliced in front of `rep` and the rest is `c` before the same splice of its tail. */
  lemma {:induction false} ConsSplice(c: char, x: string, y: string, rep: string, rest: string)
    requires x == [c] + y
    ensures x + rep + rest == [c] + (y + rep + rest)
  {
  }

  /** The text grows by `|rep| - |pat|` per occurrence, so the replacement count is the occurrence count. */
  lemma {:induction false} ReplaceLength(s: string, pat: string, rep: string)
    requires |pat| > 0
    ensures |Replace(s, pat, rep)| == |s| + Count(s, pat) * (|rep| - |pat|)
  {
    ReplaceIsFindAndSplice(s, pat, rep);
    SpliceLength(s, pat, rep);
  }

  lemma {:induction false} SpliceLength(s: string, pat: string, rep: string)
    requires |pat| > 0
    ensures |ReplaceByFind(s, pat, rep)| == |s| + Count(s, pat) * (|rep| - |pat|)
    decreases |s|
  {
    match Find(s, pat)
    case None =>
    case Some(k) =>
      var rest := s[k + |pat|..];
      SpliceLength(rest, pat, rep);
      SpliceAt(s, pat, rep, k);
      CountAt(s, pat, k);
      LengthStep(|s|, k, |pat|, |rep|, |rest|, Count(rest, pat), Count(s, pat), |ReplaceByFind(rest, pat, rep)|);
  }

  /** Where `find` stops, the count goes on after the occurrence. */
  lemma {:induction false} CountAt(s: string, pat: string, k: nat)
    requires |pat| > 0 && Find(s, pat) == Some(k)
    ensures k + |pat| <= |s| && Count(s, pat) == 1 + Count(s[k + |pat|..], pat)
  {
  }

  /** One more replacement adds one more `|rep| - |pat|` to the length. */
  lemma {:induction false} LengthStep(n: int, k: int, lp: int, lr: int, rs: int, c: int, c': int, m: int)
    requires n == k + lp + rs && m == rs + c * (lr - lp) && c' == 1 + c
    ensures k + lr + m == n + c' * (lr - lp)
  {
    assert c' * (lr - lp) == (lr - lp) + c * (lr - lp);
  }

  /** Replacing a string by itself changes nothing, the empty string included. */
  lemma {:induction false} ReplaceSelfIsIdentity(s: string, pat: string)
    ensures Replace(s, pat, pat) == s
    decreases |s|
  {
    if |pat| == 0 {
      InsertNothing(s);
    } else if |s| == 0 {
    } else if StartsWith(s, pat) {
      ReplaceSelfIsIdentity(s[|pat|..], pat);
      assert s == s[..|pat|] + s[|pat|..];
    } else {
      ReplaceSelfIsIdentity(s[1..], pat);
      assert s == [s[0]] + s[1..];
    }
  }

  /** `s.replace("", "")` inserts nothing anywhere. */
  lemma {:induction false} InsertNothing(s: string)
    ensures Replace(s, "", "") == s
    decreases |s|
  {
    if |s| > 0 {
      InsertNothing(s[1..]);
      assert s == [s[0]] + s[1..];
    }
  }
}
