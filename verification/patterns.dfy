/**
 The three regular expressions of the pipeline, each written as a matcher
 that tries the pattern at the start of a text, as Python's `re` does at
 every scan position of `re.sub`:

 - the HTML attribute pattern
   `(href=|src=|action=|content=|data-src=|srcset=)\s*(["'])(/.*?)\2`, case-insensitive;
 - the CSS pattern `(url\(\s*)(['"]?)(/.*?)(['"]?)(\s*\))`, case-insensitive;
 - the link pattern `href=(["'])(.*?)\1`, case-sensitive.

 None of them needs general backtracking: at any position at most one
 attribute alternative can match, a `\s*` run is always followed by a
 character `\s` does not match, and the only real choice left is where the
 lazy `.*?` stops, which is the first position where the rest of the
 pattern matches (`.` does not match a newline). Each matcher returns the
 capture groups as a `Match`; `Text` gives back group 0.
 */
module Patterns {
  import opened Strings

  /** The characters Python's `\s` matches in a `str` pattern (those for which `str.isspace` holds). */
  predicate IsSpace(c: char) {
    || ('\t' <= c <= '\r')
    || ('\U{1C}' <= c <= '\U{1F}')
    || c == ' '
    || c == '\U{85}'
    || c == '\U{A0}'
    || c == '\U{1680}'
    || ('\U{2000}' <= c <= '\U{200A}')
    || c == '\U{2028}'
    || c == '\U{2029}'
    || c == '\U{202F}'
    || c == '\U{205F}'
    || c == '\U{3000}'
  }

  predicate AllSpace(s: string) {
    forall k :: 0 <= k < |s| ==> IsSpace(s[k])
  }

  predicate IsQuote(c: char) {
    c == '"' || c == '\''
  }

  /**
   How `re.IGNORECASE` sees a text character when comparing it with a
   lower-case letter of a pattern: ASCII capitals fold to lower case, and
   Python additionally equates dotted capital I and dotless i with `i`, and
   long s with `s`.
   */
  function Fold(c: char): char {
    if 'A' <= c <= 'Z' then (c as int + 32) as char
    else if c == '\U{130}' || c == '\U{131}' then 'i'
    else if c == '\U{17F}' then 's'
    else c
  }

  /** `s` begins with the lower-case literal `lit`, compared case-insensitively. */
  predicate FoldStartsWith(s: string, lit: string) {
    |lit| <= |s| && forall k :: 0 <= k < |lit| ==> Fold(s[k]) == lit[k]
  }

  /** The alternatives of the attribute group, in the order the pattern lists them. */
  const AttrNames: seq<string> := ["href=", "src=", "action=", "content=", "data-src=", "srcset="]

  /** `name` is one of the attribute alternatives, spelled in any case. */
  predicate IsAttrName(name: string) {
    exists a :: 0 <= a < |AttrNames| && |name| == |AttrNames[a]| && FoldStartsWith(name, AttrNames[a])
  }

  /** The capture groups of one match of one of the three patterns. */
  datatype Match =
    | Attr(name: string, space: string, quote: char, path: string)
    | Css(open: string, openQuote: string, path: string, closeQuote: string, close: string)
    | Href(quote: char, url: string)

  /** Group 0: the matched text, rebuilt from the groups. */
  function Text(m: Match): string {
    match m
    case Attr(name, space, q, path) => name + space + [q] + path + [q]
    case Css(open, oq, path, cq, close) => open + oq + path + cq + close
    case Href(q, url) => "href=" + [q] + url + [q]
  }

  /** The groups an HTML attribute match can capture. */
  predicate AttrShape(m: Match) {
    && m.Attr?
    && IsAttrName(m.name)
    && AllSpace(m.space)
    && IsQuote(m.quote)
    && |m.path| > 0 && m.path[0] == '/'
    && m.quote !in m.path
    && '\n' !in m.path
  }

  /** An optional quote group: empty, or one quote character. */
  predicate OptQuote(q: string) {
    q == [] || (|q| == 1 && IsQuote(q[0]))
  }

  /** The groups a CSS `url()` match can capture; the two quotes need not agree. */
  predicate CssShape(m: Match) {
    && m.Css?
    && |m.open| >= 4 && FoldStartsWith(m.open, "url(") && AllSpace(m.open[4..])
    && OptQuote(m.openQuote)
    && |m.path| > 0 && m.path[0] == '/'
    && '\n' !in m.path
    && OptQuote(m.closeQuote)
    && |m.close| > 0 && m.close[|m.close| - 1] == ')' && AllSpace(m.close[..|m.close| - 1])
  }

  /** The groups a link match can capture; the URL may be empty. */
  predicate HrefShape(m: Match) {
    && m.Href?
    && IsQuote(m.quote)
    && m.quote !in m.url
    && '\n' !in m.url
  }

  /** `\s*` from index `i`: the index just past the longest run of whitespace. */
  function SkipSpace(s: string, i: nat): (j: nat)
    requires i <= |s|
    ensures i <= j <= |s|
    ensures forall k :: i <= k < j ==> IsSpace(s[k])
    ensures j == |s| || !IsSpace(s[j])
    decreases |s| - i
  {
    if i < |s| && IsSpace(s[i]) then SkipSpace(s, i + 1) else i
  }

  /** The end of a whitespace run is determined by where it starts. */
  lemma {:induction false} SkipSpaceUnique(s: string, i: nat, j: nat)
    requires i <= j <= |s|
    requires forall k :: i <= k < j ==> IsSpace(s[k])
    requires j == |s| || !IsSpace(s[j])
    ensures SkipSpace(s, i) == j
  {

  }

  /**
   The closing part `(['"]?)(\s*\))` of the CSS pattern tried at index `j`:
   the end of the optional quote and the end of the `)`.
   */
  function CssCloseAt(s: string, j: nat): (r: Option<(nat, nat)>)
    requires j <= |s|
    ensures r.Some? ==> j <= r.value.0 <= j + 1 && r.value.0 < r.value.1 <= |s|
    ensures r.Some? ==> OptQuote(s[j..r.value.0])
    ensures r.Some? ==> s[r.value.1 - 1] == ')' && AllSpace(s[r.value.0..r.value.1 - 1])
  {
    var q := if j < |s| && IsQuote(s[j]) then j + 1 else j;
    var e := SkipSpace(s, q);
    if e < |s| && s[e] == ')' then Some((q, e + 1)) else None
  }

  /** The closing part found at `j` is the one the text shows there. */
  lemma {:induction false} CssCloseAtIs(s: string, j: nat, q: nat, e: nat)
    requires j <= q < e <= |s|
    requires if j < |s| && IsQuote(s[j]) then q == j + 1 else q == j
    requires forall k :: q <= k < e - 1 ==> IsSpace(s[k])
    requires s[e - 1] == ')'
    ensures CssCloseAt(s, j) == Some((q, e))
  {
    SkipSpaceUnique(s, q, e - 1);
  }

  /** What must follow a lazy `.*?`: a back-reference to a quote, or the CSS closing part. */
  datatype Closer = QuoteCloser(q: char) | ParenCloser

  predicate Closes(c: Closer, s: string, j: nat)
    requires j <= |s|
  {
    match c
    case QuoteCloser(q) => j < |s| && s[j] == q
    case ParenCloser => CssCloseAt(s, j).Some?
  }

  /** No newline in `s[i..j]`. */
  predicate NoNewline(s: string, i: nat, j: nat)
    requires i <= j <= |s|
  {
    forall k :: i <= k < j ==> s[k] != '\n'
  }

  /** A character absent from every index of `s[i..j]` is not in the slice. */
  lemma {:induction false} NotInSlice(s: string, i: nat, j: nat, c: char)
    requires i <= j <= |s|
    requires forall k :: i <= k < j ==> s[k] != c
    ensures c !in s[i..j]
  {
    var t := s[i..j];
    forall k | 0 <= k < |t|
      ensures t[k] != c
    {
      assert t[k] == s[i + k];
    }
  }

  /** Index `k` of a prefix `t` of `s` reads the same in both. */
  lemma {:induction false} PrefixAt(s: string, t: string)
    requires StartsWith(s, t)
    ensures forall k :: 0 <= k < |t| ==> s[k] == t[k]
  {
    forall k | 0 <= k < |t|
      ensures s[k] == t[k]
    {
      assert s[..|t|][k] == s[k];
    }
  }

  /**
   `.*?` from index `i` followed by the closer: the first index at which the
   closer matches, provided no newline comes before it.
   */
  function Lazy(c: Closer, s: string, i: nat): (r: Option<nat>)
    requires i <= |s|
    ensures r.Some? ==> i <= r.value <= |s| && Closes(c, s, r.value) && NoNewline(s, i, r.value)
    ensures r.Some? ==> forall k :: i <= k < r.value ==> !Closes(c, s, k)
    ensures r.None? ==> forall j :: i <= j <= |s| && NoNewline(s, i, j) ==> !Closes(c, s, j)
    decreases |s| - i
  {
    if Closes(c, s, i) then Some(i)
    else if i == |s| || s[i] == '\n' then None
    else
      match Lazy(c, s, i + 1)
      case None =>
        assert forall j :: i < j <= |s| && NoNewline(s, i, j) ==> NoNewline(s, i + 1, j);
        None
      case Some(j) => Some(j)
  }

  /** The first closing position without a newline before it is where `.*?` stops. */
  lemma {:induction false} LazyUnique(c: Closer, s: string, i: nat, j: nat)
    requires i <= j <= |s|
    requires Closes(c, s, j) && NoNewline(s, i, j)
    requires forall k :: i <= k < j ==> !Closes(c, s, k)
    ensures Lazy(c, s, i) == Some(j)
  {
    match Lazy(c, s, i)
    case None =>
    case Some(j') =>
      if j' < j {
      } else if j < j' {
      }
  }

  /** The first attribute alternative, from the `a`-th on, that matches at the start of `s`. */
  function AttrNameFrom(s: string, a: nat): (r: Option<nat>)
    requires a <= |AttrNames|
    ensures r.Some? ==> a <= r.value < |AttrNames| && FoldStartsWith(s, AttrNames[r.value])
    ensures r.None? ==> forall b :: a <= b < |AttrNames| ==> !FoldStartsWith(s, AttrNames[b])
    decreases |AttrNames| - a
  {
    if a == |AttrNames| then None
    else if FoldStartsWith(s, AttrNames[a]) then Some(a)
    else AttrNameFrom(s, a + 1)
  }

  /** At most one attribute alternative matches at a position, so trying them in order never backtracks. */
  lemma {:induction false} AttrNamesExclusive(s: string, a: nat, b: nat)
    requires a < |AttrNames| && b < |AttrNames|
    requires FoldStartsWith(s, AttrNames[a]) && FoldStartsWith(s, AttrNames[b])
    ensures a == b
  {
    var x, y := AttrNames[a], AttrNames[b];
    assert x[0] == Fold(s[0]) == y[0];
    assert x[3] == Fold(s[3]) == y[3];
  }

  /** The HTML attribute pattern tried at the start of `s`. */
  function MatchAttr(s: string): (r: Option<Match>)
    ensures r.Some? ==> AttrShape(r.value) && StartsWith(s, Text(r.value))
  {
    match AttrNameFrom(s, 0)
    case None => None
    case Some(a) =>
      AttrAfterNameShape(s, a);
      AttrAfterName(s, a)
  }

  /** The rest of the attribute pattern, once the `a`-th alternative has matched at the start of `s`. */
  function AttrAfterName(s: string, a: nat): Option<Match>
    requires a < |AttrNames|
  {
    var n := |AttrNames[a]|;
    if n <= |s| then
      var w := SkipSpace(s, n);
      if w + 1 < |s| && IsQuote(s[w]) && s[w + 1] == '/' then
        match Lazy(QuoteCloser(s[w]), s, w + 2)
        case None => None
        case Some(j) => Some(Attr(s[..n], s[n..w], s[w], s[w + 1..j]))
      else None
    else None
  }

  /** What the rest of the attribute pattern returns is a well-formed match that `s` begins with. */
  lemma {:induction false} AttrAfterNameShape(s: string, a: nat)
    requires a < |AttrNames| && FoldStartsWith(s, AttrNames[a])
    ensures var r := AttrAfterName(s, a);
      r.Some? ==> AttrShape(r.value) && StartsWith(s, Text(r.value))
  {
    var n := |AttrNames[a]|;
    var w := SkipSpace(s, n);
    if w + 1 < |s| && IsQuote(s[w]) && s[w + 1] == '/' {
      match Lazy(QuoteCloser(s[w]), s, w + 2)
      case None =>
        assert AttrAfterName(s, a) == None;
      case Some(j) =>
        AttrGroups(s, a, w, j);
        var m := Attr(s[..n], s[n..w], s[w], s[w + 1..j]);
        assert AttrAfterName(s, a) == Some(m);
        assert AttrShape(m) && StartsWith(s, Text(m));
    } else {
      assert AttrAfterName(s, a) == None;
    }
  }

  /** The groups `MatchAttr` cuts out of `s` form a well-formed match that `s` begins with. */
  lemma {:induction false} AttrGroups(s: string, a: nat, w: nat, j: nat)
    requires a < |AttrNames| && FoldStartsWith(s, AttrNames[a])
    requires |AttrNames[a]| <= w && w + 2 <= j <= |s|
    requires AllSpace(s[|AttrNames[a]|..w]) && IsQuote(s[w]) && s[w + 1] == '/'
    requires Closes(QuoteCloser(s[w]), s, j) && NoNewline(s, w + 2, j)
    requires forall k :: w + 2 <= k < j ==> !Closes(QuoteCloser(s[w]), s, k)
    ensures j < |s|
    ensures var n := |AttrNames[a]|;
      var m := Attr(s[..n], s[n..w], s[w], s[w + 1..j]);
      AttrShape(m) && StartsWith(s, Text(m))
  {
    var n := |AttrNames[a]|;
    var m := Attr(s[..n], s[n..w], s[w], s[w + 1..j]);
    AttrNamePrefix(s, a);
    QuotedPath(s, w, j);
    AttrTextSlice(s, n, w, j);
  }

  /** The text's first characters, as many as an alternative it starts with has, spell that alternative. */
  lemma {:induction false} AttrNamePrefix(s: string, a: nat)
    requires a < |AttrNames| && FoldStartsWith(s, AttrNames[a])
    ensures IsAttrName(s[..|AttrNames[a]|])
  {
    var name := s[..|AttrNames[a]|];
    assert |name| == |AttrNames[a]| && FoldStartsWith(name, AttrNames[a]);
  }

  /** Groups cut from `s` at `n`, `w` and `j` around a closing quote at `j` rebuild the text up to that quote. */
  lemma {:induction false} AttrTextSlice(s: string, n: nat, w: nat, j: nat)
    requires n <= w < j < |s| && s[j] == s[w]
    ensures Text(Attr(s[..n], s[n..w], s[w], s[w + 1..j])) == s[..j + 1]
  {
    assert s[..j + 1] == s[..n] + s[n..w] + [s[w]] + s[w + 1..j] + [s[j]];
  }

  /** The path `.*?` runs over up to the closing quote holds neither that quote nor a newline. */
  lemma {:induction false} QuotedPath(s: string, w: nat, j: nat)
    requires w + 2 <= j <= |s| && NoNewline(s, w + 2, j) && IsQuote(s[w]) && s[w + 1] == '/'
    requires forall k :: w + 2 <= k < j ==> !Closes(QuoteCloser(s[w]), s, k)
    ensures s[w] !in s[w + 1..j] && '\n' !in s[w + 1..j]
  {
    forall k | w + 1 <= k < j
      ensures s[k] != s[w] && s[k] != '\n'
    {
      if k > w + 1 {
        assert !Closes(QuoteCloser(s[w]), s, k);
      }
    }
    NotInSlice(s, w + 1, j, s[w]);
    NotInSlice(s, w + 1, j, '\n');
  }

  /** Where each group of an attribute match sits in its text. */
  lemma {:induction false} AttrTextParts(m: Match)
    requires m.Attr?
    ensures var t, n := Text(m), |m.name|;
      var w := n + |m.space|;
      var j := w + 1 + |m.path|;
      && |t| == j + 1
      && t[..n] == m.name && t[n..w] == m.space && t[w] == m.quote
      && t[w + 1..j] == m.path && t[j] == m.quote
  {
  }

  /** A prefix `t` of `s` reads the same as `s` on every slice inside it. */
  lemma {:induction false} PrefixSlice(s: string, t: string, i: nat, j: nat)
    requires StartsWith(s, t) && i <= j <= |t|
    ensures s[i..j] == t[i..j]
  {
    var a, b := s[i..j], t[i..j];
    forall k | 0 <= k < j - i
      ensures a[k] == b[k]
    {
      assert s[..|t|][i + k] == t[i + k];
    }
  }

  /** Every text that begins with a well-formed attribute match is matched with exactly those groups. */
  lemma {:induction false} MatchAttrComplete(m: Match, s: string)
    requires AttrShape(m) && StartsWith(s, Text(m))
    ensures MatchAttr(s) == Some(m)
  {
    AttrOpening(m, s);
    AttrClosing(m, s);
    var a := AttrNameFrom(s, 0).value;
    MatchAttrAt(m, s, a);
  }

  /** How `MatchAttr` reads the name, whitespace and quote of a well-formed match. */
  lemma {:induction false} AttrOpening(m: Match, s: string)
    requires AttrShape(m) && StartsWith(s, Text(m))
    ensures var n := |m.name|;
      var w := n + |m.space|;
      && AttrNameFrom(s, 0).Some? && |AttrNames[AttrNameFrom(s, 0).value]| == n
      && SkipSpace(s, n) == w
      && w + 1 < |s| && s[w] == m.quote && s[w + 1] == '/'
      && s[..n] == m.name && s[n..w] == m.space
  {
    var t := Text(m);
    var n := |m.name|;
    var w := n + |m.space|;
    var j := w + 1 + |m.path|;
    AttrTextParts(m);
    PrefixSlice(s, t, 0, n);
    PrefixSlice(s, t, n, w);
    PrefixSlice(s, t, w, w + 1);
    PrefixSlice(s, t, w + 1, j);
    assert s[w] == s[w..w + 1][0] == m.quote;
    assert s[w + 1] == s[w + 1..j][0] == '/';
    var a :| 0 <= a < |AttrNames| && |m.name| == |AttrNames[a]| && FoldStartsWith(m.name, AttrNames[a]);
    FoldPrefix(s, m.name, AttrNames[a]);
    AttrNamesExclusive(s, a, AttrNameFrom(s, 0).value);
    SpaceRun(s, n, w);
  }

  /** A text whose first characters are `name` starts, like `name`, with `lit` in any case. */
  lemma {:induction false} FoldPrefix(s: string, name: string, lit: string)
    requires |name| == |lit| && FoldStartsWith(name, lit) && |name| <= |s| && s[..|name|] == name
    ensures FoldStartsWith(s, lit)
  {
    forall k | 0 <= k < |lit|
      ensures Fold(s[k]) == lit[k]
    {
      assert s[k] == s[..|name|][k];
    }
  }

  /** A run of whitespace in `s` from `i` up to a non-space character at `j` is what `\s*` takes from `i`. */
  lemma {:induction false} SpaceRun(s: string, i: nat, j: nat)
    requires i <= j < |s| && AllSpace(s[i..j]) && !IsSpace(s[j])
    ensures SkipSpace(s, i) == j
  {
    forall k | i <= k < j
      ensures IsSpace(s[k])
    {
      assert s[k] == s[i..j][k - i];
    }
    SkipSpaceUnique(s, i, j);
  }

  /** How `MatchAttr` reads the path and closing quote of a well-formed match. */
  lemma {:induction false} AttrClosing(m: Match, s: string)
    requires AttrShape(m) && StartsWith(s, Text(m))
    ensures var w := |m.name| + |m.space|;
      var j := w + 1 + |m.path|;
      && Lazy(QuoteCloser(m.quote), s, w + 2) == Some(j)
      && s[w + 1..j] == m.path
  {
    var t := Text(m);
    var w := |m.name| + |m.space|;
    var j := w + 1 + |m.path|;
    AttrTextParts(m);
    PrefixSlice(s, t, w + 1, j);
    PrefixSlice(s, t, j, j + 1);
    assert s[j] == s[j..j + 1][0] == m.quote;
    LazyQuote(s, w + 1, w + 2, j, m.quote);
  }

  /** Over a stretch without the quote or a newline, `.*?` followed by that quote stops at the quote ending the stretch. */
  lemma {:induction false} LazyQuote(s: string, i: nat, i': nat, j: nat, q: char)
    requires i <= i' <= j < |s| && s[j] == q && q !in s[i..j] && '\n' !in s[i..j]
    ensures Lazy(QuoteCloser(q), s, i') == Some(j)
  {
    forall k | i <= k < j
      ensures s[k] != '\n' && s[k] != q
    {
      assert s[k] == s[i..j][k - i];
    }
    LazyUnique(QuoteCloser(q), s, i', j);
  }

  /** Where each step of the attribute pattern succeeds, `MatchAttr` returns the groups those steps cut out. */
  lemma {:induction false} MatchAttrAt(m: Match, s: string, a: nat)
    requires m.Attr? && IsQuote(m.quote)
    requires a < |AttrNames| && FoldStartsWith(s, AttrNames[a]) && |AttrNames[a]| == |m.name|
    requires var n := |m.name|;
      var w := n + |m.space|;
      && SkipSpace(s, n) == w
      && w + 1 < |s| && s[w] == m.quote && s[w + 1] == '/'
      && s[..n] == m.name && s[n..w] == m.space
    requires var w := |m.name| + |m.space|;
      var j := w + 1 + |m.path|;
      && Lazy(QuoteCloser(m.quote), s, w + 2) == Some(j)
      && s[w + 1..j] == m.path
    ensures AttrAfterName(s, a) == Some(m)
  {
    var n := |m.name|;
    var w := n + |m.space|;
    var j := w + 1 + |m.path|;
    var g := Attr(s[..n], s[n..w], s[w], s[w + 1..j]);
    assert g == m;
    assert AttrAfterName(s, a) == Some(g);
  }

  /** The earliest-close condition of the CSS pattern's `.*?`: no closing part matches inside the path. */
  predicate CssLazyIn(s: string, m: Match)
    requires m.Css?
  {
    var p := |m.open| + |m.openQuote|;
    forall k :: p < k < p + |m.path| && k <= |s| ==> CssCloseAt(s, k).None?
  }

  /** The CSS pattern tried at the start of `s`. */
  function MatchCss(s: string): (r: Option<Match>)
    ensures r.Some? ==> CssShape(r.value) && StartsWith(s, Text(r.value)) && CssLazyIn(s, r.value)
  {
    if FoldStartsWith(s, "url(") then
      var w := SkipSpace(s, 4);
      var p := if w < |s| && IsQuote(s[w]) then w + 1 else w;
      if p < |s| && s[p] == '/' then
        match Lazy(ParenCloser, s, p + 1)
        case None => None
        case Some(j) =>
          var (q, e) := CssCloseAt(s, j).value;
          CssGroups(s, w, p, j, q, e);
          Some(Css(s[..w], s[w..p], s[p..j], s[j..q], s[q..e]))
      else None
    else None
  }

  /** The groups `MatchCss` cuts out of `s` form a well-formed match that `s` begins with. */
  lemma {:induction false} CssGroups(s: string, w: nat, p: nat, j: nat, q: nat, e: nat)
    requires FoldStartsWith(s, "url(") && 4 <= w <= p <= w + 1 && p < j <= |s|
    requires AllSpace(s[4..w]) && OptQuote(s[w..p]) && s[p] == '/'
    requires NoNewline(s, p + 1, j) && forall k :: p + 1 <= k < j ==> !Closes(ParenCloser, s, k)
    requires CssCloseAt(s, j) == Some((q, e))
    ensures var m := Css(s[..w], s[w..p], s[p..j], s[j..q], s[q..e]);
      CssShape(m) && StartsWith(s, Text(m)) && CssLazyIn(s, m)
  {
    var m := Css(s[..w], s[w..p], s[p..j], s[j..q], s[q..e]);
    assert m.open[4..] == s[4..w];
    assert m.close[..|m.close| - 1] == s[q..e - 1];
    NotInSlice(s, p, j, '\n');
    assert Text(m) == s[..e];
    assert |m.open| + |m.openQuote| == p && |m.path| == j - p;
    forall k | p < k < j
      ensures CssCloseAt(s, k).None?
    {
      assert !Closes(ParenCloser, s, k);
    }
  }

  /** Where each group of a CSS match sits in its text. */
  lemma {:induction false} CssTextParts(m: Match)
    requires m.Css?
    ensures var t, w := Text(m), |m.open|;
      var p := w + |m.openQuote|;
      var j := p + |m.path|;
      var q := j + |m.closeQuote|;
      && |t| == q + |m.close|
      && t[..w] == m.open && t[w..p] == m.openQuote && t[p..j] == m.path
      && t[j..q] == m.closeQuote && t[q..] == m.close
  {
  }

  /** Every text that begins with a well-formed CSS match closing at its earliest chance is matched with exactly those groups. */
  lemma {:induction false} MatchCssComplete(m: Match, s: string)
    requires CssShape(m) && StartsWith(s, Text(m)) && CssLazyIn(s, m)
    ensures MatchCss(s) == Some(m)
  {
    var w := |m.open|;
    var p := w + |m.openQuote|;
    var j := p + |m.path|;
    var q := j + |m.closeQuote|;
    var e := q + |m.close|;
    CssTextParts(m);
    CssOpening(m, s);
    CssClosing(m, s, p, j, q, e);
    LazyUnique(ParenCloser, s, p + 1, j);
    assert Css(s[..w], s[w..p], s[p..j], s[j..q], s[q..e]) == m;
  }

  /** How `MatchCss` reads the `url(`, whitespace and opening quote of a well-formed match. */
  lemma {:induction false} CssOpening(m: Match, s: string)
    requires CssShape(m) && StartsWith(s, Text(m))
    ensures var w := |m.open|;
      var p := w + |m.openQuote|;
      && FoldStartsWith(s, "url(") && SkipSpace(s, 4) == w
      && p == (if w < |s| && IsQuote(s[w]) then w + 1 else w)
      && p < |s| && s[p] == '/'
      && s[..w] == m.open && s[w..p] == m.openQuote
  {
    var t := Text(m);
    var w := |m.open|;
    var p := w + |m.openQuote|;
    var j := p + |m.path|;
    CssTextParts(m);
    PrefixSlice(s, t, 0, w);
    PrefixSlice(s, t, w, p);
    PrefixSlice(s, t, p, j);
    assert FoldStartsWith(s, "url(") by {
      forall k | 0 <= k < 4
        ensures Fold(s[k]) == "url("[k]
      {
        assert s[k] == s[..w][k];
      }
    }
    forall k | 4 <= k < w
      ensures IsSpace(s[k])
    {
      assert s[k] == s[..w][k] == m.open[4..][k - 4];
    }
    assert s[p] == s[p..j][0] == '/';
    if p == w + 1 {
      assert IsQuote(s[w]) by {
        assert s[w] == s[w..p][0];
      }
    } else {
      assert w < |s| && !IsQuote(s[w]);
    }
    SkipSpaceUnique(s, 4, w);
  }

  /** How `MatchCss` reads the path, closing quote and `)` of a well-formed match. */
  lemma {:induction false} CssClosing(m: Match, s: string, p: nat, j: nat, q: nat, e: nat)
    requires CssShape(m) && StartsWith(s, Text(m)) && CssLazyIn(s, m)
    requires p == |m.open| + |m.openQuote| && j == p + |m.path|
    requires q == j + |m.closeQuote| && e == q + |m.close|
    ensures e <= |s|
    ensures CssCloseAt(s, j) == Some((q, e))
    ensures NoNewline(s, p + 1, j)
    ensures forall k :: p + 1 <= k < j ==> !Closes(ParenCloser, s, k)
    ensures s[p..j] == m.path && s[j..q] == m.closeQuote && s[q..e] == m.close
  {
    var t := Text(m);
    CssTextParts(m);
    PrefixSlice(s, t, p, j);
    PrefixSlice(s, t, j, q);
    PrefixSlice(s, t, q, e);
    forall k | q <= k < e - 1
      ensures IsSpace(s[k])
    {
      assert s[k] == s[q..e][k - q] == m.close[..|m.close| - 1][k - q];
    }
    assert s[e - 1] == s[q..e][e - 1 - q] == ')';
    if q == j + 1 {
      assert IsQuote(s[j]) by {
        assert s[j] == s[j..q][0];
      }
    } else {
      assert j < |s| && !IsQuote(s[j]) by {
        assert s[j] == s[q..e][0];
      }
    }
    CssCloseAtIs(s, j, q, e);
    forall k | p + 1 <= k < j
      ensures s[k] != '\n' && !Closes(ParenCloser, s, k)
    {
      assert s[k] == s[p..j][k - p];
    }
  }

  /** The case-sensitive link pattern tried at the start of `s`. */
  function MatchHref(s: string): (r: Option<Match>)
    ensures r.Some? ==> HrefShape(r.value) && StartsWith(s, Text(r.value))
  {
    if |s| > 5 && s[..5] == "href=" && IsQuote(s[5]) then
      match Lazy(QuoteCloser(s[5]), s, 6)
      case None => None
      case Some(j) =>
        var m := Href(s[5], s[6..j]);
        forall k | 6 <= k < j
          ensures s[k] != s[5]
        {
          assert !Closes(QuoteCloser(s[5]), s, k);
        }
        NotInSlice(s, 6, j, s[5]);
        NotInSlice(s, 6, j, '\n');
        assert Text(m) == s[..j + 1];
        Some(m)
    else None
  }

  /** Every text that begins with a well-formed link match is matched with exactly those groups. */
  lemma {:induction false} MatchHrefComplete(m: Match, s: string)
    requires HrefShape(m) && StartsWith(s, Text(m))
    ensures MatchHref(s) == Some(m)
  {
    var t := Text(m);
    var j := 6 + |m.url|;
    PrefixAt(s, t);
    assert s[..5] == "href=";
    forall k | 6 <= k < j
      ensures s[k] != '\n' && s[k] != m.quote
    {
      assert s[k] == t[k] == m.url[k - 6];
    }
    assert s[j] == t[j] == m.quote;
    LazyUnique(QuoteCloser(m.quote), s, 6, j);
    assert s[6..j] == m.url;
  }

  /** The three patterns, in the order the pipeline applies them. */
  datatype Pattern = HtmlAttribute | CssUrl | HrefLink

  predicate Shape(p: Pattern, m: Match) {
    match p
    case HtmlAttribute => AttrShape(m)
    case CssUrl => CssShape(m)
    case HrefLink => HrefShape(m)
  }

  /** Pattern `p` tried at the start of `s`; a match is never empty. */
  function MatchAt(p: Pattern, s: string): (r: Option<Match>)
    ensures r.Some? ==> Shape(p, r.value) && StartsWith(s, Text(r.value)) && |Text(r.value)| > 0
  {
    match p
    case HtmlAttribute => MatchAttr(s)
    case CssUrl => MatchCss(s)
    case HrefLink => MatchHref(s)
  }
}
