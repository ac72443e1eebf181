/**
 Python's `re.sub(pattern, callback, text)` for the three patterns. The
 scan cuts the text into pieces: where the pattern matches at the scan
 position the whole match becomes one piece and the scan resumes after it;
 elsewhere one character is passed over. Substitution then replaces every
 match piece by what its callback returns.
 */
module Scanner {
  import opened Strings
  import opened Patterns
  import Prefixer
  import LinkFixer

  /** A character the scan passed over, or a match it took whole. */
  datatype Piece = Lit(c: char) | Hit(m: Match)

  function PieceText(x: Piece): string {
    match x
    case Lit(c) => [c]
    case Hit(m) => Text(m)
  }

  /** The text a sequence of pieces was cut from. */
  function Flatten(xs: seq<Piece>): string
    decreases |xs|
  {
    if |xs| == 0 then "" else PieceText(xs[0]) + Flatten(xs[1..])
  }

  /** What the scan saw at piece `x` when the rest of the text read `t`. */
  function Seen(p: Pattern, t: string, x: Piece): bool {
    match x
    case Lit(_) => MatchAt(p, t).None?
    case Hit(m) => MatchAt(p, t) == Some(m)
  }

  /** Each piece agrees with the pattern: a match piece where the pattern matches there, a character where it does not. */
  predicate Agrees(p: Pattern, xs: seq<Piece>)
    decreases |xs|
  {
    |xs| == 0 || (Seen(p, Flatten(xs), xs[0]) && Agrees(p, xs[1..]))
  }

  /** The left-to-right, non-overlapping segmentation `re.sub` makes of `s`. */
  function Scan(p: Pattern, s: string): (r: seq<Piece>)
    ensures Flatten(r) == s
    ensures Agrees(p, r)
    ensures forall i :: 0 <= i < |r| && r[i].Hit? ==> Shape(p, r[i].m)
    decreases |s|
  {
    if |s| == 0 then []
    else
      var x := match MatchAt(p, s)
        case Some(m) => Hit(m)
        case None => Lit(s[0]);
      var t := s[|PieceText(x)|..];
      assert s == PieceText(x) + t;
      var rest := Scan(p, t);
      var r := [x] + rest;
      assert r[1..] == rest;
      assert Flatten(r) == s;
      r
  }

  /** The scan is the only segmentation of `s` that agrees with the pattern. */
  lemma {:induction false} ScanUnique(p: Pattern, s: string, xs: seq<Piece>)
    requires Flatten(xs) == s && Agrees(p, xs)
    ensures xs == Scan(p, s)
    decreases |xs|
  {
    if |xs| > 0 {
      var t := Flatten(xs[1..]);
      ScanUnique(p, t, xs[1..]);
      ScanCons(p, s, xs[0], t);
      assert xs == [xs[0]] + xs[1..];
    }
  }

  /** Where the pattern agrees with the piece `x` at the front of `s`, the scan takes `x` and goes on with the rest. */
  lemma {:induction false} ScanCons(p: Pattern, s: string, x: Piece, t: string)
    requires s == PieceText(x) + t && Seen(p, s, x)
    ensures Scan(p, s) == [x] + Scan(p, t)
  {
    match x
    case Lit(c) =>
      assert s[1..] == t;
    case Hit(m) =>
      assert s[|Text(m)|..] == t;
  }

  /** The callback each pattern's matches are handed to. */
  function Rewrite(prefix: string, disk: LinkFixer.Disk, m: Match): string {
    match m
    case Attr(_, _, _, _) => Prefixer.RewriteAttr(prefix, m)
    case Css(_, _, _, _, _) => Prefixer.RewriteCss(prefix, m)
    case Href(_, _) => LinkFixer.FixHtmlLink(prefix, disk, m)
  }

  /** The pieces put back together with every match replaced by its callback's result. */
  function Render(xs: seq<Piece>, prefix: string, disk: LinkFixer.Disk): string
    decreases |xs|
  {
    if |xs| == 0 then ""
    else
      Emit(xs[0], prefix, disk) + Render(xs[1..], prefix, disk)
  }

  /** What one piece becomes: a passed-over character stays, a match is replaced by its callback's result. */
  function Emit(x: Piece, prefix: string, disk: LinkFixer.Disk): string {
    match x
    case Lit(c) => [c]
    case Hit(m) => Rewrite(prefix, disk, m)
  }

  /** `pattern.sub(callback, s)`. */
  function Substitute(p: Pattern, prefix: string, disk: LinkFixer.Disk, s: string): string {
    Render(Scan(p, s), prefix, disk)
  }

  /** Every match the callback hands back unchanged. */
  predicate KeepsAll(xs: seq<Piece>, prefix: string, disk: LinkFixer.Disk) {
    forall i :: 0 <= i < |xs| && xs[i].Hit? ==> Rewrite(prefix, disk, xs[i].m) == Text(xs[i].m)
  }

  lemma {:induction false} RenderKeepsAll(xs: seq<Piece>, prefix: string, disk: LinkFixer.Disk)
    requires KeepsAll(xs, prefix, disk)
    ensures Render(xs, prefix, disk) == Flatten(xs)
    decreases |xs|
  {
    if |xs| > 0 {
      assert KeepsAll(xs[1..], prefix, disk) by {
        forall i | 0 <= i < |xs| - 1 && xs[1..][i].Hit?
          ensures Rewrite(prefix, disk, xs[1..][i].m) == Text(xs[1..][i].m)
        {
          assert xs[1..][i] == xs[i + 1];
        }
      }
      RenderKeepsAll(xs[1..], prefix, disk);
    }
  }

  /** A substitution whose callback keeps every match it is handed leaves the text unchanged. */
  lemma {:induction false} SubstituteKeepsText(p: Pattern, prefix: string, disk: LinkFixer.Disk, s: string)
    requires KeepsAll(Scan(p, s), prefix, disk)
    ensures Substitute(p, prefix, disk, s) == s
  {
    RenderKeepsAll(Scan(p, s), prefix, disk);
  }

  /**
   A character every match the pattern can rewrite contains: a slash or an
   opening parenthesis for the prefixing patterns (their paths start with
   `/`, `url(` opens the CSS one), and for the link pattern any character of
   the prefix, which a link must start with to be fixed.
   */
  predicate Marks(p: Pattern, prefix: string, c: char) {
    match p
    case HtmlAttribute => c == '/'
    case CssUrl => c == '/' || c == '('
    case HrefLink => c in prefix
  }

  /** A match of the pattern is either handed back unchanged or contains the marking character. */
  lemma {:induction false} MatchKeptOrMarked(p: Pattern, prefix: string, disk: LinkFixer.Disk, m: Match, c: char)
    requires Marks(p, prefix, c) && Shape(p, m)
    ensures c in Text(m) || Rewrite(prefix, disk, m) == Text(m)
  {
    match m
    case Attr(name, space, q, path) =>
      assert Text(m)[|name| + |space| + 1] == '/';
    case Css(open, oq, path, cq, close) =>
      if c == '/' {
        assert Text(m)[|open| + |oq|] == '/';
      } else {
        assert Text(m)[3] == '(';
      }
    case Href(q, url) =>
      if StartsWith(url, prefix) {
        var k :| 0 <= k < |prefix| && prefix[k] == c;
        assert Text(m)[6 + k] == url[k];
      }
  }

  /** A substitution renders the first piece and goes on with the text after it. */
  lemma {:induction false} SubstituteStep(p: Pattern, prefix: string, disk: LinkFixer.Disk, s: string)
    requires |s| > 0
    ensures var xs := Scan(p, s);
      && s == PieceText(xs[0]) + Flatten(xs[1..])
      && Seen(p, s, xs[0])
      && Substitute(p, prefix, disk, s) == Emit(xs[0], prefix, disk) + Substitute(p, prefix, disk, Flatten(xs[1..]))
  {
    var xs := Scan(p, s);
    var t := Flatten(xs[1..]);
    ScanCons(p, s, xs[0], t);
    assert xs[1..] == Scan(p, t);
  }

  /** A text without the marking character passes through the substitution unchanged. */
  lemma {:induction false} UnmarkedKept(p: Pattern, prefix: string, disk: LinkFixer.Disk, s: string, c: char)
    requires Marks(p, prefix, c) && c !in s
    ensures Substitute(p, prefix, disk, s) == s
    decreases |s|
  {
    if |s| > 0 {
      SubstituteStep(p, prefix, disk, s);
      var xs := Scan(p, s);
      var x, t := xs[0], Flatten(xs[1..]);
      UnmarkedKept(p, prefix, disk, t, c);
      if x.Hit? {
        assert c !in Text(x.m);
        MatchKeptOrMarked(p, prefix, disk, x.m, c);
      }
    }
  }

  /** Without any `.html` file on disk the link pass changes nothing. */
  lemma {:induction false} LinkPassNeedsFiles(prefix: string, disk: LinkFixer.Disk, s: string)
    requires disk.files == {}
    ensures Substitute(HrefLink, prefix, disk, s) == s
  {
    var xs := Scan(HrefLink, s);
    assert KeepsAll(xs, prefix, disk) by {
      forall i | 0 <= i < |xs| && xs[i].Hit?
        ensures Rewrite(prefix, disk, xs[i].m) == Text(xs[i].m)
      {
        assert Shape(HrefLink, xs[i].m);
        assert !LinkFixer.ShouldFix(prefix, disk, xs[i].m.url);
      }
    }
    SubstituteKeepsText(HrefLink, prefix, disk, s);
  }

  /** Only the link callback consults the filesystem. */
  lemma {:induction false} RenderIgnoresDisk(xs: seq<Piece>, prefix: string, d1: LinkFixer.Disk, d2: LinkFixer.Disk)
    requires forall i :: 0 <= i < |xs| && xs[i].Hit? ==> !xs[i].m.Href?
    ensures Render(xs, prefix, d1) == Render(xs, prefix, d2)
    decreases |xs|
  {
    if |xs| > 0 {
      EmitIgnoresDisk(xs[0], prefix, d1, d2);
      assert forall i :: 0 <= i < |xs| - 1 ==> xs[1..][i] == xs[i + 1];
      RenderIgnoresDisk(xs[1..], prefix, d1, d2);
    }
  }

  lemma {:induction false} EmitIgnoresDisk(x: Piece, prefix: string, d1: LinkFixer.Disk, d2: LinkFixer.Disk)
    requires x.Hit? ==> !x.m.Href?
    ensures Emit(x, prefix, d1) == Emit(x, prefix, d2)
  {
  }

  /** The two prefixing passes give the same result whatever the filesystem holds. */
  lemma {:induction false} PrefixPassIgnoresDisk(p: Pattern, prefix: string, d1: LinkFixer.Disk, d2: LinkFixer.Disk, s: string)
    requires p != HrefLink
    ensures Substitute(p, prefix, d1, s) == Substitute(p, prefix, d2, s)
  {
    var xs := Scan(p, s);
    assert forall i :: 0 <= i < |xs| && xs[i].Hit? ==> Shape(p, xs[i].m);
    RenderIgnoresDisk(xs, prefix, d1, d2);
  }
}
