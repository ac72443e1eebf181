/**
 `process_content`: the page text goes through the domain substitution, the
 HTML-attribute prefixing pass, the CSS `url()` prefixing pass and, when
 enabled, the missing-`.html` link fix, each pass reading the previous
 one's output. The module-level constants of the script become a `Config`;
 the directory the fixer probes becomes a `Disk`.
 */
module Pipeline {
  import opened Strings
  import opened Patterns
  import Domain
  import Scanner
  import Prefixer
  import LinkFixer

  /** The script's configuration constants. */
  datatype Config = Config(oldDomain: string, newDomain: string, pathPrefix: string, fixMissingHtml: bool)

  /** The values the script ships with. */
  const Default := Config("mychart-app.com", "mychart-ap.github.io/download/", "/download", true)

  /** The text after the domain substitution and the two prefixing passes. */
  function AfterPrefixing(cfg: Config, disk: LinkFixer.Disk, content: string): string {
    var a := Domain.Replace(content, cfg.oldDomain, cfg.newDomain);
    var b := Scanner.Substitute(HtmlAttribute, cfg.pathPrefix, disk, a);
    Scanner.Substitute(CssUrl, cfg.pathPrefix, disk, b)
  }

  /** The four passes in order; the link fix runs only when enabled. */
  function ProcessContent(cfg: Config, disk: LinkFixer.Disk, content: string): string {
    var c := AfterPrefixing(cfg, disk, content);
    if cfg.fixMissingHtml then Scanner.Substitute(HrefLink, cfg.pathPrefix, disk, c) else c
  }

  /**
   A page that mentions neither the old domain nor any slash comes out
   unchanged, provided the old domain is non-empty and the prefix contains
   a slash: no pass finds anything to rewrite.
   */
  lemma {:induction false} UntouchedPage(cfg: Config, disk: LinkFixer.Disk, content: string)
    requires |cfg.oldDomain| > 0 && Find(content, cfg.oldDomain).None?
    requires '/' !in content && '/' in cfg.pathPrefix
    ensures ProcessContent(cfg, disk, content) == content
  {
    var p := cfg.pathPrefix;
    assert Domain.Replace(content, cfg.oldDomain, cfg.newDomain) == content;
    Scanner.UnmarkedKept(HtmlAttribute, p, disk, content, '/');
    Scanner.UnmarkedKept(CssUrl, p, disk, content, '/');
    Scanner.UnmarkedKept(HrefLink, p, disk, content, '/');
  }

  /** With the link fix disabled, the filesystem plays no part in the result. */
  lemma {:induction false} FixOffIgnoresDisk(cfg: Config, d1: LinkFixer.Disk, d2: LinkFixer.Disk, content: string)
    requires !cfg.fixMissingHtml
    ensures ProcessContent(cfg, d1, content) == ProcessContent(cfg, d2, content)
  {
    var p := cfg.pathPrefix;
    var a := Domain.Replace(content, cfg.oldDomain, cfg.newDomain);
    Scanner.PrefixPassIgnoresDisk(HtmlAttribute, p, d1, d2, a);
    var b := Scanner.Substitute(HtmlAttribute, p, d1, a);
    Scanner.PrefixPassIgnoresDisk(CssUrl, p, d1, d2, b);
  }

  /** With no `.html` file on disk, enabling the link fix makes no difference. */
  lemma {:induction false} NoFilesFixIsNoOp(cfg: Config, disk: LinkFixer.Disk, content: string)
    requires disk.files == {}
    ensures ProcessContent(cfg, disk, content)
      == ProcessContent(Config(cfg.oldDomain, cfg.newDomain, cfg.pathPrefix, false), disk, content)
  {
    Scanner.LinkPassNeedsFiles(cfg.pathPrefix, disk, AfterPrefixing(cfg, disk, content));
  }

  /**
   With the shipped configuration, a root-relative link `href='/a'` next to
   a file `a.html` first gains the `/download` prefix and then the missing
   `.html` extension.
   */
  lemma {:induction false} DefaultFixesLink(disk: LinkFixer.Disk, s: string)
    requires disk == LinkFixer.Disk({}, {"a.html"}) && s == "href='/a'"
    ensures ProcessContent(Default, disk, s) == "href='/download/a.html'"
  {
    var t := "href='/download/a'";
    var p := Default.pathPrefix;
    ExampleDomain(s);
    ExampleAttr(p, disk, s, t);
    Scanner.UnmarkedKept(CssUrl, p, disk, t, '(');
    ExampleLink(p, disk, "/download/a", t);
    Chain(Default, disk, s, s, t, t, "href='/download/a.html'");
  }

  /** The pipeline's result from the result of each pass. */
  lemma {:induction false} Chain(cfg: Config, disk: LinkFixer.Disk, s: string, a: string, b: string, c: string, d: string)
    requires cfg.fixMissingHtml && Domain.Replace(s, cfg.oldDomain, cfg.newDomain) == a
    requires Scanner.Substitute(HtmlAttribute, cfg.pathPrefix, disk, a) == b
    requires Scanner.Substitute(CssUrl, cfg.pathPrefix, disk, b) == c
    requires Scanner.Substitute(HrefLink, cfg.pathPrefix, disk, c) == d
    ensures ProcessContent(cfg, disk, s) == d
  {
  }

  lemma {:induction false} ExampleDomain(s: string)
    requires s == "href='/a'"
    ensures Domain.Replace(s, Default.oldDomain, Default.newDomain) == s
  {
    assert Find(s, Default.oldDomain).None?;
  }

  lemma {:induction false} ExampleAttr(p: string, disk: LinkFixer.Disk, s: string, t: string)
    requires p == "/download" && s == "href='/a'" && t == "href='/download/a'"
    ensures Scanner.Substitute(HtmlAttribute, p, disk, s) == t
  {
    var m := Attr("href=", "", '\'', "/a");
    ExampleAttrMatch(s, m);
    Scanner.SubstituteStep(HtmlAttribute, p, disk, s);
    var xs := Scanner.Scan(HtmlAttribute, s);
    assert xs[0] == Scanner.Hit(m);
    assert |Scanner.Flatten(xs[1..])| == 0;
    ExampleRewriteAttr(p, m, t);
  }

  lemma {:induction false} ExampleAttrMatch(s: string, m: Match)
    requires s == "href='/a'" && m == Attr("href=", "", '\'', "/a")
    ensures s == Text(m) && MatchAt(HtmlAttribute, s) == Some(m)
  {
    assert FoldStartsWith(m.name, AttrNames[0]);
    assert AttrShape(m);
    assert StartsWith(s, Text(m));
    MatchAttrComplete(m, s);
  }

  lemma {:induction false} ExampleRewriteAttr(p: string, m: Match, t: string)
    requires p == "/download" && m == Attr("href=", "", '\'', "/a") && t == "href='/download/a'"
    ensures Prefixer.RewriteAttr(p, m) == t
  {
    assert Prefixer.CleanPrefix(p) == p;
    assert |m.path| == 2 && m.path[1] == 'a' && |p| == 9;
    assert !StartsWith(m.path, "//") && !StartsWith(m.path, p) && !StartsWith(m.path, p + "/");
    assert Prefixer.RewriteAttr(p, m) == m.name + [m.quote] + p + m.path + [m.quote];
  }

  lemma {:induction false} ExampleLink(p: string, disk: LinkFixer.Disk, url: string, t: string)
    requires p == "/download" && url == "/download/a" && t == "href='/download/a'"
    requires disk == LinkFixer.Disk({}, {"a.html"})
    ensures Scanner.Substitute(HrefLink, p, disk, t) == "href='/download/a.html'"
  {
    var h := Href('\'', url);
    assert StartsWith(t, Text(h)) && t == Text(h);
    MatchHrefComplete(h, t);
    Scanner.SubstituteStep(HrefLink, p, disk, t);
    var xs := Scanner.Scan(HrefLink, t);
    assert xs[0] == Scanner.Hit(h);
    assert |Scanner.Flatten(xs[1..])| == 0;
    ExampleFix(p, disk, h);
  }

  lemma {:induction false} ExampleFix(p: string, disk: LinkFixer.Disk, h: Match)
    requires p == "/download" && h.Href? && h.quote == '\'' && h.url == "/download/a"
    requires disk == LinkFixer.Disk({}, {"a.html"})
    ensures LinkFixer.FixHtmlLink(p, disk, h) == "href='/download/a.html'"
  {
    var url := h.url;
    assert StartsWith(url, p);
    ExampleClean(url[|p|..]);
    assert "a" + ".html" == "a.html";
    assert LinkFixer.ShouldFix(p, disk, url);
    ExampleNewUrl(url);
    ExampleText(h.quote, LinkFixer.NewUrl(url));
  }

  lemma {:induction false} ExampleText(q: char, u: string)
    requires q == '\'' && u == "/download/a.html"
    ensures Text(Href(q, u)) == "href='/download/a.html'"
  {
  }

  lemma {:induction false} ExampleClean(rel: string)
    requires rel == "/a"
    ensures LinkFixer.CleanPath(rel) == "a"
  {
    assert LinkFixer.StripQuery(rel) == rel;
    var r := LStrip(rel, '/');
    assert rel[0] == '/' && rel[1] == 'a';
    assert |r| == 1 && r == rel[1..];
  }

  lemma {:induction false} ExampleNewUrl(url: string)
    requires url == "/download/a"
    ensures LinkFixer.NewUrl(url) == "/download/a.html"
  {
    assert LinkFixer.StripQuery(url) == url;
    assert LinkFixer.UrlBase(url) == url;
    assert LinkFixer.Suffix(url) == "";
  }
}
