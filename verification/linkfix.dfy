/**
 Step 4 of the pipeline, the missing-`.html` fixer: a link under the path
 prefix whose cleaned target is not a directory but has a sibling `.html`
 file gets `.html` appended to its path, with its query or fragment put
 back after it.
 */
module LinkFixer {
  import opened Strings
  import opened Patterns

  /**
   What the fixer may ask of the filesystem: which paths, relative to the
   site's root directory, are directories and which are regular files.
   */
  datatype Disk = Disk(dirs: set<string>, files: set<string>)

  /** Every character of `s` is a slash. */
  predicate AllSlash(s: string) {
    forall k :: 0 <= k < |s| ==> s[k] == '/'
  }

  /** `url.split('?')[0].split('#')[0]`: the URL up to its first `?`, then up to its first `#`. */
  function StripQuery(url: string): (r: string)
    ensures StartsWith(url, r)
    ensures '?' !in r && '#' !in r
    ensures |r| < |url| ==> url[|r|] == '?' || url[|r|] == '#'
    ensures |r| == |url| <==> '?' !in url && '#' !in url
  {
    var b := Before(url, '?');
    var r := Before(b, '#');
    assert url[..|r|] == b[..|r|];
    assert |r| < |url| && |r| == |b| ==> url[|r|] == '?';
    r
  }

  /**
   The clean relative path (app.py strips leading slashes only when there is
   one, and trailing ones likewise; stripping unconditionally is the same):
   the URL's query-free part with all its leading and trailing slashes cut.
   */
  function CleanPath(rel: string): (r: string)
    ensures '?' !in r && '#' !in r
    ensures |r| == 0 || (r[0] != '/' && r[|r| - 1] != '/')
    ensures var c := StripQuery(rel);
      exists i, j :: 0 <= i <= j <= |c| && r == c[i..j] && AllSlash(c[..i]) && AllSlash(c[j..])
  {
    var c := StripQuery(rel);
    var c1 := if StartsWith(c, "/") then LStrip(c, '/') else c;
    var r := if EndsWith(c1, '/') then RStrip(c1, '/') else c1;
    TrimmedSlice(c, c1, r);
    r
  }

  /** Cutting slashes from the front of `c` and then from the back leaves a slice of `c` with only slashes outside it. */
  lemma {:induction false} TrimmedSlice(c: string, c1: string, r: string)
    requires |c1| <= |c| && c1 == c[|c| - |c1|..] && forall k :: 0 <= k < |c| - |c1| ==> c[k] == '/'
    requires StartsWith(c1, r) && forall k :: |r| <= k < |c1| ==> c1[k] == '/'
    ensures '?' !in c ==> '?' !in r
    ensures '#' !in c ==> '#' !in r
    ensures exists i, j :: 0 <= i <= j <= |c| && r == c[i..j] && AllSlash(c[..i]) && AllSlash(c[j..])
  {
    var i, j := |c| - |c1|, |c| - |c1| + |r|;
    assert r == c1[..|r|];
    assert r == c[i..j];
    assert AllSlash(c[..i]);
    assert AllSlash(c[j..]) by {
      forall k | 0 <= k < |c| - j
        ensures c[j..][k] == '/'
      {
        assert c[j..][k] == c1[|r| + k];
      }
    }
  }

  /** The URL's query-free part without one trailing slash: where `.html` goes. */
  function UrlBase(url: string): (r: string)
    ensures EndsWith(StripQuery(url), '/') ==> StripQuery(url) == r + "/"
    ensures !EndsWith(StripQuery(url), '/') ==> r == StripQuery(url)
  {
    var b := StripQuery(url);
    if EndsWith(b, '/') then
      assert b == b[..|b| - 1] + "/";
      b[..|b| - 1]
    else b
  }

  /**
   The part of the URL put back after `.html`: everything from the first `?`
   when there is one, otherwise everything from the first `#`.
   */
  function Suffix(url: string): (r: string)
    ensures '?' in url ==> url == Before(url, '?') + r
    ensures '?' !in url && '#' in url ==> url == Before(url, '#') + r
    ensures '?' !in url && '#' !in url ==> r == ""
  {
    if '?' in url then "?" + After(url, '?')
    else if '#' in url then "#" + After(url, '#')
    else ""
  }

  /** The rewritten link: `.html` appended to the path, the query or fragment kept after it. */
  function NewUrl(url: string): string {
    UrlBase(url) + ".html" + Suffix(url)
  }

  /** The link is under the prefix, its clean path is non-empty and no directory, and `<clean>.html` is a file. */
  predicate ShouldFix(prefix: string, disk: Disk, url: string) {
    && StartsWith(url, prefix)
    && var clean := CleanPath(url[|prefix|..]);
    && clean != ""
    && clean !in disk.dirs
    && clean + ".html" in disk.files
  }

  /**
   The link callback. It leaves the match alone when the URL is not under
   the prefix, when its clean path is empty, when that path is a directory,
   and when `<clean>.html` is not a file; otherwise it writes the link back
   with the fixed URL and the original quote. The result differs from the
   match exactly when the fix applies.
   */
  function FixHtmlLink(prefix: string, disk: Disk, m: Match): (r: string)
    requires m.Href?
    ensures r != Text(m) <==> ShouldFix(prefix, disk, m.url)
    ensures r == Text(m) || r == Text(Href(m.quote, NewUrl(m.url)))
  {
    var url := m.url;
    if !StartsWith(url, prefix) then Text(m)
    else
      var clean := CleanPath(url[|prefix|..]);
      if clean == "" then Text(m)
      else if clean in disk.dirs then Text(m)
      else if clean + ".html" in disk.files then
        NewUrlDiffers(url);
        HrefTextInjective(m.quote, NewUrl(url), url);
        Text(Href(m.quote, NewUrl(url)))
      else Text(m)
  }

  /** Two links with the same quote have the same text only if they have the same URL. */
  lemma {:induction false} HrefTextInjective(q: char, a: string, b: string)
    ensures Text(Href(q, a)) == Text(Href(q, b)) ==> a == b
  {
    if Text(Href(q, a)) == Text(Href(q, b)) {
      assert a == Text(Href(q, a))[6..6 + |a|];
    }
  }

  /** The fixed URL never equals the original: at the end of its base it reads `.`, where the original reads `/`, `?`, `#` or ends. */
  lemma {:induction false} NewUrlDiffers(url: string)
    ensures NewUrl(url) != url
  {
    var b, base := StripQuery(url), UrlBase(url);
    var n := NewUrl(url);
    assert n[|base|] == '.';
    if |base| < |url| {
      if |base| == |b| {
        assert url[|base|] == '?' || url[|base|] == '#';
      } else {
        assert url[|base|] == b[|base|] == '/';
      }
    }
  }

  /**
   Unless a `#` comes before the first `?`, the fix inserts `.html` at the
   end of the path (in place of one trailing slash) and keeps the whole
   query-and-fragment tail exactly; this covers URLs with a query, with only
   a fragment, and with neither.
   */
  lemma {:induction false} NewUrlKeepsTail(url: string)
    requires '?' in url ==> '#' !in Before(url, '?')
    ensures var tail := url[|StripQuery(url)|..];
      && url == StripQuery(url) + tail
      && NewUrl(url) == UrlBase(url) + ".html" + tail
  {
    var b := StripQuery(url);
    var tail := url[|b|..];
    assert url == b + tail;
    if '?' in url {
      assert Before(url, '?') == b;
      assert url == Before(url, '?') + "?" + After(url, '?');
    } else if '#' in url {
      assert Before(url, '?') == url;
      assert url == Before(url, '#') + "#" + After(url, '#');
    }
  }

  /**
   When a `#` comes before the first `?`, the fix drops everything from that
   `#` up to the `?`, and the text after the `?`, which was part of the
   fragment, becomes a query.
   */
  lemma {:induction false} NewUrlDropsFragmentBeforeQuery(url: string)
    requires '?' in url && '#' in Before(url, '?')
    ensures NewUrl(url) == UrlBase(url) + ".html" + "?" + After(url, '?')
    ensures NewUrl(url) != UrlBase(url) + ".html" + url[|StripQuery(url)|..]
  {
    var q := Before(url, '?');
    var b := Before(q, '#');
    assert b == StripQuery(url);
    assert q[|b|] == '#';
    assert url[|b|] == q[|b|];
    var x := UrlBase(url) + ".html";
    var fixed, kept := x + "?" + After(url, '?'), x + url[|b|..];
    assert NewUrl(url) == fixed;
    assert fixed[|x|] == '?';
    assert kept[|x|] == url[|b|];
  }
}
