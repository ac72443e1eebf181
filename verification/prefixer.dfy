/**
 The two path-prefixing callbacks of the pipeline (steps 2 and 3), as pure
 functions of a match's groups and the configured path prefix.
 */
module Prefixer {
  import opened Strings
  import opened Patterns

  /** `PATH_PREFIX.rstrip('/')`: the prefix as it is put in front of a path. */
  function CleanPrefix(prefix: string): string {
    RStrip(prefix, '/')
  }

  /** `CleanPrefix(prefix) + path` for a root-relative path: the path moved under the prefix. */
  function Prefixed(prefix: string, path: string): string {
    CleanPrefix(prefix) + path
  }

  /**
   The HTML attribute callback: a protocol-relative path, or one already
   under the prefix (with or without its trailing slashes), keeps the whole
   match; any other path is moved under the prefix, and the attribute is
   written back without the whitespace that stood before the quote.
   */
  function RewriteAttr(prefix: string, m: Match): (r: string)
    requires m.Attr?
    ensures r == Text(m) || r == Text(Attr(m.name, "", m.quote, Prefixed(prefix, m.path)))
    ensures AttrShape(m) ==>
      (r != Text(m) <==>
        !StartsWith(m.path, "//") && !StartsWith(m.path, prefix) && !StartsWith(m.path, CleanPrefix(prefix) + "/"))
  {
    if StartsWith(m.path, "//") then Text(m)
    else if StartsWith(m.path, prefix) || StartsWith(m.path, CleanPrefix(prefix) + "/") then Text(m)
    else
      var r := m.name + [m.quote] + Prefixed(prefix, m.path) + [m.quote];
      assert AttrShape(m) ==> r != Text(m) by {
        if AttrShape(m) {
          assert CleanPrefix(prefix) != "";
          if m.space == "" {
            assert |r| != |Text(m)|;
          } else {
            assert r[|m.name|] == m.quote;
            assert Text(m)[|m.name|] == m.space[0];
            assert IsSpace(m.space[0]);
          }
        }
      }
      r
  }

  /**
   The CSS `url()` callback: like the attribute callback, except that only
   the prefix as configured counts as "already prefixed", and every group
   around the path (whitespace and both quotes) is kept.
   */
  function RewriteCss(prefix: string, m: Match): (r: string)
    requires m.Css?
    ensures r == Text(m) || r == Text(Css(m.open, m.openQuote, Prefixed(prefix, m.path), m.closeQuote, m.close))
    ensures r != Text(m) <==>
      !StartsWith(m.path, "//") && !StartsWith(m.path, prefix) && CleanPrefix(prefix) != ""
  {
    if StartsWith(m.path, "//") then Text(m)
    else if StartsWith(m.path, prefix) then Text(m)
    else
      var r := Text(Css(m.open, m.openQuote, Prefixed(prefix, m.path), m.closeQuote, m.close));
      assert r != Text(m) <==> CleanPrefix(prefix) != "" by {
        assert |r| == |Text(m)| + |CleanPrefix(prefix)|;
      }
      r
  }

  /** Feeding the attribute callback the path it produced leaves that match alone, whatever the prefix. */
  lemma {:induction false} AttrRewriteIdempotent(prefix: string, m: Match)
    requires m.Attr? && StartsWith(m.path, "/")
    ensures var m' := Attr(m.name, "", m.quote, Prefixed(prefix, m.path));
      RewriteAttr(prefix, m') == Text(m')
  {
    var c := CleanPrefix(prefix);
    var p := Prefixed(prefix, m.path);
    assert p[..|c| + 1] == c + "/";
  }

  /**
   When the cleaned prefix is itself root-relative and holds neither the
   quote nor a newline, the text the attribute callback emits is found again
   by the attribute pattern as exactly one match, which the callback then
   leaves alone: re-running the rewrite on its own output is a no-op there.
   */
  lemma {:induction false} AttrRewriteStable(prefix: string, m: Match, rest: string)
    requires AttrShape(m)
    requires CleanPrefix(prefix) == "" || CleanPrefix(prefix)[0] == '/'
    requires m.quote !in CleanPrefix(prefix) && '\n' !in CleanPrefix(prefix)
    ensures var r := RewriteAttr(prefix, m);
      && MatchAttr(r + rest).Some?
      && Text(MatchAttr(r + rest).value) == r
      && RewriteAttr(prefix, MatchAttr(r + rest).value) == r
  {
    var r := RewriteAttr(prefix, m);
    if r == Text(m) {
      MatchAttrComplete(m, r + rest);
    } else {
      var m' := Attr(m.name, "", m.quote, Prefixed(prefix, m.path));
      assert r == Text(m');
      assert AttrShape(m');
      MatchAttrComplete(m', r + rest);
      AttrRewriteIdempotent(prefix, m);
    }
  }

  /**
   Feeding the CSS callback the path it produced leaves that match alone,
   provided the prefix ends in at most one `/`: the callback only recognises
   the prefix as configured, not its cleaned form.
   */
  lemma {:induction false} CssRewriteIdempotent(prefix: string, m: Match)
    requires m.Css? && StartsWith(m.path, "/")
    requires |prefix| - |CleanPrefix(prefix)| <= 1
    ensures var m' := Css(m.open, m.openQuote, Prefixed(prefix, m.path), m.closeQuote, m.close);
      RewriteCss(prefix, m') == Text(m')
  {
    var c := CleanPrefix(prefix);
    var p := Prefixed(prefix, m.path);
    if |prefix| == |c| {
      assert prefix == c;
      assert p[..|c|] == c;
    } else {
      assert prefix == c + "/";
      assert p[..|c| + 1] == c + "/";
    }
  }

  /** With two trailing slashes on the prefix, the CSS callback prefixes its own output a second time. */
  lemma {:induction false} CssRewriteNotIdempotent()
    ensures var m := Css("url(", "", "/x", "", ")");
      && RewriteCss("/d//", m) == "url(/d/x)"
      && RewriteCss("/d//", Css("url(", "", "/d/x", "", ")")) == "url(/d/d/x)"
  {
    assert CleanPrefix("/d//") == "/d" by {
      assert "/d//"[..3] == "/d/";
      assert "/d/"[..2] == "/d";
    }
    assert "/x"[..2][1] != "//"[1];
    assert "/d/x"[..2][1] != "//"[1];
    assert "/d/x"[..4][3] != "/d//"[3];
  }
}
