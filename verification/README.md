# Static-site link rewriter: `process_content`

This project models `process_content` from `app.py`. The script uses it to
migrate a static site to a new host. Each page's text goes through four
passes in order:

1. **Domain substitution.** The old domain is replaced by the new one with
   Python's `str.replace`.
2. **HTML attribute prefixing.** `href=`, `src=`, `action=`, `content=`,
   `data-src=` and `srcset=` values that begin with `/` get the path prefix.
3. **CSS prefixing.** `url(...)` paths that begin with `/` get the same
   prefix.
4. **Missing-`.html` fix.** This pass runs only when enabled. An
   `href` link under the prefix that names a page without its `.html`
   extension gets the extension, when that page exists on disk.

Modules:

- `Strings`: the Python `str` operations the passes use (`startswith`,
  `split` on one character, `lstrip`, `rstrip`), and `find`, which the
  passes never call but which specifies `str.replace` in `Domain`.
- `Domain`: `str.replace`, with a second "find and splice" definition of it
  and the lemma that the two agree.
- `Patterns`: the three regular expressions, each as a matcher tried at the
  start of a text.
  - A matcher returns the capture groups as a `Match`.
  - Soundness: a match it returns is well-formed and is a prefix of the
    text.
  - Completeness: every well-formed match at the start of the text is the
    one it returns.
- `Prefixer`: `replace_callback` and `css_callback`.
- `LinkFixer`: `fix_html_link`, with the filesystem replaced by a `Disk`.
  A `Disk` is the set of directories and the set of files, as paths
  relative to the site root.
- `Scanner`: `re.sub` as a left-to-right cut of the text into passed-over
  characters and whole matches.
  - Flattening the pieces gives back the text.
  - Each piece agrees with the matcher at its position.
  - Only one cut of the text has both properties.
  - Substitution renders each match through its callback.
- `Pipeline`: `Config`, which holds the script's constants (`Default` has the
  shipped values), and `ProcessContent`, which chains the passes.

## Model

| member | source | states |
|---|---|---|
| `Strings.Find` | app.py:26 | `str.find`, used to specify the `str.replace` of this line: when it returns an index, the searched string occurs there |
| `Strings.FindIsFirst` | app.py:26 | `str.find` returns the lowest index: no occurrence starts before the index it returns, and when it returns nothing there is no occurrence at any position |
| `Strings.Before` | app.py:99 | `split(c)[0]`: a prefix of the text without `c`, stopping at the first `c` or at the end; it is the whole text exactly when `c` is absent |
| `Strings.After` | app.py:122 | `split(c, 1)[1]`: the text is what comes before the first `c`, then `c`, then the result |
| `Strings.RStrip` | app.py:51 | `rstrip(c)`: a prefix of the text that does not end in `c`; only `c` was cut |
| `Strings.LStrip` | app.py:102 | `lstrip(c)`: a suffix of the text that does not start with `c`; only `c` was cut |
| `Domain.Replace` | app.py:26 | with a non-empty old string that does not occur, the text comes back unchanged (the empty text included); with an empty old string the result starts with the new string and has `len(s) + (len(s) + 1) * len(new)` characters, laid out as the next two rows state |
| `Domain.InsertEverywhereAt` | app.py:26 | `s.replace("", new)`: for every index `k` of `s`, the block of `len(new) + 1` characters starting at `k * (len(new) + 1)` is `new` followed by `s[k]` |
| `Domain.InsertEverywhereEnd` | app.py:26 | `s.replace("", new)`: after the last of those blocks comes exactly one more `new`, so with the length the result is determined |
| `Domain.ReplaceIsFindAndSplice` | app.py:26 | the scan equals "find the first occurrence, splice in the replacement, continue after it": each non-overlapping occurrence, left to right, is replaced literally, and the text between occurrences is copied |
| `Domain.ReplaceLength` | app.py:26 | the length changes by `len(new) - len(old)` per non-overlapping occurrence, so as many replacements are made as there are occurrences |
| `Domain.ReplaceSelfIsIdentity` | app.py:26 | replacing any string by itself, the empty string included, changes nothing |
| `Patterns.AttrNamesExclusive` | app.py:59 | at most one attribute alternative matches at a position (ignoring case), so alternation needs no backtracking |
| `Patterns.Lazy` | app.py:59 | the lazy `.*?` stops at the first position where the rest of the pattern matches, with no newline before it; if there is none, nothing matches |
| `Patterns.LazyUnique` | app.py:59 | the first closing position with no newline before it is the one the lazy scan returns |
| `Patterns.MatchAttr` | app.py:59 | a match of the attribute pattern is a prefix of the text and has a known name in any case, whitespace, a quote, and a `/`-initial path without that quote or a newline |
| `Patterns.MatchAttrComplete` | app.py:59 | every well-formed attribute match at the start of the text is found with exactly those groups |
| `Patterns.MatchCss` | app.py:84 | a match of the CSS pattern is a prefix of the text: `url(` in any case with whitespace, optional quotes that need not agree, a `/`-initial path without a newline that stops at the first closing part, then whitespace and `)` |
| `Patterns.MatchCssComplete` | app.py:84 | every well-formed, lazily closed CSS match at the start of the text is found with exactly those groups |
| `Patterns.MatchHref` | app.py:131 | a match of the link pattern is a prefix of the text: `href=` in lower case, a quote, and a URL (possibly empty) without that quote or a newline |
| `Patterns.MatchHrefComplete` | app.py:131 | every well-formed link match at the start of the text is found with exactly those groups |
| `Patterns.MatchAt` | app.py:59-60 | whichever pattern is tried, a match is well-formed for that pattern, starts the text, and is never empty |
| `Prefixer.RewriteAttr` | app.py:34-54 | the match is kept whole, or rewritten as name, quote, clean prefix plus path, quote, dropping the whitespace before the quote; it changes exactly when the path is neither protocol-relative nor under the prefix, with or without the prefix's trailing slashes |
| `Prefixer.RewriteCss` | app.py:65-82 | the match is kept, or rewritten with the clean prefix before the path and every other group kept; it changes exactly when the path is not protocol-relative, does not start with the prefix as configured, and the clean prefix is not empty |
| `Prefixer.AttrRewriteIdempotent` | app.py:46-52 | for any prefix, the attribute callback leaves alone a match carrying a path it produced |
| `Prefixer.AttrRewriteStable` | app.py:34-60 | the attribute pattern finds the callback's output again as exactly one match, which the callback keeps, when the clean prefix is root-relative and has neither the quote nor a newline |
| `Prefixer.CssRewriteIdempotent` | app.py:76-80 | the CSS callback leaves alone a path it produced, when the prefix has at most one trailing `/` |
| `Prefixer.CssRewriteNotIdempotent` | app.py:76-80 | with prefix `/d//`, the CSS callback prefixes its own output a second time (`/x`, then `/d/x`, then `/d/d/x`) |
| `LinkFixer.StripQuery` | app.py:99 | the URL cut at the first `?` and then at the first `#`: a prefix of the URL without either mark, ending where the URL ends or where a mark stands |
| `LinkFixer.CleanPath` | app.py:97-104 | the clean path has no `?` or `#`, neither starts nor ends with `/`, and is the query-free relative path with only slashes cut from both ends |
| `LinkFixer.UrlBase` | app.py:116-118 | the base is the query-free URL less its trailing `/` when it ends in one, and the query-free URL itself otherwise |
| `LinkFixer.Suffix` | app.py:120-124 | the kept tail is the URL from its first `?` when it has one, otherwise from its first `#`, and empty when it has neither |
| `LinkFixer.NewUrl` | app.py:116-126 | base, then `.html`, then the suffix; `LinkFixer.NewUrlDiffers`, `LinkFixer.NewUrlKeepsTail` and `LinkFixer.NewUrlDropsFragmentBeforeQuery` state its properties (no contract of its own) |
| `LinkFixer.ShouldFix` | app.py:94-115 | the fix condition: under the prefix, a non-empty clean path that is no directory and whose `.html` file exists; `LinkFixer.FixHtmlLink` states that the callback changes the link exactly when it holds (no contract of its own) |
| `LinkFixer.FixHtmlLink` | app.py:89-129 | the result differs from the match exactly when the URL is under the prefix, its clean path is non-empty and not a directory, and the clean path plus `.html` is a file; the result is then `href=`, the original quote, the new URL, the quote |
| `LinkFixer.HrefTextInjective` | app.py:127 | two link texts with the same quote are equal only if their URLs are |
| `LinkFixer.NewUrlDiffers` | app.py:116-127 | the new URL always differs from the old one, so a fix always changes the text |
| `LinkFixer.NewUrlKeepsTail` | app.py:116-126 | unless a `#` comes before the first `?` (so for URLs with a query, with only a fragment, or with neither), the new URL is the base, then `.html`, then the original query and fragment tail exactly |
| `LinkFixer.NewUrlDropsFragmentBeforeQuery` | app.py:116-126 | when a `#` comes before the first `?`, the new URL keeps only what follows the `?`, turning fragment text into a query, and the original tail is lost |
| `Scanner.Scan` | app.py:60 | the pieces flatten to the text; each piece is a match where the pattern matches at that point of the text and a single character where it does not; every match is well-formed |
| `Scanner.ScanUnique` | app.py:60 | the scan is the only cut of the text that flattens to it and agrees with the pattern at every piece |
| `Scanner.Substitute` | app.py:60-131 | `pattern.sub(callback, text)` at lines 60, 85 and 131: the scan's pieces rendered, each match replaced by the callback's result; `Scanner.Scan`, `Scanner.ScanUnique`, `Scanner.SubstituteKeepsText` and `Scanner.UnmarkedKept` state its properties (no contract of its own) |
| `Scanner.SubstituteKeepsText` | app.py:60 | if the callback returns every match unchanged, the substitution returns the text unchanged |
| `Scanner.UnmarkedKept` | app.py:59-60 | a pass leaves the text unchanged when the text lacks a character that every match the callback would change must contain: `/` for the prefixing passes, `(` for the CSS pass, any character of the prefix for the link pass |
| `Scanner.LinkPassNeedsFiles` | app.py:114-131 | with no file on disk, the link pass changes nothing |
| `Scanner.PrefixPassIgnoresDisk` | app.py:34-85 | the two prefixing passes do not consult the filesystem |
| `Pipeline.ProcessContent` | app.py:24-133 | the domain substitution, the attribute pass and the CSS pass in order, then the link pass only when enabled, each on the previous result; `Pipeline.UntouchedPage`, `Pipeline.FixOffIgnoresDisk`, `Pipeline.NoFilesFixIsNoOp` and `Pipeline.DefaultFixesLink` state its properties (no contract of its own) |
| `Pipeline.UntouchedPage` | app.py:24-133 | a page with neither the old domain nor a `/` comes out unchanged, given a non-empty old domain and a prefix that holds a `/` |
| `Pipeline.FixOffIgnoresDisk` | app.py:88-133 | with the link fix disabled, the result does not depend on the filesystem |
| `Pipeline.NoFilesFixIsNoOp` | app.py:88-131 | with no file on disk, enabling the link fix makes no difference |
| `Pipeline.DefaultFixesLink` | app.py:9-18 | with the shipped settings and a file `a.html`, the text `href='/a'` becomes `href='/download/a.html'`: it gains the prefix, then the extension |

## Left out

- `main`: walking the tree, the `TARGET_EXTENSIONS` filter, reading and
  writing files, and printing. It is I/O, and `process_content` receives only
  the text and the root directory.
- Path building and the filesystem: `os.path.join`, `os.sep`, and the
  `os.path.isdir` and `os.path.isfile` calls. They become membership in a
  `Disk`'s two sets, keyed by the clean relative path. Probe errors are not
  modelled.
- `EXTRA_REPLACEMENTS`: the script declares and prints it, but
  `process_content` never applies it.
- Python's regular-expression engine in general. Each pattern is a
  hand-written matcher.
  - `\s` is the set for which `str.isspace` holds.
  - `re.IGNORECASE` folds ASCII capitals, plus dotted capital I and dotless i
    to `i`, and long s to `s`. These are the only characters that fold to a
    letter the patterns use.
- Idempotence of the whole pipeline. It does not hold, and it is not
  claimed.
  - `Prefixer.CssRewriteNotIdempotent` shows the CSS pass applying twice for
    a prefix with two trailing slashes.
  - After a fix, the link pass probes `x.html.html` on a second run.
- The claim that the output never contains the old domain is not modelled.
  Nothing stops the new domain, or the text around a replacement, from
  spelling the old domain again.
- Suffix precedence in the link fix is the code's. One might expect a
  fragment that comes before the `?` to be kept; the code keeps only `?` and
  what follows it whenever the URL has a `?`, even when a `#` comes first. `LinkFixer.NewUrlKeepsTail` and
  `LinkFixer.NewUrlDropsFragmentBeforeQuery` state both cases.
