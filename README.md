# Documentation server request pipeline, in Dafny

This project models how the documentation server in `app.py` answers one request. The server
is a small Flask app that serves pre-built documentation pages. For every request path it
does the following:

1. **Redirect tables** (`apply_redirects`). The permanent table is asked first. A hit gives a
   301 redirect. The temporary table is asked only when the permanent one has nothing, and a
   hit there gives Flask's default 302.
2. **Extension stripping** (`strip_extensions`). A path that matches `^(.*/)index(.html)?$`
   is redirected (301) to group 1, the prefix through the `/` before `index`. Failing that,
   a path that matches `^(.*[^/]).html$` is redirected (301) to its group 1. Failing both,
   the request goes on.
3. **Routing.** `/en/media/<path:filename>` sends a file from the English media folder.
   Flask's own `/static/<path:filename>` sends a file from the static folder. Every other
   `/<path:path>` goes to `find_file_or_redirect`. That view first appends `en` to the
   requested languages if it is missing. It then renders the page when the file exists under
   the build folder. Otherwise it redirects (302) to an alternate path (another language or
   version) when one is found. Otherwise it returns nothing.

Files:

- `wrappers.dfy`: `Option`, which stands for a value or Python's `None`.
- `python_re.dfy`: the parts of Python's `re` semantics that the patterns depend on.
- `responses.dfy`: the responses a request can end in.
- `strip_extensions.dfy`: the two patterns, with Python `re` semantics written out. Each
  pattern has a ghost predicate shaped like the regular expression and a function that
  finds group 1 from the end of the path. Lemmas prove that the two agree in both
  directions.
- `redirects.dfy`: the two redirect tables and their precedence.
- `app.dfy`: the language-list update, the catch-all view, the routes with their path
  arguments, and the whole request (`Handle`).

The model reproduces the patterns exactly as written, with no fixes:

- The `.` before `html` is not escaped. Any character other than a newline can stand there,
  so `/fooxhtml` redirects to `/foo` and `/a/indexxhtml` redirects to `/a/`.
- `.` and `.*` never consume a newline, but `[^/]` does.
- `$` also matches just before a newline that ends the path. So `/a.html\n` redirects to
  `/a` (lemma `NewlineEdges`).

The docstring of `strip_extensions` (app.py:62) says it removes `.html` and `index.html`.
The code's patterns remove any character followed by `html`. The model follows the code.

A catch-all view that finds neither the file nor an alternate path returns `None`. Flask
treats a view that returns `None` as an error, not as "not found". The model therefore
keeps `NoResponse` (the view returned nothing) apart from `NotFound` (no route matched).

Outside knowledge of the framework:

- `if url:` is Python's truth test, so an empty target string counts as no redirect.
- Werkzeug matches a `<path:...>` rule with the pattern `[^/].*?` for the argument, followed
  by `$`, compiled without `DOTALL`. The argument therefore starts with any character other
  than `/` (a newline included). After that it holds no newline, and it leaves out a newline
  that ends the path. So `/en/media/a\nb.html` is not found (lemma `MediaNewlineNotFound`),
  while `/en/media/\nb.html` is sent (lemma `MediaLeadingNewlineHtmlSent`).
- The more specific routes are tried before the catch-all.

## Model

| member | source | states |
|---|---|---|
| StripExtensions.IndexGroupSpec | app.py:65 | The index matcher returns `Some(g)` exactly when `^(.*/)index(.html)?$` matches with group 1 equal to `g`, with `.` excluding newlines and `$` allowed before a final newline (both directions). |
| StripExtensions.IndexGroupSound | app.py:65 | Whatever the index matcher returns is group 1 of a match of `^(.*/)index(.html)?$` under Python's `re` semantics. |
| StripExtensions.IndexGroupComplete | app.py:65 | Every match of `^(.*/)index(.html)?$` is found by the index matcher, with the same group 1; group 1 is therefore unique. |
| StripExtensions.HtmlGroupSound | app.py:66 | Whatever the html matcher returns is group 1 of a match of `^(.*[^/]).html$`. |
| StripExtensions.HtmlGroupComplete | app.py:66 | Every match of `^(.*[^/]).html$` is found by the html matcher, with the same group 1. |
| StripExtensions.HtmlGroupSpec | app.py:66 | The html matcher returns `Some(g)` exactly when `^(.*[^/]).html$` matches with group 1 equal to `g` (both directions). |
| StripExtensions.Strip | app.py:59-71 | The hook's response is either none or a 301 redirect, and its target is always a proper prefix of the path, so a chain of stripping redirects ends. |
| StripExtensions.IndexCase | app.py:68-69 | Whenever the index pattern matches, the result is a 301 to group 1. Group 1 is a proper prefix of the path and ends in `/`. This holds even when the html pattern also matches. |
| StripExtensions.IndexSuffixes | app.py:65 | A prefix ending in `/` (with no newline) followed by `index`, or by `index`, any one non-newline character and `html`, redirects (301) to that prefix. |
| StripExtensions.HtmlCase | app.py:70-71 | When only the html pattern matches, the result is a 301 to group 1. Group 1 is non-empty, does not end in `/`, and is the path minus its last 5 characters (after dropping a final newline). |
| StripExtensions.BothMatch | app.py:68-71 | When both patterns match, the index group wins, and the html group would have been the index group followed by `index`: `/a/index.html` goes to `/a/`, never `/a/index`. |
| StripExtensions.NoneCase | app.py:59-71 | The hook produces no response exactly when neither pattern matches the path with any group. |
| StripExtensions.IndexTargetIsFinal | app.py:65-71 | The target of an index redirect triggers no further stripping redirect. |
| StripExtensions.HtmlTargetMayRedirect | app.py:66-71 | The target of an html redirect can be stripped again (`/a.html.html` goes to `/a.html`, then to `/a`, then stops). |
| StripExtensions.UnescapedDotHtml | app.py:66 | The unescaped dot of the html pattern matches any character: `/fooxhtml` goes to `/foo`. |
| StripExtensions.UnescapedDotIndex | app.py:65 | The unescaped dot of the index pattern matches any character: `/a/indexxhtml` and `/a/index.html` both go to `/a/`. |
| StripExtensions.NewlineEdges | app.py:65-66 | The newline cases of Python's `re`: `[^/]` accepts a newline, `$` skips a final one, and `.*` rejects one inside the index group. |
| ApplyRedirects.Apply | app.py:40-56 | A result exists exactly when either table has a non-empty target. The code is 301 exactly when the permanent table has one, and the target is then that table's. Otherwise the result is a 302 to the temporary table's target. |
| ApplyRedirects.PermanentShadowsTemporary | app.py:48-52 | When the permanent table has a target, the temporary table is never asked: replacing it does not change the result. |
| ApplyRedirects.EmptyTargetIsNoEntry | app.py:51-56 | An empty target in the permanent table behaves as no entry, and the temporary table decides. |
| App.WithEnglish | app.py:91-93 | The updated list contains `en`, extends the requested list, and is at most one longer. It has the same length when `en` was already present. |
| App.WithEnglishAppends | app.py:92-93 | If `en` was absent, the list becomes the old list with `en` appended at the end. If it was present, the list is unchanged. |
| App.WithEnglishIdempotent | app.py:92-93 | Applying the update twice is the same as applying it once. |
| App.FindFileOrRedirect | app.py:82-109 | The view renders exactly when the file `get_file` names exists under the build folder, and then renders that file. Otherwise it redirects (302) exactly when the alternate-path search over the updated language list finds a non-empty path, and the target is that path. Otherwise it returns nothing. |
| App.OnlyUpdatedLanguagesMatter | app.py:91-94 | The view depends on the requested languages only through the updated list. |
| App.AppendingEnglishChangesNothing | app.py:91-94 | A request whose languages do not include `en` is answered exactly like the same request with `en` appended to its languages. |
| App.ExistingFileIsRendered | app.py:99-100 | An existing file is rendered whatever the languages and the alternate-path search would give. |
| App.PathArgument | app.py:72-80 | An argument a `<path:...>` rule extracts follows the prefix in the path, and at most one character (a final newline) comes after it. It is non-empty, does not start with `/`, and holds no newline after its first character. |
| App.PathArgumentSound | app.py:72-80 | Whatever `PathArgument` returns is the argument of a match of `prefix([^/].*?)$` under Python's `re` semantics, with the lazy `.*?` stopping at the first position where `$` holds. |
| App.PathArgumentComplete | app.py:72-80 | Every match of `prefix([^/].*?)$` is found by `PathArgument`, with the same argument. |
| App.PathArgumentSpec | app.py:72-80 | `PathArgument` returns an argument exactly when the rule's pattern matches with that argument, and none exactly when the pattern does not match (both directions). |
| App.Route | app.py:72-81 | A path accepted by the media rule is sent from the media folder, under the rule's argument. Otherwise a path accepted by the static rule is sent from the static folder. Otherwise a path accepted by `/<path:path>` is answered by the catch-all view on that rule's argument. The result is not found exactly when none of the three rules accepts the path. |
| App.NewlineFreeNotFound | app.py:72-81 | For a path without a newline, the routes answer not found exactly when the path is not `/` followed by a character other than `/`. |
| App.MediaArgumentNewlines | app.py:72 | The media rule refuses `a\nb.html`, accepts `\nb.html` and `\n`, and takes `a.txt` from `a.txt\n`. |
| App.MediaNewlineUnrouted | app.py:72-80 | No rule accepts `/en/media/a\nb.html`. |
| App.Handle | app.py:35-83 | A redirect-table response wins. Otherwise a stripping response wins. When neither hook responds, the path goes unchanged to the routes and their answer is the response. Any non-redirect outcome means both hooks produced nothing. Every redirect is a 301 or a 302. |
| App.RoutedPathsAreCanonical | app.py:35-71 | Both hooks pass a request on exactly when neither table has a target for its path and neither stripping pattern matches it. Such a request is answered by the routes, including the catch-all's 302 redirects. Every non-redirect response is for such a path. |
| App.MediaHtmlNeverSent | app.py:59-77 | A media file named `x.html` is never sent when `x` is non-empty, ends in a character other than `/`, and does not start with a newline. Either stripping redirects its path first, or a newline in `x` stops the media rule. |
| App.MediaNewlineNotFound | app.py:59-81 | `/en/media/a\nb.html` is not found when the tables have no target for it. Neither the html pattern nor any rule consumes the newline. |
| App.MediaLeadingNewlineHtmlSent | app.py:59-77 | `/en/media/\nb.html` escapes the html pattern but is accepted by the media rule. It is sent when the tables have no target for it, so `MediaHtmlNeverSent` needs its condition on the first character. |
| App.TablesBeforeStripping | app.py:35-56 | A permanent-table hit is the response even for paths that stripping would redirect elsewhere. |

## Left out

- Flask app construction, configuration, `ProxyFix` and the loading of the YAML redirect files (app.py:13-32): framework setup without decisions.
- `YamlRegexMap.get_target`, `routing.get_file`, `routing.requested_languages`, `TemplateFinder.get_languages`, `TemplateFinder.find_alternate_path` and `routing.get_versions`: the `routing` module is not part of this model. Each is a field of `Site` or `Request`: any function of its inputs, or any value.
- `os.path.isfile` on the build folder: a boolean oracle on the concatenated path.
- `send_from_directory` and `render_template`: file I/O and templating. They appear only as the outcomes `SendMedia`, `SendStatic` and `Render`.
- HTTP response objects beyond the redirect target and status code. This includes the error response Flask produces when a view returns `None`, which the model keeps as `NoResponse`.
- App.Route: Werkzeug's URL matching is modelled only through each rule's pattern on the request path. Its normalisation of leading slashes, and any redirect it issues for a rule, are not modelled.
- App.FindFileOrRedirect: the in-place `append` to the language list is modelled as a new list (`WithEnglish`). Apart from `get_languages` (app.py:94), which the model gives the updated list, no later code in app.py reads it. Whether `routing.requested_languages` shares it with anything else cannot be seen, so any such aliasing is not captured.
- The HTTP method: the model assumes a GET (or HEAD) request. The hooks run for every method, but Werkzeug's URL map answers other methods on these rules with 405 and answers OPTIONS itself.
