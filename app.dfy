/**
 * The request path through the app: the two before-request hooks in their fixed order
 * (redirect tables, then extension stripping), then the routes (English media files,
 * the static folder, and every other path through `find_file_or_redirect`).
 *
 * Everything the app asks of the filesystem, of the request headers and of its
 * `routing` helpers is a field of `Site` or `Request`, so the model says what the app
 * decides from their answers and nothing about how they are computed.
 */
module App {
  import opened Wrappers
  import opened Responses
  import ApplyRedirects
  import StripExtensions
  import opened PythonRe

  /** Prefix of the route serving files from the English media folder. */
  const MediaPrefix: string := "/en/media/"
  /** Prefix of the route Flask adds for the app's static folder. */
  const StaticPrefix: string := "/static/"
  /** The language every fallback search includes. */
  const English: string := "en"

  /**
   * The app's fixed surroundings: its two redirect tables, the template (build) folder,
   * the file test on that folder, and the `routing` helpers it calls. `L` is whatever
   * `get_languages` returns and `V` whatever `get_versions` returns.
   */
  datatype Site<!L, !V> = Site(
    permanent: ApplyRedirects.Table,                      // permanent_redirect_map.get_target
    temporary: ApplyRedirects.Table,                      // redirect_map.get_target
    templateFolder: string,                               // app.template_folder
    isFile: string -> bool,                               // os.path.isfile
    getFile: string -> string,                            // routing.get_file
    getLanguages: seq<string> -> L,                       // TemplateFinder.get_languages
    versions: V,                                          // routing.get_versions(...)
    findAlternatePath: (string, L, V) -> Option<string>)  // TemplateFinder.find_alternate_path

  /** One request: its path and the languages `routing.requested_languages` reads from it. */
  datatype Request = Request(path: string, languages: seq<string>)

  // ---------------------------------------------------------------------------
  // find_file_or_redirect

  /**
   * The preferred-language list after the view's update: `en` is appended when it is
   * missing, and the list is left as it is otherwise.
   */
  function WithEnglish(languages: seq<string>): (r: seq<string>)
    ensures English in r
    ensures languages <= r && |r| <= |languages| + 1
    ensures English in languages ==> |r| == |languages|
  {
    if English in languages then languages else languages + [English]
  }

  /**
   * The catch-all view for `path` (the request path without its leading `/`): render the
   * file `get_file` names if it is a file under the template folder; otherwise redirect
   * (302) to the alternate path found over the preferred languages (with `en`) and the
   * versions; otherwise return nothing.
   */
  function FindFileOrRedirect<L, V>(site: Site<L, V>, req: Request, path: string): (r: Response)
    ensures r.Render? || r.Redirect? || r.NoResponse?
    ensures r.Render? <==> site.isFile(site.templateFolder + site.getFile("/" + path))
    ensures r.Render? ==> r.template == site.getFile("/" + path)
    ensures r.Redirect? ==>
              r.code == Found && r.location != "" &&
              site.findAlternatePath(req.path, site.getLanguages(WithEnglish(req.languages)), site.versions)
                == Some(r.location)
    ensures !site.isFile(site.templateFolder + site.getFile("/" + path)) ==>
              (r.Redirect? <==>
                 ApplyRedirects.Truthy(
                   site.findAlternatePath(req.path, site.getLanguages(WithEnglish(req.languages)), site.versions)))
  {
    var filePath := site.getFile("/" + path);
    var languages := site.getLanguages(WithEnglish(req.languages));
    if site.isFile(site.templateFolder + filePath) then
      Render(filePath)
    else
      var newPath := site.findAlternatePath(req.path, languages, site.versions);
      if ApplyRedirects.Truthy(newPath) then Redirect(newPath.value, Found) else NoResponse
  }

  // ---------------------------------------------------------------------------
  // Routes

  // A `<path:...>` rule with a constant prefix is matched by Werkzeug as the pattern
  // `^prefix([^/].*?)$` under Python's `re` semantics: the argument starts with any
  // character other than `/` (a newline included), goes on over characters other than
  // a newline, and stops at the first position where `$` holds.

  /**
   * The rule's pattern can end at position `p` of `path`: the prefix, then `[^/]`, then
   * `.*?` over `path[|prefix| + 1..p]`, then `$`.
   */
  ghost predicate ArgumentEndsAt(path: string, prefix: string, p: nat) {
    prefix <= path && |prefix| < p <= |path| && path[|prefix|] != '/' &&
    DotStar(path[|prefix| + 1..p]) && DollarAt(path, p)
  }

  /**
   * The rule matches `path` with argument `arg`: the match ends right after `arg`, and, as
   * `.*?` is lazy, at the first position where it can end.
   */
  ghost predicate ArgumentMatch(path: string, prefix: string, arg: string) {
    var p := |prefix| + |arg|;
    ArgumentEndsAt(path, prefix, p) && arg == path[|prefix|..p] &&
    forall q: nat :: |prefix| < q < p ==> !ArgumentEndsAt(path, prefix, q)
  }

  /**
   * The argument a `<path:...>` rule with the given prefix extracts from `path`, or None
   * when the rule does not match: what follows the prefix, less a final newline.
   */
  function PathArgument(path: string, prefix: string): (arg: Option<string>)
    ensures arg.Some? ==> prefix + arg.value <= path && |path| <= |prefix| + |arg.value| + 1
    ensures arg.Some? ==> |arg.value| > 0 && arg.value[0] != '/' && DotStar(arg.value[1..])
  {
    if prefix <= path && |prefix| < |path| && path[|prefix|] != '/' then
      var tail := Subject(path[|prefix| + 1..]);
      if DotStar(tail) then Some([path[|prefix|]] + tail) else None
    else
      None
  }

  /** Whatever `PathArgument` returns is the argument of a match of the rule's pattern. */
  lemma {:induction false} PathArgumentSound(path: string, prefix: string)
    requires PathArgument(path, prefix).Some?
    ensures ArgumentMatch(path, prefix, PathArgument(path, prefix).value)
  {
    var rest := path[|prefix|..];
    var tail := Subject(rest[1..]);
    var arg := PathArgument(path, prefix).value;
    var p := |prefix| + |arg|;
    assert arg == [rest[0]] + tail;
    assert path[|prefix|..p] == arg;
    assert path[|prefix| + 1..p] == tail;
    forall q: nat | |prefix| < q < p
      ensures !ArgumentEndsAt(path, prefix, q)
    {
      if ArgumentEndsAt(path, prefix, q) {
        assert false;
      }
    }
  }

  /** Every match of the rule's pattern is found by `PathArgument`, with the same argument. */
  lemma {:induction false} PathArgumentComplete(path: string, prefix: string, arg: string)
    requires ArgumentMatch(path, prefix, arg)
    ensures PathArgument(path, prefix) == Some(arg)
  {
    var rest := path[|prefix|..];
    var p := |prefix| + |arg|;
    if p == |path| {
      if |rest| >= 2 {
        // the lazy `.*?` did not stop before the last character, so it is not a newline
        assert path[|prefix| + 1..|path| - 1] == path[|prefix| + 1..p][..|path| - 1 - |prefix| - 1];
        assert !ArgumentEndsAt(path, prefix, |path| - 1);
        assert rest[|rest| - 1] != Newline;
      }
      assert Subject(rest[1..]) == rest[1..] == path[|prefix| + 1..p];
      assert arg == [rest[0]] + rest[1..];
    } else {
      assert Subject(rest[1..]) == path[|prefix| + 1..p];
      assert arg == [rest[0]] + path[|prefix| + 1..p];
    }
  }

  /** `PathArgument` agrees with the rule's pattern in both directions. */
  lemma PathArgumentSpec(path: string, prefix: string)
    ensures forall arg :: PathArgument(path, prefix) == Some(arg) <==> ArgumentMatch(path, prefix, arg)
    ensures PathArgument(path, prefix).None? <==> forall arg :: !ArgumentMatch(path, prefix, arg)
  {
    if PathArgument(path, prefix).Some? {
      PathArgumentSound(path, prefix);
    }
    forall arg | ArgumentMatch(path, prefix, arg)
      ensures PathArgument(path, prefix) == Some(arg)
    {
      PathArgumentComplete(path, prefix, arg);
    }
  }

  /**
   * The view the URL map picks: the more specific prefixes first, then the catch-all
   * `/<path:path>`; a path none of them accepts is not found.
   */
  function Route<L, V>(site: Site<L, V>, req: Request): (r: Response)
    ensures r.NotFound? <==>
              PathArgument(req.path, MediaPrefix).None? && PathArgument(req.path, StaticPrefix).None? &&
              PathArgument(req.path, "/").None?
    ensures r.SendMedia? ==> MediaPrefix + r.filename <= req.path
    ensures r.SendStatic? ==> StaticPrefix + r.filename <= req.path
    ensures r.Redirect? ==> r.code == Found
    ensures PathArgument(req.path, MediaPrefix).Some? ==>
              r == SendMedia(PathArgument(req.path, MediaPrefix).value)
    ensures PathArgument(req.path, MediaPrefix).None? && PathArgument(req.path, StaticPrefix).Some? ==>
              r == SendStatic(PathArgument(req.path, StaticPrefix).value)
    ensures PathArgument(req.path, MediaPrefix).None? && PathArgument(req.path, StaticPrefix).None? &&
            PathArgument(req.path, "/").Some? ==>
              r == FindFileOrRedirect(site, req, PathArgument(req.path, "/").value)
  {
    match PathArgument(req.path, MediaPrefix)
    case Some(filename) => SendMedia(filename)
    case None =>
      match PathArgument(req.path, StaticPrefix)
      case Some(filename) => SendStatic(filename)
      case None =>
        match PathArgument(req.path, "/")
        case Some(path) => FindFileOrRedirect(site, req, path)
        case None => NotFound
  }

  // ---------------------------------------------------------------------------
  // The whole request

  /**
   * A request: the redirect tables decide first; if they do not, extension stripping
   * decides; only if neither produced a response is the request routed to a view.
   */
  function Handle<L, V>(site: Site<L, V>, req: Request): (r: Response)
    ensures r.Redirect? ==> r.code == MovedPermanently || r.code == Found
    ensures ApplyRedirects.Apply(site.permanent, site.temporary, req.path).Some? ==>
              r == ApplyRedirects.Apply(site.permanent, site.temporary, req.path).value
    ensures ApplyRedirects.Apply(site.permanent, site.temporary, req.path).None? &&
            StripExtensions.Strip(req.path).Some? ==>
              r == StripExtensions.Strip(req.path).value
    ensures ApplyRedirects.Apply(site.permanent, site.temporary, req.path).None? &&
            StripExtensions.Strip(req.path).None? ==>
              r == Route(site, req)
    ensures !r.Redirect? ==>
              ApplyRedirects.Apply(site.permanent, site.temporary, req.path).None? &&
              StripExtensions.Strip(req.path).None?
  {
    match ApplyRedirects.Apply(site.permanent, site.temporary, req.path)
    case Some(response) => response
    case None =>
      match StripExtensions.Strip(req.path)
      case Some(response) => response
      case None => Route(site, req)
  }

  // ---------------------------------------------------------------------------
  // Properties

  /** Adding `en` is idempotent: a list that went through the update is not changed again. */
  lemma WithEnglishIdempotent(languages: seq<string>)
    ensures WithEnglish(WithEnglish(languages)) == WithEnglish(languages)
  {
  }

  /** `en` is appended at the end, after every language the request asked for. */
  lemma {:induction false} WithEnglishAppends(languages: seq<string>)
    ensures English !in languages ==> WithEnglish(languages) == languages + [English]
    ensures English in languages ==> WithEnglish(languages) == languages
  {
    var r := WithEnglish(languages);
    if English !in languages {
      assert r[..|languages|] == languages;
      assert r == r[..|languages|] + [r[|languages|]];
    }
  }

  /**
   * The requested languages matter only through the updated list: a request that asks
   * for `fr` is answered as one that asks for `fr` and then `en`.
   */
  lemma {:induction false} OnlyUpdatedLanguagesMatter<L, V>(site: Site<L, V>, req: Request, other: seq<string>, path: string)
    requires WithEnglish(req.languages) == WithEnglish(other)
    ensures FindFileOrRedirect(site, req, path) == FindFileOrRedirect(site, req.(languages := other), path)
  {
  }

  /**
   * A request that does not ask for `en` is answered exactly as the same request asking
   * for the same languages and then `en`.
   */
  lemma AppendingEnglishChangesNothing<L, V>(site: Site<L, V>, path: string, languages: seq<string>)
    requires English !in languages
    ensures Handle(site, Request(path, languages)) == Handle(site, Request(path, languages + [English]))
  {
    WithEnglishAppends(languages);
    WithEnglishAppends(languages + [English]);
    match PathArgument(path, "/")
    case Some(arg) => OnlyUpdatedLanguagesMatter(site, Request(path, languages), languages + [English], arg);
    case None =>
  }

  /** A file that exists is rendered whatever languages were asked for and whatever the alternate search would find. */
  lemma ExistingFileIsRendered<L, V>(site: Site<L, V>, req: Request, path: string)
    requires site.isFile(site.templateFolder + site.getFile("/" + path))
    ensures FindFileOrRedirect(site, req, path) == Render(site.getFile("/" + path))
  {
  }

  /**
   * A request reaches the routes, and so a view (including the catch-all's 302 redirect),
   * exactly when neither redirect table has a target for its path and neither stripping
   * pattern matches it; every response that is not a redirect is of that kind.
   */
  lemma {:induction false} RoutedPathsAreCanonical<L, V>(site: Site<L, V>, req: Request)
    ensures (ApplyRedirects.Apply(site.permanent, site.temporary, req.path).None? &&
             StripExtensions.Strip(req.path).None?)
            <==>
            (!ApplyRedirects.Truthy(site.permanent(req.path)) && !ApplyRedirects.Truthy(site.temporary(req.path)) &&
             forall g :: !StripExtensions.IndexMatch(req.path, g) && !StripExtensions.HtmlMatch(req.path, g))
    ensures (!ApplyRedirects.Truthy(site.permanent(req.path)) && !ApplyRedirects.Truthy(site.temporary(req.path)) &&
             forall g :: !StripExtensions.IndexMatch(req.path, g) && !StripExtensions.HtmlMatch(req.path, g))
            ==> Handle(site, req) == Route(site, req)
    ensures !Handle(site, req).Redirect? ==>
              !ApplyRedirects.Truthy(site.permanent(req.path)) && !ApplyRedirects.Truthy(site.temporary(req.path)) &&
              forall g :: !StripExtensions.IndexMatch(req.path, g) && !StripExtensions.HtmlMatch(req.path, g)
  {
    StripExtensions.NoneCase(req.path);
  }

  /**
   * For a path without a newline, the rules' patterns reduce to prefix tests: the path is
   * not found exactly when it is not `/` followed by a character other than `/`.
   */
  lemma {:induction false} NewlineFreeNotFound<L, V>(site: Site<L, V>, req: Request)
    requires DotStar(req.path)
    ensures Route(site, req).NotFound? <==> !(|req.path| >= 2 && req.path[0] == '/' && req.path[1] != '/')
  {
    var p := req.path;
    if |p| >= 2 && p[0] == '/' && p[1] != '/' {
      assert p[..1] == "/";
      assert Subject(p[2..]) == p[2..];
    }
  }

  /**
   * A media file whose name ends in `.html` (after a character other than `/`) is never
   * sent, unless the name starts with a newline: if the rest of the name holds no newline,
   * extension stripping redirects its path first; if it holds one, the media rule's `.*?`
   * does not match it.
   */
  lemma {:induction false} MediaHtmlNeverSent<L, V>(site: Site<L, V>, req: Request, name: string)
    requires req.path == MediaPrefix + name + ".html"
    requires |name| > 0 && name[|name| - 1] != '/' && name[0] != Newline
    ensures !Handle(site, req).SendMedia?
  {
    var g := MediaPrefix + name;
    var p := req.path;
    var stem := name[..|name| - 1];
    if DotStar(stem) {
      assert p[..|g|] == g && p[|g| + 1..] == "html" && p[|g|] == '.';
      assert g[..|g| - 1] == MediaPrefix + stem;
      assert StripExtensions.HtmlMatchAt(p, g, |p|);
      StripExtensions.NoneCase(p);
    } else {
      var i :| 0 <= i < |stem| && stem[i] == Newline;
      assert i > 0;
      var rest := p[|MediaPrefix| + 1..];
      assert rest == name[1..] + ".html";
      assert rest[i - 1] == Newline;
      assert Subject(rest) == rest;
    }
  }

  /**
   * The media rule's argument and Python's newline rules: a name with a newline after its
   * first character is refused, a name starting with a newline is accepted (`[^/]` takes
   * it), and a final newline is left out of the argument (`$` holds before it).
   */
  lemma MediaArgumentNewlines()
    ensures PathArgument("/en/media/a\nb.html", MediaPrefix).None?
    ensures PathArgument("/en/media/\nb.html", MediaPrefix) == Some("\nb.html")
    ensures PathArgument("/en/media/a.txt\n", MediaPrefix) == Some("a.txt")
    ensures PathArgument("/en/media/\n", MediaPrefix) == Some("\n")
  {
    var p := "/en/media/a\nb.html";
    assert p[..|MediaPrefix|] == MediaPrefix;
    assert p[|MediaPrefix| + 1..][0] == Newline;
    var q := "/en/media/\nb.html";
    assert q[..|MediaPrefix|] == MediaPrefix;
    assert Subject(q[|MediaPrefix| + 1..]) == "b.html";
    assert [q[|MediaPrefix|]] + "b.html" == "\nb.html";
    var t := "/en/media/a.txt\n";
    assert t[..|MediaPrefix|] == MediaPrefix;
    assert Subject(t[|MediaPrefix| + 1..]) == ".txt";
    assert [t[|MediaPrefix|]] + ".txt" == "a.txt";
    var u := "/en/media/\n";
    assert u[..|MediaPrefix|] == MediaPrefix;
    assert Subject(u[|MediaPrefix| + 1..]) == "";
    assert [u[|MediaPrefix|]] + "" == "\n";
  }

  /** No rule accepts `/en/media/a\nb.html`: the `.*?` of each one stops at the newline. */
  lemma MediaNewlineUnrouted()
    ensures PathArgument("/en/media/a\nb.html", MediaPrefix).None?
    ensures PathArgument("/en/media/a\nb.html", StaticPrefix).None?
    ensures PathArgument("/en/media/a\nb.html", "/").None?
  {
    var p := "/en/media/a\nb.html";
    MediaArgumentNewlines();
    assert p[..|StaticPrefix|][1] != StaticPrefix[1];
    assert Subject(p[2..]) == p[2..];
    assert p[2..][9] == Newline;
  }

  /**
   * A newline inside a media name ending in `.html` stops every pattern: the html pattern's
   * `.*` and the `.*?` of the media rule and of the catch-all do not consume it, so the
   * request is not found when the tables have nothing for it.
   */
  lemma MediaNewlineNotFound<L, V>(site: Site<L, V>, languages: seq<string>)
    requires !ApplyRedirects.Truthy(site.permanent("/en/media/a\nb.html"))
    requires !ApplyRedirects.Truthy(site.temporary("/en/media/a\nb.html"))
    ensures Handle(site, Request("/en/media/a\nb.html", languages)) == NotFound
  {
    var p := "/en/media/a\nb.html";
    assert StripExtensions.Strip(p).None? by {
      assert Subject(p) == p;
      assert p[..|p| - 6][11] == Newline;
      assert p[|p| - 5..][0] == '.';
    }
    MediaNewlineUnrouted();
  }

  /**
   * A media name that starts with a newline and ends in `.html` escapes the html pattern
   * (its `.*` cannot consume the newline) and is accepted by the media rule, so the file is
   * sent when the tables have nothing for the path.
   */
  lemma MediaLeadingNewlineHtmlSent<L, V>(site: Site<L, V>, languages: seq<string>)
    requires !ApplyRedirects.Truthy(site.permanent("/en/media/\nb.html"))
    requires !ApplyRedirects.Truthy(site.temporary("/en/media/\nb.html"))
    ensures Handle(site, Request("/en/media/\nb.html", languages)) == SendMedia("\nb.html")
  {
    var p := "/en/media/\nb.html";
    assert StripExtensions.Strip(p).None? by {
      assert Subject(p) == p;
      assert p[..|p| - 6][10] == Newline;
      assert p[|p| - 5..][0] == '.';
    }
    MediaArgumentNewlines();
  }

  /**
   * The redirect tables come before extension stripping: a path that a table redirects
   * is redirected there even when stripping would have redirected it elsewhere.
   */
  lemma TablesBeforeStripping<L, V>(site: Site<L, V>, req: Request, target: string)
    requires site.permanent(req.path) == Some(target) && target != ""
    ensures Handle(site, req) == Redirect(target, MovedPermanently)
  {
  }
}
