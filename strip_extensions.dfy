// The `strip_extensions` hook: the two patterns
//
//   index pattern   ^(.*/)index(.html)?$
//   html pattern    ^(.*[^/]).html$
//
// tried with Python's `re.match` and no flags (see `PythonRe`: `.` never matches a
// newline, `[^/]` does, and `$` also holds before a final newline).
// The dot before `html` is not escaped: it stands for any one character, not only `.`.
//
// Each pattern is given twice: a ghost predicate that follows the pattern's structure
// (which group consumes which part of the path, and where `$` holds), and a function
// that finds group 1 by looking at the end of the path. The lemmas `IndexGroupSpec` and
// `HtmlGroupSpec` show that the two agree.
module StripExtensions {
  import opened Wrappers
  import opened Responses
  import opened PythonRe

  // ---------------------------------------------------------------------------
  // Reference definitions: the patterns read structurally

  /** What `index(.html)?` consumes. */
  predicate IndexTail(t: string) {
    t == "index" || (|t| == 10 && t[..5] == "index" && t[5] != Newline && t[6..] == "html")
  }

  // The index pattern matches `s`, ending at `p`, with group 1 (the `(.*/)` part) equal to `g`.
  ghost predicate IndexMatchAt(s: string, g: string, p: nat) {
    p <= |s| && DollarAt(s, p) &&
    1 <= |g| <= p && g == s[..|g|] &&
    DotStar(g[..|g| - 1]) && g[|g| - 1] == '/' &&
    IndexTail(s[|g|..p])
  }

  /** The index pattern matches `s` with group 1 equal to `g`. */
  ghost predicate IndexMatch(s: string, g: string) {
    IndexMatchAt(s, g, |s|) || (|s| > 0 && IndexMatchAt(s, g, |s| - 1))
  }

  /** `^(.*[^/]).html$` matches `s`, ending at `p`, with group 1 equal to `g`. */
  ghost predicate HtmlMatchAt(s: string, g: string, p: nat) {
    p <= |s| && DollarAt(s, p) &&
    1 <= |g| && |g| + 5 == p && g == s[..|g|] &&
    DotStar(g[..|g| - 1]) && g[|g| - 1] != '/' &&
    s[|g|] != Newline && s[|g| + 1..p] == "html"
  }

  /** The html pattern matches `s` with group 1 equal to `g`. */
  ghost predicate HtmlMatch(s: string, g: string) {
    HtmlMatchAt(s, g, |s|) || (|s| > 0 && HtmlMatchAt(s, g, |s| - 1))
  }

  // ---------------------------------------------------------------------------
  // The matcher: group 1 found from the end of the path

  /** Group 1 of the index pattern on `s`, or None when it does not match. */
  function IndexGroup(s: string): Option<string> {
    var b := Subject(s);
    var n := |b|;
    if n >= 6 && b[n - 5..] == "index" && b[n - 6] == '/' && DotStar(b[..n - 6]) then
      Some(b[..n - 5])
    else if n >= 11 && b[n - 10..n - 5] == "index" && b[n - 5] != Newline && b[n - 4..] == "html"
            && b[n - 11] == '/' && DotStar(b[..n - 11]) then
      Some(b[..n - 10])
    else
      None
  }

  /** Group 1 of the html pattern on `s`, or None when it does not match. */
  function HtmlGroup(s: string): Option<string> {
    var b := Subject(s);
    var n := |b|;
    if n >= 6 && b[n - 5] != Newline && b[n - 4..] == "html" && b[n - 6] != '/' && DotStar(b[..n - 6]) then
      Some(b[..n - 5])
    else
      None
  }

  /**
   * The hook: a 301 redirect to group 1 of the index pattern if it matches, else to
   * group 1 of the html pattern if that matches, else no response (the request goes on).
   * A redirect always goes to a proper prefix of the path, so a chain of these
   * redirects is finite.
   */
  function Strip(path: string): (r: Option<Response>)
    ensures r.Some? ==> r.value.Redirect? && r.value.code == MovedPermanently
    ensures r.Some? ==> r.value.location < path
  {
    match IndexGroup(path)
    case Some(g) => Some(Redirect(g, MovedPermanently))
    case None =>
      match HtmlGroup(path)
      case Some(g) => Some(Redirect(g, MovedPermanently))
      case None => None
  }

  // ---------------------------------------------------------------------------
  // The matcher agrees with the reference definitions

  /** A pattern whose last character is `last` cannot end at a newline. */
  lemma {:induction false} NoMatchEndsAtNewline(s: string, p: nat, last: char)
    requires 1 <= p <= |s| && DollarAt(s, p) && s[p - 1] == last && last != Newline
    ensures p == |Subject(s)|
  {
    if p + 1 == |s| {
      assert s[p] == Newline;
    } else {
      assert p == |s|;
      assert s[|s| - 1] != Newline;
    }
  }

  /** What the index matcher returns is a match of the index pattern. */
  lemma {:induction false} IndexGroupSound(s: string, g: string)
    requires IndexGroup(s) == Some(g)
    ensures IndexMatch(s, g)
  {
    var b := Subject(s);
    var n := |b|;
    assert b == s[..n];
    assert DollarAt(s, n);
    if n >= 6 && b[n - 5..] == "index" && b[n - 6] == '/' && DotStar(b[..n - 6]) {
      assert g == b[..n - 5];
      assert g[..|g| - 1] == b[..n - 6];
      assert s[|g|..n] == b[n - 5..];
      assert IndexMatchAt(s, g, n);
    } else {
      assert g == b[..n - 10];
      assert g[..|g| - 1] == b[..n - 11];
      var t := s[|g|..n];
      assert t == b[n - 10..];
      assert t[..5] == b[n - 10..n - 5] && t[6..] == b[n - 4..];
      assert IndexMatchAt(s, g, n);
    }
  }

  /** A match of the index pattern without the optional group is found by the index matcher. */
  lemma {:induction false} IndexGroupCompleteShort(s: string, g: string, p: nat)
    requires IndexMatchAt(s, g, p) && s[|g|..p] == "index"
    ensures IndexGroup(s) == Some(g)
  {
    var t := s[|g|..p];
    assert p == |g| + 5;
    assert s[p - 1] == t[4] == 'x';
    NoMatchEndsAtNewline(s, p, 'x');
    var b := Subject(s);
    var n := |b|;
    assert b == s[..p];
    assert b[n - 5..] == t;
    assert b[..n - 5] == g;
    assert b[n - 6] == g[|g| - 1];
    assert b[..n - 6] == g[..|g| - 1];
  }

  /** A match of the index pattern with the optional group `(.html)` is found by the index matcher. */
  lemma {:induction false} IndexGroupCompleteLong(s: string, g: string, p: nat)
    requires IndexMatchAt(s, g, p) && |s[|g|..p]| == 10
    ensures IndexGroup(s) == Some(g)
  {
    var t := s[|g|..p];
    assert p == |g| + 10;
    assert t[..5] == "index" && t[5] != Newline && t[6..] == "html";
    assert s[p - 1] == t[9] == t[6..][3] == 'l';
    NoMatchEndsAtNewline(s, p, 'l');
    var b := Subject(s);
    var n := |b|;
    assert b == s[..p];
    assert b[n - 10..] == t;
    assert b[n - 10..n - 5] == t[..5];
    assert b[n - 5] == t[5];
    assert b[n - 4..] == t[6..];
    assert b[..n - 10] == g;
    assert b[n - 11] == g[|g| - 1];
    assert b[..n - 11] == g[..|g| - 1];
    assert b[n - 5..][4] == 'l' != "index"[4];
  }

  /** Every match of the index pattern is found by the index matcher, with the same group 1. */
  lemma IndexGroupComplete(s: string, g: string)
    requires IndexMatch(s, g)
    ensures IndexGroup(s) == Some(g)
  {
    var p := if IndexMatchAt(s, g, |s|) then |s| else |s| - 1;
    assert IndexMatchAt(s, g, p);
    if s[|g|..p] == "index" {
      IndexGroupCompleteShort(s, g, p);
    } else {
      IndexGroupCompleteLong(s, g, p);
    }
  }

  /** The index matcher returns exactly the group 1 the pattern defines. */
  lemma IndexGroupSpec(s: string, g: string)
    ensures IndexGroup(s) == Some(g) <==> IndexMatch(s, g)
  {
    if IndexGroup(s) == Some(g) {
      IndexGroupSound(s, g);
    }
    if IndexMatch(s, g) {
      IndexGroupComplete(s, g);
    }
  }

  /** What the html matcher returns is a match of the html pattern. */
  lemma {:induction false} HtmlGroupSound(s: string, g: string)
    requires HtmlGroup(s) == Some(g)
    ensures HtmlMatch(s, g)
  {
    var b := Subject(s);
    var n := |b|;
    assert b == s[..n];
    assert DollarAt(s, n);
    assert g == b[..n - 5];
    assert g[..|g| - 1] == b[..n - 6];
    assert s[|g| + 1..n] == b[n - 4..];
    assert HtmlMatchAt(s, g, n);
  }

  /** Every match of the html pattern is found by the html matcher, with the same group 1. */
  lemma {:induction false} HtmlGroupComplete(s: string, g: string)
    requires HtmlMatch(s, g)
    ensures HtmlGroup(s) == Some(g)
  {
    var b := Subject(s);
    var n := |b|;
    var p := if HtmlMatchAt(s, g, |s|) then |s| else |s| - 1;
    assert HtmlMatchAt(s, g, p);
    assert s[p - 1] == 'l' by {
      assert s[|g| + 1..p][3] == 'l';
    }
    NoMatchEndsAtNewline(s, p, 'l');
    assert b == s[..p];
    assert b[n - 4..] == s[|g| + 1..p];
    assert b[..n - 5] == g;
    assert b[n - 6] == g[|g| - 1];
    assert b[..n - 6] == g[..|g| - 1];
  }

  /** The html matcher returns exactly the group 1 the pattern defines. */
  lemma HtmlGroupSpec(s: string, g: string)
    ensures HtmlGroup(s) == Some(g) <==> HtmlMatch(s, g)
  {
    if HtmlGroup(s) == Some(g) {
      HtmlGroupSound(s, g);
    }
    if HtmlMatch(s, g) {
      HtmlGroupComplete(s, g);
    }
  }

  // ---------------------------------------------------------------------------
  // Properties of the hook

  /**
   * Whenever the index pattern matches, the hook redirects (301) to its group 1,
   * the prefix through the `/` before `index`. This holds even when the html pattern
   * matches too: `/a/index.html` goes to `/a/`, not to `/a/index`.
   */
  lemma IndexCase(path: string, g: string)
    requires IndexMatch(path, g)
    ensures Strip(path) == Some(Redirect(g, MovedPermanently))
    ensures g < path && g[|g| - 1] == '/'
  {
    IndexGroupSpec(path, g);
  }

  /**
   * A path made of a prefix ending in `/` followed by `index`, or by `index`, any one
   * character but a newline, and `html`, is redirected (301) to that prefix.
   */
  lemma IndexSuffixes(g: string, c: char)
    requires |g| >= 1 && g[|g| - 1] == '/' && DotStar(g) && c != Newline
    ensures Strip(g + "index") == Some(Redirect(g, MovedPermanently))
    ensures Strip(g + "index" + [c] + "html") == Some(Redirect(g, MovedPermanently))
  {
    var s1 := g + "index";
    assert g[..|g| - 1] <= g;
    assert s1[..|g|] == g && s1[|g|..|s1|] == "index";
    assert IndexMatchAt(s1, g, |s1|);
    IndexCase(s1, g);
    var s2 := g + "index" + [c] + "html";
    var t := s2[|g|..|s2|];
    assert s2[..|g|] == g && t == "index" + [c] + "html";
    assert t[..5] == "index" && t[5] == c && t[6..] == "html";
    assert IndexMatchAt(s2, g, |s2|);
    IndexCase(s2, g);
  }

  /**
   * When the index pattern does not match and the html pattern does, the hook redirects
   * (301) to group 1: a non-empty prefix not ending in `/`, which is the path without its
   * last five characters (six when the path ends in a newline).
   */
  lemma HtmlCase(path: string, g: string)
    requires forall h :: !IndexMatch(path, h)
    requires HtmlMatch(path, g)
    ensures Strip(path) == Some(Redirect(g, MovedPermanently))
    ensures g != [] && g[|g| - 1] != '/' && g < path
    ensures g == Subject(path)[..|Subject(path)| - 5]
  {
    HtmlGroupSpec(path, g);
    match IndexGroup(path)
    case None =>
    case Some(h) =>
      IndexGroupSpec(path, h);
      assert false;
  }

  /** When both patterns match, the html pattern's group is the index group followed by `index`. */
  lemma BothMatch(path: string, g: string, h: string)
    requires IndexMatch(path, g) && HtmlMatch(path, h)
    ensures Strip(path) == Some(Redirect(g, MovedPermanently))
    ensures h == g + "index"
  {
    IndexGroupSpec(path, g);
    HtmlGroupSpec(path, h);
    var b := Subject(path);
    var n := |b|;
    assert b[n - 1] == 'l';
    assert h == b[..n - 5] && g == b[..n - 10];
    assert b[..n - 5] == b[..n - 10] + b[n - 10..n - 5];
  }

  /** The hook produces no response exactly when neither pattern matches the path. */
  lemma NoneCase(path: string)
    ensures Strip(path) == None <==> forall g :: !IndexMatch(path, g) && !HtmlMatch(path, g)
  {
    if Strip(path) == None {
      forall g ensures !IndexMatch(path, g) && !HtmlMatch(path, g) {
        IndexGroupSpec(path, g);
        HtmlGroupSpec(path, g);
      }
    } else {
      var g := Strip(path).value.location;
      if IndexGroup(path).Some? {
        IndexGroupSpec(path, g);
      } else {
        HtmlGroupSpec(path, g);
      }
    }
  }

  /** The target of an index redirect is left alone by the hook: it ends in `/`, which neither pattern allows. */
  lemma IndexTargetIsFinal(path: string, g: string)
    requires IndexMatch(path, g)
    ensures Strip(g) == None
  {
    IndexGroupSpec(path, g);
    var b := Subject(g);
    assert g[|g| - 1] == '/';
    assert b == g;
    if |b| >= 6 {
      assert b[|b| - 5..][4] == '/';
    }
  }

  /** Targets of html redirects may redirect again: one `.html` is stripped per request. */
  lemma HtmlTargetMayRedirect()
    ensures Strip("/a.html.html") == Some(Redirect("/a.html", MovedPermanently))
    ensures Strip("/a.html") == Some(Redirect("/a", MovedPermanently))
    ensures Strip("/a") == None
  {
    assert HtmlMatchAt("/a.html.html", "/a.html", 12);
    HtmlCase("/a.html.html", "/a.html");
    assert HtmlMatchAt("/a.html", "/a", 7);
    HtmlCase("/a.html", "/a");
  }

  /** The unescaped dot of the html pattern: `/fooxhtml` is stripped like `/foo.html`. */
  lemma UnescapedDotHtml()
    ensures Strip("/fooxhtml") == Some(Redirect("/foo", MovedPermanently))
  {
    var p := "/fooxhtml";
    assert Subject(p) == p;
    assert p[4..][0] == 'x';
    assert HtmlMatchAt(p, "/foo", 9);
    HtmlGroupSpec(p, "/foo");
  }

  /** The unescaped dot of the index pattern: `/a/indexxhtml` is stripped like `/a/index.html`. */
  lemma UnescapedDotIndex()
    ensures Strip("/a/indexxhtml") == Some(Redirect("/a/", MovedPermanently))
    ensures Strip("/a/index.html") == Some(Redirect("/a/", MovedPermanently))
  {
    IndexSuffixes("/a/", 'x');
    assert "/a/" + "index" + ['x'] + "html" == "/a/indexxhtml";
    IndexSuffixes("/a/", '.');
    assert "/a/" + "index" + ['.'] + "html" == "/a/index.html";
  }

  /**
   * Newlines: `[^/]` accepts one as the last character of the html group, `$` skips one
   * that ends the path, and `.*` refuses one inside the index group.
   */
  lemma NewlineEdges()
    ensures Strip("/a\n.html") == Some(Redirect("/a\n", MovedPermanently))
    ensures Strip("/a.html\n") == Some(Redirect("/a", MovedPermanently))
    ensures Strip("/a\n/index") == None
  {
    assert HtmlMatchAt("/a\n.html", "/a\n", 8);
    HtmlGroupSpec("/a\n.html", "/a\n");
    assert HtmlMatchAt("/a.html\n", "/a", 7);
    HtmlGroupSpec("/a.html\n", "/a");
    var p := "/a\n/index";
    assert Subject(p) == p;
    assert p[..3][2] == Newline;
    assert p[5..][3] == 'x';
  }
}
