/**
 * The `apply_redirects` hook: two redirect tables, each loaded from a YAML file of
 * regular expressions. How a table finds the target of a path (`get_target`) is not
 * part of this model; a table is any function from a path to an optional target URL.
 */
module ApplyRedirects {
  import opened Wrappers
  import opened Responses

  /** A redirect table: the result of `get_target` on each path (None for Python's None). */
  type Table = string -> Option<string>

  /** Python's truth test on `get_target`'s result: None and the empty string are both false. */
  predicate Truthy(u: Option<string>) {
    u.Some? && u.value != ""
  }

  /**
   * The permanent table is asked first and a hit gives a 301 redirect; only when it has
   * nothing is the temporary table asked, and a hit there gives Flask's default 302.
   */
  function Apply(permanent: Table, temporary: Table, path: string): (r: Option<Response>)
    ensures r.Some? <==> Truthy(permanent(path)) || Truthy(temporary(path))
    ensures r.Some? ==> r.value.Redirect? && r.value.location != ""
    ensures r.Some? && r.value.code == MovedPermanently <==> Truthy(permanent(path))
    ensures Truthy(permanent(path)) ==> r.value.location == permanent(path).value
    ensures !Truthy(permanent(path)) && r.Some? ==>
              r.value.code == Found && r.value.location == temporary(path).value
  {
    var permanentUrl := permanent(path);
    if Truthy(permanentUrl) then
      Some(Redirect(permanentUrl.value, MovedPermanently))
    else
      var url := temporary(path);
      if Truthy(url) then Some(Redirect(url.value, Found)) else None
  }

  /** A permanent hit hides the temporary table: whatever it holds, the result is the same. */
  lemma PermanentShadowsTemporary(permanent: Table, temporary: Table, other: Table, path: string)
    requires Truthy(permanent(path))
    ensures Apply(permanent, temporary, path) == Apply(permanent, other, path)
  {
  }

  /** An empty target string in a table counts as no entry at all. */
  lemma EmptyTargetIsNoEntry(permanent: Table, temporary: Table, path: string)
    requires permanent(path) == Some("")
    ensures Apply(permanent, temporary, path) == Apply(_ => None, temporary, path)
  {
  }
}
