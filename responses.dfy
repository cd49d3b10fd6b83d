/** What a request can end in: the responses the app's hooks and views produce. */
module Responses {
  /** Status code of `flask.redirect(url, code=301)`. */
  const MovedPermanently: nat := 301
  /** Status code of `flask.redirect(url)`, Flask's default. */
  const Found: nat := 302

  datatype Response =
    | Redirect(location: string, code: nat)  // flask.redirect: the target URL and the status
    | Render(template: string)                // flask.render_template of a file under the build folder
    | SendMedia(filename: string)             // send_from_directory(EXTRA_MEDIA_DIR, filename)
    | SendStatic(filename: string)            // Flask's own static route over the static folder
    | NoResponse                              // the view returned None (Flask reports a server error)
    | NotFound                                // no route matched the path (404)
}
