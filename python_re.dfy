// The pieces of Python's `re` semantics (no flags) that the app's patterns and
// Werkzeug's rule patterns rely on:
//   - `.` (alone or in `.*` and `.*?`) matches any character except a newline,
//   - a negated class such as `[^/]` matches a newline,
//   - `$` matches at the end of the string or just before a newline that ends it.
module PythonRe {
  const Newline: char := '\n'

  /** `.*` (or `.*?`) can consume exactly `x`. */
  predicate DotStar(x: string) {
    Newline !in x
  }

  /** `$` holds at position `p` of `s`. */
  predicate DollarAt(s: string, p: nat) {
    p == |s| || (p + 1 == |s| && s[p] == Newline)
  }

  /** The part of `s` before the position where `$` can hold: `s` without a final newline. */
  function Subject(s: string): (b: string)
    ensures b <= s && |s| - 1 <= |b|
    ensures |b| < |s| <==> |s| > 0 && s[|s| - 1] == Newline
  {
    if |s| > 0 && s[|s| - 1] == Newline then s[..|s| - 1] else s
  }
}
