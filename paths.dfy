/** normalizePath: site-relative asset paths made absolute. */
module Paths {
  import opened JsString

  /** An absolute path as the script understands it: rooted at '/' or a URL starting "http". */
  predicate IsAbsolute(p: string) {
    StartsWith(p, "/") || StartsWith(p, "http")
  }

  /** normalizePath(path): '' stays '', an absolute path is kept, anything else gets a leading '/'. */
  function NormalizePath(path: string): (r: string)
    ensures r == [] <==> path == []
    ensures |path| <= |r| <= |path| + 1 && r[|r| - |path|..] == path
    ensures r != [] ==> IsAbsolute(r)
  {
    if path == [] then []
    else if IsAbsolute(path) then path
    else "/" + path
  }

  /** The three cases of normalizePath, stated on the result. */
  lemma NormalizePathCases(path: string)
    ensures path == [] ==> NormalizePath(path) == []
    ensures IsAbsolute(path) ==> NormalizePath(path) == path
    ensures path != [] && !IsAbsolute(path) ==> NormalizePath(path) == "/" + path
  {
  }

  /** Normalizing twice is normalizing once. */
  lemma NormalizePathIdempotent(path: string)
    ensures NormalizePath(NormalizePath(path)) == NormalizePath(path)
  {
  }
}
