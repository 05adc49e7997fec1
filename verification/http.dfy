/** The part of a `retryablehttp.Request` that the Path component reads or writes. */
module Http {
  import opened Wrappers
  import opened Errors

  /** A URL; `path` is the decoded path and `rawPath` its optional encoded form. */
  datatype Url = Url(scheme: string, host: string, path: string, rawPath: string, rawQuery: string)

  /**
   * A request. It is an immutable value, so `Clone` is the value itself: a clone is
   * always independent of the request it was taken from.
   */
  datatype Request = Request(verb: string, url: Url, headers: map<string, seq<string>>, body: string)

  /**
   * `(*Request).UpdateRelPath(path, unsafe=true)` applied to a clone: the library routine is
   * not part of this model, so it is a parameter. It updates the clone in place and returns
   * only an error, so it yields the clone as the call leaves it, whether or not it failed,
   * together with the error (`None` for nil).
   */
  type PathUpdater = (Request, string) -> (Request, Option<Error>)

  /** The request with only its URL's raw path replaced, as `cloned.URL.RawPath = s` does. */
  function WithRawPath(req: Request, s: string): (r: Request)
    ensures r.url.rawPath == s
    ensures r.(url := r.url.(rawPath := req.url.rawPath)) == req
  {
    req.(url := req.url.(rawPath := s))
  }

  /** Hypothesis on the updater for one input: when it succeeds it installs `s` as the path. */
  predicate InstallsPath(update: PathUpdater, req: Request, s: string)
  {
    update(req, s).1.None? ==> update(req, s).0.url.path == s
  }
}
