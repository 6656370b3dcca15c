/** The exceptions the tree engine raises, as values. */
module TreeErrors {
  import opened Paths

  /** `DvcIgnore.DVCIGNORE_FILE` */
  const DVCIGNORE_FILE: string := ".dvcignore"

  datatype Error =
    /** `RemoteActionNotImplemented(action, scheme)`: the backend lacks an optional primitive. */
    | ActionNotImplemented(action: string, scheme: string)
    /** `NotImplementedError`: a scheme combination the engine cannot bridge. */
    | NotImplemented
    /** `DvcIgnoreInCollectedDirError(parent)`: a `.dvcignore` file inside a collected directory. */
    | IgnoreInCollectedDir(parent: PathInfo)
    /** `ValueError` from `relative_to`: a listed member is not under the listed directory. */
    | NotRelative(path: PathInfo, root: PathInfo)
    /** `AssertionError` of `get_hash`: a cached hash computed with another checksum. */
    | ChecksumMismatch(expected: string, found: string)
    /** Whatever a backend transfer primitive raised, passed on unchanged. */
    | TransferFailed(reason: string)

  /** The message of `RemoteActionNotImplemented`. */
  function Message(e: Error): (m: string)
    requires e.ActionNotImplemented?
    ensures |m| >= |e.action| && m[..|e.action|] == e.action
    ensures EndsWithRemotes(m, e.scheme)
  {
    var m := e.action + " is not supported for " + e.scheme + " remotes";
    assert m[|m| - |e.scheme + " remotes"|..] == e.scheme + " remotes";
    m
  }

  /** `m` ends with "<scheme> remotes". */
  predicate EndsWithRemotes(m: string, scheme: string)
  {
    var tail := scheme + " remotes";
    |tail| <= |m| && m[|m| - |tail|..] == tail
  }
}
