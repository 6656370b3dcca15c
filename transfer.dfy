/**
 * Specification of downloads in dvc/tree/base.py: the temporary name a file
 * is fetched to, the primitive calls `_download_file` makes, where
 * `_download_dir` places each member, and which error it raises. The thread
 * pool is sequential here: members are transferred in walk order and the
 * first failure cancels the members after it.
 */
module Transfer {
  import opened Wrappers
  import opened Paths
  import opened TreeErrors
  import opened Backends

  /** `tmp_fname(to)`: a sibling of `to` named `<name>.<tag>.tmp`, `tag` standing for the random uuid. */
  function TmpName(to: PathInfo, tag: string): (r: PathInfo)
    ensures r.scheme == to.scheme
  {
    Join(Parent(to), Name(to) + "." + tag + ".tmp")
  }

  /** The temporary file sits in the destination's directory and is never the destination itself. */
  lemma TmpNameIsSibling(to: PathInfo, tag: string)
    requires to.parts != []
    ensures Parent(TmpName(to, tag)) == Parent(to)
    ensures TmpName(to, tag) != to
  {
    var t := TmpName(to, tag);
    assert Name(t) == Name(to) + "." + tag + ".tmp";
    assert |Name(t)| > |Name(to)|;
  }

  /** What `_download_file` raises: whatever `_download` raised, unchanged. */
  function FileOutcome(b: Backend, from: PathInfo): (r: Outcome<Error>)
    ensures r.Pass? <==> b.downloadError(from).None?
    ensures r.Fail? ==> r.error == TransferFailed(b.downloadError(from).value)
  {
    match b.downloadError(from)
    case None => Pass
    case Some(msg) => Fail(TransferFailed(msg))
  }

  /**
   * The calls of `_download_file(from, to)`: create the parent, fetch into the
   * temporary name, and only when that succeeded move it onto `to`.
   */
  function FileOps(b: Backend, from: PathInfo, to: PathInfo, tag: string): seq<Op>
  {
    [Makedirs(Parent(to)), Fetch(from, TmpName(to, tag))]
      + if b.downloadError(from).None? then [MoveLocal(TmpName(to, tag), to)] else []
  }

  /** The calls of `_download_file` for each pair of sources and destinations, in order. */
  function FilesOps(b: Backend, srcs: seq<PathInfo>, dsts: seq<PathInfo>, tag: string): seq<Op>
    requires |srcs| == |dsts|
  {
    if srcs == [] then []
    else FilesOps(b, srcs[..|srcs| - 1], dsts[..|dsts| - 1], tag)
           + FileOps(b, srcs[|srcs| - 1], dsts[|dsts| - 1], tag)
  }

  /**
   * The destinations `to / member.relative_to(from)` of the members, up to the
   * first member that is not under `from` (whose `relative_to` raises).
   */
  function Destinations(from: PathInfo, to: PathInfo, members: seq<PathInfo>): (r: seq<PathInfo>)
    ensures |r| <= |members|
    ensures forall i :: 0 <= i < |r| ==> IsUnder(members[i], from) &&
                                          r[i] == JoinParts(to, RelativeTo(members[i], from).value)
    ensures |r| < |members| ==> !IsUnder(members[|r|], from)
  {
    if members == [] || !IsUnder(members[0], from) then []
    else
      var rest := Destinations(from, to, members[1..]);
      assert forall i :: 0 <= i < |rest| ==> members[1..][i] == members[i + 1];
      [JoinParts(to, RelativeTo(members[0], from).value)] + rest
  }

  /** The index of the first member whose download fails, or `|members|` when none does. */
  function FirstFailing(b: Backend, members: seq<PathInfo>): (k: nat)
    ensures k <= |members|
    ensures forall i :: 0 <= i < k ==> b.downloadError(members[i]).None?
    ensures k < |members| ==> b.downloadError(members[k]).Some?
  {
    if members == [] then 0
    else if b.downloadError(members[0]).Some? then 0
    else
      var k := FirstFailing(b, members[1..]);
      assert forall i :: 0 <= i < |members| - 1 ==> members[1..][i] == members[i + 1];
      1 + k
  }

  /** What `_download_dir(from, to)` raises, if anything. */
  function DirOutcome(b: Backend, from: PathInfo, to: PathInfo): (r: Outcome<Error>)
    ensures r.Pass? <==> forall i :: 0 <= i < |b.walkFiles(from)| ==>
                           IsUnder(b.walkFiles(from)[i], from) && b.downloadError(b.walkFiles(from)[i]).None?
    ensures r.Fail? ==> r.error.NotRelative? || r.error.TransferFailed?
  {
    var members := b.walkFiles(from);
    var dsts := Destinations(from, to, members);
    if |dsts| < |members| then Fail(NotRelative(members[|dsts|], from))
    else
      var k := FirstFailing(b, members);
      if k < |members| then Fail(TransferFailed(b.downloadError(members[k]).value)) else Pass
  }

  /**
   * The calls `_download_dir(from, to)` makes: when a member is not under
   * `from`, every member submitted before it is transferred in full before the
   * error surfaces; otherwise the members are transferred up to and including
   * the first failing one, and the rest are cancelled.
   */
  function DirOps(b: Backend, from: PathInfo, to: PathInfo, tag: string): (r: seq<Op>)
    ensures DirOutcome(b, from, to).Pass? ==> |r| == 3 * |b.walkFiles(from)|
  {
    var members := b.walkFiles(from);
    var dsts := Destinations(from, to, members);
    if |dsts| < |members| then FilesOps(b, members[..|dsts|], dsts, tag)
    else
      var k := FirstFailing(b, members);
      var n := if k < |members| then k + 1 else k;
      if k == |members| then
        AllSucceedLength(b, members[..n], dsts[..n], tag);
        FilesOps(b, members[..n], dsts[..n], tag)
      else FilesOps(b, members[..n], dsts[..n], tag)
  }

  /** `download(from, to)`: `Some(0)` for the same-remote copy shortcut, `None` for a streamed transfer. */
  function DownloadResult(b: Backend, from: PathInfo, to: PathInfo): (r: Result<Option<int>, Error>)
    ensures r.Success? ==> b.hasDownload && from.scheme == b.scheme
    ensures r.Success? && r.value.Some? <==> r == Success(Some(0))
    ensures r == Success(Some(0)) <==> b.hasDownload && b.hasCopy && from.scheme == b.scheme &&
                                       to.scheme == b.scheme && b.scheme != "local"
    ensures r == Success(None) ==> to.scheme == "local"
  {
    if !b.hasDownload then Failure(ActionNotImplemented("download", b.scheme))
    else if from.scheme != b.scheme then Failure(NotImplemented)
    else if to.scheme == b.scheme && b.scheme != "local" then
      if b.hasCopy then Success(Some(0)) else Failure(ActionNotImplemented("copy", b.scheme))
    else if to.scheme != "local" then Failure(NotImplemented)
    else
      var o := if b.isdir(from) then DirOutcome(b, from, to) else FileOutcome(b, from);
      match o
      case Pass => Success(None)
      case Fail(e) => Failure(e)
  }

  /** The primitive calls `download(from, to)` makes. */
  function DownloadOps(b: Backend, from: PathInfo, to: PathInfo, tag: string): (r: seq<Op>)
    ensures r != [] ==> b.hasDownload && from.scheme == b.scheme && (to.scheme == b.scheme || to.scheme == "local")
  {
    if !b.hasDownload || from.scheme != b.scheme then []
    else if to.scheme == b.scheme && b.scheme != "local" then
      if b.hasCopy then [Copy(from, to)] else []
    else if to.scheme != "local" then []
    else if b.isdir(from) then DirOps(b, from, to, tag)
    else FileOps(b, from, to, tag)
  }

  /** `upload(from, to)`: the mirror image of the download checks, for a local source. */
  function UploadResult(b: Backend, from: PathInfo, to: PathInfo): (r: Outcome<Error>)
    ensures r.Pass? <==> b.hasUpload && to.scheme == b.scheme && from.scheme == "local" && b.uploadError(from).None?
    ensures r.Fail? && r.error.TransferFailed? ==> b.uploadError(from) == Some(r.error.reason)
  {
    if !b.hasUpload then Fail(ActionNotImplemented("upload", b.scheme))
    else if to.scheme != b.scheme then Fail(NotImplemented)
    else if from.scheme != "local" then Fail(NotImplemented)
    else match b.uploadError(from)
      case None => Pass
      case Some(msg) => Fail(TransferFailed(msg))
  }

  function UploadOps(b: Backend, from: PathInfo, to: PathInfo): (r: seq<Op>)
    ensures r == [] || r == [Upload(from, to)]
    ensures UploadResult(b, from, to).Pass? ==> r == [Upload(from, to)]
  {
    if UploadResult(b, from, to) == Fail(ActionNotImplemented("upload", b.scheme))
       || UploadResult(b, from, to) == Fail(NotImplemented) then []
    else [Upload(from, to)]
  }

  /** `BaseTree.move`: copy, then remove the source; each step raises when the backend lacks it. */
  function MoveResult(b: Backend): (r: Outcome<Error>)
    ensures r.Pass? <==> b.hasCopy && b.hasRemove
    ensures r.Fail? ==> r.error.ActionNotImplemented? && r.error.scheme == b.scheme
  {
    if !b.hasCopy then Fail(ActionNotImplemented("copy", b.scheme))
    else if !b.hasRemove then Fail(ActionNotImplemented("remove", b.scheme))
    else Pass
  }

  function MoveOps(b: Backend, from: PathInfo, to: PathInfo): (r: seq<Op>)
    ensures r != [] ==> r[0] == Copy(from, to)
    ensures Remove(from) in r <==> MoveResult(b).Pass?
  {
    if !b.hasCopy then []
    else if !b.hasRemove then [Copy(from, to)]
    else [Copy(from, to), Remove(from)]
  }

  // ---------------------------------------------------------------- lemmas

  /** Transferring one more member appends that member's calls. */
  lemma FilesOpsStep(b: Backend, srcs: seq<PathInfo>, dsts: seq<PathInfo>, tag: string, j: nat)
    requires |srcs| == |dsts| && j < |srcs|
    ensures FilesOps(b, srcs[..j + 1], dsts[..j + 1], tag)
         == FilesOps(b, srcs[..j], dsts[..j], tag) + FileOps(b, srcs[j], dsts[j], tag)
  {
    assert srcs[..j + 1][..j] == srcs[..j] && dsts[..j + 1][..j] == dsts[..j];
  }

  /** A success means every member of the walk was fetched and moved onto its mapped destination. */
  lemma DirSuccessPlacesEveryMember(b: Backend, from: PathInfo, to: PathInfo, tag: string, i: nat)
    requires DirOutcome(b, from, to).Pass?
    requires i < |b.walkFiles(from)|
    ensures IsUnder(b.walkFiles(from)[i], from)
    ensures var d := JoinParts(to, RelativeTo(b.walkFiles(from)[i], from).value);
            MoveLocal(TmpName(d, tag), d) in DirOps(b, from, to, tag)
  {
    var members := b.walkFiles(from);
    var dsts := Destinations(from, to, members);
    assert |dsts| == |members|;
    assert FirstFailing(b, members) == |members|;
    assert members[..|members|] == members && dsts[..|dsts|] == dsts;
    assert DirOps(b, from, to, tag) == FilesOps(b, members, dsts, tag);
    FilesOpsContains(b, members, dsts, tag, i);
  }

  lemma {:induction false} FilesOpsContains(b: Backend, srcs: seq<PathInfo>, dsts: seq<PathInfo>, tag: string, i: nat)
    requires |srcs| == |dsts| && i < |srcs|
    requires b.downloadError(srcs[i]).None?
    ensures MoveLocal(TmpName(dsts[i], tag), dsts[i]) in FilesOps(b, srcs, dsts, tag)
  {
    var n := |srcs| - 1;
    if i == n {
      assert FileOps(b, srcs[n], dsts[n], tag)[2] == MoveLocal(TmpName(dsts[i], tag), dsts[i]);
    } else {
      FilesOpsContains(b, srcs[..n], dsts[..n], tag, i);
    }
  }

  /**
   * First error wins: a transfer failure carries the error of the first
   * failing member in walk order, every member before it succeeded, and the
   * calls made are exactly those of the members up to it: three for each
   * member before it and two (no move) for it, none for the cancelled rest.
   */
  lemma DirFailureIsFirstError(b: Backend, from: PathInfo, to: PathInfo, tag: string)
    requires DirOutcome(b, from, to).Fail? && DirOutcome(b, from, to).error.TransferFailed?
    ensures var members := b.walkFiles(from);
            exists k :: 0 <= k < |members| && b.downloadError(members[k]).Some? &&
              DirOutcome(b, from, to).error.reason == b.downloadError(members[k]).value &&
              (forall j :: 0 <= j < k ==> b.downloadError(members[j]).None?) &&
              |DirOps(b, from, to, tag)| == 3 * k + 2
  {
    var members := b.walkFiles(from);
    var dsts := Destinations(from, to, members);
    var k := FirstFailing(b, members);
    assert |dsts| == |members| && k < |members|;
    var srcs := members[..k + 1];
    assert DirOps(b, from, to, tag) == FilesOps(b, srcs, dsts[..k + 1], tag);
    assert forall j :: 0 <= j < k ==> srcs[j] == members[j];
    assert srcs[k] == members[k];
    FilesOpsLength(b, srcs, dsts[..k + 1], tag);
    assert DirOutcome(b, from, to).error.reason == b.downloadError(members[k]).value;
  }

  /**
   * The calls of a failed directory download are those of the members before
   * the first failing one, then that member's `makedirs` and fetch: no member
   * after it is fetched.
   */
  lemma DirFailureStopsAtFailingFetch(b: Backend, from: PathInfo, to: PathInfo, tag: string)
    requires DirOutcome(b, from, to).Fail? && DirOutcome(b, from, to).error.TransferFailed?
    ensures var members := b.walkFiles(from);
            var dsts := Destinations(from, to, members);
            var k := FirstFailing(b, members);
            k < |members| && k < |dsts| &&
            DirOps(b, from, to, tag) == FilesOps(b, members[..k], dsts[..k], tag) +
                                        [Makedirs(Parent(dsts[k])), Fetch(members[k], TmpName(dsts[k], tag))]
  {
    var members := b.walkFiles(from);
    var dsts := Destinations(from, to, members);
    var k := FirstFailing(b, members);
    assert |dsts| == |members| && k < |members|;
    assert DirOps(b, from, to, tag) == FilesOps(b, members[..k + 1], dsts[..k + 1], tag);
    FilesOpsStep(b, members, dsts, tag, k);
    FailedFileOps(b, members[k], dsts[k], tag);
  }

  /** A failed `_download_file` creates the parent and fetches, and makes no move. */
  lemma FailedFileOps(b: Backend, from: PathInfo, to: PathInfo, tag: string)
    requires b.downloadError(from).Some?
    ensures FileOps(b, from, to, tag) == [Makedirs(Parent(to)), Fetch(from, TmpName(to, tag))]
  {
  }

  /** Each successful transfer makes three calls and each failed one two. */
  lemma {:induction false} FilesOpsLength(b: Backend, srcs: seq<PathInfo>, dsts: seq<PathInfo>, tag: string)
    requires |srcs| == |dsts| && srcs != []
    requires forall j :: 0 <= j < |srcs| - 1 ==> b.downloadError(srcs[j]).None?
    requires b.downloadError(srcs[|srcs| - 1]).Some?
    ensures |FilesOps(b, srcs, dsts, tag)| == 3 * (|srcs| - 1) + 2
  {
    AllSucceedLength(b, srcs[..|srcs| - 1], dsts[..|dsts| - 1], tag);
  }

  lemma {:induction false} AllSucceedLength(b: Backend, srcs: seq<PathInfo>, dsts: seq<PathInfo>, tag: string)
    requires |srcs| == |dsts|
    requires forall j :: 0 <= j < |srcs| ==> b.downloadError(srcs[j]).None?
    ensures |FilesOps(b, srcs, dsts, tag)| == 3 * |srcs|
  {
    if srcs != [] {
      AllSucceedLength(b, srcs[..|srcs| - 1], dsts[..|dsts| - 1], tag);
    }
  }

  /**
   * No destination is ever written directly: every move onto a destination
   * immediately follows a successful fetch of its source into the
   * destination's temporary name.
   */
  lemma {:induction false} MovesFollowFetches(b: Backend, srcs: seq<PathInfo>, dsts: seq<PathInfo>, tag: string, p: nat)
    requires |srcs| == |dsts|
    requires p < |FilesOps(b, srcs, dsts, tag)| && FilesOps(b, srcs, dsts, tag)[p].MoveLocal?
    ensures var ops := FilesOps(b, srcs, dsts, tag);
            p >= 1 && ops[p - 1].Fetch? && ops[p - 1].to == ops[p].from == TmpName(ops[p].to, tag) &&
            b.downloadError(ops[p - 1].from).None?
  {
    var n := |srcs| - 1;
    var init := FilesOps(b, srcs[..n], dsts[..n], tag);
    var ops := FilesOps(b, srcs, dsts, tag);
    assert ops == init + FileOps(b, srcs[n], dsts[n], tag);
    if p < |init| {
      MovesFollowFetches(b, srcs[..n], dsts[..n], tag, p);
    }
  }

  /**
   * The preconditions of `download` are checked before any transfer: a
   * missing `_download`, a foreign source scheme or a foreign non-local
   * destination raise without a single primitive call.
   */
  lemma DownloadPreconditionsFirst(b: Backend, from: PathInfo, to: PathInfo, tag: string)
    ensures !b.hasDownload ==>
              DownloadResult(b, from, to) == Failure(ActionNotImplemented("download", b.scheme)) &&
              DownloadOps(b, from, to, tag) == []
    ensures b.hasDownload && from.scheme != b.scheme ==>
              DownloadResult(b, from, to) == Failure(NotImplemented) && DownloadOps(b, from, to, tag) == []
    ensures b.hasDownload && from.scheme == b.scheme && to.scheme != b.scheme && to.scheme != "local" ==>
              DownloadResult(b, from, to) == Failure(NotImplemented) && DownloadOps(b, from, to, tag) == []
    ensures DownloadResult(b, from, to).Failure? && DownloadResult(b, from, to).error.ActionNotImplemented? ==>
              DownloadOps(b, from, to, tag) == []
  {
  }

  /** A destination on this tree's own non-local scheme is served by a single `copy`, reporting 0. */
  lemma DownloadSameRemoteCopies(b: Backend, from: PathInfo, to: PathInfo, tag: string)
    requires b.hasDownload && b.hasCopy && from.scheme == b.scheme
    requires to.scheme == b.scheme && b.scheme != "local"
    ensures DownloadResult(b, from, to) == Success(Some(0))
    ensures DownloadOps(b, from, to, tag) == [Copy(from, to)]
  {
  }

  /** A local download of a single file leaves the destination untouched unless the fetch succeeded. */
  lemma DownloadFileAtomic(b: Backend, from: PathInfo, to: PathInfo, tag: string)
    requires b.hasDownload && from.scheme == b.scheme
    requires to.scheme == "local" && !b.isdir(from)
    ensures DownloadResult(b, from, to).Success? <==> MoveLocal(TmpName(to, tag), to) in DownloadOps(b, from, to, tag)
    ensures forall op :: op in DownloadOps(b, from, to, tag) && op.MoveLocal? ==> op.to == to && op.from == TmpName(to, tag)
  {
  }

  /** `upload` refuses without `_upload`, for a foreign destination scheme and for a non-local source. */
  lemma UploadPreconditionsFirst(b: Backend, from: PathInfo, to: PathInfo)
    ensures !b.hasUpload ==> UploadResult(b, from, to) == Fail(ActionNotImplemented("upload", b.scheme))
    ensures b.hasUpload && to.scheme != b.scheme ==> UploadResult(b, from, to) == Fail(NotImplemented)
    ensures b.hasUpload && to.scheme == b.scheme && from.scheme != "local" ==>
              UploadResult(b, from, to) == Fail(NotImplemented)
    ensures UploadOps(b, from, to) != [] <==>
              b.hasUpload && to.scheme == b.scheme && from.scheme == "local"
  {
  }

  /** `move` always copies before it removes, and removes only after a copy. */
  lemma MoveCopiesBeforeRemoving(b: Backend, from: PathInfo, to: PathInfo)
    ensures Remove(from) in MoveOps(b, from, to) ==> MoveOps(b, from, to) == [Copy(from, to), Remove(from)]
    ensures MoveResult(b).Pass? <==> MoveOps(b, from, to) == [Copy(from, to), Remove(from)]
  {
  }
}
