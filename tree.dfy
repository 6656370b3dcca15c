/**
 * `BaseTree`, the backend-independent layer of dvc/tree/base.py. A tree holds
 * its backend's primitives and its cache, the state cache it consults and
 * updates, and (as ghost state) the trace of calls it has made into the
 * primitives. Each method is proved against the specification functions of
 * the Hashing and Transfer modules.
 */
module Tree {
  import opened Wrappers
  import opened Paths
  import opened Hashes
  import opened TreeErrors
  import opened Backends
  import opened Hashing
  import opened Transfer

  lemma AppendAssoc<T>(a: seq<T>, b: seq<T>, c: seq<T>)
    ensures a + b + c == a + (b + c)
  {
  }

  lemma AppendEmpty<T>(a: seq<T>)
    ensures a + [] == a
  {
  }

  class BaseTree {
    const backend: Backend
    /** The tree's cache; `save_dir_info` may add directory artifacts to it. */
    var cache: CacheStore
    /** The state cache: location to the hash last recorded for it. */
    var state: map<PathInfo, HashInfo>
    /** The calls made so far into backend and cache primitives. */
    ghost var trace: seq<Op>

    constructor (backend: Backend, cache: CacheStore, state: map<PathInfo, HashInfo>)
      ensures this.backend == backend && this.cache == cache && this.state == state && trace == []
    {
      this.backend := backend;
      this.cache := cache;
      this.state := state;
      trace := [];
    }

    /** `get_file_hash(p)` */
    method GetFileHash(p: PathInfo) returns (h: HashInfo)
      modifies this`trace
      ensures h == backend.fileHash(p)
      ensures trace == old(trace) + [FileHash(p)]
    {
      h := backend.fileHash(p);
      trace := trace + [FileHash(p)];
    }

    /** `_calculate_hashes(files)`: hash each file once, pairing each result with its own file. */
    method CalculateHashes(files: seq<PathInfo>) returns (r: seq<Member>)
      modifies this`trace
      ensures r == Hashing.CalculateHashes(backend, files)
      ensures trace == old(trace) + HashOps(files)
    {
      r := [];
      var i := 0;
      while i < |files|
        invariant 0 <= i <= |files|
        invariant r == Hashing.CalculateHashes(backend, files[..i])
        invariant trace == old(trace) + HashOps(files[..i])
      {
        var h := GetFileHash(files[i]);
        assert files[..i + 1][..i] == files[..i];
        r := r + [Member(files[i], h)];
        i := i + 1;
      }
      assert files[..i] == files;
    }

    /** Add `xs` to manifest `m` member by member, as `_collect_dir`'s loop does. */
    static method CollectMembers(root: PathInfo, m: Manifest, xs: seq<Member>) returns (r: Result<Manifest, Error>)
      requires KeysDistinct(m)
      ensures r == CollectFrom(root, m, xs)
    {
      var cur := m;
      var i := 0;
      while i < |xs|
        invariant 0 <= i <= |xs|
        invariant KeysDistinct(cur)
        invariant CollectFrom(root, m, xs) == CollectFrom(root, cur, xs[i..])
      {
        match AddMember(root, cur, xs[i])
        case Failure(e) =>
          return Failure(e);
        case Success(next) =>
          cur := next;
        i := i + 1;
      }
      r := Success(cur);
    }

    /**
     * The walk part of `_collect_dir(root)` on the walk path, with
     * `_iter_hashes` fused in as Python runs the generator: state hits are
     * collected as the walk goes, misses are set aside for hashing.
     */
    method CollectHits(root: PathInfo, files: seq<PathInfo>) returns (r: Result<Manifest, Error>, misses: seq<PathInfo>)
      ensures r == CollectFrom(root, [], Hits(files, state))
      ensures r.Success? ==> misses == Misses(files, state)
    {
      var st := state;
      var m: Manifest := [];
      misses := [];
      var i := 0;
      assert files[..0] == [];
      while i < |files|
        invariant 0 <= i <= |files|
        invariant KeysDistinct(m)
        invariant CollectFrom(root, [], Hits(files[..i], st)) == Success(m)
        invariant misses == Misses(files[..i], st)
      {
        var f := files[i];
        if StateHit(st, f) {
          WalkHitStep(root, files, i, st, m);
          match AddMember(root, m, Member(f, st[f]))
          case Failure(e) =>
            WalkFailureStops(root, files, i + 1, st);
            return Failure(e), misses;
          case Success(next) =>
            m := next;
        } else {
          WalkMissStep(files, i, st);
          misses := misses + [f];
        }
        i := i + 1;
      }
      assert files[..i] == files;
      r := Success(m);
    }

    /** `_collect_dir(root)` over the pairs `_iter_hashes(root)` yields. */
    method CollectDir(root: PathInfo) returns (r: Result<Manifest, Error>)
      modifies this`trace
      ensures r == Hashing.CollectDir(backend, old(state), root)
      ensures trace == old(trace) + CollectOps(backend, old(state), root)
    {
      if ListsChecksums(backend) {
        r := CollectMembers(root, [], ListingPairs(backend, root));
        return;
      }
      var files := backend.walkFiles(root);
      var hits, misses := CollectHits(root, files);
      CollectAppend(root, [], Hits(files, state), Hashing.CalculateHashes(backend, Misses(files, state)));
      if hits.Failure? {
        return Failure(hits.error);
      }
      var computed := CalculateHashes(misses);
      r := CollectMembers(root, hits.value, computed);
    }

    /**
     * `save_dir_info(dir_info)` of the repository's local cache: the directory
     * hash of the manifest (no size yet), its artifact written when this
     * tree's cache is that local cache.
     */
    method SaveManifest(m: Manifest) returns (h: HashInfo)
      modifies this`trace, this`cache
      ensures h == ManifestHash(old(cache), m).(size := None)
      ensures cache == SaveArtifact(old(cache), h)
      ensures trace == old(trace) + [SaveDirInfo(m)]
    {
      trace := trace + [SaveDirInfo(m)];
      h := HashInfo(cache.checksumName, cache.digest(m) + CHECKSUM_DIR_SUFFIX, None);
      cache := SaveArtifact(cache, h);
    }

    /** `get_dir_hash(root)`: collect, save the manifest, attach its aggregate size. */
    method GetDirHash(root: PathInfo) returns (r: Result<HashInfo, Error>)
      modifies this`trace, this`cache
      ensures r == DirHash(backend, old(cache), old(state), root)
      ensures cache == DirHashCache(backend, old(cache), old(state), root)
      ensures trace == old(trace) + DirHashOps(backend, old(state), root)
    {
      ghost var collectOps := CollectOps(backend, state, root);
      var collected := CollectDir(root);
      match collected
      case Failure(e) =>
        AppendEmpty(collectOps);
        r := Failure(e);
      case Success(m) =>
        var h := SaveManifest(m);
        AppendAssoc(old(trace), collectOps, [SaveDirInfo(m)]);
        h := h.(size := ManifestSize(m));
        r := Success(h);
    }

    /**
     * `get_hash(p)`. `stillExists` is what the second `exists(p)` probe
     * answers once the hash is computed: the location may vanish meanwhile.
     */
    method GetHash(p: PathInfo, stillExists: bool) returns (r: Result<Option<HashInfo>, Error>)
      requires p.scheme == backend.scheme
      modifies this`state, this`trace, this`cache
      ensures r == GetHashResult(backend, old(cache), old(state), p)
      ensures state == GetHashState(backend, old(cache), old(state), p, stillExists)
      ensures cache == GetHashCache(backend, old(cache), old(state), p)
      ensures trace == old(trace) + GetHashOps(backend, old(cache), old(state), p)
    {
      if !backend.pathExists(p) {
        return Success(None);
      }
      var hashInfo: Option<HashInfo> := if p in state then Some(state[p]) else None;
      if hashInfo.Some? && Truthy(hashInfo.value) && IsDir(hashInfo.value)
         && HashToPathInfo(cache.root, hashInfo.value.value) !in cache.artifacts {
        hashInfo := None;
      }
      ghost var cached := CachedHash(state, cache, p);
      assert hashInfo.Some? && Truthy(hashInfo.value) <==> cached.Some?;
      if hashInfo.Some? && Truthy(hashInfo.value) {
        assert hashInfo == cached;
        var h := hashInfo.value;
        if h.name != backend.paramChecksum {
          return Failure(ChecksumMismatch(backend.paramChecksum, h.name));
        }
        if IsDir(h) {
          trace := trace + [SetDirInfo(h)];
        }
        return Success(Some(h));
      }
      var h: HashInfo;
      if backend.isdir(p) {
        var d := GetDirHash(p);
        if d.Failure? {
          return Failure(d.error);
        }
        h := d.value;
      } else {
        h := GetFileHash(p);
      }
      if Truthy(h) && stillExists {
        state := state[p := h];
      }
      r := Success(Some(h));
    }

    /** `copy(from, to)`: raises unless the backend implements it. */
    method Copy(from: PathInfo, to: PathInfo) returns (r: Outcome<Error>)
      modifies this`trace
      ensures r == if backend.hasCopy then Pass else Fail(ActionNotImplemented("copy", backend.scheme))
      ensures trace == old(trace) + if backend.hasCopy then [Backends.Copy(from, to)] else []
    {
      if !backend.hasCopy {
        return Fail(ActionNotImplemented("copy", backend.scheme));
      }
      trace := trace + [Backends.Copy(from, to)];
      r := Pass;
    }

    /** `move(from, to)`: copy, then remove the source. */
    method Move(from: PathInfo, to: PathInfo) returns (r: Outcome<Error>)
      modifies this`trace
      ensures r == MoveResult(backend)
      ensures trace == old(trace) + MoveOps(backend, from, to)
    {
      r := Copy(from, to);
      if r.Fail? {
        return;
      }
      if !backend.hasRemove {
        return Fail(ActionNotImplemented("remove", backend.scheme));
      }
      trace := trace + [Remove(from)];
    }

    /** `upload(from, to)` */
    method Upload(from: PathInfo, to: PathInfo) returns (r: Outcome<Error>)
      modifies this`trace
      ensures r == UploadResult(backend, from, to)
      ensures trace == old(trace) + UploadOps(backend, from, to)
    {
      if !backend.hasUpload {
        return Fail(ActionNotImplemented("upload", backend.scheme));
      }
      if to.scheme != backend.scheme {
        return Fail(NotImplemented);
      }
      if from.scheme != "local" {
        return Fail(NotImplemented);
      }
      trace := trace + [Backends.Upload(from, to)];
      r := match backend.uploadError(from)
        case None => Pass
        case Some(msg) => Fail(TransferFailed(msg));
    }

    /** `_download_file(from, to)`: fetch into a temporary sibling, then move it onto `to`. */
    method DownloadFile(from: PathInfo, to: PathInfo, tag: string) returns (r: Outcome<Error>)
      modifies this`trace
      ensures r == FileOutcome(backend, from)
      ensures trace == old(trace) + FileOps(backend, from, to, tag)
    {
      trace := trace + [Makedirs(Parent(to))];
      var tmp := TmpName(to, tag);
      trace := trace + [Fetch(from, tmp)];
      match backend.downloadError(from)
      case Some(msg) =>
        return Fail(TransferFailed(msg));
      case None =>
      trace := trace + [MoveLocal(tmp, to)];
      r := Pass;
    }

    /** Run `_download_file` for every pair, whatever the outcomes: the futures already submitted. */
    method DownloadAll(srcs: seq<PathInfo>, dsts: seq<PathInfo>, tag: string)
      requires |srcs| == |dsts|
      modifies this`trace
      ensures trace == old(trace) + FilesOps(backend, srcs, dsts, tag)
    {
      var j := 0;
      while j < |srcs|
        invariant 0 <= j <= |srcs|
        invariant trace == old(trace) + FilesOps(backend, srcs[..j], dsts[..j], tag)
      {
        ghost var done := FilesOps(backend, srcs[..j], dsts[..j], tag);
        var _ := DownloadFile(srcs[j], dsts[j], tag);
        FilesOpsStep(backend, srcs, dsts, tag, j);
        AppendAssoc(old(trace), done, FileOps(backend, srcs[j], dsts[j], tag));
        j := j + 1;
      }
      assert srcs[..j] == srcs && dsts[..j] == dsts;
    }

    /** Run `_download_file` pair by pair; the first failure cancels the rest and is returned unchanged. */
    method DownloadUntilFailure(srcs: seq<PathInfo>, dsts: seq<PathInfo>, tag: string) returns (r: Outcome<Error>)
      requires |srcs| == |dsts|
      modifies this`trace
      ensures var k := FirstFailing(backend, srcs);
              r == (if k < |srcs| then Fail(TransferFailed(backend.downloadError(srcs[k]).value)) else Pass)
      ensures var k := FirstFailing(backend, srcs);
              var n := if k < |srcs| then k + 1 else k;
              trace == old(trace) + FilesOps(backend, srcs[..n], dsts[..n], tag)
    {
      ghost var k := FirstFailing(backend, srcs);
      var j := 0;
      while j < |srcs|
        invariant 0 <= j <= k
        invariant trace == old(trace) + FilesOps(backend, srcs[..j], dsts[..j], tag)
      {
        ghost var done := FilesOps(backend, srcs[..j], dsts[..j], tag);
        var o := DownloadFile(srcs[j], dsts[j], tag);
        FilesOpsStep(backend, srcs, dsts, tag, j);
        AppendAssoc(old(trace), done, FileOps(backend, srcs[j], dsts[j], tag));
        if o.Fail? {
          assert j == k;
          assert trace == old(trace) + FilesOps(backend, srcs[..k + 1], dsts[..k + 1], tag);
          assert o == Fail(TransferFailed(backend.downloadError(srcs[k]).value));
          return o;
        }
        j := j + 1;
      }
      assert k == |srcs|;
      assert srcs[..j] == srcs && dsts[..j] == dsts;
      r := Pass;
    }

    /**
     * `_download_dir(from, to)`: one `_download_file` per walked member onto
     * `to / member.relative_to(from)`; the first failure cancels the members
     * after it and is raised unchanged.
     */
    method DownloadDir(from: PathInfo, to: PathInfo, tag: string) returns (r: Outcome<Error>)
      modifies this`trace
      ensures r == DirOutcome(backend, from, to)
      ensures trace == old(trace) + DirOps(backend, from, to, tag)
    {
      var members := backend.walkFiles(from);
      var dsts := Destinations(from, to, members);
      if |dsts| < |members| {
        // `relative_to` raised while submitting: the members already submitted
        // run to completion, their outcomes unused, before the error surfaces.
        DownloadAll(members[..|dsts|], dsts, tag);
        return Fail(NotRelative(members[|dsts|], from));
      }
      r := DownloadUntilFailure(members, dsts, tag);
    }

    /** `download(from, to)`: the precondition checks, then the copy shortcut or a transfer. */
    method Download(from: PathInfo, to: PathInfo, tag: string) returns (r: Result<Option<int>, Error>)
      modifies this`trace
      ensures r == DownloadResult(backend, from, to)
      ensures trace == old(trace) + DownloadOps(backend, from, to, tag)
    {
      if !backend.hasDownload {
        return Failure(ActionNotImplemented("download", backend.scheme));
      }
      if from.scheme != backend.scheme {
        return Failure(NotImplemented);
      }
      if to.scheme == backend.scheme && backend.scheme != "local" {
        var c := Copy(from, to);
        if c.Fail? {
          return Failure(c.error);
        }
        return Success(Some(0));
      }
      if to.scheme != "local" {
        return Failure(NotImplemented);
      }
      var o: Outcome<Error>;
      if backend.isdir(from) {
        o := DownloadDir(from, to, tag);
      } else {
        o := DownloadFile(from, to, tag);
      }
      r := match o
        case Pass => Success(None)
        case Fail(e) => Failure(e);
    }
  }
}
