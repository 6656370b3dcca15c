/**
 * What the generic tree engine consumes: the primitives a concrete backend
 * supplies (as oracle functions fixed for the duration of one call), the
 * cache the engine consults, and the calls it makes into both, which the
 * engine's state records as a trace.
 */
module Backends {
  import opened Wrappers
  import opened Paths
  import opened Hashes

  /** One entry of `ls(path, recursive=True, detail=True)`: the full path and the listed checksum and size. */
  datatype Detail = Detail(name: seq<string>, checksum: string, size: Option<int>)

  datatype Backend = Backend(
    /** `scheme` of the tree class */
    scheme: string,
    /** `PARAM_CHECKSUM`: the name of the checksum this backend computes */
    paramChecksum: string,
    /** `DETAIL_FIELDS`: the fields `ls(detail=True)` reports per entry */
    detailFields: set<string>,
    /** whether the subclass defines `_download`, `_upload`, `copy`, `remove` */
    hasDownload: bool,
    hasUpload: bool,
    hasCopy: bool,
    hasRemove: bool,
    pathExists: PathInfo -> bool,
    isdir: PathInfo -> bool,
    walkFiles: PathInfo -> seq<PathInfo>,
    lsDetail: PathInfo -> seq<Detail>,
    /** `get_file_hash` */
    fileHash: PathInfo -> HashInfo,
    /** what `_download(from, tmp)` raises for a source, if anything */
    downloadError: PathInfo -> Option<string>,
    /** what `_upload(from, to)` raises for a source, if anything */
    uploadError: PathInfo -> Option<string>)

  /**
   * The tree's cache: the root of its tree (for `hash_to_path_info`), the
   * artifacts present in it, whether it is the repository's local cache (the
   * one `save_dir_info` writes directory artifacts into), the checksum name of
   * the local cache, and the digest `save_dir_info` computes over a serialised
   * manifest.
   */
  datatype CacheStore = CacheStore(
    root: PathInfo,
    artifacts: set<PathInfo>,
    isLocal: bool,
    checksumName: string,
    digest: Manifest -> string)

  /** A call from the engine into a backend or cache primitive. */
  datatype Op =
    | FileHash(path: PathInfo)               // get_file_hash(path)
    | SetDirInfo(hash: HashInfo)             // cache.set_dir_info(hash)
    | SaveDirInfo(manifest: Manifest)        // cache.local.save_dir_info(dir_info)
    | Makedirs(path: PathInfo)               // makedirs(path, exist_ok=True)
    | Fetch(from: PathInfo, to: PathInfo)    // _download(from, tmp)
    | MoveLocal(from: PathInfo, to: PathInfo) // dvc.utils.fs.move(tmp, to)
    | Copy(from: PathInfo, to: PathInfo)     // copy(from, to)
    | Remove(path: PathInfo)                 // remove(path)
    | Upload(from: PathInfo, to: PathInfo)   // _upload(from, to)
}
