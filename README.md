# DVC tree engine and experiment garbage collection, in Dafny

This project models two parts of DVC (Data Version Control).

**The generic tree engine** (`BaseTree`, dvc/tree/base.py) is shared by every storage backend. It covers:
- recognising directory hashes by their `.dir` suffix;
- mapping a hash to its two-level cache location;
- `get_hash`, which consults the state cache, ignores a cached directory hash whose artifact is gone, and computes and records a hash on a miss;
- `_iter_hashes` and `_calculate_hashes`;
- directory collection (`_collect_dir`), which rejects `.dvcignore` members and records each member under its relative path;
- `get_dir_hash`;
- the `download`/`upload`/`move`/`copy` checks, with the same-remote copy shortcut;
- the atomic single-file download (fetch into a temporary sibling, then move);
- the directory download, where the first failure cancels the rest and is raised unchanged;
- the `jobs`/`hash_jobs` fallback chains and `RemoteActionNotImplemented`.

**Experiment garbage collection** (`gc`, dvc/repo/experiments/gc.py):
- builds the keep-set of revisions;
- removes every experiment ref whose baseline is not kept;
- clears the execution pointers that apply;
- selects stash entries (all of them when `queued` is false) and drops them from the highest index down;
- returns the number of items removed.

Each backend's own primitives are fields of a `Backends.Backend` value. These are existence, walking, listing, per-file hashing and transfer failures. The cache is a `Backends.CacheStore`: its root, the artifacts present, and whether it is the repository's local cache. State that the source changes in place is the fields of two classes:
- `Tree.BaseTree`: the state cache and the cache, plus a ghost trace of the primitive calls made;
- `ExperimentsGc.ExpRepo`: the git refs and the experiment stash.

Every method of these classes is proved against a pure specification function. The lemmas next to those functions state what the source promises.

Modules and files:

| file | module | contents |
|---|---|---|
| wrappers.dfy | Wrappers | `Option`, `Result`, `Outcome` |
| paths.dfy | Paths | locations: join, name, parent, `relative_to` |
| hashes.dfy | Hashes | `HashInfo`, directory hashes, cache layout, the directory manifest |
| tree_config.dfy | TreeConfig | `JOBS`, `HASH_JOBS`, the `jobs`/`hash_jobs` chains |
| tree_errors.dfy | TreeErrors | the errors the engine raises |
| backend.dfy | Backends | backend primitives, cache store, primitive-call trace |
| hashing.dfy | Hashing | specification of `_iter_hashes`, `_collect_dir`, `get_dir_hash`, `get_hash` |
| transfer.dfy | Transfer | specification of `download`, `_download_dir`, `_download_file`, `upload`, `move` |
| tree.dfy | Tree | class `BaseTree` and its methods |
| experiments_gc.dfy | ExperimentsGc | specification of `gc` and class `ExpRepo` |

The EXEC_BRANCH behaviour of `gc` is modelled exactly as written: `str(ref_info)` is never empty, so the guard `exec_branch and str(ref_info)` reduces to `exec_branch`. So `EXEC_BRANCH` is removed whenever it is set and any ref is removed, whatever it points to. `ExperimentsGc.ExecBranchClearedOnAnyRemoval` states this.

## Model

| member | source | states |
|---|---|---|
| Paths.RelativeTo | dvc/tree/base.py:344 | `relative_to` succeeds exactly when the location lies under the root, and the returned segments joined onto the root give the location back |
| Paths.JoinRelativeTo | dvc/tree/base.py:419-421 | joining a member's relative path back onto its root gives the member again |
| Paths.RelocateInjective | dvc/tree/base.py:419-421 | mapping members of `from` onto `to / relative path` never sends two distinct members to one destination |
| Hashes.IsDirHash | dvc/tree/base.py:242-246 | false for a missing or empty hash; for any other hash, true exactly when the value ends with `.dir` |
| Hashes.DirSuffixRecognised | dvc/tree/base.py:242-246 | any digest with the `.dir` suffix appended is recognised as a directory hash |
| Hashes.HexDigestIsNotDir | dvc/tree/base.py:242-246 | a plain hexadecimal digest is never taken for a directory hash |
| Hashes.JoinSegment | dvc/tree/base.py:292 | `p / segment` appends the segment, except that an empty segment leaves the location unchanged |
| Hashes.HashToPathInfo | dvc/tree/base.py:291-292 | a hash longer than two characters lives at the root plus two segments, the first two characters long, that concatenate to the hash; a hash of one or two characters adds one segment, itself; the empty hash is the root |
| Hashes.HashToPathInfoInjective | dvc/tree/base.py:291-292 | different hashes never share a cache location |
| Hashes.Insert | dvc/tree/base.py:344 | trie assignment: keys stay distinct, the key maps to the new hash, other keys keep their hashes, the size grows by one only for a new key |
| Hashes.ManifestSize | dvc/tree/base.py:352 | the aggregate size is known exactly when every member's size is known |
| TreeConfig.DefaultJobs | dvc/tree/base.py:53 | `JOBS` is a non-negative multiple of 4, at least 4 with one CPU or more |
| TreeConfig.DefaultHashJobs | dvc/tree/base.py:56 | `HASH_JOBS` lies between 1 and 4: 4 with at least 8 CPUs, 1 with fewer than 4 |
| TreeConfig.FirstSet | dvc/tree/base.py:80-85 | an `a or b or c` chain yields the first truthy value, or the fallback when none is truthy |
| TreeConfig.Jobs | dvc/tree/base.py:79-85 | the remote's `jobs` wins when set, then the repository's `core.jobs`, then `JOBS` |
| TreeConfig.HashJobs | dvc/tree/base.py:87-93 | the remote's `checksum_jobs` wins when set, then the repository's, then `HASH_JOBS`, which is 1 to 4 |
| TreeConfig.JobsIsFirstSet | dvc/tree/base.py:79-85 | `jobs` is the first truthy value of remote `jobs`, repository `core.jobs`, `JOBS` |
| TreeConfig.HashJobsIsFirstSet | dvc/tree/base.py:87-93 | `hash_jobs` is the same chain ending in `HASH_JOBS`, and with nothing set it is 1 to 4 workers |
| TreeConfig.PoolSizesNonZero | dvc/tree/base.py:79-93 | with at least one CPU neither chain yields 0 workers |
| TreeErrors.Message | dvc/tree/base.py:32-35 | the message starts with the action and ends with "<scheme> remotes" |
| Hashing.Hits | dvc/tree/base.py:319-326 | each pair yielded during the walk is a truthy state hit paired with its cached hash |
| Hashing.Misses | dvc/tree/base.py:318-325 | the batch sent for hashing holds exactly the walked files without a truthy cached hash |
| Hashing.CalculateHashes | dvc/tree/base.py:294-303 | one result per input file, each file paired with its own `get_file_hash` result |
| Hashing.IterHashes | dvc/tree/base.py:305-328 | one pair per listed entry when the backend lists checksums, otherwise one pair per walked file |
| Hashing.HitsMissesSplit | dvc/tree/base.py:318-328 | hits and misses together are the walk, each file as often as it was walked |
| Hashing.IterHashesYieldsEachWalkedFile | dvc/tree/base.py:305-328 | on the walk path `_iter_hashes` yields every walked file exactly as often as it is walked |
| Hashing.IterHashesAttribution | dvc/tree/base.py:318-328 | each yielded hash belongs to its own file: the cached hash on a hit, the computed hash on a miss |
| Hashing.IterHashesFromListing | dvc/tree/base.py:306-316 | when the backend lists checksums, one pair per listed entry, with the listed name and checksum |
| Hashing.AddMember | dvc/tree/base.py:333-344 | one collection step keeps the manifest's keys distinct |
| Hashing.CollectFrom | dvc/tree/base.py:330-346 | a successful collection keeps the manifest's keys distinct |
| Hashing.CollectAppend | dvc/tree/base.py:330-346 | collecting `xs + ys` is collecting `xs` and then, if that succeeded, `ys`; an error stops the loop |
| Hashing.CollectRejectsIgnoreFile | dvc/tree/base.py:333-334 | a `.dvcignore` member anywhere makes collection fail |
| Hashing.CollectOutcome | dvc/tree/base.py:332-346 | a failure names the parent of a `.dvcignore` member or a member outside the root; a success means neither occurs |
| Hashing.CollectDir | dvc/tree/base.py:330-346 | a collected manifest has distinct keys; a failure is a `.dvcignore` member or a member outside the collected root |
| Hashing.CollectStoresEachMember | dvc/tree/base.py:344 | distinct members under the root are each stored under their relative path with their own hash, one entry each, earlier entries untouched |
| Hashing.RelativeInjective | dvc/tree/base.py:344 | distinct members have distinct relative paths, so no member overwrites another in the trie |
| Hashing.DirHashIsDirectoryHash | dvc/tree/base.py:349-353 | `get_dir_hash` returns a directory hash whose size is the manifest's aggregate size |
| Hashing.DirHash | dvc/tree/base.py:348-353 | `get_dir_hash` fails exactly when collection fails, with the same error; otherwise the hash is truthy and carries the local cache's checksum name |
| Hashing.SaveArtifact | dvc/tree/base.py:351 | saving a directory hash adds its artifact to the local cache and removes nothing; any other cache is left unchanged |
| Hashing.CachedHash | dvc/tree/base.py:258-270 | a cached hash is used exactly when it is truthy and, for a directory hash, its artifact is still in the cache |
| Hashing.ComputeHash | dvc/tree/base.py:278-281 | a file's hash is the backend's `get_file_hash`; a directory's is a truthy hash with the cache's checksum name |
| Hashing.GetHashResult | dvc/tree/base.py:248-286 | no hash exactly when the location is missing; a checksum mismatch comes only from a usable cached hash with another checksum name; a usable cached hash that is returned is the cached one and has the tree's checksum name |
| Hashing.GetHashState | dvc/tree/base.py:283-284 | only the entry for the location may change, and only to a truthy hash when the second existence probe finds the location |
| Hashing.GetHashCache | dvc/tree/base.py:278-279 | the cache only gains artifacts; it is unchanged for a missing location, a usable cached hash or a file |
| Hashing.GetHashOps | dvc/tree/base.py:248-286 | a missing location makes no call; the only calls are `get_file_hash`, `set_dir_info` and `save_dir_info` |
| Hashing.GetHashAbsent | dvc/tree/base.py:254-255 | a missing location yields no hash, with no primitive call and no state change |
| Hashing.GetHashHit | dvc/tree/base.py:272-276 | a usable cached hash is returned unchanged and not recomputed; a directory hash is re-registered with `set_dir_info` |
| Hashing.GetHashStaleDirRecomputed | dvc/tree/base.py:263-270 | a cached directory hash whose artifact is gone is ignored and the hash is computed afresh |
| Hashing.GetHashMissDispatch | dvc/tree/base.py:278-281 | on a miss, directories go to `get_dir_hash` and files to `get_file_hash` |
| Hashing.GetHashSavesOnlyExisting | dvc/tree/base.py:283-284 | the state cache changes only by recording a truthy computed hash for the location, and only if it still exists |
| Hashing.GetHashFileComputedOnce | dvc/tree/base.py:249-286 | a second `get_hash` of a file returns the same hash without calling `get_file_hash` again |
| Hashing.GetHashDirComputedOnce | dvc/tree/base.py:258-279 | once a directory hash is computed and its artifact saved in the local cache, a second `get_hash` returns it from the state cache, with only a `set_dir_info` call |
| Transfer.TmpName | dvc/tree/base.py:462 | the temporary file lies on the destination's scheme |
| Transfer.TmpNameIsSibling | dvc/tree/base.py:462 | the temporary file lies in the destination's directory and is never the destination |
| Transfer.FileOutcome | dvc/tree/base.py:454-468 | `_download_file` fails exactly when `_download` fails, with that error unchanged |
| Transfer.Destinations | dvc/tree/base.py:418-421 | each member goes to `to / relative path`, up to the first member outside `from` |
| Transfer.FirstFailing | dvc/tree/base.py:444-452 | the index of the first member whose download fails: all before it succeed |
| Transfer.DirOutcome | dvc/tree/base.py:415-452 | the directory download passes exactly when every walked member lies under `from` and downloads without error; a failure is `relative_to`'s or a transfer's |
| Transfer.DirOps | dvc/tree/base.py:415-452 | when the directory download passes, it makes three calls per walked member |
| Transfer.DirSuccessPlacesEveryMember | dvc/tree/base.py:415-452 | after a successful directory download every walked member has been moved onto its mapped destination |
| Transfer.DirFailureIsFirstError | dvc/tree/base.py:444-452 | a transfer failure is the first failing member's error; members before it succeeded; three calls were made per earlier member and two for it |
| Transfer.DirFailureStopsAtFailingFetch | dvc/tree/base.py:444-452 | the calls of a failed directory download are those of the earlier members, then the failing member's `makedirs` and fetch: no later member is fetched |
| Transfer.FailedFileOps | dvc/tree/base.py:457-468 | a `_download_file` whose `_download` raises creates the parent and fetches, and never moves onto the destination |
| Transfer.MovesFollowFetches | dvc/tree/base.py:454-468 | every move onto a destination immediately follows a successful fetch into its temporary name |
| Transfer.DownloadResult | dvc/tree/base.py:387-413 | success needs `_download` and a source on the tree's scheme; 0 is returned exactly for the same-remote copy on a non-local scheme; any other success is a local download |
| Transfer.DownloadOps | dvc/tree/base.py:387-413 | calls are made only with `_download`, a source on the tree's scheme, and a destination on the tree's scheme or local |
| Transfer.DownloadPreconditionsFirst | dvc/tree/base.py:396-407 | a missing `_download`, a foreign source scheme or a foreign non-local destination raise before any primitive call |
| Transfer.DownloadSameRemoteCopies | dvc/tree/base.py:402-404 | a destination on the tree's own non-local scheme is served by one `copy` and returns 0 |
| Transfer.DownloadFileAtomic | dvc/tree/base.py:454-468 | a file download succeeds exactly when the temporary file is moved onto the destination, which is never written any other way |
| Transfer.UploadResult | dvc/tree/base.py:355-376 | `upload` passes exactly when `_upload` exists, the destination is on the tree's scheme, the source is local and `_upload` does not raise; a transfer error is `_upload`'s |
| Transfer.UploadOps | dvc/tree/base.py:355-376 | `upload` makes at most the one `_upload` call, and makes it whenever it passes |
| Transfer.UploadPreconditionsFirst | dvc/tree/base.py:358-365 | `upload` refuses without `_upload`, for a foreign destination and for a non-local source, and transfers exactly when all checks pass |
| Transfer.MoveResult | dvc/tree/base.py:224-229 | `move` succeeds exactly when the backend can copy and remove; otherwise it raises `RemoteActionNotImplemented` for the tree's scheme |
| Transfer.MoveOps | dvc/tree/base.py:224-226 | `move` starts with the copy, and removes the source exactly when it succeeds |
| Transfer.MoveCopiesBeforeRemoving | dvc/tree/base.py:224-226 | `move` removes the source only after a copy, and succeeds exactly when both happen |
| Tree.BaseTree.constructor | dvc/tree/base.py:71-77 | a tree starts with the given backend, cache and state and no calls made |
| Tree.BaseTree.GetFileHash | dvc/tree/base.py:288-289 | returns the backend's hash of the file and records one call |
| Tree.BaseTree.CalculateHashes | dvc/tree/base.py:294-303 | the loop yields `Hashing.CalculateHashes` and makes one `get_file_hash` call per file, in order |
| Tree.BaseTree.CollectMembers | dvc/tree/base.py:331-346 | the trie-building loop returns `Hashing.CollectFrom` of the members |
| Tree.BaseTree.CollectHits | dvc/tree/base.py:318-332 | the walk collects the state hits as `CollectFrom` does and sets aside exactly the misses |
| Tree.BaseTree.CollectDir | dvc/tree/base.py:330-346 | returns `Hashing.CollectDir` and makes exactly the calls of `CollectOps` |
| Tree.BaseTree.SaveManifest | dvc/tree/base.py:351 | `save_dir_info` returns the manifest's directory hash, saves its artifact into the local cache and records one call |
| Tree.BaseTree.GetDirHash | dvc/tree/base.py:348-353 | returns `Hashing.DirHash`; the cache becomes `DirHashCache` and the calls are collection's plus one `save_dir_info` |
| Tree.BaseTree.GetHash | dvc/tree/base.py:248-286 | result, new state cache, new cache and calls are those of `GetHashResult`, `GetHashState`, `GetHashCache`, `GetHashOps` on the old state and cache |
| Tree.BaseTree.Copy | dvc/tree/base.py:228-229 | raises `RemoteActionNotImplemented("copy", scheme)` unless the backend can copy |
| Tree.BaseTree.Move | dvc/tree/base.py:224-226 | outcome and calls are `MoveResult` and `MoveOps` |
| Tree.BaseTree.Upload | dvc/tree/base.py:355-376 | outcome and calls are `UploadResult` and `UploadOps` |
| Tree.BaseTree.DownloadFile | dvc/tree/base.py:454-468 | outcome and calls are `FileOutcome` and `FileOps` |
| Tree.BaseTree.DownloadAll | dvc/tree/base.py:433-437 | every submitted pair is transferred in order, whatever the outcomes |
| Tree.BaseTree.DownloadUntilFailure | dvc/tree/base.py:444-452 | transfers up to and including the first failing pair and returns that pair's error unchanged |
| Tree.BaseTree.DownloadDir | dvc/tree/base.py:415-452 | outcome and calls are `DirOutcome` and `DirOps` |
| Tree.BaseTree.Download | dvc/tree/base.py:387-413 | result and calls are `DownloadResult` and `DownloadOps` |
| ExperimentsGc.RefName | dvc/repo/experiments/gc.py:42 | an experiment ref's full name starts with the experiments namespace, so it is never empty |
| ExperimentsGc.KeepRevs | dvc/repo/experiments/gc.py:21-30 | the keep-set is the branch revisions, plus the workspace revision when asked for, and nothing else |
| ExperimentsGc.RemovedRefs | dvc/repo/experiments/gc.py:40-41 | no more refs are removed than are listed |
| ExperimentsGc.ExecCleared | dvc/repo/experiments/gc.py:43-48 | with no ref removed, no execution pointer is cleared |
| ExperimentsGc.GcRefs | dvc/repo/experiments/gc.py:39-50 | `gc` only deletes refs: no new name, and every remaining ref keeps its value |
| ExperimentsGc.RemovedRefsMembers | dvc/repo/experiments/gc.py:40-41 | the refs removed are exactly the listed refs whose baseline is not kept |
| ExperimentsGc.KeptRefUntouched | dvc/repo/experiments/gc.py:40-41 | a ref whose baseline is kept keeps its value |
| ExperimentsGc.RemovedRefGone | dvc/repo/experiments/gc.py:49 | a listed ref whose baseline is not kept is deleted |
| ExperimentsGc.ExecBranchClearedOnAnyRemoval | dvc/repo/experiments/gc.py:43-44 | `EXEC_BRANCH` is cleared exactly when it is set and at least one ref is removed |
| ExperimentsGc.PointerClearedOnlyOnMatch | dvc/repo/experiments/gc.py:45-48 | `EXEC_APPLY` and `EXEC_CHECKPOINT` are each cleared exactly when set and equal to the value of some removed ref |
| ExperimentsGc.OtherRefsUntouched | dvc/repo/experiments/gc.py:39-50 | refs that are neither listed experiment refs nor execution pointers are never touched |
| ExperimentsGc.RefsAfterIsGcRefs | dvc/repo/experiments/gc.py:40-50 | processing the listing one ref at a time gives the refs minus the removed names and the cleared pointers |
| ExperimentsGc.RemovedCountIsDistinct | dvc/repo/experiments/gc.py:50 | the ref part of the count equals the number of distinct refs deleted |
| ExperimentsGc.ToDrop | dvc/repo/experiments/gc.py:54 | with `queued` false every entry is selected; with `queued` true an entry whose baseline is kept is not |
| ExperimentsGc.Surviving | dvc/repo/experiments/gc.py:52-57 | the stash never grows |
| ExperimentsGc.DroppedCount | dvc/repo/experiments/gc.py:52-58 | no more entries are counted than the stash holds |
| ExperimentsGc.SurvivingMembers | dvc/repo/experiments/gc.py:52-57 | the stash keeps exactly the entries not selected for dropping |
| ExperimentsGc.SurvivingPlusDropped | dvc/repo/experiments/gc.py:52-58 | every stash entry is either kept or counted as dropped |
| ExperimentsGc.NotQueuedDropsAll | dvc/repo/experiments/gc.py:54 | with `queued` false every stash entry is dropped and counted |
| ExperimentsGc.Drop | dvc/repo/experiments/gc.py:57 | `stash.drop(i)` removes the entry at `i` and shifts later entries down by one |
| ExperimentsGc.SelectStashes | dvc/repo/experiments/gc.py:52-55 | the selected indices are ascending, each one selected, every selected index is present, and there are `DroppedCount` of them |
| ExperimentsGc.DropStep | dvc/repo/experiments/gc.py:56-57 | dropping the next lower selected index removes the entry originally there, because every earlier drop was at a higher index |
| ExperimentsGc.WorkedExample | dvc/repo/experiments/gc.py:12-60 | keeping only "rev1": the "rev2" ref, the pointer at it and the queued "rev2" entry go, the "rev1" ref stays, and the count is 2 |
| ExperimentsGc.ExpRepo.RemoveRef | dvc/repo/experiments/gc.py:49 | `remove_ref` deletes exactly the named ref |
| ExperimentsGc.ExpRepo.DropStash | dvc/repo/experiments/gc.py:57 | the stash becomes `Drop` of the old stash |
| ExperimentsGc.ExpRepo.Gc | dvc/repo/experiments/gc.py:12-60 | an empty keep-set changes nothing and returns 0; otherwise refs become `GcRefs`, the stash becomes `Surviving`, and the count is removed refs plus dropped entries |
| ExperimentsGc.ExpRepo.RemoveExpRefs | dvc/repo/experiments/gc.py:35-50 | the ref loop leaves `GcRefs` of the old refs and counts the removed refs |
| ExperimentsGc.ExpRepo.RemoveListed | dvc/repo/experiments/gc.py:42-49 | one iteration removes the ref and the pointers it clears |
| ExperimentsGc.ExpRepo.DropStashes | dvc/repo/experiments/gc.py:52-58 | dropping from the highest selected index down leaves exactly the surviving entries in order, and counts the dropped ones |

## Left out

- Hashes.ManifestSize: a directory's aggregate size is unknown as soon as one member's size is unknown. The summation of `DirInfo.size` is not part of this model. The choice of "unknown propagates" over "unknown counts as zero" is this model's.
- Tree.BaseTree.GetHash: requires a location object on the tree's own scheme. Plain string paths, which the assertion at dvc/tree/base.py:250-252 also admits, are not modelled.
- The assertion that a cached hash carries the tree's checksum name (dvc/tree/base.py:273) is modelled as a `ChecksumMismatch` error result, not as an interpreter assertion.
- `use_state`, the state database's context handling and its persistence: the state cache is a map field of `BaseTree`.
- Thread pools (`ThreadPoolExecutor`, `hash_jobs`, `jobs`, the `jobs` argument of `download`): hashing and transfers run in submission order. `as_completed` is taken to report completions in submission order, so the first failure raised is the first failure in walk order.
- Cancelling futures that are already running: members after the first failure are not transferred.
- In `_download_dir`, members submitted before one that raises in `relative_to` are transferred in full before that error surfaces. Which of them actually ran is not modelled beyond that.
- `_calculate_hashes` builds a dict, so a file walked twice keeps one entry. The model keeps one pair per walked occurrence.
- The random uuid of `tmp_fname` is a `tag` parameter.
- The second `exists` probe in `get_hash` is a `stillExists` parameter.
- Errors of `makedirs` and of the final local `move` in `_download_file` are not modelled: only `_download` fails. The atomicity of the local move is taken as given.
- The backend primitives `get_file_hash`, `copy`, `remove`, `exists`, `isdir`, `walk_files` and `ls` are taken never to raise. The only failures modelled are `_download`, `_upload`, and an unimplemented `copy` or `remove`. So the model does not cover these cases:
  - a `get_file_hash` that raises inside `_calculate_hashes` or at dvc/tree/base.py:281, which would leave `get_hash` without its `state.save` and `get_dir_hash` without its `save_dir_info`;
  - a `copy` that raises in the same-remote shortcut of `download`, or inside `move`, where it would skip the `remove`;
  - a failing `remove`, existence probe, walk or listing.
- The serialisation of `DirInfo` and the digest `save_dir_info` computes are an oracle (`CacheStore.digest`). The implementation of `save_dir_info` (dvc/cache) is not part of this model. The model takes it to write the directory artifact at `hash_to_path_info` of the hash, and only when the tree's cache is the repository's local cache (`CacheStore.isLocal`); otherwise the cache the tree consults does not change.
- `PathInfo / ""` follows `pathlib`: an empty segment adds nothing (`Hashes.JoinSegment`). This matters only for hashes of at most two characters.
- Progress bars (`Tqdm`), logging, `RemoteCmdError`, `RemoteMissingDepsError`, `_check_requires`, `get_missing_deps`, `supported`, `open`, `upload_fobj`, `is_empty`, `getsize`, `isfile`, `isexec`, `iscopy`, `symlink`, `hardlink`, `reflink`: these are I/O or dependency probing outside the hashing and transfer logic.
- Windows path separators: the lossy `\` to `/` transformation in `_collect_dir` is not modelled.
- `gc`: the `@locked` repository lock is not modelled.
- `gc`: `brancher`, `scm.get_rev`, `exp_refs` and `stash_revs` are inputs: the branch revisions, the workspace revision, the listed refs and the stash.
- `gc`: the listing is taken to name each ref once and never an execution pointer.
- `gc`: a stash entry's index is its position.
- `gc`: `EXEC_BRANCH` is a symbolic ref read with `follow=False`. It is modelled as a plain value.
- `gc`: removing a ref that is already gone is taken to change nothing.
- The layout of an experiment ref's full name in dvc/repo/experiments/base.py is not part of this model. Only the namespace prefix matters here, because it makes the name non-empty.
