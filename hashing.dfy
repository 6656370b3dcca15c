/**
 * Specification of directory hashing in dvc/tree/base.py: which
 * (file, hash) pairs `_iter_hashes` yields, how `_collect_dir` turns them into
 * a manifest, and the hash `get_dir_hash` returns. The state cache is a map
 * from location to the hash recorded for it.
 */
module Hashing {
  import opened Wrappers
  import opened Paths
  import opened Hashes
  import opened TreeErrors
  import opened Backends

  /** A (file, hash) pair as `_iter_hashes` yields it. */
  datatype Member = Member(file: PathInfo, hash: HashInfo)

  function Files(ms: seq<Member>): (r: seq<PathInfo>)
    ensures |r| == |ms| && forall i :: 0 <= i < |ms| ==> r[i] == ms[i].file
  {
    seq(|ms|, i requires 0 <= i < |ms| => ms[i].file)
  }

  lemma {:induction false} HitsAppend(a: seq<PathInfo>, b: seq<PathInfo>, state: map<PathInfo, HashInfo>)
    ensures Hits(a + b, state) == Hits(a, state) + Hits(b, state)
    decreases |b|
  {
    if b != [] {
      var n := |b| - 1;
      assert (a + b)[..|a + b| - 1] == a + b[..n];
      HitsAppend(a, b[..n], state);
    } else {
      assert a + b == a;
    }
  }

  lemma FilesAppend(a: seq<Member>, b: seq<Member>)
    ensures Files(a + b) == Files(a) + Files(b)
  {
  }

  /** `state.get(f)` returns a truthy hash. */
  predicate StateHit(state: map<PathInfo, HashInfo>, f: PathInfo)
  {
    f in state && Truthy(state[f])
  }

  /** The walked files the state cache answers for, paired with the cached hash, in walk order. */
  function Hits(files: seq<PathInfo>, state: map<PathInfo, HashInfo>): (r: seq<Member>)
    ensures forall i :: 0 <= i < |r| ==> StateHit(state, r[i].file) && r[i].hash == state[r[i].file]
  {
    if files == [] then []
    else
      var f := files[|files| - 1];
      Hits(files[..|files| - 1], state) + if StateHit(state, f) then [Member(f, state[f])] else []
  }

  /** The walked files the state cache has no truthy hash for: the `file_infos` batch, in walk order. */
  function Misses(files: seq<PathInfo>, state: map<PathInfo, HashInfo>): (r: seq<PathInfo>)
    ensures forall f :: f in r <==> f in files && !StateHit(state, f)
  {
    if files == [] then []
    else
      var f := files[|files| - 1];
      var r := Misses(files[..|files| - 1], state) + if StateHit(state, f) then [] else [f];
      assert forall g :: g in files <==> g in files[..|files| - 1] || g == f;
      r
  }

  /** `_calculate_hashes`: each file paired with its own `get_file_hash` result, in input order. */
  function CalculateHashes(b: Backend, files: seq<PathInfo>): (r: seq<Member>)
    ensures |r| == |files|
    ensures forall i :: 0 <= i < |r| ==> r[i] == Member(files[i], b.fileHash(files[i]))
  {
    if files == [] then []
    else CalculateHashes(b, files[..|files| - 1]) + [Member(files[|files| - 1], b.fileHash(files[|files| - 1]))]
  }

  /** The pairs read off a detailed recursive listing, with no further I/O. */
  function ListingPairs(b: Backend, root: PathInfo): (r: seq<Member>)
  {
    var ds := b.lsDetail(root);
    seq(|ds|, i requires 0 <= i < |ds| =>
      Member(PathInfo(root.scheme, ds[i].name), HashInfo(b.paramChecksum, ds[i].checksum, ds[i].size)))
  }

  /** Whether `_iter_hashes` takes its pairs from the listing rather than from a walk. */
  predicate ListsChecksums(b: Backend)
  {
    b.paramChecksum in b.detailFields
  }

  /** `_iter_hashes`: listing pairs, or the state hits in walk order followed by the computed misses. */
  function IterHashes(b: Backend, state: map<PathInfo, HashInfo>, root: PathInfo): (r: seq<Member>)
    ensures ListsChecksums(b) ==> |r| == |b.lsDetail(root)|
    ensures !ListsChecksums(b) ==> |r| == |b.walkFiles(root)|
  {
    if ListsChecksums(b) then ListingPairs(b, root)
    else
      var files := b.walkFiles(root);
      HitsMissesSplit(files, state);
      assert |multiset(Files(Hits(files, state)))| + |multiset(Misses(files, state))| == |multiset(files)|;
      Hits(files, state) + CalculateHashes(b, Misses(files, state))
  }

  /** One step of `_collect_dir`: reject a `.dvcignore` member, otherwise record its hash under its relative path. */
  function AddMember(root: PathInfo, m: Manifest, x: Member): (r: Result<Manifest, Error>)
    requires KeysDistinct(m)
    ensures r.Success? ==> KeysDistinct(r.value)
  {
    if Name(x.file) == DVCIGNORE_FILE then Failure(IgnoreInCollectedDir(Parent(x.file)))
    else match RelativeTo(x.file, root)
      case None => Failure(NotRelative(x.file, root))
      case Some(key) => Success(Insert(m, key, x.hash))
  }

  /** `_collect_dir` from manifest `m` over `xs`, stopping at the first member that raises. */
  function CollectFrom(root: PathInfo, m: Manifest, xs: seq<Member>): (r: Result<Manifest, Error>)
    requires KeysDistinct(m)
    ensures r.Success? ==> KeysDistinct(r.value)
    decreases |xs|
  {
    if xs == [] then Success(m)
    else match AddMember(root, m, xs[0])
      case Failure(e) => Failure(e)
      case Success(m') => CollectFrom(root, m', xs[1..])
  }

  /** `_collect_dir(root)` over the pairs `_iter_hashes` yields. */
  function CollectDir(b: Backend, state: map<PathInfo, HashInfo>, root: PathInfo): (r: Result<Manifest, Error>)
    ensures r.Success? ==> KeysDistinct(r.value)
    ensures r.Failure? ==> r.error.IgnoreInCollectedDir? || (r.error.NotRelative? && r.error.root == root)
  {
    CollectOutcome(root, [], IterHashes(b, state, root));
    CollectFrom(root, [], IterHashes(b, state, root))
  }

  /** The hash `save_dir_info` returns for a manifest, with `get_dir_hash`'s size attached. */
  function ManifestHash(cache: CacheStore, m: Manifest): HashInfo
  {
    HashInfo(cache.checksumName, cache.digest(m) + CHECKSUM_DIR_SUFFIX, ManifestSize(m))
  }

  /** `get_dir_hash(root)` */
  function DirHash(b: Backend, cache: CacheStore, state: map<PathInfo, HashInfo>, root: PathInfo): (r: Result<HashInfo, Error>)
    ensures r.Success? <==> CollectDir(b, state, root).Success?
    ensures r.Failure? ==> r.error == CollectDir(b, state, root).error
    ensures r.Success? ==> r.value.name == cache.checksumName && Truthy(r.value)
  {
    match CollectDir(b, state, root)
    case Failure(e) => Failure(e)
    case Success(m) => Success(ManifestHash(cache, m))
  }

  /**
   * The tree's cache after `save_dir_info` wrote the artifact of `h`: the
   * artifact appears in it when it is the local cache written into, and it is
   * unchanged otherwise.
   */
  function SaveArtifact(cache: CacheStore, h: HashInfo): (r: CacheStore)
    ensures r.root == cache.root && r.isLocal == cache.isLocal && r.checksumName == cache.checksumName
    ensures cache.artifacts <= r.artifacts
    ensures !cache.isLocal ==> r == cache
    ensures cache.isLocal ==> r.artifacts == cache.artifacts + {HashToPathInfo(cache.root, h.value)}
  {
    if cache.isLocal then cache.(artifacts := cache.artifacts + {HashToPathInfo(cache.root, h.value)}) else cache
  }

  /** The tree's cache after `get_dir_hash(root)`: a collection that raised saves nothing. */
  function DirHashCache(b: Backend, cache: CacheStore, state: map<PathInfo, HashInfo>, root: PathInfo): CacheStore
  {
    match DirHash(b, cache, state, root)
    case Failure(_) => cache
    case Success(h) => SaveArtifact(cache, h)
  }

  /** One `get_file_hash` call per file, in order. */
  function HashOps(files: seq<PathInfo>): (r: seq<Op>)
    ensures |r| == |files| && forall i :: 0 <= i < |files| ==> r[i] == FileHash(files[i])
  {
    seq(|files|, i requires 0 <= i < |files| => FileHash(files[i]))
  }

  /**
   * The calls `_collect_dir` makes: on the walk path the misses are hashed
   * once the walk is over, which is never reached when a state hit already
   * made collection fail (the pairs are consumed as they are yielded).
   */
  function CollectOps(b: Backend, state: map<PathInfo, HashInfo>, root: PathInfo): seq<Op>
  {
    if ListsChecksums(b) then []
    else
      var files := b.walkFiles(root);
      if CollectFrom(root, [], Hits(files, state)).Success? then HashOps(Misses(files, state)) else []
  }

  /** The calls `get_dir_hash` makes: collection, then `save_dir_info` of the manifest. */
  function DirHashOps(b: Backend, state: map<PathInfo, HashInfo>, root: PathInfo): seq<Op>
  {
    CollectOps(b, state, root) +
      match CollectDir(b, state, root)
      case Success(m) => [SaveDirInfo(m)]
      case Failure(_) => []
  }

  /** The cache artifact of a directory hash is present in the cache. */
  predicate ArtifactPresent(cache: CacheStore, h: HashInfo)
  {
    HashToPathInfo(cache.root, h.value) in cache.artifacts
  }

  /**
   * The usable entry of the state cache for `p`: a truthy cached hash, unless
   * it is a directory hash whose artifact has vanished from the cache.
   */
  function CachedHash(state: map<PathInfo, HashInfo>, cache: CacheStore, p: PathInfo): (r: Option<HashInfo>)
    ensures r.Some? <==> StateHit(state, p) && (IsDir(state[p]) ==> ArtifactPresent(cache, state[p]))
    ensures r.Some? ==> r.value == state[p]
  {
    if StateHit(state, p) && !(IsDir(state[p]) && !ArtifactPresent(cache, state[p])) then Some(state[p]) else None
  }

  /** The hash `get_hash` computes on a miss: `get_dir_hash` for a directory, `get_file_hash` otherwise. */
  function ComputeHash(b: Backend, cache: CacheStore, state: map<PathInfo, HashInfo>, p: PathInfo): (r: Result<HashInfo, Error>)
    ensures !b.isdir(p) ==> r == Success(b.fileHash(p))
    ensures b.isdir(p) && r.Success? ==> r.value.name == cache.checksumName && Truthy(r.value)
  {
    if b.isdir(p) then DirHash(b, cache, state, p) else Success(b.fileHash(p))
  }

  /** What `get_hash(p)` returns or raises. */
  function GetHashResult(b: Backend, cache: CacheStore, state: map<PathInfo, HashInfo>, p: PathInfo)
    : (r: Result<Option<HashInfo>, Error>)
    ensures r.Success? && r.value.None? <==> !b.pathExists(p)
    ensures r.Failure? && r.error.ChecksumMismatch? ==>
              CachedHash(state, cache, p).Some? && state[p].name != b.paramChecksum
    ensures r.Success? && r.value.Some? && CachedHash(state, cache, p).Some? ==>
              r.value.value == state[p] && state[p].name == b.paramChecksum
  {
    if !b.pathExists(p) then Success(None)
    else match CachedHash(state, cache, p)
      case Some(h) =>
        if h.name == b.paramChecksum then Success(Some(h)) else Failure(ChecksumMismatch(b.paramChecksum, h.name))
      case None =>
        match ComputeHash(b, cache, state, p)
        case Success(h) => Success(Some(h))
        case Failure(e) => Failure(e)
  }

  /**
   * The state cache after `get_hash(p)`; `stillExists` is the answer of the
   * second `exists(p)` probe, made after the computation.
   */
  function GetHashState(b: Backend, cache: CacheStore, state: map<PathInfo, HashInfo>, p: PathInfo, stillExists: bool)
    : (r: map<PathInfo, HashInfo>)
    ensures forall q :: q != p ==> (q in r <==> q in state)
    ensures forall q :: q != p && q in r ==> r[q] == state[q]
    ensures p in r && (p !in state || r[p] != state[p]) ==> stillExists && Truthy(r[p])
  {
    if !b.pathExists(p) || CachedHash(state, cache, p).Some? then state
    else match ComputeHash(b, cache, state, p)
      case Success(h) => if Truthy(h) && stillExists then state[p := h] else state
      case Failure(_) => state
  }

  /** The tree's cache after `get_hash(p)`: only a directory hash computed afresh writes an artifact. */
  function GetHashCache(b: Backend, cache: CacheStore, state: map<PathInfo, HashInfo>, p: PathInfo): (r: CacheStore)
    ensures r.root == cache.root && r.isLocal == cache.isLocal && r.checksumName == cache.checksumName
    ensures cache.artifacts <= r.artifacts
    ensures !b.pathExists(p) || CachedHash(state, cache, p).Some? || !b.isdir(p) ==> r == cache
  {
    if !b.pathExists(p) || CachedHash(state, cache, p).Some? || !b.isdir(p) then cache
    else DirHashCache(b, cache, state, p)
  }

  /** The primitive calls `get_hash(p)` makes. */
  function GetHashOps(b: Backend, cache: CacheStore, state: map<PathInfo, HashInfo>, p: PathInfo): (r: seq<Op>)
    ensures !b.pathExists(p) ==> r == []
    ensures forall op :: op in r ==> op.FileHash? || op.SetDirInfo? || op.SaveDirInfo?
  {
    if !b.pathExists(p) then []
    else match CachedHash(state, cache, p)
      case Some(h) => if h.name == b.paramChecksum && IsDir(h) then [SetDirInfo(h)] else []
      case None => if b.isdir(p) then DirHashOps(b, state, p) else [FileHash(p)]
  }

  // ---------------------------------------------------------------- lemmas

  /** The hits and the misses split the walk: every walked file is in exactly one of them, as often as it is walked. */
  lemma {:induction false} HitsMissesSplit(files: seq<PathInfo>, state: map<PathInfo, HashInfo>)
    ensures multiset(Files(Hits(files, state))) + multiset(Misses(files, state)) == multiset(files)
  {
    if files != [] {
      var init, f := files[..|files| - 1], files[|files| - 1];
      HitsMissesSplit(init, state);
      assert files == init + [f];
      var hi, mi := Hits(init, state), Misses(init, state);
      assert multiset(files) == multiset(init) + multiset{f};
      if StateHit(state, f) {
        assert Hits(files, state) == hi + [Member(f, state[f])];
        FilesAppend(hi, [Member(f, state[f])]);
        assert Files(Hits(files, state)) == Files(hi) + [f];
        assert multiset(Files(Hits(files, state))) == multiset(Files(hi)) + multiset{f};
        assert Misses(files, state) == mi;
      } else {
        assert Hits(files, state) == hi;
        assert Misses(files, state) == mi + [f];
        assert multiset(Misses(files, state)) == multiset(mi) + multiset{f};
      }
    }
  }

  /** On the walk path every walked file is yielded exactly as many times as it is walked. */
  lemma IterHashesYieldsEachWalkedFile(b: Backend, state: map<PathInfo, HashInfo>, root: PathInfo)
    requires !ListsChecksums(b)
    ensures multiset(Files(IterHashes(b, state, root))) == multiset(b.walkFiles(root))
  {
    var files := b.walkFiles(root);
    var hs, ms := Hits(files, state), Misses(files, state);
    FilesAppend(hs, CalculateHashes(b, ms));
    assert Files(CalculateHashes(b, ms)) == ms;
    HitsMissesSplit(files, state);
  }

  /**
   * On the walk path each yielded hash belongs to its own file: the cached one
   * when the state cache has it, otherwise the one `get_file_hash` computed.
   */
  lemma IterHashesAttribution(b: Backend, state: map<PathInfo, HashInfo>, root: PathInfo, i: nat)
    requires !ListsChecksums(b)
    requires i < |IterHashes(b, state, root)|
    ensures var x := IterHashes(b, state, root)[i];
            x.hash == if StateHit(state, x.file) then state[x.file] else b.fileHash(x.file)
  {
    var files := b.walkFiles(root);
    var hs := Hits(files, state);
    var ms := Misses(files, state);
    if i >= |hs| {
      var k := i - |hs|;
      assert CalculateHashes(b, ms)[k].file in Files(CalculateHashes(b, ms));
      assert ms[k] in ms;
    }
  }

  /** On the listing path the pairs come from the listing alone, one per listed entry. */
  lemma IterHashesFromListing(b: Backend, state: map<PathInfo, HashInfo>, root: PathInfo)
    requires ListsChecksums(b)
    ensures |IterHashes(b, state, root)| == |b.lsDetail(root)|
    ensures forall i :: 0 <= i < |b.lsDetail(root)| ==>
              IterHashes(b, state, root)[i].file.parts == b.lsDetail(root)[i].name &&
              IterHashes(b, state, root)[i].hash.value == b.lsDetail(root)[i].checksum
  {
  }

  /** Collecting `xs + ys` is collecting `xs` and then, if that succeeded, `ys`. */
  lemma {:induction false} CollectAppend(root: PathInfo, m: Manifest, xs: seq<Member>, ys: seq<Member>)
    requires KeysDistinct(m)
    ensures CollectFrom(root, m, xs + ys) ==
              match CollectFrom(root, m, xs)
              case Failure(e) => Failure(e)
              case Success(m') => CollectFrom(root, m', ys)
    decreases |xs|
  {
    if xs == [] {
      assert xs + ys == ys;
    } else {
      assert (xs + ys)[0] == xs[0] && (xs + ys)[1..] == xs[1..] + ys;
      match AddMember(root, m, xs[0])
      case Failure(_) =>
      case Success(m') => CollectAppend(root, m', xs[1..], ys);
    }
  }

  /** Walking one more file adds it to the hits or to the misses. */
  lemma WalkStep(files: seq<PathInfo>, i: nat, state: map<PathInfo, HashInfo>)
    requires i < |files|
    ensures Hits(files[..i + 1], state) ==
              Hits(files[..i], state) + if StateHit(state, files[i]) then [Member(files[i], state[files[i]])] else []
    ensures Misses(files[..i + 1], state) ==
              Misses(files[..i], state) + if StateHit(state, files[i]) then [] else [files[i]]
  {
    assert files[..i + 1][..i] == files[..i];
  }

  /** Walking a state hit: collection takes one `AddMember` step and the misses stay as they were. */
  lemma WalkHitStep(root: PathInfo, files: seq<PathInfo>, i: nat, state: map<PathInfo, HashInfo>, m: Manifest)
    requires i < |files| && StateHit(state, files[i])
    requires CollectFrom(root, [], Hits(files[..i], state)) == Success(m)
    ensures KeysDistinct(m)
    ensures CollectFrom(root, [], Hits(files[..i + 1], state)) == AddMember(root, m, Member(files[i], state[files[i]]))
    ensures Misses(files[..i + 1], state) == Misses(files[..i], state)
  {
    WalkStep(files, i, state);
    CollectStep(root, Hits(files[..i], state), Member(files[i], state[files[i]]), m);
  }

  /** Walking a miss: it joins the misses and collection is unchanged. */
  lemma WalkMissStep(files: seq<PathInfo>, i: nat, state: map<PathInfo, HashInfo>)
    requires i < |files| && !StateHit(state, files[i])
    ensures Hits(files[..i + 1], state) == Hits(files[..i], state)
    ensures Misses(files[..i + 1], state) == Misses(files[..i], state) + [files[i]]
  {
    WalkStep(files, i, state);
  }

  /** A failure while collecting the hits of a walk prefix is the failure for the whole walk. */
  lemma WalkFailureStops(root: PathInfo, files: seq<PathInfo>, i: nat, state: map<PathInfo, HashInfo>)
    requires i <= |files|
    requires CollectFrom(root, [], Hits(files[..i], state)).Failure?
    ensures CollectFrom(root, [], Hits(files, state)) == CollectFrom(root, [], Hits(files[..i], state))
  {
    HitsAppend(files[..i], files[i..], state);
    assert files[..i] + files[i..] == files;
    CollectFailurePersists(root, Hits(files[..i], state), Hits(files[i..], state));
  }

  /** Collecting one more member after a successful prefix is one `AddMember` step. */
  lemma CollectStep(root: PathInfo, xs: seq<Member>, x: Member, m: Manifest)
    requires CollectFrom(root, [], xs) == Success(m)
    ensures KeysDistinct(m)
    ensures CollectFrom(root, [], xs + [x]) == AddMember(root, m, x)
  {
    CollectAppend(root, [], xs, [x]);
  }

  /** Once a prefix fails, nothing after it changes the error. */
  lemma CollectFailurePersists(root: PathInfo, xs: seq<Member>, ys: seq<Member>)
    requires CollectFrom(root, [], xs).Failure?
    ensures CollectFrom(root, [], xs + ys) == CollectFrom(root, [], xs)
  {
    CollectAppend(root, [], xs, ys);
  }

  /** A `.dvcignore` member anywhere makes collection fail. */
  lemma {:induction false} CollectRejectsIgnoreFile(root: PathInfo, m: Manifest, xs: seq<Member>, i: nat)
    requires KeysDistinct(m)
    requires i < |xs| && Name(xs[i].file) == DVCIGNORE_FILE
    ensures CollectFrom(root, m, xs).Failure?
    decreases |xs|
  {
    if i > 0 {
      match AddMember(root, m, xs[0])
      case Failure(_) =>
      case Success(m') => CollectRejectsIgnoreFile(root, m', xs[1..], i - 1);
    }
  }

  /**
   * A failure names the parent of a `.dvcignore` member, or a member outside
   * the root; a success means no member is named `.dvcignore` and every
   * member lies under the root.
   */
  lemma {:induction false} CollectOutcome(root: PathInfo, m: Manifest, xs: seq<Member>)
    requires KeysDistinct(m)
    ensures CollectFrom(root, m, xs).Failure? ==>
              match CollectFrom(root, m, xs).error
              case IgnoreInCollectedDir(p) =>
                exists i :: 0 <= i < |xs| && Name(xs[i].file) == DVCIGNORE_FILE && Parent(xs[i].file) == p
              case NotRelative(f, r) => r == root && exists i :: 0 <= i < |xs| && xs[i].file == f && !IsUnder(f, root)
              case _ => false
    ensures CollectFrom(root, m, xs).Success? ==>
              forall i :: 0 <= i < |xs| ==> Name(xs[i].file) != DVCIGNORE_FILE && IsUnder(xs[i].file, root)
    decreases |xs|
  {
    if xs != [] {
      match AddMember(root, m, xs[0])
      case Failure(_) =>
      case Success(m') =>
        CollectOutcome(root, m', xs[1..]);
        assert forall i :: 1 <= i < |xs| ==> xs[i] == xs[1..][i - 1];
    }
  }

  predicate FilesDistinct(xs: seq<Member>)
  {
    forall i, j :: 0 <= i < j < |xs| ==> xs[i].file != xs[j].file
  }

  /** The relative path a member is stored under (its full path when it is not under the root). */
  function Key(f: PathInfo, root: PathInfo): seq<string>
  {
    match RelativeTo(f, root)
    case Some(k) => k
    case None => f.parts
  }

  /** The manifest holds `h` under `key`. */
  predicate Holds(m: Manifest, key: seq<string>, h: HashInfo)
  {
    exists j :: 0 <= j < |m| && m[j].key == key && m[j].hash == h
  }

  /**
   * Collecting distinct files under the root stores each member's hash under
   * its relative path, adds one entry per member, and keeps what was already
   * there under other keys.
   */
  lemma {:induction false} CollectStoresEachMember(root: PathInfo, m: Manifest, xs: seq<Member>)
    requires KeysDistinct(m)
    requires FilesDistinct(xs)
    requires forall i :: 0 <= i < |xs| ==> !HasKey(m, Key(xs[i].file, root))
    requires CollectFrom(root, m, xs).Success?
    ensures var m' := CollectFrom(root, m, xs).value;
            |m'| == |m| + |xs| &&
            (forall i :: 0 <= i < |xs| ==> Holds(m', Key(xs[i].file, root), xs[i].hash)) &&
            (forall j :: 0 <= j < |m| ==> m'[j] == m[j])
    decreases |xs|
  {
    if xs != [] {
      CollectOutcome(root, m, xs);
      var x := xs[0];
      var key := RelativeTo(x.file, root).value;
      var m1 := Insert(m, key, x.hash);
      assert AddMember(root, m, x) == Success(m1);
      var rest := xs[1..];
      forall i | 0 <= i < |rest|
        ensures !HasKey(m1, Key(rest[i].file, root))
      {
        assert rest[i] == xs[i + 1];
        RelativeInjective(rest[i].file, x.file, root);
      }
      CollectStoresEachMember(root, m1, rest);
      var m' := CollectFrom(root, m1, rest).value;
      assert m1[|m|] == Entry(key, x.hash);
      assert Holds(m', key, x.hash) by { assert m'[|m|] == m1[|m|]; }
      forall i | 0 <= i < |xs|
        ensures Holds(m', Key(xs[i].file, root), xs[i].hash)
      {
        if i > 0 { assert xs[i] == rest[i - 1]; }
      }
    }
  }

  /** Distinct members under one root have distinct relative paths. */
  lemma RelativeInjective(p: PathInfo, q: PathInfo, root: PathInfo)
    requires IsUnder(p, root) && IsUnder(q, root) && p != q
    ensures RelativeTo(p, root).value != RelativeTo(q, root).value
  {
    assert p.parts == root.parts + RelativeTo(p, root).value;
    assert q.parts == root.parts + RelativeTo(q, root).value;
  }

  /**
   * `get_dir_hash` returns a directory hash (its value carries the `.dir`
   * suffix) whose size is the aggregate size of the collected manifest.
   */
  lemma DirHashIsDirectoryHash(b: Backend, cache: CacheStore, state: map<PathInfo, HashInfo>, root: PathInfo)
    requires DirHash(b, cache, state, root).Success?
    ensures IsDir(DirHash(b, cache, state, root).value)
    ensures DirHash(b, cache, state, root).value.size == ManifestSize(CollectDir(b, state, root).value)
  {
    DirSuffixRecognised(cache.digest(CollectDir(b, state, root).value));
  }

  /** A location that does not exist has no hash; neither the state cache nor any primitive is touched. */
  lemma GetHashAbsent(b: Backend, cache: CacheStore, state: map<PathInfo, HashInfo>, p: PathInfo, stillExists: bool)
    requires !b.pathExists(p)
    ensures GetHashResult(b, cache, state, p) == Success(None)
    ensures GetHashState(b, cache, state, p, stillExists) == state
    ensures GetHashOps(b, cache, state, p) == []
  {
  }

  /**
   * A usable cached hash is returned unchanged with no hash computation; a
   * cached directory hash is re-registered with the cache (`set_dir_info`).
   */
  lemma GetHashHit(b: Backend, cache: CacheStore, state: map<PathInfo, HashInfo>, p: PathInfo, stillExists: bool)
    requires b.pathExists(p) && StateHit(state, p) && state[p].name == b.paramChecksum
    requires IsDir(state[p]) ==> ArtifactPresent(cache, state[p])
    ensures GetHashResult(b, cache, state, p) == Success(Some(state[p]))
    ensures GetHashState(b, cache, state, p, stillExists) == state
    ensures GetHashOps(b, cache, state, p) == if IsDir(state[p]) then [SetDirInfo(state[p])] else []
    ensures forall op :: op in GetHashOps(b, cache, state, p) ==> !op.FileHash? && !op.SaveDirInfo?
  {
  }

  /**
   * A cached directory hash whose artifact has vanished is ignored: the
   * directory is collected again, exactly as if nothing had been cached.
   */
  lemma GetHashStaleDirRecomputed(b: Backend, cache: CacheStore, state: map<PathInfo, HashInfo>, p: PathInfo)
    requires b.pathExists(p) && StateHit(state, p) && IsDir(state[p]) && !ArtifactPresent(cache, state[p])
    ensures GetHashResult(b, cache, state, p) ==
              match ComputeHash(b, cache, state, p)
              case Success(h) => Success(Some(h))
              case Failure(e) => Failure(e)
    ensures b.isdir(p) ==> GetHashOps(b, cache, state, p) == DirHashOps(b, state, p)
    ensures !b.isdir(p) ==> GetHashOps(b, cache, state, p) == [FileHash(p)]
  {
  }

  /** On a miss, directories are collected and files hashed by `get_file_hash`. */
  lemma GetHashMissDispatch(b: Backend, cache: CacheStore, state: map<PathInfo, HashInfo>, p: PathInfo)
    requires b.pathExists(p) && !StateHit(state, p)
    ensures b.isdir(p) ==> (GetHashResult(b, cache, state, p) ==
              match DirHash(b, cache, state, p)
              case Success(h) => Success(Some(h))
              case Failure(e) => Failure(e))
    ensures b.isdir(p) ==> GetHashOps(b, cache, state, p) == DirHashOps(b, state, p)
    ensures !b.isdir(p) ==> GetHashResult(b, cache, state, p) == Success(Some(b.fileHash(p)))
    ensures !b.isdir(p) ==> GetHashOps(b, cache, state, p) == [FileHash(p)]
  {
  }

  /**
   * The state cache changes only by recording a truthy computed hash for `p`,
   * and only when `p` still exists after the computation.
   */
  lemma GetHashSavesOnlyExisting(b: Backend, cache: CacheStore, state: map<PathInfo, HashInfo>, p: PathInfo, stillExists: bool)
    ensures var s' := GetHashState(b, cache, state, p, stillExists);
            s' == state ||
            (stillExists && GetHashResult(b, cache, state, p).Success? &&
             GetHashResult(b, cache, state, p).value.Some? &&
             Truthy(GetHashResult(b, cache, state, p).value.value) &&
             s' == state[p := GetHashResult(b, cache, state, p).value.value])
    ensures !stillExists ==> GetHashState(b, cache, state, p, stillExists) == state
  {
  }

  /**
   * Hashing a file twice computes its hash once: after a first `get_hash`
   * that recorded the hash, the second returns the same hash with no call
   * to `get_file_hash`.
   */
  lemma GetHashFileComputedOnce(b: Backend, cache: CacheStore, state: map<PathInfo, HashInfo>, p: PathInfo)
    requires b.pathExists(p) && !b.isdir(p) && !StateHit(state, p)
    requires Truthy(b.fileHash(p)) && b.fileHash(p).name == b.paramChecksum && !IsDir(b.fileHash(p))
    ensures var s' := GetHashState(b, cache, state, p, true);
            GetHashResult(b, cache, s', p) == GetHashResult(b, cache, state, p) &&
            GetHashOps(b, cache, state, p) == [FileHash(p)] &&
            GetHashOps(b, cache, s', p) == []
  {
  }

  /**
   * Hashing a directory twice with the local cache collects it once: the
   * first `get_hash` records the hash and `save_dir_info` writes its
   * artifact, so the second finds a usable state entry, returns the same
   * hash and only re-registers it with the cache.
   */
  lemma GetHashDirComputedOnce(b: Backend, cache: CacheStore, state: map<PathInfo, HashInfo>, p: PathInfo)
    requires b.pathExists(p) && b.isdir(p) && !StateHit(state, p)
    requires cache.isLocal && cache.checksumName == b.paramChecksum
    requires DirHash(b, cache, state, p).Success?
    ensures var h := DirHash(b, cache, state, p).value;
            var s' := GetHashState(b, cache, state, p, true);
            var c' := GetHashCache(b, cache, state, p);
            GetHashResult(b, c', s', p) == GetHashResult(b, cache, state, p) == Success(Some(h)) &&
            GetHashOps(b, c', s', p) == [SetDirInfo(h)]
  {
    var h := DirHash(b, cache, state, p).value;
    DirHashIsDirectoryHash(b, cache, state, p);
    var s' := GetHashState(b, cache, state, p, true);
    assert s' == state[p := h];
    var c' := GetHashCache(b, cache, state, p);
    assert ArtifactPresent(c', h);
    assert CachedHash(s', c', p) == Some(h);
  }
}
