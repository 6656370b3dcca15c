/**
 * Hash values: dvc's HashInfo, the `.dir` suffix convention that marks a
 * directory hash, the two-level sharded layout of a cache, and directory
 * manifests (dvc's DirInfo).
 */
module Hashes {
  import opened Wrappers
  import opened Paths

  /** `BaseTree.CHECKSUM_DIR_SUFFIX` */
  const CHECKSUM_DIR_SUFFIX: string := ".dir"

  /**
   * A content hash: the checksum name it was computed with (`md5`, `etag`, ...),
   * its value and, when known, the size of the content. An absent value is "".
   */
  datatype HashInfo = HashInfo(name: string, value: string, size: Option<int>)

  /** Python truthiness of a HashInfo: it is truthy exactly when it has a value. */
  predicate Truthy(h: HashInfo)
  {
    h.value != ""
  }

  predicate EndsWith(s: string, suffix: string)
  {
    |suffix| <= |s| && s[|s| - |suffix|..] == suffix
  }

  /** `BaseTree.is_dir_hash`: false for `None` and "", otherwise whether the value ends with ".dir". */
  function IsDirHash(h: Option<string>): (r: bool)
    ensures r ==> h.Some? && h.value != ""
    ensures h.Some? && h.value != "" ==> (r <==> EndsWith(h.value, ".dir"))
  {
    if !NonEmpty(h) then false else EndsWith(h.value, CHECKSUM_DIR_SUFFIX)
  }

  /** `HashInfo.isdir`: whether a hash is a directory hash is read off its value alone. */
  predicate IsDir(h: HashInfo)
  {
    IsDirHash(Some(h.value))
  }

  /** Appending the suffix to any digest gives a value recognised as a directory hash. */
  lemma {:induction false} DirSuffixRecognised(digest: string)
    ensures IsDirHash(Some(digest + CHECKSUM_DIR_SUFFIX))
  {
    var v := digest + CHECKSUM_DIR_SUFFIX;
    assert v[|v| - 4..] == CHECKSUM_DIR_SUFFIX;
  }

  predicate IsHexDigit(c: char)
  {
    '0' <= c <= '9' || 'a' <= c <= 'f' || 'A' <= c <= 'F'
  }

  /** A plain hexadecimal digest (what a file hash holds) is never mistaken for a directory hash. */
  lemma HexDigestIsNotDir(v: string)
    requires forall i :: 0 <= i < |v| ==> IsHexDigit(v[i])
    ensures !IsDirHash(Some(v))
  {
    if |v| >= 4 {
      assert !IsHexDigit('.');
      assert v[|v| - 4..][0] == v[|v| - 4];
    }
  }

  /** Python's `h[0:2]`: the first two characters, or all of a shorter string. */
  function Head2(h: string): string
  {
    if |h| < 2 then h else h[..2]
  }

  /** Python's `h[2:]`: everything after the first two characters, "" for a shorter string. */
  function Tail2(h: string): string
  {
    if |h| < 2 then "" else h[2..]
  }

  /** `p / segment` as PathInfo does it: an empty segment leaves the path unchanged. */
  function JoinSegment(p: PathInfo, segment: string): (r: PathInfo)
    ensures segment == "" ==> r == p
    ensures segment != "" ==> r == Join(p, segment)
  {
    if segment == "" then p else Join(p, segment)
  }

  /**
   * `BaseTree.hash_to_path_info`: a hash lives at `root / h[0:2] / h[2:]`.
   * For a hash of at most two characters the empty `h[2:]` adds no segment.
   */
  function HashToPathInfo(root: PathInfo, h: string): (r: PathInfo)
    ensures r.scheme == root.scheme
    ensures |h| > 2 ==> r.parts == root.parts + [Head2(h), Tail2(h)] && |Head2(h)| == 2 && Head2(h) + Tail2(h) == h
    ensures 0 < |h| <= 2 ==> r.parts == root.parts + [h]
    ensures h == "" ==> r == root
  {
    assert |h| == 2 ==> h[..2] == h;
    assert Head2(h) + Tail2(h) == h;
    JoinSegment(JoinSegment(root, Head2(h)), Tail2(h))
  }

  /** Two different hashes never share a location in the cache. */
  lemma HashToPathInfoInjective(root: PathInfo, a: string, b: string)
    requires HashToPathInfo(root, a) == HashToPathInfo(root, b)
    ensures a == b
  {
    var n := |root.parts|;
    var pa := HashToPathInfo(root, a).parts;
    if |a| > 2 {
      assert |pa| == n + 2;
      assert |b| > 2 && a == pa[n] + pa[n + 1] == b;
    } else if |a| > 0 {
      assert |pa| == n + 1;
      assert 0 < |b| <= 2 && a == pa[n] == b;
    } else {
      assert |pa| == n;
    }
  }

  /**
   * A directory manifest: relative path (segments) to the member's hash, in
   * insertion order. Each key occurs once (see `KeysDistinct`).
   */
  datatype Entry = Entry(key: seq<string>, hash: HashInfo)
  type Manifest = seq<Entry>

  predicate KeysDistinct(m: Manifest)
  {
    forall i, j :: 0 <= i < j < |m| ==> m[i].key != m[j].key
  }

  predicate HasKey(m: Manifest, key: seq<string>)
  {
    exists i :: 0 <= i < |m| && m[i].key == key
  }

  /** The position of `key` in `m`, if any. */
  function IndexOf(m: Manifest, key: seq<string>): (r: Option<nat>)
    ensures r.Some? ==> r.value < |m| && m[r.value].key == key
    ensures r.None? ==> !HasKey(m, key)
  {
    if m == [] then None
    else if m[|m| - 1].key == key then Some(|m| - 1)
    else IndexOf(m[..|m| - 1], key)
  }

  /** `dir_info.trie[key] = h`: replace the hash of an existing key, otherwise append. */
  function Insert(m: Manifest, key: seq<string>, h: HashInfo): (r: Manifest)
    requires KeysDistinct(m)
    ensures KeysDistinct(r)
    ensures HasKey(m, key) ==> |r| == |m|
    ensures !HasKey(m, key) ==> |r| == |m| + 1
    ensures forall i :: 0 <= i < |r| && r[i].key == key ==> r[i].hash == h
    ensures forall i :: 0 <= i < |m| && m[i].key != key ==> r[i] == m[i]
    ensures HasKey(r, key)
    ensures forall k :: HasKey(r, k) <==> HasKey(m, k) || k == key
  {
    match IndexOf(m, key)
    case Some(i) =>
      assert m[i := Entry(key, h)][i].key == key;
      m[i := Entry(key, h)]
    case None =>
      assert (m + [Entry(key, h)])[|m|].key == key;
      m + [Entry(key, h)]
  }

  /**
   * Aggregate size of a manifest (DirInfo.size): the sum of the member sizes,
   * unknown as soon as one member's size is unknown.
   */
  function ManifestSize(m: Manifest): (r: Option<int>)
    ensures r.Some? <==> forall i :: 0 <= i < |m| ==> m[i].hash.size.Some?
  {
    if m == [] then Some(0)
    else
      match (ManifestSize(m[..|m| - 1]), m[|m| - 1].hash.size)
      case (Some(s), Some(t)) => Some(s + t)
      case _ => None
  }
}
