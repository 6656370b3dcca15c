/**
 * Locations as the tree engine sees them: a scheme ("local", "s3", ...) and the
 * sequence of path segments below that scheme's root. The operations are the
 * few of dvc's PathInfo/URLInfo the engine uses: `/`, `.name`, `.parent` and
 * `.relative_to`.
 */
module Paths {
  import opened Wrappers

  datatype PathInfo = PathInfo(scheme: string, parts: seq<string>)

  /** `p / segment` */
  function Join(p: PathInfo, segment: string): (r: PathInfo)
    ensures r.scheme == p.scheme && r.parts == p.parts + [segment]
  {
    PathInfo(p.scheme, p.parts + [segment])
  }

  /** `p / relative`, where `relative` is a sequence of segments. */
  function JoinParts(p: PathInfo, relative: seq<string>): (r: PathInfo)
    ensures r.scheme == p.scheme && r.parts == p.parts + relative
  {
    PathInfo(p.scheme, p.parts + relative)
  }

  /** `p.name`: the last segment, or "" for a root. */
  function Name(p: PathInfo): string
  {
    if p.parts == [] then "" else p.parts[|p.parts| - 1]
  }

  /** `p.parent`: everything but the last segment; a root is its own parent. */
  function Parent(p: PathInfo): PathInfo
  {
    if p.parts == [] then p else PathInfo(p.scheme, p.parts[..|p.parts| - 1])
  }

  /** `p` lies at or below `root`. */
  predicate IsUnder(p: PathInfo, root: PathInfo)
  {
    p.scheme == root.scheme && |root.parts| <= |p.parts| && p.parts[..|root.parts|] == root.parts
  }

  /**
   * `p.relative_to(root)`: the segments of `p` below `root`; `None` where
   * Python raises ValueError because `p` is not under `root`.
   */
  function RelativeTo(p: PathInfo, root: PathInfo): (r: Option<seq<string>>)
    ensures r.Some? <==> IsUnder(p, root)
    ensures r.Some? ==> root.parts + r.value == p.parts
  {
    if IsUnder(p, root) then
      assert root.parts + p.parts[|root.parts|..] == p.parts;
      Some(p.parts[|root.parts|..])
    else None
  }

  /** Joining a location's relative path back onto its root gives the location again. */
  lemma JoinRelativeTo(p: PathInfo, root: PathInfo)
    requires IsUnder(p, root)
    ensures JoinParts(root, RelativeTo(p, root).value) == p
  {
  }

  /** Mapping one tree onto another keeps distinct members distinct. */
  lemma RelocateInjective(p: PathInfo, q: PathInfo, from: PathInfo, to: PathInfo)
    requires IsUnder(p, from) && IsUnder(q, from)
    requires JoinParts(to, RelativeTo(p, from).value) == JoinParts(to, RelativeTo(q, from).value)
    ensures p == q
  {
    var rp, rq := RelativeTo(p, from).value, RelativeTo(q, from).value;
    assert rp == (to.parts + rp)[|to.parts|..];
    assert rq == (to.parts + rq)[|to.parts|..];
  }
}
