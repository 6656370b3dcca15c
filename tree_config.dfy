/**
 * Worker-pool sizes of a tree (`BaseTree.jobs`, `BaseTree.hash_jobs`): the
 * remote's own setting, else the repository's `core` setting, else a default
 * derived from the number of CPUs. Each setting is Python-truthy only when
 * present and non-zero, so a configured 0 falls through to the next one.
 */
module TreeConfig {
  import opened Wrappers

  /** Python truthiness of an optional integer setting. */
  predicate IsSet(v: Option<int>)
  {
    v.Some? && v.value != 0
  }

  /** `BaseTree.JOBS = 4 * cpu_count()` */
  function DefaultJobs(cpus: nat): (r: int)
    ensures r >= 0 && r % 4 == 0
    ensures cpus >= 1 ==> r >= 4
  {
    4 * cpus
  }

  /** `BaseTree.HASH_JOBS = max(1, min(4, cpu_count() // 2))` */
  function DefaultHashJobs(cpus: nat): (r: int)
    ensures 1 <= r <= 4
    ensures cpus >= 8 ==> r == 4
    ensures cpus < 4 ==> r == 1
  {
    var half := cpus / 2;
    var capped := if half < 4 then half else 4;
    if capped < 1 then 1 else capped
  }

  /**
   * Reference definition of a Python `a or b or ...` chain over optional
   * integers: the first set value, or `fallback` when none is set.
   */
  function FirstSet(values: seq<Option<int>>, fallback: int): (r: int)
    ensures (forall i :: 0 <= i < |values| ==> !IsSet(values[i])) ==> r == fallback
    ensures forall i :: (0 <= i < |values| && IsSet(values[i]) &&
                         forall j :: 0 <= j < i ==> !IsSet(values[j])) ==> r == values[i].value
  {
    if values == [] then fallback
    else if IsSet(values[0]) then values[0].value
    else
      var r := FirstSet(values[1..], fallback);
      assert forall i :: 1 <= i < |values| ==> values[i] == values[1..][i - 1];
      r
  }

  /**
   * The repository's `core.<key>` setting, as the middle operand of the chain:
   * `repo and repo.config["core"].get(key)`; `repo` is `None` for a tree
   * without a repository.
   */
  function RepoSetting(repo: Option<Option<int>>): Option<int>
  {
    if repo.None? then None else repo.value
  }

  /** `BaseTree.jobs` */
  function Jobs(remoteJobs: Option<int>, repo: Option<Option<int>>, cpus: nat): (r: int)
    ensures IsSet(remoteJobs) ==> r == remoteJobs.value
    ensures !IsSet(remoteJobs) && IsSet(RepoSetting(repo)) ==> r == RepoSetting(repo).value
    ensures !IsSet(remoteJobs) && !IsSet(RepoSetting(repo)) ==> r == DefaultJobs(cpus)
  {
    if IsSet(remoteJobs) then remoteJobs.value
    else if IsSet(RepoSetting(repo)) then RepoSetting(repo).value
    else DefaultJobs(cpus)
  }

  /** `BaseTree.hash_jobs` */
  function HashJobs(remoteChecksumJobs: Option<int>, repo: Option<Option<int>>, cpus: nat): (r: int)
    ensures IsSet(remoteChecksumJobs) ==> r == remoteChecksumJobs.value
    ensures !IsSet(remoteChecksumJobs) && IsSet(RepoSetting(repo)) ==> r == RepoSetting(repo).value
    ensures !IsSet(remoteChecksumJobs) && !IsSet(RepoSetting(repo)) ==> 1 <= r <= 4
  {
    if IsSet(remoteChecksumJobs) then remoteChecksumJobs.value
    else if IsSet(RepoSetting(repo)) then RepoSetting(repo).value
    else DefaultHashJobs(cpus)
  }

  /** `jobs` is the first set value of the chain remote setting, repository setting, `JOBS`. */
  lemma JobsIsFirstSet(remoteJobs: Option<int>, repo: Option<Option<int>>, cpus: nat)
    ensures Jobs(remoteJobs, repo, cpus) == FirstSet([remoteJobs, RepoSetting(repo)], DefaultJobs(cpus))
  {
  }

  /** `hash_jobs` is the same chain ending in `HASH_JOBS`; with nothing set it is between 1 and 4 workers. */
  lemma HashJobsIsFirstSet(remoteChecksumJobs: Option<int>, repo: Option<Option<int>>, cpus: nat)
    ensures HashJobs(remoteChecksumJobs, repo, cpus)
         == FirstSet([remoteChecksumJobs, RepoSetting(repo)], DefaultHashJobs(cpus))
    ensures !IsSet(remoteChecksumJobs) && !IsSet(RepoSetting(repo)) ==>
              1 <= HashJobs(remoteChecksumJobs, repo, cpus) <= 4
  {
  }

  /** Neither chain ever yields 0 workers on a machine with at least one CPU. */
  lemma PoolSizesNonZero(remote: Option<int>, repo: Option<Option<int>>, cpus: nat)
    requires cpus >= 1
    ensures Jobs(remote, repo, cpus) != 0
    ensures HashJobs(remote, repo, cpus) != 0
  {
  }
}
