/**
 * Garbage collection of experiment references (dvc/repo/experiments/gc.py).
 * Given the revisions to keep, `gc` removes every experiment ref whose
 * baseline is not kept, clears the execution pointers that apply, drops the
 * selected stash entries from the highest index down, and returns how many
 * items it removed. The git refs are a map from ref name to its value; the
 * experiment stash is a sequence whose positions are the entries' indices.
 */
module ExperimentsGc {
  import opened Wrappers

  const EXPS_NAMESPACE: string := "refs/exps"
  const EXEC_NAMESPACE: string := EXPS_NAMESPACE + "/exec"
  const EXEC_APPLY: string := EXEC_NAMESPACE + "/EXEC_APPLY"
  const EXEC_BRANCH: string := EXEC_NAMESPACE + "/EXEC_BRANCH"
  const EXEC_CHECKPOINT: string := EXEC_NAMESPACE + "/EXEC_CHECKPOINT"

  /** An experiment ref: the baseline commit it was run from and its name. */
  datatype ExpRefInfo = ExpRefInfo(baselineSha: string, name: string)

  /** A queued experiment in the stash, with the baseline it was queued against. */
  datatype StashEntry = StashEntry(rev: string, baselineRev: string)

  /** `str(ref_info)`: the full ref name, which always starts with the namespace. */
  function RefName(r: ExpRefInfo): (s: string)
    ensures |s| > |EXPS_NAMESPACE| && s[..|EXPS_NAMESPACE|] == EXPS_NAMESPACE
  {
    EXPS_NAMESPACE + "/" + r.baselineSha + "/" + r.name
  }

  /** `scm.get_ref(name)` */
  function GetRef(refs: map<string, string>, name: string): Option<string>
  {
    if name in refs then Some(refs[name]) else None
  }

  predicate IsExecPointer(name: string)
  {
    name == EXEC_APPLY || name == EXEC_BRANCH || name == EXEC_CHECKPOINT
  }

  /** What `exp_refs(scm)` guarantees: each experiment ref listed once, and none of them an execution pointer. */
  predicate ListedOnce(xs: seq<ExpRefInfo>)
  {
    (forall i, j :: 0 <= i < j < |xs| ==> RefName(xs[i]) != RefName(xs[j])) &&
    (forall i :: 0 <= i < |xs| ==> !IsExecPointer(RefName(xs[i])))
  }

  /** The revisions to keep: the branch revisions, plus the workspace revision when asked for. */
  function KeepRevs(branchRevs: set<string>, workspace: bool, workspaceRev: string): (keep: set<string>)
    ensures branchRevs <= keep
    ensures workspace ==> workspaceRev in keep
    ensures forall v :: v in keep ==> v in branchRevs || (workspace && v == workspaceRev)
  {
    if workspace then branchRevs + {workspaceRev} else branchRevs
  }

  // ---------------------------------------------------------------- refs

  /** The listed refs `gc` removes: those whose baseline is not kept, in listing order. */
  function RemovedRefs(xs: seq<ExpRefInfo>, keep: set<string>): (r: seq<ExpRefInfo>)
    ensures |r| <= |xs|
  {
    if xs == [] then []
    else (if xs[0].baselineSha !in keep then [xs[0]] else []) + RemovedRefs(xs[1..], keep)
  }

  /** The names of the removed refs. */
  function RemovedNames(xs: seq<ExpRefInfo>, keep: set<string>): set<string>
  {
    set x | x in xs && x.baselineSha !in keep :: RefName(x)
  }

  /**
   * Whether `gc` as written removes `EXEC_BRANCH`: it is set and, for some
   * removed ref, `str(ref_info)` is truthy.
   */
  predicate BranchCleared(refs: map<string, string>, xs: seq<ExpRefInfo>, keep: set<string>)
  {
    NonEmpty(GetRef(refs, EXEC_BRANCH)) && exists x :: x in xs && x.baselineSha !in keep && RefName(x) != ""
  }

  /** Whether `gc` removes `pointer` (`EXEC_APPLY` or `EXEC_CHECKPOINT`): it is set and equals a removed ref's value. */
  predicate PointerCleared(refs: map<string, string>, xs: seq<ExpRefInfo>, keep: set<string>, pointer: string)
  {
    NonEmpty(GetRef(refs, pointer)) &&
    exists x :: x in xs && x.baselineSha !in keep && GetRef(refs, RefName(x)) == GetRef(refs, pointer)
  }

  /** The execution pointers `gc` removes. */
  function ExecCleared(refs: map<string, string>, xs: seq<ExpRefInfo>, keep: set<string>): (r: set<string>)
    ensures RemovedRefs(xs, keep) == [] ==> r == {}
  {
    RemovedRefsMembers(xs, keep);
    When(BranchCleared(refs, xs, keep), EXEC_BRANCH) +
    When(PointerCleared(refs, xs, keep, EXEC_APPLY), EXEC_APPLY) +
    When(PointerCleared(refs, xs, keep, EXEC_CHECKPOINT), EXEC_CHECKPOINT)
  }

  /** The refs after `gc` with a non-empty keep-set. */
  function GcRefs(refs: map<string, string>, xs: seq<ExpRefInfo>, keep: set<string>): (r: map<string, string>)
    ensures r.Keys <= refs.Keys
    ensures forall name :: name in r ==> r[name] == refs[name]
  {
    refs - RemovedNames(xs, keep) - ExecCleared(refs, xs, keep)
  }

  // ---------------------------------------------------------------- stash

  /** Whether `gc` selects a stash entry for deletion. */
  predicate ToDrop(e: StashEntry, keep: set<string>, queued: bool)
    ensures !queued ==> ToDrop(e, keep, queued)
    ensures queued && e.baselineRev in keep ==> !ToDrop(e, keep, queued)
  {
    !queued || e.baselineRev !in keep
  }

  /** The stash entries `gc` leaves, in their original order. */
  function Surviving(s: seq<StashEntry>, keep: set<string>, queued: bool): (r: seq<StashEntry>)
    ensures |r| <= |s|
  {
    if s == [] then []
    else (if ToDrop(s[0], keep, queued) then [] else [s[0]]) + Surviving(s[1..], keep, queued)
  }

  /** How many stash entries `gc` selects. */
  function DroppedCount(s: seq<StashEntry>, keep: set<string>, queued: bool): (r: nat)
    ensures r <= |s|
  {
    if s == [] then 0
    else (if ToDrop(s[0], keep, queued) then 1 else 0) + DroppedCount(s[1..], keep, queued)
  }

  /** `stash.drop(i)`: the entry at index `i` goes, later ones move down by one. */
  function Drop(s: seq<StashEntry>, i: nat): (r: seq<StashEntry>)
    requires i < |s|
    ensures |r| == |s| - 1
    ensures forall j :: 0 <= j < i ==> r[j] == s[j]
    ensures forall j :: i <= j < |r| ==> r[j] == s[j + 1]
  {
    s[..i] + s[i + 1..]
  }

  // ---------------------------------------------------------------- lemmas

  /** Surviving distributes over concatenation. */
  lemma {:induction false} SurvivingAppend(a: seq<StashEntry>, b: seq<StashEntry>, keep: set<string>, queued: bool)
    ensures Surviving(a + b, keep, queued) == Surviving(a, keep, queued) + Surviving(b, keep, queued)
  {
    if a == [] {
      assert a + b == b;
    } else {
      assert (a + b)[0] == a[0] && (a + b)[1..] == a[1..] + b;
      SurvivingAppend(a[1..], b, keep, queued);
    }
  }

  /** A stretch with nothing selected survives whole. */
  lemma {:induction false} SurvivingNoneSelected(s: seq<StashEntry>, keep: set<string>, queued: bool)
    requires forall i :: 0 <= i < |s| ==> !ToDrop(s[i], keep, queued)
    ensures Surviving(s, keep, queued) == s
  {
    if s != [] {
      SurvivingNoneSelected(s[1..], keep, queued);
    }
  }

  /** Every entry either survives or is counted as dropped. */
  lemma {:induction false} SurvivingPlusDropped(s: seq<StashEntry>, keep: set<string>, queued: bool)
    ensures |Surviving(s, keep, queued)| + DroppedCount(s, keep, queued) == |s|
  {
    if s != [] {
      SurvivingPlusDropped(s[1..], keep, queued);
    }
  }

  /** With `queued` false every stash entry is selected, so the stash ends empty. */
  lemma {:induction false} NotQueuedDropsAll(s: seq<StashEntry>, keep: set<string>)
    ensures Surviving(s, keep, false) == []
    ensures DroppedCount(s, keep, false) == |s|
  {
    if s != [] {
      NotQueuedDropsAll(s[1..], keep);
    }
  }

  /** The surviving entries are exactly the stash entries not selected for dropping. */
  lemma {:induction false} SurvivingMembers(s: seq<StashEntry>, keep: set<string>, queued: bool)
    ensures forall e :: e in Surviving(s, keep, queued) <==> e in s && !ToDrop(e, keep, queued)
  {
    if s != [] {
      SurvivingMembers(s[1..], keep, queued);
      assert forall e :: e in s <==> e == s[0] || e in s[1..];
    }
  }

  /** The removed refs are exactly the listed refs whose baseline is not kept. */
  lemma {:induction false} RemovedRefsMembers(xs: seq<ExpRefInfo>, keep: set<string>)
    ensures forall x :: x in RemovedRefs(xs, keep) <==> x in xs && x.baselineSha !in keep
  {
    if xs != [] {
      RemovedRefsMembers(xs[1..], keep);
      assert forall x :: x in xs <==> x == xs[0] || x in xs[1..];
    }
  }

  /**
   * One drop of the descending loop: with everything from index `b` on
   * already filtered and index `j` the next (lower) selected index, dropping
   * at `j` leaves everything from `j` on filtered. The entry dropped is the
   * one originally at `j`, because every earlier drop was at a higher index.
   */
  lemma DropStep(s: seq<StashEntry>, j: nat, b: nat, keep: set<string>, queued: bool)
    requires j < b <= |s|
    requires ToDrop(s[j], keep, queued)
    requires forall t :: j < t < b ==> !ToDrop(s[t], keep, queued)
    ensures j < |s[..b] + Surviving(s[b..], keep, queued)|
    ensures Drop(s[..b] + Surviving(s[b..], keep, queued), j) == s[..j] + Surviving(s[j..], keep, queued)
  {
    var rest := Surviving(s[b..], keep, queued);
    var cur := s[..b] + rest;
    assert Drop(cur, j) == s[..j] + (s[j + 1..b] + rest) by {
      assert cur[..j] == s[..j];
      assert cur[j + 1..] == s[j + 1..b] + rest;
    }
    SurvivingFromSelected(s, j, b, keep, queued);
  }

  /** Filtering from a selected index `j` whose successors up to `b` are all kept. */
  lemma SurvivingFromSelected(s: seq<StashEntry>, j: nat, b: nat, keep: set<string>, queued: bool)
    requires j < b <= |s|
    requires ToDrop(s[j], keep, queued)
    requires forall t :: j < t < b ==> !ToDrop(s[t], keep, queued)
    ensures Surviving(s[j..], keep, queued) == s[j + 1..b] + Surviving(s[b..], keep, queued)
  {
    var u := s[j..];
    assert u[0] == s[j] && u[1..] == s[j + 1..];
    assert Surviving(u, keep, queued) == Surviving(s[j + 1..], keep, queued);
    var t := s[j + 1..];
    assert forall i :: 0 <= i < b - j - 1 ==> t[i] == s[j + 1 + i];
    KeptPrefix(t, b - j - 1, keep, queued);
    assert t[..b - j - 1] == s[j + 1..b] && t[b - j - 1..] == s[b..];
  }

  /** A prefix with nothing selected passes through filtering unchanged. */
  lemma KeptPrefix(t: seq<StashEntry>, n: nat, keep: set<string>, queued: bool)
    requires n <= |t|
    requires forall i :: 0 <= i < n ==> !ToDrop(t[i], keep, queued)
    ensures Surviving(t, keep, queued) == t[..n] + Surviving(t[n..], keep, queued)
  {
    SurvivingNoneSelected(t[..n], keep, queued);
    SurvivingAppend(t[..n], t[n..], keep, queued);
    assert t[..n] + t[n..] == t;
  }

  /** A ref whose baseline is kept keeps its value. */
  lemma KeptRefUntouched(refs: map<string, string>, xs: seq<ExpRefInfo>, keep: set<string>, i: nat)
    requires ListedOnce(xs) && i < |xs| && xs[i].baselineSha in keep
    ensures GetRef(GcRefs(refs, xs, keep), RefName(xs[i])) == GetRef(refs, RefName(xs[i]))
  {
  }

  /** A listed ref whose baseline is not kept is gone. */
  lemma RemovedRefGone(refs: map<string, string>, xs: seq<ExpRefInfo>, keep: set<string>, i: nat)
    requires i < |xs| && xs[i].baselineSha !in keep
    ensures RefName(xs[i]) !in GcRefs(refs, xs, keep)
  {
    assert RefName(xs[i]) in RemovedNames(xs, keep);
  }

  /**
   * As written, `EXEC_BRANCH` goes whenever it is set and any ref is removed,
   * whatever it points to: the guard `str(ref_info)` never fails.
   */
  lemma ExecBranchClearedOnAnyRemoval(refs: map<string, string>, xs: seq<ExpRefInfo>, keep: set<string>)
    ensures BranchCleared(refs, xs, keep) <==> NonEmpty(GetRef(refs, EXEC_BRANCH)) && RemovedRefs(xs, keep) != []
  {
    RemovedRefsMembers(xs, keep);
    if RemovedRefs(xs, keep) != [] {
      var x := RemovedRefs(xs, keep)[0];
      assert x in RemovedRefs(xs, keep);
      assert RefName(x) != "";
    }
  }

  /**
   * `EXEC_APPLY` and `EXEC_CHECKPOINT` each go exactly when set and equal to
   * the value of some removed ref.
   */
  lemma PointerClearedOnlyOnMatch(refs: map<string, string>, xs: seq<ExpRefInfo>, keep: set<string>, pointer: string)
    requires pointer == EXEC_APPLY || pointer == EXEC_CHECKPOINT
    requires ListedOnce(xs) && pointer in refs
    ensures pointer !in GcRefs(refs, xs, keep) <==>
              refs[pointer] != "" &&
              exists i :: 0 <= i < |xs| && xs[i].baselineSha !in keep && GetRef(refs, RefName(xs[i])) == Some(refs[pointer])
  {
    assert pointer !in RemovedNames(xs, keep);
    assert pointer !in GcRefs(refs, xs, keep) <==> PointerCleared(refs, xs, keep, pointer);
    if PointerCleared(refs, xs, keep, pointer) {
      var x :| x in xs && x.baselineSha !in keep && GetRef(refs, RefName(x)) == GetRef(refs, pointer);
      var i :| 0 <= i < |xs| && xs[i] == x;
    } else if exists i :: 0 <= i < |xs| && xs[i].baselineSha !in keep && GetRef(refs, RefName(xs[i])) == Some(refs[pointer]) {
      var i :| 0 <= i < |xs| && xs[i].baselineSha !in keep && GetRef(refs, RefName(xs[i])) == Some(refs[pointer]);
      assert xs[i] in xs;
    }
  }

  /** Refs that are neither listed experiment refs nor execution pointers are never touched. */
  lemma OtherRefsUntouched(refs: map<string, string>, xs: seq<ExpRefInfo>, keep: set<string>, name: string)
    requires !IsExecPointer(name) && forall i :: 0 <= i < |xs| ==> RefName(xs[i]) != name
    ensures GetRef(GcRefs(refs, xs, keep), name) == GetRef(refs, name)
  {
  }
  /** Appending one ref to the listing adds its removal, if any, at the end. */
  lemma RemovedRefsSnoc(ys: seq<ExpRefInfo>, x: ExpRefInfo, keep: set<string>)
    ensures RemovedRefs(ys + [x], keep) == RemovedRefs(ys, keep) + (if x.baselineSha !in keep then [x] else [])
  {
    if ys == [] {
      assert ys + [x] == [x];
    } else {
      assert (ys + [x])[0] == ys[0] && (ys + [x])[1..] == ys[1..] + [x];
      RemovedRefsSnoc(ys[1..], x, keep);
    }
  }

  /** Appending one entry to the stash adds one to the count when it is selected. */
  lemma {:induction false} DroppedCountSnoc(s: seq<StashEntry>, e: StashEntry, keep: set<string>, queued: bool)
    ensures DroppedCount(s + [e], keep, queued) == DroppedCount(s, keep, queued) + (if ToDrop(e, keep, queued) then 1 else 0)
  {
    if s == [] {
      assert s + [e] == [e];
    } else {
      assert (s + [e])[0] == s[0] && (s + [e])[1..] == s[1..] + [e];
      DroppedCountSnoc(s[1..], e, keep, queued);
    }
  }

  /** Removing two pairs of name sets in either grouping gives the same refs. */
  lemma MapMinusRegroup(m: map<string, string>, a: set<string>, b: set<string>, c: set<string>, d: set<string>)
    ensures m - (a + c) - (b + d) == (m - a - b) - (c + d)
  {
    assert (m - (a + c) - (b + d)).Keys == ((m - a - b) - (c + d)).Keys;
  }

  /** `{name}` when `c` holds, else empty. */
  function When(c: bool, name: string): set<string>
  {
    if c then {name} else {}
  }

  /** Appending one ref clears `EXEC_BRANCH` exactly when the prefix did or that ref does. */
  lemma BranchClearedSnoc(refs: map<string, string>, ys: seq<ExpRefInfo>, x: ExpRefInfo, keep: set<string>)
    ensures BranchCleared(refs, ys + [x], keep) <==>
              BranchCleared(refs, ys, keep) || (x.baselineSha !in keep && NonEmpty(GetRef(refs, EXEC_BRANCH)) && RefName(x) != "")
  {
    assert forall z :: z in ys + [x] <==> z in ys || z == x;
  }

  /** Appending one ref clears `pointer` exactly when the prefix did or that ref does. */
  lemma PointerClearedSnoc(refs: map<string, string>, ys: seq<ExpRefInfo>, x: ExpRefInfo, keep: set<string>, pointer: string)
    ensures PointerCleared(refs, ys + [x], keep, pointer) <==>
              PointerCleared(refs, ys, keep, pointer) ||
              (x.baselineSha !in keep && NonEmpty(GetRef(refs, pointer)) && GetRef(refs, RefName(x)) == GetRef(refs, pointer))
  {
    assert forall z :: z in ys + [x] <==> z in ys || z == x;
  }

  /** The execution pointers one listed ref makes `gc` clear. */
  function PointersClearedBy(refs: map<string, string>, x: ExpRefInfo, keep: set<string>): set<string>
  {
    var out := x.baselineSha !in keep;
    When(out && NonEmpty(GetRef(refs, EXEC_BRANCH)) && RefName(x) != "", EXEC_BRANCH) +
    When(out && NonEmpty(GetRef(refs, EXEC_APPLY)) && GetRef(refs, RefName(x)) == GetRef(refs, EXEC_APPLY), EXEC_APPLY) +
    When(out && NonEmpty(GetRef(refs, EXEC_CHECKPOINT)) && GetRef(refs, RefName(x)) == GetRef(refs, EXEC_CHECKPOINT), EXEC_CHECKPOINT)
  }

  /** The own name one listed ref makes `gc` remove. */
  function OwnClearedBy(x: ExpRefInfo, keep: set<string>): set<string>
  {
    When(x.baselineSha !in keep, RefName(x))
  }

  /** The names one listed ref makes `gc` remove: its own and the execution pointers it clears. */
  function ClearedBy(refs: map<string, string>, x: ExpRefInfo, keep: set<string>): set<string>
  {
    OwnClearedBy(x, keep) + PointersClearedBy(refs, x, keep)
  }

  lemma RemovedNamesSnoc(ys: seq<ExpRefInfo>, x: ExpRefInfo, keep: set<string>)
    ensures RemovedNames(ys + [x], keep) == RemovedNames(ys, keep) + OwnClearedBy(x, keep)
  {
    assert forall z :: z in ys + [x] <==> z in ys || z == x;
  }

  lemma ExecClearedSnoc(refs: map<string, string>, ys: seq<ExpRefInfo>, x: ExpRefInfo, keep: set<string>)
    ensures ExecCleared(refs, ys + [x], keep) == ExecCleared(refs, ys, keep) + PointersClearedBy(refs, x, keep)
  {
    BranchClearedSnoc(refs, ys, x, keep);
    PointerClearedSnoc(refs, ys, x, keep, EXEC_APPLY);
    PointerClearedSnoc(refs, ys, x, keep, EXEC_CHECKPOINT);
    var out := x.baselineSha !in keep;
    var bx := out && NonEmpty(GetRef(refs, EXEC_BRANCH)) && RefName(x) != "";
    var ax := out && NonEmpty(GetRef(refs, EXEC_APPLY)) && GetRef(refs, RefName(x)) == GetRef(refs, EXEC_APPLY);
    var cx := out && NonEmpty(GetRef(refs, EXEC_CHECKPOINT)) && GetRef(refs, RefName(x)) == GetRef(refs, EXEC_CHECKPOINT);
    var b0 := BranchCleared(refs, ys, keep);
    var a0 := PointerCleared(refs, ys, keep, EXEC_APPLY);
    var c0 := PointerCleared(refs, ys, keep, EXEC_CHECKPOINT);
    WhenOr(b0, bx, EXEC_BRANCH);
    WhenOr(a0, ax, EXEC_APPLY);
    WhenOr(c0, cx, EXEC_CHECKPOINT);
    UnionRegroup(When(b0, EXEC_BRANCH), When(a0, EXEC_APPLY), When(c0, EXEC_CHECKPOINT),
                 When(bx, EXEC_BRANCH), When(ax, EXEC_APPLY), When(cx, EXEC_CHECKPOINT));
  }

  lemma WhenOr(a: bool, b: bool, name: string)
    ensures When(a || b, name) == When(a, name) + When(b, name)
  {
  }

  lemma UnionRegroup<T>(a: set<T>, b: set<T>, c: set<T>, d: set<T>, e: set<T>, f: set<T>)
    ensures (a + d) + (b + e) + (c + f) == (a + b + c) + (d + e + f)
  {
  }

  /** Processing the listing one ref at a time reaches `GcRefs`. */
  lemma GcRefsSnoc(refs: map<string, string>, ys: seq<ExpRefInfo>, x: ExpRefInfo, keep: set<string>)
    ensures GcRefs(refs, ys + [x], keep) == GcRefs(refs, ys, keep) - ClearedBy(refs, x, keep)
  {
    RemovedNamesSnoc(ys, x, keep);
    ExecClearedSnoc(refs, ys, x, keep);
    MapMinusRegroup(refs, RemovedNames(ys, keep), ExecCleared(refs, ys, keep), OwnClearedBy(x, keep), PointersClearedBy(refs, x, keep));
  }

  /** Removing two name sets one after the other removes their union. */
  lemma MinusMinus(m: map<string, string>, a: set<string>, b: set<string>)
    ensures m - a - b == m - (a + b)
  {
    assert (m - a - b).Keys == (m - (a + b)).Keys;
  }

  /** Before a listed ref is reached, its value is still the one `gc` started with. */
  lemma NotYetRemoved(refs: map<string, string>, xs: seq<ExpRefInfo>, keep: set<string>, i: nat)
    requires ListedOnce(xs) && i < |xs|
    ensures GetRef(GcRefs(refs, xs[..i], keep), RefName(xs[i])) == GetRef(refs, RefName(xs[i]))
  {
    forall j | 0 <= j < |xs[..i]|
      ensures RefName(xs[..i][j]) != RefName(xs[i])
    {
      assert xs[..i][j] == xs[j];
    }
    OtherRefsUntouched(refs, xs[..i], keep, RefName(xs[i]));
  }

  /** The indices `SelectStashes` reports: ascending, each selected, and every selected index present. */
  predicate SelectsExactly(del: seq<nat>, s: seq<StashEntry>, keep: set<string>, queued: bool)
  {
    (forall a, b :: 0 <= a < b < |del| ==> del[a] < del[b]) &&
    (forall k :: 0 <= k < |del| ==> del[k] < |s| && ToDrop(s[del[k]], keep, queued)) &&
    (forall t :: 0 <= t < |s| && ToDrop(s[t], keep, queued) ==> t in del)
  }

  /** The collection of `delete_stashes`, in stash index order. */
  method SelectStashes(s: seq<StashEntry>, keep: set<string>, queued: bool) returns (del: seq<nat>)
    ensures SelectsExactly(del, s, keep, queued)
    ensures |del| == DroppedCount(s, keep, queued)
  {
    del := [];
    var i := 0;
    while i < |s|
      invariant 0 <= i <= |s|
      invariant forall a, b :: 0 <= a < b < |del| ==> del[a] < del[b]
      invariant forall k :: 0 <= k < |del| ==> del[k] < i && ToDrop(s[del[k]], keep, queued)
      invariant forall t :: 0 <= t < i && ToDrop(s[t], keep, queued) ==> t in del
      invariant |del| == DroppedCount(s[..i], keep, queued)
    {
      if ToDrop(s[i], keep, queued) {
        del := del + [i];
      }
      assert s[..i + 1] == s[..i] + [s[i]];
      DroppedCountSnoc(s[..i], s[i], keep, queued);
      i := i + 1;
    }
    assert s[..|s|] == s;
  }

  /** Where the descending drop loop has filtered from, after `k` of the ascending indices remain. */
  function Bound(del: seq<nat>, k: nat, n: nat): nat
  {
    if k < |del| then del[k] else n
  }

  /** No index strictly between two consecutive selected indices is selected. */
  lemma GapNotSelected(del: seq<nat>, s: seq<StashEntry>, keep: set<string>, queued: bool, k: nat)
    requires SelectsExactly(del, s, keep, queued) && k < |del|
    ensures del[k] < Bound(del, k + 1, |s|) <= |s|
    ensures forall t :: del[k] < t < Bound(del, k + 1, |s|) ==> !ToDrop(s[t], keep, queued)
  {
    forall t | del[k] < t < Bound(del, k + 1, |s|)
      ensures !ToDrop(s[t], keep, queued)
    {
      if ToDrop(s[t], keep, queued) {
        var m :| 0 <= m < |del| && del[m] == t;
      }
    }
  }

  /** No index below the first selected one is selected. */
  lemma BelowFirstNotSelected(del: seq<nat>, s: seq<StashEntry>, keep: set<string>, queued: bool)
    requires SelectsExactly(del, s, keep, queued)
    ensures Bound(del, 0, |s|) <= |s|
    ensures Surviving(s[..Bound(del, 0, |s|)], keep, queued) == s[..Bound(del, 0, |s|)]
  {
    var b := Bound(del, 0, |s|);
    forall t | 0 <= t < b
      ensures !ToDrop(s[..b][t], keep, queued)
    {
    }
    SurvivingNoneSelected(s[..b], keep, queued);
  }

  /** The refs after the ref loop has processed `ys`, one ref at a time. */
  function RefsAfter(refs: map<string, string>, ys: seq<ExpRefInfo>, keep: set<string>): map<string, string>
  {
    if ys == [] then refs
    else RefsAfter(refs, ys[..|ys| - 1], keep) - ClearedBy(refs, ys[|ys| - 1], keep)
  }

  /** Processing the refs one at a time gives `GcRefs`. */
  lemma {:induction false} RefsAfterIsGcRefs(refs: map<string, string>, ys: seq<ExpRefInfo>, keep: set<string>)
    ensures RefsAfter(refs, ys, keep) == GcRefs(refs, ys, keep)
  {
    if ys == [] {
      assert GcRefs(refs, ys, keep).Keys == refs.Keys;
    } else {
      var init := ys[..|ys| - 1];
      RefsAfterIsGcRefs(refs, init, keep);
      assert ys == init + [ys[|ys| - 1]];
      GcRefsSnoc(refs, init, ys[|ys| - 1], keep);
    }
  }

  /**
   * Before the ref loop reaches a listed ref whose baseline is not kept, the
   * ref still has the value `gc` started with.
   */
  lemma RefLoopStep(refs: map<string, string>, xs: seq<ExpRefInfo>, keep: set<string>, i: nat)
    requires ListedOnce(xs) && i < |xs|
    ensures GetRef(RefsAfter(refs, xs[..i], keep), RefName(xs[i])) == GetRef(refs, RefName(xs[i]))
    ensures RefsAfter(refs, xs[..i + 1], keep) == RefsAfter(refs, xs[..i], keep) - ClearedBy(refs, xs[i], keep)
  {
    RefsAfterIsGcRefs(refs, xs[..i], keep);
    NotYetRemoved(refs, xs, keep, i);
    assert xs[..i + 1][..i] == xs[..i];
  }

  /** A ref whose baseline is kept makes the ref loop change nothing. */
  lemma KeptRefStep(refs: map<string, string>, xs: seq<ExpRefInfo>, keep: set<string>, i: nat)
    requires i < |xs| && xs[i].baselineSha in keep
    ensures RefsAfter(refs, xs[..i + 1], keep) == RefsAfter(refs, xs[..i], keep)
  {
    assert xs[..i + 1][..i] == xs[..i];
    assert ClearedBy(refs, xs[i], keep) == {};
    var m := RefsAfter(refs, xs[..i], keep);
    assert (m - {}).Keys == m.Keys;
  }

  /** The ref loop counts one per listed ref whose baseline is not kept. */
  lemma RemovedCountStep(xs: seq<ExpRefInfo>, keep: set<string>, i: nat)
    requires i < |xs|
    ensures |RemovedRefs(xs[..i + 1], keep)| == |RemovedRefs(xs[..i], keep)| + (if xs[i].baselineSha !in keep then 1 else 0)
  {
    assert xs[..i + 1] == xs[..i] + [xs[i]];
    RemovedRefsSnoc(xs[..i], xs[i], keep);
  }

  /** The tail of a listing is a listing, and its names differ from the head's. */
  lemma ListedOnceTail(xs: seq<ExpRefInfo>)
    requires ListedOnce(xs) && xs != []
    ensures ListedOnce(xs[1..])
    ensures forall z :: z in xs[1..] ==> RefName(z) != RefName(xs[0])
  {
    var tail := xs[1..];
    assert forall i :: 0 <= i < |tail| ==> tail[i] == xs[i + 1];
    forall z | z in tail
      ensures RefName(z) != RefName(xs[0])
    {
      var j :| 0 <= j < |tail| && tail[j] == z;
      assert xs[j + 1] == z;
    }
  }

  lemma RemovedNamesCons(xs: seq<ExpRefInfo>, keep: set<string>)
    requires xs != []
    ensures RemovedNames(xs, keep) == OwnClearedBy(xs[0], keep) + RemovedNames(xs[1..], keep)
  {
    assert forall z :: z in xs <==> z == xs[0] || z in xs[1..];
  }

  /**
   * Each removed listing entry deletes a different ref, so the ref part of
   * the count is the number of experiment refs deleted.
   */
  lemma {:induction false} RemovedCountIsDistinct(xs: seq<ExpRefInfo>, keep: set<string>)
    requires ListedOnce(xs)
    ensures |RemovedRefs(xs, keep)| == |RemovedNames(xs, keep)|
  {
    if xs != [] {
      ListedOnceTail(xs);
      RemovedCountIsDistinct(xs[1..], keep);
      RemovedNamesCons(xs, keep);
      assert RefName(xs[0]) !in RemovedNames(xs[1..], keep);
    }
  }

  /**
   * A worked case: keeping only "rev1", with one ref on "rev1", one on
   * "rev2" that `EXEC_APPLY` points at, and one queued entry on "rev2",
   * `gc` removes the "rev2" ref, the pointer and the queued entry, keeps
   * the "rev1" ref, and counts 2.
   */
  lemma WorkedExample()
    ensures var r1 := ExpRefInfo("rev1", "exp-a");
            var r2 := ExpRefInfo("rev2", "exp-b");
            var refs := map[RefName(r1) := "c1", RefName(r2) := "c2", EXEC_APPLY := "c2"];
            var stash := [StashEntry("s1", "rev2")];
            GcRefs(refs, [r1, r2], {"rev1"}) == map[RefName(r1) := "c1"] &&
            Surviving(stash, {"rev1"}, true) == [] &&
            |RemovedRefs([r1, r2], {"rev1"})| + DroppedCount(stash, {"rev1"}, true) == 2
  {
    var r1 := ExpRefInfo("rev1", "exp-a");
    var r2 := ExpRefInfo("rev2", "exp-b");
    var refs := map[RefName(r1) := "c1", RefName(r2) := "c2", EXEC_APPLY := "c2"];
    var xs := [r1, r2];
    assert RefName(r1)[13] == '1' && RefName(r2)[13] == '2';
    assert RefName(r1)[10] == 'r' && RefName(r2)[10] == 'r' && EXEC_APPLY[10] == 'e';
    assert RemovedNames(xs, {"rev1"}) == {RefName(r2)} by {
      assert forall z :: z in xs <==> z == r1 || z == r2;
    }
    assert r2 in xs && GetRef(refs, RefName(r2)) == GetRef(refs, EXEC_APPLY);
    assert PointerCleared(refs, xs, {"rev1"}, EXEC_APPLY);
    assert !PointerCleared(refs, xs, {"rev1"}, EXEC_CHECKPOINT);
    assert !BranchCleared(refs, xs, {"rev1"});
    assert ExecCleared(refs, xs, {"rev1"}) == {EXEC_APPLY};
    assert GcRefs(refs, xs, {"rev1"}).Keys == {RefName(r1)};
    assert RemovedRefs(xs, {"rev1"}) == [r2] by {
      assert xs[1..] == [r2] && [r2][1..] == [];
    }
  }

  /** The stash after the drop loop has filtered every index from `b` on. */
  function FilteredFrom(s: seq<StashEntry>, b: nat, keep: set<string>, queued: bool): seq<StashEntry>
    requires b <= |s|
  {
    s[..b] + Surviving(s[b..], keep, queued)
  }

  /** One iteration of the descending drop loop keeps `FilteredFrom` in step. */
  lemma DropLoopStep(s: seq<StashEntry>, del: seq<nat>, keep: set<string>, queued: bool, k: nat)
    requires SelectsExactly(del, s, keep, queued) && k < |del|
    ensures del[k] < Bound(del, k + 1, |s|) <= |s|
    ensures del[k] < |FilteredFrom(s, Bound(del, k + 1, |s|), keep, queued)|
    ensures Drop(FilteredFrom(s, Bound(del, k + 1, |s|), keep, queued), del[k]) == FilteredFrom(s, del[k], keep, queued)
  {
    GapNotSelected(del, s, keep, queued, k);
    DropStep(s, del[k], Bound(del, k + 1, |s|), keep, queued);
  }

  /** When the drop loop ends, exactly the surviving entries remain. */
  lemma DropLoopDone(s: seq<StashEntry>, del: seq<nat>, keep: set<string>, queued: bool)
    requires SelectsExactly(del, s, keep, queued)
    ensures Bound(del, 0, |s|) <= |s|
    ensures FilteredFrom(s, Bound(del, 0, |s|), keep, queued) == Surviving(s, keep, queued)
  {
    BelowFirstNotSelected(del, s, keep, queued);
    SurvivingSplit(s, Bound(del, 0, |s|), keep, queued);
  }

  /** If nothing before `b` is dropped, filtering from `b` on filters the whole stash. */
  lemma SurvivingSplit(s: seq<StashEntry>, b: nat, keep: set<string>, queued: bool)
    requires b <= |s| && Surviving(s[..b], keep, queued) == s[..b]
    ensures FilteredFrom(s, b, keep, queued) == Surviving(s, keep, queued)
  {
    SurvivingAppend(s[..b], s[b..], keep, queued);
    assert s[..b] + s[b..] == s;
  }

  /** The repository state `gc` works on: the git refs and the experiment stash. */
  class ExpRepo {
    var refs: map<string, string>
    var stash: seq<StashEntry>

    constructor (refs0: map<string, string>, stash0: seq<StashEntry>)
      ensures refs == refs0 && stash == stash0
    {
      refs := refs0;
      stash := stash0;
    }

    /** `scm.remove_ref(name)`; a ref that is already gone stays gone. */
    method RemoveRef(name: string)
      modifies this`refs
      ensures refs == old(refs) - {name}
    {
      refs := refs - {name};
    }

    /** `stash.drop(i)` */
    method DropStash(i: nat)
      requires i < |stash|
      modifies this`stash
      ensures stash == Drop(old(stash), i)
    {
      stash := stash[..i] + stash[i + 1..];
    }

    /**
     * `gc`: with an empty keep-set nothing happens and 0 is returned;
     * otherwise the refs become `GcRefs`, the stash keeps exactly the
     * surviving entries in order, and the count is the removed refs plus
     * the dropped stash entries.
     */
    method Gc(branchRevs: set<string>, workspace: bool, workspaceRev: string, queued: bool, expRefs: seq<ExpRefInfo>)
      returns (removed: nat)
      requires ListedOnce(expRefs)
      modifies this
      ensures var keep := KeepRevs(branchRevs, workspace, workspaceRev);
        if keep == {} then
          removed == 0 && refs == old(refs) && stash == old(stash)
        else
          refs == GcRefs(old(refs), expRefs, keep) &&
          stash == Surviving(old(stash), keep, queued) &&
          removed == |RemovedRefs(expRefs, keep)| + DroppedCount(old(stash), keep, queued)
    {
      var keep := KeepRevs(branchRevs, workspace, workspaceRev);
      if keep == {} {
        return 0;
      }
      var n := RemoveExpRefs(keep, expRefs);
      var d := DropStashes(keep, queued);
      removed := n + d;
    }

    /** The ref loop of `gc`. */
    method RemoveExpRefs(keep: set<string>, xs: seq<ExpRefInfo>) returns (n: nat)
      requires ListedOnce(xs)
      modifies this`refs
      ensures refs == GcRefs(old(refs), xs, keep)
      ensures n == |RemovedRefs(xs, keep)|
    {
      var execBranch := GetRef(refs, EXEC_BRANCH);
      var execApply := GetRef(refs, EXEC_APPLY);
      var execCheckpoint := GetRef(refs, EXEC_CHECKPOINT);
      ghost var refs0 := refs;
      n := 0;
      var i := 0;
      while i < |xs|
        invariant 0 <= i <= |xs|
        invariant refs == RefsAfter(refs0, xs[..i], keep)
        invariant n == |RemovedRefs(xs[..i], keep)|
      {
        RemovedCountStep(xs, keep, i);
        if xs[i].baselineSha !in keep {
          RefLoopStep(refs0, xs, keep, i);
          RemoveListed(refs0, keep, xs[i], execBranch, execApply, execCheckpoint);
          n := n + 1;
        } else {
          KeptRefStep(refs0, xs, keep, i);
        }
        i := i + 1;
      }
      assert xs[..|xs|] == xs;
      RefsAfterIsGcRefs(refs0, xs, keep);
    }

    /**
     * The body of the ref loop for a ref whose baseline is not kept, while
     * its value is still the one `gc` started with.
     */
    method RemoveListed(ghost refs0: map<string, string>, keep: set<string>, x: ExpRefInfo,
                        execBranch: Option<string>, execApply: Option<string>, execCheckpoint: Option<string>)
      requires x.baselineSha !in keep
      requires execBranch == GetRef(refs0, EXEC_BRANCH) && execApply == GetRef(refs0, EXEC_APPLY)
      requires execCheckpoint == GetRef(refs0, EXEC_CHECKPOINT)
      requires GetRef(refs, RefName(x)) == GetRef(refs0, RefName(x))
      modifies this`refs
      ensures refs == old(refs) - ClearedBy(refs0, x, keep)
    {
      ghost var cur := refs;
      ghost var gone: set<string> := {};
      assert cur - gone == cur;
      var name := RefName(x);
      var ref := GetRef(refs, name);
      if NonEmpty(execBranch) && name != "" {
        RemoveRef(EXEC_BRANCH);
        MinusMinus(cur, gone, {EXEC_BRANCH});
        gone := gone + {EXEC_BRANCH};
      }
      if NonEmpty(execApply) && execApply == ref {
        RemoveRef(EXEC_APPLY);
        MinusMinus(cur, gone, {EXEC_APPLY});
        gone := gone + {EXEC_APPLY};
      }
      if NonEmpty(execCheckpoint) && execCheckpoint == ref {
        RemoveRef(EXEC_CHECKPOINT);
        MinusMinus(cur, gone, {EXEC_CHECKPOINT});
        gone := gone + {EXEC_CHECKPOINT};
      }
      RemoveRef(name);
      MinusMinus(cur, gone, {name});
      gone := gone + {name};
      assert gone == ClearedBy(refs0, x, keep);
    }

    /** The stash part of `gc`: select, then drop from the highest index down. */
    method DropStashes(keep: set<string>, queued: bool) returns (d: nat)
      modifies this`stash
      ensures stash == Surviving(old(stash), keep, queued)
      ensures d == DroppedCount(old(stash), keep, queued)
    {
      var del := SelectStashes(stash, keep, queued);
      ghost var s0 := stash;
      var k := |del|;
      assert s0[..|s0|] == s0 && s0[|s0|..] == [];
      while k > 0
        invariant 0 <= k <= |del|
        invariant Bound(del, k, |s0|) <= |s0|
        invariant stash == FilteredFrom(s0, Bound(del, k, |s0|), keep, queued)
      {
        k := k - 1;
        DropLoopStep(s0, del, keep, queued, k);
        DropStash(del[k]);
      }
      DropLoopDone(s0, del, keep, queued);
      d := |del|;
    }
  }
}
