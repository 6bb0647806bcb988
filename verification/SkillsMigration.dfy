/**
The crash-safe copy, verify, remove migration of the skills tree (src/stackowl/paths.py:427-528).
A copied file appears first with partial content and then whole, so a crash can leave it torn.
*/
module SkillsMigration {
  import opened Common

  datatype Node = Dir | File(content: string)

  /** A nonempty path below the root of a tree. */
  type Path = seq<string>

  type Tree = map<Path, Node>

  predicate TopLevel(p: Path) {
    |p| <= 1
  }

  /** No path is a directory in one tree and a file in the other. */
  predicate NoClash(a: Tree, b: Tree) {
    forall p :: p in a && p in b ==> (a[p].Dir? <==> b[p].Dir?)
  }

  function Files(t: Tree): set<Path> {
    set p | p in t && t[p].File?
  }

  /** The legacy file at `p` is not copied: only a top-level file that already exists is skipped. */
  predicate Skips(legacy: Tree, target: Tree, p: Path)
    requires p in legacy
  {
    p in target && (legacy[p].Dir? || TopLevel(p))
  }

  /** Copying one legacy path: a directory is created if missing, a nested file is overwritten, a
      top-level file is copied only if nothing is there. */
  function CopyOne(legacy: Tree, target: Tree, p: Path): Tree
    requires p in legacy
  {
    if Skips(legacy, target, p) then target else target[p := legacy[p]]
  }

  function CopyAll(legacy: Tree, target: Tree, order: seq<Path>): Tree
    requires forall p :: p in order ==> p in legacy
  {
    if order == [] then target
    else CopyOne(legacy, CopyAll(legacy, target, order[..|order| - 1]), Last(order))
  }

  /** What the target should end as, said path by path. */
  function Merged(legacy: Tree, target: Tree): Tree {
    map p | p in legacy.Keys + target.Keys :: if p !in legacy || Skips(legacy, target, p) then target[p] else legacy[p]
  }

  ghost predicate Covers(order: seq<Path>, legacy: Tree) {
    forall p :: p in order <==> p in legacy
  }

  /** The target when the copy dies after `k` whole copies, `torn` being what part of the next file was written. */
  function CrashState(legacy: Tree, target: Tree, order: seq<Path>, k: nat, torn: Option<string>): Tree
    requires k <= |order| && forall p :: p in order ==> p in legacy
  {
    var t := CopyAll(legacy, target, order[..k]);
    if Tears(legacy, target, order, k, torn) then t[order[k] := File(torn.value)] else t
  }

  /** The crash hits a file that was being written. */
  predicate Tears(legacy: Tree, target: Tree, order: seq<Path>, k: nat, torn: Option<string>)
    requires k <= |order| && forall p :: p in order ==> p in legacy
  {
    && torn.Some? && k < |order| && legacy[order[k]].File?
    && !Skips(legacy, CopyAll(legacy, target, order[..k]), order[k])
  }

  // ---- Complete copies ----

  /** After any part of the copy each path is as merged if its turn has come, and as before otherwise. */
  lemma {:induction false} CopyAllPointwise(legacy: Tree, target: Tree, order: seq<Path>)
    requires forall p :: p in order ==> p in legacy
    ensures CopyAll(legacy, target, order).Keys == target.Keys + set p | p in order
    ensures forall p :: p in CopyAll(legacy, target, order) ==>
              CopyAll(legacy, target, order)[p] == if p in order then Merged(legacy, target)[p] else target[p]
    decreases |order|
  {
    if order != [] {
      var front := order[..|order| - 1];
      CopyAllPointwise(legacy, target, front);
      assert order == front + [Last(order)];
    }
  }

  /** In whatever order the paths are copied, the target ends as the merge. */
  lemma CopyAllMerges(legacy: Tree, target: Tree, order: seq<Path>)
    requires Covers(order, legacy)
    ensures CopyAll(legacy, target, order) == Merged(legacy, target)
  {
    CopyAllPointwise(legacy, target, order);
  }

  /**
  Every legacy path exists in the merge with its own kind; it holds the legacy node unless a
  different top-level file was already there; everything else of the target is kept.
  */
  lemma MergeKeepsBoth(legacy: Tree, target: Tree)
    requires NoClash(legacy, target)
    ensures forall p :: p in legacy ==> p in Merged(legacy, target) && (Merged(legacy, target)[p].Dir? <==> legacy[p].Dir?)
    ensures forall p :: p in legacy ==>
              (Merged(legacy, target)[p] == legacy[p] <==> !(|p| <= 1 && p in target && target[p] != legacy[p]))
    ensures forall p :: p in target && (p !in legacy || |p| <= 1) ==> Merged(legacy, target)[p] == target[p]
    ensures Merged(legacy, target).Keys == legacy.Keys + target.Keys
  {
  }

  /** So the file count check always passes once the copies succeed. */
  lemma CountCheckPasses(legacy: Tree, target: Tree)
    requires NoClash(legacy, target)
    ensures |Files(legacy)| <= |Files(Merged(legacy, target))|
  {
    MergeKeepsBoth(legacy, target);
    SubsetSize(Files(legacy), Files(Merged(legacy, target)));
  }

  lemma {:induction false} SubsetSize(a: set<Path>, b: set<Path>)
    requires a <= b
    ensures |a| <= |b|
  {
    if a != {} {
      var x :| x in a;
      SubsetSize(a - {x}, b - {x});
    }
  }

  // ---- Crashes and re-runs ----

  /** After any whole copies the merge still to be reached is the same. */
  lemma PartialCopyMergesSame(legacy: Tree, target: Tree, order: seq<Path>)
    requires NoClash(legacy, target) && forall p :: p in order ==> p in legacy
    ensures Merged(legacy, CopyAll(legacy, target, order)) == Merged(legacy, target)
    ensures NoClash(legacy, CopyAll(legacy, target, order))
  {
    hide CopyAll;
    CopyAllPointwise(legacy, target, order);
  }

  /** A torn write of a file that was being copied matters only at the top level. */
  lemma TornWrite(legacy: Tree, t: Tree, p: Path, c: string)
    requires NoClash(legacy, t) && p in legacy && legacy[p].File? && !Skips(legacy, t, p)
    ensures NoClash(legacy, t[p := File(c)])
    ensures Merged(legacy, t[p := File(c)]) == Merged(legacy, t) <==> !(TopLevel(p) && File(c) != legacy[p])
  {
    var a, b := Merged(legacy, t[p := File(c)]), Merged(legacy, t);
    assert a.Keys == b.Keys;
    assert a[p] == (if TopLevel(p) then File(c) else legacy[p]) && b[p] == legacy[p];
    assert forall q :: q in b && q != p ==> a[q] == b[q];
  }

  /**
  Re-running from any crash point reaches the same target, except exactly when the crash tore a
  top-level file: the torn copy then counts as already there and is kept.
  */
  lemma RerunReachesSameTarget(legacy: Tree, target: Tree, order: seq<Path>, k: nat, torn: Option<string>)
    requires NoClash(legacy, target) && Covers(order, legacy) && k <= |order|
    ensures Merged(legacy, CrashState(legacy, target, order, k, torn)) == Merged(legacy, target)
            <==> !(Tears(legacy, target, order, k, torn) && TopLevel(order[k]) && File(torn.value) != legacy[order[k]])
    ensures NoClash(legacy, CrashState(legacy, target, order, k, torn))
  {
    hide CopyAll, Merged, NoClash;
    PartialCopyMergesSame(legacy, target, order[..k]);
    if Tears(legacy, target, order, k, torn) {
      TornWrite(legacy, CopyAll(legacy, target, order[..k]), order[k], torn.value);
    }
  }

  /** A crash while the old tree is being removed: whatever is left of it, a re-run changes nothing. */
  lemma RerunAfterPartialRemoval(legacy: Tree, target: Tree, left: set<Path>)
    requires NoClash(legacy, target)
    ensures var rest := map p | p in legacy && p in left :: legacy[p];
            Merged(rest, Merged(legacy, target)) == Merged(legacy, target)
  {
  }

  // ---- The operation ----

  datatype Outcome = NothingToDo | Crashed | Raised | KeptLegacy | Migrated

  /** A legacy directory cannot be created because a file has its name. */
  predicate Blocked(legacy: Tree, target: Tree, p: Path) {
    p in legacy && p in target && legacy[p].Dir? && target[p].File?
  }

  /** No nested legacy file has the name of a target directory. */
  predicate NoFileOverDir(legacy: Tree, target: Tree) {
    forall p :: p in legacy && p in target && legacy[p].File? && target[p].Dir? ==> TopLevel(p)
  }

  /** A path blocks during the copy exactly when it did before. */
  lemma BlockedThroughout(legacy: Tree, target: Tree, order: seq<Path>, p: Path)
    requires forall q :: q in order ==> q in legacy
    ensures Blocked(legacy, CopyAll(legacy, target, order), p) <==> Blocked(legacy, target, p)
  {
    hide CopyAll;
    CopyAllPointwise(legacy, target, order);
  }

  /** Where the process dies, if it does. */
  datatype Crash = Crash(after: nat, torn: Option<string>)

  class Home {
    var legacyExists: bool
    var legacy: Tree
    var target: Tree

    constructor (legacy: Tree, target: Tree)
      ensures legacyExists && this.legacy == legacy && this.target == target
    {
      legacyExists, this.legacy, this.target := true, legacy, target;
    }

    /** `order` is the order in which the file system lists the legacy tree; `sameTree` says both roots resolve to one. */
    method MigrateLegacySkills(order: seq<Path>, sameTree: bool, crash: Option<Crash>) returns (outcome: Outcome)
      requires Covers(order, legacy) && NoFileOverDir(legacy, target)
      modifies this
      ensures outcome == NothingToDo <==> !old(legacyExists) || sameTree || old(legacy) == map[]
      ensures outcome == NothingToDo ==> target == old(target) && legacy == old(legacy)
      ensures outcome == Crashed ==>
                crash.Some? && crash.value.after <= |order| && legacyExists && legacy == old(legacy)
                && target == CrashState(old(legacy), old(target), order, crash.value.after, crash.value.torn)
      ensures outcome == Raised ==> legacyExists && legacy == old(legacy)
      ensures outcome == Raised ==>
                exists k :: 0 <= k < |order| && target == CopyAll(old(legacy), old(target), order[..k])
                            && Blocked(old(legacy), old(target), order[k])
                            && forall i :: 0 <= i < k ==> !Blocked(old(legacy), old(target), order[i])
      ensures outcome == KeptLegacy || outcome == Migrated ==>
                target == Merged(old(legacy), old(target)) && forall p :: !Blocked(old(legacy), old(target), p)
      ensures outcome == KeptLegacy ==> |Files(target)| < |Files(old(legacy))| && legacyExists && legacy == old(legacy)
      ensures outcome == Migrated ==> |Files(target)| >= |Files(old(legacy))| && !legacyExists && legacy == map[]
      ensures crash.None? ==> outcome != Crashed
      ensures old(NoClash(legacy, target)) ==> outcome != Raised && outcome != KeptLegacy
    {
      if !legacyExists || sameTree {
        return NothingToDo;
      }
      if legacy == map[] {
        legacyExists := false;
        return NothingToDo;
      }
      ghost var before := target;
      var sourceFiles := |Files(legacy)|;
      for k := 0 to |order|
        invariant legacyExists && legacy == old(legacy)
        invariant target == CopyAll(legacy, before, order[..k])
        invariant forall i :: 0 <= i < k ==> !Blocked(legacy, before, order[i])
      {
        var p := order[k];
        BlockedThroughout(legacy, before, order[..k], p);
        var skip := Skips(legacy, target, p);
        if crash.Some? && crash.value.after == k {
          if !skip && legacy[p].File? && crash.value.torn.Some? {
            target := target[p := File(crash.value.torn.value)];
          }
          return Crashed;
        }
        if legacy[p].Dir? && p in target && target[p].File? {
          return Raised;
        }
        if !skip {
          target := target[p := legacy[p]];
        }
        assert order[..k + 1][..k] == order[..k];
      }
      assert order[..|order|] == order;
      if crash.Some? && crash.value.after == |order| {
        return Crashed;
      }
      CopyAllMerges(legacy, before, order);
      if NoClash(legacy, before) {
        CountCheckPasses(legacy, before);
      }
      var targetFiles := |Files(target)|;
      if targetFiles < sourceFiles {
        return KeptLegacy;
      }
      legacy, legacyExists := map[], false;
      return Migrated;
    }
  }
}
