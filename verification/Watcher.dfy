/** Which file system events the watcher passes on. It knows neither the repository's ignored paths nor
    the configured names and extensions, so it may drop only what every setting excludes. */
module Watcher {
  import opened IgnoreRules
  import opened TreeWalk
  import ChangeFilter

  /** The filter the watcher builds. */
  const PLAIN: Settings := Settings({}, {}, {}, {})

  /** `path` is relative to the root; the root itself always passes. */
  ghost predicate MayAffect(repo: Repo, path: Path, isDir: bool)
  {
    path == []
    || (&& CouldContain(repo, PLAIN, path[..|path| - 1])
        && path[|path| - 1] !in SKIP_DIRS
        && (isDir ==> CouldContain(repo, PLAIN, path)))
  }

  method MayAffectIndex(filter: ChangeFilter.Filter, path: Path, isDir: bool) returns (may: bool)
    requires filter.Valid() && filter.settings == PLAIN
    modifies filter
    ensures filter.Valid() && may == MayAffect(filter.repo, path, isDir)
  {
    if path == [] {
      return true;
    }
    var could := filter.CouldContainIndexed(path[..|path| - 1]);
    if !could {
      return false;
    }
    if path[|path| - 1] in SKIP_DIRS {
      return false;
    }
    if isDir {
      could := filter.CouldContainIndexed(path);
      if !could {
        return false;
      }
    }
    may := true;
  }

  datatype Change = Change(path: Path, isDir: bool)

  /** `kept` are the events at the positions `at`, which are exactly those that may affect the index. */
  ghost predicate Retained(repo: Repo, changes: seq<Change>, kept: seq<Change>, at: seq<nat>)
  {
    && |kept| == |at|
    && (forall i, j | 0 <= i < j < |at| :: at[i] < at[j])
    && (forall i | 0 <= i < |at| :: at[i] < |changes| && kept[i] == changes[at[i]])
    && (forall k | 0 <= k < |changes| :: k in at <==> MayAffect(repo, changes[k].path, changes[k].isDir))
  }

  lemma RetainedDrops(repo: Repo, changes: seq<Change>, k: nat, kept: seq<Change>, at: seq<nat>)
    requires k < |changes| && Retained(repo, changes[..k], kept, at)
    requires !MayAffect(repo, changes[k].path, changes[k].isDir)
    ensures Retained(repo, changes[..k + 1], kept, at)
  {
    assert forall j | 0 <= j < k :: changes[..k + 1][j] == changes[..k][j];
  }

  lemma RetainedKeeps(repo: Repo, changes: seq<Change>, k: nat, kept: seq<Change>, at: seq<nat>)
    requires k < |changes| && Retained(repo, changes[..k], kept, at)
    requires MayAffect(repo, changes[k].path, changes[k].isDir)
    ensures Retained(repo, changes[..k + 1], kept + [changes[k]], at + [k])
  {
    assert forall j | 0 <= j < k :: changes[..k + 1][j] == changes[..k][j];
    assert forall j :: j in at + [k] <==> j in at || j == k;
  }

  /** One batch, with one filter for all of its events. */
  method RetainChanges(repo: Repo, changes: seq<Change>) returns (kept: seq<Change>, ghost at: seq<nat>)
    ensures Retained(repo, changes, kept, at)
  {
    var filter := new ChangeFilter.Filter(repo, PLAIN);
    kept, at := [], [];
    for i := 0 to |changes|
      invariant filter.Valid() && filter.repo == repo && filter.settings == PLAIN && fresh(filter)
      invariant Retained(repo, changes[..i], kept, at)
    {
      var may := MayAffectIndex(filter, changes[i].path, changes[i].isDir);
      if may {
        RetainedKeeps(repo, changes, i, kept, at);
        kept, at := kept + [changes[i]], at + [i];
      } else {
        RetainedDrops(repo, changes, i, kept, at);
      }
    }
    assert changes[..|changes|] == changes;
  }

  // ── Dropping is sound ─────────────────────────────────────────────────────

  /** Below a directory the plain filter rules out, every filter rejects everything. */
  lemma NothingAllowedBelow(repo: Repo, settings: Settings, dir: Path, path: Path)
    requires !CouldContain(repo, PLAIN, dir) && dir < path
    ensures !Allowed(repo, settings, path, false)
  {
    var rel := path[|dir|..];
    assert path == dir + rel;
    if Allowed(repo, settings, path, false) {
      ReachedFromRoot(repo, path);
      ContainsSomething(repo, PLAIN, dir, rel);
    }
  }

  /** A name of a skipped directory has no dot, and is not one of the bare names either. */
  lemma SkipNameNotIndexable(settings: Settings, name: Name)
    requires name in SKIP_DIRS
    ensures !HasIndexableExtension(settings, name)
  {
    assert '.' !in name;
    assert Lower(name) == name;
  }

  /** What the watcher drops can be neither an indexed file nor a directory with one in it, whatever
      the extensions, names and paths of the settings are. `isDir` may hold of a link to a directory
      as well, but not of a file. */
  lemma DroppingIsSound(repo: Repo, settings: Settings, root: Listing, dropped: Path, isDir: bool, path: Path)
    requires !MayAffect(repo, dropped, isDir) && (HasFile(root, dropped) ==> !isDir)
    requires dropped <= path && HasFile(root, path)
    ensures !Allowed(repo, settings, path, false)
  {
    var n := |dropped| - 1;
    if !CouldContain(repo, PLAIN, dropped[..n]) {
      NothingAllowedBelow(repo, settings, dropped[..n], path);
    } else if dropped[n] in SKIP_DIRS {
      assert path[n] == dropped[n];
      if path == dropped { SkipNameNotIndexable(settings, dropped[n]); }
    } else {
      assert dropped != path;
      NothingAllowedBelow(repo, settings, dropped, path);
    }
  }

  /** In terms of the walk: an event the watcher drops concerns no file that a full walk returns. */
  lemma DroppedNotWalked(repo: Repo, settings: Settings, root: Listing, dropped: Path, isDir: bool, path: Path)
    requires WellFormed(root) && !MayAffect(repo, dropped, isDir) && (HasFile(root, dropped) ==> !isDir)
    requires dropped <= path
    ensures !InFullWalk(repo, settings, root, path)
  {
    if HasFile(root, path) { DroppingIsSound(repo, settings, root, dropped, isDir, path); }
    WalkIsFilter(repo, settings, root, path);
  }

  /** No event on a walked file, or on a directory above one, is lost from a batch. */
  lemma WalkedEventKept(repo: Repo, settings: Settings, root: Listing, changes: seq<Change>, kept: seq<Change>,
                        at: seq<nat>, k: nat, path: Path)
    requires WellFormed(root) && Retained(repo, changes, kept, at) && k < |changes|
    requires changes[k].path <= path && InFullWalk(repo, settings, root, path)
    requires HasFile(root, changes[k].path) ==> !changes[k].isDir
    ensures changes[k] in kept
  {
    if !MayAffect(repo, changes[k].path, changes[k].isDir) {
      DroppedNotWalked(repo, settings, root, changes[k].path, changes[k].isDir, path);
    }
    var i :| 0 <= i < |at| && at[i] == k;
    assert kept[i] == changes[k];
  }

  /** Kept events stay in order. */
  lemma KeptInOrder(repo: Repo, changes: seq<Change>, kept: seq<Change>, at: seq<nat>, k: nat, l: nat)
    returns (i: nat, j: nat)
    requires Retained(repo, changes, kept, at) && k < l < |changes|
    requires MayAffect(repo, changes[k].path, changes[k].isDir) && MayAffect(repo, changes[l].path, changes[l].isDir)
    ensures i < j < |kept| && kept[i] == changes[k] && kept[j] == changes[l]
  {
    i :| 0 <= i < |at| && at[i] == k;
    j :| 0 <= j < |at| && at[j] == l;
  }

  /** Which events are dropped, in terms of the path: those at or below a directory that is hidden,
      skipped or excluded. The last name counts as a directory's if it is that of a skipped one, and for
      the other two reasons if it is one. */
  lemma DroppedIff(repo: Repo, path: Path, isDir: bool)
    requires path != []
    ensures var n := |path| - 1;
            !MayAffect(repo, path, isDir) <==>
              || (exists k :: 0 <= k < n && IsPrunedDir(path[k])) || UnderExcluded(repo, path)
              || path[n] in SKIP_DIRS || (isDir && (IsHidden(path[n]) || Excluded(repo, path, true)))
  {
    var n := |path| - 1;
    CouldContainIff(repo, PLAIN, path[..n]);
    CouldContainIff(repo, PLAIN, path);
    assert forall k | 0 <= k < n :: path[..n][k] == path[k];
    assert forall k | 0 < k <= n :: path[..n][..k] == path[..k];
    assert path[..|path|] == path;
    assert UnderExcluded(repo, path) <==> exists k :: 0 < k <= n && Excluded(repo, path[..n][..k], true);
  }
}
