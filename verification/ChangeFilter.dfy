/** The filter over single paths, which compiles each directory's ignore files once and remembers each directory's verdict. */
module ChangeFilter {
  import opened IgnoreRules

  lemma NothingAbove(repo: Repo, path: Path, k: nat)
    requires 0 < k < |path| && forall j | 0 < j < k :: !Excluded(repo, path[..j], true)
    ensures !UnderExcluded(repo, path[..k])
  {
    forall j | 0 < j < k ensures !Excluded(repo, path[..k][..j], true) {
      assert path[..k][..j] == path[..j];
    }
  }

  class Filter {
    const repo: Repo
    const settings: Settings
    /** Ignore files by directory, loaded on first use. */
    var dirIgnores: map<Path, DirIgnores>
    /** Remembered verdicts on directories. */
    var dirIgnored: map<Path, bool>

    ghost predicate Valid()
      reads this
    {
      && (forall d | d in dirIgnores :: dirIgnores[d] == IgnoresAt(repo, d))
      && (forall d | d in dirIgnored :: dirIgnored[d] == GitIgnored(repo, d, true))
    }

    constructor (repo: Repo, settings: Settings)
      ensures Valid() && this.repo == repo && this.settings == settings
    {
      this.repo, this.settings, dirIgnores, dirIgnored := repo, settings, map[], map[];
    }

    method IgnoresOf(dir: Path) returns (ig: DirIgnores)
      requires Valid()
      modifies this`dirIgnores
      ensures Valid() && ig == IgnoresAt(repo, dir)
    {
      if dir in dirIgnores {
        return dirIgnores[dir];
      }
      ig := IgnoresAt(repo, dir);
      dirIgnores := dirIgnores[dir := ig];
    }

    /** `ancestors` are the directories above the candidate, from the root down. */
    method IsIgnoredByFiles(candidate: Path, isDir: bool, ancestors: seq<Path>) returns (ignored: bool)
      requires Valid() && |ancestors| == |candidate|
      requires forall k | 0 <= k < |ancestors| :: ancestors[k] == candidate[..k]
      modifies this`dirIgnores
      ensures Valid() && ignored == Excluded(repo, candidate, isDir)
    {
      var custom, ignore, git := NoMatch, NoMatch, NoMatch;
      var sawGit := false;
      var k := |ancestors|;
      while k > 0
        invariant 0 <= k <= |ancestors| && Valid()
        invariant SoFar(AugmentIgnore, candidate, isDir, k, custom, false)
        invariant SoFar(DotIgnore, candidate, isDir, k, ignore, false)
        invariant SoFar(GitIgnore, candidate, isDir, k, git, sawGit)
      {
        k := k - 1;
        var ig := IgnoresOf(ancestors[k]);
        if custom == NoMatch {
          custom := Matched(ig.custom, candidate, isDir);
        }
        if ignore == NoMatch {
          ignore := Matched(ig.ignore, candidate, isDir);
        }
        if !sawGit && git == NoMatch {
          git := Matched(ig.git, candidate, isDir);
        }
        sawGit := sawGit || ig.hasGit;
      }
      ignored := Decisive(custom, ignore, git) == Ignore;
    }

    /** The loop's variable for one kind of ignore file, when directories from `k` on are done. */
    ghost predicate SoFar(kind: Kind, candidate: Path, isDir: bool, k: nat, found: Match, cutOff: bool)
      requires k <= |candidate|
    {
      Closest(repo, kind, candidate, isDir, |candidate|)
      == if found != NoMatch then found else if cutOff then NoMatch else Closest(repo, kind, candidate, isDir, k)
    }

    /** The directory `k` names down the path, which is not below an excluded one. */
    method IsDirIgnored(ghost path: Path, ghost k: nat, dir: Path, ancestors: seq<Path>) returns (ignored: bool)
      requires Valid() && 0 < k < |path| && dir == path[..k] && |ancestors| == k
      requires forall j | 0 <= j < k :: ancestors[j] == dir[..j]
      requires !UnderExcluded(repo, dir)
      modifies this
      ensures Valid() && ignored == Excluded(repo, path[..k], true)
    {
      if dir in dirIgnored {
        return dirIgnored[dir];
      }
      ignored := IsIgnoredByFiles(dir, true, ancestors);
      dirIgnored := dirIgnored[dir := ignored];
    }

    method IsGitignored(path: Path, isDir: bool) returns (ignored: bool)
      requires Valid()
      modifies this
      ensures Valid() && ignored == GitIgnored(repo, path, isDir)
    {
      if path == [] {
        return false;
      }
      var ancestors: seq<Path> := [[]];
      while |ancestors| < |path|
        invariant 1 <= |ancestors| <= |path| && Valid()
        invariant forall j | 0 <= j < |ancestors| :: ancestors[j] == path[..j]
        invariant forall j | 0 < j < |ancestors| :: !Excluded(repo, path[..j], true)
        decreases |path| - |ancestors|
      {
        ghost var k := |ancestors|;
        var dir := ancestors[|ancestors| - 1] + [path[|ancestors| - 1]];
        assert dir == path[..k];
        NothingAbove(repo, path, k);
        assert forall j | 0 <= j < k :: path[..j] == dir[..j];
        var dirExcluded := IsDirIgnored(path, k, dir, ancestors);
        if dirExcluded {
          return true;
        }
        ancestors := ancestors + [dir];
      }
      var candidate := ancestors[|ancestors| - 1] + [path[|path| - 1]];
      assert candidate == path;
      ignored := IsIgnoredByFiles(candidate, isDir, ancestors);
    }

    method Allows(path: Path, isDir: bool) returns (allowed: bool)
      requires Valid() && path != []
      modifies this
      ensures Valid() && allowed == Allowed(repo, settings, path, isDir)
    {
      var name := path[|path| - 1];
      if !HasIndexableExtension(settings, name) || UnderHiddenDir(path) || UnderSkipDir(path) {
        return false;
      }
      if settings.ignoreFilenames != {} && name in settings.ignoreFilenames {
        return false;
      }
      if settings.ignorePaths != {} && path in settings.ignorePaths {
        return false;
      }
      var ignored := IsGitignored(path, isDir);
      allowed := !ignored;
    }

    method CouldContainIndexed(dir: Path) returns (could: bool)
      requires Valid()
      modifies this
      ensures Valid() && could == CouldContain(repo, settings, dir)
    {
      var probe := dir + ["_"];
      if UnderHiddenDir(probe) || UnderSkipDir(probe) {
        return false;
      }
      if settings.ignorePaths != {} && dir in settings.ignorePaths {
        return false;
      }
      var ignored := IsGitignored(dir, true);
      could := !ignored;
    }
  }
}
