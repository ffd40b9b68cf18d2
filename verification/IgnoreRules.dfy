/**
 Which paths of a repository are excluded: hidden and skipped directories, the three kinds of ignore
 files, and the settings. A path is the list of names below the repository root.
 */
module IgnoreRules {
  import opened Wrappers

  type Name = string
  type Path = seq<Name>

  // ── Names ─────────────────────────────────────────────────────────────────

  const SKIP_DIRS: set<Name> := {"node_modules", "target", "build", "dist", "__pycache__", "vendor"}

  predicate IsHidden(name: Name)
  {
    name != [] && name[0] == '.'
  }

  predicate IsPrunedDir(name: Name)
  {
    IsHidden(name) || name in SKIP_DIRS
  }

  function LowerChar(c: char): char
  {
    if 'A' <= c <= 'Z' then c - 'A' + 'a' else c
  }

  /** ASCII lower case. */
  function Lower(name: string): (r: string)
    ensures |r| == |name|
  {
    seq(|name|, i requires 0 <= i < |name| => LowerChar(name[i]))
  }

  function LastDot(name: Name): (r: Option<nat>)
    ensures r == None <==> '.' !in name
    ensures r.Some? ==> r.value < |name| && name[r.value] == '.' && '.' !in name[r.value + 1..]
  {
    if name == [] then None
    else if name[|name| - 1] == '.' then Some(|name| - 1)
    else
      var front := name[..|name| - 1];
      assert name == front + [name[|name| - 1]];
      var r := LastDot(front);
      assert r.Some? ==> name[r.value + 1..] == front[r.value + 1..] + [name[|name| - 1]];
      r
  }

  /** The part after the last dot. A leading dot does not start an extension. */
  function Extension(name: Name): Option<string>
  {
    match LastDot(name)
    case Some(i) => if i == 0 then None else Some(name[i + 1..])
    case None => None
  }

  const BARE_NAMES: set<string> := {"dockerfile", "makefile", "justfile"}

  /** What the user configured, and the built-in extension list. */
  datatype Settings = Settings(
    builtin: set<string>, extraExtensions: set<string>, ignoreFilenames: set<Name>, ignorePaths: set<Path>)

  predicate HasIndexableExtension(settings: Settings, name: Name)
  {
    match Extension(name)
    case Some(ext) => Lower(ext) in settings.builtin || Lower(ext) in settings.extraExtensions
    case None => Lower(name) in BARE_NAMES
  }

  lemma LastDotAt(name: Name, i: nat)
    requires i < |name| && name[i] == '.' && forall j | i < j < |name| :: name[j] != '.'
    ensures LastDot(name) == Some(i)
  {
    assert name[i] in name;
    var r := LastDot(name).value;
    assert forall j | r < j < |name| :: name[j] == name[r + 1..][j - r - 1];
  }

  lemma ExtensionIs(stem: string, ext: string)
    requires stem != [] && '.' !in ext
    ensures Extension(stem + "." + ext) == Some(ext)
  {
    var name := stem + "." + ext;
    forall j | |stem| < j < |name| ensures name[j] != '.' { assert name[j] == ext[j - |stem| - 1]; }
    LastDotAt(name, |stem|);
    assert name[|stem| + 1..] == ext;
  }

  lemma NoExtension(name: Name)
    requires name != [] && '.' !in name[1..]
    ensures Extension(name) == None
  {
    assert forall j | 0 < j < |name| :: name[j] == name[1..][j - 1];
  }

  predicate UnderHiddenDir(path: Path)
  {
    exists k | 0 <= k < |path| - 1 :: IsHidden(path[k])
  }

  predicate UnderSkipDir(path: Path)
  {
    exists k | 0 <= k < |path| - 1 :: path[k] in SKIP_DIRS
  }

  // ── Ignore files ──────────────────────────────────────────────────────────

  datatype Match = NoMatch | Ignore | Whitelist

  /** A compiled ignore file. Glob matching is not part of this model. */
  datatype Matcher = Matcher(rule: (Path, bool) -> Match)

  function Matched(m: Matcher, candidate: Path, isDir: bool): Match
  {
    m.rule(candidate, isDir)
  }

  /** The ignore files of one directory. */
  datatype DirIgnores = DirIgnores(custom: Matcher, ignore: Matcher, git: Matcher, hasGit: bool)

  /** The ignore files of a repository, by directory. */
  datatype Repo = Repo(load: Path -> DirIgnores)

  function IgnoresAt(repo: Repo, dir: Path): DirIgnores
  {
    repo.load(dir)
  }

  datatype Kind = AugmentIgnore | DotIgnore | GitIgnore

  function MatcherOf(ig: DirIgnores, kind: Kind): Matcher
  {
    match kind
    case AugmentIgnore => ig.custom
    case DotIgnore => ig.ignore
    case GitIgnore => ig.git
  }

  /** What directory `k` of the candidate's ancestors, counted from the root, says about it. */
  function MatchAt(repo: Repo, kind: Kind, candidate: Path, isDir: bool, k: nat): Match
    requires k < |candidate|
  {
    Matched(MatcherOf(IgnoresAt(repo, candidate[..k]), kind), candidate, isDir)
  }

  /** A directory with `.git` is the last one whose `.gitignore` applies. */
  predicate StopsAt(repo: Repo, kind: Kind, candidate: Path, k: nat)
    requires k < |candidate|
  {
    kind == GitIgnore && IgnoresAt(repo, candidate[..k]).hasGit
  }

  /** The closest match among the first `n` ancestors, looking upwards from there. */
  function Closest(repo: Repo, kind: Kind, candidate: Path, isDir: bool, n: nat): Match
    requires n <= |candidate|
  {
    if n == 0 then NoMatch
    else if MatchAt(repo, kind, candidate, isDir, n - 1) != NoMatch then MatchAt(repo, kind, candidate, isDir, n - 1)
    else if StopsAt(repo, kind, candidate, n - 1) then NoMatch
    else Closest(repo, kind, candidate, isDir, n - 1)
  }

  function Decisive(custom: Match, ignore: Match, git: Match): Match
  {
    if custom != NoMatch then custom else if ignore != NoMatch then ignore else git
  }

  /** Whether the ignore files above the candidate exclude it, not looking at its ancestors. */
  predicate Excluded(repo: Repo, candidate: Path, isDir: bool)
  {
    Ignore == Decisive(Closest(repo, AugmentIgnore, candidate, isDir, |candidate|),
                       Closest(repo, DotIgnore, candidate, isDir, |candidate|),
                       Closest(repo, GitIgnore, candidate, isDir, |candidate|))
  }

  /** Whether a proper ancestor below the root is excluded. */
  ghost predicate UnderExcluded(repo: Repo, path: Path)
  {
    exists k :: 0 < k < |path| && Excluded(repo, path[..k], true)
  }

  /** Excluded itself or through an ancestor. */
  ghost predicate GitIgnored(repo: Repo, path: Path, isDir: bool)
  {
    path != [] && (UnderExcluded(repo, path) || Excluded(repo, path, isDir))
  }

  /** Every rule for a path. */
  ghost predicate Allowed(repo: Repo, settings: Settings, path: Path, isDir: bool)
    requires path != []
  {
    && HasIndexableExtension(settings, path[|path| - 1])
    && !UnderHiddenDir(path) && !UnderSkipDir(path)
    && path[|path| - 1] !in settings.ignoreFilenames
    && path !in settings.ignorePaths
    && !GitIgnored(repo, path, isDir)
  }

  /** Whether indexed files can live below a directory. */
  ghost predicate CouldContain(repo: Repo, settings: Settings, dir: Path)
  {
    && !UnderHiddenDir(dir + ["_"]) && !UnderSkipDir(dir + ["_"])
    && dir !in settings.ignorePaths
    && !GitIgnored(repo, dir, true)
  }

  // ── The verdict in terms of the files themselves ──────────────────────────

  /** What an ignore file of directory `k` above the candidate says about it. */
  function Says(repo: Repo, kind: Kind, candidate: Path, isDir: bool, k: nat): Match
    requires k < |candidate|
  {
    match kind
    case AugmentIgnore => repo.load(candidate[..k]).custom.rule(candidate, isDir)
    case DotIgnore => repo.load(candidate[..k]).ignore.rule(candidate, isDir)
    case GitIgnore => repo.load(candidate[..k]).git.rule(candidate, isDir)
  }

  /** It says `m`, and nothing closer has a say or, for a `.gitignore`, cuts it off. */
  ghost predicate Decides(repo: Repo, kind: Kind, candidate: Path, isDir: bool, k: nat, m: Match)
    requires k < |candidate|
  {
    && Says(repo, kind, candidate, isDir, k) == m
    && forall j | k < j < |candidate| ::
         Says(repo, kind, candidate, isDir, j) == NoMatch && !(kind == GitIgnore && repo.load(candidate[..j]).hasGit)
  }

  ghost predicate DecidesFor(repo: Repo, kind: Kind, candidate: Path, isDir: bool, m: Match)
  {
    exists k :: 0 <= k < |candidate| && Decides(repo, kind, candidate, isDir, k, m)
  }

  lemma {:induction false} ClosestDecides(repo: Repo, kind: Kind, candidate: Path, isDir: bool, n: nat, m: Match)
    requires n <= |candidate| && m != NoMatch
    requires forall j | n <= j < |candidate| ::
               Says(repo, kind, candidate, isDir, j) == NoMatch && !(kind == GitIgnore && repo.load(candidate[..j]).hasGit)
    ensures Closest(repo, kind, candidate, isDir, n) == m <==> DecidesFor(repo, kind, candidate, isDir, m)
  {
    if n > 0 {
      assert MatchAt(repo, kind, candidate, isDir, n - 1) == Says(repo, kind, candidate, isDir, n - 1);
      if Says(repo, kind, candidate, isDir, n - 1) != NoMatch {
        assert Says(repo, kind, candidate, isDir, n - 1) == m ==> Decides(repo, kind, candidate, isDir, n - 1, m);
      } else if !StopsAt(repo, kind, candidate, n - 1) {
        ClosestDecides(repo, kind, candidate, isDir, n - 1, m);
      }
    }
  }

  /** The closest `.augmentignore` match decides; without one the closest `.ignore` match; without
      that the closest `.gitignore` match that no nearer `.git` cuts off. */
  lemma ExcludedIff(repo: Repo, candidate: Path, isDir: bool)
    ensures Excluded(repo, candidate, isDir) <==>
            var augmented := DecidesFor(repo, AugmentIgnore, candidate, isDir, Whitelist);
            var dotted := DecidesFor(repo, DotIgnore, candidate, isDir, Whitelist);
            || DecidesFor(repo, AugmentIgnore, candidate, isDir, Ignore)
            || (!augmented && DecidesFor(repo, DotIgnore, candidate, isDir, Ignore))
            || (!augmented && !dotted && DecidesFor(repo, GitIgnore, candidate, isDir, Ignore))
  {
    forall kind: Kind, m: Match | m != NoMatch
      ensures Closest(repo, kind, candidate, isDir, |candidate|) == m <==> DecidesFor(repo, kind, candidate, isDir, m)
    {
      ClosestDecides(repo, kind, candidate, isDir, |candidate|, m);
    }
  }
}
