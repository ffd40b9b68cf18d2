/**
 The top-down walk over a repository, which never enters a pruned directory, and the walk over one
 subtree of it. Both are compared with the rules for single paths.
 */
module TreeWalk {
  import opened Wrappers
  import opened IgnoreRules
  import ChangeFilter

  /** `Other` is whatever is neither a file nor a directory, a symbolic link for one. */
  datatype Node = File | Other | Dir(children: Listing)

  datatype Listing = End | Entry(name: Name, node: Node, rest: Listing)

  predicate Lists(listing: Listing, name: Name)
  {
    listing.Entry? && (listing.name == name || Lists(listing.rest, name))
  }

  /** A directory has at most one entry of each name. */
  predicate WellFormed(listing: Listing)
  {
    match listing
    case End => true
    case Entry(name, node, rest) =>
      && !Lists(rest, name) && WellFormed(rest)
      && (node.Dir? ==> WellFormed(node.children))
  }

  /** What is at a path below a directory. */
  function NodeAt(listing: Listing, path: Path): Option<Node>
    requires path != []
    decreases listing
  {
    match listing
    case End => None
    case Entry(name, node, rest) =>
      if name != path[0] then NodeAt(rest, path)
      else if |path| == 1 then Some(node)
      else if node.Dir? then NodeAt(node.children, path[1..])
      else None
  }

  predicate HasFile(listing: Listing, path: Path)
  {
    path != [] && NodeAt(listing, path) == Some(File)
  }

  // ── The walk ──────────────────────────────────────────────────────────────

  /** The files a walk comes to below `dir`, in order. */
  function Visited(repo: Repo, dir: Path, listing: Listing): seq<Path>
    decreases listing
  {
    match listing
    case End => []
    case Entry(name, node, rest) =>
      var path := dir + [name];
      var here :=
        match node
        case Other => []
        case File => if Excluded(repo, path, false) then [] else [path]
        case Dir(children) =>
          if IsPrunedDir(name) || Excluded(repo, path, true) then [] else Visited(repo, path, children);
      here + Visited(repo, dir, rest)
  }

  predicate KeepsFile(settings: Settings, path: Path)
  {
    && path != []
    && HasIndexableExtension(settings, path[|path| - 1])
    && path[|path| - 1] !in settings.ignoreFilenames
    && path !in settings.ignorePaths
  }

  /** The walk enters the directory `k` names down. */
  predicate Enters(repo: Repo, dir: Path, rel: Path, k: nat)
    requires 0 < k <= |rel|
  {
    !IsPrunedDir(rel[k - 1]) && !Excluded(repo, dir + rel[..k], true)
  }

  /** No directory strictly between `dir` and the path below it is pruned. */
  ghost predicate Reached(repo: Repo, dir: Path, rel: Path)
  {
    forall k | 0 < k < |rel| :: Enters(repo, dir, rel, k)
  }

  /** What lies at `rel` below `dir` is a file, and the walk gets there. */
  ghost predicate Yields(repo: Repo, dir: Path, listing: Listing, rel: Path)
  {
    HasFile(listing, rel) && Reached(repo, dir, rel) && !Excluded(repo, dir + rel, false)
  }

  lemma EntersShift(repo: Repo, dir: Path, rel: Path, k: nat)
    requires 0 < k < |rel|
    ensures Enters(repo, dir, rel, k + 1) == Enters(repo, dir + [rel[0]], rel[1..], k)
  {
    assert dir + [rel[0]] + rel[1..][..k] == dir + rel[..k + 1];
  }

  lemma ReachedStep(repo: Repo, dir: Path, rel: Path)
    requires |rel| > 1
    ensures Reached(repo, dir, rel) <==> Enters(repo, dir, rel, 1) && Reached(repo, dir + [rel[0]], rel[1..])
  {
    forall k | 0 < k < |rel| - 1 ensures Enters(repo, dir, rel, k + 1) == Enters(repo, dir + [rel[0]], rel[1..], k) {
      EntersShift(repo, dir, rel, k);
    }
    if Enters(repo, dir, rel, 1) && Reached(repo, dir + [rel[0]], rel[1..]) {
      forall k | 0 < k < |rel| ensures Enters(repo, dir, rel, k) {
        if k > 1 { EntersShift(repo, dir, rel, k - 1); }
      }
    }
  }

  /** One directory entry. */
  lemma YieldsStep(repo: Repo, dir: Path, listing: Listing, rel: Path)
    requires listing.Entry? && rel != [] && rel[0] == listing.name
    ensures Yields(repo, dir, listing, rel) <==>
            match listing.node
            case Other => false
            case File => |rel| == 1 && !Excluded(repo, dir + [listing.name], false)
            case Dir(children) =>
              && |rel| > 1 && !IsPrunedDir(listing.name) && !Excluded(repo, dir + [listing.name], true)
              && Yields(repo, dir + [listing.name], children, rel[1..])
  {
    if |rel| == 1 {
      assert rel == [listing.name];
    } else {
      ReachedStep(repo, dir, rel);
      assert rel[..1] == [rel[0]] && dir + [rel[0]] + rel[1..] == dir + rel;
    }
  }

  lemma {:induction false} NotListed(listing: Listing, path: Path)
    requires path != [] && !Lists(listing, path[0])
    ensures NodeAt(listing, path) == None
  {
    if listing.Entry? { NotListed(listing.rest, path); }
  }

  /** Everything the walk comes to lies below where it started. */
  lemma {:induction false} VisitedBelow(repo: Repo, dir: Path, listing: Listing, path: Path)
    requires path in Visited(repo, dir, listing)
    ensures dir < path && Lists(listing, path[|dir|])
    decreases listing
  {
    var first := dir + [listing.name];
    if path in Visited(repo, dir, listing.rest) {
      VisitedBelow(repo, dir, listing.rest, path);
    } else if listing.node.Dir? {
      VisitedBelow(repo, first, listing.node.children, path);
      assert first < path;
      assert path[|dir|] == first[|dir|] && dir == path[..|dir|];
    }
  }

  /** The walk comes to exactly the files no pruned directory and no ignore file keeps it from. */
  lemma {:induction false} VisitedIff(repo: Repo, dir: Path, listing: Listing, rel: Path)
    requires WellFormed(listing) && rel != []
    ensures dir + rel in Visited(repo, dir, listing) <==> Yields(repo, dir, listing, rel)
    decreases listing, 1
  {
    if listing.Entry? {
      var path := dir + rel;
      assert path[|dir|] == rel[0];
      if rel[0] == listing.name {
        if path in Visited(repo, dir, listing.rest) { VisitedBelow(repo, dir, listing.rest, path); }
        if listing.node.Dir? {
          VisitedInDir(repo, dir, listing, rel);
        }
        YieldsStep(repo, dir, listing, rel);
        assert |rel| == 1 ==> rel == [listing.name];
      } else {
        VisitedIff(repo, dir, listing.rest, rel);
        if listing.node.Dir? && path in Visited(repo, dir + [listing.name], listing.node.children) {
          VisitedBelow(repo, dir + [listing.name], listing.node.children, path);
        }
      }
    }
  }

  lemma {:induction false} VisitedInDir(repo: Repo, dir: Path, listing: Listing, rel: Path)
    requires WellFormed(listing) && listing.Entry? && listing.node.Dir? && rel != [] && rel[0] == listing.name
    ensures dir + rel in Visited(repo, dir + [listing.name], listing.node.children)
       <==> |rel| > 1 && Yields(repo, dir + [listing.name], listing.node.children, rel[1..])
    decreases listing, 0
  {
    var first, children := dir + [listing.name], listing.node.children;
    assert dir + rel == first + rel[1..];
    if |rel| > 1 {
      VisitedIff(repo, first, children, rel[1..]);
    } else if dir + rel in Visited(repo, first, children) {
      VisitedBelow(repo, first, children, dir + rel);
    }
  }

  // ── The full walk and the filter ──────────────────────────────────────────

  function Kept(settings: Settings, paths: seq<Path>): seq<Path>
  {
    if paths == [] then []
    else
      var n := |paths| - 1;
      Kept(settings, paths[..n]) + if KeepsFile(settings, paths[n]) then [paths[n]] else []
  }

  lemma {:induction false} KeptIff(settings: Settings, paths: seq<Path>, path: Path)
    ensures path in Kept(settings, paths) <==> path in paths && KeepsFile(settings, path)
  {
    if paths != [] {
      var n := |paths| - 1;
      KeptIff(settings, paths[..n], path);
      assert paths == paths[..n] + [paths[n]];
    }
  }

  lemma KeptAll(settings: Settings, paths: seq<Path>)
    ensures forall p :: p in Kept(settings, paths) <==> p in paths && KeepsFile(settings, p)
  {
    forall p ensures p in Kept(settings, paths) <==> p in paths && KeepsFile(settings, p) {
      KeptIff(settings, paths, p);
    }
  }

  lemma KeptNext(settings: Settings, paths: seq<Path>, i: nat)
    requires i < |paths|
    ensures Kept(settings, paths[..i + 1])
         == Kept(settings, paths[..i]) + if KeepsFile(settings, paths[i]) then [paths[i]] else []
  {
    assert paths[..i + 1][..i] == paths[..i];
  }

  method KeepFile(settings: Settings, path: Path) returns (keep: bool)
    requires path != []
    ensures keep == KeepsFile(settings, path)
  {
    if !HasIndexableExtension(settings, path[|path| - 1]) {
      return false;
    }
    if settings.ignoreFilenames != {} && path[|path| - 1] in settings.ignoreFilenames {
      return false;
    }
    if settings.ignorePaths != {} && path in settings.ignorePaths {
      return false;
    }
    keep := true;
  }

  /** Filtering the paths one by one. */
  method KeepFiles(settings: Settings, paths: seq<Path>) returns (files: seq<Path>)
    requires forall i | 0 <= i < |paths| :: paths[i] != []
    ensures files == Kept(settings, paths)
  {
    files := [];
    for i := 0 to |paths|
      invariant files == Kept(settings, paths[..i])
    {
      KeptNext(settings, paths, i);
      var keep := KeepFile(settings, paths[i]);
      if keep {
        files := files + [paths[i]];
      }
    }
    assert paths[..|paths|] == paths;
  }

  /** The walk of a directory of the repository: what the walker comes to, filtered. */
  method WalkRepo(repo: Repo, settings: Settings, dir: Path, listing: Listing) returns (files: seq<Path>)
    requires WellFormed(listing)
    ensures forall p :: p in files <==> p in Visited(repo, dir, listing) && KeepsFile(settings, p)
  {
    var visited := Visited(repo, dir, listing);
    forall i | 0 <= i < |visited| ensures visited[i] != [] { VisitedBelow(repo, dir, listing, visited[i]); }
    files := KeepFiles(settings, visited);
    KeptAll(settings, visited);
  }

  /** In terms of single paths: no name on the way to a file is that of a pruned directory. */
  lemma ReachedFromRoot(repo: Repo, path: Path)
    requires path != []
    ensures Reached(repo, [], path) <==> !UnderHiddenDir(path) && !UnderSkipDir(path) && !UnderExcluded(repo, path)
  {
    forall k | 0 < k < |path| ensures [] + path[..k] == path[..k] {}
    if Reached(repo, [], path) {
      forall k | 0 <= k < |path| - 1 ensures !IsPrunedDir(path[k]) {
        assert Enters(repo, [], path, k + 1);
      }
      forall k | 0 < k < |path| ensures !Excluded(repo, path[..k], true) {
        assert Enters(repo, [], path, k);
      }
    }
    if !UnderHiddenDir(path) && !UnderSkipDir(path) && !UnderExcluded(repo, path) {
      forall k | 0 < k < |path| ensures Enters(repo, [], path, k) {
        assert !IsHidden(path[k - 1]) && path[k - 1] !in SKIP_DIRS;
      }
    }
  }

  /** What the walk of the repository returns. */
  ghost predicate InFullWalk(repo: Repo, settings: Settings, root: Listing, path: Path)
  {
    path in Visited(repo, [], root) && KeepsFile(settings, path)
  }

  /** The walk returns exactly the files the filter allows. */
  lemma WalkIsFilter(repo: Repo, settings: Settings, root: Listing, path: Path)
    requires WellFormed(root) && path != []
    ensures InFullWalk(repo, settings, root, path) <==> HasFile(root, path) && Allowed(repo, settings, path, false)
  {
    assert [] + path == path;
    VisitedIff(repo, [], root, path);
    ReachedFromRoot(repo, path);
  }

  // ── Which files are indexed ───────────────────────────────────────────────

  /** Neither a directory above nor an ignore file nor the settings keep the file from the index. */
  ghost predicate NothingAgainst(repo: Repo, settings: Settings, root: Listing, path: Path)
  {
    && WellFormed(root) && HasFile(root, path) && Reached(repo, [], path) && !Excluded(repo, path, false)
    && path[|path| - 1] !in settings.ignoreFilenames && path !in settings.ignorePaths
  }

  lemma NameDecides(repo: Repo, settings: Settings, root: Listing, path: Path)
    requires NothingAgainst(repo, settings, root, path)
    ensures InFullWalk(repo, settings, root, path) <==> HasIndexableExtension(settings, path[|path| - 1])
  {
    assert [] + path == path;
    VisitedIff(repo, [], root, path);
  }

  /** A file with an extension is indexed exactly if the extension, in lower case, is a built-in or a
      configured one. */
  lemma IndexedByExtension(repo: Repo, settings: Settings, root: Listing, path: Path, stem: string, ext: string)
    requires NothingAgainst(repo, settings, root, path)
    requires path[|path| - 1] == stem + "." + ext && stem != [] && '.' !in ext
    ensures InFullWalk(repo, settings, root, path) <==> Lower(ext) in settings.builtin + settings.extraExtensions
  {
    NameDecides(repo, settings, root, path);
    ExtensionIs(stem, ext);
  }

  /** A file without an extension is indexed exactly if its name is one of three, in any case. */
  lemma IndexedByName(repo: Repo, settings: Settings, root: Listing, path: Path)
    requires NothingAgainst(repo, settings, root, path) && path[|path| - 1] != []
    requires '.' !in path[|path| - 1][1..]
    ensures InFullWalk(repo, settings, root, path) <==>
            Lower(path[|path| - 1]) in {"dockerfile", "makefile", "justfile"}
  {
    NameDecides(repo, settings, root, path);
    NoExtension(path[|path| - 1]);
  }

  /** Nothing is indexed below a hidden directory or one of six names. */
  lemma NeverBelow(repo: Repo, settings: Settings, root: Listing, path: Path, k: nat)
    requires WellFormed(root) && k < |path| - 1
    requires (path[k] != [] && path[k][0] == '.')
          || path[k] in {"node_modules", "target", "build", "dist", "__pycache__", "vendor"}
    ensures !InFullWalk(repo, settings, root, path)
  {
    WalkIsFilter(repo, settings, root, path);
    assert IsHidden(path[k]) || path[k] in SKIP_DIRS;
  }

  /** Nor anything below an excluded directory, an excluded file, or one that the settings name. */
  lemma NeverNamed(repo: Repo, settings: Settings, root: Listing, path: Path)
    requires WellFormed(root) && path != []
    requires UnderExcluded(repo, path) || Excluded(repo, path, false)
          || path[|path| - 1] in settings.ignoreFilenames || path in settings.ignorePaths
    ensures !InFullWalk(repo, settings, root, path)
  {
    WalkIsFilter(repo, settings, root, path);
  }

  lemma LowerIs(name: string, lower: string)
    requires |name| == |lower| && forall i | 0 <= i < |name| :: LowerChar(name[i]) == lower[i]
    ensures Lower(name) == lower
  {}

  /** Nothing is excluded, and the settings name nothing. */
  ghost predicate Unrestricted(repo: Repo, settings: Settings)
  {
    (forall p: Path, d: bool :: !Excluded(repo, p, d)) && settings.ignoreFilenames == {} && settings.ignorePaths == {}
  }

  const TWO_FILES: Listing := Entry("Makefile", File, Entry("main.RS", File, End))

  lemma TwoFiles()
    ensures WellFormed(TWO_FILES) && HasFile(TWO_FILES, ["Makefile"]) && HasFile(TWO_FILES, ["main.RS"])
  {
    assert "Makefile"[0] != "main.RS"[0];
  }

  /** A file that is indexed for its name, ... */
  lemma MakefileIndexed(repo: Repo, settings: Settings)
    requires Unrestricted(repo, settings)
    ensures InFullWalk(repo, settings, TWO_FILES, ["Makefile"])
  {
    TwoFiles();
    assert Reached(repo, [], ["Makefile"]);
    LowerIs("Makefile", "makefile");
    IndexedByName(repo, settings, TWO_FILES, ["Makefile"]);
  }

  /** ... and one that is for its extension. */
  lemma SourceIndexed(repo: Repo, settings: Settings)
    requires Unrestricted(repo, settings) && "rs" in settings.builtin
    ensures InFullWalk(repo, settings, TWO_FILES, ["main.RS"])
  {
    TwoFiles();
    assert Reached(repo, [], ["main.RS"]);
    LowerIs("RS", "rs");
    assert "main.RS" == "main" + "." + "RS";
    IndexedByExtension(repo, settings, TWO_FILES, ["main.RS"], "main", "RS");
  }

  // ── One subtree ───────────────────────────────────────────────────────────

  /** The directory at a path; the root is at the empty path. */
  function DirAt(root: Listing, dir: Path): Option<Listing>
  {
    if dir == [] then Some(root)
    else match NodeAt(root, dir)
      case Some(Dir(children)) => Some(children)
      case _ => None
  }

  /** The walk of one directory of the repository, checked against the rules for the whole. */
  method WalkSubtree(repo: Repo, settings: Settings, dir: Path, listing: Listing) returns (files: seq<Path>)
    requires WellFormed(listing)
    ensures !CouldContain(repo, settings, dir) ==> files == []
    ensures CouldContain(repo, settings, dir) ==>
              forall p :: p in files <==> InSubtreeWalk(repo, settings, dir, listing, p)
  {
    var filter := new ChangeFilter.Filter(repo, settings);
    var could := filter.CouldContainIndexed(dir);
    if !could {
      return [];
    }
    var inner := WalkRepo(repo, settings.(ignorePaths := {}), dir, listing);
    files := [];
    for i := 0 to |inner|
      invariant filter.Valid() && filter.repo == repo && filter.settings == settings && fresh(filter)
      invariant forall p :: p in files <==> p in inner[..i] && p != [] && Allowed(repo, settings, p, false)
    {
      assert inner[..i + 1] == inner[..i] + [inner[i]];
      assert inner[i] in inner;
      var allowed := filter.Allows(inner[i], false);
      if allowed {
        files := files + [inner[i]];
      }
    }
    assert inner[..|inner|] == inner;
  }

  ghost predicate InSubtreeWalk(repo: Repo, settings: Settings, dir: Path, listing: Listing, path: Path)
  {
    && path in Visited(repo, dir, listing) && path != []
    && Allowed(repo, settings, path, false)
  }

  lemma {:induction false} NodeBelow(root: Listing, dir: Path, listing: Listing, rel: Path)
    requires DirAt(root, dir) == Some(listing) && rel != []
    ensures NodeAt(root, dir + rel) == NodeAt(listing, rel)
    decreases root
  {
    if dir == [] {
      assert dir + rel == rel;
    } else {
      assert (dir + rel)[0] == dir[0] && (dir + rel)[1..] == dir[1..] + rel;
      if root.name != dir[0] {
        NodeBelow(root.rest, dir, listing, rel);
      } else {
        NodeBelow(root.node.children, dir[1..], listing, rel);
      }
    }
  }

  lemma {:induction false} DirWellFormed(root: Listing, dir: Path, listing: Listing)
    requires WellFormed(root) && DirAt(root, dir) == Some(listing)
    ensures WellFormed(listing)
    decreases root
  {
    if dir != [] {
      if root.name != dir[0] {
        DirWellFormed(root.rest, dir, listing);
      } else {
        DirWellFormed(root.node.children, dir[1..], listing);
      }
    }
  }

  /** Being reached from the root includes being reached from a directory on the way. */
  lemma ReachedFromDir(repo: Repo, dir: Path, rel: Path)
    requires rel != [] && Reached(repo, [], dir + rel)
    ensures Reached(repo, dir, rel)
  {
    forall k | 0 < k < |rel| ensures Enters(repo, dir, rel, k) {
      assert [] + (dir + rel)[..|dir| + k] == dir + rel[..k];
      assert Enters(repo, [], dir + rel, |dir| + k) && (dir + rel)[|dir| + k - 1] == rel[k - 1];
    }
  }

  /** A file the full walk returns lies only below directories that can contain indexed files. */
  lemma ContainsSomething(repo: Repo, settings: Settings, dir: Path, rel: Path)
    requires rel != [] && Reached(repo, [], dir + rel) && dir !in settings.ignorePaths
    ensures CouldContain(repo, settings, dir)
  {
    var path := dir + rel;
    ReachedFromRoot(repo, path);
    var probe := dir + ["_"];
    assert forall k | 0 <= k < |dir| :: probe[k] == path[k];
    assert forall k | 0 < k <= |dir| :: dir[..k] == path[..k];
    assert forall k | 0 < k < |path| :: !Excluded(repo, path[..k], true);
    assert dir[..|dir|] == dir;
  }

  /** Indexed files can live below a directory exactly if the walk enters it and all above it, and it is
      no per-repository ignored path. */
  lemma CouldContainIff(repo: Repo, settings: Settings, dir: Path)
    ensures CouldContain(repo, settings, dir) <==>
            && dir !in settings.ignorePaths
            && (forall k | 0 <= k < |dir| :: !IsPrunedDir(dir[k]))
            && (forall k | 0 < k <= |dir| :: !Excluded(repo, dir[..k], true))
  {
    var probe := dir + ["_"];
    assert forall k | 0 <= k < |dir| :: probe[k] == dir[k];
    assert dir[..|dir|] == dir;
    if forall k | 0 <= k < |dir| :: !IsPrunedDir(dir[k]) {
      assert forall k | 0 <= k < |probe| - 1 :: !IsPrunedDir(probe[k]);
    } else {
      var k :| 0 <= k < |dir| && IsPrunedDir(dir[k]);
      assert IsHidden(probe[k]) || probe[k] in SKIP_DIRS;
    }
  }

  /** What the subtree walk returns is what the full walk returns below the directory, unless the
      directory itself is a per-repository ignored path. */
  lemma SubtreeIsFullWalk(repo: Repo, settings: Settings, root: Listing, dir: Path, listing: Listing, path: Path)
    requires WellFormed(root) && DirAt(root, dir) == Some(listing) && dir !in settings.ignorePaths
    ensures CouldContain(repo, settings, dir) && InSubtreeWalk(repo, settings, dir, listing, path)
       <==> dir < path && InFullWalk(repo, settings, root, path)
  {
    DirWellFormed(root, dir, listing);
    if path in Visited(repo, dir, listing) { VisitedBelow(repo, dir, listing, path); }
    if dir < path {
      var rel := path[|dir|..];
      assert path == dir + rel;
      NodeBelow(root, dir, listing, rel);
      VisitedIff(repo, dir, listing, rel);
      WalkIsFilter(repo, settings, root, path);
      ReachedFromRoot(repo, path);
      if HasFile(root, path) && Allowed(repo, settings, path, false) {
        ReachedFromDir(repo, dir, rel);
        ContainsSomething(repo, settings, dir, rel);
      }
    }
  }

  /** For a directory that is a per-repository ignored path, the subtree walk returns nothing, while
      the full walk compares that path with files only. So the two agree exactly when the directory
      is not such a path or the full walk finds nothing below it. */
  lemma SubtreeAgreesIff(repo: Repo, settings: Settings, root: Listing, dir: Path, listing: Listing)
    requires WellFormed(root) && DirAt(root, dir) == Some(listing)
    ensures
      (forall path :: CouldContain(repo, settings, dir) && InSubtreeWalk(repo, settings, dir, listing, path)
                 <==> dir < path && InFullWalk(repo, settings, root, path))
      <==> (dir !in settings.ignorePaths || forall path | dir < path :: !InFullWalk(repo, settings, root, path))
  {
    if dir !in settings.ignorePaths {
      forall path
        ensures CouldContain(repo, settings, dir) && InSubtreeWalk(repo, settings, dir, listing, path)
           <==> dir < path && InFullWalk(repo, settings, root, path)
      {
        SubtreeIsFullWalk(repo, settings, root, dir, listing, path);
      }
    }
  }

  lemma {:induction false} NothingMatches(repo: Repo, kind: Kind, candidate: Path, isDir: bool, n: nat)
    requires n <= |candidate|
    requires forall k | 0 <= k < n :: MatchAt(repo, kind, candidate, isDir, k) == NoMatch
    ensures Closest(repo, kind, candidate, isDir, n) == NoMatch
  {
    if n > 0 { NothingMatches(repo, kind, candidate, isDir, n - 1); }
  }

  /** The case does occur: a directory named among the ignored paths, with an indexable file in it. */
  lemma IgnoredDirStillWalked() returns (repo: Repo, settings: Settings, root: Listing)
    ensures WellFormed(root) && DirAt(root, ["a"]).Some? && ["a"] in settings.ignorePaths
    ensures InFullWalk(repo, settings, root, ["a", "makefile"])
    ensures !CouldContain(repo, settings, ["a"])
  {
    var silent := Matcher((p: Path, d: bool) => NoMatch);
    repo := Repo(dir => DirIgnores(silent, silent, silent, true));
    settings := Settings({}, {}, {}, {["a"]});
    root := Entry("a", Dir(Entry("makefile", File, End)), End);
    var path := ["a", "makefile"];
    assert path[..1] == ["a"];
    assert NodeAt(root.node.children, path[1..]) == Some(File);
    forall kind: Kind, c: Path, d: bool ensures Closest(repo, kind, c, d, |c|) == NoMatch {
      NothingMatches(repo, kind, c, d, |c|);
    }
    assert '.' !in "makefile";
    assert Lower("makefile") == "makefile";
    assert Allowed(repo, settings, path, false);
    WalkIsFilter(repo, settings, root, path);
  }
}
