/**
 The paged loop of `post_ignore_files`. Per page: persist the ignore markers, then delete the
 page's rows (chunks before file rows). Every durable operation may succeed, fail, or be the last
 thing the process does, so the contracts speak about every point where the loop can stop.
 */
module IgnorePages {
  import opened Wrappers
  import opened PathOrder

  const BATCH: nat := 1000

  /** What happens to the n-th durable operation. */
  datatype Fault = Works | Fails | Dies

  datatype Outcome = Finished(count: nat) | Failed(count: nat) | Died

  /** The name filter, the repository-relative form of a path (none when the path is not strictly
      below the root), and the faults. */
  datatype Request = Request(matches: string -> bool, relative: string -> Option<string>, fault: nat -> Fault)

  /** The durable state: paths with chunk rows, paths with a file row, the ignore list. */
  datatype Durable = Durable(chunks: set<string>, files: set<string>, ignored: seq<string>)

  /** Every path that lost rows since `was` is in the durable list, if it has a relative form. */
  ghost predicate MarkerDominates(req: Request, was: Durable, now: Durable)
  {
    forall p | (p in was.chunks && p !in now.chunks) || (p in was.files && p !in now.files) ::
      req.matches(p) && p in was.files && (req.relative(p).Some? ==> req.relative(p).value in now.ignored)
  }

  /** The matching paths after `cursor`. */
  function Pool(req: Request, files: set<string>, cursor: string): set<string>
  {
    set p | p in files && req.matches(p) && Less(cursor, p)
  }

  /** `x` is the marker of a path this request matches. */
  ghost predicate OwnMarker(req: Request, was: Durable, x: string)
  {
    exists p :: p in was.files && req.matches(p) && Less("", p) && req.relative(p) == Some(x)
  }

  /** No matching path has a relative form, so there is nothing to mark. */
  ghost predicate NothingToMark(req: Request, was: Durable)
  {
    forall p | p in was.files && req.matches(p) && Less("", p) :: req.relative(p).None?
  }

  ghost predicate Marked(req: Request, paths: seq<string>, markers: seq<string>)
  {
    forall p | p in paths && req.relative(p).Some? :: req.relative(p).value in markers
  }

  /** What may be in the durable list: everything old when it was readable, this run's markers. */
  ghost predicate ListOk(req: Request, was: Durable, readable: bool, ignored: seq<string>)
  {
    && (readable ==> was.ignored <= ignored)
    && (forall x | x in ignored && x !in was.ignored :: OwnMarker(req, was, x))
    && (!readable ==> ignored == was.ignored || forall x | x in ignored :: OwnMarker(req, was, x))
  }

  /** Exactly the given paths are gone. */
  ghost predicate OnlyGone(was: Durable, now: Durable, handled: seq<string>)
  {
    && now.files == (set p | p in was.files && p !in handled)
    && now.chunks == (set p | p in was.chunks && p !in handled)
  }

  /** The state between two pages. */
  ghost predicate BetweenPages(req: Request, was: Durable, now: Durable, readable: bool,
                               cursor: string, vec: seq<string>, handled: seq<string>)
  {
    && Ascending(handled)
    && (forall p :: p in handled <==> p in was.files && req.matches(p) && Less("", p) && !Less(cursor, p))
    && OnlyGone(was, now, handled)
    && Marked(req, handled, vec)
    && (forall x | x in vec :: x in now.ignored)
    && (readable ==> vec == now.ignored)
    && (!readable ==> now.ignored == if vec == [] then was.ignored else vec)
    && (!readable ==> forall x | x in vec :: OwnMarker(req, was, x))
    && ListOk(req, was, readable, now.ignored)
  }

  function Members(page: seq<string>): set<string>
  {
    set p | p in page
  }

  lemma AscendingLast(page: seq<string>, p: string)
    requires Ascending(page) && p in page
    ensures p == page[|page| - 1] || Less(p, page[|page| - 1])
  {}

  /** Handling one page keeps everything in order and leaves nothing behind the cursor. */
  lemma PageKeepsOrder(req: Request, was: Durable, now: Durable, readable: bool, cursor: string,
                       vec: seq<string>, handled: seq<string>, page: seq<string>)
    requires BetweenPages(req, was, now, readable, cursor, vec, handled)
    requires IsPage(page, Pool(req, now.files, cursor), BATCH) && page != []
    ensures Ascending(handled + page)
    ensures var last := page[|page| - 1];
            forall p :: p in handled + page <==> p in was.files && req.matches(p) && Less("", p) && !Less(last, p)
  {
    var last := page[|page| - 1];
    var all := handled + page;
    forall i, j | 0 <= i < j < |all| ensures Less(all[i], all[j]) {
      if i < |handled| <= j {
        assert all[i] in handled && all[j] in page;
        LessTotal(cursor, all[i]);
        if all[i] != cursor { LessTransitive(all[i], cursor, all[j]); }
      }
    }
    assert last in page && Less(cursor, last);
    forall p ensures p in all <==> p in was.files && req.matches(p) && Less("", p) && !Less(last, p) {
      LessTotal(cursor, p);
      LessTotal(last, p);
      if p in handled {
        if Less(last, p) { LessTransitive(cursor, last, p); }
      } else if p in page {
        AscendingLast(page, p);
        LessTotal(p, p);
        assert Less(cursor, p);
      } else if p in was.files && req.matches(p) && Less("", p) {
        assert p in Pool(req, now.files, cursor);
      }
    }
  }

  /** Why the loop ends: the cursor strictly increases. */
  lemma PoolShrinks(req: Request, files: set<string>, cursor: string, last: string)
    requires last in Pool(req, files, cursor)
    ensures Pool(req, files, last) < Pool(req, files, cursor)
  {
    LessTotal(last, last);
    forall p | p in Pool(req, files, last) ensures p in Pool(req, files, cursor) {
      LessTransitive(cursor, last, p);
    }
  }

  lemma LastPageIsComplete(req: Request, was: Durable, now: Durable, readable: bool, cursor: string,
                           vec: seq<string>, handled: seq<string>, page: seq<string>)
    requires BetweenPages(req, was, now, readable, cursor, vec, handled)
    requires IsPage(page, Pool(req, now.files, cursor), BATCH) && |page| < BATCH
    ensures forall p :: p in handled + page <==> p in was.files && req.matches(p) && Less("", p)
  {
    assert forall p :: p in Pool(req, now.files, cursor) <==> p in page;
    forall p ensures p in handled + page <==> p in was.files && req.matches(p) && Less("", p) {
      assert p in Pool(req, now.files, cursor) <==> p in was.files && p !in handled && req.matches(p) && Less(cursor, p);
    }
  }

  ghost predicate AllHandled(req: Request, was: Durable, handled: seq<string>)
  {
    forall p :: p in handled <==> p in was.files && req.matches(p) && Less("", p)
  }

  /** An unreadable list is treated as empty, so the first marker write drops what it held: after a
      finished run an entry that is not this run's own survives exactly if the list could be read or
      no matching path has a relative form. */
  lemma OldEntrySurvivesIff(req: Request, was: Durable, now: Durable, readable: bool, cursor: string,
                            vec: seq<string>, handled: seq<string>, x: string)
    requires BetweenPages(req, was, now, readable, cursor, vec, handled) && AllHandled(req, was, handled)
    requires x in was.ignored && !OwnMarker(req, was, x)
    ensures x in now.ignored <==> readable || NothingToMark(req, was)
  {
    if !readable {
      assert vec == [] || OwnMarker(req, was, vec[0]);
      if !NothingToMark(req, was) {
        var p :| p in was.files && req.matches(p) && Less("", p) && req.relative(p).Some?;
        assert p in handled && req.relative(p).value in vec;
      }
    }
  }

  /** What holds of a path wherever the handler stops: its rows are gone only if it is a matching file, and
      then its relative form is in the durable list. */
  lemma GoneIsMarked(req: Request, was: Durable, now: Durable, p: string)
    requires MarkerDominates(req, was, now)
    requires (p in was.chunks && p !in now.chunks) || (p in was.files && p !in now.files)
    ensures req.matches(p) && p in was.files
    ensures req.relative(p).Some? ==> req.relative(p).value in now.ignored
  {}

  /** What a finished run leaves: of every matching file the marker alone, of every other file everything,
      and in the list nothing new but markers of matching files. */
  lemma FinishedRunLeaves(req: Request, was: Durable, now: Durable, readable: bool, handled: seq<string>, p: string)
    requires MarkerDominates(req, was, now) && OnlyGone(was, now, handled) && AllHandled(req, was, handled)
    requires ListOk(req, was, readable, now.ignored)
    ensures p in was.files && p != "" && req.matches(p) ==>
              && p !in now.files && p !in now.chunks
              && (req.relative(p).Some? ==> req.relative(p).value in now.ignored)
    ensures !(p in was.files && p != "" && req.matches(p)) ==>
              (p in now.files <==> p in was.files) && (p in now.chunks <==> p in was.chunks)
    ensures p in now.ignored && p !in was.ignored ==>
              exists q :: q in was.files && req.matches(q) && req.relative(q) == Some(p)
    ensures readable && p in was.ignored ==> p in now.ignored
  {
    assert p in now.ignored && p !in was.ignored ==> OwnMarker(req, was, p);
  }

  /** One file to mark, and one older entry that is not its marker. */
  lemma OlderEntry(req: Request, was: Durable)
    requires was.files == {"a"} && req.matches("a") && req.relative("a") == Some("a")
    ensures !OwnMarker(req, was, "b") && !NothingToMark(req, was)
  {
    assert "a" in was.files && req.matches("a") && Less("", "a") && req.relative("a").Some?;
    assert "a" != "b" by { assert "a"[0] != "b"[0]; }
  }

  /** Such a run: nothing fails, and the entry is gone. */
  method OldEntryCanBeLost(db: RepoDb) returns (req: Request, out: Outcome)
    requires db.View() == Durable({"a"}, {"a"}, ["b"])
    modifies db
    ensures forall n :: req.fault(n).Works?
    ensures out.Finished? && "b" !in db.ignored
  {
    req := Request(p => true, p => Some("a"), n => Works);
    OlderEntry(req, db.View());
    ghost var handled;
    out, handled := db.IgnoreMatching(req, false);
  }

  lemma OldEntriesSurvive(req: Request, was: Durable, now: Durable, readable: bool, cursor: string,
                          vec: seq<string>, handled: seq<string>)
    requires BetweenPages(req, was, now, readable, cursor, vec, handled) && AllHandled(req, was, handled)
    ensures forall x | x in was.ignored && !OwnMarker(req, was, x) ::
              x in now.ignored <==> readable || NothingToMark(req, was)
  {
    forall x | x in was.ignored && !OwnMarker(req, was, x)
      ensures x in now.ignored <==> readable || NothingToMark(req, was)
    {
      OldEntrySurvivesIff(req, was, now, readable, cursor, vec, handled, x);
    }
  }

  /** Merge the page's relative forms into the list, skipping what is known. */
  method AddMarkers(req: Request, page: seq<string>, vec: seq<string>, known: set<string>)
    returns (vec': seq<string>, known': set<string>, added: bool)
    requires known == Members(vec)
    ensures vec <= vec' && known' == Members(vec')
    ensures added <==> vec' != vec
    ensures Marked(req, page, vec')
    ensures forall x | x in vec' && x !in vec :: exists p :: p in page && req.relative(p) == Some(x)
  {
    vec', known', added := vec, known, false;
    for i := 0 to |page|
      invariant vec <= vec' && known' == Members(vec')
      invariant added <==> vec' != vec
      invariant Marked(req, page[..i], vec')
      invariant forall x | x in vec' && x !in vec :: exists p :: p in page && req.relative(p) == Some(x)
    {
      var rel := req.relative(page[i]);
      if rel.Some? && rel.value !in known' {
        assert page[i] in page;
        known' := known' + {rel.value};
        vec' := vec' + [rel.value];
        added := true;
      }
    }
    assert page[..|page|] == page;
  }

  /** The merged list `vec'` is what the durable list holds after the marker write. */
  ghost predicate Merged(req: Request, was: Durable, vec: seq<string>, vec': seq<string>, page: seq<string>)
  {
    vec <= vec' && Marked(req, page, vec') && forall x | x in vec' && x !in vec :: OwnMarker(req, was, x)
  }

  /** The marker write, whether it happened or not, deletes nothing and keeps the list sound. */
  lemma MarkersFirst(req: Request, was: Durable, start: Durable, now: Durable, readable: bool, cursor: string,
                     vec: seq<string>, vec': seq<string>, handled: seq<string>, page: seq<string>)
    requires BetweenPages(req, was, start, readable, cursor, vec, handled)
    requires IsPage(page, Pool(req, start.files, cursor), BATCH)
    requires vec <= vec' && Marked(req, page, vec')
    requires forall x | x in vec' && x !in vec :: exists p :: p in page && req.relative(p) == Some(x)
    requires now.files == start.files && now.chunks == start.chunks
    requires now.ignored == start.ignored || (vec' != vec && now.ignored == vec')
    ensures Merged(req, was, vec, vec', page)
    ensures MarkerDominates(req, was, now) && ListOk(req, was, readable, now.ignored)
    ensures now.files == was.files - Members(handled)
  {
    forall x | x in vec' && x !in vec ensures OwnMarker(req, was, x) {
      var p :| p in page && req.relative(p) == Some(x);
      assert p in Pool(req, start.files, cursor);
    }
  }

  lemma CommitPage(req: Request, was: Durable, start: Durable, now: Durable, readable: bool, cursor: string,
                   vec: seq<string>, vec': seq<string>, handled: seq<string>, page: seq<string>)
    requires BetweenPages(req, was, start, readable, cursor, vec, handled)
    requires IsPage(page, Pool(req, start.files, cursor), BATCH) && page != []
    requires Merged(req, was, vec, vec', page)
    requires now.files == start.files - Members(page) && now.chunks == start.chunks - Members(page)
    requires now.ignored == if vec' != vec then vec' else start.ignored
    requires ListOk(req, was, readable, now.ignored)
    ensures BetweenPages(req, was, now, readable, page[|page| - 1], vec', handled + page)
  {
    PageKeepsOrder(req, was, start, readable, cursor, vec, handled, page);
  }

  /** A fault inside the bulk delete only loses rows whose markers are already durable. */
  lemma HalfDeleted(req: Request, was: Durable, marked: Durable, now: Durable,
                    vec': seq<string>, handled: seq<string>, page: seq<string>)
    requires MarkerDominates(req, was, marked) && Marked(req, page, marked.ignored)
    requires forall p | p in page :: p in was.files && req.matches(p)
    requires now.ignored == marked.ignored && now.files == marked.files
    requires now.chunks == marked.chunks || now.chunks == marked.chunks - Members(page)
    ensures MarkerDominates(req, was, now)
  {}

  /** The durable operations number `from` up to `to` were attempted, of which all worked, or all but
      the last, which had fault `f`. */
  ghost predicate Attempted(req: Request, from: nat, to: nat, f: Fault)
  {
    && from <= to && (forall n | from <= n < to - 1 :: req.fault(n).Works?)
    && (f.Works? ==> from < to ==> req.fault(to - 1).Works?)
    && (!f.Works? ==> from < to && req.fault(to - 1) == f)
  }

  lemma AttemptedMore(req: Request, from: nat, mid: nat, to: nat, f: Fault)
    requires Attempted(req, from, mid, Works) && Attempted(req, mid, to, f)
    ensures Attempted(req, from, to, f)
  {}

  function FaultOf(out: Outcome): Fault
  {
    match out
    case Finished(_) => Works
    case Failed(_) => Fails
    case Died => Dies
  }

  function StoppedBy(f: Fault, count: nat): (out: Outcome)
    requires !f.Works?
    ensures FaultOf(out) == f && (out.Failed? ==> out.count == count)
  {
    if f.Dies? then Died else Failed(count)
  }

  class RepoDb {
    var chunks: set<string>
    var files: set<string>
    var ignored: seq<string>
    /** Durable operations attempted so far. */
    var clock: nat

    ghost function View(): Durable
      reads this
    {
      Durable(chunks, files, ignored)
    }

    method Attempt(req: Request) returns (f: Fault)
      modifies this`clock
      ensures f == req.fault(old(clock)) && clock == old(clock) + 1
      ensures Attempted(req, old(clock), clock, f)
    {
      f := req.fault(clock);
      clock := clock + 1;
    }

    method SetIgnoredPaths(req: Request, paths: seq<string>) returns (f: Fault)
      modifies this`ignored, this`clock
      ensures ignored == if f.Works? then paths else old(ignored)
      ensures Attempted(req, old(clock), clock, f)
    {
      f := Attempt(req);
      if f.Works? { ignored := paths; }
    }

    /** Several statements: a fault between them leaves file rows without chunks. */
    method DeleteFilesDataBulk(req: Request, paths: set<string>) returns (f: Fault)
      modifies this`chunks, this`files, this`clock
      ensures chunks == old(chunks) - paths || (!f.Works? && chunks == old(chunks))
      ensures files == if f.Works? then old(files) - paths else old(files)
      ensures Attempted(req, old(clock), clock, f)
    {
      f := Attempt(req);
      if !f.Works? { return; }
      chunks := chunks - paths;
      f := Attempt(req);
      if !f.Works? { return; }
      files := files - paths;
    }

    /** One page: markers first, rows second. */
    method HandlePage(req: Request, ghost was: Durable, ghost readable: bool, ghost cursor: string,
                      vec: seq<string>, known: set<string>, ghost handled: seq<string>, page: seq<string>)
      returns (f: Fault, vec': seq<string>, known': set<string>)
      requires BetweenPages(req, was, View(), readable, cursor, vec, handled) && known == Members(vec)
      requires IsPage(page, Pool(req, files, cursor), BATCH) && page != []
      modifies this
      ensures f.Works? ==> known' == Members(vec')
      ensures f.Works? ==> BetweenPages(req, was, View(), readable, page[|page| - 1], vec', handled + page)
      ensures !f.Works? ==> MarkerDominates(req, was, View()) && ListOk(req, was, readable, ignored)
      ensures !f.Works? ==> files == was.files - Members(handled)
      ensures Attempted(req, old(clock), clock, f)
    {
      ghost var start := View();
      var added;
      vec', known', added := AddMarkers(req, page, vec, known);
      f := Works;
      if added {
        f := SetIgnoredPaths(req, vec');
      }
      MarkersFirst(req, was, start, View(), readable, cursor, vec, vec', handled, page);
      if !f.Works? { return; }
      ghost var marked := View();
      f := DeleteFilesDataBulk(req, Members(page));
      if f.Works? {
        CommitPage(req, was, start, View(), readable, cursor, vec, vec', handled, page);
      } else {
        HalfDeleted(req, was, marked, View(), vec', handled, page);
      }
    }

    /**
     `readable` says whether the ignore list could be read at the start; when it could not, the
     handler goes on with an empty list. `handled` are the paths of the committed pages.
     */
    method IgnoreMatching(req: Request, readable: bool) returns (out: Outcome, ghost handled: seq<string>)
      modifies this
      ensures MarkerDominates(req, old(View()), View())
      ensures ListOk(req, old(View()), readable, ignored)
      ensures Ascending(handled)
      ensures out.Finished? ==> out.count == |handled| && OnlyGone(old(View()), View(), handled)
      ensures out.Finished? ==> forall p :: p in handled <==> p in old(files) && req.matches(p) && Less("", p)
      ensures out.Finished? ==> forall x | x in old(ignored) && !OwnMarker(req, old(View()), x) ::
                x in ignored <==> readable || NothingToMark(req, old(View()))
      ensures Attempted(req, old(clock), clock, FaultOf(out))
      ensures out.Failed? ==> out.count == |handled| && View().files == old(files) - Members(handled)
    {
      ghost var was := View();
      var vec := if readable then ignored else [];
      var known := Members(vec);
      var cursor := "";
      var total := 0;
      handled := [];
      while true
        invariant total == |handled| && known == Members(vec)
        invariant BetweenPages(req, was, View(), readable, cursor, vec, handled)
        invariant Attempted(req, old(clock), clock, Works)
        decreases Pool(req, was.files, cursor)
      {
        ghost var before := clock;
        var f := Attempt(req);
        AttemptedMore(req, old(clock), before, clock, f);
        if !f.Works? {
          return StoppedBy(f, total), handled;
        }
        var page := TakePage(Pool(req, files, cursor), BATCH);
        if |page| < BATCH {
          LastPageIsComplete(req, was, View(), readable, cursor, vec, handled, page);
        }
        if page == [] {
          assert handled + page == handled;
          OldEntriesSurvive(req, was, View(), readable, cursor, vec, handled);
          return Finished(total), handled;
        }
        assert page[|page| - 1] in page && page[|page| - 1] in was.files;
        PoolShrinks(req, was.files, cursor, page[|page| - 1]);
        before := clock;
        f, vec, known := HandlePage(req, was, readable, cursor, vec, known, handled, page);
        AttemptedMore(req, old(clock), before, clock, f);
        if !f.Works? {
          return StoppedBy(f, total), handled;
        }
        cursor := page[|page| - 1];
        total := total + |page|;
        handled := handled + page;
        if |page| < BATCH {
          OldEntriesSurvive(req, was, View(), readable, cursor, vec, handled);
          return Finished(total), handled;
        }
      }
    }
  }
}
