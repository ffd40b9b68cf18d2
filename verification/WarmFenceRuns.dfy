/**
 What the steps of `WarmFence` achieve when they get through: what a query sees after an index run has
 published, after an ignore page was evicted, and after a warm has installed.
 */
module WarmFenceRuns {
  import opened Wrappers
  import opened ShardIndex
  import opened WarmFence
  import opened WarmFenceSafety
  import opened WarmFenceRaces

  // ── An index run ──────────────────────────────────────────────────────────

  /** The run goes on. */
  predicate RunGoesOn(a: Action)
  {
    !a.Crash? && !a.FailRun? && !a.RollBack? && !a.DeleteCurrent?
  }

  /** Within a run that has not published, nobody else touches the hidden base. */
  ghost predicate Running(s: Sys, kind: RunKind, who: Identity, base: Option<Shard>)
  {
    && s.writer.Run? && s.writer.kind == kind && s.writer.identity == who
    && (!s.writer.phase.Published? ==> s.index.mutating && s.index.pending == base)
  }

  lemma WarmStepRuns(s: Sys, a: Action)
    requires IsWarmStep(a) || IsEnvironmentStep(a)
    ensures Do(s, a).writer == s.writer && Do(s, a).index.pending == s.index.pending && SameFence(s, Do(s, a))
  {
    WarmStepStamp(s, a);
    WarmStepFence(s, a);
    WarmStepPending(s, a);
  }

  lemma WarmStepPending(s: Sys, a: Action)
    requires IsWarmStep(a) || IsEnvironmentStep(a)
    ensures Do(s, a).index.pending == s.index.pending
  {}

  lemma StepRuns(s: Sys, a: Action, kind: RunKind, who: Identity, base: Option<Shard>)
    requires Running(s, kind, who, base) && RunGoesOn(a)
    ensures Running(Do(s, a), kind, who, base)
  {
    if IsWarmStep(a) || IsEnvironmentStep(a) {
      WarmStepRuns(s, a);
    } else {
      assert Do(s, a) == RunStep(s, a);
    }
  }

  lemma {:induction false} RunOverRun(s: Sys, actions: seq<Action>, kind: RunKind, who: Identity, base: Option<Shard>)
    requires Inv(s, true) && Running(s, kind, who, base) && forall a | a in actions :: RunGoesOn(a)
    ensures Inv(Exec(s, actions), true) && Running(Exec(s, actions), kind, who, base)
    decreases |actions|
  {
    if actions != [] {
      var a := actions[0];
      assert RunGoesOn(a);
      DoKeepsInv(s, a, true);
      StepRuns(s, a, kind, who, base);
      RunOverRun(Do(s, a), actions[1..], kind, who, base);
    }
  }

  lemma PublishShows(s: Sys, kind: RunKind, who: Identity, base: Option<Shard>)
    requires Inv(s, true) && Running(s, kind, who, base) && s.writer.phase.Committed?
    ensures var t := Do(s, Publish);
            && t.db.rows == s.db.rows && t.writer.Run? && t.writer.phase.Published?
            && !t.index.mutating && t.index.pending.None?
            && t.index.shard == if (kind.Incremental? && base.None?) || s.db.rows == map[] then None
                                else Some(Shard(s.db.rows, who))
  {
    assert Do(s, Publish) == RunStep(s, Publish);
  }

  /** What a query sees after an index run: whatever came between its steps, publication leaves the slot
      unfenced with exactly the stored rows in it, unless there are none or an incremental run had begun
      without a shard, which leaves none. */
  lemma PublishedRunShowsDatabase(s: Sys, kind: RunKind, who: Identity, actions: seq<Action>)
    requires Inv(s, true) && s.writer.Idle? && forall a | a in actions :: RunGoesOn(a)
    requires Exec(Do(s, BeginRun(kind, who)), actions).writer.Run?
          && Exec(Do(s, BeginRun(kind, who)), actions).writer.phase.Committed?
    ensures var t := Do(Exec(Do(s, BeginRun(kind, who)), actions), Publish);
            && !t.index.mutating
            && t.index.shard == if (kind.Incremental? && s.index.shard.None?) || t.db.rows == map[] then None
                                else Some(Shard(t.db.rows, who))
  {
    var b := Do(s, BeginRun(kind, who));
    DoKeepsInv(s, BeginRun(kind, who), true);
    assert b == IdleStep(s, BeginRun(kind, who));
    RunOverRun(b, actions, kind, who, b.index.pending);
    PublishShows(Exec(b, actions), kind, who, b.index.pending);
  }

  /** Between publications no run in progress lets a query see anything. */
  lemma RunHidesShard(s: Sys, kind: RunKind, who: Identity, actions: seq<Action>)
    requires Inv(s, true) && s.writer.Idle? && forall a | a in actions :: RunGoesOn(a)
    ensures var t := Exec(Do(s, BeginRun(kind, who)), actions);
            t.writer.Run? && (!t.writer.phase.Published? ==> t.index.mutating && t.index.shard.None?)
  {
    var b := Do(s, BeginRun(kind, who));
    DoKeepsInv(s, BeginRun(kind, who), true);
    assert b == IdleStep(s, BeginRun(kind, who));
    RunOverRun(b, actions, kind, who, b.index.pending);
  }

  // What the run leaves in the database.

  predicate WritesNow(s: Sys, a: Action)
  {
    a.WriteRows? && s.writer.Run? && s.writer.phase.Writing? && InWindow(s.writer.kind, a.batch)
  }

  function WroteAt(s: Sys, a: Action): Rows
  {
    if WritesNow(s, a) then a.batch else map[]
  }

  /** The batches that a run writes, a later one over an earlier one. */
  function Wrote(s: Sys, actions: seq<Action>): Rows
    decreases |actions|
  {
    if actions == [] then map[]
    else WroteAt(s, actions[0]) + Wrote(Do(s, actions[0]), actions[1..])
  }

  predicate Cleared(p: Phase)
  {
    p.Writing? || p.Committed? || p.Published?
  }

  /** What a run began with, and what is left of it once it has deleted. */
  datatype Before = Before(db: Db, kept: Rows)

  /** The database within a run that began with `before` and has written `written`. */
  ghost predicate Holds(s: Sys, before: Before, written: Rows)
  {
    && s.writer.Run?
    && (if Cleared(s.writer.phase) then s.db.rows == before.kept + written
        else s.db.rows == before.db.rows && written == map[])
    && s.db.epoch == before.db.epoch + (if s.writer.phase.Fenced? || s.writer.phase.MarkerCleared? then 0 else 1)
    && (s.writer.phase.Committed? || s.writer.phase.Published? ==> s.db.identity == Some(s.writer.identity))
  }

  function KeptBy(kind: RunKind, rows: Rows): Rows
  {
    match kind
    case Full => map[]
    case Incremental(affected) => map c | c in rows && c.file !in affected :: rows[c]
  }

  lemma WriteHolds(s: Sys, batch: Rows, before: Before, written: Rows)
    requires Holds(s, before, written) && s.writer.phase.Writing? && InWindow(s.writer.kind, batch)
    ensures RunStep(s, WriteRows(batch)).writer.Run? && Holds(RunStep(s, WriteRows(batch)), before, written + batch)
  {
    assert (before.kept + written) + batch == before.kept + (written + batch);
  }

  lemma RunStepHolds(s: Sys, a: Action, before: Before, written: Rows)
    requires Holds(s, before, written) && before.kept == KeptBy(s.writer.kind, before.db.rows) && RunGoesOn(a)
    ensures RunStep(s, a).writer.Run?
    ensures Holds(RunStep(s, a), before, written + WroteAt(s, a))
  {
    if WritesNow(s, a) {
      WriteHolds(s, a.batch, before, written);
    } else {
      assert written + map[] == written;
    }
  }

  lemma StepHolds(s: Sys, a: Action, before: Before, written: Rows)
    requires Holds(s, before, written) && before.kept == KeptBy(s.writer.kind, before.db.rows) && RunGoesOn(a)
    ensures Do(s, a).writer.Run? && Do(s, a).writer.kind == s.writer.kind
    ensures Holds(Do(s, a), before, written + WroteAt(s, a))
  {
    if IsWarmStep(a) || IsEnvironmentStep(a) {
      WarmStepStamp(s, a);
    } else {
      assert Do(s, a) == RunStep(s, a);
      RunStepHolds(s, a, before, written);
    }
  }

  lemma WroteFirst(s: Sys, actions: seq<Action>, written: Rows)
    requires actions != []
    ensures (written + WroteAt(s, actions[0])) + Wrote(Do(s, actions[0]), actions[1..]) == written + Wrote(s, actions)
  {}

  lemma {:induction false} HoldsOverRun(s: Sys, actions: seq<Action>, before: Before, written: Rows)
    requires Holds(s, before, written) && before.kept == KeptBy(s.writer.kind, before.db.rows)
    requires forall a | a in actions :: RunGoesOn(a)
    ensures Holds(Exec(s, actions), before, written + Wrote(s, actions))
    decreases |actions|
  {
    if actions != [] {
      var a := actions[0];
      assert RunGoesOn(a);
      StepHolds(s, a, before, written);
      HoldsOverRun(Do(s, a), actions[1..], before, written + WroteAt(s, a));
      WroteFirst(s, actions, written);
    } else {
      assert written + map[] == written;
    }
  }

  lemma {:induction false} WroteAffected(s: Sys, actions: seq<Action>, c: ChunkId)
    requires s.writer.Run? && s.writer.kind.Incremental? && forall a | a in actions :: RunGoesOn(a)
    requires c in Wrote(s, actions)
    ensures c.file in s.writer.kind.affected
    decreases |actions|
  {
    var a := actions[0];
    assert RunGoesOn(a);
    RunKeepsKind(s, a);
    if c !in WroteAt(s, a) { WroteAffected(Do(s, a), actions[1..], c); }
  }

  lemma RunKeepsKind(s: Sys, a: Action)
    requires s.writer.Run? && RunGoesOn(a)
    ensures Do(s, a).writer.Run? && Do(s, a).writer.kind == s.writer.kind
  {
    if IsWarmStep(a) || IsEnvironmentStep(a) {
      WarmStepRuns(s, a);
    } else {
      assert Do(s, a) == RunStep(s, a);
    }
  }

  /** An incremental run leaves the rows of all other files alone. */
  lemma OtherFilesKept(s: Sys, affected: set<string>, who: Identity, actions: seq<Action>, c: ChunkId)
    requires Inv(s, true) && s.writer.Idle? && forall a | a in actions :: RunGoesOn(a)
    requires c.file !in affected
    ensures var t := Exec(Do(s, BeginRun(Incremental(affected), who)), actions);
            t.writer.Run? && (t.writer.phase.Published? ==>
              (c in t.db.rows <==> c in s.db.rows) && (c in s.db.rows ==> t.db.rows[c] == s.db.rows[c]))
  {
    var b := Do(s, BeginRun(Incremental(affected), who));
    assert b == IdleStep(s, BeginRun(Incremental(affected), who));
    PublishedRunStores(s, Incremental(affected), who, actions);
    if c in Wrote(b, actions) { WroteAffected(b, actions, c); }
  }

  /** A run that has published leaves in the database the rows of the files it did not touch and those it
      wrote, under its own identity and the next index epoch. */
  lemma PublishedRunStores(s: Sys, kind: RunKind, who: Identity, actions: seq<Action>)
    requires Inv(s, true) && s.writer.Idle? && forall a | a in actions :: RunGoesOn(a)
    ensures var b := Do(s, BeginRun(kind, who));
            var t := Exec(b, actions);
            t.writer.Run? && (t.writer.phase.Published? ==>
              t.db == Db(KeptBy(kind, s.db.rows) + Wrote(b, actions), Some(who), s.db.epoch + 1))
  {
    var b := Do(s, BeginRun(kind, who));
    DoKeepsInv(s, BeginRun(kind, who), true);
    assert b == IdleStep(s, BeginRun(kind, who));
    RunOverRun(b, actions, kind, who, b.index.pending);
    HoldsOverRun(b, actions, Before(s.db, KeptBy(kind, s.db.rows)), map[]);
    assert map[] + Wrote(b, actions) == Wrote(b, actions);
  }

  // ── An ignore page ────────────────────────────────────────────────────────

  /** What a query sees after an ignore page: its delete takes exactly the rows of its files from the
      database, and its eviction leaves a shard that was still resident with exactly the stored rows. */
  lemma EvictedPageShowsDatabase(s: Sys)
    requires Inv(s, true) && s.writer.IgnorePage?
    ensures var t := Do(s, EvictPage);
            && t.writer.Idle? && t.db == s.db && t.index.mutating == s.index.mutating
            && t.index.shard == if s.index.shard.None? || s.db.rows == map[] then None
                                else Some(Shard(s.db.rows, s.index.shard.value.identity))
  {
    assert Do(s, EvictPage) == IgnoreStep(s, EvictPage);
    if s.index.shard.Some? {
      EvictedShardIsDatabase(s, true);
      assert RemoveFiles(s.index.shard.value.rows, s.writer.files) + map[] == s.db.rows;
    }
  }

  lemma DeletedPageRows(s: Sys, files: set<string>, c: ChunkId)
    requires s.writer.Idle?
    ensures var t := Do(s, DeletePage(files));
            && t.writer.IgnorePage? && t.index == s.index
            && (c in t.db.rows <==> c in s.db.rows && c.file !in files)
            && (c in t.db.rows ==> t.db.rows[c] == s.db.rows[c])
  {}

  // ── A warm ────────────────────────────────────────────────────────────────

  /** A warm that nobody disturbs, up to its look for a file, ... */
  function Reads(s: Sys, id: nat, who: Identity, cached: bool): Sys
  {
    Do(Do(Do(Do(Do(s, StartWarm(id, who)), OpenDb(id, cached)), CountChunks(id)), ReadIdentity(id)), ReadEpoch(id))
  }

  /** ... and to its end. A step that is not its turn does nothing. */
  function Ends(s: Sys, id: nat, ok: bool, mmap: bool): Sys
  {
    var scanned := Do(Do(Do(Do(s, OpenCurrent(id)), InstallOpened(id)), LoadRows(id)), CheckFence(id));
    Do(Do(Do(scanned, PersistFile(id, ok)), InstallLoaded(id, mmap)), InvalidateOwn(id))
  }

  predicate Warmable(s: Sys, who: Identity)
  {
    !s.index.mutating && s.db.rows != map[] && s.db.identity == Some(who)
  }

  function With(s: Sys, id: nat, who: Identity, stage: Stage): Sys
  {
    s.(warms := s.warms[id := Warm(who, s.index.epoch, |s.retired|, stage)])
  }

  lemma ConnectIs(s: Sys, id: nat, who: Identity, cached: bool)
    requires id !in s.warms && !s.index.mutating
    ensures Do(Do(s, StartWarm(id, who)), OpenDb(id, cached)) == With(s, id, who, Connected)
  {
    var s1 := Do(s, StartWarm(id, who));
    assert s1 == With(s, id, who, Captured);
    assert Do(s1, OpenDb(id, cached)).warms == With(s, id, who, Connected).warms;
  }

  lemma ReadsIs(s: Sys, id: nat, who: Identity, cached: bool)
    requires id !in s.warms && Warmable(s, who)
    ensures Reads(s, id, who, cached) == With(s, id, who, Stamped(|s.db.rows|, s.db.epoch))
  {
    var n := |s.db.rows|;
    ConnectIs(s, id, who, cached);
    var s2 := With(s, id, who, Connected);
    var s3 := Do(s2, CountChunks(id));
    assert s3.warms == With(s, id, who, Counted(n)).warms;
    var s4 := Do(s3, ReadIdentity(id));
    assert s4.warms == With(s, id, who, Identified(n)).warms;
    assert Do(s4, ReadEpoch(id)).warms == With(s, id, who, Stamped(n, s.db.epoch)).warms;
  }

  lemma OpensFile(s: Sys, id: nat, ok: bool, mmap: bool)
    requires id in s.warms && s.warms[id].stage.Stamped? && MayInstall(s.index, s.warms[id].scanEpoch)
    requires Validates(s.current, s.warms[id].identity, s.warms[id].stage.count, s.warms[id].stage.epoch)
    requires s.current.value.rows != map[]
    ensures Ends(s, id, ok, mmap) ==
            s.(warms := s.warms - {id}, index := s.index.(shard := Some(Shard(s.current.value.rows, s.warms[id].identity))))
  {
    var w, rows := s.warms[id], s.current.value.rows;
    var s1 := Do(s, OpenCurrent(id));
    assert s1 == WithStage(s, id, Opened(w.stage.count, w.stage.epoch, rows));
    var s2 := Do(s1, InstallOpened(id));
    assert s2.warms == s.warms - {id} && id !in s2.warms;
    AbsentDoesNothing(s2, id, ok, mmap);
  }

  lemma AbsentDoesNothing(s: Sys, id: nat, ok: bool, mmap: bool)
    requires id !in s.warms
    ensures Do(Do(Do(Do(Do(s, LoadRows(id)), CheckFence(id)), PersistFile(id, ok)), InstallLoaded(id, mmap)), InvalidateOwn(id)) == s
  {}

  lemma ScansDatabase(s: Sys, id: nat)
    requires id in s.warms && s.warms[id].stage.Stamped? && MayInstall(s.index, s.warms[id].scanEpoch)
    requires s.warms[id].gen == |s.retired| && s.db.rows != map[]
    requires !(Validates(s.current, s.warms[id].identity, s.warms[id].stage.count, s.warms[id].stage.epoch)
               && s.current.value.rows != map[])
    ensures var st := s.warms[id].stage;
            Do(Do(Do(Do(s, OpenCurrent(id)), InstallOpened(id)), LoadRows(id)), CheckFence(id)) ==
            WithStage(s, id, Checked(st.count, st.epoch, s.db.rows))
  {
    var st := s.warms[id].stage;
    var s1 := Do(s, OpenCurrent(id));
    assert s1 == WithStage(s, id, ToLoad(st.count, st.epoch)) && Do(s1, InstallOpened(id)) == s1;
    var s2 := Do(s1, LoadRows(id));
    assert s2.warms == WithStage(s, id, Loaded(st.count, st.epoch, s.db.rows)).warms;
    assert Do(s2, CheckFence(id)).warms == WithStage(s, id, Checked(st.count, st.epoch, s.db.rows)).warms;
  }

  lemma WritesAndInstalls(s: Sys, id: nat, ok: bool, mmap: bool)
    requires id in s.warms && s.warms[id].stage.Checked? && MayInstall(s.index, s.warms[id].scanEpoch)
    requires s.warms[id].stage.rows != map[]
    ensures Do(Do(Do(s, PersistFile(id, ok)), InstallLoaded(id, mmap)), InvalidateOwn(id)) ==
            s.(warms := s.warms - {id}, current := if ok then Some(FileOf(s, id)) else s.current,
               nextGeneration := s.nextGeneration + if ok then 1 else 0,
               index := s.index.(shard := Some(Shard(s.warms[id].stage.rows, s.warms[id].identity))))
  {
    var f, w := FileOf(s, id), s.warms[id];
    var s1 := Do(s, PersistFile(id, ok));
    assert s1.warms[id] == w.(stage := Persisted(f.count, f.epoch, f.rows, if ok then Some(f.generation) else None));
    assert Picked(s1, id, mmap) == f.rows;
    var s2 := Do(s1, InstallLoaded(id, mmap));
    assert s2.warms == s.warms - {id};
  }

  lemma AbsentEnds(s: Sys, id: nat, ok: bool, mmap: bool)
    requires id !in s.warms
    ensures Ends(s, id, ok, mmap) == s
  {
    assert Do(s, OpenCurrent(id)) == s && Do(s, InstallOpened(id)) == s;
    AbsentDoesNothing(s, id, ok, mmap);
  }

  lemma StopsReading(s: Sys, id: nat, who: Identity)
    requires id !in s.warms && !s.index.mutating && !Warmable(s, who)
    ensures Do(Do(With(s, id, who, Connected), CountChunks(id)), ReadIdentity(id)) == s
  {
    var s3 := Do(With(s, id, who, Connected), CountChunks(id));
    if s.db.rows != map[] {
      assert s3.warms == With(s, id, who, Counted(|s.db.rows|)).warms;
    }
    assert Do(s3, ReadIdentity(id)).warms == s.warms;
  }

  lemma ReadsNothing(s: Sys, id: nat, who: Identity, cached: bool)
    requires id !in s.warms && !Warmable(s, who)
    ensures Reads(s, id, who, cached) == s
  {
    if s.index.mutating {
      assert Do(s, StartWarm(id, who)) == s && Do(s, OpenDb(id, cached)) == s;
      assert Do(s, CountChunks(id)) == s && Do(s, ReadIdentity(id)) == s;
    } else {
      ConnectIs(s, id, who, cached);
      StopsReading(s, id, who);
    }
    assert Do(s, ReadEpoch(id)) == s;
  }

  lemma InstallsDatabase(s: Sys, id: nat, ok: bool, mmap: bool)
    requires Inv(s, true) && !s.writer.IgnorePage? && id in s.warms && s.db.rows != map[] && !s.index.mutating
    requires s.warms[id].scanEpoch == s.index.epoch && s.warms[id].gen == |s.retired|
    requires s.warms[id].stage == Stamped(|s.db.rows|, s.db.epoch)
    ensures var t := Ends(s, id, ok, mmap);
            var valid := Validates(s.current, s.warms[id].identity, |s.db.rows|, s.db.epoch);
            && t.warms == s.warms - {id} && t.db == s.db
            && t.index == s.index.(shard := Some(Shard(s.db.rows, s.warms[id].identity)))
            && t.current == if valid || !ok then s.current
                            else Some(ShardFile(s.nextGeneration, s.warms[id].identity, |s.db.rows|, s.db.epoch, s.db.rows))
  {
    var w := s.warms[id];
    if Validates(s.current, w.identity, |s.db.rows|, s.db.epoch) {
      ValidFileAgrees(s, |s.db.rows|, s.db.epoch, true);
      OpensFile(s, id, ok, mmap);
    } else {
      ScansDatabase(s, id);
      WritesAndInstalls(WithStage(s, id, Checked(|s.db.rows|, s.db.epoch, s.db.rows)), id, ok, mmap);
    }
  }

  /** What a query sees after a warm that nobody disturbed: exactly the stored rows, if there are any, the
      stored identity is the one asked for and no run owns publication; and otherwise what it saw before.
      The file is left alone when it is valid, and else replaced by one of the stored rows. */
  lemma WarmShowsDatabase(s: Sys, id: nat, who: Identity, cached: bool, ok: bool, mmap: bool)
    requires Inv(s, true) && !s.writer.IgnorePage? && id !in s.warms
    ensures var t := Ends(Reads(s, id, who, cached), id, ok, mmap);
            && t.warms == s.warms && t.db == s.db
            && (if !s.index.mutating && s.db.rows != map[] && s.db.identity == Some(who)
                then && t.index == s.index.(shard := Some(Shard(s.db.rows, who)))
                     && t.current == if Validates(s.current, who, |s.db.rows|, s.db.epoch) || !ok then s.current
                                     else Some(ShardFile(s.nextGeneration, who, |s.db.rows|, s.db.epoch, s.db.rows))
                else t == s)
  {
    if Warmable(s, who) {
      ReadsIs(s, id, who, cached);
      var r := With(s, id, who, Stamped(|s.db.rows|, s.db.epoch));
      WarmedKeepsInv(s, id, who);
      InstallsDatabase(r, id, ok, mmap);
      assert r.warms - {id} == s.warms;
    } else {
      ReadsNothing(s, id, who, cached);
      AbsentEnds(s, id, ok, mmap);
    }
  }

  lemma WarmedKeepsInv(s: Sys, id: nat, who: Identity)
    requires Inv(s, true) && id !in s.warms && Warmable(s, who)
    ensures Inv(With(s, id, who, Stamped(|s.db.rows|, s.db.epoch)), true)
  {
    StartWarmKeepsInv(s, id, who, true);
    var c := With(s, id, who, Captured);
    WithStageKeepsInv(c, id, Stamped(|s.db.rows|, s.db.epoch), true);
    assert WithStage(c, id, Stamped(|s.db.rows|, s.db.epoch)).warms == With(s, id, who, Stamped(|s.db.rows|, s.db.epoch)).warms;
  }

  /** Once an index without a marker has been given one, a warm under it shows the stored rows. */
  lemma AdoptedIndexShows(s: Sys, id: nat, who: Identity, cached: bool, ok: bool, mmap: bool)
    requires Inv(s, true) && s.writer.Idle? && id !in s.warms
    requires s.db.identity.None? && s.db.rows != map[] && !s.index.mutating
    ensures var t := Ends(Reads(Do(s, AdoptMarker(who)), id, who, cached), id, ok, mmap);
            t.index.shard == Some(Shard(s.db.rows, who)) && t.db == s.db.(identity := Some(who))
  {
    var a := Do(s, AdoptMarker(who));
    assert a == IdleStep(s, AdoptMarker(who));
    AdoptMarkerKeepsInv(s, who, true);
    WarmShowsDatabase(a, id, who, cached, ok, mmap);
  }

  /** After a crash, whatever was going on, a warm shows the stored rows again. */
  lemma CrashRecovers(s: Sys, id: nat, who: Identity, cached: bool, ok: bool, mmap: bool)
    requires Inv(s, true) && s.db.rows != map[] && s.db.identity == Some(who)
    ensures var t := Ends(Reads(Do(s, Crash), id, who, cached), id, ok, mmap);
            !t.index.mutating && t.index.shard == Some(Shard(s.db.rows, who)) && t.db == s.db
  {
    CrashKeepsInv(s, true);
    WarmShowsDatabase(Do(s, Crash), id, who, cached, ok, mmap);
  }

  /** What goes in at the end of a scan: the rows of the file CURRENT names by then, if it has the stamp of
      the warm, the warm wrote one itself and it can be mapped; and otherwise the rows scanned. */
  lemma ScanInstalls(s: Sys, id: nat, mmap: bool)
    requires id in s.warms && s.warms[id].stage.Persisted? && MayInstall(s.index, s.warms[id].scanEpoch)
    ensures var w, t := s.warms[id], Do(s, InstallLoaded(id, mmap));
            var mapped := mmap && w.stage.own.Some? && s.current.Some? && s.current.value.identity == w.identity
                          && s.current.value.count == w.stage.count && s.current.value.epoch == w.stage.epoch;
            var rows := if mapped then s.current.value.rows else w.stage.rows;
            && t.index.shard == (if rows == map[] then None else Some(Shard(rows, w.identity)))
            && t.warms == s.warms - {id}
  {}

  // ── A refused warm cleans up ──────────────────────────────────────────────

  /** The warm knows no file generation that is still to come. */
  predicate KnowsBelow(w: Warm, next: nat)
  {
    && (w.stage.Persisted? && w.stage.own.Some? ==> w.stage.own.value < next)
    && (w.stage.Refused? ==> w.stage.generation < next)
  }

  /** Nor does any other, nor is it that of the file. */
  predicate GenerationsOk(s: Sys)
  {
    && (s.current.Some? ==> s.current.value.generation < s.nextGeneration)
    && (forall id | id in s.warms :: KnowsBelow(s.warms[id], s.nextGeneration))
  }

  lemma WarmFileGenerations(s: Sys, a: Action)
    requires GenerationsOk(s) && IsWarmStep(a)
    ensures var t := Do(s, a);
            && s.nextGeneration <= t.nextGeneration
            && (t.current.Some? ==> t.current.value.generation < t.nextGeneration)
  {}

  lemma FileGenerations(s: Sys, a: Action)
    requires GenerationsOk(s)
    ensures var t := Do(s, a);
            && s.nextGeneration <= t.nextGeneration
            && (t.current.Some? ==> t.current.value.generation < t.nextGeneration)
  {
    if IsWarmStep(a) {
      WarmFileGenerations(s, a);
    } else if && !IsEnvironmentStep(a) && !a.Crash? {
      assert Do(s, a) == WriterStep(s, a);
    }
  }

  lemma WarmGenerations(s: Sys, a: Action)
    requires GenerationsOk(s) && (IsWarmStep(a) || a.StartWarm? || a.CancelWarm?)
    ensures a.id in Do(s, a).warms ==> KnowsBelow(Do(s, a).warms[a.id], Do(s, a).nextGeneration)
  {
    FileGenerations(s, a);
    if a.id in s.warms { assert KnowsBelow(s.warms[a.id], s.nextGeneration); }
  }

  lemma StepGenerations(s: Sys, a: Action)
    requires GenerationsOk(s)
    ensures GenerationsOk(Do(s, a))
  {
    var t := Do(s, a);
    FileGenerations(s, a);
    if !a.Crash? {
      forall id | id in t.warms ensures KnowsBelow(t.warms[id], t.nextGeneration) {
        if ActsOn(a, id) {
          WarmGenerations(s, a);
        } else {
          StepKeepsCapture(s, a, id);
          OtherStepKeepsWarm(s, a, id);
          assert KnowsBelow(s.warms[id], s.nextGeneration);
        }
      }
    }
  }

  lemma {:induction false} GenerationsOverRun(s: Sys, actions: seq<Action>)
    requires GenerationsOk(s)
    ensures GenerationsOk(Exec(s, actions))
    decreases |actions|
  {
    if actions != [] {
      StepGenerations(s, actions[0]);
      GenerationsOverRun(Do(s, actions[0]), actions[1..]);
    }
  }

  /** In every run a warm that is refused after it wrote its file takes that file back, and no file that
      anybody wrote later, whatever came in between. */
  lemma RefusedTakesBackOwn(s: Sys, id: nat, between: seq<Action>)
    requires GenerationsOk(s) && Others(between, id) && id in s.warms && s.warms[id].stage.Refused?
    ensures var u := Exec(s, between); var t := Do(u, InvalidateOwn(id));
            && (u.current.Some? && u.current.value.generation == s.warms[id].stage.generation ==> t.current.None?)
            && (u.current.Some? && u.current.value.generation >= s.nextGeneration ==> t.current == u.current)
            && t.index == u.index && t.db == u.db && t.warms == u.warms - {id}
  {
    OthersKeepWarm(s, between, id);
  }
}
