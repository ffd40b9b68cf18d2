/**
 Where the guarantees of `WarmFenceSafety` end: a snapshot overtaken before it is written, an ignore
 page given up after its delete, and the removal of an index. Each limit is exact, and ordinary runs
 from the start reach it.
 */
module WarmFenceLimits {
  import opened Wrappers
  import opened ShardIndex
  import opened WarmFence
  import opened WarmFenceSafety
  import opened WarmFenceRaces

  // ── Ordinary runs ─────────────────────────────────────────────────────────

  /** A full rebuild that writes one batch, up to its publication. */
  function Rebuild(s: Sys, identity: Identity, batch: Rows): Sys
  {
    var bumped := Do(Do(Do(s, BeginRun(Full, identity)), ClearMarker), BumpEpoch);
    Do(Do(Do(Do(bumped, DeleteRows), WriteRows(batch)), CommitMarker), Publish)
  }

  lemma FencedIs(s: Sys, identity: Identity)
    requires s.writer.Idle?
    ensures Do(Do(Do(s, BeginRun(Full, identity)), ClearMarker), BumpEpoch) ==
            s.(db := Db(s.db.rows, None, s.db.epoch + 1), live := s.db.epoch + 1,
               writer := Run(Full, identity, Bumped, map[]), index := BeginFull(s.index))
  {
    var s1 := Do(s, BeginRun(Full, identity));
    assert s1 == s.(writer := Run(Full, identity, Fenced, map[]), index := BeginFull(s.index));
    var s2 := Do(s1, ClearMarker);
    assert s2 == s1.(writer := Run(Full, identity, MarkerCleared, map[]), db := s.db.(identity := None));
  }

  lemma ReplacedIs(s: Sys, identity: Identity, batch: Rows)
    requires s.writer == Run(Full, identity, Bumped, map[])
    ensures Do(Do(s, DeleteRows), WriteRows(batch)) ==
            s.(db := s.db.(rows := batch), writer := Run(Full, identity, Writing, batch))
  {
    var s1 := Do(s, DeleteRows);
    assert s1 == s.(writer := Run(Full, identity, Writing, map[]), db := s.db.(rows := map[]));
    assert map[] + batch == batch;
  }

  lemma PublishedIs(s: Sys, identity: Identity, batch: Rows)
    requires s.writer == Run(Full, identity, Writing, batch)
    ensures Do(Do(s, CommitMarker), Publish) ==
            s.(db := s.db.(identity := Some(identity)), writer := Run(Full, identity, Published, batch),
               index := PublishFull(s.index, batch, identity))
  {
    var s1 := Do(s, CommitMarker);
    assert s1 == s.(db := s.db.(identity := Some(identity)), writer := Run(Full, identity, Committed, batch));
  }

  lemma RebuildIs(s: Sys, identity: Identity, batch: Rows)
    requires s.writer.Idle?
    ensures Rebuild(s, identity, batch) ==
            s.(db := Db(batch, Some(identity), s.db.epoch + 1), live := s.db.epoch + 1,
               writer := Run(Full, identity, Published, batch),
               index := PublishFull(BeginFull(s.index), batch, identity))
  {
    FencedIs(s, identity);
    var fenced := Do(Do(Do(s, BeginRun(Full, identity)), ClearMarker), BumpEpoch);
    ReplacedIs(fenced, identity, batch);
    PublishedIs(Do(Do(fenced, DeleteRows), WriteRows(batch)), identity, batch);
  }

  /** The last step of a run. */
  lemma DeletionIs(s: Sys, deleted: bool)
    requires s.writer.Run? && s.writer.phase.Published?
    ensures Do(s, DeleteCurrent(deleted)) == s.(writer := Idle, current := if deleted then None else s.current)
  {}

  /** The first rebuild to its end. */
  function Indexed(batch: Rows): Sys
  {
    Do(Rebuild(INIT, "", batch), DeleteCurrent(true))
  }

  lemma IndexedIs(batch: Rows)
    requires batch != map[]
    ensures Indexed(batch) ==
            Sys(Db(batch, Some(""), 1), None, 0, Slot(Some(Shard(batch, "")), None, false, 2), Idle, map[], 1, [])
  {
    RebuildIs(INIT, "", batch);
    DeletionIs(Rebuild(INIT, "", batch), true);
  }

  /** The first warm, which finds no file, up to its scan. */
  function WarmReads(s: Sys): Sys
  {
    var counted := Do(Do(Do(s, StartWarm(0, "")), OpenDb(0, true)), CountChunks(0));
    Do(Do(Do(counted, ReadIdentity(0)), ReadEpoch(0)), OpenCurrent(0))
  }

  /** After `Indexed` with its warm at a stage. */
  function Warming(batch: Rows, stage: Stage): Sys
  {
    Indexed(batch).(warms := map[0 := Warm("", 2, 0, stage)])
  }

  lemma WarmReadsIs(batch: Rows)
    requires batch != map[]
    ensures WarmReads(Indexed(batch)) == Warming(batch, ToLoad(|batch|, 1))
  {
    var s, n := Indexed(batch), |batch|;
    IndexedIs(batch);
    var s1 := Do(s, StartWarm(0, ""));
    assert s1 == Warming(batch, Captured);
    var s2 := Do(s1, OpenDb(0, true));
    assert s2.warms == Warming(batch, Connected).warms;
    var s3 := Do(s2, CountChunks(0));
    assert s3.warms == Warming(batch, Counted(n)).warms;
    var s4 := Do(s3, ReadIdentity(0));
    assert s4.warms == Warming(batch, Identified(n)).warms;
    var s5 := Do(s4, ReadEpoch(0));
    assert s5.warms == Warming(batch, Stamped(n, 1)).warms;
    assert Do(s5, OpenCurrent(0)).warms == Warming(batch, ToLoad(n, 1)).warms;
  }

  lemma WarmLoadsIs(batch: Rows)
    requires batch != map[]
    ensures Do(WarmReads(Indexed(batch)), LoadRows(0)) == Warming(batch, Loaded(|batch|, 1, batch))
  {
    IndexedIs(batch);
    WarmReadsIs(batch);
    assert Do(Warming(batch, ToLoad(|batch|, 1)), LoadRows(0)).warms == Warming(batch, Loaded(|batch|, 1, batch)).warms;
  }

  // ── A snapshot overtaken before it is written ─────────────────────────────

  lemma LoadingKeepsInv(batch: Rows)
    requires batch != map[]
    ensures var s := Warming(batch, Loaded(|batch|, 1, batch));
            && s == Do(WarmReads(Indexed(batch)), LoadRows(0)) && Inv(s, false) && s.writer.Idle?
            && MayInstall(s.index, 2) && s.db.rows == batch && s.db.epoch == 1
  {
    IndexedIs(batch);
    WarmLoadsIs(batch);
  }

  /** A run that has only begun leaves the snapshot valid. */
  lemma BegunSnapshotValidates(s: Sys, id: nat, identity: Identity)
    requires Inv(s, false) && s.writer.Idle?
    requires id in s.warms && s.warms[id].stage.Loaded? && MayInstall(s.index, s.warms[id].scanEpoch)
    requires s.warms[id].stage.count == |s.db.rows| && s.warms[id].stage.epoch == s.db.epoch
    ensures var u := Written(s, id, [BeginRun(Full, identity)]);
            Overtaken(u, id) && Validates(u.current, s.warms[id].identity, |u.db.rows|, u.db.epoch)
  {
    var begun := [BeginRun(Full, identity)];
    BegunEvents(Do(s, CheckFence(id)), identity);
    SnapshotOvertakenIff(s, id, begun);
    SnapshotValidatesIff(s, id, begun, s.warms[id].identity);
  }

  /** A run that has bumped the epoch does not. */
  lemma BumpedSnapshotDoesNot(s: Sys, id: nat, identity: Identity, who: Identity)
    requires Inv(s, false) && s.writer.Idle?
    requires id in s.warms && s.warms[id].stage.Loaded? && MayInstall(s.index, s.warms[id].scanEpoch)
    ensures var u := Written(s, id, [BeginRun(Full, identity), ClearMarker, BumpEpoch]);
            Overtaken(u, id) && u.current.Some? && !Validates(u.current, who, |u.db.rows|, u.db.epoch)
  {
    var bumped := [BeginRun(Full, identity), ClearMarker, BumpEpoch];
    BumpedEvents(Do(s, CheckFence(id)), identity);
    SnapshotOvertakenIff(s, id, bumped);
    SnapshotValidatesIff(s, id, bumped, who);
  }

  /** Both cases occur to the first warm after the first rebuild. When another run begins between its
      fence check and its write, the overtaken snapshot validates, ... */
  lemma OverlappedSnapshotMayValidate(batch: Rows)
    requires batch != map[]
    ensures var s := Do(WarmReads(Indexed(batch)), LoadRows(0)); var u := Written(s, 0, [BeginRun(Full, "")]);
            Overtaken(u, 0) && Validates(u.current, "", |u.db.rows|, u.db.epoch)
  {
    LoadingKeepsInv(batch);
    BegunSnapshotValidates(Warming(batch, Loaded(|batch|, 1, batch)), 0, "");
  }

  /** ... and when that run has also bumped the epoch, it becomes CURRENT and validates for nobody. */
  lemma OverlappedSnapshotMayBecomeCurrent(batch: Rows, who: Identity)
    requires batch != map[]
    ensures var s := Do(WarmReads(Indexed(batch)), LoadRows(0));
            var u := Written(s, 0, [BeginRun(Full, ""), ClearMarker, BumpEpoch]);
            Overtaken(u, 0) && u.current.Some? && !Validates(u.current, who, |u.db.rows|, u.db.epoch)
  {
    LoadingKeepsInv(batch);
    BumpedSnapshotDoesNot(Warming(batch, Loaded(|batch|, 1, batch)), 0, "", who);
  }

  // ── An abandoned ignore page ──────────────────────────────────────────────

  /** The rows an action puts into the index, if it does. */
  function Installed(s: Sys, a: Action): Option<Rows>
  {
    match a
    case InstallOpened(id) =>
      if id in s.warms && s.warms[id].stage.Opened? && MayInstall(s.index, s.warms[id].scanEpoch)
      then Some(s.warms[id].stage.rows) else None
    case InstallLoaded(id, mmap) =>
      if id in s.warms && s.warms[id].stage.Persisted? && MayInstall(s.index, s.warms[id].scanEpoch)
      then Some(Picked(s, id, mmap)) else None
    case _ => None
  }

  predicate FreeOf(rows: Rows, files: set<string>)
  {
    forall c | c in rows :: c.file !in files
  }

  /** The last warm or eviction that reached the shard left no chunk of the files in it; `free` is the
      answer when none does. */
  predicate Settled(s: Sys, actions: seq<Action>, files: set<string>, free: bool)
    decreases |actions|
  {
    if actions == [] then free
    else
      var a := actions[0];
      var now := if a.EvictShard? then true
                 else if Installed(s, a).Some? then FreeOf(Installed(s, a).value, files)
                 else free;
      Settled(Do(s, a), actions[1..], files, now)
  }

  predicate ShardFree(s: Sys, files: set<string>)
  {
    s.index.shard.None? || FreeOf(s.index.shard.value.rows, files)
  }

  /** The page stays where it is. */
  predicate PageGoesOn(a: Action)
  {
    !a.Crash? && !a.EvictPage? && !a.FailPage?
  }

  /** What an action makes of the shard while the page goes on. */
  lemma ShardAfter(s: Sys, a: Action)
    requires s.writer.IgnorePage? && PageGoesOn(a)
    ensures Do(s, a).index.shard ==
            if a.EvictShard? then None
            else if Installed(s, a).Some? then Keep(Installed(s, a).value, s.warms[a.id].identity)
            else s.index.shard
  {
    if !IsWarmStep(a) && !IsEnvironmentStep(a) {
      assert Do(s, a) == IgnoreStep(s, a);
    }
  }

  lemma PageStep(s: Sys, a: Action, files: set<string>)
    requires s.writer.IgnorePage? && PageGoesOn(a)
    ensures Do(s, a).writer == s.writer && Do(s, a).db.rows == s.db.rows
    ensures ShardFree(Do(s, a), files) <==>
            if a.EvictShard? then true
            else if Installed(s, a).Some? then FreeOf(Installed(s, a).value, files)
            else ShardFree(s, files)
  {
    ShardAfter(s, a);
    if IsWarmStep(a) || IsEnvironmentStep(a) {
      WarmStepStamp(s, a);
    } else {
      assert Do(s, a) == IgnoreStep(s, a);
    }
  }

  lemma {:induction false} PageOverRun(s: Sys, actions: seq<Action>, files: set<string>)
    requires Inv(s, true) && s.writer.IgnorePage? && forall a | a in actions :: PageGoesOn(a)
    ensures var t := Exec(s, actions);
            && Inv(t, true) && t.writer == s.writer && t.db.rows == s.db.rows
            && (ShardFree(t, files) <==> Settled(s, actions, files, ShardFree(s, files)))
    decreases |actions|
  {
    if actions != [] {
      assert PageGoesOn(actions[0]);
      DoKeepsInv(s, actions[0], true);
      PageStep(s, actions[0], files);
      PageOverRun(Do(s, actions[0]), actions[1..], files);
    }
  }

  /** Giving up a page in a state where the invariant holds. */
  lemma GivenUpIff(s: Sys)
    requires Inv(s, true) && s.writer.IgnorePage?
    ensures ShardOk(Do(s, FailPage), true) <==> ShardFree(s, s.writer.files)
  {
    var rows, files := s.db.rows, s.writer.files;
    assert FreeOf(rows, files);
    if s.index.shard.Some? && FreeOf(s.writer.before, files) {
      assert s.writer.before == rows;
    }
  }

  /** A page given up after its delete, whatever came in between: the shard a query may see is the
      database exactly if the last warm or eviction in between that reached it left no chunk of the page in
      it, or, when none did, if there was no shard or no stored chunk in the page. */
  lemma AbandonedPageKeepsShardIff(s: Sys, files: set<string>, between: seq<Action>)
    requires Inv(s, true) && s.writer.Idle?
    requires forall a | a in between :: PageGoesOn(a)
    ensures var d := Do(s, DeletePage(files)); var t := Do(Exec(d, between), FailPage);
            ShardOk(t, true) <==> Settled(d, between, files, s.index.shard.None? || FreeOf(s.db.rows, files))
  {
    var d := Do(s, DeletePage(files));
    DoKeepsInv(s, DeletePage(files), true);
    PageOverRun(d, between, files);
    GivenUpIff(Exec(d, between));
  }

  lemma GivenUp(s: Sys, c: ChunkId)
    requires s.writer.Idle?
    ensures var t := Do(Do(s, DeletePage({c.file})), FailPage);
            t.writer.Idle? && t.index == s.index && c !in t.db.rows
  {}

  /** Index, then give up an ignore page: the shard still has what the page deleted. */
  lemma AbandonedPageShows(batch: Rows, c: ChunkId)
    requires c in batch
    ensures var t := Do(Do(Indexed(batch), DeletePage({c.file})), FailPage);
            && t.writer.Idle? && !t.index.mutating && c !in t.db.rows
            && t.index.shard.Some? && c in t.index.shard.value.rows
  {
    IndexedIs(batch);
    GivenUp(Indexed(batch), c);
  }

  // ── A warm in flight across a removal ─────────────────────────────────────

  /** A warm holds a generation that exists, and its capture is no later than the fence. */
  predicate HandlesOk(s: Sys)
  {
    forall id | id in s.warms :: s.warms[id].gen <= |s.retired| && s.warms[id].scanEpoch <= s.index.epoch
  }

  lemma WarmStepRetires(s: Sys, a: Action)
    requires IsWarmStep(a) || IsEnvironmentStep(a)
    ensures Do(s, a).retired == s.retired
  {}

  /** The handle in use is that of the present database; a newly opened one is that of the generation the
      warm was started for. */
  lemma HandleTaken(s: Sys, id: nat, cached: bool)
    requires HandlesOk(s) && id in s.warms && s.warms[id].stage.Captured?
    ensures var t := Do(s, OpenDb(id, cached));
            && id in t.warms && t.warms[id].stage.Connected?
            && DbOf(t, t.warms[id]) == if cached then s.db else DbOf(s, s.warms[id])
  {}

  /** Only a removal retires a generation. */
  lemma StepRetires(s: Sys, a: Action)
    ensures Do(s, a).retired == s.retired + if a.RemoveIndex? && s.writer.Idle? then [s.db] else []
  {
    if IsWarmStep(a) || IsEnvironmentStep(a) {
      WarmStepRetires(s, a);
    } else if !a.Crash? {
      assert Do(s, a) == WriterStep(s, a);
    }
  }

  lemma WarmStepKeepsHandles(s: Sys, a: Action)
    requires HandlesOk(s) && (IsWarmStep(a) || a.StartWarm? || a.CancelWarm?)
    ensures a.id in Do(s, a).warms ==>
              var v := Do(s, a).warms[a.id]; v.gen <= |s.retired| && v.scanEpoch <= s.index.epoch
  {}

  lemma StepKeepsHandles(s: Sys, a: Action)
    requires HandlesOk(s)
    ensures HandlesOk(Do(s, a))
  {
    if !a.Crash? {
      StepFence(s, a);
      StepRetires(s, a);
      forall i | i in Do(s, a).warms
        ensures Do(s, a).warms[i].gen <= |Do(s, a).retired| && Do(s, a).warms[i].scanEpoch <= Do(s, a).index.epoch
      {
        if ActsOn(a, i) {
          WarmStepKeepsHandles(s, a);
        } else {
          StepKeepsCapture(s, a, i);
          OtherStepKeepsWarm(s, a, i);
        }
      }
    }
  }

  /** That holds throughout every run. */
  lemma {:induction false} HandlesOverRun(s: Sys, actions: seq<Action>)
    requires HandlesOk(s)
    ensures HandlesOk(Exec(s, actions))
    decreases |actions|
  {
    if actions != [] {
      StepKeepsHandles(s, actions[0]);
      HandlesOverRun(Do(s, actions[0]), actions[1..]);
    }
  }

  /** The rows a warm has scanned from its database, or is going to. */
  function ScanOf(s: Sys, w: Warm): Rows
  {
    if w.stage.Loaded? || w.stage.Checked? || w.stage.Persisted? then w.stage.rows else DbOf(s, w).rows
  }

  /** The warm goes by the database. */
  predicate Scans(w: Warm)
  {
    !w.stage.Opened? && !w.stage.Refused?
  }

  /** What one step makes of a warm: its generation only goes up, and as long as it is that of a removed
      index the warm scans what was removed. */
  predicate KeepsScan(s: Sys, t: Sys, w: Warm, v: Warm)
  {
    && w.gen <= v.gen
    && (w.gen == v.gen && w.gen < |s.retired| && Scans(v) ==> Scans(w) && ScanOf(t, v) == ScanOf(s, w))
  }

  lemma OwnStepKeepsScan(s: Sys, a: Action, id: nat)
    requires IsWarmStep(a) && a.id == id && HandlesOk(s)
    requires id in s.warms && id in Do(s, a).warms
    ensures KeepsScan(s, Do(s, a), s.warms[id], Do(s, a).warms[id])
  {}

  lemma StepKeepsScan(s: Sys, a: Action, id: nat)
    requires !a.Crash? && !(a.StartWarm? && a.id == id)
    requires HandlesOk(s) && id in s.warms && id in Do(s, a).warms
    ensures KeepsScan(s, Do(s, a), s.warms[id], Do(s, a).warms[id])
  {
    if ActsOn(a, id) {
      if IsWarmStep(a) { OwnStepKeepsScan(s, a, id); }
    } else {
      OtherStepKeepsWarm(s, a, id);
      StepRetires(s, a);
    }
  }

  ghost predicate NotRestarted(actions: seq<Action>, id: nat)
  {
    forall a | a in actions :: !a.Crash? && !(a.StartWarm? && a.id == id)
  }

  lemma {:induction false} ScanOverRun(s: Sys, actions: seq<Action>, id: nat)
    requires HandlesOk(s) && NotRestarted(actions, id)
    requires id in s.warms && id in Exec(s, actions).warms
    ensures KeepsScan(s, Exec(s, actions), s.warms[id], Exec(s, actions).warms[id])
    decreases |actions|
  {
    if actions != [] {
      var u := Do(s, actions[0]);
      CaptureOverRun(u, actions[1..], id);
      StepKeepsScan(s, actions[0], id);
      StepKeepsHandles(s, actions[0]);
      StepRetires(s, actions[0]);
      ScanOverRun(u, actions[1..], id);
    }
  }

  /** Nothing is stored and no run is there to store it. */
  predicate Emptied(s: Sys)
  {
    s.db.rows == map[] && !s.writer.Run?
  }

  lemma StepKeepsEmptied(s: Sys, a: Action)
    requires Emptied(s) && !a.Crash? && !Updates(s, a)
    ensures Emptied(Do(s, a))
  {
    if IsWarmStep(a) || IsEnvironmentStep(a) {
      WarmStepStamp(s, a);
    } else {
      assert Do(s, a) == WriterStep(s, a);
    }
  }

  lemma {:induction false} EmptiedOverRun(s: Sys, actions: seq<Action>)
    requires Emptied(s) && NoCrash(actions) && !Ever(s, actions, Update)
    ensures Emptied(Exec(s, actions))
    decreases |actions|
  {
    if actions != [] {
      StepKeepsEmptied(s, actions[0]);
      EmptiedOverRun(Do(s, actions[0]), actions[1..]);
    }
  }

  /** The capture of a warm is still good after a removal and what followed it. */
  ghost predicate StillGood(s: Sys, id: nat, actions: seq<Action>)
    requires id in s.warms
  {
    MayInstall(s.index, s.warms[id].scanEpoch) && !Ever(Do(s, RemoveIndex), actions, Update)
  }

  /** A removal leaves the fence as it was, so it is no update for any warm in flight. */
  lemma RemovedMayInstallIff(s: Sys, id: nat, actions: seq<Action>)
    requires s.writer.Idle? && HandlesOk(s) && id in s.warms && NotRestarted(actions, id)
    requires id in Exec(Do(s, RemoveIndex), actions).warms
    ensures var t := Exec(Do(s, RemoveIndex), actions);
            && t.warms[id].identity == s.warms[id].identity
            && (MayInstall(t.index, t.warms[id].scanEpoch) <==> StillGood(s, id, actions))
            && (StillGood(s, id, actions) ==> t.db.rows == map[])
  {
    var r := Do(s, RemoveIndex);
    assert r.warms == s.warms && SameFence(s, r) && Emptied(r);
    FenceOverRun(r, actions);
    CaptureOverRun(r, actions, id);
    if StillGood(s, id, actions) { EmptiedOverRun(r, actions); }
  }

  /** The end of an install: it shows these rows over an empty database, or it does nothing. */
  predicate ShowsOrNothing(t: Sys, u: Sys, rows: Rows, identity: Identity, shows: bool)
  {
    if shows then u.index.shard == Keep(rows, identity) && !u.index.mutating && u.db.rows == map[]
    else u.index == t.index
  }

  /** The last steps of a warm over a database that is empty if its capture is good. */
  lemma InstallsOrNothing(t: Sys, id: nat, mmap: bool)
    requires id in t.warms && (MayInstall(t.index, t.warms[id].scanEpoch) ==> t.db.rows == map[])
    ensures var w := t.warms[id];
            var good := MayInstall(t.index, w.scanEpoch);
            && (w.stage.Opened? ==> ShowsOrNothing(t, Do(t, InstallOpened(id)), w.stage.rows, w.identity, good))
            && (w.stage.Loaded? ==> (id in Do(t, CheckFence(id)).warms <==> good))
            && (w.stage.Persisted? ==>
                  ShowsOrNothing(t, Do(t, InstallLoaded(id, mmap)), Picked(t, id, mmap), w.identity, good))
  {}

  /** A warm in flight across a removal, over every continuation: its fence check passes and its last
      step brings rows back over the empty database exactly if its capture was good at the removal and
      no update took effect since, and otherwise nothing changes. Rows that do not come from a file are
      the removed ones, unless the warm took the handle of a newer generation. */
  lemma RemovedVectorsReturnIff(s: Sys, id: nat, actions: seq<Action>, mmap: bool)
    requires s.writer.Idle? && HandlesOk(s) && NotRestarted(actions, id)
    requires id in s.warms && id in Exec(Do(s, RemoveIndex), actions).warms
    ensures var t := Exec(Do(s, RemoveIndex), actions);
            var w, good := t.warms[id], StillGood(s, id, actions);
            && (w.stage.Opened? ==> ShowsOrNothing(t, Do(t, InstallOpened(id)), w.stage.rows, w.identity, good))
            && (w.stage.Loaded? ==> (id in Do(t, CheckFence(id)).warms <==> good))
            && (w.stage.Persisted? ==>
                  ShowsOrNothing(t, Do(t, InstallLoaded(id, mmap)), Picked(t, id, mmap), w.identity, good))
            && (Scans(w) && w.gen == s.warms[id].gen ==> ScanOf(t, w) == ScanOf(s, s.warms[id]))
  {
    var r := Do(s, RemoveIndex);
    assert r.warms == s.warms && s.warms[id].gen < |r.retired| && DbOf(r, s.warms[id]) == DbOf(s, s.warms[id]);
    RemovedMayInstallIff(s, id, actions);
    StepKeepsHandles(s, RemoveIndex);
    ScanOverRun(r, actions, id);
    InstallsOrNothing(Exec(r, actions), id, mmap);
  }

  /** The rest of a warm that found no usable file. */
  function WarmEnds(s: Sys, id: nat, ok: bool, mmap: bool): Sys
  {
    Do(Do(Do(Do(s, LoadRows(id)), CheckFence(id)), PersistFile(id, ok)), InstallLoaded(id, mmap))
  }

  lemma PersistAndInstall(s: Sys, id: nat, ok: bool, mmap: bool)
    requires id in s.warms && s.warms[id].stage.Checked? && MayInstall(s.index, s.warms[id].scanEpoch)
    ensures var u := Do(Do(s, PersistFile(id, ok)), InstallLoaded(id, mmap));
            u.index == s.index.(shard := Keep(s.warms[id].stage.rows, s.warms[id].identity)) && u.db == s.db
  {
    var c := Do(s, PersistFile(id, ok));
    assert c.index == s.index && c.db == s.db && c.warms[id].stage.Persisted? && c.warms[id].stage.rows == s.warms[id].stage.rows;
    assert Picked(c, id, mmap) == s.warms[id].stage.rows;
  }

  lemma WarmEndsIs(s: Sys, id: nat, ok: bool, mmap: bool)
    requires id in s.warms && s.warms[id].stage.ToLoad?
    ensures var w, u := s.warms[id], WarmEnds(s, id, ok, mmap);
            if DbOf(s, w).rows != map[] && MayInstall(s.index, w.scanEpoch)
            then u.index == s.index.(shard := Some(Shard(DbOf(s, w).rows, w.identity))) && u.db == s.db
            else u.index == s.index
  {
    var w, c := s.warms[id], Do(Do(s, LoadRows(id)), CheckFence(id));
    if DbOf(s, w).rows != map[] && MayInstall(s.index, w.scanEpoch) {
      assert c == WithStage(s, id, Checked(w.stage.count, w.stage.epoch, DbOf(s, w).rows));
      PersistAndInstall(c, id, ok, mmap);
    } else {
      assert id !in c.warms && c.index == s.index;
      assert Do(c, PersistFile(id, ok)) == c && Do(c, InstallLoaded(id, mmap)) == c;
    }
  }

  /** A warm that has yet to scan at the removal brings back exactly the removed rows, or nothing. */
  lemma RemovedScanReturnsIff(s: Sys, id: nat, between: seq<Action>, ok: bool, mmap: bool)
    requires s.writer.Idle? && HandlesOk(s) && Others(between, id)
    requires id in s.warms && s.warms[id].stage.ToLoad?
    ensures var t := Exec(Do(s, RemoveIndex), between);
            var w, rows := s.warms[id], DbOf(s, s.warms[id]).rows;
            ShowsOrNothing(t, WarmEnds(t, id, ok, mmap), rows, w.identity, StillGood(s, id, between) && rows != map[])
  {
    var t := Exec(Do(s, RemoveIndex), between);
    OthersKeepWarm(Do(s, RemoveIndex), between, id);
    assert NotRestarted(between, id);
    RemovedVectorsReturnIff(s, id, between, mmap);
    RemovedMayInstallIff(s, id, between);
    WarmEndsIs(t, id, ok, mmap);
  }

  /** The warm is still one for generation `gen`, or has the handle of an emptied database. */
  predicate FindsNothing(s: Sys, id: nat, gen: nat)
  {
    id in s.warms ==>
      s.warms[id].gen == gen || (s.warms[id].stage.Connected? && DbOf(s, s.warms[id]).rows == map[])
  }

  lemma OwnStepFindsNothing(s: Sys, a: Action, id: nat, gen: nat)
    requires FindsNothing(s, id, gen) && HandlesOk(s) && Emptied(s) && IsWarmStep(a) && a.id == id
    ensures FindsNothing(Do(s, a), id, gen)
  {}

  lemma StepFindsNothing(s: Sys, a: Action, id: nat, gen: nat)
    requires FindsNothing(s, id, gen) && HandlesOk(s) && Emptied(s)
    requires !a.Crash? && !(a.StartWarm? && a.id == id) && !Updates(s, a)
    ensures FindsNothing(Do(s, a), id, gen)
  {
    if id in s.warms && !ActsOn(a, id) {
      OtherStepKeepsWarm(s, a, id);
      StepRetires(s, a);
      StepKeepsEmptied(s, a);
    } else if id in Do(s, a).warms {
      StepKeepsCapture(s, a, id);
      OwnStepFindsNothing(s, a, id, gen);
    }
  }

  lemma {:induction false} FindsNothingOverRun(s: Sys, actions: seq<Action>, id: nat, gen: nat)
    requires FindsNothing(s, id, gen) && HandlesOk(s) && Emptied(s) && NotRestarted(actions, id)
    requires !Ever(s, actions, Update)
    ensures FindsNothing(Exec(s, actions), id, gen)
    decreases |actions|
  {
    if actions != [] {
      StepFindsNothing(s, actions[0], id, gen);
      StepKeepsHandles(s, actions[0]);
      StepKeepsEmptied(s, actions[0]);
      FindsNothingOverRun(Do(s, actions[0]), actions[1..], id, gen);
    }
  }

  lemma NoInstall(t: Sys, id: nat, mmap: bool)
    requires id in t.warms && (t.warms[id].stage.Connected? || !MayInstall(t.index, t.warms[id].scanEpoch))
    ensures Do(t, InstallOpened(id)).index == t.index && Do(t, InstallLoaded(id, mmap)).index == t.index
  {}

  /** A warm that took the handle of a newer generation after the removal never installs anything. */
  lemma LateOpenerInstallsNothing(s: Sys, id: nat, actions: seq<Action>, mmap: bool)
    requires s.writer.Idle? && HandlesOk(s) && NotRestarted(actions, id)
    requires id in s.warms && id in Exec(Do(s, RemoveIndex), actions).warms
    requires Exec(Do(s, RemoveIndex), actions).warms[id].gen != s.warms[id].gen
    ensures var t := Exec(Do(s, RemoveIndex), actions);
            Do(t, InstallOpened(id)).index == t.index && Do(t, InstallLoaded(id, mmap)).index == t.index
  {
    var r := Do(s, RemoveIndex);
    assert r.warms == s.warms && SameFence(s, r) && Emptied(r);
    var t := Exec(r, actions);
    if StillGood(s, id, actions) {
      StepKeepsHandles(s, RemoveIndex);
      FindsNothingOverRun(r, actions, id, s.warms[id].gen);
    } else {
      RemovedMayInstallIff(s, id, actions);
    }
    NoInstall(t, id, mmap);
  }

  /** It does happen: index, begin to warm, remove; the warm then scans and installs what was removed. */
  lemma RemovedVectorsShow(batch: Rows, ok: bool, mmap: bool)
    requires batch != map[]
    ensures var t := WarmEnds(Do(WarmReads(Indexed(batch)), RemoveIndex), 0, ok, mmap);
            !t.index.mutating && t.index.shard == Some(Shard(batch, "")) && t.db.rows == map[]
  {
    IndexedIs(batch);
    WarmReadsIs(batch);
    RemovedScanReturnsIff(Warming(batch, ToLoad(|batch|, 1)), 0, [], ok, mmap);
  }

  // ── A file across a removal ───────────────────────────────────────────────

  /** The action changes what CURRENT points at. */
  predicate MovesCurrent(s: Sys, a: Action)
  {
    || a.DropCurrent?
    || (a.DeleteCurrent? && a.deleted && s.writer.Run? && s.writer.phase.Published?)
    || (a.PersistFile? && a.ok && a.id in s.warms && s.warms[a.id].stage.Checked?)
    || (a.InvalidateOwn? && a.id in s.warms && s.warms[a.id].stage.Refused?
        && s.current.Some? && s.current.value.generation == s.warms[a.id].stage.generation)
  }

  predicate KeepsCurrent(s: Sys, actions: seq<Action>)
    decreases |actions|
  {
    actions != [] ==> !MovesCurrent(s, actions[0]) && KeepsCurrent(Do(s, actions[0]), actions[1..])
  }

  /** How often a run moves the index epoch. */
  function BumpCount(s: Sys, actions: seq<Action>): nat
    decreases |actions|
  {
    if actions == [] then 0
    else (if Bumps(s, actions[0]) then 1 else 0) + BumpCount(Do(s, actions[0]), actions[1..])
  }

  lemma StepKeepsCurrent(s: Sys, a: Action)
    requires !MovesCurrent(s, a)
    ensures Do(s, a).current == s.current
  {}

  lemma {:induction false} CurrentOverRun(s: Sys, actions: seq<Action>)
    requires KeepsCurrent(s, actions)
    ensures Exec(s, actions).current == s.current
    decreases |actions|
  {
    if actions != [] {
      StepKeepsCurrent(s, actions[0]);
      CurrentOverRun(Do(s, actions[0]), actions[1..]);
    }
  }

  lemma {:induction false} EpochIsBumpCount(s: Sys, actions: seq<Action>)
    requires forall a | a in actions :: !a.RemoveIndex?
    ensures Exec(s, actions).db.epoch == s.db.epoch + BumpCount(s, actions)
    decreases |actions|
  {
    if actions != [] {
      if !actions[0].Crash? { StepStamp(s, actions[0]); }
      EpochIsBumpCount(Do(s, actions[0]), actions[1..]);
    }
  }

  /** The index epoch starts over with a new database generation. So a file from before a removal, as
      long as it stays CURRENT, validates exactly when identity and count agree and the epoch has moved
      as often since the removal as it had before the file was stamped; crashes included. */
  lemma RemovedFileValidatesIff(s: Sys, actions: seq<Action>, who: Identity)
    requires s.writer.Idle? && forall a | a in actions :: !a.RemoveIndex?
    requires KeepsCurrent(Do(s, RemoveIndex), actions)
    ensures var r := Do(s, RemoveIndex); var t := Exec(r, actions);
            Validates(t.current, who, |t.db.rows|, t.db.epoch) <==>
              && s.current.Some? && s.current.value.identity == who && s.current.value.count == |t.db.rows|
              && s.current.value.epoch == BumpCount(r, actions)
  {
    var r := Do(s, RemoveIndex);
    assert r.current == s.current && r.db.epoch == 0;
    CurrentOverRun(r, actions);
    EpochIsBumpCount(r, actions);
  }

  /** What becomes of a run after its publication: its last step is still to come, deletes the file,
      fails to, or is lost in a crash. */
  datatype Ending = ToCome | Deleted | NotDeleted | Crashed

  function End(s: Sys, ending: Ending): Sys
  {
    match ending
    case ToCome => s
    case Deleted => Do(s, DeleteCurrent(true))
    case NotDeleted => Do(s, DeleteCurrent(false))
    case Crashed => Do(s, Crash)
  }

  lemma EndIs(s: Sys, ending: Ending)
    requires s.writer.Run? && s.writer.phase.Published?
    ensures End(s, ending).db == s.db && End(s, ending).current == if ending.Deleted? then None else s.current
  {
    DeletionIs(s, true);
    DeletionIs(s, false);
  }

  lemma RemovedAndRebuilt(s: Sys, identity: Identity, batch: Rows, ending: Ending)
    requires s.writer.Idle?
    ensures var t := End(Rebuild(Do(s, RemoveIndex), identity, batch), ending);
            t.db == Db(batch, Some(identity), 1) && t.current == if ending.Deleted? then None else s.current
  {
    var r := Do(s, RemoveIndex);
    assert r.current == s.current && r.db.epoch == 0 && r.writer.Idle?;
    RebuildIs(r, identity, batch);
    EndIs(Rebuild(r, identity, batch), ending);
  }

  /** After a removal and one rebuild an old file validates exactly if the run has not deleted it and it
      carries that identity, the index epoch 1 and the new number of rows. */
  lemma RemovedFileMayValidate(s: Sys, who: Identity, identity: Identity, batch: Rows, ending: Ending)
    requires s.writer.Idle?
    ensures var t := End(Rebuild(Do(s, RemoveIndex), identity, batch), ending);
            t.db.rows == batch &&
            (Validates(t.current, who, |t.db.rows|, t.db.epoch) <==>
               && !ending.Deleted? && s.current.Some? && s.current.value.identity == who
               && s.current.value.epoch == 1 && s.current.value.count == |batch|)
  {
    RemovedAndRebuilt(s, identity, batch, ending);
  }

  /** The first warm up to its own file. */
  function WarmWrites(batch: Rows): Sys
  {
    Do(Do(Do(WarmReads(Indexed(batch)), LoadRows(0)), CheckFence(0)), PersistFile(0, true))
  }

  lemma CheckAndPersist(s: Sys, id: nat)
    requires id in s.warms && s.warms[id].stage.Loaded? && MayInstall(s.index, s.warms[id].scanEpoch)
    ensures var w, u := s.warms[id], Do(Do(s, CheckFence(id)), PersistFile(id, true));
            u.writer == s.writer &&
            u.current == Some(ShardFile(s.nextGeneration, w.identity, w.stage.count, w.stage.epoch, w.stage.rows))
  {
    var w, c := s.warms[id], Do(s, CheckFence(id));
    assert c == WithStage(s, id, Checked(w.stage.count, w.stage.epoch, w.stage.rows));
  }

  lemma WarmWritesIs(batch: Rows)
    requires batch != map[]
    ensures WarmWrites(batch).writer.Idle? && WarmWrites(batch).current == Some(ShardFile(0, "", |batch|, 1, batch))
  {
    LoadingKeepsInv(batch);
    IndexedIs(batch);
    assert Do(WarmReads(Indexed(batch)), LoadRows(0)) == Warming(batch, Loaded(|batch|, 1, batch));
    CheckAndPersist(Warming(batch, Loaded(|batch|, 1, batch)), 0);
  }

  /** It does happen: index, warm, remove, index other rows of the same number, and unless that run gets
      to delete the old file, it validates and shows the removed rows. */
  lemma RemovedFileShowsOldRows(batch: Rows, other: Rows, ending: Ending)
    requires batch != map[] && |other| == |batch| && !ending.Deleted?
    ensures var t := End(Rebuild(Do(WarmWrites(batch), RemoveIndex), "", other), ending);
            && Validates(t.current, "", |t.db.rows|, t.db.epoch)
            && t.current.value.rows == batch && t.db.rows == other
  {
    WarmWritesIs(batch);
    RemovedAndRebuilt(WarmWrites(batch), "", other, ending);
  }
}
