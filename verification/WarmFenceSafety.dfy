/**
 Safety of the protocol in `WarmFence`: one inductive invariant, and what it means for queries
 and for the persisted file.
 */
module WarmFenceSafety {
  import opened Wrappers
  import opened ShardIndex
  import opened WarmFence

  // ── Invariant ─────────────────────────────────────────────────────────────

  // `exact` tells two strengths of the invariant apart. The exact one says what a shard holds; the
  // other one says what it covers, and survives an ignore page that was given up after its delete.

  /** `a` is contained in `b`. */
  ghost predicate Sub(a: Rows, b: Rows)
  {
    forall c | c in a :: c in b && b[c] == a[c]
  }

  /** Rows that equal the database once the ignore page in progress, if any, is evicted. */
  ghost predicate Agrees(s: Sys, rows: Rows, exact: bool)
  {
    if !exact then Sub(s.db.rows, rows)
    else if s.writer.IgnorePage? then rows == s.writer.before || rows == s.db.rows
    else rows == s.db.rows
  }

  /** Between the epoch bump and the end of a run no file carries the current epoch. */
  ghost predicate Dirty(s: Sys)
  {
    s.writer.Run? && (s.writer.phase.Bumped? || s.writer.phase.Writing? || s.writer.phase.Committed?)
  }

  /** What a persisted (or about to be persisted) snapshot guarantees for ever. */
  ghost predicate Honest(s: Sys, count: nat, epoch: nat, rows: Rows, exact: bool)
  {
    && epoch <= s.db.epoch
    && (epoch >= s.live ==>
          && !Dirty(s)
          && |rows| <= count
          && (if exact && s.writer.IgnorePage? then Sub(s.writer.before, rows) || rows == s.db.rows
              else Sub(s.db.rows, rows)))
  }

  ghost predicate CountAgrees(s: Sys, n: nat, exact: bool)
  {
    if !exact then |s.db.rows| <= n
    else n == |s.db.rows| || (s.writer.IgnorePage? && n == |s.writer.before|)
  }

  ghost predicate StageOk(s: Sys, w: Warm, exact: bool)
  {
    var valid := MayInstall(s.index, w.scanEpoch);
    match w.stage
    case Captured => true
    case Connected => true
    case Counted(n) => valid ==> CountAgrees(s, n, exact)
    case Identified(n) => valid ==> CountAgrees(s, n, exact) && s.db.identity == Some(w.identity)
    case Stamped(n, e) => e <= s.db.epoch &&
      (valid ==> CountAgrees(s, n, exact) && s.live <= e && s.db.identity == Some(w.identity))
    case ToLoad(n, e) => e <= s.db.epoch &&
      (valid ==> CountAgrees(s, n, exact) && s.live <= e && s.db.identity == Some(w.identity))
    case Opened(n, e, rows) =>
      valid ==> Agrees(s, rows, exact) && s.db.identity == Some(w.identity)
    case Loaded(n, e, rows) => e <= s.db.epoch &&
      (valid ==> CountAgrees(s, n, exact) && s.live <= e && s.db.identity == Some(w.identity)
                 && Agrees(s, rows, exact) && |rows| <= n)
    case Checked(n, e, rows) => Honest(s, n, e, rows, exact) &&
      (valid ==> CountAgrees(s, n, exact) && s.live <= e && s.db.identity == Some(w.identity) && Agrees(s, rows, exact))
    case Persisted(n, e, rows, g) =>
      valid ==> CountAgrees(s, n, exact) && s.live <= e && s.db.identity == Some(w.identity) && Agrees(s, rows, exact)
    case Refused(g) => true
  }

  ghost predicate WarmOk(s: Sys, w: Warm, exact: bool)
  {
    w.gen == |s.retired| && w.scanEpoch <= s.index.epoch && StageOk(s, w, exact)
  }

  ghost predicate SameOrSub(a: Rows, b: Rows, exact: bool)
  {
    if exact then a == b else Sub(a, b)
  }

  /** A run inside its destructive window. */
  ghost predicate RunOk(s: Sys, exact: bool)
    requires s.writer.Run?
  {
    var Run(kind, identity, phase, written) := s.writer;
    && s.index.mutating
    && (phase.Committed? ==> s.db.identity == Some(identity))
    && (!phase.Writing? && !phase.Committed? ==> written == map[])
    && InWindow(kind, written)
    && (kind.Full? ==> s.index.pending.None? && (phase.Writing? || phase.Committed? ==> written == s.db.rows))
    && (kind.Incremental? && s.index.pending.Some? ==>
          if phase.Writing? || phase.Committed?
          then SameOrSub(s.db.rows, RemoveFiles(s.index.pending.value.rows, kind.affected) + written, exact)
          else SameOrSub(s.db.rows, s.index.pending.value.rows, exact))
  }

  ghost predicate WriterOk(s: Sys, exact: bool)
  {
    match s.writer
    case Idle => true
    case IgnorePage(files, before, startEpoch) =>
      s.db.rows == RemoveFiles(before, files) && startEpoch <= s.db.epoch <= startEpoch + 1
    case Run(_, _, phase, _) => phase.Published? || RunOk(s, exact)
  }

  ghost predicate ShardOk(s: Sys, exact: bool)
  {
    && (s.index.mutating ==> s.index.shard.None?)
    && (s.index.shard.Some? ==> Agrees(s, s.index.shard.value.rows, exact)
                                && s.db.identity == Some(s.index.shard.value.identity))
  }

  ghost predicate FileOk(s: Sys, exact: bool)
  {
    s.current.Some? ==> Honest(s, s.current.value.count, s.current.value.epoch, s.current.value.rows, exact)
  }

  ghost predicate WarmsOk(s: Sys, exact: bool)
  {
    forall id | id in s.warms :: WarmOk(s, s.warms[id], exact)
  }

  ghost predicate Inv(s: Sys, exact: bool)
  {
    s.live <= s.db.epoch && WriterOk(s, exact) && ShardOk(s, exact) && FileOk(s, exact) && WarmsOk(s, exact)
  }

  // ── Finite maps ───────────────────────────────────────────────────────────

  lemma SubsetOfSameSize<T>(a: set<T>, b: set<T>)
    requires a <= b
    ensures |a| <= |b|
    ensures |b| <= |a| ==> a == b
  {
    assert b == a + (b - a);
    assert |b| == |a| + |b - a|;
  }

  lemma SubSize(a: Rows, b: Rows)
    requires Sub(a, b)
    ensures |a| <= |b|
    ensures |b| <= |a| ==> a == b
  {
    SubsetOfSameSize(a.Keys, b.Keys);
    assert |a| == |a.Keys| && |b| == |b.Keys|;
    if |b| <= |a| {
      assert a.Keys == b.Keys;
    }
  }

  lemma RemoveFilesSub(rows: Rows, files: set<string>)
    ensures Sub(RemoveFiles(rows, files), rows)
    ensures |RemoveFiles(rows, files)| <= |rows|
  {
    SubSize(RemoveFiles(rows, files), rows);
  }

  lemma RemoveFilesTwice(rows: Rows, files: set<string>)
    ensures RemoveFiles(RemoveFiles(rows, files), files) == RemoveFiles(rows, files)
  {}

  // ── Every action keeps the invariant ──────────────────────────────────────

  /** A file that validates against what a still valid warm read is as good as its own scan. */
  lemma ValidFileAgrees(s: Sys, n: nat, e: nat, exact: bool)
    requires WriterOk(s, exact) && FileOk(s, exact) && s.current.Some?
    requires s.current.value.count == n && s.current.value.epoch == e
    requires CountAgrees(s, n, exact) && s.live <= e
    ensures Agrees(s, s.current.value.rows, exact)
  {
    var f := s.current.value;
    if exact && s.writer.IgnorePage? {
      RemoveFilesSub(s.writer.before, s.writer.files);
      if Sub(s.writer.before, f.rows) {
        SubSize(s.writer.before, f.rows);
      }
    } else if exact {
      SubSize(s.db.rows, f.rows);
    }
  }

  /** Warms other than the one that moved see the same database, fence and writer. */
  lemma WarmsFrame(s: Sys, t: Sys, id: nat, exact: bool)
    requires WarmsOk(s, exact)
    requires t.db == s.db && t.writer == s.writer && t.live == s.live && t.retired == s.retired
    requires t.index.mutating == s.index.mutating && t.index.epoch == s.index.epoch
    requires t.warms.Keys <= s.warms.Keys
    requires forall i | i in t.warms && i != id :: t.warms[i] == s.warms[i]
    requires id in t.warms ==> WarmOk(t, t.warms[id], exact)
    ensures WarmsOk(t, exact)
  {
    forall i | i in t.warms ensures WarmOk(t, t.warms[i], exact) {
      if i != id {
        assert WarmOk(s, s.warms[i], exact);
      }
    }
  }

  lemma WithStageKeepsInv(s: Sys, id: nat, stage: Stage, exact: bool)
    requires Inv(s, exact) && id in s.warms && StageOk(s, s.warms[id].(stage := stage), exact)
    ensures Inv(WithStage(s, id, stage), exact)
  {
    assert WarmOk(s, s.warms[id], exact);
    WarmsFrame(s, WithStage(s, id, stage), id, exact);
  }

  lemma FinishKeepsInv(s: Sys, id: nat, exact: bool)
    requires Inv(s, exact)
    ensures Inv(Finish(s, id), exact)
  {
    WarmsFrame(s, Finish(s, id), id, exact);
  }

  lemma InstallKeepsInv(s: Sys, rows: Rows, identity: Identity, scanEpoch: nat, exact: bool)
    requires Inv(s, exact)
    requires MayInstall(s.index, scanEpoch) ==> Agrees(s, rows, exact) && s.db.identity == Some(identity)
    ensures Inv(s.(index := Install(s.index, rows, identity, scanEpoch)), exact)
  {
    var t := s.(index := Install(s.index, rows, identity, scanEpoch));
    forall i | i in t.warms ensures WarmOk(t, t.warms[i], exact) {
      assert WarmOk(s, s.warms[i], exact);
    }
  }

  lemma SetFileKeepsInv(s: Sys, f: Option<ShardFile>, next: nat, exact: bool)
    requires Inv(s, exact)
    requires f.Some? ==> Honest(s, f.value.count, f.value.epoch, f.value.rows, exact)
    ensures Inv(s.(current := f, nextGeneration := next), exact)
  {
    var t := s.(current := f, nextGeneration := next);
    forall i | i in t.warms ensures WarmOk(t, t.warms[i], exact) {
      assert WarmOk(s, s.warms[i], exact);
    }
  }

  lemma InstallLoadedKeepsInv(s: Sys, id: nat, mmap: bool, exact: bool)
    requires Inv(s, exact) && id in s.warms && s.warms[id].stage.Persisted?
    ensures Inv(InstallLoadedStep(s, id, mmap), exact)
  {
    var w := s.warms[id];
    assert WarmOk(s, w, exact);
    var viaFile := ViaFile(s, id, mmap);
    var picked := if viaFile then s.current.value.rows else w.stage.rows;
    if MayInstall(s.index, w.scanEpoch) && viaFile {
      ValidFileAgrees(s, w.stage.count, w.stage.epoch, exact);
    }
    InstallKeepsInv(s, picked, w.identity, w.scanEpoch, exact);
    var installed := InstallBy(s, id, picked);
    if viaFile && !MayInstall(s.index, w.scanEpoch) {
      WithStageKeepsInv(installed, id, Refused(w.stage.own.value), exact);
    } else {
      FinishKeepsInv(installed, id, exact);
    }
  }

  lemma InstallOpenedKeepsInv(s: Sys, id: nat, exact: bool)
    requires Inv(s, exact) && id in s.warms && s.warms[id].stage.Opened?
    ensures Inv(InstallOpenedStep(s, id), exact)
  {
    var w := s.warms[id];
    assert WarmOk(s, w, exact);
    InstallKeepsInv(s, w.stage.rows, w.identity, w.scanEpoch, exact);
    FinishKeepsInv(InstallBy(s, id, w.stage.rows), id, exact);
  }

  lemma PersistedStageOk(s: Sys, t: Sys, w: Warm, own: Option<nat>, exact: bool)
    requires StageOk(s, w, exact) && w.stage.Checked?
    requires t.db == s.db && t.index == s.index && t.writer == s.writer && t.live == s.live
    ensures StageOk(t, w.(stage := Persisted(w.stage.count, w.stage.epoch, w.stage.rows, own)), exact)
  {}

  /** The file write of warm `id`, seen from everybody else. */
  function FileWritten(s: Sys, id: nat): Sys
    requires id in s.warms && s.warms[id].stage.Checked?
  {
    s.(current := Some(FileOf(s, id)), nextGeneration := s.nextGeneration + 1)
  }

  lemma CheckedIsHonest(s: Sys, w: Warm, exact: bool)
    requires WarmOk(s, w, exact) && w.stage.Checked?
    ensures Honest(s, w.stage.count, w.stage.epoch, w.stage.rows, exact)
  {}

  lemma FileWrittenKeepsInv(s: Sys, id: nat, exact: bool)
    requires Inv(s, exact) && id in s.warms && s.warms[id].stage.Checked?
    ensures Inv(FileWritten(s, id), exact)
  {
    var f := FileOf(s, id);
    assert Honest(s, f.count, f.epoch, f.rows, exact) by {
      assert WarmOk(s, s.warms[id], exact);
      CheckedIsHonest(s, s.warms[id], exact);
    }
    SetFileKeepsInv(s, Some(f), s.nextGeneration + 1, exact);
    assert FileWritten(s, id) == s.(current := Some(f), nextGeneration := s.nextGeneration + 1);
  }

  lemma PersistedKeepsInv(s: Sys, id: nat, exact: bool)
    requires Inv(s, exact) && id in s.warms && s.warms[id].stage.Checked?
    ensures Inv(PersistStep(s, id, true), exact)
  {
    var w, f, t := s.warms[id], FileOf(s, id), FileWritten(s, id);
    var next := Persisted(f.count, f.epoch, f.rows, Some(f.generation));
    FileWrittenKeepsInv(s, id, exact);
    assert StageOk(t, w.(stage := next), exact) by {
      assert WarmOk(s, w, exact);
      PersistedStageOk(s, t, w, Some(f.generation), exact);
    }
    WithStageKeepsInv(t, id, next, exact);
    assert PersistStep(s, id, true) == WithStage(t, id, next);
  }

  lemma NotPersistedKeepsInv(s: Sys, id: nat, exact: bool)
    requires Inv(s, exact) && id in s.warms && s.warms[id].stage.Checked?
    ensures Inv(PersistStep(s, id, false), exact)
  {
    var w := s.warms[id];
    assert WarmOk(s, w, exact);
    PersistedStageOk(s, s, w, None, exact);
    WithStageKeepsInv(s, id, Persisted(w.stage.count, w.stage.epoch, w.stage.rows, None), exact);
  }

  /** The scan: what it reads covers the database at the epoch it was stamped with. */
  lemma LoadKeepsInv(s: Sys, id: nat, exact: bool)
    requires Inv(s, exact) && id in s.warms && s.warms[id].stage.ToLoad?
    ensures Inv(LoadStep(s, id), exact)
  {
    var w := s.warms[id];
    assert WarmOk(s, w, exact);
    if s.writer.IgnorePage? {
      RemoveFilesSub(s.writer.before, s.writer.files);
    }
    FinishKeepsInv(s, id, exact);
    WithStageKeepsInv(s, id, Loaded(w.stage.count, w.stage.epoch, s.db.rows), exact);
  }

  lemma OpenKeepsInv(s: Sys, id: nat, exact: bool)
    requires Inv(s, exact) && id in s.warms && s.warms[id].stage.Stamped?
    ensures Inv(OpenStep(s, id), exact)
  {
    var w := s.warms[id];
    assert WarmOk(s, w, exact);
    var Stamped(n, e) := w.stage;
    if Validates(s.current, w.identity, n, e) && s.current.value.rows != map[] {
      if MayInstall(s.index, w.scanEpoch) {
        ValidFileAgrees(s, n, e, exact);
      }
      WithStageKeepsInv(s, id, Opened(n, e, s.current.value.rows), exact);
    } else {
      WithStageKeepsInv(s, id, ToLoad(n, e), exact);
    }
  }

  lemma InvalidateKeepsInv(s: Sys, id: nat, exact: bool)
    requires Inv(s, exact)
    ensures Inv(InvalidateStep(s, id), exact)
  {
    SetFileKeepsInv(s, None, s.nextGeneration, exact);
    FinishKeepsInv(s.(current := None), id, exact);
    FinishKeepsInv(s, id, exact);
  }

  /** The reads before the scan. */
  lemma ReadsKeepInv(s: Sys, id: nat, cached: bool, exact: bool)
    requires Inv(s, exact) && id in s.warms
    ensures Inv(ConnectStep(s, id, cached), exact)
    ensures Inv(CountStep(s, id), exact)
    ensures Inv(IdentityStep(s, id), exact)
    ensures Inv(EpochStep(s, id), exact)
  {
    var w := s.warms[id];
    assert WarmOk(s, w, exact);
    FinishKeepsInv(s, id, exact);
    match w.stage
    case Captured => WithStageKeepsInv(s, id, Connected, exact);
    case Connected => WithStageKeepsInv(s, id, Counted(|s.db.rows|), exact);
    case Counted(n) => if s.db.identity == Some(w.identity) { WithStageKeepsInv(s, id, Identified(n), exact); }
    case Identified(n) => WithStageKeepsInv(s, id, Stamped(n, s.db.epoch), exact);
    case _ =>
  }

  lemma CheckKeepsInv(s: Sys, id: nat, exact: bool)
    requires Inv(s, exact) && id in s.warms && s.warms[id].stage.Loaded?
    ensures Inv(CheckStep(s, id), exact)
  {
    var w := s.warms[id];
    assert WarmOk(s, w, exact);
    FinishKeepsInv(s, id, exact);
    if MayInstall(s.index, w.scanEpoch) {
      WithStageKeepsInv(s, id, Checked(w.stage.count, w.stage.epoch, w.stage.rows), exact);
    }
  }

  // ── Writers ───────────────────────────────────────────────────────────────

  /** A step after which no warm in flight may install, and no old stamp has become live. */
  lemma FencedStepKeepsInv(s: Sys, t: Sys, exact: bool)
    requires Inv(s, exact) && WriterOk(t, exact) && t.index.mutating && t.index.shard.None?
    requires s.index.epoch <= t.index.epoch
    requires t.warms == s.warms && t.current == s.current && t.retired == s.retired
    requires s.db.epoch <= t.db.epoch && t.live == (if t.db.epoch == s.db.epoch then s.live else t.db.epoch)
    requires !s.writer.IgnorePage? && !t.writer.IgnorePage?
    requires t.db.epoch == s.db.epoch ==> (Dirty(s) || (!Dirty(t) && Sub(t.db.rows, s.db.rows)))
    ensures Inv(t, exact)
  {
    forall i | i in t.warms ensures WarmOk(t, t.warms[i], exact) {
      assert WarmOk(s, s.warms[i], exact);
    }
  }

  /** The hidden base and the written rows go on accounting for the database. */
  lemma BatchKeepsSub(rows: Rows, kept: Rows, written: Rows, batch: Rows, exact: bool)
    requires SameOrSub(rows, kept + written, exact)
    ensures SameOrSub(rows + batch, kept + (written + batch), exact)
  {
    assert (kept + written) + batch == kept + (written + batch);
  }

  lemma WriteRowsKeepsInv(s: Sys, batch: Rows, exact: bool)
    requires Inv(s, exact) && s.writer.Run? && s.writer.phase.Writing? && InWindow(s.writer.kind, batch)
    ensures Inv(s.(db := s.db.(rows := s.db.rows + batch),
                   writer := s.writer.(written := s.writer.written + batch)), exact)
  {
    var t := s.(db := s.db.(rows := s.db.rows + batch), writer := s.writer.(written := s.writer.written + batch));
    if s.writer.kind.Incremental? && s.index.pending.Some? {
      BatchKeepsSub(s.db.rows, RemoveFiles(s.index.pending.value.rows, s.writer.kind.affected), s.writer.written, batch, exact);
    }
    FencedStepKeepsInv(s, t, exact);
  }

  lemma DeleteRowsKeepsInv(s: Sys, exact: bool)
    requires Inv(s, exact) && s.writer.Run? && s.writer.phase.Bumped?
    ensures Inv(RunStep(s, DeleteRows), exact)
  {
    if s.writer.kind.Incremental? && s.index.pending.Some? {
      var kept := RemoveFiles(s.index.pending.value.rows, s.writer.kind.affected);
      assert kept == kept + map[];
    }
    FencedStepKeepsInv(s, RunStep(s, DeleteRows), exact);
  }

  lemma PublishKeepsInv(s: Sys, exact: bool)
    requires Inv(s, exact) && s.writer.Run? && s.writer.phase.Committed?
    ensures Inv(RunStep(s, Publish), exact)
  {
    var t := RunStep(s, Publish);
    forall i | i in t.warms ensures WarmOk(t, t.warms[i], exact) {
      assert WarmOk(s, s.warms[i], exact);
    }
  }

  lemma DeleteCurrentKeepsInv(s: Sys, deleted: bool, exact: bool)
    requires Inv(s, exact) && s.writer.Run? && s.writer.phase.Published?
    ensures Inv(RunStep(s, DeleteCurrent(deleted)), exact)
  {
    var t := RunStep(s, DeleteCurrent(deleted));
    forall i | i in t.warms ensures WarmOk(t, t.warms[i], exact) {
      assert WarmOk(s, s.warms[i], exact);
    }
  }

  /** The steps before publication. */
  lemma RunStepKeepsInv(s: Sys, a: Action, exact: bool)
    requires Inv(s, exact) && s.writer.Run? && !s.writer.phase.Published?
    ensures Inv(RunStep(s, a), exact)
  {
    var t := RunStep(s, a);
    match a
    case Publish => if s.writer.phase.Committed? { PublishKeepsInv(s, exact); }
    case DeleteRows => if s.writer.phase.Bumped? { DeleteRowsKeepsInv(s, exact); }
    case WriteRows(batch) =>
      if s.writer.phase.Writing? && InWindow(s.writer.kind, batch) { WriteRowsKeepsInv(s, batch, exact); }
    case ClearMarker => FencedStepKeepsInv(s, t, exact);
    case BumpEpoch => FencedStepKeepsInv(s, t, exact);
    case CommitMarker => FencedStepKeepsInv(s, t, exact);
    case FailRun => AbandonKeepsInv(s, t, exact);
    case RollBack(_) => AbandonKeepsInv(s, t, exact);
    case _ =>
  }

  /** A run that ends without publishing leaves the fence up, so nothing can be installed. */
  lemma AbandonKeepsInv(s: Sys, t: Sys, exact: bool)
    requires Inv(s, exact) && s.writer.Run? && t.writer.Idle?
    requires t.index.mutating && t.index.shard.None? && s.index.epoch <= t.index.epoch
    requires t.warms == s.warms && t.current == s.current && t.retired == s.retired
    requires t.db.rows == s.db.rows && t.db.epoch == s.db.epoch && t.live == s.live
    ensures Inv(t, exact)
  {
    forall i | i in t.warms ensures WarmOk(t, t.warms[i], exact) {
      assert WarmOk(s, s.warms[i], exact);
    }
  }

  lemma BumpForPageKeepsInv(s: Sys, exact: bool)
    requires Inv(s, exact) && s.writer.IgnorePage?
    ensures Inv(IgnoreStep(s, BumpForPage), exact)
  {
    var t := IgnoreStep(s, BumpForPage);
    forall i | i in t.warms ensures WarmOk(t, t.warms[i], exact) {
      assert WarmOk(s, s.warms[i], exact);
    }
  }

  lemma EvictedShardIsDatabase(s: Sys, exact: bool)
    requires Inv(s, exact) && s.writer.IgnorePage? && s.index.shard.Some?
    ensures SameOrSub(s.db.rows, RemoveFiles(s.index.shard.value.rows, s.writer.files) + map[], exact)
  {
    RemoveFilesTwice(s.writer.before, s.writer.files);
  }

  lemma HonestAfterPage(s: Sys, t: Sys, count: nat, epoch: nat, rows: Rows, exact: bool)
    requires WriterOk(s, exact) && s.writer.IgnorePage? && t.writer.Idle? && t.db == s.db && s.live <= t.live
    requires Honest(s, count, epoch, rows, exact)
    ensures Honest(t, count, epoch, rows, exact)
  {
    RemoveFilesSub(s.writer.before, s.writer.files);
  }

  lemma EvictPageKeepsInv(s: Sys, exact: bool)
    requires Inv(s, exact) && s.writer.IgnorePage?
    ensures Inv(IgnoreStep(s, EvictPage), exact)
  {
    var t := IgnoreStep(s, EvictPage);
    if s.index.shard.Some? {
      EvictedShardIsDatabase(s, exact);
    }
    if s.current.Some? {
      HonestAfterPage(s, t, s.current.value.count, s.current.value.epoch, s.current.value.rows, exact);
    }
    forall i | i in t.warms ensures WarmOk(t, t.warms[i], exact) {
      var w := s.warms[i];
      assert WarmOk(s, w, exact) && !MayInstall(t.index, w.scanEpoch);
      if w.stage.Checked? {
        HonestAfterPage(s, t, w.stage.count, w.stage.epoch, w.stage.rows, exact);
      }
    }
  }

  /** A page that is given up before its eviction. What it deleted is still covered, and when it
      deleted nothing the database is what it was. */
  lemma FailPageKeepsInv(s: Sys, exact: bool)
    requires Inv(s, exact) && s.writer.IgnorePage? && (exact ==> s.db.rows == s.writer.before)
    ensures Inv(IgnoreStep(s, FailPage), exact)
  {
    var t := IgnoreStep(s, FailPage);
    forall i | i in t.warms ensures WarmOk(t, t.warms[i], exact) {
      assert WarmOk(s, s.warms[i], exact);
    }
  }

  lemma RemoveIndexKeepsInv(s: Sys, exact: bool)
    requires Inv(s, exact) && s.writer.Idle? && s.current.None? && s.warms == map[]
    ensures Inv(IdleStep(s, RemoveIndex), exact)
  {}

  lemma DeletePageKeepsInv(s: Sys, files: set<string>, exact: bool)
    requires Inv(s, exact) && s.writer.Idle?
    ensures Inv(IdleStep(s, DeletePage(files)), exact)
  {
    var t := IdleStep(s, DeletePage(files));
    RemoveFilesSub(s.db.rows, files);
    forall i | i in t.warms ensures WarmOk(t, t.warms[i], exact) {
      assert WarmOk(s, s.warms[i], exact);
    }
  }

  lemma BeginRunKeepsInv(s: Sys, kind: RunKind, identity: Identity, exact: bool)
    requires Inv(s, exact) && s.writer.Idle?
    ensures Inv(IdleStep(s, BeginRun(kind, identity)), exact)
  {
    FencedStepKeepsInv(s, IdleStep(s, BeginRun(kind, identity)), exact);
  }

  lemma AdoptMarkerKeepsInv(s: Sys, identity: Identity, exact: bool)
    requires Inv(s, exact) && s.writer.Idle?
    ensures Inv(IdleStep(s, AdoptMarker(identity)), exact)
  {
    var t := IdleStep(s, AdoptMarker(identity));
    forall i | i in t.warms ensures WarmOk(t, t.warms[i], exact) {
      assert WarmOk(s, s.warms[i], exact);
    }
  }

  lemma StartWarmKeepsInv(s: Sys, id: nat, identity: Identity, exact: bool)
    requires Inv(s, exact) && id !in s.warms && !s.index.mutating
    ensures Inv(s.(warms := s.warms[id := Warm(identity, s.index.epoch, |s.retired|, Captured)]), exact)
  {
    var t := s.(warms := s.warms[id := Warm(identity, s.index.epoch, |s.retired|, Captured)]);
    forall i | i in t.warms ensures WarmOk(t, t.warms[i], exact) {
      if i != id { assert WarmOk(s, s.warms[i], exact); }
    }
  }

  lemma EvictShardKeepsInv(s: Sys, exact: bool)
    requires Inv(s, exact)
    ensures Inv(s.(index := s.index.(shard := None)), exact)
  {
    var t := s.(index := s.index.(shard := None));
    forall i | i in t.warms ensures WarmOk(t, t.warms[i], exact) {
      assert WarmOk(s, s.warms[i], exact);
    }
  }

  /** After a crash only the database and the file are left; an unfinished run's epoch bump
      still separates every older file from the rows it left behind. */
  lemma CrashKeepsInv(s: Sys, exact: bool)
    requires Inv(s, exact)
    ensures Inv(s.(index := Slot(None, None, false, 0), writer := Idle, warms := map[], live := s.db.epoch), exact)
  {
    if s.writer.IgnorePage? {
      RemoveFilesSub(s.writer.before, s.writer.files);
    }
  }

  /** Removing an index is clean when no file and no warm in flight is left of it. */
  predicate CleanRemoval(s: Sys, a: Action)
  {
    a.RemoveIndex? && s.writer.Idle? ==> s.current.None? && s.warms == map[]
  }

  /** An ignore page is given up only when it had met no stored chunk. */
  predicate HarmlessFailure(s: Sys, a: Action)
  {
    a.FailPage? && s.writer.IgnorePage? ==> s.db.rows == s.writer.before
  }

  predicate Benign(s: Sys, a: Action, exact: bool)
  {
    CleanRemoval(s, a) && (exact ==> HarmlessFailure(s, a))
  }

  lemma IdleStepKeepsInv(s: Sys, a: Action, exact: bool)
    requires Inv(s, exact) && s.writer.Idle? && Benign(s, a, exact)
    ensures Inv(IdleStep(s, a), exact)
  {
    match a
    case BeginRun(kind, identity) => BeginRunKeepsInv(s, kind, identity, exact);
    case AdoptMarker(identity) => AdoptMarkerKeepsInv(s, identity, exact);
    case DeletePage(files) => DeletePageKeepsInv(s, files, exact);
    case RemoveIndex => RemoveIndexKeepsInv(s, exact);
    case _ =>
  }

  lemma IgnoreStepKeepsInv(s: Sys, a: Action, exact: bool)
    requires Inv(s, exact) && s.writer.IgnorePage? && Benign(s, a, exact)
    ensures Inv(IgnoreStep(s, a), exact)
  {
    match a
    case BumpForPage => BumpForPageKeepsInv(s, exact);
    case EvictPage => EvictPageKeepsInv(s, exact);
    case FailPage => FailPageKeepsInv(s, exact);
    case _ =>
  }

  lemma WriterStepKeepsInv(s: Sys, a: Action, exact: bool)
    requires Inv(s, exact) && Benign(s, a, exact)
    ensures Inv(WriterStep(s, a), exact)
  {
    match s.writer
    case Idle => IdleStepKeepsInv(s, a, exact);
    case Run(_, _, phase, _) =>
      if !phase.Published? {
        RunStepKeepsInv(s, a, exact);
      } else if a.DeleteCurrent? {
        DeleteCurrentKeepsInv(s, a.deleted, exact);
      }
    case IgnorePage(_, _, _) => IgnoreStepKeepsInv(s, a, exact);
  }

  lemma WarmStepKeepsInv(s: Sys, id: nat, flag: bool, exact: bool)
    requires Inv(s, exact) && id in s.warms
    ensures Inv(OpenStep(s, id), exact) && Inv(InstallOpenedStep(s, id), exact)
    ensures Inv(LoadStep(s, id), exact) && Inv(CheckStep(s, id), exact)
    ensures Inv(PersistStep(s, id, flag), exact) && Inv(InstallLoadedStep(s, id, flag), exact) && Inv(InvalidateStep(s, id), exact)
  {
    InvalidateKeepsInv(s, id, exact);
    match s.warms[id].stage
    case Stamped(_, _) => OpenKeepsInv(s, id, exact);
    case Opened(_, _, _) => InstallOpenedKeepsInv(s, id, exact);
    case ToLoad(_, _) => LoadKeepsInv(s, id, exact);
    case Loaded(_, _, _) => CheckKeepsInv(s, id, exact);
    case Checked(_, _, _) => if flag { PersistedKeepsInv(s, id, exact); } else { NotPersistedKeepsInv(s, id, exact); }
    case Persisted(_, _, _, _) => InstallLoadedKeepsInv(s, id, flag, exact);
    case _ =>
  }

  /** Actions of one warm after its start. */
  predicate IsWarmStep(a: Action)
  {
    || a.OpenDb? || a.CountChunks? || a.ReadIdentity? || a.ReadEpoch? || a.CheckFence? || a.OpenCurrent? || a.InstallOpened?
    || a.LoadRows? || a.PersistFile? || a.InstallLoaded? || a.InvalidateOwn?
  }

  lemma WarmActionKeepsInv(s: Sys, a: Action, exact: bool)
    requires Inv(s, exact) && IsWarmStep(a) && a.id in s.warms
    ensures Inv(Do(s, a), exact)
  {
    ReadsKeepInv(s, a.id, a.OpenDb? && a.cached, exact);
    WarmStepKeepsInv(s, a.id, if a.PersistFile? then a.ok else a.InstallLoaded? && a.mmap, exact);
  }

  lemma AbsentWarmDoesNothing(s: Sys, a: Action, exact: bool)
    requires IsWarmStep(a) && a.id !in s.warms
    ensures Do(s, a) == s
  {}

  /** Main invariant: every benign action keeps it. */
  lemma DoKeepsInv(s: Sys, a: Action, exact: bool)
    requires Inv(s, exact) && Benign(s, a, exact)
    ensures Inv(Do(s, a), exact)
  {
    if IsWarmStep(a) {
      if a.id in s.warms { WarmActionKeepsInv(s, a, exact); } else { AbsentWarmDoesNothing(s, a, exact); }
    } else {
      match a
      case StartWarm(id, identity) =>
        if id !in s.warms && !s.index.mutating { StartWarmKeepsInv(s, id, identity, exact); }
      case CancelWarm(id) => FinishKeepsInv(s, id, exact);
      case EvictShard => EvictShardKeepsInv(s, exact);
      case DropCurrent => SetFileKeepsInv(s, None, s.nextGeneration, exact);
      case Crash => CrashKeepsInv(s, exact);
      case _ => WriterStepKeepsInv(s, a, exact);
    }
  }

  // ── Theorems over whole runs ──────────────────────────────────────────────

  ghost predicate BenignRun(s: Sys, actions: seq<Action>, exact: bool)
    decreases |actions|
  {
    actions != [] ==> Benign(s, actions[0], exact) && BenignRun(Do(s, actions[0]), actions[1..], exact)
  }

  lemma {:induction false} ExecKeepsInv(s: Sys, actions: seq<Action>, exact: bool)
    requires Inv(s, exact) && BenignRun(s, actions, exact)
    ensures Inv(Exec(s, actions), exact)
    decreases |actions|
  {
    if actions != [] {
      DoKeepsInv(s, actions[0], exact);
      ExecKeepsInv(Do(s, actions[0]), actions[1..], exact);
    }
  }

  /** In every run whose removals are clean and whose abandoned ignore pages had met no stored chunk,
      a shard a query may see holds exactly the stored vectors and carries the stored identity. While
      an ignore page sits between its delete and its eviction, the shard is the database from just
      before or just after that delete. */
  lemma SearchableShardIsDatabase(actions: seq<Action>)
    requires BenignRun(INIT, actions, true)
    ensures var s := Exec(INIT, actions);
            !s.index.mutating && s.index.shard.Some? ==>
              && s.db.identity == Some(s.index.shard.value.identity)
              && (s.index.shard.value.rows == s.db.rows
                  || (s.writer.IgnorePage? && s.index.shard.value.rows == s.writer.before))
  {
    ExecKeepsInv(INIT, actions, true);
  }

  /** Whatever pages were abandoned, a shard a query may see misses no stored vector, has the stored
      value for each, and carries the stored identity. */
  lemma SearchableShardCoversDatabase(actions: seq<Action>)
    requires BenignRun(INIT, actions, false)
    ensures var s := Exec(INIT, actions);
            !s.index.mutating && s.index.shard.Some? ==>
              && s.db.identity == Some(s.index.shard.value.identity)
              && Sub(s.db.rows, s.index.shard.value.rows)
  {
    ExecKeepsInv(INIT, actions, false);
  }

  /** A file that validates for the present database holds exactly the stored rows. */
  lemma ValidatedIsDatabase(s: Sys, identity: Identity)
    requires Inv(s, false) && Validates(s.current, identity, |s.db.rows|, s.db.epoch)
    ensures s.current.value.rows == s.db.rows
  {
    SubSize(s.db.rows, s.current.value.rows);
  }

  /** In every state reachable with clean removals, and whatever pages were abandoned, a file whose
      stamp is the stamp of the current identity, chunk count and index epoch holds exactly the stored
      rows: mapping it and rebuilding from the database cannot be told apart, however old the file is. */
  lemma ValidatedFileIsDatabase(actions: seq<Action>, identity: Identity)
    requires BenignRun(INIT, actions, false)
    ensures var s := Exec(INIT, actions);
            Validates(s.current, identity, |s.db.rows|, s.db.epoch) ==> s.current.value.rows == s.db.rows
  {
    var s := Exec(INIT, actions);
    ExecKeepsInv(INIT, actions, false);
    if Validates(s.current, identity, |s.db.rows|, s.db.epoch) {
      ValidatedIsDatabase(s, identity);
    }
  }
}
