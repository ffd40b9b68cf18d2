/**
 Detached warms against index runs, the ignore handler, eviction and crashes, over one
 repository. Every await point of `warm_repo_shard` and every separately observable write of
 the pipeline is one atomic action. An action that is not enabled leaves the state alone, so
 every sequence of actions is a run.
 */
module WarmFence {
  import opened Wrappers
  import opened ShardIndex

  // ── State ─────────────────────────────────────────────────────────────────

  /** The repository database: chunk rows, identity marker, durable index epoch. */
  datatype Db = Db(rows: Rows, identity: Option<Identity>, epoch: nat)

  /** The persisted shard `CURRENT` points at. Its content stamp is (identity, count, epoch). */
  datatype ShardFile = ShardFile(generation: nat, identity: Identity, count: nat, epoch: nat, rows: Rows)

  datatype RunKind = Full | Incremental(affected: set<string>)

  /** How far an index run got: inside its destructive window, or past its publication but not yet past
      the deletion of the persisted file. */
  datatype Phase = Fenced | MarkerCleared | Bumped | Writing | Committed | Published

  /** The holder of the per-repository lock: nobody, an index run, or one page of the ignore
      handler between its bulk delete and its shard eviction. */
  datatype Writer =
    | Idle
    | Run(kind: RunKind, identity: Identity, phase: Phase, written: Rows)
    | IgnorePage(files: set<string>, before: Rows, startEpoch: nat)

  /** What a warm holds between two awaits. */
  datatype Stage =
    | Captured
    | Connected
    | Counted(count: nat)
    | Identified(count: nat)
    | Stamped(count: nat, epoch: nat)
    | Opened(count: nat, epoch: nat, rows: Rows)
    | ToLoad(count: nat, epoch: nat)
    | Loaded(count: nat, epoch: nat, rows: Rows)
    | Checked(count: nat, epoch: nat, rows: Rows)
    | Persisted(count: nat, epoch: nat, rows: Rows, own: Option<nat>)
    | Refused(generation: nat)

  /** `gen` is the database generation the warm was started for, or that of the handle it holds. */
  datatype Warm = Warm(identity: Identity, scanEpoch: nat, gen: nat, stage: Stage)

  /** `live` only records history: the oldest index epoch that a warm whose capture is still valid
      may have read. `retired` are the databases of removed generations, which nobody writes any more
      but a handle opened before the removal still reads. */
  datatype Sys = Sys(
    db: Db,
    current: Option<ShardFile>,
    nextGeneration: nat,
    index: Slot,
    writer: Writer,
    warms: map<nat, Warm>,
    live: nat,
    retired: seq<Db>)

  const INIT := Sys(Db(map[], None, 0), None, 0, Slot(None, None, false, 0), Idle, map[], 0, [])

  // ── Actions ───────────────────────────────────────────────────────────────

  datatype Action =
    // warm_repo_shard, in program order
    | StartWarm(id: nat, identity: Identity)
    | OpenDb(id: nat, cached: bool)
    | CountChunks(id: nat)
    | ReadIdentity(id: nat)
    | ReadEpoch(id: nat)
    | OpenCurrent(id: nat)
    | InstallOpened(id: nat)
    | LoadRows(id: nat)
    | CheckFence(id: nat)
    | PersistFile(id: nat, ok: bool)
    | InstallLoaded(id: nat, mmap: bool)
    | InvalidateOwn(id: nat)
    | CancelWarm(id: nat)
    // index run
    | BeginRun(kind: RunKind, runIdentity: Identity)
    | ClearMarker
    | BumpEpoch
    | DeleteRows
    | WriteRows(batch: Rows)
    | CommitMarker
    | Publish
    | DeleteCurrent(deleted: bool)
    | FailRun
    | RollBack(markerGone: bool)
    | AdoptMarker(adopted: Identity)
    // ignore handler page
    | DeletePage(files: set<string>)
    | BumpForPage
    | EvictPage
    | FailPage
    // removal of the index
    | RemoveIndex
    // environment
    | EvictShard
    | DropCurrent
    | Crash

  function WithStage(s: Sys, id: nat, stage: Stage): Sys
    requires id in s.warms
  {
    s.(warms := s.warms[id := s.warms[id].(stage := stage)])
  }

  function Finish(s: Sys, id: nat): Sys
  {
    s.(warms := s.warms - {id})
  }

  /** `open_current`: the file behind CURRENT when its stamp is the expected one. */
  predicate Validates(f: Option<ShardFile>, identity: Identity, count: nat, epoch: nat)
  {
    f.Some? && f.value.identity == identity && f.value.count == count && f.value.epoch == epoch
  }

  // The steps of warm `id`, one await to the next.

  /** The database a warm reads from. */
  function DbOf(s: Sys, w: Warm): Db
  {
    if w.gen < |s.retired| then s.retired[w.gen] else s.db
  }

  /** The handle in use for the repository, or one newly opened for the generation that was current
      when the warm started. */
  function ConnectStep(s: Sys, id: nat, cached: bool): Sys
  {
    if !(id in s.warms && s.warms[id].stage.Captured?) then s
    else s.(warms := s.warms[id := s.warms[id].(gen := if cached then |s.retired| else s.warms[id].gen, stage := Connected)])
  }

  function CountStep(s: Sys, id: nat): Sys
  {
    if !(id in s.warms && s.warms[id].stage.Connected?) then s
    else if DbOf(s, s.warms[id]).rows == map[] then Finish(s, id)
    else WithStage(s, id, Counted(|DbOf(s, s.warms[id]).rows|))
  }

  function IdentityStep(s: Sys, id: nat): Sys
  {
    if !(id in s.warms && s.warms[id].stage.Counted?) then s
    else if DbOf(s, s.warms[id]).identity != Some(s.warms[id].identity) then Finish(s, id)
    else WithStage(s, id, Identified(s.warms[id].stage.count))
  }

  function EpochStep(s: Sys, id: nat): Sys
  {
    if !(id in s.warms && s.warms[id].stage.Identified?) then s
    else WithStage(s, id, Stamped(s.warms[id].stage.count, DbOf(s, s.warms[id]).epoch))
  }

  function OpenStep(s: Sys, id: nat): Sys
  {
    if !(id in s.warms && s.warms[id].stage.Stamped?) then s
    else
      var Warm(identity, _, _, Stamped(n, e)) := s.warms[id];
      if Validates(s.current, identity, n, e) && s.current.value.rows != map[]
      then WithStage(s, id, Opened(n, e, s.current.value.rows))
      else WithStage(s, id, ToLoad(n, e))
  }

  function InstallBy(s: Sys, id: nat, rows: Rows): Sys
    requires id in s.warms
  {
    s.(index := Install(s.index, rows, s.warms[id].identity, s.warms[id].scanEpoch))
  }

  function InstallOpenedStep(s: Sys, id: nat): Sys
  {
    if !(id in s.warms && s.warms[id].stage.Opened?) then s
    else Finish(InstallBy(s, id, s.warms[id].stage.rows), id)
  }

  function LoadStep(s: Sys, id: nat): Sys
  {
    if !(id in s.warms && s.warms[id].stage.ToLoad?) then s
    else if DbOf(s, s.warms[id]).rows == map[] then Finish(s, id)
    else WithStage(s, id, Loaded(s.warms[id].stage.count, s.warms[id].stage.epoch, DbOf(s, s.warms[id]).rows))
  }

  function CheckStep(s: Sys, id: nat): Sys
  {
    if !(id in s.warms && s.warms[id].stage.Loaded?) then s
    else
      var Warm(_, scanEpoch, _, Loaded(n, e, rows)) := s.warms[id];
      if MayInstall(s.index, scanEpoch) then WithStage(s, id, Checked(n, e, rows)) else Finish(s, id)
  }

  /** The file warm `id` writes: the stamp it read, the rows it scanned. */
  function FileOf(s: Sys, id: nat): ShardFile
    requires id in s.warms && s.warms[id].stage.Checked?
  {
    var Warm(identity, _, _, Checked(n, e, rows)) := s.warms[id];
    ShardFile(s.nextGeneration, identity, n, e, rows)
  }

  function PersistStep(s: Sys, id: nat, ok: bool): Sys
  {
    if !(id in s.warms && s.warms[id].stage.Checked?) then s
    else
      var f := FileOf(s, id);
      if ok
      then WithStage(s.(current := Some(f), nextGeneration := s.nextGeneration + 1),
                     id, Persisted(f.count, f.epoch, f.rows, Some(f.generation)))
      else WithStage(s, id, Persisted(f.count, f.epoch, f.rows, None))
  }

  /** Whether the install of a scanned shard goes through the file CURRENT points at by then. */
  predicate ViaFile(s: Sys, id: nat, mmap: bool)
    requires id in s.warms && s.warms[id].stage.Persisted?
  {
    var Warm(identity, _, _, Persisted(n, e, _, own)) := s.warms[id];
    own.Some? && mmap && Validates(s.current, identity, n, e)
  }

  function InstallLoadedStep(s: Sys, id: nat, mmap: bool): Sys
  {
    if !(id in s.warms && s.warms[id].stage.Persisted?) then s
    else
      var w := s.warms[id];
      var viaFile := ViaFile(s, id, mmap);
      var installed := InstallBy(s, id, if viaFile then s.current.value.rows else w.stage.rows);
      if viaFile && !MayInstall(s.index, w.scanEpoch)
      then WithStage(installed, id, Refused(w.stage.own.value))
      else Finish(installed, id)
  }

  function InvalidateStep(s: Sys, id: nat): Sys
  {
    if !(id in s.warms && s.warms[id].stage.Refused?) then s
    else if s.current.Some? && s.current.value.generation == s.warms[id].stage.generation
    then Finish(s.(current := None), id)
    else Finish(s, id)
  }

  function InWindow(kind: RunKind, rows: Rows): bool
  {
    kind.Full? || forall c | c in rows :: c.file in kind.affected
  }

  /** One step of the index run that holds the repository lock. */
  function RunStep(s: Sys, a: Action): Sys
    requires s.writer.Run?
  {
    var Run(kind, identity, phase, written) := s.writer;
    match (a, phase)
    case (ClearMarker, Fenced) =>
      s.(db := s.db.(identity := None), writer := Run(kind, identity, MarkerCleared, written))
    case (BumpEpoch, MarkerCleared) =>
      s.(db := s.db.(epoch := s.db.epoch + 1), live := s.db.epoch + 1, writer := Run(kind, identity, Bumped, written))
    case (DeleteRows, Bumped) =>
      s.(db := s.db.(rows := if kind.Full? then map[] else RemoveFiles(s.db.rows, kind.affected)),
         writer := Run(kind, identity, Writing, written))
    case (WriteRows(batch), Writing) =>
      if InWindow(kind, batch)
      then s.(db := s.db.(rows := s.db.rows + batch), writer := Run(kind, identity, Writing, written + batch))
      else s
    case (CommitMarker, Writing) =>
      s.(db := s.db.(identity := Some(identity)), writer := Run(kind, identity, Committed, written))
    case (Publish, Committed) =>
      s.(writer := Run(kind, identity, Published, written),
         index := if kind.Full? then PublishFull(s.index, written, identity)
                  else PublishIncremental(s.index, kind.affected, written, identity))
    case (DeleteCurrent(deleted), Published) =>
      s.(writer := Idle, current := if deleted then None else s.current)
    case (_, Published) => s
    case (FailRun, _) => s.(writer := Idle)
    case (RollBack(markerGone), _) =>
      s.(writer := Idle, index := Abort(s.index),
         db := s.db.(identity := if markerGone then None else s.db.identity))
    case _ => s
  }

  /** One step of the ignore handler. A delete that fails after the chunk statement, and a handler
      that is cancelled, leave the page without its eviction. */
  function IgnoreStep(s: Sys, a: Action): Sys
    requires s.writer.IgnorePage?
  {
    match a
    case BumpForPage =>
      if s.db.epoch == s.writer.startEpoch then s.(db := s.db.(epoch := s.db.epoch + 1)) else s
    case EvictPage =>
      var identity := if s.index.mutating || s.index.shard.None? then "" else s.index.shard.value.identity;
      s.(writer := Idle, live := s.db.epoch, index := ApplyIncremental(s.index, s.writer.files, map[], identity))
    case FailPage => s.(writer := Idle)
    case _ => s
  }

  /** A step that takes the repository lock. A removal waits for the holder; it moves to a fresh
      database generation and drops the shard, but neither moves the mutation epoch nor deletes the
      persisted file. */
  function IdleStep(s: Sys, a: Action): Sys
    requires s.writer.Idle?
  {
    match a
    case BeginRun(kind, identity) =>
      s.(writer := Run(kind, identity, Fenced, map[]),
         index := if kind.Full? then BeginFull(s.index) else BeginIncremental(s.index))
    case AdoptMarker(identity) =>
      if s.db.identity.None? then s.(db := s.db.(identity := Some(identity))) else s
    case DeletePage(files) =>
      s.(writer := IgnorePage(files, s.db.rows, s.db.epoch),
         db := s.db.(rows := RemoveFiles(s.db.rows, files)))
    case RemoveIndex =>
      s.(db := Db(map[], None, 0), live := 0, retired := s.retired + [s.db], index := s.index.(shard := None, pending := None))
    case _ => s
  }

  function Do(s: Sys, a: Action): Sys
  {
    match a
    case StartWarm(id, identity) =>
      if id in s.warms || s.index.mutating then s
      else s.(warms := s.warms[id := Warm(identity, s.index.epoch, |s.retired|, Captured)])
    case EvictShard => s.(index := s.index.(shard := None))
    case DropCurrent => s.(current := None)
    case Crash => s.(index := Slot(None, None, false, 0), writer := Idle, warms := map[], live := s.db.epoch)
    case OpenDb(id, cached) => ConnectStep(s, id, cached)
    case CountChunks(id) => CountStep(s, id)
    case ReadIdentity(id) => IdentityStep(s, id)
    case ReadEpoch(id) => EpochStep(s, id)
    case OpenCurrent(id) => OpenStep(s, id)
    case InstallOpened(id) => InstallOpenedStep(s, id)
    case LoadRows(id) => LoadStep(s, id)
    case CheckFence(id) => CheckStep(s, id)
    case PersistFile(id, ok) => PersistStep(s, id, ok)
    case InstallLoaded(id, mmap) => InstallLoadedStep(s, id, mmap)
    case InvalidateOwn(id) => InvalidateStep(s, id)
    case CancelWarm(id) => Finish(s, id)
    case _ =>
      WriterStep(s, a)
  }

  function WriterStep(s: Sys, a: Action): Sys
  {
    match s.writer
    case Idle => IdleStep(s, a)
    case Run(_, _, _, _) => RunStep(s, a)
    case IgnorePage(_, _, _) => IgnoreStep(s, a)
  }

  function Exec(s: Sys, actions: seq<Action>): Sys
    decreases |actions|
  {
    if actions == [] then s else Exec(Do(s, actions[0]), actions[1..])
  }
}
