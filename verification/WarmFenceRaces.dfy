/**
 What exactly the fence of `WarmFence` refuses, and what becomes of a snapshot that an update overtook
 before it was written.
 */
module WarmFenceRaces {
  import opened Wrappers
  import opened ShardIndex
  import opened WarmFence
  import opened WarmFenceSafety

  // ── Events of a run ───────────────────────────────────────────────────────

  /** `Update` changes vectors under the fence, `Bump` moves the index epoch, and `Loss` is an ignore
      page that deletes a stored chunk. */
  datatype Event = Update | Bump | Loss

  predicate Updates(s: Sys, a: Action)
  {
    || (s.writer.Idle? && a.BeginRun?)
    || (s.writer.Run? && s.writer.phase.Committed? && a.Publish?)
    || (s.writer.Run? && !s.writer.phase.Published? && a.RollBack?)
    || (s.writer.IgnorePage? && a.EvictPage?)
  }

  predicate Bumps(s: Sys, a: Action)
  {
    || (s.writer.Run? && s.writer.phase.MarkerCleared? && a.BumpEpoch?)
    || (s.writer.IgnorePage? && a.BumpForPage? && s.db.epoch == s.writer.startEpoch)
  }

  ghost predicate Loses(s: Sys, a: Action)
  {
    s.writer.Idle? && a.DeletePage? && exists c :: c in s.db.rows && c.file in a.files
  }

  ghost predicate Happens(s: Sys, a: Action, e: Event)
  {
    match e
    case Update => Updates(s, a)
    case Bump => Bumps(s, a)
    case Loss => Loses(s, a)
  }

  /** The event happens somewhere along the run. */
  ghost predicate Ever(s: Sys, actions: seq<Action>, e: Event)
    decreases |actions|
  {
    actions != [] && (Happens(s, actions[0], e) || Ever(Do(s, actions[0]), actions[1..], e))
  }

  ghost predicate NoCrash(actions: seq<Action>)
  {
    forall a | a in actions :: !a.Crash?
  }

  /** The action is a step of warm `id`, or its start or end. */
  predicate ActsOn(a: Action, id: nat)
  {
    (IsWarmStep(a) || a.StartWarm? || a.CancelWarm?) && a.id == id
  }

  // ── The fence moves exactly with updates ──────────────────────────────────

  /** Nothing but the given difference between the fence before and after. */
  predicate FenceStep(s: Sys, t: Sys, moved: bool)
  {
    && t.warms == s.warms
    && s.index.epoch <= t.index.epoch && (moved <==> s.index.epoch < t.index.epoch)
    && (!moved ==> t.index.mutating == s.index.mutating)
  }

  lemma RunStepFence(s: Sys, a: Action)
    requires s.writer.Run?
    ensures FenceStep(s, RunStep(s, a), Updates(s, a))
  {}

  lemma IgnoreStepFence(s: Sys, a: Action)
    requires s.writer.IgnorePage?
    ensures FenceStep(s, IgnoreStep(s, a), Updates(s, a))
  {}

  lemma IdleStepFence(s: Sys, a: Action)
    requires s.writer.Idle?
    ensures FenceStep(s, IdleStep(s, a), Updates(s, a))
  {}

  predicate IsEnvironmentStep(a: Action)
  {
    a.StartWarm? || a.CancelWarm? || a.EvictShard? || a.DropCurrent?
  }

  predicate SameFence(s: Sys, t: Sys)
  {
    t.index.epoch == s.index.epoch && t.index.mutating == s.index.mutating
  }

  lemma WarmStepFence(s: Sys, a: Action)
    requires IsWarmStep(a) || IsEnvironmentStep(a)
    ensures SameFence(s, Do(s, a)) && !Updates(s, a)
  {}

  lemma StepFence(s: Sys, a: Action)
    requires !a.Crash?
    ensures s.index.epoch <= Do(s, a).index.epoch
    ensures Updates(s, a) <==> s.index.epoch < Do(s, a).index.epoch
    ensures !Updates(s, a) ==> Do(s, a).index.mutating == s.index.mutating
  {
    if IsWarmStep(a) || IsEnvironmentStep(a) {
      WarmStepFence(s, a);
    } else {
      assert Do(s, a) == WriterStep(s, a);
      match s.writer
      case Idle => IdleStepFence(s, a);
      case Run(_, _, _, _) => RunStepFence(s, a);
      case IgnorePage(_, _, _) => IgnoreStepFence(s, a);
    }
  }

  /** Over a run without a crash the mutation epoch moves exactly if some update took effect. */
  lemma {:induction false} FenceOverRun(s: Sys, actions: seq<Action>)
    requires NoCrash(actions)
    ensures s.index.epoch <= Exec(s, actions).index.epoch
    ensures Ever(s, actions, Update) <==> s.index.epoch < Exec(s, actions).index.epoch
    ensures !Ever(s, actions, Update) ==> Exec(s, actions).index.mutating == s.index.mutating
    decreases |actions|
  {
    if actions != [] {
      StepFence(s, actions[0]);
      FenceOverRun(Do(s, actions[0]), actions[1..]);
    }
  }

  // ── What a warm keeps ─────────────────────────────────────────────────────

  /** A warm that is not restarted keeps its capture. */
  lemma StepKeepsCapture(s: Sys, a: Action, id: nat)
    requires !a.Crash? && !(a.StartWarm? && a.id == id)
    ensures id in Do(s, a).warms ==>
              && id in s.warms && Do(s, a).warms[id].scanEpoch == s.warms[id].scanEpoch
              && Do(s, a).warms[id].identity == s.warms[id].identity
  {
    if !IsWarmStep(a) && !IsEnvironmentStep(a) {
      assert Do(s, a) == WriterStep(s, a);
      match s.writer
      case Idle => IdleStepFence(s, a);
      case Run(_, _, _, _) => RunStepFence(s, a);
      case IgnorePage(_, _, _) => IgnoreStepFence(s, a);
    }
  }

  lemma {:induction false} CaptureOverRun(s: Sys, actions: seq<Action>, id: nat)
    requires NoCrash(actions) && forall a | a in actions :: !(a.StartWarm? && a.id == id)
    ensures id in Exec(s, actions).warms ==>
              && id in s.warms && Exec(s, actions).warms[id].scanEpoch == s.warms[id].scanEpoch
              && Exec(s, actions).warms[id].identity == s.warms[id].identity
    decreases |actions|
  {
    if actions != [] {
      StepKeepsCapture(s, actions[0], id);
      CaptureOverRun(Do(s, actions[0]), actions[1..], id);
    }
  }

  /** The fence is exact: from its start on, over every continuation without a restart, a warm may
      install exactly if no update took effect meanwhile, even one that has long published. */
  lemma MayInstallIff(s: Sys, id: nat, identity: Identity, actions: seq<Action>)
    requires id !in s.warms && !s.index.mutating
    requires NoCrash(actions) && forall a | a in actions :: !(a.StartWarm? && a.id == id)
    ensures var c := Do(s, StartWarm(id, identity)); var t := Exec(c, actions);
            id in t.warms ==> (MayInstall(t.index, t.warms[id].scanEpoch) <==> !Ever(c, actions, Update))
  {
    var c := Do(s, StartWarm(id, identity));
    FenceOverRun(c, actions);
    CaptureOverRun(c, actions, id);
  }

  /** The rows that the last step of a warm on the slow path installs. */
  function Picked(s: Sys, id: nat, mmap: bool): Rows
    requires id in s.warms && s.warms[id].stage.Persisted?
  {
    if ViaFile(s, id, mmap) then s.current.value.rows else s.warms[id].stage.rows
  }

  /** A warm that an update overlapped installs nothing, whichever way it goes. */
  lemma OverlappedWarmInstallsNothing(s: Sys, id: nat, identity: Identity, actions: seq<Action>, mmap: bool)
    requires id !in s.warms && !s.index.mutating
    requires NoCrash(actions) && forall a | a in actions :: !(a.StartWarm? && a.id == id)
    requires Ever(Do(s, StartWarm(id, identity)), actions, Update)
    ensures var t := Exec(Do(s, StartWarm(id, identity)), actions);
            Do(t, InstallOpened(id)).index == t.index && Do(t, InstallLoaded(id, mmap)).index == t.index
  {
    MayInstallIff(s, id, identity, actions);
  }

  /** And one that none overlapped is refused nothing: its fence check passes and its rows go in. */
  lemma UnoverlappedWarmInstalls(s: Sys, id: nat, identity: Identity, actions: seq<Action>, mmap: bool)
    requires id !in s.warms && !s.index.mutating
    requires NoCrash(actions) && forall a | a in actions :: !(a.StartWarm? && a.id == id)
    requires !Ever(Do(s, StartWarm(id, identity)), actions, Update)
    requires id in Exec(Do(s, StartWarm(id, identity)), actions).warms
    ensures var t := Exec(Do(s, StartWarm(id, identity)), actions);
            && (t.warms[id].stage.Loaded? ==> id in Do(t, CheckFence(id)).warms)
            && (t.warms[id].stage.Opened? ==>
                  Do(t, InstallOpened(id)).index.shard == Keep(t.warms[id].stage.rows, t.warms[id].identity))
            && (t.warms[id].stage.Persisted? ==>
                  Do(t, InstallLoaded(id, mmap)).index.shard == Keep(Picked(t, id, mmap), t.warms[id].identity))
  {
    MayInstallIff(s, id, identity, actions);
  }

  predicate Overtaken(s: Sys, id: nat)
  {
    id in s.warms && s.warms[id].scanEpoch < s.index.epoch
  }

  /** An update overtakes every warm in flight, and no step undoes that. */
  lemma StepKeepsOvertaken(s: Sys, id: nat, a: Action)
    requires !a.Crash? && !(a.StartWarm? && a.id == id)
    requires id in s.warms && s.warms[id].scanEpoch <= s.index.epoch
    requires Overtaken(s, id) || Updates(s, a)
    ensures id in Do(s, a).warms ==> Overtaken(Do(s, a), id)
  {
    StepFence(s, a);
    StepKeepsCapture(s, a, id);
  }

  /** An overtaken warm stays so over every continuation without a restart. */
  lemma OvertakenForGood(s: Sys, id: nat, rest: seq<Action>)
    requires NoCrash(rest) && forall a | a in rest :: !(a.StartWarm? && a.id == id)
    requires id in s.warms ==> Overtaken(s, id)
    ensures id in Exec(s, rest).warms ==> Overtaken(Exec(s, rest), id)
  {
    FenceOverRun(s, rest);
    CaptureOverRun(s, rest, id);
  }

  // ── A snapshot between its fence check and its file ───────────────────────

  lemma OtherStepKeepsWarm(s: Sys, a: Action, id: nat)
    requires !a.Crash? && !ActsOn(a, id) && id in s.warms
    ensures id in Do(s, a).warms && Do(s, a).warms[id] == s.warms[id]
  {
    if !IsWarmStep(a) && !IsEnvironmentStep(a) {
      assert Do(s, a) == WriterStep(s, a);
      match s.writer
      case Idle => IdleStepFence(s, a);
      case Run(_, _, _, _) => RunStepFence(s, a);
      case IgnorePage(_, _, _) => IgnoreStepFence(s, a);
    }
  }

  ghost predicate Others(actions: seq<Action>, id: nat)
  {
    forall a | a in actions :: !a.Crash? && !ActsOn(a, id)
  }

  lemma {:induction false} OthersKeepWarm(s: Sys, actions: seq<Action>, id: nat)
    requires Others(actions, id) && id in s.warms
    ensures id in Exec(s, actions).warms && Exec(s, actions).warms[id] == s.warms[id]
    decreases |actions|
  {
    if actions != [] {
      OtherStepKeepsWarm(s, actions[0], id);
      OthersKeepWarm(Do(s, actions[0]), actions[1..], id);
    }
  }

  /** The state after warm `id` passed its fence check, others acted, and it wrote its file. */
  function Written(s: Sys, id: nat, between: seq<Action>): Sys
  {
    Do(Exec(Do(s, CheckFence(id)), between), PersistFile(id, true))
  }

  /** The snapshot becomes CURRENT in any case. Its warm has been overtaken by then exactly if an
      update took effect between the check and the write, which are not one step. */
  lemma SnapshotOvertakenIff(s: Sys, id: nat, between: seq<Action>)
    requires id in s.warms && s.warms[id].stage.Loaded? && MayInstall(s.index, s.warms[id].scanEpoch)
    requires Others(between, id)
    ensures var w, u := s.warms[id], Written(s, id, between);
            && u.current.Some? && u.current.value.rows == w.stage.rows
            && (Overtaken(u, id) <==> Ever(Do(s, CheckFence(id)), between, Update))
  {
    var c := Do(s, CheckFence(id));
    OthersKeepWarm(c, between, id);
    FenceOverRun(c, between);
  }

  // What a run does to the stamp of the database while it removes no index.

  lemma RunStepDb(s: Sys, a: Action)
    requires s.writer.Run?
    ensures RunStep(s, a).db.epoch == s.db.epoch + if Bumps(s, a) then 1 else 0
    ensures !Dirty(s) && !Bumps(s, a) ==> !Dirty(RunStep(s, a)) && RunStep(s, a).db.rows == s.db.rows
  {}

  lemma PageLoss(rows: Rows, files: set<string>)
    ensures |RemoveFiles(rows, files)| <= |rows|
    ensures (exists c :: c in rows && c.file in files) <==> |RemoveFiles(rows, files)| < |rows|
  {
    RemoveFilesSub(rows, files);
    SubSize(RemoveFiles(rows, files), rows);
    if !(exists c :: c in rows && c.file in files) {
      assert RemoveFiles(rows, files) == rows;
    }
  }

  /** One step, seen from the stamp: epoch and number of rows. */
  ghost predicate StampStep(s: Sys, t: Sys, bumped: bool, lost: bool)
  {
    && t.db.epoch == s.db.epoch + (if bumped then 1 else 0)
    && (!Dirty(s) && !bumped ==> !Dirty(t) && |t.db.rows| <= |s.db.rows| && (lost <==> |t.db.rows| < |s.db.rows|))
  }

  lemma IdleStepStamp(s: Sys, a: Action)
    requires s.writer.Idle? && !a.RemoveIndex?
    ensures StampStep(s, IdleStep(s, a), Bumps(s, a), Loses(s, a))
  {
    if a.DeletePage? { PageLoss(s.db.rows, a.files); }
  }

  lemma IgnoreStepStamp(s: Sys, a: Action)
    requires s.writer.IgnorePage?
    ensures StampStep(s, IgnoreStep(s, a), Bumps(s, a), Loses(s, a))
  {}

  lemma WarmStepStamp(s: Sys, a: Action)
    requires IsWarmStep(a) || IsEnvironmentStep(a)
    ensures Do(s, a).db == s.db && Do(s, a).writer == s.writer
  {}

  lemma StepStamp(s: Sys, a: Action)
    requires !a.Crash? && !a.RemoveIndex?
    ensures StampStep(s, Do(s, a), Bumps(s, a), Loses(s, a))
  {
    if IsWarmStep(a) || IsEnvironmentStep(a) {
      WarmStepStamp(s, a);
    } else {
      assert Do(s, a) == WriterStep(s, a);
      match s.writer
      case Idle => IdleStepStamp(s, a);
      case Run(_, _, _, _) => RunStepDb(s, a);
      case IgnorePage(_, _, _) => IgnoreStepStamp(s, a);
    }
  }

  lemma {:induction false} EpochOverRun(s: Sys, actions: seq<Action>)
    requires forall a | a in actions :: !a.Crash? && !a.RemoveIndex?
    ensures s.db.epoch <= Exec(s, actions).db.epoch
    ensures Ever(s, actions, Bump) <==> s.db.epoch < Exec(s, actions).db.epoch
    decreases |actions|
  {
    if actions != [] {
      StepStamp(s, actions[0]);
      EpochOverRun(Do(s, actions[0]), actions[1..]);
    }
  }

  /** As long as the epoch stays, rows only go, and only through ignore pages. */
  lemma {:induction false} RowsOverRun(s: Sys, actions: seq<Action>)
    requires forall a | a in actions :: !a.Crash? && !a.RemoveIndex?
    requires !Dirty(s) && !Ever(s, actions, Bump)
    ensures |Exec(s, actions).db.rows| <= |s.db.rows|
    ensures Ever(s, actions, Loss) <==> |Exec(s, actions).db.rows| < |s.db.rows|
    decreases |actions|
  {
    if actions != [] {
      StepStamp(s, actions[0]);
      RowsOverRun(Do(s, actions[0]), actions[1..]);
    }
  }

  /** The file a snapshot becomes validates for the database at the moment of the write exactly if
      its stamp was the current one at the fence check and, since then, no epoch bump and no ignore
      page with a stored chunk came in between; overtaken or not. */
  lemma SnapshotValidatesIff(s: Sys, id: nat, between: seq<Action>, who: Identity)
    requires Inv(s, false)
    requires id in s.warms && s.warms[id].stage.Loaded? && MayInstall(s.index, s.warms[id].scanEpoch)
    requires Others(between, id) && forall a | a in between :: !a.RemoveIndex?
    ensures var w, c, u := s.warms[id], Do(s, CheckFence(id)), Written(s, id, between);
            Validates(u.current, who, |u.db.rows|, u.db.epoch) <==>
              && who == w.identity && w.stage.count == |s.db.rows| && w.stage.epoch == s.db.epoch
              && !Ever(c, between, Bump) && !Ever(c, between, Loss)
  {
    var c := Do(s, CheckFence(id));
    assert WarmOk(s, s.warms[id], false) && c.db == s.db && c.writer == s.writer;
    OthersKeepWarm(c, between, id);
    EpochOverRun(c, between);
    if !Ever(c, between, Bump) { RowsOverRun(c, between); }
  }

  lemma {:induction false} BenignWithoutRemoval(s: Sys, actions: seq<Action>)
    requires forall a | a in actions :: !a.RemoveIndex?
    ensures BenignRun(s, actions, false)
    decreases |actions|
  {
    if actions != [] { BenignWithoutRemoval(Do(s, actions[0]), actions[1..]); }
  }

  /** Whoever maps such a file gets the stored rows, even if the snapshot was overtaken. */
  lemma ValidatedSnapshotIsDatabase(s: Sys, id: nat, between: seq<Action>, who: Identity)
    requires Inv(s, false)
    requires id in s.warms && s.warms[id].stage.Loaded? && MayInstall(s.index, s.warms[id].scanEpoch)
    requires Others(between, id) && forall a | a in between :: !a.RemoveIndex?
    ensures var u := Written(s, id, between);
            Validates(u.current, who, |u.db.rows|, u.db.epoch) ==> u.db.rows == s.warms[id].stage.rows
  {
    var u := Written(s, id, between);
    DoKeepsInv(s, CheckFence(id), false);
    BenignWithoutRemoval(Do(s, CheckFence(id)), between);
    ExecKeepsInv(Do(s, CheckFence(id)), between, false);
    DoKeepsInv(Exec(Do(s, CheckFence(id)), between), PersistFile(id, true), false);
    SnapshotOvertakenIff(s, id, between);
    if Validates(u.current, who, |u.db.rows|, u.db.epoch) { ValidatedIsDatabase(u, who); }
  }

  lemma EverNext(s: Sys, a: Action, rest: seq<Action>, e: Event)
    ensures Ever(s, [a] + rest, e) <==> Happens(s, a, e) || Ever(Do(s, a), rest, e)
  {
    assert ([a] + rest)[1..] == rest;
  }

  /** The run has only begun. */
  lemma BegunEvents(s: Sys, identity: Identity)
    requires s.writer.Idle?
    ensures Ever(s, [BeginRun(Full, identity)], Update)
    ensures !Ever(s, [BeginRun(Full, identity)], Bump) && !Ever(s, [BeginRun(Full, identity)], Loss)
  {
    var a := BeginRun(Full, identity);
    assert [a] == [a] + [];
    EverNext(s, a, [], Update);
    EverNext(s, a, [], Bump);
    EverNext(s, a, [], Loss);
  }

  /** The run has bumped the epoch. */
  lemma BumpedEvents(s: Sys, identity: Identity)
    requires s.writer.Idle?
    ensures Ever(s, [BeginRun(Full, identity), ClearMarker, BumpEpoch], Update)
    ensures Ever(s, [BeginRun(Full, identity), ClearMarker, BumpEpoch], Bump)
  {
    var a := BeginRun(Full, identity);
    var s1 := Do(s, a);
    assert s1.writer == Run(Full, identity, Fenced, map[]);
    var s2 := Do(s1, ClearMarker);
    assert s2.writer == Run(Full, identity, MarkerCleared, map[]);
    assert [a, ClearMarker, BumpEpoch] == [a] + ([ClearMarker] + ([BumpEpoch] + []));
    EverNext(s2, BumpEpoch, [], Bump);
    EverNext(s1, ClearMarker, [BumpEpoch], Bump);
    EverNext(s, a, [ClearMarker, BumpEpoch], Bump);
    EverNext(s, a, [ClearMarker, BumpEpoch], Update);
  }
}
