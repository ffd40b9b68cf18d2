/**
 The debounced single-flight cache recompute of one repository: `note_index_completion` and the
 detached task `run_debounced_recompute`. Every block that runs under the slot lock is one
 atomic step; the quiet check and the block that marks the slot as recomputing are two steps.
 Time is a logical clock.
 */
module Recompute {
  import opened Wrappers

  /** Debounce window in milliseconds. */
  const DEBOUNCE: nat := 4000

  datatype Slot = Slot(lastCompletion: Option<nat>, scheduled: bool, recomputing: bool, rearm: bool)

  /** Completion: the new slot, and whether the caller must spawn a task. */
  function Note(s: Slot, now: nat): (Slot, bool)
  {
    var stamped := s.(lastCompletion := Some(now));
    if s.scheduled then (if s.recomputing then stamped.(rearm := true) else stamped, false)
    else (stamped.(scheduled := true), true)
  }

  /** How long is left to sleep: 0 once the repository has been quiet for the whole
      window. A clock that reads earlier than the stamp counts as no time elapsed. */
  function Remaining(s: Slot, now: nat): (wait: nat)
    ensures wait <= DEBOUNCE
  {
    if s.lastCompletion.None? then 0
    else
      var elapsed := if now < s.lastCompletion.value then 0 else now - s.lastCompletion.value;
      if elapsed > DEBOUNCE then 0 else DEBOUNCE - elapsed
  }

  function MarkRecomputing(s: Slot): Slot
  {
    s.(recomputing := true, rearm := false)
  }

  /** After a pass: go round once more, or retire. */
  function Decide(s: Slot): (Slot, bool)
  {
    if s.rearm then (s.(recomputing := false, rearm := false), true)
    else (s.(recomputing := false, scheduled := false), false)
  }

  /** The slot as the locked blocks update it. */
  class RecomputeSlot {
    var lastCompletion: Option<nat>
    var scheduled: bool
    var recomputing: bool
    var rearm: bool

    function View(): Slot
      reads this
    {
      Slot(lastCompletion, scheduled, recomputing, rearm)
    }

    constructor ()
      ensures View() == Slot(None, false, false, false)
    {
      lastCompletion, scheduled, recomputing, rearm := None, false, false, false;
    }

    method NoteIndexCompletion(now: nat) returns (spawn: bool)
      modifies this
      ensures (View(), spawn) == Note(old(View()), now)
    {
      lastCompletion := Some(now);
      if scheduled {
        if recomputing {
          rearm := true;
        }
        return false;
      }
      scheduled := true;
      return true;
    }

    method QuietWait(now: nat) returns (wait: nat)
      ensures wait == Remaining(View(), now)
    {
      if lastCompletion.None? {
        return 0;
      }
      var elapsed: nat := 0;
      if lastCompletion.value <= now {
        elapsed := now - lastCompletion.value;
      }
      wait := if elapsed > DEBOUNCE then 0 else DEBOUNCE - elapsed;
    }

    method Mark()
      modifies this
      ensures View() == MarkRecomputing(old(View()))
    {
      recomputing := true;
      rearm := false;
    }

    method DecideRearm() returns (again: bool)
      modifies this
      ensures (View(), again) == Decide(old(View()))
    {
      recomputing := false;
      if rearm {
        rearm := false;
        return true;
      }
      scheduled := false;
      return false;
    }
  }

  // ── The scheduler as a transition system ──────────────────────────────────

  /** Where a task is: about to check for quiet, asleep, past a successful quiet check, or
      running the aggregation. */
  datatype Place = Checking | Asleep(until: nat) | Quiet | Recomputing

  /**
   `completions` counts index completions, `covered` how many of them had happened when the
   last pass started (a pass reads everything committed before it started), `passes` the passes
   started.
   */
  datatype Sys = Sys(slot: Slot, now: nat, tasks: map<nat, Place>, nextTask: nat,
                     completions: nat, covered: nat, passes: nat)

  const INIT := Sys(Slot(None, false, false, false), 0, map[], 0, 0, 0, 0)

  datatype Action =
    | Complete
    | Check(task: nat)
    | Wake(task: nat)
    | Mark(task: nat)
    | EndPass(task: nat)
    | Tick(delta: nat)

  function Do(s: Sys, a: Action): Sys
  {
    match a
    case Complete =>
      var (slot, spawn) := Note(s.slot, s.now);
      var noted := s.(slot := slot, completions := s.completions + 1);
      if spawn then noted.(tasks := s.tasks[s.nextTask := Checking], nextTask := s.nextTask + 1) else noted
    case Check(t) =>
      if t !in s.tasks || !s.tasks[t].Checking? then s
      else
        var wait := Remaining(s.slot, s.now);
        s.(tasks := s.tasks[t := if wait == 0 then Quiet else Asleep(s.now + wait)])
    case Wake(t) =>
      if t !in s.tasks || !s.tasks[t].Asleep? || s.now < s.tasks[t].until then s
      else s.(tasks := s.tasks[t := Checking])
    case Mark(t) =>
      if t !in s.tasks || !s.tasks[t].Quiet? then s
      else s.(slot := MarkRecomputing(s.slot), tasks := s.tasks[t := Recomputing],
              covered := s.completions, passes := s.passes + 1)
    case EndPass(t) =>
      if t !in s.tasks || !s.tasks[t].Recomputing? then s
      else
        var (slot, again) := Decide(s.slot);
        s.(slot := slot, tasks := if again then s.tasks[t := Checking] else s.tasks - {t})
    case Tick(d) => s.(now := s.now + d)
  }

  function Exec(s: Sys, actions: seq<Action>): Sys
    decreases |actions|
  {
    if actions == [] then s else Exec(Do(s, actions[0]), actions[1..])
  }

  /** Passes that are already owed: one by a task that has not started its pass, one by a re-arm. */
  function Owed(s: Slot): nat
  {
    (if s.scheduled && !s.recomputing then 1 else 0) + (if s.rearm then 1 else 0)
  }

  ghost predicate Inv(s: Sys)
  {
    && (forall t, u | t in s.tasks && u in s.tasks :: t == u)
    && (forall t | t in s.tasks :: t < s.nextTask && (s.tasks[t].Recomputing? <==> s.slot.recomputing))
    && (forall t | t in s.tasks && s.tasks[t].Asleep? :: s.tasks[t].until <= s.now + DEBOUNCE)
    && (s.slot.scheduled <==> s.tasks != map[])
    && (s.slot.recomputing ==> s.slot.scheduled)
    && (s.slot.rearm <==> s.slot.recomputing && s.covered < s.completions)
    && s.covered <= s.completions
    && (!s.slot.scheduled ==> s.covered == s.completions)
    && s.passes + Owed(s.slot) <= s.completions
    && (s.slot.lastCompletion.Some? ==> s.slot.lastCompletion.value <= s.now)
  }

  lemma OnlyTask(s: Sys, t: nat)
    requires Inv(s) && t in s.tasks
    ensures s.tasks == map[t := s.tasks[t]]
  {}

  lemma DoKeepsInv(s: Sys, a: Action)
    requires Inv(s)
    ensures Inv(Do(s, a))
  {
    match a
    case Complete =>
      if !s.slot.scheduled {
        assert s.nextTask in Do(s, a).tasks;
      }
    case Tick(_) =>
    case _ =>
      if a.task in s.tasks {
        OnlyTask(s, a.task);
        assert a.task in s.tasks[a.task := Checking];
      }
  }

  lemma {:induction false} ExecKeepsInv(s: Sys, actions: seq<Action>)
    requires Inv(s)
    ensures Inv(Exec(s, actions))
    decreases |actions|
  {
    if actions != [] {
      DoKeepsInv(s, actions[0]);
      ExecKeepsInv(Do(s, actions[0]), actions[1..]);
    }
  }

  /** No completion is lost: one newer than the start of the last pass has a task, and if that
      task is inside its pass it is re-armed. With no task, the last pass covers everything. */
  lemma NoLostCompletion(actions: seq<Action>)
    ensures var s := Exec(INIT, actions);
            && (s.covered < s.completions ==>
                  s.slot.scheduled && (s.slot.recomputing ==> s.slot.rearm))
            && (s.tasks == map[] ==> s.covered == s.completions)
  {
    ExecKeepsInv(INIT, actions);
  }

  /** Single flight: one live task when the slot says scheduled, none otherwise; and there are
      never more passes than completions. */
  lemma SingleFlight(actions: seq<Action>)
    ensures var s := Exec(INIT, actions);
            && |s.tasks| == (if s.slot.scheduled then 1 else 0)
            && s.passes <= s.completions
  {
    var s := Exec(INIT, actions);
    ExecKeepsInv(INIT, actions);
    if s.slot.scheduled {
      var t :| t in s.tasks;
      OnlyTask(s, t);
    }
  }

  /** The completions of a run, and the passes started in it. */
  function Completions(actions: seq<Action>): nat
  {
    if actions == [] then 0 else (if actions[0].Complete? then 1 else 0) + Completions(actions[1..])
  }

  function Passes(s: Sys, actions: seq<Action>): nat
    decreases |actions|
  {
    if actions == [] then 0
    else (if actions[0].Mark? && Moves(s, actions[0]) then 1 else 0) + Passes(Do(s, actions[0]), actions[1..])
  }

  lemma {:induction false} CountsOverRun(s: Sys, actions: seq<Action>)
    ensures Exec(s, actions).completions == s.completions + Completions(actions)
    ensures Exec(s, actions).passes == s.passes + Passes(s, actions)
    decreases |actions|
  {
    if actions != [] { CountsOverRun(Do(s, actions[0]), actions[1..]); }
  }

  /** A run starts no more passes than it has completions. */
  lemma PassesAtMost(actions: seq<Action>)
    ensures Passes(INIT, actions) <= Completions(actions)
  {
    ExecKeepsInv(INIT, actions);
    CountsOverRun(INIT, actions);
  }

  // ── Termination once completions stop ─────────────────────────────────────

  /** Steps left before retirement when no further completion arrives. */
  ghost function StepsLeft(s: Sys): nat
    requires Inv(s)
  {
    if s.tasks == map[] then 0
    else
      var t :| t in s.tasks;
      match s.tasks[t]
      case Recomputing => if s.slot.rearm then 6 else 1
      case Quiet => 2
      case Checking => if Remaining(s.slot, s.now) == 0 then 3 else 5
      case Asleep(until) =>
        if s.slot.lastCompletion.None? || until >= s.slot.lastCompletion.value + DEBOUNCE then 4 else 6
  }

  /** The action moves a task. */
  predicate Moves(s: Sys, a: Action)
  {
    match a
    case Check(t) => t in s.tasks && s.tasks[t].Checking?
    case Wake(t) => t in s.tasks && s.tasks[t].Asleep? && s.tasks[t].until <= s.now
    case Mark(t) => t in s.tasks && s.tasks[t].Quiet?
    case EndPass(t) => t in s.tasks && s.tasks[t].Recomputing?
    case _ => false
  }

  lemma StepsLeftDecrease(s: Sys, a: Action)
    requires Inv(s) && !a.Complete?
    ensures Inv(Do(s, a))
    ensures StepsLeft(Do(s, a)) + (if Moves(s, a) then 1 else 0) <= StepsLeft(s)
  {
    DoKeepsInv(s, a);
    if s.tasks != map[] {
      var t :| t in s.tasks;
      OnlyTask(s, t);
    }
  }

  function Moved(s: Sys, actions: seq<Action>): nat
    decreases |actions|
  {
    if actions == [] then 0
    else (if Moves(s, actions[0]) then 1 else 0) + Moved(Do(s, actions[0]), actions[1..])
  }

  lemma {:induction false} MovesAreBounded(s: Sys, actions: seq<Action>)
    requires Inv(s) && forall a | a in actions :: !a.Complete?
    ensures Inv(Exec(s, actions))
    ensures Moved(s, actions) + StepsLeft(Exec(s, actions)) <= StepsLeft(s) <= 6
    decreases |actions|
  {
    if actions != [] {
      StepsLeftDecrease(s, actions[0]);
      MovesAreBounded(Do(s, actions[0]), actions[1..]);
    }
  }

  /** Time that passes over a sequence of actions. */
  function Ticks(actions: seq<Action>): nat
  {
    if actions == [] then 0 else (if actions[0].Tick? then actions[0].delta else 0) + Ticks(actions[1..])
  }

  /** What a task is let do in whatever order: every step it may be waiting to take. */
  ghost predicate LetsRun(live: set<nat>, actions: seq<Action>)
  {
    forall t | t in live :: Check(t) in actions && Wake(t) in actions && Mark(t) in actions && EndPass(t) in actions
  }

  ghost predicate RoundAt(live: set<nat>, round: seq<Action>, k: nat)
  {
    k <= |round| && Ticks(round[..k]) >= DEBOUNCE && LetsRun(live, round[k..])
  }

  /** A quiet stretch in which the window passes and after that the live task is let run. */
  ghost predicate IsRound(live: set<nat>, round: seq<Action>)
  {
    (forall a | a in round :: !a.Complete?) && exists k: nat :: RoundAt(live, round, k)
  }

  lemma {:induction false} MovedConcat(s: Sys, a: seq<Action>, b: seq<Action>)
    ensures Exec(s, a + b) == Exec(Exec(s, a), b)
    ensures Moved(s, a + b) == Moved(s, a) + Moved(Exec(s, a), b)
    decreases |a|
  {
    if a == [] {
      assert a + b == b;
    } else {
      assert (a + b)[1..] == a[1..] + b;
      MovedConcat(Do(s, a[0]), a[1..], b);
    }
  }

  lemma {:induction false} QuietStart(s: Sys, actions: seq<Action>)
    requires forall a | a in actions :: !a.Complete?
    ensures Exec(s, actions).tasks.Keys <= s.tasks.Keys
    ensures Moved(s, actions) == 0 ==> Exec(s, actions).tasks == s.tasks && Exec(s, actions).now == s.now + Ticks(actions)
    decreases |actions|
  {
    if actions != [] {
      assert !actions[0].Complete?;
      QuietStart(Do(s, actions[0]), actions[1..]);
    }
  }

  /** An enabled step that is on the list is taken, unless another one comes first. */
  lemma {:induction false} MustMove(s: Sys, actions: seq<Action>, a: Action)
    requires (forall b | b in actions :: !b.Complete?) && a in actions && Moves(s, a)
    ensures Moved(s, actions) >= 1
    decreases |actions|
  {
    if !Moves(s, actions[0]) {
      assert !actions[0].Complete?;
      MustMove(Do(s, actions[0]), actions[1..], a);
    }
  }

  /** The step a task waits for. */
  function NextStep(s: Sys, t: nat): Action
    requires t in s.tasks
  {
    match s.tasks[t]
    case Checking => Check(t)
    case Asleep(_) => Wake(t)
    case Quiet => Mark(t)
    case Recomputing => EndPass(t)
  }

  /** Once the window has passed, nothing keeps the task from its next step. */
  lemma WaitedMoves(s: Sys, first: seq<Action>, rest: seq<Action>)
    requires Inv(s) && s.tasks != map[] && LetsRun(s.tasks.Keys, rest) && Ticks(first) >= DEBOUNCE
    requires forall a | a in first + rest :: !a.Complete?
    ensures Moved(s, first + rest) >= 1
  {
    var t :| t in s.tasks;
    MovedConcat(s, first, rest);
    QuietStart(s, first);
    if Moved(s, first) == 0 {
      MustMove(Exec(s, first), rest, NextStep(s, t));
    }
  }

  lemma RoundMoves(s: Sys, round: seq<Action>)
    requires Inv(s) && s.tasks != map[] && IsRound(s.tasks.Keys, round)
    ensures Moved(s, round) >= 1
  {
    var k: nat :| RoundAt(s.tasks.Keys, round, k);
    assert round == round[..k] + round[k..];
    WaitedMoves(s, round[..k], round[k..]);
  }

  function Concat(rounds: seq<seq<Action>>): seq<Action>
  {
    if rounds == [] then [] else rounds[0] + Concat(rounds[1..])
  }

  lemma {:induction false} RoundsLower(s: Sys, live: set<nat>, rounds: seq<seq<Action>>)
    requires Inv(s) && s.tasks.Keys <= live && forall r | r in rounds :: IsRound(live, r)
    ensures var t := Exec(s, Concat(rounds));
            Inv(t) && (StepsLeft(t) == 0 || StepsLeft(t) + |rounds| <= StepsLeft(s))
    decreases |rounds|
  {
    if rounds != [] {
      var r, rest := rounds[0], rounds[1..];
      var u := Exec(s, r);
      assert IsRound(live, r);
      MovesAreBounded(s, r);
      QuietStart(s, r);
      if s.tasks != map[] {
        SmallerRound(live, s.tasks.Keys, r);
        RoundMoves(s, r);
      }
      RoundsLower(u, live, rest);
      MovedConcat(s, r, Concat(rest));
    }
  }

  lemma SmallerRound(live: set<nat>, fewer: set<nat>, round: seq<Action>)
    requires IsRound(live, round) && fewer <= live
    ensures IsRound(fewer, round)
  {
    var k: nat :| RoundAt(live, round, k);
    assert RoundAt(fewer, round, k);
  }

  /** Once completions stop, six rounds of any schedule bring the task to its end, from every state and
      whatever else the schedule does in between. */
  lemma Retires(s: Sys, rounds: seq<seq<Action>>)
    requires Inv(s) && |rounds| >= 6 && forall r | r in rounds :: IsRound(s.tasks.Keys, r)
    ensures var t := Exec(s, Concat(rounds));
            t.tasks == map[] && !t.slot.scheduled && t.covered == t.completions
  {
    RoundsLower(s, s.tasks.Keys, rounds);
    MovesAreBounded(s, []);
  }

  /** In every run, once completions stop, every schedule of six rounds leaves the scheduler idle with
      every completion covered. */
  lemma AlwaysRetires(before: seq<Action>, rounds: seq<seq<Action>>)
    requires |rounds| >= 6 && forall r | r in rounds :: IsRound(Exec(INIT, before).tasks.Keys, r)
    ensures var t := Exec(Exec(INIT, before), Concat(rounds));
            t.tasks == map[] && !t.slot.scheduled && t.covered == t.completions
  {
    ExecKeepsInv(INIT, before);
    Retires(Exec(INIT, before), rounds);
  }

  /** And a live task is never stuck: if time passes, it can take a step. */
  lemma TaskCanMove(s: Sys) returns (wait: nat, a: Action)
    requires Inv(s) && s.tasks != map[]
    ensures Moves(Do(s, Tick(wait)), a)
  {
    var t :| t in s.tasks;
    wait := 0;
    match s.tasks[t]
    case Checking => a := Check(t);
    case Quiet => a := Mark(t);
    case Recomputing => a := EndPass(t);
    case Asleep(until) =>
      a := Wake(t);
      wait := if until <= s.now then 0 else until - s.now;
  }

  /** The time and the steps that bring the task of a state to rest. */
  lemma {:induction false} ComesToRest(s: Sys) returns (quiet: seq<Action>)
    requires Inv(s)
    ensures |quiet| <= 2 * StepsLeft(s) && forall a | a in quiet :: a.Tick? || a.Check? || a.Wake? || a.Mark? || a.EndPass?
    ensures var t := Exec(s, quiet);
            t.tasks == map[] && !t.slot.scheduled && t.covered == t.completions && t.completions == s.completions
    decreases StepsLeft(s)
  {
    quiet := [];
    if s.tasks != map[] {
      var wait, a := TaskCanMove(s);
      var ticked := Do(s, Tick(wait));
      StepsLeftDecrease(s, Tick(wait));
      StepsLeftDecrease(ticked, a);
      var rest := ComesToRest(Do(ticked, a));
      quiet := [Tick(wait), a] + rest;
      assert quiet[1..] == [a] + rest && quiet[1..][1..] == rest;
    }
  }

  // ── The debounce itself ───────────────────────────────────────────────────

  /** Time since the last completion of a sequence, if it has one. */
  function SinceCompletion(actions: seq<Action>): Option<nat>
  {
    if actions == [] then None
    else if SinceCompletion(actions[1..]).Some? then SinceCompletion(actions[1..])
    else if actions[0].Complete? then Some(Ticks(actions[1..]))
    else None
  }

  /** The clock and the stamp of a run are those of its actions. */
  lemma {:induction false} StampsOverRun(s: Sys, actions: seq<Action>)
    ensures var t := Exec(s, actions);
            && t.now == s.now + Ticks(actions)
            && (SinceCompletion(actions).None? ==> t.slot.lastCompletion == s.slot.lastCompletion)
            && (SinceCompletion(actions).Some? ==>
                  t.slot.lastCompletion.Some? && t.now == t.slot.lastCompletion.value + SinceCompletion(actions).value)
    decreases |actions|
  {
    if actions != [] { StampsOverRun(Do(s, actions[0]), actions[1..]); }
  }

  /** In every run the quiet check passes exactly if no completion came within the last window, whatever
      the task was doing when it came. Otherwise the task sleeps until the window after the last one is
      over. */
  lemma QuietCheckIff(actions: seq<Action>, t: nat)
    requires t in Exec(INIT, actions).tasks && Exec(INIT, actions).tasks[t].Checking?
    ensures var s, since := Exec(INIT, actions), SinceCompletion(actions);
            Do(s, Check(t)).tasks[t] ==
            if since.None? || since.value >= DEBOUNCE then Quiet else Asleep(s.now + DEBOUNCE - since.value)
  {
    StampsOverRun(INIT, actions);
  }

  /** A task past its quiet check stays there until it marks, whatever happens meanwhile. */
  lemma QuietStep(s: Sys, t: nat, a: Action)
    requires Inv(s) && t in s.tasks && s.tasks[t].Quiet? && a != Mark(t)
    ensures Inv(Do(s, a)) && t in Do(s, a).tasks && Do(s, a).tasks[t].Quiet?
    ensures Do(s, a).now == s.now + Ticks([a])
    ensures Do(s, a).slot.lastCompletion == if a.Complete? then Some(s.now) else s.slot.lastCompletion
  {
    DoKeepsInv(s, a);
    OnlyTask(s, t);
  }

  lemma {:induction false} GapStamps(s: Sys, t: nat, gap: seq<Action>)
    requires Inv(s) && t in s.tasks && s.tasks[t].Quiet? && Mark(t) !in gap
    ensures var u := Exec(s, gap);
            && Inv(u) && t in u.tasks && u.tasks[t].Quiet? && u.now == s.now + Ticks(gap)
            && (SinceCompletion(gap).None? ==> u.slot.lastCompletion == s.slot.lastCompletion)
            && (SinceCompletion(gap).Some? ==>
                  u.slot.lastCompletion.Some? && u.now == u.slot.lastCompletion.value + SinceCompletion(gap).value)
    decreases |gap|
  {
    if gap != [] {
      QuietStep(s, t, gap[0]);
      GapStamps(Do(s, gap[0]), t, gap[1..]);
    }
  }

  /** The quiet check and the mark are separate locked blocks. Whatever comes in between, the pass
      starts with the window not yet over exactly if a completion arrived there less than a whole
      window before the mark. The pass covers that completion all the same, and is not re-armed. */
  lemma CompletionInTheGap(s: Sys, t: nat, gap: seq<Action>)
    requires Inv(s) && t in s.tasks && s.tasks[t].Checking? && Remaining(s.slot, s.now) == 0
    requires Mark(t) !in gap
    ensures var since, u := SinceCompletion(gap), Do(Exec(Do(s, Check(t)), gap), Mark(t));
            && t in u.tasks && u.tasks[t].Recomputing? && !u.slot.rearm && u.covered == u.completions
            && (Remaining(u.slot, u.now) > 0 <==> since.Some? && since.value < DEBOUNCE)
  {
    DoKeepsInv(s, Check(t));
    GapStamps(Do(s, Check(t)), t, gap);
  }

  /** So the rule that a pass waits for quiet is broken by a run as short as this one. */
  lemma PassWithoutQuiet()
    ensures var s := Do(Do(INIT, Complete), Tick(DEBOUNCE));
            && 0 in s.tasks && s.tasks[0].Checking? && Remaining(s.slot, s.now) == 0
            && var u := Do(Do(Do(s, Check(0)), Complete), Mark(0));
               u.tasks[0].Recomputing? && Remaining(u.slot, u.now) == DEBOUNCE
  {
    var s := Do(Do(INIT, Complete), Tick(DEBOUNCE));
    assert s.tasks == map[0 := Checking];
    assert Do(s, Check(0)).tasks == map[0 := Quiet];
  }
}
