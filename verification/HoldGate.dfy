/**
 * The key gate: the engine asks for the user's keys to be held, the hook decides keystroke by
 * keystroke, and the two share nothing but a flag and a deadline.
 */
module HoldGate {
  import opened Options

  const MAX_HOLD_MS := 1200

  // ---- Each side running alone ----

  class HoldState {
    var want: bool
    var deadlineMs: nat

    constructor ()
      ensures !want && deadlineMs == 0
    {
      want, deadlineMs := false, 0;
    }

    method Hold(now: nat)
      modifies this
      ensures want && deadlineMs == now + MAX_HOLD_MS
    {
      HoldUntil(now + MAX_HOLD_MS);
    }

    method HoldUntil(deadline: nat)
      modifies this
      ensures want && deadlineMs == deadline
    {
      deadlineMs := deadline;
      want := true;
    }

    method Release()
      modifies this
      ensures !want && deadlineMs == old(deadlineMs)
    {
      want := false;
    }

    /** The decision: (want, swallowed) afterwards is that of `Decision`, and the deadline stands. */
    method Swallow(ours: bool, now: nat) returns (swallowed: bool)
      modifies this
      ensures (want, swallowed) == Decision(old(want), deadlineMs, ours, now)
      ensures deadlineMs == old(deadlineMs)
    {
      if ours {
        return false;
      }
      if !want {
        return false;
      }
      if now >= deadlineMs {
        want := false;
        return false;
      }
      return true;
    }
  }

  /** What the flag becomes and whether the keystroke is swallowed, nothing else touching the gate. */
  function Decision(want: bool, deadline: nat, ours: bool, now: nat): (bool, bool) {
    if ours then (want, false) else (want && now < deadline, want && now < deadline)
  }

  // ---- Both sides at once, one load or store a step ----

  /** Where the hook is within `Swallow`. */
  datatype Hook =
    | Idle
    | Asked(now: nat) // about to load the flag
    | SawWant(now: nat) // about to load the deadline
    | Clearing(now: nat) // saw the deadline pass, about to store the flag

  /** Where the engine is within `Hold`. */
  datatype Engine =
    | Resting
    | Begun(deadline: nat) // read the clock, about to store the deadline
    | Stored(deadline: nat) // about to store the flag

  /** `begun` is the clock reading of the latest hold begun, if there was one. */
  datatype Gate = Gate(want: bool, deadline: nat, hook: Hook, engine: Engine, begun: Option<nat>)

  datatype Step =
    | BeginHold(clock: nat)
    | StoreDeadline
    | StoreWant
    | Release
    | Ask(ours: bool, now: nat)
    | LoadWant
    | LoadDeadline
    | Clear

  const FRESH := Gate(false, 0, Idle, Resting, None)

  predicate Enabled(g: Gate, step: Step) {
    match step
    case BeginHold(clock) => g.engine.Resting? && (g.begun.Some? ==> g.begun.value <= clock)
    case StoreDeadline => g.engine.Begun?
    case StoreWant => g.engine.Stored?
    case Release => g.engine.Resting?
    case Ask(_, _) => g.hook.Idle?
    case LoadWant => g.hook.Asked?
    case LoadDeadline => g.hook.SawWant?
    case Clear => g.hook.Clearing?
  }

  function Next(g: Gate, step: Step): Gate
    requires Enabled(g, step)
  {
    match step
    case BeginHold(clock) => g.(engine := Begun(clock + MAX_HOLD_MS), begun := Some(clock))
    case StoreDeadline => g.(deadline := g.engine.deadline, engine := Stored(g.engine.deadline))
    case StoreWant => g.(want := true, engine := Resting)
    case Release => g.(want := false)
    case Ask(ours, now) => if ours then g else g.(hook := Asked(now))
    case LoadWant => g.(hook := if g.want then SawWant(g.hook.now) else Idle)
    case LoadDeadline => g.(hook := if g.hook.now >= g.deadline then Clearing(g.hook.now) else Idle)
    case Clear => g.(want := false, hook := Idle)
  }

  /** The step at which a keystroke is kept from the application. */
  predicate Swallows(g: Gate, step: Step) {
    step.LoadDeadline? && g.hook.SawWant? && g.hook.now < g.deadline
  }

  /** The gate after a run, if every step of it could be taken. */
  function Reach(steps: seq<Step>): Option<Gate> {
    if steps == [] then Some(FRESH)
    else
      match Reach(steps[..|steps| - 1])
      case None => None
      case Some(g) => if Enabled(g, steps[|steps| - 1]) then Some(Next(g, steps[|steps| - 1])) else None
  }

  /** No deadline in memory outlasts the latest hold begun, and one on its way there is that hold's. */
  ghost predicate Bounded(g: Gate) {
    var latest := match g.begun case Some(t) => t + MAX_HOLD_MS case None => 0;
    && g.deadline <= latest
    && (g.engine.Begun? || g.engine.Stored? ==> g.engine.deadline == latest)
  }

  lemma {:induction false} RunsAreBounded(steps: seq<Step>)
    requires Reach(steps).Some?
    ensures Bounded(Reach(steps).value)
  {
    if steps != [] {
      RunsAreBounded(steps[..|steps| - 1]);
    }
  }

  /** However the two sides interleave, a keystroke stamped 1200 ms or more after the latest hold began passes. */
  lemma NeverSwallowsLate(steps: seq<Step>, step: Step)
    requires Reach(steps).Some? && Swallows(Reach(steps).value, step)
    ensures var g := Reach(steps).value;
            g.begun.Some? && g.hook.now < g.begun.value + MAX_HOLD_MS
  {
    RunsAreBounded(steps);
  }

  /** The hook last asked about a keystroke not our own at step `i`, and it was stamped `now`. */
  ghost predicate LastAsked(steps: seq<Step>, i: nat, now: nat) {
    i < |steps| && steps[i] == Ask(false, now)
    && forall k :: i < k < |steps| && steps[k].Ask? ==> steps[k].ours
  }

  /** In every interleaving the keystroke being decided is the last one asked about that is not our own. */
  lemma {:induction false} OursAreNeverDecided(steps: seq<Step>)
    requires Reach(steps).Some?
    ensures var hook := Reach(steps).value.hook;
            !hook.Idle? ==> exists i: nat :: LastAsked(steps, i, hook.now)
  {
    if steps != [] {
      var init, last := steps[..|steps| - 1], |steps| - 1;
      var hook := Reach(steps).value.hook;
      OursAreNeverDecided(init);
      if steps[last].Ask? && !steps[last].ours {
        assert LastAsked(steps, last, hook.now);
      } else if !hook.Idle? {
        var i: nat :| LastAsked(init, i, hook.now);
        assert forall k :: 0 <= k < last ==> steps[k] == init[k];
        assert LastAsked(steps, i, hook.now);
      }
    }
  }

  // ---- The steps of one side taken alone ----

  /** The hook's own next step, while a decision is under way. */
  function HookStep(g: Gate): Step
    requires !g.hook.Idle?
    ensures Enabled(g, HookStep(g))
  {
    match g.hook
    case Asked(_) => LoadWant
    case SawWant(_) => LoadDeadline
    case Clearing(_) => Clear
  }

  /** The hook runs until its decision is made: the gate then, and whether the keystroke was swallowed. */
  function Finish(g: Gate): (Gate, bool)
    decreases match g.hook case Asked(_) => 3 case SawWant(_) => 2 case Clearing(_) => 1 case Idle => 0
  {
    if g.hook.Idle? then (g, false)
    else
      var step := HookStep(g);
      var (after, swallowed) := Finish(Next(g, step));
      (after, swallowed || Swallows(g, step))
  }

  lemma FinishStep(g: Gate)
    ensures g.hook.Idle? ==> Finish(g) == (g, false)
    ensures !g.hook.Idle? ==>
              var next := Finish(Next(g, HookStep(g))); Finish(g) == (next.0, next.1 || Swallows(g, HookStep(g)))
  {
  }

  /** Step by step or at once, an undisturbed decision is the same, and an expired hold is gone after it. */
  lemma UndisturbedDecision(g: Gate, ours: bool, now: nat)
    requires g.hook.Idle?
    ensures var (after, swallowed) := Finish(Next(g, Ask(ours, now)));
            var (want, decided) := Decision(g.want, g.deadline, ours, now);
            && after == g.(want := want)
            && swallowed == decided
            && (!ours && now >= g.deadline ==> !after.want)
  {
    if !ours {
      var asked := Next(g, Ask(ours, now));
      var loaded := Next(asked, LoadWant);
      FinishStep(asked);
      FinishStep(loaded);
      if g.want {
        var compared := Next(loaded, LoadDeadline);
        FinishStep(compared);
        if compared.hook.Clearing? {
          FinishStep(Next(compared, Clear));
        }
      }
    }
  }

  /** Once the engine has let go, no keystroke is held back until it takes hold again. */
  lemma ReleasedLetsPass(g: Gate, ours: bool, now: nat)
    requires Enabled(g, Release) && g.hook.Idle?
    ensures !Finish(Next(Next(g, Release), Ask(ours, now))).1
  {
    UndisturbedDecision(Next(g, Release), ours, now);
  }

  // ---- A hold can be lost, and exactly when ----

  /** The decision under way has seen, or will see, a deadline its keystroke is past. */
  predicate WillClear(g: Gate) {
    match g.hook
    case Idle => false
    case Asked(now) => g.want && now >= g.deadline
    case SawWant(now) => now >= g.deadline
    case Clearing(_) => true
  }

  /**
   * Once a hold is in place and the engine rests, the next keystroke before its deadline is swallowed
   * unless the decision already under way clears the flag.
   */
  lemma HoldSurvivesUnlessClearing(g: Gate, now: nat)
    requires g.want && g.engine.Resting? && now < g.deadline
    ensures var settled := Finish(g).0;
            && settled.hook.Idle?
            && (Finish(Next(settled, Ask(false, now))).1 <==> !WillClear(g))
  {
    FinishClears(g);
    UndisturbedDecision(Finish(g).0, false, now);
  }

  lemma {:induction false} FinishClears(g: Gate)
    requires g.want
    ensures Finish(g).0 == g.(hook := Idle, want := !WillClear(g))
    decreases match g.hook case Asked(_) => 3 case SawWant(_) => 2 case Clearing(_) => 1 case Idle => 0
  {
    hide Finish;
    FinishStep(g);
    match g.hook
    case Idle =>
    case Asked(_) =>
      FinishClears(Next(g, LoadWant));
    case SawWant(_) =>
      FinishClears(Next(g, LoadDeadline));
    case Clearing(_) =>
      FinishStep(Next(g, Clear));
  }

  /** Such a loss does happen: a hold stored between the hook's last load and its clearing store is dropped. */
  lemma FreshHoldLost() returns (steps: seq<Step>)
    ensures Reach(steps).Some?
    ensures var g := Reach(steps).value;
            g.want && g.engine.Resting? && g.begun == Some(1200) && WillClear(g) && 1300 < g.deadline
  {
    var first := [BeginHold(0), StoreDeadline, StoreWant, Ask(false, 1200), LoadWant, LoadDeadline];
    steps := first + [BeginHold(1200), StoreDeadline, StoreWant];
    var g := FRESH;
    var i := 0;
    while i < |steps|
      invariant 0 <= i <= |steps|
      invariant Reach(steps[..i]) == Some(g)
      invariant i == 0 ==> g == FRESH
      invariant i == 1 ==> g == Gate(false, 0, Idle, Begun(1200), Some(0))
      invariant i == 2 ==> g == Gate(false, 1200, Idle, Stored(1200), Some(0))
      invariant i == 3 ==> g == Gate(true, 1200, Idle, Resting, Some(0))
      invariant i == 4 ==> g == Gate(true, 1200, Asked(1200), Resting, Some(0))
      invariant i == 5 ==> g == Gate(true, 1200, SawWant(1200), Resting, Some(0))
      invariant i == 6 ==> g == Gate(true, 1200, Clearing(1200), Resting, Some(0))
      invariant i == 7 ==> g == Gate(true, 1200, Clearing(1200), Begun(2400), Some(1200))
      invariant i == 8 ==> g == Gate(true, 2400, Clearing(1200), Stored(2400), Some(1200))
      invariant i == 9 ==> g == Gate(true, 2400, Clearing(1200), Resting, Some(1200))
    {
      assert steps[..i + 1][..i] == steps[..i];
      g := Next(g, steps[i]);
      i := i + 1;
    }
    assert steps[..9] == steps;
  }

  // ---- Which schedules of the engine leave a hold to be lost ----

  predicate OfEngine(step: Step) {
    step.BeginHold? || step.StoreDeadline? || step.StoreWant? || step.Release?
  }

  predicate AllOfEngine(steps: seq<Step>) {
    forall i :: 0 <= i < |steps| ==> OfEngine(steps[i])
  }

  /** The engine's side of a run. */
  function EngineSteps(steps: seq<Step>): seq<Step> {
    if steps == [] then []
    else
      var init, step := EngineSteps(steps[..|steps| - 1]), steps[|steps| - 1];
      if OfEngine(step) then init + [step] else init
  }

  lemma ReachMore(steps: seq<Step>, step: Step)
    requires Reach(steps).Some? && Enabled(Reach(steps).value, step)
    ensures Reach(steps + [step]) == Some(Next(Reach(steps).value, step))
  {
    hide Enabled, Next;
    assert (steps + [step])[..|steps|] == steps;
  }

  lemma EngineStepsMore(steps: seq<Step>, step: Step)
    ensures EngineSteps(steps + [step]) == if OfEngine(step) then EngineSteps(steps) + [step] else EngineSteps(steps)
  {
    assert (steps + [step])[..|steps|] == steps;
  }

  /** What the engine alone would have made of the gate: the hook at most clears the flag. */
  ghost predicate SeenAlike(alone: Gate, g: Gate) {
    && alone.deadline == g.deadline && alone.engine == g.engine && alone.begun == g.begun
    && (g.want ==> alone.want)
  }

  lemma {:induction false} HookOnlyClears(steps: seq<Step>)
    requires Reach(steps).Some?
    ensures Reach(EngineSteps(steps)).Some? && SeenAlike(Reach(EngineSteps(steps)).value, Reach(steps).value)
  {
    if steps != [] {
      var init, step := steps[..|steps| - 1], steps[|steps| - 1];
      HookOnlyClears(init);
      if OfEngine(step) {
        ReachMore(EngineSteps(init), step);
      }
    }
  }

  /** At some time of the engine's schedule a hold was in place whose deadline is `now` or earlier. */
  ghost predicate HeldTill(engine: seq<Step>, now: nat) {
    exists i :: 0 <= i <= |engine| && HeldAt(engine, i) && Reach(engine[..i]).value.deadline <= now
  }

  ghost predicate HeldAt(engine: seq<Step>, i: nat)
    requires i <= |engine|
  {
    Reach(engine[..i]).Some? && Reach(engine[..i]).value.want
  }

  lemma HeldTillMore(engine: seq<Step>, step: Step, now: nat, later: nat)
    requires HeldTill(engine, now) && now <= later
    ensures HeldTill(engine + [step], later)
  {
    hide Reach;
    var i :| 0 <= i <= |engine| && HeldAt(engine, i) && Reach(engine[..i]).value.deadline <= now;
    assert (engine + [step])[..i] == engine[..i];
    assert HeldAt(engine + [step], i);
  }

  /** Deadlines only ever move on. */
  lemma DeadlineGrows(steps: seq<Step>, step: Step)
    requires Reach(steps).Some? && Enabled(Reach(steps).value, step)
    ensures Reach(steps).value.deadline <= Next(Reach(steps).value, step).deadline
  {
    RunsAreBounded(steps);
    hide Reach;
  }

  /** A hook that saw the flag has seen a hold, and one that goes on to clear it a hold its keystroke is past. */
  lemma {:induction false} HookSawHold(steps: seq<Step>)
    requires Reach(steps).Some?
    ensures var g, engine := Reach(steps).value, EngineSteps(steps);
            && (g.hook.SawWant? ==> HeldTill(engine, g.deadline))
            && (g.hook.Clearing? ==> HeldTill(engine, g.hook.now))
  {
    if steps != [] {
      var init, step := steps[..|steps| - 1], steps[|steps| - 1];
      HookSawHold(init);
      HookOnlyClears(init);
      DeadlineGrows(init, step);
      EngineStepsMore(init, step);
      assert steps == init + [step];
      SawHoldNext(init, step);
    }
  }

  lemma SawHoldNext(init: seq<Step>, step: Step)
    requires Reach(init).Some? && Enabled(Reach(init).value, step)
    requires var g, engine := Reach(init).value, EngineSteps(init);
             && (g.hook.SawWant? ==> HeldTill(engine, g.deadline))
             && (g.hook.Clearing? ==> HeldTill(engine, g.hook.now))
    ensures var g, engine := Next(Reach(init).value, step), EngineSteps(init + [step]);
            && (g.hook.SawWant? ==> HeldTill(engine, g.deadline))
            && (g.hook.Clearing? ==> HeldTill(engine, g.hook.now))
  {
    var g, engine := Reach(init).value, EngineSteps(init);
    EngineStepsMore(init, step);
    HookOnlyClears(init);
    DeadlineGrows(init, step);
    hide Reach, EngineSteps, HeldTill;
    if OfEngine(step) {
      if g.hook.SawWant? {
        HeldTillMore(engine, step, g.deadline, Next(g, step).deadline);
      } else if g.hook.Clearing? {
        HeldTillMore(engine, step, g.hook.now, g.hook.now);
      }
    } else if step.LoadWant? && g.want {
      HeldNow(engine, g.deadline);
    } else if step.LoadDeadline? && g.hook.now >= g.deadline {
      HeldTillLater(engine, g.deadline, g.hook.now);
    }
  }

  lemma HeldNow(engine: seq<Step>, now: nat)
    requires Reach(engine).Some? && Reach(engine).value.want && Reach(engine).value.deadline <= now
    ensures HeldTill(engine, now)
  {
    hide Reach;
    assert engine[..|engine|] == engine;
    assert HeldAt(engine, |engine|);
  }

  lemma HeldTillLater(engine: seq<Step>, now: nat, later: nat)
    requires HeldTill(engine, now) && now <= later
    ensures HeldTill(engine, later)
  {
  }

  ghost predicate InPlace(g: Gate) {
    g.want && g.engine.Resting?
  }

  /** A hold is in place, and the decision under way, on a keystroke before its deadline, will clear it. */
  ghost predicate LosesHold(steps: seq<Step>, now: nat) {
    Reach(steps).Some?
    && var g := Reach(steps).value;
       && InPlace(g)
       && !g.hook.Idle? && g.hook.now == now < g.deadline && WillClear(g)
  }

  /**
   * Whatever the engine did, a hook deciding on a keystroke stamped `now` can be left about to clear a
   * hold not over by then exactly when an earlier hold was in place that was.
   */
  lemma HoldCanBeLostAtIff(engine: seq<Step>, now: nat)
    requires Reach(engine).Some? && AllOfEngine(engine)
    ensures (exists steps :: EngineSteps(steps) == engine && LosesHold(steps, now))
       <==> InPlace(Reach(engine).value) && now < Reach(engine).value.deadline && HeldTill(engine, now)
  {
    hide Reach, EngineSteps, HeldTill, HeldAt, AllOfEngine;
    if exists steps :: EngineSteps(steps) == engine && LosesHold(steps, now) {
      var steps :| EngineSteps(steps) == engine && LosesHold(steps, now);
      HookOnlyClears(steps);
      HookSawHold(steps);
    }
    if InPlace(Reach(engine).value) && now < Reach(engine).value.deadline && HeldTill(engine, now) {
      var i := HeldTime(engine, now);
      InterposedClears(engine, i, now);
      assert EngineSteps(Interposed(engine, i, now)) == engine && LosesHold(Interposed(engine, i, now), now);
    }
  }

  lemma HeldTime(engine: seq<Step>, now: nat) returns (i: nat)
    requires HeldTill(engine, now)
    ensures i <= |engine| && HeldAt(engine, i) && Reach(engine[..i]).value.deadline <= now
  {
    i :| 0 <= i <= |engine| && HeldAt(engine, i) && Reach(engine[..i]).value.deadline <= now;
  }

  /**
   * So a hold in place is safe from every hook, whatever its clock, exactly when no hold before it ended
   * sooner.
   */
  lemma HoldCanBeLostIff(engine: seq<Step>)
    requires Reach(engine).Some? && AllOfEngine(engine)
    ensures (exists steps, now: nat :: EngineSteps(steps) == engine && LosesHold(steps, now))
       <==> InPlace(Reach(engine).value)
            && exists i :: 0 <= i < |engine| && HeldAt(engine, i)
                           && Reach(engine[..i]).value.deadline < Reach(engine).value.deadline
  {
    hide EngineSteps, AllOfEngine, Reach, LosesHold;
    var g := Reach(engine).value;
    forall steps, now: nat | EngineSteps(steps) == engine && LosesHold(steps, now)
      ensures InPlace(g) && now < g.deadline && HeldTill(engine, now)
    {
      HoldCanBeLostAtIff(engine, now);
    }
    if exists steps, now: nat :: EngineSteps(steps) == engine && LosesHold(steps, now) {
      var steps, now: nat :| EngineSteps(steps) == engine && LosesHold(steps, now);
      var i := HeldTime(engine, now);
      assert engine[..|engine|] == engine;
    }
    if i :| InPlace(g) && 0 <= i < |engine| && HeldAt(engine, i) && Reach(engine[..i]).value.deadline < g.deadline {
      HoldCanBeLostAtIff(engine, Reach(engine[..i]).value.deadline);
    }
  }

  /** The run in which a hook comes after the engine's first `i` steps and gets as far as seeing the deadline pass. */
  function Interposed(engine: seq<Step>, i: nat, now: nat): seq<Step>
    requires i <= |engine|
  {
    if i == |engine| then engine + [Ask(false, now)] + [LoadWant] + [LoadDeadline]
    else Interposed(engine[..|engine| - 1], i, now) + [engine[|engine| - 1]]
  }

  lemma {:induction false} InterposedClears(engine: seq<Step>, i: nat, now: nat)
    requires Reach(engine).Some? && AllOfEngine(engine)
    requires i <= |engine| && HeldAt(engine, i) && Reach(engine[..i]).value.deadline <= now
    ensures var steps := Interposed(engine, i, now);
            && EngineSteps(steps) == engine
            && Reach(steps) == Some(Reach(engine).value.(hook := Clearing(now)))
  {
    OnlyEngine(engine);
    if i == |engine| {
      assert engine[..i] == engine;
      SeesItPass(engine, now);
    } else {
      var init, step := engine[..|engine| - 1], engine[|engine| - 1];
      assert init[..i] == engine[..i];
      assert forall k :: 0 <= k < |init| ==> init[k] == engine[k];
      InterposedClears(init, i, now);
      assert engine == init + [step];
      EngineGoesOn(init, step, Interposed(init, i, now), now);
    }
  }

  lemma EngineGoesOn(init: seq<Step>, step: Step, steps: seq<Step>, now: nat)
    requires Reach(init).Some? && OfEngine(step) && Enabled(Reach(init).value, step)
    requires EngineSteps(steps) == init && Reach(steps) == Some(Reach(init).value.(hook := Clearing(now)))
    ensures EngineSteps(steps + [step]) == init + [step]
    ensures Reach(steps + [step]) == Some(Reach(init + [step]).value.(hook := Clearing(now)))
  {
    ReachMore(init, step);
    ReachMore(steps, step);
    EngineStepsMore(steps, step);
    hide Reach, EngineSteps;
  }

  lemma SeesItPass(engine: seq<Step>, now: nat)
    requires Reach(engine).Some? && EngineSteps(engine) == engine
    requires Reach(engine).value.hook.Idle? && Reach(engine).value.want && Reach(engine).value.deadline <= now
    ensures var steps := engine + [Ask(false, now)] + [LoadWant] + [LoadDeadline];
            && EngineSteps(steps) == engine
            && Reach(steps) == Some(Reach(engine).value.(hook := Clearing(now)))
  {
    hide Reach, EngineSteps;
    var asked := engine + [Ask(false, now)];
    var saw := asked + [LoadWant];
    ReachMore(engine, Ask(false, now));
    ReachMore(asked, LoadWant);
    ReachMore(saw, LoadDeadline);
    EngineStepsMore(engine, Ask(false, now));
    EngineStepsMore(asked, LoadWant);
    EngineStepsMore(saw, LoadDeadline);
  }

  /** Without a hook there is no decision, and nothing to leave out. */
  lemma {:induction false} OnlyEngine(engine: seq<Step>)
    requires Reach(engine).Some? && AllOfEngine(engine)
    ensures EngineSteps(engine) == engine && Reach(engine).value.hook == Idle
  {
    if engine != [] {
      var init := engine[..|engine| - 1];
      assert forall k :: 0 <= k < |init| ==> init[k] == engine[k];
      OnlyEngine(init);
      assert engine == init + [engine[|engine| - 1]];
    }
  }
}
