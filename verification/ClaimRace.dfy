/**
 * The claim as two machine words: the engine arms it by storing a deadline and then a key set, while
 * the hook reads its clock, the deadline and the key set, one step at a time.
 */
module ClaimRace {
  import opened Options
  import opened ClaimKeys

  /** One call to arm: what is claimed, and until when. */
  datatype Claim = Claim(keys: ClaimSet, until: nat)

  datatype Engine = Resting | Arming(claim: Claim) // deadline stored, key set not yet

  /** A hook in time has loaded the deadline of the `lender`th claim, `until`, and not yet the keys. */
  datatype Reader = Idle | SawClock(now: nat) | InTime(now: nat, until: nat, lender: nat)

  /**
   * `begun` counts the claims whose arming began, `last` is the last one completely armed and `lastNo`
   * its number, `latest` the greatest deadline ever stored.
   */
  datatype State = State(
    armed: ClaimSet, deadline: nat, engine: Engine, reader: Reader, begun: nat, last: Option<Claim>, lastNo: nat,
    latest: nat
  )

  datatype Step =
    | StoreDeadline(claim: Claim)
    | StoreKeys
    | Disarm
    | ReadClock(now: nat)
    | LoadDeadline
    | LoadKeys

  const FRESH := State(NOTHING, 0, Resting, Idle, 0, None, 0, 0)

  predicate Enabled(s: State, step: Step) {
    match step
    case StoreDeadline(_) => s.engine.Resting?
    case StoreKeys => s.engine.Arming?
    case Disarm => true // a listener going away disarms too, whatever the engine is doing
    case ReadClock(_) => s.reader.Idle?
    case LoadDeadline => s.reader.SawClock?
    case LoadKeys => s.reader.InTime?
  }

  function Next(s: State, step: Step): State
    requires Enabled(s, step)
  {
    match step
    case StoreDeadline(c) =>
      s.(deadline := c.until, engine := Arming(c), begun := s.begun + 1,
         latest := if c.until > s.latest then c.until else s.latest)
    case StoreKeys =>
      s.(armed := s.engine.claim.keys, last := Some(s.engine.claim), lastNo := s.begun, engine := Resting)
    case Disarm => s.(armed := NOTHING)
    case ReadClock(now) => s.(reader := SawClock(now))
    case LoadDeadline =>
      s.(reader := if s.reader.now >= s.deadline then Idle else InTime(s.reader.now, s.deadline, s.begun))
    case LoadKeys => s.(reader := Idle)
  }

  /** The claim a finished read hands to the hook. */
  function Reading(s: State, step: Step): Option<ClaimSet>
    requires Enabled(s, step)
  {
    match step
    case LoadDeadline => if s.reader.now >= s.deadline then Some(NOTHING) else None
    case LoadKeys => Some(s.armed)
    case _ => None
  }

  function Reach(steps: seq<Step>): Option<State> {
    if steps == [] then Some(FRESH)
    else
      match Reach(steps[..|steps| - 1])
      case None => None
      case Some(s) => if Enabled(s, steps[|steps| - 1]) then Some(Next(s, steps[|steps| - 1])) else None
  }

  /** The stored deadline is the last begun claim's, the key set nothing or the last completed claim's. */
  ghost predicate Coherent(s: State) {
    && (s.armed != NOTHING ==> s.last.Some? && s.armed == s.last.value.keys)
    && (s.engine.Resting? ==> s.lastNo == s.begun && s.deadline == if s.last.Some? then s.last.value.until else 0)
    && (s.engine.Arming? ==> s.lastNo + 1 == s.begun && s.deadline == s.engine.claim.until)
    && s.deadline <= s.latest
    && (s.reader.InTime? ==> ReaderCoherent(s))
  }

  ghost predicate ReaderCoherent(s: State)
    requires s.reader.InTime?
  {
    && s.reader.now < s.reader.until <= s.latest
    && s.reader.lender <= s.begun
    && (s.reader.lender == s.begun ==> s.reader.until == s.deadline)
    && (s.reader.lender == s.lastNo && s.last.Some? ==> s.reader.until == s.last.value.until)
  }

  lemma {:induction false} RunsAreCoherent(steps: seq<Step>)
    requires Reach(steps).Some?
    ensures Coherent(Reach(steps).value)
  {
    if steps != [] {
      RunsAreCoherent(steps[..|steps| - 1]);
    }
  }

  /** In every interleaving, a hook whose clock is past every deadline ever stored reads no claim at all. */
  lemma NoClaimOutlivesItsDeadlines(steps: seq<Step>, step: Step)
    requires Reach(steps).Some? && Enabled(Reach(steps).value, step)
    requires Reading(Reach(steps).value, step).Some?
    requires Reach(steps).value.latest <= Reach(steps).value.reader.now
    ensures Reading(Reach(steps).value, step) == Some(NOTHING)
  {
    RunsAreCoherent(steps);
  }

  /** The engine may disarm at any time. */
  lemma MayDisarm(steps: seq<Step>)
    requires Reach(steps).Some?
    ensures Reach(steps + [Disarm]).Some? && Reach(steps + [Disarm]).value.armed == NOTHING
  {
    assert (steps + [Disarm])[..|steps|] == steps;
  }

  /** Once it has, and until it next stores keys, every read yields nothing. */
  lemma {:induction false} DisarmedIsNotRead(before: seq<Step>, after: seq<Step>, step: Step)
    requires Reach(before).Some? && Reach(before + [Disarm] + after).Some?
    requires forall i :: 0 <= i < |after| ==> !after[i].StoreKeys?
    ensures var s := Reach(before + [Disarm] + after).value;
            s.armed == NOTHING
            && (Enabled(s, step) && Reading(s, step).Some? ==> Reading(s, step) == Some(NOTHING))
  {
    var steps := before + [Disarm] + after;
    if after == [] {
      assert steps[..|steps| - 1] == before;
    } else {
      var init := after[..|after| - 1];
      assert steps[..|steps| - 1] == before + [Disarm] + init;
      assert forall i :: 0 <= i < |init| ==> init[i] == after[i];
      DisarmedIsNotRead(before, init, step);
    }
  }

  // ---- When the keys of an expired claim are read ----

  /** The keys about to be read are of a claim that was over when the hook read its clock. */
  predicate ReadsExpired(s: State)
    requires s.reader.InTime?
  {
    s.armed != NOTHING && s.last.Some? && s.last.value.until <= s.reader.now
  }

  /**
   * In every interleaving a read yields nothing or the last completed claim's keys, and when that claim
   * is over, the deadline loaded was not its own: it was lent by a claim still being armed, or by an
   * earlier one that a claim with less time has replaced since.
   */
  lemma ExpiredKeysAreLentADeadline(steps: seq<Step>)
    requires Reach(steps).Some? && Reach(steps).value.reader.InTime?
    ensures var s := Reach(steps).value;
            && (s.armed != NOTHING ==> s.last.Some? && s.armed == s.last.value.keys)
            && (ReadsExpired(s) ==>
                  (s.engine.Arming? && s.reader.lender == s.begun) || s.reader.lender < s.lastNo)
  {
    RunsAreCoherent(steps);
  }

  /** The engine's side of a run. */
  function EngineSteps(steps: seq<Step>): seq<Step> {
    if steps == [] then []
    else
      var init, step := EngineSteps(steps[..|steps| - 1]), steps[|steps| - 1];
      if OfEngine(step) then init + [step] else init
  }

  predicate OfEngine(step: Step) {
    step.StoreDeadline? || step.StoreKeys? || step.Disarm?
  }

  predicate AllOfEngine(steps: seq<Step>) {
    forall i :: 0 <= i < |steps| ==> OfEngine(steps[i])
  }

  /** The hook never stands in the engine's way, nor changes what the engine sees. */
  lemma {:induction false} HookOnlyReads(steps: seq<Step>)
    requires Reach(steps).Some?
    ensures Reach(EngineSteps(steps)) == Some(Reach(steps).value.(reader := Idle))
  {
    if steps != [] {
      var init, step := steps[..|steps| - 1], steps[|steps| - 1];
      HookOnlyReads(init);
      if OfEngine(step) {
        ReachMore(EngineSteps(init), step);
      }
    }
  }

  lemma ReachMore(steps: seq<Step>, step: Step)
    requires Reach(steps).Some? && Enabled(Reach(steps).value, step)
    ensures Reach(steps + [step]) == Some(Next(Reach(steps).value, step))
  {
    hide Enabled, Next;
    assert (steps + [step])[..|steps|] == steps;
  }

  /** After `steps` a hook whose clock read `now` is about to read the keys of a claim that is over. */
  ghost predicate ReadsExpiredAt(steps: seq<Step>, now: nat) {
    && Reach(steps).Some? && Reach(steps).value.reader.InTime?
    && Reach(steps).value.reader.now == now && ReadsExpired(Reach(steps).value)
  }

  /**
   * Whatever the engine did, a hook can find itself about to read an expired claim's keys exactly when
   * there are keys and the clock is past the last completed claim and not past some deadline stored.
   */
  lemma ExpiredKeysCanBeReadIff(engine: seq<Step>, now: nat)
    requires Reach(engine).Some? && AllOfEngine(engine)
    ensures (exists steps :: EngineSteps(steps) == engine && ReadsExpiredAt(steps, now))
       <==> var s := Reach(engine).value;
            s.armed != NOTHING && s.last.Some? && s.last.value.until <= now < s.latest
  {
    var s := Reach(engine).value;
    if exists steps :: EngineSteps(steps) == engine && ReadsExpiredAt(steps, now) {
      var steps :| EngineSteps(steps) == engine && ReadsExpiredAt(steps, now);
      RunsAreCoherent(steps);
      HookOnlyReads(steps);
    }
    if s.armed != NOTHING && s.last.Some? && s.last.value.until <= now < s.latest {
      BorrowingReads(engine, now);
      assert EngineSteps(Borrowing(engine, now)) == engine && ReadsExpiredAt(Borrowing(engine, now), now);
    }
  }

  /**
   * So whether a claim's keys can outlive it is settled by the engine's schedule alone: they can, for
   * some clock of the hook, exactly when some claim was begun that ends later, before it or after.
   */
  lemma ClaimCanBeOutlivedIff(engine: seq<Step>)
    requires Reach(engine).Some? && AllOfEngine(engine)
    ensures (exists steps, now :: EngineSteps(steps) == engine && ReadsExpiredAt(steps, now))
       <==> var s := Reach(engine).value;
            s.armed != NOTHING && s.last.Some?
            && exists i :: 0 <= i < |engine| && engine[i].StoreDeadline?
                           && s.last.value.until < engine[i].claim.until
  {
    var s := Reach(engine).value;
    LatestIsLatest(engine);
    RunsAreCoherent(engine);
    if s.last.Some? && s.last.value.until < s.latest {
      ExpiredKeysCanBeReadIff(engine, s.last.value.until);
    }
    forall steps, now | EngineSteps(steps) == engine && ReadsExpiredAt(steps, now)
      ensures s.armed != NOTHING && s.last.Some? && s.last.value.until < s.latest
    {
      ExpiredKeysCanBeReadIff(engine, now);
    }
  }

  /** The run in which a hook reads its clock and loads the deadline as soon as one beyond `now` is stored. */
  function Borrowing(engine: seq<Step>, now: nat): (steps: seq<Step>)
    requires Reach(engine).Some? && now < Reach(engine).value.latest
  {
    var init, step := engine[..|engine| - 1], engine[|engine| - 1];
    if step.StoreDeadline? && now < step.claim.until then engine + [ReadClock(now), LoadDeadline]
    else Borrowing(init, now) + [step]
  }

  lemma {:induction false} BorrowingReads(engine: seq<Step>, now: nat)
    requires Reach(engine).Some? && AllOfEngine(engine)
    requires now < Reach(engine).value.latest
    ensures var steps := Borrowing(engine, now);
            && EngineSteps(steps) == engine
            && Reach(steps).Some?
            && Reach(steps).value.(reader := Idle) == Reach(engine).value
            && Reach(steps).value.reader.InTime? && Reach(steps).value.reader.now == now
  {
    var init, step := engine[..|engine| - 1], engine[|engine| - 1];
    assert engine == init + [step];
    assert forall i :: 0 <= i < |init| ==> init[i] == engine[i];
    OnlyEngine(engine);
    if step.StoreDeadline? && now < step.claim.until {
      LoadsAtOnce(engine, now);
    } else {
      BorrowingReads(init, now);
      var steps := Borrowing(init, now);
      OnlyEngine(init);
      ReachMore(steps, step);
      EngineStepsMore(steps, step);
    }
  }

  lemma EngineStepsMore(steps: seq<Step>, step: Step)
    ensures EngineSteps(steps + [step]) == if OfEngine(step) then EngineSteps(steps) + [step] else EngineSteps(steps)
  {
    assert (steps + [step])[..|steps|] == steps;
  }

  /** Without a hook there is no reader, and nothing to leave out. */
  lemma {:induction false} OnlyEngine(engine: seq<Step>)
    requires Reach(engine).Some? && AllOfEngine(engine)
    ensures EngineSteps(engine) == engine && Reach(engine).value.reader == Idle
  {
    if engine != [] {
      var init := engine[..|engine| - 1];
      assert forall i :: 0 <= i < |init| ==> init[i] == engine[i];
      OnlyEngine(init);
      assert engine == init + [engine[|engine| - 1]];
    }
  }

  /** A deadline beyond the clock, just stored, is loaded. */
  lemma LoadsAtOnce(engine: seq<Step>, now: nat)
    requires Reach(engine).Some? && EngineSteps(engine) == engine
    requires Reach(engine).value.reader.Idle? && now < Reach(engine).value.deadline
    ensures var s, steps := Reach(engine).value, engine + [ReadClock(now), LoadDeadline];
            && Reach(steps) == Some(s.(reader := InTime(now, s.deadline, s.begun)))
            && EngineSteps(steps) == engine
  {
    hide Reach, EngineSteps;
    var clocked := engine + [ReadClock(now)];
    ReachMore(engine, ReadClock(now));
    ReachMore(clocked, LoadDeadline);
    EngineStepsMore(engine, ReadClock(now));
    EngineStepsMore(clocked, LoadDeadline);
    assert engine + [ReadClock(now), LoadDeadline] == clocked + [LoadDeadline];
  }

  /** Every claim ends no sooner than the one before it. */
  ghost predicate ArmedForward(steps: seq<Step>) {
    forall i, j :: 0 <= i < j < |steps| && steps[i].StoreDeadline? && steps[j].StoreDeadline? ==>
      steps[i].claim.until <= steps[j].claim.until
  }

  /** No deadline stored or loaded is beyond the current one. */
  lemma {:induction false} NothingBeyond(steps: seq<Step>, until: nat)
    requires Reach(steps).Some? && ArmedForward(steps)
    requires forall i :: 0 <= i < |steps| && steps[i].StoreDeadline? ==> steps[i].claim.until <= until
    ensures var s := Reach(steps).value;
            && s.latest == s.deadline <= until
            && (s.last.Some? ==> s.last.value.until <= s.deadline)
            && (s.reader.InTime? ==>
                  s.reader.until <= s.deadline
                  && (s.reader.lender < s.begun && s.last.Some? ==> s.reader.until <= s.last.value.until))
  {
    if steps != [] {
      var init, step := steps[..|steps| - 1], steps[|steps| - 1];
      RunsAreCoherent(init);
      var bound := if step.StoreDeadline? then step.claim.until else until;
      assert forall i :: 0 <= i < |init| ==> init[i] == steps[i];
      NothingBeyond(init, bound);
    }
  }

  /**
   * While claims end no sooner than the ones before them, an expired claim's keys are read only between
   * the storing of a later deadline, the one loaded, and the storing of the keys that go with it.
   */
  lemma ExpiredKeysOnlyWhileArming(steps: seq<Step>)
    requires Reach(steps).Some? && Reach(steps).value.reader.InTime? && ArmedForward(steps)
    ensures var s := Reach(steps).value;
            ReadsExpired(s) ==>
              s.engine.Arming? && s.reader.lender == s.begun
              && s.last.value.until <= s.reader.now < s.engine.claim.until
  {
    RunsAreCoherent(steps);
    var until := Reach(steps).value.latest;
    LatestIsLatest(steps);
    NothingBeyond(steps, until);
  }

  lemma {:induction false} LatestIsLatest(steps: seq<Step>)
    requires Reach(steps).Some?
    ensures forall i :: 0 <= i < |steps| && steps[i].StoreDeadline? ==>
              steps[i].claim.until <= Reach(steps).value.latest
    ensures Reach(steps).value.latest > 0 ==>
              exists i :: 0 <= i < |steps| && steps[i].StoreDeadline?
                          && steps[i].claim.until == Reach(steps).value.latest
  {
    if steps != [] {
      var init := steps[..|steps| - 1];
      LatestIsLatest(init);
      assert forall i :: 0 <= i < |init| ==> init[i] == steps[i];
    }
  }

  /** A read no engine store interrupts. */
  function ReadNow(s: State, now: nat): ClaimSet
    requires s.reader.Idle?
  {
    var clocked := Next(s, ReadClock(now));
    var loaded := Next(clocked, LoadDeadline);
    match Reading(clocked, LoadDeadline)
    case Some(nothing) => nothing
    case None => Reading(loaded, LoadKeys).value
  }

  /** An uninterrupted read returns an expired claim's keys exactly while a later claim is half armed. */
  lemma OldKeysUnderNewDeadline(steps: seq<Step>, now: nat)
    requires Reach(steps).Some? && Reach(steps).value.reader.Idle?
    ensures var s := Reach(steps).value;
            var read := ReadNow(s, now);
            && (read != NOTHING ==> s.last.Some? && read == s.last.value.keys)
            && ((read != NOTHING && now >= s.last.value.until)
                <==> (s.engine.Arming? && s.armed != NOTHING && s.last.Some?
                      && s.last.value.until <= now < s.engine.claim.until))
  {
    RunsAreCoherent(steps);
  }

  /** A claim until 10, and a read at 15 while a claim until 20 is half armed. */
  function HalfArmed(keys: ClaimSet): seq<Step> {
    [StoreDeadline(Claim(keys, 10)), StoreKeys, StoreDeadline(Claim(keys, 20)), ReadClock(15), LoadDeadline]
  }

  /** A claim until 10, a read begun at 5, and a claim until 3 in its stead before the keys are read. */
  function Replaced(keys: ClaimSet): seq<Step> {
    [StoreDeadline(Claim(keys, 10)), StoreKeys, ReadClock(5), LoadDeadline, StoreDeadline(Claim(keys, 3)), StoreKeys]
  }

  ghost predicate EndsReadingExpired(steps: seq<Step>, engine: Engine) {
    Reach(steps).Some? && Reach(steps).value.engine == engine
    && Reach(steps).value.reader.InTime? && ReadsExpired(Reach(steps).value)
  }

  /** Both ways of being lent a deadline do occur. */
  lemma ExpiredKeysAreRead(keys: ClaimSet)
    requires keys != NOTHING
    ensures ArmedForward(HalfArmed(keys)) && EndsReadingExpired(HalfArmed(keys), Arming(Claim(keys, 20)))
    ensures EndsReadingExpired(Replaced(keys), Resting)
  {
    var steps := HalfArmed(keys);
    assert steps[..0] == [];
    StepOn(steps, 0);
    StepOn(steps, 1);
    StepOn(steps, 2);
    StepOn(steps, 3);
    StepOn(steps, 4);
    assert steps[..5] == steps;
    ReplacedReads(keys);
  }

  lemma ReplacedReads(keys: ClaimSet)
    requires keys != NOTHING
    ensures EndsReadingExpired(Replaced(keys), Resting)
  {
    var steps := Replaced(keys);
    assert steps[..0] == [];
    StepOn(steps, 0);
    StepOn(steps, 1);
    StepOn(steps, 2);
    StepOn(steps, 3);
    StepOn(steps, 4);
    StepOn(steps, 5);
    assert steps[..6] == steps;
  }

  lemma StepOn(steps: seq<Step>, i: nat)
    requires i < |steps|
    ensures Reach(steps[..i]).Some? && Enabled(Reach(steps[..i]).value, steps[i]) ==>
              Reach(steps[..i + 1]) == Some(Next(Reach(steps[..i]).value, steps[i]))
  {
    hide Enabled, Next;
    assert steps[..i + 1][..i] == steps[..i];
  }
}
