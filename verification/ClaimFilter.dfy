/** Which keystrokes the hooks keep from the focused application while a claim is up. */
module ClaimFilter {
  import opened Options
  import opened ClaimKeys

  const DOWN_STALE_MS := 2000

  /** The claim in force, as the engine sets it and the hook reads it. */
  class KeyClaims {
    var armed: ClaimSet
    var deadlineMs: nat
    var supported: bool

    constructor ()
      ensures armed == NOTHING && deadlineMs == 0 && !supported
    {
      armed, deadlineMs, supported := NOTHING, 0, false;
    }

    method SetSupported(on: bool)
      modifies this
      ensures supported == on && deadlineMs == old(deadlineMs)
      ensures armed == if on then old(armed) else NOTHING
    {
      supported := on;
      if !on {
        Disarm();
      }
    }

    method Arm(keys: ClaimSet, ms: nat)
      modifies this
      ensures armed == keys && deadlineMs == ms && supported == old(supported)
    {
      deadlineMs := ms;
      armed := keys;
    }

    method Disarm()
      modifies this
      ensures armed == NOTHING && deadlineMs == old(deadlineMs) && supported == old(supported)
    {
      armed := NOTHING;
    }

    /** Void from the deadline on, whoever forgot to disarm. */
    method Armed(now: nat) returns (s: ClaimSet)
      ensures s == if now < deadlineMs then armed else NOTHING
    {
      if now >= deadlineMs {
        return NOTHING;
      }
      s := armed;
    }
  }

  // ---- One decision ----

  /**
   * One keystroke as the hook sees it. `armed` is the claim it read for this event, however the
   * engine's stores fell around that read.
   */
  datatype Event = Event(
    key: Option<ClaimKey>, press: bool, mods: Modifiers, ours: bool, now: nat, armed: ClaimSet
  )

  /** The keys whose press was kept back and whose release has not come, and when one last was. */
  datatype Filter = Filter(held: set<ClaimKey>, heldAt: nat)

  const IDLE := Filter({}, 0)

  predicate Accepts(armed: ClaimSet, key: ClaimKey, mods: Modifiers) {
    var want := if key.Digit? then armed.DigitModifiers() else NO_MODIFIERS;
    && mods.control == want.control
    && mods.shift == want.shift
    && mods.alt == want.alt
    && mods.meta == want.meta
    && armed.Contains(key)
  }

  function Refreshed(f: Filter, now: nat): Filter {
    if now > f.heldAt + DOWN_STALE_MS then f.(held := {}) else f
  }

  /** The filter afterwards, and whether the keystroke is kept back. */
  function Decide(f: Filter, ev: Event): (Filter, bool) {
    if ev.key.None? || ev.ours then (f, false)
    else
      var k := Canonical(ev.key.value);
      var g := Refreshed(f, ev.now);
      if k in g.held then (if ev.press then g.(heldAt := ev.now) else g.(held := g.held - {k}), true)
      else if ev.press && Accepts(ev.armed, ev.key.value, ev.mods) then (Filter(g.held + {k}, ev.now), true)
      else (g, false)
  }

  /** Control, shift, alt and meta are pressed as in `m`; caps lock is never asked about. */
  predicate PressedAs(mods: Modifiers, m: Modifiers) {
    mods.control == m.control && mods.shift == m.shift && mods.alt == m.alt && mods.meta == m.meta
  }

  /**
   * Which presses a claim keeps back: a digit it has under exactly the chord it was armed with, and any
   * other key it has with none of the four modifiers pressed.
   */
  lemma KeptPresses(f: Filter, claim: ClaimSet, chord: Modifiers, key: ClaimKey, mods: Modifiers, now: nat)
    requires Canonical(key) !in Refreshed(f, now).held
    ensures Decide(f, Event(Some(key), true, mods, false, now, claim.WithDigitModifiers(chord))).1
       <==> Canonical(key) in claim.Keys()
            && if key.Digit? then PressedAs(mods, chord)
               else !mods.control && !mods.shift && !mods.alt && !mods.meta
  {
    hide Canonical, ClaimSet.Keys, ClaimSet.Contains, ClaimSet.WithDigitModifiers, ClaimSet.DigitModifiers;
    DigitModifiersReadBack(claim, chord);
    ContainsIsMembership(claim.WithDigitModifiers(chord), key);
  }

  class ClaimFilter {
    /** One word, a bit a key, laid out as a claim is. */
    var down: ClaimSet
    var downAtMs: nat

    ghost function View(): Filter
      reads this
    {
      Filter(down.Keys(), downAtMs)
    }

    constructor ()
      ensures View() == IDLE
    {
      down, downAtMs := NOTHING, 0;
      new;
      NothingHoldsNothing();
    }

    method DecideAt(key: Option<ClaimKey>, press: bool, mods: Modifiers, ours: bool, now: nat, armed: ClaimSet)
      returns (kept: bool)
      modifies this
      ensures (View(), kept) == Decide(old(View()), Event(key, press, mods, ours, now, armed))
    {
      NothingHoldsNothing();
      hide Bit, Canonical, ClaimSet.Keys, ClaimSet.Contains, ClaimSet.With, ClaimSet.Without,
          ClaimSet.DigitModifiers, Accepts;
      if key.None? {
        return false;
      }
      if ours {
        return false;
      }
      if (if now >= downAtMs then now - downAtMs else 0) > DOWN_STALE_MS {
        down := NOTHING;
      }
      ContainsIsMembership(down, key.value);
      WithAddsOneKey(down, key.value);
      WithoutDropsOneKey(down, key.value);
      if down.Contains(key.value) {
        if press {
          downAtMs := now;
        } else {
          down := down.Without(key.value);
        }
        return true;
      }
      if !press {
        return false;
      }
      if !Accepts(armed, key.value, mods) {
        return false;
      }
      downAtMs := now;
      down := down.With(key.value);
      return true;
    }
  }

  lemma NothingHoldsNothing()
    ensures NOTHING.Keys() == {}
  {
    hide All, BitIndex;
  }

  // ---- Runs ----

  function After(events: seq<Event>): Filter {
    if events == [] then IDLE else Decide(After(events[..|events| - 1]), events[|events| - 1]).0
  }

  predicate Kept(events: seq<Event>, i: nat)
    requires i < |events|
  {
    Decide(After(events[..i]), events[i]).1
  }

  /** A keystroke of `k` that we did not synthesise. */
  predicate Of(ev: Event, k: ClaimKey) {
    ev.key.Some? && !ev.ours && Canonical(ev.key.value) == k
  }

  /** When a press was last kept back among the first `m` events; 0 if none was. */
  function LastKeptPress(events: seq<Event>, m: nat): nat
    requires m <= |events|
  {
    if m == 0 then 0
    else if events[m - 1].press && Kept(events, m - 1) then events[m - 1].now
    else LastKeptPress(events, m - 1)
  }

  /** The filter was heard from at most two seconds before event `m`. */
  predicate Fresh(events: seq<Event>, m: nat)
    requires m < |events|
  {
    events[m].key.Some? && !events[m].ours ==> events[m].now <= LastKeptPress(events, m) + DOWN_STALE_MS
  }

  lemma AfterNext(events: seq<Event>, m: nat)
    requires m < |events|
    ensures After(events[..m + 1]) == Decide(After(events[..m]), events[m]).0
  {
    assert events[..m + 1][..m] == events[..m];
  }

  lemma {:induction false} HeldAtIsLastKeptPress(events: seq<Event>, m: nat)
    requires m <= |events|
    ensures After(events[..m]).heldAt == LastKeptPress(events, m)
  {
    if m > 0 {
      HeldAtIsLastKeptPress(events, m - 1);
      AfterNext(events, m - 1);
      hide Accepts, Canonical, After;
    }
  }

  /** A kept-back press at `i` still vouches for `k` at `m`. */
  ghost predicate Vouches(events: seq<Event>, i: nat, m: nat, k: ClaimKey)
    requires m <= |events|
  {
    && i < m
    && Of(events[i], k) && events[i].press && Kept(events, i)
    && forall l :: i < l < m ==> Of(events[l], k) ==> events[l].press
  }

  lemma {:induction false} StaysHeld(events: seq<Event>, i: nat, m: nat, k: ClaimKey)
    requires m <= |events| && Vouches(events, i, m, k)
    requires forall l :: i < l < m ==> Fresh(events, l)
    ensures k in After(events[..m]).held
    decreases m
  {
    hide Accepts, Canonical, After;
    AfterNext(events, m - 1);
    HeldAtIsLastKeptPress(events, m - 1);
    if i < m - 1 {
      StaysHeld(events, i, m - 1, k);
      assert Fresh(events, m - 1);
    }
  }

  /**
   * A key is claimed whole: once a press of it is kept back, so is everything up to and including its
   * release, as long as no two seconds go by without a kept-back press.
   */
  lemma KeptThroughRelease(events: seq<Event>, i: nat, j: nat, k: ClaimKey)
    requires j < |events| && Vouches(events, i, j, k) && Of(events[j], k)
    requires forall l :: i < l <= j ==> Fresh(events, l)
    ensures Kept(events, j)
  {
    StaysHeld(events, i, j, k);
    HeldAtIsLastKeptPress(events, j);
    hide Accepts, Canonical, After;
    assert Fresh(events, j);
  }

  /** A key is held only on account of its own last keystroke, which was a press kept back. */
  lemma {:induction false} HeldHasKeptPress(events: seq<Event>, m: nat, k: ClaimKey) returns (i: nat)
    requires m <= |events| && k in After(events[..m]).held
    ensures i < m && Of(events[i], k) && events[i].press && Kept(events, i)
    ensures forall l :: i < l < m ==> !Of(events[l], k)
  {
    hide Accepts, Canonical, After;
    EmptyRun();
    assert events[..0] == [];
    AfterNext(events, m - 1);
    if Of(events[m - 1], k) {
      i := m - 1;
    } else {
      i := HeldHasKeptPress(events, m - 1, k);
    }
  }

  lemma EmptyRun()
    ensures After([]) == IDLE
  {
  }

  /** No release is kept back on its own: the key's keystroke before it was a press kept back. */
  lemma KeptReleaseEndsKeptPress(events: seq<Event>, j: nat, k: ClaimKey) returns (i: nat)
    requires j < |events| && Of(events[j], k) && !events[j].press && Kept(events, j)
    ensures i < j && Of(events[i], k) && events[i].press && Kept(events, i)
    ensures forall l :: i < l < j ==> !Of(events[l], k)
  {
    hide Accepts, Canonical, After;
    assert k in After(events[..j]).held;
    i := HeldHasKeptPress(events, j, k);
  }

  // ---- When the application sees a keystroke whole ----

  ghost predicate Accepted(ev: Event) {
    ev.key.Some? && ev.press && Accepts(ev.armed, ev.key.value, ev.mods)
  }

  /** Some press of `k` between `i` and `m` found a claim waiting for it. */
  ghost predicate AcceptedBy(events: seq<Event>, i: nat, m: nat, k: ClaimKey)
    requires m < |events|
  {
    exists l :: i <= l <= m && Of(events[l], k) && Accepted(events[l])
  }

  /**
   * Presses of `k` from `i` on, up to its release at `j`; the first does not find `k` still held, as it
   * may after a release was lost.
   */
  ghost predicate Keystroke(events: seq<Event>, i: nat, j: nat, k: ClaimKey) {
    && i < j < |events| && Of(events[i], k) && Of(events[j], k) && !events[j].press
    && (forall l :: i <= l < j && Of(events[l], k) ==> events[l].press)
    && k !in Refreshed(After(events[..i]), events[i].now).held
  }

  /** After event `l` and up to event `m`, the filter was never silent for too long. */
  ghost predicate HeardThroughout(events: seq<Event>, l: nat, m: nat)
    requires m < |events|
  {
    forall n :: l < n <= m ==> Fresh(events, n)
  }

  /** Some press of `k` from `i` on found a claim waiting for it, and no silence came between it and `m`. */
  ghost predicate VouchedFor(events: seq<Event>, i: nat, m: nat, k: ClaimKey)
    requires m < |events|
  {
    exists l :: i <= l <= m && Of(events[l], k) && Accepted(events[l]) && HeardThroughout(events, l, m)
  }

  lemma VouchedForNext(events: seq<Event>, i: nat, m: nat, k: ClaimKey)
    requires i <= m < |events|
    ensures VouchedFor(events, i, m, k)
       <==> || (m > i && VouchedFor(events, i, m - 1, k) && Fresh(events, m))
            || (Of(events[m], k) && Accepted(events[m]))
  {
    hide Of, Accepted, Fresh;
    if VouchedFor(events, i, m, k) {
      var l :| i <= l <= m && Of(events[l], k) && Accepted(events[l]) && HeardThroughout(events, l, m);
      assert l < m ==> HeardThroughout(events, l, m - 1);
    }
    if m > i && VouchedFor(events, i, m - 1, k) && Fresh(events, m) {
      var l :| i <= l <= m - 1 && Of(events[l], k) && Accepted(events[l]) && HeardThroughout(events, l, m - 1);
      assert HeardThroughout(events, l, m);
    }
    if Of(events[m], k) && Accepted(events[m]) {
      assert HeardThroughout(events, m, m);
    }
  }

  lemma {:induction false} HeldWithinKeystroke(events: seq<Event>, i: nat, j: nat, m: nat, k: ClaimKey)
    requires Keystroke(events, i, j, k) && i < m <= j
    ensures k in After(events[..m]).held <==> VouchedFor(events, i, m - 1, k)
    decreases m
  {
    hide Accepts, Canonical, After, LastKeptPress, VouchedFor;
    AfterNext(events, m - 1);
    if m > i + 1 {
      HeldWithinKeystroke(events, i, j, m - 1, k);
      HeldAtIsLastKeptPress(events, m - 1);
    }
    VouchedForNext(events, i, m - 1, k);
  }

  /**
   * Which part of a keystroke is kept back: exactly what follows a press a claim was waiting for with no
   * silence of two seconds in between.
   */
  lemma {:induction false} KeptIffVouchedFor(events: seq<Event>, i: nat, j: nat, m: nat, k: ClaimKey)
    requires Keystroke(events, i, j, k) && i <= m <= j && Of(events[m], k)
    ensures Kept(events, m) <==> VouchedFor(events, i, m, k)
  {
    hide Accepts, Canonical, After, LastKeptPress, VouchedFor;
    HeldAtIsLastKeptPress(events, m);
    VouchedForNext(events, i, m, k);
    if m > i {
      HeldWithinKeystroke(events, i, j, m, k);
    }
  }

  /** The application sees all of a keystroke or nothing of it. */
  ghost predicate AllOrNothing(events: seq<Event>, i: nat, j: nat, k: ClaimKey)
    requires i <= j < |events|
  {
    forall m :: i <= m <= j && Of(events[m], k) ==> Kept(events, m) == Kept(events, i)
  }

  /** A claim is waiting for event `m`, or some earlier one of `k` was followed up to it by no silence. */
  ghost predicate CarriedOn(events: seq<Event>, i: nat, m: nat, k: ClaimKey)
    requires m < |events|
  {
    Accepted(events[m]) || exists p :: i <= p < m && Of(events[p], k) && HeardThroughout(events, p, m)
  }

  /**
   * A key is claimed whole or not at all exactly when no claim was waiting for any of its presses, or one
   * was for the first and from each keystroke of the key to the next no silence intervened, unless a
   * claim was waiting there again. A claim that comes under a key already down splits the keystroke, and
   * so does a key that is held without repeating.
   */
  lemma WholeOrNotAtAllIff(events: seq<Event>, i: nat, j: nat, k: ClaimKey)
    requires Keystroke(events, i, j, k)
    ensures AllOrNothing(events, i, j, k)
       <==> || !AcceptedBy(events, i, j, k)
            || (Accepted(events[i])
                && forall m :: i < m <= j && Of(events[m], k) ==> CarriedOn(events, i, m, k))
  {
    hide Keystroke, Kept, Accepted, Of, CarriedOn;
    KeystrokeBegins(events, i, j, k);
    forall m | i <= m <= j && Of(events[m], k)
      ensures Accepted(events[m]) ==> Kept(events, m)
      ensures Kept(events, m) ==> AcceptedBy(events, i, j, k) && (m > i ==> CarriedOn(events, i, m, k))
      ensures m == i && Kept(events, m) ==> Accepted(events[i])
    {
      KeptHasReason(events, i, j, m, k);
    }
    if Accepted(events[i]) && forall m :: i < m <= j && Of(events[m], k) ==> CarriedOn(events, i, m, k) {
      forall m | i <= m <= j && Of(events[m], k) ensures Kept(events, m) {
        CarriedOnIsVouchedFor(events, i, j, m, k);
        KeptIffVouchedFor(events, i, j, m, k);
      }
    }
  }

  lemma KeystrokeBegins(events: seq<Event>, i: nat, j: nat, k: ClaimKey)
    requires Keystroke(events, i, j, k)
    ensures i < j < |events| && Of(events[i], k)
  {
  }

  /** What is kept back had a claim waiting for it, or follows a keystroke of its key without silence. */
  lemma KeptHasReason(events: seq<Event>, i: nat, j: nat, m: nat, k: ClaimKey)
    requires Keystroke(events, i, j, k) && i <= m <= j && Of(events[m], k)
    ensures Accepted(events[m]) ==> Kept(events, m)
    ensures Kept(events, m) ==> AcceptedBy(events, i, j, k) && (m > i ==> CarriedOn(events, i, m, k))
    ensures m == i && Kept(events, m) ==> Accepted(events[i])
  {
    KeystrokeBegins(events, i, j, k);
    KeptIffVouchedFor(events, i, j, m, k);
    hide Keystroke, Kept, Accepted, Of, Fresh;
    assert HeardThroughout(events, m, m);
    if VouchedFor(events, i, m, k) {
      var l :| i <= l <= m && Of(events[l], k) && Accepted(events[l]) && HeardThroughout(events, l, m);
      assert AcceptedBy(events, i, j, k);
    }
  }

  /** Carried on from keystroke to keystroke, a claim vouches for them all. */
  lemma {:induction false} CarriedOnIsVouchedFor(events: seq<Event>, i: nat, j: nat, m: nat, k: ClaimKey)
    requires i <= m <= j < |events| && Of(events[i], k) && Accepted(events[i]) && Of(events[m], k)
    requires forall n :: i < n <= j && Of(events[n], k) ==> CarriedOn(events, i, n, k)
    ensures VouchedFor(events, i, m, k)
    decreases m
  {
    hide Of, Accepted, Fresh;
    if Accepted(events[m]) {
      assert HeardThroughout(events, m, m);
    } else {
      var p :| i <= p < m && Of(events[p], k) && HeardThroughout(events, p, m);
      CarriedOnIsVouchedFor(events, i, j, p, k);
      var l :| i <= l <= p && Of(events[l], k) && Accepted(events[l]) && HeardThroughout(events, l, p);
      assert HeardThroughout(events, l, m);
    }
  }

  // ---- Without silences, and with one ----

  /** From the first press that found a claim on, the filter keeps hearing of kept-back presses. */
  ghost predicate NeverSilent(events: seq<Event>, i: nat, j: nat, k: ClaimKey)
    requires j < |events|
  {
    forall l :: i < l <= j && AcceptedBy(events, i, l - 1, k) ==> Fresh(events, l)
  }

  /** Within such a keystroke the kept part is exactly what follows the first press a claim was waiting for. */
  lemma KeptFromFirstAccepted(events: seq<Event>, i: nat, j: nat, m: nat, k: ClaimKey)
    requires Keystroke(events, i, j, k) && NeverSilent(events, i, j, k) && i <= m <= j && Of(events[m], k)
    ensures Kept(events, m) <==> AcceptedBy(events, i, m, k)
  {
    KeptIffVouchedFor(events, i, j, m, k);
    hide Keystroke, Kept, Of, Accepted, Fresh;
    if AcceptedBy(events, i, m, k) {
      var l :| i <= l <= m && Of(events[l], k) && Accepted(events[l]);
      forall n | l < n <= m ensures Fresh(events, n) {
        assert AcceptedBy(events, i, n - 1, k);
      }
      assert HeardThroughout(events, l, m);
    }
  }

  /** Such a keystroke is seen whole or not at all exactly when a claim was waiting for its first press or for none. */
  lemma BalancedIffAcceptedAtOnceOrNever(events: seq<Event>, i: nat, j: nat, k: ClaimKey)
    requires Keystroke(events, i, j, k) && NeverSilent(events, i, j, k)
    ensures AllOrNothing(events, i, j, k) <==> Accepted(events[i]) || !AcceptedBy(events, i, j, k)
  {
    KeystrokeBegins(events, i, j, k);
    hide Keystroke, NeverSilent, Kept, Of;
    forall m | i <= m <= j && Of(events[m], k) ensures Kept(events, m) <==> AcceptedBy(events, i, m, k) {
      KeptFromFirstAccepted(events, i, j, m, k);
    }
    assert Accepted(events[i]) <==> AcceptedBy(events, i, i, k);
  }

  /** A key pressed when a claim is waiting for it, and nothing more until its release. */
  function LongPress(key: ClaimKey, now: nat, later: nat): seq<Event> {
    var armed := NOTHING.With(key);
    var mods := if key.Digit? then armed.DigitModifiers() else NO_MODIFIERS;
    [Event(Some(key), true, mods, false, now, armed), Event(Some(key), false, mods, false, later, armed)]
  }

  /**
   * A key that does not repeat, held for more than two seconds, is not claimed whole, though the claim was
   * waiting for its first press: the press is kept back and the application sees the release alone.
   */
  lemma LongPressIsSplit(key: ClaimKey, now: nat, later: nat)
    requires later > now + 2000
    ensures var events := LongPress(key, now, later);
            && Keystroke(events, 0, 1, Canonical(key)) && Accepted(events[0])
            && Kept(events, 0) && !Kept(events, 1)
  {
    var events := LongPress(key, now, later);
    WaitsForIt(key);
    EmptyRun();
    assert events[..0] == [];
    AfterNext(events, 0);
    hide Canonical, After, ClaimSet.With, ClaimSet.Contains, ClaimSet.DigitModifiers;
  }

  lemma WaitsForIt(key: ClaimKey)
    ensures NOTHING.With(key).Contains(key)
  {
    hide Bit, Canonical, ClaimSet.Keys, ClaimSet.Contains, ClaimSet.With;
    WithAddsOneKey(NOTHING, key);
    ContainsIsMembership(NOTHING.With(key), key);
  }

  /** Two seconds without a kept-back press, and no key is held any more, however many releases were lost. */
  lemma SilenceFrees(events: seq<Event>, i: nat, k: ClaimKey)
    requires i < |events| && Of(events[i], k)
    ensures k in Refreshed(After(events[..i]), events[i].now).held
       <==> k in After(events[..i]).held && Fresh(events, i)
  {
    hide After, LastKeptPress;
    HeldAtIsLastKeptPress(events, i);
  }

  /**
   * An ordinary keystroke is one: a press of a key not still held and its release within two seconds,
   * whenever they come, and whatever was armed and kept back before.
   */
  lemma PressAndReleaseAreOne(events: seq<Event>, i: nat, k: ClaimKey)
    requires i + 1 < |events| && k !in Refreshed(After(events[..i]), events[i].now).held
    requires Of(events[i], k) && events[i].press && Of(events[i + 1], k) && !events[i + 1].press
    requires events[i + 1].now <= events[i].now + 2000
    ensures Keystroke(events, i, i + 1, k) && NeverSilent(events, i, i + 1, k)
  {
    hide Accepts, Canonical, After;
    assert AcceptedBy(events, i, i, k) ==> Accepted(events[i]);
    assert Accepted(events[i]) ==> Kept(events, i);
    assert Kept(events, i) ==> LastKeptPress(events, i + 1) == events[i].now;
  }
}
