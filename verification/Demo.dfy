/**
 * The simulator page: every click, tick and timer it can receive, in any order, as steps on its state
 * and its timers. `powers` records the readings since the last start; nothing in the page reads it.
 */
module Demo {
  import opened Wrappers
  import opened Rounding
  import opened Pricing
  import opened Session

  const DEFAULT_RATES: Rates := Rates(500, 1200, 20, 1800)

  datatype State = State(
    session: SessionState, sessionStarted: bool,
    currentLimitA: nat, voltageV: JsNumber,
    currentA: real, powerW: nat, energyMilliWh: nat, elapsedSeconds: nat,
    networkOnline: bool, fault: Option<string>, samples: seq<nat>,
    draftTariff: Rates, activeTariff: Rates)

  /** `createInitialState` */
  const INITIAL: State := State(Available, false, 16, Finite(230.0), 0.0, 0, 0, 0, true, None, [0], DEFAULT_RATES,
      DEFAULT_RATES)

  /** What a pending transition timer will do when it fires. */
  datatype Timer = ConfirmOutput | OpenOutput

  /** The page: its state, the browser's pending timeouts, and the id kept in `this.transitionTimer`. */
  datatype Page = Page(state: State, pending: map<nat, Timer>, transitionTimer: Option<nat>, nextTimer: nat,
      powers: seq<nat>)

  const MOUNTED: Page := Page(INITIAL, map[], None, 0, [])

  datatype RateField = FixedField | EnergyField | TimeField | TaxField

  datatype Event =
    | Tick
    | TimerFires(id: nat)
    | ClickStart | ClickStop | ClickFault | ClickReset
    | MoveLimit(amperes: nat)
    | TypeVoltage(text: JsNumber)
    | ToggleNetwork(online: bool)
    | TypeRate(field: RateField, text: JsNumber)

  // ---- which controls are enabled ----

  predicate Transitioning(s: SessionState) { s.Starting? || s.Stopping? }

  /**
   * The guards with which the page disables its controls; the ticker always runs, a timeout fires only while
   * pending.
   */
  predicate Enabled(p: Page, e: Event) {
    var s := p.state.session;
    match e
    case Tick => true
    case TimerFires(id) => id in p.pending
    case ClickStart => p.state.networkOnline && (s.Available? || s.Completed?)
    case ClickStop => s.Active?
    case ClickFault => s.Active? || s.Starting?
    case ClickReset => true
    case MoveLimit(a) => !Transitioning(s) && 6 <= a <= 32
    case TypeVoltage(_) => !s.Active? && !Transitioning(s)
    case ToggleNetwork(_) => true
    case TypeRate(_, _) => !s.Active? && !Transitioning(s)
  }

  // ---- what each handler does ----

  function ClearTimer(p: Page): Page {
    p.(pending := if p.transitionTimer.Some? then p.pending - {p.transitionTimer.value} else p.pending)
  }

  function SetTimer(p: Page, timer: Timer): Page {
    p.(pending := p.pending[p.nextTimer := timer], transitionTimer := Some(p.nextTimer), nextTimer := p.nextTimer + 1)
  }

  function AtLeast(low: real, x: real): real { if x < low then low else x }

  /** `Math.max(100, Number(value) || 230)` */
  function TypedVoltage(text: JsNumber): JsNumber {
    Finite(AtLeast(100.0, if text.NaN? || text.value == 0.0 then 230.0 else text.value))
  }

  /** `Math.max(0, Math.round((Number(value) || 0) * 100))` */
  function TypedRate(text: JsNumber): nat {
    Max0(JsRound(OrZero(text) * 100.0))
  }

  function WithRate(r: Rates, field: RateField, minor: nat): Rates {
    match field
    case FixedField => r.(fixed := minor)
    case EnergyField => r.(perKwh := minor)
    case TimeField => r.(perMinute := minor)
    case TaxField => r.(tax := minor)
  }

  /** `tick`: only an active session is metered. */
  function Ticked(load: Load, p: Page): Page {
    var s := p.state;
    if !s.session.Active? then p else
    var r := SimulateTick(load, s.elapsedSeconds, s.energyMilliWh, s.currentLimitA, s.voltageV);
    p.(state := s.(elapsedSeconds := r.elapsedSeconds, currentA := r.currentA, powerW := r.powerW,
                   energyMilliWh := r.energyMilliWh, samples := LastOf(s.samples + [r.powerW], 36)),
       powers := p.powers + [r.powerW])
  }

  /** `startSession` */
  function Started(p: Page): Result<Page, InvalidTransition> {
    var next :- Transition(p.state.session, StartRequested);
    var s := p.state.(session := next, sessionStarted := true, currentA := 0.0, powerW := 0, energyMilliWh := 0,
                      elapsedSeconds := 0, fault := None, samples := [0], activeTariff := p.state.draftTariff);
    Ok(SetTimer(ClearTimer(p.(state := s, powers := [])), ConfirmOutput))
  }

  /** `stopSession` */
  function Stopped(p: Page): Result<Page, InvalidTransition> {
    var next :- Transition(p.state.session, StopRequested);
    Ok(SetTimer(ClearTimer(p.(state := p.state.(session := next, currentA := 0.0, powerW := 0))), OpenOutput))
  }

  /** `simulateFault` */
  function FaultInjected(p: Page): Result<Page, InvalidTransition> {
    var next :- Transition(p.state.session, FaultDetected);
    var q := ClearTimer(p);
    Ok(q.(state := q.state.(session := next, currentA := 0.0, powerW := 0, fault := Some("OVER_TEMPERATURE"))))
  }

  /** `resetSimulator` */
  function WasReset(p: Page): Result<Page, InvalidTransition> {
    var next :- Transition(p.state.session, Reset);
    var q := ClearTimer(p);
    Ok(q.(state := INITIAL.(session := next, currentLimitA := q.state.currentLimitA, voltageV := q.state.voltageV,
                            networkOnline := q.state.networkOnline, draftTariff := q.state.draftTariff),
          powers := []))
  }

  /** A timeout's callback: it acts only if the session is still where the timer was set. */
  function Fired(p: Page, id: nat): Result<Page, InvalidTransition>
    requires id in p.pending
  {
    var q := p.(pending := p.pending - {id});
    match p.pending[id]
    case ConfirmOutput =>
      if !p.state.session.Starting? then Ok(q) else
      var next :- Transition(p.state.session, OutputConfirmed);
      Ok(q.(state := q.state.(session := next)))
    case OpenOutput =>
      if !p.state.session.Stopping? then Ok(q) else
      var next :- Transition(p.state.session, OutputOpened);
      Ok(q.(state := q.state.(session := next)))
  }

  /** One event on the page; Err is the exception of an invalid transition. */
  function Step(load: Load, p: Page, e: Event): Result<Page, InvalidTransition>
    requires Enabled(p, e)
  {
    match e
    case Tick => Ok(Ticked(load, p))
    case TimerFires(id) => Fired(p, id)
    case ClickStart => Started(p)
    case ClickStop => Stopped(p)
    case ClickFault => FaultInjected(p)
    case ClickReset => WasReset(p)
    case MoveLimit(a) => Ok(p.(state := p.state.(currentLimitA := a)))
    case TypeVoltage(text) => Ok(p.(state := p.state.(voltageV := TypedVoltage(text))))
    case ToggleNetwork(online) => Ok(p.(state := p.state.(networkOnline := online)))
    case TypeRate(field, text) =>
      Ok(p.(state := p.state.(draftTariff := WithRate(p.state.draftTariff, field, TypedRate(text)))))
  }

  /** The page after a run of events each of which was enabled when it came; None for any other sequence. */
  function Run(load: Load, p: Page, events: seq<Event>): Option<Result<Page, InvalidTransition>>
    decreases |events|
  {
    if events == [] then Some(Ok(p))
    else if !Enabled(p, events[0]) then None
    else
      match Step(load, p, events[0])
      case Err(x) => Some(Err(x))
      case Ok(q) => Run(load, q, events[1..])
  }

  // ---- the run invariant ----

  /**
   * A timer is pending exactly in the two transitional states, it is the one the page remembers, and of the
   * right kind.
   */
  predicate TimersMatch(p: Page) {
    && p.pending == (if p.transitionTimer.None? then map[]
                     else if p.state.session.Starting? then map[p.transitionTimer.value := ConfirmOutput]
                     else if p.state.session.Stopping? then map[p.transitionTimer.value := OpenOutput]
                     else map[])
    && (Transitioning(p.state.session) ==> p.transitionTimer.Some?)
    && (p.transitionTimer.Some? ==> p.transitionTimer.value < p.nextTimer)
  }

  predicate StateMatches(s: State) {
    && (!s.session.Active? ==> s.powerW == 0 && s.currentA == 0.0)
    && s.fault == (if s.session.Faulted? then Some("OVER_TEMPERATURE") else None)
    && (s.sessionStarted <==> !s.session.Available?)
  }

  /** The meter, the clock and the graph are the ones of the readings since the last start. */
  predicate MeterMatches(p: Page) {
    && p.state.energyMilliWh == MeterOf(p.powers)
    && p.state.elapsedSeconds == |p.powers|
    && p.state.samples == LastOf([0] + p.powers, 36)
    && (p.state.session.Available? || p.state.session.Starting? ==> p.powers == [])
  }

  predicate Invariant(p: Page) {
    TimersMatch(p) && StateMatches(p.state) && MeterMatches(p)
  }

  lemma MountedSatisfiesInvariant()
    ensures Invariant(MOUNTED)
  {
    assert [0] + [] == [0];
  }

  /** No enabled event throws. */
  lemma NeverThrows(load: Load, p: Page, e: Event)
    requires Enabled(p, e)
    ensures Step(load, p, e).Ok?
  {
  }

  /** A timer that fires finds the session in the state it was set for: no callback is ever stale. */
  lemma NoStaleTimer(p: Page, id: nat)
    requires TimersMatch(p) && id in p.pending
    ensures p.transitionTimer == Some(id)
    ensures p.pending[id].ConfirmOutput? ==>
        p.state.session.Starting? && Fired(p, id).Ok? && Fired(p, id).value.state.session.Active?
    ensures p.pending[id].OpenOutput? ==>
        p.state.session.Stopping? && Fired(p, id).Ok? && Fired(p, id).value.state.session.Completed?
  {
  }

  lemma TimersCleared(p: Page)
    requires TimersMatch(p)
    ensures ClearTimer(p).pending == map[]
  {
  }

  lemma StepKeepsTimers(load: Load, p: Page, e: Event)
    requires Enabled(p, e) && TimersMatch(p) && Step(load, p, e).Ok?
    ensures TimersMatch(Step(load, p, e).value)
  {
    hide SimulateTick, TypedVoltage, TypedRate, WithRate;
    TimersCleared(p);
  }

  lemma StepKeepsState(load: Load, p: Page, e: Event)
    requires Enabled(p, e) && StateMatches(p.state) && Step(load, p, e).Ok?
    ensures StateMatches(Step(load, p, e).value.state)
  {
    hide SimulateTick, TypedVoltage, TypedRate, WithRate;
  }

  lemma StepKeepsMeter(load: Load, p: Page, e: Event)
    requires Enabled(p, e) && MeterMatches(p) && Step(load, p, e).Ok?
    ensures MeterMatches(Step(load, p, e).value)
  {
    hide PowerAt, TypedVoltage, TypedRate, WithRate, TickEnergy, LastOf;
    match e
    case Tick =>
      if p.state.session.Active? {
        var power := PowerAt(load, p.state.elapsedSeconds + 1, p.state.currentLimitA, p.state.voltageV);
        assert (p.powers + [power])[..|p.powers|] == p.powers;
        LastOfExtended([0] + p.powers, power, 36);
        assert [0] + p.powers + [power] == [0] + (p.powers + [power]);
      }
    case ClickStart =>
      OneSample();
    case ClickReset =>
      OneSample();
    case _ =>
  }

  lemma OneSample()
    ensures LastOf([0] + [], 36) == [0] && MeterOf([]) == 0
  {
    assert [0] + [] == [0];
  }

  /** Over every run of enabled events nothing throws and the invariant holds at the end. */
  lemma {:induction false} RunKeepsInvariant(load: Load, p: Page, events: seq<Event>)
    requires Invariant(p) && Run(load, p, events).Some?
    ensures Run(load, p, events).value.Ok? && Invariant(Run(load, p, events).value.value)
    decreases |events|
  {
    hide Step, Enabled, TimersMatch, StateMatches, MeterMatches;
    if events != [] {
      NeverThrows(load, p, events[0]);
      var q := Step(load, p, events[0]).value;
      StepKeepsTimers(load, p, events[0]);
      StepKeepsState(load, p, events[0]);
      StepKeepsMeter(load, p, events[0]);
      RunKeepsInvariant(load, q, events[1..]);
    }
  }

  /** The meter within its error, the seconds, and the graph: the last 36 readings of those since the start. */
  predicate MeterTold(p: Page) {
    var s := p.state;
      && 10 * Sum(p.powers) - 18 * s.elapsedSeconds <= 36 * s.energyMilliWh
      && 36 * s.energyMilliWh <= 10 * Sum(p.powers) + 18 * s.elapsedSeconds
      && s.elapsedSeconds == |p.powers|
      && (s.session.Available? || s.session.Starting? ==> s.energyMilliWh == 0 && s.elapsedSeconds == 0)
      && |s.samples| == (if |p.powers| < 36 then |p.powers| + 1 else 36)
      && s.samples == ([0] + p.powers)[|p.powers| + 1 - |s.samples|..]
  }

  /** Everything promised of a page reached by any interleaving of clicks, ticks and timers. */
  lemma ReachablePages(load: Load, events: seq<Event>)
    requires Run(load, MOUNTED, events).Some?
    ensures Run(load, MOUNTED, events).value.Ok?
    ensures var p := Run(load, MOUNTED, events).value.value; var s := p.state;
      && (s.session.Starting? <==> ConfirmOutput in p.pending.Values)
      && (s.session.Stopping? <==> OpenOutput in p.pending.Values)
      && |p.pending| <= 1
      && (!s.session.Active? ==> s.powerW == 0 && s.currentA == 0.0)
      && s.fault == (if s.session.Faulted? then Some("OVER_TEMPERATURE") else None)
      && (s.sessionStarted <==> !s.session.Available?)
      && MeterTold(p)
  {
    hide Run, MeterMatches, StateMatches, TimersMatch, MeterTold;
    MountedSatisfiesInvariant();
    RunKeepsInvariant(load, MOUNTED, events);
    var p := Run(load, MOUNTED, events).value.value;
    InvariantSaysTimers(p);
    InvariantSaysMeter(p);
    InvariantSaysState(p.state);
  }

  lemma InvariantSaysState(s: State)
    requires StateMatches(s)
    ensures (!s.session.Active? ==> s.powerW == 0 && s.currentA == 0.0)
      && s.fault == (if s.session.Faulted? then Some("OVER_TEMPERATURE") else None)
          && (s.sessionStarted <==> !s.session.Available?)
  {
  }

  lemma InvariantSaysTimers(p: Page)
    requires TimersMatch(p)
    ensures p.state.session.Starting? <==> ConfirmOutput in p.pending.Values
    ensures p.state.session.Stopping? <==> OpenOutput in p.pending.Values
    ensures |p.pending| <= 1
  {
    if p.transitionTimer.Some? {
      var id := p.transitionTimer.value;
      if Transitioning(p.state.session) {
        assert p.pending[id] in p.pending.Values;
      }
      assert p.pending.Keys <= {id};
      SmallSubset(p.pending.Keys, id);
    }
  }

  lemma SmallSubset(s: set<nat>, x: nat)
    requires s <= {x}
    ensures |s| <= 1
  {
    if x in s {
      assert s == {x};
    } else {
      assert s == {};
    }
  }

  lemma InvariantSaysMeter(p: Page)
    requires MeterMatches(p)
    ensures MeterTold(p)
  {
    hide LastOf, Sum;
    MeterError(p.powers);
    SamplesAre(p);
  }

  lemma SamplesAre(p: Page)
    requires p.state.samples == LastOf([0] + p.powers, 36)
    ensures var samples := p.state.samples;
      && |samples| == (if |p.powers| < 36 then |p.powers| + 1 else 36)
      && samples == ([0] + p.powers)[|p.powers| + 1 - |samples|..]
  {
    hide LastOf;
    LastOfExactly([0] + p.powers, 36);
  }

  // ---- the meter advances ----

  /** What the controls and text fields let through. */
  predicate InputsInRange(s: State) {
    6 <= s.currentLimitA <= 32 && s.voltageV.Finite? && s.voltageV.value >= 100.0
  }

  lemma StepKeepsInputs(load: Load, p: Page, e: Event)
    requires Enabled(p, e) && InputsInRange(p.state) && Step(load, p, e).Ok?
    ensures InputsInRange(Step(load, p, e).value.state)
  {
    hide PowerAt, TickEnergy, LastOf, TypedRate, WithRate;
  }

  lemma {:induction false} RunKeepsInputs(load: Load, p: Page, events: seq<Event>)
    requires InputsInRange(p.state) && Run(load, p, events).Some? && Run(load, p, events).value.Ok?
    ensures InputsInRange(Run(load, p, events).value.value.state)
    decreases |events|
  {
    hide Step, Enabled, InputsInRange;
    if events != [] {
      StepKeepsInputs(load, p, events[0]);
      RunKeepsInputs(load, Step(load, p, events[0]).value, events[1..]);
    }
  }

  /** The load factor 0.82 + 0.08 sin stays between 0.74 and 0.90. */
  ghost predicate IsLoadFactor(load: Load) {
    forall t :: 0.74 <= load(t) <= 0.90
  }

  lemma SineLoadIsFactor(load: Load, sine: nat -> real)
    requires forall t :: -1.0 <= sine(t) <= 1.0 && load(t) == 0.82 + 0.08 * sine(t)
    ensures IsLoadFactor(load)
  {
  }

  lemma PowerIsPositive(load: Load, second: nat, limit: nat, voltageV: JsNumber)
    requires IsLoadFactor(load) && limit >= 6 && voltageV.Finite? && voltageV.value >= 100.0
    ensures PowerAt(load, second, limit, voltageV) >= 426
  {
    var v := NonNegativeInteger(voltageV);
    assert v >= 100;
    var f := load(second);
    assert f >= 0.74;
    var current := limit as real * f;
    assert current >= 6.0 * 0.74 by { AtLeastProduct(limit as real, 6.0, f, 0.74); }
    assert v as real * current >= 100.0 * 4.44 by { AtLeastProduct(v as real, 100.0, current, 4.44); }
  }

  lemma AtLeastProduct(x: real, a: real, y: real, b: real)
    requires x >= a >= 0.0 && y >= b >= 0.0
    ensures x * y >= a * b
  {
    ProductNotNegative(x - a, y);
    ProductNotNegative(a, y - b);
    assert x * y - a * b == (x - a) * y + a * (y - b);
  }

  // ---- the page's doubles ----

  /** The voltage field has no maximum of its own. */
  predicate VoltageTypedAtMost(e: Event, high: nat) {
    e.TypeVoltage? && e.text.Finite? ==> e.text.value <= high as real
  }

  predicate VoltagesTypedAtMost(events: seq<Event>, high: nat) {
    forall i :: 0 <= i < |events| ==> VoltageTypedAtMost(events[i], high)
  }

  /** The voltage is at most `high`, and so no power was more than 28 times that. */
  predicate PowersAtMost(p: Page, high: nat) {
    && InputsInRange(p.state) && p.state.voltageV.value <= high as real
    && forall i :: 0 <= i < |p.powers| ==> p.powers[i] <= 28 * high
  }

  /** At most 32 A, of which the load draws 0.9, with a power factor of 0.96. */
  lemma PowerIsAtMost(load: Load, second: nat, limit: nat, voltageV: JsNumber, high: nat)
    requires IsLoadFactor(load) && limit <= 32 && voltageV.Finite? && voltageV.value <= high as real && high >= 2
    ensures PowerAt(load, second, limit, voltageV) <= 28 * high
  {
    var v := NonNegativeInteger(voltageV);
    assert v <= high;
    var f := load(second);
    assert 0.74 <= f <= 0.90;
    var current := limit as real * f;
    assert 0.0 <= current <= 32.0 * 0.9 by {
      ProductNotNegative(limit as real, f);
      AtLeastProduct(32.0, limit as real, 0.9, f);
    }
    assert v as real * current <= high as real * 28.8 by {
      AtLeastProduct(high as real, v as real, 28.8, current);
    }
  }

  lemma StepKeepsPowersAtMost(load: Load, p: Page, e: Event, high: nat)
    requires IsLoadFactor(load) && high >= 230 && VoltageTypedAtMost(e, high) && PowersAtMost(p, high)
    requires Enabled(p, e) && Step(load, p, e).Ok?
    ensures PowersAtMost(Step(load, p, e).value, high)
  {
    hide PowerAt, TickEnergy, LastOf, TypedRate, WithRate, IsLoadFactor;
    var s := p.state;
    PowerIsAtMost(load, s.elapsedSeconds + 1, s.currentLimitA, s.voltageV, high);
  }

  lemma {:induction false} RunKeepsPowersAtMost(load: Load, p: Page, events: seq<Event>, high: nat)
    requires IsLoadFactor(load) && high >= 230 && VoltagesTypedAtMost(events, high) && PowersAtMost(p, high)
    requires Run(load, p, events).Some? && Run(load, p, events).value.Ok?
    ensures PowersAtMost(Run(load, p, events).value.value, high)
    decreases |events|
  {
    hide Step, Enabled, PowersAtMost, VoltageTypedAtMost, IsLoadFactor;
    if events != [] {
      StepKeepsPowersAtMost(load, p, events[0], high);
      RunKeepsPowersAtMost(load, Step(load, p, events[0]).value, events[1..], high);
    }
  }

  lemma TickEnergyIsAtMost(power: nat, high: nat)
    requires power <= 28 * high && high >= 3
    ensures TickEnergy(power) <= 8 * high
  {
    TickEnergyError(power);
  }

  lemma {:induction false} MeterIsAtMost(powers: seq<nat>, high: nat)
    requires high >= 3 && forall i :: 0 <= i < |powers| ==> powers[i] <= 28 * high
    ensures MeterOf(powers) <= 8 * high * |powers|
  {
    hide TickEnergy;
    if powers != [] {
      var n := |powers| - 1;
      MeterIsAtMost(powers[..n], high);
      TickEnergyIsAtMost(powers[n], high);
      assert 8 * high * (n + 1) == 8 * high * n + 8 * high;
    }
  }

  /** A reachable page whose typed voltages stay below a bound. */
  lemma MeterOfPageIsAtMost(load: Load, events: seq<Event>, high: nat)
    requires IsLoadFactor(load) && high >= 230
    requires forall e :: e in events && e.TypeVoltage? && e.text.Finite? ==> e.text.value <= high as real
    requires Run(load, MOUNTED, events).Some? && Run(load, MOUNTED, events).value.Ok?
    ensures var p := Run(load, MOUNTED, events).value.value;
      PowersAtMost(p, high) && p.state.energyMilliWh <= 8 * high * p.state.elapsedSeconds
  {
    assert VoltagesTypedAtMost(events, high);
    hide Run, TimersMatch, StateMatches, IsLoadFactor, VoltageTypedAtMost, LastOf;
    MountedSatisfiesInvariant();
    RunKeepsInvariant(load, MOUNTED, events);
    RunKeepsPowersAtMost(load, MOUNTED, events, high);
    MeterIsAtMost(Run(load, MOUNTED, events).value.value.powers, high);
  }

  /** The doubles of one tick: the product, its quotient, and the meter they are added to. */
  ghost predicate TickedInDoubles(power: nat, energy: nat, product: real, quotient: real, sum: real) {
    && NearestDouble((power * 1000) as real, product)
    && NearestDouble(product / 3600.0, quotient)
    && NearestDouble(energy as real + JsRound(quotient) as real, sum)
  }

  /**
   * The next tick of every reachable page computes in doubles, whichever nearest ones are chosen, exactly the
   * integer meter, as long as the typed voltages and the seconds so far keep the meter a safe integer. With up
   * to 1000 V that is 10^12 seconds.
   */
  lemma ReachableTickIsExact(load: Load, events: seq<Event>, high: nat, product: real, quotient: real, sum: real)
    requires IsLoadFactor(load) && Run(load, MOUNTED, events).Some? && Run(load, MOUNTED, events).value.Ok?
    requires 230 <= high && 28000 * high < LIMIT
    requires forall e :: e in events && e.TypeVoltage? && e.text.Finite? ==> e.text.value <= high as real
    requires var s := Run(load, MOUNTED, events).value.value.state;
      && s.session.Active? && 8 * high * (s.elapsedSeconds + 1) < LIMIT
      && TickedInDoubles(PowerAt(load, s.elapsedSeconds + 1, s.currentLimitA, s.voltageV), s.energyMilliWh,
                         product, quotient, sum)
    ensures sum == Ticked(load, Run(load, MOUNTED, events).value.value).state.energyMilliWh as real
  {
    hide Run, PowerAt, TickEnergy, NearestDouble, LastOf, IsLoadFactor, VoltagesTypedAtMost, JsRound;
    MeterOfPageIsAtMost(load, events, high);
    var s := Run(load, MOUNTED, events).value.value.state;
    var power := PowerAt(load, s.elapsedSeconds + 1, s.currentLimitA, s.voltageV);
    PowerIsAtMost(load, s.elapsedSeconds + 1, s.currentLimitA, s.voltageV, high);
    TickEnergyInDoublesIsExact(power, product, quotient);
    TickEnergyIsAtMost(power, high);
    assert 8 * high * (s.elapsedSeconds + 1) == 8 * high * s.elapsedSeconds + 8 * high;
    SumIsExact(s.energyMilliWh, TickEnergy(power), sum);
  }

  /**
   * On every reachable page, a tick of an active session adds at least 118 mWh and one second; in any other
   * state it changes nothing.
   */
  lemma TickAdvancesActiveMeter(load: Load, events: seq<Event>)
    requires IsLoadFactor(load) && Run(load, MOUNTED, events).Some? && Run(load, MOUNTED, events).value.Ok?
    ensures var p := Run(load, MOUNTED, events).value.value; var q := Ticked(load, p);
      if p.state.session.Active?
      then q.state.energyMilliWh >= p.state.energyMilliWh + 118 && q.state.elapsedSeconds == p.state.elapsedSeconds + 1
      else q == p
  {
    hide Run, PowerAt, LastOf, IsLoadFactor;
    RunKeepsInputs(load, MOUNTED, events);
    var s := Run(load, MOUNTED, events).value.value.state;
    PowerIsPositive(load, s.elapsedSeconds + 1, s.currentLimitA, s.voltageV);
    var power := PowerAt(load, s.elapsedSeconds + 1, s.currentLimitA, s.voltageV);
    TickEnergyError(power);
  }

  // ---- the running charge ----

  /** The charge the page shows. */
  function RunningCharge(s: State): Charge {
    if !s.sessionStarted then NO_CHARGE else Price(s.energyMilliWh, s.elapsedSeconds, s.activeTariff)
  }

  /** It is what `calculateCharge` makes of the page's state. */
  lemma RunningChargeIsCalculated(s: State)
    ensures RunningCharge(s) == CalculateCharge(Finite(s.energyMilliWh as real), Finite(s.elapsedSeconds as real),
      Tariff(Finite(s.activeTariff.fixed as real), Finite(s.activeTariff.perKwh as real),
             Finite(s.activeTariff.perMinute as real), Finite(s.activeTariff.tax as real)), s.sessionStarted)
    ensures !s.sessionStarted ==> RunningCharge(s) == Charge(0, 0, 0, 0, 0)
  {
    hide Price;
    IntegerSurvives(s.energyMilliWh);
    IntegerSurvives(s.elapsedSeconds);
    IntegerSurvives(s.activeTariff.fixed);
    IntegerSurvives(s.activeTariff.perKwh);
    IntegerSurvives(s.activeTariff.perMinute);
    IntegerSurvives(s.activeTariff.tax);
  }

  lemma IntegerSurvives(n: nat)
    ensures NonNegativeInteger(Finite(n as real)) == n && NonNegativeSeconds(Finite(n as real)) == n
  {
    assert (n as real + 0.5).Floor == n;
  }

  /** The rate fields have no maximum either. */
  predicate RateTypedAtMost(e: Event, rate: nat) {
    e.TypeRate? ==> TypedRate(e.text) <= rate
  }

  predicate RatesTypedAtMost(events: seq<Event>, rate: nat) {
    forall i :: 0 <= i < |events| ==> RateTypedAtMost(events[i], rate)
  }

  function AllRates(rate: nat): Rates { Rates(rate, rate, rate, rate) }

  predicate TariffsAtMost(s: State, rate: nat) {
    RatesAtMost(s.draftTariff, AllRates(rate)) && RatesAtMost(s.activeTariff, AllRates(rate))
  }

  lemma StepKeepsTariffsAtMost(load: Load, p: Page, e: Event, rate: nat)
    requires rate >= 1800 && RateTypedAtMost(e, rate) && TariffsAtMost(p.state, rate)
    requires Enabled(p, e) && Step(load, p, e).Ok?
    ensures TariffsAtMost(Step(load, p, e).value.state, rate)
  {
    hide PowerAt, TickEnergy, LastOf, TypedRate, TypedVoltage;
  }

  lemma {:induction false} RunKeepsTariffsAtMost(load: Load, p: Page, events: seq<Event>, rate: nat)
    requires rate >= 1800 && RatesTypedAtMost(events, rate) && TariffsAtMost(p.state, rate)
    requires Run(load, p, events).Some? && Run(load, p, events).value.Ok?
    ensures TariffsAtMost(Run(load, p, events).value.value.state, rate)
    decreases |events|
  {
    hide Step, Enabled, TariffsAtMost, RateTypedAtMost;
    if events != [] {
      StepKeepsTariffsAtMost(load, p, events[0], rate);
      RunKeepsTariffsAtMost(load, Step(load, p, events[0]).value, events[1..], rate);
    }
  }

  /**
   * The charge shown on every reachable page is computed in doubles exactly as in integers, part by part, as
   * long as the largest session the typed voltages, the typed rates and the seconds allow is a safe charge.
   */
  lemma ReachableChargeIsExact(load: Load, events: seq<Event>, high: nat, rate: nat, seconds: nat, x: Doubles)
    requires IsLoadFactor(load) && Run(load, MOUNTED, events).Some? && Run(load, MOUNTED, events).value.Ok?
    requires 230 <= high && 1800 <= rate
    requires forall e :: e in events && e.TypeVoltage? && e.text.Finite? ==> e.text.value <= high as real
    requires forall e :: e in events && e.TypeRate? ==> TypedRate(e.text) <= rate
    requires SafeCharge(8 * high * seconds, seconds, AllRates(rate))
    requires var s := Run(load, MOUNTED, events).value.value.state;
      && s.sessionStarted && s.elapsedSeconds <= seconds
      && ComputedInDoubles(s.energyMilliWh, s.elapsedSeconds, s.activeTariff, x)
    ensures var charge := RunningCharge(Run(load, MOUNTED, events).value.value.state);
      && JsRound(x.energyQuotient) == charge.energyMinor && JsRound(x.timeQuotient) == charge.timeMinor
      && JsRound(x.taxQuotient) == charge.taxMinor && x.total == charge.totalMinor as real
  {
    assert RatesTypedAtMost(events, rate);
    hide Run, IsLoadFactor, VoltagesTypedAtMost, RatesTypedAtMost, ComputedInDoubles, SafeCharge, Price, JsRound;
    MeterOfPageIsAtMost(load, events, high);
    RunKeepsTariffsAtMost(load, MOUNTED, events, rate);
    var s := Run(load, MOUNTED, events).value.value.state;
    ProductMonotone(8 * high, s.elapsedSeconds, 8 * high, seconds);
    SmallerChargeIsSafe(s.energyMilliWh, s.elapsedSeconds, s.activeTariff,
                        8 * high * seconds, seconds, AllRates(rate));
    ChargeInDoublesIsExact(s.energyMilliWh, s.elapsedSeconds, s.activeTariff, x);
  }

  /** A day at up to 1000 V with every rate up to 100000 minor units is such a session. */
  lemma ADayIsSafe()
    ensures SafeCharge(8 * 1000 * 86400, 86400, AllRates(100000))
  {
  }

  /** A first kilowatt-hour within a minute, at the rates the page begins with: 5 + 12 + 0.20, and 18% tax. */
  lemma DefaultCharge()
    ensures Price(1000000, 60, MOUNTED.state.draftTariff) == Charge(500, 1200, 20, 310, 2030)
    ensures MOUNTED.state.activeTariff == MOUNTED.state.draftTariff
  {
  }

  predicate EndsSession(e: Event) { e.ClickStart? || e.ClickReset? }

  /** Outside a start or reset the price's inputs only grow, and stand still unless the session is active. */
  lemma StepKeepsCharge(load: Load, p: Page, e: Event)
    requires Enabled(p, e) && !EndsSession(e) && Step(load, p, e).Ok?
    ensures var s, t := p.state, Step(load, p, e).value.state;
      && t.activeTariff == s.activeTariff && t.sessionStarted == s.sessionStarted
      && s.energyMilliWh <= t.energyMilliWh && s.elapsedSeconds <= t.elapsedSeconds
      && (!s.session.Active? ==> t.energyMilliWh == s.energyMilliWh && t.elapsedSeconds == s.elapsedSeconds)
      && ((s.session.Stopping? || s.session.Completed? || s.session.Faulted?) ==>
          (t.session.Stopping? || t.session.Completed? || t.session.Faulted?))
  {
    hide PowerAt, TickEnergy, LastOf, TypedVoltage, TypedRate, WithRate;
  }

  function RateOf(r: Rates, field: RateField): nat {
    match field
    case FixedField => r.fixed
    case EnergyField => r.perKwh
    case TimeField => r.perMinute
    case TaxField => r.tax
  }

  /** A typed rate is the nearest hundredth, ties up, in minor units, and never negative; nothing typed is zero. */
  lemma TypedRateExactly(text: JsNumber, n: nat)
    ensures n == TypedRate(text) <==>
      if text.NaN? || text.value < 0.005 then n == 0 else n as real - 0.5 <= text.value * 100.0 < n as real + 0.5
  {
    var x := OrZero(text) * 100.0;
    var h := (x + 0.5).Floor;
    assert h as real <= x + 0.5 < h as real + 1.0;
  }

  /** A typed voltage is taken as it is from 100 V up; nothing and zero give 230 V, anything less 100 V. */
  lemma TypedVoltageExactly(text: JsNumber)
    ensures TypedVoltage(text).Finite?
    ensures TypedVoltage(text).value == if text.NaN? || text.value == 0.0 then 230.0
                                        else if text.value < 100.0 then 100.0 else text.value
  {
  }

  // ---- what the controls let through ----

  /** Is the network switched on after these events? */
  function Online(events: seq<Event>): bool {
    if events == [] then true
    else
      match events[|events| - 1]
      case ToggleNetwork(online) => online
      case _ => Online(events[..|events| - 1])
  }

  /** The current limit after these events. */
  function Limit(events: seq<Event>): nat {
    if events == [] then 16
    else
      match events[|events| - 1]
      case MoveLimit(a) => a
      case _ => Limit(events[..|events| - 1])
  }

  lemma {:induction false} PrefixRuns(load: Load, p: Page, a: seq<Event>, b: seq<Event>)
    requires Run(load, p, a + b).Some? && Run(load, p, a + b).value.Ok?
    ensures Run(load, p, a).Some? && Run(load, p, a).value.Ok?
    ensures Run(load, p, a + b) == Run(load, Run(load, p, a).value.value, b)
    decreases |a|
  {
    hide Step, Enabled;
    if a == [] {
      assert a + b == b;
    } else {
      assert (a + b)[1..] == a[1..] + b;
      PrefixRuns(load, Step(load, p, a[0]).value, a[1..], b);
    }
  }

  lemma StepKeepsSwitches(load: Load, p: Page, front: seq<Event>, e: Event)
    requires Enabled(p, e) && Step(load, p, e).Ok?
    requires p.state.networkOnline == Online(front) && p.state.currentLimitA == Limit(front)
    ensures var q := Step(load, p, e).value;
      q.state.networkOnline == Online(front + [e]) && q.state.currentLimitA == Limit(front + [e])
  {
    hide PowerAt, TickEnergy, LastOf, TypedVoltage, TypedRate, WithRate;
    assert (front + [e])[..|front|] == front;
  }

  lemma {:induction false} SwitchesTold(load: Load, events: seq<Event>)
    requires Run(load, MOUNTED, events).Some? && Run(load, MOUNTED, events).value.Ok?
    ensures var s := Run(load, MOUNTED, events).value.value.state;
      s.networkOnline == Online(events) && s.currentLimitA == Limit(events)
    decreases |events|
  {
    hide Run, Step, Enabled;
    if events == [] {
      NothingHappened(load);
    } else {
      var n := |events| - 1;
      var front, e := events[..n], events[n];
      assert front + [e] == events;
      PrefixRuns(load, MOUNTED, front, [e]);
      SwitchesTold(load, front);
      LastEventRuns(load, Run(load, MOUNTED, front).value.value, e);
      StepKeepsSwitches(load, Run(load, MOUNTED, front).value.value, front, e);
    }
  }

  lemma NothingHappened(load: Load)
    ensures Run(load, MOUNTED, []) == Some(Ok(MOUNTED))
  {
  }

  lemma LastEventRuns(load: Load, p: Page, e: Event)
    requires Run(load, p, [e]).Some? && Run(load, p, [e]).value.Ok?
    ensures Enabled(p, e) && Step(load, p, e) == Run(load, p, [e]).value
  {
    hide Step, Enabled;
    assert [e][1..] == [];
  }

  /**
   * In every run, a session starts only while the network is on, from an available or completed simulator; only
   * an active one is stopped, only a starting or active one faulted; limits stay between 6 and 32 A and are not
   * moved in transition; voltage and rates are not typed while a session starts, runs or stops.
   */
  lemma ClicksAreGuarded(load: Load, front: seq<Event>, e: Event)
    requires Run(load, MOUNTED, front).Some? && Run(load, MOUNTED, front).value.Ok?
    ensures var session := Run(load, MOUNTED, front).value.value.state.session;
      Run(load, MOUNTED, front + [e]).Some? <==>
        match e
        case Tick => true
        case TimerFires(id) => id in Run(load, MOUNTED, front).value.value.pending
        case ClickStart => Online(front) && session in {Available, Completed}
        case ClickStop => session == Active
        case ClickFault => session in {Starting, Active}
        case ClickReset => true
        case MoveLimit(a) => session !in {Starting, Stopping} && 6 <= a <= 32
        case TypeVoltage(_) => session !in {Starting, Active, Stopping}
        case ToggleNetwork(_) => true
        case TypeRate(_, _) => session !in {Starting, Active, Stopping}
  {
    hide Run, Step;
    SwitchesTold(load, front);
    RunOfExtended(load, MOUNTED, front, e);
  }

  lemma {:induction false} RunOfExtended(load: Load, p: Page, front: seq<Event>, e: Event)
    requires Run(load, p, front).Some? && Run(load, p, front).value.Ok?
    ensures Run(load, p, front + [e]).Some? <==> Enabled(Run(load, p, front).value.value, e)
    decreases |front|
  {
    hide Step, Enabled;
    if front == [] {
      assert front + [e] == [e] && [e][1..] == [];
    } else {
      assert (front + [e])[1..] == front[1..] + [e];
      RunOfExtended(load, Step(load, p, front[0]).value, front[1..], e);
    }
  }

  /** A typed rate changes that rate of the draft, and nothing else on the page. */
  lemma DraftEditIsLocal(load: Load, p: Page, field: RateField, text: JsNumber, other: RateField)
    requires Enabled(p, TypeRate(field, text))
    ensures var q := Step(load, p, TypeRate(field, text)).value;
      && RateOf(q.state.draftTariff, other) ==
          (if other == field then TypedRate(text) else RateOf(p.state.draftTariff, other))
      && q == p.(state := p.state.(draftTariff := q.state.draftTariff))
      && RunningCharge(q.state) == RunningCharge(p.state)
  {
    hide Price, TypedRate;
  }

  /** Stopping, stopped or faulted. */
  predicate Ended(s: SessionState) { s.Stopping? || s.Completed? || s.Faulted? }

  /** Within a session the charge never falls; once it is stopping or faulted it no longer changes at all. */
  lemma {:induction false} ChargeWithinSession(load: Load, p: Page, events: seq<Event>)
    requires Run(load, p, events).Some? && Run(load, p, events).value.Ok?
    requires forall i :: 0 <= i < |events| ==> !EndsSession(events[i])
    ensures var s, t := p.state, Run(load, p, events).value.value.state;
      && t.activeTariff == s.activeTariff
      && RunningCharge(s).totalMinor <= RunningCharge(t).totalMinor
      && (Ended(s.session) ==> RunningCharge(t) == RunningCharge(s) && t.energyMilliWh == s.energyMilliWh)
    decreases |events|
  {
    hide Step, Enabled, Price;
    if events != [] {
      var q := Step(load, p, events[0]).value;
      StepKeepsCharge(load, p, events[0]);
      ChargeWithinSession(load, q, events[1..]);
      PriceMonotone(p.state.energyMilliWh, p.state.elapsedSeconds, p.state.activeTariff,
                    q.state.energyMilliWh, q.state.elapsedSeconds, q.state.activeTariff);
    }
  }

  /** A session is priced with the tariff drafted when it was started, whatever is drafted afterwards. */
  lemma TariffSnapshot(load: Load, p: Page, events: seq<Event>)
    requires Enabled(p, ClickStart)
    requires forall i :: 0 <= i < |events| ==> !EndsSession(events[i])
    requires Run(load, p, [ClickStart] + events).Some? && Run(load, p, [ClickStart] + events).value.Ok?
    ensures Run(load, p, [ClickStart] + events).value.value.state.activeTariff == p.state.draftTariff
  {
    hide Enabled, Transition;
    NeverThrows(load, p, ClickStart);
    assert ([ClickStart] + events)[1..] == events;
    ChargeWithinSession(load, Step(load, p, ClickStart).value, events);
  }
}
