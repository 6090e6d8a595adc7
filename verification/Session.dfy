/** The session state table, the simulated meter, the duration display and the gateway contract projection. */
module Session {
  import opened Wrappers
  import opened Rounding
  import opened Pricing

  datatype SessionState = Available | Starting | Active | Stopping | Completed | Faulted

  datatype SessionEvent = StartRequested | OutputConfirmed | StopRequested | OutputOpened | FaultDetected | Reset

  datatype InvalidTransition = InvalidTransition(state: SessionState, event: SessionEvent)

  /** `transitionSession` */
  function Transition(state: SessionState, event: SessionEvent): Result<SessionState, InvalidTransition> {
    match (state, event)
    case (_, Reset) => Ok(Available)
    case (Available, StartRequested) => Ok(Starting)
    case (Starting, OutputConfirmed) => Ok(Active)
    case (Starting, FaultDetected) => Ok(Faulted)
    case (Active, StopRequested) => Ok(Stopping)
    case (Active, FaultDetected) => Ok(Faulted)
    case (Stopping, OutputOpened) => Ok(Completed)
    case (Stopping, FaultDetected) => Ok(Faulted)
    case (Completed, StartRequested) => Ok(Starting)
    case _ => Err(InvalidTransition(state, event))
  }

  /** The state after a sequence of events, if every one of them is accepted. */
  function After(state: SessionState, events: seq<SessionEvent>): Result<SessionState, InvalidTransition>
    decreases |events|
  {
    if events == [] then Ok(state)
    else
      var before :- After(state, events[..|events| - 1]);
      Transition(before, events[|events| - 1])
  }

  /** The events that must have come last for a simulator that started out available to be in a state. */
  function LastEvents(state: SessionState): seq<SessionEvent> {
    match state
    case Available => []
    case Starting => [StartRequested]
    case Active => [StartRequested, OutputConfirmed]
    case Stopping => [StartRequested, OutputConfirmed, StopRequested]
    case Completed => [StartRequested, OutputConfirmed, StopRequested, OutputOpened]
    case Faulted => [FaultDetected]
  }

  predicate EndsWith(s: seq<SessionEvent>, tail: seq<SessionEvent>) {
    |tail| <= |s| && s[|s| - |tail|..] == tail
  }

  /**
   * Output is active only right after a start request and its confirmation, completed only after a stop and an
   * opened output.
   */
  lemma {:induction false} StateTellsLastEvents(events: seq<SessionEvent>)
    requires After(Available, events).Ok?
    ensures EndsWith(events, LastEvents(After(Available, events).value))
    decreases |events|
  {
    hide EndsWith, LastEvents, Transition;
    if events == [] {
      NothingToEnd();
    } else {
      var front, e := events[..|events| - 1], events[|events| - 1];
      StateTellsLastEvents(front);
      var before := After(Available, front).value;
      LastEventsStep(before, e);
      ExtendedEnd(front, LastEvents(before), e);
      assert events == front + [e];
    }
  }

  lemma NothingToEnd()
    ensures EndsWith([], LastEvents(Available))
  {
  }

  lemma LastEventsStep(before: SessionState, e: SessionEvent)
    requires Transition(before, e).Ok?
    ensures var last := LastEvents(Transition(before, e).value);
      last == LastEvents(before) + [e] || last == [e] || last == []
  {
  }

  lemma ExtendedEnd(s: seq<SessionEvent>, tail: seq<SessionEvent>, x: SessionEvent)
    requires EndsWith(s, tail)
    ensures EndsWith(s + [x], tail + [x]) && EndsWith(s + [x], [x]) && EndsWith(s + [x], [])
  {
  }

  /** May `e` come right after the event before it, or first? The last event decides, whatever came earlier. */
  predicate MayFollow(previous: Option<SessionEvent>, e: SessionEvent) {
    match e
    case StartRequested => previous in {None, Some(Reset), Some(OutputOpened)}
    case OutputConfirmed => previous == Some(StartRequested)
    case StopRequested => previous == Some(OutputConfirmed)
    case OutputOpened => previous == Some(StopRequested)
    case FaultDetected => previous in {Some(StartRequested), Some(OutputConfirmed), Some(StopRequested)}
    case Reset => true
  }

  function LastEvent(events: seq<SessionEvent>): Option<SessionEvent> {
    if events == [] then None else Some(events[|events| - 1])
  }

  /** The state a simulator is in after its last event. */
  predicate StateAfter(state: SessionState, last: Option<SessionEvent>) {
    match state
    case Available => last in {None, Some(Reset)}
    case Starting => last == Some(StartRequested)
    case Active => last == Some(OutputConfirmed)
    case Stopping => last == Some(StopRequested)
    case Completed => last == Some(OutputOpened)
    case Faulted => last == Some(FaultDetected)
  }

  /**
   * From the start, a sequence of events is accepted exactly if each may follow the one before it; the last one
   * tells the state, and the first that may not follow is refused with the state it came in.
   */
  lemma {:induction false} SequencesExactly(events: seq<SessionEvent>)
    ensures After(Available, events).Ok? <==>
      forall i :: 0 <= i < |events| ==> MayFollow(LastEvent(events[..i]), events[i])
    ensures After(Available, events).Ok? ==> StateAfter(After(Available, events).value, LastEvent(events))
    ensures After(Available, events).Err? ==>
      exists i :: 0 <= i < |events| && After(Available, events[..i]).Ok?
          && !MayFollow(LastEvent(events[..i]), events[i])
               && After(Available, events).error == InvalidTransition(After(Available, events[..i]).value, events[i])
    decreases |events|
  {
    if events != [] {
      var n := |events| - 1;
      var front := events[..n];
      SequencesExactly(front);
      assert forall i :: 0 <= i < n ==> front[..i] == events[..i];
      if After(Available, front).Ok? {
        FollowsExactly(After(Available, front).value, LastEvent(front), events[n]);
      } else {
        var i :| 0 <= i < n && After(Available, front[..i]).Ok? && !MayFollow(LastEvent(front[..i]), front[i])
          && After(Available, front).error == InvalidTransition(After(Available, front[..i]).value, front[i]);
        assert events[..i] == front[..i] && !MayFollow(LastEvent(events[..i]), events[i]);
      }
    }
  }

  lemma FollowsExactly(state: SessionState, last: Option<SessionEvent>, e: SessionEvent)
    requires StateAfter(state, last)
    ensures Transition(state, e).Ok? <==> MayFollow(last, e)
    ensures Transition(state, e).Ok? ==> StateAfter(Transition(state, e).value, Some(e))
    ensures Transition(state, e).Err? ==> Transition(state, e).error == InvalidTransition(state, e)
  {
  }

  // ---- the meter ----

  /** Milli-watt-hours of one second at `power` watts, rounded half up. */
  function TickEnergy(power: nat): nat {
    HalfUp(power * 1000, 3600)
  }

  /** One tick is off by at most half a milli-watt-hour. */
  lemma TickEnergyError(power: nat)
    ensures 10 * power - 18 <= 36 * TickEnergy(power) <= 10 * power + 18
  {
    HalfUpBounds(power * 1000, 3600);
  }

  /** The doubles of the meter's expression, when its product is a safe integer. */
  lemma TickEnergyInDoublesIsExact(power: nat, product: real, quotient: real)
    requires power * 1000 < LIMIT
    requires NearestDouble((power * 1000) as real, product) && NearestDouble(product / 3600.0, quotient)
    ensures JsRound(quotient) == TickEnergy(power)
  {
    JsRoundOfProductIsExact(power, 1000, 3600, product, quotient);
  }

  /** A reading; `load` stands for the factor 0.82 + 0.08 sin(t/7) at the elapsed second t. */
  datatype Reading = Reading(elapsedSeconds: nat, currentA: real, powerW: nat, energyMilliWh: nat)

  type Load = nat -> real

  /** `toFixed(2)` of a number that is not negative. */
  function ToHundredths(x: real): real {
    (x * 100.0 + 0.5).Floor as real / 100.0
  }

  /** It is the nearest hundredth, ties up. */
  lemma ToHundredthsExactly(x: real)
    ensures var hundredths := ToHundredths(x) * 100.0;
      && hundredths.Floor as real == hundredths
      && hundredths - 0.5 <= x * 100.0 < hundredths + 0.5
  {
    var h := (x * 100.0 + 0.5).Floor;
    assert h as real <= x * 100.0 + 0.5 < h as real + 1.0;
    assert h as real / 100.0 * 100.0 == h as real;
  }

  function PowerAt(load: Load, second: nat, currentLimitA: nat, voltageV: JsNumber): nat {
    Max0(JsRound(NonNegativeInteger(voltageV) as real * (currentLimitA as real * load(second)) * 0.96))
  }

  /** `simulateTick` with its default step of one second. */
  function SimulateTick(load: Load, elapsedSeconds: nat, energyMilliWh: nat, currentLimitA: nat,
      voltageV: JsNumber): Reading {
    var next := elapsedSeconds + 1;
    var power := PowerAt(load, next, currentLimitA, voltageV);
    Reading(next, ToHundredths(currentLimitA as real * load(next)), power, energyMilliWh + TickEnergy(power))
  }

  /**
   * One tick, told by what it reads: a second later, the current is the limit times the load factor, the power
   * is the nearest watt to 0.96 of current times whole volts, and its energy is added to the meter.
   */
  lemma TickExactly(load: Load, elapsedSeconds: nat, energyMilliWh: nat, currentLimitA: nat, volts: nat, power: nat)
    requires load(elapsedSeconds + 1) >= 0.0
    ensures var r := SimulateTick(load, elapsedSeconds, energyMilliWh, currentLimitA, Finite(volts as real));
      var exact := volts as real * (currentLimitA as real * load(elapsedSeconds + 1)) * 0.96;
      && r.elapsedSeconds == elapsedSeconds + 1
      && r.currentA == ToHundredths(currentLimitA as real * load(elapsedSeconds + 1))
      && (r.powerW == power <==> power as real - 0.5 <= exact < power as real + 0.5)
      && r.energyMilliWh == energyMilliWh + TickEnergy(r.powerW)
  {
    hide ToHundredths, TickEnergy, NonNegativeInteger;
    var factor := load(elapsedSeconds + 1);
    WholeVolts(volts);
    ProductNotNegative(currentLimitA as real, factor);
    ProductNotNegative(volts as real, currentLimitA as real * factor);
    var exact := volts as real * (currentLimitA as real * factor) * 0.96;
    NearestWatt(exact, power);
    assert PowerAt(load, elapsedSeconds + 1, currentLimitA, Finite(volts as real)) == Max0(JsRound(exact));
  }

  lemma WholeVolts(volts: nat)
    ensures NonNegativeInteger(Finite(volts as real)) == volts
  {
    assert (volts as real + 0.5).Floor == volts;
  }

  lemma NearestWatt(exact: real, power: nat)
    requires exact >= 0.0
    ensures Max0(JsRound(exact)) == power <==> power as real - 0.5 <= exact < power as real + 0.5
  {
    var h := (exact + 0.5).Floor;
    assert h as real <= exact + 0.5 < h as real + 1.0;
  }

  function Sum(xs: seq<nat>): nat {
    if xs == [] then 0 else Sum(xs[..|xs| - 1]) + xs[|xs| - 1]
  }

  /** The meter after ticks at these powers. */
  function MeterOf(powers: seq<nat>): nat {
    if powers == [] then 0 else MeterOf(powers[..|powers| - 1]) + TickEnergy(powers[|powers| - 1])
  }

  /** After n ticks the meter is within n half-units of the exact energy. */
  lemma {:induction false} MeterError(powers: seq<nat>)
    ensures 10 * Sum(powers) - 18 * |powers| <= 36 * MeterOf(powers) <= 10 * Sum(powers) + 18 * |powers|
  {
    hide TickEnergy;
    if powers != [] {
      MeterError(powers[..|powers| - 1]);
      TickEnergyError(powers[|powers| - 1]);
    }
  }

  /** `samples.slice(-36)` */
  function LastOf(xs: seq<nat>, n: nat): seq<nat> {
    if |xs| <= n then xs else xs[|xs| - n..]
  }

  /** The last n, or all if there are fewer. */
  lemma LastOfExactly(xs: seq<nat>, n: nat)
    ensures var r := LastOf(xs, n);
      |r| == (if |xs| <= n then |xs| else n) && xs == xs[..|xs| - |r|] + r
  {
  }

  /** Cutting at every step keeps what cutting once at the end would keep. */
  lemma LastOfExtended(xs: seq<nat>, x: nat, n: nat)
    requires n > 0
    ensures LastOf(LastOf(xs, n) + [x], n) == LastOf(xs + [x], n)
  {
  }

  // ---- the duration display ----

  function TwoDigits(n: nat): string {
    if n < 10 then ['0', '0' + n as char] else DecimalDigits(n)
  }

  function DecimalDigits(n: nat): (s: string)
    ensures s != []
  {
    if n < 10 then ['0' + n as char] else DecimalDigits(n / 10) + ['0' + (n % 10) as char]
  }

  /** `formatDuration` */
  function FormatDuration(totalSeconds: JsNumber): string {
    var t := NonNegativeSeconds(totalSeconds);
    TwoDigits(t / 3600) + ":" + TwoDigits(t % 3600 / 60) + ":" + TwoDigits(t % 60)
  }

  function ReadDigits(s: string): nat {
    if s == [] then 0
    else
      var c := s[|s| - 1];
      ReadDigits(s[..|s| - 1]) * 10 + if '0' <= c <= '9' then c as int - '0' as int else 0
  }

  lemma {:induction false} ReadDecimalDigits(n: nat)
    ensures ReadDigits(DecimalDigits(n)) == n
  {
    if n >= 10 {
      ReadDecimalDigits(n / 10);
      assert DecimalDigits(n)[..|DecimalDigits(n)| - 1] == DecimalDigits(n / 10);
    } else {
      assert DecimalDigits(n)[..0] == [];
    }
  }

  lemma ReadTwoDigits(n: nat)
    ensures ReadDigits(TwoDigits(n)) == n && |TwoDigits(n)| >= 2
    ensures n < 100 ==> |TwoDigits(n)| == 2
  {
    if n < 10 {
      assert TwoDigits(n)[..1] == ['0'] && ['0'][..0] == [];
    } else {
      ReadDecimalDigits(n);
      assert DecimalDigits(n) == DecimalDigits(n / 10) + ['0' + (n % 10) as char];
    }
  }

  lemma HoursMinutesSeconds(t: nat)
    ensures t / 3600 * 3600 + t % 3600 / 60 * 60 + t % 60 == t && t % 3600 / 60 < 60 && t % 60 < 60
  {
  }

  /** The fields of a displayed duration read back to the whole seconds it was given. */
  lemma DurationReadsBack(totalSeconds: JsNumber)
    ensures var s := FormatDuration(totalSeconds); var n := |s|;
      && n >= 8 && s[n - 3] == ':' && s[n - 6] == ':'
      && ReadDigits(s[..n - 6]) * 3600 + ReadDigits(s[n - 5..n - 3]) * 60 + ReadDigits(s[n - 2..]) ==
          NonNegativeSeconds(totalSeconds)
      && ReadDigits(s[n - 5..n - 3]) < 60 && ReadDigits(s[n - 2..]) < 60
  {
    hide TwoDigits, ReadDigits, NonNegativeSeconds;
    var t := NonNegativeSeconds(totalSeconds);
    HoursMinutesSeconds(t);
    var h, m, x := TwoDigits(t / 3600), TwoDigits(t % 3600 / 60), TwoDigits(t % 60);
    ReadTwoDigits(t / 3600);
    ReadTwoDigits(t % 3600 / 60);
    ReadTwoDigits(t % 60);
    var s := FormatDuration(totalSeconds);
    var n := |s|;
    assert s[..n - 6] == h && s[n - 5..n - 3] == m && s[n - 2..] == x;
  }

  // ---- the contract projection ----

  const MAX_SAFE_INTEGER: int := 9007199254740991

  datatype PortState = PortAvailable | PortUnavailable | PortEnergizing | PortActive | PortStopping | PortFaulted

  datatype ContractSession = SessionEnergizing | SessionActive | SessionStopping | SessionCompleted | SessionFailed

  datatype Contract = Contract(portState: PortState, sessionState: Option<ContractSession>, actualOutput: string,
                               energyWh: int, energyRemainderMilliWh: int)

  datatype ContractError = UnsafeEnergy | UnsupportedOutput

  function MappedStates(state: SessionState): (PortState, Option<ContractSession>) {
    match state
    case Available => (PortAvailable, None)
    case Starting => (PortEnergizing, Some(SessionEnergizing))
    case Active => (PortActive, Some(SessionActive))
    case Stopping => (PortStopping, Some(SessionStopping))
    case Completed => (PortAvailable, Some(SessionCompleted))
    case Faulted => (PortFaulted, Some(SessionFailed))
  }

  predicate IsSafeInteger(v: JsNumber) {
    v.Finite? && v.value.Floor as real == v.value && -MAX_SAFE_INTEGER <= v.value.Floor <= MAX_SAFE_INTEGER
  }

  /** `projectSimulatorContract`, for a state of the table. */
  function Project(state: SessionState, energy: JsNumber, actualOutput: string): Result<Contract, ContractError> {
    if !IsSafeInteger(energy) || energy.value < 0.0 then Err(UnsafeEnergy)
    else if actualOutput !in ["open", "closed", "unknown"] then Err(UnsupportedOutput)
    else
      var (port, session) := MappedStates(state);
      var e := energy.value.Floor;
      Ok(Contract(if port.PortAvailable? && actualOutput != "open" then PortUnavailable else port,
                  session, actualOutput, e / 1000, e % 1000))
  }

  predicate IsNumber(v: JsNumber, n: nat) {
    v == Finite(n as real)
  }

  /** Of all numbers exactly the safe integers from zero up are accepted, with one of the three outputs. */
  lemma ProjectionAcceptsExactly(state: SessionState, energy: JsNumber, actualOutput: string)
    ensures Project(state, energy, actualOutput).Ok? <==>
      (exists n: nat :: IsNumber(energy, n) && n <= 9007199254740991) && actualOutput in ["open", "closed", "unknown"]
    ensures Project(state, energy, actualOutput) == Err(UnsupportedOutput) ==>
        actualOutput !in ["open", "closed", "unknown"]
  {
    if IsSafeInteger(energy) && energy.value >= 0.0 {
      assert IsNumber(energy, energy.value.Floor);
    }
    forall n: nat | IsNumber(energy, n) && n <= MAX_SAFE_INTEGER
      ensures IsSafeInteger(energy) && energy.value >= 0.0
    {
      assert (n as real).Floor == n;
    }
  }

  /** The projection loses no energy, and offers a port for reuse only when its output is known to be open. */
  lemma ProjectionKeepsEnergy(state: SessionState, energy: nat, actualOutput: string)
    requires Project(state, Finite(energy as real), actualOutput).Ok?
    ensures var p := Project(state, Finite(energy as real), actualOutput).value;
      && p.energyWh * 1000 + p.energyRemainderMilliWh == energy && 0 <= p.energyRemainderMilliWh < 1000
      && (p.portState.PortAvailable? <==> actualOutput == "open" && (state.Available? || state.Completed?))
      && (p.sessionState.None? <==> state.Available?)
      && (p.portState.PortUnavailable? <==> actualOutput != "open" && (state.Available? || state.Completed?))
      && (p.portState.PortEnergizing? <==> state.Starting?) && (p.portState.PortActive? <==> state.Active?)
      && (p.portState.PortStopping? <==> state.Stopping?) && (p.portState.PortFaulted? <==> state.Faulted?)
      && (p.sessionState == Some(SessionEnergizing) <==> state.Starting?)
      && (p.sessionState == Some(SessionActive) <==> state.Active?)
      && (p.sessionState == Some(SessionStopping) <==> state.Stopping?)
      && (p.sessionState == Some(SessionCompleted) <==> state.Completed?)
      && (p.sessionState == Some(SessionFailed) <==> state.Faulted?)
      && p.actualOutput == actualOutput
  {
    assert (energy as real).Floor == energy;
  }

  /** The projection of a state with known output determines the state. */
  lemma ProjectionTellsState(s: SessionState, t: SessionState, energy: nat, actualOutput: string)
    requires Project(s, Finite(energy as real), actualOutput).Ok?
    requires Project(s, Finite(energy as real), actualOutput) == Project(t, Finite(energy as real), actualOutput)
    ensures s == t
  {
  }

  /** Pricing a projection's whole watt-hours instead of the meter itself never charges more. */
  lemma PricingTheProjection(state: SessionState, energy: nat, actualOutput: string, seconds: nat, r: Rates)
    requires Project(state, Finite(energy as real), actualOutput).Ok?
    ensures var wh := Project(state, Finite(energy as real), actualOutput).value.energyWh;
      && wh >= 0
      && Price(wh * 1000, seconds, r).totalMinor <= Price(energy, seconds, r).totalMinor
      && Price(energy, seconds, r).energyMinor <= Price(wh * 1000, seconds, r).energyMinor
          + (999 * r.perKwh + KWH - 1) / KWH
  {
    hide Price;
    assert (energy as real).Floor == energy;
    RepricingTruncatedEnergy(energy, seconds, r);
  }
}
