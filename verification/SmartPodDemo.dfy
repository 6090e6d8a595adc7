/** The simulator page as the component that owns its state, its timers and its handlers. */
module SmartPodDemo {
  import opened Wrappers
  import opened Pricing
  import opened Session
  import opened Demo

  class SmartPodDemo {
    const load: Load
    var state: State
    var pending: map<nat, Timer>
    var transitionTimer: Option<nat>
    var nextTimer: nat
    ghost var powers: seq<nat>

    constructor (load: Load)
      ensures this.load == load && CurrentPage() == MOUNTED && Valid()
    {
      this.load := load;
      state, pending, transitionTimer, nextTimer, powers := INITIAL, map[], None, 0, [];
      new;
      MountedSatisfiesInvariant();
    }

    ghost function CurrentPage(): Page
      reads this
    {
      Page(state, pending, transitionTimer, nextTimer, powers)
    }

    /** The run invariant; every handler keeps it. */
    ghost predicate Valid()
      reads this
    {
      Invariant(CurrentPage())
    }

    method ClearTimeout()
      modifies `pending
      ensures CurrentPage() == ClearTimer(old(CurrentPage()))
    {
      if transitionTimer.Some? {
        pending := pending - {transitionTimer.value};
      }
    }

    method SetTimeout(timer: Timer)
      modifies `pending, `transitionTimer, `nextTimer
      ensures CurrentPage() == SetTimer(old(CurrentPage()), timer)
    {
      pending := pending[nextTimer := timer];
      transitionTimer := Some(nextTimer);
      nextTimer := nextTimer + 1;
    }

    method Tick()
      requires Valid()
      modifies this
      ensures Valid() && CurrentPage() == Step(load, old(CurrentPage()), Event.Tick).value
    {
      ghost var before := CurrentPage();
      if state.session.Active? {
        var r := SimulateTick(load, state.elapsedSeconds, state.energyMilliWh, state.currentLimitA, state.voltageV);
        state := state.(elapsedSeconds := r.elapsedSeconds, currentA := r.currentA, powerW := r.powerW,
                        energyMilliWh := r.energyMilliWh, samples := LastOf(state.samples + [r.powerW], 36));
        powers := powers + [r.powerW];
      }
      StepKeepsInvariant(load, before, Event.Tick);
    }

    method StartSession()
      requires Valid() && Enabled(CurrentPage(), ClickStart)
      modifies this
      ensures Valid() && CurrentPage() == Step(load, old(CurrentPage()), ClickStart).value
    {
      ghost var before := CurrentPage();
      StepKeepsInvariant(load, before, ClickStart);
      var next := Transition(state.session, StartRequested);
      state := state.(session := next.value, sessionStarted := true, currentA := 0.0, powerW := 0, energyMilliWh := 0,
                      elapsedSeconds := 0, fault := None, samples := [0], activeTariff := state.draftTariff);
      powers := [];
      ClearTimeout();
      SetTimeout(ConfirmOutput);
    }

    method StopSession()
      requires Valid() && Enabled(CurrentPage(), ClickStop)
      modifies this
      ensures Valid() && CurrentPage() == Step(load, old(CurrentPage()), ClickStop).value
    {
      StepKeepsInvariant(load, CurrentPage(), ClickStop);
      var next := Transition(state.session, StopRequested);
      state := state.(session := next.value, currentA := 0.0, powerW := 0);
      ClearTimeout();
      SetTimeout(OpenOutput);
    }

    method SimulateFault()
      requires Valid() && Enabled(CurrentPage(), ClickFault)
      modifies this
      ensures Valid() && CurrentPage() == Step(load, old(CurrentPage()), ClickFault).value
    {
      StepKeepsInvariant(load, CurrentPage(), ClickFault);
      ClearTimeout();
      var next := Transition(state.session, FaultDetected);
      state := state.(session := next.value, currentA := 0.0, powerW := 0, fault := Some("OVER_TEMPERATURE"));
    }

    method ResetSimulator()
      requires Valid()
      modifies this
      ensures Valid() && CurrentPage() == Step(load, old(CurrentPage()), ClickReset).value
    {
      StepKeepsInvariant(load, CurrentPage(), ClickReset);
      ClearTimeout();
      var next := Transition(state.session, Reset);
      state := INITIAL.(session := next.value, currentLimitA := state.currentLimitA, voltageV := state.voltageV,
                        networkOnline := state.networkOnline, draftTariff := state.draftTariff);
      powers := [];
    }

    method UpdateTariff(field: RateField, text: JsNumber)
      requires Valid() && Enabled(CurrentPage(), TypeRate(field, text))
      modifies this
      ensures Valid() && CurrentPage() == Step(load, old(CurrentPage()), TypeRate(field, text)).value
    {
      StepKeepsInvariant(load, CurrentPage(), TypeRate(field, text));
      var minorValue := TypedRate(text);
      state := state.(draftTariff := WithRate(state.draftTariff, field, minorValue));
    }

    /** The browser runs a pending timeout's callback. */
    method FireTimer(id: nat)
      requires Valid() && id in pending
      modifies this
      ensures Valid() && CurrentPage() == Step(load, old(CurrentPage()), TimerFires(id)).value
      ensures state.session == if old(pending)[id].ConfirmOutput? then Active else Completed
    {
      StepKeepsInvariant(load, CurrentPage(), TimerFires(id));
      NoStaleTimer(CurrentPage(), id);
      var timer := pending[id];
      pending := pending - {id};
      if timer.ConfirmOutput? {
        var next := Transition(state.session, OutputConfirmed);
        state := state.(session := next.value);
      } else {
        var next := Transition(state.session, OutputOpened);
        state := state.(session := next.value);
      }
    }
  }

  lemma StepKeepsInvariant(load: Load, p: Page, e: Event)
    requires Invariant(p) && Enabled(p, e)
    ensures Step(load, p, e).Ok? && Invariant(Step(load, p, e).value)
  {
    hide Step, Enabled, TimersMatch, StateMatches, MeterMatches;
    NeverThrows(load, p, e);
    StepKeepsTimers(load, p, e);
    StepKeepsState(load, p, e);
    StepKeepsMeter(load, p, e);
  }
}
