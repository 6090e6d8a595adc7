/**
 * The gateway's shutdown protocol: the main goroutine, the sampling worker and the HTTP server,
 * joined by two cancellable contexts, a channel of capacity two and a done channel.
 * One action is one step of one goroutine, or an event from outside; a run is any sequence of enabled actions.
 */
module Gateway {
  import opened Wrappers

  datatype Error = WriteFailed | ServeFailed | ServerClosed | ShutdownTimedOut

  datatype Main =
    | Selecting        // waits for the signal context or an error
    | StoppingWorker   // about to call stopWorker()
    | Joining          // waits for workerDone
    | CallingShutdown  // about to call server.Shutdown
    | Draining         // inside server.Shutdown
    | ClosingServer    // the shutdown timed out
    | ClosingListener
    | ClosingDb
    | Returned

  datatype Worker =
    | Waiting                        // in its select
    | Appending(underCancel: bool)   // in appendReading; was the context already cancelled when it began?
    | Checking                       // the append failed: looks at workerCtx.Err()
    | SendingWriteError
    | Exiting                        // runs its deferred close
    | Done                           // workerDone is closed

  datatype Server = Serving | SendingExit(error: Error) | Gone

  datatype State = State(
    main: Main, worker: Worker, server: Server,
    signalled: bool,          // ctx is cancelled
    stopped: bool,            // stopWorker() was called
    ticking: bool,            // a tick waits in the ticker's channel
    errors: seq<Error>,       // what errorsCh holds
    inShutdown: bool,
    dbClosed: bool,
    received: Option<Error>,  // what main took from errorsCh
    timedOut: bool,
    result: Option<Error>,    // what run returns, once it returned
    commits: nat,             // rows appended
    lateCommits: nat)         // of those, the ones after cancellation

  const CAPACITY: nat := 2

  const START: State := State(Selecting, Waiting, Serving, false, false, false, [], false, false, None, false,
      None, 0, 0)

  /** The worker's context ends with the signal context or by stopWorker(). */
  predicate Cancelled(s: State) { s.signalled || s.stopped }

  datatype Action =
    | Signal | Tick
    | TakeSignal | TakeError | StopWorker | Join | CallShutdown | Drained | TimedOut
    | CloseServer | CloseListener | CloseDb
    | TakeStop | TakeTick | Commit | FailAppend | Check | SendWriteError | Exit
    | ServeFails | ServeStops | SendExit

  predicate Outside(a: Action) { a.Signal? || a.Tick? }

  predicate OfMain(a: Action) {
    a.TakeSignal? || a.TakeError? || a.StopWorker? || a.Join? || a.CallShutdown? || a.Drained? || a.TimedOut?
    || a.CloseServer? || a.CloseListener? || a.CloseDb?
  }

  predicate OfWorker(a: Action) {
    a.TakeStop? || a.TakeTick? || a.Commit? || a.FailAppend? || a.Check? || a.SendWriteError? || a.Exit?
  }

  predicate OfServer(a: Action) { a.ServeFails? || a.ServeStops? || a.SendExit? }

  /** What `run` returns: a received error, else the time-out, else nothing; a closed server is no error. */
  function ReturnValue(received: Option<Error>, timedOut: bool): Option<Error> {
    var err := if received.None? && timedOut then Some(ShutdownTimedOut) else received;
    if err == Some(ServerClosed) then None else err
  }

  /** Is main at a point where it can do `a`? */
  predicate MainCan(s: State, a: Action) {
    match a
    case TakeSignal => s.main.Selecting? && s.signalled
    case TakeError => s.main.Selecting? && s.errors != []
    case StopWorker => s.main.StoppingWorker?
    case Join => s.main.Joining? && s.worker.Done?
    case CallShutdown => s.main.CallingShutdown?
    case Drained => s.main.Draining?
    case TimedOut => s.main.Draining?
    case CloseServer => s.main.ClosingServer?
    case CloseListener => s.main.ClosingListener?
    case CloseDb => s.main.ClosingDb?
    case _ => false
  }

  /** Main leaves the worker's and the server's positions, the ticker, the signal and the rows alone. */
  function MainDoes(s: State, a: Action): (t: State)
    requires MainCan(s, a)
    ensures t.worker == s.worker && t.server == s.server && t.ticking == s.ticking && t.signalled == s.signalled
    ensures t.commits == s.commits && t.lateCommits == s.lateCommits
  {
    match a
    case TakeSignal => s.(main := StoppingWorker)
    case TakeError => s.(main := StoppingWorker, received := Some(s.errors[0]), errors := s.errors[1..])
    case StopWorker => s.(main := Joining, stopped := true)
    case Join => s.(main := CallingShutdown)
    case CallShutdown => s.(main := Draining, inShutdown := true)
    case Drained => s.(main := ClosingListener)
    case TimedOut => s.(main := ClosingServer, timedOut := true)
    case CloseServer => s.(main := ClosingListener)
    case CloseListener => s.(main := ClosingDb)
    case CloseDb => s.(main := Returned, dbClosed := true, result := ReturnValue(s.received, s.timedOut))
  }

  /** With both channels ready the worker's select may take either. */
  predicate WorkerCan(s: State, a: Action) {
    match a
    case TakeStop => s.worker.Waiting? && Cancelled(s)
    case TakeTick => s.worker.Waiting? && s.ticking
    // a transaction cannot begin under a cancelled context; one already under way may still commit
    case Commit => s.worker.Appending? && !s.worker.underCancel && !s.dbClosed
    case FailAppend => s.worker.Appending?
    case Check => s.worker.Checking?
    case SendWriteError => s.worker.SendingWriteError? && |s.errors| < CAPACITY
    case Exit => s.worker.Exiting?
    case _ => false
  }

  /** The worker changes only its own position, the ticker, the rows and the channel. */
  function WorkerDoes(s: State, a: Action): (t: State)
    requires WorkerCan(s, a)
    ensures t == s.(worker := t.worker, ticking := t.ticking, commits := t.commits, lateCommits := t.lateCommits,
                    errors := s.errors + if a.SendWriteError? then [WriteFailed] else [])
    ensures t.worker.Done? <==> a.Exit?
  {
    match a
    case TakeStop => s.(worker := Exiting)
    case TakeTick => s.(worker := Appending(Cancelled(s)), ticking := false)
    case Commit =>
      s.(worker := Waiting, commits := s.commits + 1, lateCommits := s.lateCommits + if Cancelled(s) then 1 else 0)
    case FailAppend => s.(worker := Checking)
    case Check => s.(worker := if Cancelled(s) then Exiting else SendingWriteError)
    case SendWriteError => s.(worker := Exiting, errors := s.errors + [WriteFailed])
    case Exit => s.(worker := Done)
  }

  predicate ServerCan(s: State, a: Action) {
    match a
    case ServeFails => s.server.Serving? && !s.inShutdown
    case ServeStops => s.server.Serving? && s.inShutdown
    case SendExit => s.server.SendingExit? && |s.errors| < CAPACITY
    case _ => false
  }

  /** The server changes only its own position and the channel. */
  function ServerDoes(s: State, a: Action): (t: State)
    requires ServerCan(s, a)
    ensures t == s.(server := t.server, errors := s.errors + if a.SendExit? then [s.server.error] else [])
  {
    match a
    case ServeFails => s.(server := SendingExit(ServeFailed))
    case ServeStops => s.(server := SendingExit(ServerClosed))
    case SendExit => s.(server := Gone, errors := s.errors + [s.server.error])
  }

  /** The state after `a`, if `a` is enabled. */
  function Step(s: State, a: Action): Option<State> {
    if a.Signal? then Some(s.(signalled := true))
    else if a.Tick? then Some(s.(ticking := true))
    else if MainCan(s, a) then Some(MainDoes(s, a))
    else if WorkerCan(s, a) then Some(WorkerDoes(s, a))
    else if ServerCan(s, a) then Some(ServerDoes(s, a))
    else None
  }

  /** The state a run from `s` reaches, if each of its actions is enabled in turn. */
  function Run(s: State, actions: seq<Action>): Option<State>
    decreases |actions|
  {
    if actions == [] then Some(s)
    else
      var next :- Step(s, actions[0]);
      Run(next, actions[1..])
  }

  // ---- what every reachable state satisfies ----

  function Pending(s: State): nat {
    (if s.worker.Done? || s.worker.Exiting? then 0 else 1) + (if s.server.Gone? then 0 else 1)
  }

  predicate BeforeShutdown(m: Main) {
    m.Selecting? || m.StoppingWorker? || m.Joining? || m.CallingShutdown?
  }

  predicate AfterJoin(m: Main) {
    !m.Selecting? && !m.StoppingWorker? && !m.Joining?
  }

  /** Each of the two senders sends at most once. */
  predicate ChannelHasRoom(s: State) {
    |s.errors| + Pending(s) <= CAPACITY
  }

  /** What main's position says about the worker, the server and the database. */
  predicate InOrder(s: State) {
    && (s.stopped <==> !s.main.Selecting? && !s.main.StoppingWorker?)
    && (AfterJoin(s.main) ==> s.worker.Done?)
    && (s.inShutdown <==> !BeforeShutdown(s.main))
    && (s.dbClosed <==> s.main.Returned?)
  }

  /** An error that can be in flight: the server only reports itself closed once main has begun the shutdown. */
  predicate Plausible(s: State, e: Error) {
    e == WriteFailed || e == ServeFailed || (e == ServerClosed && s.inShutdown)
  }

  predicate ErrorsPlausible(s: State) {
    && (s.server.SendingExit? ==> Plausible(s, s.server.error))
    && (forall i :: 0 <= i < |s.errors| ==> Plausible(s, s.errors[i]))
  }

  /** What main took from the channel, and what it makes of it. */
  predicate ResultMakesSense(s: State) {
    && (s.received.Some? ==> s.received.value == WriteFailed || s.received.value == ServeFailed)
    && (s.received.Some? ==> !s.main.Selecting?)
    && (s.received.None? && !s.main.Selecting? ==> s.signalled)
    && (s.main.Returned? ==> s.result == ReturnValue(s.received, s.timedOut))
  }

  /** A commit after cancellation belongs to an append begun before it. */
  predicate LateCommitsBounded(s: State) {
    && (!Cancelled(s) ==> s.lateCommits == 0 && (s.worker.Appending? ==> !s.worker.underCancel))
    && s.lateCommits <= 1
    && (s.lateCommits == 1 ==> (s.worker.Appending? ==> s.worker.underCancel))
  }

  predicate Invariant(s: State) {
    ChannelHasRoom(s) && InOrder(s) && ErrorsPlausible(s) && ResultMakesSense(s) && LateCommitsBounded(s)
  }

  lemma StartSatisfiesInvariant()
    ensures Invariant(START)
  {
  }

  lemma MainKeepsInvariant(s: State, a: Action)
    requires Invariant(s) && MainCan(s, a)
    ensures Invariant(MainDoes(s, a))
  {
    var t := MainDoes(s, a);
    forall i | 0 <= i < |t.errors| ensures Plausible(t, t.errors[i]) {
      assert Plausible(s, s.errors[if a.TakeError? then i + 1 else i]);
    }
    if a.TakeError? {
      assert Plausible(s, s.errors[0]);
    }
  }

  lemma WorkerKeepsInvariant(s: State, a: Action)
    requires Invariant(s) && WorkerCan(s, a)
    ensures Invariant(WorkerDoes(s, a))
  {
    var t := WorkerDoes(s, a);
    forall i | 0 <= i < |t.errors| ensures Plausible(t, t.errors[i]) {
      assert i < |s.errors| ==> Plausible(s, s.errors[i]);
    }
  }

  lemma ServerKeepsInvariant(s: State, a: Action)
    requires Invariant(s) && ServerCan(s, a)
    ensures Invariant(ServerDoes(s, a))
  {
    var t := ServerDoes(s, a);
    forall i | 0 <= i < |t.errors| ensures Plausible(t, t.errors[i]) {
      assert i < |s.errors| ==> Plausible(s, s.errors[i]);
    }
  }

  lemma StepKeepsInvariant(s: State, a: Action)
    requires Invariant(s) && Step(s, a).Some?
    ensures Invariant(Step(s, a).value)
  {
    hide MainDoes, WorkerDoes, ServerDoes, MainCan, WorkerCan, ServerCan;
    if
    case Outside(a) =>
    case !Outside(a) && MainCan(s, a) =>
      hide Invariant;
      MainKeepsInvariant(s, a);
    case !Outside(a) && !MainCan(s, a) && WorkerCan(s, a) =>
      hide Invariant;
      WorkerKeepsInvariant(s, a);
    case !Outside(a) && !MainCan(s, a) && !WorkerCan(s, a) =>
      hide Invariant;
      ServerKeepsInvariant(s, a);
  }

  lemma {:induction false} RunKeepsInvariant(s: State, actions: seq<Action>)
    requires Invariant(s) && Run(s, actions).Some?
    ensures Invariant(Run(s, actions).value)
    decreases |actions|
  {
    hide Invariant, Step;
    if actions != [] {
      StepKeepsInvariant(s, actions[0]);
      RunKeepsInvariant(Step(s, actions[0]).value, actions[1..]);
    }
  }

  /** A channel that holds two errors would block both senders. */
  lemma FullChannelBlocks(s: State)
    requires |s.errors| >= 2
    ensures Step(s, SendWriteError).None? && Step(s, SendExit).None?
  {
  }

  /** A goroutine that reaches its send finds room in the channel. */
  lemma NoSendBlocks(actions: seq<Action>)
    requires Run(START, actions).Some?
    ensures var s := Run(START, actions).value;
      && (s.worker.SendingWriteError? ==> |s.errors| < 2 && Step(s, SendWriteError).Some?)
      && (s.server.SendingExit? ==> |s.errors| < 2 && Step(s, SendExit).Some?)
  {
    hide Run;
    StartSatisfiesInvariant();
    RunKeepsInvariant(START, actions);
  }

  /** Once the database is closed the worker is gone, so no append can begin or be under way. */
  lemma NoAppendAfterClose(actions: seq<Action>, more: seq<Action>)
    requires Run(START, actions + more).Some? && Run(START, actions).Some?
    requires Run(START, actions).value.dbClosed
    ensures var s, t := Run(START, actions).value, Run(START, actions + more).value;
      && s.worker.Done? && t.worker.Done? && t.commits == s.commits
      && TakeTick !in more && Commit !in more
  {
    hide Run, Step, Invariant;
    StartSatisfiesInvariant();
    RunKeepsInvariant(START, actions);
    RunOfConcat(START, actions, more);
    ClosedStaysQuiet(Run(START, actions).value, more);
  }

  lemma {:induction false} ClosedStaysQuiet(s: State, more: seq<Action>)
    requires Invariant(s) && s.dbClosed && Run(s, more).Some?
    ensures s.worker.Done? && Run(s, more).value.worker.Done? && Run(s, more).value.commits == s.commits
    ensures TakeTick !in more && Commit !in more
    decreases |more|
  {
    hide Step, Invariant;
    if more != [] {
      QuietStep(s, more[0]);
      ClosedStaysQuiet(Step(s, more[0]).value, more[1..]);
      assert more == [more[0]] + more[1..];
    } else {
      ClosedMeansDone(s);
    }
  }

  lemma ClosedMeansDone(s: State)
    requires Invariant(s) && s.dbClosed
    ensures s.worker.Done?
  {
    hide ChannelHasRoom, ErrorsPlausible, ResultMakesSense, LateCommitsBounded;
  }

  lemma QuietStep(s: State, a: Action)
    requires Invariant(s) && s.dbClosed && Step(s, a).Some?
    ensures var t := Step(s, a).value; Invariant(t) && t.dbClosed && t.commits == s.commits && s.worker.Done?
    ensures !a.TakeTick? && !a.Commit?
  {
    hide ChannelHasRoom, ErrorsPlausible, ResultMakesSense, LateCommitsBounded;
    StepKeepsInvariant(s, a);
    if
    case Outside(a) =>
    case OfMain(a) =>
    case OfWorker(a) =>
    case OfServer(a) =>
  }

  lemma {:induction false} RunOfConcat(s: State, a: seq<Action>, b: seq<Action>)
    requires Run(s, a).Some?
    ensures Run(s, a + b) == Run(Run(s, a).value, b)
    decreases |a|
  {
    hide Step;
    if a == [] {
      assert a + b == b;
    } else {
      RunOfConcat(Step(s, a[0]).value, a[1..], b);
      assert (a + b)[1..] == a[1..] + b;
    }
  }

  // ---- what `run` returns, told by the run ----

  /** The errors sent on the channel during a run, oldest first. */
  function Sent(s: State, actions: seq<Action>): seq<Error>
    requires Run(s, actions).Some?
    decreases |actions|
  {
    if actions == [] then []
    else
      (match actions[0]
       case SendWriteError => [WriteFailed]
       case SendExit => [s.server.error]
       case _ => []) + Sent(Step(s, actions[0]).value, actions[1..])
  }

  /** What main has taken and what still waits in the channel, oldest first. */
  function Flow(s: State): seq<Error> {
    (if s.received.Some? then [s.received.value] else []) + s.errors
  }

  lemma StepKeepsFlow(s: State, a: Action)
    requires Invariant(s) && Step(s, a).Some?
    ensures Flow(Step(s, a).value) == Flow(s) + Sent(s, [a])
  {
    hide ChannelHasRoom, InOrder, ErrorsPlausible, LateCommitsBounded, MainDoes, WorkerDoes, ServerDoes;
    assert [a][1..] == [];
    if MainCan(s, a) {
      MarksOfMain(s, a);
      if a.TakeError? {
        assert s.errors == [s.errors[0]] + s.errors[1..];
      }
    } else {
      OthersLeaveMain(s, a);
      OthersOnlySend(s, a);
    }
  }

  lemma OthersOnlySend(s: State, a: Action)
    requires Step(s, a).Some? && !MainCan(s, a)
    ensures Step(s, a).value.errors == s.errors + Sent(s, [a])
  {
    hide MainDoes, WorkerDoes, ServerDoes;
    assert [a][1..] == [];
    if
    case Outside(a) =>
    case OfMain(a) =>
    case OfWorker(a) =>
    case OfServer(a) =>
  }

  /** The channel loses and reorders nothing. */
  lemma {:induction false} RunKeepsFlow(s: State, actions: seq<Action>)
    requires Invariant(s) && Run(s, actions).Some?
    ensures Flow(Run(s, actions).value) == Flow(s) + Sent(s, actions)
    decreases |actions|
  {
    hide Invariant, Step, Flow;
    if actions != [] {
      var a := actions[0];
      StepKeepsInvariant(s, a);
      StepKeepsFlow(s, a);
      RunKeepsFlow(Step(s, a).value, actions[1..]);
      assert [a][1..] == [];
    }
  }

  /** Main's own steps leave their marks: past its select it took exactly one trigger. */
  lemma {:induction false} MarksOfRun(s: State, actions: seq<Action>)
    requires Invariant(s) && Run(s, actions).Some?
    ensures var t := Run(s, actions).value;
      && (t.received.Some? <==> s.received.Some? || TakeError in actions)
      && (t.main.Selecting? <==> s.main.Selecting? && TakeSignal !in actions && TakeError !in actions)
      && (t.timedOut <==> s.timedOut || TimedOut in actions)
      && (TakeSignal in actions || TakeError in actions ==> s.main.Selecting?)
      && !(TakeSignal in actions && TakeError in actions)
    decreases |actions|
  {
    hide Invariant, Step;
    if actions != [] {
      var a := actions[0];
      StepKeepsInvariant(s, a);
      MarksOfStep(s, a);
      MarksOfRun(Step(s, a).value, actions[1..]);
      assert actions == [a] + actions[1..];
    }
  }

  lemma MarksOfStep(s: State, a: Action)
    requires Step(s, a).Some?
    ensures var t := Step(s, a).value;
      && (t.received.Some? <==> s.received.Some? || a.TakeError?)
      && (t.main.Selecting? <==> s.main.Selecting? && !a.TakeSignal? && !a.TakeError?)
      && (t.timedOut <==> s.timedOut || a.TimedOut?)
      && (a.TakeSignal? || a.TakeError? ==> s.main.Selecting?)
  {
    hide MainDoes, WorkerDoes, ServerDoes;
    if MainCan(s, a) {
      MarksOfMain(s, a);
    } else {
      OthersLeaveMain(s, a);
    }
  }

  lemma MarksOfMain(s: State, a: Action)
    requires MainCan(s, a)
    ensures var t := MainDoes(s, a);
      && t.received == (if a.TakeError? then Some(s.errors[0]) else s.received)
      && !t.main.Selecting? && (s.main.Selecting? <==> a.TakeSignal? || a.TakeError?)
      && (s.main.Selecting? ==> t.main.StoppingWorker?)
      && t.timedOut == (s.timedOut || a.TimedOut?)
      && t.errors == if a.TakeError? then s.errors[1..] else s.errors
  {
    hide ReturnValue;
  }

  lemma OthersLeaveMain(s: State, a: Action)
    requires Step(s, a).Some? && !MainCan(s, a)
    ensures var t := Step(s, a).value; t.main == s.main && t.received == s.received && t.timedOut == s.timedOut
    ensures !OfMain(a)
  {
    hide MainDoes, WorkerDoes, ServerDoes;
    if
    case Outside(a) =>
    case OfMain(a) =>
    case OfWorker(a) =>
    case OfServer(a) =>
  }

  /**
   * What `run` returns, told by its run: nil exactly if main took the signal and the shutdown kept its time,
   * the time-out exactly if it took the signal and did not, and otherwise the first error anyone sent.
   */
  lemma ReturnedError(actions: seq<Action>)
    requires Run(START, actions).Some? && Run(START, actions).value.main.Returned?
    ensures var s, sent := Run(START, actions).value, Sent(START, actions);
      && s.worker.Done? && s.dbClosed
      && (TakeSignal in actions <==> TakeError !in actions)
      && (s.result == None <==> TakeSignal in actions && TimedOut !in actions)
      && (s.result == Some(ShutdownTimedOut) <==> TakeSignal in actions && TimedOut in actions)
      && (TakeError in actions ==> sent != [] && s.result == Some(sent[0]) && sent[0] != ServerClosed)
  {
    hide Run, Sent, Step;
    StartSatisfiesInvariant();
    RunKeepsInvariant(START, actions);
    MarksOfRun(START, actions);
    RunKeepsFlow(START, actions);
    var s := Run(START, actions).value;
    assert Flow(START) == [];
    if s.received.Some? {
      assert Flow(s)[0] == s.received.value;
    }
  }

  /** Without a signal, `run` returns an error: the first one sent. */
  lemma NoSignalMeansError(actions: seq<Action>)
    requires Run(START, actions).Some? && Run(START, actions).value.main.Returned?
    requires Signal !in actions
    ensures var sent := Sent(START, actions);
      sent != [] && Run(START, actions).value.result == Some(sent[0]) && sent[0] in {WriteFailed, ServeFailed}
  {
    hide Run, Sent, Step, Invariant;
    ReturnedError(actions);
    NoSignalNotTaken(START, actions);
  }

  lemma {:induction false} NoSignalNotTaken(s: State, actions: seq<Action>)
    requires Run(s, actions).Some? && !s.signalled && Signal !in actions
    ensures TakeSignal !in actions
    decreases |actions|
  {
    hide Step;
    if actions != [] {
      StaysUnsignalled(s, actions[0]);
      NoSignalNotTaken(Step(s, actions[0]).value, actions[1..]);
      assert actions == [actions[0]] + actions[1..];
    }
  }

  lemma StaysUnsignalled(s: State, a: Action)
    requires Step(s, a).Some? && !s.signalled && !a.Signal?
    ensures !Step(s, a).value.signalled && !a.TakeSignal?
  {
    hide MainDoes, WorkerDoes, ServerDoes;
    if
    case Outside(a) =>
    case OfMain(a) =>
    case OfWorker(a) =>
    case OfServer(a) =>
  }

  /**
   * A write error that was sent decides the result exactly if main took an error and none was sent before it;
   * it is lost without a trace exactly if main took the signal and the shutdown kept its time.
   */
  lemma WriteErrorLostExactly(actions: seq<Action>)
    requires Run(START, actions).Some? && Run(START, actions).value.main.Returned?
    requires SendWriteError in actions
    ensures var s, sent := Run(START, actions).value, Sent(START, actions);
      && WriteFailed in sent
      && (s.result == Some(WriteFailed) <==> TakeError in actions && sent[0] == WriteFailed)
      && (s.result == None <==> TakeSignal in actions && TimedOut !in actions)
  {
    hide Run, Step, Invariant;
    ReturnedError(actions);
    WriteErrorIsSent(START, actions);
  }

  lemma {:induction false} WriteErrorIsSent(s: State, actions: seq<Action>)
    requires Run(s, actions).Some? && SendWriteError in actions
    ensures WriteFailed in Sent(s, actions)
    decreases |actions|
  {
    hide Step;
    if !actions[0].SendWriteError? {
      assert actions == [actions[0]] + actions[1..];
      WriteErrorIsSent(Step(s, actions[0]).value, actions[1..]);
    }
  }

  // ---- the whole state, told by the actions that led to it ----

  /** Was the worker's context cancelled by these actions? */
  predicate Stops(actions: seq<Action>) { Signal in actions || StopWorker in actions }

  /** Main's latest step, if it has taken one. */
  function LastOfMain(actions: seq<Action>): Option<Action> {
    if actions == [] then None
    else if OfMain(actions[|actions| - 1]) then Some(actions[|actions| - 1])
    else LastOfMain(actions[..|actions| - 1])
  }

  function LastOfServer(actions: seq<Action>): Option<Action> {
    if actions == [] then None
    else if OfServer(actions[|actions| - 1]) then Some(actions[|actions| - 1])
    else LastOfServer(actions[..|actions| - 1])
  }

  /** The actions up to the worker's latest step; none if it has not taken one. */
  function UpToWorker(actions: seq<Action>): (front: seq<Action>)
    ensures front <= actions
    ensures front != [] ==> OfWorker(front[|front| - 1])
  {
    if actions == [] || OfWorker(actions[|actions| - 1]) then actions else UpToWorker(actions[..|actions| - 1])
  }

  /** A tick came after the latest one taken. */
  predicate TickWaits(actions: seq<Action>) {
    actions != [] && var a := actions[|actions| - 1];
      a.Tick? || (!a.TakeTick? && TickWaits(actions[..|actions| - 1]))
  }

  /** How many commits came after cancellation. */
  function LateCommits(actions: seq<Action>): nat {
    if actions == [] then 0
    else
      var front := actions[..|actions| - 1];
      LateCommits(front) + if actions[|actions| - 1].Commit? && Stops(front) then 1 else 0
  }

  predicate MainTold(main: Main, last: Option<Action>) {
    match last
    case None => main.Selecting?
    case Some(a) =>
      match main
      case Selecting => false
      case StoppingWorker => a in {TakeSignal, TakeError}
      case Joining => a == StopWorker
      case CallingShutdown => a == Join
      case Draining => a == CallShutdown
      case ClosingServer => a == TimedOut
      case ClosingListener => a in {Drained, CloseServer}
      case ClosingDb => a == CloseListener
      case Returned => a == CloseDb
  }

  /** `front` ends with the worker's latest step. */
  predicate WorkerTold(worker: Worker, front: seq<Action>) {
    if front == [] then worker.Waiting?
    else
      var a, before := front[|front| - 1], front[..|front| - 1];
      match worker
      case Waiting => a == Commit
      case Appending(underCancel) => a == TakeTick && underCancel == Stops(before)
      case Checking => a == FailAppend
      case SendingWriteError => a == Check && !Stops(before)
      case Exiting => a in {TakeStop, SendWriteError} || (a == Check && Stops(before))
      case Done => a == Exit
  }

  predicate ServerTold(server: Server, last: Option<Action>) {
    match last
    case None => server.Serving?
    case Some(a) =>
      match server
      case Serving => false
      case SendingExit(error) => (a == ServeFails && error == ServeFailed) || (a == ServeStops && error == ServerClosed)
      case Gone => a == SendExit
  }

  predicate FlagsTold(s: State, actions: seq<Action>) {
    && s.signalled == (Signal in actions) && s.stopped == (StopWorker in actions)
    && s.inShutdown == (CallShutdown in actions) && s.dbClosed == (CloseDb in actions)
    && s.ticking == TickWaits(actions)
  }

  predicate ChannelsTold(s: State, actions: seq<Action>) {
    && s.worker.Done? == (Exit in actions)
    && (s.errors != [] || s.received.Some?) == (SendWriteError in actions || SendExit in actions)
  }

  predicate CommitsTold(s: State, actions: seq<Action>) {
    s.commits == multiset(actions)[Commit] && s.lateCommits == LateCommits(actions)
  }

  predicate Told(s: State, actions: seq<Action>) {
    && MainTold(s.main, LastOfMain(actions))
    && WorkerTold(s.worker, UpToWorker(actions))
    && ServerTold(s.server, LastOfServer(actions))
    && FlagsTold(s, actions) && ChannelsTold(s, actions) && CommitsTold(s, actions)
  }

  /** What may come after a run, told by the run alone. */
  predicate MayFollow(actions: seq<Action>, a: Action) {
    var main, server, front := LastOfMain(actions), LastOfServer(actions), UpToWorker(actions);
    var worker := if front == [] then None else Some(front[|front| - 1]);
    var inTime := front != []
        && !Stops(front[..|front| - 1]);   // was the latest step of the worker before cancellation?
    match a
    case Signal => true
    case Tick => true
    case TakeSignal => main.None? && Signal in actions
    case TakeError => main.None? && (SendWriteError in actions || SendExit in actions)
    case StopWorker => main in {Some(TakeSignal), Some(TakeError)}
    case Join => main == Some(StopWorker) && Exit in actions
    case CallShutdown => main == Some(Join)
    case Drained => main == Some(CallShutdown)
    case TimedOut => main == Some(CallShutdown)
    case CloseServer => main == Some(TimedOut)
    case CloseListener => main in {Some(Drained), Some(CloseServer)}
    case CloseDb => main == Some(CloseListener)
    case TakeStop => worker in {None, Some(Commit)} && Stops(actions)
    case TakeTick => worker in {None, Some(Commit)} && TickWaits(actions)
    case Commit => worker == Some(TakeTick) && inTime
    case FailAppend => worker == Some(TakeTick)
    case Check => worker == Some(FailAppend)
    case SendWriteError => worker == Some(Check) && inTime
    case Exit => worker in {Some(TakeStop), Some(SendWriteError)} || (worker == Some(Check) && !inTime)
    case ServeFails => server.None? && CallShutdown !in actions
    case ServeStops => server.None? && CallShutdown in actions
    case SendExit => server in {Some(ServeFails), Some(ServeStops)}
  }

  lemma Extended(actions: seq<Action>, a: Action)
    ensures LastOfMain(actions + [a]) == if OfMain(a) then Some(a) else LastOfMain(actions)
    ensures LastOfServer(actions + [a]) == if OfServer(a) then Some(a) else LastOfServer(actions)
    ensures UpToWorker(actions + [a]) == if OfWorker(a) then actions + [a] else UpToWorker(actions)
    ensures TickWaits(actions + [a]) == (a.Tick? || (!a.TakeTick? && TickWaits(actions)))
    ensures LateCommits(actions + [a]) == LateCommits(actions) + if a.Commit? && Stops(actions) then 1 else 0
    ensures multiset(actions + [a])[Commit] == multiset(actions)[Commit] + if a.Commit? then 1 else 0
    ensures forall x :: x in actions + [a] <==> x in actions || x == a
  {
    assert (actions + [a])[..|actions|] == actions;
  }

  lemma MainMoves(s: State, a: Action)
    requires MainCan(s, a)
    ensures MainTold(MainDoes(s, a).main, Some(a))
  {
    hide ReturnValue;
  }

  lemma MainFlags(s: State, actions: seq<Action>, a: Action)
    requires FlagsTold(s, actions) && MainCan(s, a)
    ensures FlagsTold(MainDoes(s, a), actions + [a])
  {
    hide LastOfMain, LastOfServer, UpToWorker, TickWaits, LateCommits, ReturnValue;
    Extended(actions, a);
  }

  lemma MainChannels(s: State, actions: seq<Action>, a: Action)
    requires ChannelsTold(s, actions) && MainCan(s, a)
    ensures ChannelsTold(MainDoes(s, a), actions + [a])
  {
    hide LastOfMain, LastOfServer, UpToWorker, TickWaits, LateCommits, ReturnValue;
    Extended(actions, a);
  }

  lemma MainCommits(s: State, actions: seq<Action>, a: Action)
    requires CommitsTold(s, actions) && MainCan(s, a)
    ensures CommitsTold(MainDoes(s, a), actions + [a])
  {
    hide LastOfMain, LastOfServer, UpToWorker, TickWaits, LateCommits, ReturnValue;
    Extended(actions, a);
  }


  lemma MainActs(s: State, a: Action)
    requires MainCan(s, a)
    ensures OfMain(a) && !OfWorker(a) && !OfServer(a)
  {
  }

  lemma MainStepTold(s: State, actions: seq<Action>, a: Action)
    requires Told(s, actions) && MainCan(s, a)
    ensures Told(MainDoes(s, a), actions + [a])
  {
    hide LastOfMain, LastOfServer, UpToWorker, MainTold, WorkerTold, ServerTold, FlagsTold, ChannelsTold,
        CommitsTold, MainDoes;
    MainActs(s, a);
    hide MainCan, OfMain, OfWorker, OfServer;
    Extended(actions, a);
    MainMoves(s, a);
    MainFlags(s, actions, a);
    MainChannels(s, actions, a);
    MainCommits(s, actions, a);
  }

  lemma WorkerMoves(s: State, actions: seq<Action>, a: Action)
    requires FlagsTold(s, actions) && WorkerTold(s.worker, UpToWorker(actions)) && WorkerCan(s, a)
    ensures WorkerTold(WorkerDoes(s, a).worker, actions + [a])
  {
    hide UpToWorker, TickWaits, LateCommits;
    assert (actions + [a])[..|actions|] == actions;
  }

  lemma WorkerFlags(s: State, actions: seq<Action>, a: Action)
    requires FlagsTold(s, actions) && WorkerCan(s, a)
    ensures FlagsTold(WorkerDoes(s, a), actions + [a])
  {
    hide LastOfMain, LastOfServer, UpToWorker, TickWaits, LateCommits;
    Extended(actions, a);
  }

  lemma WorkerChannels(s: State, actions: seq<Action>, a: Action)
    requires ChannelsTold(s, actions) && WorkerCan(s, a)
    ensures ChannelsTold(WorkerDoes(s, a), actions + [a])
  {
    hide LastOfMain, LastOfServer, UpToWorker, TickWaits, LateCommits, WorkerDoes;
    Extended(actions, a);
    assert !s.worker.Done? && !a.SendExit?;
    if
    case a.Exit? =>
    case a.SendWriteError? =>
    case !a.Exit? && !a.SendWriteError? =>
  }

  lemma WorkerCommits(s: State, actions: seq<Action>, a: Action)
    requires CommitsTold(s, actions) && FlagsTold(s, actions) && WorkerCan(s, a)
    ensures CommitsTold(WorkerDoes(s, a), actions + [a])
  {
    hide LastOfMain, LastOfServer, UpToWorker, TickWaits, LateCommits;
    Extended(actions, a);
  }


  lemma WorkerStepTold(s: State, actions: seq<Action>, a: Action)
    requires Told(s, actions) && WorkerCan(s, a)
    ensures Told(WorkerDoes(s, a), actions + [a])
  {
    hide LastOfMain, LastOfServer, UpToWorker, MainTold, WorkerTold, ServerTold, FlagsTold, ChannelsTold,
        CommitsTold, WorkerDoes;
    Extended(actions, a);
    WorkerMoves(s, actions, a);
    WorkerFlags(s, actions, a);
    WorkerChannels(s, actions, a);
    WorkerCommits(s, actions, a);
  }

  lemma ServerMoves(s: State, actions: seq<Action>, a: Action)
    requires FlagsTold(s, actions) && ServerTold(s.server, LastOfServer(actions)) && ServerCan(s, a)
    ensures ServerTold(ServerDoes(s, a).server, Some(a))
  {
    hide LastOfServer, TickWaits, LateCommits;
  }

  lemma ServerFlags(s: State, actions: seq<Action>, a: Action)
    requires FlagsTold(s, actions) && ServerCan(s, a)
    ensures FlagsTold(ServerDoes(s, a), actions + [a])
  {
    hide LastOfMain, LastOfServer, UpToWorker, TickWaits, LateCommits;
    Extended(actions, a);
  }

  lemma ServerChannels(s: State, actions: seq<Action>, a: Action)
    requires ChannelsTold(s, actions) && ServerCan(s, a)
    ensures ChannelsTold(ServerDoes(s, a), actions + [a])
  {
    hide LastOfMain, LastOfServer, UpToWorker, TickWaits, LateCommits;
    Extended(actions, a);
  }

  lemma ServerCommits(s: State, actions: seq<Action>, a: Action)
    requires CommitsTold(s, actions) && ServerCan(s, a)
    ensures CommitsTold(ServerDoes(s, a), actions + [a])
  {
    hide LastOfMain, LastOfServer, UpToWorker, TickWaits, LateCommits;
    Extended(actions, a);
  }


  lemma ServerStepTold(s: State, actions: seq<Action>, a: Action)
    requires Told(s, actions) && ServerCan(s, a)
    ensures Told(ServerDoes(s, a), actions + [a])
  {
    hide LastOfMain, LastOfServer, UpToWorker, MainTold, WorkerTold, ServerTold, FlagsTold, ChannelsTold,
        CommitsTold, ServerDoes;
    Extended(actions, a);
    ServerMoves(s, actions, a);
    ServerFlags(s, actions, a);
    ServerChannels(s, actions, a);
    ServerCommits(s, actions, a);
  }

  lemma OutsideStepTold(s: State, actions: seq<Action>, a: Action)
    requires Told(s, actions) && Outside(a)
    ensures Told(Step(s, a).value, actions + [a])
  {
    hide LastOfMain, LastOfServer, UpToWorker, TickWaits, LateCommits, MainTold, WorkerTold, ServerTold;
    Extended(actions, a);
  }

  lemma StepTold(s: State, actions: seq<Action>, a: Action)
    requires Told(s, actions) && Step(s, a).Some?
    ensures Told(Step(s, a).value, actions + [a])
  {
    hide Told, MainDoes, WorkerDoes, ServerDoes, MainCan, WorkerCan, ServerCan;
    if
    case Outside(a) => OutsideStepTold(s, actions, a);
    case !Outside(a) && MainCan(s, a) => MainStepTold(s, actions, a);
    case !Outside(a) && !MainCan(s, a) && WorkerCan(s, a) => WorkerStepTold(s, actions, a);
    case !Outside(a) && !MainCan(s, a) && !WorkerCan(s, a) => ServerStepTold(s, actions, a);
  }

  lemma {:induction false} PrefixRuns(s: State, a: seq<Action>, b: seq<Action>)
    requires Run(s, a + b).Some?
    ensures Run(s, a).Some?
    decreases |a|
  {
    hide Step;
    if a != [] {
      assert (a + b)[1..] == a[1..] + b;
      PrefixRuns(Step(s, a[0]).value, a[1..], b);
    }
  }

  lemma RunOfLast(actions: seq<Action>)
    requires actions != [] && Run(START, actions).Some?
    ensures var front := actions[..|actions| - 1];
      Run(START, front).Some? && Step(Run(START, front).value, actions[|actions| - 1]) == Run(START, actions)
  {
    hide Step;
    var front, a := actions[..|actions| - 1], actions[|actions| - 1];
    assert actions == front + [a];
    PrefixRuns(START, front, [a]);
    RunOfConcat(START, front, [a]);
    assert [a][1..] == [];
  }

  /** The state after any run is the one its actions tell. */
  lemma {:induction false} RunTold(actions: seq<Action>)
    requires Run(START, actions).Some?
    ensures Told(Run(START, actions).value, actions)
    decreases |actions|
  {
    hide Run, Step, Told;
    if actions == [] {
      StartTold();
    } else {
      var front := actions[..|actions| - 1];
      RunOfLast(actions);
      RunTold(front);
      StepTold(Run(START, front).value, front, actions[|actions| - 1]);
      assert front + [actions[|actions| - 1]] == actions;
    }
  }

  lemma StartTold()
    ensures Run(START, []) == Some(START) && Told(START, [])
  {
  }

  /** A run can go on with an action exactly if its actions so far say so. */
  lemma RunsExactly(actions: seq<Action>, a: Action)
    requires Run(START, actions).Some?
    ensures Run(START, actions + [a]).Some? <==> MayFollow(actions, a)
  {
    hide Run;
    var s := Run(START, actions).value;
    StartSatisfiesInvariant();
    RunKeepsInvariant(START, actions);
    RunTold(actions);
    RunOfConcat(START, actions, [a]);
    RunOfOne(s, a);
    if
    case Outside(a) =>
    case OfMain(a) => MainMayFollow(s, actions, a);
    case OfWorker(a) => WorkerMayFollow(s, actions, a);
    case OfServer(a) => ServerMayFollow(s, actions, a);
  }

  lemma RunOfOne(s: State, a: Action)
    ensures Run(s, [a]) == Step(s, a)
  {
    hide Step;
    assert [a][1..] == [];
  }

  lemma MainMayFollow(s: State, actions: seq<Action>, a: Action)
    requires Told(s, actions) && Invariant(s) && OfMain(a)
    ensures MainCan(s, a) <==> MayFollow(actions, a)
  {
    hide LastOfMain, LastOfServer, UpToWorker, TickWaits, LateCommits, WorkerTold, ServerTold;
  }

  lemma WorkerMayFollow(s: State, actions: seq<Action>, a: Action)
    requires Told(s, actions) && Invariant(s) && OfWorker(a)
    ensures WorkerCan(s, a) <==> MayFollow(actions, a)
  {
    hide LastOfMain, LastOfServer, UpToWorker, TickWaits, LateCommits, MainTold, ServerTold;
  }

  lemma ServerMayFollow(s: State, actions: seq<Action>, a: Action)
    requires Told(s, actions) && Invariant(s) && OfServer(a)
    ensures ServerCan(s, a) <==> MayFollow(actions, a)
  {
    hide LastOfMain, LastOfServer, UpToWorker, TickWaits, LateCommits, MainTold, WorkerTold;
  }

  /** Every commit is counted as a row; and after cancellation at most one happens, whatever else does. */
  lemma CommitsCounted(actions: seq<Action>)
    requires Run(START, actions).Some?
    ensures Run(START, actions).value.commits == multiset(actions)[Commit]
    ensures forall i, j :: 0 <= i < j < |actions| && actions[i] == Commit && actions[j] == Commit ==>
      Signal !in actions[..i] && StopWorker !in actions[..i]
  {
    hide Run;
    RunTold(actions);
    StartSatisfiesInvariant();
    RunKeepsInvariant(START, actions);
    forall i, j | 0 <= i < j < |actions| && actions[i] == Commit && actions[j] == Commit
      ensures !Stops(actions[..i])
    {
      TwoLateCommits(actions, i, j);
    }
  }

  lemma {:induction false} TwoLateCommits(actions: seq<Action>, i: nat, j: nat)
    requires i < j < |actions| && actions[i] == Commit && actions[j] == Commit
    ensures Stops(actions[..i]) ==> LateCommits(actions) >= 2
    decreases |actions|
  {
    var front := actions[..|actions| - 1];
    assert forall k :: 0 <= k < |front| ==> front[..k] == actions[..k];
    if j < |front| {
      TwoLateCommits(front, i, j);
    } else if Stops(actions[..i]) {
      assert actions[..i] <= front;
      OneLateCommit(front, i);
    }
  }

  lemma {:induction false} OneLateCommit(actions: seq<Action>, i: nat)
    requires i < |actions| && actions[i] == Commit && Stops(actions[..i])
    ensures LateCommits(actions) >= 1
    decreases |actions|
  {
    var front := actions[..|actions| - 1];
    assert forall k :: 0 <= k < |front| ==> front[..k] == actions[..k];
    if i < |front| {
      OneLateCommit(front, i);
    }
  }

  // ---- when a failed append is reported ----

  /** A failed append is reported exactly if the worker checks it before any signal and before `stopWorker`. */
  lemma CheckTold(actions: seq<Action>, i: nat)
    requires Run(START, actions).Some? && i < |actions| && actions[i] == Check
    ensures Run(START, actions[..i + 1]).Some?
    ensures Run(START, actions[..i + 1]).value.worker ==
      if Signal in actions[..i] || StopWorker in actions[..i] then Exiting else SendingWriteError
  {
    hide Run;
    assert actions == actions[..i + 1] + actions[i + 1..];
    PrefixRuns(START, actions[..i + 1], actions[i + 1..]);
    RunTold(actions[..i + 1]);
    assert actions[..i + 1][..i] == actions[..i];
  }

  /** A write error is sent only after a failed append was checked in time. */
  lemma {:induction false} SentOnlyInTime(actions: seq<Action>) returns (i: nat)
    requires Run(START, actions).Some? && SendWriteError in actions
    ensures i < |actions| && actions[i] == Check
    ensures FailAppend in actions[..i] && Signal !in actions[..i] && StopWorker !in actions[..i]
    decreases |actions|
  {
    hide Run, Step;
    var n := |actions| - 1;
    var front := actions[..n];
    RunOfLast(actions);
    if actions[n] == SendWriteError {
      assert front + [SendWriteError] == actions;
      RunsExactly(front, SendWriteError);
      var before := UpToWorker(front);
      i := |before| - 1;
      assert front[i] == Check && front[..i] == before[..i];
      assert actions == before + actions[|before|..];
      PrefixRuns(START, before, actions[|before|..]);
      CheckedAfterFailure(before);
      assert actions[..i] == before[..i];
    } else {
      i := SentOnlyInTime(front);
      assert actions[..i] == front[..i];
    }
  }

  lemma CheckedAfterFailure(actions: seq<Action>)
    requires actions != [] && actions[|actions| - 1] == Check
    ensures Run(START, actions).Some? ==> FailAppend in actions[..|actions| - 1]
  {
    hide Run, Step;
    if Run(START, actions).Some? {
      var front := actions[..|actions| - 1];
      RunOfLast(actions);
      assert front + [Check] == actions;
      RunsExactly(front, Check);
      assert UpToWorker(front) <= front;
      var w := UpToWorker(front);
      assert w[|w| - 1] in w;
    }
  }

  /** If every failed append is checked after cancellation, no write error is ever sent. */
  lemma LateFailuresAreSilent(actions: seq<Action>)
    requires Run(START, actions).Some?
    requires forall i :: 0 <= i < |actions| && actions[i] == Check ==> Stops(actions[..i])
    ensures SendWriteError !in actions && WriteFailed !in Sent(START, actions)
  {
    if SendWriteError in actions {
      var i := SentOnlyInTime(actions);
      assert false;
    }
    StartSatisfiesInvariant();
    ServerSendsNoWriteError(START, actions);
  }

  lemma {:induction false} ServerSendsNoWriteError(s: State, actions: seq<Action>)
    requires Run(s, actions).Some? && SendWriteError !in actions && s.server != SendingExit(WriteFailed)
    ensures WriteFailed !in Sent(s, actions)
    decreases |actions|
  {
    hide Step;
    if actions != [] {
      ServerHonest(s, actions[0]);
      assert [actions[0]][1..] == [];
      assert actions == [actions[0]] + actions[1..];
      ServerSendsNoWriteError(Step(s, actions[0]).value, actions[1..]);
    }
  }

  lemma ServerHonest(s: State, a: Action)
    requires Step(s, a).Some? && s.server != SendingExit(WriteFailed)
    ensures Step(s, a).value.server != SendingExit(WriteFailed)
    ensures a != SendWriteError ==> WriteFailed !in Sent(s, [a])
  {
    hide MainDoes, WorkerDoes;
    assert [a][1..] == [];
  }

  /** At most the append already under way at cancellation is still committed. */
  lemma AtMostOneLateCommit(actions: seq<Action>)
    requires Run(START, actions).Some?
    ensures Run(START, actions).value.lateCommits <= 1
  {
    hide Run;
    StartSatisfiesInvariant();
    RunKeepsInvariant(START, actions);
  }

  // ---- every stop trigger leads to a return ----

  function MainRank(m: Main): nat {
    match m
    case Selecting => 8
    case StoppingWorker => 7
    case Joining => 6
    case CallingShutdown => 5
    case Draining => 4
    case ClosingServer => 3
    case ClosingListener => 2
    case ClosingDb => 1
    case Returned => 0
  }

  /** Under a cancelled context an append begun earlier may return to the select once more. */
  function WorkerRank(w: Worker): nat {
    match w
    case Appending(underCancel) => if underCancel then 4 else 6
    case Waiting => 5
    case Checking => 3
    case SendingWriteError => 2
    case Exiting => 1
    case Done => 0
  }

  function ServerRank(v: Server): nat {
    match v
    case Serving => 2
    case SendingExit(_) => 1
    case Gone => 0
  }

  function Measure(s: State): (m: nat)
    ensures m <= 16
  {
    MainRank(s.main) + WorkerRank(s.worker) + ServerRank(s.server)
  }

  /** After cancellation each step of a goroutine uses up the measure, and outside events give none back. */
  lemma CancelledStepsDecrease(s: State, a: Action)
    requires Cancelled(s) && Step(s, a).Some?
    ensures Cancelled(Step(s, a).value)
    ensures !Outside(a) ==> Measure(Step(s, a).value) < Measure(s)
    ensures Outside(a) ==> Measure(Step(s, a).value) == Measure(s)
  {
    hide MainDoes, WorkerDoes, ServerDoes, MainCan, WorkerCan, ServerCan;
    if
    case Outside(a) =>
    case !Outside(a) && MainCan(s, a) =>
      hide Measure, Cancelled;
      MainDecreases(s, a);
    case !Outside(a) && !MainCan(s, a) && WorkerCan(s, a) =>
      hide Measure, Cancelled;
      WorkerDecreases(s, a);
    case !Outside(a) && !MainCan(s, a) && !WorkerCan(s, a) =>
      hide Measure, Cancelled;
      ServerDecreases(s, a);
  }

  lemma MainDecreases(s: State, a: Action)
    requires Cancelled(s) && MainCan(s, a)
    ensures Cancelled(MainDoes(s, a)) && Measure(MainDoes(s, a)) < Measure(s)
  {
    hide ReturnValue;
  }

  lemma WorkerDecreases(s: State, a: Action)
    requires Cancelled(s) && WorkerCan(s, a)
    ensures Cancelled(WorkerDoes(s, a)) && Measure(WorkerDoes(s, a)) < Measure(s)
  {
  }

  lemma ServerDecreases(s: State, a: Action)
    requires Cancelled(s) && ServerCan(s, a)
    ensures Cancelled(ServerDoes(s, a)) && Measure(ServerDoes(s, a)) < Measure(s)
  {
  }

  /** How many of the actions are steps of a goroutine. */
  function Work(actions: seq<Action>): nat {
    if actions == [] then 0 else (if Outside(actions[0]) then 0 else 1) + Work(actions[1..])
  }

  lemma {:induction false} CancelledRunsAreShort(s: State, actions: seq<Action>)
    requires Cancelled(s) && Run(s, actions).Some?
    ensures Work(actions) + Measure(Run(s, actions).value) <= Measure(s)
    decreases |actions|
  {
    hide Step, Measure, Cancelled, Outside;
    if actions != [] {
      CancelledStepsDecrease(s, actions[0]);
      CancelledRunsAreShort(Step(s, actions[0]).value, actions[1..]);
    }
  }

  /** Nothing deadlocks: until main has returned, main or the worker can take a step. */
  function NextStep(s: State): Action {
    match s.main
    case Selecting => if s.signalled then TakeSignal else TakeError
    case StoppingWorker => StopWorker
    case Joining =>
      (match s.worker
       case Waiting => TakeStop
       case Appending(_) => FailAppend
       case Checking => Check
       case SendingWriteError => SendWriteError
       case Exiting => Exit
       case Done => Join)
    case CallingShutdown => CallShutdown
    case Draining => Drained
    case ClosingServer => CloseServer
    case ClosingListener => CloseListener
    case ClosingDb => CloseDb
    case Returned => Tick
  }

  /** A signal, a failed write or a server exit that main can see. */
  predicate Triggered(s: State) { s.signalled || s.errors != [] || !s.main.Selecting? }

  lemma NoDeadlock(s: State)
    requires Invariant(s) && Triggered(s) && !s.main.Returned?
    ensures Step(s, NextStep(s)).Some? && !Outside(NextStep(s))
  {
  }

  /** Only main itself can end the trigger, by taking it; until then its select stays enabled. */
  lemma TriggerStays(s: State, a: Action)
    requires Triggered(s) && Step(s, a).Some?
    ensures Triggered(Step(s, a).value)
    ensures s.main.Selecting? && !OfMain(a) ==> Step(Step(s, a).value, NextStep(Step(s, a).value)).Some?
    ensures s.main.Selecting? && OfMain(a) ==> Step(s, a).value.main.StoppingWorker?
  {
    hide MainDoes, WorkerDoes, ServerDoes;
    if MainCan(s, a) {
      MarksOfMain(s, a);
    } else {
      OthersLeaveMain(s, a);
    }
  }

  /** A run with a stop trigger that can go no further has returned, with the worker ended and the database closed. */
  lemma StuckMeansReturned(actions: seq<Action>)
    requires Run(START, actions).Some? && Triggered(Run(START, actions).value)
    requires forall a :: !Outside(a) ==> Step(Run(START, actions).value, a).None?
    ensures var s := Run(START, actions).value; s.main.Returned? && s.worker.Done? && s.dbClosed
  {
    hide Run;
    StartSatisfiesInvariant();
    RunKeepsInvariant(START, actions);
    var s := Run(START, actions).value;
    if !s.main.Returned? {
      NoDeadlock(s);
    }
  }

  // ---- a failed write does not always decide the result ----

  const WRITE_FAILS: seq<Action> := [Tick, TakeTick, FailAppend, Check, SendWriteError]
  const SIGNAL_TAKEN: seq<Action> := [Signal, TakeSignal, StopWorker, Exit, Join]
  const SHUTS_DOWN: seq<Action> := [CallShutdown, Drained, CloseListener, CloseDb]

  const ERROR_SENT: State := START.(worker := Exiting, errors := [WriteFailed])
  const JOINED: State := ERROR_SENT.(signalled := true, stopped := true, worker := Done, main := CallingShutdown)

  lemma FirstPart()
    ensures Run(START, WRITE_FAILS) == Some(ERROR_SENT)
  {
    hide Run;
    var s1 := RunStep(START, WRITE_FAILS, 0);
    var s2 := RunStep(s1, WRITE_FAILS, 1);
    var s3 := RunStep(s2, WRITE_FAILS, 2);
    var s4 := RunStep(s3, WRITE_FAILS, 3);
    var s5 := RunStep(s4, WRITE_FAILS, 4);
    assert s5.errors == [WriteFailed];
  }

  lemma SecondPart()
    ensures Run(ERROR_SENT, SIGNAL_TAKEN) == Some(JOINED)
  {
    hide Run;
    var s1 := RunStep(ERROR_SENT, SIGNAL_TAKEN, 0);
    var s2 := RunStep(s1, SIGNAL_TAKEN, 1);
    var s3 := RunStep(s2, SIGNAL_TAKEN, 2);
    var s4 := RunStep(s3, SIGNAL_TAKEN, 3);
    var s5 := RunStep(s4, SIGNAL_TAKEN, 4);
  }

  lemma ThirdPart()
    ensures var end := Run(JOINED, SHUTS_DOWN); end.Some? && end.value.main.Returned? && end.value.result == None
  {
    hide Run;
    var s1 := RunStep(JOINED, SHUTS_DOWN, 0);
    var s2 := RunStep(s1, SHUTS_DOWN, 1);
    var s3 := RunStep(s2, SHUTS_DOWN, 2);
    var s4 := RunStep(s3, SHUTS_DOWN, 3);
  }

  /** A write error main never takes is lost: with a signal also pending, run may return nil. */
  lemma WriteErrorCanBeLost()
    ensures var actions := WRITE_FAILS + SIGNAL_TAKEN + SHUTS_DOWN; var end := Run(START, actions);
      SendWriteError in actions && end.Some? && end.value.main.Returned? && end.value.result == None
  {
    assert WRITE_FAILS[4] == SendWriteError;
    hide Run, Step;
    FirstPart();
    SecondPart();
    ThirdPart();
    RunOfConcat(START, WRITE_FAILS, SIGNAL_TAKEN);
    RunOfConcat(START, WRITE_FAILS + SIGNAL_TAKEN, SHUTS_DOWN);
  }

  lemma RunStep(s: State, actions: seq<Action>, i: nat) returns (t: State)
    requires i < |actions| && Step(s, actions[i]).Some?
    ensures Step(s, actions[i]) == Some(t)
    ensures Run(s, actions[i..]) == Run(t, actions[i + 1..])
    ensures actions[0..] == actions
    ensures i + 1 == |actions| ==> Run(s, actions[i..]) == Some(t)
  {
    t := Step(s, actions[i]).value;
    assert actions[i..][1..] == actions[i + 1..];
    if i + 1 == |actions| {
      assert actions[i + 1..] == [];
    }
  }
}
