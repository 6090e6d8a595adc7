/**
 * The access-point and Wi-Fi management timers: 32-bit millisecond stamps compared by wrap-around
 * subtraction, over runs in which the clock rolls over any number of times.
 */
module Timers {

  const WRAP: int := 0x1_0000_0000

  type Word = w: int | 0 <= w < WRAP

  /** What `millis()` shows at real time `t`. */
  function Millis(t: nat): Word { t % WRAP }

  /** `(unsigned long)(a - b)` */
  function WrapSub(a: Word, b: Word): Word { (a - b) % WRAP }

  /** The clock shows the milliseconds since it last rolled over, after 2^32 of them. */
  lemma MillisRollsOver(t: nat)
    ensures t < 4294967296 ==> Millis(t) == t
    ensures Millis(t + 4294967296) == Millis(t)
  {
  }

  /** Wrap-around subtraction measures any real interval shorter than one rollover. */
  lemma ElapsedIsExact(now: nat, last: int)
    requires 0 <= now - last < WRAP
    ensures WrapSub(Millis(now), last % WRAP) == now - last
  {
    var q, p := now / WRAP, last / WRAP;
    assert now == q * WRAP + now % WRAP && last == p * WRAP + last % WRAP;
    assert now - last == (q - p) * WRAP + (now % WRAP - last % WRAP);
    if now % WRAP >= last % WRAP {
      assert q - p <= 0 || (q - p) * WRAP >= WRAP;
      assert q - p >= 0 || (q - p) * WRAP <= -WRAP;
    } else {
      assert q - p <= 1 || (q - p) * WRAP >= 2 * WRAP;
      assert q - p >= 1 || (q - p) * WRAP <= 0;
    }
  }

  const MANAGE_DELAY: int := 10000
  const RECONNECT_DELAY: int := 60000

  // ---- the two loops ----

  /** `APSettingsService::loop`: the new stamp, and whether the network is managed now. */
  function ApLoop(lastManaged: Word, millis: Word): (Word, bool) {
    if WrapSub(millis, lastManaged) >= MANAGE_DELAY then (millis, true) else (lastManaged, false)
  }

  /** `APSettingsService::onConfigUpdated` */
  function ApReset(millis: Word): Word { WrapSub(millis, MANAGE_DELAY) }

  /** `WiFiSettingsService::loop`: stamp 0 means "connect at once". */
  function WifiLoop(lastAttempt: Word, millis: Word): (Word, bool) {
    if lastAttempt == 0 || WrapSub(millis, lastAttempt) >= RECONNECT_DELAY then (millis, true) else (lastAttempt, false)
  }

  // ---- runs ----

  /** The loop runs, or the settings change, at a real time. */
  datatype Event = Loop(at: nat) | Configured(at: nat)

  /** The calls and resets of a run, in order. */
  datatype Mark = Called(at: nat) | WasReset(at: nat)

  datatype Timer = Timer(stamp: Word, marks: seq<Mark>)

  function ApStep(t: Timer, e: Event): Timer {
    match e
    case Loop(at) =>
      var (stamp, managed) := ApLoop(t.stamp, Millis(at));
      Timer(stamp, if managed then t.marks + [Called(at)] else t.marks)
    case Configured(at) => Timer(ApReset(Millis(at)), t.marks + [WasReset(at)])
  }

  function WifiStep(t: Timer, e: Event): Timer {
    match e
    case Loop(at) =>
      var (stamp, attempted) := WifiLoop(t.stamp, Millis(at));
      Timer(stamp, if attempted then t.marks + [Called(at)] else t.marks)
    case Configured(at) => Timer(0, t.marks + [WasReset(at)])
  }

  function ApRun(events: seq<Event>): Timer
    requires events != []
  {
    if |events| == 1 then ApStep(Timer(0, []), events[0])
    else ApStep(ApRun(events[..|events| - 1]), events[|events| - 1])
  }

  function WifiRun(events: seq<Event>): Timer
    requires events != []
  {
    if |events| == 1 then WifiStep(Timer(0, []), events[0])
    else WifiStep(WifiRun(events[..|events| - 1]), events[|events| - 1])
  }

  /** When the loop last ran, or the start if it has not run yet. */
  function LatestLoop(events: seq<Event>): nat
    requires events != []
  {
    var e := events[|events| - 1];
    if |events| == 1 || e.Loop? then e.at else LatestLoop(events[..|events| - 1])
  }

  /**
   * The run begins with the configuration that the service does itself, time does not go back, and nothing
   * happens more than `gap` after the latest loop: the next loop comes first.
   */
  predicate Timely(events: seq<Event>, gap: nat) {
    && events != [] && events[0].Configured?
    && forall i :: 0 < i < |events| ==> events[i - 1].at <= events[i].at <= LatestLoop(events[..i]) + gap
  }

  lemma {:induction false} LoopsComeFirst(events: seq<Event>, gap: nat)
    requires Timely(events, gap)
    ensures events[0].at <= LatestLoop(events) <= events[|events| - 1].at
    ensures |events| > 1 ==> Timely(events[..|events| - 1], gap)
    ensures |events| > 1 ==> events[|events| - 1].at <= LatestLoop(events[..|events| - 1]) + gap
    decreases |events|
  {
    if |events| > 1 {
      var front := events[..|events| - 1];
      assert forall i :: 0 < i < |front| ==> front[..i] == events[..i];
      LoopsComeFirst(front, gap);
    }
  }

  /** What one mark says about the one after it. */
  predicate ApGap(a: Mark, b: Mark, gap: nat) {
    b.Called? ==>
      if a.Called? then 10000 <= b.at - a.at < 10000 + gap else 0 <= b.at - a.at <= gap
  }

  /** A stamp equal to 0 is taken for "connect at once": the next loop tries again. */
  predicate WifiGap(a: Mark, b: Mark, gap: nat) {
    b.Called? ==>
      if a.Called? && Millis(a.at) != 0 then 60000 <= b.at - a.at < 60000 + gap
      else 0 <= b.at - a.at <= gap
  }

  /** Every call comes less than `bound` after the call before it, whatever resets lie between them. */
  predicate CallsWithin(marks: seq<Mark>, bound: int) {
    forall i, j :: 0 <= i < j < |marks| && marks[i].Called? && marks[j].Called? && OnlyResets(marks, i + 1, j) ==>
      marks[j].at - marks[i].at < bound
  }

  predicate OnlyResets(marks: seq<Mark>, from: int, to: int)
    requires 0 <= from && to <= |marks|
  {
    forall k :: from <= k < to ==> marks[k].WasReset?
  }

  /** The latest call lies less than `bound` before `now`; before the first call, `now` is at most `start`. */
  predicate CalledSince(marks: seq<Mark>, start: int, now: int, bound: int) {
    && (OnlyResets(marks, 0, |marks|) ==> now <= start)
    && forall i :: 0 <= i < |marks| && marks[i].Called? && OnlyResets(marks, i + 1, |marks|) ==>
        now - marks[i].at < bound
  }

  lemma ResetKeepsCalls(marks: seq<Mark>, at: nat, start: int, now: int, delay: int, bound: int)
    requires CallsWithin(marks, bound) && CalledSince(marks, start, now, delay)
    ensures CallsWithin(marks + [WasReset(at)], bound) && CalledSince(marks + [WasReset(at)], start, now, delay)
  {
    var more := marks + [WasReset(at)];
    forall i, j | 0 <= i < j < |more| && more[i].Called? && more[j].Called? && OnlyResets(more, i + 1, j)
      ensures more[j].at - more[i].at < bound
    {
      assert forall k :: i + 1 <= k < j ==> marks[k] == more[k];
      assert OnlyResets(marks, i + 1, j);
    }
    forall i | 0 <= i < |more| && more[i].Called? && OnlyResets(more, i + 1, |more|) ensures now - more[i].at < delay {
      assert forall k :: i + 1 <= k < |marks| ==> marks[k] == more[k];
      assert OnlyResets(marks, i + 1, |marks|);
    }
    if OnlyResets(more, 0, |more|) {
      assert forall k :: 0 <= k < |marks| ==> marks[k] == more[k];
    }
  }

  /** A call at most `gap` after the latest loop. */
  lemma CallKeepsCalls(marks: seq<Mark>, at: nat, start: int, now: int, delay: int, gap: nat)
    requires CallsWithin(marks, delay + gap) && CalledSince(marks, start, now, delay) && at <= now + gap && delay > 0
    ensures CallsWithin(marks + [Called(at)], delay + gap) && CalledSince(marks + [Called(at)], start, at, delay)
  {
    var more := marks + [Called(at)];
    forall i, j | 0 <= i < j < |more| && more[i].Called? && more[j].Called? && OnlyResets(more, i + 1, j)
      ensures more[j].at - more[i].at < delay + gap
    {
      assert forall k :: i + 1 <= k < j ==> marks[k] == more[k];
      assert OnlyResets(marks, i + 1, j);
    }
    assert more[|marks|].Called?;
  }

  /** A loop that does not call, less than the delay after a call that nothing followed. */
  lemma QuietLoopKeepsCalls(marks: seq<Mark>, at: nat, start: int, delay: int)
    requires marks != [] && marks[|marks| - 1].Called? && at - marks[|marks| - 1].at < delay
    ensures CalledSince(marks, start, at, delay)
  {
  }

  predicate ApGaps(marks: seq<Mark>, gap: nat) {
    forall i :: 0 < i < |marks| ==> ApGap(marks[i - 1], marks[i], gap)
  }

  predicate WifiGaps(marks: seq<Mark>, gap: nat) {
    forall i :: 0 < i < |marks| ==> WifiGap(marks[i - 1], marks[i], gap)
  }

  /** The stamp stands for the real time `last`, at most one delay before the latest event. */
  predicate ApTracks(t: Timer, latest: Event) {
    && t.marks != []
    && var m := t.marks[|t.marks| - 1];
       var last := if m.Called? then m.at else m.at - MANAGE_DELAY;
      && t.stamp == last % WRAP
      && (if m.Called? then 0 <= latest.at - last < MANAGE_DELAY else latest == Configured(m.at))
  }

  lemma ApStepGaps(t: Timer, latest: Event, e: Event, gap: nat)
    requires MANAGE_DELAY + gap < WRAP
    requires ApTracks(t, latest) && ApGaps(t.marks, gap) && latest.at <= e.at <= latest.at + gap
    ensures ApTracks(ApStep(t, e), e) && ApGaps(ApStep(t, e).marks, gap)
  {
    var m := t.marks[|t.marks| - 1];
    var last := if m.Called? then m.at else m.at - MANAGE_DELAY;
    match e
    case Loop(at) =>
      ElapsedIsExact(at, last);
    case Configured(at) =>
      ResetStamp(at);
  }

  lemma ResetStamp(t: nat)
    ensures ApReset(Millis(t)) == (t - MANAGE_DELAY) % WRAP
  {
    var q := t / WRAP;
    var r := t % WRAP;
    assert t - MANAGE_DELAY == q * WRAP + (r - MANAGE_DELAY);
    ModuloShift(r - MANAGE_DELAY, q);
  }

  lemma ModuloShift(x: int, q: int)
    ensures (q * WRAP + x) % WRAP == x % WRAP
  {
    var y := q * WRAP + x;
    var a, b := y / WRAP, x / WRAP;
    assert y == a * WRAP + y % WRAP && x == b * WRAP + x % WRAP;
    assert (a - q - b) * WRAP == x % WRAP - y % WRAP;
    assert a - q - b <= 0 || (a - q - b) * WRAP >= WRAP;
    assert a - q - b >= 0 || (a - q - b) * WRAP <= -WRAP;
  }

  /**
   * Between resets, management calls are at least the delay and less than the delay plus one loop gap apart;
   * after a reset the next loop calls.
   */
  lemma {:induction false} ApCallsAreSpaced(events: seq<Event>, gap: nat)
    requires MANAGE_DELAY + gap < WRAP && Timely(events, gap)
    ensures ApGaps(ApRun(events).marks, gap) && ApTracks(ApRun(events), events[|events| - 1])
  {
    hide ApGap;
    if |events| == 1 {
      ResetStamp(events[0].at);
    } else {
      var front := events[..|events| - 1];
      LoopsComeFirst(events, gap);
      LoopsComeFirst(front, gap);
      ApCallsAreSpaced(front, gap);
      ApStepGaps(ApRun(front), front[|front| - 1], events[|events| - 1], gap);
    }
  }

  /** Whatever resets lie between them, management calls are less than the delay plus one loop gap apart. */
  lemma {:induction false} ApCallsKeepComing(events: seq<Event>, gap: nat)
    requires MANAGE_DELAY + gap < WRAP && Timely(events, gap)
    ensures CallsWithin(ApRun(events).marks, 10000 + gap)
    ensures CalledSince(ApRun(events).marks, events[0].at, LatestLoop(events), 10000)
    decreases |events|
  {
    hide CallsWithin, CalledSince;
    LoopsComeFirst(events, gap);
    if |events| == 1 {
      NoCallsYet(ApRun(events).marks, events[0].at, MANAGE_DELAY, MANAGE_DELAY + gap);
    } else {
      var front, e := events[..|events| - 1], events[|events| - 1];
      ApCallsKeepComing(front, gap);
      ApCallsAreSpaced(front, gap);
      LoopsComeFirst(front, gap);
      var t, start, now := ApRun(front), events[0].at, LatestLoop(front);
      match e
      case Configured(at) =>
        ResetKeepsCalls(t.marks, at, start, now, MANAGE_DELAY, MANAGE_DELAY + gap);
      case Loop(at) =>
        if ApLoop(t.stamp, Millis(at)).1 {
          CallKeepsCalls(t.marks, at, start, now, MANAGE_DELAY, gap);
        } else {
          ApQuietLoop(t, front[|front| - 1], at, gap);
          QuietLoopKeepsCalls(t.marks, at, start, MANAGE_DELAY);
        }
    }
  }

  lemma NoCallsYet(marks: seq<Mark>, start: nat, delay: int, bound: int)
    requires |marks| == 1 && marks[0].WasReset?
    ensures CallsWithin(marks, bound) && CalledSince(marks, start, start, delay)
  {
  }

  lemma ApQuietLoop(t: Timer, latest: Event, at: nat, gap: nat)
    requires MANAGE_DELAY + gap < WRAP && ApTracks(t, latest) && latest.at <= at <= latest.at + gap
    requires !ApLoop(t.stamp, Millis(at)).1
    ensures var m := t.marks[|t.marks| - 1]; m.Called? && at - m.at < MANAGE_DELAY
  {
    var m := t.marks[|t.marks| - 1];
    ElapsedIsExact(at, if m.Called? then m.at else m.at - MANAGE_DELAY);
  }

  /** After an attempt whose stamp is 0, or after a reset, the very next loop attempts. */
  predicate WifiTracks(t: Timer, latest: Event) {
    && t.marks != []
    && var m := t.marks[|t.marks| - 1];
      && t.stamp == (if m.Called? then Millis(m.at) else 0)
      && (if m.Called? && t.stamp != 0 then 0 <= latest.at - m.at < RECONNECT_DELAY else latest.at == m.at)
  }

  lemma WifiStepGaps(t: Timer, latest: Event, e: Event, gap: nat)
    requires RECONNECT_DELAY + gap < WRAP
    requires WifiTracks(t, latest) && WifiGaps(t.marks, gap) && latest.at <= e.at <= latest.at + gap
    ensures WifiTracks(WifiStep(t, e), e) && WifiGaps(WifiStep(t, e).marks, gap)
  {
    var m := t.marks[|t.marks| - 1];
    match e
    case Loop(at) =>
      if t.stamp != 0 {
        ElapsedIsExact(at, m.at);
      }
    case Configured(at) =>
  }

  /**
   * After an attempt whose stamp is not 0 the next one is at least a delay away unless a reset comes first; after
   * a reset or a stamp of 0 the next loop attempts.
   */
  lemma {:induction false} WifiAttemptsAreSpaced(events: seq<Event>, gap: nat)
    requires RECONNECT_DELAY + gap < WRAP && Timely(events, gap)
    ensures WifiGaps(WifiRun(events).marks, gap) && WifiTracks(WifiRun(events), events[|events| - 1])
  {
    hide WifiGap;
    if |events| > 1 {
      var front := events[..|events| - 1];
      LoopsComeFirst(events, gap);
      LoopsComeFirst(front, gap);
      WifiAttemptsAreSpaced(front, gap);
      WifiStepGaps(WifiRun(front), front[|front| - 1], events[|events| - 1], gap);
    }
  }

  /** Whatever resets lie between them, attempts are less than the delay plus one loop gap apart. */
  lemma {:induction false} WifiAttemptsKeepComing(events: seq<Event>, gap: nat)
    requires RECONNECT_DELAY + gap < WRAP && Timely(events, gap)
    ensures CallsWithin(WifiRun(events).marks, 60000 + gap)
    ensures CalledSince(WifiRun(events).marks, events[0].at, LatestLoop(events), 60000)
    decreases |events|
  {
    hide CallsWithin, CalledSince;
    LoopsComeFirst(events, gap);
    if |events| == 1 {
      NoCallsYet(WifiRun(events).marks, events[0].at, RECONNECT_DELAY, RECONNECT_DELAY + gap);
    } else {
      var front, e := events[..|events| - 1], events[|events| - 1];
      WifiAttemptsKeepComing(front, gap);
      WifiAttemptsAreSpaced(front, gap);
      LoopsComeFirst(front, gap);
      var t, start, now := WifiRun(front), events[0].at, LatestLoop(front);
      match e
      case Configured(at) =>
        ResetKeepsCalls(t.marks, at, start, now, RECONNECT_DELAY, RECONNECT_DELAY + gap);
      case Loop(at) =>
        if WifiLoop(t.stamp, Millis(at)).1 {
          CallKeepsCalls(t.marks, at, start, now, RECONNECT_DELAY, gap);
        } else {
          WifiQuietLoop(t, front[|front| - 1], at, gap);
          QuietLoopKeepsCalls(t.marks, at, start, RECONNECT_DELAY);
        }
    }
  }

  lemma WifiQuietLoop(t: Timer, latest: Event, at: nat, gap: nat)
    requires RECONNECT_DELAY + gap < WRAP && WifiTracks(t, latest) && latest.at <= at <= latest.at + gap
    requires !WifiLoop(t.stamp, Millis(at)).1
    ensures var m := t.marks[|t.marks| - 1]; m.Called? && at - m.at < RECONNECT_DELAY
  {
    var m := t.marks[|t.marks| - 1];
    ElapsedIsExact(at, m.at);
  }

  /**
   * With loops less than a delay apart, two neighbouring attempts are too close exactly if the first fell on a
   * stamp of 0.
   */
  lemma TooSoonExactly(events: seq<Event>, gap: nat, i: nat)
    requires gap < RECONNECT_DELAY && Timely(events, gap)
    requires 0 < i < |WifiRun(events).marks| && WifiRun(events).marks[i - 1].Called? && WifiRun(events).marks[i].Called?
    ensures var a, b := WifiRun(events).marks[i - 1].at, WifiRun(events).marks[i].at;
      b - a < 60000 <==> Millis(a) == 0
  {
    hide WifiRun;
    WifiAttemptsAreSpaced(events, gap);
    assert WifiGap(WifiRun(events).marks[i - 1], WifiRun(events).marks[i], gap);
  }

  /** Such a run exists: an attempt at the rollover is repeated a millisecond later. */
  lemma RolloverRepeatsAttempt()
    ensures WifiRun([Configured(WRAP - 1), Loop(WRAP), Loop(WRAP + 1)]).marks ==
        [WasReset(WRAP - 1), Called(WRAP), Called(WRAP + 1)]
  {
    var events := [Configured(WRAP - 1), Loop(WRAP), Loop(WRAP + 1)];
    assert events[..2] == [Configured(WRAP - 1), Loop(WRAP)];
    assert events[..2][..1] == [Configured(WRAP - 1)];
    assert WifiRun(events[..2][..1]) == Timer(0, [WasReset(WRAP - 1)]);
    assert WifiRun(events[..2]) == Timer(0, [WasReset(WRAP - 1), Called(WRAP)]);
  }

  // ---- the services ----

  class APSettingsService {
    var lastManaged: Word

    constructor (millis: Word)
      ensures lastManaged == ApReset(millis)
    {
      lastManaged := WrapSub(millis, MANAGE_DELAY);
    }

    method RunLoop(millis: Word) returns (managed: bool)
      modifies this
      ensures (lastManaged, managed) == ApLoop(old(lastManaged), millis)
    {
      var manageElapsed := WrapSub(millis, lastManaged);
      managed := manageElapsed >= MANAGE_DELAY;
      if managed {
        lastManaged := millis;
      }
    }

    method OnConfigUpdated(millis: Word)
      modifies this
      ensures lastManaged == ApReset(millis)
    {
      lastManaged := WrapSub(millis, MANAGE_DELAY);
    }
  }

  class WiFiSettingsService {
    var lastConnectionAttempt: Word

    constructor ()
      ensures lastConnectionAttempt == 0
    {
      lastConnectionAttempt := 0;
    }

    method RunLoop(millis: Word) returns (attempted: bool)
      modifies this
      ensures (lastConnectionAttempt, attempted) == WifiLoop(old(lastConnectionAttempt), millis)
    {
      attempted := lastConnectionAttempt == 0 || WrapSub(millis, lastConnectionAttempt) >= RECONNECT_DELAY;
      if attempted {
        lastConnectionAttempt := millis;
      }
    }

    method ReconfigureWiFiConnection()
      modifies this
      ensures lastConnectionAttempt == 0
    {
      lastConnectionAttempt := 0;
    }
  }
}
