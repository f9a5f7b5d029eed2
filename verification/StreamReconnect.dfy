/** When the event stream is connected: backoff timer, visibility, requested reconnects and stop. */
module StreamReconnect {
  import opened CodeUnits

  const INITIAL_DELAY_MS := 1000
  const MAX_DELAY_MS := 30000

  function Pow2(n: nat): nat {
    if n == 0 then 1 else 2 * Pow2(n - 1)
  }

  function Max(a: int, b: int): int {
    if a < b then b else a
  }

  /** `random()` lies in [0, 1). */
  type Unit = r: real | 0.0 <= r < 1.0

  function Exponential(attempt: nat): nat {
    Min(INITIAL_DELAY_MS * Pow2(if attempt == 0 then 0 else attempt - 1), MAX_DELAY_MS)
  }

  /** Full jitter over the upper half of the exponential delay, rounded to milliseconds. */
  function ReconnectDelay(attempt: nat, random: Unit): (delay: int) {
    var half := (Exponential(attempt) as real) / 2.0;
    (half + random * half + 0.5).Floor
  }

  lemma Pow2IsPositive(n: nat)
    ensures Pow2(n) >= 1
  {
  }

  /** Every delay lies between half the exponential step and the step, so between 500 ms and 30 s. */
  lemma DelayIsBounded(attempt: nat, random: Unit)
    ensures Exponential(attempt) <= 2 * ReconnectDelay(attempt, random)
    ensures ReconnectDelay(attempt, random) <= Exponential(attempt)
    ensures INITIAL_DELAY_MS <= Exponential(attempt) <= MAX_DELAY_MS
  {
    hide ReconnectDelay;
    Pow2IsPositive(if attempt == 0 then 0 else attempt - 1);
    DelayOf(Exponential(attempt), attempt, random);
  }

  lemma DelayOf(e: nat, attempt: nat, random: Unit)
    requires e == Exponential(attempt) && e > 0
    ensures e <= 2 * ReconnectDelay(attempt, random) && ReconnectDelay(attempt, random) <= e
  {
    hide Exponential;
    var half := (e as real) / 2.0;
    Scaled(half, random);
    RoundedHalf(e, random * half);
  }

  lemma RoundedHalf(e: nat, p: real)
    requires 0.0 <= p < (e as real) / 2.0
    ensures var d := ((e as real) / 2.0 + p + 0.5).Floor; e <= 2 * d && d <= e
  {
    var x := (e as real) / 2.0 + p + 0.5;
    assert x.Floor as real <= x < x.Floor as real + 1.0;
    assert (2 * x.Floor) as real == 2.0 * (x.Floor as real);
  }

  lemma Scaled(half: real, random: Unit)
    requires half >= 0.0
    ensures 0.0 <= random * half <= half
    ensures half > 0.0 ==> random * half < half
  {
  }

  /** The step is one second at first, doubles with every further attempt, and stays at 30 seconds from the sixth on. */
  lemma {:induction false} StepDoubles(attempt: nat)
    ensures Exponential(0) == 1000 && Exponential(1) == 1000
    ensures attempt >= 1 ==> Exponential(attempt + 1) == if 2 * Exponential(attempt) <= 30000 then 2 * Exponential(attempt) else 30000
    ensures Exponential(attempt) == 30000 <==> attempt >= 6
  {
    assert Pow2(4) == 16 && Pow2(5) == 32;
    if attempt >= 1 {
      assert Pow2(attempt) == 2 * Pow2(attempt - 1);
    }
    if attempt > 6 {
      StepDoubles(attempt - 1);
    }
  }

  // ----- the state of a subscription

  /** `timer`: armed for `retryAt`. `started` and `ended` count streams. */
  datatype State = State(
    now: nat,
    stopped: bool,
    paused: bool,
    inFlight: bool,
    timer: bool,
    retryAt: Option<nat>,
    requested: bool,
    attempt: nat,
    serverRetryMs: Option<nat>,
    started: nat,
    ended: nat)

  datatype Event =
    | StreamEnd(stable: bool, random: Unit)
    | TimerFire
    | Visibility(visible: bool)
    | Reconnect
    | Stop
    | Tick(elapsed: nat)
    | ServerRetry(ms: nat)

  /** `run()`, up to the point where the stream is being fetched. */
  function StartRun(s: State): State {
    if s.stopped || s.paused || s.inFlight then s else s.(inFlight := true, started := s.started + 1)
  }

  function ArmRetry(s: State): State {
    var c := s.(timer := false);
    if s.stopped || s.paused || s.retryAt.None? then c
    else if s.retryAt.value <= s.now then StartRun(c.(retryAt := None))
    else c.(timer := true)
  }

  function ScheduleReconnect(s: State, random: Unit): State {
    if s.stopped || s.paused then s
    else
      DelayIsBounded(s.attempt + 1, random);
      var delay := ReconnectDelay(s.attempt + 1, random);
      var wait := Max(delay, if s.serverRetryMs.Some? then s.serverRetryMs.value else 0);
      ArmRetry(s.(attempt := s.attempt + 1, retryAt := Some(s.now + wait)))
  }

  function ReconnectNow(s: State): State {
    if s.stopped || s.paused then s
    else
      var c := s.(timer := false);
      if c.retryAt.Some? then ArmRetry(c)
      else if c.inFlight then c.(requested := true)
      else StartRun(c)
  }

  function EndStream(s: State, stable: bool, random: Unit): State {
    var c := s.(inFlight := false, ended := s.ended + 1, attempt := if stable then 0 else s.attempt);
    if c.requested then StartRun(c.(requested := false)) else ScheduleReconnect(c, random)
  }

  function ChangeVisibility(s: State, visible: bool): State {
    if s.stopped || !visible == s.paused then s
    else if visible then ReconnectNow(s.(paused := false))
    else s.(paused := true, timer := false, requested := false)
  }

  function StopNow(s: State): State {
    s.(stopped := true, requested := false, timer := false)
  }

  function Fire(s: State): State {
    StartRun(s.(timer := false, retryAt := None))
  }

  /** A stream ends only while one is in flight; an armed timer fires no earlier than it is due. */
  predicate Enabled(s: State, e: Event) {
    match e
    case StreamEnd(_, _) => s.inFlight
    case TimerFire => s.timer && s.retryAt.Some? && s.retryAt.value <= s.now
    case _ => true
  }

  function Step(s: State, e: Event): State {
    match e
    case StreamEnd(stable, random) => EndStream(s, stable, random)
    case TimerFire => Fire(s)
    case Visibility(visible) => ChangeVisibility(s, visible)
    case Reconnect => ReconnectNow(s)
    case Stop => StopNow(s)
    case Tick(elapsed) => s.(now := s.now + elapsed)
    case ServerRetry(ms) => s.(serverRetryMs := Some(ms))
  }

  function Init(now: nat, visible: bool): State {
    StartRun(State(now, false, !visible, false, false, None, false, 0, None, 0, 0))
  }

  predicate Possible(s: State, events: seq<Event>)
    decreases events
  {
    events == [] || (Enabled(s, events[0]) && Possible(Step(s, events[0]), events[1..]))
  }

  function Run(s: State, events: seq<Event>): State
    decreases events
  {
    if events == [] then s else Run(Step(s, events[0]), events[1..])
  }

  // ----- the machine as the subscription's own fields

  class Subscription {
    var now: nat
    var stopped: bool
    var paused: bool
    var inFlight: bool
    var timerArmed: bool
    var retryAt: Option<nat>
    var reconnectRequested: bool
    var attempt: nat
    var serverRetryMs: Option<nat>
    ghost var started: nat
    ghost var ended: nat

    ghost function Current(): State
      reads this
    {
      State(now, stopped, paused, inFlight, timerArmed, retryAt, reconnectRequested, attempt, serverRetryMs, started, ended)
    }

    constructor (now: nat, visible: bool)
      ensures Current() == Init(now, visible)
    {
      this.now, stopped, paused, inFlight, timerArmed := now, false, !visible, false, false;
      retryAt, reconnectRequested, attempt, serverRetryMs := None, false, 0, None;
      started, ended := 0, 0;
      new;
      RunStream();
    }

    method RunStream()
      modifies this
      ensures Current() == StartRun(old(Current()))
    {
      if stopped || paused {
        return;
      }
      if inFlight {
        return;
      }
      inFlight := true;
      started := started + 1;
    }

    method ArmTimer()
      modifies this
      ensures Current() == ArmRetry(old(Current()))
    {
      timerArmed := false;
      if stopped || paused || retryAt.None? {
        return;
      }
      var remaining := Max(0, retryAt.value - now);
      if remaining == 0 {
        retryAt := None;
        RunStream();
        return;
      }
      timerArmed := true;
    }

    method Schedule(random: Unit)
      modifies this
      ensures Current() == ScheduleReconnect(old(Current()), random)
    {
      if stopped || paused {
        return;
      }
      attempt := attempt + 1;
      DelayIsBounded(attempt, random);
      var delay := ReconnectDelay(attempt, random);
      retryAt := Some(now + Max(delay, if serverRetryMs.Some? then serverRetryMs.value else 0));
      ArmTimer();
    }

    /** The code behind `await connect()`. */
    method StreamEnded(stable: bool, random: Unit)
      modifies this
      ensures Current() == EndStream(old(Current()), stable, random)
    {
      if stable {
        attempt := 0;
      }
      inFlight := false;
      ended := ended + 1;
      if reconnectRequested {
        reconnectRequested := false;
        RunStream();
      } else {
        Schedule(random);
      }
    }

    method TimerFired()
      modifies this
      ensures Current() == Fire(old(Current()))
    {
      timerArmed := false;
      retryAt := None;
      RunStream();
    }

    method RequestReconnect()
      modifies this
      ensures Current() == ReconnectNow(old(Current()))
    {
      if stopped || paused {
        return;
      }
      timerArmed := false;
      if retryAt.Some? {
        ArmTimer();
        return;
      }
      if inFlight {
        reconnectRequested := true;
      } else {
        RunStream();
      }
    }

    method VisibilityChanged(visible: bool)
      modifies this
      ensures Current() == ChangeVisibility(old(Current()), visible)
    {
      var nextPaused := !visible;
      if stopped || nextPaused == paused {
        return;
      }
      paused := nextPaused;
      if paused {
        timerArmed := false;
        reconnectRequested := false;
      } else {
        RequestReconnect();
      }
    }

    method Halt()
      modifies this
      ensures Current() == StopNow(old(Current()))
    {
      stopped := true;
      reconnectRequested := false;
      timerArmed := false;
    }
  }

  // ----- what every interleaving keeps

  ghost predicate Valid(s: State) {
    && (s.inFlight ==> !s.timer && s.retryAt.None?)
    && (s.timer ==> s.retryAt.Some? && !s.paused && !s.stopped)
    && (!s.paused && !s.stopped ==> s.inFlight || s.timer)
    && (s.requested ==> s.inFlight && !s.paused && !s.stopped)
    && s.started == s.ended + if s.inFlight then 1 else 0
  }

  lemma StepKeepsValid(s: State, e: Event)
    requires Valid(s) && Enabled(s, e)
    ensures Valid(Step(s, e))
  {
    hide ReconnectDelay, Exponential;
  }

  /**
   In every interleaving: at most one stream, never a stream beside an armed timer, and a
   visible subscription that is not stopped has one of the two.
   */
  lemma {:induction false} EveryRunIsValid(s: State, events: seq<Event>)
    requires Valid(s) && Possible(s, events)
    ensures Valid(Run(s, events))
    decreases events
  {
    hide Step, Valid, Enabled;
    if events != [] {
      StepKeepsValid(s, events[0]);
      EveryRunIsValid(Step(s, events[0]), events[1..]);
    }
  }

  lemma InitIsValid(now: nat, visible: bool)
    ensures Valid(Init(now, visible))
  {
  }

  /** A stream starts one at a time, not after `stop`, not while hidden, and never before a pending deadline. */
  lemma StartsAreAllowed(now: nat, visible: bool, events: seq<Event>, e: Event)
    requires Possible(Init(now, visible), events)
    requires var s := Run(Init(now, visible), events); Enabled(s, e) && Step(s, e).started > s.started
    ensures var s, after := Run(Init(now, visible), events), Step(Run(Init(now, visible), events), e);
            && after.started == s.started + 1 && after.inFlight
            && after.ended == s.started
            && !s.stopped && !after.stopped && !after.paused
            && (s.retryAt.Some? ==> s.retryAt.value <= s.now)
  {
    hide Run, Possible, ReconnectDelay, Exponential;
    InitIsValid(now, visible);
    EveryRunIsValid(Init(now, visible), events);
  }

  /** Nothing starts once stopped, whatever follows. */
  lemma {:induction false} StopIsFinal(s: State, events: seq<Event>)
    requires Valid(s) && s.stopped && Possible(s, events)
    ensures Run(s, events).stopped && Run(s, events).started == s.started
    decreases events
  {
    hide ReconnectDelay, Exponential;
    if events != [] {
      StepKeepsValid(s, events[0]);
      StopIsFinal(Step(s, events[0]), events[1..]);
    }
  }

  /** The deadline set when a stream ends respects the backoff and the server's minimum, and only time or a start clears it. */
  predicate Waits(s: State, until: nat) {
    s.retryAt == Some(until)
  }

  lemma EndSetsDeadline(s: State, stable: bool, random: Unit)
    requires Valid(s) && s.inFlight && !s.requested && !s.paused && !s.stopped
    ensures var after := EndStream(s, stable, random);
            && after.retryAt.Some? && after.timer && after.started == s.started
            && 2 * (after.retryAt.value - s.now) >= INITIAL_DELAY_MS
            && (s.serverRetryMs.Some? ==> after.retryAt.value >= s.now + s.serverRetryMs.value)
  {
    hide ReconnectDelay, Exponential;
    var attempt := (if stable then 0 else s.attempt) + 1;
    DelayIsBounded(attempt, random);
  }

  /** Hiding, showing and `reconnect()` cannot shorten a pending wait: before the deadline nothing starts. */
  lemma {:induction false} DeadlineHolds(s: State, events: seq<Event>, until: nat)
    requires Valid(s) && Waits(s, until) && Possible(s, events)
    requires Run(s, events).now < until
    ensures Waits(Run(s, events), until) && Run(s, events).started == s.started
    decreases events
  {
    hide ReconnectDelay, Exponential;
    if events != [] {
      ClockOnlyGrows(Step(s, events[0]), events[1..]);
      StepKeepsValid(s, events[0]);
      DeadlineStep(s, events[0], until);
      DeadlineHolds(Step(s, events[0]), events[1..], until);
    }
  }

  lemma DeadlineStep(s: State, e: Event, until: nat)
    requires Valid(s) && Waits(s, until) && Enabled(s, e) && s.now < until
    ensures Waits(Step(s, e), until) && Step(s, e).started == s.started && Step(s, e).now >= s.now
  {
    hide ReconnectDelay, Exponential;
  }

  lemma ClockStep(s: State, e: Event)
    ensures Step(s, e).now >= s.now
  {
    hide ReconnectDelay, Exponential;
  }

  lemma {:induction false} ClockOnlyGrows(s: State, events: seq<Event>)
    ensures Run(s, events).now >= s.now
    decreases events
  {
    hide Step;
    if events != [] {
      ClockStep(s, events[0]);
      ClockOnlyGrows(Step(s, events[0]), events[1..]);
    }
  }

  // ----- what each event does

  predicate Listens(s: State) {
    !s.paused && !s.stopped
  }

  /**
   How a stream's end goes on: while hidden or stopped nothing follows; a requested reconnect
   starts the next stream at once; else a timer waits for the step of one more attempt, of the
   first one after a stable stream, and for the server's minimum.
   */
  lemma EndIs(s: State, stable: bool, random: Unit)
    requires Valid(s) && s.inFlight
    ensures var after := EndStream(s, stable, random);
            && after.ended == s.ended + 1
            && (!Listens(s) || s.requested ==> after.attempt == if stable then 0 else s.attempt)
            && (!Listens(s) ==> after.started == s.started && !after.timer && after.retryAt.None?)
            && (Listens(s) && s.requested ==> after.started == s.started + 1 && after.inFlight && !after.requested)
            && (Listens(s) && !s.requested ==>
                  && after.started == s.started && after.timer
                  && after.attempt == (if stable then 1 else s.attempt + 1)
                  && after.retryAt == Some(s.now + Max(ReconnectDelay(after.attempt, random), if s.serverRetryMs.Some? then s.serverRetryMs.value else 0)))
  {
    hide ReconnectDelay, Exponential;
    DelayIsBounded((if stable then 0 else s.attempt) + 1, random);
  }

  /**
   Asking for a reconnect, or coming back into view: a stream in flight is marked to be followed
   at once, a deadline still to come is waited for, and otherwise a stream starts.
   */
  lemma ReconnectIs(s: State)
    requires Valid(s) && !s.stopped
    ensures var after := if s.paused then Step(s, Visibility(true)) else Step(s, Reconnect);
            && Listens(after) && after.retryAt == (if Pending(s) then s.retryAt else None)
            && (s.inFlight ==> after.requested && after.started == s.started)
            && (Pending(s) ==> after.timer && after.started == s.started)
            && (!s.inFlight && !Pending(s) ==> after.inFlight && after.started == s.started + 1)
  {
    hide ReconnectDelay, Exponential;
  }

  /** Hiding and stopping start nothing and keep the deadline; they disarm the timer and take a request back. */
  lemma HideIs(s: State)
    requires Valid(s) && Listens(s)
    ensures Step(s, Visibility(false)) == s.(paused := true, timer := false, requested := false)
    ensures Step(s, Stop) == s.(stopped := true, timer := false, requested := false)
  {
  }

  predicate Pending(s: State) {
    s.retryAt.Some? && s.now < s.retryAt.value
  }

  /** A timer that fires starts the next stream. */
  lemma FireStarts(s: State)
    requires Valid(s) && Enabled(s, TimerFire)
    ensures var after := Step(s, TimerFire);
            after.inFlight && after.started == s.started + 1 && after.retryAt.None? && !after.timer
  {
  }

  /** Time passes, the server names a minimum, or a reconnect is asked for again. */
  predicate Idles(e: Event) {
    e.Tick? || e.ServerRetry? || e.Reconnect? || e == Visibility(true)
  }

  lemma {:induction false} RequestStays(s: State, between: seq<Event>)
    requires Valid(s) && Listens(s) && s.requested && forall e | e in between :: Idles(e)
    ensures var t := Run(s, between); Valid(t) && Listens(t) && t.requested && t.started == s.started
    decreases |between|
  {
    hide ReconnectDelay, Exponential, Run;
    RunUnfolds(s, between);
    if between != [] {
      assert between[0] in between;
      RequestStays(Step(s, between[0]), between[1..]);
    }
  }

  lemma RunUnfolds(s: State, events: seq<Event>)
    ensures Run(s, events) == if events == [] then s else Run(Step(s, events[0]), events[1..])
  {
  }

  /** A reconnect asked for during a stream is served when that stream ends, whatever the backoff is. */
  lemma RequestIsServed(s: State, between: seq<Event>, stable: bool, random: Unit)
    requires Valid(s) && Listens(s) && s.inFlight && forall e | e in between :: Idles(e)
    ensures var after := Step(Run(Step(s, Reconnect), between), StreamEnd(stable, random));
            after.inFlight && after.started == s.started + 1 && after.ended == s.ended + 1
  {
    hide ReconnectDelay, Exponential, Run, EndStream;
    ReconnectIs(s);
    StepKeepsValid(s, Reconnect);
    RequestStays(Step(s, Reconnect), between);
    EndIs(Run(Step(s, Reconnect), between), stable, random);
  }
}
