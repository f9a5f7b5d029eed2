/** Runs of one channel's cache: reads that overlap, mutation answers, denials and audience changes. */
module TurnRuns {
  import opened CodeUnits
  import opened AddressedTurns
  import opened TurnConvergence
  import opened TurnReplay
  import opened TurnCache
  import opened TurnWrites

  datatype Read = Read(epoch: nat, heldAtStart: seq<Text>)

  /** `inFlight` are the reads in flight, by the clock value they began at. */
  datatype State = State(clock: nat, epoch: nat, cache: Cache, inFlight: map<nat, Read>)

  datatype Event =
    | StartRead
    | OtherRead                                           // a read of another channel: one clock for all
    | Land(read: nat, turns: seq<Turn>, complete: bool)
    | Deny(read: nat)
    | Fail(read: nat)                                     // a transient failure writes nothing
    | Answer(turn: Turn, startedEpoch: nat)
    | ChangeEpoch(epoch: nat)

  const INIT := State(0, 0, None, map[])

  function Step(s: State, e: Event): State {
    match e
    case StartRead =>
      var held := if s.cache.Some? && s.cache.value.epoch == s.epoch then Ids(s.cache.value.turns) else [];
      s.(clock := s.clock + 1, inFlight := s.inFlight[s.clock + 1 := Read(s.epoch, held)])
    case OtherRead => s.(clock := s.clock + 1)
    case Land(n, turns, complete) =>
      if n !in s.inFlight then s
      else
        var r := s.inFlight[n];
        Write(s, n, Replay(r.epoch, complete, r.heldAtStart, turns, false, Some(n), None))
    case Deny(n) =>
      if n !in s.inFlight then s
      else
        var r := s.inFlight[n];
        Write(s, n, Replay(r.epoch, true, r.heldAtStart, [], true, Some(n), None))
    case Fail(n) => s.(inFlight := s.inFlight - {n})
    case Answer(turn, startedEpoch) =>
      if startedEpoch != s.epoch then s
      else s.(cache := FoldCache(s.cache, FoldTurn(s.cache, turn, s.epoch), s.clock))
    case ChangeEpoch(epoch) => s.(epoch := epoch)
  }

  function Write(s: State, n: nat, incoming: Replay): State {
    s.(cache := FoldCache(s.cache, Some(incoming), s.clock), inFlight := s.inFlight - {n})
  }

  function Run(s: State, events: seq<Event>): State
    decreases events
  {
    if events == [] then s else Run(Step(s, events[0]), events[1..])
  }

  // ----- what every run keeps

  ghost predicate Valid(s: State) {
    && (forall n | n in s.inFlight :: n <= s.clock)
    && (s.cache.Some? ==>
          var c := s.cache.value;
          && Distinct(c.turns)
          && (c.unavailable ==> c.turns == [] && c.fencedBefore.Some? && c.fencedBefore.value <= s.clock))
  }

  /** The server lists each causal id once in one read. */
  ghost predicate ListsOnce(e: Event) {
    e.Land? ==> Distinct(e.turns)
  }

  lemma FoldCacheDistinct(held: Cache, next: Cache, readClock: nat)
    requires held.Some? ==> Distinct(held.value.turns)
    requires next.Some? ==> Distinct(next.value.turns)
    ensures FoldCache(held, next, readClock).Some? ==> Distinct(FoldCache(held, next, readClock).value.turns)
  {
    hide Fold, Replayed, Distinct, Listed, SortTurns;
    if held.Some? && next.Some? {
      FoldDistinct(held.value.turns, next.value.turns);
      ReplayedShape(held.value.turns, next.value.turns, ToSet(next.value.heldAtStart));
    }
    NoneIsDistinct();
  }

  lemma NoneIsDistinct()
    ensures Distinct([])
  {
  }

  lemma StepKeepsValid(s: State, e: Event)
    requires Valid(s) && ListsOnce(e)
    ensures Valid(Step(s, e))
  {
    hide Fold, Replayed, Distinct;
    NoneIsDistinct();
    match e
    case Land(n, turns, complete) =>
      if n in s.inFlight {
        var r := s.inFlight[n];
        FoldCacheDistinct(s.cache, Some(Replay(r.epoch, complete, r.heldAtStart, turns, false, Some(n), None)), s.clock);
      }
    case Answer(turn, startedEpoch) =>
      FoldDistinct(if s.cache.Some? then s.cache.value.turns else [], [turn]);
      FoldCacheDistinct(s.cache, FoldTurn(s.cache, turn, s.epoch), s.clock);
    case _ =>
  }

  lemma {:induction false} RunKeepsValid(s: State, events: seq<Event>)
    requires Valid(s) && forall e | e in events :: ListsOnce(e)
    ensures Valid(Run(s, events))
    decreases events
  {
    hide Valid, ListsOnce, Step;
    if events != [] {
      StepKeepsValid(s, events[0]);
      RunKeepsValid(Step(s, events[0]), events[1..]);
    }
  }

  /**
   In every reachable state, no event takes back a turn that is held once and that it leaves
   in an undenied list of the same audience.
   */
  lemma NoEventRegresses(events: seq<Event>, e: Event, id: Text)
    requires var before, after := Run(INIT, events).cache, Step(Run(INIT, events), e).cache;
             && before.Some? && after.Some? && before.value.epoch == after.value.epoch
             && !before.value.unavailable && !after.value.unavailable
             && HeldOnce(before.value.turns, id) && Has(after.value.turns, id)
    ensures var before, after := Run(INIT, events).cache.value, Step(Run(INIT, events), e).cache.value;
            NoRegress(Row(before.turns, id), Row(after.turns, id))
  {
    hide Run, Position, Fold, Replayed, HeldOnce;
    var s := Run(INIT, events);
    match e
    case Land(n, turns, complete) =>
      if n in s.inFlight {
        var r := s.inFlight[n];
        WriteNeverRegresses(s.cache.value, Replay(r.epoch, complete, r.heldAtStart, turns, false, Some(n), None), s.clock, id);
      }
    case Answer(turn, startedEpoch) =>
      if startedEpoch == s.epoch {
        AnswerNeverRegresses(s.cache.value, turn, s.epoch, s.clock, id);
      }
    case _ =>
  }

  lemma AnswerNeverRegresses(current: Replay, turn: Turn, epoch: nat, readClock: nat, id: Text)
    requires !current.unavailable && HeldOnce(current.turns, id)
    requires var after := FoldCache(Some(current), FoldTurn(Some(current), turn, epoch), readClock);
             Has(after.value.turns, id)
    ensures NoRegress(Row(current.turns, id), Row(FoldCache(Some(current), FoldTurn(Some(current), turn, epoch), readClock).value.turns, id))
  {
    hide Position, Fold, Replayed, HeldOnce;
    var incoming := FoldTurn(Some(current), turn, epoch).value;
    WriteNeverRegresses(current, incoming, readClock, id);
  }

  // ----- what a read leaves when it lands

  /** The read that began at `n` has not ended. */
  ghost predicate Pending(n: nat, events: seq<Event>) {
    forall e | e in events :: (e.Land? || e.Deny? || e.Fail?) ==> e.read != n
  }

  /** What `StartRead` remembers of the list: the held turns, if they are of the current audience. */
  ghost predicate HeldNow(s: State, id: Text) {
    s.cache.Some? && s.cache.value.epoch == s.epoch && Lists(s.cache.value.turns, id)
  }

  /** No read that is still to begin is in flight, and a denied cache is empty. */
  ghost predicate Sound(s: State) {
    && (forall n | n in s.inFlight :: n <= s.clock)
    && (s.cache.Some? && s.cache.value.unavailable ==> s.cache.value.turns == [])
  }

  lemma StepKeepsSound(s: State, e: Event)
    requires Sound(s)
    ensures Sound(Step(s, e)) && s.clock <= Step(s, e).clock
    ensures forall n | n in s.inFlight && Pending(n, [e]) :: n in Step(s, e).inFlight && Step(s, e).inFlight[n] == s.inFlight[n]
  {
    hide Fold, Replayed;
    assert e in [e];
  }

  lemma {:induction false} RunKeepsSound(s: State, events: seq<Event>, n: nat)
    requires Sound(s) && n in s.inFlight && n <= s.clock && Pending(n, events)
    ensures var t := Run(s, events);
            Sound(t) && n in t.inFlight && t.inFlight[n] == s.inFlight[n]
    decreases events
  {
    hide Step, Sound;
    if events != [] {
      assert events[0] in events;
      assert forall e | e in events[1..] :: e in events;
      StepKeepsSound(s, events[0]);
      RunKeepsSound(Step(s, events[0]), events[1..], n);
    }
  }

  lemma {:induction false} RunFromSound(s: State, events: seq<Event>)
    requires Sound(s)
    ensures Sound(Run(s, events))
    decreases events
  {
    hide Step, Sound;
    if events != [] {
      StepKeepsSound(s, events[0]);
      RunFromSound(Step(s, events[0]), events[1..]);
    }
  }

  lemma StartRemembers(s: State, id: Text)
    ensures var started := Step(s, StartRead);
            && started.clock == s.clock + 1 && started.clock in started.inFlight && started.inFlight[started.clock].epoch == s.epoch
            && (id in started.inFlight[started.clock].heldAtStart <==> HeldNow(s, id))
  {
    if s.cache.Some? {
      var turns := s.cache.value.turns;
      if id in Ids(turns) {
        var k :| 0 <= k < |turns| && Ids(turns)[k] == id;
        assert turns[k] in turns;
      }
      if Lists(turns, id) {
        var t :| t in turns && t.causalId == id;
        var k :| 0 <= k < |turns| && turns[k] == t;
        assert Ids(turns)[k] == id;
      }
    }
  }

  /**
   In every run, a read begins in a reachable state, anything happens, and then it lands. On an
   undenied list of its own audience, a turn is held afterwards if and only if the read lists
   it, or it was held just before and not yet when the read began; a partial read drops
   nothing. On nothing, or on another audience's list, exactly what was read is held.
   */
  lemma LandedTurns(before: seq<Event>, between: seq<Event>, turns: seq<Turn>, complete: bool, id: Text)
    requires Pending(Run(INIT, before).clock + 1, between)
    ensures var s := Run(INIT, before);
            var t := Run(Step(s, StartRead), between);
            var end := Step(t, Land(s.clock + 1, turns, complete));
            && end.cache.Some?
            && (t.cache.Some? && !t.cache.value.unavailable && t.cache.value.epoch == s.epoch ==>
                  && end.cache.value.complete == complete && end.cache.value.epoch == s.epoch && !end.cache.value.unavailable
                  && (Lists(end.cache.value.turns, id) <==>
                        Lists(turns, id) || (Lists(t.cache.value.turns, id) && !(complete && HeldNow(s, id)))))
            && (t.cache.None? || t.cache.value.epoch != s.epoch ==>
                  && end.cache.value.complete == complete && end.cache.value.epoch == s.epoch
                  && end.cache.value.turns == turns)
  {
    hide Run, Fold, Replayed, Lists, Sound, HeldNow, Pending;
    var s := Run(INIT, before);
    Landing(before, between, id);
    var t := Run(Step(s, StartRead), between);
    var r := t.inFlight[s.clock + 1];
    var incoming := Replay(r.epoch, complete, r.heldAtStart, turns, false, Some(s.clock + 1), None);
    if t.cache.None? || t.cache.value.epoch != s.epoch {
      UncontestedWrite(t.cache, incoming, t.clock);
    } else if !t.cache.value.unavailable {
      WriteIs(t.cache.value, incoming, t.clock, id);
    }
  }

  lemma Landing(before: seq<Event>, between: seq<Event>, id: Text)
    requires Pending(Run(INIT, before).clock + 1, between)
    ensures var s := Run(INIT, before);
            var t := Run(Step(s, StartRead), between);
            && Sound(t) && s.clock + 1 in t.inFlight
            && t.inFlight[s.clock + 1].epoch == s.epoch
            && (id in t.inFlight[s.clock + 1].heldAtStart <==> HeldNow(s, id))
  {
    hide Run, Step, Lists, HeldNow, Pending;
    var s := Run(INIT, before);
    RunFromSound(INIT, before);
    StepKeepsSound(s, StartRead);
    StartRemembers(s, id);
    RunKeepsSound(Step(s, StartRead), between, s.clock + 1);
  }

  /** So a turn that was held when a complete read began, and that the read does not list, is gone once it lands, whatever came in between. */
  lemma WithdrawnTurnsLeave(before: seq<Event>, between: seq<Event>, turns: seq<Turn>, id: Text)
    requires Pending(Run(INIT, before).clock + 1, between)
    requires HeldNow(Run(INIT, before), id) && !Lists(turns, id)
    ensures var s := Run(INIT, before);
            var end := Step(Run(Step(s, StartRead), between), Land(s.clock + 1, turns, true));
            end.cache.Some? && !Lists(end.cache.value.turns, id)
  {
    hide Run, Fold, Replayed, Lists, HeldNow, Pending;
    var s := Run(INIT, before);
    Landing(before, between, id);
    LandedTurns(before, between, turns, true, id);
    var t := Run(Step(s, StartRead), between);
    if t.cache.Some? && t.cache.value.unavailable && t.cache.value.epoch == s.epoch {
      var r := t.inFlight[s.clock + 1];
      DeniedLanding(t.cache.value, Replay(r.epoch, true, r.heldAtStart, turns, false, Some(s.clock + 1), None), t.clock, id);
    }
  }

  /** On a denied list a page either stays out or is all that is held. */
  lemma DeniedLanding(current: Replay, incoming: Replay, readClock: nat, id: Text)
    requires current.unavailable && current.turns == [] && !incoming.unavailable
    ensures var after := FoldCache(Some(current), Some(incoming), readClock);
            after.Some? && (Lists(after.value.turns, id) ==> Lists(incoming.turns, id))
  {
    hide Fold, Replayed;
    ReplayedRow([], incoming.turns, ToSet(incoming.heldAtStart), id);
    FoldLists([], incoming.turns, id);
  }

  // ----- the denial fence

  /** Everything that lands or is answered belongs to one audience. */
  ghost predicate OneAudience(s: State, epoch: nat, events: seq<Event>) {
    && s.epoch == epoch
    && (forall n | n in s.inFlight :: s.inFlight[n].epoch == epoch)
    && (forall e | e in events :: !e.ChangeEpoch?)
  }

  /** No read that began after clock value `fence` lands with an answer. */
  ghost predicate NothingNewerLands(fence: nat, events: seq<Event>) {
    forall e | e in events && e.Land? :: e.read <= fence
  }

  ghost predicate Denied(s: State, epoch: nat, fence: nat) {
    && s.cache.Some? && s.cache.value.unavailable && s.cache.value.turns == []
    && s.cache.value.epoch == epoch
    && s.cache.value.fencedBefore.Some? && fence <= s.cache.value.fencedBefore.value <= s.clock
  }

  lemma StepKeepsDenied(s: State, e: Event, epoch: nat, fence: nat)
    requires Denied(s, epoch, fence) && OneAudience(s, epoch, [e]) && NothingNewerLands(fence, [e])
    ensures Denied(Step(s, e), epoch, fence) && OneAudience(Step(s, e), epoch, [])
  {
    hide Fold, Replayed;
    assert e in [e];
    if e.Answer? {
      AnswerWhileDenied(s.cache.value, e.turn, s.epoch, s.clock);
    }
  }

  lemma {:induction false} RunKeepsDenied(s: State, events: seq<Event>, epoch: nat, fence: nat)
    requires Denied(s, epoch, fence) && OneAudience(s, epoch, events) && NothingNewerLands(fence, events)
    ensures Denied(Run(s, events), epoch, fence)
    decreases events
  {
    hide Step, Denied;
    if events != [] {
      assert events[0] in events;
      StepKeepsDenied(s, events[0], epoch, fence);
      RunKeepsDenied(Step(s, events[0]), events[1..], epoch, fence);
    }
  }

  /**
   The denial fence, over every run: once a denial is recorded, whatever reads and answers
   land in whatever order, the list stays empty and denied until a read lands that began
   after the denial was recorded.
   */
  lemma DenialFence(before: seq<Event>, denied: nat, after: seq<Event>)
    requires var s := Run(INIT, before);
             && denied in s.inFlight
             && OneAudience(s, s.epoch, after)
             && NothingNewerLands(s.clock, after)
    ensures var end := Run(Step(Run(INIT, before), Deny(denied)), after);
            end.cache.Some? && end.cache.value.unavailable && end.cache.value.turns == []
  {
    hide Run, Fold, Replayed;
    var s := Run(INIT, before);
    var recorded := Step(s, Deny(denied));
    RunKeepsDenied(recorded, after, s.epoch, s.clock);
  }

  /** The read that began at `n` is neither failed nor denied. */
  ghost predicate Spares(n: nat, events: seq<Event>) {
    forall e | e in events :: e != Fail(n) && e != Deny(n)
  }

  /** The event writes a new fence: an answer of the current epoch, or a denial of a read in flight. */
  predicate Fences(s: State, e: Event) {
    (e.Answer? && e.startedEpoch == s.epoch) || (e.Deny? && e.read in s.inFlight)
  }

  predicate SomeFences(s: State, events: seq<Event>)
    decreases events
  {
    events != [] && (Fences(s, events[0]) || SomeFences(Step(s, events[0]), events[1..]))
  }

  function FenceOf(s: State): nat
    requires s.cache.Some? && s.cache.value.fencedBefore.Some?
  {
    s.cache.value.fencedBefore.value
  }

  lemma StepMovesFence(s: State, e: Event, epoch: nat, fence: nat, n: nat)
    requires Denied(s, epoch, fence) && OneAudience(s, epoch, [e]) && NothingNewerLands(fence, [e])
    requires n in s.inFlight && fence < n <= s.clock && Spares(n, [e])
    ensures var t := Step(s, e);
            && Denied(t, epoch, fence) && OneAudience(t, epoch, [])
            && n in t.inFlight && n <= t.clock
            && (n <= FenceOf(t) <==> n <= FenceOf(s) || Fences(s, e))
  {
    hide Fold, Replayed;
    assert e in [e];
    if e.Answer? {
      AnswerWhileDenied(s.cache.value, e.turn, s.epoch, s.clock);
    }
  }

  lemma {:induction false} RunMovesFence(s: State, events: seq<Event>, epoch: nat, fence: nat, n: nat)
    requires Denied(s, epoch, fence) && OneAudience(s, epoch, events) && NothingNewerLands(fence, events)
    requires n in s.inFlight && fence < n <= s.clock && Spares(n, events)
    ensures var t := Run(s, events);
            && Denied(t, epoch, fence) && OneAudience(t, epoch, []) && n in t.inFlight
            && (n <= FenceOf(t) <==> n <= FenceOf(s) || SomeFences(s, events))
    decreases events
  {
    hide Step, Fences;
    if events != [] {
      assert events[0] in events;
      assert forall e | e in events[1..] :: e in events;
      StepMovesFence(s, events[0], epoch, fence, n);
      RunMovesFence(Step(s, events[0]), events[1..], epoch, fence, n);
    }
  }

  /**
   While a denial stands, a read starts and lands later with a complete list; in between
   anything of the same audience happens, except that no read from behind the fence lands.
   The list is kept out if and only if in between a mutation was answered or a read in flight
   was denied; otherwise exactly that list is shown.
   */
  lemma FreshReadIsKeptOutIff(s: State, between: seq<Event>, turns: seq<Turn>)
    requires s.cache.Some? && s.cache.value.fencedBefore.Some? && Denied(s, s.epoch, FenceOf(s))
    requires OneAudience(s, s.epoch, between) && NothingNewerLands(FenceOf(s), between) && Spares(s.clock + 1, between)
    ensures var started := Step(s, StartRead);
            var end := Step(Run(started, between), Land(s.clock + 1, turns, true));
            && end.cache.Some?
            && (end.cache.value.unavailable <==> SomeFences(started, between))
            && (end.cache.value.unavailable ==> end.cache.value.turns == [])
            && (!end.cache.value.unavailable && Distinct(turns) ==> end.cache.value.turns == turns)
  {
    hide Replayed, Fold, Run, SomeFences, Distinct;
    var started, n := Step(s, StartRead), s.clock + 1;
    RunMovesFence(started, between, s.epoch, FenceOf(s), n);
    var t := Run(started, between);
    var r := t.inFlight[n];
    FenceIsExact(t.cache.value, Replay(r.epoch, true, r.heldAtStart, turns, false, Some(n), None), t.clock);
  }

  /** So a fresh authorized read brings nothing back when one mutation answer lands before it. */
  lemma AnswerOutrunsFreshRead(s: State, turn: Turn, turns: seq<Turn>)
    requires s.cache.Some? && s.cache.value.fencedBefore.Some? && Denied(s, s.epoch, FenceOf(s)) && OneAudience(s, s.epoch, [])
    ensures var answered := Step(Step(s, StartRead), Answer(turn, s.epoch));
            var end := Step(answered, Land(s.clock + 1, turns, true));
            end.cache.Some? && end.cache.value.unavailable && end.cache.value.turns == []
  {
    hide Replayed, Fold;
    var between := [Answer(turn, s.epoch)];
    FreshReadIsKeptOutIff(s, between, turns);
    var started := Step(s, StartRead);
    assert between[1..] == [];
    assert Run(started, between) == Run(Step(started, between[0]), []);
  }
}
