/**
 The cache of one channel's addressed turns: the write rule, the reads and mutation answers
 that go through it, and the fence a denial puts up.
 */
module TurnCache {
  import opened CodeUnits
  import opened AddressedTurns
  import opened TurnConvergence
  import opened TurnReplay

  datatype Replay = Replay(
    epoch: nat,
    complete: bool,
    heldAtStart: seq<Text>,
    turns: seq<Turn>,
    unavailable: bool,
    readSeq: Option<nat>,
    fencedBefore: Option<nat>)

  type Cache = Option<Replay>

  function GetOr(o: Option<nat>, default: nat): nat {
    if o.Some? then o.value else default
  }

  function ToSet(ids: seq<Text>): set<Text> {
    set id | id in ids
  }

  /** The cache write rule, under the module's read clock. */
  function FoldCache(held: Cache, next: Cache, readClock: nat): Cache {
    if next.Some? && next.value.unavailable then
      Some(next.value.(complete := true, fencedBefore := Some(readClock), turns := []))
    else if next.None? || held.None? then next
    else
      var current, incoming := held.value, next.value;
      if current.epoch != incoming.epoch then next
      else if current.unavailable && GetOr(incoming.readSeq, 0) <= GetOr(current.fencedBefore, readClock) then held
      else Some(Replay(
                  incoming.epoch, incoming.complete, incoming.heldAtStart,
                  if incoming.complete then Replayed(current.turns, incoming.turns, ToSet(incoming.heldAtStart))
                  else Fold(current.turns, incoming.turns),
                  false, None, None))
  }

  /** One turn from an address or cancel answer, folded into what is held. */
  function FoldTurn(current: Cache, turn: Turn, epoch: nat): Cache {
    if current.Some? && current.value.epoch != epoch then current
    else if current.Some? && current.value.unavailable then current
    else Some(Replay(
                epoch,
                current.Some? && current.value.complete,
                if current.Some? then current.value.heldAtStart else [],
                Fold(if current.Some? then current.value.turns else [], [turn]),
                false, None, None))
  }

  // ----- one write

  /**
   While denied, a read's answer is kept out exactly when it is of the same audience and the
   read began no later than the fence; a complete answer that gets in is shown as it is.
   A page of another audience is not fenced at all.
   */
  lemma FenceIsExact(current: Replay, incoming: Replay, readClock: nat)
    requires current.unavailable && current.turns == [] && current.fencedBefore.Some?
    requires !incoming.unavailable
    ensures var after := FoldCache(Some(current), Some(incoming), readClock);
            && after.Some?
            && (after.value.unavailable <==>
                  incoming.epoch == current.epoch && GetOr(incoming.readSeq, 0) <= current.fencedBefore.value)
            && (after.value.unavailable ==> after == Some(current))
            && (!after.value.unavailable && incoming.complete && Distinct(incoming.turns) ==> after.value.turns == incoming.turns)
  {
    hide FromHeld, Fold;
    if incoming.complete && Distinct(incoming.turns) {
      NothingHeld(incoming.turns);
      ReplayedSelf([], incoming.turns, ToSet(incoming.heldAtStart));
    }
  }

  /** An answer to a mutation that lands while denied shows nothing, but moves the fence up to the current clock. */
  lemma AnswerWhileDenied(current: Replay, turn: Turn, epoch: nat, readClock: nat)
    requires current.unavailable
    ensures FoldCache(Some(current), FoldTurn(Some(current), turn, epoch), readClock)
         == Some(current.(complete := true, fencedBefore := Some(readClock), turns := []))
  {
  }

  lemma NothingHeld(list: seq<Turn>)
    ensures forall t | t in list :: FromHeld([], t) == t
  {
  }

  /** A write between two undenied states of one audience never takes a turn back that is held once. */
  lemma WriteNeverRegresses(current: Replay, incoming: Replay, readClock: nat, id: Text)
    requires !current.unavailable && !incoming.unavailable && current.epoch == incoming.epoch && HeldOnce(current.turns, id)
    requires var after := FoldCache(Some(current), Some(incoming), readClock);
             Has(after.value.turns, id)
    ensures NoRegress(Row(current.turns, id), Row(FoldCache(Some(current), Some(incoming), readClock).value.turns, id))
  {
    hide Position, Fold, Replayed;
    if incoming.complete {
      ReplayNeverRegresses(current.turns, incoming.turns, ToSet(incoming.heldAtStart), id);
    } else {
      FoldRow(current.turns, incoming.turns, id);
      JoinNeverRegresses(Row(current.turns, id), Copies(incoming.turns, id));
    }
  }

  lemma {:induction false} JoinNeverRegresses(held: Turn, copies: seq<Turn>)
    ensures NoRegress(held, JoinOnto(held, copies))
    decreases copies
  {
    hide Advance;
    if copies != [] {
      AdvanceNeverRegresses(held, copies[0]);
      JoinNeverRegresses(Advance(held, copies[0]), copies[1..]);
    }
  }

  /** A mutation answer is a write as well; the write rule leaves the list it folded as it is. */
  lemma AnswerIsWrittenAsFolded(current: Replay, turn: Turn, readClock: nat)
    requires !current.unavailable && Distinct(current.turns)
    ensures FoldCache(Some(current), FoldTurn(Some(current), turn, current.epoch), readClock).value.turns
         == Fold(current.turns, [turn])
  {
    hide Position, Place, FromHeld, Replayed, Distinct;
    var folded := Fold(current.turns, [turn]);
    FoldDistinct(current.turns, [turn]);
    if current.complete {
      forall t | t in current.turns
        ensures Has(folded, t.causalId)
      {
        HasElement(current.turns, t);
        FoldRow(current.turns, [turn], t.causalId);
      }
      forall t | t in folded
        ensures FromHeld(current.turns, t) == t
      {
        FoldedIsAhead(current.turns, turn, t);
      }
      ReplayedSelf(current.turns, folded, ToSet(current.heldAtStart));
    } else {
      FoldRow(current.turns, [turn], turn.causalId);
      CopiesOfOne(turn, turn.causalId);
      Refold(current.turns, turn, folded, current.turns);
    }
  }

  lemma FoldOne(list: seq<Turn>, turn: Turn)
    ensures Fold(list, [turn]) == Place(list, turn)
  {
    assert [turn][1..] == [];
    FoldNothing(Place(list, turn));
  }

  /** Placing the folded row into the list it was folded from gives the folded list. */
  lemma PlaceFoldedRow(list: seq<Turn>, turn: Turn, x: Turn)
    requires Distinct(list) && x in Fold(list, [turn])
    ensures Place(list, x) == if x.causalId == turn.causalId then Fold(list, [turn]) else list
  {
    hide Position, Advance, InsertIndex, Place, Has, Row;
    FoldDistinct(list, [turn]);
    DistinctRow(Fold(list, [turn]), x);
    FoldOne(list, turn);
    PlaceRow(list, turn, x.causalId);
    PlaceFolded(list, turn, x);
  }

  lemma PlaceFolded(list: seq<Turn>, turn: Turn, x: Turn)
    requires x.causalId == turn.causalId ==> x == if Has(list, x.causalId) then Advance(Row(list, x.causalId), turn) else turn
    requires x.causalId != turn.causalId ==> Has(list, x.causalId) && x == Row(list, x.causalId)
    ensures Place(list, x) == if x.causalId == turn.causalId then Place(list, turn) else list
  {
    hide Position, Advance, InsertIndex;
    if Has(list, x.causalId) {
      AheadStays(Row(list, x.causalId), turn);
      AdvanceTwice(x, x);
    }
  }

  lemma {:induction false} Refold(list: seq<Turn>, turn: Turn, rest: seq<Turn>, state: seq<Turn>)
    requires Distinct(list)
    requires state == Fold(list, [turn]) || (state == list && exists x :: x in rest && x.causalId == turn.causalId)
    requires forall x | x in rest :: x in Fold(list, [turn])
    ensures Fold(state, rest) == Fold(list, [turn])
    decreases rest
  {
    hide Place, Distinct, Absorbed;
    var folded := Fold(list, [turn]);
    if rest == [] {
      FoldNothing(state);
    } else {
      var x := rest[0];
      if state == folded {
        FoldDistinct(list, [turn]);
        PlaceOwnRow(folded, x);
        Refold(list, turn, rest[1..], folded);
      } else {
        PlaceFoldedRow(list, turn, x);
        Refold(list, turn, rest[1..], Place(list, x));
      }
    }
  }

  lemma PlaceOwnRow(list: seq<Turn>, x: Turn)
    requires Distinct(list) && x in list
    ensures Place(list, x) == list
  {
    hide Position, Advance, InsertIndex;
    DistinctRow(list, x);
    AdvanceTwice(x, x);
  }

  lemma HasElement(list: seq<Turn>, t: Turn)
    requires t in list
    ensures Has(list, t.causalId)
  {
  }

  lemma FoldedIsAhead(list: seq<Turn>, turn: Turn, t: Turn)
    requires Distinct(list) && t in Fold(list, [turn])
    ensures FromHeld(list, t) == t
  {
    hide Position, Place, Advance, Row, Has;
    FoldDistinct(list, [turn]);
    DistinctRow(Fold(list, [turn]), t);
    FoldRow(list, [turn], t.causalId);
    CopiesOfOne(turn, t.causalId);
    if Has(list, t.causalId) {
      var held := Row(list, t.causalId);
      AdvanceTwice(held, turn);
      AdvanceTwice(held, held);
      AheadStays(held, turn);
    }
  }

  lemma CopiesOfOne(turn: Turn, id: Text)
    ensures Copies([turn], id) == if turn.causalId == id then [turn] else []
  {
    assert [turn][1..] == [];
  }

  /** Advancing to what was already advanced to gives it back. */
  lemma AheadStays(held: Turn, turn: Turn)
    ensures Advance(held, Advance(held, turn)) == Advance(held, turn)
  {
    hide Less;
    LessIrreflexive(held.updatedAt);
  }
}
