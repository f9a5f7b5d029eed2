/** What one write to the cache of addressed turns leaves: which turns, and which copy of each. */
module TurnWrites {
  import opened CodeUnits
  import opened AddressedTurns
  import opened TurnConvergence
  import opened TurnReplay
  import opened TurnCache

  /** Some turn of the list has the causal id. */
  ghost predicate Lists(list: seq<Turn>, id: Text) {
    exists t :: t in list && t.causalId == id
  }

  lemma ListsIsHas(list: seq<Turn>, id: Text)
    ensures Lists(list, id) <==> Has(list, id)
    ensures Lists(list, id) <==> id in IdSet(list)
  {
    if id in IdSet(list) {
      var k :| 0 <= k < |list| && list[k].causalId == id;
      assert list[k] in list;
    }
  }

  /** `turn` is the first copy of its id in the page. */
  ghost predicate FirstCopy(page: seq<Turn>, turn: Turn) {
    exists k :: 0 <= k < |page| && page[k] == turn && forall j | 0 <= j < k :: page[j].causalId != turn.causalId
  }

  // ----- the replay

  lemma {:induction false} ListedIsFirst(held: seq<Turn>, page: seq<Turn>, seen: set<Text>, t: Turn)
    requires t in Listed(held, page, seen)
    ensures exists turn :: FirstCopy(page, turn) && turn.causalId == t.causalId && t == FromHeld(held, turn)
    decreases page
  {
    hide FromHeld, FirstCopy;
    var first := page[0];
    if first.causalId !in seen && t == FromHeld(held, first) {
      FromHeldKeepsId(held, first);
      FirstOfPage(page);
    } else {
      var more := if first.causalId in seen then seen else seen + {first.causalId};
      assert t in Listed(held, page[1..], more);
      ListedIsFirst(held, page[1..], more, t);
      var turn :| FirstCopy(page[1..], turn) && turn.causalId == t.causalId && t == FromHeld(held, turn);
      ListedIsUnseen(held, page[1..], more, t);
      FirstBehind(page, turn);
    }
  }

  lemma FirstOfPage(page: seq<Turn>)
    requires page != []
    ensures FirstCopy(page, page[0])
  {
  }

  lemma FirstBehind(page: seq<Turn>, turn: Turn)
    requires page != [] && FirstCopy(page[1..], turn) && turn.causalId != page[0].causalId
    ensures FirstCopy(page, turn)
  {
    var k :| 0 <= k < |page[1..]| && page[1..][k] == turn && forall j | 0 <= j < k :: page[1..][j].causalId != turn.causalId;
    assert page[k + 1] == turn;
    forall j | 0 <= j < k + 1
      ensures page[j].causalId != turn.causalId
    {
      if j > 0 {
        assert page[j] == page[1..][j - 1];
      }
    }
  }

  lemma ListedIsUnseen(held: seq<Turn>, page: seq<Turn>, seen: set<Text>, t: Turn)
    requires t in Listed(held, page, seen)
    ensures t.causalId !in seen && t.causalId in IdSet(page)
  {
    hide FromHeld, Listed;
    ListedIds(held, page, seen);
    FirstIdsAre(page, seen);
    var k :| 0 <= k < |Listed(held, page, seen)| && Listed(held, page, seen)[k] == t;
    assert Ids(Listed(held, page, seen))[k] == t.causalId;
  }

  /**
   A complete page, id by id: what it lists is held afterwards, in the page's first copy of it
   advanced from the held one; what it omits stays if and only if it was held and not yet when
   the read began.
   */
  lemma ReplayedRow(held: seq<Turn>, page: seq<Turn>, heldAtStart: set<Text>, id: Text)
    ensures var after := Replayed(held, page, heldAtStart);
            && (Lists(after, id) <==> Lists(page, id) || (Lists(held, id) && id !in heldAtStart))
            && (forall t | t in after && t.causalId == id ::
                  if Lists(page, id) then exists turn :: FirstCopy(page, turn) && turn.causalId == id && t == FromHeld(held, turn)
                  else t in held)
  {
    hide Listed, SortTurns, Arrived, IdSet, FromHeld, FirstCopy;
    var listed, arrived := Listed(held, page, {}), SortTurns(Arrived(held, IdSet(page), heldAtStart));
    var after := Replayed(held, page, heldAtStart);
    ReplayedShape(held, page, heldAtStart);
    ListsIsHas(page, id);
    FirstIdsAre(page, {});
    assert forall t :: t in after <==> t in listed || t in arrived;
    if Lists(page, id) {
      var k :| 0 <= k < |FirstIds(page, {})| && FirstIds(page, {})[k] == id;
      assert Ids(listed)[k] == listed[k].causalId;
      assert listed[k] in after;
    }
    forall t | t in after && t.causalId == id
      ensures if Lists(page, id) then exists turn :: FirstCopy(page, turn) && turn.causalId == id && t == FromHeld(held, turn)
              else t in held && id !in heldAtStart
    {
      if t in listed {
        ListedIsUnseen(held, page, {}, t);
        ListedIsFirst(held, page, {}, t);
      }
    }
    if Lists(held, id) && !Lists(page, id) && id !in heldAtStart {
      var t :| t in held && t.causalId == id;
      assert t in arrived && t in after;
    }
  }

  // ----- the write rule

  /** Two states of one audience that nobody denied. */
  predicate SameAudience(current: Replay, incoming: Replay) {
    !current.unavailable && !incoming.unavailable && current.epoch == incoming.epoch
  }

  /**
   A write between two undenied states of one audience, id by id. A complete page drops exactly
   the turns that it omits and that were already held when its read began; a partial page drops
   nothing. The status is the page's own, and the read that is now recorded is not.
   */
  lemma WriteIs(current: Replay, incoming: Replay, readClock: nat, id: Text)
    requires SameAudience(current, incoming)
    ensures var after := FoldCache(Some(current), Some(incoming), readClock);
            && after.Some?
            && after.value == Replay(current.epoch, incoming.complete, incoming.heldAtStart, after.value.turns, false, None, None)
            && (Lists(after.value.turns, id) <==>
                  Lists(incoming.turns, id) || (Lists(current.turns, id) && !(incoming.complete && id in incoming.heldAtStart)))
  {
    hide Fold, Replayed, Lists;
    WriteTurns(current, incoming, readClock);
    ReplayedRow(current.turns, incoming.turns, ToSet(incoming.heldAtStart), id);
    FoldLists(current.turns, incoming.turns, id);
  }

  lemma WriteTurns(current: Replay, incoming: Replay, readClock: nat)
    requires SameAudience(current, incoming)
    ensures var after := FoldCache(Some(current), Some(incoming), readClock);
            && after.Some?
            && after.value.turns == if incoming.complete then Replayed(current.turns, incoming.turns, ToSet(incoming.heldAtStart))
                                    else Fold(current.turns, incoming.turns)
  {
    hide Fold, Replayed;
  }

  lemma FoldLists(held: seq<Turn>, incoming: seq<Turn>, id: Text)
    ensures Lists(Fold(held, incoming), id) <==> Lists(held, id) || Lists(incoming, id)
  {
    hide Fold, Has, Copies;
    FoldRow(held, incoming, id);
    CopiesAreElements(incoming, id);
    ListsIsHas(held, id);
    ListsIsHas(Fold(held, incoming), id);
  }

  /**
   Which copy the write leaves of an id that was held once at most: of a complete page, its
   first copy advanced from the held one; of a partial page, the held copy advanced by all its
   copies in turn; and the held copy itself when the page does not list it.
   */
  lemma WrittenRow(current: Replay, incoming: Replay, readClock: nat, t: Turn)
    requires SameAudience(current, incoming) && Distinct(current.turns)
    requires t in FoldCache(Some(current), Some(incoming), readClock).value.turns
    ensures var copies, id := Copies(incoming.turns, t.causalId), t.causalId;
            if copies == [] then t in current.turns
            else if incoming.complete then t == if Has(current.turns, id) then Advance(Row(current.turns, id), copies[0]) else copies[0]
            else t == if Has(current.turns, id) then JoinOnto(Row(current.turns, id), copies) else Joined(copies)
  {
    hide Fold, Replayed, Advance, Lists, Distinct, FromHeld, Has, Row;
    var copies, id := Copies(incoming.turns, t.causalId), t.causalId;
    WriteTurns(current, incoming, readClock);
    CopiesAreElements(incoming.turns, id);
    ListsCopies(incoming.turns, id);
    if incoming.complete {
      ReplayedRow(current.turns, incoming.turns, ToSet(incoming.heldAtStart), id);
      if Lists(incoming.turns, id) {
        var turn :| FirstCopy(incoming.turns, turn) && turn.causalId == id && t == FromHeld(current.turns, turn);
        FirstIsFirst(incoming.turns, turn);
        FromHeldCases(current.turns, turn);
      }
    } else {
      FoldDistinct(current.turns, incoming.turns);
      DistinctRow(Fold(current.turns, incoming.turns), t);
      FoldRow(current.turns, incoming.turns, id);
      if copies == [] {
        RowIsHeld(current.turns, id);
      }
    }
  }

  lemma RowIsHeld(list: seq<Turn>, id: Text)
    ensures Has(list, id) ==> Row(list, id) in list
  {
  }

  lemma ListsCopies(list: seq<Turn>, id: Text)
    ensures Lists(list, id) <==> Copies(list, id) != []
  {
    CopiesAreElements(list, id);
  }

  lemma {:induction false} FirstIsFirst(page: seq<Turn>, turn: Turn)
    requires FirstCopy(page, turn)
    ensures Copies(page, turn.causalId) != [] && Copies(page, turn.causalId)[0] == turn
  {
    var k :| 0 <= k < |page| && page[k] == turn && forall j | 0 <= j < k :: page[j].causalId != turn.causalId;
    if k > 0 {
      assert page[0].causalId != turn.causalId;
      assert page[1..][k - 1] == turn && forall j | 0 <= j < k - 1 :: page[1..][j] == page[j + 1];
      FirstIsFirst(page[1..], turn);
    }
  }

  /** A page that meets nothing held, or the list of another audience, is stored as it is. */
  lemma UncontestedWrite(held: Cache, incoming: Replay, readClock: nat)
    requires !incoming.unavailable && (held.None? || held.value.epoch != incoming.epoch)
    ensures FoldCache(held, Some(incoming), readClock) == Some(incoming)
  {
  }

  /** A denial empties whatever is held, of whatever audience, and puts the fence at the clock. */
  lemma DenialEmpties(held: Cache, incoming: Replay, readClock: nat)
    requires incoming.unavailable
    ensures var after := FoldCache(held, Some(incoming), readClock);
            && after.Some? && after.value.unavailable && after.value.turns == []
            && after.value.epoch == incoming.epoch && after.value.fencedBefore == Some(readClock)
  {
  }

  /** An answer of the audience shown: its turn is held afterwards, advanced from the held copy, and no other turn comes, goes or changes. */
  lemma AnswerIsHeld(current: Replay, turn: Turn, readClock: nat, id: Text)
    requires !current.unavailable && Distinct(current.turns)
    ensures var after := FoldCache(Some(current), FoldTurn(Some(current), turn, current.epoch), readClock).value;
            && after == Replay(current.epoch, current.complete, current.heldAtStart, after.turns, false, None, None)
            && (Has(after.turns, id) <==> Has(current.turns, id) || id == turn.causalId)
            && (Has(after.turns, id) ==>
                  Row(after.turns, id) == if id != turn.causalId then Row(current.turns, id)
                                         else if Has(current.turns, id) then Advance(Row(current.turns, id), turn)
                                         else turn)
  {
    hide Fold, Replayed, Distinct, Advance, Has, Row;
    var answer := FoldTurn(Some(current), turn, current.epoch);
    WriteIs(current, answer.value, readClock, id);
    AnswerIsWrittenAsFolded(current, turn, readClock);
    FoldRow(current.turns, [turn], id);
    CopiesOfOne(turn, id);
  }

  /** The first answer of a channel starts an unfinished list; an answer to another audience's list changes no turn of it. */
  lemma AnswerElsewhere(turn: Turn, epoch: nat, readClock: nat)
    ensures FoldCache(None, FoldTurn(None, turn, epoch), readClock) == Some(Replay(epoch, false, [], [turn], false, None, None))
    ensures forall current: Replay | current.epoch != epoch :: FoldTurn(Some(current), turn, epoch) == Some(current)
  {
    FoldOne([], turn);
    assert Insert([], turn) == [turn];
  }
}
