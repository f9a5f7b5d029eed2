/** One complete replay applied to the held turns: the server's list, then what arrived while it was read. */
module TurnReplay {
  import opened CodeUnits
  import opened AddressedTurns
  import opened TurnConvergence

  // ----- the replay, on values

  /** The first copy of each id not in `seen`, advanced from the held copy. */
  function Listed(held: seq<Turn>, replay: seq<Turn>, seen: set<Text>): seq<Turn>
    decreases replay
  {
    if replay == [] then []
    else if replay[0].causalId in seen then Listed(held, replay[1..], seen)
    else [FromHeld(held, replay[0])] + Listed(held, replay[1..], seen + {replay[0].causalId})
  }

  function FromHeld(held: seq<Turn>, turn: Turn): Turn {
    if Has(held, turn.causalId) then Advance(Row(held, turn.causalId), turn) else turn
  }

  function IdSet(list: seq<Turn>): (ids: set<Text>)
    ensures forall id :: id in ids <==> exists k :: 0 <= k < |list| && list[k].causalId == id
  {
    set t | t in list :: t.causalId
  }

  /** Held turns the replay does not list and that were not held when the read began. */
  function Arrived(held: seq<Turn>, listed: set<Text>, heldAtStart: set<Text>): seq<Turn> {
    if held == [] then []
    else (if held[0].causalId !in listed && held[0].causalId !in heldAtStart then [held[0]] else [])
         + Arrived(held[1..], listed, heldAtStart)
  }

  /** `toSorted(compareAddressedTurns)`: a stable sort by insertion. */
  function SortTurns(list: seq<Turn>): seq<Turn> {
    if list == [] then [] else Insert(SortTurns(list[..|list| - 1]), list[|list| - 1])
  }

  function Replayed(held: seq<Turn>, replay: seq<Turn>, heldAtStart: set<Text>): seq<Turn> {
    Listed(held, replay, {}) + SortTurns(Arrived(held, IdSet(replay), heldAtStart))
  }

  // ----- the replay, as the source loops

  lemma {:induction false} ListedSnoc(held: seq<Turn>, replay: seq<Turn>, turn: Turn, seen: set<Text>)
    ensures Listed(held, replay + [turn], seen)
         == Listed(held, replay, seen) + (if turn.causalId in seen + IdSet(replay) then [] else [FromHeld(held, turn)])
    decreases replay
  {
    hide FromHeld;
    if replay == [] {
      assert [] + [turn] == [turn] && [turn][1..] == [];
    } else {
      assert (replay + [turn])[1..] == replay[1..] + [turn];
      var more := if replay[0].causalId in seen then seen else seen + {replay[0].causalId};
      ListedSnoc(held, replay[1..], turn, more);
      assert turn.causalId in seen + IdSet(replay) <==> turn.causalId in more + IdSet(replay[1..]) by {
        IdSetCons(replay, turn.causalId);
      }
    }
  }

  lemma IdSetCons(list: seq<Turn>, id: Text)
    requires list != []
    ensures id in IdSet(list) <==> id == list[0].causalId || id in IdSet(list[1..])
  {
    if id in IdSet(list) && id != list[0].causalId {
      var k :| 0 <= k < |list| && list[k].causalId == id;
      assert list[1..][k - 1].causalId == id;
    }
  }

  /** The last held copy of every causal id. */
  ghost predicate IsHeldMap(byId: map<Text, Turn>, held: seq<Turn>) {
    forall id :: (id in byId <==> Has(held, id)) && (id in byId ==> byId[id] == Row(held, id))
  }

  method HeldMap(held: seq<Turn>) returns (byId: map<Text, Turn>)
    ensures IsHeldMap(byId, held)
  {
    hide Position;
    byId := map[];
    for n := 0 to |held|
      invariant IsHeldMap(byId, held[..n])
    {
      assert held[..n + 1] == held[..n] + [held[n]];
      forall id
        ensures Position(held[..n + 1], id) == if id == held[n].causalId then Some(n) else Position(held[..n], id)
      {
        PositionAfterAppend(held[..n], held[n], id);
      }
      byId := byId[held[n].causalId := held[n]];
    }
    assert held[..|held|] == held;
  }

  method ApplyAddressedTurnReplay(held: seq<Turn>, replay: seq<Turn>, heldAtStart: set<Text>) returns (result: seq<Turn>)
    ensures result == Replayed(held, replay, heldAtStart)
  {
    hide Has, Row, Advance, FromHeld, IdSet, IsHeldMap;
    var heldByCausalId := HeldMap(held);
    var listed: set<Text> := {};
    result := [];
    NoIds();
    for n := 0 to |replay|
      invariant listed == IdSet(replay[..n])
      invariant result == Listed(held, replay[..n], {})
    {
      var turn := replay[n];
      assert replay[..n + 1] == replay[..n] + [turn];
      ListedSnoc(held, replay[..n], turn, {});
      IdSetSnoc(replay[..n], turn);
      assert {} + IdSet(replay[..n]) == listed;
      if turn.causalId in listed {
        continue;
      }
      listed := listed + {turn.causalId};
      KnownCopy(heldByCausalId, held, turn);
      result := result + [if turn.causalId in heldByCausalId then Advance(heldByCausalId[turn.causalId], turn) else turn];
    }
    assert replay[..|replay|] == replay;
    result := result + SortTurns(Arrived(held, listed, heldAtStart));
  }

  lemma NoIds()
    ensures IdSet([]) == {}
  {
  }

  lemma KnownCopy(byId: map<Text, Turn>, held: seq<Turn>, turn: Turn)
    requires IsHeldMap(byId, held)
    ensures FromHeld(held, turn) == if turn.causalId in byId then Advance(byId[turn.causalId], turn) else turn
  {
    hide Position, Advance;
  }

  lemma FromHeldCases(held: seq<Turn>, turn: Turn)
    ensures FromHeld(held, turn) == if Has(held, turn.causalId) then Advance(Row(held, turn.causalId), turn) else turn
  {
  }

  lemma IdSetSnoc(list: seq<Turn>, turn: Turn)
    ensures IdSet(list + [turn]) == IdSet(list) + {turn.causalId}
  {
    assert forall t :: t in list + [turn] <==> t in list || t == turn;
  }

  // ----- what is listed

  function FirstIds(replay: seq<Turn>, seen: set<Text>): seq<Text>
    decreases replay
  {
    if replay == [] then []
    else if replay[0].causalId in seen then FirstIds(replay[1..], seen)
    else [replay[0].causalId] + FirstIds(replay[1..], seen + {replay[0].causalId})
  }

  lemma FromHeldKeepsId(held: seq<Turn>, turn: Turn)
    ensures FromHeld(held, turn).causalId == turn.causalId
  {
    if Has(held, turn.causalId) {
      AdvanceKeepsId(Row(held, turn.causalId), turn);
    }
  }

  /** The replay's ids, each at its first occurrence, in the server's order. */
  lemma {:induction false} ListedIds(held: seq<Turn>, replay: seq<Turn>, seen: set<Text>)
    ensures Ids(Listed(held, replay, seen)) == FirstIds(replay, seen)
    decreases replay
  {
    hide FromHeld;
    if replay != [] {
      if replay[0].causalId in seen {
        ListedIds(held, replay[1..], seen);
      } else {
        ListedIds(held, replay[1..], seen + {replay[0].causalId});
        FromHeldKeepsId(held, replay[0]);
        var rest := Listed(held, replay[1..], seen + {replay[0].causalId});
        assert Ids([FromHeld(held, replay[0])] + rest) == [replay[0].causalId] + Ids(rest);
      }
    }
  }

  lemma {:induction false} FirstIdsAre(replay: seq<Turn>, seen: set<Text>)
    ensures forall id :: id in FirstIds(replay, seen) <==> id in IdSet(replay) && id !in seen
    ensures forall i, j | 0 <= i < j < |FirstIds(replay, seen)| :: FirstIds(replay, seen)[i] != FirstIds(replay, seen)[j]
    decreases replay
  {
    if replay != [] {
      forall id
        ensures id in IdSet(replay) <==> id == replay[0].causalId || id in IdSet(replay[1..])
      {
        IdSetCons(replay, id);
      }
      if replay[0].causalId in seen {
        FirstIdsAre(replay[1..], seen);
      } else {
        FirstIdsAre(replay[1..], seen + {replay[0].causalId});
      }
    }
  }

  // ----- what arrived during the read

  lemma {:induction false} ArrivedAre(held: seq<Turn>, listed: set<Text>, heldAtStart: set<Text>)
    ensures forall t :: t in Arrived(held, listed, heldAtStart)
                        <==> t in held && t.causalId !in listed && t.causalId !in heldAtStart
    ensures Distinct(held) ==> Distinct(Arrived(held, listed, heldAtStart))
  {
    if held != [] {
      ArrivedAre(held[1..], listed, heldAtStart);
      assert forall t :: t in held <==> t == held[0] || t in held[1..];
    }
  }

  lemma InsertElements(list: seq<Turn>, turn: Turn)
    ensures multiset(Insert(list, turn)) == multiset(list) + multiset{turn}
    ensures forall t :: t in Insert(list, turn) <==> t in list || t == turn
  {
    hide InsertIndex;
    var k := InsertIndex(list, turn, |list|);
    assert list == list[..k] + list[k..];
    var after := multiset(Insert(list, turn));
    forall t
      ensures t in Insert(list, turn) <==> t in list || t == turn
    {
      assert t in Insert(list, turn) <==> t in after;
      assert t in list <==> t in multiset(list);
    }
  }

  lemma InsertDistinct(list: seq<Turn>, turn: Turn)
    requires Distinct(list) && forall t | t in list :: t.causalId != turn.causalId
    ensures Distinct(Insert(list, turn))
  {
    hide InsertIndex;
  }

  /** The sort keeps the turns and orders them. */
  lemma {:induction false} SortTurnsIsSort(list: seq<Turn>)
    ensures IsSorted(SortTurns(list)) && multiset(SortTurns(list)) == multiset(list)
    ensures forall t :: t in SortTurns(list) <==> t in list
    ensures Distinct(list) ==> Distinct(SortTurns(list))
  {
    hide Insert, Before;
    if list != [] {
      var front, last := list[..|list| - 1], list[|list| - 1];
      SortTurnsIsSort(front);
      InsertSorted(SortTurns(front), last);
      InsertElements(SortTurns(front), last);
      if Distinct(list) {
        InsertDistinct(SortTurns(front), last);
      }
      assert list == front + [last];
    }
  }

  /** Sorting what is sorted moves nothing. */
  lemma {:induction false} SortedStays(list: seq<Turn>)
    requires IsSorted(list)
    ensures SortTurns(list) == list
  {
    if list != [] {
      var front, last := list[..|list| - 1], list[|list| - 1];
      SortedStays(front);
      assert InsertIndex(front, last, |front|) == |front| by {
        if front != [] {
          assert !Before(list[|list| - 1], list[|list| - 2]);
        }
      }
      assert list == front + [last];
    }
  }

  // ----- the whole answer

  /**
   The answer lists exactly the replay's ids in first-occurrence order, then, sorted, the
   held turns that the replay omits and that were not held when the read began. Everything
   else that was held is dropped.
   */
  lemma ReplayedShape(held: seq<Turn>, replay: seq<Turn>, heldAtStart: set<Text>)
    ensures var listed, arrived := Listed(held, replay, {}), SortTurns(Arrived(held, IdSet(replay), heldAtStart));
            && Replayed(held, replay, heldAtStart) == listed + arrived
            && Ids(listed) == FirstIds(replay, {})
            && IsSorted(arrived)
            && (forall t :: t in arrived <==> t in held && t.causalId !in IdSet(replay) && t.causalId !in heldAtStart)
            && (Distinct(held) ==> Distinct(listed + arrived))
  {
    hide FromHeld, SortTurns, Before;
    ListedIds(held, replay, {});
    FirstIdsAre(replay, {});
    ArrivedAre(held, IdSet(replay), heldAtStart);
    SortTurnsIsSort(Arrived(held, IdSet(replay), heldAtStart));
    var listed := Listed(held, replay, {});
    forall k | 0 <= k < |listed|
      ensures listed[k].causalId == FirstIds(replay, {})[k] && listed[k].causalId in IdSet(replay)
    {
      assert Ids(listed)[k] == listed[k].causalId;
    }
  }

  lemma {:induction false} ListedRow(held: seq<Turn>, replay: seq<Turn>, seen: set<Text>, k: nat)
    requires k < |Listed(held, replay, seen)|
    ensures exists t :: t in replay && Listed(held, replay, seen)[k] == FromHeld(held, t)
    decreases replay
  {
    hide FromHeld;
    if replay[0].causalId in seen {
      ListedRow(held, replay[1..], seen, k);
    } else if k == 0 {
      assert replay[0] in replay;
    } else {
      ListedRow(held, replay[1..], seen + {replay[0].causalId}, k - 1);
    }
  }

  /** A listed turn that was held is never behind its held copy, and never changes its ending. */
  predicate NoRegress(before: Turn, after: Turn) {
    Rank(before.state) <= Rank(after.state) && (IsTerminal(before) ==> after.state == before.state)
  }

  lemma AdvanceNeverRegresses(held: Turn, incoming: Turn)
    ensures NoRegress(held, Advance(held, incoming))
  {
  }

  /** Exactly one held row has the id. */
  ghost predicate HeldOnce(held: seq<Turn>, id: Text) {
    Has(held, id) && forall i, j | 0 <= i < j < |held| :: held[i].causalId != id || held[j].causalId != id
  }

  lemma ReplayNeverRegresses(held: seq<Turn>, replay: seq<Turn>, heldAtStart: set<Text>, id: Text)
    requires HeldOnce(held, id) && Has(Replayed(held, replay, heldAtStart), id)
    ensures NoRegress(Row(held, id), Row(Replayed(held, replay, heldAtStart), id))
  {
    hide Position, FromHeld, SortTurns, Advance, Before;
    ReplayedShape(held, replay, heldAtStart);
    var result := Replayed(held, replay, heldAtStart);
    var listed := Listed(held, replay, {});
    var p := Position(result, id).value;
    if p < |listed| {
      ListedRow(held, replay, {}, p);
      var t :| t in replay && listed[p] == FromHeld(held, t);
      FromHeldKeepsId(held, t);
      FromHeldCases(held, t);
      AdvanceNeverRegresses(Row(held, id), t);
    } else {
      assert result[p] in SortTurns(Arrived(held, IdSet(replay), heldAtStart));
      var k :| 0 <= k < |held| && held[k] == result[p];
      PositionIs(held, id, k);
    }
  }

  lemma DistinctRow(list: seq<Turn>, t: Turn)
    requires Distinct(list) && t in list
    ensures Has(list, t.causalId) && Row(list, t.causalId) == t
  {
    hide Position;
    var k :| 0 <= k < |list| && list[k] == t;
    PositionIs(list, t.causalId, k);
  }

  // ----- the same replay twice

  lemma {:induction false} ListedAgain(held: seq<Turn>, again: seq<Turn>, replay: seq<Turn>, seen: set<Text>)
    requires forall t | t in replay && t.causalId !in seen :: Has(again, t.causalId)
    requires forall k | 0 <= k < |Listed(held, replay, seen)| ::
               var t := Listed(held, replay, seen)[k]; Has(again, t.causalId) && Row(again, t.causalId) == t
    ensures Listed(again, replay, seen) == Listed(held, replay, seen)
    decreases replay
  {
    hide Position, Advance, FromHeld, Row, Has;
    if replay != [] {
      var t := replay[0];
      if t.causalId in seen {
        assert Listed(held, replay, seen) == Listed(held, replay[1..], seen);
        ListedAgain(held, again, replay[1..], seen);
      } else {
        var rest := Listed(held, replay[1..], seen + {t.causalId});
        var listed := Listed(held, replay, seen);
        assert listed == [FromHeld(held, t)] + rest;
        FromHeldKeepsId(held, t);
        assert listed[0] == FromHeld(held, t) && Row(again, listed[0].causalId) == listed[0];
        FromHeldAgain(held, again, t);
        forall k | 0 <= k < |rest|
          ensures Has(again, rest[k].causalId) && Row(again, rest[k].causalId) == rest[k]
        {
          assert rest[k] == listed[k + 1];
        }
        ListedAgain(held, again, replay[1..], seen + {t.causalId});
      }
    }
  }

  lemma FromHeldAgain(held: seq<Turn>, again: seq<Turn>, t: Turn)
    requires Has(again, t.causalId) && Row(again, t.causalId) == FromHeld(held, t)
    ensures FromHeld(again, t) == FromHeld(held, t)
  {
    hide Position, Advance, Row, Has;
    if Has(held, t.causalId) {
      AdvanceTwice(Row(held, t.causalId), t);
    } else {
      AdvanceTwice(t, t);
    }
  }

  lemma {:induction false} ArrivedAppend(a: seq<Turn>, b: seq<Turn>, listed: set<Text>, heldAtStart: set<Text>)
    ensures Arrived(a + b, listed, heldAtStart) == Arrived(a, listed, heldAtStart) + Arrived(b, listed, heldAtStart)
  {
    if a == [] {
      assert a + b == b;
    } else {
      assert (a + b)[1..] == a[1..] + b;
      ArrivedAppend(a[1..], b, listed, heldAtStart);
    }
  }

  lemma {:induction false} ArrivedAll(list: seq<Turn>, listed: set<Text>, heldAtStart: set<Text>)
    ensures (forall t | t in list :: t.causalId !in listed && t.causalId !in heldAtStart) ==> Arrived(list, listed, heldAtStart) == list
    ensures (forall t | t in list :: t.causalId in listed) ==> Arrived(list, listed, heldAtStart) == []
  {
    if list != [] {
      ArrivedAll(list[1..], listed, heldAtStart);
      assert list == [list[0]] + list[1..];
      assert list[0] in list;
    }
  }

  /** Every listed turn is the row of its id in the answer, and every replayed id has one. */
  lemma ListedAreRows(held: seq<Turn>, replay: seq<Turn>, heldAtStart: set<Text>)
    ensures var result, listed := Replayed(held, replay, heldAtStart), Listed(held, replay, {});
            && (forall k | 0 <= k < |listed| ::
                  Has(result, listed[k].causalId) && Row(result, listed[k].causalId) == listed[k]
                  && listed[k].causalId in IdSet(replay))
            && (forall t | t in replay :: Has(result, t.causalId))
  {
    hide Position, FromHeld, SortTurns, Before, Listed, Has, Row, Arrived, IdSet, IsSorted;
    ReplayedShape(held, replay, heldAtStart);
    FirstIdsAre(replay, {});
    var result, listed := Replayed(held, replay, heldAtStart), Listed(held, replay, {});
    forall k | 0 <= k < |listed|
      ensures Has(result, listed[k].causalId) && Row(result, listed[k].causalId) == listed[k]
      ensures listed[k].causalId in IdSet(replay)
    {
      assert Ids(listed)[k] == listed[k].causalId;
      assert result[k] == listed[k];
      forall j | k < j < |result|
        ensures result[j].causalId != listed[k].causalId
      {
        if j < |listed| {
          assert Ids(listed)[j] == listed[j].causalId;
        } else {
          assert result[j] in result[|listed|..];
        }
      }
      PositionIs(result, listed[k].causalId, k);
      RowAt(result, k);
    }
    forall t | t in replay
      ensures Has(result, t.causalId)
    {
      InIdSet(replay, t);
      var k :| 0 <= k < |Ids(listed)| && Ids(listed)[k] == t.causalId;
      assert listed[k].causalId == t.causalId;
    }
  }

  lemma RowAt(list: seq<Turn>, k: nat)
    requires k < |list| && Position(list, list[k].causalId) == Some(k)
    ensures Has(list, list[k].causalId) && Row(list, list[k].causalId) == list[k]
  {
    hide Position;
  }

  lemma InIdSet(list: seq<Turn>, t: Turn)
    requires t in list
    ensures t.causalId in IdSet(list)
  {
  }

  /** Applying one replay twice, with the same starting set, is applying it once. */
  lemma ReplayIsIdempotent(held: seq<Turn>, replay: seq<Turn>, heldAtStart: set<Text>)
    ensures Replayed(Replayed(held, replay, heldAtStart), replay, heldAtStart) == Replayed(held, replay, heldAtStart)
  {
    hide FromHeld, SortTurns, Listed, Has, Row, Arrived, IdSet, IsSorted, Distinct, FirstIds;
    ReplayedShape(held, replay, heldAtStart);
    ListedAreRows(held, replay, heldAtStart);
    var result := Replayed(held, replay, heldAtStart);
    var listed, arrived := Listed(held, replay, {}), SortTurns(Arrived(held, IdSet(replay), heldAtStart));
    ListedAgain(held, result, replay, {});
    ArrivedAppend(listed, arrived, IdSet(replay), heldAtStart);
    ArrivedAll(listed, IdSet(replay), heldAtStart);
    ArrivedAll(arrived, IdSet(replay), heldAtStart);
    SortedStays(arrived);
    assert [] + arrived == arrived;
  }

  // ----- a replay that repeats the list it is applied to

  lemma {:induction false} ListedSelf(held: seq<Turn>, list: seq<Turn>, seen: set<Text>)
    requires Distinct(list)
    requires forall t | t in list :: t.causalId !in seen && FromHeld(held, t) == t
    ensures Listed(held, list, seen) == list
    decreases list
  {
    hide FromHeld;
    if list != [] {
      forall t | t in list[1..]
        ensures t.causalId !in seen + {list[0].causalId} && FromHeld(held, t) == t
      {
        var k :| 0 <= k < |list[1..]| && list[1..][k] == t;
        assert list[k + 1] == t && t in list;
      }
      ListedSelf(held, list[1..], seen + {list[0].causalId});
      assert list == [list[0]] + list[1..];
    }
  }

  /** A list that lists all that is held, each copy at least as advanced, replaces it as it is. */
  lemma ReplayedSelf(held: seq<Turn>, list: seq<Turn>, heldAtStart: set<Text>)
    requires Distinct(list) && forall t | t in held :: Has(list, t.causalId)
    requires forall t | t in list :: FromHeld(held, t) == t
    ensures Replayed(held, list, heldAtStart) == list
  {
    hide Position, FromHeld, Listed;
    ListedSelf(held, list, {});
    forall t | t in held
      ensures t.causalId in IdSet(list)
    {
      assert Row(list, t.causalId) in list;
    }
    ArrivedAll(held, IdSet(list), heldAtStart);
  }
}
