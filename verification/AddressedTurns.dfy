/** Copies of addressed turns, merged into one ordered list with one row per causal id. */
module AddressedTurns {
  import opened CodeUnits

  datatype TurnState = Claimed | Dispatching | Responded | Superseded | Cancelled

  /** `content` stands for the fields the merge never looks at. */
  datatype Turn = Turn(
    causalId: Text,
    id: Text,
    state: TurnState,
    createdAt: Text,
    updatedAt: Text,
    responseMessageId: Option<Text>,
    leadTurnIntentId: Option<Text>,
    content: Text)

  function Rank(state: TurnState): nat {
    match state
    case Claimed => 0
    case Dispatching => 1
    case _ => 2
  }

  predicate IsTerminal(t: Turn) {
    Rank(t.state) == 2
  }

  function Knows(t: Turn): nat {
    (if t.responseMessageId.Some? then 1 else 0) + if t.leadTurnIntentId.Some? then 1 else 0
  }

  /** The more advanced of two copies; a full tie, and a second terminal state, keep the held one. */
  function Advance(held: Turn, incoming: Turn): Turn {
    if Rank(incoming.state) != Rank(held.state) then
      if Rank(incoming.state) > Rank(held.state) then incoming else held
    else if incoming.state != held.state && Rank(incoming.state) == 2 then held
    else if Less(held.updatedAt, incoming.updatedAt) then incoming
    else if Less(incoming.updatedAt, held.updatedAt) then held
    else if Knows(incoming) > Knows(held) then incoming
    else held
  }

  /** The state comes later in the life of a turn: claimed, dispatching, and then one of three endings. */
  predicate ComesLater(before: TurnState, after: TurnState) {
    (before.Claimed? && !after.Claimed?) || (before.Dispatching? && (after.Responded? || after.Superseded? || after.Cancelled?))
  }

  /** One copy names the response or the lead intent where the other names neither, or both where the other does not. */
  predicate KnowsMore(before: Turn, after: Turn) {
    || (before.responseMessageId.None? && before.leadTurnIntentId.None? && (after.responseMessageId.Some? || after.leadTurnIntentId.Some?))
    || ((before.responseMessageId.None? || before.leadTurnIntentId.None?) && after.responseMessageId.Some? && after.leadTurnIntentId.Some?)
  }

  /**
   A copy takes the place of the held one if and only if its state comes later, or the state is
   the same and it was updated later, or at the same time and it knows more. So of two endings
   the first stays, and so does the held copy in a full tie.
   */
  lemma AdvanceTable(held: Turn, incoming: Turn)
    requires held != incoming
    ensures Advance(held, incoming) == held || Advance(held, incoming) == incoming
    ensures Advance(held, incoming) == incoming <==>
              || ComesLater(held.state, incoming.state)
              || (held.state == incoming.state &&
                  (|| Less(held.updatedAt, incoming.updatedAt)
                   || (held.updatedAt == incoming.updatedAt && KnowsMore(held, incoming))))
  {
    hide Less;
    LessTotal(held.updatedAt, incoming.updatedAt);
    LessIrreflexive(held.updatedAt);
    if Less(held.updatedAt, incoming.updatedAt) && Less(incoming.updatedAt, held.updatedAt) {
      LessTransitive(held.updatedAt, incoming.updatedAt, held.updatedAt);
    }
  }

  /** `compareAddressedTurns(a, b) < 0` */
  predicate Before(a: Turn, b: Turn) {
    if a.createdAt != b.createdAt then Less(a.createdAt, b.createdAt) else Less(a.id, b.id)
  }

  // ----- the fold, on values

  /** The last position of a causal id: what `new Map(entries)` keeps. */
  function Position(list: seq<Turn>, id: Text): (p: Option<nat>)
    ensures p.Some? ==> p.value < |list| && list[p.value].causalId == id
    ensures p.Some? ==> forall k | p.value < k < |list| :: list[k].causalId != id
    ensures p.None? ==> forall k | 0 <= k < |list| :: list[k].causalId != id
  {
    if list == [] then None
    else
      var n := |list| - 1;
      if list[n].causalId == id then Some(n) else Position(list[..n], id)
  }

  predicate Has(list: seq<Turn>, id: Text) {
    Position(list, id).Some?
  }

  function Row(list: seq<Turn>, id: Text): (t: Turn)
    requires Has(list, id)
    ensures t in list && t.causalId == id
  {
    list[Position(list, id).value]
  }

  /** Where the search from the end places a turn among the first `n`. */
  function InsertIndex(list: seq<Turn>, turn: Turn, n: nat): (k: nat)
    requires n <= |list|
    ensures k <= n
    ensures forall j | k <= j < n :: Before(turn, list[j])
    ensures k > 0 ==> !Before(turn, list[k - 1])
  {
    if n > 0 && Before(turn, list[n - 1]) then InsertIndex(list, turn, n - 1) else n
  }

  function Insert(list: seq<Turn>, turn: Turn): seq<Turn> {
    var k := InsertIndex(list, turn, |list|);
    list[..k] + [turn] + list[k..]
  }

  function Place(list: seq<Turn>, turn: Turn): seq<Turn> {
    match Position(list, turn.causalId)
    case Some(p) => list[p := Advance(list[p], turn)]
    case None => Insert(list, turn)
  }

  function Fold(held: seq<Turn>, incoming: seq<Turn>): seq<Turn>
    decreases incoming
  {
    if incoming == [] then held else Fold(Place(held, incoming[0]), incoming[1..])
  }

  lemma {:induction false} FoldSnoc(held: seq<Turn>, incoming: seq<Turn>, turn: Turn)
    ensures Fold(held, incoming + [turn]) == Place(Fold(held, incoming), turn)
    decreases incoming
  {
    hide Place;
    if incoming == [] {
      assert ([] + [turn])[1..] == [];
    } else {
      assert (incoming + [turn])[1..] == incoming[1..] + [turn];
      FoldSnoc(Place(held, incoming[0]), incoming[1..], turn);
    }
  }

  /** Batching does not matter: two folds are one fold of the joined batch. */
  lemma {:induction false} FoldAppend(held: seq<Turn>, a: seq<Turn>, b: seq<Turn>)
    ensures Fold(held, a + b) == Fold(Fold(held, a), b)
    decreases a
  {
    hide Place;
    if a == [] {
      assert a + b == b;
    } else {
      assert (a + b)[1..] == a[1..] + b;
      FoldAppend(Place(held, a[0]), a[1..], b);
    }
  }

  // ----- the fold, in place

  ghost predicate IndexOf(index: map<Text, nat>, list: seq<Turn>) {
    forall id :: (id in index <==> Has(list, id)) && (id in index ==> Position(list, id) == Some(index[id]))
  }

  lemma PositionIs(list: seq<Turn>, id: Text, p: nat)
    requires p < |list| && list[p].causalId == id && forall k | p < k < |list| :: list[k].causalId != id
    ensures Position(list, id) == Some(p)
  {
    hide Position;
  }

  lemma PositionNone(list: seq<Turn>, id: Text)
    requires forall k | 0 <= k < |list| :: list[k].causalId != id
    ensures Position(list, id) == None
  {
    hide Position;
  }

  /** Appending, replacing in place and inserting move positions as the index is moved. */
  lemma PositionAfterInsert(list: seq<Turn>, turn: Turn, k: nat, id: Text)
    requires k <= |list| && !Has(list, turn.causalId)
    ensures var after := list[..k] + [turn] + list[k..];
            Position(after, id) ==
              if id == turn.causalId then Some(k)
              else match Position(list, id)
                case None => None
                case Some(p) => Some(if p >= k then p + 1 else p)
  {
    hide Position;
    var after := list[..k] + [turn] + list[k..];
    if id == turn.causalId {
      PositionIs(after, id, k);
    } else if Position(list, id).None? {
      PositionNone(after, id);
    } else {
      var p := Position(list, id).value;
      PositionIs(after, id, if p >= k then p + 1 else p);
    }
  }

  lemma PositionAfterUpdate(list: seq<Turn>, p: nat, turn: Turn, id: Text)
    requires p < |list| && turn.causalId == list[p].causalId
    ensures Position(list[p := turn], id) == Position(list, id)
  {
    hide Position;
    match Position(list, id) {
      case None => PositionNone(list[p := turn], id);
      case Some(q) => PositionIs(list[p := turn], id, q);
    }
  }

  lemma AdvanceKeepsId(held: Turn, incoming: Turn)
    requires held.causalId == incoming.causalId
    ensures Advance(held, incoming).causalId == held.causalId
  {
  }

  method ShiftIndex(index: map<Text, nat>, insertAt: nat) returns (shifted: map<Text, nat>)
    ensures shifted.Keys == index.Keys
    ensures forall id | id in index :: shifted[id] == if index[id] >= insertAt then index[id] + 1 else index[id]
  {
    shifted := index;
    var todo := index.Keys;
    while todo != {}
      invariant todo <= index.Keys == shifted.Keys
      invariant forall id | id in index ::
                  shifted[id] == if id !in todo && index[id] >= insertAt then index[id] + 1 else index[id]
    {
      var id :| id in todo;
      if shifted[id] >= insertAt {
        shifted := shifted[id := shifted[id] + 1];
      }
      todo := todo - {id};
    }
  }

  method BuildIndex(list: seq<Turn>) returns (index: map<Text, nat>)
    ensures IndexOf(index, list)
  {
    hide Position;
    index := map[];
    for n := 0 to |list|
      invariant IndexOf(index, list[..n])
    {
      var next := list[..n + 1];
      assert next[..n] == list[..n];
      forall id
        ensures Position(next, id) == if id == list[n].causalId then Some(n) else Position(list[..n], id)
      {
        PositionAfterAppend(list[..n], list[n], id);
        assert next == list[..n] + [list[n]];
      }
      index := index[list[n].causalId := n];
    }
    assert list[..|list|] == list;
  }

  lemma PositionAfterAppend(list: seq<Turn>, turn: Turn, id: Text)
    ensures Position(list + [turn], id) == if id == turn.causalId then Some(|list|) else Position(list, id)
  {
    assert (list + [turn])[..|list|] == list;
  }

  lemma IndexAfterUpdate(index: map<Text, nat>, list: seq<Turn>, p: nat, turn: Turn)
    requires IndexOf(index, list) && p < |list| && turn.causalId == list[p].causalId
    ensures IndexOf(index, list[p := turn])
  {
    hide Position;
    forall id
      ensures Position(list[p := turn], id) == Position(list, id)
    {
      PositionAfterUpdate(list, p, turn, id);
    }
  }

  lemma IndexAfterInsert(index: map<Text, nat>, shifted: map<Text, nat>, list: seq<Turn>, turn: Turn, k: nat)
    requires IndexOf(index, list) && turn.causalId !in index && k <= |list|
    requires shifted.Keys == index.Keys
    requires forall id | id in index :: shifted[id] == if index[id] >= k then index[id] + 1 else index[id]
    ensures IndexOf(shifted[turn.causalId := k], list[..k] + [turn] + list[k..])
  {
    hide Position;
    var after := list[..k] + [turn] + list[k..];
    forall id
      ensures Position(after, id) ==
              if id == turn.causalId then Some(k)
              else match Position(list, id)
                case None => None
                case Some(p) => Some(if p >= k then p + 1 else p)
    {
      PositionAfterInsert(list, turn, k, id);
    }
  }

  /** The list is edited in place and the index stays exactly inverse to it, through every insert. */
  method FoldAddressedTurns(held: seq<Turn>, incoming: seq<Turn>) returns (result: seq<Turn>)
    ensures result == Fold(held, incoming)
  {
    hide Position, InsertIndex, Advance, Before, IndexOf, Fold;
    result := held;
    var index := BuildIndex(held);
    FoldNothing(held);
    for n := 0 to |incoming|
      invariant result == Fold(held, incoming[..n])
      invariant IndexOf(index, result)
    {
      var turn := incoming[n];
      FoldSnoc(held, incoming[..n], turn);
      assert incoming[..n + 1] == incoming[..n] + [turn];
      IndexIsPosition(index, result, turn.causalId);
      if turn.causalId in index {
        var position := index[turn.causalId];
        AdvanceKeepsId(result[position], turn);
        IndexAfterUpdate(index, result, position, Advance(result[position], turn));
        result := result[position := Advance(result[position], turn)];
      } else {
        var insertAt := FindInsert(result, turn);
        var shifted := ShiftIndex(index, insertAt);
        IndexAfterInsert(index, shifted, result, turn, insertAt);
        result := result[..insertAt] + [turn] + result[insertAt..];
        index := shifted[turn.causalId := insertAt];
      }
    }
    assert incoming[..|incoming|] == incoming;
  }

  lemma FoldNothing(held: seq<Turn>)
    ensures Fold(held, []) == held
  {
  }

  lemma IndexIsPosition(index: map<Text, nat>, list: seq<Turn>, id: Text)
    requires IndexOf(index, list)
    ensures Position(list, id) == if id in index then Some(index[id]) else None
  {
    hide Position;
  }

  method FindInsert(list: seq<Turn>, turn: Turn) returns (insertAt: nat)
    ensures insertAt == InsertIndex(list, turn, |list|)
    ensures insertAt <= |list|
  {
    hide Before;
    insertAt := |list|;
    while insertAt > 0 && Before(turn, list[insertAt - 1])
      invariant insertAt <= |list|
      invariant InsertIndex(list, turn, insertAt) == InsertIndex(list, turn, |list|)
    {
      insertAt := insertAt - 1;
    }
  }

  // ----- one row per causal id

  function Ids(list: seq<Turn>): seq<Text> {
    seq(|list|, i requires 0 <= i < |list| => list[i].causalId)
  }

  ghost predicate Distinct(list: seq<Turn>) {
    forall i, j | 0 <= i < j < |list| :: list[i].causalId != list[j].causalId
  }

  /** The copies of one causal id, in the order they came. */
  function Copies(list: seq<Turn>, id: Text): seq<Turn> {
    if list == [] then []
    else (if list[0].causalId == id then [list[0]] else []) + Copies(list[1..], id)
  }

  /** The left fold of `advanceAddressedTurn` over copies of one turn. */
  function Joined(copies: seq<Turn>): Turn
    requires copies != []
    decreases |copies|
  {
    if |copies| == 1 then copies[0] else Joined([Advance(copies[0], copies[1])] + copies[2..])
  }

  function JoinOnto(held: Turn, copies: seq<Turn>): Turn
    decreases copies
  {
    if copies == [] then held else JoinOnto(Advance(held, copies[0]), copies[1..])
  }

  lemma {:induction false} JoinedIsJoinOnto(t: Turn, copies: seq<Turn>)
    ensures Joined([t] + copies) == JoinOnto(t, copies)
    decreases |copies|
  {
    hide Advance;
    if copies != [] {
      assert ([t] + copies)[2..] == copies[1..];
      JoinedIsJoinOnto(Advance(t, copies[0]), copies[1..]);
    } else {
      assert [t] + copies == [t];
    }
  }

  /** What one placed turn does to the row of any causal id. */
  lemma PlaceRow(list: seq<Turn>, turn: Turn, id: Text)
    ensures Has(Place(list, turn), id) <==> Has(list, id) || id == turn.causalId
    ensures Has(Place(list, turn), id) ==>
              Row(Place(list, turn), id) ==
                if id != turn.causalId then Row(list, id)
                else if Has(list, id) then Advance(Row(list, id), turn)
                else turn
  {
    hide Position, InsertIndex, Advance;
    if Has(list, turn.causalId) {
      var p := Position(list, turn.causalId).value;
      AdvanceKeepsId(list[p], turn);
      PositionAfterUpdate(list, p, Advance(list[p], turn), id);
    } else {
      PositionAfterInsert(list, turn, InsertIndex(list, turn, |list|), id);
    }
  }

  lemma PlaceDistinct(list: seq<Turn>, turn: Turn)
    requires Distinct(list)
    ensures Distinct(Place(list, turn))
  {
    hide InsertIndex, Position;
    if Has(list, turn.causalId) {
      AdvanceKeepsId(list[Position(list, turn.causalId).value], turn);
    }
  }

  lemma {:induction false} FoldDistinct(held: seq<Turn>, incoming: seq<Turn>)
    requires Distinct(held)
    ensures Distinct(Fold(held, incoming))
    decreases incoming
  {
    hide Place, Distinct;
    if incoming != [] {
      PlaceDistinct(held, incoming[0]);
      FoldDistinct(Place(held, incoming[0]), incoming[1..]);
    }
  }

  /** The fold refines a fold per causal id: each row joins the held copy with the incoming copies, in order. */
  lemma {:induction false} FoldRow(held: seq<Turn>, incoming: seq<Turn>, id: Text)
    ensures Has(Fold(held, incoming), id) <==> Has(held, id) || Copies(incoming, id) != []
    ensures Has(Fold(held, incoming), id) ==>
              Row(Fold(held, incoming), id) ==
                if Has(held, id) then JoinOnto(Row(held, id), Copies(incoming, id)) else Joined(Copies(incoming, id))
    decreases incoming
  {
    hide Place, Row, Has, Advance;
    if incoming != [] {
      PlaceRow(held, incoming[0], id);
      FoldRow(Place(held, incoming[0]), incoming[1..], id);
      var copies := Copies(incoming[1..], id);
      if incoming[0].causalId == id {
        assert Copies(incoming, id)[0] == incoming[0] && Copies(incoming, id)[1..] == copies;
        JoinedIsJoinOnto(incoming[0], copies);
      } else {
        assert Copies(incoming, id) == copies;
      }
    }
  }
}
