/** What the fold of addressed turns keeps, and what it does not depend on. */
module TurnConvergence {
  import opened CodeUnits
  import opened AddressedTurns

  // ----- held order is kept

  /** One placed turn never swaps two rows that are already there. */
  lemma PlaceKeepsOrder(list: seq<Turn>, turn: Turn, a: Text, b: Text)
    requires Has(list, a) && Has(list, b) && Position(list, a).value < Position(list, b).value
    ensures Has(Place(list, turn), a) && Has(Place(list, turn), b)
    ensures Position(Place(list, turn), a).value < Position(Place(list, turn), b).value
  {
    hide Position, InsertIndex, Advance;
    if Has(list, turn.causalId) {
      var p := Position(list, turn.causalId).value;
      AdvanceKeepsId(list[p], turn);
      PositionAfterUpdate(list, p, Advance(list[p], turn), a);
      PositionAfterUpdate(list, p, Advance(list[p], turn), b);
    } else {
      PositionAfterInsert(list, turn, InsertIndex(list, turn, |list|), a);
      PositionAfterInsert(list, turn, InsertIndex(list, turn, |list|), b);
    }
  }

  lemma {:induction false} FoldKeepsOrder(held: seq<Turn>, incoming: seq<Turn>, a: Text, b: Text)
    requires Has(held, a) && Has(held, b) && Position(held, a).value < Position(held, b).value
    ensures Has(Fold(held, incoming), a) && Has(Fold(held, incoming), b)
    ensures Position(Fold(held, incoming), a).value < Position(Fold(held, incoming), b).value
    decreases incoming
  {
    hide Position, Place;
    if incoming != [] {
      PlaceKeepsOrder(held, incoming[0], a, b);
      FoldKeepsOrder(Place(held, incoming[0]), incoming[1..], a, b);
    }
  }

  // ----- creation order is kept

  ghost predicate IsSorted(list: seq<Turn>) {
    forall i, j | 0 <= i < j < |list| :: !Before(list[j], list[i])
  }

  /** A sorted list ascends by creation time, and by id where the time is the same. */
  lemma SortedAscends(list: seq<Turn>, i: nat, j: nat)
    requires IsSorted(list) && i < j < |list|
    ensures Less(list[i].createdAt, list[j].createdAt)
            || (list[i].createdAt == list[j].createdAt && (list[i].id == list[j].id || Less(list[i].id, list[j].id)))
  {
    hide Less;
    LessTotal(list[i].createdAt, list[j].createdAt);
    LessTotal(list[i].id, list[j].id);
  }

  /** Copies of one causal id agree on what the order compares. */
  ghost predicate Agreed(all: seq<Turn>) {
    forall x, y | x in all && y in all && x.causalId == y.causalId :: x.createdAt == y.createdAt && x.id == y.id
  }

  lemma BeforeTransitive(a: Turn, b: Turn, c: Turn)
    requires !Before(b, a) && !Before(c, b)
    ensures !Before(c, a)
  {
    hide Less;
    LessTotal(a.createdAt, b.createdAt);
    LessTotal(b.createdAt, c.createdAt);
    LessTotal(a.id, b.id);
    LessTotal(b.id, c.id);
    if Before(c, a) {
      if c.createdAt != a.createdAt {
        LessBetween(a.createdAt, b.createdAt, c.createdAt);
      } else if a.createdAt != b.createdAt {
        LessAsymmetric(a.createdAt, b.createdAt);
      } else {
        LessBetween(a.id, b.id, c.id);
      }
    }
  }

  lemma LessAsymmetric(a: Text, b: Text)
    requires Less(a, b)
    ensures !Less(b, a)
  {
    hide Less;
    if Less(b, a) {
      LessTransitive(a, b, a);
      LessIrreflexive(a);
    }
  }

  lemma LessBetween(a: Text, b: Text, c: Text)
    requires a == b || Less(a, b)
    requires b == c || Less(b, c)
    ensures !Less(c, a)
  {
    hide Less;
    LessIrreflexive(a);
    if Less(c, a) {
      if a != b && b != c {
        LessTransitive(a, b, c);
      }
      LessAsymmetric(c, a);
      if a == c {
        LessAsymmetric(a, b);
      }
    }
  }

  lemma PlaceElements(list: seq<Turn>, turn: Turn)
    ensures forall x | x in Place(list, turn) :: x in list || x == turn
  {
    hide Position, InsertIndex, Advance;
    if Has(list, turn.causalId) {
      AdvancePicks(list[Position(list, turn.causalId).value], turn);
    }
  }

  lemma AdvancePicks(held: Turn, incoming: Turn)
    ensures Advance(held, incoming) == held || Advance(held, incoming) == incoming
  {
  }

  lemma InsertSorted(list: seq<Turn>, turn: Turn)
    requires IsSorted(list)
    ensures IsSorted(Insert(list, turn))
  {
    hide Before, InsertIndex;
    var k := InsertIndex(list, turn, |list|);
    forall j | 0 <= j < k
      ensures !Before(turn, list[j])
    {
      if j < k - 1 {
        BeforeTransitive(list[j], list[k - 1], turn);
      }
    }
    forall j | k <= j < |list|
      ensures !Before(list[j], turn)
    {
      BeforeAsymmetric(turn, list[j]);
    }
  }

  lemma BeforeAsymmetric(a: Turn, b: Turn)
    requires Before(a, b)
    ensures !Before(b, a)
  {
    hide Less;
    if a.createdAt != b.createdAt {
      LessAsymmetric(a.createdAt, b.createdAt);
    } else {
      LessAsymmetric(a.id, b.id);
    }
  }

  lemma PlaceSorted(list: seq<Turn>, turn: Turn)
    requires IsSorted(list) && Agreed(list + [turn])
    ensures IsSorted(Place(list, turn))
  {
    hide Position, InsertIndex, Advance;
    if Has(list, turn.causalId) {
      var p := Position(list, turn.causalId).value;
      AdvancePicks(list[p], turn);
      assert list[p] in list + [turn] && turn in list + [turn];
    } else {
      InsertSorted(list, turn);
    }
  }

  lemma {:induction false} FoldSorted(held: seq<Turn>, incoming: seq<Turn>)
    requires IsSorted(held) && Agreed(held + incoming)
    ensures IsSorted(Fold(held, incoming))
    decreases incoming
  {
    hide Place, IsSorted;
    if incoming != [] {
      var turn, rest := incoming[0], incoming[1..];
      PlaceElements(held, turn);
      assert forall x | x in held + [turn] :: x in held + incoming;
      assert forall x | x in Place(held, turn) + rest :: x in held + incoming;
      PlaceSorted(held, turn);
      FoldSorted(Place(held, turn), rest);
    }
  }

  // ----- the same batch twice

  predicate Absorbed(list: seq<Turn>, turn: Turn) {
    Has(list, turn.causalId) && Advance(Row(list, turn.causalId), turn) == Row(list, turn.causalId)
  }

  lemma AdvanceTwice(held: Turn, a: Turn)
    ensures Advance(Advance(held, a), a) == Advance(held, a) && Advance(a, a) == a
  {
    hide Less;
    LessIrreflexive(a.updatedAt);
  }

  /** A copy that changed nothing before changes nothing after the row has advanced further. */
  lemma AdvanceMonotone(held: Turn, a: Turn, b: Turn)
    requires Advance(held, a) == held
    ensures Advance(Advance(held, b), a) == Advance(held, b)
  {
    hide Less;
    LessIrreflexive(a.updatedAt);
    LessTotal(held.updatedAt, a.updatedAt);
    LessTotal(held.updatedAt, b.updatedAt);
    LessTotal(a.updatedAt, b.updatedAt);
    if Less(a.updatedAt, held.updatedAt) && Less(held.updatedAt, b.updatedAt) {
      LessTransitive(a.updatedAt, held.updatedAt, b.updatedAt);
    }
    if Less(a.updatedAt, b.updatedAt) {
      LessAsymmetric(a.updatedAt, b.updatedAt);
    }
    if Less(b.updatedAt, a.updatedAt) {
      LessAsymmetric(b.updatedAt, a.updatedAt);
    }
    if Less(held.updatedAt, b.updatedAt) {
      LessAsymmetric(held.updatedAt, b.updatedAt);
    }
    if Less(a.updatedAt, held.updatedAt) {
      LessAsymmetric(a.updatedAt, held.updatedAt);
    }
  }

  lemma PlaceAbsorbs(list: seq<Turn>, turn: Turn, x: Turn)
    requires x == turn || Absorbed(list, x)
    ensures Absorbed(Place(list, turn), x)
  {
    hide Has, Row, Advance, Place;
    PlaceRow(list, turn, x.causalId);
    if x == turn {
      if Has(list, x.causalId) {
        AdvanceTwice(Row(list, x.causalId), x);
      } else {
        AdvanceTwice(x, x);
      }
    } else if x.causalId == turn.causalId {
      AdvanceMonotone(Row(list, x.causalId), x, turn);
    }
  }

  lemma {:induction false} FoldAbsorbs(held: seq<Turn>, incoming: seq<Turn>, x: Turn)
    requires x in incoming || Absorbed(held, x)
    ensures Absorbed(Fold(held, incoming), x)
    decreases incoming
  {
    hide Absorbed, Place;
    if incoming != [] {
      if x == incoming[0] || Absorbed(held, x) {
        PlaceAbsorbs(held, incoming[0], x);
      }
      FoldAbsorbs(Place(held, incoming[0]), incoming[1..], x);
    }
  }

  lemma {:induction false} FoldAbsorbed(list: seq<Turn>, incoming: seq<Turn>)
    requires forall x | x in incoming :: Absorbed(list, x)
    ensures Fold(list, incoming) == list
    decreases incoming
  {
    hide Position, Advance;
    if incoming != [] {
      assert Absorbed(list, incoming[0]);
      assert Place(list, incoming[0]) == list;
      FoldAbsorbed(list, incoming[1..]);
    }
  }

  /** A replayed batch changes nothing: not a row, not the order. */
  lemma FoldIsIdempotent(held: seq<Turn>, incoming: seq<Turn>)
    ensures Fold(Fold(held, incoming), incoming) == Fold(held, incoming)
  {
    hide Fold, Absorbed;
    forall x | x in incoming
      ensures Absorbed(Fold(held, incoming), x)
    {
      FoldAbsorbs(held, incoming, x);
    }
    FoldAbsorbed(Fold(held, incoming), incoming);
  }

  // ----- the order of arrival

  /** How far a copy has got: rank, then update time, then what it knows. */
  predicate Behind(a: Turn, b: Turn) {
    if Rank(a.state) != Rank(b.state) then Rank(a.state) < Rank(b.state)
    else if a.updatedAt != b.updatedAt then Less(a.updatedAt, b.updatedAt)
    else Knows(a) < Knows(b)
  }

  predicate SameProgress(a: Turn, b: Turn) {
    a.state == b.state && a.updatedAt == b.updatedAt && Knows(a) == Knows(b)
  }

  ghost predicate OneTerminal(copies: seq<Turn>) {
    forall x, y | x in copies && y in copies && IsTerminal(x) && IsTerminal(y) :: x.state == y.state
  }

  lemma AdvanceTakesFurther(held: Turn, incoming: Turn)
    requires IsTerminal(held) && IsTerminal(incoming) ==> held.state == incoming.state
    ensures Advance(held, incoming) == if Behind(held, incoming) then incoming else held
  {
    hide Less;
    LessTotal(held.updatedAt, incoming.updatedAt);
    LessIrreflexive(held.updatedAt);
    if Less(incoming.updatedAt, held.updatedAt) {
      LessAsymmetric(incoming.updatedAt, held.updatedAt);
    }
  }

  lemma BehindTransitive(a: Turn, b: Turn, c: Turn)
    requires Behind(a, b) && !Behind(c, b)
    ensures Behind(a, c)
  {
    hide Less;
    LessTotal(b.updatedAt, c.updatedAt);
    if a.updatedAt != b.updatedAt && Less(a.updatedAt, b.updatedAt) && Less(b.updatedAt, c.updatedAt) {
      LessTransitive(a.updatedAt, b.updatedAt, c.updatedAt);
    }
    LessIrreflexive(a.updatedAt);
    if a.updatedAt == c.updatedAt && Less(a.updatedAt, b.updatedAt) {
      LessAsymmetric(a.updatedAt, b.updatedAt);
    }
  }

  lemma BehindAsymmetric(a: Turn, b: Turn)
    requires Behind(a, b)
    ensures !Behind(b, a)
  {
    hide Less;
    if a.updatedAt != b.updatedAt && Less(a.updatedAt, b.updatedAt) {
      LessAsymmetric(a.updatedAt, b.updatedAt);
    }
  }

  lemma BehindIrreflexive(a: Turn)
    ensures !Behind(a, a)
  {
  }

  /** With one terminal state the joined copy is one that none of the copies is ahead of. */
  lemma {:induction false} JoinIsFurthest(held: Turn, copies: seq<Turn>)
    requires OneTerminal([held] + copies)
    ensures JoinOnto(held, copies) in [held] + copies
    ensures forall x | x in [held] + copies :: !Behind(JoinOnto(held, copies), x)
    decreases copies
  {
    hide Advance, Behind;
    BehindIrreflexive(held);
    if copies != [] {
      var first := copies[0];
      assert first in [held] + copies && held in [held] + copies;
      AdvanceTakesFurther(held, first);
      var next := Advance(held, first);
      BehindIrreflexive(first);
      if Behind(held, first) {
        BehindAsymmetric(held, first);
      }
      assert forall x | x in [next] + copies[1..] :: x in [held] + copies;
      JoinIsFurthest(next, copies[1..]);
      var joined := JoinOnto(next, copies[1..]);
      forall x | x in [held] + copies
        ensures !Behind(joined, x)
      {
        assert next in [next] + copies[1..];
        if x == held || x == first {
          if Behind(joined, x) {
            NotBehindChain(joined, next, x);
          }
        } else {
          assert x in [next] + copies[1..];
        }
      }
    }
  }

  /** `next` is not behind `x`, so whoever is behind `x` is behind `next`. */
  lemma NotBehindChain(joined: Turn, next: Turn, x: Turn)
    requires Behind(joined, x) && !Behind(next, x)
    ensures Behind(joined, next)
  {
    BehindTransitive(joined, x, next);
  }

  lemma FurthestAgree(a: Turn, b: Turn, copies: seq<Turn>)
    requires a in copies && b in copies && OneTerminal(copies)
    requires !Behind(a, b) && !Behind(b, a)
    ensures SameProgress(a, b)
  {
    hide Less;
    LessTotal(a.updatedAt, b.updatedAt);
  }

  /** The copies of one causal id that a fold joins. */
  function AllCopies(held: seq<Turn>, incoming: seq<Turn>, id: Text): seq<Turn> {
    (if Has(held, id) then [Row(held, id)] else []) + Copies(incoming, id)
  }

  lemma FoldIsFurthest(held: seq<Turn>, incoming: seq<Turn>, id: Text)
    requires AllCopies(held, incoming, id) != [] && OneTerminal(AllCopies(held, incoming, id))
    ensures Has(Fold(held, incoming), id)
    ensures var row := Row(Fold(held, incoming), id);
            && row in AllCopies(held, incoming, id)
            && forall x | x in AllCopies(held, incoming, id) :: !Behind(row, x)
  {
    hide Has, Row, Fold, Behind, Advance;
    FoldRow(held, incoming, id);
    var copies := Copies(incoming, id);
    if Has(held, id) {
      JoinIsFurthest(Row(held, id), copies);
    } else {
      assert AllCopies(held, incoming, id) == copies == [copies[0]] + copies[1..];
      JoinedIsJoinOnto(copies[0], copies[1..]);
      JoinIsFurthest(copies[0], copies[1..]);
    }
  }

  /**
   Order, repetition and batching of the copies do not matter: if two batches hold the same
   copies of an id and no two of them ended differently, both folds reach the same state,
   update time and knowledge.
   */
  lemma ArrivalOrderIsIrrelevant(held: seq<Turn>, one: seq<Turn>, other: seq<Turn>, id: Text)
    requires forall x :: x in AllCopies(held, one, id) <==> x in AllCopies(held, other, id)
    requires OneTerminal(AllCopies(held, one, id))
    ensures Has(Fold(held, one), id) <==> Has(Fold(held, other), id)
    ensures Has(Fold(held, one), id) ==> SameProgress(Row(Fold(held, one), id), Row(Fold(held, other), id))
  {
    hide Has, Row, Fold, Behind;
    var a, b := AllCopies(held, one, id), AllCopies(held, other, id);
    FoldRow(held, one, id);
    FoldRow(held, other, id);
    if a != [] {
      assert a[0] in b;
      FoldIsFurthest(held, one, id);
      FoldIsFurthest(held, other, id);
      FurthestAgree(Row(Fold(held, one), id), Row(Fold(held, other), id), a);
    }
    if b != [] {
      assert b[0] in a;
    }
  }

  // ----- exactly when arrival order does not matter

  ghost predicate Permutes(p: seq<Turn>, copies: seq<Turn>) {
    multiset(p) == multiset(copies)
  }

  lemma {:induction false} TerminalStays(held: Turn, copies: seq<Turn>)
    requires IsTerminal(held)
    ensures JoinOnto(held, copies).state == held.state
    decreases copies
  {
    if copies != [] {
      TerminalStays(Advance(held, copies[0]), copies[1..]);
    }
  }

  /** The copy at `i` moved to the front. */
  function Fronted(copies: seq<Turn>, i: nat): seq<Turn>
    requires i < |copies|
  {
    [copies[i]] + (copies[..i] + copies[i + 1..])
  }

  lemma FrontedWins(copies: seq<Turn>, i: nat)
    requires i < |copies| && IsTerminal(copies[i])
    ensures Permutes(Fronted(copies, i), copies) && Joined(Fronted(copies, i)).state == copies[i].state
  {
    JoinedIsJoinOnto(copies[i], copies[..i] + copies[i + 1..]);
    TerminalStays(copies[i], copies[..i] + copies[i + 1..]);
    assert copies == copies[..i] + [copies[i]] + copies[i + 1..];
  }

  lemma JoinedIsFurthest(copies: seq<Turn>)
    requires copies != [] && OneTerminal(copies)
    ensures Joined(copies) in copies && forall x | x in copies :: !Behind(Joined(copies), x)
  {
    hide Behind, Advance;
    assert copies == [copies[0]] + copies[1..];
    JoinedIsJoinOnto(copies[0], copies[1..]);
    JoinIsFurthest(copies[0], copies[1..]);
  }

  /** Copies of one turn settle on one state in every order exactly when no two of them ended differently. */
  lemma SettlesIff(copies: seq<Turn>)
    requires copies != []
    ensures (forall p | p != [] && Permutes(p, copies) :: Joined(p).state == Joined(copies).state) <==> OneTerminal(copies)
  {
    hide Joined, Behind;
    if OneTerminal(copies) {
      JoinedIsFurthest(copies);
      forall p | p != [] && Permutes(p, copies)
        ensures Joined(p).state == Joined(copies).state
      {
        assert forall x :: x in p <==> x in multiset(p);
        assert forall x :: x in copies <==> x in multiset(copies);
        JoinedIsFurthest(p);
        FurthestAgree(Joined(p), Joined(copies), copies);
      }
    } else {
      var x, y :| x in copies && y in copies && IsTerminal(x) && IsTerminal(y) && x.state != y.state;
      var i: nat :| i < |copies| && copies[i] == x;
      var j: nat :| j < |copies| && copies[j] == y;
      FrontedWins(copies, i);
      FrontedWins(copies, j);
    }
  }

  // ----- the order of rows

  /** Different turns have different ids. */
  ghost predicate DistinctTurnIds(all: seq<Turn>) {
    forall x, y | x in all && y in all && x.causalId != y.causalId :: x.id != y.id
  }

  lemma {:induction false} FoldElements(held: seq<Turn>, incoming: seq<Turn>)
    ensures forall x | x in Fold(held, incoming) :: x in held + incoming
    decreases incoming
  {
    hide Place;
    if incoming != [] {
      PlaceElements(held, incoming[0]);
      FoldElements(Place(held, incoming[0]), incoming[1..]);
    }
  }

  /** Rows in strict creation order are determined by which causal ids there are. */
  lemma {:induction false} SortedRowsAreUnique(a: seq<Turn>, b: seq<Turn>, all: seq<Turn>)
    requires IsSorted(a) && IsSorted(b) && Distinct(a) && Distinct(b)
    requires (forall x | x in a :: x in all) && (forall x | x in b :: x in all) && Agreed(all) && DistinctTurnIds(all)
    requires forall id :: Has(a, id) <==> Has(b, id)
    ensures Ids(a) == Ids(b)
    decreases |a|
  {
    hide Position, Before, Has, IsSorted, Distinct, Agreed, DistinctTurnIds;
    if a != [] {
      HasFirst(a);
    }
    if b != [] {
      HasFirst(b);
    }
    if a == [] || b == [] {
      HasNone([]);
    } else {
      SameHead(a, b, all);
      TailHas(a);
      TailHas(b);
      TailKeeps(a);
      TailKeeps(b);
      SortedRowsAreUnique(a[1..], b[1..], all);
      assert Ids(a) == [a[0].causalId] + Ids(a[1..]) && Ids(b) == [b[0].causalId] + Ids(b[1..]);
    }
  }

  lemma HasFirst(a: seq<Turn>)
    requires a != []
    ensures Has(a, a[0].causalId)
  {
  }

  lemma HasNone(a: seq<Turn>)
    ensures a == [] ==> forall id :: !Has(a, id)
  {
  }

  lemma TailKeeps(a: seq<Turn>)
    requires a != [] && IsSorted(a) && Distinct(a)
    ensures IsSorted(a[1..]) && Distinct(a[1..])
  {
    hide Before;
  }

  lemma TailHas(a: seq<Turn>)
    requires a != [] && Distinct(a)
    ensures forall id :: Has(a[1..], id) <==> Has(a, id) && id != a[0].causalId
  {
    hide Position;
    forall id
      ensures Has(a[1..], id) <==> Has(a, id) && id != a[0].causalId
    {
      if Has(a, id) && id != a[0].causalId {
        var p := Position(a, id).value;
        assert a[1..][p - 1].causalId == id;
      }
      if Has(a[1..], id) {
        var p := Position(a[1..], id).value;
        assert a[p + 1].causalId == id;
      }
    }
  }

  lemma SameHead(a: seq<Turn>, b: seq<Turn>, all: seq<Turn>)
    requires a != [] && b != [] && IsSorted(a) && IsSorted(b)
    requires (forall x | x in a :: x in all) && (forall x | x in b :: x in all) && Agreed(all) && DistinctTurnIds(all)
    requires forall id :: Has(a, id) <==> Has(b, id)
    ensures a[0].causalId == b[0].causalId
  {
    hide Position, Less;
    assert Has(a, a[0].causalId) && Has(b, b[0].causalId);
    var p := Position(b, a[0].causalId).value;
    var q := Position(a, b[0].causalId).value;
    assert a[0] in all && b[0] in all && b[p] in all && a[q] in all;
    assert !Before(b[p], b[0]) && !Before(a[q], a[0]) by {
      BeforeIrreflexive(a[0]);
      BeforeIrreflexive(b[0]);
    }
    BeforeAgrees(a[0], b[p], b[0], a[q]);
    LessTotal(a[0].createdAt, b[0].createdAt);
    LessTotal(a[0].id, b[0].id);
  }

  lemma BeforeIrreflexive(a: Turn)
    ensures !Before(a, a)
  {
    LessIrreflexive(a.id);
  }

  lemma BeforeAgrees(a: Turn, a2: Turn, b: Turn, b2: Turn)
    requires a.createdAt == a2.createdAt && a.id == a2.id && b.createdAt == b2.createdAt && b.id == b2.id
    ensures Before(a, b) == Before(a2, b) && Before(b, a) == Before(b2, a)
  {
  }

  /** From a sorted start, with distinct turn ids, the row order is the same whatever came first. */
  lemma RowOrderIsIrrelevant(held: seq<Turn>, one: seq<Turn>, other: seq<Turn>)
    requires IsSorted(held) && Distinct(held)
    requires forall x :: x in one <==> x in other
    requires Agreed(held + one) && DistinctTurnIds(held + one)
    ensures Ids(Fold(held, one)) == Ids(Fold(held, other))
  {
    hide Fold, Position, IsSorted, Distinct, Before;
    assert forall x :: x in held + one <==> x in held + other;
    FoldSorted(held, one);
    FoldSorted(held, other);
    FoldDistinct(held, one);
    FoldDistinct(held, other);
    FoldElements(held, one);
    FoldElements(held, other);
    forall id
      ensures Has(Fold(held, one), id) <==> Has(Fold(held, other), id)
    {
      FoldRow(held, one, id);
      FoldRow(held, other, id);
      CopiesAreElements(one, id);
      CopiesAreElements(other, id);
    }
    SortedRowsAreUnique(Fold(held, one), Fold(held, other), held + one);
  }

  lemma {:induction false} CopiesAreElements(list: seq<Turn>, id: Text)
    ensures forall x :: x in Copies(list, id) <==> x in list && x.causalId == id
    ensures Copies(list, id) != [] <==> exists x :: x in list && x.causalId == id
  {
    if list != [] {
      CopiesAreElements(list[1..], id);
      assert forall x :: x in list <==> x == list[0] || x in list[1..];
      if Copies(list, id) != [] {
        assert Copies(list, id)[0] in Copies(list, id);
      }
    }
  }
}
