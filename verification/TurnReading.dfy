/** The paged read of one channel's turns: which answers may be presented as complete. */
module TurnReading {
  import opened CodeUnits
  import opened AddressedTurns

  datatype Page = Page(turns: seq<Turn>, nextAfter: Option<Text>)

  /** What the server answers to the `n`-th request with a cursor; it may answer differently each time. */
  type Server = (nat, Option<Text>) -> Page

  /** An empty cursor is not sent. */
  function Sent(after: Option<Text>): Option<Text> {
    if after == Some([]) then None else after
  }

  function ReadPages(server: Server, page: nat, pageCap: nat, after: Option<Text>): (bool, seq<Turn>)
    decreases pageCap - page
  {
    if page >= pageCap then (false, [])
    else
      var result := server(page, Sent(after));
      if result.nextAfter.None? then (true, result.turns)
      else if result.nextAfter == after then (false, result.turns)
      else
        var (complete, rest) := ReadPages(server, page + 1, pageCap, result.nextAfter);
        (complete, result.turns + rest)
  }

  method ReplayAddressedTurns(server: Server, pageCap: nat) returns (complete: bool, turns: seq<Turn>)
    ensures (complete, turns) == ReadPages(server, 0, pageCap, None)
  {
    turns := [];
    var after: Option<Text> := None;
    var page := 0;
    assert ReadPages(server, 0, pageCap, None).1 == [] + ReadPages(server, 0, pageCap, None).1;
    while page < pageCap
      invariant page <= pageCap
      invariant ReadPages(server, 0, pageCap, None).0 == ReadPages(server, page, pageCap, after).0
      invariant ReadPages(server, 0, pageCap, None).1 == turns + ReadPages(server, page, pageCap, after).1
    {
      var result := server(page, Sent(after));
      Grouped(turns, result.turns, ReadPages(server, page + 1, pageCap, result.nextAfter).1);
      turns := turns + result.turns;
      if result.nextAfter.None? {
        return true, turns;
      }
      if result.nextAfter == after {
        return false, turns;
      }
      after := result.nextAfter;
      page := page + 1;
    }
    assert turns + [] == turns;
    return false, turns;
  }

  /** The cursor that asks for the turns from the `k`-th on. */
  function CursorAt(cursor: nat -> Text, k: nat): Option<Text> {
    if k == 0 then None else Some(cursor(k))
  }

  /** A server that pages one committed list, whose cursors are told apart. */
  ghost predicate Lists(server: Server, all: seq<Turn>, limit: nat, cursor: nat -> Text) {
    && limit > 0
    && (forall k: nat :: cursor(k) != [])
    && (forall j: nat, k: nat | cursor(j) == cursor(k) :: j == k)
    && forall n: nat, k: nat | k <= |all| ::
         server(n, CursorAt(cursor, k)) == Page(all[k..Min(k + limit, |all|)], if k + limit < |all| then Some(cursor(k + limit)) else None)
  }

  /** How many turns `pages` pages hold. */
  function Reach(pages: nat, limit: nat): nat {
    if pages == 0 then 0 else limit + Reach(pages - 1, limit)
  }

  lemma {:induction false} ReachIsProduct(pages: nat, limit: nat)
    ensures Reach(pages, limit) == pages * limit
  {
    if pages > 0 {
      ReachIsProduct(pages - 1, limit);
      assert pages * limit == limit + (pages - 1) * limit;
    }
  }

  lemma {:induction false} ReadFrom(server: Server, all: seq<Turn>, limit: nat, cursor: nat -> Text, page: nat, pageCap: nat, k: nat)
    requires Lists(server, all, limit, cursor) && page <= pageCap && k <= |all|
    ensures var reach := k + Reach(pageCap - page, limit);
            ReadPages(server, page, pageCap, CursorAt(cursor, k)) == (page < pageCap && |all| <= reach, all[k..Min(reach, |all|)])
    decreases pageCap - page
  {
    var after := CursorAt(cursor, k);
    if page < pageCap {
      assert Reach(pageCap - page, limit) == limit + Reach(pageCap - (page + 1), limit);
      PageAt(server, all, limit, cursor, page, k);
      hide Lists, CursorAt;
      if k + limit < |all| {
        ReadFrom(server, all, limit, cursor, page + 1, pageCap, k + limit);
        var end := Min(k + Reach(pageCap - page, limit), |all|);
        assert all[k..k + limit] + all[k + limit..end] == all[k..end];
      }
    } else {
      assert all[k..k] == [];
    }
  }

  lemma PageAt(server: Server, all: seq<Turn>, limit: nat, cursor: nat -> Text, page: nat, k: nat)
    requires Lists(server, all, limit, cursor) && k <= |all|
    ensures var after, result := CursorAt(cursor, k), server(page, Sent(CursorAt(cursor, k)));
            && result.turns == all[k..Min(k + limit, |all|)]
            && (k + limit < |all| ==> result.nextAfter == CursorAt(cursor, k + limit) != after && result.nextAfter.Some?)
            && (k + limit >= |all| ==> result.nextAfter == None)
  {
    assert Sent(CursorAt(cursor, k)) == CursorAt(cursor, k);
    assert server(page, CursorAt(cursor, k)).turns == all[k..Min(k + limit, |all|)];
  }

  /**
   Over one committed list the read is called complete if and only if it is: the page cap
   covers the list. What it returns is then the whole list, and otherwise its oldest pages.
   */
  lemma CompleteMeansComplete(server: Server, all: seq<Turn>, limit: nat, cursor: nat -> Text, pageCap: nat)
    requires Lists(server, all, limit, cursor) && pageCap > 0
    ensures var (complete, turns) := ReadPages(server, 0, pageCap, None);
            && (complete <==> |all| <= pageCap * limit)
            && (complete ==> turns == all)
            && (!complete ==> turns == all[..pageCap * limit])
  {
    ReadFrom(server, all, limit, cursor, 0, pageCap, 0);
    ReachIsProduct(pageCap, limit);
    assert all[0..|all|] == all;
  }

  /** A cursor that does not advance ends the read as unfinished: two requests, never a loop. */
  lemma StuckCursorEndsTheRead(server: Server, pageCap: nat, stuck: Text)
    requires pageCap > 1 && server(0, None).nextAfter == Some(stuck) && server(1, Sent(Some(stuck))).nextAfter == Some(stuck)
    ensures ReadPages(server, 0, pageCap, None) == (false, server(0, None).turns + server(1, Sent(Some(stuck))).turns)
  {
    assert ReadPages(server, 1, pageCap, Some(stuck)) == (false, server(1, Sent(Some(stuck))).turns);
  }
}
