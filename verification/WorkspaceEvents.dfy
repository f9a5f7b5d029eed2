/**
 The event stream from its characters to the refreshes: frames are read, sorted by their event
 and their JSON data, and handled, however the stream is cut into reads.
 */
module WorkspaceEvents {
  import opened CodeUnits
  import G = JsonGrammar
  import T = JsonTree
  import F = EventFrames
  import S = EventSequence

  /** A JSON number as `Number.isSafeInteger` reads it: None when it is no safe integer. */
  type SafeInteger = Text -> Option<int>

  const RESYNC_REQUIRED := Ascii("resync_required")
  const STREAM_UNAVAILABLE := Ascii("stream_unavailable")
  const WITHHELD_EVENT := Ascii("workspace.withheld")
  const AUDIENCE_CHANGED := Ascii("workspace.audience_changed")
  const WORKSPACE_EVENT := Ascii("workspace.event")
  const WORKSPACE_SEQUENCE := Ascii("workspaceSequence")
  const EVENT_TYPE := Ascii("eventType")

  // ----- sorting one frame

  function Payload(data: Text): Option<T.Json> {
    if G.ParseDocument(data).Some? then Some(T.DocumentTree(data)) else None
  }

  function Sequence(members: seq<T.Member>, integer: SafeInteger): Option<int> {
    var value := T.KeptValue(members, WORKSPACE_SEQUENCE);
    if value.Some? && value.value.Literal? && G.IsNumber(value.value.raw) then integer(value.value.raw) else None
  }

  /** A withheld frame counts when its payload is an object of just a positive sequence. */
  function WithheldSequence(data: Text, integer: SafeInteger): Option<int> {
    var payload := Payload(data);
    if payload.None? || !payload.value.Object? || |T.KeyNames(payload.value.members)| != 1 then None
    else
      var n := Sequence(payload.value.members, integer);
      if n.Some? && n.value > 0 then n else None
  }

  predicate IsEnvelope(json: T.Json, integer: SafeInteger) {
    && json.Object?
    && Sequence(json.members, integer).Some?
    && var eventType := T.KeptValue(json.members, EVENT_TYPE); eventType.Some? && eventType.value.String?
  }

  predicate IsNull(json: T.Json) {
    json == T.Literal(Ascii("null"))
  }

  /** The data of an event that parses to anything but null is an envelope. */
  predicate IsWellTyped(frame: F.Frame, integer: SafeInteger) {
    frame.event == WORKSPACE_EVENT ==>
      var payload := Payload(frame.data);
      payload.None? || IsNull(payload.value) || IsEnvelope(payload.value, integer)
  }

  /** How `handleFrame` takes a frame. Reading a member of null throws, like data that does not parse. */
  function Sorted(frame: F.Frame, integer: SafeInteger): S.Frame
    requires IsWellTyped(frame, integer)
  {
    if frame.event == RESYNC_REQUIRED then S.Resync(frame.id)
    else if frame.event == STREAM_UNAVAILABLE then S.Unavailable
    else if frame.event == WITHHELD_EVENT || frame.event == AUDIENCE_CHANGED then
      var n := WithheldSequence(frame.data, integer);
      if n.None? then S.Ignored else S.Withheld(n.value, frame.event == AUDIENCE_CHANGED, frame.id)
    else if frame.event != WORKSPACE_EVENT then S.Ignored
    else
      var payload := Payload(frame.data);
      if payload.None? || IsNull(payload.value) then S.Unparseable(frame.id)
      else
        var members := payload.value.members;
        S.Event(Sequence(members, integer).value, T.KeptValue(members, EVENT_TYPE).value.units, frame.id)
  }

  predicate AreWellTyped(frames: seq<F.Frame>, integer: SafeInteger) {
    forall f | f in frames :: IsWellTyped(f, integer)
  }

  function AllSorted(frames: seq<F.Frame>, integer: SafeInteger): (events: seq<S.Frame>)
    requires AreWellTyped(frames, integer)
    ensures |events| == |frames|
  {
    if frames == [] then [] else [Sorted(frames[0], integer)] + AllSorted(frames[1..], integer)
  }

  lemma {:induction false} SortedAppend(a: seq<F.Frame>, b: seq<F.Frame>, integer: SafeInteger)
    requires AreWellTyped(a, integer) && AreWellTyped(b, integer)
    ensures AreWellTyped(a + b, integer) && AllSorted(a + b, integer) == AllSorted(a, integer) + AllSorted(b, integer)
    decreases |a|
  {
    hide Sorted, IsWellTyped;
    if a == [] {
      assert a + b == b;
    } else {
      assert (a + b)[0] == a[0] && (a + b)[1..] == a[1..] + b;
      SortedAppend(a[1..], b, integer);
    }
  }

  // ----- handling in several goes

  ghost predicate Drops(frames: seq<S.Frame>) {
    exists f :: f in frames && f.Unavailable?
  }

  lemma {:induction false} AcceptedAppend(a: seq<S.Frame>, b: seq<S.Frame>)
    ensures S.Accepted(a + b) == if Drops(a) then S.Accepted(a) else a + S.Accepted(b)
    ensures !Drops(a) ==> S.Accepted(a) == a
    decreases |a|
  {
    if a == [] {
      assert a + b == b;
    } else {
      assert (a + b)[0] == a[0] && (a + b)[1..] == a[1..] + b;
      AcceptedAppend(a[1..], b);
      assert a == [a[0]] + a[1..];
      Grouped([a[0]], a[1..], S.Accepted(b));
    }
  }

  lemma {:induction false} RunAppend(s: S.State, a: seq<S.Frame>, b: seq<S.Frame>)
    ensures S.Run(s, a + b) == S.Run(S.Run(s, a), b)
    ensures S.AllQueued(s, a + b) == S.AllQueued(s, a) + S.AllQueued(S.Run(s, a), b)
    decreases |b|
  {
    hide S.Next, S.Queued;
    if b == [] {
      assert a + b == a;
      assert S.AllQueued(s, a) + [] == S.AllQueued(s, a);
    } else {
      var front, last := b[..|b| - 1], b[|b| - 1];
      assert (a + b)[..|a + b| - 1] == a + front && (a + b)[|a + b| - 1] == last;
      RunAppend(s, a, front);
      Grouped(S.AllQueued(s, a), S.AllQueued(S.Run(s, a), front), S.Queued(S.Run(s, a + front), last));
    }
  }

  function UnionOf(sets: seq<set<S.Refresh>>): set<S.Refresh> {
    if sets == [] then {} else UnionOf(sets[..|sets| - 1]) + sets[|sets| - 1]
  }

  lemma UnionSnoc(sets: seq<set<S.Refresh>>, last: set<S.Refresh>)
    ensures UnionOf(sets + [last]) == UnionOf(sets) + last
  {
    assert (sets + [last])[..|sets + [last]| - 1] == sets;
  }

  /** What the whole stream asks for, in one go. */
  ghost predicate Handles(before: S.State, after: S.State, refreshed: set<S.Refresh>, frames: seq<S.Frame>) {
    after == S.Run(before, S.Accepted(frames)) && refreshed == S.Elements(S.AllQueued(before, S.Accepted(frames)))
  }

  lemma HandlesMore(before: S.State, middle: S.State, after: S.State, a: seq<S.Frame>, b: seq<S.Frame>,
                    first: set<S.Refresh>, second: set<S.Refresh>)
    requires !Drops(a) && Handles(before, middle, first, a) && Handles(middle, after, second, b)
    ensures Handles(before, after, first + second, a + b)
  {
    hide S.Run, S.AllQueued, S.Accepted, S.Elements, Drops;
    AcceptedAppend(a, b);
    AcceptedAppend(a, []);
    RunAppend(before, a, S.Accepted(b));
    S.ElementsJoin(S.AllQueued(before, a), S.AllQueued(middle, S.Accepted(b)));
  }

  lemma NothingHandled(s: S.State)
    ensures Handles(s, s, {}, []) && !Drops([])
  {
  }

  lemma DropIsFinal(before: S.State, after: S.State, refreshed: set<S.Refresh>, a: seq<S.Frame>, b: seq<S.Frame>)
    requires Drops(a) && Handles(before, after, refreshed, a)
    ensures Drops(a + b) && Handles(before, after, refreshed, a + b)
  {
    hide S.Run, S.AllQueued, S.Accepted, S.Elements;
    AcceptedAppend(a, b);
    var f :| f in a && f.Unavailable?;
    assert f in a + b;
  }

  /** The frames of the consumed text have been handled and flushed, and none dropped the stream but a last one. */
  ghost predicate SoFar(start: S.State, now: S.State, refreshed: seq<set<S.Refresh>>, consumed: Text, number: F.ReadNumber,
                        integer: SafeInteger, dropped: bool) {
    && F.Whole(consumed) && AreWellTyped(F.Frames(consumed, number), integer)
    && var done := AllSorted(F.Frames(consumed, number), integer);
    && Handles(start, now, UnionOf(refreshed), done)
    && (dropped <==> Drops(done))
  }

  /** One turn of the loop that finds a boundary. */
  method HandleChunk(stream: S.WorkspaceStream, chunk: Text, number: F.ReadNumber, integer: SafeInteger,
                     ghost start: S.State, ghost known: nat, ghost consumed: Text) returns (dropped: bool)
    requires stream.pendingRefresh == {} && known <= |stream.invalidated|
    requires SoFar(start, stream.Current(), stream.invalidated[known..], consumed, number, integer, false)
    requires F.Frames(consumed + chunk, number) == F.Frames(consumed, number) + F.Frames(chunk, number)
    requires F.Whole(consumed + chunk) && AreWellTyped(F.Frames(consumed + chunk, number), integer)
    modifies stream
    ensures stream.pendingRefresh == {} && known <= |stream.invalidated|
    ensures SoFar(start, stream.Current(), stream.invalidated[known..], consumed + chunk, number, integer, dropped)
  {
    hide F.Frames, F.Whole, Handles, Drops, AllSorted, AreWellTyped, UnionOf, S.Elements, S.AllQueued, S.Run, S.Accepted;
    ghost var done, middle, flushed := F.Frames(consumed, number), stream.Current(), stream.invalidated;
    var frames := F.ParseEventFrames(chunk, number);
    SomeWellTyped(done, frames, integer);
    var events := AllSorted(frames, integer);
    dropped := stream.HandleRead(events);
    ChunkHandled(start, middle, stream.Current(), done, frames, integer, flushed, stream.invalidated, known);
    DropsIs(events);
  }

  /**
   The loop of `connect`, from characters to refreshes. However the stream is cut into reads,
   sequence, cursor and refreshes are those of its frames handled in one go, up to the first
   frame that drops the stream.
   */
  method ReadEvents(stream: S.WorkspaceStream, pieces: seq<Text>, number: F.ReadNumber, integer: SafeInteger) returns (dropped: bool)
    requires stream.pendingRefresh == {}
    requires AreWellTyped(F.Frames(F.Concat(pieces), number), integer)
    modifies stream
    ensures var frames := AllSorted(F.Frames(F.Concat(pieces), number), integer);
            && |stream.invalidated| >= |old(stream.invalidated)| && stream.pendingRefresh == {}
            && Handles(old(stream.Current()), stream.Current(), UnionOf(stream.invalidated[|old(stream.invalidated)|..]), frames)
            && (dropped <==> Drops(frames))
  {
    hide F.Frames, F.LastBoundary, F.Whole, F.NoBoundary, F.Concat, SoFar, Handles, Drops, AllSorted, AreWellTyped, UnionOf;
    dropped := false;
    var buffer: Text := [];
    ghost var consumed: Text := [];
    ghost var start, known := stream.Current(), |stream.invalidated|;
    NothingRead(pieces, number);
    assert stream.invalidated[known..] == [];
    NothingYet(start, number, integer);
    var n := 0;
    while n < |pieces| && !dropped
      invariant n <= |pieces| && stream.pendingRefresh == {} && |stream.invalidated| >= known
      invariant F.Whole(consumed) && F.NoBoundary(buffer) && consumed + buffer == F.Concat(pieces[..n])
      invariant SoFar(start, stream.Current(), stream.invalidated[known..], consumed, number, integer, dropped)
    {
      OneMorePiece(consumed, buffer, pieces, n);
      buffer := buffer + pieces[n];
      var boundary := F.LastBoundary(buffer, |buffer|);
      if boundary.Some? {
        F.BufferTurn(consumed, buffer, boundary.value, number);
        var chunk := buffer[..boundary.value + 2];
        buffer := buffer[boundary.value + 2..];
        PrefixIsWellTyped(consumed + chunk, buffer, pieces, n + 1, number, integer);
        dropped := HandleChunk(stream, chunk, number, integer, start, known, consumed);
        consumed := consumed + chunk;
      } else {
        F.NoLaterBoundary(buffer);
      }
      n := n + 1;
    }
    AllRead(start, stream.Current(), stream.invalidated[known..], consumed, buffer, pieces, n, number, integer, dropped);
  }

  lemma NothingYet(start: S.State, number: F.ReadNumber, integer: SafeInteger)
    ensures SoFar(start, start, [], [], number, integer, false)
  {
    hide F.Frames, Handles, Drops;
    F.NoFrames([], number);
    NothingHandled(start);
  }

  /** What was handled when the loop ends is what the whole stream asks for. */
  lemma AllRead(start: S.State, now: S.State, refreshed: seq<set<S.Refresh>>, consumed: Text, buffer: Text, pieces: seq<Text>, n: nat,
                number: F.ReadNumber, integer: SafeInteger, dropped: bool)
    requires n <= |pieces| && consumed + buffer == F.Concat(pieces[..n]) && F.Whole(consumed) && F.NoBoundary(buffer)
    requires AreWellTyped(F.Frames(F.Concat(pieces), number), integer) && (n == |pieces| || dropped)
    requires SoFar(start, now, refreshed, consumed, number, integer, dropped)
    ensures var frames := AllSorted(F.Frames(F.Concat(pieces), number), integer);
            Handles(start, now, UnionOf(refreshed), frames) && (dropped <==> Drops(frames))
  {
    hide F.Frames, F.Whole, F.NoBoundary, F.Concat, Handles, Drops, AllSorted, AreWellTyped, UnionOf;
    var done, whole := F.Frames(consumed, number), F.Frames(F.Concat(pieces), number);
    WholeFramesAre(consumed, buffer, pieces, n, number, integer, done);
    if dropped {
      SortedRest(whole, done, integer);
      DropIsFinal(start, now, UnionOf(refreshed), AllSorted(done, integer), AllSorted(whole[|done|..], integer));
    }
  }

  lemma NothingRead(pieces: seq<Text>, number: F.ReadNumber)
    ensures F.Whole([]) && F.NoBoundary([]) && [] + [] == F.Concat(pieces[..0]) && F.Frames([], number) == []
  {
    F.NoFrames([], number);
  }

  lemma OneMorePiece(consumed: Text, buffer: Text, pieces: seq<Text>, n: nat)
    requires n < |pieces| && consumed + buffer == F.Concat(pieces[..n])
    ensures consumed + (buffer + pieces[n]) == F.Concat(pieces[..n + 1])
  {
    assert pieces[..n + 1][..n] == pieces[..n];
    Grouped(consumed, buffer, pieces[n]);
  }

  lemma DropsIs(frames: seq<S.Frame>)
    ensures Drops(frames) <==> exists f :: f in frames && f.Unavailable?
  {
  }

  /** One more chunk of whole frames has been handled and flushed. */
  lemma ChunkHandled(start: S.State, middle: S.State, after: S.State, done: seq<F.Frame>, frames: seq<F.Frame>, integer: SafeInteger,
                     before: seq<set<S.Refresh>>, now: seq<set<S.Refresh>>, known: nat)
    requires AreWellTyped(done, integer) && AreWellTyped(frames, integer) && known <= |before|
    requires Handles(start, middle, UnionOf(before[known..]), AllSorted(done, integer)) && !Drops(AllSorted(done, integer))
    requires after == S.Run(middle, S.Accepted(AllSorted(frames, integer)))
    requires var queued := S.Elements(S.AllQueued(middle, S.Accepted(AllSorted(frames, integer))));
             now == if queued == {} then before else before + [queued]
    ensures |now| >= known && AreWellTyped(done + frames, integer)
    ensures Handles(start, after, UnionOf(now[known..]), AllSorted(done + frames, integer))
    ensures Drops(AllSorted(done + frames, integer)) <==> Drops(AllSorted(frames, integer))
  {
    hide Handles, Drops, AllSorted, AreWellTyped, UnionOf, S.Elements, S.AllQueued, S.Run, S.Accepted;
    var events := AllSorted(frames, integer);
    SortedAppend(done, frames, integer);
    Flushed(middle, after, events, before, now, known);
    HandlesMore(start, middle, after, AllSorted(done, integer), events, UnionOf(before[known..]),
                S.Elements(S.AllQueued(middle, S.Accepted(events))));
    DropsJoin(AllSorted(done, integer), events);
  }

  lemma DropsJoin(a: seq<S.Frame>, b: seq<S.Frame>)
    ensures Drops(a + b) <==> Drops(a) || Drops(b)
  {
    assert forall f :: f in a + b <==> f in a || f in b;
  }

  lemma ConcatSplit(pieces: seq<Text>, n: nat) returns (more: Text)
    requires n <= |pieces|
    ensures F.Concat(pieces) == F.Concat(pieces[..n]) + more
    decreases |pieces|
  {
    if n == |pieces| {
      assert pieces[..n] == pieces;
      more := [];
    } else {
      var front := pieces[..|pieces| - 1];
      var rest := ConcatSplit(front, n);
      assert front[..n] == pieces[..n];
      more := rest + pieces[|pieces| - 1];
    }
  }

  lemma PrefixIsWellTyped(consumed: Text, buffer: Text, pieces: seq<Text>, n: nat, number: F.ReadNumber, integer: SafeInteger)
    requires n <= |pieces| && consumed + buffer == F.Concat(pieces[..n]) && F.Whole(consumed) && F.NoBoundary(buffer)
    requires AreWellTyped(F.Frames(F.Concat(pieces), number), integer)
    ensures F.Frames(consumed, number) <= F.Frames(F.Concat(pieces), number)
    ensures AreWellTyped(F.Frames(consumed, number), integer)
  {
    hide F.Frames, F.Whole, F.NoBoundary, IsWellTyped, F.Concat;
    var more := ConcatSplit(pieces, n);
    F.FramesGrow(consumed, buffer, more, number);
    var all, some := F.Frames(F.Concat(pieces), number), F.Frames(consumed, number);
    assert forall f | f in some :: f in all;
  }

  lemma SomeWellTyped(a: seq<F.Frame>, b: seq<F.Frame>, integer: SafeInteger)
    requires AreWellTyped(a + b, integer)
    ensures AreWellTyped(a, integer) && AreWellTyped(b, integer)
  {
    hide IsWellTyped;
    assert forall f | f in a || f in b :: f in a + b;
  }

  lemma SortedRest(all: seq<F.Frame>, some: seq<F.Frame>, integer: SafeInteger)
    requires AreWellTyped(all, integer) && some <= all
    ensures AreWellTyped(some, integer) && AreWellTyped(all[|some|..], integer)
    ensures AllSorted(all, integer) == AllSorted(some, integer) + AllSorted(all[|some|..], integer)
  {
    hide IsWellTyped, AllSorted;
    assert all == some + all[|some|..];
    SomeWellTyped(some, all[|some|..], integer);
    SortedAppend(some, all[|some|..], integer);
  }

  lemma WholeFramesAre(consumed: Text, buffer: Text, pieces: seq<Text>, n: nat, number: F.ReadNumber, integer: SafeInteger, done: seq<F.Frame>)
    requires n <= |pieces| && consumed + buffer == F.Concat(pieces[..n]) && F.Whole(consumed) && F.NoBoundary(buffer)
    requires AreWellTyped(F.Frames(F.Concat(pieces), number), integer) && done == F.Frames(consumed, number)
    ensures done <= F.Frames(F.Concat(pieces), number)
    ensures n == |pieces| ==> done == F.Frames(F.Concat(pieces), number)
  {
    hide F.Frames, F.Whole, F.NoBoundary, IsWellTyped;
    PrefixIsWellTyped(consumed, buffer, pieces, n, number, integer);
    if n == |pieces| {
      assert pieces[..n] == pieces;
      F.PartialFrame(consumed, buffer, number);
    }
  }

  /** One flush adds what the frames queued to what was refreshed. */
  lemma Flushed(middle: S.State, after: S.State, events: seq<S.Frame>, before: seq<set<S.Refresh>>, now: seq<set<S.Refresh>>, known: nat)
    requires known <= |before|
    requires after == S.Run(middle, S.Accepted(events))
    requires var queued := S.Elements(S.AllQueued(middle, S.Accepted(events)));
             now == if queued == {} then before else before + [queued]
    ensures Handles(middle, after, S.Elements(S.AllQueued(middle, S.Accepted(events))), events)
    ensures |now| >= known && UnionOf(now[known..]) == UnionOf(before[known..]) + S.Elements(S.AllQueued(middle, S.Accepted(events)))
  {
    hide S.Run, S.AllQueued, S.Accepted, S.Elements, UnionOf;
    var queued := S.Elements(S.AllQueued(middle, S.Accepted(events)));
    if queued != {} {
      assert now[known..] == before[known..] + [queued];
      UnionSnoc(before[known..], queued);
    } else {
      assert UnionOf(before[known..]) + {} == UnionOf(before[known..]);
    }
  }
}
