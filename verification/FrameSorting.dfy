/** How a frame of the event stream is taken, event name by event name, for payloads in any JSON layout. */
module FrameSorting {
  import opened CodeUnits
  import opened WorkspaceEvents
  import G = JsonGrammar
  import T = JsonTree
  import F = EventFrames
  import S = EventSequence
  import R = EventRefreshes

  // ----- reading members

  /** The last member of the name is a number that reads as `n`. */
  ghost predicate HasSequence(members: seq<T.Member>, n: int, integer: SafeInteger) {
    exists k: nat :: T.LastNamed(members, k, WORKSPACE_SEQUENCE)
                     && members[k].value.Literal? && G.IsNumber(members[k].value.raw) && integer(members[k].value.raw) == Some(n)
  }

  ghost predicate HasType(members: seq<T.Member>, eventType: Text) {
    exists k: nat :: T.LastNamed(members, k, EVENT_TYPE) && members[k].value == T.String(eventType)
  }

  lemma SequenceIs(members: seq<T.Member>, n: int, integer: SafeInteger)
    ensures Sequence(members, integer) == Some(n) <==> HasSequence(members, n, integer)
  {
    hide T.KeptValue, G.IsNumber, Ascii, T.LastNamed;
    T.KeptIsLast(members, WORKSPACE_SEQUENCE);
  }

  lemma TypeIs(members: seq<T.Member>, eventType: Text)
    ensures T.KeptValue(members, EVENT_TYPE) == Some(T.String(eventType)) <==> HasType(members, eventType)
  {
    hide T.KeptValue, Ascii, T.LastNamed;
    T.KeptIsLast(members, EVENT_TYPE);
  }

  function TreeOf(d: G.Document): T.Json
    requires G.WfDocument(d)
  {
    T.Tree(d.value)
  }

  lemma PayloadOf(d: G.Document)
    requires G.WfDocument(d)
    ensures Payload(G.DocumentText(d)) == Some(TreeOf(d))
  {
    hide G.ParseDocument, G.WfLayout, G.DocumentText, T.Tree;
    G.DocumentTextParses(d);
  }

  // ----- one frame

  lemma NamesDiffer()
    ensures |RESYNC_REQUIRED| == 15 && |WORKSPACE_EVENT| == 15 && |AUDIENCE_CHANGED| == 26
    ensures |STREAM_UNAVAILABLE| == 18 && |WITHHELD_EVENT| == 18
    ensures RESYNC_REQUIRED[0] != WORKSPACE_EVENT[0] && STREAM_UNAVAILABLE[0] != WITHHELD_EVENT[0]
  {
  }

  /** An event whose payload holds a sequence and a type is that event, whatever else the payload holds and however it is laid out. */
  lemma EventIsRead(frame: F.Frame, d: G.Document, n: int, eventType: Text, integer: SafeInteger)
    requires frame.event == WORKSPACE_EVENT && G.WfDocument(d) && frame.data == G.DocumentText(d)
    requires TreeOf(d).Object? && HasSequence(TreeOf(d).members, n, integer) && HasType(TreeOf(d).members, eventType)
    ensures IsWellTyped(frame, integer) && Sorted(frame, integer) == S.Event(n, eventType, frame.id)
  {
    hide Ascii, Payload, TreeOf, G.WfDocument, G.DocumentText, T.KeptValue, HasSequence, HasType, Sequence;
    NamesDiffer();
    PayloadOf(d);
    SequenceIs(TreeOf(d).members, n, integer);
    TypeIs(TreeOf(d).members, eventType);
  }

  /**
   A withheld frame, or an audience change, counts if and only if its payload is an object
   whose members are all the sequence, the last of them a positive number; otherwise the frame
   is passed over.
   */
  lemma WithheldIsRead(frame: F.Frame, d: G.Document, n: int, integer: SafeInteger)
    requires frame.event == WITHHELD_EVENT || frame.event == AUDIENCE_CHANGED
    requires G.WfDocument(d) && frame.data == G.DocumentText(d)
    ensures var sorted := Sorted(frame, integer);
            && (sorted == S.Withheld(n, frame.event == AUDIENCE_CHANGED, frame.id) <==>
                  && n > 0 && TreeOf(d).Object?
                  && (forall m | m in TreeOf(d).members :: m.name == WORKSPACE_SEQUENCE)
                  && HasSequence(TreeOf(d).members, n, integer))
            && (sorted.Withheld? || sorted == S.Ignored)
  {
    hide Ascii, Payload, TreeOf, G.WfDocument, G.DocumentText, T.KeptValue, HasSequence, T.KeyNames, Sequence;
    NamesDiffer();
    PayloadOf(d);
    if TreeOf(d).Object? {
      var members := TreeOf(d).members;
      SequenceIs(members, n, integer);
      NoOtherName(members, n, integer);
    }
  }

  lemma NoOtherName(members: seq<T.Member>, n: int, integer: SafeInteger)
    ensures HasSequence(members, n, integer) ==>
              (|T.KeyNames(members)| == 1 <==> forall m | m in members :: m.name == WORKSPACE_SEQUENCE)
  {
    hide Ascii, G.IsNumber;
    var names, name := T.KeyNames(members), WORKSPACE_SEQUENCE;
    if HasSequence(members, n, integer) {
      var k: nat :| T.LastNamed(members, k, name);
      assert members[k].name in names;
      if |names| == 1 {
        OnlyOne(names, name);
        forall m | m in members
          ensures m.name == name
        {
          assert m.name in names;
        }
      }
      if forall m | m in members :: m.name == name {
        assert names == {name};
      }
    }
  }

  lemma OnlyOne(names: set<Text>, name: Text)
    requires name in names && |names| == 1
    ensures names == {name}
  {
    assert |names - {name}| == 0;
    assert names == {name} + (names - {name});
  }

  /** A resync and an unavailable stream are taken whatever their data is, and an unknown event is passed over. */
  lemma OthersAreRead(frame: F.Frame, integer: SafeInteger)
    requires frame.event != WORKSPACE_EVENT
    ensures frame.event == RESYNC_REQUIRED <==> Sorted(frame, integer) == S.Resync(frame.id)
    ensures frame.event == STREAM_UNAVAILABLE <==> Sorted(frame, integer) == S.Unavailable
    ensures Sorted(frame, integer).Withheld? ==> frame.event == WITHHELD_EVENT || frame.event == AUDIENCE_CHANGED
    ensures Sorted(frame, integer).Resync? || Sorted(frame, integer).Unavailable? || Sorted(frame, integer).Withheld? || Sorted(frame, integer).Ignored?
  {
    hide Ascii, WithheldSequence;
    NamesDiffer();
  }

  /** Data that is no JSON: of an event only the replay cursor is kept, of a withheld frame nothing. */
  lemma BrokenDataIsRead(frame: F.Frame, integer: SafeInteger)
    requires G.ParseDocument(frame.data).None?
    ensures IsWellTyped(frame, integer)
    ensures frame.event == WORKSPACE_EVENT ==> Sorted(frame, integer) == S.Unparseable(frame.id)
    ensures frame.event == WITHHELD_EVENT || frame.event == AUDIENCE_CHANGED ==> Sorted(frame, integer) == S.Ignored
  {
    hide Ascii, G.ParseDocument;
    NamesDiffer();
  }

  /** Every frame of a delivery is taken on its own, in its place. */
  lemma {:induction false} EachIsSorted(frames: seq<F.Frame>, integer: SafeInteger, i: nat)
    requires AreWellTyped(frames, integer) && i < |frames|
    ensures IsWellTyped(frames[i], integer) && AllSorted(frames, integer)[i] == Sorted(frames[i], integer)
  {
    hide Sorted, IsWellTyped;
    if i > 0 {
      EachIsSorted(frames[1..], integer, i - 1);
    }
  }

  // ----- the refreshes of a stream

  lemma {:induction false} UnionHolds(sets: seq<set<S.Refresh>>, r: S.Refresh)
    ensures r in UnionOf(sets) <==> exists k: nat :: k < |sets| && r in sets[k]
    decreases |sets|
  {
    if sets != [] {
      var n := |sets| - 1;
      UnionHolds(sets[..n], r);
      assert forall k: nat | k < n :: sets[..n][k] == sets[k];
    }
  }

  /**
   What a stream refreshes when it is handled as `ReadEvents` handles it: a refresh is flushed
   if and only if a frame asks for it that comes before every frame that drops the stream.
   */
  lemma StreamRefreshes(before: S.State, after: S.State, flushed: seq<set<S.Refresh>>, frames: seq<S.Frame>, r: S.Refresh)
    requires Handles(before, after, UnionOf(flushed), frames)
    ensures (exists k: nat :: k < |flushed| && r in flushed[k]) <==> (exists i: nat :: R.Reached(frames, i) && R.AsksAt(before, frames, i, r))
  {
    hide R.Reached, R.AsksAt, UnionOf, S.AllQueued, S.Accepted, S.Run;
    UnionHolds(flushed, r);
    R.HandledExactly(before, frames, r);
  }
}
