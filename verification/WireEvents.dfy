/**
 From the server's side of the event stream to the client's: what the server writes for its
 deliveries is handled as these deliveries, however it is cut on the way.
 */
module WireEvents {
  import opened CodeUnits
  import opened WorkspaceEvents
  import opened FrameSorting
  import G = JsonGrammar
  import T = JsonTree
  import J = JsonRedaction
  import F = EventFrames
  import X = FrameText
  import S = EventSequence
  import R = EventRefreshes

  /** What the server puts on the wire. Payloads are documents; a withheld one is just its sequence, spelled in digits. */
  datatype Delivery =
    | Sent(cursor: Text, payload: G.Document, sequence: int, eventType: Text)
    | Kept(cursor: Text, digits: Text, sequence: int, audienceChanged: bool)
    | ResyncRequired(cursor: Text, reason: G.Document)
    | Draining(reason: G.Document)
    | Idle

  /** `JSON.stringify({ workspaceSequence })` */
  function SequenceDocument(digits: Text): G.Document {
    var row := G.Row([], G.Named(WORKSPACE_SEQUENCE, [], []), G.Scalar(digits), []);
    G.Document([], G.Group(true, G.Last(row)), [])
  }

  function MessageOf(d: Delivery): X.Message {
    match d
    case Sent(cursor, payload, _, _) => X.Message(Some(cursor), WORKSPACE_EVENT, G.DocumentText(payload))
    case Kept(cursor, digits, _, audienceChanged) =>
      X.Message(Some(cursor), if audienceChanged then AUDIENCE_CHANGED else WITHHELD_EVENT, G.DocumentText(SequenceDocument(digits)))
    case ResyncRequired(cursor, reason) => X.Message(Some(cursor), RESYNC_REQUIRED, G.DocumentText(reason))
    case Draining(reason) => X.Message(None, STREAM_UNAVAILABLE, G.DocumentText(reason))
    case Idle => X.Heartbeat
  }

  /** What the client makes of it. */
  function Meaning(d: Delivery): seq<S.Frame> {
    match d
    case Sent(cursor, _, sequence, eventType) => [S.Event(sequence, eventType, Some(cursor))]
    case Kept(cursor, _, sequence, audienceChanged) => [S.Withheld(sequence, audienceChanged, Some(cursor))]
    case ResyncRequired(cursor, _) => [S.Resync(Some(cursor))]
    case Draining(_) => [S.Unavailable]
    case Idle => []
  }

  function WireText(deliveries: seq<Delivery>): Text {
    if deliveries == [] then [] else X.MessageText(MessageOf(deliveries[0])) + WireText(deliveries[1..])
  }

  function Meanings(deliveries: seq<Delivery>): seq<S.Frame> {
    if deliveries == [] then [] else Meaning(deliveries[0]) + Meanings(deliveries[1..])
  }

  predicate IsDigits(t: Text) {
    t != [] && forall k | 0 <= k < |t| :: 0x30 <= t[k] <= 0x39
  }

  /** `JSON.stringify` writes a document without line breaks and without blanks in front. */
  predicate IsPrinted(d: G.Document) {
    G.WfDocument(d) && X.IsValue(G.DocumentText(d)) && G.DocumentText(d) != []
  }

  ghost predicate WfDelivery(d: Delivery, integer: SafeInteger) {
    match d
    case Sent(cursor, payload, sequence, eventType) =>
      && X.IsValue(cursor) && IsPrinted(payload) && TreeOf(payload).Object?
      && HasSequence(TreeOf(payload).members, sequence, integer) && HasType(TreeOf(payload).members, eventType)
    case Kept(cursor, digits, sequence, _) =>
      X.IsValue(cursor) && IsDigits(digits) && G.IsNumber(digits) && integer(digits) == Some(sequence) && sequence > 0
    case ResyncRequired(cursor, reason) => X.IsValue(cursor) && IsPrinted(reason)
    case Draining(reason) => IsPrinted(reason)
    case Idle => true
  }

  lemma EventNamesAreValues()
    ensures X.IsValue(WORKSPACE_EVENT) && X.IsValue(AUDIENCE_CHANGED) && X.IsValue(WITHHELD_EVENT)
    ensures X.IsValue(RESYNC_REQUIRED) && X.IsValue(STREAM_UNAVAILABLE)
  {
  }

  lemma SequenceName()
    ensures |WORKSPACE_SEQUENCE| == 17
    ensures forall k | 0 <= k < 17 :: 0x41 <= WORKSPACE_SEQUENCE[k] <= 0x7A && WORKSPACE_SEQUENCE[k] != G.BACKSLASH
  {
  }

  lemma SequenceIsPrinted(digits: Text)
    requires IsDigits(digits) && G.IsNumber(digits)
    ensures IsPrinted(SequenceDocument(digits))
    ensures TreeOf(SequenceDocument(digits)) == T.Object([T.Member(WORKSPACE_SEQUENCE, T.Literal(digits))])
  {
    hide Ascii, G.IsNumber, G.Decode;
    SequenceName();
    J.PlainText(WORKSPACE_SEQUENCE);
    SequenceText(digits);
    var row := G.Row([], G.Named(WORKSPACE_SEQUENCE, [], []), G.Scalar(digits), []);
    assert G.IsBlank([]) && G.WfLayout(G.Scalar(digits)) && G.WfName(true, row.name);
    assert G.WfRow(true, row) && T.MemberOf(row) == T.Member(WORKSPACE_SEQUENCE, T.Literal(digits));
    assert T.MembersOf(G.Last(row)) == [T.MemberOf(row)];
  }

  lemma SequenceText(digits: Text)
    requires IsDigits(digits)
    ensures X.IsValue(G.DocumentText(SequenceDocument(digits))) && G.DocumentText(SequenceDocument(digits)) != []
  {
    hide Ascii, G.IsNumber, G.Decode;
    SequenceName();
    var text := G.DocumentText(SequenceDocument(digits));
    var row := G.Row([], G.Named(WORKSPACE_SEQUENCE, [], []), G.Scalar(digits), []);
    var key := [G.QUOTE] + (WORKSPACE_SEQUENCE + [G.QUOTE]);
    assert G.NameText(row.name) == key + [G.COLON];
    assert G.RowText(row) == key + [G.COLON] + digits;
    assert G.LayoutText(G.Group(true, G.Last(row))) == [G.OPEN_OBJECT] + (G.RowText(row) + [G.CLOSE_OBJECT]);
    assert text == [G.OPEN_OBJECT, G.QUOTE] + WORKSPACE_SEQUENCE + [G.QUOTE, G.COLON] + digits + [G.CLOSE_OBJECT];
  }

  lemma SequenceIsThere(digits: Text, n: int, integer: SafeInteger)
    requires G.IsNumber(digits) && integer(digits) == Some(n)
    ensures HasSequence([T.Member(WORKSPACE_SEQUENCE, T.Literal(digits))], n, integer)
  {
    hide Ascii, G.IsNumber;
    assert T.LastNamed([T.Member(WORKSPACE_SEQUENCE, T.Literal(digits))], 0, WORKSPACE_SEQUENCE);
  }

  lemma DeliveryIsSendable(d: Delivery, integer: SafeInteger)
    requires WfDelivery(d, integer)
    ensures X.IsSendable(MessageOf(d))
  {
    hide Ascii, X.IsValue, G.WfDocument, G.DocumentText, SequenceDocument, HasSequence, HasType, TreeOf, G.IsNumber, IsDigits;
    EventNamesAreValues();
    if d.Kept? {
      SequenceIsPrinted(d.digits);
    }
  }

  /** One delivery is taken for what it is. */
  lemma DeliveryIsRead(d: Delivery, integer: SafeInteger)
    requires WfDelivery(d, integer)
    ensures var frames := X.Received([MessageOf(d)]);
            AreWellTyped(frames, integer) && AllSorted(frames, integer) == Meaning(d)
  {
    hide Ascii, X.IsValue, G.WfDocument, G.DocumentText, SequenceDocument, HasSequence, HasType, TreeOf, G.IsNumber, IsDigits, Sorted, IsWellTyped;
    var m := MessageOf(d);
    OneMessage(m);
    NothingSorted(integer);
    if m.Message? {
      var frame := F.Frame(m.data, m.event, m.id, None);
      FrameIsTaken(d, frame, integer);
      assert AllSorted([frame], integer) == [Sorted(frame, integer)] by { assert [frame][1..] == []; }
    }
  }

  lemma NothingSorted(integer: SafeInteger)
    ensures AllSorted([], integer) == []
  {
  }

  lemma OneMessage(m: X.Message)
    ensures X.Received([m]) == if m.Heartbeat? then [] else [F.Frame(m.data, m.event, m.id, None)]
  {
    assert [m][1..] == [];
  }

  lemma FrameIsTaken(d: Delivery, frame: F.Frame, integer: SafeInteger)
    requires WfDelivery(d, integer) && MessageOf(d).Message?
    requires frame == F.Frame(MessageOf(d).data, MessageOf(d).event, MessageOf(d).id, None)
    ensures IsWellTyped(frame, integer) && Meaning(d) == [Sorted(frame, integer)]
  {
    hide Ascii, X.IsValue, G.WfDocument, G.DocumentText, SequenceDocument, HasSequence, HasType, TreeOf, G.IsNumber, IsDigits, Sorted;
    NamesDiffer();
    match d
    case Sent(_, payload, sequence, eventType) =>
      EventIsRead(frame, payload, sequence, eventType, integer);
    case Kept(_, digits, sequence, _) =>
      SequenceIsPrinted(digits);
      SequenceIsThere(digits, sequence, integer);
      OneName(digits);
      WithheldIsRead(frame, SequenceDocument(digits), sequence, integer);
    case ResyncRequired(_, _) =>
      OthersAreRead(frame, integer);
    case Draining(_) =>
      OthersAreRead(frame, integer);
  }

  lemma OneName(digits: Text)
    ensures forall m | m in [T.Member(WORKSPACE_SEQUENCE, T.Literal(digits))] :: m.name == WORKSPACE_SEQUENCE
  {
    hide Ascii;
  }

  function Messages(deliveries: seq<Delivery>): seq<X.Message> {
    if deliveries == [] then [] else [MessageOf(deliveries[0])] + Messages(deliveries[1..])
  }

  lemma {:induction false} WireIsStream(deliveries: seq<Delivery>)
    ensures WireText(deliveries) == X.StreamText(Messages(deliveries))
    decreases |deliveries|
  {
    hide X.MessageText, MessageOf;
    if deliveries != [] {
      WireIsStream(deliveries[1..]);
      assert Messages(deliveries)[1..] == Messages(deliveries[1..]);
    }
  }

  lemma {:induction false} DeliveriesAreRead(deliveries: seq<Delivery>, integer: SafeInteger)
    requires forall d | d in deliveries :: WfDelivery(d, integer)
    ensures forall m | m in Messages(deliveries) :: X.IsSendable(m)
    ensures var frames := X.Received(Messages(deliveries));
            AreWellTyped(frames, integer) && AllSorted(frames, integer) == Meanings(deliveries)
    decreases |deliveries|
  {
    hide WfDelivery, MessageOf, X.IsSendable, AreWellTyped, AllSorted, Meaning;
    if deliveries == [] {
      NothingTyped(integer);
    } else {
      var first, rest := deliveries[0], deliveries[1..];
      DeliveryIsSendable(first, integer);
      DeliveryIsRead(first, integer);
      DeliveriesAreRead(rest, integer);
      X.ReceivedCons(MessageOf(first), Messages(rest));
      SortedAppend(X.Received([MessageOf(first)]), X.Received(Messages(rest)), integer);
    }
  }

  lemma NothingTyped(integer: SafeInteger)
    ensures AreWellTyped([], integer) && AllSorted([], integer) == []
  {
  }

  /** The wire text of any deliveries reads back, frame by frame, as these deliveries. */
  lemma WireIsRead(deliveries: seq<Delivery>, number: F.ReadNumber, integer: SafeInteger)
    requires forall d | d in deliveries :: WfDelivery(d, integer)
    ensures var frames := F.Frames(WireText(deliveries), number);
            AreWellTyped(frames, integer) && AllSorted(frames, integer) == Meanings(deliveries)
  {
    hide WfDelivery, F.Frames, AreWellTyped, AllSorted, X.IsSendable;
    WireIsStream(deliveries);
    DeliveriesAreRead(deliveries, integer);
    X.StreamIsReceived(Messages(deliveries), number);
  }

  lemma {:induction false} DrainingDrops(deliveries: seq<Delivery>)
    ensures Drops(Meanings(deliveries)) <==> exists d :: d in deliveries && d.Draining?
    decreases |deliveries|
  {
    hide Drops;
    if deliveries == [] {
      DropsIs([]);
    } else {
      DrainingDrops(deliveries[1..]);
      DropsJoin(Meaning(deliveries[0]), Meanings(deliveries[1..]));
      DropsIs(Meaning(deliveries[0]));
      assert forall d :: d in deliveries <==> d == deliveries[0] || d in deliveries[1..];
      assert deliveries[0].Draining? ==> S.Unavailable in Meaning(deliveries[0]);
    }
  }

  /**
   From the server to the cache: `ReadEvents`, given the wire text of any deliveries cut into any
   pieces, ends in the sequence and the cursor of these deliveries handled in order up to the
   first that drains the stream, drops the stream if and only if one does, and has flushed a
   refresh if and only if one of the deliveries handled asks for it.
   */
  lemma DeliveredAndHandled(deliveries: seq<Delivery>, pieces: seq<Text>, number: F.ReadNumber, integer: SafeInteger,
                            before: S.State, after: S.State, flushed: seq<set<S.Refresh>>, r: S.Refresh)
    requires F.Concat(pieces) == WireText(deliveries) && forall d | d in deliveries :: WfDelivery(d, integer)
    ensures AreWellTyped(F.Frames(F.Concat(pieces), number), integer)
    ensures var frames := AllSorted(F.Frames(F.Concat(pieces), number), integer);
            && (Drops(frames) <==> exists d :: d in deliveries && d.Draining?)
            && (Handles(before, after, UnionOf(flushed), frames) ==>
                  && after == S.Run(before, S.Accepted(Meanings(deliveries)))
                  && ((exists k: nat :: k < |flushed| && r in flushed[k]) <==>
                        exists i: nat :: R.Reached(Meanings(deliveries), i) && R.AsksAt(before, Meanings(deliveries), i, r)))
  {
    hide WfDelivery, F.Frames, AreWellTyped, AllSorted, UnionOf, Drops, Meanings, R.Reached, R.AsksAt, S.Run, S.Accepted, S.AllQueued, S.Elements;
    WireIsRead(deliveries, number, integer);
    DrainingDrops(deliveries);
    if Handles(before, after, UnionOf(flushed), Meanings(deliveries)) {
      StreamRefreshes(before, after, flushed, Meanings(deliveries), r);
    }
  }
}
