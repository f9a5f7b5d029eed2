/** What a block of lines says, field by field, and the frames the server writes. */
module FrameText {
  import opened CodeUnits
  import opened EventFrames

  const SPACE: CodeUnit := 0x20

  // ----- one block, field by field

  /** The value a line gives to a field: the line is the name, a colon and the value. */
  function ValueIn(line: Text, field: Text): Option<Text> {
    if field + [COLON] <= line then Some(TrimStart(line[|field| + 1..])) else None
  }

  /** All values the lines give to a field, in order. */
  function Values(lines: seq<Text>, field: Text): seq<Text> {
    if lines == [] then []
    else
      var n := |lines| - 1;
      Values(lines[..n], field) + (if ValueIn(lines[n], field).Some? then [ValueIn(lines[n], field).value] else [])
  }

  /** The values on lines of their own; empty ones in front leave no line. */
  function Joined(values: seq<Text>): Text {
    if values == [] then []
    else
      var front := Joined(values[..|values| - 1]);
      if front == [] then values[|values| - 1] else front + [NEWLINE] + values[|values| - 1]
  }

  function LastOf(values: seq<Text>): Option<Text> {
    if values == [] then None else Some(values[|values| - 1])
  }

  function Numbered(value: Option<Text>, number: ReadNumber): Option<nat> {
    if value.Some? then number(value.value) else None
  }

  /** The last event, id and retry count, and all data. */
  function FrameOf(lines: seq<Text>, number: ReadNumber): Frame {
    var event := LastOf(Values(lines, EVENT));
    Frame(Joined(Values(lines, DATA)), if event.Some? then event.value else Ascii("message"),
          LastOf(Values(lines, ID)), Numbered(LastOf(Values(lines, RETRY)), number))
  }

  predicate IsFieldName(field: Text) {
    field != [] && COLON !in field
  }

  lemma {:induction false} ColonIsFirst(line: Text, k: nat)
    requires k <= |line| && COLON !in line[..k] && (k < |line| ==> line[k] == COLON)
    ensures ColonAt(line) == k
    decreases k
  {
    if k > 0 {
      assert line[..k][0] == line[0];
      assert line[..k][1..] == line[1..][..k - 1];
      ColonIsFirst(line[1..], k - 1);
    }
  }

  lemma {:induction false} BeforeColon(line: Text)
    ensures var k := ColonAt(line); COLON !in line[..k] && (k < |line| ==> line[k] == COLON)
  {
    if line != [] && line[0] != COLON {
      BeforeColon(line[1..]);
      var k := ColonAt(line);
      assert line[..k] == [line[0]] + line[1..][..k - 1];
    }
  }

  lemma FieldIs(line: Text, field: Text)
    requires IsFieldName(field)
    ensures ValueIn(line, field).Some? <==> 0 < ColonAt(line) < |line| && line[..ColonAt(line)] == field
    ensures ValueIn(line, field).Some? ==> ColonAt(line) == |field|
  {
    hide ColonAt, TrimStart;
    StartIsField(line, field);
    FieldIsStart(line);
  }

  lemma FieldIsStart(line: Text)
    ensures var k := ColonAt(line);
            k < |line| ==> line[..k] + [COLON] <= line
  {
    hide ColonAt;
    BeforeColon(line);
    var k := ColonAt(line);
    if k < |line| {
      assert line[..k + 1] == line[..k] + [COLON];
    }
  }

  lemma StartIsField(line: Text, field: Text)
    requires IsFieldName(field)
    ensures field + [COLON] <= line ==> ColonAt(line) == |field| < |line| && line[..|field|] == field
  {
    hide ColonAt;
    if field + [COLON] <= line {
      assert line[..|field|] == (field + [COLON])[..|field|] == field;
      assert line[|field|] == (field + [COLON])[|field|] == COLON;
      ColonIsFirst(line, |field|);
    }
  }

  lemma FieldNames()
    ensures IsFieldName(DATA) && IsFieldName(EVENT) && IsFieldName(ID) && IsFieldName(RETRY)
    ensures |DATA| == 4 && |EVENT| == 5 && |ID| == 2 && |RETRY| == 5 && EVENT[0] != RETRY[0]
  {
  }

  /** A line changes only the field it gives a value to. */
  lemma LineIsRead(frame: Frame, line: Text, number: ReadNumber)
    ensures var next := ReadLine(frame, line, number);
            var data, event, id, retry := ValueIn(line, DATA), ValueIn(line, EVENT), ValueIn(line, ID), ValueIn(line, RETRY);
            && next.data == (if data.None? then frame.data else if frame.data == [] then data.value else frame.data + [NEWLINE] + data.value)
            && next.event == (if event.Some? then event.value else frame.event)
            && next.id == (if id.Some? then id else frame.id)
            && next.retryMs == (if retry.Some? then number(retry.value) else frame.retryMs)
  {
    hide Ascii, ColonAt, TrimStart, ValueIn;
    FieldNames();
    FieldIs(line, DATA);
    FieldIs(line, EVENT);
    FieldIs(line, ID);
    FieldIs(line, RETRY);
    ValueIs(line, DATA);
    ValueIs(line, EVENT);
    ValueIs(line, ID);
    ValueIs(line, RETRY);
  }

  lemma ValueIs(line: Text, field: Text)
    ensures ValueIn(line, field).Some? ==> |field| < |line| && ValueIn(line, field).value == TrimStart(line[|field| + 1..])
  {
    hide TrimStart;
  }

  /** A block read line by line is its fields. */
  lemma {:induction false} LinesAreFields(lines: seq<Text>, number: ReadNumber)
    ensures ReadLines(FRESH, lines, number) == FrameOf(lines, number)
    decreases |lines|
  {
    hide Ascii, ReadLine, ValueIn;
    if lines != [] {
      var front, last := lines[..|lines| - 1], lines[|lines| - 1];
      assert lines == front + [last];
      LinesAreFields(front, number);
      ReadLinesSnoc(FRESH, front, last, number);
      LineIsRead(FrameOf(front, number), last, number);
      OneMoreLine(lines, DATA);
      OneMoreLine(lines, EVENT);
      OneMoreLine(lines, ID);
      OneMoreLine(lines, RETRY);
    }
  }

  lemma OneMoreLine(lines: seq<Text>, field: Text)
    requires lines != []
    ensures var value := ValueIn(lines[|lines| - 1], field);
            var before, now := Values(lines[..|lines| - 1], field), Values(lines, field);
            && (value.None? ==> now == before)
            && (value.Some? ==>
                  && now == before + [value.value] && LastOf(now) == value
                  && Joined(now) == if Joined(before) == [] then value.value else Joined(before) + [NEWLINE] + value.value)
  {
    hide ValueIn;
    var before, now := Values(lines[..|lines| - 1], field), Values(lines, field);
    if ValueIn(lines[|lines| - 1], field).Some? {
      assert now[..|now| - 1] == before;
    }
  }

  /** One terminated block: its fields make one frame, or none without data and retry. */
  lemma BlockIsRead(block: Text, number: ReadNumber)
    requires NoBoundary(block)
    ensures var frame := FrameOf(Lines(block), number);
            Frames(block + [NEWLINE, NEWLINE], number) == if frame.data != [] || frame.retryMs.Some? then [frame] else []
  {
    hide Frames, Lines, ReadLines, FrameOf, NoBoundary;
    WholeFrames(block, number);
    BlockIsDispatch(block, number);
    LinesAreFields(Lines(block), number);
  }

  /** The data lines of a block come back by splitting at newlines, when none is empty. */
  lemma {:induction false} DataLines(values: seq<Text>)
    requires values != [] && forall k | 0 <= k < |values| :: values[k] != [] && NEWLINE !in values[k]
    ensures Joined(values) != [] && Lines(Joined(values)) == values
    decreases |values|
  {
    hide Lines;
    var front, last := values[..|values| - 1], values[|values| - 1];
    OneLine(last);
    assert values == front + [last];
    if front != [] {
      DataLines(front);
      LinesJoin(Joined(front), last);
    }
  }

  lemma OneLine(t: Text)
    requires NEWLINE !in t
    ensures Lines(t) == [t]
  {
    var i := LineEnd(t);
    assert i == |t|;
  }

  // ----- the frames the server writes

  /** A frame with an event name, or the comment that keeps an idle connection open. */
  datatype Message = Heartbeat | Message(id: Option<Text>, event: Text, data: Text)

  const HEARTBEAT := Ascii(": heartbeat")

  function FieldLine(field: Text, value: Text): Text {
    field + [COLON, SPACE] + value
  }

  function MessageLines(m: Message): seq<Text> {
    match m
    case Heartbeat => [HEARTBEAT]
    case Message(id, event, data) =>
      (if id.Some? then [FieldLine(ID, id.value)] else []) + [FieldLine(EVENT, event), FieldLine(DATA, data)]
  }

  function MessageText(m: Message): Text {
    JoinWith(MessageLines(m), [NEWLINE]) + [NEWLINE, NEWLINE]
  }

  function StreamText(messages: seq<Message>): Text {
    if messages == [] then [] else MessageText(messages[0]) + StreamText(messages[1..])
  }

  /** A value that a line can carry unchanged. */
  predicate IsValue(t: Text) {
    NEWLINE !in t && (t != [] ==> !IsJsSpace(t[0]))
  }

  predicate IsSendable(m: Message) {
    m.Message? ==> IsValue(m.event) && IsValue(m.data) && m.data != [] && (m.id.Some? ==> IsValue(m.id.value))
  }

  function Received(messages: seq<Message>): seq<Frame> {
    if messages == [] then []
    else
      (match messages[0]
       case Heartbeat => []
       case Message(id, event, data) => [Frame(data, event, id, None)])
      + Received(messages[1..])
  }

  lemma {:induction false} JoinedLinesSplit(lines: seq<Text>)
    requires lines != [] && forall k | 0 <= k < |lines| :: lines[k] != [] && NEWLINE !in lines[k]
    ensures Lines(JoinWith(lines, [NEWLINE])) == lines && NoBoundary(JoinWith(lines, [NEWLINE]))
    ensures JoinWith(lines, [NEWLINE]) != [] && JoinWith(lines, [NEWLINE])[0] != NEWLINE
    decreases |lines|
  {
    hide Lines;
    OneLine(lines[0]);
    assert lines == [lines[0]] + lines[1..];
    if |lines| > 1 {
      JoinedLinesSplit(lines[1..]);
      assert JoinWith(lines, [NEWLINE]) == lines[0] + [NEWLINE] + JoinWith(lines[1..], [NEWLINE]);
      LinesJoin(lines[0], JoinWith(lines[1..], [NEWLINE]));
      NoBoundaryAcross(lines[0], JoinWith(lines[1..], [NEWLINE]));
    }
  }

  lemma NoBoundaryAcross(line: Text, rest: Text)
    requires line != [] && NEWLINE !in line && NoBoundary(rest) && rest != [] && rest[0] != NEWLINE
    ensures NoBoundary(line + [NEWLINE] + rest)
  {
    var t := line + [NEWLINE] + rest;
    forall i: nat
      ensures !IsBoundary(t, i)
    {
      assert i < |line| ==> t[i] == line[i];
      if i > |line| {
        assert IsBoundary(t, i) <==> IsBoundary(rest, i - |line| - 1);
      }
    }
  }

  lemma LineValue(field: Text, other: Text, value: Text)
    requires IsFieldName(field) && IsFieldName(other) && IsValue(value)
    ensures ValueIn(FieldLine(field, value), other) == if field == other then Some(value) else None
    ensures FieldLine(field, value) != [] && (NEWLINE !in field ==> NEWLINE !in FieldLine(field, value))
  {
    hide ColonAt;
    var line := FieldLine(field, value);
    assert line[..|field|] == field;
    ColonIsFirst(line, |field|);
    FieldIs(line, other);
    if field == other {
      assert line[|field| + 1..] == [SPACE] + value;
      TrimOne(value);
    }
  }

  lemma TrimOne(value: Text)
    requires IsValue(value)
    ensures TrimStart([SPACE] + value) == value
  {
    assert ([SPACE] + value)[1..] == value;
  }

  lemma MessageIsRead(m: Message, number: ReadNumber)
    requires IsSendable(m)
    ensures Frames(MessageText(m), number) == Received([m])
  {
    hide Ascii, Frames, FrameOf, NoBoundary, JoinWith, FieldLine, IsValue;
    var lines := MessageLines(m);
    LinesAreSendable(m);
    JoinedLinesSplit(lines);
    BlockIsRead(JoinWith(lines, [NEWLINE]), number);
    MessageFrame(m, number);
    assert [m][1..] == [];
    assert Received([]) == [];
  }

  lemma LinesAreSendable(m: Message)
    requires IsSendable(m)
    ensures MessageLines(m) != [] && forall k | 0 <= k < |MessageLines(m)| :: MessageLines(m)[k] != [] && NEWLINE !in MessageLines(m)[k]
  {
    hide FieldLine, IsValue;
    FieldNames();
    NoNewlines();
    if m.Message? {
      LineValue(EVENT, EVENT, m.event);
      LineValue(DATA, DATA, m.data);
      if m.id.Some? {
        LineValue(ID, ID, m.id.value);
      }
    }
  }

  lemma NoNewlines()
    ensures NEWLINE !in ID && NEWLINE !in EVENT && NEWLINE !in DATA && NEWLINE !in HEARTBEAT && HEARTBEAT != []
  {
  }

  lemma MessageFrame(m: Message, number: ReadNumber)
    requires IsSendable(m)
    ensures m.Message? ==> FrameOf(MessageLines(m), number) == Frame(m.data, m.event, m.id, None)
    ensures m.Heartbeat? ==> FrameOf(MessageLines(m), number) == FRESH
  {
    hide Ascii, Values, Joined, IsValue, MessageLines;
    FieldNames();
    NoValue();
    if m.Heartbeat? {
      HeartbeatSaysNothing();
    } else {
      MessageValues(m, DATA);
      MessageValues(m, EVENT);
      MessageValues(m, ID);
      MessageValues(m, RETRY);
      OneValue(m.data);
      assert Values(MessageLines(m), DATA) == [m.data] && Values(MessageLines(m), EVENT) == [m.event];
      assert Values(MessageLines(m), ID) == (if m.id.Some? then [m.id.value] else []) && Values(MessageLines(m), RETRY) == [];
    }
  }

  lemma NoValue()
    ensures Joined([]) == []
  {
  }

  lemma OneValue(value: Text)
    ensures Joined([value]) == value
  {
    assert [value][..0] == [];
  }

  lemma HeartbeatSaysNothing()
    ensures forall field | field in {DATA, EVENT, ID, RETRY} :: Values(MessageLines(Heartbeat), field) == []
  {
    forall field | field in {DATA, EVENT, ID, RETRY}
      ensures Values(MessageLines(Heartbeat), field) == []
    {
      FieldNames();
      assert HEARTBEAT[0] == COLON;
      assert [HEARTBEAT][..0] == [];
    }
  }

  lemma MessageValues(m: Message, field: Text)
    requires m.Message? && IsSendable(m) && IsFieldName(field)
    ensures Values(MessageLines(m), field)
         == (if field == ID && m.id.Some? then [m.id.value] else [])
            + (if field == EVENT then [m.event] else []) + (if field == DATA then [m.data] else [])
  {
    hide Ascii, ValueIn, FieldLine, IsValue;
    FieldNames();
    LineValue(EVENT, field, m.event);
    LineValue(DATA, field, m.data);
    var rest := [FieldLine(EVENT, m.event), FieldLine(DATA, m.data)];
    if m.id.Some? {
      LineValue(ID, field, m.id.value);
      ThreeLines(FieldLine(ID, m.id.value), FieldLine(EVENT, m.event), FieldLine(DATA, m.data), field);
      assert MessageLines(m) == [FieldLine(ID, m.id.value), FieldLine(EVENT, m.event), FieldLine(DATA, m.data)];
    } else {
      assert MessageLines(m) == rest;
      TwoLines(FieldLine(EVENT, m.event), FieldLine(DATA, m.data), field);
    }
  }

  function ValueList(line: Text, field: Text): seq<Text> {
    if ValueIn(line, field).Some? then [ValueIn(line, field).value] else []
  }

  lemma TwoLines(a: Text, b: Text, field: Text)
    ensures Values([a, b], field) == ValueList(a, field) + ValueList(b, field)
  {
    hide ValueIn;
    assert [a, b][..1] == [a] && [a][..0] == [];
    assert Values([a], field) == ValueList(a, field);
  }

  lemma ThreeLines(a: Text, b: Text, c: Text, field: Text)
    ensures Values([a, b, c], field) == ValueList(a, field) + ValueList(b, field) + ValueList(c, field)
  {
    hide ValueIn;
    assert [a, b, c][..2] == [a, b];
    TwoLines(a, b, field);
  }

  lemma {:induction false} StreamIsWhole(messages: seq<Message>)
    ensures Whole(StreamText(messages))
  {
    hide MessageText;
    if messages != [] {
      StreamIsWhole(messages[1..]);
      WholeJoin(messages[0], StreamText(messages[1..]));
    }
  }

  lemma WholeJoin(m: Message, rest: Text)
    requires Whole(rest)
    ensures Whole(MessageText(m) + rest) && Whole(MessageText(m))
  {
    hide JoinWith;
  }

  /** What the server writes is what the parser reads: every message is one frame with its own id, event and data, and a heartbeat is none. */
  lemma {:induction false} StreamIsReceived(messages: seq<Message>, number: ReadNumber)
    requires forall m | m in messages :: IsSendable(m)
    ensures Frames(StreamText(messages), number) == Received(messages)
    decreases |messages|
  {
    hide Frames, MessageText, IsSendable, Whole, Received, NoBoundary;
    if messages == [] {
      NothingReceived(number);
    } else {
      var first, rest := messages[0], messages[1..];
      MessageIsRead(first, number);
      StreamIsReceived(rest, number);
      StreamIsWhole(rest);
      WholeJoin(first, StreamText(rest));
      TwoParts(MessageText(first), StreamText(rest), number);
      ReceivedCons(first, rest);
      assert messages == [first] + rest;
    }
  }

  lemma NothingReceived(number: ReadNumber)
    ensures Frames([], number) == [] == Received([])
  {
    hide Frames;
    NoFrames([], number);
  }

  lemma ReceivedCons(m: Message, rest: seq<Message>)
    ensures Received([m] + rest) == Received([m]) + Received(rest)
  {
    assert ([m] + rest)[1..] == rest;
    assert [m][1..] == [] && Received([]) == [];
  }

  lemma TwoParts(a: Text, b: Text, number: ReadNumber)
    requires Whole(a) && Whole(b)
    ensures Frames(a + b, number) == Frames(a, number) + Frames(b, number)
  {
    hide Frames;
    if b == [] {
      NoFrames([], number);
      assert a + b == a;
    } else {
      var x := b[..|b| - 2];
      assert b == x + [NEWLINE, NEWLINE];
      FramesAppend(a, x, number);
    }
  }
}
