/**
 The event stream parser: blocks cut at "\n\n", a carry-over buffer, and the line-by-line
 dispatch they amount to however the stream is cut into reads.
 */
module EventFrames {
  import opened CodeUnits

  const COLON: CodeUnit := 0x3A

  const DATA := Ascii("data")
  const EVENT := Ascii("event")
  const ID := Ascii("id")
  const RETRY := Ascii("retry")

  datatype Frame = Frame(data: Text, event: Text, id: Option<Text>, retryMs: Option<nat>)

  /** `Number(value)` when it is a safe integer that is not negative. */
  type ReadNumber = Text -> Option<nat>

  const FRESH := Frame([], Ascii("message"), None, None)

  // ----- cutting text

  predicate IsBoundary(t: Text, i: nat) {
    i + 1 < |t| && t[i] == NEWLINE && t[i + 1] == NEWLINE
  }

  ghost predicate NoBoundary(t: Text) {
    forall i: nat :: !IsBoundary(t, i)
  }

  /** The first "\n\n" from `i` on, or the length. */
  function BlockEnd(t: Text, i: nat): (e: nat)
    requires i <= |t|
    ensures i <= e <= |t| && (e < |t| ==> IsBoundary(t, e))
    ensures forall k: nat | i <= k < e :: !IsBoundary(t, k)
    decreases |t| - i
  {
    if i == |t| || IsBoundary(t, i) then i else BlockEnd(t, i + 1)
  }

  /** `text.split('\n\n')`: left to right, without overlap. */
  function Blocks(t: Text): (blocks: seq<Text>)
    ensures blocks != []
  {
    var e := BlockEnd(t, 0);
    if e == |t| then [t] else [t[..e]] + Blocks(t[e + 2..])
  }

  /** `text.lastIndexOf('\n\n')`, searched from `i` down. */
  function LastBoundary(t: Text, i: nat): (b: Option<nat>)
    ensures b.Some? ==> b.value < i && IsBoundary(t, b.value)
    ensures b.Some? ==> forall k: nat | b.value < k < i :: !IsBoundary(t, k)
    ensures b.None? ==> forall k: nat | k < i :: !IsBoundary(t, k)
  {
    if i == 0 then None
    else if IsBoundary(t, i - 1) then Some(i - 1)
    else LastBoundary(t, i - 1)
  }

  // ----- one block

  function ColonAt(line: Text): (i: nat)
    ensures i <= |line|
  {
    if line == [] || line[0] == COLON then 0 else 1 + ColonAt(line[1..])
  }

  /** What one line does to the frame being read. Comments and lines without a field are ignored. */
  function ReadLine(frame: Frame, line: Text, number: ReadNumber): Frame {
    var separator := ColonAt(line);
    if separator == 0 || separator == |line| then frame
    else
      var field := line[..separator];
      var value := TrimStart(line[separator + 1..]);
      if field == DATA then frame.(data := if frame.data != [] then frame.data + [NEWLINE] + value else value)
      else if field == EVENT then frame.(event := value)
      else if field == ID then frame.(id := Some(value))
      else if field == RETRY then frame.(retryMs := number(value))
      else frame
  }

  function ReadLines(frame: Frame, lines: seq<Text>, number: ReadNumber): Frame
    decreases lines
  {
    if lines == [] then frame else ReadLines(ReadLine(frame, lines[0], number), lines[1..], number)
  }

  /** Frames without data and without a retry are dropped. */
  function Emit(frame: Frame): seq<Frame> {
    if frame.data != [] || frame.retryMs.Some? then [frame] else []
  }

  function BlockFrames(blocks: seq<Text>, number: ReadNumber): seq<Frame> {
    if blocks == [] then []
    else Emit(ReadLines(FRESH, Lines(blocks[0]), number)) + BlockFrames(blocks[1..], number)
  }

  /** `parseEventFrames`: only frames in front of the last boundary count. */
  function Frames(chunk: Text, number: ReadNumber): seq<Frame> {
    match LastBoundary(chunk, |chunk|)
    case None => []
    case Some(b) => BlockFrames(Blocks(chunk[..b]), number)
  }

  lemma {:induction false} ReadLinesSnoc(frame: Frame, lines: seq<Text>, line: Text, number: ReadNumber)
    ensures ReadLines(frame, lines + [line], number) == ReadLine(ReadLines(frame, lines, number), line, number)
    decreases lines
  {
    hide ReadLine;
    if lines == [] {
      assert ([] + [line])[1..] == [] && ([] + [line])[0] == line;
    } else {
      assert (lines + [line])[1..] == lines[1..] + [line];
      ReadLinesSnoc(ReadLine(frame, lines[0], number), lines[1..], line, number);
    }
  }

  method ParseEventFrames(chunk: Text, number: ReadNumber) returns (frames: seq<Frame>)
    ensures frames == Frames(chunk, number)
  {
    hide ReadLine, Emit, Lines, Blocks, Ascii;
    var boundary := LastBoundary(chunk, |chunk|);
    frames := [];
    if boundary.None? {
      return;
    }
    var blocks := Blocks(chunk[..boundary.value]);
    for n := 0 to |blocks|
      invariant frames + BlockFrames(blocks[n..], number) == BlockFrames(blocks, number)
    {
      var lines := Lines(blocks[n]);
      var frame := FRESH;
      for k := 0 to |lines|
        invariant frame == ReadLines(FRESH, lines[..k], number)
      {
        ReadLinesSnoc(FRESH, lines[..k], lines[k], number);
        assert lines[..k + 1] == lines[..k] + [lines[k]];
        frame := ReadLine(frame, lines[k], number);
      }
      assert lines[..|lines|] == lines;
      assert blocks[n..][1..] == blocks[n + 1..] && blocks[n..][0] == blocks[n];
      frames := frames + Emit(frame);
    }
  }

  // ----- the reference: line by line, a blank line dispatches

  function Dispatch(lines: seq<Text>, frame: Frame, number: ReadNumber): seq<Frame>
    decreases lines
  {
    if lines == [] then Emit(frame)
    else if lines[0] == [] then Emit(frame) + Dispatch(lines[1..], FRESH, number)
    else Dispatch(lines[1..], ReadLine(frame, lines[0], number), number)
  }

  /** The frames of a text whose last line is taken as ended. */
  function DispatchText(t: Text, number: ReadNumber): seq<Frame> {
    Dispatch(Lines(t), FRESH, number)
  }

  lemma {:induction false} LinesJoin(x: Text, y: Text)
    ensures Lines(x + [NEWLINE] + y) == Lines(x) + Lines(y)
    decreases |x|
  {
    var t := x + [NEWLINE] + y;
    var i := LineEnd(x);
    LineEndAt(t, i);
    assert t[..i] == x[..i];
    if i == |x| {
      assert t[i + 1..] == y && x[..i] == x;
    } else {
      assert t[i + 1..] == x[i + 1..] + [NEWLINE] + y;
      LinesJoin(x[i + 1..], y);
    }
  }

  lemma LineEndAt(t: Text, i: nat)
    requires i < |t| && t[i] == NEWLINE && forall k | 0 <= k < i :: t[k] != NEWLINE
    ensures LineEnd(t) == i
  {
    hide LineEnd;
  }

  /** Lines without a blank one among them only extend the frame being read. */
  lemma {:induction false} DispatchReads(lines: seq<Text>, rest: seq<Text>, frame: Frame, number: ReadNumber)
    requires forall k | 0 <= k < |lines| :: lines[k] != []
    ensures Dispatch(lines + rest, frame, number) == Dispatch(rest, ReadLines(frame, lines, number), number)
    decreases lines
  {
    hide ReadLine, Emit, Ascii;
    if lines == [] {
      assert lines + rest == rest;
    } else {
      assert (lines + rest)[1..] == lines[1..] + rest;
      DispatchReads(lines[1..], rest, ReadLine(frame, lines[0], number), number);
    }
  }

  /** A blank line separates: what stands in front of it and behind it is read independently. */
  lemma {:induction false} DispatchSeparates(lines: seq<Text>, rest: seq<Text>, frame: Frame, number: ReadNumber)
    ensures Dispatch(lines + [[]] + rest, frame, number) == Dispatch(lines, frame, number) + Dispatch(rest, FRESH, number)
    decreases lines
  {
    hide ReadLine, Emit, Ascii;
    if lines == [] {
      assert (lines + [[]] + rest)[1..] == rest;
    } else {
      assert (lines + [[]] + rest)[1..] == lines[1..] + [[]] + rest;
      if lines[0] == [] {
        DispatchSeparates(lines[1..], rest, FRESH, number);
      } else {
        DispatchSeparates(lines[1..], rest, ReadLine(frame, lines[0], number), number);
      }
    }
  }

  lemma TextSeparates(x: Text, y: Text, number: ReadNumber)
    ensures DispatchText(x + [NEWLINE, NEWLINE] + y, number) == DispatchText(x, number) + DispatchText(y, number)
  {
    hide Dispatch, Lines;
    var t := x + [NEWLINE, NEWLINE] + y;
    assert t == x + [NEWLINE] + ([] + [NEWLINE] + y);
    LinesJoin(x, [] + [NEWLINE] + y);
    LinesJoin([], y);
    EmptyLines();
    assert Lines(t) == Lines(x) + [[]] + Lines(y);
    DispatchSeparates(Lines(x), Lines(y), FRESH, number);
  }

  lemma EmptyLines()
    ensures Lines([]) == [[]]
  {
  }

  lemma FreshIsDropped(number: ReadNumber)
    ensures Emit(FRESH) == []
    ensures DispatchText([], number) == []
  {
    EmptyLines();
  }

  /** A trailing newline changes no frame. */
  lemma TrailingNewline(x: Text, number: ReadNumber)
    ensures DispatchText(x + [NEWLINE], number) == DispatchText(x, number)
  {
    hide Lines;
    assert x + [NEWLINE] == x + [NEWLINE] + [];
    LinesJoin(x, []);
    EmptyLines();
    assert Lines(x) + [[]] + [] == Lines(x) + [[]];
    DispatchSeparates(Lines(x), [], FRESH, number);
    FreshIsDropped(number);
  }

  // ----- a block is what stands between blank lines

  lemma LinesStart(t: Text)
    ensures Lines(t)[0] == [] <==> t == [] || t[0] == NEWLINE
    ensures |Lines(t)| > 1 ==> exists k | 0 <= k < |t| :: t[k] == NEWLINE
  {
  }

  /** Without a boundary only the first and the last line can be blank. */
  lemma {:induction false} InnerLinesAreNotBlank(t: Text)
    requires NoBoundary(t)
    ensures forall k | 0 < k < |Lines(t)| - 1 :: Lines(t)[k] != []
    decreases |t|
  {
    var i := LineEnd(t);
    if i < |t| {
      var tail := t[i + 1..];
      forall k: nat
        ensures !IsBoundary(tail, k)
      {
        assert IsBoundary(tail, k) == IsBoundary(t, i + 1 + k);
      }
      InnerLinesAreNotBlank(tail);
      LinesStart(tail);
      assert !IsBoundary(t, i);
    }
  }

  lemma ReadBlank(frame: Frame, number: ReadNumber)
    ensures ReadLine(frame, [], number) == frame
  {
  }

  /** One block, read as a whole, gives what line-by-line dispatch gives. */
  lemma {:induction false} BlockIsDispatch(block: Text, number: ReadNumber)
    requires NoBoundary(block)
    ensures Emit(ReadLines(FRESH, Lines(block), number)) == DispatchText(block, number)
  {
    hide ReadLine, Lines, NoBoundary, Emit, Ascii;
    var lines := Lines(block);
    InnerLinesAreNotBlank(block);
    FreshIsDropped(number);
    ReadBlank(FRESH, number);
    var body := if lines[0] == [] then lines[1..] else lines;
    assert ReadLines(FRESH, body, number) == ReadLines(FRESH, lines, number);
    assert Dispatch(body, FRESH, number) == Dispatch(lines, FRESH, number);
    if body != [] && body[|body| - 1] == [] {
      var front := body[..|body| - 1];
      assert body == front + [[]];
      ReadLinesSnoc(FRESH, front, [], number);
      ReadBlank(ReadLines(FRESH, front, number), number);
      DispatchReads(front, [[]], FRESH, number);
      DispatchBlank(ReadLines(FRESH, front, number), number);
    } else {
      assert body + [] == body;
      DispatchReads(body, [], FRESH, number);
    }
  }

  lemma DispatchBlank(frame: Frame, number: ReadNumber)
    ensures Dispatch([[]], frame, number) == Emit(frame)
  {
    FreshIsDropped(number);
  }

  /** Splitting left to right at "\n\n" gives the frames of the line-by-line reading, odd runs of newlines included. */
  lemma {:induction false} BlocksAreDispatch(t: Text, number: ReadNumber)
    ensures BlockFrames(Blocks(t), number) == DispatchText(t, number)
    decreases |t|
  {
    hide Lines, Dispatch, DispatchText, ReadLines, Emit, Ascii;
    var e := BlockEnd(t, 0);
    forall k: nat
      ensures !IsBoundary(t[..e], k)
    {
      assert IsBoundary(t[..e], k) ==> IsBoundary(t, k);
    }
    BlockIsDispatch(t[..e], number);
    if e < |t| {
      BlocksAreDispatch(t[e + 2..], number);
      TextSeparates(t[..e], t[e + 2..], number);
      assert t == t[..e] + [NEWLINE, NEWLINE] + t[e + 2..];
    } else {
      assert t[..e] == t;
    }
  }

  // ----- the buffer loop

  /** The text consumed so far: whole frames only. */
  ghost predicate Whole(t: Text) {
    t == [] || (|t| >= 2 && IsBoundary(t, |t| - 2))
  }

  lemma LastBoundaryAt(t: Text, b: nat)
    requires IsBoundary(t, b) && forall k: nat | b < k :: !IsBoundary(t, k)
    ensures LastBoundary(t, |t|) == Some(b)
  {
    hide LastBoundary;
    assert b < |t|;
  }

  lemma NoLastBoundary(t: Text)
    requires NoBoundary(t)
    ensures LastBoundary(t, |t|) == None
  {
    hide LastBoundary;
  }

  lemma WholeFrames(x: Text, number: ReadNumber)
    ensures Frames(x + [NEWLINE, NEWLINE], number) == DispatchText(x, number)
  {
    hide LastBoundary, Blocks, BlockFrames, DispatchText;
    var t := x + [NEWLINE, NEWLINE];
    LastBoundaryAt(t, |x|);
    assert t[..|x|] == x;
    BlocksAreDispatch(x, number);
  }

  /** Whole frames read in two goes are the frames read in one. */
  lemma FramesAppend(p: Text, x: Text, number: ReadNumber)
    requires Whole(p)
    ensures Frames(p + (x + [NEWLINE, NEWLINE]), number) == Frames(p, number) + Frames(x + [NEWLINE, NEWLINE], number)
  {
    hide Frames, DispatchText;
    WholeFrames(x, number);
    if p == [] {
      assert p + (x + [NEWLINE, NEWLINE]) == x + [NEWLINE, NEWLINE];
      NoFrames([], number);
    } else {
      var q := p[..|p| - 2];
      assert p == q + [NEWLINE, NEWLINE];
      WholeFrames(q, number);
      assert p + (x + [NEWLINE, NEWLINE]) == (q + [NEWLINE, NEWLINE] + x) + [NEWLINE, NEWLINE];
      WholeFrames(q + [NEWLINE, NEWLINE] + x, number);
      TextSeparates(q, x, number);
    }
  }

  lemma NoFrames(t: Text, number: ReadNumber)
    requires NoBoundary(t)
    ensures Frames(t, number) == []
  {
    NoLastBoundary(t);
  }

  /** An unfinished frame at the end adds nothing, even when its first newline moves the last boundary. */
  lemma PartialFrame(p: Text, rest: Text, number: ReadNumber)
    requires Whole(p) && NoBoundary(rest)
    ensures Frames(p + rest, number) == Frames(p, number)
  {
    hide LastBoundary, Blocks, BlockFrames, DispatchText;
    var t := p + rest;
    forall k: nat | |p| <= k
      ensures !IsBoundary(t, k)
    {
      assert IsBoundary(t, k) ==> IsBoundary(rest, k - |p|);
    }
    if p == [] {
      assert t == rest;
      NoFrames(rest, number);
      NoFrames([], number);
    } else {
      var q := p[..|p| - 2];
      assert p == q + [NEWLINE, NEWLINE];
      WholeFrames(q, number);
      if IsBoundary(t, |p| - 1) {
        LastBoundaryAt(t, |p| - 1);
        assert t[..|p| - 1] == q + [NEWLINE];
        BlocksAreDispatch(q + [NEWLINE], number);
        TrailingNewline(q, number);
      } else {
        LastBoundaryAt(t, |p| - 2);
        assert t[..|p| - 2] == q;
        BlocksAreDispatch(q, number);
      }
    }
  }

  function Concat(chunks: seq<Text>): Text {
    if chunks == [] then [] else Concat(chunks[..|chunks| - 1]) + chunks[|chunks| - 1]
  }

  lemma NoBoundaryBehind(t: Text, b: nat)
    requires IsBoundary(t, b) && forall k: nat | b < k < |t| :: !IsBoundary(t, k)
    ensures NoBoundary(t[b + 2..])
  {
    var rest := t[b + 2..];
    forall k: nat
      ensures !IsBoundary(rest, k)
    {
      assert IsBoundary(rest, k) == IsBoundary(t, b + 2 + k);
    }
  }

  /** One turn of the loop that finds a boundary: whole frames move from the buffer to the consumed text. */
  lemma BufferTurn(consumed: Text, buffer: Text, b: nat, number: ReadNumber)
    requires Whole(consumed) && LastBoundary(buffer, |buffer|) == Some(b)
    ensures b + 2 <= |buffer|
    ensures var chunk, rest := buffer[..b + 2], buffer[b + 2..];
            && Whole(consumed + chunk) && NoBoundary(rest)
            && consumed + chunk + rest == consumed + buffer
            && Frames(consumed + chunk, number) == Frames(consumed, number) + Frames(chunk, number)
  {
    hide LastBoundary, Frames;
    var chunk := buffer[..b + 2];
    NoBoundaryBehind(buffer, b);
    assert chunk == chunk[..b] + [NEWLINE, NEWLINE];
    FramesAppend(consumed, chunk[..b], number);
    assert buffer == chunk + buffer[b + 2..];
  }

  /** Whatever arrives later, the frames that are there stay first. */
  lemma FramesGrow(consumed: Text, buffer: Text, more: Text, number: ReadNumber)
    requires Whole(consumed) && NoBoundary(buffer)
    ensures Frames(consumed, number) <= Frames(consumed + buffer + more, number)
  {
    hide LastBoundary, Frames, Whole;
    var rest := buffer + more;
    assert consumed + buffer + more == consumed + rest;
    var boundary := LastBoundary(rest, |rest|);
    if boundary.Some? {
      BufferTurn(consumed, rest, boundary.value, number);
      PartialFrame(consumed + rest[..boundary.value + 2], rest[boundary.value + 2..], number);
    } else {
      NoLaterBoundary(rest);
      PartialFrame(consumed, rest, number);
    }
  }

  lemma NoLaterBoundary(t: Text)
    requires LastBoundary(t, |t|).None?
    ensures NoBoundary(t)
  {
    hide LastBoundary;
  }

  /**
   The buffer loop of `connect`: however the stream is cut into reads, the frames handed on
   are those of the whole stream, in order, and only an unfinished frame stays behind.
   */
  method ReadStream(pieces: seq<Text>, number: ReadNumber) returns (handled: seq<Frame>, buffer: Text)
    ensures handled == Frames(Concat(pieces), number)
    ensures var n := |Concat(pieces)| - |buffer|;
            n >= 0 && Concat(pieces)[n..] == buffer && NoBoundary(buffer) && Whole(Concat(pieces)[..n])
  {
    hide Frames, LastBoundary, Whole;
    handled, buffer := [], [];
    ghost var consumed: Text := [];
    NoFrames([], number);
    assert Whole([]) by { EmptyIsWhole(); }
    for n := 0 to |pieces|
      invariant Whole(consumed) && NoBoundary(buffer)
      invariant consumed + buffer == Concat(pieces[..n])
      invariant handled == Frames(consumed, number)
    {
      assert pieces[..n + 1][..n] == pieces[..n];
      buffer := buffer + pieces[n];
      assert consumed + buffer == Concat(pieces[..n + 1]);
      var boundary := LastBoundary(buffer, |buffer|);
      if boundary.Some? {
        BufferTurn(consumed, buffer, boundary.value, number);
        var chunk := buffer[..boundary.value + 2];
        var frames := ParseEventFrames(chunk, number);
        handled := handled + frames;
        consumed := consumed + chunk;
        buffer := buffer[boundary.value + 2..];
      }
    }
    assert pieces[..|pieces|] == pieces;
    PartialFrame(consumed, buffer, number);
    assert Concat(pieces)[..|consumed|] == consumed && Concat(pieces)[|consumed|..] == buffer;
  }

  lemma EmptyIsWhole()
    ensures Whole([])
  {
  }
}
