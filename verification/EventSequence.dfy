/** Sequence numbers, gaps and refreshes of the workspace event stream. */
module EventSequence {
  import opened CodeUnits

  /** The query groups a refresh names. */
  datatype Refresh = WorkspaceScope | AccountAll | DirectoryAll | InboxAll | GroupsOf(eventType: Text)

  /** A frame as `handleFrame` tells frames apart. `token` is its `id:`, the signed replay cursor. */
  datatype Frame =
    | Event(sequence: int, eventType: Text, token: Option<Text>)
    | Unparseable(token: Option<Text>)
    | Withheld(sequence: int, audienceChanged: bool, token: Option<Text>)
    | Resync(token: Option<Text>)
    | Ignored
    | Unavailable

  datatype State = State(applied: int, resumeCursor: Text)

  function Stored(s: State, token: Option<Text>): State {
    if token.Some? && token.value != [] then s.(resumeCursor := token.value) else s
  }

  const RESYNC := [WorkspaceScope, DirectoryAll, InboxAll]

  /** `applyEvent`: the new sequence and the refreshes it queues, in order. */
  function Applied(s: State, sequence: int, withheld: bool, audienceChanged: bool, eventType: Text): (State, seq<Refresh>) {
    if sequence <= s.applied then (s, [])
    else
      var cleared := if audienceChanged then [WorkspaceScope, AccountAll] else [];
      if sequence > s.applied + 1 && s.applied > 0 then (s.(applied := sequence), cleared + RESYNC)
      else (s.(applied := sequence), cleared + if withheld then [] else [GroupsOf(eventType)])
  }

  const WITHHELD: Text := Ascii("withheld")

  /** Withheld frames count only with a positive sequence; an event's token is stored before it is parsed. */
  function Handled(s: State, f: Frame): (State, seq<Refresh>) {
    match f
    case Event(sequence, eventType, token) => Applied(Stored(s, token), sequence, false, false, eventType)
    case Unparseable(token) => (Stored(s, token), [])
    case Withheld(sequence, audienceChanged, token) =>
      if sequence <= 0 then (s, [])
      else
        var (next, queued) := Applied(s, sequence, true, audienceChanged, WITHHELD);
        (Stored(next, token), queued)
    case Resync(token) => (Stored(s, token), RESYNC)
    case Ignored => (s, [])
    case Unavailable => (s, [])
  }

  function Next(s: State, f: Frame): State {
    Handled(s, f).0
  }

  function Queued(s: State, f: Frame): seq<Refresh> {
    Handled(s, f).1
  }

  function Run(s: State, frames: seq<Frame>): State {
    if frames == [] then s else Next(Run(s, frames[..|frames| - 1]), frames[|frames| - 1])
  }

  /** All that the frames queue, in order. */
  function AllQueued(s: State, frames: seq<Frame>): seq<Refresh> {
    if frames == [] then []
    else
      var front := frames[..|frames| - 1];
      AllQueued(s, front) + Queued(Run(s, front), frames[|frames| - 1])
  }

  /** The frames before the first one that drops the stream. */
  function Accepted(frames: seq<Frame>): seq<Frame> {
    if frames == [] || frames[0].Unavailable? then [] else [frames[0]] + Accepted(frames[1..])
  }

  function Elements(list: seq<Refresh>): set<Refresh> {
    set r | r in list
  }

  class WorkspaceStream {
    var appliedSequence: int
    var resumeCursor: Text
    var pendingRefresh: set<Refresh>
    var invalidated: seq<set<Refresh>>  // what each flush invalidated

    function Current(): State
      reads this
    {
      State(appliedSequence, resumeCursor)
    }

    constructor (applied: int, cursor: Text)
      ensures Current() == State(applied, cursor) && pendingRefresh == {} && invalidated == []
    {
      appliedSequence, resumeCursor, pendingRefresh, invalidated := applied, cursor, {}, [];
    }

    method PersistCursorToken(token: Option<Text>)
      modifies this`resumeCursor
      ensures Current() == Stored(old(Current()), token)
    {
      if token.Some? && token.value != [] {
        resumeCursor := token.value;
      }
    }

    method Queue(keys: seq<Refresh>)
      modifies this`pendingRefresh
      ensures pendingRefresh == old(pendingRefresh) + Elements(keys)
    {
      for i := 0 to |keys|
        invariant pendingRefresh == old(pendingRefresh) + Elements(keys[..i])
      {
        assert keys[..i + 1] == keys[..i] + [keys[i]];
        pendingRefresh := pendingRefresh + {keys[i]};
      }
      assert keys[..|keys|] == keys;
    }

    method ApplyEvent(sequence: int, withheld: bool, audienceChanged: bool, eventType: Text)
      modifies this`appliedSequence, this`pendingRefresh
      ensures var (next, queued) := Applied(old(Current()), sequence, withheld, audienceChanged, eventType);
              Current() == next && pendingRefresh == old(pendingRefresh) + Elements(queued)
    {
      if sequence <= appliedSequence {
        return;
      }
      if audienceChanged {
        Queue([WorkspaceScope, AccountAll]);
      }
      if sequence > appliedSequence + 1 && appliedSequence > 0 {
        appliedSequence := sequence;
        Queue(RESYNC);
        return;
      }
      appliedSequence := sequence;
      if !withheld {
        Queue([GroupsOf(eventType)]);
      }
    }

    method HandleFrame(frame: Frame) returns (dropped: bool)
      modifies this
      ensures dropped <==> frame.Unavailable?
      ensures Current() == Next(old(Current()), frame)
      ensures pendingRefresh == old(pendingRefresh) + Elements(Queued(old(Current()), frame))
      ensures invalidated == old(invalidated)
    {
      hide Ascii;
      dropped := false;
      match frame
      case Event(sequence, eventType, token) =>
        PersistCursorToken(token);
        ApplyEvent(sequence, false, false, eventType);
      case Unparseable(token) =>
        PersistCursorToken(token);
      case Withheld(sequence, audienceChanged, token) =>
        if sequence > 0 {
          ApplyEvent(sequence, true, audienceChanged, WITHHELD);
          PersistCursorToken(token);
        }
      case Resync(token) =>
        PersistCursorToken(token);
        Queue(RESYNC);
      case Ignored =>
      case Unavailable =>
        dropped := true;
    }

    method FlushRefresh()
      modifies this`pendingRefresh, this`invalidated
      ensures pendingRefresh == {}
      ensures invalidated == if old(pendingRefresh) == {} then old(invalidated) else old(invalidated) + [old(pendingRefresh)]
    {
      if pendingRefresh == {} {
        return;
      }
      invalidated := invalidated + [pendingRefresh];
      pendingRefresh := {};
    }

    /** The frames of one read: everything queued is flushed, also when a frame drops the stream. */
    method HandleRead(frames: seq<Frame>) returns (dropped: bool)
      requires pendingRefresh == {}
      modifies this
      ensures Current() == Run(old(Current()), Accepted(frames)) && pendingRefresh == {}
      ensures var queued := Elements(AllQueued(old(Current()), Accepted(frames)));
              invalidated == if queued == {} then old(invalidated) else old(invalidated) + [queued]
      ensures dropped <==> exists f :: f in frames && f.Unavailable?
    {
      hide Next, Queued, Elements, Run, AllQueued, Accepted;
      dropped := false;
      ghost var start := Current();
      var i := 0;
      AcceptedStart(start, frames);
      ElementsJoin([], []);
      while i < |frames| && !dropped
        invariant i <= |frames|
        invariant !dropped ==> Accepted(frames) == frames[..i] + Accepted(frames[i..])
        invariant !dropped ==> Current() == Run(start, frames[..i]) && pendingRefresh == Elements(AllQueued(start, frames[..i]))
        invariant !dropped ==> forall k | 0 <= k < i :: !frames[k].Unavailable?
        invariant dropped ==> Current() == Run(start, Accepted(frames)) && pendingRefresh == Elements(AllQueued(start, Accepted(frames)))
        invariant dropped ==> exists f :: f in frames && f.Unavailable?
        invariant invalidated == old(invalidated)
        decreases |frames| - i
      {
        AcceptedStep(frames, i);
        RunStep(start, frames, i);
        UnavailableChanges(Current());
        ElementsJoin(AllQueued(start, frames[..i]), Queued(Current(), frames[i]));
        dropped := HandleFrame(frames[i]);
        i := i + 1;
      }
      AcceptedEnd(frames);
      FlushRefresh();
    }
  }

  lemma AcceptedStart(s: State, frames: seq<Frame>)
    ensures Accepted(frames) == frames[..0] + Accepted(frames[0..])
    ensures Run(s, frames[..0]) == s && AllQueued(s, frames[..0]) == []
  {
    assert frames[0..] == frames && frames[..0] == [];
  }

  lemma AcceptedStep(frames: seq<Frame>, i: nat)
    requires i < |frames| && Accepted(frames) == frames[..i] + Accepted(frames[i..])
    ensures frames[i].Unavailable? ==> Accepted(frames) == frames[..i]
    ensures !frames[i].Unavailable? ==> Accepted(frames) == frames[..i + 1] + Accepted(frames[i + 1..])
  {
    hide Accepted;
    PrefixSnoc(frames, i);
    AcceptedFirst(frames[i..]);
    if frames[i].Unavailable? {
      assert frames[..i] + [] == frames[..i];
    } else {
      Grouped(frames[..i], [frames[i]], Accepted(frames[i + 1..]));
    }
  }

  lemma AcceptedFirst(frames: seq<Frame>)
    requires frames != []
    ensures Accepted(frames) == if frames[0].Unavailable? then [] else [frames[0]] + Accepted(frames[1..])
  {
  }

  lemma AcceptedEnd(frames: seq<Frame>)
    ensures frames[..|frames|] + Accepted(frames[|frames|..]) == frames[..|frames|] == frames
  {
  }

  lemma RunStep(s: State, frames: seq<Frame>, i: nat)
    requires i < |frames|
    ensures Run(s, frames[..i + 1]) == Next(Run(s, frames[..i]), frames[i])
    ensures AllQueued(s, frames[..i + 1]) == AllQueued(s, frames[..i]) + Queued(Run(s, frames[..i]), frames[i])
  {
    hide Next, Queued;
    assert frames[..i + 1][..i] == frames[..i];
  }

  lemma ElementsJoin(a: seq<Refresh>, b: seq<Refresh>)
    ensures Elements(a + b) == Elements(a) + Elements(b)
    ensures Elements([]) == {}
  {
    assert forall r :: r in a + b <==> r in a || r in b;
  }

  lemma UnavailableChanges(s: State)
    ensures Next(s, Unavailable) == s && Queued(s, Unavailable) == []
  {
  }

  // ----- the gap rule

  /** The frame is the one that carries sequence `n`. */
  predicate Carries(f: Frame, n: int) {
    (f.Event? || f.Withheld?) && f.sequence == n
  }

  lemma StepOnlyGrows(s: State, f: Frame)
    ensures s.applied <= Next(s, f).applied
    ensures Next(s, f).applied > s.applied ==> Carries(f, Next(s, f).applied)
    ensures s.applied > 0 && Next(s, f).applied > s.applied + 1 ==> WorkspaceScope in Queued(s, f)
    ensures Next(s, f).applied > s.applied && f.Event? ==> WorkspaceScope in Queued(s, f) || GroupsOf(f.eventType) in Queued(s, f)
  {
    hide Ascii;
    if f.Event? || f.Withheld? {
      assert RESYNC[0] == WorkspaceScope;
    }
  }

  lemma {:induction false} RunOnlyGrows(s: State, frames: seq<Frame>)
    ensures s.applied <= Run(s, frames).applied
  {
    hide Next;
    if frames != [] {
      var front := frames[..|frames| - 1];
      RunOnlyGrows(s, front);
      StepOnlyGrows(Run(s, front), frames[|frames| - 1]);
    }
  }

  /**
   Step `i` passed sequence `n`: it queued a refresh of the whole workspace, or it carried just
   that number, and then it was withheld or queued the groups of its own event.
   */
  ghost predicate Passes(s: State, frames: seq<Frame>, i: nat, n: int)
    requires i < |frames|
  {
    var at := Run(s, frames[..i]);
    && at.applied < n <= Next(at, frames[i]).applied
    && (|| WorkspaceScope in Queued(at, frames[i])
        || (Carries(frames[i], n) && (frames[i].Withheld? || GroupsOf(frames[i].eventType) in Queued(at, frames[i]))))
  }

  /**
   Whatever is duplicated, reordered, lost or unparseable: once a sequence is applied, every
   later number up to the applied one was handled, or the step that passed it queued a
   refresh of the whole workspace.
   */
  lemma {:induction false} NoSilentGap(s: State, frames: seq<Frame>, n: int) returns (i: nat)
    requires s.applied > 0 && s.applied < n <= Run(s, frames).applied
    ensures i < |frames| && Passes(s, frames, i, n)
  {
    hide Next, Queued;
    var front, last := frames[..|frames| - 1], frames[|frames| - 1];
    if n <= Run(s, front).applied {
      i := NoSilentGap(s, front, n);
      assert front[..i] == frames[..i] && front[i] == frames[i];
    } else {
      i := |frames| - 1;
      RunOnlyGrows(s, front);
      StepOnlyGrows(Run(s, front), last);
    }
  }

  /** A lost event is refreshed: if no frame carries `n` and `n` is passed, the whole workspace is refreshed. */
  lemma LostEventIsRefreshed(s: State, frames: seq<Frame>, n: int)
    requires s.applied > 0 && s.applied < n <= Run(s, frames).applied
    requires forall f | f in frames :: !Carries(f, n)
    ensures WorkspaceScope in AllQueued(s, frames)
  {
    hide Next, Queued;
    var i := NoSilentGap(s, frames, n);
    QueuedIsKept(s, frames, i, WorkspaceScope);
  }

  lemma {:induction false} QueuedIsKept(s: State, frames: seq<Frame>, i: nat, r: Refresh)
    requires i < |frames| && r in Queued(Run(s, frames[..i]), frames[i])
    ensures r in AllQueued(s, frames)
  {
    hide Queued, Next;
    if i < |frames| - 1 {
      var front := frames[..|frames| - 1];
      assert front[..i] == frames[..i] && front[i] == frames[i];
      QueuedIsKept(s, front, i, r);
    }
  }

  /** Frames that were already applied move nothing but the replay cursor, and queue nothing. */
  lemma DuplicatesAreHarmless(s: State, f: Frame)
    requires f.Event? || f.Withheld?
    requires f.sequence <= s.applied
    ensures Next(s, f).applied == s.applied && Queued(s, f) == []
  {
  }
}
