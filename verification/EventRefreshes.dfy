/** What a delivery of frames asks for, frame by frame: which refreshes, which sequence, which replay cursor. */
module EventRefreshes {
  import opened CodeUnits
  import opened EventSequence

  // ----- the rules of one frame

  /** The frame carries a sequence that counts. */
  predicate Counts(f: Frame) {
    f.Event? || (f.Withheld? && f.sequence > 0)
  }

  /** It is ahead of what is applied. */
  predicate IsNew(applied: int, f: Frame) {
    Counts(f) && f.sequence > applied
  }

  /** Ahead by more than one, and not the first ever. */
  predicate IsGap(applied: int, f: Frame) {
    IsNew(applied, f) && 0 < applied < f.sequence - 1
  }

  /** A new audience change. */
  predicate Regroups(applied: int, f: Frame) {
    IsNew(applied, f) && f.Withheld? && f.audienceChanged
  }

  /** The frame asks for the refresh when `applied` is the sequence reached. */
  predicate Asks(applied: int, f: Frame, r: Refresh) {
    match r
    case GroupsOf(eventType) => IsNew(applied, f) && !IsGap(applied, f) && f.Event? && f.eventType == eventType
    case AccountAll => Regroups(applied, f)
    case WorkspaceScope => f.Resync? || IsGap(applied, f) || Regroups(applied, f)
    case DirectoryAll => f.Resync? || IsGap(applied, f)
    case InboxAll => f.Resync? || IsGap(applied, f)
  }

  /** The token that the frame stores; the empty text is none. */
  function TokenOf(f: Frame): Option<Text> {
    if (Counts(f) || f.Unparseable? || f.Resync?) && f.token.Some? && f.token.value != [] then f.token else None
  }

  lemma QueuedIs(s: State, f: Frame, r: Refresh)
    ensures r in Queued(s, f) <==> Asks(s.applied, f, r)
  {
    hide Ascii;
    assert RESYNC == [WorkspaceScope, DirectoryAll, InboxAll];
  }

  lemma NextIs(s: State, f: Frame)
    ensures Next(s, f).applied == if IsNew(s.applied, f) then f.sequence else s.applied
    ensures Next(s, f).resumeCursor == if TokenOf(f).Some? then TokenOf(f).value else s.resumeCursor
  {
    hide Ascii;
  }

  // ----- whole deliveries

  /** Frame `i` asks for the refresh when its turn comes. */
  ghost predicate AsksAt(s: State, frames: seq<Frame>, i: nat, r: Refresh) {
    i < |frames| && Asks(Run(s, frames[..i]).applied, frames[i], r)
  }

  /** A refresh is queued if and only if some frame asks for it when its turn comes. */
  lemma {:induction false} QueuedExactly(s: State, frames: seq<Frame>, r: Refresh)
    ensures r in AllQueued(s, frames) <==> exists i: nat :: AsksAt(s, frames, i, r)
    decreases |frames|
  {
    hide Asks, Queued, Next;
    if frames != [] {
      var n := |frames| - 1;
      var front := frames[..n];
      QueuedExactly(s, front, r);
      QueuedIs(Run(s, front), frames[n], r);
      forall i: nat | i < n
        ensures AsksAt(s, front, i, r) <==> AsksAt(s, frames, i, r)
      {
        assert front[..i] == frames[..i] && front[i] == frames[i];
      }
      assert AsksAt(s, frames, n, r) <==> Asks(Run(s, front).applied, frames[n], r);
    }
  }

  /** The sequence reached is the highest there was: the one at the start, or one that a frame carries. */
  lemma {:induction false} AppliedIsHighest(s: State, frames: seq<Frame>)
    ensures var n := Run(s, frames).applied;
            && s.applied <= n
            && (forall f | f in frames && Counts(f) :: f.sequence <= n)
            && (n == s.applied || exists f :: f in frames && Counts(f) && f.sequence == n)
    decreases |frames|
  {
    hide Next;
    if frames != [] {
      var front, last := frames[..|frames| - 1], frames[|frames| - 1];
      AppliedIsHighest(s, front);
      NextIs(Run(s, front), last);
      assert forall f :: f in frames <==> f in front || f == last;
    }
  }

  /** Frame `i` has the token and no later frame has any. */
  ghost predicate LastToken(frames: seq<Frame>, i: nat, token: Text) {
    i < |frames| && TokenOf(frames[i]) == Some(token) && forall j | i < j < |frames| :: TokenOf(frames[j]).None?
  }

  /** The replay cursor is the last token there was, or else the one at the start. */
  lemma {:induction false} CursorIsLast(s: State, frames: seq<Frame>)
    ensures var cursor := Run(s, frames).resumeCursor;
            || (cursor == s.resumeCursor && forall f | f in frames :: TokenOf(f).None?)
            || (exists i: nat :: LastToken(frames, i, cursor))
    decreases |frames|
  {
    hide Next, TokenOf, LastToken, Run;
    RunIs(s, frames);
    if frames != [] {
      var front, last := frames[..|frames| - 1], frames[|frames| - 1];
      var before, cursor := Run(s, front).resumeCursor, Run(s, frames).resumeCursor;
      CursorIsLast(s, front);
      NextIs(Run(s, front), last);
      if TokenOf(last).Some? {
        TokenAtEnd(frames, cursor);
      } else {
        assert cursor == before;
        if i: nat :| LastToken(front, i, before) {
          TokenBefore(frames, i, before);
        } else {
          assert forall f :: f in frames <==> f in front || f == last;
        }
      }
    }
  }

  lemma RunIs(s: State, frames: seq<Frame>)
    ensures Run(s, frames) == if frames == [] then s else Next(Run(s, frames[..|frames| - 1]), frames[|frames| - 1])
  {
    hide Next;
  }

  lemma TokenAtEnd(frames: seq<Frame>, token: Text)
    requires frames != [] && TokenOf(frames[|frames| - 1]) == Some(token)
    ensures LastToken(frames, |frames| - 1, token)
  {
  }

  lemma TokenBefore(frames: seq<Frame>, i: nat, token: Text)
    requires frames != [] && LastToken(frames[..|frames| - 1], i, token) && TokenOf(frames[|frames| - 1]).None?
    ensures LastToken(frames, i, token)
  {
    hide TokenOf;
  }

  /** An event that comes in order asks for the groups of its own type, and for nothing else. */
  lemma EventInOrder(s: State, frames: seq<Frame>, i: nat, r: Refresh)
    requires i < |frames| && frames[i].Event?
    requires var applied := Run(s, frames[..i]).applied;
             frames[i].sequence == applied + 1 || (applied <= 0 && frames[i].sequence > applied)
    ensures AsksAt(s, frames, i, r) <==> r == GroupsOf(frames[i].eventType)
    ensures GroupsOf(frames[i].eventType) in AllQueued(s, frames)
  {
    hide Run, AllQueued;
    assert AsksAt(s, frames, i, GroupsOf(frames[i].eventType));
    QueuedExactly(s, frames, GroupsOf(frames[i].eventType));
  }

  // ----- what is handled of a read

  /** No frame up to the `i`-th drops the stream. */
  ghost predicate Reached(frames: seq<Frame>, i: nat) {
    i < |frames| && forall j | 0 <= j <= i :: !frames[j].Unavailable?
  }

  lemma {:induction false} AcceptedAre(frames: seq<Frame>)
    ensures var all := Accepted(frames);
            all <= frames && forall i: nat :: i < |all| <==> Reached(frames, i)
    decreases |frames|
  {
    if frames != [] && !frames[0].Unavailable? {
      var rest := frames[1..];
      AcceptedAre(rest);
      forall i: nat
        ensures i < |Accepted(frames)| <==> Reached(frames, i)
      {
        if i > 0 {
          assert Reached(rest, i - 1) <==> i - 1 < |Accepted(rest)|;
          ReachedBehind(frames, i);
        }
      }
    }
  }

  lemma ReachedBehind(frames: seq<Frame>, i: nat)
    requires i > 0 && frames != [] && !frames[0].Unavailable?
    ensures Reached(frames, i) <==> Reached(frames[1..], i - 1)
  {
    assert forall j | 0 < j < |frames| :: frames[j] == frames[1..][j - 1];
    assert forall j | 0 <= j < |frames| - 1 :: frames[1..][j] == frames[j + 1];
  }

  /** What is handled asks for a refresh if and only if a frame does that comes before every one that drops the stream. */
  lemma HandledExactly(s: State, frames: seq<Frame>, r: Refresh)
    ensures r in AllQueued(s, Accepted(frames)) <==> exists i: nat :: Reached(frames, i) && AsksAt(s, frames, i, r)
  {
    hide Asks, Accepted, AllQueued, Run, Reached;
    var all := Accepted(frames);
    AcceptedAre(frames);
    QueuedExactly(s, all, r);
    forall i: nat | i < |all|
      ensures AsksAt(s, all, i, r) <==> AsksAt(s, frames, i, r)
    {
      assert all[..i] == frames[..i] && all[i] == frames[i];
    }
  }
}
