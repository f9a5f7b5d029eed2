/**
 The authorization codes on the server, over whole runs. A store keeps one record per code;
 an exchange takes the record out, checks it, and only then opens a session, and other
 exchanges and issues run in between.
 */
module DesktopCodes {
  import opened CodeUnits
  import opened Base64Url
  import opened DesktopAuthorization

  const MAX_SESSION_TTL_MS := 90 * 24 * 60 * 60 * 1000

  datatype SessionRecord = SessionRecord(
    principal: Principal,
    credentialDigest: Text,
    expiresAt: int,
    sessionId: Text)

  /** The two services as they were set up: the digest and the two lifetimes. */
  datatype Setup = Setup(sha: Sha, codeTtlMs: int, sessionTtlMs: int)

  ghost predicate IsSetup(u: Setup) {
    IsInjective(u.sha) && 0 < u.codeTtlMs <= MAX_CODE_TTL_MS && 0 < u.sessionTtlMs <= MAX_SESSION_TTL_MS
  }

  /** One saved code: what the broker was asked for, the code it drew and when. */
  datatype Issued = Issued(code: Text, request: Request, principal: Principal, at: int)

  /** How far one exchange has come. */
  datatype Stage =
    | Refused
    | Taken(record: Record)
    | Approved(record: Record, redeemedAt: int)
    | Opened(record: Record, redeemedAt: int, openedAt: int, session: SessionRecord)

  datatype Flight = Flight(exchange: Exchange, stage: Stage)

  datatype State = State(records: map<Text, Record>, flights: seq<Flight>, issued: seq<Issued>)

  const NOTHING := State(map[], [], [])

  datatype Event =
    | Issue(request: Request, principal: Principal, checkedAt: int, code: Text, savedAt: int)
    | Start(exchange: Exchange)
    | Check(flight: nat, now: int)
    | Open(flight: nat, now: int, credential: Text, sessionId: Text)

  function RecordOf(u: Setup, i: Issued): Record {
    IssuedRecord(u.sha, i.request, i.principal, i.at, u.codeTtlMs, i.code)
  }

  function SessionOf(u: Setup, principal: Principal, now: int, credential: Text, sessionId: Text): SessionRecord {
    SessionRecord(principal, Digest(u.sha, credential), now + u.sessionTtlMs, sessionId)
  }

  /** The store's `save`. */
  function Saved(records: map<Text, Record>, record: Record): map<Text, Record> {
    records[record.codeDigest := record]
  }

  function AfterIssue(u: Setup, s: State, e: Event): State
    requires e.Issue?
  {
    if !MayIssue(e.request, e.principal, e.checkedAt) then s
    else
      var i := Issued(e.code, e.request, e.principal, e.savedAt);
      s.(records := Saved(s.records, RecordOf(u, i)), issued := s.issued + [i])
  }

  /** The bounds, then the store's `consume`: it returns the record and deletes it in one step. */
  function AfterStart(u: Setup, s: State, exchange: Exchange): State {
    var key := Digest(u.sha, exchange.code);
    if !MayConsume(exchange) || key !in s.records then s.(flights := s.flights + [Flight(exchange, Refused)])
    else s.(records := s.records - {key}, flights := s.flights + [Flight(exchange, Taken(s.records[key]))])
  }

  function CheckedStage(u: Setup, f: Flight, now: int): Stage
    requires f.stage.Taken?
  {
    if Redeems(u.sha, f.stage.record, f.exchange, now) then Approved(f.stage.record, now) else Refused
  }

  function OpenedStage(u: Setup, f: Flight, now: int, credential: Text, sessionId: Text): Stage
    requires f.stage.Approved?
  {
    var principal := f.stage.record.principal;
    if MayOpenSession(principal, now)
    then Opened(f.stage.record, f.stage.redeemedAt, now, SessionOf(u, principal, now, credential, sessionId))
    else Refused
  }

  function WithStage(s: State, k: nat, stage: Stage): State
    requires k < |s.flights|
  {
    s.(flights := s.flights[k := s.flights[k].(stage := stage)])
  }

  function Step(u: Setup, s: State, e: Event): State {
    match e
    case Issue(_, _, _, _, _) => AfterIssue(u, s, e)
    case Start(exchange) => AfterStart(u, s, exchange)
    case Check(k, now) =>
      if k < |s.flights| && s.flights[k].stage.Taken? then WithStage(s, k, CheckedStage(u, s.flights[k], now)) else s
    case Open(k, now, credential, sessionId) =>
      if k < |s.flights| && s.flights[k].stage.Approved?
      then WithStage(s, k, OpenedStage(u, s.flights[k], now, credential, sessionId)) else s
  }

  function Run(u: Setup, s: State, events: seq<Event>): State
    decreases |events|
  {
    if events == [] then s else Run(u, Step(u, s, events[0]), events[1..])
  }

  /** 32 random bytes are a new code: it was never issued before. */
  predicate IsFresh(s: State, e: Event) {
    e.Issue? ==> forall j | 0 <= j < |s.issued| :: s.issued[j].code != e.code
  }

  predicate AllFresh(u: Setup, s: State, events: seq<Event>)
    decreases |events|
  {
    events == [] || (IsFresh(s, events[0]) && AllFresh(u, Step(u, s, events[0]), events[1..]))
  }

  // ----- what every run keeps

  predicate Holds(f: Flight) {
    !f.stage.Refused?
  }

  /** The record is the one saved for the `j`-th issued code. */
  predicate IsRecordOf(u: Setup, s: State, record: Record, j: nat) {
    j < |s.issued| && record == RecordOf(u, s.issued[j])
  }

  predicate CodesAreDistinct(issued: seq<Issued>) {
    forall i, j | 0 <= i < j < |issued| :: issued[i].code != issued[j].code
  }

  ghost predicate StoreIsIssued(u: Setup, s: State) {
    forall key | key in s.records ::
      s.records[key].codeDigest == key && exists j: nat :: IsRecordOf(u, s, s.records[key], j)
  }

  ghost predicate FlightIsSound(u: Setup, s: State, f: Flight) {
    Holds(f) ==>
      && f.stage.record.codeDigest == Digest(u.sha, f.exchange.code)
      && f.stage.record.codeDigest !in s.records
      && MayConsume(f.exchange)
      && (exists j: nat :: IsRecordOf(u, s, f.stage.record, j))
      && (!f.stage.Taken? ==> Redeems(u.sha, f.stage.record, f.exchange, f.stage.redeemedAt))
      && (f.stage.Opened? ==>
            && MayOpenSession(f.stage.record.principal, f.stage.openedAt)
            && f.stage.session.principal == f.stage.record.principal
            && f.stage.session.expiresAt == f.stage.openedAt + u.sessionTtlMs)
  }

  ghost predicate FlightsAreSound(u: Setup, s: State) {
    forall k | 0 <= k < |s.flights| :: FlightIsSound(u, s, s.flights[k])
  }

  /** A record is in one hand at most. */
  predicate HoldersAreDistinct(s: State) {
    forall i, k | 0 <= i < k < |s.flights| && Holds(s.flights[i]) && Holds(s.flights[k]) ::
      s.flights[i].stage.record.codeDigest != s.flights[k].stage.record.codeDigest
  }

  ghost predicate Valid(u: Setup, s: State) {
    CodesAreDistinct(s.issued) && StoreIsIssued(u, s) && FlightsAreSound(u, s) && HoldersAreDistinct(s)
  }

  lemma NothingIsValid(u: Setup)
    ensures Valid(u, NOTHING)
  {
  }

  lemma IssueKeepsValid(u: Setup, s: State, e: Event)
    requires IsSetup(u) && Valid(u, s) && e.Issue? && IsFresh(s, e)
    ensures Valid(u, AfterIssue(u, s, e))
  {
    hide Digest, MayIssue, MayConsume, Redeems, MayOpenSession;
    var t := AfterIssue(u, s, e);
    if MayIssue(e.request, e.principal, e.checkedAt) {
      var n := |s.issued|;
      var key := Digest(u.sha, e.code);
      assert IsRecordOf(u, t, t.records[key], n);
      forall other | other in t.records && other != key
        ensures exists j: nat :: IsRecordOf(u, t, t.records[other], j)
      {
        var j: nat :| IsRecordOf(u, s, s.records[other], j);
        assert IsRecordOf(u, t, t.records[other], j);
      }
      forall k | 0 <= k < |t.flights|
        ensures FlightIsSound(u, t, t.flights[k])
      {
        var f := s.flights[k];
        assert FlightIsSound(u, s, f);
        if Holds(f) {
          var j: nat :| IsRecordOf(u, s, f.stage.record, j);
          assert IsRecordOf(u, t, f.stage.record, j);
          if f.stage.record.codeDigest == key {
            DigestIsInjective(u.sha, s.issued[j].code, e.code);
          }
        }
      }
    }
  }

  lemma StartKeepsValid(u: Setup, s: State, exchange: Exchange)
    requires Valid(u, s)
    ensures Valid(u, AfterStart(u, s, exchange))
  {
    hide Digest, MayConsume, Redeems, MayOpenSession, IssuedRecord;
    var t := AfterStart(u, s, exchange);
    forall key | key in t.records
      ensures exists j: nat :: IsRecordOf(u, t, t.records[key], j)
    {
      var j: nat :| IsRecordOf(u, s, s.records[key], j);
      assert IsRecordOf(u, t, t.records[key], j);
    }
    forall k | 0 <= k < |t.flights|
      ensures FlightIsSound(u, t, t.flights[k])
    {
      if k < |s.flights| {
        SoundElsewhere(u, s, t, s.flights[k]);
      } else if Holds(t.flights[k]) {
        var key := Digest(u.sha, exchange.code);
        var j: nat :| IsRecordOf(u, s, s.records[key], j);
        assert IsRecordOf(u, t, s.records[key], j);
      }
    }
  }

  /** A flight stays sound when the store only loses records and the log only grows. */
  lemma SoundElsewhere(u: Setup, s: State, t: State, f: Flight)
    requires FlightIsSound(u, s, f)
    requires t.records.Keys <= s.records.Keys && s.issued <= t.issued
    ensures FlightIsSound(u, t, f)
  {
    hide Digest, MayConsume, Redeems, MayOpenSession, IssuedRecord;
    if Holds(f) {
      var j: nat :| IsRecordOf(u, s, f.stage.record, j);
      assert IsRecordOf(u, t, f.stage.record, j);
    }
  }

  lemma StageKeepsValid(u: Setup, s: State, k: nat, stage: Stage)
    requires Valid(u, s) && k < |s.flights|
    requires FlightIsSound(u, s, Flight(s.flights[k].exchange, stage))
    requires !stage.Refused? ==> Holds(s.flights[k]) && stage.record == s.flights[k].stage.record
    ensures Valid(u, WithStage(s, k, stage))
  {
    hide Digest, MayConsume, Redeems, MayOpenSession, IssuedRecord;
    var t := WithStage(s, k, stage);
    forall key | key in t.records
      ensures exists j: nat :: IsRecordOf(u, t, t.records[key], j)
    {
      var j: nat :| IsRecordOf(u, s, s.records[key], j);
      assert IsRecordOf(u, t, t.records[key], j);
    }
    forall i | 0 <= i < |t.flights|
      ensures FlightIsSound(u, t, t.flights[i])
    {
      SoundElsewhere(u, s, t, t.flights[i]);
    }
  }

  lemma StepKeepsValid(u: Setup, s: State, e: Event)
    requires IsSetup(u) && Valid(u, s) && IsFresh(s, e)
    ensures Valid(u, Step(u, s, e))
  {
    hide Digest, MayIssue, MayConsume, Redeems, MayOpenSession, IssuedRecord, AfterIssue, AfterStart, WithStage, IsSetup;
    match e
    case Issue(_, _, _, _, _) => IssueKeepsValid(u, s, e);
    case Start(exchange) => StartKeepsValid(u, s, exchange);
    case Check(k, now) =>
      if k < |s.flights| && s.flights[k].stage.Taken? {
        StageKeepsValid(u, s, k, CheckedStage(u, s.flights[k], now));
      }
    case Open(k, now, credential, sessionId) =>
      if k < |s.flights| && s.flights[k].stage.Approved? {
        StageKeepsValid(u, s, k, OpenedStage(u, s.flights[k], now, credential, sessionId));
      }
  }

  lemma {:induction false} RunKeepsValid(u: Setup, s: State, events: seq<Event>)
    requires IsSetup(u) && Valid(u, s) && AllFresh(u, s, events)
    ensures Valid(u, Run(u, s, events))
    decreases |events|
  {
    hide Valid, Step, IsSetup;
    if events != [] {
      StepKeepsValid(u, s, events[0]);
      RunKeepsValid(u, Step(u, s, events[0]), events[1..]);
    }
  }

  // ----- the main results

  /** The `k`-th exchange opened a session for the `j`-th issued code. */
  predicate Redeemed(u: Setup, s: State, k: nat, j: nat) {
    && k < |s.flights| && s.flights[k].stage.Opened?
    && j < |s.issued| && s.issued[j].code == s.flights[k].exchange.code
  }

  /** Everything the session of exchange `f` owes to the issued code `i`. */
  predicate IsEarned(u: Setup, f: Flight, i: Issued)
    requires f.stage.Opened?
  {
    && f.exchange.code == i.code
    && f.exchange.nonce == i.request.nonce
    && f.exchange.redirectUri == CALLBACK_URI
    && Digest(u.sha, f.exchange.codeVerifier) == i.request.codeChallenge
    && f.stage.redeemedAt < i.at + u.codeTtlMs <= i.at + MAX_CODE_TTL_MS
    && f.stage.session.principal == i.principal
    && f.stage.openedAt < i.principal.providerExpiresAt
    && f.stage.session.expiresAt == f.stage.openedAt + u.sessionTtlMs
  }

  /**
   In every run, each session comes from exactly one saved code, redeemed in time by the
   holder of its nonce and its verifier, and carries the user and provider the code was
   saved for.
   */
  lemma EverySessionIsEarned(u: Setup, events: seq<Event>, k: nat)
    requires IsSetup(u) && AllFresh(u, NOTHING, events)
    requires k < |Run(u, NOTHING, events).flights| && Run(u, NOTHING, events).flights[k].stage.Opened?
    ensures var s := Run(u, NOTHING, events);
            exists j: nat :: Redeemed(u, s, k, j) && IsEarned(u, s.flights[k], s.issued[j])
                          && forall i: nat | Redeemed(u, s, k, i) :: i == j
  {
    hide Digest, MayConsume, Run, AllFresh, StoreIsIssued, HoldersAreDistinct;
    var s := Run(u, NOTHING, events);
    assert Valid(u, s) by {
      hide Valid;
      NothingIsValid(u);
      RunKeepsValid(u, NOTHING, events);
    }
    var f := s.flights[k];
    assert FlightIsSound(u, s, f);
    var j: nat :| IsRecordOf(u, s, f.stage.record, j);
    DigestIsInjective(u.sha, f.exchange.code, s.issued[j].code);
    assert Redeemed(u, s, k, j) && IsEarned(u, f, s.issued[j]);
  }

  /** No code yields two sessions, whatever runs in between. */
  lemma OneSessionPerCode(u: Setup, events: seq<Event>, i: nat, k: nat)
    requires IsSetup(u) && AllFresh(u, NOTHING, events)
    requires i < k < |Run(u, NOTHING, events).flights|
    requires Run(u, NOTHING, events).flights[i].stage.Opened? && Run(u, NOTHING, events).flights[k].stage.Opened?
    ensures Run(u, NOTHING, events).flights[i].exchange.code != Run(u, NOTHING, events).flights[k].exchange.code
  {
    hide Digest, MayConsume, Redeems, MayOpenSession, Run, AllFresh, StoreIsIssued;
    var s := Run(u, NOTHING, events);
    assert Valid(u, s) by {
      hide Valid;
      NothingIsValid(u);
      RunKeepsValid(u, NOTHING, events);
    }
    assert FlightIsSound(u, s, s.flights[i]) && FlightIsSound(u, s, s.flights[k]);
  }

  /** The challenge binds the code to one verifier: only its holder can open the session. */
  lemma OnlyTheVerifierRedeems(u: Setup, events: seq<Event>, k: nat, j: nat, verifier: Text)
    requires IsSetup(u) && AllFresh(u, NOTHING, events)
    requires Redeemed(u, Run(u, NOTHING, events), k, j)
    requires Run(u, NOTHING, events).issued[j].request.codeChallenge == Digest(u.sha, verifier)
    ensures Run(u, NOTHING, events).flights[k].exchange.codeVerifier == verifier
  {
    hide Digest, Run, AllFresh;
    var s := Run(u, NOTHING, events);
    EverySessionIsEarned(u, events, k);
    DigestIsInjective(u.sha, s.flights[k].exchange.codeVerifier, verifier);
  }

  // ----- a consumed code is gone

  /** Nobody holds the code any more, neither the store nor an exchange on its way. */
  predicate Burnt(u: Setup, s: State, code: Text) {
    && (exists j :: 0 <= j < |s.issued| && s.issued[j].code == code)
    && Digest(u.sha, code) !in s.records
    && forall k | 0 <= k < |s.flights| && (s.flights[k].stage.Taken? || s.flights[k].stage.Approved?) ::
         s.flights[k].exchange.code != code
  }

  /** The exchanges that have opened a session for the code. */
  function Sessions(s: State, code: Text): set<nat> {
    set k: nat | k < |s.flights| && s.flights[k].stage.Opened? && s.flights[k].exchange.code == code
  }

  lemma BurntStep(u: Setup, s: State, e: Event, code: Text)
    requires IsSetup(u) && IsFresh(s, e) && Burnt(u, s, code)
    ensures Burnt(u, Step(u, s, e), code)
    ensures Sessions(Step(u, s, e), code) == Sessions(s, code)
  {
    hide Digest, MayIssue, MayConsume, Redeems, MayOpenSession;
    var t := Step(u, s, e);
    var j :| 0 <= j < |s.issued| && s.issued[j].code == code;
    assert t.issued[j].code == code;
    if e.Issue? && Digest(u.sha, e.code) == Digest(u.sha, code) {
      DigestIsInjective(u.sha, e.code, code);
    }
  }

  lemma {:induction false} BurntForever(u: Setup, s: State, events: seq<Event>, code: Text)
    requires IsSetup(u) && AllFresh(u, s, events) && Burnt(u, s, code)
    ensures Burnt(u, Run(u, s, events), code)
    ensures Sessions(Run(u, s, events), code) == Sessions(s, code)
    decreases |events|
  {
    hide Step, Burnt, Sessions, IsSetup;
    if events != [] {
      BurntStep(u, s, events[0], code);
      BurntForever(u, Step(u, s, events[0]), events[1..], code);
    }
  }

  /**
   An exchange that took a code's record and is then refused, by the checks or by the session
   service, burns the code: no run that follows opens a session for it.
   */
  lemma RefusedCodeIsBurnt(u: Setup, s: State, k: nat, e: Event, after: seq<Event>)
    requires IsSetup(u) && Valid(u, s) && IsFresh(s, e) && AllFresh(u, Step(u, s, e), after)
    requires k < |s.flights| && Holds(s.flights[k])
    requires Step(u, s, e).flights[k].stage.Refused?
    ensures Sessions(Run(u, Step(u, s, e), after), s.flights[k].exchange.code) == {}
  {
    hide Digest, MayIssue, MayConsume, Redeems, MayOpenSession, Run, AllFresh, StoreIsIssued, IsSetup;
    var t := Step(u, s, e);
    var f := s.flights[k];
    var code := f.exchange.code;
    assert FlightIsSound(u, s, f);
    assert Burnt(u, t, code) by {
      hide IsSetup;
      CodeOfFlight(u, s, k);
      forall i | 0 <= i < |t.flights| && i != k && Holds(t.flights[i])
        ensures t.flights[i].exchange.code != code
      {
        assert FlightIsSound(u, s, s.flights[i]);
      }
    }
    assert Sessions(t, code) == {} by {
      forall i | 0 <= i < |t.flights| && i != k && Holds(t.flights[i])
        ensures t.flights[i].exchange.code != code
      {
        assert FlightIsSound(u, s, s.flights[i]);
      }
    }
    BurntForever(u, t, after, code);
  }

  lemma CodeOfFlight(u: Setup, s: State, k: nat)
    requires IsSetup(u) && Valid(u, s) && k < |s.flights| && Holds(s.flights[k])
    ensures exists j :: 0 <= j < |s.issued| && s.issued[j].code == s.flights[k].exchange.code
  {
    hide Digest, MayConsume, Redeems, MayOpenSession, StoreIsIssued, CodesAreDistinct, HoldersAreDistinct;
    var f := s.flights[k];
    assert FlightIsSound(u, s, f);
    var j: nat :| IsRecordOf(u, s, f.stage.record, j);
    DigestIsInjective(u.sha, f.exchange.code, s.issued[j].code);
  }

  /** The code was issued and its record has left the store. */
  predicate IsSpent(u: Setup, s: State, code: Text) {
    (exists j :: 0 <= j < |s.issued| && s.issued[j].code == code) && Digest(u.sha, code) !in s.records
  }

  lemma SpentStep(u: Setup, s: State, e: Event, code: Text)
    requires IsSetup(u) && IsFresh(s, e) && IsSpent(u, s, code)
    ensures IsSpent(u, Step(u, s, e), code)
  {
    hide Digest, MayIssue, MayConsume, Redeems, MayOpenSession;
    var t := Step(u, s, e);
    var j :| 0 <= j < |s.issued| && s.issued[j].code == code;
    assert t.issued[j].code == code;
    if e.Issue? && Digest(u.sha, e.code) == Digest(u.sha, code) {
      DigestIsInjective(u.sha, e.code, code);
    }
  }

  lemma {:induction false} SpentForever(u: Setup, s: State, events: seq<Event>, code: Text)
    requires IsSetup(u) && AllFresh(u, s, events) && IsSpent(u, s, code)
    ensures IsSpent(u, Run(u, s, events), code)
    decreases |events|
  {
    hide Step, IsSpent, IsSetup;
    if events != [] {
      SpentStep(u, s, events[0], code);
      SpentForever(u, Step(u, s, events[0]), events[1..], code);
    }
  }

  /**
   Once an exchange has reached the store with an issued code, every later exchange of that
   code is refused, however the first one ends and whatever runs in between.
   */
  lemma SecondExchangeIsRefused(u: Setup, s: State, first: Exchange, between: seq<Event>, second: Exchange)
    requires IsSetup(u) && MayConsume(first) && second.code == first.code
    requires exists j :: 0 <= j < |s.issued| && s.issued[j].code == first.code
    requires AllFresh(u, AfterStart(u, s, first), between)
    ensures var t := Run(u, AfterStart(u, s, first), between);
            AfterStart(u, t, second) == t.(flights := t.flights + [Flight(second, Refused)])
  {
    hide Digest, MayConsume, Run, AllFresh, IsSetup;
    SpentForever(u, AfterStart(u, s, first), between, first.code);
  }

  // ----- the whole sign-in, through the store

  /** What the client sends and what the server makes of it, from the attempt to the exchange that is redeemed. */
  function SignInEvents(u: Setup, attempt: Attempt, principal: Principal, code: Text, checkedAt: int, savedAt: int,
                        consumed: int, redeemed: int, openedAt: int, credential: Text, sessionId: Text): Option<seq<Event>> {
    var request := ParseAuthorization(AuthorizationQuery(attempt));
    if request.None? then None
    else
      var read := ReadCallback(attempt, Callback(request.value, code), consumed);
      if read.None? then None
      else
        var exchange := ParseExchange(ExchangeBody(read.value));
        if exchange.None? then None
        else Some([Issue(request.value, principal, checkedAt, code, savedAt), Start(exchange.value), Check(0, redeemed),
                   Open(0, openedAt, credential, sessionId)])
  }

  /**
   Every attempt of the client, taken through all parsers and through the store, ends in one
   opened session for the principal, with the code gone from the store.
   */
  lemma SignInOpensSession(u: Setup, r: Randomness, principal: Principal, codeBytes: Bytes, ttlMs: int, created: int, checkedAt: int,
                           savedAt: int, consumed: int, redeemed: int, openedAt: int, credential: Text, sessionId: Text)
    requires IsSha(u.sha) && IsRandomness(r) && |codeBytes| == 32
    requires 0 < ttlMs <= MAX_ATTEMPT_TTL_MS && 0 < u.codeTtlMs <= MAX_CODE_TTL_MS
    requires consumed < created + ttlMs && redeemed < savedAt + u.codeTtlMs
    requires Within(principal.providerSessionId, 1, 512) && Within(principal.userId, 1, 512)
    requires principal.email.Some? ==> Within(principal.email.value, 1, 320)
    requires principal.providerExpiresAt > checkedAt && principal.providerExpiresAt > openedAt
    ensures var attempt := CreateAttempt(u.sha, r, created, ttlMs);
            var code := EncodeUrlSafe(codeBytes);
            && attempt.Some?
            && var events := SignInEvents(u, attempt.value, principal, code, checkedAt, savedAt, consumed, redeemed, openedAt, credential, sessionId);
            && events.Some?
            && var s := Run(u, NOTHING, events.value);
            && s.records == map[] && |s.flights| == 1 && s.flights[0].stage.Opened?
            && s.flights[0].stage.session == SessionOf(u, principal, openedAt, credential, sessionId)
  {
    hide Ascii, IsBase64Url, EncodeUrlSafe, ParseAuthorization, AuthorizationQuery, ParseExchange, ExchangeBody, ReadCallback, IsSha,
         MayIssue, MayConsume, Redeems, MayOpenSession, Digest, Run, Step;
    SignInSucceeds(u.sha, r, principal, codeBytes, ttlMs, u.codeTtlMs, created, checkedAt, savedAt, consumed, redeemed, openedAt);
    var attempt := CreateAttempt(u.sha, r, created, ttlMs).value;
    var code := EncodeUrlSafe(codeBytes);
    var request := Request(attempt.codeChallenge, attempt.nonce, CALLBACK_URI, attempt.state);
    var exchange := Exchange(code, attempt.codeVerifier, attempt.nonce, CALLBACK_URI);
    AttemptFields(u.sha, r, created, ttlMs);
    FourSteps(u, request, principal, exchange, checkedAt, savedAt, redeemed, openedAt, credential, sessionId);
  }

  lemma FourSteps(u: Setup, request: Request, principal: Principal, e: Exchange, checkedAt: int, savedAt: int, redeemed: int, openedAt: int,
                  credential: Text, sessionId: Text)
    requires MayIssue(request, principal, checkedAt) && MayConsume(e)
    requires Redeems(u.sha, IssuedRecord(u.sha, request, principal, savedAt, u.codeTtlMs, e.code), e, redeemed)
    requires MayOpenSession(principal, openedAt)
    ensures var events := [Issue(request, principal, checkedAt, e.code, savedAt), Start(e), Check(0, redeemed), Open(0, openedAt, credential, sessionId)];
            var s := Run(u, NOTHING, events);
            && s.records == map[] && |s.flights| == 1 && s.flights[0].stage.Opened?
            && s.flights[0].stage.session == SessionOf(u, principal, openedAt, credential, sessionId)
  {
    hide Digest, MayIssue, MayConsume, Redeems, MayOpenSession;
    var issue, start, check, open := Issue(request, principal, checkedAt, e.code, savedAt), Start(e), Check(0, redeemed), Open(0, openedAt, credential, sessionId);
    var one := Step(u, NOTHING, issue);
    var two := Step(u, one, start);
    var record := IssuedRecord(u.sha, request, principal, savedAt, u.codeTtlMs, e.code);
    assert two.flights == [Flight(e, Taken(record))] && two.records == map[];
    var three := Step(u, two, check);
    assert three.flights == [Flight(e, Approved(record, redeemed))];
    RunFour(u, NOTHING, issue, start, check, open);
  }

  lemma RunFour(u: Setup, s: State, a: Event, b: Event, c: Event, d: Event)
    ensures Run(u, s, [a, b, c, d]) == Step(u, Step(u, Step(u, Step(u, s, a), b), c), d)
  {
    hide Step;
    assert [a, b, c, d][1..] == [b, c, d] && [b, c, d][1..] == [c, d] && [c, d][1..] == [d] && [d][1..] == [];
    assert forall t :: Run(u, t, [d]) == Run(u, Step(u, t, d), []) == Step(u, t, d);
    assert forall t :: Run(u, t, [c, d]) == Run(u, Step(u, t, c), [d]);
    assert forall t :: Run(u, t, [b, c, d]) == Run(u, Step(u, t, b), [c, d]);
  }

  // ----- the services as they are called

  class CodeStore {
    var records: map<Text, Record>

    constructor ()
      ensures records == map[]
    {
      records := map[];
    }

    method Save(record: Record)
      modifies this
      ensures records == Saved(old(records), record)
    {
      records := records[record.codeDigest := record];
    }

    /** Returns the record and deletes it. */
    method Consume(key: Text) returns (record: Option<Record>)
      modifies this
      ensures record == if key in old(records) then Some(old(records)[key]) else None
      ensures records == old(records) - {key}
    {
      if key in records {
        record := Some(records[key]);
        records := records - {key};
      } else {
        record := None;
        assert records - {key} == records;
      }
    }
  }

  class SessionStore {
    var created: seq<SessionRecord>

    constructor ()
      ensures created == []
    {
      created := [];
    }

    method Create(record: SessionRecord)
      modifies this
      ensures created == old(created) + [record]
    {
      created := created + [record];
    }
  }

  /** One exchange with nothing in between. */
  function Alone(u: Setup, records: map<Text, Record>, e: Exchange, now: int, openedAt: int, credential: Text, sessionId: Text): State {
    var started := AfterStart(u, State(records, [], []), e);
    Step(u, Step(u, started, Check(0, now)), Open(0, openedAt, credential, sessionId))
  }

  function SessionsIn(s: State): seq<SessionRecord>
    requires |s.flights| == 1
  {
    if s.flights[0].stage.Opened? then [s.flights[0].stage.session] else []
  }

  class Broker {
    const setup: Setup
    const codes: CodeStore
    const sessions: SessionStore

    constructor (setup: Setup, codes: CodeStore, sessions: SessionStore)
      ensures this.setup == setup && this.codes == codes && this.sessions == sessions
    {
      this.setup, this.codes, this.sessions := setup, codes, sessions;
    }

    /** `issue`: saves one record and answers with the callback that carries the code. */
    method Issue(request: Request, principal: Principal, checkedAt: int, code: Text, savedAt: int) returns (callback: Option<Url>)
      modifies codes
      ensures codes.records == AfterIssue(setup, State(old(codes.records), [], []), Event.Issue(request, principal, checkedAt, code, savedAt)).records
      ensures callback == if MayIssue(request, principal, checkedAt) then Some(Callback(request, code)) else None
    {
      if request.redirectUri != CALLBACK_URI || !Within(request.codeChallenge, 43, 128) || !Within(request.nonce, 16, 512) {
        return None;
      }
      if !Within(principal.providerSessionId, 1, 512) || !Within(request.state, 16, 512) || !Within(principal.userId, 1, 512) {
        return None;
      }
      if principal.providerExpiresAt <= checkedAt {
        return None;
      }
      if principal.email.Some? && !Within(principal.email.value, 1, 320) {
        return None;
      }
      codes.Save(IssuedRecord(setup.sha, request, principal, savedAt, setup.codeTtlMs, code));
      callback := Some(Callback(request, code));
    }

    /** The session service's `issue`. */
    method OpenSession(principal: Principal, now: int, credential: Text, sessionId: Text) returns (session: Option<SessionRecord>)
      modifies sessions
      ensures session == if MayOpenSession(principal, now) then Some(SessionOf(setup, principal, now, credential, sessionId)) else None
      ensures sessions.created == old(sessions.created) + (if session.Some? then [session.value] else [])
    {
      if !Within(principal.providerSessionId, 1, 512) || !Within(principal.userId, 1, 512) || principal.providerExpiresAt <= now {
        return None;
      }
      var record := SessionRecord(principal, Digest(setup.sha, credential), now + setup.sessionTtlMs, sessionId);
      sessions.Create(record);
      session := Some(record);
    }

    /** `exchange`, run without interruption, is the three steps of one flight. */
    method Exchange(e: Exchange, now: int, openedAt: int, credential: Text, sessionId: Text) returns (session: Option<SessionRecord>)
      modifies codes, sessions
      ensures var t := Alone(setup, old(codes.records), e, now, openedAt, credential, sessionId);
              && codes.records == t.records
              && sessions.created == old(sessions.created) + SessionsIn(t)
              && (session.Some? <==> SessionsIn(t) != [])
              && (session.Some? ==> SessionsIn(t) == [session.value])
    {
      hide Digest, SessionOf;
      if !Within(e.code, 8, 512) || !Within(e.codeVerifier, 43, 128) || !Within(e.nonce, 16, 512) || e.redirectUri != CALLBACK_URI {
        return None;
      }
      var taken := codes.Consume(Digest(setup.sha, e.code));
      if taken.None? {
        return None;
      }
      var record := taken.value;
      if record.expiresAt <= now || record.redirectUri != e.redirectUri || record.nonce != e.nonce
         || record.codeChallenge != Digest(setup.sha, e.codeVerifier)
      {
        return None;
      }
      session := OpenSession(record.principal, openedAt, credential, sessionId);
    }
  }
}
