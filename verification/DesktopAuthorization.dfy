/**
 One desktop sign-in: the client's attempt, the authorization request, the issued callback,
 and the exchange of the code, each side checking what the other sent.
 */
module DesktopAuthorization {
  import opened CodeUnits
  import opened Base64Url
  import G = JsonGrammar
  import T = JsonTree
  import C = CanonicalJson

  const CALLBACK_URI := Ascii("adea://auth/callback")
  const MAX_ATTEMPT_TTL_MS := 300000
  const MAX_CODE_TTL_MS := 60000
  const MAX_BODY_BYTES := 4096

  /** SHA-256, as 32 bytes of the text it is taken of. */
  type Sha = Text -> Bytes

  ghost predicate IsSha(sha: Sha) {
    forall t :: |sha(t)| == 32
  }

  ghost predicate IsInjective(sha: Sha) {
    forall a, b | sha(a) == sha(b) :: a == b
  }

  /** The digest both sides use: base64url of SHA-256. */
  function Digest(sha: Sha, t: Text): Text {
    EncodeUrlSafe(sha(t))
  }

  lemma DigestIsInjective(sha: Sha, a: Text, b: Text)
    requires IsInjective(sha) && Digest(sha, a) == Digest(sha, b)
    ensures a == b
  {
    EncodeIsInjective(sha(a), sha(b));
  }

  // ----- queries

  datatype Param = Param(name: Text, value: Text)

  type Query = seq<Param>

  /** `searchParams.get(name)` */
  function Get(query: Query, name: Text): Option<Text> {
    if query == [] then None
    else if query[0].name == name then Some(query[0].value)
    else Get(query[1..], name)
  }

  predicate HasDuplicates(query: Query) {
    exists i, j | 0 <= i < j < |query| :: query[i].name == query[j].name
  }

  predicate Bounded(value: Option<Text>, minimum: nat, maximum: nat) {
    value.Some? && minimum <= |value.value| <= maximum && IsBase64Url(value.value)
  }

  // ----- the client's attempt

  datatype Attempt = Attempt(
    codeChallenge: Text,
    codeVerifier: Text,
    expiresAt: int,
    nonce: Text,
    redirectUri: Text,
    state: Text)

  datatype Randomness = Randomness(verifier: Bytes, nonce: Bytes, state: Bytes)

  predicate IsRandomness(r: Randomness) {
    |r.verifier| == 48 && |r.nonce| == 32 && |r.state| == 32
  }

  function CreateAttempt(sha: Sha, r: Randomness, now: int, ttlMs: int): Option<Attempt> {
    if ttlMs <= 0 || ttlMs > MAX_ATTEMPT_TTL_MS then None
    else
      var codeVerifier := EncodeUrlSafe(r.verifier);
      Some(Attempt(
             EncodeUrlSafe(sha(codeVerifier)), codeVerifier, now + ttlMs,
             EncodeUrlSafe(r.nonce), CALLBACK_URI, EncodeUrlSafe(r.state)))
  }

  const CLIENT := Ascii("client")
  const CODE_CHALLENGE := Ascii("code_challenge")
  const CODE_CHALLENGE_METHOD := Ascii("code_challenge_method")
  const NONCE := Ascii("nonce")
  const REDIRECT_URI := Ascii("redirect_uri")
  const RESPONSE_TYPE := Ascii("response_type")
  const STATE := Ascii("state")
  const CODE := Ascii("code")
  const DESKTOP := Ascii("desktop")
  const S256 := Ascii("S256")

  function AuthorizationQuery(attempt: Attempt): Query {
    [ Param(CLIENT, DESKTOP),
      Param(CODE_CHALLENGE, attempt.codeChallenge),
      Param(CODE_CHALLENGE_METHOD, S256),
      Param(NONCE, attempt.nonce),
      Param(REDIRECT_URI, attempt.redirectUri),
      Param(RESPONSE_TYPE, CODE),
      Param(STATE, attempt.state)]
  }

  // ----- the authorization parser

  const AUTHORIZATION_PARAMETERS: set<Text> :=
    {CLIENT, CODE_CHALLENGE, CODE_CHALLENGE_METHOD, NONCE, REDIRECT_URI, RESPONSE_TYPE, STATE}

  datatype Request = Request(codeChallenge: Text, nonce: Text, redirectUri: Text, state: Text)

  function ParseAuthorization(query: Query): Option<Request> {
    if |query| != 7 || (exists p | p in query :: p.name !in AUTHORIZATION_PARAMETERS) || HasDuplicates(query) then None
    else
      var codeChallenge, nonce, state := Get(query, CODE_CHALLENGE), Get(query, NONCE), Get(query, STATE);
      if Get(query, CLIENT) != Some(DESKTOP) || Get(query, CODE_CHALLENGE_METHOD) != Some(S256)
         || Get(query, REDIRECT_URI) != Some(CALLBACK_URI) || Get(query, RESPONSE_TYPE) != Some(CODE)
         || !Bounded(codeChallenge, 43, 128) || !Bounded(nonce, 16, 512) || !Bounded(state, 16, 512)
      then None
      else Some(Request(codeChallenge.value, nonce.value, CALLBACK_URI, state.value))
  }

  // ----- issuing a code

  datatype Principal = Principal(email: Option<Text>, providerExpiresAt: int, providerSessionId: Text, userId: Text)

  datatype Record = Record(
    codeChallenge: Text,
    codeDigest: Text,
    expiresAt: int,
    nonce: Text,
    redirectUri: Text,
    principal: Principal)

  predicate Within(value: Text, minimum: nat, maximum: nat) {
    minimum <= |value| <= maximum
  }

  /** The checks of `issue`, before anything is saved. */
  predicate MayIssue(request: Request, principal: Principal, now: int) {
    && request.redirectUri == CALLBACK_URI
    && Within(request.codeChallenge, 43, 128) && Within(request.nonce, 16, 512)
    && Within(principal.providerSessionId, 1, 512) && Within(request.state, 16, 512) && Within(principal.userId, 1, 512)
    && principal.providerExpiresAt > now
    && (principal.email.Some? ==> Within(principal.email.value, 1, 320))
  }

  function IssuedRecord(sha: Sha, request: Request, principal: Principal, now: int, ttlMs: int, code: Text): Record {
    Record(request.codeChallenge, Digest(sha, code), now + ttlMs, request.nonce, CALLBACK_URI, principal)
  }

  datatype Url = Url(target: Text, query: Query)

  function Callback(request: Request, code: Text): Url {
    Url(CALLBACK_URI, [Param(CODE, code), Param(NONCE, request.nonce), Param(STATE, request.state)])
  }

  // ----- consuming the callback

  datatype Exchange = Exchange(code: Text, codeVerifier: Text, nonce: Text, redirectUri: Text)

  const FORBIDDEN: set<Text> :=
    {Ascii("access_token"), Ascii("id_token"), Ascii("refresh_token"), Ascii("session"), Ascii("session_token")}

  function OrEmpty(o: Option<Text>): Text {
    if o.Some? then o.value else []
  }

  function ReadCallback(attempt: Attempt, callback: Url, now: int): Option<Exchange> {
    var code, nonce, state :=
      OrEmpty(Get(callback.query, CODE)), OrEmpty(Get(callback.query, NONCE)), OrEmpty(Get(callback.query, STATE));
    if attempt.expiresAt <= now || callback.target != CALLBACK_URI then None
    else if (exists p | p in callback.query :: p.name in FORBIDDEN) || HasDuplicates(callback.query) then None
    else if |code| < 8 || |code| > 512 || attempt.state != state || attempt.nonce != nonce then None
    else Some(Exchange(code, attempt.codeVerifier, nonce, CALLBACK_URI))
  }

  /** The attempt as the client holds it: it can be consumed once. */
  class PendingAttempt {
    const attempt: Attempt
    var used: bool

    constructor (attempt: Attempt)
      ensures this.attempt == attempt && !used
    {
      this.attempt, used := attempt, false;
    }

    /** A refused callback leaves the attempt usable; an accepted one uses it up. */
    method Consume(callback: Url, now: int) returns (exchange: Option<Exchange>)
      modifies this
      ensures exchange == if old(used) then None else ReadCallback(attempt, callback, now)
      ensures used == (old(used) || exchange.Some?)
    {
      if used || attempt.expiresAt <= now || callback.target != CALLBACK_URI {
        return None;
      }
      if (exists p | p in callback.query :: p.name in FORBIDDEN) || HasDuplicates(callback.query) {
        return None;
      }
      var code := OrEmpty(Get(callback.query, CODE));
      var nonce := OrEmpty(Get(callback.query, NONCE));
      var state := OrEmpty(Get(callback.query, STATE));
      if |code| < 8 || |code| > 512 {
        return None;
      }
      var sameState := ConstantTimeEqual(attempt.state, state);
      if !sameState {
        return None;
      }
      var sameNonce := ConstantTimeEqual(attempt.nonce, nonce);
      if !sameNonce {
        return None;
      }
      used := true;
      exchange := Some(Exchange(code, attempt.codeVerifier, nonce, CALLBACK_URI));
    }
  }

  // ----- the exchange body

  const CODE_VERIFIER_KEY := Ascii("codeVerifier")
  const REDIRECT_URI_KEY := Ascii("redirectUri")

  function Field(name: Text, value: Text): G.Row {
    G.Row([], G.Named(C.QuoteUnits(name), [], []), G.Quoted(C.QuoteUnits(value)), [])
  }

  function BodyRows(e: Exchange): seq<G.Row> {
    [Field(CODE, e.code), Field(CODE_VERIFIER_KEY, e.codeVerifier), Field(NONCE, e.nonce), Field(REDIRECT_URI_KEY, e.redirectUri)]
  }

  function BodyDocument(e: Exchange): G.Document {
    G.Document([], G.Group(true, C.ToRows(BodyRows(e))), [])
  }

  /** `JSON.stringify(exchange)` */
  function ExchangeBody(e: Exchange): Text {
    G.DocumentText(BodyDocument(e))
  }

  function Utf8Length(t: Text): nat {
    if t == [] then 0
    else if |t| > 1 && C.IsHighSurrogate(t[0]) && C.IsLowSurrogate(t[1]) then 4 + Utf8Length(t[2..])
    else (if t[0] < 0x80 then 1 else if t[0] < 0x800 then 2 else 3) + Utf8Length(t[1..])
  }

  /** The value of a parsed object's member, when it is a string. */
  function MemberText(members: seq<T.Member>, name: Text): Option<Text> {
    var value := T.KeptValue(members, name);
    if value.Some? && value.value.String? then Some(value.value.units) else None
  }

  /** `parseDesktopExchangeRequest`, from the decoded body text on. */
  function ParseExchange(body: Text): Option<Exchange> {
    if Utf8Length(body) > MAX_BODY_BYTES || G.ParseDocument(body).None? then None
    else
      var tree := T.DocumentTree(body);
      if !tree.Object? || |T.KeyNames(tree.members)| != 4 then None
      else
        var code, verifier, nonce :=
          MemberText(tree.members, CODE), MemberText(tree.members, CODE_VERIFIER_KEY), MemberText(tree.members, NONCE);
        if !Bounded(code, 8, 512) || !Bounded(verifier, 43, 128) || !Bounded(nonce, 16, 512)
           || MemberText(tree.members, REDIRECT_URI_KEY) != Some(CALLBACK_URI)
        then None
        else Some(Exchange(code.value, verifier.value, nonce.value, CALLBACK_URI))
  }

  /** The `content-length` header as the parser reads it with `Number`. */
  datatype Declared = Absent | NotFinite | Length(bytes: real)

  predicate DeclaredFits(declared: Declared) {
    declared.Absent? || (declared.Length? && 0.0 <= declared.bytes <= MAX_BODY_BYTES as real)
  }

  /**
   The declared length can only refuse: the bytes that arrive, however they are cut into
   chunks, decide the rest. An understated length does not let a longer body through.
   */
  method ReadBoundedBody(declared: Declared, stream: Option<seq<Bytes>>) returns (body: Option<Bytes>)
    ensures body.Some? <==> DeclaredFits(declared) && stream.Some? && |Flat(stream.value)| <= MAX_BODY_BYTES
    ensures body.Some? ==> body.value == Flat(stream.value)
  {
    hide DeclaredFits, Flat;
    FlatNothing();
    if !DeclaredFits(declared) || stream.None? {
      return None;
    }
    var chunks := stream.value;
    var total := 0;
    var kept: seq<Bytes> := [];
    for i := 0 to |chunks|
      invariant kept == chunks[..i] && total == |Flat(kept)| <= MAX_BODY_BYTES
    {
      FlatStep(chunks, i);
      total := total + |chunks[i]|;
      if total > MAX_BODY_BYTES {
        FlatGrows(chunks, i + 1);
        return None;
      }
      kept := kept + [chunks[i]];
      assert chunks[..i + 1] == chunks[..i] + [chunks[i]];
    }
    assert chunks[..|chunks|] == chunks;
    var bytes: Bytes := [];
    for i := 0 to |kept|
      invariant bytes == Flat(kept[..i])
    {
      FlatStep(kept, i);
      bytes := bytes + kept[i];
    }
    assert kept[..|kept|] == kept;
    return Some(bytes);
  }

  function Flat(chunks: seq<Bytes>): Bytes {
    if chunks == [] then [] else Flat(chunks[..|chunks| - 1]) + chunks[|chunks| - 1]
  }

  lemma FlatNothing()
    ensures Flat([]) == []
  {
  }

  lemma FlatStep(chunks: seq<Bytes>, i: nat)
    requires i < |chunks|
    ensures Flat(chunks[..i + 1]) == Flat(chunks[..i]) + chunks[i]
  {
    assert chunks[..i + 1][..i] == chunks[..i];
  }

  lemma {:induction false} FlatGrows(chunks: seq<Bytes>, n: nat)
    requires n <= |chunks|
    ensures |Flat(chunks[..n])| <= |Flat(chunks)|
    decreases |chunks|
  {
    if n < |chunks| {
      var front := chunks[..|chunks| - 1];
      FlatGrows(front, n);
      assert front[..n] == chunks[..n];
    } else {
      assert chunks[..n] == chunks;
    }
  }

  // ----- redeeming a code

  /** The bounds `exchange` checks before it touches the store. */
  predicate MayConsume(e: Exchange) {
    Within(e.code, 8, 512) && Within(e.codeVerifier, 43, 128) && Within(e.nonce, 16, 512) && e.redirectUri == CALLBACK_URI
  }

  /** The checks after the record was taken out of the store. */
  predicate Redeems(sha: Sha, record: Record, e: Exchange, now: int) {
    && record.expiresAt > now
    && record.redirectUri == e.redirectUri
    && record.nonce == e.nonce
    && record.codeChallenge == Digest(sha, e.codeVerifier)
  }

  /** The checks of the session service before a session is created. */
  predicate MayOpenSession(principal: Principal, now: int) {
    Within(principal.providerSessionId, 1, 512) && Within(principal.userId, 1, 512) && principal.providerExpiresAt > now
  }

  // ----- the round trip

  lemma AttemptFields(sha: Sha, r: Randomness, now: int, ttlMs: int)
    requires IsSha(sha) && IsRandomness(r) && 0 < ttlMs <= MAX_ATTEMPT_TTL_MS
    ensures var a := CreateAttempt(sha, r, now, ttlMs).value;
            && |a.codeChallenge| == 43 && |a.codeVerifier| == 64 && |a.nonce| == 43 && |a.state| == 43
            && IsBase64Url(a.codeChallenge) && IsBase64Url(a.codeVerifier) && IsBase64Url(a.nonce) && IsBase64Url(a.state)
            && a.codeChallenge == Digest(sha, a.codeVerifier) && a.redirectUri == CALLBACK_URI && a.expiresAt == now + ttlMs
  {
    hide EncodeUrlSafe, IsBase64Url, Ascii;
    EncodeIsUrlSafe(r.verifier);
    EncodeIsUrlSafe(r.nonce);
    EncodeIsUrlSafe(r.state);
    EncodeIsUrlSafe(sha(EncodeUrlSafe(r.verifier)));
  }

  lemma ParameterNames()
    ensures CLIENT != CODE_CHALLENGE && CLIENT != CODE_CHALLENGE_METHOD && CLIENT != NONCE && CLIENT != REDIRECT_URI
    ensures CLIENT != RESPONSE_TYPE && CLIENT != STATE && CODE_CHALLENGE != CODE_CHALLENGE_METHOD && CODE_CHALLENGE != NONCE
    ensures CODE_CHALLENGE != REDIRECT_URI && CODE_CHALLENGE != RESPONSE_TYPE && CODE_CHALLENGE != STATE
    ensures CODE_CHALLENGE_METHOD != NONCE && CODE_CHALLENGE_METHOD != REDIRECT_URI && CODE_CHALLENGE_METHOD != RESPONSE_TYPE
    ensures CODE_CHALLENGE_METHOD != STATE && NONCE != REDIRECT_URI && NONCE != RESPONSE_TYPE && NONCE != STATE
    ensures REDIRECT_URI != RESPONSE_TYPE && REDIRECT_URI != STATE && RESPONSE_TYPE != STATE
    ensures CODE != NONCE && CODE != STATE && CODE !in FORBIDDEN && NONCE !in FORBIDDEN && STATE !in FORBIDDEN
  {
    assert |CLIENT| == 6 && |CODE_CHALLENGE| == 14 && |CODE_CHALLENGE_METHOD| == 21 && |NONCE| == 5 && |REDIRECT_URI| == 12;
    assert |RESPONSE_TYPE| == 13 && |STATE| == 5 && |CODE| == 4;
    assert NONCE[0] == 0x6E && STATE[0] == 0x73;
    assert forall f | f in FORBIDDEN :: |f| > 5;
  }

  lemma {:induction false} GetAt(query: Query, k: nat)
    requires k < |query| && forall j | 0 <= j < k :: query[j].name != query[k].name
    ensures Get(query, query[k].name) == Some(query[k].value)
    decreases |query|
  {
    if k > 0 {
      GetAt(query[1..], k - 1);
    }
  }

  lemma RequestValues(attempt: Attempt)
    ensures var q := AuthorizationQuery(attempt);
            && Get(q, CLIENT) == Some(DESKTOP) && Get(q, CODE_CHALLENGE) == Some(attempt.codeChallenge)
            && Get(q, CODE_CHALLENGE_METHOD) == Some(S256) && Get(q, NONCE) == Some(attempt.nonce)
            && Get(q, REDIRECT_URI) == Some(attempt.redirectUri) && Get(q, RESPONSE_TYPE) == Some(CODE)
            && Get(q, STATE) == Some(attempt.state)
  {
    hide Ascii, Get;
    ParameterNames();
    var q := AuthorizationQuery(attempt);
    GetAt(q, 0);
    GetAt(q, 1);
    GetAt(q, 2);
    GetAt(q, 3);
    GetAt(q, 4);
    GetAt(q, 5);
    GetAt(q, 6);
  }

  lemma RequestNames(attempt: Attempt)
    ensures var q := AuthorizationQuery(attempt);
            && |q| == 7 && (forall p | p in q :: p.name in AUTHORIZATION_PARAMETERS) && !HasDuplicates(q)
  {
    hide Ascii;
    ParameterNames();
  }

  /** Every attempt the client creates is accepted as it is by the authorization parser. */
  lemma RequestIsAccepted(attempt: Attempt)
    requires Bounded(Some(attempt.codeChallenge), 43, 128) && Bounded(Some(attempt.nonce), 16, 512) && Bounded(Some(attempt.state), 16, 512)
    requires attempt.redirectUri == CALLBACK_URI
    ensures ParseAuthorization(AuthorizationQuery(attempt))
         == Some(Request(attempt.codeChallenge, attempt.nonce, CALLBACK_URI, attempt.state))
  {
    hide Ascii, IsBase64Url, Bounded, Get, HasDuplicates, AuthorizationQuery;
    RequestNames(attempt);
    RequestValues(attempt);
  }

  /** The issued callback is accepted before the attempt expires, with all fields unchanged. */
  lemma CallbackIsAccepted(attempt: Attempt, code: Text, now: int)
    requires now < attempt.expiresAt && 8 <= |code| <= 512
    ensures ReadCallback(attempt, Callback(Request(attempt.codeChallenge, attempt.nonce, CALLBACK_URI, attempt.state), code), now)
         == Some(Exchange(code, attempt.codeVerifier, attempt.nonce, CALLBACK_URI))
  {
    hide Ascii;
    ParameterNames();
    var q := Callback(Request(attempt.codeChallenge, attempt.nonce, CALLBACK_URI, attempt.state), code).query;
    GetAt(q, 0);
    GetAt(q, 1);
    GetAt(q, 2);
  }

  // ----- the body, as JSON text

  lemma FieldIsWf(name: Text, value: Text)
    ensures G.WfRow(true, Field(name, value))
    ensures T.MemberOf(Field(name, value)) == T.Member(name, T.String(value))
  {
    hide G.Decode;
    C.QuoteRoundTrip(name);
    C.QuoteRoundTrip(value);
  }

  lemma {:induction false} RowsMembers(rows: seq<G.Row>)
    requires rows != [] && forall k | 0 <= k < |rows| :: G.WfRow(true, rows[k])
    ensures G.WfRows(true, C.ToRows(rows))
    ensures T.MembersOf(C.ToRows(rows)) == seq(|rows|, k requires 0 <= k < |rows| => T.MemberOf(rows[k]))
    decreases |rows|
  {
    hide G.WfRow, T.MemberOf;
    C.ToRowsWf(true, rows);
    if |rows| > 1 {
      RowsMembers(rows[1..]);
    }
  }

  function BodyMembers(e: Exchange): seq<T.Member> {
    [ T.Member(CODE, T.String(e.code)), T.Member(CODE_VERIFIER_KEY, T.String(e.codeVerifier)),
      T.Member(NONCE, T.String(e.nonce)), T.Member(REDIRECT_URI_KEY, T.String(e.redirectUri))]
  }

  /** The printed body reads back as an object with the four fields. */
  lemma BodyTree(e: Exchange)
    ensures G.ParseDocument(ExchangeBody(e)).Some?
    ensures T.DocumentTree(ExchangeBody(e)) == T.Object(BodyMembers(e))
  {
    hide G.ParseDocument, G.DocumentText, G.WfRow, T.MemberOf, C.ToRows, Ascii, C.QuoteUnits, G.Decode;
    FieldIsWf(CODE, e.code);
    FieldIsWf(CODE_VERIFIER_KEY, e.codeVerifier);
    FieldIsWf(NONCE, e.nonce);
    FieldIsWf(REDIRECT_URI_KEY, e.redirectUri);
    var rows := BodyRows(e);
    RowsMembers(rows);
    assert T.MembersOf(C.ToRows(rows)) == BodyMembers(e);
    assert G.IsBlank([]);
    G.DocumentTextParses(BodyDocument(e));
  }

  lemma KeyWords()
    ensures CODE != CODE_VERIFIER_KEY && CODE != NONCE && CODE != REDIRECT_URI_KEY
    ensures CODE_VERIFIER_KEY != NONCE && CODE_VERIFIER_KEY != REDIRECT_URI_KEY && NONCE != REDIRECT_URI_KEY
  {
    assert |CODE| == 4 && |CODE_VERIFIER_KEY| == 12 && |NONCE| == 5 && |REDIRECT_URI_KEY| == 11;
  }

  lemma BodyFields(e: Exchange)
    ensures var m := BodyMembers(e);
            && |T.KeyNames(m)| == 4
            && MemberText(m, CODE) == Some(e.code) && MemberText(m, CODE_VERIFIER_KEY) == Some(e.codeVerifier)
            && MemberText(m, NONCE) == Some(e.nonce) && MemberText(m, REDIRECT_URI_KEY) == Some(e.redirectUri)
  {
    hide Ascii, T.KeptValue;
    KeyWords();
    var m := BodyMembers(e);
    T.KeptValueAt(m, 0);
    T.KeptValueAt(m, 1);
    T.KeptValueAt(m, 2);
    T.KeptValueAt(m, 3);
    assert T.KeyNames(m) == {CODE, CODE_VERIFIER_KEY, NONCE, REDIRECT_URI_KEY};
  }

  lemma {:induction false} PlainQuote(t: Text)
    requires forall k | 0 <= k < |t| :: 0x20 <= t[k] < 0x80 && t[k] != G.QUOTE && t[k] != G.BACKSLASH
    ensures C.QuoteUnits(t) == t && Utf8Length(t) == |t|
    decreases |t|
  {
    if t != [] {
      PlainQuote(t[1..]);
      assert t == [t[0]] + t[1..];
    }
  }

  lemma {:induction false} Utf8Append(a: Text, b: Text)
    requires forall k | 0 <= k < |a| :: a[k] < 0x80
    ensures Utf8Length(a + b) == |a| + Utf8Length(b)
    decreases |a|
  {
    if a == [] {
      assert a + b == b;
    } else {
      assert (a + b)[1..] == a[1..] + b;
      Utf8Append(a[1..], b);
    }
  }

  predicate IsPlain(t: Text) {
    forall k | 0 <= k < |t| :: 0x20 <= t[k] < 0x80 && t[k] != G.QUOTE && t[k] != G.BACKSLASH
  }

  lemma Base64IsPlain(t: Text)
    requires IsBase64Url(t)
    ensures IsPlain(t)
  {
  }

  lemma KeysArePlain()
    ensures IsPlain(CODE) && IsPlain(CODE_VERIFIER_KEY) && IsPlain(NONCE) && IsPlain(REDIRECT_URI_KEY) && IsPlain(CALLBACK_URI)
    ensures |CODE| == 4 && |CODE_VERIFIER_KEY| == 12 && |NONCE| == 5 && |REDIRECT_URI_KEY| == 11 && |CALLBACK_URI| == 20
  {
  }

  predicate IsAscii(t: Text) {
    forall k | 0 <= k < |t| :: t[k] < 0x80
  }

  lemma FieldText(name: Text, value: Text)
    requires IsPlain(name) && IsPlain(value)
    ensures IsAscii(G.RowText(Field(name, value))) && |G.RowText(Field(name, value))| == |name| + |value| + 5
  {
    hide C.QuoteUnits, Utf8Length;
    PlainQuote(name);
    PlainQuote(value);
    var text := G.QuotedText(name) + ([G.COLON] + G.QuotedText(value));
    assert G.RowText(Field(name, value)) == text;
    assert |text| == |name| + |value| + 5;
    PlainIsAscii(name);
    PlainIsAscii(value);
    hide IsPlain;
    assert forall k | 0 <= k < |text| :: text[k] < 0x80;
  }

  lemma PlainIsAscii(t: Text)
    requires IsPlain(t)
    ensures IsAscii(G.QuotedText(t)) && |G.QuotedText(t)| == |t| + 2
  {
  }

  lemma {:induction false} RowsAscii(rows: seq<G.Row>)
    requires rows != [] && forall k | 0 <= k < |rows| :: IsAscii(G.RowText(rows[k]))
    ensures IsAscii(G.RowsText(C.ToRows(rows)))
    decreases |rows|
  {
    hide G.RowText;
    if |rows| > 1 {
      RowsAscii(rows[1..]);
    }
  }

  function TotalLength(rows: seq<G.Row>): nat {
    if rows == [] then 0 else |G.RowText(rows[0])| + TotalLength(rows[1..])
  }

  lemma {:induction false} RowsLength(rows: seq<G.Row>)
    requires rows != []
    ensures |G.RowsText(C.ToRows(rows))| == TotalLength(rows) + |rows| - 1
    decreases |rows|
  {
    hide G.RowText;
    if |rows| > 1 {
      RowsLength(rows[1..]);
    }
  }

  lemma TotalOfFour(a: G.Row, b: G.Row, c: G.Row, d: G.Row)
    ensures TotalLength([a, b, c, d]) == |G.RowText(a)| + |G.RowText(b)| + |G.RowText(c)| + |G.RowText(d)|
  {
    hide G.RowText;
    assert [a, b, c, d][1..] == [b, c, d] && [b, c, d][1..] == [c, d] && [c, d][1..] == [d] && [d][1..] == [];
    assert TotalLength([d]) == |G.RowText(d)|;
    assert TotalLength([c, d]) == |G.RowText(c)| + TotalLength([d]);
    assert TotalLength([b, c, d]) == |G.RowText(b)| + TotalLength([c, d]);
  }

  /** The body of an exchange with bounded fields fits the limit: at most 1229 bytes. */
  lemma BodyFits(e: Exchange)
    requires Bounded(Some(e.code), 8, 512) && Bounded(Some(e.codeVerifier), 43, 128) && Bounded(Some(e.nonce), 16, 512)
    requires e.redirectUri == CALLBACK_URI
    ensures Utf8Length(ExchangeBody(e)) <= 1229
  {
    hide Ascii, IsBase64Url, G.RowText, G.RowsText, C.ToRows, IsPlain, Utf8Length, C.QuoteUnits, TotalLength;
    KeysArePlain();
    Base64IsPlain(e.code);
    Base64IsPlain(e.codeVerifier);
    Base64IsPlain(e.nonce);
    FieldText(CODE, e.code);
    FieldText(CODE_VERIFIER_KEY, e.codeVerifier);
    FieldText(NONCE, e.nonce);
    FieldText(REDIRECT_URI_KEY, e.redirectUri);
    var rows := BodyRows(e);
    RowsAscii(rows);
    RowsLength(rows);
    TotalOfFour(rows[0], rows[1], rows[2], rows[3]);
    var body := ExchangeBody(e);
    assert IsAscii(body);
    Utf8Append(body, []);
    assert body + [] == body;
    Utf8Nothing();
  }

  lemma Utf8Nothing()
    ensures Utf8Length([]) == 0
  {
  }

  /** The exchange body the client prints is accepted by the exchange parser, with all fields unchanged. */
  lemma ExchangeIsAccepted(e: Exchange)
    requires Bounded(Some(e.code), 8, 512) && Bounded(Some(e.codeVerifier), 43, 128) && Bounded(Some(e.nonce), 16, 512)
    requires e.redirectUri == CALLBACK_URI
    ensures ParseExchange(ExchangeBody(e)) == Some(e)
  {
    hide Ascii, Bounded, ExchangeBody, G.ParseDocument, T.DocumentTree, T.KeyNames, MemberText, Utf8Length;
    BodyFits(e);
    BodyTree(e);
    BodyFields(e);
  }

  /**
   End to end: an attempt of the client, the code issued for its request, the callback read
   before the attempt expires and the exchange redeemed before the code expires are all
   accepted, and every field arrives as it was created.
   */
  lemma SignInSucceeds(sha: Sha, r: Randomness, principal: Principal, codeBytes: Bytes, ttlMs: int, codeTtlMs: int,
                       created: int, checkedAt: int, savedAt: int, consumed: int, redeemed: int, openedAt: int)
    requires IsSha(sha) && IsRandomness(r) && |codeBytes| == 32
    requires 0 < ttlMs <= MAX_ATTEMPT_TTL_MS && 0 < codeTtlMs <= MAX_CODE_TTL_MS
    requires consumed < created + ttlMs && redeemed < savedAt + codeTtlMs
    requires Within(principal.providerSessionId, 1, 512) && Within(principal.userId, 1, 512)
    requires principal.email.Some? ==> Within(principal.email.value, 1, 320)
    requires principal.providerExpiresAt > checkedAt && principal.providerExpiresAt > openedAt
    ensures var attempt := CreateAttempt(sha, r, created, ttlMs).value;
            var request := Request(attempt.codeChallenge, attempt.nonce, CALLBACK_URI, attempt.state);
            var code := EncodeUrlSafe(codeBytes);
            var exchange := Exchange(code, attempt.codeVerifier, attempt.nonce, CALLBACK_URI);
            var record := IssuedRecord(sha, request, principal, savedAt, codeTtlMs, code);
            && ParseAuthorization(AuthorizationQuery(attempt)) == Some(request)
            && MayIssue(request, principal, checkedAt)
            && ReadCallback(attempt, Callback(request, code), consumed) == Some(exchange)
            && ParseExchange(ExchangeBody(exchange)) == Some(exchange)
            && MayConsume(exchange)
            && record.codeDigest == Digest(sha, exchange.code)
            && Redeems(sha, record, exchange, redeemed)
            && MayOpenSession(record.principal, openedAt)
  {
    hide Ascii, IsBase64Url, EncodeUrlSafe, ParseAuthorization, AuthorizationQuery, ParseExchange, ExchangeBody, ReadCallback, IsSha;
    AttemptFields(sha, r, created, ttlMs);
    EncodeIsUrlSafe(codeBytes);
    var attempt := CreateAttempt(sha, r, created, ttlMs).value;
    var code := EncodeUrlSafe(codeBytes);
    RequestIsAccepted(attempt);
    CallbackIsAccepted(attempt, code, consumed);
    ExchangeIsAccepted(Exchange(code, attempt.codeVerifier, attempt.nonce, CALLBACK_URI));
  }
}
