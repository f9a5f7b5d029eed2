/** What each side of a desktop sign-in accepts, exactly: every other input is refused. */
module DesktopAcceptance {
  import opened CodeUnits
  import opened Base64Url
  import opened DesktopAuthorization
  import opened DesktopCodes
  import G = JsonGrammar
  import T = JsonTree
  import C = CanonicalJson

  // ----- queries

  predicate NamesOnce(query: Query) {
    forall i, j | 0 <= i < j < |query| :: query[i].name != query[j].name
  }

  function Names(query: Query): set<Text> {
    set p | p in query :: p.name
  }

  /** The query gives the name this value; a name that is not given has the empty value. */
  predicate Reads(query: Query, name: Text, value: Text) {
    Param(name, value) in query || (value == [] && name !in Names(query))
  }

  lemma {:induction false} GetIs(query: Query, name: Text)
    requires NamesOnce(query)
    ensures Get(query, name).None? <==> name !in Names(query)
    ensures forall value :: Get(query, name) == Some(value) <==> Param(name, value) in query
    decreases |query|
  {
    if query != [] {
      GetIs(query[1..], name);
      assert forall p :: p in query <==> p == query[0] || p in query[1..];
      assert query[0] == Param(query[0].name, query[0].value);
      forall p | p in query[1..]
        ensures p.name != query[0].name
      {
        var k :| 0 <= k < |query[1..]| && query[1..][k] == p;
        assert query[k + 1] == p;
      }
    }
  }

  lemma ReadsIs(query: Query, name: Text)
    requires NamesOnce(query)
    ensures forall value :: OrEmpty(Get(query, name)) == value <==> Reads(query, name, value)
  {
    hide Get;
    GetIs(query, name);
  }

  // ----- the callback

  /** The query names every parameter once and none of the credentials. */
  predicate IsCleanQuery(query: Query) {
    NamesOnce(query) && Names(query) !! FORBIDDEN
  }

  /**
   An exchange comes out of a callback if and only if the attempt has not expired, the callback
   goes to the one callback address, its query is clean, it gives the attempt's own state and
   nonce and a code of 8 to 512 units; and the exchange is of that code, with the verifier and
   the nonce of the attempt.
   */
  lemma CallbackIsExact(attempt: Attempt, callback: Url, now: int, e: Exchange)
    ensures ReadCallback(attempt, callback, now) == Some(e) <==>
              && now < attempt.expiresAt && callback.target == CALLBACK_URI && IsCleanQuery(callback.query)
              && Reads(callback.query, STATE, attempt.state) && Reads(callback.query, NONCE, attempt.nonce)
              && Param(CODE, e.code) in callback.query && 8 <= |e.code| <= 512
              && e.codeVerifier == attempt.codeVerifier && e.nonce == attempt.nonce && e.redirectUri == CALLBACK_URI
  {
    hide Ascii, Get, Reads, Names;
    var q := callback.query;
    CleanIs(q);
    if NamesOnce(q) {
      ReadsIs(q, STATE);
      ReadsIs(q, NONCE);
      ReadsIs(q, CODE);
      CodeIsGiven(q, e.code);
    }
  }

  lemma CleanIs(query: Query)
    ensures IsCleanQuery(query) <==> !(exists p | p in query :: p.name in FORBIDDEN) && !HasDuplicates(query)
  {
    hide Ascii;
    if Names(query) !! FORBIDDEN {
      forall p | p in query
        ensures p.name !in FORBIDDEN
      {
        assert p.name in Names(query);
      }
    }
  }

  lemma CodeIsGiven(query: Query, code: Text)
    ensures code != [] ==> (Reads(query, CODE, code) <==> Param(CODE, code) in query)
  {
  }

  // ----- the authorization request

  lemma {:induction false} NamesCount(query: Query)
    ensures |Names(query)| <= |query|
    ensures |Names(query)| == |query| <==> NamesOnce(query)
    decreases |query|
  {
    hide Names, NamesOnce;
    if query == [] {
      NoNames();
    } else {
      NamesCount(query[1..]);
      NamesBehind(query);
      OneMore(Names(query[1..]), query[0].name);
    }
  }

  lemma NoNames()
    ensures Names([]) == {} && NamesOnce([])
  {
  }

  lemma NamesBehind(query: Query)
    requires query != []
    ensures Names(query) == Names(query[1..]) + {query[0].name}
    ensures NamesOnce(query) <==> NamesOnce(query[1..]) && query[0].name !in Names(query[1..])
  {
    hide NamesOnce;
    var rest := query[1..];
    assert forall p :: p in query <==> p == query[0] || p in rest;
    if query[0].name in Names(rest) {
      var p :| p in rest && p.name == query[0].name;
      var k :| 0 <= k < |rest| && rest[k] == p;
      Repeated(query, k + 1);
    } else {
      NotRepeated(query);
    }
  }

  lemma Repeated(query: Query, k: nat)
    requires 0 < k < |query| && query[k].name == query[0].name
    ensures !NamesOnce(query)
  {
  }

  lemma NotRepeated(query: Query)
    requires query != [] && query[0].name !in Names(query[1..])
    ensures NamesOnce(query) <==> NamesOnce(query[1..])
  {
    var rest := query[1..];
    assert forall k | 0 < k < |query| :: query[k] == rest[k - 1] && query[k].name in Names(rest);
    assert forall k | 0 <= k < |rest| :: rest[k] == query[k + 1];
  }

  lemma SubsetOfSize(a: set<Text>, b: set<Text>)
    requires a <= b && |b| <= |a|
    ensures a == b
  {
    assert b == a + (b - a);
    assert |b| == |a| + |b - a|;
  }

  lemma FourParameters()
    ensures |{CLIENT, CODE_CHALLENGE, CODE_CHALLENGE_METHOD, NONCE}| == 4
  {
    hide Ascii;
    ParameterNames();
    var one := {CLIENT};
    var two := one + {CODE_CHALLENGE};
    var three := two + {CODE_CHALLENGE_METHOD};
    OneMore(one, CODE_CHALLENGE);
    OneMore(two, CODE_CHALLENGE_METHOD);
    OneMore(three, NONCE);
    assert {CLIENT, CODE_CHALLENGE, CODE_CHALLENGE_METHOD, NONCE} == three + {NONCE};
  }

  lemma SevenParameters()
    ensures |AUTHORIZATION_PARAMETERS| == 7
  {
    hide Ascii;
    FourParameters();
    ParameterNames();
    var four := {CLIENT, CODE_CHALLENGE, CODE_CHALLENGE_METHOD, NONCE};
    var five := four + {REDIRECT_URI};
    var six := five + {RESPONSE_TYPE};
    OneMore(four, REDIRECT_URI);
    OneMore(five, RESPONSE_TYPE);
    OneMore(six, STATE);
    assert AUTHORIZATION_PARAMETERS == six + {STATE};
  }

  lemma OneMore(names: set<Text>, name: Text)
    ensures |names + {name}| == if name in names then |names| else |names| + 1
  {
    if name in names {
      assert names + {name} == names;
    }
  }

  /** The seven parameters, in any order. */
  predicate Asks(query: Query, r: Request) {
    && |query| == 7
    && Param(CLIENT, DESKTOP) in query && Param(CODE_CHALLENGE, r.codeChallenge) in query
    && Param(CODE_CHALLENGE_METHOD, S256) in query && Param(NONCE, r.nonce) in query
    && Param(REDIRECT_URI, CALLBACK_URI) in query && Param(RESPONSE_TYPE, CODE) in query && Param(STATE, r.state) in query
  }

  predicate IsBounded(t: Text, minimum: nat, maximum: nat) {
    minimum <= |t| <= maximum && IsBase64Url(t)
  }

  lemma SevenNames(query: Query)
    requires |query| == 7 && AUTHORIZATION_PARAMETERS <= Names(query)
    ensures NamesOnce(query) && Names(query) == AUTHORIZATION_PARAMETERS
  {
    hide Ascii;
    SevenParameters();
    NamesCount(query);
    SubsetOfSize(AUTHORIZATION_PARAMETERS, Names(query));
  }

  lemma AskedNames(query: Query, r: Request)
    requires Asks(query, r)
    ensures AUTHORIZATION_PARAMETERS <= Names(query)
  {
    hide Ascii;
  }

  lemma WellNamed(query: Query)
    ensures NamesOnce(query) <==> !HasDuplicates(query)
    ensures Names(query) <= AUTHORIZATION_PARAMETERS <==> !exists p | p in query :: p.name !in AUTHORIZATION_PARAMETERS
  {
    hide Ascii;
    if Names(query) <= AUTHORIZATION_PARAMETERS {
      forall p | p in query
        ensures p.name in AUTHORIZATION_PARAMETERS
      {
        assert p.name in Names(query);
      }
    }
  }

  /**
   A request comes out of an authorization query if and only if the query is just the seven
   parameters, in any order, with the fixed ones at their fixed values and the others within
   their bounds; and it comes out with those values.
   */
  lemma AuthorizationIsExact(query: Query, r: Request)
    ensures ParseAuthorization(query) == Some(r) <==>
              && Asks(query, r) && r.redirectUri == CALLBACK_URI
              && IsBounded(r.codeChallenge, 43, 128) && IsBounded(r.nonce, 16, 512) && IsBounded(r.state, 16, 512)
  {
    hide Ascii, Get, Names, IsBase64Url, NamesOnce, HasDuplicates;
    WellNamed(query);
    if Asks(query, r) {
      AskedNames(query, r);
      SevenNames(query);
    }
    if NamesOnce(query) {
      GetIs(query, CLIENT);
      GetIs(query, CODE_CHALLENGE);
      GetIs(query, CODE_CHALLENGE_METHOD);
      GetIs(query, NONCE);
      GetIs(query, REDIRECT_URI);
      GetIs(query, RESPONSE_TYPE);
      GetIs(query, STATE);
    }
  }

  // ----- the exchange body

  /** The last member of the name is this string. */
  ghost predicate HasText(members: seq<T.Member>, name: Text, value: Text) {
    exists k: nat :: T.LastNamed(members, k, name) && members[k].value == T.String(value)
  }

  lemma TextIs(members: seq<T.Member>, name: Text)
    ensures forall value :: MemberText(members, name) == Some(value) <==> HasText(members, name, value)
    ensures MemberText(members, name).Some? ==> name in T.KeyNames(members)
  {
    hide T.KeptValue, T.LastNamed;
    T.KeptIsLast(members, name);
    LastIsNamed(members, name);
  }

  lemma LastIsNamed(members: seq<T.Member>, name: Text)
    ensures forall k: nat | T.LastNamed(members, k, name) :: name in T.KeyNames(members)
  {
  }

  /** The names of an exchange body. */
  const EXCHANGE_KEYS: set<Text> := {CODE, CODE_VERIFIER_KEY, NONCE, REDIRECT_URI_KEY}

  lemma FourKeys(names: set<Text>)
    requires EXCHANGE_KEYS <= names
    ensures |names| == 4 <==> names == EXCHANGE_KEYS
  {
    hide Ascii;
    KeyWords();
    var one := {CODE};
    var two := one + {CODE_VERIFIER_KEY};
    var three := two + {NONCE};
    assert |two| == 2 && |three| == 3;
    assert EXCHANGE_KEYS == three + {REDIRECT_URI_KEY};
    assert |EXCHANGE_KEYS| == 4;
    if |names| == 4 {
      SubsetOfSize(EXCHANGE_KEYS, names);
    }
  }

  /**
   An exchange comes out of a body if and only if the body has at most 4096 bytes and is, in any
   layout, an object of just the four names, each last given as a string within its bounds, the
   address being the callback address.
   */
  lemma ExchangeIsExact(body: Text, e: Exchange)
    ensures ParseExchange(body) == Some(e) <==>
              && Utf8Length(body) <= 4096 && G.ParseDocument(body).Some? && T.DocumentTree(body).Object?
              && var members := T.DocumentTree(body).members;
              && T.KeyNames(members) == EXCHANGE_KEYS
              && HasText(members, CODE, e.code) && HasText(members, CODE_VERIFIER_KEY, e.codeVerifier)
              && HasText(members, NONCE, e.nonce) && HasText(members, REDIRECT_URI_KEY, e.redirectUri)
              && IsBounded(e.code, 8, 512) && IsBounded(e.codeVerifier, 43, 128) && IsBounded(e.nonce, 16, 512)
              && e.redirectUri == CALLBACK_URI
  {
    hide Ascii, Utf8Length, G.ParseDocument, T.DocumentTree, T.KeyNames, MemberText, HasText, IsBase64Url;
    if G.ParseDocument(body).Some? && T.DocumentTree(body).Object? {
      var members := T.DocumentTree(body).members;
      TextIs(members, CODE);
      TextIs(members, CODE_VERIFIER_KEY);
      TextIs(members, NONCE);
      TextIs(members, REDIRECT_URI_KEY);
      if EXCHANGE_KEYS <= T.KeyNames(members) {
        FourKeys(T.KeyNames(members));
      }
    }
  }

  /** The length counts 1 to 3 bytes for a unit and 4 for a surrogate pair, and adds up wherever no pair is cut. */
  lemma {:induction false} Utf8Adds(a: Text, b: Text)
    requires a != [] && b != [] ==> !(C.IsHighSurrogate(a[|a| - 1]) && C.IsLowSurrogate(b[0]))
    ensures Utf8Length(a + b) == Utf8Length(a) + Utf8Length(b)
    ensures forall c: CodeUnit :: Utf8Length([c]) == if c < 0x80 then 1 else if c < 0x800 then 2 else 3
    ensures forall c: CodeUnit, d: CodeUnit :: Utf8Length([c, d]) ==
              if 0xD800 <= c <= 0xDBFF && 0xDC00 <= d <= 0xDFFF then 4 else Utf8Length([c]) + Utf8Length([d])
    decreases |a|
  {
    Utf8OfUnits();
    if a == [] {
      assert a + b == b;
    } else if |a| > 1 && C.IsHighSurrogate(a[0]) && C.IsLowSurrogate(a[1]) {
      assert (a + b)[2..] == a[2..] + b;
      Utf8Adds(a[2..], b);
    } else {
      assert (a + b)[1..] == a[1..] + b;
      Utf8Adds(a[1..], b);
    }
  }

  lemma Utf8OfUnits()
    ensures forall c: CodeUnit :: Utf8Length([c]) == if c < 0x80 then 1 else if c < 0x800 then 2 else 3
    ensures forall c: CodeUnit, d: CodeUnit :: Utf8Length([c, d]) ==
              if 0xD800 <= c <= 0xDBFF && 0xDC00 <= d <= 0xDFFF then 4 else Utf8Length([c]) + Utf8Length([d])
  {
    forall c: CodeUnit
      ensures Utf8Length([c]) == if c < 0x80 then 1 else if c < 0x800 then 2 else 3
    {
      assert [c][1..] == [];
    }
    forall c: CodeUnit, d: CodeUnit
      ensures Utf8Length([c, d]) == if 0xD800 <= c <= 0xDBFF && 0xDC00 <= d <= 0xDFFF then 4 else Utf8Length([c]) + Utf8Length([d])
    {
      assert [c, d][1..] == [d] && [c, d][2..] == [];
    }
  }

  // ----- the server's two services

  /** A code is saved, and a callback answered, if and only if every field of request and principal is within its bounds. */
  lemma IssueIsExact(u: Setup, s: State, request: Request, principal: Principal, checkedAt: int, code: Text, savedAt: int)
    ensures var t := AfterIssue(u, s, Issue(request, principal, checkedAt, code, savedAt));
            var key := EncodeUrlSafe(u.sha(code));
            if && request.redirectUri == CALLBACK_URI && 43 <= |request.codeChallenge| <= 128
               && 16 <= |request.nonce| <= 512 && 16 <= |request.state| <= 512
               && 1 <= |principal.providerSessionId| <= 512 && 1 <= |principal.userId| <= 512
               && checkedAt < principal.providerExpiresAt
               && (principal.email.None? || 1 <= |principal.email.value| <= 320)
            then t.records == s.records[key := Record(request.codeChallenge, key, savedAt + u.codeTtlMs, request.nonce, CALLBACK_URI, principal)]
            else t == s
  {
    hide Ascii, EncodeUrlSafe;
  }

  /** The record that an exchange finds for its code. */
  predicate Finds(u: Setup, records: map<Text, Record>, e: Exchange, record: Record) {
    EncodeUrlSafe(u.sha(e.code)) in records && records[EncodeUrlSafe(u.sha(e.code))] == record
  }

  predicate InBounds(e: Exchange) {
    8 <= |e.code| <= 512 && 43 <= |e.codeVerifier| <= 128 && 16 <= |e.nonce| <= 512 && e.redirectUri == CALLBACK_URI
  }

  /**
   An exchange that runs alone opens a session if and only if its fields are within bounds, the
   store holds a record of its code, that has not expired and has its nonce, its address and the
   digest of its verifier, and the principal of the record is within bounds and not expired.
   The session is the principal's own; an exchange within bounds takes the record out, whether
   it succeeds or not, and one out of bounds touches nothing.
   */
  lemma ExchangeOpensIff(u: Setup, records: map<Text, Record>, e: Exchange, now: int, openedAt: int, credential: Text, sessionId: Text,
                         session: SessionRecord)
    ensures var t := Alone(u, records, e, now, openedAt, credential, sessionId);
            && |t.flights| == 1
            && t.records == (if InBounds(e) then records - {EncodeUrlSafe(u.sha(e.code))} else records)
            && (SessionsIn(t) == [session] <==>
                  && InBounds(e)
                  && session.credentialDigest == EncodeUrlSafe(u.sha(credential)) && session.sessionId == sessionId
                  && session.expiresAt == openedAt + u.sessionTtlMs
                  && exists record :: Finds(u, records, e, record) && Earns(u, record, e, now, openedAt) && record.principal == session.principal)
  {
    hide Ascii, EncodeUrlSafe;
    var key := EncodeUrlSafe(u.sha(e.code));
    if key !in records {
      assert records - {key} == records;
    } else {
      var record := records[key];
      assert Finds(u, records, e, record);
      assert forall other | Finds(u, records, e, other) :: other == record;
    }
  }

  predicate Earns(u: Setup, record: Record, e: Exchange, now: int, openedAt: int) {
    && now < record.expiresAt && record.redirectUri == e.redirectUri && record.nonce == e.nonce
    && record.codeChallenge == EncodeUrlSafe(u.sha(e.codeVerifier))
    && 1 <= |record.principal.providerSessionId| <= 512 && 1 <= |record.principal.userId| <= 512
    && openedAt < record.principal.providerExpiresAt
  }
}
