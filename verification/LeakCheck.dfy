/**
 The leak check: a response may carry a secret only in the one place it was issued in.
 Built on the scanners and the redactions over raw JSON text.
 */
module LeakCheck {
  import opened CodeUnits
  import opened JsonGrammar
  import opened JsonTree
  import opened JsonScanner
  import opened JsonScanning
  import opened JsonRedaction

  const HASH: CodeUnit := 0x23

  datatype Header = Header(name: Text, value: Text)

  datatype Response = Response(headers: seq<Header>, body: Text)

  datatype Exemption = Exemption(
    index: nat,
    header: Option<Text>,
    fragmentOnly: bool,
    bodyField: Option<Text>,
    providerSessionToken: bool)

  // ----- headers

  /** `exemptions.find((entry) => entry.header === name)` */
  function HeaderExemption(exemptions: seq<Exemption>, name: Text): Option<Exemption> {
    if exemptions == [] then None
    else if exemptions[0].header == Some(name) then Some(exemptions[0])
    else HeaderExemption(exemptions[1..], name)
  }

  function IndexOf(t: Text, c: CodeUnit): (i: nat)
    ensures i <= |t| && (i < |t| ==> t[i] == c)
    ensures forall k | 0 <= k < i :: t[k] != c
  {
    if t == [] || t[0] == c then 0 else 1 + IndexOf(t[1..], c)
  }

  /** The part of a header that is searched; None when none of it is. */
  function SearchedHeader(header: Header, exemptions: seq<Exemption>): Option<Text> {
    match HeaderExemption(exemptions, header.name)
    case None => Some(header.value)
    case Some(exemption) =>
      if !exemption.fragmentOnly then None
      else
        var hash := IndexOf(header.value, HASH);
        if hash == |header.value| then None else Some(header.value[..hash])
  }

  /** The `k`-th exemption is the first that names the header. */
  ghost predicate FirstNaming(exemptions: seq<Exemption>, k: nat, name: Text) {
    && k < |exemptions| && exemptions[k].header == Some(name)
    && forall j | 0 <= j < k :: exemptions[j].header != Some(name)
  }

  /**
   `part` is what the exemptions leave open of a header: all of it when none names it, and what
   stands before the first `#` when the first that names it speaks of the fragment only.
   */
  ghost predicate Exposed(header: Header, exemptions: seq<Exemption>, part: Text) {
    || (part == header.value && forall e | e in exemptions :: e.header != Some(header.name))
    || (HASH !in part && part + [HASH] <= header.value
        && exists k: nat :: FirstNaming(exemptions, k, header.name) && exemptions[k].fragmentOnly)
  }

  /** `HeaderExemption` finds the first exemption that names the header. */
  lemma {:induction false} ExemptionIsFirst(exemptions: seq<Exemption>, name: Text)
    ensures HeaderExemption(exemptions, name).None? <==> forall e | e in exemptions :: e.header != Some(name)
    ensures forall k: nat | FirstNaming(exemptions, k, name) :: HeaderExemption(exemptions, name) == Some(exemptions[k])
    ensures HeaderExemption(exemptions, name).Some? ==>
              exists k: nat :: FirstNaming(exemptions, k, name) && HeaderExemption(exemptions, name) == Some(exemptions[k])
  {
    if exemptions != [] {
      var rest := exemptions[1..];
      ExemptionIsFirst(rest, name);
      assert forall e :: e in exemptions <==> e == exemptions[0] || e in rest;
      if exemptions[0].header == Some(name) {
        assert FirstNaming(exemptions, 0, name);
      } else {
        forall k: nat | FirstNaming(exemptions, k, name)
          ensures HeaderExemption(exemptions, name) == Some(exemptions[k])
        {
          assert forall j | 0 <= j < k - 1 :: rest[j] == exemptions[j + 1];
          assert FirstNaming(rest, k - 1, name);
        }
        if HeaderExemption(rest, name).Some? {
          var k: nat :| FirstNaming(rest, k, name) && HeaderExemption(rest, name) == Some(rest[k]);
          assert forall j | 0 < j < k + 1 :: exemptions[j] == rest[j - 1];
          assert FirstNaming(exemptions, k + 1, name);
        }
      }
    }
  }

  /** The part that is searched is exactly the part that is left open. */
  lemma SearchedHeaderIs(header: Header, exemptions: seq<Exemption>, part: Text)
    ensures SearchedHeader(header, exemptions) == Some(part) <==> Exposed(header, exemptions, part)
  {
    hide HeaderExemption, IndexOf, FirstNaming;
    ExemptionIsFirst(exemptions, header.name);
    FirstHash(header.value, part);
  }

  lemma FirstHash(value: Text, part: Text)
    ensures HASH !in part && part + [HASH] <= value <==> IndexOf(value, HASH) < |value| && part == value[..IndexOf(value, HASH)]
  {
    hide IndexOf;
    var hash := IndexOf(value, HASH);
    if hash < |value| && part == value[..hash] {
      assert value[..hash + 1] == part + [HASH];
    }
    if HASH !in part && part + [HASH] <= value {
      assert value[|part|] == (part + [HASH])[|part|] == HASH;
      assert forall k | 0 <= k < |part| :: value[k] == (part + [HASH])[k] == part[k] && part[k] in part;
      assert hash == |part|;
    }
  }

  /** The searched parts, joined by spaces. */
  function JoinedHeaders(headers: seq<Header>, exemptions: seq<Exemption>): Text {
    JoinParts(SearchedHeaders(headers, exemptions))
  }

  function SearchedHeaders(headers: seq<Header>, exemptions: seq<Exemption>): seq<Text> {
    if headers == [] then []
    else
      var rest := SearchedHeaders(headers[1..], exemptions);
      match SearchedHeader(headers[0], exemptions)
      case None => rest
      case Some(part) => [part] + rest
  }

  function JoinParts(parts: seq<Text>): Text {
    if parts == [] then [] else if |parts| == 1 then parts[0] else parts[0] + [0x20] + JoinParts(parts[1..])
  }

  lemma {:induction false} JoinHolds(parts: seq<Text>, k: nat, secret: Text)
    requires k < |parts| && Includes(parts[k], secret)
    ensures Includes(JoinParts(parts), secret)
  {
    hide Includes;
    if |parts| == 1 {
    } else if k == 0 {
      IncludesAround([], parts[0], [0x20] + JoinParts(parts[1..]), secret);
      assert [] + parts[0] + ([0x20] + JoinParts(parts[1..])) == JoinParts(parts);
    } else {
      JoinHolds(parts[1..], k - 1, secret);
      IncludesAround(parts[0] + [0x20], JoinParts(parts[1..]), [], secret);
      assert parts[0] + [0x20] + JoinParts(parts[1..]) + [] == JoinParts(parts);
    }
  }

  lemma {:induction false} SearchedHeaderIsListed(headers: seq<Header>, exemptions: seq<Exemption>, h: nat) returns (k: nat)
    requires h < |headers| && SearchedHeader(headers[h], exemptions).Some?
    ensures k < |SearchedHeaders(headers, exemptions)|
    ensures SearchedHeaders(headers, exemptions)[k] == SearchedHeader(headers[h], exemptions).value
  {
    hide SearchedHeader;
    if h == 0 {
      k := 0;
    } else {
      k := SearchedHeaderIsListed(headers[1..], exemptions, h - 1);
      k := if SearchedHeader(headers[0], exemptions).Some? then k + 1 else k;
    }
  }

  // ----- the body

  /** One text redaction for every exempted field, in order; an empty field name is no exemption. */
  function WithoutFields(body: Text, exemptions: seq<Exemption>): Text
    decreases exemptions
  {
    if exemptions == [] then body
    else
      var first := exemptions[0].bodyField;
      WithoutFields(if first.Some? && first.value != [] then WithoutTopLevelValue(body, first.value) else body, exemptions[1..])
  }

  predicate AllowsSessionToken(exemptions: seq<Exemption>) {
    exists e | e in exemptions :: e.providerSessionToken
  }

  function SearchedBody(body: Text, exemptions: seq<Exemption>): Text {
    WithoutFields(if AllowsSessionToken(exemptions) then WithoutProviderSessionToken(body) else body, exemptions)
  }

  /** The same exemptions on layouts. */
  function RedactFields(d: Document, exemptions: seq<Exemption>): Document
    decreases exemptions
  {
    if exemptions == [] then d
    else
      var first := exemptions[0].bodyField;
      RedactFields(if first.Some? && first.value != [] then RedactField(d, first.value) else d, exemptions[1..])
  }

  function SearchedDocument(d: Document, exemptions: seq<Exemption>): Document {
    RedactFields(if AllowsSessionToken(exemptions) then RedactSessionToken(d) else d, exemptions)
  }

  predicate Carries(response: Response, secret: Text, exemptions: seq<Exemption>) {
    var body := SearchedBody(response.body, exemptions);
    || Includes(JoinedHeaders(response.headers, exemptions) + [0x0A] + body, secret)
    || exists value | value in Collected(body, None, 0, |body|) :: Includes(value, secret)
  }

  method CarriesSecret(response: Response, secret: Text, exemptions: seq<Exemption>) returns (carries: bool)
    ensures carries == Carries(response, secret, exemptions)
  {
    hide Collected, Includes, JoinedHeaders, SearchedBody, ParseDocument, Tree, Strings;
    var body := SearchedBody(response.body, exemptions);
    if Includes(JoinedHeaders(response.headers, exemptions) + [0x0A] + body, secret) {
      return true;
    }
    var values := JsonAllMemberValues(body);
    carries := false;
    for i := 0 to |values|
      invariant carries == exists value | value in values[..i] :: Includes(value, secret)
    {
      assert values[..i + 1] == values[..i] + [values[i]];
      if Includes(values[i], secret) {
        carries := true;
      }
    }
    assert values[..|values|] == values;
  }

  // ----- redacted documents stay documents

  lemma WithFoundIsWf(d: Document, want: Lookup, v: Layout)
    requires WfDocument(d) && Found(d, want) && WfLayout(v)
    ensures WfDocument(WithFound(d, want, v))
  {
    hide HasMatch, Replaced, IsBlank;
    ReplacedTree(d.value.rows, want, v);
  }

  lemma RedactFieldIsWf(d: Document, field: Text)
    requires WfDocument(d)
    ensures WfDocument(RedactField(d, field))
  {
    hide WfDocument, WfLayout, WithFound, Found, Ascii;
    PlaceholderText();
    if Found(d, Lookup(field, false)) {
      WithFoundIsWf(d, Lookup(field, false), Quoted(REDACTED));
    }
  }

  lemma {:induction false} FieldsAreRedacted(d: Document, exemptions: seq<Exemption>)
    requires WfDocument(d)
    ensures WfDocument(RedactFields(d, exemptions))
    ensures WithoutFields(DocumentText(d), exemptions) == DocumentText(RedactFields(d, exemptions))
    decreases exemptions
  {
    hide WfDocument, DocumentText, RedactField, WithoutTopLevelValue;
    if exemptions != [] {
      var first := exemptions[0].bodyField;
      if first.Some? && first.value != [] {
        FieldRedaction(d, first.value);
        RedactFieldIsWf(d, first.value);
        FieldsAreRedacted(RedactField(d, first.value), exemptions[1..]);
      } else {
        FieldsAreRedacted(d, exemptions[1..]);
      }
    }
  }

  /** The text that is searched is a layout of the document with the exempted values replaced. */
  lemma SearchedBodyIsDocument(d: Document, exemptions: seq<Exemption>)
    requires WfDocument(d)
    ensures WfDocument(SearchedDocument(d, exemptions))
    ensures SearchedBody(DocumentText(d), exemptions) == DocumentText(SearchedDocument(d, exemptions))
  {
    hide WfDocument, DocumentText, RedactFields, WithoutFields, RedactSessionToken, WithoutProviderSessionToken, AllowsSessionToken;
    if AllowsSessionToken(exemptions) {
      SessionTokenRedaction(d);
      SessionTokenTree(d);
      FieldsAreRedacted(RedactSessionToken(d), exemptions);
    } else {
      FieldsAreRedacted(d, exemptions);
    }
  }

  // ----- soundness

  /** The secret is in no part of a header that is left open, nowhere in the redacted text, and in no decoded leaf of it. */
  ghost predicate Clean(response: Response, d: Document, secret: Text, exemptions: seq<Exemption>)
    requires WfDocument(SearchedDocument(d, exemptions))
  {
    var searched := SearchedDocument(d, exemptions);
    && (forall h, part | h in response.headers && Exposed(h, exemptions, part) :: !Includes(part, secret))
    && !Includes(DocumentText(searched), secret)
    && (forall leaf | leaf in Strings(Tree(searched.value), None) :: !Includes(leaf, secret))
  }

  lemma CleanBody(joined: Text, searched: Document, secret: Text)
    requires WfDocument(searched)
    requires var body := DocumentText(searched);
             && !Includes(joined + [0x0A] + body, secret)
             && !exists value | value in Collected(body, None, 0, |body|) :: Includes(value, secret)
    ensures !Includes(DocumentText(searched), secret)
    ensures forall leaf | leaf in Strings(Tree(searched.value), None) :: !Includes(leaf, secret)
  {
    hide WfDocument, DocumentText, Collected, Strings, Tree, Includes;
    var body := DocumentText(searched);
    CollectedDocument(searched, None);
    assert joined + [0x0A] + body + [] == joined + [0x0A] + body;
    if Includes(body, secret) {
      IncludesAround(joined + [0x0A], body, [], secret);
    }
  }

  lemma CleanHeader(headers: seq<Header>, exemptions: seq<Exemption>, tail: Text, secret: Text, h: Header)
    requires !Includes(JoinedHeaders(headers, exemptions) + [0x0A] + tail, secret)
    requires h in headers && SearchedHeader(h, exemptions).Some?
    ensures !Includes(SearchedHeader(h, exemptions).value, secret)
  {
    hide Includes, SearchedHeader, SearchedHeaders, JoinParts;
    var n: nat :| n < |headers| && headers[n] == h;
    var k := SearchedHeaderIsListed(headers, exemptions, n);
    var joined := JoinedHeaders(headers, exemptions);
    assert [] + joined + ([0x0A] + tail) == joined + [0x0A] + tail;
    if Includes(SearchedHeader(h, exemptions).value, secret) {
      JoinHolds(SearchedHeaders(headers, exemptions), k, secret);
      IncludesAround([], joined, [0x0A] + tail, secret);
    }
  }

  /** A response with a JSON body that the check passes is clean, however its body is laid out or escaped. */
  lemma PassedResponseIsClean(response: Response, d: Document, secret: Text, exemptions: seq<Exemption>)
    requires WfDocument(d) && response.body == DocumentText(d)
    requires !Carries(response, secret, exemptions)
    ensures WfDocument(SearchedDocument(d, exemptions))
    ensures Clean(response, d, secret, exemptions)
  {
    hide WfDocument, DocumentText, SearchedDocument, SearchedBody, Collected, Strings, Tree, Includes, SearchedHeader, JoinedHeaders, Exposed;
    SearchedBodyIsDocument(d, exemptions);
    CleanBody(JoinedHeaders(response.headers, exemptions), SearchedDocument(d, exemptions), secret);
    forall h, part | h in response.headers && Exposed(h, exemptions, part)
      ensures !Includes(part, secret)
    {
      SearchedHeaderIs(h, exemptions, part);
      CleanHeader(response.headers, exemptions, SearchedBody(response.body, exemptions), secret, h);
    }
  }

  // ----- completeness

  /** A text without the separator lies on one side of it. */
  lemma IncludesSplit(a: Text, c: CodeUnit, b: Text, secret: Text)
    requires c !in secret && Includes(a + [c] + b, secret)
    ensures Includes(a, secret) || Includes(b, secret)
  {
    hide At;
    var whole := a + [c] + b;
    var i: nat :| i <= |whole| && At(whole, i, secret);
    AtText(whole, i, secret);
    if i + |secret| <= |a| {
      assert whole == a + ([c] + b);
      AtFront(a, [c] + b, i, secret);
      assert Includes(a, secret);
    } else if i > |a| {
      AtBack(a + [c], b, i, secret);
      assert Includes(b, secret);
    } else {
      AtUnit(whole, i, secret, |a| - i);
    }
  }

  lemma {:induction false} JoinHeld(parts: seq<Text>, secret: Text)
    requires 0x20 !in secret && secret != [] && Includes(JoinParts(parts), secret)
    ensures exists part :: part in parts && Includes(part, secret)
  {
    NothingHeld(secret);
    if |parts| == 1 {
      assert parts[0] in parts;
    } else if |parts| > 1 {
      HeldBehind(parts, secret);
      if !Includes(parts[0], secret) {
        JoinHeld(parts[1..], secret);
      }
      assert parts[0] in parts;
    }
  }

  lemma NothingHeld(secret: Text)
    ensures Includes(JoinParts([]), secret) ==> secret == []
  {
  }

  lemma HeldBehind(parts: seq<Text>, secret: Text)
    requires |parts| > 1 && 0x20 !in secret && Includes(JoinParts(parts), secret)
    ensures Includes(parts[0], secret) || Includes(JoinParts(parts[1..]), secret)
  {
    hide Includes;
    IncludesSplit(parts[0], 0x20, JoinParts(parts[1..]), secret);
  }

  lemma {:induction false} ListedIsSearched(headers: seq<Header>, exemptions: seq<Exemption>, part: Text)
    requires part in SearchedHeaders(headers, exemptions)
    ensures exists h :: h in headers && SearchedHeader(h, exemptions) == Some(part)
  {
    hide SearchedHeader;
    if SearchedHeader(headers[0], exemptions) == Some(part) {
      assert headers[0] in headers;
    } else {
      ListedIsSearched(headers[1..], exemptions, part);
    }
  }

  lemma HeaderHolds(headers: seq<Header>, exemptions: seq<Exemption>, secret: Text)
    requires 0x20 !in secret && secret != [] && Includes(JoinedHeaders(headers, exemptions), secret)
    ensures exists h, part :: h in headers && Exposed(h, exemptions, part) && Includes(part, secret)
  {
    hide Includes, SearchedHeader, SearchedHeaders, JoinParts, Exposed;
    JoinHeld(SearchedHeaders(headers, exemptions), secret);
    var part :| part in SearchedHeaders(headers, exemptions) && Includes(part, secret);
    ListedIsSearched(headers, exemptions, part);
    var h :| h in headers && SearchedHeader(h, exemptions) == Some(part);
    SearchedHeaderIs(h, exemptions, part);
  }

  /** For a secret without blank and line break the check is exact: it stops a response if and only if that is not clean. */
  lemma CarriesExactly(response: Response, d: Document, secret: Text, exemptions: seq<Exemption>)
    requires WfDocument(d) && response.body == DocumentText(d)
    requires 0x20 !in secret && 0x0A !in secret
    ensures WfDocument(SearchedDocument(d, exemptions))
    ensures Carries(response, secret, exemptions) <==> !Clean(response, d, secret, exemptions)
  {
    hide WfDocument, DocumentText, SearchedDocument, SearchedBody, Collected, Strings, Tree, Includes, JoinedHeaders, Exposed;
    SearchedBodyIsDocument(d, exemptions);
    var searched := SearchedDocument(d, exemptions);
    if !Carries(response, secret, exemptions) {
      PassedResponseIsClean(response, d, secret, exemptions);
    } else if Clean(response, d, secret, exemptions) {
      var body := DocumentText(searched);
      CollectedDocument(searched, None);
      EmptyIsHeld(body);
      if Includes(JoinedHeaders(response.headers, exemptions) + [0x0A] + body, secret) {
        IncludesSplit(JoinedHeaders(response.headers, exemptions), 0x0A, body, secret);
        HeaderHolds(response.headers, exemptions, secret);
      }
    }
  }

  lemma EmptyIsHeld(t: Text)
    ensures Includes(t, [])
  {
    assert At(t, 0, []);
  }

  lemma {:induction false} MemberStringsAppend(a: seq<Member>, b: seq<Member>, field: Option<Text>)
    ensures MemberStrings(a + b, field) == MemberStrings(a, field) + MemberStrings(b, field)
  {
    if a == [] {
      assert a + b == b;
    } else {
      assert a + b == [a[0]] + (a[1..] + b);
      MemberStringsCons(a[0], a[1..] + b, field);
      MemberStringsAppend(a[1..], b, field);
    }
  }

  /** A field exemption hides the leaves of one member value, the first written with that name, and no other leaf. */
  lemma FieldExemptionHidesOneValue(d: Document, field: Text)
    requires WfDocument(d)
    ensures WfDocument(RedactField(d, field))
    ensures !Found(d, Lookup(field, false)) ==> RedactField(d, field) == d
    ensures Found(d, Lookup(field, false)) ==>
              var members, k := MembersOf(d.value.rows), MatchIndex(d.value.rows, Lookup(field, false));
              && k < |members|
              && Strings(Tree(RedactField(d, field).value), None)
                 == MemberStrings(members[..k], None) + [REDACTED] + MemberStrings(members[k + 1..], None)
              && Strings(Tree(d.value), None)
                 == MemberStrings(members[..k], None) + ValueStrings(members[k].name, members[k].value, None)
                    + MemberStrings(members[k + 1..], None)
  {
    hide WfLayout, HasMatch, Replaced, MatchIndex, Ascii, IsBlank;
    RedactFieldIsWf(d, field);
    var want := Lookup(field, false);
    if Found(d, want) {
      GroupIsWf(d.value);
      PlaceholderText();
      ReplacedTree(d.value.rows, want, Quoted(REDACTED));
      var members, k := MembersOf(d.value.rows), MatchIndex(d.value.rows, want);
      ObjectStrings(d.value.rows);
      ObjectStrings(Replaced(d.value.rows, want, Quoted(REDACTED)));
      SplitStrings(members, k, members[k]);
      assert members[k := members[k]] == members;
      SplitStrings(members, k, Member(members[k].name, String(REDACTED)));
      PlaceholderStrings(members[k].name);
    }
  }

  lemma PlaceholderStrings(name: Text)
    ensures ValueStrings(name, String(REDACTED), None) == [REDACTED]
  {
    assert |REDACTED| == 10;
  }

  lemma ObjectStrings(rows: Rows)
    requires WfRows(true, rows)
    ensures WfLayout(Group(true, rows)) && Tree(Group(true, rows)) == Object(MembersOf(rows))
    ensures Strings(Object(MembersOf(rows)), None) == MemberStrings(MembersOf(rows), None)
  {
  }

  lemma SplitStrings(members: seq<Member>, k: nat, m: Member)
    requires k < |members|
    ensures MemberStrings(members[k := m], None)
         == MemberStrings(members[..k], None) + ValueStrings(m.name, m.value, None) + MemberStrings(members[k + 1..], None)
  {
    hide MemberStrings, ValueStrings;
    var tail := members[k + 1..];
    assert members[k := m] == members[..k] + ([m] + tail);
    MemberStringsAppend(members[..k], [m] + tail, None);
    MemberStringsCons(m, tail, None);
  }

  // ----- the run

  predicate LeaksIn(secret: Text, responses: seq<Response>, issuedIn: map<Text, seq<Exemption>>) {
    secret != [] && exists index | 0 <= index < |responses| :: Carries(responses[index], secret, Allowed(secret, index, issuedIn))
  }

  /** The exemptions of a secret in one response. */
  function Allowed(secret: Text, index: nat, issuedIn: map<Text, seq<Exemption>>): (allowed: seq<Exemption>)
  {
    if secret in issuedIn then OfResponse(issuedIn[secret], index) else []
  }

  function OfResponse(occurrences: seq<Exemption>, index: nat): (allowed: seq<Exemption>)
    ensures forall e :: e in allowed <==> e in occurrences && e.index == index
  {
    if occurrences == [] then []
    else (if occurrences[0].index == index then [occurrences[0]] else []) + OfResponse(occurrences[1..], index)
  }

  /** A further occurrence is one more exemption in its own response, behind the others, and none in any other. */
  lemma {:induction false} OccurrenceIsLast(occurrences: seq<Exemption>, e: Exemption, index: nat)
    ensures OfResponse([], index) == []
    ensures OfResponse(occurrences + [e], index) == OfResponse(occurrences, index) + (if e.index == index then [e] else [])
  {
    if occurrences == [] {
      assert [] + [e] == [e] && [e][1..] == [];
    } else {
      assert (occurrences + [e])[1..] == occurrences[1..] + [e];
      OccurrenceIsLast(occurrences[1..], e, index);
    }
  }

  /** What one qualification run tracks: the values it looks for, and where each was issued. */
  class LeakRecord {
    var callerSecrets: seq<Text>
    var observedSecrets: seq<Text>
    var issuedIn: map<Text, seq<Exemption>>

    ghost predicate Valid()
      reads this
    {
      && (forall s | s in callerSecrets :: s in observedSecrets && s !in issuedIn)
      && (forall s | s in issuedIn :: s in observedSecrets && s != [])
    }

    /** The caller's secrets and the passwords the run makes up are named before any response. */
    constructor (secrets: seq<Text>)
      ensures Valid() && callerSecrets == observedSecrets == secrets && issuedIn == map[]
    {
      callerSecrets, observedSecrets, issuedIn := secrets, secrets, map[];
    }

    method ObserveIssued(value: Text, exemption: Exemption)
      requires Valid()
      modifies this
      ensures Valid() && callerSecrets == old(callerSecrets)
      ensures observedSecrets == old(observedSecrets) + (if value == [] then [] else [value])
      ensures issuedIn ==
              if value == [] || value in callerSecrets then old(issuedIn)
              else old(issuedIn)[value := (if value in old(issuedIn) then old(issuedIn)[value] else []) + [exemption]]
    {
      if value == [] {
        return;
      }
      observedSecrets := observedSecrets + [value];
      if value in callerSecrets {
        return;
      }
      var occurrences := if value in issuedIn then issuedIn[value] else [];
      issuedIn := issuedIn[value := occurrences + [exemption]];
    }

    method Leaked(responses: seq<Response>) returns (leaked: seq<Text>)
      ensures forall s :: s in leaked <==> s in observedSecrets && LeaksIn(s, responses, issuedIn)
    {
      hide Carries, Allowed;
      leaked := [];
      for i := 0 to |observedSecrets|
        invariant forall s :: s in leaked <==> s in observedSecrets[..i] && LeaksIn(s, responses, issuedIn)
      {
        var secret := observedSecrets[i];
        assert observedSecrets[..i + 1] == observedSecrets[..i] + [secret];
        var leaks := false;
        for index := 0 to |responses|
          invariant leaks == exists k | 0 <= k < index :: Carries(responses[k], secret, Allowed(secret, k, issuedIn))
        {
          var carries := CarriesSecret(responses[index], secret, Allowed(secret, index, issuedIn));
          leaks := leaks || carries;
        }
        if secret != [] && leaks {
          leaked := leaked + [secret];
        }
      }
      assert observedSecrets[..|observedSecrets|] == observedSecrets;
    }
  }
}
