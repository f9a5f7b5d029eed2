/**
 What the leak check covers of a response's own document: every leaf outside one value for
 each exempted field and outside the one session token.
 */
module LeakCoverage {
  import opened CodeUnits
  import opened JsonGrammar
  import opened JsonTree
  import opened JsonScanner
  import opened JsonScanning
  import opened JsonRedaction
  import opened LeakCheck

  predicate IsObject(d: Document) {
    d.value.Group? && d.value.isObject
  }

  /** The field names the exemptions speak of. */
  function Fields(exemptions: seq<Exemption>): set<Text> {
    set e | e in exemptions && e.bodyField.Some? && e.bodyField.value != [] :: e.bodyField.value
  }

  /** The members whose values are taken out: for each exempted field the first member written so. */
  function Hidden(rows: Rows, fields: set<Text>): set<nat> {
    set f | f in fields && HasMatch(rows, Lookup(f, false)) :: MatchIndex(rows, Lookup(f, false))
  }

  /** The member names as they are written in the text. */
  function Spellings(rows: Rows): seq<Text> {
    match rows
    case Empty(_) => []
    case Last(row) => [SpellingOf(row)]
    case More(row, rest) => [SpellingOf(row)] + Spellings(rest)
  }

  function SpellingOf(row: Row): Text {
    if row.name.Named? then row.name.key else []
  }

  /** An exempted field hides the first member that is written exactly so, and none when none is. */
  lemma {:induction false} HiddenIsFirstSpelling(rows: Rows, f: Text)
    requires WfRows(true, rows)
    ensures |Spellings(rows)| == |MembersOf(rows)|
    ensures HasMatch(rows, Lookup(f, false)) <==> f in Spellings(rows)
    ensures HasMatch(rows, Lookup(f, false)) ==>
              var k := MatchIndex(rows, Lookup(f, false));
              k < |Spellings(rows)| && Spellings(rows)[k] == f && forall j | 0 <= j < k :: Spellings(rows)[j] != f
    decreases rows
  {
    hide MemberOf, WfRow, SpellingOf, Matches;
    match rows
    case Empty(_) =>
    case Last(row) =>
      MatchesSpelling(row, f);
      assert Spellings(rows) == [SpellingOf(row)] && MembersOf(rows) == [MemberOf(row)];
    case More(row, rest) =>
      MatchesSpelling(row, f);
      HiddenIsFirstSpelling(rest, f);
      assert Spellings(rows) == [SpellingOf(row)] + Spellings(rest) && MembersOf(rows) == [MemberOf(row)] + MembersOf(rest);
  }

  lemma MatchesSpelling(row: Row, f: Text)
    requires WfRow(true, row)
    ensures Matches(row, Lookup(f, false)) <==> SpellingOf(row) == f
  {
    hide Decode, WfLayout;
  }

  /** At most one member for each field. */
  lemma {:induction false} HiddenIsOnePerField(rows: Rows, fields: set<Text>)
    ensures |Hidden(rows, fields)| <= |fields|
    decreases |fields|
  {
    hide HasMatch, MatchIndex;
    if fields == {} {
      assert Hidden(rows, fields) == {};
    } else {
      var f :| f in fields;
      var rest := fields - {f};
      HiddenIsOnePerField(rows, rest);
      HiddenJoin(rows, {f}, rest);
      assert {f} + rest == fields;
      HiddenOne(rows, f);
      UnionSize(Hidden(rows, {f}), Hidden(rows, rest));
    }
  }

  lemma HiddenJoin(rows: Rows, a: set<Text>, b: set<Text>)
    ensures Hidden(rows, a + b) == Hidden(rows, a) + Hidden(rows, b)
  {
    hide HasMatch, MatchIndex;
  }

  lemma HiddenOne(rows: Rows, f: Text)
    ensures Hidden(rows, {f}) == if HasMatch(rows, Lookup(f, false)) then {MatchIndex(rows, Lookup(f, false))} else {}
  {
    hide HasMatch, MatchIndex;
  }

  lemma UnionSize(a: set<nat>, b: set<nat>)
    requires |a| <= 1
    ensures |a + b| <= 1 + |b|
  {
    if a == {} {
      assert a + b == b;
    } else {
      var x :| x in a;
      assert |a - {x}| == 0;
      assert a == {x};
      assert a + b == b + {x};
    }
  }

  /** The member with the placeholder for its value. */
  function Masked(m: Member): Member {
    Member(m.name, String(REDACTED))
  }

  /** Field exemptions put the placeholder in for the hidden members and change no other member and no key. */
  lemma {:induction false} FieldsKeepOthers(d: Document, exemptions: seq<Exemption>)
    requires WfDocument(d)
    ensures WfDocument(RedactFields(d, exemptions))
    ensures !IsObject(d) ==> RedactFields(d, exemptions) == d
    ensures IsObject(d) ==>
              var r := RedactFields(d, exemptions);
              && IsObject(r) && |TopMembers(r)| == |TopMembers(d)|
              && (forall k | 0 <= k < |TopMembers(d)| ::
                    TopMembers(r)[k] == if k in Hidden(d.value.rows, Fields(exemptions)) then Masked(TopMembers(d)[k]) else TopMembers(d)[k])
    decreases exemptions
  {
    hide WfDocument, RedactField, TopMembers, Hidden;
    if exemptions != [] {
      var first := exemptions[0].bodyField;
      var rest := exemptions[1..];
      FieldsCons(exemptions);
      if first.Some? && first.value != [] {
        OneFieldKeepsOthers(d, first.value, Fields(rest));
        FieldsKeepOthers(RedactField(d, first.value), rest);
        if IsObject(d) {
          HiddenJoin(d.value.rows, {first.value}, Fields(rest));
        }
      } else {
        assert {} + Fields(rest) == Fields(rest);
        FieldsKeepOthers(d, rest);
      }
    } else if IsObject(d) {
      HiddenNone(d.value.rows);
    }
  }

  lemma HiddenNone(rows: Rows)
    ensures Fields([]) == {} && Hidden(rows, {}) == {}
  {
  }

  lemma FieldsCons(exemptions: seq<Exemption>)
    requires exemptions != []
    ensures var first := exemptions[0].bodyField;
            Fields(exemptions) == (if first.Some? && first.value != [] then {first.value} else {}) + Fields(exemptions[1..])
  {
    assert forall e :: e in exemptions <==> e == exemptions[0] || e in exemptions[1..];
  }

  lemma OneFieldKeepsOthers(d: Document, field: Text, fields: set<Text>)
    requires WfDocument(d)
    ensures WfDocument(RedactField(d, field))
    ensures !IsObject(d) ==> RedactField(d, field) == d
    ensures IsObject(d) ==>
              var r := RedactField(d, field);
              && IsObject(r) && |TopMembers(r)| == |TopMembers(d)|
              && Hidden(r.value.rows, fields) == Hidden(d.value.rows, fields)
              && (forall k | 0 <= k < |TopMembers(d)| ::
                    TopMembers(r)[k] == if k in Hidden(d.value.rows, {field}) then Masked(TopMembers(d)[k]) else TopMembers(d)[k])
  {
    hide WfLayout, HasMatch, MatchIndex, Replaced, Ascii, IsBlank, Hidden;
    RedactFieldIsWf(d, field);
    var want := Lookup(field, false);
    if IsObject(d) {
      HiddenOne(d.value.rows, field);
    }
    if Found(d, want) {
      GroupIsWf(d.value);
      PlaceholderText();
      ReplacedTree(d.value.rows, want, Quoted(REDACTED));
      HiddenStays(d.value.rows, want, Quoted(REDACTED), fields);
    }
  }

  lemma HiddenStays(rows: Rows, want: Lookup, v: Layout, fields: set<Text>)
    requires HasMatch(rows, want)
    ensures Hidden(Replaced(rows, want, v), fields) == Hidden(rows, fields)
  {
    hide HasMatch, MatchIndex, Replaced;
    forall f | f in fields
      ensures HasMatch(Replaced(rows, want, v), Lookup(f, false)) == HasMatch(rows, Lookup(f, false))
      ensures HasMatch(rows, Lookup(f, false)) ==>
                MatchIndex(Replaced(rows, want, v), Lookup(f, false)) == MatchIndex(rows, Lookup(f, false))
    {
      ReplacedKeepsKeys(rows, want, v, Lookup(f, false));
    }
  }

  // ----- the leaves that are covered

  function Leaves(m: Member): seq<Text> {
    ValueStrings(m.name, m.value, None)
  }

  /** The session token is exempted, and the document holds one. */
  predicate TakesToken(d: Document, exemptions: seq<Exemption>) {
    AllowsSessionToken(exemptions) && HoldsSessionToken(d)
  }

  /** A leaf of the `k`-th member; of the session object all but its first token, when that is exempted. */
  ghost predicate CoveredIn(d: Document, exemptions: seq<Exemption>, k: nat, leaf: Text)
    requires WfDocument(d) && IsObject(d) && k < |TopMembers(d)|
  {
    var m := TopMembers(d)[k];
    if TakesToken(d, exemptions) && k == SessionIndex(d) && m.value.Object? then
      exists j: nat :: j < |m.value.members| && j != TokenIndex(d) && leaf in Leaves(m.value.members[j])
    else leaf in Leaves(m)
  }

  /** A leaf of the document outside the exempted values. */
  ghost predicate Covered(d: Document, exemptions: seq<Exemption>, leaf: Text)
    requires WfDocument(d)
  {
    if IsObject(d) then
      exists k: nat :: k < |TopMembers(d)| && k !in Hidden(d.value.rows, Fields(exemptions)) && CoveredIn(d, exemptions, k, leaf)
    else leaf in Strings(Tree(d.value), None)
  }

  lemma LeafOfMember(members: seq<Member>, k: nat, leaf: Text)
    requires k < |members| && leaf in Leaves(members[k])
    ensures leaf in MemberStrings(members, None)
  {
    hide MemberStrings, ValueStrings;
    SplitStrings(members, k, members[k]);
    assert members[k := members[k]] == members;
  }

  lemma ObjectLeaves(d: Document)
    requires WfDocument(d) && IsObject(d)
    ensures Strings(Tree(d.value), None) == MemberStrings(TopMembers(d), None)
  {
    GroupIsWf(d.value);
    ObjectStrings(d.value.rows);
  }

  /** Every covered leaf is a leaf of the document that is searched. */
  lemma CoveredIsSearched(d: Document, exemptions: seq<Exemption>, leaf: Text)
    requires WfDocument(d) && Covered(d, exemptions, leaf)
    ensures WfDocument(SearchedDocument(d, exemptions))
    ensures leaf in Strings(Tree(SearchedDocument(d, exemptions).value), None)
  {
    hide WfDocument, RedactFields, RedactSessionToken, TopMembers, Hidden, Strings, Tree, MemberStrings, HoldsSessionToken, ValueStrings,
         AllowsSessionToken, SessionIndex, TokenIndex, CoveredIn, Ascii;
    var first := if AllowsSessionToken(exemptions) then RedactSessionToken(d) else d;
    SessionTokenTree(d);
    FieldsKeepOthers(first, exemptions);
    var r := SearchedDocument(d, exemptions);
    assert r == RedactFields(first, exemptions);
    if IsObject(d) {
      TokenKeepsHidden(d, Fields(exemptions));
      var k: nat :| k < |TopMembers(d)| && k !in Hidden(d.value.rows, Fields(exemptions)) && CoveredIn(d, exemptions, k, leaf);
      CoveredMember(d, exemptions, k, leaf);
      LeafOfMember(TopMembers(r), k, leaf);
      ObjectLeaves(r);
    } else {
      NotObjectHasNoToken(d);
    }
  }

  lemma {:induction false} MemberOfLeaf(members: seq<Member>, leaf: Text)
    requires leaf in MemberStrings(members, None)
    ensures exists k: nat :: k < |members| && leaf in Leaves(members[k])
  {
    hide ValueStrings;
    if members != [] {
      assert members == [members[0]] + members[1..];
      MemberStringsCons(members[0], members[1..], None);
      if leaf !in Leaves(members[0]) {
        MemberOfLeaf(members[1..], leaf);
        var k: nat :| k < |members[1..]| && leaf in Leaves(members[1..][k]);
        assert members[k + 1] == members[1..][k];
      }
    }
  }

  /** And nothing else is searched: a leaf of the searched document is covered, or it is the placeholder. */
  lemma SearchedIsCovered(d: Document, exemptions: seq<Exemption>, leaf: Text)
    requires WfDocument(d) && WfDocument(SearchedDocument(d, exemptions))
    requires leaf in Strings(Tree(SearchedDocument(d, exemptions).value), None)
    ensures Covered(d, exemptions, leaf) || leaf == REDACTED
  {
    hide WfDocument, RedactFields, RedactSessionToken, TopMembers, Hidden, Strings, Tree, MemberStrings, HoldsSessionToken, ValueStrings,
         AllowsSessionToken, SessionIndex, TokenIndex, CoveredIn, Ascii;
    var first := if AllowsSessionToken(exemptions) then RedactSessionToken(d) else d;
    SessionTokenTree(d);
    FieldsKeepOthers(first, exemptions);
    var r := SearchedDocument(d, exemptions);
    assert r == RedactFields(first, exemptions);
    if IsObject(d) {
      TokenKeepsHidden(d, Fields(exemptions));
      ObjectLeaves(r);
      MemberOfLeaf(TopMembers(r), leaf);
      var k: nat :| k < |TopMembers(r)| && leaf in Leaves(TopMembers(r)[k]);
      CoveredBack(d, exemptions, k, leaf);
      MaskedLeaves(TopMembers(first)[k]);
    } else {
      NotObjectHasNoToken(d);
    }
  }

  lemma MaskedLeaves(m: Member)
    ensures Leaves(Masked(m)) == [REDACTED]
  {
    PlaceholderStrings(m.name);
  }

  /** What the first redaction leaves in a member was there before. */
  lemma CoveredBack(d: Document, exemptions: seq<Exemption>, k: nat, leaf: Text)
    requires WfDocument(d) && IsObject(d) && k < |TopMembers(d)|
    ensures var first := if AllowsSessionToken(exemptions) then RedactSessionToken(d) else d;
            && WfDocument(first) && IsObject(first) && |TopMembers(first)| == |TopMembers(d)|
            && (leaf in Leaves(TopMembers(first)[k]) ==> CoveredIn(d, exemptions, k, leaf) || leaf == REDACTED)
  {
    hide WfDocument, RedactSessionToken, TopMembers, HoldsSessionToken, AllowsSessionToken, SessionIndex, TokenIndex, MemberStrings, ValueStrings, Ascii;
    SessionTokenTree(d);
    if TakesToken(d, exemptions) && k == SessionIndex(d) {
      var sub := TopMembers(d)[k].value.members;
      var after := sub[TokenIndex(d) := Member(TOKEN, String(REDACTED))];
      LeavesOfObject(SESSION, after);
      if leaf in MemberStrings(after, None) {
        MemberOfLeaf(after, leaf);
        var j: nat :| j < |after| && leaf in Leaves(after[j]);
        MaskedLeaves(Member(TOKEN, String(REDACTED)));
        assert j != TokenIndex(d) ==> after[j] == sub[j];
      }
    }
  }

  lemma NotObjectHasNoToken(d: Document)
    ensures !IsObject(d) ==> RedactSessionToken(d) == d
  {
  }

  lemma TokenKeepsHidden(d: Document, fields: set<Text>)
    requires WfDocument(d) && IsObject(d)
    ensures IsObject(RedactSessionToken(d)) && Hidden(RedactSessionToken(d).value.rows, fields) == Hidden(d.value.rows, fields)
  {
    hide HasMatch, MatchIndex, Replaced, Hidden, Ascii, WfLayout, Matched;
    if HoldsSessionToken(d) {
      var session := Document([], FoundRow(d, IN_SESSION).value, []);
      HiddenStays(d.value.rows, IN_SESSION, WithFound(session, IN_TOKEN, Quoted(REDACTED)).value, fields);
    }
  }

  /** The first redaction leaves a covered leaf in its member. */
  lemma CoveredMember(d: Document, exemptions: seq<Exemption>, k: nat, leaf: Text)
    requires WfDocument(d) && IsObject(d) && k < |TopMembers(d)| && CoveredIn(d, exemptions, k, leaf)
    ensures var first := if AllowsSessionToken(exemptions) then RedactSessionToken(d) else d;
            && WfDocument(first) && IsObject(first) && |TopMembers(first)| == |TopMembers(d)|
            && leaf in Leaves(TopMembers(first)[k])
  {
    hide WfDocument, RedactSessionToken, TopMembers, HoldsSessionToken, AllowsSessionToken, SessionIndex, TokenIndex, MemberStrings, Ascii;
    SessionTokenTree(d);
    if TakesToken(d, exemptions) && k == SessionIndex(d) {
      var sub := TopMembers(d)[k].value.members;
      var j: nat :| j < |sub| && j != TokenIndex(d) && leaf in Leaves(sub[j]);
      var after := sub[TokenIndex(d) := Member(TOKEN, String(REDACTED))];
      LeafOfMember(after, j, leaf);
      LeavesOfObject(SESSION, after);
    }
  }

  lemma LeavesOfObject(name: Text, members: seq<Member>)
    ensures Leaves(Member(name, Object(members))) == MemberStrings(members, None)
  {
    assert Strings(Object(members), None) == MemberStrings(members, None);
  }

  /**
   When nothing leaked, every response with a JSON body is clean of every tracked secret
   outside its exemptions, and of a secret the caller named without any exemption at all.
   */
  lemma NothingLeakedMeansClean(record: LeakRecord, responses: seq<Response>, secret: Text, index: nat, d: Document)
    requires record.Valid()
    requires forall s | s in record.observedSecrets :: !LeaksIn(s, responses, record.issuedIn)
    requires secret in record.observedSecrets && secret != [] && index < |responses|
    requires WfDocument(d) && responses[index].body == DocumentText(d)
    ensures var allowed := Allowed(secret, index, record.issuedIn);
            && WfDocument(SearchedDocument(d, allowed)) && Clean(responses[index], d, secret, allowed)
            && (forall leaf | Covered(d, allowed, leaf) :: !Includes(leaf, secret))
    ensures secret in record.callerSecrets ==>
              && (forall h | h in responses[index].headers :: !Includes(h.value, secret))
              && !Includes(responses[index].body, secret)
              && (forall leaf | leaf in Strings(Tree(d.value), None) :: !Includes(leaf, secret))
  {
    hide Carries, WfDocument, DocumentText, Strings, Tree, Includes, Covered, SearchedDocument;
    var allowed := Allowed(secret, index, record.issuedIn);
    PassedResponseIsClean(responses[index], d, secret, allowed);
    forall leaf | Covered(d, allowed, leaf)
      ensures !Includes(leaf, secret)
    {
      CoveredIsSearched(d, allowed, leaf);
    }
    if secret in record.callerSecrets {
      assert allowed == [];
      NoExemption(d, responses[index].headers);
    }
  }

  lemma NoExemption(d: Document, headers: seq<Header>)
    ensures SearchedDocument(d, []) == d
    ensures forall h | h in headers :: SearchedHeader(h, []) == Some(h.value)
  {
  }
}
