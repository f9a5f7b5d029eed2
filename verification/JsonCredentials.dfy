/** `rawCredentialValues`: the raw walk against the decoded walk of what `JSON.parse` builds. */
module JsonCredentials {
  import opened CodeUnits
  import opened JsonGrammar
  import opened JsonTree
  import opened JsonScanner
  import opened JsonScanning

  const CREDENTIAL: Text := Ascii("credential")

  /** `JSON.parse` lets a later member of the same name overwrite an earlier one. */
  predicate Overwritten(members: seq<Member>, k: nat)
    requires k < |members|
  {
    exists m | k < m < |members| :: members[m].name == members[k].name
  }

  /** The walk of the parsed body: only the members that survive parsing are seen. */
  function DecodedCredentials(j: Json): seq<Text>
    decreases j, 1
  {
    match j
    case Literal(_) => []
    case String(_) => []
    case Array(items) => DecodedItems(items)
    case Object(members) => DecodedMembers(members, 0)
  }

  function DecodedItems(items: seq<Json>): seq<Text>
    decreases items, 0
  {
    if items == [] then [] else DecodedCredentials(items[0]) + DecodedItems(items[1..])
  }

  function DecodedMembers(members: seq<Member>, k: nat): seq<Text>
    requires k <= |members|
    decreases members, |members| - k
  {
    if k == |members| then []
    else if Overwritten(members, k) then DecodedMembers(members, k + 1)
    else
      var Member(name, value) := members[k];
      (if name == CREDENTIAL && value.String? then NonEmpty(value.units) else [])
      + DecodedCredentials(value) + DecodedMembers(members, k + 1)
  }

  /** Every credential the decoded walk finds, the raw walk has found: overwriting only loses values. */
  lemma {:induction false} DecodedWalkAddsNothing(j: Json)
    ensures forall v | v in DecodedCredentials(j) :: v in Strings(j, Some(CREDENTIAL))
    decreases j, 1
  {
    hide Ascii;
    match j
    case Literal(_) =>
    case String(_) =>
    case Array(items) => DecodedItemsAddNothing(items);
    case Object(members) =>
      DecodedMembersAddNothing(members, 0);
      assert members[0..] == members;
  }

  lemma {:induction false} DecodedItemsAddNothing(items: seq<Json>)
    ensures forall v | v in DecodedItems(items) :: v in ItemStrings(items, Some(CREDENTIAL))
    decreases items, 0
  {
    hide Ascii;
    if items != [] {
      DecodedWalkAddsNothing(items[0]);
      DecodedItemsAddNothing(items[1..]);
    }
  }

  lemma {:induction false} DecodedMembersAddNothing(members: seq<Member>, k: nat)
    requires k <= |members|
    ensures forall v | v in DecodedMembers(members, k) :: v in MemberStrings(members[k..], Some(CREDENTIAL))
    decreases members, |members| - k
  {
    hide Ascii, Overwritten;
    if k < |members| {
      DecodedMembersAddNothing(members, k + 1);
      assert members[k..] == [members[k]] + members[k + 1..];
      MemberStringsCons(members[k], members[k + 1..], Some(CREDENTIAL));
      if !members[k].value.String? {
        DecodedWalkAddsNothing(members[k].value);
      }
    }
  }

  /** The values of `s` that are not in `seen`, each at its first occurrence. */
  function Unseen(s: seq<Text>, seen: set<Text>): seq<Text> {
    if s == [] then []
    else if s[0] == [] || s[0] in seen then Unseen(s[1..], seen)
    else [s[0]] + Unseen(s[1..], seen + {s[0]})
  }

  /** Deduplication keeps exactly the non-empty values, each once. */
  lemma {:induction false} UnseenKeepsValues(s: seq<Text>, seen: set<Text>)
    ensures forall v :: v in Unseen(s, seen) <==> v in s && v != [] && v !in seen
    ensures forall a, b | 0 <= a < b < |Unseen(s, seen)| :: Unseen(s, seen)[a] != Unseen(s, seen)[b]
  {
    if s != [] {
      UnseenKeepsValues(s[1..], seen);
      UnseenKeepsValues(s[1..], seen + {s[0]});
      assert forall v :: v in s <==> v == s[0] || v in s[1..];
    }
  }

  method AddUnseen(values: seq<Text>, found: set<Text>, candidates: seq<Text>) returns (all: seq<Text>, seen: set<Text>)
    ensures all == values + Unseen(candidates, found)
    ensures seen == found + set v | v in candidates && v != []
  {
    all, seen := values, found;
    for i := 0 to |candidates|
      invariant all + Unseen(candidates[i..], seen) == values + Unseen(candidates, found)
      invariant seen == found + set v | v in candidates[..i] && v != []
    {
      var value := candidates[i];
      assert candidates[i..][1..] == candidates[i + 1..];
      assert candidates[..i + 1] == candidates[..i] + [value];
      if value != [] && value !in seen {
        all, seen := all + [value], seen + {value};
      }
    }
    assert candidates[..|candidates|] == candidates;
  }

  lemma {:induction false} NothingUnseen(s: seq<Text>, seen: set<Text>)
    requires forall v | v in s :: v == [] || v in seen
    ensures Unseen(s, seen) == []
  {
    if s != [] {
      NothingUnseen(s[1..], seen);
    }
  }

  /**
   On a JSON body the answer is the raw walk without repetitions: the decoded body never
   contributes a value of its own, whatever is duplicated or escaped.
   */
  method RawCredentialValues(body: Text) returns (values: seq<Text>)
    ensures ParseDocument(body).Some? ==> values == Unseen(Strings(DocumentTree(body), Some(CREDENTIAL)), {})
    ensures ParseDocument(body).None? ==> values == Unseen(Collected(body, Some(CREDENTIAL), 0, |body|), {})
  {
    hide Ascii, Collected, Strings, ParseDocument, Tree, DecodedCredentials, DocumentTree;
    var raw := JsonMemberValues(body, CREDENTIAL);
    var found;
    values, found := AddUnseen([], {}, raw);
    assert [] + Unseen(raw, {}) == Unseen(raw, {}) && values + [] == values;
    if ParseDocument(body).Some? {
      var nested := DecodedCredentials(DocumentTree(body));
      DecodedWalkAddsNothing(DocumentTree(body));
      NothingUnseen(nested, found);
      values, found := AddUnseen(values, found, nested);
    }
  }
}
