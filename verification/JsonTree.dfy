/** JSON documents as trees that keep member order and duplicate members. */
module JsonTree {
  import opened CodeUnits
  import opened JsonGrammar

  datatype Json =
    | Literal(raw: Text)
    | String(units: Text)
    | Array(items: seq<Json>)
    | Object(members: seq<Member>)

  datatype Member = Member(name: Text, value: Json)

  /** The document a layout stands for: blanks dropped, names and strings decoded. */
  function Tree(v: Layout): Json
    requires WfLayout(v)
    decreases v
  {
    match v
    case Scalar(raw) => Literal(raw)
    case Quoted(raw) => String(Decode(raw).value)
    case Group(isObject, rows) => if isObject then Object(MembersOf(rows)) else Array(ItemsOf(rows))
  }

  function ItemsOf(rows: Rows): seq<Json>
    requires WfRows(false, rows)
    decreases rows
  {
    match rows
    case Empty(_) => []
    case Last(row) => assert WfRow(false, row); [Tree(row.value)]
    case More(row, rest) => assert WfRow(false, row); [Tree(row.value)] + ItemsOf(rest)
  }

  function MembersOf(rows: Rows): seq<Member>
    requires WfRows(true, rows)
    decreases rows
  {
    match rows
    case Empty(_) => []
    case Last(row) => [MemberOf(row)]
    case More(row, rest) => [MemberOf(row)] + MembersOf(rest)
  }

  function MemberOf(row: Row): Member
    requires WfRow(true, row)
    decreases row
  {
    Member(Decode(row.name.key).value, Tree(row.value))
  }

  /** The document `JSON.parse` reads, before later duplicates overwrite earlier ones. */
  function DocumentTree(body: Text): Json
    requires ParseDocument(body).Some?
  {
    ParsedDocumentIsText(body);
    Tree(ParseDocument(body).value.value)
  }

  /** The value a parsed object keeps for a name: the last one. */
  function KeptValue(members: seq<Member>, name: Text): Option<Json> {
    if members == [] then None
    else if members[|members| - 1].name == name then Some(members[|members| - 1].value)
    else KeptValue(members[..|members| - 1], name)
  }

  /** `Object.keys`, up to order. */
  function KeyNames(members: seq<Member>): set<Text> {
    set m | m in members :: m.name
  }

  lemma {:induction false} KeptValueAt(members: seq<Member>, k: nat)
    requires k < |members| && forall j | k < j < |members| :: members[j].name != members[k].name
    ensures KeptValue(members, members[k].name) == Some(members[k].value)
    decreases |members|
  {
    if k < |members| - 1 {
      KeptValueAt(members[..|members| - 1], k);
    }
  }

  /** The `k`-th member is the last of its name. */
  ghost predicate LastNamed(members: seq<Member>, k: nat, name: Text) {
    k < |members| && members[k].name == name && forall j | k < j < |members| :: members[j].name != name
  }

  /** A parsed object keeps the last member of each name. */
  lemma {:induction false} KeptIsLast(members: seq<Member>, name: Text)
    ensures forall k: nat | LastNamed(members, k, name) :: k < |members| && KeptValue(members, name) == Some(members[k].value)
    ensures KeptValue(members, name).Some? ==> exists k: nat :: LastNamed(members, k, name)
    decreases |members|
  {
    hide LastNamed;
    forall k: nat | LastNamed(members, k, name)
      ensures k < |members| && KeptValue(members, name) == Some(members[k].value)
    {
      LastIsKept(members, k, name);
    }
    if members != [] {
      var n := |members| - 1;
      if members[n].name == name {
        EndIsLast(members, name);
      } else if KeptValue(members, name).Some? {
        KeptIsLast(members[..n], name);
        var k: nat :| LastNamed(members[..n], k, name);
        LastBefore(members, k, name);
      }
    }
  }

  lemma LastIsKept(members: seq<Member>, k: nat, name: Text)
    requires LastNamed(members, k, name)
    ensures k < |members| && KeptValue(members, name) == Some(members[k].value)
  {
    KeptValueAt(members, k);
  }

  lemma EndIsLast(members: seq<Member>, name: Text)
    requires members != [] && members[|members| - 1].name == name
    ensures LastNamed(members, |members| - 1, name)
  {
  }

  lemma LastBefore(members: seq<Member>, k: nat, name: Text)
    requires members != [] && LastNamed(members[..|members| - 1], k, name) && members[|members| - 1].name != name
    ensures LastNamed(members, k, name)
  {
    assert forall j | k < j < |members| - 1 :: members[j] == members[..|members| - 1][j];
  }

  // ----- what the leak check looks for in a document

  function NonEmpty(t: Text): seq<Text> {
    if t == [] then [] else [t]
  }

  predicate Wanted(name: Text, field: Option<Text>) {
    field.None? || field.value == name
  }

  /**
   The non-empty strings of a document, at any depth, in document order: every leaf
   string when no field is given, else every string value of a member of that name.
   */
  function Strings(j: Json, field: Option<Text>): seq<Text>
    decreases j, 1
  {
    match j
    case Literal(_) => []
    case String(units) => if field.None? then NonEmpty(units) else []
    case Array(items) => ItemStrings(items, field)
    case Object(members) => MemberStrings(members, field)
  }

  function ItemStrings(items: seq<Json>, field: Option<Text>): seq<Text>
    decreases items, 0
  {
    if items == [] then [] else Strings(items[0], field) + ItemStrings(items[1..], field)
  }

  function MemberStrings(members: seq<Member>, field: Option<Text>): seq<Text>
    decreases members, 0
  {
    if members == [] then []
    else ValueStrings(members[0].name, members[0].value, field) + MemberStrings(members[1..], field)
  }

  /** The strings a member contributes: its own value counts under its own name. */
  function ValueStrings(name: Text, value: Json, field: Option<Text>): seq<Text>
    decreases value, 2
  {
    if value.String? then (if Wanted(name, field) then NonEmpty(value.units) else [])
    else Strings(value, field)
  }

  lemma ItemStringsCons(item: Json, items: seq<Json>, field: Option<Text>)
    ensures ItemStrings([item] + items, field) == Strings(item, field) + ItemStrings(items, field)
  {
    assert ([item] + items)[1..] == items;
  }

  lemma MemberStringsCons(m: Member, members: seq<Member>, field: Option<Text>)
    ensures MemberStrings([m] + members, field) == ValueStrings(m.name, m.value, field) + MemberStrings(members, field)
  {
    assert ([m] + members)[1..] == members;
  }
}
