/** The strings of a document by their place in it: the path of member and item numbers that leads to each. */
module JsonPaths {
  import opened CodeUnits
  import opened JsonTree

  /** The value at the end of a path. */
  function ValueAt(j: Json, path: seq<nat>): Option<Json>
    decreases |path|
  {
    if path == [] then Some(j)
    else
      match j
      case Array(items) => if path[0] < |items| then ValueAt(items[path[0]], path[1..]) else None
      case Object(members) => if path[0] < |members| then ValueAt(members[path[0]].value, path[1..]) else None
      case _ => None
  }

  /** The name that the last step of a path goes by, when it is a step to a member. */
  function NameAt(j: Json, path: seq<nat>): Option<Text>
    decreases |path|
  {
    if path == [] then None
    else
      match j
      case Array(items) => if path[0] < |items| then NameAt(items[path[0]], path[1..]) else None
      case Object(members) =>
        if path[0] >= |members| then None
        else if |path| == 1 then Some(members[path[0]].name)
        else NameAt(members[path[0]].value, path[1..])
      case _ => None
  }

  /** The string stands at the end of the path, as the value of a member of the field's name when a field is given. */
  predicate StandsAt(j: Json, field: Option<Text>, path: seq<nat>, t: Text) {
    ValueAt(j, path) == Some(String(t)) && (field.Some? ==> NameAt(j, path) == field)
  }

  predicate MemberStandsAt(m: Member, field: Option<Text>, path: seq<nat>, t: Text) {
    && ValueAt(m.value, path) == Some(String(t))
    && (field.Some? ==> (if path == [] then Some(m.name) else NameAt(m.value, path)) == field)
  }

  /** The strings that are collected are exactly those that stand somewhere in the document. */
  lemma {:induction false} StringsStandSomewhere(j: Json, field: Option<Text>, t: Text)
    ensures t in Strings(j, field) <==> t != [] && exists path :: StandsAt(j, field, path, t)
    decreases j, 1
  {
    hide StandsAt;
    match j
    case Literal(_) =>
      LiteralHolds(j, field, t);
    case String(units) =>
      StringHolds(j, field, t);
    case Array(items) =>
      ItemsStand(items, field, t);
      ArrayHolds(items, field, t);
    case Object(members) =>
      MembersStand(members, field, t);
      ObjectHolds(members, field, t);
  }

  lemma LiteralHolds(j: Json, field: Option<Text>, t: Text)
    requires j.Literal?
    ensures forall path :: !StandsAt(j, field, path, t)
  {
  }

  lemma StringHolds(j: Json, field: Option<Text>, t: Text)
    requires j.String?
    ensures (exists path :: StandsAt(j, field, path, t)) <==> j.units == t && field.None?
  {
    assert StandsAt(j, field, [], t) <==> j.units == t && field.None?;
  }

  lemma ArrayHolds(items: seq<Json>, field: Option<Text>, t: Text)
    ensures (exists path :: StandsAt(Array(items), field, path, t)) <==> (exists i, path :: 0 <= i < |items| && StandsAt(items[i], field, path, t))
  {
    var j := Array(items);
    forall i: nat, path: seq<nat> | i < |items|
      ensures StandsAt(j, field, [i] + path, t) <==> StandsAt(items[i], field, path, t)
    {
      assert ([i] + path)[1..] == path;
    }
    if path :| StandsAt(j, field, path, t) {
      assert path == [path[0]] + path[1..];
      assert StandsAt(items[path[0]], field, path[1..], t);
    }
  }

  lemma ObjectHolds(members: seq<Member>, field: Option<Text>, t: Text)
    ensures (exists path :: StandsAt(Object(members), field, path, t))
       <==> (exists k, path :: 0 <= k < |members| && MemberStandsAt(members[k], field, path, t))
  {
    var j := Object(members);
    forall k: nat, path: seq<nat> | k < |members|
      ensures StandsAt(j, field, [k] + path, t) <==> MemberStandsAt(members[k], field, path, t)
    {
      assert ([k] + path)[1..] == path;
    }
    if path :| StandsAt(j, field, path, t) {
      assert path == [path[0]] + path[1..];
      assert MemberStandsAt(members[path[0]], field, path[1..], t);
    }
  }

  lemma {:induction false} ItemsStand(items: seq<Json>, field: Option<Text>, t: Text)
    ensures t in ItemStrings(items, field) <==> t != [] && exists i, path :: 0 <= i < |items| && StandsAt(items[i], field, path, t)
    decreases items, 0
  {
    hide StandsAt, Strings;
    if items != [] {
      StringsStandSomewhere(items[0], field, t);
      ItemsStand(items[1..], field, t);
      assert forall i | 0 < i < |items| :: items[i] == items[1..][i - 1];
    }
  }

  lemma {:induction false} MembersStand(members: seq<Member>, field: Option<Text>, t: Text)
    ensures t in MemberStrings(members, field) <==> t != [] && exists k, path :: 0 <= k < |members| && MemberStandsAt(members[k], field, path, t)
    decreases members, 0
  {
    hide MemberStandsAt, ValueStrings;
    if members != [] {
      MemberStands(members[0], field, t);
      MembersStand(members[1..], field, t);
      assert forall k | 0 < k < |members| :: members[k] == members[1..][k - 1];
    }
  }

  lemma {:induction false} MemberStands(m: Member, field: Option<Text>, t: Text)
    ensures t in ValueStrings(m.name, m.value, field) <==> t != [] && exists path :: MemberStandsAt(m, field, path, t)
    decreases m, 2
  {
    if m.value.String? {
      assert MemberStandsAt(m, field, [], t) <==> m.value.units == t && Wanted(m.name, field);
    } else {
      StringsStandSomewhere(m.value, field, t);
      assert forall path :: MemberStandsAt(m, field, path, t) <==> StandsAt(m.value, field, path, t);
    }
  }
}
