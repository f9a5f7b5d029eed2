/** What a parsed document means, and that a canonical print, parsed, means what was printed. */
module CanonicalMeaning {
  import opened CodeUnits
  import opened JsonGrammar
  import T = JsonTree
  import opened CanonicalJson

  /** The last member of a name: the one a parsed object keeps. */
  function LastIndex(members: seq<T.Member>, name: Text): (k: nat)
    requires name in T.KeyNames(members)
    ensures k < |members| && members[k].name == name
    ensures forall j | k < j < |members| :: members[j].name != name
  {
    var n := |members| - 1;
    if members[n].name == name then n
    else
      assert forall m :: m in members <==> m in members[..n] || m == members[n];
      LastIndex(members[..n], name)
  }

  /** A parsed document, without order and with the last of each name. */
  function PlainOf(j: T.Json): Plain
    decreases j, 1
  {
    match j
    case Literal(raw) =>
      if raw == Ascii("null") then PNull
      else if raw == Ascii("true") then PBool(true)
      else if raw == Ascii("false") then PBool(false)
      else PNumber(raw)
    case String(units) => PString(units)
    case Array(items) => PArray(PlainItems(items))
    case Object(members) =>
      PObject(map n | n in T.KeyNames(members) :: PlainOf(members[LastIndex(members, n)].value))
  }

  function PlainItems(items: seq<T.Json>): (plain: seq<Plain>)
    ensures |plain| == |items|
    decreases items, 0
  {
    if items == [] then [] else [PlainOf(items[0])] + PlainItems(items[1..])
  }

  // ----- the rows of a layout

  lemma {:induction false} MembersOfRows(rows: seq<Row>)
    requires forall k | 0 <= k < |rows| :: WfRow(true, rows[k])
    ensures WfRows(true, ToRows(rows))
    ensures |T.MembersOf(ToRows(rows))| == |rows|
    ensures forall k | 0 <= k < |rows| :: T.MembersOf(ToRows(rows))[k] == T.MemberOf(rows[k])
    decreases |rows|
  {
    hide WfRow, T.MemberOf;
    ToRowsWf(true, rows);
    if |rows| > 1 {
      MembersOfRows(rows[1..]);
    }
  }

  lemma {:induction false} ItemsOfRows(rows: seq<Row>)
    requires forall k | 0 <= k < |rows| :: WfRow(false, rows[k]) && WfLayout(rows[k].value)
    ensures WfRows(false, ToRows(rows))
    ensures |T.ItemsOf(ToRows(rows))| == |rows|
    ensures forall k | 0 <= k < |rows| :: T.ItemsOf(ToRows(rows))[k] == T.Tree(rows[k].value)
    decreases |rows|
  {
    hide WfRow, WfLayout, T.Tree;
    ToRowsWf(false, rows);
    if |rows| > 1 {
      ItemsOfRows(rows[1..]);
    }
  }

  // ----- reading back

  lemma LiteralMeaning(d: Data)
    requires IsData(d) && !d.String? && !d.Array? && !d.Object?
    ensures PlainOf(T.Literal(Canonical(d))) == Meaning(d)
  {
    hide Ascii, IsNumber;
    LiteralWords();
    if d.Number? {
      NumberIsNoWord(d.spelling);
    }
  }

  lemma {:induction false} ReadBack(d: Data)
    requires IsData(d)
    ensures WfLayout(LayoutOf(d)) && PlainOf(T.Tree(LayoutOf(d))) == Meaning(d)
    decreases d, 1, 0
  {
    hide Ascii, IsNumber, Names, PrintedNames, ToRows, ItemRows, MemberRows, Decode, PlainItems, T.KeyNames, T.MembersOf, T.ItemsOf, WfRows, Meanings;
    CanonicalIsLayout(d);
    match d
    case String(units) =>
      QuoteRoundTrip(units);
    case Array(items) =>
      ReadItems(items);
    case Object(_) =>
      ReadMembers(d, PrintedNames(d));
      ObjectMeans(d, T.MembersOf(ToRows(MemberRows(d, PrintedNames(d)))));
    case _ =>
      LiteralMeaning(d);
  }

  lemma {:induction false} ReadItems(items: seq<Data>)
    requires forall i | 0 <= i < |items| :: IsData(items[i])
    ensures WfRows(false, ToRows(ItemRows(items)))
    ensures PlainItems(T.ItemsOf(ToRows(ItemRows(items)))) == Meanings(items)
    decreases items, 0, 1
  {
    hide LayoutOf, WfRow, WfLayout, T.Tree, T.ItemsOf, PlainOf, Meaning, IsData, Canonical, RowText, ToRows;
    ItemsAreRows(items);
    ItemsAreRead(items);
    ItemsOfRows(ItemRows(items));
    var parsed := T.ItemsOf(ToRows(ItemRows(items)));
    SameItems(parsed, items);
  }

  lemma SameItems(parsed: seq<T.Json>, items: seq<Data>)
    requires |parsed| == |items| && forall i | 0 <= i < |items| :: PlainOf(parsed[i]) == Meaning(items[i])
    ensures PlainItems(parsed) == Meanings(items)
    decreases |items|
  {
    hide PlainOf, Meaning;
    if items != [] {
      SameItems(parsed[1..], items[1..]);
    }
  }

  lemma {:induction false} ItemsAreRead(items: seq<Data>)
    requires forall i | 0 <= i < |items| :: IsData(items[i])
    ensures forall i | 0 <= i < |items| ::
              var v := ItemRows(items)[i].value; WfLayout(v) && PlainOf(T.Tree(v)) == Meaning(items[i])
    decreases items, 0, 0
  {
    hide LayoutOf, WfLayout, T.Tree, PlainOf, Meaning, IsData;
    if items != [] {
      ReadBack(items[0]);
      ItemsAreRead(items[1..]);
    }
  }

  /** The members come back in the printed order, each with its value's meaning. */
  lemma {:induction false} ReadMembers(d: Data, names: seq<Text>)
    requires IsData(d) && d.Object? && forall n | n in names :: n in Names(d.members)
    ensures WfRows(true, ToRows(MemberRows(d, names)))
    ensures var members := T.MembersOf(ToRows(MemberRows(d, names)));
            && |members| == |names|
            && forall k | 0 <= k < |names| :: members[k].name == names[k] && PlainOf(members[k].value) == Meaning(ValueOf(d, names[k]))
    decreases d, 0, |names| + 1
  {
    hide LayoutOf, WfRow, WfLayout, T.Tree, T.MembersOf, T.MemberOf, PlainOf, Meaning, IsData, Canonical, RowText, ToRows, Names, ValueOf;
    MembersAreRows(d, names);
    MembersAreRead(d, names);
    MembersOfRows(MemberRows(d, names));
  }

  lemma {:induction false} MembersAreRead(d: Data, names: seq<Text>)
    requires IsData(d) && d.Object? && forall n | n in names :: n in Names(d.members)
    requires forall k | 0 <= k < |names| :: WfRow(true, MemberRows(d, names)[k])
    ensures forall k | 0 <= k < |names| ::
              var m := T.MemberOf(MemberRows(d, names)[k]); m.name == names[k] && PlainOf(m.value) == Meaning(ValueOf(d, names[k]))
    decreases d, 0, |names|
  {
    hide LayoutOf, WfLayout, T.Tree, PlainOf, Meaning, IsData, Names, ValueOf, QuoteUnits, WfRow;
    if names != [] {
      ValueIsData(d, names[0]);
      ReadBack(ValueOf(d, names[0]));
      QuoteRoundTrip(names[0]);
      assert forall k | 0 <= k < |names| - 1 :: MemberRows(d, names[1..])[k] == MemberRows(d, names)[k + 1];
      MembersAreRead(d, names[1..]);
      assert forall k | 0 < k < |names| :: MemberRows(d, names)[k] == MemberRows(d, names[1..])[k - 1];
    }
  }

  /** The members read hold each printed name once, with the meaning it was printed for. */
  ghost predicate AreMembers(d: Data, members: seq<T.Member>)
    requires d.Object?
  {
    var names := PrintedNames(d);
    && |members| == |names|
    && forall k | 0 <= k < |names| :: members[k].name == names[k] && PlainOf(members[k].value) == Meaning(ValueOf(d, names[k]))
  }

  function PlainMembers(members: seq<T.Member>): map<Text, Plain> {
    map n | n in T.KeyNames(members) :: PlainOf(members[LastIndex(members, n)].value)
  }

  lemma ObjectPlain(members: seq<T.Member>)
    ensures PlainOf(T.Object(members)) == PObject(PlainMembers(members))
  {
  }

  lemma MemberMeans(d: Data, members: seq<T.Member>, n: Text)
    requires IsData(d) && d.Object? && AreMembers(d, members)
    ensures n in T.KeyNames(members) <==> n in PrintedNames(d)
    ensures n in PrintedNames(d) ==> PlainOf(members[LastIndex(members, n)].value) == Meaning(ValueOf(d, n))
  {
    hide Names, PrintedNames, ValueOf, IsAscending, IsData, PlainOf, Meaning;
    var names := PrintedNames(d);
    if n in names {
      var k :| 0 <= k < |names| && names[k] == n;
      assert members[k] in members;
    }
  }

  lemma ObjectMeans(d: Data, members: seq<T.Member>)
    requires IsData(d) && d.Object? && AreMembers(d, members)
    ensures PlainOf(T.Object(members)) == Meaning(d)
  {
    hide Names, PrintedNames, ValueOf, IsAscending, IsData, PlainOf, Meaning, AreMembers, T.KeyNames;
    PrintedNamesAreSorted(d);
    ObjectMeaning(d);
    ObjectPlain(members);
    forall n
      ensures n in T.KeyNames(members) <==> n in PrintedNames(d)
      ensures n in PrintedNames(d) ==> PlainOf(members[LastIndex(members, n)].value) == Meaning(ValueOf(d, n))
    {
      MemberMeans(d, members, n);
    }
    assert PlainMembers(members) == PrintedMeaning(d);
  }

  /** Printed canonically and parsed again, every value means what it meant. */
  lemma CanonicalMeansTheSame(d: Data)
    requires IsData(d)
    ensures ParseDocument(Canonical(d)).Some? && PlainOf(T.DocumentTree(Canonical(d))) == Meaning(d)
  {
    hide Canonical, LayoutOf, ParseDocument, PlainOf, Meaning, T.Tree, WfLayout;
    CanonicalParses(d);
    ReadBack(d);
  }
}
