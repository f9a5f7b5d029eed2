/** `canonicalJson`: printing with sorted names, and what two equal prints say about the values. */
module CanonicalJson {
  import opened CodeUnits
  import opened JsonGrammar

  /**
   A JavaScript value made of JSON data. A finite number is the text ECMAScript prints for
   it; object members have distinct names, in insertion order.
   */
  datatype Data =
    | Undefined
    | Null
    | NonFinite
    | Bool(b: bool)
    | Number(spelling: Text)
    | String(units: Text)
    | Array(items: seq<Data>)
    | Object(members: seq<Field>)

  datatype Field = Field(name: Text, value: Data)

  ghost predicate IsData(d: Data)
    decreases d, 1
  {
    match d
    case Number(spelling) => IsNumber(spelling)
    case Array(items) => forall i | 0 <= i < |items| :: IsData(items[i])
    case Object(members) =>
      && (forall i | 0 <= i < |members| :: IsData(members[i].value))
      && (forall i, j | 0 <= i < j < |members| :: members[i].name != members[j].name)
    case _ => true
  }

  // ----- `JSON.stringify` of a string

  function HexDigit(n: CodeUnit): CodeUnit
    requires n < 16
  {
    if n < 10 then 0x30 + n else 0x57 + n
  }

  function UnicodeEscape(c: CodeUnit): Text {
    [BACKSLASH, 0x75, HexDigit(c / 4096), HexDigit(c / 256 % 16), HexDigit(c / 16 % 16), HexDigit(c % 16)]
  }

  predicate IsHighSurrogate(c: CodeUnit) {
    0xD800 <= c <= 0xDBFF
  }

  predicate IsLowSurrogate(c: CodeUnit) {
    0xDC00 <= c <= 0xDFFF
  }

  function QuoteUnit(c: CodeUnit): Text {
    if c == QUOTE || c == BACKSLASH then [BACKSLASH, c]
    else if c == 0x08 then [BACKSLASH, 0x62]
    else if c == 0x0C then [BACKSLASH, 0x66]
    else if c == 0x0A then [BACKSLASH, 0x6E]
    else if c == 0x0D then [BACKSLASH, 0x72]
    else if c == 0x09 then [BACKSLASH, 0x74]
    else if c < 0x20 || IsHighSurrogate(c) || IsLowSurrogate(c) then UnicodeEscape(c)
    else [c]
  }

  /** A surrogate pair is printed as it is, a lone surrogate as an escape. */
  function QuoteUnits(t: Text): Text {
    if t == [] then []
    else if |t| > 1 && IsHighSurrogate(t[0]) && IsLowSurrogate(t[1]) then [t[0]] + ([t[1]] + QuoteUnits(t[2..]))
    else QuoteUnit(t[0]) + QuoteUnits(t[1..])
  }

  lemma HexDigitValue(n: CodeUnit)
    requires n < 16
    ensures HexValue(HexDigit(n)) == Some(n)
  {
  }

  lemma UnicodeEscapeDecodes(c: CodeUnit)
    ensures HexEscape(UnicodeEscape(c)[2..6]) == Some(c)
  {
    hide HexDigit, HexValue;
    HexDigitValue(c / 4096);
    HexDigitValue(c / 256 % 16);
    HexDigitValue(c / 16 % 16);
    HexDigitValue(c % 16);
    var hex := UnicodeEscape(c)[2..6];
    assert hex == [HexDigit(c / 4096), HexDigit(c / 256 % 16), HexDigit(c / 16 % 16), HexDigit(c % 16)];
    HexSum(c as int);
  }

  lemma HexSum(c: int)
    ensures ((c / 4096 * 16 + c / 256 % 16) * 16 + c / 16 % 16) * 16 + c % 16 == c
  {
    assert c / 256 / 16 == c / 4096 && c / 16 / 16 == c / 256;
  }

  lemma QuoteUnitDecodes(c: CodeUnit, rest: Text)
    ensures Decode(QuoteUnit(c) + rest) == Prepend(c, Decode(rest))
  {
    hide Prepend, HexEscape, HexDigit;
    var t := QuoteUnit(c) + rest;
    if |QuoteUnit(c)| == 6 {
      UnicodeEscapeDecodes(c);
      assert t[2..6] == UnicodeEscape(c)[2..6] && t[6..] == rest;
    } else if |QuoteUnit(c)| == 2 {
      assert t[2..] == rest;
    } else {
      assert t[1..] == rest;
    }
  }

  lemma PlainDecodes(c: CodeUnit, rest: Text)
    requires c >= 0x20 && c != QUOTE && c != BACKSLASH
    ensures Decode([c] + rest) == Prepend(c, Decode(rest))
  {
    hide Prepend, HexEscape;
    assert ([c] + rest)[1..] == rest;
  }

  /** The parser reads a printed string back, unit by unit; so no two strings print alike. */
  lemma {:induction false} QuoteRoundTrip(t: Text)
    ensures Decode(QuoteUnits(t)) == Some(t)
    decreases |t|
  {
    hide Decode, QuoteUnit;
    if t == [] {
      DecodeEmpty();
    } else if |t| > 1 && IsHighSurrogate(t[0]) && IsLowSurrogate(t[1]) {
      QuoteRoundTrip(t[2..]);
      PlainDecodes(t[1], QuoteUnits(t[2..]));
      PlainDecodes(t[0], [t[1]] + QuoteUnits(t[2..]));
      assert [t[0]] + ([t[1]] + t[2..]) == t;
    } else {
      QuoteRoundTrip(t[1..]);
      QuoteUnitDecodes(t[0], QuoteUnits(t[1..]));
      assert [t[0]] + t[1..] == t;
    }
  }

  lemma DecodeEmpty()
    ensures Decode([]) == Some([])
  {
  }

  // ----- names, sorted

  function Names(members: seq<Field>): seq<Text> {
    seq(|members|, i requires 0 <= i < |members| => members[i].name)
  }

  function Insert(name: Text, sorted: seq<Text>): seq<Text> {
    if sorted == [] || Less(name, sorted[0]) then [name] + sorted else [sorted[0]] + Insert(name, sorted[1..])
  }

  /** `toSorted()` */
  function Sorted(names: seq<Text>): seq<Text> {
    if names == [] then [] else Insert(names[0], Sorted(names[1..]))
  }

  ghost predicate IsAscending(names: seq<Text>) {
    forall i, j | 0 <= i < j < |names| :: Less(names[i], names[j])
  }

  lemma {:induction false} InsertAscends(name: Text, sorted: seq<Text>)
    requires IsAscending(sorted) && name !in sorted
    ensures IsAscending(Insert(name, sorted))
    ensures forall n :: n in Insert(name, sorted) <==> n == name || n in sorted
  {
    hide Less;
    if sorted == [] {
    } else if Less(name, sorted[0]) {
      forall j | 0 <= j < |sorted|
        ensures Less(name, sorted[j])
      {
        if j > 0 {
          LessTransitive(name, sorted[0], sorted[j]);
        }
      }
    } else {
      LessTotal(name, sorted[0]);
      InsertAscends(name, sorted[1..]);
      var rest := Insert(name, sorted[1..]);
      forall n | n in rest
        ensures Less(sorted[0], n)
      {
      }
    }
  }

  lemma {:induction false} SortedAscends(names: seq<Text>)
    requires forall i, j | 0 <= i < j < |names| :: names[i] != names[j]
    ensures IsAscending(Sorted(names))
    ensures forall n :: n in Sorted(names) <==> n in names
  {
    if names != [] {
      SortedAscends(names[1..]);
      InsertAscends(names[0], Sorted(names[1..]));
    }
  }

  /** A set of names has one ascending list. */
  lemma {:induction false} AscendingIsUnique(a: seq<Text>, b: seq<Text>)
    requires IsAscending(a) && IsAscending(b) && forall n :: n in a <==> n in b
    ensures a == b
  {
    if a != [] {
      assert a[0] in a;
    }
    if b != [] {
      assert b[0] in b;
    }
    if a != [] {
      LessFirst(a, b[0]);
      LessFirst(b, a[0]);
      if a[0] != b[0] {
        LessTransitive(a[0], b[0], a[0]);
        LessIrreflexive(a[0]);
      }
      forall n
        ensures n in a[1..] <==> n in b[1..]
      {
        LessIrreflexive(a[0]);
        assert n in a <==> n == a[0] || n in a[1..];
        assert n in b <==> n == b[0] || n in b[1..];
      }
      AscendingIsUnique(a[1..], b[1..]);
    }
  }

  lemma LessFirst(a: seq<Text>, n: Text)
    requires IsAscending(a) && n in a
    ensures n == a[0] || Less(a[0], n)
  {
  }

  // ----- the printer

  function IndexOfName(members: seq<Field>, name: Text): (i: nat)
    requires name in Names(members)
    ensures i < |members| && members[i].name == name
  {
    if members[0].name == name then 0
    else
      assert Names(members)[1..] == Names(members[1..]);
      1 + IndexOfName(members[1..], name)
  }

  function ValueOf(d: Data, name: Text): (v: Data)
    requires d.Object? && name in Names(d.members)
    ensures v < d
  {
    d.members[IndexOfName(d.members, name)].value
  }

  function Defined(d: Data, names: seq<Text>): (kept: seq<Text>)
    requires d.Object? && forall n | n in names :: n in Names(d.members)
    ensures forall n :: n in kept <==> n in names && ValueOf(d, n) != Undefined
  {
    if names == [] then []
    else if ValueOf(d, names[0]) == Undefined then Defined(d, names[1..])
    else [names[0]] + Defined(d, names[1..])
  }

  /** The names an object prints: sorted, the undefined ones dropped. */
  function PrintedNames(d: Data): (kept: seq<Text>)
    requires d.Object?
    ensures forall n | n in kept :: n in Names(d.members) && ValueOf(d, n) != Undefined
  {
    SortedKeepsNames(Names(d.members));
    Defined(d, Sorted(Names(d.members)))
  }

  lemma {:induction false} SortedKeepsNames(names: seq<Text>)
    ensures forall n :: n in Sorted(names) <==> n in names
  {
    if names != [] {
      SortedKeepsNames(names[1..]);
      InsertKeepsNames(names[0], Sorted(names[1..]));
      assert forall n :: n in names <==> n == names[0] || n in names[1..];
    }
  }

  lemma {:induction false} InsertKeepsNames(name: Text, sorted: seq<Text>)
    ensures forall n :: n in Insert(name, sorted) <==> n == name || n in sorted
  {
    if sorted != [] && !Less(name, sorted[0]) {
      InsertKeepsNames(name, sorted[1..]);
      assert forall n :: n in sorted <==> n == sorted[0] || n in sorted[1..];
    }
  }

  function Join(parts: seq<Text>): Text {
    if parts == [] then [] else if |parts| == 1 then parts[0] else parts[0] + ([COMMA] + Join(parts[1..]))
  }

  /** Undefined and non-finite numbers print as null: `JSON.stringify(value) ?? 'null'`. */
  function Canonical(d: Data): Text
    decreases d, 1, 0
  {
    match d
    case Undefined => Ascii("null")
    case Null => Ascii("null")
    case NonFinite => Ascii("null")
    case Bool(b) => if b then Ascii("true") else Ascii("false")
    case Number(spelling) => spelling
    case String(units) => QuotedText(QuoteUnits(units))
    case Array(items) => [OPEN_ARRAY] + (Join(CanonicalItems(items)) + [CLOSE_ARRAY])
    case Object(_) => [OPEN_OBJECT] + (Join(CanonicalMembers(d, PrintedNames(d))) + [CLOSE_OBJECT])
  }

  function CanonicalItems(items: seq<Data>): (parts: seq<Text>)
    ensures |parts| == |items|
    decreases items, 0, 0
  {
    if items == [] then [] else [Canonical(items[0])] + CanonicalItems(items[1..])
  }

  function CanonicalMembers(d: Data, names: seq<Text>): (parts: seq<Text>)
    requires d.Object? && forall n | n in names :: n in Names(d.members)
    ensures |parts| == |names|
    decreases d, 0, |names|
  {
    if names == [] then []
    else [QuotedText(QuoteUnits(names[0])) + ([COLON] + Canonical(ValueOf(d, names[0])))] + CanonicalMembers(d, names[1..])
  }

  // ----- the same print as a layout without blanks

  function LayoutOf(d: Data): Layout
    decreases d, 1, 0
  {
    match d
    case String(units) => Quoted(QuoteUnits(units))
    case Array(items) => Group(false, ToRows(ItemRows(items)))
    case Object(_) => Group(true, ToRows(MemberRows(d, PrintedNames(d))))
    case Number(spelling) => Scalar(spelling)
    case Bool(b) => Scalar(if b then Ascii("true") else Ascii("false"))
    case _ => Scalar(Ascii("null"))
  }

  function ItemRows(items: seq<Data>): (rows: seq<Row>)
    ensures |rows| == |items|
    decreases items, 0, 0
  {
    if items == [] then [] else [Row([], Unnamed, LayoutOf(items[0]), [])] + ItemRows(items[1..])
  }

  function MemberRows(d: Data, names: seq<Text>): (rows: seq<Row>)
    requires d.Object? && forall n | n in names :: n in Names(d.members)
    ensures |rows| == |names|
    decreases d, 0, |names|
  {
    if names == [] then []
    else [Row([], Named(QuoteUnits(names[0]), [], []), LayoutOf(ValueOf(d, names[0])), [])] + MemberRows(d, names[1..])
  }

  function ToRows(rows: seq<Row>): Rows {
    if rows == [] then Empty([]) else if |rows| == 1 then Last(rows[0]) else More(rows[0], ToRows(rows[1..]))
  }

  lemma {:induction false} ToRowsInjective(a: seq<Row>, b: seq<Row>)
    requires ToRows(a) == ToRows(b)
    ensures a == b
  {
    if |a| > 1 {
      ToRowsInjective(a[1..], b[1..]);
      assert a == [a[0]] + a[1..] && b == [b[0]] + b[1..];
    }
  }

  lemma {:induction false} ToRowsWf(isObject: bool, rows: seq<Row>)
    requires forall i | 0 <= i < |rows| :: WfRow(isObject, rows[i])
    ensures WfRows(isObject, ToRows(rows))
  {
    hide WfRow;
    if |rows| > 1 {
      ToRowsWf(isObject, rows[1..]);
    }
  }

  lemma {:induction false} ToRowsText(rows: seq<Row>, parts: seq<Text>)
    requires |rows| == |parts| && forall i | 0 <= i < |rows| :: RowText(rows[i]) == parts[i]
    ensures RowsText(ToRows(rows)) == Join(parts)
  {
    hide RowText;
    if |rows| > 1 {
      ToRowsText(rows[1..], parts[1..]);
    }
  }

  lemma LiteralWords()
    ensures IsLiteral(Ascii("null")) && IsLiteral(Ascii("true")) && IsLiteral(Ascii("false"))
    ensures Ascii("null") != Ascii("true") && Ascii("true") != Ascii("false") && Ascii("null") != Ascii("false")
  {
    hide IsNumber;
    assert Ascii("null")[0] == 0x6E && Ascii("true")[0] == 0x74 && Ascii("false")[0] == 0x66;
  }

  lemma {:induction false} CanonicalIsLayout(d: Data)
    requires IsData(d)
    ensures WfLayout(LayoutOf(d)) && LayoutText(LayoutOf(d)) == Canonical(d)
    decreases d, 1, 0
  {
    hide Ascii, IsNumber, Names, PrintedNames, RowsText, WfRows, Decode;
    LiteralWords();
    match d
    case String(units) =>
      QuoteRoundTrip(units);
    case Array(items) =>
      ItemsAreRows(items);
      ToRowsWf(false, ItemRows(items));
      ToRowsText(ItemRows(items), CanonicalItems(items));
    case Object(_) =>
      var names := PrintedNames(d);
      MembersAreRows(d, names);
      ToRowsWf(true, MemberRows(d, names));
      ToRowsText(MemberRows(d, names), CanonicalMembers(d, names));
    case _ =>
  }

  lemma {:induction false} ItemsAreRows(items: seq<Data>)
    requires forall i | 0 <= i < |items| :: IsData(items[i])
    ensures forall i | 0 <= i < |items| :: WfRow(false, ItemRows(items)[i]) && RowText(ItemRows(items)[i]) == CanonicalItems(items)[i]
    decreases items, 0, 0
  {
    hide LayoutText, WfLayout, LayoutOf, Canonical, IsData;
    if items != [] {
      CanonicalIsLayout(items[0]);
      ItemsAreRows(items[1..]);
      var v := LayoutText(LayoutOf(items[0]));
      assert [] + ([] + (v + [])) == v;
    }
  }

  lemma {:induction false} MembersAreRows(d: Data, names: seq<Text>)
    requires IsData(d) && d.Object? && forall n | n in names :: n in Names(d.members)
    ensures forall i | 0 <= i < |names| ::
              WfRow(true, MemberRows(d, names)[i]) && RowText(MemberRows(d, names)[i]) == CanonicalMembers(d, names)[i]
    decreases d, 0, |names|
  {
    hide LayoutText, WfLayout, LayoutOf, Canonical, Decode, Names, QuotedText, QuoteUnits, RowText, IsData, ValueOf;
    if names != [] {
      ValueIsData(d, names[0]);
      CanonicalIsLayout(ValueOf(d, names[0]));
      MembersAreRows(d, names[1..]);
      QuoteRoundTrip(names[0]);
      CompactRow(QuoteUnits(names[0]), LayoutOf(ValueOf(d, names[0])));
    }
  }

  /** A member row without blanks. */
  lemma CompactRow(key: Text, v: Layout)
    ensures var row := Row([], Named(key, [], []), v, []);
            && RowText(row) == QuotedText(key) + ([COLON] + LayoutText(v))
            && (IsSpelling(key) && WfLayout(v) ==> WfRow(true, row))
  {
    hide LayoutText, WfLayout, QuotedText, IsSpelling;
    var k, t := QuotedText(key), LayoutText(v);
    assert [] + ((k + ([] + ([COLON] + []))) + (t + [])) == k + ([COLON] + t);
  }

  // ----- what a value means: no order, no undefined members

  datatype Plain =
    | PNull
    | PBool(b: bool)
    | PNumber(spelling: Text)
    | PString(units: Text)
    | PArray(items: seq<Plain>)
    | PObject(members: map<Text, Plain>)

  /** Undefined members do not exist, member order does not exist, and what prints as null is null. */
  function Meaning(d: Data): Plain
    decreases d, 1
  {
    match d
    case Bool(b) => PBool(b)
    case Number(spelling) => PNumber(spelling)
    case String(units) => PString(units)
    case Array(items) => PArray(Meanings(items))
    case Object(members) =>
      PObject(map n | n in Names(members) && ValueOf(d, n) != Undefined :: Meaning(ValueOf(d, n)))
    case _ => PNull
  }

  function Meanings(items: seq<Data>): (plain: seq<Plain>)
    ensures |plain| == |items|
    decreases items, 0
  {
    if items == [] then [] else [Meaning(items[0])] + Meanings(items[1..])
  }

  lemma {:induction false} DefinedAscends(d: Data, names: seq<Text>)
    requires d.Object? && (forall n | n in names :: n in Names(d.members)) && IsAscending(names)
    ensures IsAscending(Defined(d, names))
  {
    hide Names, Less;
    if names != [] {
      var rest := Defined(d, names[1..]);
      DefinedAscends(d, names[1..]);
      forall n | n in rest
        ensures Less(names[0], n)
      {
        assert n in names[1..];
      }
    }
  }

  /** What is printed depends only on which names are defined. */
  lemma PrintedNamesAreSorted(d: Data)
    requires IsData(d) && d.Object?
    ensures IsAscending(PrintedNames(d))
    ensures forall n :: n in PrintedNames(d) <==> n in Names(d.members) && ValueOf(d, n) != Undefined
  {
    hide Sorted, IsAscending, ValueOf;
    var names := Names(d.members);
    SortedAscends(names);
    SortedKeepsNames(names);
    DefinedAscends(d, Sorted(names));
  }

  function PrintedMeaning(d: Data): map<Text, Plain>
    requires d.Object?
  {
    map n | n in Names(d.members) && ValueOf(d, n) != Undefined :: Meaning(ValueOf(d, n))
  }

  lemma ObjectMeaning(d: Data)
    requires d.Object?
    ensures Meaning(d) == PObject(PrintedMeaning(d))
  {
  }

  lemma ValueIsData(d: Data, name: Text)
    requires IsData(d) && d.Object? && name in Names(d.members)
    ensures IsData(ValueOf(d, name))
  {
  }

  // ----- equal meanings print alike

  lemma {:induction false} SameMeaningSamePrint(a: Data, b: Data)
    requires IsData(a) && IsData(b) && Meaning(a) == Meaning(b)
    ensures Canonical(a) == Canonical(b)
    decreases a, 1, 0
  {
    hide Ascii, IsNumber, QuotedText, Join, Names, ValueOf, PrintedNames;
    if a.Array? {
      SameItemsSamePrint(a.items, b.items);
    } else if a.Object? {
      SameNames(a, b);
      SameMembersSamePrint(a, b, PrintedNames(a));
    }
  }

  lemma SameNames(a: Data, b: Data)
    requires IsData(a) && IsData(b) && a.Object? && b.Object? && Meaning(a) == Meaning(b)
    ensures PrintedNames(a) == PrintedNames(b)
    ensures forall n | n in PrintedNames(a) :: Meaning(ValueOf(a, n)) == Meaning(ValueOf(b, n))
  {
    hide PrintedNames, ValueOf, Names, IsAscending, IsData, Meaning;
    PrintedNamesAreSorted(a);
    PrintedNamesAreSorted(b);
    ObjectMeaning(a);
    ObjectMeaning(b);
    forall n
      ensures n in PrintedNames(a) <==> n in PrintedNames(b)
      ensures n in PrintedNames(a) ==> Meaning(ValueOf(a, n)) == Meaning(ValueOf(b, n))
    {
      assert n in PrintedMeaning(a) <==> n in PrintedMeaning(b);
      if n in PrintedNames(a) {
        assert PrintedMeaning(a)[n] == PrintedMeaning(b)[n];
      }
    }
    AscendingIsUnique(PrintedNames(a), PrintedNames(b));
  }

  lemma {:induction false} SameItemsSamePrint(a: seq<Data>, b: seq<Data>)
    requires forall i | 0 <= i < |a| :: IsData(a[i])
    requires forall i | 0 <= i < |b| :: IsData(b[i])
    requires Meanings(a) == Meanings(b)
    ensures CanonicalItems(a) == CanonicalItems(b)
    decreases a, 0, 0
  {
    hide Canonical, IsData, Meaning;
    if a != [] {
      assert |b| == |Meanings(b)| == |a|;
      assert Meanings(a)[0] == Meanings(b)[0] && Meanings(a)[1..] == Meanings(b)[1..];
      SameMeaningSamePrint(a[0], b[0]);
      SameItemsSamePrint(a[1..], b[1..]);
    } else {
      assert |b| == |Meanings(b)| == 0;
    }
  }

  lemma {:induction false} SameMembersSamePrint(a: Data, b: Data, names: seq<Text>)
    requires IsData(a) && IsData(b) && a.Object? && b.Object?
    requires forall n | n in names ::
               n in Names(a.members) && n in Names(b.members) && Meaning(ValueOf(a, n)) == Meaning(ValueOf(b, n))
    ensures CanonicalMembers(a, names) == CanonicalMembers(b, names)
    decreases a, 0, |names|
  {
    hide Canonical, IsData, Meaning, Names, QuoteUnits, QuotedText;
    if names != [] {
      ValueIsData(a, names[0]);
      ValueIsData(b, names[0]);
      SameMeaningSamePrint(ValueOf(a, names[0]), ValueOf(b, names[0]));
      SameMembersSamePrint(a, b, names[1..]);
      assert CanonicalMembers(a, names)[1..] == CanonicalMembers(b, names)[1..];
    }
  }

  // ----- equal prints mean the same

  lemma NumberIsNoWord(t: Text)
    requires IsNumber(t)
    ensures t != Ascii("null") && t != Ascii("true") && t != Ascii("false")
  {
    assert t[0] == 0x2D || IsDigit(t[0]);
    assert Ascii("null")[0] == 0x6E && Ascii("true")[0] == 0x74 && Ascii("false")[0] == 0x66;
  }

  lemma {:induction false} SameLayoutSameMeaning(a: Data, b: Data)
    requires IsData(a) && IsData(b) && LayoutOf(a) == LayoutOf(b)
    ensures Meaning(a) == Meaning(b)
    decreases a, 1, 0
  {
    hide Ascii, IsNumber, Names, ValueOf, PrintedNames, QuoteUnits, ToRows;
    LiteralWords();
    if a.Number? {
      NumberIsNoWord(a.spelling);
    }
    if b.Number? {
      NumberIsNoWord(b.spelling);
    }
    if a.String? {
      QuoteRoundTrip(a.units);
      QuoteRoundTrip(b.units);
    } else if a.Array? {
      ToRowsInjective(ItemRows(a.items), ItemRows(b.items));
      SameRowsSameItems(a.items, b.items);
    } else if a.Object? {
      SameRowsSameObject(a, b);
    }
  }

  lemma {:induction false} SameRowsSameItems(a: seq<Data>, b: seq<Data>)
    requires forall i | 0 <= i < |a| :: IsData(a[i])
    requires forall i | 0 <= i < |b| :: IsData(b[i])
    requires ItemRows(a) == ItemRows(b)
    ensures Meanings(a) == Meanings(b)
    decreases a, 0, 0
  {
    hide LayoutOf, IsData, Meaning;
    assert |a| == |ItemRows(a)| == |ItemRows(b)| == |b|;
    if a != [] {
      assert ItemRows(a)[0] == ItemRows(b)[0] && ItemRows(a)[1..] == ItemRows(b)[1..];
      SameLayoutSameMeaning(a[0], b[0]);
      SameRowsSameItems(a[1..], b[1..]);
    }
  }

  lemma {:induction false} SameRowsSameObject(a: Data, b: Data)
    requires IsData(a) && IsData(b) && a.Object? && b.Object? && LayoutOf(a) == LayoutOf(b)
    ensures Meaning(a) == Meaning(b)
    decreases a, 0, |PrintedNames(a)| + 1
  {
    hide Names, ValueOf, PrintedNames, ToRows, IsAscending, IsData, Meaning, MemberRows;
    var m, n := PrintedNames(a), PrintedNames(b);
    ToRowsInjective(MemberRows(a, m), MemberRows(b, n));
    SameRowsSameMembers(a, m, b, n);
    PrintedNamesAreSorted(a);
    PrintedNamesAreSorted(b);
    ObjectMeaning(a);
    ObjectMeaning(b);
    assert PrintedMeaning(a) == PrintedMeaning(b);
  }

  lemma {:induction false} SameRowsSameMembers(a: Data, m: seq<Text>, b: Data, n: seq<Text>)
    requires IsData(a) && IsData(b) && a.Object? && b.Object?
    requires (forall k | k in m :: k in Names(a.members)) && forall k | k in n :: k in Names(b.members)
    requires MemberRows(a, m) == MemberRows(b, n)
    ensures m == n && forall k | k in m :: Meaning(ValueOf(a, k)) == Meaning(ValueOf(b, k))
    decreases a, 0, |m|
  {
    hide LayoutOf, IsData, Meaning, Names, QuoteUnits, ValueOf;
    assert |m| == |MemberRows(a, m)| == |MemberRows(b, n)| == |n|;
    if m != [] {
      assert MemberRows(a, m)[0] == MemberRows(b, n)[0] && MemberRows(a, m)[1..] == MemberRows(b, n)[1..];
      QuoteRoundTrip(m[0]);
      QuoteRoundTrip(n[0]);
      ValueIsData(a, m[0]);
      ValueIsData(b, n[0]);
      SameLayoutSameMeaning(ValueOf(a, m[0]), ValueOf(b, n[0]));
      SameRowsSameMembers(a, m[1..], b, n[1..]);
      assert m == [m[0]] + m[1..] && n == [n[0]] + n[1..];
    }
  }

  /** Two values print the same text exactly when they mean the same. */
  lemma CanonicalIsInjective(a: Data, b: Data)
    requires IsData(a) && IsData(b)
    ensures Canonical(a) == Canonical(b) <==> Meaning(a) == Meaning(b)
  {
    hide Canonical, Meaning, LayoutOf, WfLayout, LayoutText, ParseDocument;
    CanonicalIsLayout(a);
    CanonicalIsLayout(b);
    if Meaning(a) == Meaning(b) {
      SameMeaningSamePrint(a, b);
    }
    if Canonical(a) == Canonical(b) {
      var da, db := Document([], LayoutOf(a), []), Document([], LayoutOf(b), []);
      DocumentTextParses(da);
      DocumentTextParses(db);
      SameLayoutSameMeaning(a, b);
    }
  }

  /** The print of a value is a JSON text, and the parser reads back the layout it was printed from. */
  lemma CanonicalParses(d: Data)
    requires IsData(d)
    ensures ParseDocument(Canonical(d)) == Some(Document([], LayoutOf(d), []))
  {
    hide Canonical, LayoutOf, WfLayout, LayoutText, ParseDocument;
    CanonicalIsLayout(d);
    var doc := Document([], LayoutOf(d), []);
    DocumentTextParses(doc);
    assert DocumentText(doc) == Canonical(d);
  }
}
