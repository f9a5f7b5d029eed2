/** What the scanners find in a text of the JSON grammar, for every document and every layout of it. */
module JsonScanning {
  import opened CodeUnits
  import opened JsonGrammar
  import opened JsonTree
  import opened JsonScanner

  // ----- strings

  lemma PlainSpelling(t: Text)
    requires t != [] && t[0] != QUOTE && t[0] != BACKSLASH && t[0] >= 0x20 && IsSpelling(t[1..])
    ensures IsSpelling(t)
  {
  }

  lemma HexIsPlain(c: CodeUnit)
    requires HexValue(c).Some?
    ensures c != QUOTE && c != BACKSLASH && c >= 0x20
  {
  }

  /** The hex digits of an escape are themselves plain units, so a scan may resume among them. */
  lemma AfterUnicodeEscape(raw: Text)
    requires IsSpelling(raw) && raw != [] && raw[0] == BACKSLASH && raw[1] == 0x75
    ensures IsSpelling(raw[2..])
  {
    var hex := raw[2..6];
    assert HexEscape(hex).Some? && IsSpelling(raw[6..]);
    hide Decode, HexValue;
    HexIsPlain(hex[0]);
    HexIsPlain(hex[1]);
    HexIsPlain(hex[2]);
    HexIsPlain(hex[3]);
    hide IsSpelling;
    assert raw[5..][1..] == raw[6..] && raw[4..][1..] == raw[5..] && raw[3..][1..] == raw[4..] && raw[2..][1..] == raw[3..];
    PlainSpelling(raw[5..]);
    PlainSpelling(raw[4..]);
    PlainSpelling(raw[3..]);
    PlainSpelling(raw[2..]);
  }

  /** `scanString` stops exactly behind the quote that closes a spelling. */
  lemma {:induction false} StringEndAt(body: Text, i: nat, raw: Text)
    requires IsSpelling(raw) && At(body, i, raw + [QUOTE])
    ensures StringEnd(body, i) == i + |raw| + 1
    decreases |raw|
  {
    hide At;
    AtUnit(body, i, raw + [QUOTE], 0);
    if raw != [] {
      var step := if raw[0] == BACKSLASH then 2 else 1;
      assert IsSpelling(raw[step..]) by {
        if raw[0] == BACKSLASH && raw[1] == 0x75 {
          AfterUnicodeEscape(raw);
        }
      }
      hide Decode;
      AtDrop(body, i, raw + [QUOTE], step);
      assert (raw + [QUOTE])[step..] == raw[step..] + [QUOTE];
      StringEndAt(body, i + step, raw[step..]);
    }
  }

  lemma QuotedAt(body: Text, i: nat, raw: Text)
    requires IsSpelling(raw) && At(body, i, QuotedText(raw))
    ensures i < |body| && body[i] == QUOTE
    ensures StringEnd(body, i + 1) == i + |QuotedText(raw)| == i + |raw| + 2 <= |body|
    ensures ReadString(body, i, i + |QuotedText(raw)|) == raw
    ensures DecodeJsonString(raw) == Decode(raw).value
  {
    hide At, Decode;
    AtUnit(body, i, QuotedText(raw), 0);
    AtSplit(body, i, [QUOTE], raw + [QUOTE]);
    StringEndAt(body, i + 1, raw);
    AtSplit(body, i + 1, raw, [QUOTE]);
    AtText(body, i + 1, raw);
  }

  // ----- units no scanner reacts to

  predicate IsInert(c: CodeUnit) {
    c != QUOTE && !IsOpen(c) && !IsClose(c)
  }

  lemma BlankAt(body: Text, i: nat, pad: Text)
    requires At(body, i, pad) && IsBlank(pad)
    ensures i + |pad| <= |body|
    ensures forall k | i <= k < i + |pad| :: IsBlankUnit(body[k]) && IsInert(body[k])
  {
    AtText(body, i, pad);
    forall k | i <= k < i + |pad|
      ensures IsBlankUnit(body[k]) && IsInert(body[k])
    {
      AtUnit(body, i, pad, k - i);
    }
  }

  lemma LiteralAt(body: Text, i: nat, t: Text)
    requires At(body, i, t) && IsLiteral(t)
    ensures i + |t| <= |body|
    ensures forall k | i <= k < i + |t| :: IsInert(body[k]) && !StopsScalar(body[k])
  {
    hide IsLiteral;
    LiteralIsToken(t);
    AtText(body, i, t);
    forall k | i <= k < i + |t|
      ensures IsInert(body[k]) && !StopsScalar(body[k])
    {
      AtUnit(body, i, t, k - i);
    }
  }

  lemma {:induction false} NestSkipsInert(body: Text, i: nat, j: nat, d: int)
    requires i <= j <= |body| && forall k | i <= k < j :: IsInert(body[k])
    ensures NestEnd(body, i, d) == NestEnd(body, j, d)
    decreases j - i
  {
    if i < j {
      NestSkipsInert(body, i + 1, j, d);
    }
  }

  lemma {:induction false} CollectedSkipsInert(body: Text, field: Option<Text>, i: nat, j: nat, limit: nat)
    requires i <= j <= limit <= |body| && forall k | i <= k < j :: IsInert(body[k])
    ensures Collected(body, field, i, limit) == Collected(body, field, j, limit)
    decreases j - i
  {
    if i < j {
      CollectedSkipsInert(body, field, i + 1, j, limit);
    }
  }

  lemma {:induction false} SpaceEndAt(body: Text, i: nat, j: nat, limit: nat)
    requires i <= j <= limit <= |body| && forall k | i <= k < j :: IsBlankUnit(body[k])
    requires j < limit ==> !IsJsSpace(body[j])
    ensures SkipSpace(body, i, limit) == j
    decreases j - i
  {
    if i < j {
      SpaceEndAt(body, i + 1, j, limit);
    }
  }

  lemma {:induction false} ScalarEndAt(body: Text, i: nat, j: nat)
    requires i <= j < |body| && StopsScalar(body[j]) && forall k | i <= k < j :: !StopsScalar(body[k])
    ensures ScalarEnd(body, i) == j
    decreases j - i
  {
    if i < j {
      ScalarEndAt(body, i + 1, j);
    }
  }

  // ----- structures

  /** A value inside a structure leaves the bracket count as it was. */
  lemma {:induction false} NestSkipsValue(body: Text, i: nat, v: Layout, d: int)
    requires WfLayout(v) && At(body, i, LayoutText(v)) && d >= 1
    ensures i + |LayoutText(v)| <= |body|
    ensures NestEnd(body, i, d) == NestEnd(body, i + |LayoutText(v)|, d)
    decreases v, 1
  {
    hide At, IsSpelling, IsLiteral, StringEnd, RowsText, QuotedText;
    match v
    case Scalar(raw) =>
      LiteralAt(body, i, raw);
      NestSkipsInert(body, i, i + |raw|, d);
    case Quoted(raw) =>
      QuotedAt(body, i, raw);
    case Group(isObject, rows) =>
      NestSkipsGroup(body, i, isObject, rows, d);
  }

  lemma {:induction false} NestSkipsGroup(body: Text, i: nat, isObject: bool, rows: Rows, d: int)
    requires WfRows(isObject, rows) && At(body, i, LayoutText(Group(isObject, rows))) && d >= 0
    ensures var j := i + |LayoutText(Group(isObject, rows))|;
            j <= |body| && NestEnd(body, i, d) == if d == 0 then j else NestEnd(body, j, d)
    decreases rows, 2
  {
    hide At, StringEnd, RowsText, LayoutText, WfRows;
    GroupParts(body, i, isObject, rows);
    RowsClose(body, i + 1, rows, isObject);
    NestSkipsRows(body, i + 1, isObject, rows, d + 1);
  }

  lemma {:induction false} NestSkipsRows(body: Text, i: nat, isObject: bool, rows: Rows, d: int)
    requires WfRows(isObject, rows) && At(body, i, RowsText(rows) + [Close(isObject)]) && d >= 1
    ensures i + |RowsText(rows)| < |body|
    ensures NestEnd(body, i, d) == NestEnd(body, i + |RowsText(rows)|, d)
    decreases rows, 1
  {
    hide At, NestEnd, StringEnd, RowText, RowsText, WfRow, IsBlank;
    RowsTextCases(rows);
    RowsClose(body, i, rows, isObject);
    match rows
    case Empty(pad) =>
      BlankAt(body, i, pad);
      NestSkipsInert(body, i, i + |pad|, d);
    case Last(row) =>
      NestSkipsRow(body, i, isObject, row, d);
    case More(row, rest) =>
      MoreParts(body, i, row, rest, [Close(isObject)]);
      NestSkipsRow(body, i, isObject, row, d);
      NestSkipsInert(body, i + |RowText(row)|, i + |RowText(row)| + 1, d);
      NestSkipsRows(body, i + |RowText(row)| + 1, isObject, rest, d);
  }

  lemma {:induction false} NestSkipsRow(body: Text, i: nat, isObject: bool, row: Row, d: int)
    requires WfRow(isObject, row) && At(body, i, RowText(row)) && d >= 1
    ensures i + |RowText(row)| <= |body|
    ensures NestEnd(body, i, d) == NestEnd(body, i + |RowText(row)|, d)
    decreases row, 2
  {
    hide At, NestEnd, WfName, WfLayout, LayoutText, NameText, RowText;
    RowParts(body, i, row);
    BlankAt(body, i, row.before);
    NestSkipsInert(body, i, NameStart(i, row), d);
    NestSkipsName(body, NameStart(i, row), isObject, row.name, d);
    NestSkipsValue(body, ValueStart(i, row), row.value, d);
    BlankAt(body, AfterStart(i, row), row.after);
    NestSkipsInert(body, AfterStart(i, row), i + |RowText(row)|, d);
  }

  lemma NestSkipsName(body: Text, i: nat, isObject: bool, name: Name, d: int)
    requires WfName(isObject, name) && At(body, i, NameText(name)) && i + |NameText(name)| <= |body|
    ensures NestEnd(body, i, d) == NestEnd(body, i + |NameText(name)|, d)
  {
    hide At, IsSpelling, StringEnd, IsBlank, QuotedText;
    if name.Named? {
      var colon := NameAt(body, i, name);
      NestSkipsInert(body, i + |name.key| + 2, i + |NameText(name)|, d);
    }
  }

  /** A printed name: its quotes, its colon, and nothing but blanks around the colon. */
  lemma NameAt(body: Text, i: nat, name: Name) returns (colon: nat)
    requires WfName(true, name) && At(body, i, NameText(name))
    ensures i + |NameText(name)| <= |body|
    ensures body[i] == QUOTE && StringEnd(body, i + 1) == i + |name.key| + 2
    ensures ReadString(body, i, i + |name.key| + 2) == name.key
    ensures DecodeJsonString(name.key) == Decode(name.key).value
    ensures i + |name.key| + 2 <= colon < i + |NameText(name)| && body[colon] == COLON
    ensures forall k | i + |name.key| + 2 <= k < i + |NameText(name)| :: k == colon || IsBlankUnit(body[k])
  {
    hide At, IsSpelling, StringEnd, IsBlank, NameText, Decode, ReadString, DecodeJsonString;
    var Named(key, gap, lead) := name;
    NameParts(body, i, key, gap, lead);
    QuotedAt(body, i, key);
    var g := i + |key| + 2;
    colon := g + |gap|;
    BlankAt(body, g, gap);
    BlankAt(body, colon + 1, lead);
  }

  /** `scanValue` ends a structure or a string exactly, and a bare scalar at the next punctuation. */
  lemma ValueEndAt(body: Text, i: nat, v: Layout, after: Text)
    requires WfLayout(v) && IsBlank(after) && At(body, i, LayoutText(v))
    requires var j := i + |LayoutText(v)|;
             At(body, j, after) && j + |after| < |body| && StopsScalar(body[j + |after|])
    ensures ValueEnd(body, i) == i + |LayoutText(v)| + (if v.Scalar? then |after| else 0)
  {
    hide At, IsSpelling, IsLiteral, StringEnd, RowsText, QuotedText, IsBlank;
    LayoutStart(v);
    AtUnit(body, i, LayoutText(v), 0);
    match v
    case Scalar(raw) =>
      LiteralAt(body, i, raw);
      BlankAt(body, i + |raw|, after);
      ScalarEndAt(body, i, i + |raw| + |after|);
    case Quoted(raw) =>
      QuotedAt(body, i, raw);
    case Group(isObject, rows) =>
      NestSkipsGroup(body, i, isObject, rows, 0);
      GroupParts(body, i, isObject, rows);
  }

  // ----- the member walk

  /** A string in value position: the next unit that is no space is not a colon. */
  predicate NoColonAfter(body: Text, j: nat, limit: nat)
    requires limit <= |body|
  {
    var cursor := SkipSpace(body, j, limit);
    cursor >= |body| || body[cursor] != COLON
  }

  lemma {:induction false} CollectedValue(body: Text, field: Option<Text>, i: nat, v: Layout, limit: nat)
    requires WfLayout(v) && At(body, i, LayoutText(v)) && i + |LayoutText(v)| <= limit <= |body|
    requires v.Quoted? ==> NoColonAfter(body, i + |LayoutText(v)|, limit)
    ensures Collected(body, field, i, limit)
         == Strings(Tree(v), field) + Collected(body, field, i + |LayoutText(v)|, limit)
    decreases v, 1
  {
    hide At, IsSpelling, IsLiteral, StringEnd, RowsText, QuotedText, Decode, DecodeJsonString, SkipSpace, ItemStrings, MemberStrings;
    match v
    case Scalar(raw) =>
      LiteralAt(body, i, raw);
      CollectedSkipsInert(body, field, i, i + |raw|, limit);
    case Quoted(raw) =>
      QuotedAt(body, i, raw);
    case Group(isObject, rows) =>
      GroupParts(body, i, isObject, rows);
      RowsClose(body, i + 1, rows, isObject);
      CollectedRows(body, field, i + 1, isObject, rows, limit);
  }

  /** The strings the rows of a structure contribute. */
  function RowStrings(isObject: bool, rows: Rows, field: Option<Text>): seq<Text>
    requires WfRows(isObject, rows)
  {
    if isObject then MemberStrings(MembersOf(rows), field) else ItemStrings(ItemsOf(rows), field)
  }

  function OneRow(isObject: bool, row: Row, field: Option<Text>): seq<Text>
    requires WfRow(isObject, row)
  {
    if isObject then ValueStrings(Decode(row.name.key).value, Tree(row.value), field) else Strings(Tree(row.value), field)
  }

  lemma RowStringsEmpty(isObject: bool, rows: Rows, field: Option<Text>)
    requires rows.Empty? && WfRows(isObject, rows)
    ensures RowStrings(isObject, rows, field) == []
  {
  }

  lemma RowStringsLast(isObject: bool, row: Row, field: Option<Text>)
    requires WfRow(isObject, row)
    ensures RowStrings(isObject, Last(row), field) == OneRow(isObject, row, field)
  {
    hide Tree, Decode, Strings, ValueStrings;
    if isObject {
      MemberStringsCons(MemberOf(row), [], field);
      assert [MemberOf(row)] + [] == [MemberOf(row)];
    } else {
      ItemStringsCons(Tree(row.value), [], field);
      assert [Tree(row.value)] + [] == [Tree(row.value)];
    }
  }

  lemma RowStringsMore(isObject: bool, row: Row, rest: Rows, field: Option<Text>)
    requires WfRow(isObject, row) && WfRows(isObject, rest) && !rest.Empty?
    ensures RowStrings(isObject, More(row, rest), field) == OneRow(isObject, row, field) + RowStrings(isObject, rest, field)
  {
    hide Tree, Decode, Strings, ValueStrings, MemberStrings, ItemStrings;
    if isObject {
      MemberStringsCons(MemberOf(row), MembersOf(rest), field);
    } else {
      ItemStringsCons(Tree(row.value), ItemsOf(rest), field);
    }
  }

  lemma {:induction false} CollectedRows(body: Text, field: Option<Text>, i: nat, isObject: bool, rows: Rows, limit: nat)
    requires WfRows(isObject, rows) && At(body, i, RowsText(rows) + [Close(isObject)])
    requires i + |RowsText(rows)| < limit <= |body|
    ensures Collected(body, field, i, limit)
         == RowStrings(isObject, rows, field) + Collected(body, field, i + |RowsText(rows)|, limit)
    decreases rows, 1
  {
    hide At, Collected, RowText, WfRow, IsBlank, OneRow, RowStrings, RowsText, SkipSpace;
    RowsTextCases(rows);
    RowsClose(body, i, rows, isObject);
    match rows
    case Empty(pad) =>
      BlankAt(body, i, pad);
      CollectedSkipsInert(body, field, i, i + |pad|, limit);
      RowStringsEmpty(isObject, rows, field);
    case Last(row) =>
      CollectedRow(body, field, i, isObject, row, limit);
      RowStringsLast(isObject, row, field);
    case More(row, rest) =>
      MoreParts(body, i, row, rest, [Close(isObject)]);
      var j := i + |RowText(row)|;
      CollectedRow(body, field, i, isObject, row, limit);
      CollectedSkipsInert(body, field, j, j + 1, limit);
      CollectedRows(body, field, j + 1, isObject, rest, limit);
      RowStringsMore(isObject, row, rest, field);
      Grouped(OneRow(isObject, row, field), RowStrings(isObject, rest, field), Collected(body, field, i + |RowsText(rows)|, limit));
  }

  lemma {:induction false} CollectedRow(body: Text, field: Option<Text>, i: nat, isObject: bool, row: Row, limit: nat)
    requires WfRow(isObject, row) && At(body, i, RowText(row))
    requires var j := i + |RowText(row)|; j < limit <= |body| && (body[j] == COMMA || body[j] == Close(isObject))
    ensures Collected(body, field, i, limit)
         == OneRow(isObject, row, field) + Collected(body, field, i + |RowText(row)|, limit)
    decreases row, 2
  {
    hide At, Collected, WfLayout, LayoutText, RowText, Decode, Strings, ValueStrings;
    RowParts(body, i, row);
    BlankAt(body, i, row.before);
    CollectedSkipsInert(body, field, i, NameStart(i, row), limit);
    var after := AfterStart(i, row);
    var j := i + |RowText(row)|;
    BlankAt(body, after, row.after);
    CollectedSkipsInert(body, field, after, j, limit);
    if isObject {
      CollectedMember(body, field, i, row, limit);
    } else {
      SpaceEndAt(body, after, j, limit);
      CollectedValue(body, field, ValueStart(i, row), row.value, limit);
    }
  }

  lemma {:induction false} CollectedMember(body: Text, field: Option<Text>, i: nat, row: Row, limit: nat)
    requires WfRow(true, row) && At(body, i, RowText(row))
    requires var j := i + |RowText(row)|; j < limit <= |body| && StopsScalar(body[j])
    requires Collected(body, field, AfterStart(i, row), limit) == Collected(body, field, i + |RowText(row)|, limit)
    ensures Collected(body, field, NameStart(i, row), limit)
         == OneRow(true, row, field) + Collected(body, field, i + |RowText(row)|, limit)
    decreases row, 1
  {
    hide At, WfLayout, LayoutText, NameText, RowText, Decode, DecodeJsonString, StringEnd, SkipSpace, ValueEnd, IsBlank,
         ReadString, NonEmptyDecoded, Strings, Tree, Collected, IsSpelling;
    RowParts(body, i, row);
    var keyStart, valueStart, after := NameStart(i, row), ValueStart(i, row), AfterStart(i, row);
    LayoutStart(row.value);
    AtUnit(body, valueStart, LayoutText(row.value), 0);
    var colon := NameLeadsToValue(body, keyStart, row.name, valueStart, limit);
    ValueEndAt(body, valueStart, row.value, row.after);
    BlankAt(body, after, row.after);
    var valueEnd := ValueEnd(body, valueStart);
    MemberValue(body, field, valueStart, row.value, valueEnd);
    StringTree(row.value);
    CollectedAtMember(body, field, keyStart, limit, colon, valueStart);
  }

  /** From the key to the value: the colon behind it, and the value behind the blanks. */
  lemma NameLeadsToValue(body: Text, i: nat, name: Name, value: nat, limit: nat) returns (colon: nat)
    requires WfName(true, name) && At(body, i, NameText(name)) && i + |NameText(name)| == value
    requires value < limit <= |body| && !IsJsSpace(body[value])
    ensures body[i] == QUOTE && StringEnd(body, i + 1) == i + |name.key| + 2
    ensures ReadString(body, i, i + |name.key| + 2) == name.key
    ensures DecodeJsonString(name.key) == Decode(name.key).value
    ensures SkipSpace(body, i + |name.key| + 2, limit) == colon < value && body[colon] == COLON
    ensures SkipSpace(body, colon + 1, limit) == value
  {
    hide At, IsSpelling, StringEnd, SkipSpace, IsBlank, NameText, Decode, ReadString, DecodeJsonString;
    colon := NameAt(body, i, name);
    SpaceEndAt(body, i + |name.key| + 2, colon, limit);
    SpaceEndAt(body, colon + 1, value, limit);
  }

  /** One step of the walk, at a key. */
  lemma CollectedAtMember(body: Text, field: Option<Text>, i: nat, limit: nat, colon: nat, value: nat)
    requires i < limit <= |body| && body[i] == QUOTE
    requires SkipSpace(body, StringEnd(body, i + 1), limit) == colon < |body| && body[colon] == COLON
    requires SkipSpace(body, colon + 1, limit) == value < |body| && ValueEnd(body, value) > value
    ensures Collected(body, field, i, limit) ==
            (if body[value] != QUOTE then Collected(body, field, value, ValueEnd(body, value))
             else if Wanted(DecodeJsonString(ReadString(body, i, StringEnd(body, i + 1))), field) then NonEmptyDecoded(body, value, ValueEnd(body, value))
             else [])
            + Collected(body, field, ValueEnd(body, value), limit)
  {
    hide StringEnd, SkipSpace, ValueEnd, ReadString, DecodeJsonString, NonEmptyDecoded;
  }

  lemma StringTree(v: Layout)
    requires WfLayout(v)
    ensures Tree(v).String? <==> v.Quoted?
  {
  }

  /** What the walk reads of a member's value, whatever the member's name. */
  lemma {:induction false} MemberValue(body: Text, field: Option<Text>, i: nat, v: Layout, end: nat)
    requires WfLayout(v) && At(body, i, LayoutText(v)) && i + |LayoutText(v)| <= end <= |body|
    requires v.Scalar? ==> forall k | i + |LayoutText(v)| <= k < end :: IsInert(body[k])
    requires !v.Scalar? ==> end == i + |LayoutText(v)|
    ensures i < |body| && (body[i] == QUOTE <==> v.Quoted?)
    ensures v.Quoted? ==> NonEmptyDecoded(body, i, end) == NonEmpty(Tree(v).units)
    ensures !v.Quoted? ==> Collected(body, field, i, end) == Strings(Tree(v), field)
    decreases v, 2
  {
    hide At, LayoutText, StringEnd, Decode, DecodeJsonString, Strings;
    LayoutStart(v);
    AtUnit(body, i, LayoutText(v), 0);
    StartsQuoted(v);
    if v.Quoted? {
      QuotedLayout(v);
      QuotedAt(body, i, v.raw);
    } else {
      CollectedValue(body, field, i, v, end);
      CollectedSkipsInert(body, field, i + |LayoutText(v)|, end, end);
    }
  }

  lemma StartsQuoted(v: Layout)
    requires WfLayout(v)
    ensures LayoutText(v) != [] && (LayoutText(v)[0] == QUOTE <==> v.Quoted?)
  {
    LayoutStart(v);
  }

  lemma QuotedLayout(v: Layout)
    requires WfLayout(v) && v.Quoted?
    ensures IsSpelling(v.raw) && LayoutText(v) == QuotedText(v.raw) && Tree(v) == String(Decode(v.raw).value)
  {
  }

  // ----- the theorems

  lemma CollectedDocument(d: Document, field: Option<Text>)
    requires WfDocument(d)
    ensures var body := DocumentText(d);
            Collected(body, field, 0, |body|) == Strings(Tree(d.value), field)
  {
    hide At, WfLayout, LayoutText, DocumentText, Strings, Tree, Collected;
    var body := DocumentText(d);
    DocumentParts(d);
    var i := |d.before|;
    var j := i + |LayoutText(d.value)|;
    BlankAt(body, 0, d.before);
    CollectedSkipsInert(body, field, 0, i, |body|);
    BlankAt(body, j, d.after);
    SpaceEndAt(body, j, |body|, |body|);
    CollectedValue(body, field, i, d.value, |body|);
    CollectedSkipsInert(body, field, j, |body|, |body|);
    CollectedAtEnd(body, field);
  }

  lemma CollectedAtEnd(body: Text, field: Option<Text>)
    ensures Collected(body, field, |body|, |body|) == []
  {
  }

  /**
   On every text that `JSON.parse` accepts, the raw walk returns exactly the non-empty
   decoded strings of the document: duplicates kept, escaped names and values decoded.
   */
  lemma WalkReadsTheDocument(body: Text, field: Option<Text>)
    requires ParseDocument(body).Some?
    ensures Collected(body, field, 0, |body|) == Strings(DocumentTree(body), field)
  {
    hide Strings, Tree, Collected, DocumentText, ParseDocument, WfLayout;
    ParsedDocumentIsText(body);
    CollectedDocument(ParseDocument(body).value, field);
  }

  method JsonMemberValues(body: Text, field: Text) returns (values: seq<Text>)
    ensures values == Collected(body, Some(field), 0, |body|)
    ensures ParseDocument(body).Some? ==> values == Strings(DocumentTree(body), Some(field))
  {
    hide Collected, Strings, ParseDocument, Tree;
    values := CollectJsonMembers(body, Some(field), 0, |body|);
    if ParseDocument(body).Some? {
      WalkReadsTheDocument(body, Some(field));
    }
  }

  method JsonAllMemberValues(body: Text) returns (values: seq<Text>)
    ensures values == Collected(body, None, 0, |body|)
    ensures ParseDocument(body).Some? ==> values == Strings(DocumentTree(body), None)
  {
    hide Collected, Strings, ParseDocument, Tree;
    values := CollectJsonMembers(body, None, 0, |body|);
    if ParseDocument(body).Some? {
      WalkReadsTheDocument(body, None);
    }
  }
}
