/**
 Redaction of one member of a raw JSON text: the value of the first top-level member of a
 name is replaced by a placeholder, and everything else stays as it was written.
 */
module JsonRedaction {
  import opened CodeUnits
  import opened JsonGrammar
  import opened JsonTree
  import opened JsonScanner
  import opened JsonScanning

  /** How a member is looked up: by the decoded name, or by the name as it is written. */
  datatype Lookup = Lookup(field: Text, decodeKeys: bool)

  predicate Matches(row: Row, want: Lookup) {
    row.name.Named? && KeyMatches(row.name.key, want.field, want.decodeKeys)
  }

  predicate HasMatch(rows: Rows, want: Lookup) {
    match rows
    case Empty(_) => false
    case Last(row) => Matches(row, want)
    case More(row, rest) => Matches(row, want) || HasMatch(rest, want)
  }

  /** The first matching row. */
  function Matched(rows: Rows, want: Lookup): Row
    requires HasMatch(rows, want)
  {
    match rows
    case Last(row) => row
    case More(row, rest) => if Matches(row, want) then row else Matched(rest, want)
  }

  function WithValue(row: Row, v: Layout): Row {
    row.(value := v, after := if row.value.Scalar? then [] else row.after)
  }

  /** The rows with the first matching value replaced, and nothing else changed. */
  function Replaced(rows: Rows, want: Lookup, v: Layout): Rows
    requires HasMatch(rows, want)
  {
    match rows
    case Last(row) => Last(WithValue(row, v))
    case More(row, rest) =>
      if Matches(row, want) then More(WithValue(row, v), rest) else More(row, Replaced(rest, want, v))
  }

  // ----- where the matching value stands

  /** The length `scanValue` gives the value of a row: a bare scalar takes the blanks behind it along. */
  function ValueLength(row: Row): nat {
    |LayoutText(row.value)| + if row.value.Scalar? then |row.after| else 0
  }

  function ValueOffset(rows: Rows, want: Lookup): nat
    requires HasMatch(rows, want)
  {
    match rows
    case Last(row) => ValueStart(0, row)
    case More(row, rest) => if Matches(row, want) then ValueStart(0, row) else |RowText(row)| + 1 + ValueOffset(rest, want)
  }

  /** `t` with the units from `a` to `b` replaced by `x`. */
  function Splice(t: Text, a: nat, b: nat, x: Text): Text
    requires a <= b <= |t|
  {
    t[..a] + x + t[b..]
  }

  lemma SpliceRight(p: Text, q: Text, a: nat, b: nat, x: Text)
    requires a <= b <= |q|
    ensures Splice(p + q, |p| + a, |p| + b, x) == p + Splice(q, a, b, x)
  {
    assert (p + q)[..|p| + a] == p + q[..a] && (p + q)[|p| + b..] == q[b..];
  }

  lemma SpliceLeft(p: Text, q: Text, a: nat, b: nat, x: Text)
    requires a <= b <= |p|
    ensures Splice(p + q, a, b, x) == Splice(p, a, b, x) + q
  {
    assert (p + q)[..a] == p[..a] && (p + q)[b..] == p[b..] + q;
  }

  lemma SpliceAll(p: Text, q: Text, x: Text)
    ensures Splice(p + q, 0, |p|, x) == x + q
  {
    assert (p + q)[..0] == [] && (p + q)[|p|..] == q;
  }

  lemma RowSplice(row: Row, v: Layout)
    ensures ValueStart(0, row) + ValueLength(row) <= |RowText(row)|
    ensures Splice(RowText(row), ValueStart(0, row), ValueStart(0, row) + ValueLength(row), LayoutText(v))
         == RowText(WithValue(row, v))
  {
    hide LayoutText, NameText, Splice;
    var Row(before, name, value, after) := row;
    var n, x, len := NameText(name), LayoutText(v), ValueLength(row);
    var tail := LayoutText(value) + after;
    SpliceRight(before, n + tail, |n|, |n| + len, x);
    SpliceRight(n, tail, 0, len, x);
    if value.Scalar? {
      assert tail == tail + [];
      SpliceAll(tail, [], x);
    } else {
      SpliceAll(LayoutText(value), after, x);
    }
  }

  lemma {:induction false} RowsSplice(rows: Rows, want: Lookup, v: Layout)
    requires HasMatch(rows, want)
    ensures ValueOffset(rows, want) + ValueLength(Matched(rows, want)) <= |RowsText(rows)|
    ensures Splice(RowsText(rows), ValueOffset(rows, want), ValueOffset(rows, want) + ValueLength(Matched(rows, want)), LayoutText(v))
         == RowsText(Replaced(rows, want, v))
    decreases rows
  {
    hide LayoutText, RowText, ValueStart, ValueLength, Splice, Matches, WithValue;
    match rows
    case Last(row) =>
      RowSplice(row, v);
    case More(row, rest) =>
      var x := LayoutText(v);
      if Matches(row, want) {
        var a := ValueStart(0, row);
        RowSplice(row, v);
        SpliceLeft(RowText(row), [COMMA] + RowsText(rest), a, a + ValueLength(row), x);
      } else {
        RowsSplice(rest, want, v);
        var a := ValueOffset(rest, want);
        var b := a + ValueLength(Matched(rest, want));
        SpliceRight([COMMA], RowsText(rest), a, b, x);
        SpliceRight(RowText(row), [COMMA] + RowsText(rest), 1 + a, 1 + b, x);
      }
  }

  // ----- what the search skips

  lemma {:induction false} SpanSkipsInert(body: Text, want: Lookup, i: nat, j: nat, d: int)
    requires i <= j <= |body| && forall k | i <= k < j :: IsInert(body[k])
    ensures TopLevelSpan(body, want.field, want.decodeKeys, i, d) == TopLevelSpan(body, want.field, want.decodeKeys, j, d)
    decreases j - i
  {
    if i < j {
      SpanSkipsInert(body, want, i + 1, j, d);
    }
  }

  /** Below the top level the search passes over a value; at the top level, over a value that is no name. */
  lemma {:induction false} SpanSkipsValue(body: Text, want: Lookup, i: nat, v: Layout, d: int)
    requires WfLayout(v) && At(body, i, LayoutText(v)) && d >= 0
    requires i + |LayoutText(v)| <= |body|
    requires v.Quoted? && d == 1 ==> NoColonAfter(body, i + |LayoutText(v)|, |body|)
    requires v.Group? && v.isObject ==> d >= 1
    ensures TopLevelSpan(body, want.field, want.decodeKeys, i, d)
         == TopLevelSpan(body, want.field, want.decodeKeys, i + |LayoutText(v)|, d)
    decreases v, 1
  {
    hide At, IsSpelling, IsLiteral, StringEnd, RowsText, QuotedText, MemberSpan, ReadString, KeyMatches, SkipSpace;
    match v
    case Scalar(raw) =>
      LiteralAt(body, i, raw);
      SpanSkipsInert(body, want, i, i + |raw|, d);
    case Quoted(raw) =>
      QuotedAt(body, i, raw);
    case Group(isObject, rows) =>
      GroupParts(body, i, isObject, rows);
      RowsClose(body, i + 1, rows, isObject);
      SpanSkipsRows(body, want, i + 1, isObject, rows, d + 1);
  }

  lemma {:induction false} SpanSkipsRows(body: Text, want: Lookup, i: nat, isObject: bool, rows: Rows, d: int)
    requires WfRows(isObject, rows) && At(body, i, RowsText(rows) + [Close(isObject)])
    requires d >= 2 || (d == 1 && !isObject)
    requires i + |RowsText(rows)| <= |body|
    ensures TopLevelSpan(body, want.field, want.decodeKeys, i, d)
         == TopLevelSpan(body, want.field, want.decodeKeys, i + |RowsText(rows)|, d)
    decreases rows, 1
  {
    hide At, TopLevelSpan, RowText, WfRow, IsBlank, RowsText;
    RowsTextCases(rows);
    RowsClose(body, i, rows, isObject);
    match rows
    case Empty(pad) =>
      BlankAt(body, i, pad);
      SpanSkipsInert(body, want, i, i + |pad|, d);
    case Last(row) =>
      SpanSkipsRow(body, want, i, isObject, row, d);
    case More(row, rest) =>
      MoreParts(body, i, row, rest, [Close(isObject)]);
      var j := i + |RowText(row)|;
      SpanSkipsRow(body, want, i, isObject, row, d);
      SpanSkipsInert(body, want, j, j + 1, d);
      SpanSkipsRows(body, want, j + 1, isObject, rest, d);
  }

  lemma {:induction false} SpanSkipsRow(body: Text, want: Lookup, i: nat, isObject: bool, row: Row, d: int)
    requires WfRow(isObject, row) && At(body, i, RowText(row))
    requires d >= 2 || (d == 1 && (!isObject || !Matches(row, want)))
    requires var j := i + |RowText(row)|; j < |body| && StopsScalar(body[j])
    ensures TopLevelSpan(body, want.field, want.decodeKeys, i, d)
         == TopLevelSpan(body, want.field, want.decodeKeys, i + |RowText(row)|, d)
    decreases row, 2
  {
    hide At, TopLevelSpan, WfLayout, LayoutText, NameText, RowText, Matches, SkipSpace;
    RowParts(body, i, row);
    var after := AfterStart(i, row);
    var j := i + |RowText(row)|;
    BlankAt(body, i, row.before);
    SpanSkipsInert(body, want, i, NameStart(i, row), d);
    SpanSkipsName(body, want, isObject, row, i, d);
    BlankAt(body, after, row.after);
    SpaceEndAt(body, after, j, |body|);
    SpanSkipsValue(body, want, ValueStart(i, row), row.value, d);
    SpanSkipsInert(body, want, after, j, d);
  }

  lemma SpanSkipsName(body: Text, want: Lookup, isObject: bool, row: Row, i: nat, d: int)
    requires WfRow(isObject, row) && At(body, i, RowText(row)) && i + |RowText(row)| < |body|
    requires At(body, NameStart(i, row), NameText(row.name)) && ValueStart(i, row) <= |body|
    requires d >= 2 || (d == 1 && (!isObject || !Matches(row, want)))
    ensures TopLevelSpan(body, want.field, want.decodeKeys, NameStart(i, row), d)
         == TopLevelSpan(body, want.field, want.decodeKeys, ValueStart(i, row), d)
  {
    hide At, WfLayout, LayoutText, RowText, NameText, StringEnd, KeyMatches, ReadString, SkipSpace, MemberSpan, QuotedText,
         IsBlank, IsSpelling, TopLevelSpan;
    if isObject {
      var key := NameStart(i, row);
      var colon := NameAt(body, key, row.name);
      SpanPastKey(body, want, key, d);
      SpanSkipsInert(body, want, key + |row.name.key| + 2, ValueStart(i, row), d);
    } else {
      UnnamedText();
    }
  }

  lemma UnnamedText()
    ensures NameText(Unnamed) == []
  {
  }

  /** One step of the search, at a string that is not a matching key. */
  lemma SpanPastKey(body: Text, want: Lookup, i: nat, d: int)
    requires i < |body| && body[i] == QUOTE
    requires d != 1 || !KeyMatches(ReadString(body, i, StringEnd(body, i + 1)), want.field, want.decodeKeys)
    ensures TopLevelSpan(body, want.field, want.decodeKeys, i, d)
         == TopLevelSpan(body, want.field, want.decodeKeys, StringEnd(body, i + 1), d)
  {
    hide StringEnd, KeyMatches, ReadString, SkipSpace, MemberSpan;
  }

  // ----- what the search finds

  lemma {:induction false} SpanOfRows(body: Text, want: Lookup, i: nat, rows: Rows)
    requires WfRows(true, rows) && At(body, i, RowsText(rows) + [CLOSE_OBJECT])
    requires i + |RowsText(rows)| <= |body|
    ensures var span := TopLevelSpan(body, want.field, want.decodeKeys, i, 1);
            if HasMatch(rows, want) then
              && span.Some? && span.value.valueStart == i + ValueOffset(rows, want)
              && span.value.valueEnd == span.value.valueStart + ValueLength(Matched(rows, want))
            else span == TopLevelSpan(body, want.field, want.decodeKeys, i + |RowsText(rows)|, 1)
    decreases rows
  {
    hide At, TopLevelSpan, RowText, WfRow, IsBlank, Matches, ValueLength, RowsText, ValueStart;
    RowsTextCases(rows);
    RowsClose(body, i, rows, true);
    match rows
    case Empty(pad) =>
      BlankAt(body, i, pad);
      SpanSkipsInert(body, want, i, i + |pad|, 1);
    case Last(row) =>
      SpanOfRow(body, want, i, row);
    case More(row, rest) =>
      MoreParts(body, i, row, rest, [CLOSE_OBJECT]);
      var j := i + |RowText(row)|;
      SpanOfRow(body, want, i, row);
      if !Matches(row, want) {
        SpanSkipsInert(body, want, j, j + 1, 1);
        SpanOfRows(body, want, j + 1, rest);
      }
  }

  lemma SpanOfRow(body: Text, want: Lookup, i: nat, row: Row)
    requires WfRow(true, row) && At(body, i, RowText(row))
    requires var j := i + |RowText(row)|; j < |body| && StopsScalar(body[j])
    ensures var span := TopLevelSpan(body, want.field, want.decodeKeys, i, 1);
            if Matches(row, want) then
              && span.Some? && span.value.valueStart == i + ValueStart(0, row)
              && span.value.valueEnd == span.value.valueStart + ValueLength(row)
            else span == TopLevelSpan(body, want.field, want.decodeKeys, i + |RowText(row)|, 1)
  {
    hide At, TopLevelSpan, WfLayout, LayoutText, NameText, RowText, StringEnd, KeyMatches, ReadString, SkipSpace, IsBlank, ValueEnd;
    if Matches(row, want) {
      SpanOfMatch(body, want, i, row);
    } else {
      SpanSkipsRow(body, want, i, true, row, 1);
    }
  }

  lemma SpanOfMatch(body: Text, want: Lookup, i: nat, row: Row)
    requires WfRow(true, row) && At(body, i, RowText(row)) && Matches(row, want)
    requires var j := i + |RowText(row)|; j < |body| && StopsScalar(body[j])
    ensures var span := TopLevelSpan(body, want.field, want.decodeKeys, i, 1);
            && span.Some? && span.value.valueStart == i + ValueStart(0, row)
            && span.value.valueEnd == span.value.valueStart + ValueLength(row)
  {
    hide At, TopLevelSpan, WfLayout, LayoutText, NameText, RowText, StringEnd, KeyMatches, ReadString, SkipSpace, IsBlank, ValueEnd,
         Decode, DecodeJsonString, IsSpelling;
    RowParts(body, i, row);
    BlankAt(body, i, row.before);
    SpanSkipsInert(body, want, i, NameStart(i, row), 1);
    LayoutStart(row.value);
    AtUnit(body, ValueStart(i, row), LayoutText(row.value), 0);
    var colon := NameLeadsToValue(body, NameStart(i, row), row.name, ValueStart(i, row), |body|);
    ValueEndAt(body, ValueStart(i, row), row.value, row.after);
    SpanAtKey(body, want, NameStart(i, row), row.name.key, colon);
  }

  lemma SpanAtKey(body: Text, want: Lookup, i: nat, key: Text, colon: nat)
    requires i < |body| && body[i] == QUOTE
    requires var end := StringEnd(body, i + 1);
             ReadString(body, i, end) == key && SkipSpace(body, end, |body|) == colon < |body| && body[colon] == COLON
    requires KeyMatches(key, want.field, want.decodeKeys)
    ensures TopLevelSpan(body, want.field, want.decodeKeys, i, 1) == Some(MemberSpan(body, i, colon))
  {
    hide StringEnd, SkipSpace, ReadString, KeyMatches, MemberSpan;
  }

  // ----- documents

  predicate Found(d: Document, want: Lookup) {
    d.value.Group? && d.value.isObject && HasMatch(d.value.rows, want)
  }

  function FoundRow(d: Document, want: Lookup): Row
    requires Found(d, want)
  {
    Matched(d.value.rows, want)
  }

  function FoundOffset(d: Document, want: Lookup): nat
    requires Found(d, want)
  {
    |d.before| + 1 + ValueOffset(d.value.rows, want)
  }

  /** The document with the value of its first matching top-level member replaced. */
  function WithFound(d: Document, want: Lookup, v: Layout): Document
    requires Found(d, want)
  {
    d.(value := Group(true, Replaced(d.value.rows, want, v)))
  }

  lemma SpanOfDocument(d: Document, want: Lookup)
    requires WfDocument(d)
    ensures var span := TopLevelSpan(DocumentText(d), want.field, want.decodeKeys, 0, 0);
            if Found(d, want) then
              && span.Some? && span.value.valueStart == FoundOffset(d, want)
              && span.value.valueEnd == FoundOffset(d, want) + ValueLength(FoundRow(d, want))
            else span == None
  {
    hide At, LayoutText, DocumentText, TopLevelSpan, RowsText, IsBlank, SkipSpace, HasMatch, ValueLength;
    var body := DocumentText(d);
    DocumentParts(d);
    var i := |d.before|;
    var j := i + |LayoutText(d.value)|;
    BlankAt(body, 0, d.before);
    SpanSkipsInert(body, want, 0, i, 0);
    BlankAt(body, j, d.after);
    SpanSkipsInert(body, want, j, |body|, 0);
    SpanAtEnd(body, want);
    if d.value.Group? && d.value.isObject {
      SpanOfObject(body, want, i, d.value.rows);
    } else {
      SpanSkipsValue(body, want, i, d.value, 0);
    }
  }

  lemma SpanOfObject(body: Text, want: Lookup, i: nat, rows: Rows)
    requires WfRows(true, rows) && At(body, i, LayoutText(Group(true, rows)))
    requires i + |LayoutText(Group(true, rows))| <= |body|
    ensures var span := TopLevelSpan(body, want.field, want.decodeKeys, i, 0);
            if HasMatch(rows, want) then
              && span.Some? && span.value.valueStart == i + 1 + ValueOffset(rows, want)
              && span.value.valueEnd == span.value.valueStart + ValueLength(Matched(rows, want))
            else span == TopLevelSpan(body, want.field, want.decodeKeys, i + |LayoutText(Group(true, rows))|, 0)
  {
    hide At, LayoutText, TopLevelSpan, RowsText, HasMatch, ValueLength, ValueOffset, Matched, WfRows;
    GroupParts(body, i, true, rows);
    RowsClose(body, i + 1, rows, true);
    SpanAtBracket(body, want, i, 0);
    SpanAtBracket(body, want, i + 1 + |RowsText(rows)|, 1);
    SpanOfRows(body, want, i + 1, rows);
  }

  lemma SpanAtEnd(body: Text, want: Lookup)
    ensures TopLevelSpan(body, want.field, want.decodeKeys, |body|, 0) == None
  {
  }

  lemma SpanAtBracket(body: Text, want: Lookup, i: nat, d: int)
    requires i < |body| && (body[i] == OPEN_OBJECT || body[i] == CLOSE_OBJECT)
    ensures TopLevelSpan(body, want.field, want.decodeKeys, i, d)
         == TopLevelSpan(body, want.field, want.decodeKeys, i + 1, if body[i] == OPEN_OBJECT then d + 1 else d - 1)
  {
  }

  lemma SpliceDocument(d: Document, want: Lookup, v: Layout)
    requires Found(d, want)
    ensures var a := FoundOffset(d, want); var b := a + ValueLength(FoundRow(d, want));
            b <= |DocumentText(d)| && Splice(DocumentText(d), a, b, LayoutText(v)) == DocumentText(WithFound(d, want, v))
  {
    hide RowsText, HasMatch, Splice, ValueLength, ValueOffset, Replaced;
    var rows, x := d.value.rows, LayoutText(v);
    RowsSplice(rows, want, v);
    var a := ValueOffset(rows, want);
    var b := a + ValueLength(Matched(rows, want));
    SpliceLeft(RowsText(rows), [CLOSE_OBJECT], a, b, x);
    SpliceRight([OPEN_OBJECT], RowsText(rows) + [CLOSE_OBJECT], a, b, x);
    SpliceLeft(LayoutText(d.value), d.after, 1 + a, 1 + b, x);
    SpliceRight(d.before, LayoutText(d.value) + d.after, 1 + a, 1 + b, x);
  }

  // ----- the two redactions

  const REDACTED: Text := Ascii("[redacted]")
  const SESSION: Text := Ascii("session")
  const TOKEN: Text := Ascii("token")

  function WithoutTopLevelValue(body: Text, field: Text): Text {
    match TopLevelSpan(body, field, false, 0, 0)
    case None => body
    case Some(span) => Splice(body, span.valueStart, span.valueEnd, QuotedText(REDACTED))
  }

  /** The span of the token inside the session, as indices of the whole body. */
  function SessionTokenSpan(body: Text): Option<(nat, nat)>
  {
    match TopLevelSpan(body, SESSION, true, 0, 0)
    case None => None
    case Some(session) =>
      if session.valueStart == |body| || body[session.valueStart] != OPEN_OBJECT then None
      else
        var raw := body[session.valueStart..session.valueEnd];
        match TopLevelSpan(raw, TOKEN, true, 0, 0)
        case None => None
        case Some(token) =>
          if token.valueStart == |raw| || raw[token.valueStart] != QUOTE then None
          else Some((session.valueStart + token.valueStart, session.valueStart + token.valueEnd))
  }

  function WithoutProviderSessionToken(body: Text): Text {
    if ParseDocument(body).None? || SessionTokenSpan(body).None? then body
    else
      var span := SessionTokenSpan(body).value;
      Splice(body, span.0, span.1, QuotedText(REDACTED))
  }

  /** The layout `withoutTopLevelValue` is meant to give. */
  function RedactField(d: Document, field: Text): Document {
    var want := Lookup(field, false);
    if Found(d, want) then WithFound(d, want, Quoted(REDACTED)) else d
  }

  const IN_SESSION := Lookup(SESSION, true)
  const IN_TOKEN := Lookup(TOKEN, true)

  /** The session is an object and its first token is a string. */
  predicate HoldsSessionToken(d: Document) {
    Found(d, IN_SESSION) &&
    var session := FoundRow(d, IN_SESSION).value;
    Found(Document([], session, []), IN_TOKEN) && FoundRow(Document([], session, []), IN_TOKEN).value.Quoted?
  }

  function RedactSessionToken(d: Document): Document {
    if HoldsSessionToken(d) then
      var session := Document([], FoundRow(d, IN_SESSION).value, []);
      WithFound(d, IN_SESSION, WithFound(session, IN_TOKEN, Quoted(REDACTED)).value)
    else d
  }

  lemma {:induction false} PlainText(t: Text)
    requires forall k | 0 <= k < |t| :: t[k] >= 0x20 && t[k] != QUOTE && t[k] != BACKSLASH
    ensures Decode(t) == Some(t)
  {
    if t != [] {
      PlainText(t[1..]);
      assert [t[0]] + t[1..] == t;
    }
  }

  lemma PlaceholderText()
    ensures WfLayout(Quoted(REDACTED)) && LayoutText(Quoted(REDACTED)) == QuotedText(REDACTED)
    ensures Tree(Quoted(REDACTED)) == String(REDACTED)
  {
    hide Decode;
    PlainText(REDACTED);
  }

  /**
   On every layout of every document the value of the first top-level member written with
   that name is replaced, and nothing else; without such a member the text is unchanged.
   */
  lemma FieldRedaction(d: Document, field: Text)
    requires WfDocument(d)
    ensures WithoutTopLevelValue(DocumentText(d), field) == DocumentText(RedactField(d, field))
  {
    hide TopLevelSpan, DocumentText, LayoutText, Splice, ValueLength, FoundOffset, FoundRow, Found, WithFound, WfDocument, Ascii, QuotedText;
    var want := Lookup(field, false);
    SpanOfDocument(d, want);
    if Found(d, want) {
      SpliceDocument(d, want, Quoted(REDACTED));
      PlaceholderText();
    }
  }

  // ----- the token inside the session

  lemma AtRight(p: Text, q: Text, i: nat, x: Text)
    requires At(q, i, x)
    ensures At(p + q, |p| + i, x)
  {
    assert (p + q)[|p| + i..|p| + i + |x|] == q[i..i + |x|];
  }

  lemma AtLeft(p: Text, q: Text, i: nat, x: Text)
    requires At(p, i, x)
    ensures At(p + q, i, x)
  {
    assert (p + q)[i..i + |x|] == p[i..i + |x|];
  }

  lemma AtSelf(x: Text, q: Text)
    ensures At(x + q, 0, x)
  {
  }

  lemma {:induction false} ValueAtOffset(rows: Rows, want: Lookup)
    requires HasMatch(rows, want)
    ensures At(RowsText(rows), ValueOffset(rows, want), LayoutText(Matched(rows, want).value))
    decreases rows
  {
    hide At, LayoutText, NameText, Matches;
    match rows
    case Last(row) =>
      ValueAtStart(row);
    case More(row, rest) =>
      if Matches(row, want) {
        ValueAtStart(row);
        AtLeft(RowText(row), [COMMA] + RowsText(rest), ValueStart(0, row), LayoutText(row.value));
      } else {
        var x := LayoutText(Matched(rest, want).value);
        ValueAtOffset(rest, want);
        AtRight([COMMA], RowsText(rest), ValueOffset(rest, want), x);
        AtRight(RowText(row), [COMMA] + RowsText(rest), 1 + ValueOffset(rest, want), x);
      }
  }

  lemma ValueAtStart(row: Row)
    ensures At(RowText(row), ValueStart(0, row), LayoutText(row.value))
  {
    hide At, LayoutText, NameText;
    var x := LayoutText(row.value);
    AtSelf(x, row.after);
    AtRight(NameText(row.name), x + row.after, 0, x);
    AtRight(row.before, NameText(row.name) + (x + row.after), |NameText(row.name)|, x);
  }

  lemma FoundValueAt(d: Document, want: Lookup)
    requires Found(d, want)
    ensures At(DocumentText(d), FoundOffset(d, want), LayoutText(FoundRow(d, want).value))
  {
    hide At, RowsText, HasMatch, ValueOffset, Matched;
    var rows := d.value.rows;
    var x, off := LayoutText(Matched(rows, want).value), ValueOffset(rows, want);
    ValueAtOffset(rows, want);
    AtLeft(RowsText(rows), [CLOSE_OBJECT], off, x);
    AtRight([OPEN_OBJECT], RowsText(rows) + [CLOSE_OBJECT], off, x);
    AtLeft(LayoutText(d.value), d.after, 1 + off, x);
    AtRight(d.before, LayoutText(d.value) + d.after, 1 + off, x);
  }

  lemma {:induction false} MatchedIsWf(rows: Rows, want: Lookup)
    requires WfRows(true, rows) && HasMatch(rows, want)
    ensures WfRow(true, Matched(rows, want)) && Matches(Matched(rows, want), want)
    decreases rows
  {
    hide WfRow, Matches;
    if rows.More? && !Matches(rows.row, want) {
      MatchedIsWf(rows.rest, want);
    }
  }

  lemma GroupIsWf(v: Layout)
    requires WfLayout(v) && v.Group?
    ensures WfRows(v.isObject, v.rows)
  {
  }

  /** Replacing inside a replaced stretch. */
  lemma SpliceInside(t: Text, a: nat, b: nat, c: nat, e: nat, x: Text)
    requires a <= b <= |t| && c <= e <= b - a
    ensures Splice(t, a + c, a + e, x) == Splice(t, a, b, Splice(t[a..b], c, e, x))
  {
    assert t[..a + c] == t[..a] + t[a..b][..c];
    assert t[a + e..] == t[a..b][e..] + t[b..];
  }

  lemma BareDocument(v: Layout)
    ensures DocumentText(Document([], v, [])) == LayoutText(v)
    ensures WfLayout(v) ==> WfDocument(Document([], v, []))
  {
    hide LayoutText, WfLayout;
  }

  lemma LayoutFirst(body: Text, i: nat, v: Layout)
    requires WfLayout(v) && At(body, i, LayoutText(v))
    ensures i < |body|
    ensures body[i] == QUOTE <==> v.Quoted?
    ensures body[i] == OPEN_OBJECT <==> v.Group? && v.isObject
  {
    LayoutStart(v);
    AtUnit(body, i, LayoutText(v), 0);
  }

  /** What the session search finds in a printed document. */
  lemma SessionTokenSpanOf(d: Document)
    requires WfDocument(d)
    ensures SessionTokenSpan(DocumentText(d)).Some? <==> HoldsSessionToken(d)
    ensures HoldsSessionToken(d) ==>
              var session := Document([], FoundRow(d, IN_SESSION).value, []);
              var a := FoundOffset(d, IN_SESSION) + FoundOffset(session, IN_TOKEN);
              SessionTokenSpan(DocumentText(d)).value == (a, a + ValueLength(FoundRow(session, IN_TOKEN)))
  {
    hide At, TopLevelSpan, DocumentText, LayoutText, WfLayout, FoundOffset, Splice, HasMatch, Matched, Ascii;
    var body := DocumentText(d);
    SpanOfDocument(d, IN_SESSION);
    if Found(d, IN_SESSION) {
      var value := FoundRow(d, IN_SESSION).value;
      GroupIsWf(d.value);
      MatchedIsWf(d.value.rows, IN_SESSION);
      FoundValueAt(d, IN_SESSION);
      LayoutFirst(body, FoundOffset(d, IN_SESSION), value);
      if value.Group? && value.isObject {
        var session := Document([], value, []);
        BareDocument(value);
        AtText(body, FoundOffset(d, IN_SESSION), LayoutText(value));
        SpanOfDocument(session, IN_TOKEN);
        if Found(session, IN_TOKEN) {
          GroupIsWf(value);
          MatchedIsWf(value.rows, IN_TOKEN);
          FoundValueAt(session, IN_TOKEN);
          LayoutFirst(LayoutText(value), FoundOffset(session, IN_TOKEN), FoundRow(session, IN_TOKEN).value);
        }
      }
    }
  }

  /** Only the first string token of the first top-level session object is replaced, on every layout. */
  lemma SessionTokenRedaction(d: Document)
    requires WfDocument(d)
    ensures WithoutProviderSessionToken(DocumentText(d)) == DocumentText(RedactSessionToken(d))
  {
    hide At, DocumentText, LayoutText, WfDocument, Splice, Found, FoundRow, WithFound, FoundOffset, SessionTokenSpan, ParseDocument,
         Ascii, QuotedText;
    var body := DocumentText(d);
    DocumentTextParses(d);
    SessionTokenSpanOf(d);
    if HoldsSessionToken(d) {
      var value := FoundRow(d, IN_SESSION).value;
      var session := Document([], value, []);
      var a, c := FoundOffset(d, IN_SESSION), FoundOffset(session, IN_TOKEN);
      FoundValueAt(d, IN_SESSION);
      AtText(body, a, LayoutText(value));
      BareDocument(value);
      var redacted := WithFound(session, IN_TOKEN, Quoted(REDACTED));
      SpliceDocument(session, IN_TOKEN, Quoted(REDACTED));
      PlaceholderText();
      SpliceInside(body, a, a + |LayoutText(value)|, c, c + ValueLength(FoundRow(session, IN_TOKEN)), QuotedText(REDACTED));
      WithFoundBare(session, IN_TOKEN, Quoted(REDACTED));
      BareDocument(redacted.value);
      SpliceDocument(d, IN_SESSION, redacted.value);
    }
  }

  lemma WithFoundBare(d: Document, want: Lookup, v: Layout)
    requires Found(d, want)
    ensures WithFound(d, want, v) == Document(d.before, WithFound(d, want, v).value, d.after)
    ensures d.value.Group? && WithFound(d, want, v).value.Group?
  {
  }

  // ----- the redacted document as a tree

  function MatchIndex(rows: Rows, want: Lookup): nat
    requires HasMatch(rows, want)
  {
    match rows
    case Last(row) => 0
    case More(row, rest) => if Matches(row, want) then 0 else 1 + MatchIndex(rest, want)
  }

  /** The tree loses exactly one member value: nested copies and later duplicates stay. */
  lemma {:induction false} ReplacedTree(rows: Rows, want: Lookup, v: Layout)
    requires WfRows(true, rows) && HasMatch(rows, want) && WfLayout(v)
    ensures WfRows(true, Replaced(rows, want, v))
    ensures var members, k := MembersOf(rows), MatchIndex(rows, want);
            && k < |members| && !Replaced(rows, want, v).Empty?
            && MembersOf(Replaced(rows, want, v)) == members[k := Member(members[k].name, Tree(v))]
    decreases rows
  {
    hide Matches, Tree, Decode, IsSpelling, WfLayout;
    match rows
    case Last(row) =>
    case More(row, rest) =>
      if !Matches(row, want) {
        ReplacedTree(rest, want, v);
      }
  }

  lemma MatchesByName(row: Row, want: Lookup)
    requires WfRow(true, row) && want.decodeKeys
    ensures Matches(row, want) <==> MemberOf(row).name == want.field
  {
    hide Decode, Tree;
  }

  /** With decoded names the match is the first member that the document knows by that name. */
  lemma {:induction false} MatchIsFirstOfName(rows: Rows, want: Lookup)
    requires WfRows(true, rows) && want.decodeKeys
    ensures HasMatch(rows, want) <==> exists m | m in MembersOf(rows) :: m.name == want.field
    ensures HasMatch(rows, want) ==>
              var members, k := MembersOf(rows), MatchIndex(rows, want);
              && k < |members| && members[k].name == want.field
              && forall m | 0 <= m < k :: members[m].name != want.field
    decreases rows
  {
    hide Matches, MemberOf, WfRow;
    match rows
    case Empty(_) =>
    case Last(row) =>
      MatchesByName(row, want);
      assert MembersOf(rows) == [MemberOf(row)];
    case More(row, rest) =>
      MatchesByName(row, want);
      MatchIsFirstOfName(rest, want);
      assert MembersOf(rows) == [MemberOf(row)] + MembersOf(rest);
  }

  /** The top-level members of the document's object. */
  function TopMembers(d: Document): seq<Member>
    requires WfDocument(d) && d.value.Group? && d.value.isObject
  {
    MembersOf(d.value.rows)
  }

  /** Where the session object stands, and where its token. */
  function SessionIndex(d: Document): nat
    requires HoldsSessionToken(d)
  {
    MatchIndex(d.value.rows, IN_SESSION)
  }

  function TokenIndex(d: Document): nat
    requires HoldsSessionToken(d)
  {
    MatchIndex(FoundRow(d, IN_SESSION).value.rows, IN_TOKEN)
  }

  /**
   In the tree the first session object loses its first token, a string, and nothing else
   changes: later duplicates, nested copies and all other members stay.
   */
  lemma SessionTokenTree(d: Document)
    requires WfDocument(d)
    ensures WfDocument(RedactSessionToken(d))
    ensures !HoldsSessionToken(d) ==> RedactSessionToken(d) == d
    ensures HoldsSessionToken(d) ==>
              var members, k, j := TopMembers(d), SessionIndex(d), TokenIndex(d);
              && k < |members| && members[k].name == SESSION && members[k].value.Object?
              && j < |members[k].value.members| && members[k].value.members[j].name == TOKEN
              && members[k].value.members[j].value.String?
              && RedactSessionToken(d).value.Group? && RedactSessionToken(d).value.isObject
              && TopMembers(RedactSessionToken(d))
                 == members[k := Member(SESSION, Object(members[k].value.members[j := Member(TOKEN, String(REDACTED))]))]
  {
    hide WfLayout, HasMatch, Matched, Replaced, MatchIndex, Ascii, IsBlank, WfRow;
    if HoldsSessionToken(d) {
      var rows := d.value.rows;
      GroupIsWf(d.value);
      MatchedIsWf(rows, IN_SESSION);
      var session := FoundRow(d, IN_SESSION).value;
      MatchedTree(rows, IN_SESSION);
      RowValueIsWf(FoundRow(d, IN_SESSION));
      GroupIsWf(session);
      MatchedTree(session.rows, IN_TOKEN);
      MatchedIsWf(session.rows, IN_TOKEN);
      RowValueIsWf(Matched(session.rows, IN_TOKEN));
      MatchIsFirstOfName(rows, IN_SESSION);
      MatchIsFirstOfName(session.rows, IN_TOKEN);
      PlaceholderText();
      ReplacedTree(session.rows, IN_TOKEN, Quoted(REDACTED));
      var inner := Group(true, Replaced(session.rows, IN_TOKEN, Quoted(REDACTED)));
      RowsAreWf(inner);
      ReplacedTree(rows, IN_SESSION, inner);
      RowsAreWf(Group(true, Replaced(rows, IN_SESSION, inner)));
      assert WithFound(Document([], session, []), IN_TOKEN, Quoted(REDACTED)).value == inner;
      assert RedactSessionToken(d).value == Group(true, Replaced(rows, IN_SESSION, inner));
    }
  }

  lemma RowsAreWf(v: Layout)
    requires v.Group? && WfRows(v.isObject, v.rows)
    ensures WfLayout(v) && (v.isObject ==> Tree(v) == Object(MembersOf(v.rows)))
  {
  }

  lemma RowValueIsWf(row: Row)
    requires WfRow(true, row)
    ensures WfLayout(row.value) && (row.value.Group? && row.value.isObject ==> Tree(row.value) == Object(MembersOf(row.value.rows)))
    ensures row.value.Quoted? ==> Tree(row.value).String?
  {
  }

  /** The member at the match is that of the matched row. */
  lemma {:induction false} MatchedTree(rows: Rows, want: Lookup)
    requires WfRows(true, rows) && HasMatch(rows, want)
    ensures WfRow(true, Matched(rows, want))
    ensures var members, k := MembersOf(rows), MatchIndex(rows, want);
            k < |members| && members[k] == MemberOf(Matched(rows, want))
    decreases rows
  {
    hide Matches, MemberOf, WfRow;
    match rows
    case Last(row) =>
    case More(row, rest) =>
      if !Matches(row, want) {
        MatchedTree(rest, want);
      }
  }

  /** Replacing a value keeps all keys, so every other look-up finds what it found. */
  lemma {:induction false} ReplacedKeepsKeys(rows: Rows, want: Lookup, v: Layout, other: Lookup)
    requires HasMatch(rows, want)
    ensures HasMatch(Replaced(rows, want, v), other) == HasMatch(rows, other)
    ensures HasMatch(rows, other) ==> MatchIndex(Replaced(rows, want, v), other) == MatchIndex(rows, other)
    decreases rows
  {
    hide KeyMatches;
    match rows
    case Last(row) =>
    case More(row, rest) =>
      if !Matches(row, want) {
        ReplacedKeepsKeys(rest, want, v, other);
      }
  }
}
