/**
 The JSON grammar of sections 2 to 7 of RFC 8259, as layouts: syntax trees that keep
 every blank and every escaped spelling, so that one text has exactly one layout.
 `ParseDocument` is the reference reading (`JSON.parse`); it inverts `DocumentText`.
 */
module JsonGrammar {
  import opened CodeUnits

  const QUOTE: CodeUnit := 0x22
  const COMMA: CodeUnit := 0x2C
  const COLON: CodeUnit := 0x3A
  const BACKSLASH: CodeUnit := 0x5C
  const OPEN_ARRAY: CodeUnit := 0x5B
  const CLOSE_ARRAY: CodeUnit := 0x5D
  const OPEN_OBJECT: CodeUnit := 0x7B
  const CLOSE_OBJECT: CodeUnit := 0x7D

  // ----- lexical grammar

  predicate IsBlankUnit(c: CodeUnit) {
    c == 0x20 || c == 0x09 || c == 0x0A || c == 0x0D
  }

  predicate IsBlank(t: Text) {
    forall k | 0 <= k < |t| :: IsBlankUnit(t[k])
  }

  /** A unit that can stand in a literal or a number: neither blank nor punctuation. */
  predicate IsTokenUnit(c: CodeUnit) {
    && !IsBlankUnit(c) && c != QUOTE && c != COMMA && c != COLON
    && c != OPEN_ARRAY && c != CLOSE_ARRAY && c != OPEN_OBJECT && c != CLOSE_OBJECT
  }

  predicate IsDigit(c: CodeUnit) {
    0x30 <= c <= 0x39
  }

  function DigitRun(t: Text): (n: nat)
    ensures n <= |t|
    ensures forall k | 0 <= k < n :: IsDigit(t[k])
  {
    if t != [] && IsDigit(t[0]) then 1 + DigitRun(t[1..]) else 0
  }

  predicate IsExponent(t: Text) {
    t == [] ||
    ((t[0] == 0x65 || t[0] == 0x45) &&
     var digits := if |t| > 1 && (t[1] == 0x2B || t[1] == 0x2D) then t[2..] else t[1..];
     digits != [] && DigitRun(digits) == |digits|)
  }

  predicate IsFraction(t: Text) {
    if t != [] && t[0] == 0x2E
    then var n := DigitRun(t[1..]); n > 0 && IsExponent(t[1 + n..])
    else IsExponent(t)
  }

  /** Section 6 of RFC 8259. */
  predicate IsNumber(t: Text) {
    var magnitude := if t != [] && t[0] == 0x2D then t[1..] else t;
    var n := DigitRun(magnitude);
    n > 0 && (magnitude[0] == 0x30 ==> n == 1) && IsFraction(magnitude[n..])
  }

  predicate IsLiteral(t: Text) {
    t == Ascii("null") || t == Ascii("true") || t == Ascii("false") || IsNumber(t)
  }

  function HexValue(c: CodeUnit): (v: Option<CodeUnit>)
    ensures v.Some? ==> v.value < 16
    ensures v.Some? ==> c != QUOTE && c != BACKSLASH
  {
    if IsDigit(c) then Some(c - 0x30)
    else if 0x41 <= c <= 0x46 then Some(c - 0x37)
    else if 0x61 <= c <= 0x66 then Some(c - 0x57)
    else None
  }

  /** The unit a two-character escape stands for. */
  function SimpleEscape(c: CodeUnit): Option<CodeUnit> {
    if c == QUOTE || c == BACKSLASH || c == 0x2F then Some(c)
    else if c == 0x62 then Some(0x08)
    else if c == 0x66 then Some(0x0C)
    else if c == 0x6E then Some(0x0A)
    else if c == 0x72 then Some(0x0D)
    else if c == 0x74 then Some(0x09)
    else None
  }

  function HexEscape(t: Text): Option<CodeUnit>
    requires |t| == 4
  {
    match (HexValue(t[0]), HexValue(t[1]), HexValue(t[2]), HexValue(t[3]))
    case (Some(a), Some(b), Some(c), Some(d)) => Some(((a * 16 + b) * 16 + c) * 16 + d)
    case _ => None
  }

  /** The string a spelling between quotes stands for, or None when it is not a spelling. */
  function Decode(raw: Text): Option<Text> {
    if raw == [] then Some([])
    else if raw[0] == BACKSLASH then
      if |raw| < 2 then None
      else if raw[1] == 0x75 then
        if |raw| < 6 || HexEscape(raw[2..6]).None? then None
        else Prepend(HexEscape(raw[2..6]).value, Decode(raw[6..]))
      else if SimpleEscape(raw[1]).None? then None
      else Prepend(SimpleEscape(raw[1]).value, Decode(raw[2..]))
    else if raw[0] == QUOTE || raw[0] < 0x20 then None
    else Prepend(raw[0], Decode(raw[1..]))
  }

  function Prepend(c: CodeUnit, rest: Option<Text>): Option<Text> {
    if rest.None? then None else Some([c] + rest.value)
  }

  predicate IsSpelling(raw: Text) {
    Decode(raw).Some?
  }

  // ----- layouts

  datatype Layout =
    | Scalar(raw: Text)
    | Quoted(raw: Text)
    | Group(isObject: bool, rows: Rows)

  /** What stands between the brackets; `More` is followed by a comma. */
  datatype Rows = Empty(pad: Text) | Last(row: Row) | More(row: Row, rest: Rows)

  datatype Row = Row(before: Text, name: Name, value: Layout, after: Text)

  datatype Name = Unnamed | Named(key: Text, gap: Text, lead: Text)

  datatype Document = Document(before: Text, value: Layout, after: Text)

  predicate WfLayout(v: Layout)
    decreases v
  {
    match v
    case Scalar(raw) => IsLiteral(raw)
    case Quoted(raw) => IsSpelling(raw)
    case Group(isObject, rows) => WfRows(isObject, rows)
  }

  predicate WfRows(isObject: bool, rows: Rows)
    decreases rows
  {
    match rows
    case Empty(pad) => IsBlank(pad)
    case Last(row) => WfRow(isObject, row)
    case More(row, rest) => WfRow(isObject, row) && !rest.Empty? && WfRows(isObject, rest)
  }

  predicate WfRow(isObject: bool, row: Row)
    decreases row
  {
    IsBlank(row.before) && IsBlank(row.after) && WfName(isObject, row.name) && WfLayout(row.value)
  }

  predicate WfName(isObject: bool, name: Name) {
    match name
    case Unnamed => !isObject
    case Named(key, gap, lead) => isObject && IsSpelling(key) && IsBlank(gap) && IsBlank(lead)
  }

  predicate WfDocument(d: Document) {
    IsBlank(d.before) && IsBlank(d.after) && WfLayout(d.value)
  }

  function Open(isObject: bool): CodeUnit {
    if isObject then OPEN_OBJECT else OPEN_ARRAY
  }

  function Close(isObject: bool): CodeUnit {
    if isObject then CLOSE_OBJECT else CLOSE_ARRAY
  }

  function QuotedText(raw: Text): Text {
    [QUOTE] + (raw + [QUOTE])
  }

  function LayoutText(v: Layout): Text {
    match v
    case Scalar(raw) => raw
    case Quoted(raw) => QuotedText(raw)
    case Group(isObject, rows) => [Open(isObject)] + (RowsText(rows) + [Close(isObject)])
  }

  function RowsText(rows: Rows): Text {
    match rows
    case Empty(pad) => pad
    case Last(row) => RowText(row)
    case More(row, rest) => RowText(row) + ([COMMA] + RowsText(rest))
  }

  function RowText(row: Row): Text {
    row.before + (NameText(row.name) + (LayoutText(row.value) + row.after))
  }

  function NameText(name: Name): Text {
    match name
    case Unnamed => []
    case Named(key, gap, lead) => QuotedText(key) + (gap + ([COLON] + lead))
  }

  function DocumentText(d: Document): Text {
    d.before + (LayoutText(d.value) + d.after)
  }

  // ----- the reference parser

  datatype Parsed<+T> = Fail | Ok(value: T, next: nat)

  function BlankEnd(body: Text, i: nat): (e: nat)
    requires i <= |body|
    ensures i <= e <= |body|
    ensures IsBlank(body[i..e])
    ensures e < |body| ==> !IsBlankUnit(body[e])
    decreases |body| - i
  {
    if i < |body| && IsBlankUnit(body[i]) then
      var e := BlankEnd(body, i + 1);
      assert body[i..e] == [body[i]] + body[i + 1..e];
      e
    else i
  }

  function TokenEnd(body: Text, i: nat): (e: nat)
    requires i <= |body|
    ensures i <= e <= |body|
    ensures forall k | i <= k < e :: IsTokenUnit(body[k])
    ensures e < |body| ==> !IsTokenUnit(body[e])
    decreases |body| - i
  {
    if i < |body| && IsTokenUnit(body[i]) then TokenEnd(body, i + 1) else i
  }

  /** The first quote from `e` on that closes a spelling begun at `i`. */
  function ClosingQuote(body: Text, i: nat, e: nat): (q: Option<nat>)
    requires i <= e <= |body|
    ensures q.Some? ==> e <= q.value < |body| && body[q.value] == QUOTE && IsSpelling(body[i..q.value])
    decreases |body| - e
  {
    if e == |body| then None
    else if body[e] == QUOTE && IsSpelling(body[i..e]) then Some(e)
    else ClosingQuote(body, i, e + 1)
  }

  function ParseQuoted(body: Text, i: nat): (r: Parsed<Text>)
    requires i <= |body|
    ensures r.Ok? ==> i + 2 <= r.next <= |body|
  {
    if i == |body| || body[i] != QUOTE then Fail
    else match ClosingQuote(body, i + 1, i + 1)
      case None => Fail
      case Some(q) => Ok(body[i + 1..q], q + 1)
  }

  function ParseValue(body: Text, i: nat): (r: Parsed<Layout>)
    requires i <= |body|
    ensures r.Ok? ==> i < r.next <= |body|
    decreases |body| - i, 0
  {
    if i == |body| then Fail
    else if body[i] == QUOTE then
      match ParseQuoted(body, i)
      case Fail => Fail
      case Ok(raw, next) => Ok(Quoted(raw), next)
    else if body[i] == OPEN_OBJECT || body[i] == OPEN_ARRAY then
      var isObject := body[i] == OPEN_OBJECT;
      match ParseRows(body, i + 1, isObject, true)
      case Fail => Fail
      case Ok(rows, next) => Ok(Group(isObject, rows), next)
    else
      var e := TokenEnd(body, i);
      if e > i && IsLiteral(body[i..e]) then Ok(Scalar(body[i..e]), e) else Fail
  }

  /** Rows up to and including the closing bracket; only the first position may be empty. */
  function ParseRows(body: Text, i: nat, isObject: bool, first: bool): (r: Parsed<Rows>)
    requires i <= |body|
    ensures r.Ok? ==> i < r.next <= |body|
    decreases |body| - i, 2
  {
    var e := BlankEnd(body, i);
    if first && e < |body| && body[e] == Close(isObject) then Ok(Empty(body[i..e]), e + 1)
    else match ParseRow(body, i, isObject)
      case Fail => Fail
      case Ok(row, next) =>
        if next == |body| then Fail
        else if body[next] == Close(isObject) then Ok(Last(row), next + 1)
        else if body[next] == COMMA then
          match ParseRows(body, next + 1, isObject, false)
          case Fail => Fail
          case Ok(rest, last) => Ok(More(row, rest), last)
        else Fail
  }

  function ParseRow(body: Text, i: nat, isObject: bool): (r: Parsed<Row>)
    requires i <= |body|
    ensures r.Ok? ==> i < r.next <= |body|
    decreases |body| - i, 1
  {
    var b := BlankEnd(body, i);
    match ParseName(body, b, isObject)
    case Fail => Fail
    case Ok(name, start) =>
      match ParseValue(body, start)
      case Fail => Fail
      case Ok(value, next) =>
        var e := BlankEnd(body, next);
        Ok(Row(body[i..b], name, value, body[next..e]), e)
  }

  function ParseName(body: Text, i: nat, isObject: bool): (r: Parsed<Name>)
    requires i <= |body|
    ensures r.Ok? ==> i <= r.next <= |body|
  {
    if !isObject then Ok(Unnamed, i)
    else match ParseQuoted(body, i)
      case Fail => Fail
      case Ok(key, next) =>
        var g := BlankEnd(body, next);
        if g == |body| || body[g] != COLON then Fail
        else
          var e := BlankEnd(body, g + 1);
          Ok(Named(key, body[next..g], body[g + 1..e]), e)
  }

  /** `JSON.parse`, up to the tree it builds: None where it throws. */
  function ParseDocument(body: Text): Option<Document> {
    var b := BlankEnd(body, 0);
    match ParseValue(body, b)
    case Fail => None
    case Ok(value, next) =>
      var e := BlankEnd(body, next);
      if e == |body| then Some(Document(body[0..b], value, body[next..e])) else None
  }

  // ----- where the parts of a printed layout stand

  function NameStart(i: nat, row: Row): nat {
    i + |row.before|
  }

  function ValueStart(i: nat, row: Row): nat {
    NameStart(i, row) + |NameText(row.name)|
  }

  function AfterStart(i: nat, row: Row): nat {
    ValueStart(i, row) + |LayoutText(row.value)|
  }

  lemma RowParts(body: Text, i: nat, row: Row)
    requires At(body, i, RowText(row))
    ensures At(body, i, row.before)
    ensures At(body, NameStart(i, row), NameText(row.name))
    ensures At(body, ValueStart(i, row), LayoutText(row.value))
    ensures At(body, AfterStart(i, row), row.after)
    ensures AfterStart(i, row) + |row.after| == i + |RowText(row)| <= |body|
  {
    hide At, NameText, LayoutText;
    var Row(before, name, value, after) := row;
    AtSplit(body, i, before, NameText(name) + (LayoutText(value) + after));
    AtSplit(body, NameStart(i, row), NameText(name), LayoutText(value) + after);
    AtSplit(body, ValueStart(i, row), LayoutText(value), after);
  }

  lemma MoreParts(body: Text, i: nat, row: Row, rest: Rows, end: Text)
    requires At(body, i, RowsText(More(row, rest)) + end)
    ensures var j := i + |RowText(row)|;
            && At(body, i, RowText(row)) && At(body, j + 1, RowsText(rest) + end)
            && j < |body| && body[j] == COMMA
            && |RowsText(More(row, rest))| == |RowText(row)| + 1 + |RowsText(rest)|
  {
    hide At, RowText;
    MoreText(row, rest, end);
    var tail := RowsText(rest) + end;
    AtSplit(body, i, RowText(row), [COMMA] + tail);
    AtUnit(body, i + |RowText(row)|, [COMMA] + tail, 0);
    AtSplit(body, i + |RowText(row)|, [COMMA], tail);
  }

  lemma MoreJoin(body: Text, i: nat, row: Row, rest: Rows, end: Text)
    requires var j := i + |RowText(row)|;
             At(body, i, RowText(row)) && j < |body| && body[j] == COMMA && At(body, j + 1, RowsText(rest) + end)
    ensures At(body, i, RowsText(More(row, rest)) + end)
    ensures |RowsText(More(row, rest))| == |RowText(row)| + 1 + |RowsText(rest)|
  {
    hide At, RowText;
    var j := i + |RowText(row)|;
    AtOne(body, j);
    AtJoin(body, j, [COMMA], RowsText(rest) + end);
    AtJoin(body, i, RowText(row), [COMMA] + (RowsText(rest) + end));
    MoreText(row, rest, end);
  }

  lemma RowsClose(body: Text, i: nat, rows: Rows, isObject: bool)
    requires At(body, i, RowsText(rows) + [Close(isObject)])
    ensures At(body, i, RowsText(rows))
    ensures i + |RowsText(rows)| < |body| && body[i + |RowsText(rows)|] == Close(isObject)
  {
    hide At, RowsText;
    AtSplit(body, i, RowsText(rows), [Close(isObject)]);
    AtUnit(body, i + |RowsText(rows)|, [Close(isObject)], 0);
  }

  lemma GroupParts(body: Text, i: nat, isObject: bool, rows: Rows)
    requires At(body, i, LayoutText(Group(isObject, rows)))
    ensures i < |body| && body[i] == Open(isObject)
    ensures At(body, i + 1, RowsText(rows) + [Close(isObject)])
    ensures |LayoutText(Group(isObject, rows))| == |RowsText(rows)| + 2
  {
    hide At, RowsText;
    var inside := RowsText(rows) + [Close(isObject)];
    AtUnit(body, i, [Open(isObject)] + inside, 0);
    AtSplit(body, i, [Open(isObject)], inside);
  }

  lemma NameTextIs(key: Text, gap: Text, lead: Text)
    ensures NameText(Named(key, gap, lead)) == QuotedText(key) + (gap + ([COLON] + lead))
    ensures |NameText(Named(key, gap, lead))| == |key| + 2 + |gap| + 1 + |lead|
    ensures |QuotedText(key)| == |key| + 2
  {
  }

  lemma NameParts(body: Text, i: nat, key: Text, gap: Text, lead: Text)
    requires At(body, i, NameText(Named(key, gap, lead)))
    ensures At(body, i, QuotedText(key))
    ensures var g := i + |key| + 2;
            && At(body, g, gap) && g + |gap| < |body| && body[g + |gap|] == COLON
            && At(body, g + |gap| + 1, lead)
            && i + |NameText(Named(key, gap, lead))| == g + |gap| + 1 + |lead| <= |body|
  {
    hide At, NameText, QuotedText;
    NameTextIs(key, gap, lead);
    var rest := [COLON] + lead;
    AtSplit(body, i, QuotedText(key), gap + rest);
    var g := i + |key| + 2;
    AtSplit(body, g, gap, rest);
    AtSplit(body, g + |gap|, [COLON], lead);
    AtUnit(body, g + |gap|, [COLON], 0);
  }

  lemma DocumentParts(d: Document)
    ensures var body := DocumentText(d); var i := |d.before|; var j := i + |LayoutText(d.value)|;
            && At(body, 0, d.before) && At(body, i, LayoutText(d.value)) && At(body, j, d.after)
            && j + |d.after| == |body|
  {
    hide LayoutText;
    var body := DocumentText(d);
    AtSplit(body, 0, d.before, LayoutText(d.value) + d.after);
    AtSplit(body, |d.before|, LayoutText(d.value), d.after);
  }

  // ----- soundness: what is parsed is what was printed

  lemma QuotedIsText(body: Text, i: nat)
    requires i <= |body| && ParseQuoted(body, i).Ok?
    ensures var r := ParseQuoted(body, i);
            IsSpelling(r.value) && At(body, i, QuotedText(r.value)) && r.next == i + |QuotedText(r.value)|
  {
    hide IsSpelling;
    var q := ClosingQuote(body, i + 1, i + 1).value;
    assert body[i..q + 1] == [QUOTE] + (body[i + 1..q] + [QUOTE]);
  }

  lemma NameIsText(body: Text, i: nat, isObject: bool)
    requires i <= |body| && ParseName(body, i, isObject).Ok?
    ensures var r := ParseName(body, i, isObject);
            WfName(isObject, r.value) && At(body, i, NameText(r.value)) && r.next == i + |NameText(r.value)|
  {
    hide At, ParseQuoted, IsSpelling, IsBlank;
    AtSlice(body, i, i);
    if isObject {
      QuotedIsText(body, i);
      var Ok(key, next) := ParseQuoted(body, i);
      var g := BlankEnd(body, next);
      var e := BlankEnd(body, g + 1);
      AtOne(body, g);
      AtSlice(body, g + 1, e);
      AtJoin(body, g, [COLON], body[g + 1..e]);
      AtSlice(body, next, g);
      AtJoin(body, next, body[next..g], [COLON] + body[g + 1..e]);
      AtJoin(body, i, QuotedText(key), body[next..g] + ([COLON] + body[g + 1..e]));
    }
  }

  lemma {:induction false} ValueIsText(body: Text, i: nat)
    requires i <= |body| && ParseValue(body, i).Ok?
    ensures var r := ParseValue(body, i);
            WfLayout(r.value) && At(body, i, LayoutText(r.value)) && r.next == i + |LayoutText(r.value)|
    decreases |body| - i, 0
  {
    hide At, IsSpelling, IsLiteral, ParseRows, ParseQuoted, TokenEnd, WfRows, RowsText;
    if body[i] == QUOTE {
      QuotedIsText(body, i);
    } else if body[i] == OPEN_OBJECT || body[i] == OPEN_ARRAY {
      var isObject := body[i] == OPEN_OBJECT;
      RowsAreText(body, i + 1, isObject, true);
      var rows := ParseRows(body, i + 1, isObject, true).value;
      AtOne(body, i);
      AtJoin(body, i, [Open(isObject)], RowsText(rows) + [Close(isObject)]);
    } else {
      AtSlice(body, i, TokenEnd(body, i));
    }
  }

  lemma MoreText(row: Row, rest: Rows, end: Text)
    ensures RowsText(More(row, rest)) + end == RowText(row) + ([COMMA] + (RowsText(rest) + end))
    ensures |RowsText(More(row, rest))| == |RowText(row)| + 1 + |RowsText(rest)|
  {
    hide RowText;
  }

  lemma RowsTextCases(rows: Rows)
    ensures rows.Empty? ==> RowsText(rows) == rows.pad
    ensures rows.Last? ==> RowsText(rows) == RowText(rows.row)
  {
  }

  lemma ParseRowsEmpty(body: Text, i: nat, isObject: bool)
    requires i <= |body| && BlankEnd(body, i) < |body| && body[BlankEnd(body, i)] == Close(isObject)
    ensures var e := BlankEnd(body, i); ParseRows(body, i, isObject, true) == Ok(Empty(body[i..e]), e + 1)
  {
  }

  lemma ParseRowsLast(body: Text, i: nat, isObject: bool, first: bool, row: Row, next: nat)
    requires i <= |body| && ParseRow(body, i, isObject) == Ok(row, next)
    requires !StartsWithClose(body, i, isObject) && next < |body| && body[next] == Close(isObject)
    ensures ParseRows(body, i, isObject, first) == Ok(Last(row), next + 1)
  {
    hide ParseRow;
  }

  lemma ParseRowsMore(body: Text, i: nat, isObject: bool, first: bool, row: Row, next: nat, rest: Rows, last: nat)
    requires i <= |body| && ParseRow(body, i, isObject) == Ok(row, next)
    requires !StartsWithClose(body, i, isObject) && next < |body| && body[next] == COMMA
    requires ParseRows(body, next + 1, isObject, false) == Ok(rest, last)
    ensures ParseRows(body, i, isObject, first) == Ok(More(row, rest), last)
  {
    hide ParseRow;
  }

  /** Behind the blanks at `i` the group ends. */
  predicate StartsWithClose(body: Text, i: nat, isObject: bool)
    requires i <= |body|
  {
    var e := BlankEnd(body, i);
    e < |body| && body[e] == Close(isObject)
  }

  /** How the parser went on behind a successful start. */
  lemma ParseRowsCases(body: Text, i: nat, isObject: bool, first: bool)
    requires i <= |body| && ParseRows(body, i, isObject, first).Ok? && !(first && StartsWithClose(body, i, isObject))
    ensures ParseRow(body, i, isObject).Ok?
    ensures var next := ParseRow(body, i, isObject).next;
            && next < |body|
            && (body[next] == Close(isObject) || (body[next] == COMMA && ParseRows(body, next + 1, isObject, false).Ok?))
            && ParseRows(body, i, isObject, first) ==
               if body[next] == Close(isObject) then Ok(Last(ParseRow(body, i, isObject).value), next + 1)
               else Ok(More(ParseRow(body, i, isObject).value, ParseRows(body, next + 1, isObject, false).value),
                       ParseRows(body, next + 1, isObject, false).next)
  {
    hide ParseRow;
  }

  lemma {:induction false} RowsAreText(body: Text, i: nat, isObject: bool, first: bool)
    requires i <= |body| && ParseRows(body, i, isObject, first).Ok?
    ensures var r := ParseRows(body, i, isObject, first);
            && WfRows(isObject, r.value) && (r.value.Empty? ==> first)
            && At(body, i, RowsText(r.value) + [Close(isObject)])
            && r.next == i + |RowsText(r.value)| + 1
    decreases |body| - i, 2
  {
    hide At, ParseRows, ParseRow, ParseValue, WfRow, RowText, RowsText, BlankEnd, IsBlank;
    RowsTextCases(ParseRows(body, i, isObject, first).value);
    var e := BlankEnd(body, i);
    if first && StartsWithClose(body, i, isObject) {
      ParseRowsEmpty(body, i, isObject);
      AtSlice(body, i, e);
      AtOne(body, e);
      AtJoin(body, i, body[i..e], [Close(isObject)]);
    } else {
      ParseRowsCases(body, i, isObject, first);
      RowIsText(body, i, isObject);
      var Ok(row, next) := ParseRow(body, i, isObject);
      if body[next] == Close(isObject) {
        AtOne(body, next);
        AtJoin(body, i, RowText(row), [Close(isObject)]);
      } else {
        RowsAreText(body, next + 1, isObject, false);
        var rest := ParseRows(body, next + 1, isObject, false).value;
        MoreJoin(body, i, row, rest, [Close(isObject)]);
      }
    }
  }

  lemma {:induction false} RowIsText(body: Text, i: nat, isObject: bool)
    requires i <= |body| && ParseRow(body, i, isObject).Ok?
    ensures var r := ParseRow(body, i, isObject);
            WfRow(isObject, r.value) && At(body, i, RowText(r.value)) && r.next == i + |RowText(r.value)|
    decreases |body| - i, 1
  {
    hide At, ParseValue, ParseName, WfLayout, WfName, LayoutText, NameText, IsBlank, BlankEnd;
    var b := BlankEnd(body, i);
    NameIsText(body, b, isObject);
    var Ok(name, start) := ParseName(body, b, isObject);
    ValueIsText(body, start);
    var Ok(value, next) := ParseValue(body, start);
    var after := body[next..BlankEnd(body, next)];
    AtJoin(body, start, LayoutText(value), after);
    AtJoin(body, b, NameText(name), LayoutText(value) + after);
    AtJoin(body, i, body[i..b], NameText(name) + (LayoutText(value) + after));
  }

  /** The parser accepts only texts of the grammar, and the layout it returns prints back to the text. */
  lemma ParsedDocumentIsText(body: Text)
    requires ParseDocument(body).Some?
    ensures var d := ParseDocument(body).value; WfDocument(d) && DocumentText(d) == body
  {
    hide ParseValue, WfLayout, LayoutText, IsBlank;
    var b := BlankEnd(body, 0);
    ValueIsText(body, b);
    var Ok(value, next) := ParseValue(body, b);
    var e := BlankEnd(body, next);
    AtJoin(body, b, LayoutText(value), body[next..e]);
    assert body == body[0..b] + body[b..e];
  }

  // ----- completeness: what is printed is parsed back

  lemma BlankEndAt(body: Text, i: nat, pad: Text)
    requires At(body, i, pad) && IsBlank(pad)
    requires i + |pad| < |body| ==> !IsBlankUnit(body[i + |pad|])
    ensures BlankEnd(body, i) == i + |pad|
  {
    var e := BlankEnd(body, i);
    forall k | i <= k < i + |pad|
      ensures IsBlankUnit(body[k])
    {
      AtUnit(body, i, pad, k - i);
    }
    forall k | i <= k < e
      ensures IsBlankUnit(body[k])
    {
      assert body[i..e][k - i] == body[k];
    }
  }

  lemma ExponentIsToken(t: Text)
    requires IsExponent(t)
    ensures AreTokens(t)
  {
    if t != [] {
      var sign := |t| > 1 && (t[1] == 0x2B || t[1] == 0x2D);
      var head := if sign then 2 else 1;
      var digits := t[head..];
      TakeDrop(t, head);
      DigitsAreTokens(digits);
      TokensJoin(t[..head], digits);
    }
  }

  lemma FractionIsToken(t: Text)
    requires IsFraction(t)
    ensures AreTokens(t)
  {
    hide IsExponent, DigitRun, IsTokenUnit;
    if t != [] && t[0] == 0x2E {
      var tail := t[1..];
      var n := DigitRun(tail);
      TakeDrop(tail, n);
      assert tail[n..] == t[1 + n..];
      ExponentIsToken(tail[n..]);
      DigitsAreTokens(tail[..n]);
      TokensJoin(tail[..n], tail[n..]);
      SignIsToken(t, tail);
    } else {
      ExponentIsToken(t);
    }
  }

  lemma NumberIsToken(t: Text)
    requires IsNumber(t)
    ensures t != [] && AreTokens(t)
  {
    hide IsFraction, DigitRun, IsTokenUnit;
    var magnitude := if t[0] == 0x2D then t[1..] else t;
    var n := DigitRun(magnitude);
    TakeDrop(magnitude, n);
    FractionIsToken(magnitude[n..]);
    DigitsAreTokens(magnitude[..n]);
    TokensJoin(magnitude[..n], magnitude[n..]);
    if t[0] == 0x2D {
      SignIsToken(t, magnitude);
    }
  }

  lemma DigitsAreTokens(t: Text)
    requires forall k | 0 <= k < |t| :: IsDigit(t[k])
    ensures AreTokens(t)
  {
  }

  lemma SignIsToken(t: Text, tail: Text)
    requires t != [] && t[1..] == tail && (t[0] == 0x2D || t[0] == 0x2E) && AreTokens(tail)
    ensures AreTokens(t)
  {
    forall k | 0 <= k < |t|
      ensures IsTokenUnit(t[k])
    {
      assert k > 0 ==> t[k] == tail[k - 1];
    }
  }

  predicate AreTokens(t: Text) {
    forall k | 0 <= k < |t| :: IsTokenUnit(t[k])
  }

  lemma TokensJoin(a: Text, b: Text)
    requires AreTokens(a) && AreTokens(b)
    ensures AreTokens(a + b)
  {
    hide IsTokenUnit;
  }

  /** A literal is a nonempty run of token units. */
  lemma LiteralIsToken(t: Text)
    requires IsLiteral(t)
    ensures t != [] && forall k | 0 <= k < |t| :: IsTokenUnit(t[k])
  {
    if IsNumber(t) {
      NumberIsToken(t);
    }
  }

  lemma TokenEndAt(body: Text, i: nat, t: Text)
    requires At(body, i, t) && forall k | 0 <= k < |t| :: IsTokenUnit(t[k])
    requires i + |t| < |body| ==> !IsTokenUnit(body[i + |t|])
    ensures TokenEnd(body, i) == i + |t|
  {
    forall k | i <= k < i + |t|
      ensures IsTokenUnit(body[k])
    {
      AtUnit(body, i, t, k - i);
    }
  }

  lemma HexEscapeHasNoQuote(t: Text)
    requires |t| == 4 && HexEscape(t).Some?
    ensures t[0] != QUOTE && t[1] != QUOTE && t[2] != QUOTE && t[3] != QUOTE
  {
  }

  /** A quote inside a spelling is escaped: what stands before it is not a spelling. */
  lemma {:induction false} NoEarlyClose(raw: Text, k: nat)
    requires IsSpelling(raw) && k < |raw| && raw[k] == QUOTE
    ensures !IsSpelling(raw[..k])
  {
    hide HexEscape, SimpleEscape;
    var head := raw[..k];
    if raw[0] != BACKSLASH {
      NoEarlyClose(raw[1..], k - 1);
      assert head[1..] == raw[1..][..k - 1];
    } else if raw[1] != 0x75 {
      if k > 1 {
        NoEarlyClose(raw[2..], k - 2);
        assert head[2..] == raw[2..][..k - 2];
      }
    } else {
      HexEscapeHasNoQuote(raw[2..6]);
      if k >= 6 {
        NoEarlyClose(raw[6..], k - 6);
        assert head[6..] == raw[6..][..k - 6];
      }
    }
  }

  lemma {:induction false} ClosingQuoteAt(body: Text, i: nat, raw: Text, e: nat)
    requires IsSpelling(raw) && At(body, i, raw + [QUOTE]) && i <= e <= i + |raw|
    ensures ClosingQuote(body, i, e) == Some(i + |raw|)
    decreases |body| - e
  {
    hide At, Decode;
    AtSplit(body, i, raw, [QUOTE]);
    AtUnit(body, i, raw + [QUOTE], e - i);
    AtText(body, i, raw);
    if e < i + |raw| {
      if body[e] == QUOTE {
        NoEarlyClose(raw, e - i);
        AtPrefix(body, i, raw, e - i);
      }
      ClosingQuoteAt(body, i, raw, e + 1);
    }
  }

  lemma ParseQuotedAt(body: Text, i: nat, raw: Text)
    requires IsSpelling(raw) && At(body, i, QuotedText(raw))
    ensures ParseQuoted(body, i) == Ok(raw, i + |raw| + 2)
  {
    hide At, IsSpelling;
    AtUnit(body, i, QuotedText(raw), 0);
    AtSplit(body, i, [QUOTE], raw + [QUOTE]);
    ClosingQuoteAt(body, i + 1, raw, i + 1);
    AtSplit(body, i + 1, raw, [QUOTE]);
  }

  /** The unit a value starts with is neither blank nor a closing bracket. */
  lemma LayoutStart(v: Layout)
    requires WfLayout(v)
    ensures LayoutText(v) != []
    ensures var c := LayoutText(v)[0]; !IsBlankUnit(c) && c != CLOSE_ARRAY && c != CLOSE_OBJECT && c != COLON && c != COMMA
    ensures v.Scalar? ==> IsTokenUnit(LayoutText(v)[0])
    ensures !IsJsSpace(LayoutText(v)[0])
  {
    if v.Scalar? {
      LiteralIsToken(v.raw);
    }
  }

  lemma ParseNameAt(body: Text, i: nat, isObject: bool, name: Name)
    requires WfName(isObject, name) && At(body, i, NameText(name))
    requires i + |NameText(name)| < |body| && !IsBlankUnit(body[i + |NameText(name)|])
    ensures ParseName(body, i, isObject) == Ok(name, i + |NameText(name)|)
  {
    hide At, IsSpelling, ParseQuoted, IsBlank, BlankEnd;
    if name.Named? {
      ParseNamedAt(body, i, name.key, name.gap, name.lead);
    }
  }

  lemma ParseNamedAt(body: Text, i: nat, key: Text, gap: Text, lead: Text)
    requires IsSpelling(key) && IsBlank(gap) && IsBlank(lead) && At(body, i, NameText(Named(key, gap, lead)))
    requires var e := i + |NameText(Named(key, gap, lead))|; e < |body| && !IsBlankUnit(body[e])
    ensures ParseName(body, i, true) == Ok(Named(key, gap, lead), i + |NameText(Named(key, gap, lead))|)
  {
    hide At, IsSpelling, ParseQuoted, ParseName, IsBlank, BlankEnd, NameText, QuotedText;
    NameParts(body, i, key, gap, lead);
    ParseQuotedAt(body, i, key);
    var next := i + |key| + 2;
    var g := next + |gap|;
    BlankEndAt(body, next, gap);
    BlankEndAt(body, g + 1, lead);
    ParseNameSteps(body, i, key, next, g, g + 1 + |lead|);
    AtText(body, next, gap);
    AtText(body, g + 1, lead);
  }

  /** The steps of reading a name: the string, blanks up to the colon, blanks behind it. */
  lemma ParseNameSteps(body: Text, i: nat, key: Text, next: nat, g: nat, e: nat)
    requires i <= |body| && ParseQuoted(body, i) == Ok(key, next) && next <= |body| && BlankEnd(body, next) == g
    requires g < |body| && body[g] == COLON && BlankEnd(body, g + 1) == e
    ensures next <= g < e <= |body| && ParseName(body, i, true) == Ok(Named(key, body[next..g], body[g + 1..e]), e)
  {
    hide ParseQuoted, BlankEnd;
  }

  /** What follows the leading blanks of a row, and the blanks of its name, starts a token. */
  lemma RowStart(body: Text, i: nat, row: Row, isObject: bool)
    requires WfRow(isObject, row) && At(body, i, RowText(row))
    ensures NameStart(i, row) < |body| && ValueStart(i, row) < |body|
    ensures !IsBlankUnit(body[ValueStart(i, row)])
    ensures !IsBlankUnit(body[NameStart(i, row)]) && body[NameStart(i, row)] != Close(isObject)
  {
    hide At, RowText, LayoutText, IsBlank;
    RowParts(body, i, row);
    LayoutStart(row.value);
    AtUnit(body, ValueStart(i, row), LayoutText(row.value), 0);
    if row.name.Named? {
      AtUnit(body, NameStart(i, row), NameText(row.name), 0);
    }
  }

  lemma BlankStart(body: Text, i: nat, pad: Text)
    requires At(body, i, pad) && IsBlank(pad)
    ensures pad != [] ==> i < |body| && IsBlankUnit(body[i])
  {
    if pad != [] {
      AtUnit(body, i, pad, 0);
    }
  }

  lemma {:induction false} ParseValueAt(body: Text, i: nat, v: Layout)
    requires WfLayout(v) && At(body, i, LayoutText(v))
    requires v.Scalar? && i + |LayoutText(v)| < |body| ==> !IsTokenUnit(body[i + |LayoutText(v)|])
    ensures ParseValue(body, i) == Ok(v, i + |LayoutText(v)|)
    decreases v
  {
    hide At, IsSpelling, IsLiteral, ParseQuoted, ParseRows, RowsText, TokenEnd;
    LayoutStart(v);
    AtUnit(body, i, LayoutText(v), 0);
    match v
    case Scalar(raw) =>
      LiteralIsToken(raw);
      TokenEndAt(body, i, raw);
      AtText(body, i, raw);
    case Quoted(raw) =>
      ParseQuotedAt(body, i, raw);
    case Group(isObject, rows) =>
      GroupParts(body, i, isObject, rows);
      ParseRowsAt(body, i + 1, isObject, rows, true);
  }

  lemma {:induction false} ParseRowsAt(body: Text, i: nat, isObject: bool, rows: Rows, first: bool)
    requires WfRows(isObject, rows) && At(body, i, RowsText(rows) + [Close(isObject)]) && (rows.Empty? ==> first)
    ensures ParseRows(body, i, isObject, first) == Ok(rows, i + |RowsText(rows)| + 1)
    decreases rows
  {
    hide At, ParseRows, ParseRow, ParseValue, WfRow, RowText, BlankEnd, IsBlank;
    RowsClose(body, i, rows, isObject);
    match rows
    case Empty(pad) =>
      BlankEndAt(body, i, pad);
      AtText(body, i, pad);
      ParseRowsEmpty(body, i, isObject);
    case Last(row) =>
      ParseRowAt(body, i, isObject, row);
      ParseRowsLast(body, i, isObject, first, row, i + |RowText(row)|);
    case More(row, rest) =>
      MoreParts(body, i, row, rest, [Close(isObject)]);
      ParseRowAt(body, i, isObject, row);
      ParseRowsAt(body, i + |RowText(row)| + 1, isObject, rest, false);
      ParseRowsMore(body, i, isObject, first, row, i + |RowText(row)|, rest, i + |RowsText(rows)| + 1);
  }

  lemma {:induction false} ParseRowAt(body: Text, i: nat, isObject: bool, row: Row)
    requires WfRow(isObject, row) && At(body, i, RowText(row))
    requires var j := i + |RowText(row)|; j < |body| && (body[j] == COMMA || body[j] == Close(isObject))
    ensures ParseRow(body, i, isObject) == Ok(row, i + |RowText(row)|)
    ensures var e := BlankEnd(body, i); e < |body| && body[e] != Close(isObject)
    decreases row
  {
    hide At, ParseValue, ParseName, WfLayout, WfName, LayoutText, NameText, RowText, BlankEnd, IsBlank;
    RowParts(body, i, row);
    var Row(before, name, value, after) := row;
    RowStart(body, i, row, isObject);
    BlankEndAt(body, i, before);
    ParseNameAt(body, NameStart(i, row), isObject, name);
    BlankStart(body, AfterStart(i, row), after);
    ParseValueAt(body, ValueStart(i, row), value);
    BlankEndAt(body, AfterStart(i, row), after);
    AtText(body, i, before);
    AtText(body, AfterStart(i, row), after);
  }

  /** Every layout of every document parses back to exactly itself: the grammar is unambiguous. */
  lemma DocumentTextParses(d: Document)
    requires WfDocument(d)
    ensures ParseDocument(DocumentText(d)) == Some(d)
  {
    hide At, ParseValue, WfLayout, LayoutText, BlankEnd, IsBlank, DocumentText;
    var body := DocumentText(d);
    var b := |d.before|;
    var next := b + |LayoutText(d.value)|;
    DocumentParts(d);
    LayoutStart(d.value);
    AtUnit(body, b, LayoutText(d.value), 0);
    BlankEndAt(body, 0, d.before);
    BlankStart(body, next, d.after);
    ParseValueAt(body, b, d.value);
    BlankEndAt(body, next, d.after);
    AtText(body, 0, d.before);
    AtText(body, next, d.after);
  }
}
