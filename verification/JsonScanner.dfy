/**
 The hand-written scanners over raw JSON text. Each loop is proved against a recursive
 function on indices that is total on malformed text; `JsonScanning` then shows what
 those functions find in a text of the grammar.
 */
module JsonScanner {
  import opened CodeUnits
  import opened JsonGrammar
  import T = JsonTree

  predicate IsOpen(c: CodeUnit) {
    c == OPEN_OBJECT || c == OPEN_ARRAY
  }

  predicate IsClose(c: CodeUnit) {
    c == CLOSE_OBJECT || c == CLOSE_ARRAY
  }

  predicate StopsScalar(c: CodeUnit) {
    c == COMMA || c == CLOSE_OBJECT || c == CLOSE_ARRAY
  }

  /** The index after the quote that closes the string whose content resumes at `i`. */
  function StringEnd(body: Text, i: nat): (e: nat)
    ensures e <= |body|
    ensures i <= |body| ==> i <= e
    ensures i < |body| ==> i < e
    decreases |body| - i
  {
    if i >= |body| then |body|
    else if body[i] == BACKSLASH then StringEnd(body, i + 2)
    else if body[i] == QUOTE then i + 1
    else StringEnd(body, i + 1)
  }

  method ScanString(body: Text, start: nat) returns (end: nat)
    requires start < |body|
    ensures end == StringEnd(body, start + 1)
  {
    var index := start + 1;
    while index < |body|
      invariant index <= |body| + 1
      invariant StringEnd(body, index) == StringEnd(body, start + 1)
    {
      var character := body[index];
      if character == BACKSLASH {
        index := index + 2;
        continue;
      }
      if character == QUOTE {
        return index + 1;
      }
      index := index + 1;
    }
    return |body|;
  }

  /** `body.slice(start + 1, Math.max(start + 1, end - 1))` */
  function ReadString(body: Text, start: nat, end: nat): Text
    requires start < |body| && end <= |body|
  {
    if end <= start + 1 then [] else body[start + 1..end - 1]
  }

  /** `JSON.parse` of the quoted text, or the text itself where that throws. */
  function DecodeJsonString(raw: Text): Text {
    match Decode(raw)
    case Some(units) => units
    case None => raw
  }

  /** Where the structure scan ends that stands at `i` with `depth` brackets open. */
  function NestEnd(body: Text, i: nat, depth: int): (e: nat)
    requires i <= |body|
    ensures i <= e <= |body|
    decreases |body| - i
  {
    if i == |body| then i
    else if body[i] == QUOTE then NestEnd(body, StringEnd(body, i + 1), depth)
    else if IsOpen(body[i]) then NestEnd(body, i + 1, depth + 1)
    else if IsClose(body[i]) then if depth == 1 then i + 1 else NestEnd(body, i + 1, depth - 1)
    else NestEnd(body, i + 1, depth)
  }

  function ScalarEnd(body: Text, i: nat): (e: nat)
    requires i <= |body|
    ensures i <= e <= |body|
    decreases |body| - i
  {
    if i < |body| && !StopsScalar(body[i]) then ScalarEnd(body, i + 1) else i
  }

  /** The end of the value that starts at `i`. */
  function ValueEnd(body: Text, i: nat): (e: nat)
    requires i <= |body|
    ensures i <= e <= |body|
  {
    if i < |body| && body[i] == QUOTE then StringEnd(body, i + 1)
    else if i < |body| && IsOpen(body[i]) then NestEnd(body, i, 0)
    else ScalarEnd(body, i)
  }

  method ScanValue(body: Text, start: nat) returns (end: nat)
    requires start <= |body|
    ensures end == ValueEnd(body, start)
  {
    if start < |body| && body[start] == QUOTE {
      end := ScanString(body, start);
      return;
    }
    if start < |body| && IsOpen(body[start]) {
      var depth: int := 0;
      var index := start;
      while index < |body|
        invariant start <= index <= |body|
        invariant NestEnd(body, index, depth) == NestEnd(body, start, 0)
      {
        var current := body[index];
        if current == QUOTE {
          index := ScanString(body, index);
          continue;
        }
        if IsOpen(current) {
          depth := depth + 1;
        } else if IsClose(current) {
          depth := depth - 1;
          if depth == 0 {
            return index + 1;
          }
        }
        index := index + 1;
      }
      return |body|;
    }
    var index := start;
    while index < |body| && !StopsScalar(body[index])
      invariant start <= index <= |body|
      invariant ScalarEnd(body, index) == ScalarEnd(body, start)
    {
      index := index + 1;
    }
    return index;
  }

  function SkipSpace(body: Text, i: nat, limit: nat): (e: nat)
    requires limit <= |body|
    ensures i <= e && (i <= limit ==> e <= limit)
    decreases limit - i
  {
    if i < limit && IsJsSpace(body[i]) then SkipSpace(body, i + 1, limit) else i
  }

  method ScanSpace(body: Text, i: nat, limit: nat) returns (cursor: nat)
    requires limit <= |body|
    ensures cursor == SkipSpace(body, i, limit)
  {
    cursor := i;
    while cursor < limit && IsJsSpace(body[cursor])
      invariant SkipSpace(body, cursor, limit) == SkipSpace(body, i, limit)
    {
      cursor := cursor + 1;
    }
  }

  // ----- the first top-level member of a name

  datatype Span = Span(keyStart: nat, valueStart: nat, valueEnd: nat)

  function KeyMatches(raw: Text, field: Text, decodeKeys: bool): bool {
    (if decodeKeys then DecodeJsonString(raw) else raw) == field
  }

  function MemberSpan(body: Text, keyStart: nat, colon: nat): Span
    requires colon < |body|
  {
    var value := SkipSpace(body, colon + 1, |body|);
    Span(keyStart, value, ValueEnd(body, value))
  }

  function TopLevelSpan(body: Text, field: Text, decodeKeys: bool, i: nat, depth: int): (span: Option<Span>)
    requires i <= |body|
    ensures span.Some? ==> span.value.keyStart < span.value.valueStart <= span.value.valueEnd <= |body|
    decreases |body| - i
  {
    if i == |body| then None
    else if body[i] == QUOTE then
      var end := StringEnd(body, i + 1);
      var cursor := SkipSpace(body, end, |body|);
      if depth == 1 && cursor < |body| && body[cursor] == COLON && KeyMatches(ReadString(body, i, end), field, decodeKeys)
      then Some(MemberSpan(body, i, cursor))
      else TopLevelSpan(body, field, decodeKeys, end, depth)
    else if IsOpen(body[i]) then TopLevelSpan(body, field, decodeKeys, i + 1, depth + 1)
    else if IsClose(body[i]) then TopLevelSpan(body, field, decodeKeys, i + 1, depth - 1)
    else TopLevelSpan(body, field, decodeKeys, i + 1, depth)
  }

  method TopLevelMemberValue(body: Text, field: Text, decodeKeys: bool) returns (span: Option<Span>)
    ensures span == TopLevelSpan(body, field, decodeKeys, 0, 0)
  {
    hide StringEnd, ValueEnd, SkipSpace, KeyMatches, ReadString;
    var depth: int := 0;
    var index := 0;
    while index < |body|
      invariant index <= |body|
      invariant TopLevelSpan(body, field, decodeKeys, index, depth) == TopLevelSpan(body, field, decodeKeys, 0, 0)
    {
      var character := body[index];
      if character == QUOTE {
        var end := ScanString(body, index);
        if depth == 1 {
          var cursor := ScanSpace(body, end, |body|);
          if cursor < |body| && body[cursor] == COLON && KeyMatches(ReadString(body, index, end), field, decodeKeys) {
            var value := ScanSpace(body, cursor + 1, |body|);
            var valueEnd := ScanValue(body, value);
            return Some(Span(index, value, valueEnd));
          }
        }
        index := end;
        continue;
      }
      if IsOpen(character) {
        depth := depth + 1;
      } else if IsClose(character) {
        depth := depth - 1;
      }
      index := index + 1;
    }
    return None;
  }

  // ----- every member, or every value

  function NonEmptyDecoded(body: Text, start: nat, end: nat): seq<Text>
    requires start < |body| && end <= |body|
  {
    var decoded := DecodeJsonString(ReadString(body, start, end));
    if decoded == [] then [] else [decoded]
  }

  /** What `collect(i, limit)` pushes. `limit` bounds the walk, not the look-ahead, as in the source. */
  function Collected(body: Text, field: Option<Text>, i: nat, limit: nat): seq<Text>
    requires limit <= |body|
    decreases |body| - i
  {
    if i >= limit then []
    else if body[i] != QUOTE then Collected(body, field, i + 1, limit)
    else
      var end := StringEnd(body, i + 1);
      var cursor := SkipSpace(body, end, limit);
      if cursor >= |body| || body[cursor] != COLON then
        (if field.None? then NonEmptyDecoded(body, i, end) else []) + Collected(body, field, end, limit)
      else
        var name := DecodeJsonString(ReadString(body, i, end));
        var value := SkipSpace(body, cursor + 1, limit);
        var valueEnd := ValueEnd(body, value);
        (if value < |body| && body[value] == QUOTE
         then if T.Wanted(name, field) then NonEmptyDecoded(body, value, valueEnd) else []
         else Collected(body, field, value, valueEnd))
        + Collected(body, field, if valueEnd > value then valueEnd else end, limit)
  }

  method CollectJsonMembers(body: Text, field: Option<Text>, from: nat, limit: nat) returns (values: seq<Text>)
    requires limit <= |body|
    ensures values == Collected(body, field, from, limit)
    decreases |body| - from
  {
    hide StringEnd, ValueEnd, SkipSpace, DecodeJsonString, ReadString, NonEmptyDecoded;
    values := [];
    var index := from;
    while index < limit
      invariant from <= index
      invariant values + Collected(body, field, index, limit) == Collected(body, field, from, limit)
      decreases |body| - index
    {
      if body[index] != QUOTE {
        index := index + 1;
        continue;
      }
      var end := ScanString(body, index);
      var cursor := ScanSpace(body, end, limit);
      var found: seq<Text> := [];
      var next := end;
      if cursor >= |body| || body[cursor] != COLON {
        if field.None? {
          found := NonEmptyDecoded(body, index, end);
        }
      } else {
        var name := DecodeJsonString(ReadString(body, index, end));
        var value := ScanSpace(body, cursor + 1, limit);
        var valueEnd := ScanValue(body, value);
        if value >= |body| || body[value] != QUOTE {
          found := CollectJsonMembers(body, field, value, valueEnd);
        } else if T.Wanted(name, field) {
          found := NonEmptyDecoded(body, value, valueEnd);
        }
        next := if valueEnd > value then valueEnd else end;
      }
      assert Collected(body, field, index, limit) == found + Collected(body, field, next, limit);
      Grouped(values, found, Collected(body, field, next, limit));
      values := values + found;
      index := next;
    }
  }
}
