/** Strings and numbers as section 6 and section 7 of RFC 8259 spell them, without scanning. */
module JsonSpelling {
  import opened CodeUnits
  import opened JsonGrammar

  const LOWER_HEX := Ascii("0123456789abcdef")
  const UPPER_HEX := Ascii("0123456789ABCDEF")
  const ESCAPES := Ascii("\"\\/bfnrt")
  const ESCAPED: Text := [0x22, 0x5C, 0x2F, 0x08, 0x0C, 0x0A, 0x0D, 0x09]

  // ----- strings

  /** The unit is the hexadecimal digit of this value, in either case. */
  predicate IsHexOf(u: CodeUnit, value: CodeUnit) {
    value < 16 && (u == LOWER_HEX[value] || u == UPPER_HEX[value])
  }

  /** `\uXXXX` */
  ghost predicate IsHexEscape(raw: Text, c: CodeUnit) {
    |raw| == 6 && raw[0] == BACKSLASH && raw[1] == 0x75 &&
    exists p: CodeUnit, q: CodeUnit, r: CodeUnit, s: CodeUnit ::
      IsHexOf(raw[2], p) && IsHexOf(raw[3], q) && IsHexOf(raw[4], r) && IsHexOf(raw[5], s)
      && c as int == 4096 * p as int + 256 * q as int + 16 * r as int + s as int
  }

  ghost predicate IsShortEscape(raw: Text, c: CodeUnit) {
    |raw| == 2 && raw[0] == BACKSLASH && exists k :: 0 <= k < 8 && raw[1] == ESCAPES[k] && c == ESCAPED[k]
  }

  /** A spelling of one unit: itself, or one of its escapes. */
  ghost predicate SpellsUnit(raw: Text, c: CodeUnit) {
    || (raw == [c] && c >= 0x20 && c != QUOTE && c != BACKSLASH)
    || IsShortEscape(raw, c)
    || IsHexEscape(raw, c)
  }

  /** The text between the quotes spells the string, unit by unit. */
  ghost predicate Spells(raw: Text, t: Text)
    decreases |t|
  {
    if t == [] then raw == []
    else exists n: nat :: n <= |raw| && SpellsUnit(raw[..n], t[0]) && Spells(raw[n..], t[1..])
  }

  lemma HexDigits()
    ensures |LOWER_HEX| == |UPPER_HEX| == 16
    ensures forall k | 0 <= k < 10 :: LOWER_HEX[k] as int == 0x30 + k
    ensures forall k | 0 <= k < 10 :: UPPER_HEX[k] as int == 0x30 + k
    ensures forall k | 10 <= k < 16 :: LOWER_HEX[k] as int == 0x57 + k
    ensures forall k | 10 <= k < 16 :: UPPER_HEX[k] as int == 0x37 + k
  {
  }

  lemma HexValueIs(u: CodeUnit, value: CodeUnit)
    ensures HexValue(u) == Some(value) <==> IsHexOf(u, value)
  {
    hide Ascii;
    HexDigits();
  }

  lemma EscapeLetters()
    ensures ESCAPES == [0x22, 0x5C, 0x2F, 0x62, 0x66, 0x6E, 0x72, 0x74]
  {
  }

  lemma SimpleEscapeIs(u: CodeUnit, c: CodeUnit)
    ensures SimpleEscape(u) == Some(c) <==> exists k :: 0 <= k < 8 && u == ESCAPES[k] && c == ESCAPED[k]
  {
    hide Ascii;
    EscapeLetters();
    if SimpleEscape(u) == Some(c) {
      var k := if u == 0x22 then 0 else if u == 0x5C then 1 else if u == 0x2F then 2 else if u == 0x62 then 3
               else if u == 0x66 then 4 else if u == 0x6E then 5 else if u == 0x72 then 6 else 7;
      assert u == ESCAPES[k] && c == ESCAPED[k];
    }
  }

  /** The escape is four digits, and their number. */
  lemma HexEscapeHolds(h: Text, p: CodeUnit, q: CodeUnit, r: CodeUnit, s: CodeUnit)
    requires |h| == 4 && HexValue(h[0]) == Some(p) && HexValue(h[1]) == Some(q) && HexValue(h[2]) == Some(r) && HexValue(h[3]) == Some(s)
    ensures HexEscape(h).Some? && HexEscape(h).value as int == 4096 * p as int + 256 * q as int + 16 * r as int + s as int
  {
    hide HexValue;
  }

  lemma HexEscapeIs(raw: Text, c: CodeUnit)
    requires |raw| == 6 && raw[0] == BACKSLASH && raw[1] == 0x75
    ensures HexEscape(raw[2..6]) == Some(c) <==> IsHexEscape(raw, c)
  {
    hide Ascii, HexValue, HexEscape, IsHexEscape;
    if HexEscape(raw[2..6]) == Some(c) {
      EscapeOfDigits(raw, c);
    }
    if IsHexEscape(raw, c) {
      DigitsOfEscape(raw, c);
    }
  }

  lemma EscapeOfDigits(raw: Text, c: CodeUnit)
    requires |raw| == 6 && raw[0] == BACKSLASH && raw[1] == 0x75 && HexEscape(raw[2..6]) == Some(c)
    ensures IsHexEscape(raw, c)
  {
    hide Ascii, HexValue, IsHexOf, HexEscape;
    var h := raw[2..6];
    assert h[0] == raw[2] && h[1] == raw[3] && h[2] == raw[4] && h[3] == raw[5];
    HexEscapeReads(h);
    var p, q, r, s := HexValue(h[0]).value, HexValue(h[1]).value, HexValue(h[2]).value, HexValue(h[3]).value;
    HexEscapeHolds(h, p, q, r, s);
    HexValueIs(raw[2], p);
    HexValueIs(raw[3], q);
    HexValueIs(raw[4], r);
    HexValueIs(raw[5], s);
  }

  lemma DigitsOfEscape(raw: Text, c: CodeUnit)
    requires |raw| == 6 && IsHexEscape(raw, c)
    ensures HexEscape(raw[2..6]) == Some(c)
  {
    hide Ascii, HexValue, IsHexOf, HexEscape;
    var h := raw[2..6];
    assert h[0] == raw[2] && h[1] == raw[3] && h[2] == raw[4] && h[3] == raw[5];
    var p: CodeUnit, q: CodeUnit, r: CodeUnit, s: CodeUnit :|
      IsHexOf(raw[2], p) && IsHexOf(raw[3], q) && IsHexOf(raw[4], r) && IsHexOf(raw[5], s)
      && c as int == 4096 * p as int + 256 * q as int + 16 * r as int + s as int;
    HexValueIs(raw[2], p);
    HexValueIs(raw[3], q);
    HexValueIs(raw[4], r);
    HexValueIs(raw[5], s);
    HexEscapeHolds(h, p, q, r, s);
  }

  lemma HexEscapeReads(h: Text)
    requires |h| == 4
    ensures HexEscape(h).Some? ==> HexValue(h[0]).Some? && HexValue(h[1]).Some? && HexValue(h[2]).Some? && HexValue(h[3]).Some?
  {
    hide HexValue;
  }

  /** How many units the first spelling takes. */
  function HeadLength(raw: Text): nat
    requires raw != []
  {
    if raw[0] != BACKSLASH then 1 else if |raw| > 1 && raw[1] == 0x75 then 6 else 2
  }

  /** The first unit of a string is spelled by the start of its spelling, of that length and no other. */
  lemma HeadIs(raw: Text, n: nat, c: CodeUnit)
    requires raw != [] && n <= |raw| && SpellsUnit(raw[..n], c)
    ensures n == HeadLength(raw)
  {
    hide Ascii;
    EscapeLetters();
    assert n > 0 ==> raw[..n][0] == raw[0];
    assert n > 1 ==> raw[..n][1] == raw[1];
  }

  /** One step of decoding reads the unit that the start spells. */
  lemma DecodeHead(raw: Text, t: Text)
    requires raw != []
    ensures var n := HeadLength(raw);
            Decode(raw) == Some(t) <==>
              && n <= |raw| && t != [] && SpellsUnit(raw[..n], t[0]) && Decode(raw[n..]) == Some(t[1..])
  {
    hide Ascii, HexEscape, SimpleEscape, IsHexEscape, IsShortEscape;
    var n := HeadLength(raw);
    HeadKind(raw);
    if n <= |raw| {
      var rest := Decode(raw[n..]);
      if t != [] {
        HeadCases(raw, t[0]);
        assert t == [t[0]] + t[1..];
      }
      if rest.Some? {
        assert forall c: CodeUnit :: ([c] + rest.value)[1..] == rest.value;
      }
      if n == 6 {
        assert raw[2..6] == raw[..6][2..6];
      }
    }
  }

  lemma HeadKind(raw: Text)
    requires raw != []
    ensures Decode(raw) ==
              if HeadLength(raw) > |raw| then None
              else if HeadLength(raw) == 6 then (if HexEscape(raw[2..6]).None? then None else Prepend(HexEscape(raw[2..6]).value, Decode(raw[6..])))
              else if HeadLength(raw) == 2 then (if SimpleEscape(raw[1]).None? then None else Prepend(SimpleEscape(raw[1]).value, Decode(raw[2..])))
              else if raw[0] == QUOTE || raw[0] < 0x20 then None else Prepend(raw[0], Decode(raw[1..]))
  {
    hide HexEscape, SimpleEscape;
  }

  lemma HeadCases(raw: Text, c: CodeUnit)
    requires raw != [] && HeadLength(raw) <= |raw|
    ensures var n := HeadLength(raw);
            SpellsUnit(raw[..n], c) <==>
              if n == 6 then HexEscape(raw[2..6]) == Some(c)
              else if n == 2 then SimpleEscape(raw[1]) == Some(c)
              else raw[0] == c && c >= 0x20 && c != QUOTE && c != BACKSLASH
  {
    hide Ascii, HexEscape, SimpleEscape, IsHexEscape;
    var n := HeadLength(raw);
    var head := raw[..n];
    assert head[0] == raw[0];
    if n == 6 {
      assert head[1] == raw[1] && head[2..6] == raw[2..6];
      HexEscapeIs(head, c);
    } else if n == 2 {
      assert head[1] == raw[1];
      SimpleEscapeIs(raw[1], c);
      assert !IsHexEscape(head, c) by { NotSix(head, c); }
    } else {
      assert head == [raw[0]];
      assert !IsHexEscape(head, c) by { NotSix(head, c); }
    }
  }

  lemma NotSix(raw: Text, c: CodeUnit)
    requires |raw| != 6
    ensures !IsHexEscape(raw, c)
  {
  }

  /** Decoding reads exactly the spellings: a text decodes to a string if and only if it spells it. */
  lemma {:induction false} DecodeIsSpelling(raw: Text, t: Text)
    ensures Decode(raw) == Some(t) <==> Spells(raw, t)
    decreases |raw|
  {
    hide Ascii, SpellsUnit, HeadLength;
    if raw == [] {
      NothingSpelled(t);
    } else {
      var n := HeadLength(raw);
      DecodeHead(raw, t);
      HeadPositive(raw);
      if t != [] {
        if n <= |raw| {
          DecodeIsSpelling(raw[n..], t[1..]);
        }
        forall m: nat | m <= |raw| && SpellsUnit(raw[..m], t[0])
          ensures m == n
        {
          HeadIs(raw, m, t[0]);
        }
      }
    }
  }

  lemma HeadPositive(raw: Text)
    requires raw != []
    ensures HeadLength(raw) > 0
  {
  }

  lemma NothingSpelled(t: Text)
    ensures Spells([], t) <==> t == []
  {
    hide Ascii;
    if t != [] {
      var none: Text := [];
      assert none[..0] == none;
    }
  }

  // ----- numbers

  predicate AreDigits(t: Text) {
    t != [] && forall k | 0 <= k < |t| :: 0x30 <= t[k] <= 0x39
  }

  /** `0`, or digits that do not start with `0`. */
  predicate IsInteger(t: Text) {
    t == [0x30] || (AreDigits(t) && t[0] != 0x30)
  }

  predicate IsFractionPart(t: Text) {
    t == [] || (t[0] == 0x2E && AreDigits(t[1..]))
  }

  predicate IsExponentPart(t: Text) {
    || t == []
    || ((t[0] == 0x65 || t[0] == 0x45) &&
        (AreDigits(t[1..]) || (|t| > 1 && (t[1] == 0x2B || t[1] == 0x2D) && AreDigits(t[2..]))))
  }

  /** An optional minus, an integer, and an optional fraction and exponent. */
  ghost predicate IsNumberText(t: Text) {
    exists sign: Text, whole: Text, fraction: Text, exponent: Text ::
      && (sign == [] || sign == [0x2D]) && IsInteger(whole) && IsFractionPart(fraction) && IsExponentPart(exponent)
      && t == sign + (whole + (fraction + exponent))
  }

  lemma {:induction false} RunIs(t: Text, digits: Text, rest: Text)
    requires t == digits + rest && forall k | 0 <= k < |digits| :: IsDigit(digits[k])
    requires rest == [] || !IsDigit(rest[0])
    ensures DigitRun(t) == |digits|
    decreases |digits|
  {
    if digits != [] {
      assert t[1..] == digits[1..] + rest;
      RunIs(t[1..], digits[1..], rest);
    }
  }

  lemma {:induction false} RunEnds(t: Text)
    ensures DigitRun(t) < |t| ==> !IsDigit(t[DigitRun(t)])
  {
    if t != [] && IsDigit(t[0]) {
      RunEnds(t[1..]);
    }
  }

  lemma AllDigits(t: Text)
    ensures AreDigits(t) <==> t != [] && DigitRun(t) == |t|
  {
    if AreDigits(t) {
      assert t == t + [];
      RunIs(t, t, []);
    }
  }

  lemma ExponentIs(t: Text)
    ensures IsExponent(t) <==> IsExponentPart(t)
    ensures IsExponentPart(t) && t != [] ==> !IsDigit(t[0]) && t[0] != 0x2E
  {
    hide DigitRun;
    if t != [] {
      AllDigits(t[1..]);
      if |t| > 1 {
        AllDigits(t[2..]);
      }
    }
  }

  lemma FractionIs(t: Text)
    ensures IsFraction(t) <==> exists fraction: Text, exponent: Text :: IsFractionPart(fraction) && IsExponentPart(exponent) && t == fraction + exponent
  {
    hide DigitRun, IsExponent, IsExponentPart;
    if IsFraction(t) {
      if t != [] && t[0] == 0x2E {
        var n := DigitRun(t[1..]);
        ExponentIs(t[1 + n..]);
        assert t[..1 + n][1..] == t[1..][..n];
        assert IsFractionPart(t[..1 + n]) && t == t[..1 + n] + t[1 + n..];
      } else {
        ExponentIs(t);
        assert IsFractionPart([]) && t == [] + t;
      }
    }
    if fraction: Text, exponent: Text :| IsFractionPart(fraction) && IsExponentPart(exponent) && t == fraction + exponent {
      ExponentIs(exponent);
      if fraction == [] {
        assert t == exponent;
      } else {
        assert t[1..] == fraction[1..] + exponent;
        RunIs(t[1..], fraction[1..], exponent);
        assert t[|fraction|..] == exponent;
      }
    }
  }

  lemma FractionStart(t: Text)
    requires IsFraction(t) && t != []
    ensures !IsDigit(t[0])
  {
    hide DigitRun;
  }

  /** The number grammar, as section 6 writes it. */
  lemma NumberIs(t: Text)
    ensures IsNumber(t) <==> IsNumberText(t)
  {
    hide DigitRun, IsFraction, IsFractionPart, IsExponentPart;
    var sign := if t != [] && t[0] == 0x2D then t[..1] else [];
    var magnitude := t[|sign|..];
    assert t == sign + magnitude;
    MagnitudeIs(magnitude);
    if IsNumber(t) {
      var whole: Text, fraction: Text, exponent: Text :| IsInteger(whole) && IsFractionPart(fraction) && IsExponentPart(exponent)
                                                          && magnitude == whole + (fraction + exponent);
      assert t == sign + (whole + (fraction + exponent));
    }
    if IsNumberText(t) {
      var s: Text, whole: Text, fraction: Text, exponent: Text :|
        && (s == [] || s == [0x2D]) && IsInteger(whole) && IsFractionPart(fraction) && IsExponentPart(exponent)
        && t == s + (whole + (fraction + exponent));
      assert whole[0] != 0x2D;
      assert s == sign && magnitude == whole + (fraction + exponent);
    }
  }

  /** The number without its sign. */
  predicate IsMagnitude(t: Text) {
    var n := DigitRun(t);
    n > 0 && (t[0] == 0x30 ==> n == 1) && IsFraction(t[n..])
  }

  lemma MagnitudeIs(t: Text)
    ensures IsMagnitude(t) <==>
              exists whole: Text, fraction: Text, exponent: Text ::
                IsInteger(whole) && IsFractionPart(fraction) && IsExponentPart(exponent) && t == whole + (fraction + exponent)
  {
    hide DigitRun, IsFraction, IsFractionPart, IsExponentPart;
    if IsMagnitude(t) {
      var n := DigitRun(t);
      FractionIs(t[n..]);
      var fraction: Text, exponent: Text :| IsFractionPart(fraction) && IsExponentPart(exponent) && t[n..] == fraction + exponent;
      assert n == 1 ==> t[..n] == [t[0]];
      assert IsInteger(t[..n]) && t == t[..n] + (fraction + exponent);
    }
    if whole: Text, fraction: Text, exponent: Text :|
      IsInteger(whole) && IsFractionPart(fraction) && IsExponentPart(exponent) && t == whole + (fraction + exponent)
    {
      var rest := fraction + exponent;
      FractionIs(rest);
      if rest != [] {
        FractionStart(rest);
      }
      RunIs(t, whole, rest);
      assert t[|whole|..] == rest;
    }
  }
}
