/** `encodeUrlSafe` and `constantTimeEqual`. */
module Base64Url {
  import opened CodeUnits

  newtype Byte = b: int | 0 <= b < 256

  type Bytes = seq<Byte>

  const PAD: CodeUnit := 0x3D

  /** The standard alphabet of section 4 of RFC 4648. */
  function Letter(v: int): CodeUnit
    requires 0 <= v < 64
  {
    if v < 26 then (0x41 + v) as CodeUnit
    else if v < 52 then (0x61 + (v - 26)) as CodeUnit
    else if v < 62 then (0x30 + (v - 52)) as CodeUnit
    else if v == 62 then 0x2B
    else 0x2F
  }

  function Btoa(bytes: Bytes): Text {
    if bytes == [] then []
    else
      var a := bytes[0] as int;
      if |bytes| == 1 then [Letter(a / 4), Letter(a % 4 * 16), PAD, PAD]
      else
        var b := bytes[1] as int;
        if |bytes| == 2 then [Letter(a / 4), Letter(a % 4 * 16 + b / 16), Letter(b % 16 * 4), PAD]
        else
          var c := bytes[2] as int;
          [Letter(a / 4), Letter(a % 4 * 16 + b / 16), Letter(b % 16 * 4 + c / 64), Letter(c % 64)] + Btoa(bytes[3..])
  }

  /** `replaceAll('+', '-').replaceAll('/', '_')` */
  function UrlUnit(c: CodeUnit): CodeUnit {
    if c == 0x2B then 0x2D else if c == 0x2F then 0x5F else c
  }

  function UrlUnits(t: Text): (u: Text)
    ensures |u| == |t| && forall k | 0 <= k < |t| :: u[k] == UrlUnit(t[k])
  {
    seq(|t|, k requires 0 <= k < |t| => UrlUnit(t[k]))
  }

  /** `replace(/=+$/, '')` */
  function Unpadded(t: Text): Text {
    if t != [] && t[|t| - 1] == PAD then Unpadded(t[..|t| - 1]) else t
  }

  function EncodeUrlSafe(bytes: Bytes): Text {
    Unpadded(UrlUnits(Btoa(bytes)))
  }

  // ----- section 5 of RFC 4648, without padding

  function UrlLetter(v: int): CodeUnit
    requires 0 <= v < 64
  {
    UrlUnit(Letter(v))
  }

  /** The reference encoding: the URL alphabet, and no padding to begin with. */
  function UrlSafe(bytes: Bytes): Text {
    if bytes == [] then []
    else
      var a := bytes[0] as int;
      if |bytes| == 1 then [UrlLetter(a / 4), UrlLetter(a % 4 * 16)]
      else
        var b := bytes[1] as int;
        if |bytes| == 2 then [UrlLetter(a / 4), UrlLetter(a % 4 * 16 + b / 16), UrlLetter(b % 16 * 4)]
        else
          var c := bytes[2] as int;
          [UrlLetter(a / 4), UrlLetter(a % 4 * 16 + b / 16), UrlLetter(b % 16 * 4 + c / 64), UrlLetter(c % 64)]
          + UrlSafe(bytes[3..])
  }

  /** `/^[A-Za-z0-9_-]+$/` */
  predicate IsBase64UrlUnit(c: CodeUnit) {
    0x41 <= c <= 0x5A || 0x61 <= c <= 0x7A || 0x30 <= c <= 0x39 || c == 0x5F || c == 0x2D
  }

  predicate IsBase64Url(t: Text) {
    t != [] && forall k | 0 <= k < |t| :: IsBase64UrlUnit(t[k])
  }

  lemma UrlLetterIsUrlUnit(v: int)
    requires 0 <= v < 64
    ensures IsBase64UrlUnit(UrlLetter(v)) && UrlLetter(v) != PAD && UrlUnit(PAD) == PAD
  {
  }

  lemma UnpaddedEnds(t: Text, p: nat)
    requires p <= 2 && (t == [] || t[|t| - 1] != PAD)
    ensures Unpadded(t + seq(p, _ => PAD)) == t
    decreases p
  {
    var s := t + seq(p, _ => PAD);
    if p > 0 {
      assert s[..|s| - 1] == t + seq(p - 1, _ => PAD);
      UnpaddedEnds(t, p - 1);
    } else {
      assert s == t;
    }
  }

  function PadCount(n: nat): nat {
    if n % 3 == 0 then 0 else 3 - n % 3
  }

  lemma UrlUnitsJoin(a: Text, b: Text)
    ensures UrlUnits(a + b) == UrlUnits(a) + UrlUnits(b)
  {
    hide UrlUnit;
  }

  lemma FourUrlUnits(p: CodeUnit, q: CodeUnit, r: CodeUnit, s: CodeUnit)
    ensures UrlUnits([p, q, r, s]) == [UrlUnit(p), UrlUnit(q), UrlUnit(r), UrlUnit(s)]
  {
    hide UrlUnit;
  }

  /** `btoa` with the URL alphabet is the reference encoding followed by its padding. */
  lemma {:induction false} BtoaIsPadded(bytes: Bytes)
    ensures UrlUnits(Btoa(bytes)) == UrlSafe(bytes) + seq(PadCount(|bytes|), _ => PAD)
    decreases |bytes|
  {
    hide Letter, UrlUnit, UrlUnits;
    if |bytes| < 3 {
      ShortBtoa(bytes);
    } else {
      BtoaIsPadded(bytes[3..]);
      var a, b, c := bytes[0] as int, bytes[1] as int, bytes[2] as int;
      var front := [Letter(a / 4), Letter(a % 4 * 16 + b / 16), Letter(b % 16 * 4 + c / 64), Letter(c % 64)];
      UrlUnitsJoin(front, Btoa(bytes[3..]));
      FourUrlUnits(front[0], front[1], front[2], front[3]);
    }
  }

  lemma ShortBtoa(bytes: Bytes)
    requires |bytes| < 3
    ensures UrlUnits(Btoa(bytes)) == UrlSafe(bytes) + seq(PadCount(|bytes|), _ => PAD)
  {
    hide Letter;
    if bytes != [] {
      var t := Btoa(bytes);
      hide UrlUnit, UrlUnits;
      UrlLetterIsUrlUnit(0);
      FourUrlUnits(t[0], t[1], t[2], t[3]);
      assert t == [t[0], t[1], t[2], t[3]];
    }
  }

  lemma {:induction false} UrlSafeUnits(bytes: Bytes)
    ensures forall k | 0 <= k < |UrlSafe(bytes)| :: IsBase64UrlUnit(UrlSafe(bytes)[k]) && UrlSafe(bytes)[k] != PAD
    ensures |UrlSafe(bytes)| == (4 * |bytes| + 2) / 3
    decreases |bytes|
  {
    hide UrlLetter, IsBase64UrlUnit;
    if bytes != [] {
      var a := bytes[0] as int;
      UrlLetterIsUrlUnit(a / 4);
      if |bytes| == 1 {
        UrlLetterIsUrlUnit(a % 4 * 16);
      } else {
        var b := bytes[1] as int;
        UrlLetterIsUrlUnit(a % 4 * 16 + b / 16);
        if |bytes| == 2 {
          UrlLetterIsUrlUnit(b % 16 * 4);
        } else {
          var c := bytes[2] as int;
          UrlLetterIsUrlUnit(b % 16 * 4 + c / 64);
          UrlLetterIsUrlUnit(c % 64);
          UrlSafeUnits(bytes[3..]);
        }
      }
    }
  }

  /** The three string passes of the source give the unpadded URL encoding. */
  lemma EncodeIsUrlSafe(bytes: Bytes)
    ensures EncodeUrlSafe(bytes) == UrlSafe(bytes)
    ensures |EncodeUrlSafe(bytes)| == (4 * |bytes| + 2) / 3
    ensures bytes != [] ==> IsBase64Url(EncodeUrlSafe(bytes))
  {
    hide Btoa, UrlSafe, IsBase64UrlUnit;
    BtoaIsPadded(bytes);
    UrlSafeUnits(bytes);
    UnpaddedEnds(UrlSafe(bytes), PadCount(|bytes|));
  }

  // ----- no two byte strings encode alike

  function LetterValue(c: CodeUnit): Option<int> {
    if 0x41 <= c <= 0x5A then Some(c as int - 0x41)
    else if 0x61 <= c <= 0x7A then Some(c as int - 0x61 + 26)
    else if 0x30 <= c <= 0x39 then Some(c as int - 0x30 + 52)
    else if c == 0x2D then Some(62)
    else if c == 0x5F then Some(63)
    else None
  }

  lemma LetterRoundTrip(v: int)
    requires 0 <= v < 64
    ensures LetterValue(UrlLetter(v)) == Some(v)
  {
  }

  function ValueOr0(c: CodeUnit): (v: int)
    ensures 0 <= v < 64
  {
    var value := LetterValue(c);
    if value.Some? then value.value else 0
  }

  function DecodeUrlSafe(t: Text): Bytes {
    if |t| < 2 then []
    else
      var p, q := ValueOr0(t[0]), ValueOr0(t[1]);
      var a := (p * 4 + q / 16) as Byte;
      if |t| == 2 then [a]
      else
        var r := ValueOr0(t[2]);
        var b := (q % 16 * 16 + r / 4) as Byte;
        if |t| == 3 then [a, b]
        else [a, b, (r % 4 * 64 + ValueOr0(t[3])) as Byte] + DecodeUrlSafe(t[4..])
  }

  /** The six-bit groups of three bytes give the bytes back. */
  lemma GroupsJoin(a: int, b: int, c: int)
    requires 0 <= a < 256 && 0 <= b < 256 && 0 <= c < 256
    ensures a / 4 * 4 + (a % 4 * 16 + b / 16) / 16 == a
    ensures (a % 4 * 16 + b / 16) % 16 * 16 + (b % 16 * 4 + c / 64) / 4 == b
    ensures (b % 16 * 4 + c / 64) % 4 * 64 + c % 64 == c
  {
  }

  lemma ValueOfLetter(v: int)
    requires 0 <= v < 64
    ensures ValueOr0(UrlLetter(v)) == v
  {
    LetterRoundTrip(v);
  }

  lemma DecodeThree(a: Byte, b: Byte, c: Byte, rest: Text)
    ensures var x, y, z := a as int, b as int, c as int;
            DecodeUrlSafe([UrlLetter(x / 4), UrlLetter(x % 4 * 16 + y / 16), UrlLetter(y % 16 * 4 + z / 64), UrlLetter(z % 64)] + rest)
            == [a, b, c] + DecodeUrlSafe(rest)
  {
    hide UrlLetter, ValueOr0;
    var x, y, z := a as int, b as int, c as int;
    GroupsJoin(x, y, z);
    ValueOfLetter(x / 4);
    ValueOfLetter(x % 4 * 16 + y / 16);
    ValueOfLetter(y % 16 * 4 + z / 64);
    ValueOfLetter(z % 64);
    var t := [UrlLetter(x / 4), UrlLetter(x % 4 * 16 + y / 16), UrlLetter(y % 16 * 4 + z / 64), UrlLetter(z % 64)] + rest;
    assert t[4..] == rest;
  }

  lemma DecodeTwo(a: Byte, b: Byte)
    ensures DecodeUrlSafe([UrlLetter(a as int / 4), UrlLetter(a as int % 4 * 16 + b as int / 16), UrlLetter(b as int % 16 * 4)]) == [a, b]
  {
    hide UrlLetter, ValueOr0;
    var x, y := a as int, b as int;
    GroupsJoin(x, y, 0);
    ValueOfLetter(x / 4);
    ValueOfLetter(x % 4 * 16 + y / 16);
    ValueOfLetter(y % 16 * 4);
  }

  lemma DecodeOne(a: Byte)
    ensures DecodeUrlSafe([UrlLetter(a as int / 4), UrlLetter(a as int % 4 * 16)]) == [a]
  {
    hide UrlLetter, ValueOr0;
    GroupsJoin(a as int, 0, 0);
    ValueOfLetter(a as int / 4);
    ValueOfLetter(a as int % 4 * 16);
  }

  lemma DecodeNothing()
    ensures DecodeUrlSafe([]) == []
  {
  }

  lemma {:induction false} UrlSafeRoundTrip(bytes: Bytes)
    ensures DecodeUrlSafe(UrlSafe(bytes)) == bytes
    decreases |bytes|
  {
    hide UrlLetter, DecodeUrlSafe;
    if bytes == [] {
      DecodeNothing();
    } else if |bytes| == 1 {
      DecodeOne(bytes[0]);
    } else if |bytes| == 2 {
      DecodeTwo(bytes[0], bytes[1]);
    } else {
      UrlSafeRoundTrip(bytes[3..]);
      DecodeThree(bytes[0], bytes[1], bytes[2], UrlSafe(bytes[3..]));
      assert bytes == [bytes[0], bytes[1], bytes[2]] + bytes[3..];
    }
  }

  /** Different bytes give different texts. */
  lemma EncodeIsInjective(a: Bytes, b: Bytes)
    ensures EncodeUrlSafe(a) == EncodeUrlSafe(b) <==> a == b
  {
    hide UrlSafe, DecodeUrlSafe;
    EncodeIsUrlSafe(a);
    EncodeIsUrlSafe(b);
    UrlSafeRoundTrip(a);
    UrlSafeRoundTrip(b);
  }

  // ----- comparing without an early exit

  /** `^` and `|` on non-negative numbers below 2^31, where 32-bit arithmetic agrees. */
  function Xor(a: nat, b: nat): nat {
    if a == 0 && b == 0 then 0 else (a + b) % 2 + 2 * Xor(a / 2, b / 2)
  }

  function Or(a: nat, b: nat): nat {
    if a == 0 && b == 0 then 0 else (if a % 2 == 1 || b % 2 == 1 then 1 else 0) + 2 * Or(a / 2, b / 2)
  }

  lemma {:induction false} XorIsZero(a: nat, b: nat)
    ensures Xor(a, b) == 0 <==> a == b
    decreases a + b
  {
    if a != 0 || b != 0 {
      XorIsZero(a / 2, b / 2);
    }
  }

  lemma {:induction false} OrIsZero(a: nat, b: nat)
    ensures Or(a, b) == 0 <==> a == 0 && b == 0
    decreases a + b
  {
    if a != 0 || b != 0 {
      OrIsZero(a / 2, b / 2);
    }
  }

  /** `text.charCodeAt(index) || 0` */
  function UnitAt(t: Text, index: nat): nat {
    if index < |t| then t[index] as nat else 0
  }

  /** The loop always runs over the longer text, and answers exactly whether the texts are equal. */
  method ConstantTimeEqual(left: Text, right: Text) returns (equal: bool)
    ensures equal <==> left == right
  {
    hide Xor, Or;
    var length := if |left| > |right| then |left| else |right|;
    var difference := Xor(|left|, |right|);
    XorIsZero(|left|, |right|);
    for index := 0 to length
      invariant difference == 0 <==> |left| == |right| && forall k | 0 <= k < index :: UnitAt(left, k) == UnitAt(right, k)
    {
      var unlike := Xor(UnitAt(left, index), UnitAt(right, index));
      XorIsZero(UnitAt(left, index), UnitAt(right, index));
      OrIsZero(difference, unlike);
      difference := Or(difference, unlike);
    }
    equal := difference == 0;
    if equal {
      forall k | 0 <= k < |left|
        ensures left[k] == right[k]
      {
        assert UnitAt(left, k) == UnitAt(right, k);
      }
    }
  }
}
