/** The reference encoding, bit by bit: section 5 of RFC 4648 as a stream of six-bit groups. */
module Base64Bits {
  import opened CodeUnits
  import opened Base64Url

  const CAPITALS := Ascii("ABCDEFGHIJKLMNOPQRSTUVWXYZ")
  const SMALLS := Ascii("abcdefghijklmnopqrstuvwxyz")
  const DIGITS := Ascii("0123456789")
  const URL_ALPHABET := CAPITALS + SMALLS + DIGITS + Ascii("-_")

  /** Bit `n` of a byte, from the highest. */
  function BitOf(b: int, n: nat): (v: int)
    requires n < 8
  {
    match n
    case 0 => b / 128 % 2
    case 1 => b / 64 % 2
    case 2 => b / 32 % 2
    case 3 => b / 16 % 2
    case 4 => b / 8 % 2
    case 5 => b / 4 % 2
    case 6 => b / 2 % 2
    case _ => b % 2
  }

  /** Bit `i` of the bytes, zeros behind their end. */
  function Bit(bytes: Bytes, i: nat): int {
    if i / 8 < |bytes| then BitOf(bytes[i / 8] as int, i % 8) else 0
  }

  /** The six bits from `i` on, as a number. */
  function Six(bytes: Bytes, i: nat): int {
    32 * Bit(bytes, i) + 16 * Bit(bytes, i + 1) + 8 * Bit(bytes, i + 2) + 4 * Bit(bytes, i + 3) + 2 * Bit(bytes, i + 4) + Bit(bytes, i + 5)
  }

  lemma AreCapitals()
    ensures |CAPITALS| == 26 && forall v | 0 <= v < 26 :: CAPITALS[v] as int == 0x41 + v
  {
  }

  lemma AreSmalls()
    ensures |SMALLS| == 26 && forall v | 0 <= v < 26 :: SMALLS[v] as int == 0x61 + v
  {
  }

  lemma AreDigits()
    ensures |DIGITS| == 10 && forall v | 0 <= v < 10 :: DIGITS[v] as int == 0x30 + v
    ensures Ascii("-_") == [0x2D, 0x5F]
  {
  }

  lemma Alphabet()
    ensures |URL_ALPHABET| == 64
    ensures forall v | 0 <= v < 26 :: URL_ALPHABET[v] as int == 0x41 + v
    ensures forall v | 26 <= v < 52 :: URL_ALPHABET[v] as int == 0x61 + (v - 26)
    ensures forall v | 52 <= v < 62 :: URL_ALPHABET[v] as int == 0x30 + (v - 52)
    ensures URL_ALPHABET[62] == 0x2D && URL_ALPHABET[63] == 0x5F
  {
    hide Ascii;
    AreCapitals();
    AreSmalls();
    AreDigits();
  }

  lemma LetterIs(v: int)
    requires 0 <= v < 64
    ensures |URL_ALPHABET| == 64 && UrlLetter(v) == URL_ALPHABET[v]
  {
    hide Ascii;
    Alphabet();
  }

  lemma BitIsBit(b: int, n: nat)
    requires n < 8
    ensures 0 <= BitOf(b, n) <= 1
  {
  }

  lemma SixFits(bytes: Bytes, i: nat)
    ensures 0 <= Six(bytes, i) < 64
  {
    hide BitOf;
    forall b: int, n: nat | n < 8
      ensures 0 <= BitOf(b, n) <= 1
    {
      BitIsBit(b, n);
    }
  }

  lemma UpperHalves(a: int)
    requires 0 <= a < 256
    ensures a / 128 == BitOf(a, 0) && a / 64 == 2 * (a / 128) + BitOf(a, 1)
  {
  }

  lemma MiddleHalves(a: int)
    ensures a / 32 == 2 * (a / 64) + BitOf(a, 2) && a / 16 == 2 * (a / 32) + BitOf(a, 3)
  {
  }

  lemma LowerHalves(a: int)
    ensures a / 8 == 2 * (a / 16) + BitOf(a, 4) && a / 4 == 2 * (a / 8) + BitOf(a, 5)
  {
  }

  lemma LastHalves(a: int)
    ensures a / 2 == 2 * (a / 4) + BitOf(a, 6) && a == 2 * (a / 2) + BitOf(a, 7)
  {
  }

  lemma Rests(a: int)
    requires 0 <= a < 256
    ensures a == 4 * (a / 4) + a % 4 && a == 16 * (a / 16) + a % 16 && a == 64 * (a / 64) + a % 64
  {
  }

  lemma BitOfByte(bytes: Bytes, k: nat, n: nat)
    requires k < |bytes| && n < 8
    ensures Bit(bytes, 8 * k + n) == BitOf(bytes[k] as int, n)
  {
    hide BitOf;
    assert (8 * k + n) / 8 == k && (8 * k + n) % 8 == n;
  }

  lemma NoBits(bytes: Bytes, i: nat)
    requires i >= 8 * |bytes|
    ensures Bit(bytes, i) == 0
  {
  }

  lemma BitsBehind(bytes: Bytes, i: nat)
    requires |bytes| >= 3
    ensures Bit(bytes, i + 24) == Bit(bytes[3..], i)
  {
    hide BitOf;
    assert (i + 24) / 8 == i / 8 + 3 && (i + 24) % 8 == i % 8;
  }

  lemma SixBehind(bytes: Bytes, i: nat)
    requires |bytes| >= 3
    ensures Six(bytes, i + 24) == Six(bytes[3..], i)
  {
    hide Bit;
    BitsBehind(bytes, i);
    BitsBehind(bytes, i + 1);
    BitsBehind(bytes, i + 2);
    BitsBehind(bytes, i + 3);
    BitsBehind(bytes, i + 4);
    BitsBehind(bytes, i + 5);
  }

  lemma FirstSix(bytes: Bytes)
    requires bytes != []
    ensures Six(bytes, 0) == bytes[0] as int / 4
    ensures Six(bytes, 6) == bytes[0] as int % 4 * 16 + (if |bytes| > 1 then bytes[1] as int / 16 else 0)
  {
    hide Bit, BitOf;
    ByteAt(bytes, 0);
    ByteAt(bytes, 1);
  }

  lemma LaterSix(bytes: Bytes)
    requires |bytes| > 1
    ensures Six(bytes, 12) == bytes[1] as int % 16 * 4 + (if |bytes| > 2 then bytes[2] as int / 64 else 0)
    ensures |bytes| > 2 ==> Six(bytes, 18) == bytes[2] as int % 64
  {
    hide Bit, BitOf;
    ByteAt(bytes, 1);
    ByteAt(bytes, 2);
  }

  /** What the bits of byte `k`, or of the zeros behind the end, add up to. */
  lemma ByteAt(bytes: Bytes, k: nat)
    ensures var i := 8 * k;
            if k < |bytes| then
              var b := bytes[k] as int;
              && b / 4 == 32 * Bit(bytes, i) + 16 * Bit(bytes, i + 1) + 8 * Bit(bytes, i + 2) + 4 * Bit(bytes, i + 3) + 2 * Bit(bytes, i + 4) + Bit(bytes, i + 5)
              && b % 4 == 2 * Bit(bytes, i + 6) + Bit(bytes, i + 7)
              && b / 16 == 8 * Bit(bytes, i) + 4 * Bit(bytes, i + 1) + 2 * Bit(bytes, i + 2) + Bit(bytes, i + 3)
              && b % 16 == 8 * Bit(bytes, i + 4) + 4 * Bit(bytes, i + 5) + 2 * Bit(bytes, i + 6) + Bit(bytes, i + 7)
              && b / 64 == 2 * Bit(bytes, i) + Bit(bytes, i + 1)
              && b % 64 == 32 * Bit(bytes, i + 2) + 16 * Bit(bytes, i + 3) + 8 * Bit(bytes, i + 4) + 4 * Bit(bytes, i + 5) + 2 * Bit(bytes, i + 6) + Bit(bytes, i + 7)
            else Bit(bytes, i) == 0 && Bit(bytes, i + 1) == 0 && Bit(bytes, i + 2) == 0 && Bit(bytes, i + 3) == 0
  {
    hide Bit, BitOf;
    if k < |bytes| {
      UpperHalves(bytes[k] as int);
      MiddleHalves(bytes[k] as int);
      LowerHalves(bytes[k] as int);
      LastHalves(bytes[k] as int);
      Rests(bytes[k] as int);
      BitOfByte(bytes, k, 0);
      BitOfByte(bytes, k, 1);
      BitOfByte(bytes, k, 2);
      BitOfByte(bytes, k, 3);
      BitOfByte(bytes, k, 4);
      BitOfByte(bytes, k, 5);
      BitOfByte(bytes, k, 6);
      BitOfByte(bytes, k, 7);
    } else {
      NoBits(bytes, 8 * k);
      NoBits(bytes, 8 * k + 1);
      NoBits(bytes, 8 * k + 2);
      NoBits(bytes, 8 * k + 3);
    }
  }

  /** How many letters so many bytes take. */
  function LetterCount(n: nat): nat {
    (8 * n + 5) / 6
  }

  /** Letter `k` is the letter of bits `6 k` to `6 k + 5`. */
  predicate IsLetterOf(bytes: Bytes, k: nat, c: CodeUnit) {
    0 <= Six(bytes, 6 * k) < |URL_ALPHABET| && c == URL_ALPHABET[Six(bytes, 6 * k)]
  }

  /** Every letter of the encoding is the letter of its six bits, and there are as many letters as begun groups of six bits. */
  lemma {:induction false} EncodingIsBits(bytes: Bytes)
    ensures |UrlSafe(bytes)| == LetterCount(|bytes|)
    ensures forall k: nat | k < |UrlSafe(bytes)| :: IsLetterOf(bytes, k, UrlSafe(bytes)[k])
    decreases |bytes|
  {
    hide IsLetterOf, UrlLetter, Ascii;
    if bytes != [] {
      FirstLetters(bytes);
      if |bytes| > 2 {
        EncodingIsBits(bytes[3..]);
        forall k: nat | 4 <= k < |UrlSafe(bytes)|
          ensures IsLetterOf(bytes, k, UrlSafe(bytes)[k])
        {
          LetterBehind(bytes, k, UrlSafe(bytes)[k]);
          assert UrlSafe(bytes)[k] == UrlSafe(bytes[3..])[k - 4];
        }
      }
    }
  }

  lemma LetterBehind(bytes: Bytes, k: nat, c: CodeUnit)
    requires |bytes| >= 3 && k >= 4
    ensures IsLetterOf(bytes, k, c) <==> IsLetterOf(bytes[3..], k - 4, c)
  {
    hide Six, Ascii;
    SixBehind(bytes, 6 * (k - 4));
    assert 6 * (k - 4) + 24 == 6 * k;
  }

  lemma FirstLetters(bytes: Bytes)
    requires bytes != []
    ensures IsLetterOf(bytes, 0, UrlLetter(bytes[0] as int / 4))
    ensures IsLetterOf(bytes, 1, UrlLetter(bytes[0] as int % 4 * 16 + (if |bytes| > 1 then bytes[1] as int / 16 else 0)))
    ensures |bytes| > 1 ==> IsLetterOf(bytes, 2, UrlLetter(bytes[1] as int % 16 * 4 + (if |bytes| > 2 then bytes[2] as int / 64 else 0)))
    ensures |bytes| > 2 ==> IsLetterOf(bytes, 3, UrlLetter(bytes[2] as int % 64))
  {
    hide Six, UrlLetter, Ascii;
    FirstSix(bytes);
    LetterIs(Six(bytes, 0));
    LetterIs(Six(bytes, 6));
    if |bytes| > 1 {
      LaterSix(bytes);
      SixFits(bytes, 12);
      LetterIs(Six(bytes, 12));
    }
    if |bytes| > 2 {
      SixFits(bytes, 18);
      LetterIs(Six(bytes, 18));
    }
  }
}
