/** JavaScript strings: sequences of UTF-16 code units, lone surrogates included. */
module CodeUnits {

  newtype CodeUnit = u: int | 0 <= u < 0x1_0000

  type Text = seq<CodeUnit>

  datatype Option<+T> = None | Some(value: T)

  /** The code units of an ASCII literal. */
  function Ascii(s: string): (t: Text)
    requires forall c | c in s :: c as int < 128
  {
    seq(|s|, i requires 0 <= i < |s| => (assert s[i] in s; s[i] as int as CodeUnit))
  }

  /** `t` stands in `body` at index `i`. */
  predicate At(body: Text, i: nat, t: Text) {
    i + |t| <= |body| && body[i..i + |t|] == t
  }

  lemma AtSplit(body: Text, i: nat, a: Text, b: Text)
    requires At(body, i, a + b)
    ensures At(body, i, a) && At(body, i + |a|, b)
    ensures i + |a| + |b| <= |body|
  {
    var whole := body[i..i + |a + b|];
    assert body[i..i + |a|] == whole[..|a|] == a;
    assert body[i + |a|..i + |a| + |b|] == whole[|a|..] == b;
  }

  lemma AtJoin(body: Text, i: nat, a: Text, b: Text)
    requires At(body, i, a) && At(body, i + |a|, b)
    ensures At(body, i, a + b)
    ensures i + |a| + |b| <= |body|
  {
    assert body[i..i + |a + b|] == body[i..i + |a|] + body[i + |a|..i + |a| + |b|];
  }

  lemma AtSlice(body: Text, i: nat, j: nat)
    requires i <= j <= |body|
    ensures At(body, i, body[i..j])
  {
  }

  lemma AtOne(body: Text, i: nat)
    requires i < |body|
    ensures At(body, i, [body[i]])
  {
    assert body[i..i + 1] == [body[i]];
  }

  lemma AtPrefix(body: Text, i: nat, t: Text, k: nat)
    requires At(body, i, t) && k <= |t|
    ensures i + |t| <= |body| && body[i..i + k] == t[..k]
  {
    assert body[i..i + |t|][..k] == body[i..i + k];
  }

  lemma AtDrop(body: Text, i: nat, t: Text, k: nat)
    requires At(body, i, t) && k <= |t|
    ensures At(body, i + k, t[k..])
  {
    assert body[i..i + |t|][k..] == body[i + k..i + |t|];
  }

  lemma AtText(body: Text, i: nat, t: Text)
    requires At(body, i, t)
    ensures i + |t| <= |body| && body[i..i + |t|] == t
  {
  }

  lemma AtUnit(body: Text, i: nat, t: Text, k: nat)
    requires At(body, i, t) && k < |t|
    ensures i + |t| <= |body| && body[i + k] == t[k]
  {
    assert body[i..i + |t|][k] == t[k];
  }

  lemma TakeSlice(text: Text, n: nat, j: nat, m: nat)
    requires j + m <= n <= |text|
    ensures text[..n][j..j + m] == text[j..j + m]
  {
    var a, b := text[..n][j..j + m], text[j..j + m];
    assert forall k | 0 <= k < m :: a[k] == text[j + k] == b[k];
  }

  lemma AtFront(a: Text, rest: Text, i: nat, t: Text)
    requires At(a + rest, i, t) && i + |t| <= |a|
    ensures At(a, i, t)
  {
    TakeSlice(a + rest, |a|, i, |t|);
    assert (a + rest)[..|a|] == a;
  }

  lemma AtBack(a: Text, rest: Text, i: nat, t: Text)
    requires At(a + rest, i, t) && |a| <= i
    ensures At(rest, i - |a|, t)
  {
    var j := i - |a|;
    var part := rest[j..j + |t|];
    AtText(a + rest, i, t);
    assert forall k | 0 <= k < |t| :: part[k] == t[k];
  }

  /** The ECMAScript WhiteSpace and LineTerminator units: what `trim` removes and `\s` matches. */
  predicate IsJsSpace(c: CodeUnit) {
    || 0x09 <= c <= 0x0D || c == 0x20 || c == 0xA0 || c == 0x1680 || 0x2000 <= c <= 0x200A
    || c == 0x2028 || c == 0x2029 || c == 0x202F || c == 0x205F || c == 0x3000 || c == 0xFEFF
  }

  // ----- the code unit order of strings: `<` on two strings, and the default sort

  predicate Less(a: Text, b: Text) {
    if b == [] then false
    else if a == [] then true
    else if a[0] != b[0] then a[0] < b[0]
    else Less(a[1..], b[1..])
  }

  lemma {:induction false} LessIrreflexive(a: Text)
    ensures !Less(a, a)
  {
    if a != [] {
      LessIrreflexive(a[1..]);
    }
  }

  lemma {:induction false} LessTransitive(a: Text, b: Text, c: Text)
    requires Less(a, b) && Less(b, c)
    ensures Less(a, c)
  {
    if a != [] && a[0] == b[0] == c[0] {
      LessTransitive(a[1..], b[1..], c[1..]);
    }
  }

  lemma {:induction false} LessTotal(a: Text, b: Text)
    ensures a == b || Less(a, b) || Less(b, a)
  {
    if a != [] && b != [] && a[0] == b[0] {
      LessTotal(a[1..], b[1..]);
      assert a == [a[0]] + a[1..] && b == [b[0]] + b[1..];
    }
  }

  /** `a` is smaller at `k`, where the two first differ. */
  predicate SmallerAt(a: Text, b: Text, k: nat) {
    k < |a| && k < |b| && a[..k] == b[..k] && a[k] < b[k]
  }

  predicate ProperStart(a: Text, b: Text) {
    |a| < |b| && a == b[..|a|]
  }

  /** A text comes before another if and only if it is a proper start of it, or is smaller at the first unit where they differ. */
  lemma {:induction false} LessIs(a: Text, b: Text)
    ensures Less(a, b) <==> ProperStart(a, b) || exists k: nat :: SmallerAt(a, b, k)
    decreases |a|
  {
    hide SmallerAt, ProperStart;
    FirstUnits(a, b);
    if a != [] && b != [] && a[0] == b[0] {
      LessIs(a[1..], b[1..]);
      StartBehind(a, b);
      forall k: nat
        ensures SmallerAt(a, b, k + 1) <==> SmallerAt(a[1..], b[1..], k)
      {
        SmallerBehind(a, b, k);
      }
      if k: nat :| SmallerAt(a, b, k) {
        SmallerBehind(a, b, k - 1);
      }
    }
  }

  lemma FirstUnits(a: Text, b: Text)
    ensures a == [] || b == [] ==> (ProperStart(a, b) <==> a == [] && b != []) && forall k: nat :: !SmallerAt(a, b, k)
    ensures a != [] && b != [] ==> (SmallerAt(a, b, 0) <==> a[0] < b[0])
    ensures a != [] && b != [] && a[0] != b[0] ==> !ProperStart(a, b) && forall k: nat | k > 0 :: !SmallerAt(a, b, k)
  {
    if a != [] && b != [] {
      assert forall k: nat | 0 < k < |a| && k < |b| :: a[..k][0] == a[0] && b[..k][0] == b[0];
      assert |a| <= |b| ==> b[..|a|][0] == b[0];
    }
  }

  lemma StartBehind(a: Text, b: Text)
    requires a != [] && b != [] && a[0] == b[0]
    ensures ProperStart(a, b) <==> ProperStart(a[1..], b[1..])
  {
    assert a == [a[0]] + a[1..];
    assert |a| <= |b| ==> b[..|a|] == [b[0]] + b[1..][..|a| - 1];
  }

  lemma SmallerBehind(a: Text, b: Text, k: nat)
    requires a != [] && b != [] && a[0] == b[0]
    ensures SmallerAt(a, b, k + 1) <==> SmallerAt(a[1..], b[1..], k)
  {
    if k + 1 < |a| && k + 1 < |b| {
      assert a[..k + 1] == [a[0]] + a[1..][..k] && b[..k + 1] == [b[0]] + b[1..][..k];
      assert a[1..][..k] == a[..k + 1][1..] && b[1..][..k] == b[..k + 1][1..];
    }
  }

  // ----- lines, blanks and substrings

  const NEWLINE: CodeUnit := 0x0A

  /** The first newline, or the length. */
  function LineEnd(t: Text): (i: nat)
    ensures i <= |t| && (i < |t| ==> t[i] == NEWLINE)
    ensures forall k | 0 <= k < i :: t[k] != NEWLINE
  {
    if t == [] || t[0] == NEWLINE then 0 else 1 + LineEnd(t[1..])
  }

  /** `text.split('\n')` */
  function Lines(t: Text): (lines: seq<Text>)
    ensures lines != []
  {
    var i := LineEnd(t);
    if i == |t| then [t] else [t[..i]] + Lines(t[i + 1..])
  }

  /** `pieces.join(separator)` */
  function JoinWith(pieces: seq<Text>, separator: Text): Text {
    if pieces == [] then [] else if |pieces| == 1 then pieces[0] else pieces[0] + (separator + JoinWith(pieces[1..], separator))
  }

  function TrimStart(t: Text): Text {
    if t != [] && IsJsSpace(t[0]) then TrimStart(t[1..]) else t
  }

  /** `text.includes(part)` */
  predicate Includes(text: Text, part: Text) {
    exists i: nat | i <= |text| :: At(text, i, part)
  }

  lemma IncludesAround(a: Text, b: Text, c: Text, part: Text)
    requires Includes(b, part)
    ensures Includes(a + b + c, part)
  {
    var i: nat :| i <= |b| && At(b, i, part);
    assert (a + b + c)[|a| + i..|a| + i + |part|] == b[i..i + |part|];
    assert At(a + b + c, |a| + i, part);
  }

  // ----- sequences and numbers

  lemma Grouped<T>(a: seq<T>, b: seq<T>, c: seq<T>)
    ensures a + (b + c) == (a + b) + c
  {
  }

  lemma PrefixSnoc<T>(s: seq<T>, i: nat)
    requires i < |s|
    ensures s[..i + 1] == s[..i] + [s[i]] && s[..i + 1][..i] == s[..i]
    ensures s[i..][0] == s[i] && s[i..][1..] == s[i + 1..]
  {
  }

  lemma TakeDrop<T>(s: seq<T>, n: nat)
    requires n <= |s|
    ensures s == s[..n] + s[n..]
  {
  }

  function Min(a: nat, b: nat): nat {
    if a < b then a else b
  }
}
