/** Secrets are replaced one after another, and only then is the evidence cut to length. */
module SecretRedaction {
  import opened CodeUnits

  const OPEN: CodeUnit := 0x5B
  const CLOSE: CodeUnit := 0x5D
  const PLACEHOLDER := Ascii("[redacted]")

  // ----- split and join

  /** The first index of `part` in `text` from `i` on, or a value past the end. */
  function IndexOf(text: Text, part: Text, i: nat): (k: nat)
    requires i <= |text| + 1
    ensures i <= k <= |text| + 1
    ensures k <= |text| ==> At(text, k, part)
    ensures forall j: nat | i <= j < k && j <= |text| :: !At(text, j, part)
    decreases |text| + 1 - i
  {
    if i > |text| || At(text, i, part) then i else IndexOf(text, part, i + 1)
  }

  /** `text.split(secret)` */
  function Split(text: Text, secret: Text): (pieces: seq<Text>)
    requires secret != []
    ensures pieces != []
    decreases |text|
  {
    var k := IndexOf(text, secret, 0);
    if k > |text| then [text] else [text[..k]] + Split(text[k + |secret|..], secret)
  }

  /** `pieces.join('[redacted]')` */
  function Join(pieces: seq<Text>): Text {
    if pieces == [] then [] else if |pieces| == 1 then pieces[0] else pieces[0] + (PLACEHOLDER + Join(pieces[1..]))
  }

  /** Empty secrets are skipped. */
  function Redact(text: Text, secrets: seq<Text>): Text
    decreases secrets
  {
    if secrets == [] then text
    else Redact(if secrets[0] == [] then text else Join(Split(text, secrets[0])), secrets[1..])
  }

  method RedactSecrets(text: Text, secrets: seq<Text>) returns (redacted: Text)
    ensures redacted == Redact(text, secrets)
  {
    hide Join, Split, Ascii;
    redacted := text;
    for i := 0 to |secrets|
      invariant Redact(redacted, secrets[i..]) == Redact(text, secrets)
    {
      assert secrets[i..][1..] == secrets[i + 1..] && secrets[i..][0] == secrets[i];
      if secrets[i] != [] {
        redacted := Join(Split(redacted, secrets[i]));
      }
    }
  }

  // ----- where an occurrence can lie

  /** The last `k` units of the text are the first `k` of the placeholder. */
  predicate EndMeets(t: Text, k: nat) {
    0 < k <= |t| && k <= |PLACEHOLDER| && t[|t| - k..] == PLACEHOLDER[..k]
  }

  /** The first `k` units of the text are the last `k` of the placeholder. */
  predicate StartMeets(t: Text, k: nat) {
    0 < k <= |t| && k <= |PLACEHOLDER| && t[..k] == PLACEHOLDER[|PLACEHOLDER| - k..]
  }

  /** The text and the placeholder cannot touch: neither holds the other, and they meet at no end. */
  predicate IsApart(t: Text) {
    && !Includes(PLACEHOLDER, t) && !Includes(t, PLACEHOLDER)
    && (forall k: nat | k <= |t| :: !EndMeets(t, k) && !StartMeets(t, k))
  }

  /** An occurrence around a placeholder lies before it, behind it, in it, around it or across one of its ends. */
  lemma AroundPlaceholder(a: Text, c: Text, part: Text, i: nat)
    requires At(a + (PLACEHOLDER + c), i, part) && part != []
    ensures var n, p := |a|, |PLACEHOLDER|;
            || (i + |part| <= n && At(a, i, part))
            || (n + p <= i && At(c, i - n - p, part))
            || Includes(PLACEHOLDER, part)
            || Includes(part, PLACEHOLDER)
            || (i < n < i + |part| && EndMeets(part, i + |part| - n) && At(a, i, part[..n - i]))
            || (n <= i < n + p < i + |part| && StartMeets(part, n + p - i))
  {
    hide Ascii;
    if i < |a| {
      StartsBefore(a, PLACEHOLDER, c, part, i);
    } else {
      StartsIn(a, PLACEHOLDER, c, part, i);
    }
  }

  lemma SliceOfSlice(text: Text, i: nat, e: nat, j: nat, n: nat)
    requires i <= e <= |text| && j + n <= e - i
    ensures text[i..e][j..j + n] == text[i + j..i + j + n]
  {
    var a, b := text[i..e][j..j + n], text[i + j..i + j + n];
    assert forall k | 0 <= k < n :: a[k] == text[i + j + k] == b[k];
  }

  lemma StartsBefore(a: Text, middle: Text, c: Text, part: Text, i: nat)
    requires At(a + (middle + c), i, part) && i < |a|
    ensures var n, p := |a|, |middle|;
            || (i + |part| <= n && At(a, i, part))
            || Includes(part, middle)
            || (n < i + |part| < n + p && part[n - i..] == middle[..i + |part| - n] && At(a, i, part[..n - i]))
  {
    var t, n, p, end := a + (middle + c), |a|, |middle|, i + |part|;
    assert t[i..end] == part && t[n..n + p] == middle;
    if end <= n {
      AtFront(a, middle + c, i, part);
    } else {
      SliceOfSlice(t, i, end, 0, n - i);
      TakeSlice(t, n, i, n - i);
      assert t[..n] == a;
      if n + p <= end {
        SliceOfSlice(t, i, end, n - i, p);
        assert At(part, n - i, middle);
      } else {
        SliceOfSlice(t, i, end, n - i, end - n);
        SliceOfSlice(t, n, n + p, 0, end - n);
      }
    }
  }

  lemma StartsIn(a: Text, middle: Text, c: Text, part: Text, i: nat)
    requires At(a + (middle + c), i, part) && |a| <= i
    ensures var n, p := |a|, |middle|;
            || (n + p <= i && At(c, i - n - p, part))
            || Includes(middle, part)
            || (i < n + p < i + |part| && part[..n + p - i] == middle[i - n..])
  {
    var t, n, p, end := a + (middle + c), |a|, |middle|, i + |part|;
    assert t[i..end] == part && t[n..n + p] == middle;
    if n + p <= i {
      assert c[i - n - p..end - n - p] == t[i..end];
    } else if end <= n + p {
      SliceOfSlice(t, n, n + p, i - n, |part|);
      assert At(middle, i - n, part);
    } else {
      SliceOfSlice(t, i, end, 0, n + p - i);
      SliceOfSlice(t, n, n + p, i - n, n + p - i);
    }
  }

  /** Text put together from pieces and placeholders holds a part that is apart only where a piece does. */
  lemma {:induction false} JoinedParts(pieces: seq<Text>, part: Text)
    requires pieces != [] && IsApart(part) && Includes(Join(pieces), part)
    ensures exists k :: 0 <= k < |pieces| && Includes(pieces[k], part)
    decreases |pieces|
  {
    hide Ascii, At, EndMeets, StartMeets;
    PartIsNotEmpty(part);
    if |pieces| == 1 {
      assert Includes(pieces[0], part);
    } else {
      var rest := Join(pieces[1..]);
      var i: nat :| i <= |Join(pieces)| && At(Join(pieces), i, part);
      AroundPlaceholder(pieces[0], rest, part, i);
      var j := i - |pieces[0]| - |PLACEHOLDER|;
      AtBounds(pieces[0], i, part);
      AtBounds(rest, j, part);
      if At(pieces[0], i, part) {
        assert Includes(pieces[0], part);
      } else {
        assert j >= 0 && At(rest, j, part);
        assert Includes(rest, part);
        JoinedParts(pieces[1..], part);
        var k :| 0 <= k < |pieces[1..]| && Includes(pieces[1..][k], part);
        assert Includes(pieces[k + 1], part);
      }
    }
  }

  lemma AtBounds(t: Text, i: int, part: Text)
    ensures i >= 0 && At(t, i, part) ==> i + |part| <= |t|
  {
  }

  lemma PartIsNotEmpty(part: Text)
    requires !Includes(PLACEHOLDER, part)
    ensures part != []
  {
    if part == [] {
      assert PLACEHOLDER[0..0] == [];
      assert At(PLACEHOLDER, 0, part);
    }
  }

  lemma IncludesSlice(text: Text, i: nat, j: nat, part: Text)
    requires i <= j <= |text| && Includes(text[i..j], part)
    ensures Includes(text, part)
  {
    IncludesAround(text[..i], text[i..j], text[j..], part);
    assert text[..i] + text[i..j] + text[j..] == text;
  }

  /** A piece holds nothing the text did not hold, and never the secret it was split at. */
  lemma {:induction false} SplitParts(text: Text, secret: Text, k: nat)
    requires secret != [] && k < |Split(text, secret)|
    ensures !Includes(Split(text, secret)[k], secret)
    ensures forall part | Includes(Split(text, secret)[k], part) :: Includes(text, part)
    decreases |text|
  {
    hide Includes, IndexOf;
    var n := IndexOf(text, secret, 0);
    if n > |text| {
      NotIncluded(text, secret);
    } else if k == 0 {
      NotBefore(text, secret, n);
      forall part | Includes(text[..n], part)
        ensures Includes(text, part)
      {
        assert text[..n] == text[0..n];
        IncludesSlice(text, 0, n, part);
      }
    } else {
      var rest := text[n + |secret|..];
      SplitParts(rest, secret, k - 1);
      forall part | Includes(Split(rest, secret)[k - 1], part)
        ensures Includes(text, part)
      {
        assert rest == text[n + |secret|..|text|];
        IncludesSlice(text, n + |secret|, |text|, part);
      }
    }
  }

  lemma NotIncluded(text: Text, secret: Text)
    requires IndexOf(text, secret, 0) > |text|
    ensures !Includes(text, secret)
  {
  }

  lemma NotBefore(text: Text, secret: Text, n: nat)
    requires secret != [] && n == IndexOf(text, secret, 0) <= |text|
    ensures !Includes(text[..n], secret)
  {
    forall j: nat | j <= n
      ensures !At(text[..n], j, secret)
    {
      if j + |secret| <= n {
        TakeSlice(text, n, j, |secret|);
        assert !At(text, j, secret);
      }
    }
  }

  /** One replacement removes its secret, and brings no part that is apart and that the text did not hold. */
  lemma ReplacementIsSafe(text: Text, secret: Text, part: Text)
    requires secret != [] && IsApart(part)
    requires part == secret || !Includes(text, part)
    ensures !Includes(Join(Split(text, secret)), part)
  {
    hide Includes, Ascii, Join, Split, IsApart;
    var pieces := Split(text, secret);
    if Includes(Join(pieces), part) {
      JoinedParts(pieces, part);
      var k :| 0 <= k < |pieces| && Includes(pieces[k], part);
      SplitParts(text, secret, k);
    }
  }

  // ----- the whole redaction

  ghost predicate Leaves(text: Text, secrets: seq<Text>) {
    exists s :: s in secrets && s != [] && Includes(text, s)
  }

  lemma {:induction false} RedactKeepsOut(text: Text, secrets: seq<Text>, part: Text)
    requires IsApart(part)
    requires part in secrets || !Includes(text, part)
    ensures !Includes(Redact(text, secrets), part)
    decreases secrets
  {
    hide Includes, Ascii, Join, Split, IsApart;
    if secrets != [] {
      var next := if secrets[0] == [] then text else Join(Split(text, secrets[0]));
      if secrets[0] != [] && (part == secrets[0] || !Includes(text, part)) {
        ReplacementIsSafe(text, secrets[0], part);
      }
      ApartIsNotEmpty(part);
      RedactKeepsOut(next, secrets[1..], part);
    }
  }

  lemma ApartIsNotEmpty(part: Text)
    requires IsApart(part)
    ensures part != []
  {
    hide Includes;
    PartIsNotEmpty(part);
  }

  /** Replacing at an occurrence writes a placeholder. */
  lemma ReplacementShows(text: Text, secret: Text, part: Text)
    requires secret != [] && Includes(PLACEHOLDER, part) && Includes(text, part)
    ensures Includes(Join(Split(text, secret)), part)
  {
    hide Includes, Ascii;
    var k := IndexOf(text, secret, 0);
    var pieces := Split(text, secret);
    if k <= |text| {
      var rest := Join(pieces[1..]);
      IncludesAround(pieces[0], PLACEHOLDER, rest, part);
      assert pieces[0] + PLACEHOLDER + rest == Join(pieces);
    }
  }

  lemma {:induction false} RedactShows(text: Text, secrets: seq<Text>, part: Text)
    requires Includes(PLACEHOLDER, part) && Includes(text, part)
    ensures Includes(Redact(text, secrets), part)
    decreases secrets
  {
    hide Includes, Ascii, Join, Split;
    if secrets != [] {
      if secrets[0] != [] {
        ReplacementShows(text, secrets[0], part);
        RedactShows(Join(Split(text, secrets[0])), secrets[1..], part);
      } else {
        RedactShows(text, secrets[1..], part);
      }
    }
  }

  lemma IncludesItself(text: Text)
    ensures Includes(text, text)
  {
    assert At(text, 0, text);
  }

  /**
   Secrets that are apart from the placeholder or parts of it, however they overlap, are all
   gone from every text if and only if all of them are apart.
   */
  lemma RedactionIsCompleteIff(secrets: seq<Text>)
    requires forall s | s in secrets && s != [] :: IsApart(s) || Includes(PLACEHOLDER, s)
    ensures (forall text :: !Leaves(Redact(text, secrets), secrets)) <==> (forall s | s in secrets && s != [] :: IsApart(s))
  {
    hide Includes, Ascii, Redact, IsApart;
    if forall s | s in secrets && s != [] :: IsApart(s) {
      forall text
        ensures !Leaves(Redact(text, secrets), secrets)
      {
        forall s | s in secrets && s != []
          ensures !Includes(Redact(text, secrets), s)
        {
          RedactKeepsOut(text, secrets, s);
        }
      }
    } else {
      var s :| s in secrets && s != [] && !IsApart(s);
      IncludesItself(s);
      RedactShows(s, secrets, s);
      assert Leaves(Redact(s, secrets), secrets);
    }
  }

  predicate IsBracketFree(t: Text) {
    OPEN !in t && CLOSE !in t
  }

  /** A secret without brackets is apart unless it is a part of the placeholder's word. */
  lemma BracketFreeIsApart(t: Text)
    requires t != [] && IsBracketFree(t)
    ensures IsApart(t) <==> !Includes(PLACEHOLDER, t)
  {
    hide Ascii;
    PlaceholderEnds();
    if Includes(t, PLACEHOLDER) {
      var i: nat :| i <= |t| && At(t, i, PLACEHOLDER);
      AtUnit(t, i, PLACEHOLDER, 0);
    }
    forall k: nat | k <= |t|
      ensures !EndMeets(t, k) && !StartMeets(t, k)
    {
      MeetingHasBracket(t, k);
    }
  }

  lemma MeetingHasBracket(t: Text, k: nat)
    ensures EndMeets(t, k) || StartMeets(t, k) ==> OPEN in t || CLOSE in t
  {
    hide Ascii;
    PlaceholderEnds();
    if EndMeets(t, k) {
      assert t[|t| - k] == t[|t| - k..][0] == OPEN;
    } else if StartMeets(t, k) {
      assert t[k - 1] == t[..k][k - 1] == PLACEHOLDER[|PLACEHOLDER| - k..][k - 1];
    }
  }

  lemma PlaceholderEnds()
    ensures |PLACEHOLDER| == 10 && PLACEHOLDER[0] == OPEN && PLACEHOLDER[9] == CLOSE
  {
  }

  // ----- one secret, exactly

  /**
   The end of the secret meets the placeholder, and when the rest of it stands before the
   secret the search does not find an occurrence before that.
   */
  predicate Reforms(secret: Text, k: nat) {
    EndMeets(secret, k) && (var u := secret[..|secret| - k]; IndexOf(u + secret, secret, 0) == |u|)
  }

  predicate NeverReforms(secret: Text) {
    && !Includes(PLACEHOLDER, secret) && !Includes(secret, PLACEHOLDER)
    && (forall k: nat | k <= |secret| :: !StartMeets(secret, k) && !Reforms(secret, k))
  }

  lemma SplitOnce(text: Text, secret: Text, n: nat)
    requires secret != [] && IndexOf(text, secret, 0) == n <= |text|
    ensures n + |secret| <= |text| && text[n..n + |secret|] == secret
    ensures Join(Split(text, secret)) == text[..n] + (PLACEHOLDER + Join(Split(text[n + |secret|..], secret)))
  {
    AtText(text, n, secret);
    SplitCons(text, secret, n);
    hide Ascii, IndexOf, At, Split, Join;
    JoinCons(text[..n], Split(text[n + |secret|..], secret));
  }

  lemma SplitCons(text: Text, secret: Text, n: nat)
    requires secret != [] && IndexOf(text, secret, 0) == n && n + |secret| <= |text|
    ensures Split(text, secret) == [text[..n]] + Split(text[n + |secret|..], secret)
  {
    hide IndexOf, At;
  }

  lemma JoinCons(first: Text, pieces: seq<Text>)
    requires pieces != []
    ensures Join([first] + pieces) == first + (PLACEHOLDER + Join(pieces))
  {
    hide Ascii;
    assert ([first] + pieces)[1..] == pieces;
  }

  lemma {:induction false} OneSecretIsKeptOut(text: Text, secret: Text)
    requires secret != [] && NeverReforms(secret)
    ensures !Includes(Join(Split(text, secret)), secret)
    decreases |text|
  {
    hide Ascii, At, EndMeets, Reforms, StartMeets, Join, Split, IndexOf;
    var n := IndexOf(text, secret, 0);
    if n > |text| {
      NotFound(text, secret);
    } else {
      SplitOnce(text, secret, n);
      var before, rest := text[..n], text[n + |secret|..];
      OneSecretIsKeptOut(rest, secret);
      var after := Join(Split(rest, secret));
      var joined := before + (PLACEHOLDER + after);
      forall i: nat | i <= |joined|
        ensures !At(joined, i, secret)
      {
        NotBefore(text, secret, n);
        NotThere(before, i, secret);
        NotThere(after, i - n - |PLACEHOLDER|, secret);
        NoEarlierMeeting(text, secret, n, i);
        if At(joined, i, secret) {
          AroundPlaceholder(before, after, secret, i);
          assert false;
        }
      }
    }
  }

  lemma NotThere(t: Text, i: int, part: Text)
    requires !Includes(t, part)
    ensures i >= 0 ==> !At(t, i, part)
  {
  }

  lemma NotFound(text: Text, secret: Text)
    requires secret != [] && IndexOf(text, secret, 0) > |text|
    ensures Join(Split(text, secret)) == text && !Includes(text, secret)
  {
    NotIncluded(text, secret);
  }

  lemma AtShift(text: Text, i: nat, t: Text, j: nat, part: Text)
    requires At(text, i, t) && At(t, j, part)
    ensures At(text, i + j, part)
  {
    SliceOfSlice(text, i, i + |t|, j, |part|);
  }

  /** The search would have found the occurrence that a re-formed secret needs in front of it. */
  lemma NoEarlierMeeting(text: Text, secret: Text, n: nat, i: nat)
    requires secret != [] && IndexOf(text, secret, 0) == n <= |text| && NeverReforms(secret)
    ensures i < n < i + |secret| ==> !(EndMeets(secret, i + |secret| - n) && At(text[..n], i, secret[..n - i]))
  {
    hide Ascii, EndMeets, StartMeets, Includes, IndexOf, At;
    if i < n < i + |secret| && EndMeets(secret, i + |secret| - n) && At(text[..n], i, secret[..n - i]) {
      var k := i + |secret| - n;
      var u := secret[..|secret| - k];
      assert !Reforms(secret, k);
      assert u == secret[..n - i] && |u| == n - i;
      AtPrefixOf(text, n, i, u);
      NotBeforeJoined(text, i, u, secret);
      assert false;
    }
  }

  /** When `u` stands right before the first occurrence, nothing is found earlier in the two together. */
  lemma NotBeforeJoined(text: Text, i: nat, u: Text, secret: Text)
    requires i + |u| <= |text| && IndexOf(text, secret, 0) == i + |u| && At(text, i, u)
    ensures IndexOf(u + secret, secret, 0) == |u|
  {
    hide At, IndexOf;
    AtJoin(text, i, u, secret);
    AtItself(u, secret);
    var j := IndexOf(u + secret, secret, 0);
    AtShift(text, i, u + secret, j, secret);
  }

  lemma AtPrefixOf(text: Text, n: nat, i: nat, t: Text)
    requires n <= |text| && At(text[..n], i, t)
    ensures At(text, i, t)
  {
    assert text[..n][i..i + |t|] == text[i..i + |t|];
  }

  lemma AtItself(u: Text, t: Text)
    ensures At(u + t, |u|, t)
  {
  }

  /** A text in which one replacement leaves the secret. */
  lemma Left(text: Text, secret: Text)
    requires secret != [] && Includes(Join(Split(text, secret)), secret)
    ensures Leaves(Redact(text, [secret]), [secret])
  {
    hide Includes, Ascii, Join, Split;
    assert [secret][1..] == [];
    assert Redact(text, [secret]) == Join(Split(text, secret));
    assert secret in [secret];
  }

  /** What stands around the only occurrence stays around the placeholder. */
  lemma OneOccurrence(a: Text, secret: Text, c: Text)
    requires |c| < |secret| && IndexOf(a + secret + c, secret, 0) == |a|
    ensures Join(Split(a + secret + c, secret)) == a + PLACEHOLDER + c
  {
    hide Ascii, Join, Split, IndexOf;
    var text := a + secret + c;
    SplitOnce(text, secret, |a|);
    assert text[..|a|] == a && text[|a| + |secret|..] == c;
    ShortIsKept(c, secret);
    assert a + (PLACEHOLDER + c) == a + PLACEHOLDER + c;
  }

  lemma ShortIsKept(c: Text, secret: Text)
    requires |c| < |secret|
    ensures Join(Split(c, secret)) == c
  {
  }

  lemma EndReforms(secret: Text, k: nat) returns (text: Text)
    requires Reforms(secret, k)
    ensures Includes(Join(Split(text, secret)), secret)
  {
    hide Ascii, Join, Split, IndexOf;
    var u := secret[..|secret| - k];
    text := u + secret;
    assert u + secret + [] == text;
    OneOccurrence(u, secret, []);
    assert u + PLACEHOLDER[..k] == secret;
    assert u + PLACEHOLDER + [] == [] + secret + PLACEHOLDER[k..];
    IncludesItself(secret);
    IncludesAround([], secret, PLACEHOLDER[k..], secret);
  }

  lemma StartReforms(secret: Text, k: nat) returns (text: Text)
    requires StartMeets(secret, k)
    ensures Includes(Join(Split(text, secret)), secret)
  {
    hide Ascii, Join, Split, IndexOf, Includes;
    var rest := secret[k..];
    text := secret + rest;
    assert [] + secret + rest == text;
    assert text[0..|secret|] == secret;
    assert At(text, 0, secret);
    hide At;
    OneOccurrence([], secret, rest);
    MeetsAtStart(secret, k);
  }

  lemma MeetsAtStart(secret: Text, k: nat)
    requires StartMeets(secret, k)
    ensures Includes([] + PLACEHOLDER + secret[k..], secret)
  {
    hide Ascii, Includes;
    var head := PLACEHOLDER[..|PLACEHOLDER| - k];
    assert PLACEHOLDER == head + secret[..k];
    assert secret == secret[..k] + secret[k..];
    assert [] + PLACEHOLDER + secret[k..] == head + secret + [];
    IncludesItself(secret);
    IncludesAround(head, secret, [], secret);
  }

  /** A secret around a placeholder re-forms around the one that replaces it. */
  lemma AroundReforms(secret: Text) returns (text: Text)
    requires Includes(secret, PLACEHOLDER)
    ensures Includes(Join(Split(text, secret)), secret)
  {
    hide Ascii, Join, Split, IndexOf;
    PlaceholderEnds();
    var q := IndexOf(secret, PLACEHOLDER, 0);
    FoundAt(secret, PLACEHOLDER);
    var x, y := secret[..q], secret[q + |PLACEHOLDER|..];
    text := x + secret + y;
    assert text[q..q + |secret|] == secret;
    forall j: nat | j < q
      ensures !At(text, j, secret)
    {
      HeldEarlier(text, secret, q, j);
    }
    assert At(text, q, secret);
    OneOccurrence(x, secret, y);
    assert x + PLACEHOLDER + y == secret;
    IncludesItself(secret);
  }

  /** Two overlapping occurrences put the placeholder earlier into the secret. */
  lemma HeldEarlier(text: Text, secret: Text, q: nat, j: nat)
    requires j < q && At(text, q, secret) && At(secret, q, PLACEHOLDER)
    ensures At(text, j, secret) ==> At(secret, j, PLACEHOLDER)
  {
    AtText(secret, q, PLACEHOLDER);
    hide Ascii, At;
    if At(text, j, secret) {
      AtShift(text, j, secret, q, PLACEHOLDER);
      AtWithin(text, q, secret, j, PLACEHOLDER);
    }
  }

  lemma AtWithin(text: Text, q: nat, secret: Text, j: nat, part: Text)
    requires At(text, q, secret) && At(text, q + j, part) && j + |part| <= |secret|
    ensures At(secret, j, part)
  {
    SliceOfSlice(text, q, q + |secret|, j, |part|);
  }

  lemma FoundAt(text: Text, part: Text)
    requires Includes(text, part)
    ensures var q := IndexOf(text, part, 0); q + |part| <= |text| && text[q..q + |part|] == part
  {
    hide IndexOf;
    var i: nat :| i <= |text| && At(text, i, part);
  }

  /**
   One secret, whatever units it has, is gone from every text if and only if it neither holds
   the placeholder nor lies in it, does not start as the placeholder ends, and whenever it
   ends as the placeholder starts, the search catches the text that would re-form it. For
   instance `x[` re-forms in `xx[`, and `[[` never does.
   */
  lemma OneSecretIsCompleteIff(secret: Text)
    requires secret != []
    ensures (forall text :: !Leaves(Redact(text, [secret]), [secret])) <==> NeverReforms(secret)
  {
    hide Includes, Ascii, Join, Split, IndexOf, EndMeets, StartMeets, Leaves;
    if NeverReforms(secret) {
      forall text
        ensures !Leaves(Redact(text, [secret]), [secret])
      {
        OneSecretIsKeptOut(text, secret);
        NotLeft(text, secret);
      }
    } else {
      var text: Text;
      if Includes(PLACEHOLDER, secret) {
        text := secret;
        IncludesItself(secret);
        ReplacementShows(secret, secret, secret);
      } else if Includes(secret, PLACEHOLDER) {
        text := AroundReforms(secret);
      } else if exists k: nat :: k <= |secret| && StartMeets(secret, k) {
        var k: nat :| k <= |secret| && StartMeets(secret, k);
        text := StartReforms(secret, k);
      } else {
        var k: nat :| k <= |secret| && Reforms(secret, k);
        text := EndReforms(secret, k);
      }
      Left(text, secret);
    }
  }

  /** `x[` re-forms; `[[` touches the placeholder too, but the search always takes it first. */
  lemma BracketsCanReform()
    ensures Reforms([0x78, OPEN], 1) && !NeverReforms([0x78, OPEN])
    ensures EndMeets([OPEN, OPEN], 1) && NeverReforms([OPEN, OPEN])
  {
    hide Ascii;
    PlaceholderEnds();
    var one: Text := [0x78, OPEN];
    assert one[1..] == [OPEN] == PLACEHOLDER[..1] && one[..1] == [0x78];
    var text: Text := [0x78, 0x78, OPEN];
    assert [0x78] + one == text;
    assert text[0..2] == [0x78, 0x78] && text[1..3] == one;
    assert !At(text, 0, one) && At(text, 1, one);
    DoubleNeverReforms();
  }

  lemma DoubleNeverReforms()
    ensures EndMeets([OPEN, OPEN], 1) && NeverReforms([OPEN, OPEN])
  {
    hide Ascii;
    PlaceholderEnds();
    PlaceholderOpensOnce();
    var two: Text := [OPEN, OPEN];
    assert two[1..] == [OPEN] == PLACEHOLDER[..1];
    forall i: nat | i <= |PLACEHOLDER|
      ensures !At(PLACEHOLDER, i, two)
    {
      SecondUnit(i, two);
    }
    assert two[..1][0] == OPEN && PLACEHOLDER[9..][0] == CLOSE;
    assert two[..2][1] == OPEN && PLACEHOLDER[8..][1] == CLOSE;
    assert two[0..][1] == OPEN && PLACEHOLDER[..2][1] == PLACEHOLDER[1];
    var text: Text := [OPEN] + two;
    assert two[..1] == [OPEN] && text[0..2] == two;
    assert At(text, 0, two);
    assert forall k: nat | k <= 2 && EndMeets(two, k) :: k == 1;
  }

  lemma SecondUnit(i: nat, two: Text)
    requires two == [OPEN, OPEN]
    ensures !At(PLACEHOLDER, i, two)
  {
    hide Ascii;
    PlaceholderOpensOnce();
    if i + 2 <= |PLACEHOLDER| {
      assert PLACEHOLDER[i..i + 2][1] == PLACEHOLDER[i + 1];
    }
  }

  lemma PlaceholderOpensOnce()
    ensures forall k | 0 < k < |PLACEHOLDER| :: PLACEHOLDER[k] != OPEN
  {
  }

  lemma NotLeft(text: Text, secret: Text)
    requires secret != [] && !Includes(Join(Split(text, secret)), secret)
    ensures !Leaves(Redact(text, [secret]), [secret])
  {
    hide Includes, Ascii, Join, Split;
    assert [secret][1..] == [];
    assert Redact(text, [secret]) == Join(Split(text, secret));
  }

  // ----- the evidence

  function TrimEnd(t: Text): Text {
    if t != [] && IsJsSpace(t[|t| - 1]) then TrimEnd(t[..|t| - 1]) else t
  }

  function Trimmed(lines: seq<Text>): seq<Text> {
    if lines == [] then []
    else
      var line := TrimEnd(TrimStart(lines[0]));
      (if line == [] then [] else [line]) + Trimmed(lines[1..])
  }

  function Failing(lines: seq<Text>, isFailing: Text -> bool): seq<Text> {
    if lines == [] then []
    else (if isFailing(lines[0]) then [lines[0]] else []) + Failing(lines[1..], isFailing)
  }

  function Take<T>(list: seq<T>, n: nat): seq<T> {
    if |list| <= n then list else list[..n]
  }

  /** The failing lines, or else the last five, at most twenty of them. */
  function Chosen(output: Text, isFailing: Text -> bool): Text {
    var lines := Trimmed(Lines(output));
    var failing := Failing(lines, isFailing);
    JoinWith(Take(if failing != [] then failing else if |lines| <= 5 then lines else lines[|lines| - 5..], 20), [NEWLINE])
  }

  function FailureEvidence(output: Text, secrets: seq<Text>, isFailing: Text -> bool): Text {
    Take(Redact(Chosen(output, isFailing), secrets), 2000)
  }

  /** The evidence is cut from redacted text, so no secret is in it. */
  lemma EvidenceIsClean(output: Text, secrets: seq<Text>, isFailing: Text -> bool)
    requires forall s | s in secrets && s != [] :: IsApart(s)
    ensures var evidence := FailureEvidence(output, secrets, isFailing);
            && |evidence| <= 2000 && evidence <= Redact(Chosen(output, isFailing), secrets)
            && !Leaves(evidence, secrets)
  {
    hide Includes, Ascii, Redact, Chosen, IsApart;
    var redacted := Redact(Chosen(output, isFailing), secrets);
    var evidence := Take(redacted, 2000);
    forall s | s in secrets && s != []
      ensures !Includes(evidence, s)
    {
      RedactKeepsOut(Chosen(output, isFailing), secrets, s);
      if Includes(evidence, s) {
        assert evidence == redacted[0..|evidence|];
        IncludesSlice(redacted, 0, |evidence|, s);
      }
    }
  }
}
