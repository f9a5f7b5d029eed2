/** What a redaction keeps: everything but the secrets, and of a run's output the telling lines. */
module RedactionShape {
  import opened CodeUnits
  import opened SecretRedaction

  // ----- one replacement

  /** The piece ends at the first occurrence of the secret behind its start. */
  ghost predicate EndsAtFirst(piece: Text, secret: Text) {
    forall j: nat | j < |piece| :: !At(piece + secret, j, secret)
  }

  /**
   Splitting takes the secret out and nothing else: with the secret between them the pieces are
   the text again, no piece holds the secret, and every piece but the last ends at its first
   occurrence.
   */
  lemma {:induction false} SplitIsExact(text: Text, secret: Text)
    requires secret != []
    ensures var pieces := Split(text, secret);
            && JoinWith(pieces, secret) == text
            && (forall k | 0 <= k < |pieces| :: !Includes(pieces[k], secret))
            && (forall k | 0 <= k < |pieces| - 1 :: EndsAtFirst(pieces[k], secret))
    decreases |text|
  {
    hide Includes, IndexOf, At;
    var n := IndexOf(text, secret, 0);
    var pieces := Split(text, secret);
    forall k | 0 <= k < |pieces|
      ensures !Includes(pieces[k], secret)
    {
      SplitParts(text, secret, k);
    }
    if n <= |text| {
      AtText(text, n, secret);
      var rest := text[n + |secret|..];
      SplitIsExact(rest, secret);
      assert pieces[1..] == Split(rest, secret);
      assert text == text[..n] + (secret + rest);
      FirstPieceEnds(text, secret, n);
      forall k | 0 <= k < |pieces| - 1
        ensures EndsAtFirst(pieces[k], secret)
      {
        if k > 0 {
          assert pieces[k] == Split(rest, secret)[k - 1];
        }
      }
    }
  }

  lemma FirstPieceEnds(text: Text, secret: Text, n: nat)
    requires secret != [] && n == IndexOf(text, secret, 0) <= |text|
    ensures EndsAtFirst(text[..n], secret)
  {
    AtText(text, n, secret);
    var start := text[..n] + secret;
    assert start == text[..n + |secret|];
    forall j: nat | j < n
      ensures !At(start, j, secret)
    {
      assert !At(text, j, secret);
      if j + |secret| <= |start| {
        assert start[j..j + |secret|] == text[j..j + |secret|];
      }
    }
  }

  /** The redaction puts the placeholder where the secret was. */
  lemma {:induction false} JoinIsPlaceholder(pieces: seq<Text>)
    ensures Join(pieces) == JoinWith(pieces, PLACEHOLDER)
    decreases |pieces|
  {
    hide Ascii;
    if |pieces| > 1 {
      JoinIsPlaceholder(pieces[1..]);
    }
  }

  /** A text that holds no secret is not changed. */
  lemma {:induction false} NothingToRedact(text: Text, secrets: seq<Text>)
    requires forall s | s in secrets && s != [] :: !Includes(text, s)
    ensures Redact(text, secrets) == text
    decreases secrets
  {
    hide Includes, Split, Join;
    if secrets != [] {
      assert secrets[0] in secrets;
      if secrets[0] != [] {
        OnePiece(text, secrets[0]);
      }
      NothingToRedact(text, secrets[1..]);
    }
  }

  lemma OnePiece(text: Text, secret: Text)
    requires secret != [] && !Includes(text, secret)
    ensures Join(Split(text, secret)) == text
  {
    hide Ascii, At;
    var n := IndexOf(text, secret, 0);
    assert n <= |text| ==> Includes(text, secret);
  }

  // ----- the lines of the evidence

  predicate IsTrimmed(line: Text) {
    line != [] && !IsJsSpace(line[0]) && !IsJsSpace(line[|line| - 1])
  }

  /** What is left of a line without the blanks around it. */
  ghost predicate IsCore(line: Text, core: Text) {
    exists a: Text, b: Text :: line == a + core + b && (forall c | c in a + b :: IsJsSpace(c)) && IsTrimmed(core)
  }

  lemma {:induction false} StartIsBlank(t: Text) returns (a: Text)
    ensures t == a + TrimStart(t) && (forall c | c in a :: IsJsSpace(c))
    ensures TrimStart(t) != [] ==> !IsJsSpace(TrimStart(t)[0])
  {
    a := [];
    if t != [] && IsJsSpace(t[0]) {
      var more := StartIsBlank(t[1..]);
      a := [t[0]] + more;
      assert t == [t[0]] + t[1..];
    }
  }

  lemma {:induction false} EndIsBlank(t: Text) returns (b: Text)
    ensures t == TrimEnd(t) + b && (forall c | c in b :: IsJsSpace(c))
    ensures TrimEnd(t) != [] ==> !IsJsSpace(TrimEnd(t)[|TrimEnd(t)| - 1])
  {
    b := [];
    if t != [] && IsJsSpace(t[|t| - 1]) {
      var front := t[..|t| - 1];
      var more := EndIsBlank(front);
      b := more + [t[|t| - 1]];
      assert t == front + [t[|t| - 1]];
      assert TrimEnd(front) + b == TrimEnd(front) + more + [t[|t| - 1]];
    }
  }

  lemma TrimIsCore(line: Text)
    ensures TrimEnd(TrimStart(line)) == [] || IsCore(line, TrimEnd(TrimStart(line)))
  {
    hide IsJsSpace, TrimStart, TrimEnd;
    var a := StartIsBlank(line);
    var middle := TrimStart(line);
    var b := EndIsBlank(middle);
    var core := TrimEnd(middle);
    if core != [] {
      assert middle[0] == core[0];
      assert line == a + core + b;
    }
  }

  lemma BlankHasNoCore(line: Text)
    requires TrimEnd(TrimStart(line)) == []
    ensures forall c | c in line :: IsJsSpace(c)
  {
    hide IsJsSpace, TrimStart, TrimEnd;
    var a := StartIsBlank(line);
    var b := EndIsBlank(TrimStart(line));
    assert line == a + b;
  }

  /** Every line kept is what is left of a line of the output, and every line that is not blank leaves one. */
  lemma {:induction false} TrimmedAre(lines: seq<Text>)
    ensures forall core | core in Trimmed(lines) :: exists line :: line in lines && IsCore(line, core)
    ensures forall line | line in lines && !(forall c | c in line :: IsJsSpace(c)) :: exists core :: core in Trimmed(lines) && IsCore(line, core)
    decreases |lines|
  {
    hide TrimStart, TrimEnd, IsCore, IsJsSpace;
    if lines != [] {
      var first, rest := TrimEnd(TrimStart(lines[0])), lines[1..];
      TrimIsCore(lines[0]);
      TrimmedAre(rest);
      if first == [] {
        BlankHasNoCore(lines[0]);
      }
      assert forall line :: line in lines <==> line == lines[0] || line in rest;
      assert forall core :: core in Trimmed(lines) <==> (core == first && first != []) || core in Trimmed(rest);
    }
  }

  lemma {:induction false} FailingAre(lines: seq<Text>, isFailing: Text -> bool)
    ensures forall line :: line in Failing(lines, isFailing) <==> line in lines && isFailing(line)
    decreases |lines|
  {
    if lines != [] {
      FailingAre(lines[1..], isFailing);
      assert forall line :: line in lines <==> line == lines[0] || line in lines[1..];
    }
  }

  /**
   The evidence is made of at most twenty lines, each the rest of a line of the output without
   blanks around it: of failing ones alone when there are any, and of all of them when they are
   no more than twenty; and of the last five lines when none fails.
   */
  lemma ChosenLines(output: Text, isFailing: Text -> bool) returns (chosen: seq<Text>)
    ensures Chosen(output, isFailing) == JoinWith(chosen, [NEWLINE]) && |chosen| <= 20
    ensures forall core | core in chosen :: exists line :: line in Lines(output) && IsCore(line, core)
    ensures var kept := Trimmed(Lines(output));
            if exists line :: line in kept && isFailing(line)
            then (forall line | line in chosen :: line in kept && isFailing(line))
                 && (|chosen| < 20 ==> forall line | line in kept && isFailing(line) :: line in chosen)
            else chosen == if |kept| <= 5 then kept else kept[|kept| - 5..]
  {
    hide Lines, IsCore, JoinWith, Trimmed, Failing;
    var kept := Trimmed(Lines(output));
    TrimmedAre(Lines(output));
    FailingAre(kept, isFailing);
    var failing := Failing(kept, isFailing);
    if failing != [] {
      assert failing[0] in kept && isFailing(failing[0]);
      chosen := Take(failing, 20);
    } else {
      chosen := if |kept| <= 5 then kept else kept[|kept| - 5..];
    }
    TakeIs(failing, 20);
    assert forall line | line in chosen :: line in kept;
  }

  lemma TakeIs(list: seq<Text>, n: nat)
    ensures |Take(list, n)| <= n
    ensures forall t | t in Take(list, n) :: t in list
    ensures |Take(list, n)| < n ==> Take(list, n) == list
  {
  }
}
