/**
 * Splitting a text into sentences: the global regular-expression match
 * `text.match(/[^\.!\?]+[\.!\?]+/g) || []` of `TextRank.splitIntoSentences`.
 */
module SentenceSplitter {
  import opened Text

  predicate IsTerminator(c: char)
  {
    c == '.' || c == '!' || c == '?'
  }

  predicate NoTerminator(s: string)
  {
    forall i :: 0 <= i < |s| ==> !IsTerminator(s[i])
  }

  /**
   * One match of the pattern: a non-empty run of non-terminators followed by
   * a non-empty run of terminators, so terminators occur only as its final run.
   */
  predicate IsSentence(s: string)
  {
    && |s| >= 2
    && !IsTerminator(s[0])
    && IsTerminator(s[|s| - 1])
    && forall i, j :: 0 <= i < j < |s| && IsTerminator(s[i]) ==> IsTerminator(s[j])
  }

  /** Length of the leading run of non-terminators of `s`. */
  function BodyLength(s: string): (k: nat)
    ensures k <= |s|
    ensures k < |s| ==> IsTerminator(s[k])
  {
    if |s| == 0 || IsTerminator(s[0]) then 0 else 1 + BodyLength(s[1..])
  }

  /** Length of the leading run of terminators of `s`. */
  function TerminatorLength(s: string): (k: nat)
    ensures k <= |s|
    ensures k < |s| ==> !IsTerminator(s[k])
  {
    if |s| == 0 || !IsTerminator(s[0]) then 0 else 1 + TerminatorLength(s[1..])
  }

  /** No terminator occurs in the leading body. */
  lemma {:induction false} BodyRun(s: string)
    ensures NoTerminator(s[..BodyLength(s)])
  {
    if s != [] && !IsTerminator(s[0]) {
      BodyRun(s[1..]);
      assert s[..BodyLength(s)] == [s[0]] + s[1..][..BodyLength(s[1..])];
    }
  }

  /** Each character of the leading terminator run is a terminator. */
  lemma {:induction false} TerminatorRun(s: string)
    ensures forall i :: 0 <= i < TerminatorLength(s) ==> IsTerminator(s[i])
  {
    if s != [] && IsTerminator(s[0]) {
      TerminatorRun(s[1..]);
      assert forall i :: 1 <= i < TerminatorLength(s) ==> s[i] == s[1..][i - 1];
    }
  }

  /**
   * The successive matches, scanning left to right. At a terminator no match
   * can start, so the scan moves on by one character; from a non-terminator the
   * greedy body runs to the next terminator, and if there is none no further
   * match exists.
   */
  function SplitIntoSentences(text: string): (r: seq<string>)
    ensures 2 * |r| <= |text|
    decreases |text|
  {
    if |text| == 0 then []
    else if IsTerminator(text[0]) then SplitIntoSentences(text[1..])
    else if BodyLength(text) == |text| then []
    else [text[..MatchEnd(text)]] + SplitIntoSentences(text[MatchEnd(text)..])
  }

  /** Where a match starting at the front of `text` ends: its body, then its terminators. */
  function MatchEnd(text: string): (e: nat)
    requires BodyLength(text) < |text|
    ensures e <= |text|
    ensures text != [] && !IsTerminator(text[0]) ==> 2 <= e
  {
    BodyLength(text) + TerminatorLength(text[BodyLength(text)..])
  }

  /** The text up to the end of its first terminator run is one match. */
  lemma {:induction false} MatchIsSentence(text: string)
    requires text != [] && !IsTerminator(text[0])
    requires BodyLength(text) < |text|
    ensures IsSentence(text[..MatchEnd(text)])
  {
    var body := BodyLength(text);
    var t := TerminatorLength(text[body..]);
    var s := text[..body + t];
    BodyRun(text);
    TerminatorRun(text[body..]);
    assert t >= 1;
    assert forall i :: 0 <= i < body ==> s[i] == text[..body][i];
    assert forall j :: body <= j < body + t ==> s[j] == text[body..][j - body];
  }

  predicate AllSentences(r: seq<string>)
  {
    forall i :: 0 <= i < |r| ==> IsSentence(r[i])
  }

  lemma {:induction false} AllSentencesCons(x: string, tail: seq<string>)
    requires IsSentence(x) && AllSentences(tail)
    ensures AllSentences([x] + tail)
  {
    var r := [x] + tail;
    forall i | 0 <= i < |r|
      ensures IsSentence(r[i])
    {
      if i > 0 {
        assert r[i] == tail[i - 1];
      }
    }
  }

  /** Every element of the list is a match of the pattern. */
  lemma {:induction false} SentencesAreMatches(text: string)
    ensures AllSentences(SplitIntoSentences(text))
    decreases |text|
  {
    if text != [] {
      if IsTerminator(text[0]) {
        SentencesAreMatches(text[1..]);
      } else if BodyLength(text) < |text| {
        var end := MatchEnd(text);
        MatchIsSentence(text);
        SplitMatchStep(text, end);
        SentencesAreMatches(text[end..]);
        AllSentencesCons(text[..end], SplitIntoSentences(text[end..]));
      }
    }
  }

  /**
   * The sentences, concatenated, are the contiguous part of `text` that follows
   * its leading run of terminators; what remains after them holds no
   * terminator (the unterminated remainder the match drops).
   */
  predicate Decomposes(text: string)
  {
    DecomposedAs(text, TerminatorLength(text), Concat(SplitIntoSentences(text)))
  }

  /** `text` is `lead` characters, then `c`, then a remainder without terminators. */
  predicate DecomposedAs(text: string, lead: nat, c: string)
  {
    && lead + |c| <= |text|
    && text[lead..lead + |c|] == c
    && NoTerminator(text[lead + |c|..])
  }

  lemma {:induction false} DecomposesSkip(text: string)
    requires text != [] && IsTerminator(text[0])
    requires Decomposes(text[1..])
    ensures Decomposes(text)
  {
    var rest := text[1..];
    assert TerminatorLength(text) == 1 + TerminatorLength(rest);
    SkipUnfold(text);
    var lead, c := TerminatorLength(rest), Concat(SplitIntoSentences(rest));
    assert text[1 + lead..1 + lead + |c|] == rest[lead..lead + |c|];
    assert text[1 + lead + |c|..] == rest[lead + |c|..];
  }

  lemma {:induction false} SkipUnfold(text: string)
    requires text != [] && IsTerminator(text[0])
    ensures SplitIntoSentences(text) == SplitIntoSentences(text[1..])
  {
  }

  /** After a match the scan does not start on a terminator. */
  lemma {:induction false} AfterMatch(text: string, body: nat, end: nat)
    requires body == BodyLength(text) && end == body + TerminatorLength(text[body..])
    ensures end <= |text| && TerminatorLength(text[end..]) == 0
  {
    var t := TerminatorLength(text[body..]);
    if end < |text| {
      assert text[end..][0] == text[body..][t];
    }
  }

  /** One step of the scan from a non-terminator that is followed by a terminator. */
  lemma {:induction false} SplitMatchStep(text: string, end: nat)
    requires text != [] && !IsTerminator(text[0])
    requires BodyLength(text) < |text|
    requires end == MatchEnd(text)
    ensures end <= |text|
    ensures SplitIntoSentences(text) == [text[..end]] + SplitIntoSentences(text[end..])
    ensures TerminatorLength(text) == 0 && TerminatorLength(text[end..]) == 0
  {
    var body := BodyLength(text);
    AfterMatch(text, body, end);
    MatchUnfold(text, end);
  }

  lemma {:induction false} MatchUnfold(text: string, end: nat)
    requires |text| != 0 && !IsTerminator(text[0])
    requires BodyLength(text) != |text| && end == MatchEnd(text)
    ensures SplitIntoSentences(text) == [text[..end]] + SplitIntoSentences(text[end..])
  {
  }

  /** Decomposes, spelt out for a text with no leading terminator. */
  lemma {:induction false} DecomposesFromParts(text: string, c: string)
    requires TerminatorLength(text) == 0 && c == Concat(SplitIntoSentences(text))
    requires |c| <= |text| && text[..|c|] == c && NoTerminator(text[|c|..])
    ensures Decomposes(text)
  {
    assert text[0..|c|] == text[..|c|];
  }

  /** The parts of Decomposes for a text with no leading terminator. */
  lemma {:induction false} DecomposesParts(text: string)
    requires TerminatorLength(text) == 0 && Decomposes(text)
    ensures var c := Concat(SplitIntoSentences(text));
      |c| <= |text| && text[..|c|] == c && NoTerminator(text[|c|..])
  {
    var c := Concat(SplitIntoSentences(text));
    assert text[0..|c|] == text[..|c|];
  }

  /** A prefix of `text` followed by a decomposed rest. */
  lemma {:induction false} SlicesCompose(text: string, end: nat, c: string)
    requires end <= |text|
    requires |c| <= |text[end..]| && text[end..][..|c|] == c && NoTerminator(text[end..][|c|..])
    ensures |text[..end] + c| <= |text| && text[..|text[..end] + c|] == text[..end] + c
    ensures NoTerminator(text[|text[..end] + c|..])
  {
    assert text[..end + |c|] == text[..end] + text[end..][..|c|];
    assert text[end + |c|..] == text[end..][|c|..];
  }

  lemma {:induction false} DecomposesMatch(text: string, end: nat)
    requires text != [] && !IsTerminator(text[0])
    requires BodyLength(text) < |text|
    requires end == MatchEnd(text)
    requires Decomposes(text[end..])
    ensures Decomposes(text)
  {
    SplitMatchStep(text, end);
    var tail := SplitIntoSentences(text[end..]);
    ConcatCons(text[..end], tail);
    DecomposesParts(text[end..]);
    SlicesCompose(text, end, Concat(tail));
    DecomposesFromParts(text, text[..end] + Concat(tail));
  }

  lemma {:induction false} SplitDecomposition(text: string)
    ensures Decomposes(text)
    decreases |text|
  {
    if text == [] {
    } else if IsTerminator(text[0]) {
      SplitDecomposition(text[1..]);
      DecomposesSkip(text);
    } else {
      var body := BodyLength(text);
      if body == |text| {
        BodyRun(text);
        assert text[..body] == text;
        assert TerminatorLength(text) == 0;
      } else {
        var end := MatchEnd(text);
        SplitDecomposition(text[end..]);
        DecomposesMatch(text, end);
      }
    }
  }

  /**
   * The match list is empty exactly when every terminator of `text` lies in its
   * leading run of terminators; in particular a text without any terminator
   * has no sentences.
   */
  lemma {:induction false} NoSentencesIff(text: string)
    ensures SplitIntoSentences(text) == [] <==> NoTerminator(text[TerminatorLength(text)..])
    ensures NoTerminator(text) ==> SplitIntoSentences(text) == []
  {
    var r := SplitIntoSentences(text);
    var lead := TerminatorLength(text);
    SplitDecomposition(text);
    SentencesAreMatches(text);
    if r != [] {
      var first := r[0];
      assert IsSentence(first);
      ConcatCons(first, r[1..]);
      assert r == [first] + r[1..];
      var c := Concat(r);
      assert c[|first| - 1] == first[|first| - 1];
      assert text[lead..][|first| - 1] == c[|first| - 1];
      assert !NoTerminator(text[lead..]);
    }
    if NoTerminator(text) {
      assert text == [] || !IsTerminator(text[0]);
      assert text[lead..] == text;
    }
  }

  /** Two one-word sentences with nothing between them. */
  lemma {:induction false} TwoAdjacentSentences()
    ensures SplitIntoSentences("Hi.Yo.") == ["Hi.", "Yo."]
  {
    var text := "Hi.Yo.";
    assert BodyLength(text) == 2 by {
      assert BodyLength(text[1..]) == 1 by { assert BodyLength(text[2..]) == 0; }
    }
    assert TerminatorLength(text[2..]) == 1 by { assert TerminatorLength(text[3..]) == 0; }
    assert text[..3] == "Hi.";
    var rest := text[3..];
    assert rest == "Yo.";
    assert BodyLength(rest) == 2 by {
      assert BodyLength(rest[1..]) == 1 by { assert BodyLength(rest[2..]) == 0; }
    }
    assert TerminatorLength(rest[2..]) == 1 by { assert TerminatorLength(rest[3..]) == 0; }
    assert rest[..3] == "Yo.";
    assert SplitIntoSentences(rest[3..]) == [];
  }
}
