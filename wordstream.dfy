/**
 * `generate_llm_output`: the model's answer arrives as a growing text; after
 * each update the words not seen before are streamed to the extension, but
 * only once the word carrying the assistant marker has gone by, and a word
 * holding the end tag is cut there and sent as the last one.
 */
module WordStream {
  import opened Text

  const EndTag := "<|end|>"
  const AssistantMarker := "<|end|><|assistant|>"

  /** `send_response(text, is_last)`. */
  datatype Response = Response(text: string, isLast: bool)

  /**
   * What is sent for `word` when sending has started: it is the last response
   * exactly when the word holds the end tag.
   */
  function SentForm(word: string): (r: Response)
    ensures r.isLast <==> Contains(word, EndTag)
  {
    if Contains(word, EndTag) then Response(BeforeFirst(word, EndTag), true) else Response(word, false)
  }

  /** The end tag never reaches the extension: the text sent is a prefix of the word that holds no end tag. */
  lemma {:induction false} SentFormFacts(word: string)
    ensures !Contains(SentForm(word).text, EndTag)
    ensures SentForm(word).text <= word
  {
    BeforeFirstIsFirst(word, EndTag);
  }

  /** No response text holds the end tag. */
  predicate NoEndTag(rs: seq<Response>)
  {
    forall i :: 0 <= i < |rs| ==> !Contains(rs[i].text, EndTag)
  }

  /** No word of a run reaches the extension with the end tag in it. */
  lemma {:induction false} EmitNoEndTag(started: bool, words: seq<string>)
    ensures NoEndTag(EmitWords(started, words))
  {
    if words != [] {
      var front := words[..|words| - 1];
      EmitNoEndTag(started, front);
      SentFormFacts(words[|words| - 1]);
    }
  }

  /** What one word of the inner loop sends: nothing before sending has started. */
  function WordOutput(started: bool, word: string): seq<Response>
  {
    if started then [SentForm(word)] else []
  }

  /**
   * `start_sending` after the word: the marker test looks at the word as
   * possibly cut at the end tag, after the send.
   */
  function StartedAfterWord(started: bool, word: string): bool
  {
    var tested := if started && Contains(word, EndTag) then BeforeFirst(word, EndTag) else word;
    started || Contains(tested, AssistantMarker)
  }

  /** Sending starts at a word holding the marker and never stops. */
  lemma {:induction false} StartedAfterWordIff(started: bool, word: string)
    ensures StartedAfterWord(started, word) <==> started || Contains(word, AssistantMarker)
  {
  }

  /** The responses for `words`, taken in order from state `started`. */
  function EmitWords(started: bool, words: seq<string>): (r: seq<Response>)
    ensures |r| <= |words|
  {
    if words == [] then []
    else
      var front := words[..|words| - 1];
      EmitWords(started, front) + WordOutput(StartedAfter(started, front), words[|words| - 1])
  }

  /** `start_sending` after `words`. */
  function StartedAfter(started: bool, words: seq<string>): bool
  {
    if words == [] then started
    else StartedAfterWord(StartedAfter(started, words[..|words| - 1]), words[|words| - 1])
  }

  /** Words handled in two runs give the responses of one run over both. */
  lemma {:induction false} EmitAppend(started: bool, a: seq<string>, b: seq<string>)
    ensures EmitWords(started, a + b) == EmitWords(started, a) + EmitWords(StartedAfter(started, a), b)
    ensures StartedAfter(started, a + b) == StartedAfter(StartedAfter(started, a), b)
    decreases |b|
  {
    if b == [] {
      assert a + b == a;
    } else {
      var front := b[..|b| - 1];
      assert (a + b)[..|a + b| - 1] == a + front;
      assert (a + b)[|a + b| - 1] == b[|b| - 1];
      EmitAppend(started, a, front);
    }
  }

  /** A word `w` tacked onto `words`. */
  lemma {:induction false} EmitSnoc(started: bool, words: seq<string>, w: string)
    ensures EmitWords(started, words + [w]) == EmitWords(started, words) + WordOutput(StartedAfter(started, words), w)
    ensures StartedAfter(started, words + [w]) == StartedAfterWord(StartedAfter(started, words), w)
  {
    assert (words + [w])[..|words|] == words;
  }

  /** Before a word with the marker nothing is sent, and sending has not started. */
  lemma {:induction false} NothingBeforeMarker(words: seq<string>)
    requires forall i :: 0 <= i < |words| ==> !Contains(words[i], AssistantMarker)
    ensures EmitWords(false, words) == []
    ensures !StartedAfter(false, words)
  {
    if words != [] {
      var front := words[..|words| - 1];
      assert forall i :: 0 <= i < |front| ==> front[i] == words[i];
      NothingBeforeMarker(front);
    }
  }

  /**
   * The first word holding the marker switches sending on without being
   * sent itself; what follows is sent as if sending had been on from the start.
   */
  lemma {:induction false} MarkerStartsSending(before: seq<string>, marker: string, after: seq<string>)
    requires forall i :: 0 <= i < |before| ==> !Contains(before[i], AssistantMarker)
    requires Contains(marker, AssistantMarker)
    ensures EmitWords(false, before + [marker] + after) == EmitWords(true, after)
  {
    NothingBeforeMarker(before);
    EmitSnoc(false, before, marker);
    EmitAppend(false, before + [marker], after);
  }

  /**
   * Once sending has started every word is sent, in order: a word holding
   * the end tag as its part before the first end tag with `isLast` set, any
   * other word as it is with `isLast` clear.
   */
  lemma {:induction false} EmitWhileSending(words: seq<string>)
    ensures StartedAfter(true, words)
    ensures |EmitWords(true, words)| == |words|
    ensures forall i :: 0 <= i < |words| ==> EmitWords(true, words)[i] == SentForm(words[i])
  {
    if words != [] {
      var front := words[..|words| - 1];
      EmitWhileSending(front);
      StartedAfterWordIff(true, words[|words| - 1]);
    }
  }

  /** `current_words[len(previous_words):]`, empty when the current split is shorter. */
  function NewWords(previous: seq<string>, current: seq<string>): (r: seq<string>)
    ensures |r| == if |previous| <= |current| then |current| - |previous| else 0
    ensures previous <= current ==> previous + r == current
  {
    if |previous| <= |current| then current[|previous|..] else []
  }

  /** The responses for the updates `partials`, from the state `previous`, `started`. */
  function StreamFrom(previous: seq<string>, started: bool, partials: seq<string>): (r: seq<Response>)
    ensures NoEndTag(r)
    decreases |partials|
  {
    if partials == [] then []
    else
      var current := PySplit(partials[0]);
      var added := NewWords(previous, current);
      EmitNoEndTag(started, added);
      EmitWords(started, added) + StreamFrom(current, StartedAfter(started, added), partials[1..])
  }

  /** All that `generate_llm_output` sends for the updates `partials` of the answer. */
  function Stream(partials: seq<string>): (r: seq<Response>)
    ensures NoEndTag(r)
  {
    StreamFrom([], false, partials)
  }

  lemma {:induction false} AppendAssociates(a: seq<Response>, b: seq<Response>, c: seq<Response>)
    ensures a + b + c == a + (b + c)
  {
  }

  /** One update of the stream: its new words, then the remaining updates from the new state. */
  lemma {:induction false} StreamStep(previous: seq<string>, started: bool, partials: seq<string>, k: nat)
    requires k < |partials|
    ensures var added := NewWords(previous, PySplit(partials[k]));
      StreamFrom(previous, started, partials[k..]) ==
      EmitWords(started, added) + StreamFrom(PySplit(partials[k]), StartedAfter(started, added), partials[k + 1..])
  {
    assert partials[k..][0] == partials[k];
    assert partials[k..][1..] == partials[k + 1..];
  }

  /** `generate_llm_output`, with `generate(user_query)` given as the sequence of texts it yields. */
  method GenerateLlmOutput(partials: seq<string>) returns (responses: seq<Response>)
    ensures responses == Stream(partials)
  {
    var previousWords: seq<string> := [];
    var startSending := false;
    responses := [];
    var k := 0;
    while k < |partials|
      invariant k <= |partials|
      invariant responses + StreamFrom(previousWords, startSending, partials[k..]) == Stream(partials)
    {
      var currentWords := PySplit(partials[k]);
      var newWords := NewWords(previousWords, currentWords);
      StreamStep(previousWords, startSending, partials, k);
      var sent;
      sent, startSending := SendWords(startSending, newWords);
      AppendAssociates(responses, sent, StreamFrom(currentWords, startSending, partials[k + 1..]));
      responses := responses + sent;
      previousWords := currentWords;
      k := k + 1;
    }
  }

  /** The inner loop of `generate_llm_output` over the new words of one update. */
  method SendWords(started: bool, words: seq<string>) returns (responses: seq<Response>, startSending: bool)
    ensures responses == EmitWords(started, words)
    ensures startSending == StartedAfter(started, words)
  {
    responses := [];
    startSending := started;
    var i := 0;
    while i < |words|
      invariant i <= |words|
      invariant responses == EmitWords(started, words[..i])
      invariant startSending == StartedAfter(started, words[..i])
    {
      var word := words[i];
      EmitSnoc(started, words[..i], word);
      assert words[..i + 1] == words[..i] + [word];
      if startSending {
        if Contains(word, EndTag) {
          word := BeforeFirst(word, EndTag);
          responses := responses + [Response(word, true)];
        } else {
          responses := responses + [Response(word, false)];
        }
      }
      if Contains(word, AssistantMarker) {
        startSending := true;
      }
      i := i + 1;
    }
    assert words[..i] == words;
  }

  /** Each update's split extends the one before, starting from `previous`. */
  predicate Extends(previous: seq<string>, partials: seq<string>)
    decreases |partials|
  {
    partials == [] || (previous <= PySplit(partials[0]) && Extends(PySplit(partials[0]), partials[1..]))
  }

  lemma {:induction false} PrefixSlices(a: seq<string>, b: seq<string>, c: seq<string>)
    requires a <= b <= c
    ensures a <= c && c[|a|..] == NewWords(a, b) + c[|b|..]
  {
    assert c[|a|..] == c[|a|..|b|] + c[|b|..];
    assert c[|a|..|b|] == b[|a|..];
  }

  /**
   * When every update only adds words after the ones already seen, the
   * stream sends what one pass over the words of the final text would send:
   * no word twice and none left out.
   */
  lemma {:induction false} StreamOfGrowingText(previous: seq<string>, started: bool, partials: seq<string>)
    requires partials != [] && Extends(previous, partials)
    ensures var last := PySplit(partials[|partials| - 1]);
      previous <= last && StreamFrom(previous, started, partials) == EmitWords(started, last[|previous|..])
    decreases |partials|
  {
    var current := PySplit(partials[0]);
    var added := NewWords(previous, current);
    if |partials| > 1 {
      var last := PySplit(partials[|partials| - 1]);
      var rest := partials[1..];
      assert rest[|rest| - 1] == partials[|partials| - 1];
      StreamOfGrowingText(current, StartedAfter(started, added), rest);
      PrefixSlices(previous, current, last);
      EmitAppend(started, added, last[|current|..]);
    }
  }

  /** From the start of the answer: the whole stream is one pass over the final text's words. */
  lemma {:induction false} GrowingStream(partials: seq<string>)
    requires partials != [] && Extends([], partials)
    ensures Stream(partials) == EmitWords(false, PySplit(partials[|partials| - 1]))
  {
    StreamOfGrowingText([], false, partials);
    var last := PySplit(partials[|partials| - 1]);
    assert last[0..] == last;
  }
}
