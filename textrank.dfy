/**
 * The `TextRank` class and `summarizeTextRank` of the summariser: the object
 * keeps the text, the parameters, the sentences and the graph; `runTextRank`
 * and `summarize` compute from them without changing them.
 */
module TextRankEngine {
  import opened Text
  import opened SentenceSplitter
  import opened Similarity
  import opened SimilarityGraph
  import opened Rank
  import opened Selection

  /** `indices.map(i => sentences[i])`. */
  function Pick(sentences: seq<string>, indices: seq<nat>): (r: seq<string>)
    requires forall p :: 0 <= p < |indices| ==> indices[p] < |sentences|
    ensures |r| == |indices|
  {
    seq(|indices|, p requires 0 <= p < |indices| => sentences[indices[p]])
  }

  /** The chosen sentences, in text order, joined by single spaces. */
  function Summary(sentences: seq<string>, scores: seq<real>, k: nat): string
    requires |scores| == |sentences|
  {
    SelectIndicesFacts(scores, k);
    Join(Pick(sentences, SelectIndices(scores, k)), " ")
  }

  /** What `new TextRank(text).summarize(k)` returns. */
  function SummaryOf(text: string, ln: nat -> real, iterations: nat, damping: real, k: nat): (r: string)
    ensures k == 0 || SplitIntoSentences(text) == [] ==> r == ""
  {
    var sentences := SplitIntoSentences(text);
    var g := GraphOf(sentences, ln);
    GraphOfShape(sentences, ln);
    Summary(sentences, Scores(g, |sentences|, damping, iterations), k)
  }

  /** What `summarizeTextRank(text, k)` returns. */
  function SummarizeTextRankOf(text: string, k: nat, ln: nat -> real): (r: string)
    ensures Count(text, ' ') < 99 ==> r == text
  {
    SplitOnLength(text, ' ');
    if |SplitOn(text, ' ')| < 100 then text else SummaryOf(text, ln, 30, 0.85, k)
  }

  /**
   * `text.split(' ')` has fewer than 100 pieces exactly when the text holds
   * fewer than 99 blanks; such a text is returned unchanged, any other one
   * is summarised with 30 rounds and damping 0.85.
   */
  lemma {:induction false} ShortTextsUnchanged(text: string, k: nat, ln: nat -> real)
    ensures |SplitOn(text, ' ')| < 100 <==> Count(text, ' ') < 99
    ensures Count(text, ' ') < 99 ==> SummarizeTextRankOf(text, k, ln) == text
    ensures Count(text, ' ') >= 99 ==> SummarizeTextRankOf(text, k, ln) == SummaryOf(text, ln, 30, 0.85, k)
  {
    SplitOnLength(text, ' ');
  }

  class TextRank {
    const text: string
    const iterations: nat
    const damping: real
    /** `Math.log`. */
    const ln: nat -> real
    var sentences: seq<string>
    var graph: Graph

    predicate Valid()
      reads this
    {
      sentences == SplitIntoSentences(text) && graph == GraphOf(sentences, ln)
    }

    constructor (text: string, ln: nat -> real, iterations: nat := 30, damping: real := 0.85)
      ensures this.text == text && this.ln == ln
      ensures this.iterations == iterations && this.damping == damping
      ensures Valid()
    {
      this.text := text;
      this.ln := ln;
      this.iterations := iterations;
      this.damping := damping;
      sentences := SplitIntoSentences(text);
      new;
      graph := BuildGraph();
    }

    /** Fills the graph row by row; `BuildRow` adds the edges out of one node. */
    method BuildGraph() returns (g: Graph)
      ensures g == GraphOf(sentences, ln)
    {
      var n := |sentences|;
      ghost var wt := SimilarityMatrix(sentences, ln);
      g := map[];
      var i: nat := 0;
      while i < n
        invariant i <= n
        invariant g == PartialGraph(wt, n, i)
      {
        var row := BuildRow(sentences, ln, i);
        GraphStep(wt, n, i);
        g := g[i := row];
        i := i + 1;
      }
    }

    /** The power iteration over the graph, `iterations` rounds with the damping factor. */
    method RunTextRank() returns (scores: seq<real>)
      requires Valid()
      ensures IsComplete(graph, |sentences|)
      ensures scores == Scores(graph, |sentences|, damping, iterations)
    {
      GraphComplete(sentences, ln);
      scores := PowerIteration(graph, |sentences|, damping, iterations);
    }

    /** The `k` best sentences, in text order, joined by single spaces. */
    method Summarize(numSentences: nat := 3) returns (summary: string)
      requires Valid()
      ensures summary == SummaryOf(text, ln, iterations, damping, numSentences)
    {
      var scores := RunTextRank();
      SelectIndicesFacts(scores, numSentences);
      summary := Join(Pick(sentences, SelectIndices(scores, numSentences)), " ");
    }
  }

  /** `summarizeTextRank`: short texts come back as they are. */
  method SummarizeTextRank(text: string, ln: nat -> real, numSentences: nat := 3) returns (summary: string)
    ensures summary == SummarizeTextRankOf(text, numSentences, ln)
  {
    if |SplitOn(text, ' ')| < 100 {
      return text;
    }
    var textRank := new TextRank(text, ln);
    summary := textRank.Summarize(numSentences);
  }
}
