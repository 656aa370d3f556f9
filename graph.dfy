/**
 * The sentence graph of `TextRank.buildGraph`: node `i` for every sentence
 * index and, from every node, an edge to every other node weighted by the
 * similarity of the two sentences.
 */
module SimilarityGraph {
  import opened Similarity

  /** `graph[i][j]`: the weight of the edge from sentence `i` to sentence `j`. */
  type Graph = map<nat, map<nat, real>>

  /** The indices `0 .. n-1`. */
  function Nodes(n: nat): (r: set<nat>)
    ensures forall i :: i in r <==> 0 <= i < n
    ensures |r| == n
  {
    if n == 0 then {} else Nodes(n - 1) + {n - 1}
  }

  /** A node for every index below `n`, and from each an edge to every other one. */
  ghost predicate IsComplete(g: Graph, n: nat)
  {
    (forall i: nat :: i in g <==> i < n) &&
    (forall i: nat, j: nat :: i in g ==> (j in g[i] <==> j < n && j != i))
  }

  predicate NonNegative(g: Graph)
  {
    forall i, j :: i in g && j in g[i] ==> g[i][j] >= 0.0
  }

  /** An `n` by `n` table of reals. */
  predicate IsMatrix(wt: seq<seq<real>>, n: nat)
  {
    |wt| == n && forall i :: 0 <= i < n ==> |wt[i]| == n
  }

  /** Row `i` of the similarity table, up to column `m`. */
  function SimilarityRow(sentences: seq<string>, ln: nat -> real, i: nat, m: nat): (r: seq<real>)
    requires i < |sentences| && m <= |sentences|
    ensures |r| == m
  {
    if m == 0 then [] else SimilarityRow(sentences, ln, i, m - 1) + [Weight(sentences[i], sentences[m - 1], ln)]
  }

  /** The rows below `k` of the similarity table. */
  function SimilarityRows(sentences: seq<string>, ln: nat -> real, k: nat): (wt: seq<seq<real>>)
    requires k <= |sentences|
    ensures |wt| == k && forall i :: 0 <= i < k ==> |wt[i]| == |sentences|
  {
    if k == 0 then [] else SimilarityRows(sentences, ln, k - 1) + [SimilarityRow(sentences, ln, k - 1, |sentences|)]
  }

  /** The similarity of every ordered pair of sentences. */
  function SimilarityMatrix(sentences: seq<string>, ln: nat -> real): (wt: seq<seq<real>>)
    ensures IsMatrix(wt, |sentences|)
  {
    SimilarityRows(sentences, ln, |sentences|)
  }

  /** The edges out of node `i` to the nodes below `m`. */
  function PartialRow(wt: seq<seq<real>>, n: nat, i: nat, m: nat): map<nat, real>
    requires IsMatrix(wt, n) && i < n && m <= n
  {
    map j: nat | j < m && j != i :: wt[i][j]
  }

  /** The rows of the nodes below `k`, each complete. */
  function PartialGraph(wt: seq<seq<real>>, n: nat, k: nat): (g: Graph)
    requires IsMatrix(wt, n) && k <= n
    ensures forall i: nat :: i in g <==> i < k
  {
    map i: nat | i < k :: PartialRow(wt, n, i, n)
  }

  /** The graph `buildGraph` returns for `sentences`. */
  function GraphOf(sentences: seq<string>, ln: nat -> real): (g: Graph)
    ensures forall i: nat :: i in g <==> i < |sentences|
  {
    PartialGraph(SimilarityMatrix(sentences, ln), |sentences|, |sentences|)
  }

  lemma {:induction false} RowStart(wt: seq<seq<real>>, n: nat, i: nat)
    requires IsMatrix(wt, n) && i < n
    ensures PartialRow(wt, n, i, 0) == map[]
  {
  }

  lemma {:induction false} RowStep(wt: seq<seq<real>>, n: nat, i: nat, j: nat)
    requires IsMatrix(wt, n) && i < n && j < n && i != j
    ensures PartialRow(wt, n, i, j + 1) == PartialRow(wt, n, i, j)[j := wt[i][j]]
  {
  }

  lemma {:induction false} RowEntry(sentences: seq<string>, ln: nat -> real, i: nat, m: nat, j: nat)
    requires i < |sentences| && j < m <= |sentences|
    ensures SimilarityRow(sentences, ln, i, m)[j] == Weight(sentences[i], sentences[j], ln)
  {
    if j < m - 1 {
      RowEntry(sentences, ln, i, m - 1, j);
    }
  }

  lemma {:induction false} RowsEntry(sentences: seq<string>, ln: nat -> real, k: nat, i: nat)
    requires i < k <= |sentences|
    ensures SimilarityRows(sentences, ln, k)[i] == SimilarityRow(sentences, ln, i, |sentences|)
  {
    if i < k - 1 {
      RowsEntry(sentences, ln, k - 1, i);
    }
  }

  lemma {:induction false} MatrixEntry(sentences: seq<string>, ln: nat -> real, i: nat, j: nat)
    requires i < |sentences| && j < |sentences|
    ensures SimilarityMatrix(sentences, ln)[i][j] == Weight(sentences[i], sentences[j], ln)
  {
    RowsEntry(sentences, ln, |sentences|, i);
    RowEntry(sentences, ln, i, |sentences|, j);
  }

  lemma {:induction false} RowSkip(wt: seq<seq<real>>, n: nat, i: nat)
    requires IsMatrix(wt, n) && i < n
    ensures PartialRow(wt, n, i, i + 1) == PartialRow(wt, n, i, i)
  {
  }

  lemma {:induction false} GraphStep(wt: seq<seq<real>>, n: nat, i: nat)
    requires IsMatrix(wt, n) && i < n
    ensures PartialGraph(wt, n, i + 1) == PartialGraph(wt, n, i)[i := PartialRow(wt, n, i, n)]
  {
  }

  lemma {:induction false} OutDegree(n: nat, i: nat)
    requires i < n
    ensures |Nodes(n) - {i}| == n - 1
  {
    assert i in Nodes(n);
  }

  lemma {:induction false} MatrixGraphComplete(wt: seq<seq<real>>, n: nat)
    requires IsMatrix(wt, n)
    ensures IsComplete(PartialGraph(wt, n, n), n)
    ensures forall i, j :: 0 <= i < n && 0 <= j < n && i != j ==> PartialGraph(wt, n, n)[i][j] == wt[i][j]
  {
    var g := PartialGraph(wt, n, n);
    assert g.Keys == Nodes(n);
    forall i | i in g
      ensures g[i].Keys == Nodes(n) - {i}
    {
      assert g[i] == PartialRow(wt, n, i, n);
    }
  }

  /** In a complete graph on `n` nodes every node has `n - 1` neighbours. */
  lemma {:induction false} CompleteOutDegree(g: Graph, n: nat, j: nat)
    requires IsComplete(g, n) && j < n
    ensures j in g && |g[j].Keys| == n - 1
    ensures j !in g[j]
  {
    assert g[j].Keys == Nodes(n) - {j};
    OutDegree(n, j);
  }

  /**
   * The inner loop of `buildGraph`: an edge from node `i` to every other node,
   * weighted by the similarity of sentence `i` to that sentence.
   */
  method BuildRow(sentences: seq<string>, ln: nat -> real, i: nat) returns (row: map<nat, real>)
    requires i < |sentences|
    ensures row == PartialRow(SimilarityMatrix(sentences, ln), |sentences|, i, |sentences|)
  {
    var n := |sentences|;
    ghost var wt := SimilarityMatrix(sentences, ln);
    row := map[];
    RowStart(wt, n, i);
    var j: nat := 0;
    while j < n
      invariant j <= n
      invariant row == PartialRow(wt, n, i, j)
    {
      if i != j {
        var w := Weight(sentences[i], sentences[j], ln);
        MatrixEntry(sentences, ln, i, j);
        RowStep(wt, n, i, j);
        row := row[j := w];
      } else {
        RowSkip(wt, n, i);
      }
      j := j + 1;
    }
  }

  /** The graph is complete and every node has `n - 1` neighbours. */
  lemma {:induction false} GraphComplete(sentences: seq<string>, ln: nat -> real)
    ensures IsComplete(GraphOf(sentences, ln), |sentences|)
    ensures forall i :: i in GraphOf(sentences, ln) ==> |GraphOf(sentences, ln)[i].Keys| == |sentences| - 1
  {
    var n, wt := |sentences|, SimilarityMatrix(sentences, ln);
    var g := GraphOf(sentences, ln);
    MatrixGraphComplete(wt, n);
    forall i | i in g
      ensures |g[i].Keys| == n - 1
    {
      CompleteOutDegree(g, n, i);
    }
  }

  /** The edge `i -> j` carries the similarity of sentence `i` to sentence `j`. */
  lemma {:induction false} GraphEdge(sentences: seq<string>, ln: nat -> real, i: nat, j: nat)
    requires i < |sentences| && j < |sentences| && i != j
    ensures i in GraphOf(sentences, ln) && j in GraphOf(sentences, ln)[i]
    ensures GraphOf(sentences, ln)[i][j] == Weight(sentences[i], sentences[j], ln)
  {
    var n, wt := |sentences|, SimilarityMatrix(sentences, ln);
    MatrixGraphComplete(wt, n);
    MatrixEntry(sentences, ln, i, j);
  }

  /** With a logarithm every edge weight is non-negative. */
  lemma {:induction false} GraphNonNegative(sentences: seq<string>, ln: nat -> real)
    requires IsLog(ln)
    ensures NonNegative(GraphOf(sentences, ln))
  {
    var g := GraphOf(sentences, ln);
    GraphComplete(sentences, ln);
    forall i, j | i in g && j in g[i]
      ensures g[i][j] >= 0.0
    {
      GraphEdge(sentences, ln, i, j);
      WeightFacts(sentences[i], sentences[j], ln);
    }
  }

  /**
   * Every node has an edge to every other node and none to itself, carrying
   * the similarity of the two sentences in that order; each node therefore
   * has exactly `n - 1` neighbours, and with a logarithm every weight is
   * non-negative.
   */
  lemma {:induction false} GraphOfShape(sentences: seq<string>, ln: nat -> real)
    ensures IsComplete(GraphOf(sentences, ln), |sentences|)
    ensures forall i, j :: 0 <= i < |sentences| && 0 <= j < |sentences| && i != j ==>
      j in GraphOf(sentences, ln)[i] && GraphOf(sentences, ln)[i][j] == Weight(sentences[i], sentences[j], ln)
    ensures forall i :: i in GraphOf(sentences, ln) ==> |GraphOf(sentences, ln)[i].Keys| == |sentences| - 1
    ensures IsLog(ln) ==> NonNegative(GraphOf(sentences, ln))
  {
    GraphComplete(sentences, ln);
    forall i, j | 0 <= i < |sentences| && 0 <= j < |sentences| && i != j
      ensures j in GraphOf(sentences, ln)[i] && GraphOf(sentences, ln)[i][j] == Weight(sentences[i], sentences[j], ln)
    {
      GraphEdge(sentences, ln, i, j);
    }
    if IsLog(ln) {
      GraphNonNegative(sentences, ln);
    }
  }
}
