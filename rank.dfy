/**
 * The damped power iteration of `TextRank.runTextRank`, as a function of the
 * graph: every score starts at 1, and each round computes, for every node i,
 *   (1 - d) + d * sum over j != i of graph[i][j] * scores[j] / (n - 1)
 * from the previous round's scores alone.
 */
module Rank {
  import opened SimilarityGraph

  /** What neighbour `j` passes on to node `i`: `g[i][j] * s[j] / (n - 1)`, none from `i` itself. */
  function Share(g: Graph, n: nat, s: seq<real>, i: nat, j: nat): (r: real)
    requires IsComplete(g, n) && |s| == n && i < n && j < n
    ensures NonNegative(g) && AllAtLeast(s, 0.0) ==> r >= 0.0
  {
    if j == i then 0.0
    else
      assert NonNegative(g) && AllAtLeast(s, 0.0) ==> g[i][j] * s[j] / (n - 1) as real >= 0.0 by {
        if NonNegative(g) && AllAtLeast(s, 0.0) {
          var w, x, m := g[i][j], s[j], (n - 1) as real;
          assert w >= 0.0 && x >= 0.0 && m > 0.0;
          assert w * x >= 0.0;
        }
      }
      g[i][j] * s[j] / (n - 1) as real
  }

  /** Sum of the shares of the neighbours `j < k` of `i`. */
  function RowSum(g: Graph, n: nat, s: seq<real>, i: nat, k: nat): (r: real)
    requires IsComplete(g, n) && |s| == n && i < n && k <= n
    ensures NonNegative(g) && AllAtLeast(s, 0.0) ==> r >= 0.0
  {
    if k == 0 then 0.0 else RowSum(g, n, s, i, k - 1) + Share(g, n, s, i, k - 1)
  }

  /** One round: the new score of every node from the old scores. */
  function Step(g: Graph, n: nat, d: real, s: seq<real>): (r: seq<real>)
    requires IsComplete(g, n) && |s| == n
    ensures |r| == n
  {
    seq(n, i requires 0 <= i < n => (1.0 - d) + d * RowSum(g, n, s, i, n))
  }

  /** The scores after `rounds` rounds, starting from all ones. */
  function Scores(g: Graph, n: nat, d: real, rounds: nat): (r: seq<real>)
    requires IsComplete(g, n)
    ensures |r| == n
  {
    if rounds == 0 then seq(n, _ => 1.0) else Step(g, n, d, Scores(g, n, d, rounds - 1))
  }

  predicate AllAtLeast(s: seq<real>, lo: real)
  {
    forall i :: 0 <= i < |s| ==> s[i] >= lo
  }

  lemma {:induction false} StepLowerBound(g: Graph, n: nat, d: real, s: seq<real>)
    requires IsComplete(g, n) && |s| == n
    requires NonNegative(g) && AllAtLeast(s, 0.0) && 0.0 <= d <= 1.0
    ensures AllAtLeast(Step(g, n, d, s), 1.0 - d)
  {
    forall i | 0 <= i < n
      ensures Step(g, n, d, s)[i] >= 1.0 - d
    {
      assert d * RowSum(g, n, s, i, n) >= 0.0;
    }
  }

  /**
   * With non-negative weights and a damping factor in [0, 1], every score is
   * at least `1 - d` once at least one round has run (and at least 0 always).
   */
  lemma {:induction false} ScoresLowerBound(g: Graph, n: nat, d: real, rounds: nat)
    requires IsComplete(g, n) && NonNegative(g) && 0.0 <= d <= 1.0
    ensures AllAtLeast(Scores(g, n, d, rounds), 0.0)
    ensures rounds >= 1 ==> AllAtLeast(Scores(g, n, d, rounds), 1.0 - d)
  {
    if rounds > 0 {
      ScoresLowerBound(g, n, d, rounds - 1);
      StepLowerBound(g, n, d, Scores(g, n, d, rounds - 1));
    }
  }

  /** A single sentence has no neighbours, so after any round its score is exactly `1 - d`. */
  lemma {:induction false} SingleSentenceScore(g: Graph, d: real, rounds: nat)
    requires IsComplete(g, 1) && rounds >= 1
    ensures Scores(g, 1, d, rounds) == [1.0 - d]
  {
    var s := Scores(g, 1, d, rounds - 1);
    assert Share(g, 1, s, 0, 0) == 0.0;
    assert RowSum(g, 1, s, 0, 1) == 0.0;
    assert Step(g, 1, d, s)[0] == 1.0 - d;
  }

  /**
   * `runTextRank`'s loops: all ones, then `rounds` rounds, each of which builds
   * a fresh vector from the previous one, dividing every contribution by the
   * out-degree of the contributing node.
   */
  method PowerIteration(g: Graph, n: nat, d: real, rounds: nat) returns (scores: seq<real>)
    requires IsComplete(g, n)
    ensures scores == Scores(g, n, d, rounds)
  {
    scores := [];
    var i := 0;
    while i < n
      invariant i <= n
      invariant scores == seq(i, _ => 1.0)
    {
      scores := scores + [1.0];
      i := i + 1;
    }
    var iter := 0;
    while iter < rounds
      invariant iter <= rounds
      invariant scores == Scores(g, n, d, iter)
    {
      scores := NextScores(g, n, d, scores);
      iter := iter + 1;
    }
  }

  /** One round of `runTextRank`: the new vector, node by node. */
  method NextScores(g: Graph, n: nat, d: real, scores: seq<real>) returns (newScores: seq<real>)
    requires IsComplete(g, n) && |scores| == n
    ensures newScores == Step(g, n, d, scores)
  {
    newScores := [];
    var i: nat := 0;
    while i < n
      invariant i <= n && |newScores| == i
      invariant forall k :: 0 <= k < i ==> newScores[k] == Step(g, n, d, scores)[k]
    {
      var sum := NeighbourSum(g, n, scores, i);
      newScores := newScores + [(1.0 - d) + d * sum];
      i := i + 1;
    }
  }

  /** The inner loop over `graph[i]`: each neighbour's score, weighted, over its out-degree. */
  method NeighbourSum(g: Graph, n: nat, scores: seq<real>, i: nat) returns (sum: real)
    requires IsComplete(g, n) && |scores| == n && i < n
    ensures sum == RowSum(g, n, scores, i, n)
  {
    sum := 0.0;
    var j := 0;
    while j < n
      invariant j <= n
      invariant sum == RowSum(g, n, scores, i, j)
    {
      RowSumStep(g, n, scores, i, j);
      if j in g[i] {
        sum := sum + g[i][j] * scores[j] / |g[j].Keys| as real;
      }
      j := j + 1;
    }
  }

  /** The loop's view of `RowSum`: an edge `i -> j` adds its weighted score over `j`'s out-degree. */
  lemma {:induction false} RowSumStep(g: Graph, n: nat, s: seq<real>, i: nat, j: nat)
    requires IsComplete(g, n) && |s| == n && i < n && j < n
    ensures j in g && |g[j].Keys| == n - 1 && (j in g[i] <==> j != i)
    ensures RowSum(g, n, s, i, j + 1) ==
      RowSum(g, n, s, i, j) + (if j in g[i] then g[i][j] * s[j] / |g[j].Keys| as real else 0.0)
  {
    CompleteOutDegree(g, n, j);
    assert i in g;
  }
}
