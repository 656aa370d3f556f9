/**
 * The edge weight of the sentence graph, `TextRank.calculateSimilarity`:
 * lexical overlap divided by the sum of the natural logarithms of the two
 * sentences' word counts.
 */
module Similarity {
  import opened Text

  /**
   * `Math.log` enters the model as a parameter; all that is assumed of it is
   * that ln 1 = 0 and ln k > 0 for every whole k > 1.
   */
  ghost predicate IsLog(ln: nat -> real)
  {
    ln(1) == 0.0 && forall k: nat :: k > 1 ==> ln(k) > 0.0
  }

  /** `sentence.toLowerCase().split(/\s+/)`. */
  function Words(sentence: string): (w: seq<string>)
    ensures |w| >= 1
  {
    JsSplitWs(AsciiLower(sentence))
  }

  /** `words1.filter(word => words2.includes(word))`. */
  function CommonWords(words1: seq<string>, words2: seq<string>): (r: seq<string>)
    ensures |r| <= |words1|
  {
    if words1 == [] then []
    else
      var rest := CommonWords(words1[1..], words2);
      if words1[0] in words2 then [words1[0]] + rest else rest
  }

  /**
   * The overlap holds every occurrence in `words1` of a word that occurs
   * anywhere in `words2`, and nothing else, so it is never longer than `words1`.
   */
  lemma {:induction false} CommonWordsFacts(words1: seq<string>, words2: seq<string>)
    ensures |CommonWords(words1, words2)| <= |words1|
    ensures forall x :: x in CommonWords(words1, words2) <==> x in words1 && x in words2
    ensures forall x :: multiset(CommonWords(words1, words2))[x] == (if x in words2 then multiset(words1)[x] else 0)
  {
    if words1 != [] {
      CommonWordsFacts(words1[1..], words2);
      assert words1 == [words1[0]] + words1[1..];
    }
  }

  /**
   * Only which words occur in the second list matters: how often they occur
   * there does not change the overlap count.
   */
  lemma {:induction false} CommonCountUsesMembershipOnly(words1: seq<string>, words2: seq<string>, other: seq<string>)
    requires forall x :: x in words2 <==> x in other
    ensures |CommonWords(words1, words2)| == |CommonWords(words1, other)|
  {
    if words1 != [] {
      CommonCountUsesMembershipOnly(words1[1..], words2, other);
    }
  }

  /** The denominator `Math.log(words1.length) + Math.log(words2.length)`. */
  function Denominator(sent1: string, sent2: string, ln: nat -> real): (r: real)
    ensures IsLog(ln) ==> r >= 0.0
  {
    ln(|Words(sent1)|) + ln(|Words(sent2)|)
  }

  /**
   * The denominator is symmetric, never negative, and zero exactly when both
   * sentences consist of a single word.
   */
  lemma {:induction false} DenominatorFacts(sent1: string, sent2: string, ln: nat -> real)
    requires IsLog(ln)
    ensures Denominator(sent1, sent2, ln) == Denominator(sent2, sent1, ln)
    ensures Denominator(sent1, sent2, ln) >= 0.0
    ensures Denominator(sent1, sent2, ln) == 0.0 <==> |Words(sent1)| == 1 && |Words(sent2)| == 1
  {
    var a, b := |Words(sent1)|, |Words(sent2)|;
    assert a > 1 ==> ln(a) > 0.0;
    assert b > 1 ==> ln(b) > 0.0;
  }

  /**
   * The edge weight, with the zero-denominator case defined as weight 0 (the
   * source divides by zero there; see `WeightAsWritten`).
   */
  function Weight(sent1: string, sent2: string, ln: nat -> real): (r: real)
    ensures IsLog(ln) ==> r >= 0.0
  {
    var d := Denominator(sent1, sent2, ln);
    var common := |CommonWords(Words(sent1), Words(sent2))|;
    if d == 0.0 then 0.0
    else
      assert IsLog(ln) ==> common as real / d >= 0.0 by {
        if IsLog(ln) {
          QuotientFacts(common as real, common as real, d);
        }
      }
      common as real / d
  }

  lemma {:induction false} QuotientFacts(c: real, m: real, d: real)
    requires 0.0 <= c <= m && d > 0.0
    ensures c / d >= 0.0
    ensures c / d == 0.0 <==> c == 0.0
    ensures c / d <= m / d
  {
    assert (c / d) * d == c;
    assert (m / d) * d == m;
    assert m / d - c / d == (m - c) / d;
  }

  /**
   * Every weight is a finite non-negative number, zero exactly when the
   * sentences share no word or both are single words, and at most the first
   * sentence's word count over the denominator.
   */
  lemma {:induction false} WeightFacts(sent1: string, sent2: string, ln: nat -> real)
    requires IsLog(ln)
    ensures Weight(sent1, sent2, ln) >= 0.0
    ensures Weight(sent1, sent2, ln) == 0.0 <==>
      CommonWords(Words(sent1), Words(sent2)) == [] || (|Words(sent1)| == 1 && |Words(sent2)| == 1)
    ensures Denominator(sent1, sent2, ln) > 0.0 ==>
      Weight(sent1, sent2, ln) <= |Words(sent1)| as real / Denominator(sent1, sent2, ln)
  {
    DenominatorFacts(sent1, sent2, ln);
    CommonWordsFacts(Words(sent1), Words(sent2));
    var d := Denominator(sent1, sent2, ln);
    var common := CommonWords(Words(sent1), Words(sent2));
    if d > 0.0 {
      QuotientFacts(|common| as real, |Words(sent1)| as real, d);
    }
  }

  /** A JavaScript number as far as the similarity can produce one. */
  datatype JsNumber = Finite(value: real) | NaN | Infinity

  /** `calculateSimilarity` as written, where x / 0 is NaN for x = 0 and Infinity otherwise. */
  function WeightAsWritten(sent1: string, sent2: string, ln: nat -> real): (w: JsNumber)
    ensures w.Finite? <==> Denominator(sent1, sent2, ln) != 0.0
    ensures w.Finite? ==> w.value == Weight(sent1, sent2, ln)
    ensures !w.Finite? ==> Weight(sent1, sent2, ln) == 0.0
  {
    var d := Denominator(sent1, sent2, ln);
    var common := |CommonWords(Words(sent1), Words(sent2))|;
    if d != 0.0 then Finite(common as real / d)
    else if common == 0 then NaN
    else Infinity
  }

  lemma {:induction false} OneWordLower(sentence: string, lower: string)
    requires |sentence| == 3
    requires lower == AsciiLower(sentence)
    requires forall i :: 0 <= i < 3 ==> !IsJsSpace(lower[i])
    ensures Words(sentence) == [lower]
  {
    assert NoJsSpace(lower);
  }

  /**
   * Two adjacent one-word sentences ("Hi." and "Yo." from "Hi.Yo.") make the
   * denominator 0: the source's weight is NaN, and Infinity when the two words
   * agree.
   */
  lemma {:induction false} OneWordSentencesBreakWeight(ln: nat -> real)
    requires IsLog(ln)
    ensures WeightAsWritten("Hi.", "Yo.", ln) == NaN
    ensures WeightAsWritten("Hi.", "Hi.", ln) == Infinity
    ensures Weight("Hi.", "Yo.", ln) == 0.0
  {
    OneWordLower("Hi.", "hi.");
    OneWordLower("Yo.", "yo.");
    assert Denominator("Hi.", "Yo.", ln) == 0.0;
    assert CommonWords(["hi."], ["yo."]) == [] by {
      assert "hi." != "yo." by { assert "hi."[0] != "yo."[0]; }
    }
    assert CommonWords(["hi."], ["hi."]) == ["hi."];
  }

  /** `s.split(/\s+/)` on a one-letter word and one blank in front of a word. */
  lemma {:induction false} SplitLetterPrefix(a: char, t: string)
    requires !IsJsSpace(a) && t != [] && !IsJsSpace(t[0])
    ensures JsSplitWs([a, ' '] + t) == [[a]] + JsSplitWs(t)
  {
    var s := [a, ' '] + t;
    assert JsWordLength(s[1..]) == 0;
    assert JsWordLength(s) == 1;
    assert JsSpaceLength(s[2..]) == 0;
    assert JsSpaceLength(s[1..]) == 1;
    assert s[2..] == t && s[..1] == [a];
  }

  lemma {:induction false} LowerIsIdentity(s: string)
    requires forall i :: 0 <= i < |s| ==> !('A' <= s[i] <= 'Z')
    ensures AsciiLower(s) == s
  {
  }

  lemma {:induction false} SplitLetterThenWord(a: char, w: string)
    requires !IsJsSpace(a) && w != [] && NoJsSpace(w)
    ensures JsSplitWs([a, ' '] + w) == [[a], w]
  {
    SplitLetterPrefix(a, w);
  }

  lemma {:induction false} SplitTwoLettersThenWord(a: char, b: char, w: string)
    requires !IsJsSpace(a) && !IsJsSpace(b) && w != [] && NoJsSpace(w)
    ensures JsSplitWs([a, ' '] + ([b, ' '] + w)) == [[a], [b], w]
  {
    var t := [b, ' '] + w;
    SplitLetterThenWord(b, w);
    SplitLetterPrefix(a, t);
    assert [[a]] + [[b], w] == [[a], [b], w];
  }

  lemma {:induction false} WordsOfXXZ(s: string)
    requires s == "x x z."
    ensures Words(s) == ["x", "x", "z."]
  {
    LowerIsIdentity(s);
    assert s == ['x', ' '] + (['x', ' '] + "z.");
    SplitTwoLettersThenWord('x', 'x', "z.");
  }

  lemma {:induction false} WordsOfXY(s: string)
    requires s == "x y."
    ensures Words(s) == ["x", "y."]
  {
    LowerIsIdentity(s);
    assert s == ['x', ' '] + "y.";
    SplitLetterThenWord('x', "y.");
  }

  /** The overlap counts each occurrence in its first argument. */
  lemma {:induction false} OverlapCounts(x: string, y: string, z: string)
    requires x != y && x != z && y != z
    ensures |CommonWords([x, x, z], [x, y])| == 2
    ensures |CommonWords([x, y], [x, x, z])| == 1
  {
    var w1, w2 := [x, x, z], [x, y];
    assert CommonWords(w1[2..], w2) == [];
    assert CommonWords(w1[1..], w2) == [x] + CommonWords(w1[2..], w2);
    assert CommonWords(w2[1..], w1) == [];
  }

  /**
   * The weight is not symmetric: only the occurrences in the first sentence
   * are counted ("x x z." against "x y." overlaps twice, the reverse once).
   */
  lemma {:induction false} WeightNotSymmetric(sent1: string, sent2: string, ln: nat -> real)
    requires sent1 == "x x z." && sent2 == "x y." && IsLog(ln)
    ensures Weight(sent1, sent2, ln) == 2.0 * Weight(sent2, sent1, ln)
    ensures Weight(sent2, sent1, ln) > 0.0
  {
    WordsOfXXZ(sent1);
    WordsOfXY(sent2);
    var x, y, z := "x", "y.", "z.";
    assert x[0] != y[0] && x[0] != z[0] && y[0] != z[0];
    OverlapCounts(x, y, z);
    var d := ln(3) + ln(2);
    assert Denominator(sent1, sent2, ln) == d && Denominator(sent2, sent1, ln) == d;
    assert ln(3) > 0.0 && ln(2) > 0.0;
    Halving(d);
    assert Weight(sent1, sent2, ln) == 2.0 / d;
    assert Weight(sent2, sent1, ln) == 1.0 / d;
  }

  lemma {:induction false} Halving(d: real)
    requires d > 0.0
    ensures 2.0 / d == 2.0 * (1.0 / d) && 1.0 / d > 0.0
  {
  }
}
