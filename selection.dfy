/**
 * Choosing the summary sentences in `TextRank.summarize`: the sentence indices
 * are sorted by descending score (ties keep ascending index, since the keys
 * come in ascending order and the sort is stable), the first `k` are kept,
 * and those are sorted back into ascending index order.
 */
module Selection {
  import opened Text

  /** The two orders the summariser sorts by. */
  datatype Order = ByScore(scores: seq<real>) | ByIndex

  predicate InRange(ord: Order, a: nat)
  {
    ord.ByIndex? || a < |ord.scores|
  }

  predicate AllInRange(ord: Order, o: seq<nat>)
  {
    forall p :: 0 <= p < |o| ==> InRange(ord, o[p])
  }

  /**
   * `a` comes before `b`: by descending score with ties going to the lower
   * index, or by ascending index.
   */
  predicate Before(ord: Order, a: nat, b: nat)
  {
    match ord
    case ByIndex => a < b
    case ByScore(s) => a < |s| && b < |s| && (s[a] > s[b] || (s[a] == s[b] && a < b))
  }

  /** `Before` is a strict total order on the indices in range. */
  lemma {:induction false} BeforeIsStrictTotal(ord: Order, a: nat, b: nat, c: nat)
    ensures !Before(ord, a, a)
    ensures Before(ord, a, b) ==> !Before(ord, b, a)
    ensures Before(ord, a, b) && Before(ord, b, c) ==> Before(ord, a, c)
    ensures InRange(ord, a) && InRange(ord, b) && a != b ==> Before(ord, a, b) || Before(ord, b, a)
  {
  }

  predicate SortedBy(ord: Order, o: seq<nat>)
  {
    forall p, q :: 0 <= p < q < |o| ==> Before(ord, o[p], o[q])
  }

  predicate Distinct(o: seq<nat>)
  {
    forall p, q :: 0 <= p < q < |o| ==> o[p] != o[q]
  }

  /** Insert `x` in front of the first element it comes before. */
  function Insert(ord: Order, x: nat, o: seq<nat>): (r: seq<nat>)
    ensures multiset(r) == multiset(o) + multiset{x}
  {
    if o == [] then [x]
    else if Before(ord, x, o[0]) then [x] + o
    else
      assert o == [o[0]] + o[1..];
      [o[0]] + Insert(ord, x, o[1..])
  }

  /** Insertion sort. */
  function Sort(ord: Order, o: seq<nat>): (r: seq<nat>)
    ensures multiset(r) == multiset(o)
    ensures |r| == |o|
  {
    if o == [] then []
    else
      assert o == [o[0]] + o[1..];
      Insert(ord, o[0], Sort(ord, o[1..]))
  }

  lemma {:induction false} InRangeByMembership(ord: Order, a: seq<nat>, b: seq<nat>)
    requires AllInRange(ord, b) && multiset(a) <= multiset(b)
    ensures AllInRange(ord, a)
  {
    forall p | 0 <= p < |a|
      ensures InRange(ord, a[p])
    {
      assert a[p] in multiset(a);
      assert a[p] in multiset(b);
      var q :| 0 <= q < |b| && b[q] == a[p];
    }
  }

  /** An element that comes before every element of a sorted sequence can go in front of it. */
  lemma {:induction false} PrependSorted(ord: Order, x: nat, o: seq<nat>)
    requires SortedBy(ord, o) && forall q :: 0 <= q < |o| ==> Before(ord, x, o[q])
    ensures SortedBy(ord, [x] + o)
  {
    var r := [x] + o;
    forall p, q | 0 <= p < q < |r|
      ensures Before(ord, r[p], r[q])
    {
      assert r[q] == o[q - 1];
      if p > 0 {
        assert r[p] == o[p - 1];
      }
    }
  }

  /** What comes before `x` and every element of `o` comes before every element of `o` with `x` inserted. */
  lemma {:induction false} BeforeInserted(ord: Order, h: nat, x: nat, o: seq<nat>)
    requires Before(ord, h, x) && forall q :: 0 <= q < |o| ==> Before(ord, h, o[q])
    ensures forall q :: 0 <= q < |Insert(ord, x, o)| ==> Before(ord, h, Insert(ord, x, o)[q])
  {
    var it := Insert(ord, x, o);
    forall q | 0 <= q < |it|
      ensures Before(ord, h, it[q])
    {
      assert it[q] in multiset(it);
      if it[q] != x {
        assert it[q] in multiset(o);
        var p :| 0 <= p < |o| && o[p] == it[q];
      }
    }
  }

  lemma {:induction false} InsertSorted(ord: Order, x: nat, o: seq<nat>)
    requires SortedBy(ord, o) && AllInRange(ord, o) && InRange(ord, x) && x !in o
    ensures SortedBy(ord, Insert(ord, x, o))
  {
    if o == [] {
    } else if Before(ord, x, o[0]) {
      forall q | 0 <= q < |o|
        ensures Before(ord, x, o[q])
      {
        BeforeIsStrictTotal(ord, x, o[0], o[q]);
      }
      PrependSorted(ord, x, o);
    } else {
      BeforeIsStrictTotal(ord, x, o[0], x);
      var tail := o[1..];
      assert SortedBy(ord, tail) && AllInRange(ord, tail);
      assert forall q :: 0 <= q < |tail| ==> Before(ord, o[0], tail[q]) by {
        forall q | 0 <= q < |tail|
          ensures Before(ord, o[0], tail[q])
        {
          assert tail[q] == o[q + 1];
        }
      }
      InsertSorted(ord, x, tail);
      BeforeInserted(ord, o[0], x, tail);
      PrependSorted(ord, o[0], Insert(ord, x, tail));
    }
  }

  lemma {:induction false} SortSorted(ord: Order, o: seq<nat>)
    requires Distinct(o) && AllInRange(ord, o)
    ensures SortedBy(ord, Sort(ord, o))
    ensures AllInRange(ord, Sort(ord, o))
  {
    if o == [] {
    } else {
      var tail := o[1..];
      assert Distinct(tail) && AllInRange(ord, tail);
      SortSorted(ord, tail);
      var st := Sort(ord, tail);
      assert o[0] !in tail;
      assert o[0] !in multiset(tail);
      assert o[0] !in st;
      InsertSorted(ord, o[0], st);
      assert multiset(Sort(ord, o)) <= multiset(o);
      InRangeByMembership(ord, Sort(ord, o), o);
    }
  }

  lemma {:induction false} SortedIsDistinct(ord: Order, o: seq<nat>)
    requires SortedBy(ord, o)
    ensures Distinct(o)
  {
    forall p, q | 0 <= p < q < |o|
      ensures o[p] != o[q]
    {
      BeforeIsStrictTotal(ord, o[p], o[q], o[q]);
    }
  }

  lemma {:induction false} SortedSameHead(ord: Order, a: seq<nat>, b: seq<nat>)
    requires SortedBy(ord, a) && SortedBy(ord, b) && multiset(a) == multiset(b) && a != []
    ensures b != [] && a[0] == b[0]
  {
    assert |a| == |multiset(a)| == |multiset(b)| == |b|;
    assert a[0] in multiset(b);
    var q := Position(b, a[0]);
    assert b[0] in multiset(a);
    var p := Position(a, b[0]);
    assert q > 0 ==> Before(ord, b[0], a[0]);
    assert p > 0 ==> Before(ord, a[0], b[0]);
    BeforeIsStrictTotal(ord, a[0], b[0], a[0]);
  }

  lemma {:induction false} TailMultiset(a: seq<nat>)
    requires a != []
    ensures multiset(a[1..]) == multiset(a) - multiset{a[0]}
  {
    assert a == [a[0]] + a[1..];
  }

  /**
   * Two sequences sorted by the same order and holding the same elements are
   * equal: any correct sort, the stable sort of the summariser included, yields
   * the order computed here.
   */
  lemma {:induction false} SortedUnique(ord: Order, a: seq<nat>, b: seq<nat>)
    requires SortedBy(ord, a) && SortedBy(ord, b) && multiset(a) == multiset(b)
    ensures a == b
  {
    if a != [] {
      SortedSameHead(ord, a, b);
      TailMultiset(a);
      TailMultiset(b);
      SortedUnique(ord, a[1..], b[1..]);
      assert a == [a[0]] + a[1..] && b == [b[0]] + b[1..];
    } else {
      assert |b| == |multiset(b)| == 0;
    }
  }

  /** The keys `0 .. n-1` of the score object, in ascending order. */
  function Range(n: nat): (r: seq<nat>)
    ensures |r| == n && forall p :: 0 <= p < n ==> r[p] == p
  {
    seq(n, p => p)
  }

  lemma {:induction false} ByScoreFacts(scores: seq<real>)
    ensures |Sort(ByScore(scores), Range(|scores|))| == |scores|
    ensures SortedBy(ByScore(scores), Sort(ByScore(scores), Range(|scores|)))
    ensures forall b :: 0 <= b < |scores| ==> b in Sort(ByScore(scores), Range(|scores|))
  {
    var n, ord := |scores|, ByScore(scores);
    var o := Sort(ord, Range(n));
    assert |o| == |multiset(o)| == |multiset(Range(n))| == n;
    SortSorted(ord, Range(n));
    forall b | 0 <= b < n
      ensures b in o
    {
      assert Range(n)[b] == b;
      assert b in multiset(Range(n));
    }
  }

  /** Position of the first `x` in `o`. */
  function Position(o: seq<nat>, x: nat): (p: nat)
    requires x in o
    ensures p < |o| && o[p] == x
  {
    if o[0] == x then 0 else 1 + Position(o[1..], x)
  }

  /** The indices with the `min(k, n)` best scores, in descending order of score. */
  function Top(scores: seq<real>, k: nat): (r: seq<nat>)
    ensures |r| == Min(k, |scores|)
  {
    var byScore := Sort(ByScore(scores), Range(|scores|));
    byScore[..Min(k, |byScore|)]
  }

  /** The indices of the chosen sentences, in ascending order. */
  function SelectIndices(scores: seq<real>, k: nat): (r: seq<nat>)
    ensures |r| == Min(k, |scores|)
  {
    Sort(ByIndex, Top(scores, k))
  }

  lemma {:induction false} TopFacts(scores: seq<real>, k: nat)
    ensures |Top(scores, k)| == Min(k, |scores|)
    ensures Distinct(Top(scores, k))
    ensures forall a :: a in SelectIndices(scores, k) <==> a in Top(scores, k)
    ensures SortedBy(ByIndex, SelectIndices(scores, k))
  {
    var ord := ByScore(scores);
    ByScoreFacts(scores);
    var top := Top(scores, k);
    assert SortedBy(ord, top);
    SortedIsDistinct(ord, top);
    SortSorted(ByIndex, top);
    var r := SelectIndices(scores, k);
    forall a
      ensures a in r <==> a in top
    {
      assert a in r <==> a in multiset(r);
      assert a in top <==> a in multiset(top);
    }
  }

  lemma {:induction false} SelectLengthAndRange(scores: seq<real>, k: nat)
    ensures |SelectIndices(scores, k)| == Min(k, |scores|)
    ensures forall p :: 0 <= p < |SelectIndices(scores, k)| ==> SelectIndices(scores, k)[p] < |scores|
  {
    TopFacts(scores, k);
    ByScoreFacts(scores);
    var n := |scores|;
    var r, top := SelectIndices(scores, k), Top(scores, k);
    assert |r| == |multiset(r)| == |multiset(top)| == |top|;
    SortSorted(ByScore(scores), Range(n));
    var o := Sort(ByScore(scores), Range(n));
    assert AllInRange(ByScore(scores), o);
    forall p | 0 <= p < |r|
      ensures r[p] < n
    {
      assert r[p] in top;
      var q :| 0 <= q < |top| && top[q] == r[p];
      assert top[q] == o[q];
    }
  }

  /** Every index in the top part comes before every index past it. */
  lemma {:induction false} TopBeatsRest(scores: seq<real>, k: nat, p: nat, q: nat)
    requires p < Min(k, |scores|) <= q < |scores|
    ensures |Top(scores, k)| == Min(k, |scores|) && |Sort(ByScore(scores), Range(|scores|))| == |scores| &&
      Before(ByScore(scores), Top(scores, k)[p], Sort(ByScore(scores), Range(|scores|))[q])
  {
    ByScoreFacts(scores);
  }

  lemma {:induction false} SelectBeatsRest(scores: seq<real>, k: nat, a: nat, b: nat)
    requires a in SelectIndices(scores, k) && a < |scores| && b < |scores| && b !in SelectIndices(scores, k)
    ensures scores[a] > scores[b] || (scores[a] == scores[b] && a < b)
  {
    TopFacts(scores, k);
    ByScoreFacts(scores);
    var o := Sort(ByScore(scores), Range(|scores|));
    var top := Top(scores, k);
    var p := Position(top, a);
    var q := Position(o, b);
    assert q >= |top|;
    TopBeatsRest(scores, k, p, q);
  }

  /**
   * `min(k, n)` distinct indices below `n`, in ascending order, such that every
   * chosen index beats every index left out: a higher score, or an equal score
   * and a lower index.
   */
  lemma {:induction false} SelectIndicesFacts(scores: seq<real>, k: nat)
    ensures |SelectIndices(scores, k)| == Min(k, |scores|)
    ensures forall p :: 0 <= p < |SelectIndices(scores, k)| ==> SelectIndices(scores, k)[p] < |scores|
    ensures forall p, q :: 0 <= p < q < |SelectIndices(scores, k)| ==>
      SelectIndices(scores, k)[p] < SelectIndices(scores, k)[q]
    ensures forall a, b :: a in SelectIndices(scores, k) && 0 <= b < |scores| && b !in SelectIndices(scores, k) ==>
      scores[a] > scores[b] || (scores[a] == scores[b] && a < b)
  {
    TopFacts(scores, k);
    SelectLengthAndRange(scores, k);
    forall a, b | a in SelectIndices(scores, k) && 0 <= b < |scores| && b !in SelectIndices(scores, k)
      ensures scores[a] > scores[b] || (scores[a] == scores[b] && a < b)
    {
      SelectBeatsRest(scores, k, a, b);
    }
  }

  /** Asking for at least as many sentences as there are keeps every one of them, in order. */
  lemma {:induction false} SelectAll(scores: seq<real>, k: nat)
    requires k >= |scores|
    ensures SelectIndices(scores, k) == Range(|scores|)
  {
    var n, ord := |scores|, ByScore(scores);
    var o := Sort(ord, Range(n));
    ByScoreFacts(scores);
    assert o[..n] == o;
    SortedIsDistinct(ord, o);
    SortSorted(ByIndex, o);
    SortedUnique(ByIndex, Sort(ByIndex, o), Range(n));
  }
}
