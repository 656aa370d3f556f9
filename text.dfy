/**
 * String operations of JavaScript and Python that the summariser and the
 * message processor rely on, written out over `seq<char>`.
 */
module Text {

  function Min(a: nat, b: nat): nat
  {
    if a <= b then a else b
  }

  /** The pieces of `parts` glued end to end. */
  function Concat(parts: seq<string>): string
  {
    if parts == [] then "" else parts[0] + Concat(parts[1..])
  }

  lemma {:induction false} ConcatAppend(a: seq<string>, b: seq<string>)
    ensures Concat(a + b) == Concat(a) + Concat(b)
  {
    if a == [] {
      assert a + b == b;
    } else {
      assert (a + b)[1..] == a[1..] + b;
      ConcatAppend(a[1..], b);
    }
  }

  lemma {:induction false} ConcatCons(head: string, tail: seq<string>)
    ensures Concat([head] + tail) == head + Concat(tail)
  {
    assert ([head] + tail)[1..] == tail;
  }

  /** JavaScript `Array.prototype.join(sep)`. */
  function Join(parts: seq<string>, sep: string): string
  {
    if |parts| == 0 then ""
    else if |parts| == 1 then parts[0]
    else parts[0] + sep + Join(parts[1..], sep)
  }

  /** Number of occurrences of `c` in `s`. */
  function Count(s: string, c: char): nat
  {
    if s == [] then 0 else (if s[0] == c then 1 else 0) + Count(s[1..], c)
  }

  /**
   * JavaScript `s.split(c)` for a one-character separator: the maximal pieces
   * between separators, empty pieces included; never an empty list.
   */
  function SplitOn(s: string, c: char): (r: seq<string>)
    ensures |r| >= 1
  {
    if s == [] then [""]
    else
      var r := SplitOn(s[1..], c);
      if s[0] == c then [""] + r else [[s[0]] + r[0]] + r[1..]
  }

  lemma {:induction false} CountAbsent(s: string, c: char)
    requires c !in s
    ensures Count(s, c) == 0
  {
    if s != [] {
      assert c !in s[1..] by { forall k | 0 <= k < |s[1..]| ensures s[1..][k] != c { assert s[1..][k] == s[k + 1]; } }
      CountAbsent(s[1..], c);
    }
  }

  lemma {:induction false} CountPresent(s: string, c: char, k: nat)
    requires k < |s| && s[k] == c
    ensures Count(s, c) >= 1
  {
    if k > 0 {
      CountPresent(s[1..], c, k - 1);
    }
  }

  /** `s.split(c)` has one piece more than `s` has separators. */
  lemma {:induction false} SplitOnLength(s: string, c: char)
    ensures |SplitOn(s, c)| == Count(s, c) + 1
  {
    if s != [] {
      SplitOnLength(s[1..], c);
    }
  }

  /** A character put in front of the first piece joins in front of the whole join. */
  lemma {:induction false} JoinPrepend(x: string, parts: seq<string>, sep: string)
    requires |parts| >= 1
    ensures Join([x + parts[0]] + parts[1..], sep) == x + Join(parts, sep)
  {
    var q := [x + parts[0]] + parts[1..];
    if |parts| > 1 {
      assert q[1..] == parts[1..];
    }
  }

  /** Joining the pieces of `s.split(c)` with `c` gives back `s`. */
  lemma {:induction false} JoinSplitOn(s: string, c: char)
    ensures Join(SplitOn(s, c), [c]) == s
  {
    if s != [] {
      var r := SplitOn(s[1..], c);
      JoinSplitOn(s[1..], c);
      if s[0] == c {
        assert ([""] + r)[1..] == r;
      } else {
        JoinPrepend([s[0]], r, [c]);
      }
      assert s == [s[0]] + s[1..];
    }
  }

  /** The last piece of `s.split(c)` holds no `c`. */
  lemma {:induction false} LastPieceClean(s: string, c: char)
    ensures var pieces := SplitOn(s, c); c !in pieces[|pieces| - 1]
  {
    if s != [] {
      var r := SplitOn(s[1..], c);
      LastPieceClean(s[1..], c);
      if s[0] != c && |r| == 1 {
        assert SplitOn(s, c) == [[s[0]] + r[0]];
      }
    }
  }

  /** Whitespace as JavaScript's `\s` defines it. */
  predicate IsJsSpace(c: char)
  {
    ('\t' <= c <= '\r') || c == ' ' || c == '\U{00A0}' || c == '\U{1680}'
    || ('\U{2000}' <= c <= '\U{200A}') || c == '\U{2028}' || c == '\U{2029}'
    || c == '\U{202F}' || c == '\U{205F}' || c == '\U{3000}' || c == '\U{FEFF}'
  }

  /** Length of the leading run of non-whitespace characters of `s`. */
  function JsWordLength(s: string): (k: nat)
    ensures k <= |s|
    ensures forall i :: 0 <= i < k ==> !IsJsSpace(s[i])
    ensures k < |s| ==> IsJsSpace(s[k])
  {
    if s == [] || IsJsSpace(s[0]) then 0 else 1 + JsWordLength(s[1..])
  }

  /** Length of the leading run of whitespace characters of `s`. */
  function JsSpaceLength(s: string): (k: nat)
    ensures k <= |s|
    ensures forall i :: 0 <= i < k ==> IsJsSpace(s[i])
    ensures k < |s| ==> !IsJsSpace(s[k])
  {
    if s == [] || !IsJsSpace(s[0]) then 0 else 1 + JsSpaceLength(s[1..])
  }

  predicate NoJsSpace(s: string)
  {
    forall i :: 0 <= i < |s| ==> !IsJsSpace(s[i])
  }

  /** The characters of `s` that are not JavaScript whitespace, in order. */
  function StripJsSpace(s: string): string
  {
    if s == [] then "" else (if IsJsSpace(s[0]) then "" else [s[0]]) + StripJsSpace(s[1..])
  }

  /**
   * JavaScript `s.split(/\s+/)`: the pieces between maximal whitespace runs.
   * A leading (trailing) run yields an empty first (last) piece, and the empty
   * string yields `[""]`.
   */
  function JsSplitWs(s: string): (r: seq<string>)
    ensures |r| >= 1
    ensures forall i :: 0 <= i < |r| ==> NoJsSpace(r[i])
    ensures |s| > 0 && IsJsSpace(s[0]) ==> r[0] == ""
    ensures NoJsSpace(s) ==> r == [s]
    decreases |s|
  {
    var p := JsWordLength(s);
    if p == |s| then [s]
    else
      var q := p + JsSpaceLength(s[p..]);
      [s[..p]] + JsSplitWs(s[q..])
  }

  lemma {:induction false} StripJsSpaceAppend(a: string, b: string)
    ensures StripJsSpace(a + b) == StripJsSpace(a) + StripJsSpace(b)
  {
    if a == [] {
      assert a + b == b;
    } else {
      assert (a + b)[0] == a[0];
      assert (a + b)[1..] == a[1..] + b;
      StripJsSpaceAppend(a[1..], b);
    }
  }

  lemma {:induction false} StripNoSpace(s: string)
    requires NoJsSpace(s)
    ensures StripJsSpace(s) == s
  {
    if s != [] {
      StripNoSpace(s[1..]);
    }
  }

  lemma {:induction false} StripAllSpace(s: string)
    requires forall i :: 0 <= i < |s| ==> IsJsSpace(s[i])
    ensures StripJsSpace(s) == ""
  {
    if s != [] {
      StripAllSpace(s[1..]);
    }
  }

  lemma {:induction false} StripJsSpaceSplit(s: string, k: nat)
    requires k <= |s|
    ensures StripJsSpace(s) == StripJsSpace(s[..k]) + StripJsSpace(s[k..])
  {
    assert s == s[..k] + s[k..];
    StripJsSpaceAppend(s[..k], s[k..]);
  }

  lemma {:induction false} StripWordThenGap(s: string, p: nat, q: nat)
    requires p <= q <= |s|
    requires NoJsSpace(s[..p])
    requires forall i :: p <= i < q ==> IsJsSpace(s[i])
    ensures StripJsSpace(s) == s[..p] + StripJsSpace(s[q..])
  {
    var word, gap, rest := s[..p], s[p..q], s[q..];
    StripNoSpace(word);
    assert forall i :: 0 <= i < |gap| ==> IsJsSpace(gap[i]);
    StripAllSpace(gap);
    StripJsSpaceSplit(s, p);
    StripJsSpaceSplit(s[p..], q - p);
    assert s[p..][..q - p] == gap && s[p..][q - p..] == rest;
    assert StripJsSpace(s[p..]) == StripJsSpace(rest);
  }

  /** The tokens of `s.split(/\s+/)` hold exactly the non-whitespace characters of `s`. */
  lemma {:induction false} JsSplitWsContent(s: string)
    ensures Concat(JsSplitWs(s)) == StripJsSpace(s)
    decreases |s|
  {
    var p := JsWordLength(s);
    if p == |s| {
      assert NoJsSpace(s);
      StripNoSpace(s);
    } else {
      var q := p + JsSpaceLength(s[p..]);
      var tail := JsSplitWs(s[q..]);
      assert JsSplitWs(s) == [s[..p]] + tail;
      JsSplitWsContent(s[q..]);
      ConcatCons(s[..p], tail);
      StripWordThenGap(s, p, q);
    }
  }

  /** Whitespace as Python's `str.isspace` defines it. */
  predicate IsPySpace(c: char)
  {
    ('\t' <= c <= '\r') || ('\U{001C}' <= c <= ' ') || c == '\U{0085}' || c == '\U{00A0}'
    || c == '\U{1680}' || ('\U{2000}' <= c <= '\U{200A}') || c == '\U{2028}' || c == '\U{2029}'
    || c == '\U{202F}' || c == '\U{205F}' || c == '\U{3000}'
  }

  /** Length of the leading run of Python whitespace of `s`. */
  function PySpaceLength(s: string): (k: nat)
    ensures k <= |s|
    ensures forall i :: 0 <= i < k ==> IsPySpace(s[i])
    ensures k < |s| ==> !IsPySpace(s[k])
  {
    if s == [] || !IsPySpace(s[0]) then 0 else 1 + PySpaceLength(s[1..])
  }

  /** Length of the leading run of characters of `s` that are not Python whitespace. */
  function PyWordLength(s: string): (k: nat)
    ensures k <= |s|
    ensures forall i :: 0 <= i < k ==> !IsPySpace(s[i])
    ensures k < |s| ==> IsPySpace(s[k])
  {
    if s == [] || IsPySpace(s[0]) then 0 else 1 + PyWordLength(s[1..])
  }

  /**
   * Python `s.split()` with no separator: the maximal non-whitespace runs of
   * `s`, so no piece is empty and the empty or all-blank string gives `[]`.
   */
  function PySplit(s: string): (r: seq<string>)
    ensures forall i :: 0 <= i < |r| ==> IsPyWord(r[i])
    decreases |s|
  {
    if PySpaceLength(s) == |s| then []
    else [FirstPyWord(s)] + PySplit(s[PyWordEnd(s)..])
  }

  /** A non-empty string without Python whitespace. */
  predicate IsPyWord(w: string)
  {
    w != "" && forall k :: 0 <= k < |w| ==> !IsPySpace(w[k])
  }

  /** The first word of `s`. */
  function FirstPyWord(s: string): (w: string)
    requires PySpaceLength(s) < |s|
    ensures IsPyWord(w)
  {
    s[PySpaceLength(s)..PyWordEnd(s)]
  }

  /** Where the first word of `s` ends. */
  function PyWordEnd(s: string): (e: nat)
    requires PySpaceLength(s) < |s|
    ensures PySpaceLength(s) < e <= |s|
    ensures forall i :: PySpaceLength(s) <= i < e ==> !IsPySpace(s[i])
  {
    var a := PySpaceLength(s);
    var t := s[a..];
    assert forall i :: 0 <= i < PyWordLength(t) ==> s[a + i] == t[i];
    a + PyWordLength(t)
  }

  /** A string of whitespace only has no words. */
  lemma {:induction false} PySplitBlank(s: string)
    requires forall i :: 0 <= i < |s| ==> IsPySpace(s[i])
    ensures PySplit(s) == []
  {
    PySpaceLengthIs(s, |s|);
  }

  /**
   * Leading whitespace, then a maximal word: that word is the first piece,
   * and the rest of the string gives the remaining pieces.
   */
  lemma {:induction false} PySplitStep(s: string, a: nat, b: nat)
    requires a < b <= |s|
    requires forall i :: 0 <= i < a ==> IsPySpace(s[i])
    requires forall i :: a <= i < b ==> !IsPySpace(s[i])
    requires b < |s| ==> IsPySpace(s[b])
    ensures PySplit(s) == [s[a..b]] + PySplit(s[b..])
  {
    PySpaceLengthIs(s, a);
    var t := s[a..];
    assert forall i :: 0 <= i < b - a ==> t[i] == s[a + i];
    assert b - a < |t| ==> t[b - a] == s[b];
    PyWordLengthIs(t, b - a);
    assert PyWordEnd(s) == b;
  }

  /** A run of `n` whitespace characters ended by another character or the end of `t` is its leading gap. */
  lemma {:induction false} PySpaceLengthIs(t: string, n: nat)
    requires n <= |t|
    requires forall i :: 0 <= i < n ==> IsPySpace(t[i])
    requires n < |t| ==> !IsPySpace(t[n])
    ensures PySpaceLength(t) == n
  {
    if n > 0 {
      PySpaceLengthIs(t[1..], n - 1);
    }
  }

  /** A run of `n` non-whitespace characters ended by whitespace or the end of `t` is its leading word. */
  lemma {:induction false} PyWordLengthIs(t: string, n: nat)
    requires n <= |t|
    requires forall i :: 0 <= i < n ==> !IsPySpace(t[i])
    requires n < |t| ==> IsPySpace(t[n])
    ensures PyWordLength(t) == n
  {
    if n > 0 {
      PyWordLengthIs(t[1..], n - 1);
    }
  }

  /** The characters of `s` that are not Python whitespace, in order. */
  function StripPySpace(s: string): string
  {
    if s == [] then "" else (if IsPySpace(s[0]) then "" else [s[0]]) + StripPySpace(s[1..])
  }

  lemma {:induction false} StripPySpaceAppend(a: string, b: string)
    ensures StripPySpace(a + b) == StripPySpace(a) + StripPySpace(b)
  {
    if a == [] {
      assert a + b == b;
    } else {
      assert (a + b)[0] == a[0];
      assert (a + b)[1..] == a[1..] + b;
      StripPySpaceAppend(a[1..], b);
    }
  }

  lemma {:induction false} StripPyWord(s: string)
    requires forall i :: 0 <= i < |s| ==> !IsPySpace(s[i])
    ensures StripPySpace(s) == s
  {
    if s != [] {
      StripPyWord(s[1..]);
    }
  }

  lemma {:induction false} StripPyGap(s: string)
    requires forall i :: 0 <= i < |s| ==> IsPySpace(s[i])
    ensures StripPySpace(s) == ""
  {
    if s != [] {
      StripPyGap(s[1..]);
    }
  }

  /** A whitespace run, then a word, then the rest: only the word and what the rest keeps survive. */
  lemma {:induction false} StripPyGapThenWord(s: string, a: nat, b: nat)
    requires a <= b <= |s|
    requires forall i :: 0 <= i < a ==> IsPySpace(s[i])
    requires forall i :: a <= i < b ==> !IsPySpace(s[i])
    ensures StripPySpace(s) == s[a..b] + StripPySpace(s[b..])
  {
    var gap, word, rest := s[..a], s[a..b], s[b..];
    assert s == gap + (word + rest);
    StripPySpaceAppend(gap, word + rest);
    StripPySpaceAppend(word, rest);
    assert forall i :: 0 <= i < |gap| ==> IsPySpace(gap[i]);
    StripPyGap(gap);
    assert forall i :: 0 <= i < |word| ==> !IsPySpace(word[i]);
    StripPyWord(word);
  }

  /** The words of `s.split()` hold exactly the non-whitespace characters of `s`, in order. */
  lemma {:induction false} PySplitContent(s: string)
    ensures Concat(PySplit(s)) == StripPySpace(s)
    decreases |s|
  {
    var a := PySpaceLength(s);
    if a == |s| {
      StripPyGap(s);
    } else {
      var b := PyWordEnd(s);
      var tail := PySplit(s[b..]);
      assert PySplit(s) == [FirstPyWord(s)] + tail;
      PySplitContent(s[b..]);
      ConcatCons(FirstPyWord(s), tail);
      StripPyGapThenWord(s, a, b);
    }
  }

  /** Python `pat in s`. */
  predicate Contains(s: string, pat: string)
    decreases |s|
  {
    |pat| <= |s| && (s[..|pat|] == pat || Contains(s[1..], pat))
  }

  /** `pat` occurs in `s` starting at position `i`. */
  predicate OccursAt(s: string, pat: string, i: nat)
  {
    i + |pat| <= |s| && s[i..i + |pat|] == pat
  }

  /**
   * Python `s.split(pat)[0]`: the part of `s` before the first occurrence of
   * `pat`, or all of `s` when `pat` does not occur.
   */
  function BeforeFirst(s: string, pat: string): (r: string)
    requires pat != ""
    ensures r <= s
    decreases |s|
  {
    if |s| < |pat| then s
    else if s[..|pat|] == pat then ""
    else [s[0]] + BeforeFirst(s[1..], pat)
  }

  /**
   * `split(pat)[0]` stops at the first occurrence of `pat`: it holds no
   * `pat`, none starts before its end, one starts right after it exactly when
   * `pat` occurs in `s`, and without an occurrence it is the whole string.
   */
  lemma {:induction false} BeforeFirstIsFirst(s: string, pat: string)
    requires pat != ""
    ensures !Contains(BeforeFirst(s, pat), pat)
    ensures forall i :: 0 <= i < |BeforeFirst(s, pat)| ==> !OccursAt(s, pat, i)
    ensures Contains(s, pat) <==> OccursAt(s, pat, |BeforeFirst(s, pat)|)
    ensures !Contains(s, pat) ==> BeforeFirst(s, pat) == s
    decreases |s|
  {
    if |s| >= |pat| && s[..|pat|] != pat {
      var r, t := BeforeFirst(s, pat), BeforeFirst(s[1..], pat);
      BeforeFirstIsFirst(s[1..], pat);
      OccursShift(s, pat);
      assert r[1..] == t;
      assert |pat| <= |r| ==> r[..|pat|] == s[..|pat|];
    }
  }

  /** An occurrence after the first character is an occurrence in the rest of the string. */
  lemma {:induction false} OccursShift(s: string, pat: string)
    requires s != []
    ensures forall i :: 1 <= i <= |s| ==> (OccursAt(s, pat, i) <==> OccursAt(s[1..], pat, i - 1))
  {
    forall i | 1 <= i <= |s|
      ensures OccursAt(s, pat, i) <==> OccursAt(s[1..], pat, i - 1)
    {
      if i + |pat| <= |s| {
        var u, v := s[i..i + |pat|], s[1..][i - 1..i - 1 + |pat|];
        assert |u| == |v|;
        assert forall k :: 0 <= k < |u| ==> u[k] == s[i + k] == v[k];
        assert u == v;
      }
    }
  }

  function LowerChar(c: char): char
  {
    if 'A' <= c <= 'Z' then (c as int + 32) as char else c
  }

  /** `toLowerCase` restricted to ASCII letters. */
  function AsciiLower(s: string): (r: string)
    ensures |r| == |s|
    ensures forall i :: 0 <= i < |s| ==> r[i] == LowerChar(s[i])
  {
    seq(|s|, i requires 0 <= i < |s| => LowerChar(s[i]))
  }
}
