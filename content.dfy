/**
 * The content script's text handling: the truncation that feeds the
 * summariser (`summarizeText`) and the splice behind the `insertText`
 * message, which puts a reply into the focused editable element.
 */
module Content {
  import opened Text
  import opened TextRankEngine

  /**
   * `text.length > maxLength ? text.substr(0, maxLength).split(' ').slice(0, -1).join(' ') + '...' : text`.
   */
  function Truncate(text: string, maxLength: nat): (r: string)
    ensures |text| > maxLength ==> |r| >= 3 && r[|r| - 3..] == "..."
  {
    if |text| > maxLength then
      var pieces := SplitOn(text[..maxLength], ' ');
      Join(pieces[..|pieces| - 1], " ") + "..."
    else text
  }

  /** `k` is the position of the last `c` in `p`. */
  predicate LastAt(p: string, c: char, k: nat)
  {
    k < |p| && p[k] == c && forall j :: k < j < |p| ==> p[j] != c
  }

  /** Joining at least two pieces: the join of all but the last, the separator, the last. */
  lemma {:induction false} JoinFrontLast(parts: seq<string>, sep: string)
    requires |parts| >= 2
    ensures Join(parts, sep) == Join(parts[..|parts| - 1], sep) + sep + parts[|parts| - 1]
  {
    var front := parts[..|parts| - 1];
    if |parts| > 2 {
      JoinFrontLast(parts[1..], sep);
      assert parts[1..][..|parts| - 2] == front[1..];
      assert parts[1..][|parts| - 2] == parts[|parts| - 1];
    } else {
      assert parts[1..] == [parts[1]];
    }
  }

  /** Dropping the last piece of `p.split(c)` and rejoining keeps what precedes the last `c`. */
  lemma {:induction false} DropLastPiece(p: string, c: char, k: nat)
    requires LastAt(p, c, k)
    ensures var pieces := SplitOn(p, c); Join(pieces[..|pieces| - 1], [c]) == p[..k]
  {
    var pieces := SplitOn(p, c);
    CountPresent(p, c, k);
    SplitOnLength(p, c);
    JoinSplitOn(p, c);
    JoinFrontLast(pieces, [c]);
    LastPieceClean(p, c);
    var front, last := Join(pieces[..|pieces| - 1], [c]), pieces[|pieces| - 1];
    assert p == front + [c] + last;
    var m := |front|;
    assert p[m] == c && p[..m] == front;
    forall j | m < j < |p|
      ensures p[j] != c
    {
      assert p[j] == last[j - m - 1];
    }
  }

  /** Without a `c`, the split has one piece and nothing is left once it is dropped. */
  lemma {:induction false} DropOnlyPiece(p: string, c: char)
    requires c !in p
    ensures var pieces := SplitOn(p, c); Join(pieces[..|pieces| - 1], [c]) == ""
  {
    CountAbsent(p, c);
    SplitOnLength(p, c);
  }

  /** A text no longer than the limit is passed on as it is. */
  lemma {:induction false} TruncateShort(text: string, maxLength: nat)
    requires |text| <= maxLength
    ensures Truncate(text, maxLength) == text
  {
  }

  /**
   * A longer text is cut to its first `maxLength` characters, and of those
   * only what precedes the last blank is kept, followed by `"..."`.
   */
  lemma {:induction false} TruncateAtLastBlank(text: string, maxLength: nat, k: nat)
    requires |text| > maxLength && LastAt(text[..maxLength], ' ', k)
    ensures Truncate(text, maxLength) == text[..k] + "..."
  {
    DropLastPiece(text[..maxLength], ' ', k);
    assert text[..maxLength][..k] == text[..k];
  }

  /** When the first `maxLength` characters hold no blank, only `"..."` is left. */
  lemma {:induction false} TruncateWithoutBlank(text: string, maxLength: nat)
    requires |text| > maxLength && ' ' !in text[..maxLength]
    ensures Truncate(text, maxLength) == "..."
  {
    DropOnlyPiece(text[..maxLength], ' ');
  }

  function Max(a: nat, b: nat): nat
  {
    if a >= b then a else b
  }

  /** The last position of `c` in `p`, when there is one. */
  lemma {:induction false} LastExists(p: string, c: char) returns (k: nat)
    requires c in p
    ensures LastAt(p, c, k)
  {
    var n := |p|;
    if p[n - 1] == c {
      k := n - 1;
      assert p[k + 1..] == [];
    } else {
      assert c in p[..n - 1] by {
        var j :| 0 <= j < n && p[j] == c;
        assert p[..n - 1][j] == c;
      }
      k := LastExists(p[..n - 1], c);
      assert p[k + 1..] == p[..n - 1][k + 1..] + [p[n - 1]];
    }
  }

  /**
   * The text handed to the summariser is never longer than
   * `max(3, maxLength + 2)` characters and, but for a final `"..."` that a
   * cut adds, it is a prefix of the original text.
   */
  lemma {:induction false} TruncateBound(text: string, maxLength: nat)
    ensures |Truncate(text, maxLength)| <= Max(3, maxLength + 2)
    ensures |text| <= maxLength ==> Truncate(text, maxLength) == text
    ensures |text| > maxLength ==>
      exists k: nat :: k <= maxLength && (k == 0 || k < maxLength) && Truncate(text, maxLength) == text[..k] + "..."
  {
    if |text| > maxLength {
      var p := text[..maxLength];
      if ' ' in p {
        var k := LastExists(p, ' ');
        TruncateAtLastBlank(text, maxLength, k);
        assert |text[..k] + "..."| == k + 3;
      } else {
        TruncateWithoutBlank(text, maxLength);
        assert Truncate(text, maxLength) == text[..0] + "...";
        assert |Truncate(text, maxLength)| == 3;
      }
    }
  }

  /** `summarizeText`: truncate, then ask the summariser for five sentences. */
  method SummarizeText(text: string, ln: nat -> real, maxLength: nat := 10000) returns (summary: string)
    ensures summary == SummarizeTextRankOf(Truncate(text, maxLength), 5, ln)
  {
    var truncatedText := Truncate(text, maxLength);
    summary := SummarizeTextRank(truncatedText, ln, 5);
  }

  /** A selection offset: elements that are not text controls have none (`undefined`). */
  datatype Offset = Undefined | At(pos: nat)

  function Clamp(x: nat, len: nat): nat
  {
    if x > len then len else x
  }

  /**
   * JavaScript `s.substring(a, b)`: both ends clamped to `[0, |s|]` and put
   * in order; an `undefined` start counts as 0 (it converts to NaN) and an
   * `undefined` end as `|s|`.
   */
  function Substring(s: string, a: Offset, b: Offset): (r: string)
    ensures |r| <= |s|
    ensures a.At? && b.At? && a.pos <= b.pos <= |s| ==> r == s[a.pos..b.pos]
  {
    var x := if a.At? then Clamp(a.pos, |s|) else 0;
    var y := if b.At? then Clamp(b.pos, |s|) else |s|;
    if x <= y then s[x..y] else s[y..x]
  }

  /** `before + request.text + after` around the selection `[start, end)`. */
  function Splice(text: string, start: Offset, end: Offset, ins: string): (r: string)
    ensures start.At? && end.At? && start.pos <= end.pos <= |text| ==>
      r == text[..start.pos] + ins + text[end.pos..]
  {
    Substring(text, At(0), start) + ins + Substring(text, end, At(|text|))
  }

  /**
   * With a selection inside the text, the selected part is replaced by the
   * inserted text and all else stays: the part before the selection, then
   * the insertion, then the part after it.
   */
  lemma {:induction false} SpliceReplacesSelection(text: string, start: nat, end: nat, ins: string)
    requires start <= end <= |text|
    ensures Splice(text, At(start), At(end), ins) == text[..start] + ins + text[end..]
    ensures |Splice(text, At(start), At(end), ins)| == |text| - (end - start) + |ins|
    ensures Splice(text, At(start), At(end), ins)[..start + |ins|] == text[..start] + ins
    ensures Splice(text, At(start), At(end), ins)[start + |ins|..] == text[end..]
  {
    var r := Splice(text, At(start), At(end), ins);
    assert r == text[..start] + ins + text[end..];
    assert r[..start + |ins|] == text[..start] + ins;
  }

  /** Where there are no selection offsets, the splice puts the inserted text between two copies of the text. */
  lemma {:induction false} SpliceWithoutOffsets(text: string, ins: string)
    ensures Splice(text, Undefined, Undefined, ins) == text + ins + text
  {
    assert text[0..|text|] == text;
  }

  datatype Response = Success | Failure(error: string)

  /** The focused element (`document.activeElement`), as far as `insertText` looks at it. */
  class FocusedElement {
    const isContentEditable: bool
    const tagName: string
    const inputType: string
    var value: string
    var textContent: string
    var selectionStart: Offset
    var selectionEnd: Offset

    predicate IsTextControl()
    {
      tagName == "TEXTAREA" || (tagName == "INPUT" && inputType == "text")
    }

    /** The elements `insertText` writes into. */
    predicate IsEditable()
    {
      isContentEditable || IsTextControl()
    }

    /** A text control always has selection offsets. */
    predicate Valid()
      reads this
    {
      IsTextControl() ==> selectionStart.At? && selectionEnd.At?
    }

    /** `activeElement.value || activeElement.textContent`. */
    function Text(): string
      reads this
    {
      if value != "" then value else textContent
    }

    constructor (isContentEditable: bool, tagName: string, inputType: string, value: string,
                 textContent: string, selectionStart: Offset, selectionEnd: Offset)
      requires (tagName == "TEXTAREA" || (tagName == "INPUT" && inputType == "text")) ==>
        selectionStart.At? && selectionEnd.At?
      ensures Valid()
      ensures this.isContentEditable == isContentEditable && this.tagName == tagName
      ensures this.inputType == inputType && this.value == value && this.textContent == textContent
      ensures this.selectionStart == selectionStart && this.selectionEnd == selectionEnd
    {
      this.isContentEditable := isContentEditable;
      this.tagName := tagName;
      this.inputType := inputType;
      this.value := value;
      this.textContent := textContent;
      this.selectionStart := selectionStart;
      this.selectionEnd := selectionEnd;
    }

    /**
     * The `insertText` listener: a content-editable element gets the splice
     * as its text content; a text control gets it as its value, with the
     * cursor just after the inserted text; any other element is left alone
     * and the reply is an error.
     */
    method InsertText(request: string) returns (response: Response)
      requires Valid()
      modifies this
      ensures Valid()
      ensures !IsEditable() ==>
        response == Failure("No editable element focused") && unchanged(this)
      ensures IsEditable() ==> response == Success
      ensures IsEditable() && isContentEditable ==>
        textContent == Splice(old(Text()), old(selectionStart), old(selectionEnd), request) &&
        value == old(value) && selectionStart == old(selectionStart) && selectionEnd == old(selectionEnd)
      ensures IsEditable() && !isContentEditable ==>
        value == Splice(old(Text()), old(selectionStart), old(selectionEnd), request) &&
        textContent == old(textContent) &&
        selectionStart == selectionEnd == At(old(selectionStart).pos + |request|)
    {
      if !IsEditable() {
        return Failure("No editable element focused");
      }
      var start, end := selectionStart, selectionEnd;
      var text := Text();
      var before := Substring(text, At(0), start);
      var after := Substring(text, end, At(|text|));
      if isContentEditable {
        textContent := before + request + after;
      } else {
        value := before + request + after;
        selectionEnd := At(start.pos + |request|);
        selectionStart := selectionEnd;
      }
      response := Success;
    }

    /**
     * `insertText` as its cursor arithmetic intends it: a content-editable
     * element has no selection offsets of its own, so the caret's offsets in
     * its text (from the document's selection) are passed in and the
     * inserted text lands at the caret, the rest of the text unchanged.
     */
    method InsertAtCaret(request: string, caretStart: nat, caretEnd: nat) returns (response: Response)
      requires Valid()
      modifies this
      ensures Valid()
      ensures !IsEditable() ==>
        response == Failure("No editable element focused") && unchanged(this)
      ensures IsEditable() ==> response == Success
      ensures IsEditable() && isContentEditable ==>
        textContent == Splice(old(Text()), At(caretStart), At(caretEnd), request) &&
        value == old(value) && selectionStart == old(selectionStart) && selectionEnd == old(selectionEnd)
      ensures IsEditable() && isContentEditable && caretStart <= caretEnd <= |old(Text())| ==>
        textContent == old(Text())[..caretStart] + request + old(Text())[caretEnd..]
      ensures IsEditable() && !isContentEditable ==>
        value == Splice(old(Text()), old(selectionStart), old(selectionEnd), request) &&
        textContent == old(textContent) &&
        selectionStart == selectionEnd == At(old(selectionStart).pos + |request|)
    {
      if !IsEditable() {
        return Failure("No editable element focused");
      }
      var text := Text();
      if isContentEditable {
        if caretStart <= caretEnd <= |text| {
          SpliceReplacesSelection(text, caretStart, caretEnd, request);
        }
        textContent := Splice(text, At(caretStart), At(caretEnd), request);
      } else {
        var start, end := selectionStart, selectionEnd;
        value := Splice(text, start, end, request);
        selectionEnd := At(start.pos + |request|);
        selectionStart := selectionEnd;
      }
      response := Success;
    }
  }
}
