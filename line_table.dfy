/**
 * The line table of a text kit (packages/text-kit/src/read.ts): the text is
 * cut into lines the way `text.split(/^/mg)` does, and the table holds the
 * offset at which each line starts.
 */
module LineTable {

  /** The line terminators of JavaScript's multiline `^` and `$` anchors:
      LF, CR, LINE SEPARATOR and PARAGRAPH SEPARATOR. */
  predicate IsTerminator(c: char) {
    c == '\n' || c == '\r' || c == '\U{2028}' || c == '\U{2029}'
  }

  /** Concatenation of a sequence of strings. */
  function Concat(pieces: seq<string>): (s: string)
  {
    if pieces == [] then [] else pieces[0] + Concat(pieces[1..])
  }

  /**
   * The scan of `split(/^/m)` for the end of the piece under way: the first
   * position from `q` on at which `^` matches (right after a terminator),
   * or the end of the text, where the scan stops without a match.
   */
  function NextLineStart(text: string, q: nat): (e: nat)
    requires 0 < q <= |text|
    ensures q <= e <= |text|
    ensures forall j :: q - 1 <= j < e - 1 ==> !IsTerminator(text[j])
    ensures e < |text| ==> IsTerminator(text[e - 1])
    decreases |text| - q
  {
    if q == |text| || IsTerminator(text[q - 1]) then q else NextLineStart(text, q + 1)
  }

  /**
   * The pieces `split(/^/m)` cuts from `text[p..]`: a match of `^` at the
   * start of a piece cuts nothing, so the scan resumes one character later.
   */
  function SplitFrom(text: string, p: nat): (pieces: seq<string>)
    requires p <= |text|
    ensures |pieces| == 0 <==> p == |text|
    decreases |text| - p
  {
    if p == |text| then [] else
    var q := NextLineStart(text, p + 1);
    [text[p..q]] + SplitFrom(text, q)
  }

  /**
   * The result of `text.split(/^/mg)`. The empty string gives no piece at
   * all (the pattern matches it), a trailing terminator does not open a
   * further line, and "\r\n" is two lines.
   */
  function SplitLines(text: string): seq<string>
  {
    SplitFrom(text, 0)
  }

  /** Start offsets of `pieces` laid end to end, the first one at `base`. */
  function StartOffsets(pieces: seq<string>, base: int): (starts: seq<int>)
    ensures |starts| == |pieces|
  {
    if pieces == [] then [] else [base] + StartOffsets(pieces[1..], base + |pieces[0]|)
  }

  /** The line table that the kit's constructor builds for `text`. */
  function LineStarts(text: string): seq<int>
  {
    StartOffsets(SplitLines(text), 0)
  }

  /** Offset one past the last character of line `i` (0-based) of the table. */
  function LineEnd(text: string, lines: seq<int>, i: int): int
    requires 0 <= i < |lines|
  {
    if i + 1 < |lines| then lines[i + 1] else |text|
  }

  /**
   * What it means for `lines` to be the line table of `text`: no line for the
   * empty text; otherwise the first line starts at 0, the starts increase
   * strictly and stay inside the text, every line but the first starts right
   * after a terminator, and every terminator followed by a character ends a line.
   */
  ghost predicate IsLineTable(text: string, lines: seq<int>) {
    && (|lines| == 0 <==> |text| == 0)
    && (|lines| > 0 ==> lines[0] == 0)
    && (forall i, j :: 0 <= i < j < |lines| ==> lines[i] < lines[j])
    && (forall i :: 0 <= i < |lines| ==> 0 <= lines[i] < |text|)
    && (forall i :: 0 < i < |lines| ==> IsTerminator(text[lines[i] - 1]))
    && (forall k :: 0 < k < |text| && IsTerminator(text[k - 1]) ==> k in lines)
  }

  /** The pieces cut from `text[p..]` rebuild it. */
  lemma {:induction false} SplitFromConcat(text: string, p: nat)
    requires p <= |text|
    ensures Concat(SplitFrom(text, p)) == text[p..]
    decreases |text| - p
  {
    if p < |text| {
      var q := NextLineStart(text, p + 1);
      SplitFromConcat(text, q);
      var pieces, tail := SplitFrom(text, p), SplitFrom(text, q);
      assert pieces[0] == text[p..q] && pieces[1..] == tail;
      assert Concat(pieces) == text[p..q] + Concat(tail);
      assert text[p..] == text[p..q] + text[q..];
    }
  }

  /** Each piece cut from `text[p..]` is non-empty; a terminator can only be a
      piece's last character, and every piece but the last ends with one. */
  lemma {:induction false} SplitFromPieces(text: string, p: nat)
    requires p <= |text|
    ensures forall i :: 0 <= i < |SplitFrom(text, p)| ==> SplitFrom(text, p)[i] != []
    ensures forall i, j :: 0 <= i < |SplitFrom(text, p)| && 0 <= j < |SplitFrom(text, p)[i]| - 1 ==>
      !IsTerminator(SplitFrom(text, p)[i][j])
    ensures forall i :: 0 <= i < |SplitFrom(text, p)| - 1 ==>
      IsTerminator(SplitFrom(text, p)[i][|SplitFrom(text, p)[i]| - 1])
    decreases |text| - p
  {
    if p < |text| {
      var q := NextLineStart(text, p + 1);
      SplitFromPieces(text, q);
      var tail := SplitFrom(text, q);
      var pieces := SplitFrom(text, p);
      assert pieces == [text[p..q]] + tail;
      forall i | 0 <= i < |pieces|
        ensures pieces[i] != []
      {
        if 0 < i { assert pieces[i] == tail[i - 1]; }
      }
      forall i, j | 0 <= i < |pieces| && 0 <= j < |pieces[i]| - 1
        ensures !IsTerminator(pieces[i][j])
      {
        if 0 < i {
          assert pieces[i] == tail[i - 1];
        } else {
          assert pieces[0][j] == text[p + j];
        }
      }
      forall i | 0 <= i < |pieces| - 1
        ensures IsTerminator(pieces[i][|pieces[i]| - 1])
      {
        if 0 < i {
          assert pieces[i] == tail[i - 1];
        } else {
          assert q < |text|;
          assert pieces[0][|pieces[0]| - 1] == text[q - 1];
        }
      }
    }
  }

  /** Consecutive start offsets differ by the length of the piece between them. */
  lemma {:induction false} StartOffsetsStep(pieces: seq<string>, base: int, i: nat)
    requires i + 1 < |pieces|
    ensures StartOffsets(pieces, base)[i + 1] == StartOffsets(pieces, base)[i] + |pieces[i]|
  {
    if i > 0 {
      StartOffsetsStep(pieces[1..], base + |pieces[0]|, i - 1);
    }
  }

  /** Each start offset, taken after a prefix of length `|prefix|`, addresses its piece. */
  lemma {:induction false} StartOffsetsAddress(prefix: string, pieces: seq<string>, i: nat)
    requires i < |pieces|
    ensures var starts := StartOffsets(pieces, |prefix|);
      && |prefix| <= starts[i]
      && starts[i] + |pieces[i]| <= |prefix + Concat(pieces)|
      && (prefix + Concat(pieces))[starts[i] .. starts[i] + |pieces[i]|] == pieces[i]
      && (i + 1 < |pieces| ==> starts[i + 1] == starts[i] + |pieces[i]|)
      && (i + 1 == |pieces| ==> starts[i] + |pieces[i]| == |prefix + Concat(pieces)|)
    decreases |pieces|
  {
    var whole := prefix + Concat(pieces);
    assert Concat(pieces) == pieces[0] + Concat(pieces[1..]);
    if i == 0 {
      assert whole == prefix + pieces[0] + Concat(pieces[1..]);
      assert whole[|prefix| .. |prefix| + |pieces[0]|] == pieces[0];
      if 1 < |pieces| {
        StartOffsetsStep(pieces, |prefix|, 0);
      } else {
        assert Concat(pieces[1..]) == [];
      }
    } else {
      var prefix' := prefix + pieces[0];
      StartOffsetsAddress(prefix', pieces[1..], i - 1);
      assert prefix' + Concat(pieces[1..]) == whole;
    }
  }

  /** The pieces cut from `text[p..]`, laid from `p`, start at the offsets the scan found. */
  lemma {:induction false} SplitFromOffsets(text: string, p: nat)
    requires p <= |text|
    ensures var starts := StartOffsets(SplitFrom(text, p), p);
      && (p < |text| ==> starts[0] == p)
      && (forall i, j :: 0 <= i < j < |starts| ==> starts[i] < starts[j])
      && (forall i :: 0 <= i < |starts| ==> p <= starts[i] < |text|)
      && (forall i :: 0 < i < |starts| ==> p < starts[i] && IsTerminator(text[starts[i] - 1]))
      && (forall k :: p < k < |text| && IsTerminator(text[k - 1]) ==> k in starts)
    decreases |text| - p
  {
    if p < |text| {
      var q := NextLineStart(text, p + 1);
      SplitFromOffsets(text, q);
      var tail := StartOffsets(SplitFrom(text, q), q);
      assert SplitFrom(text, p) == [text[p..q]] + SplitFrom(text, q);
      assert StartOffsets(SplitFrom(text, p), p) == [p] + tail;
      forall k | p < k < |text| && IsTerminator(text[k - 1])
        ensures k in tail
      {
        assert q <= k;
      }
    }
  }

  /** Each line of the table built for `text` is exactly the corresponding piece of the split. */
  lemma LineStartsAddressPieces(text: string, i: nat)
    requires i < |SplitLines(text)|
    ensures var lines := LineStarts(text);
      && |lines| == |SplitLines(text)|
      && 0 <= lines[i] <= LineEnd(text, lines, i) <= |text|
      && text[lines[i] .. LineEnd(text, lines, i)] == SplitLines(text)[i]
  {
    var pieces := SplitLines(text);
    var empty: string := [];
    SplitFromConcat(text, 0);
    assert empty + Concat(pieces) == text;
    assert LineStarts(text) == StartOffsets(pieces, |empty|);
    StartOffsetsAddress(empty, pieces, i);
  }

  /** The table the constructor builds is a line table. */
  lemma LineStartsIsTable(text: string)
    ensures IsLineTable(text, LineStarts(text))
  {
    SplitFromOffsets(text, 0);
  }

  /** Inside a line only its last character can be a terminator. */
  lemma NoTerminatorInside(text: string, lines: seq<int>, i: int, j: int)
    requires IsLineTable(text, lines)
    requires 0 <= i < |lines| && lines[i] <= j < LineEnd(text, lines, i) - 1
    ensures !IsTerminator(text[j])
  {
    forall m | 0 <= m < |lines|
      ensures lines[m] != j + 1
    {
      if i < m {
        assert lines[i + 1] <= lines[m];
      }
    }
    assert j + 1 !in lines;
    assert j + 1 < |text|;
  }
}
