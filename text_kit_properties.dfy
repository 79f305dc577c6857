/**
 * Properties of the text kit (packages/text-kit/src/read.ts) that relate
 * several of its operations: the table addresses exactly the lines of the
 * split, the point/offset conversions are inverse to each other on the points
 * the kit hands out, `toIndex` is monotone, and spans produced by `match` and
 * `linePosition` select the text they claim to.
 */
module TextKitProperties {
  import opened Options
  import opened LineTable
  import opened TextKit

  /** Each line of the table is exactly the corresponding piece of `text.split(/^/mg)`. */
  lemma LinesArePieces(k: Kit, ln: int)
    requires k.Valid() && 1 <= ln <= k.NumberOfLines()
    ensures k.LengthOfLine(ln) == Some(|SplitLines(k.text)[ln - 1]|)
    ensures k.text[k.lines[ln - 1] .. k.lines[ln - 1] + k.LengthOfLine(ln).value] == SplitLines(k.text)[ln - 1]
  {
    LineStartsAddressPieces(k.text, ln - 1);
  }

  /** Every line but the last ends with a terminator. */
  lemma LinesButLastAreTerminated(k: Kit, ln: int)
    requires k.Valid() && 1 <= ln < k.NumberOfLines()
    ensures k.IsTerminated(ln)
  {
    assert 0 < ln < |k.lines|;
  }

  /** Sum of the lengths of lines 1 to `m`. */
  function TotalLength(k: Kit, m: int): int
    requires k.Valid() && 0 <= m <= |k.lines|
  {
    if m == 0 then 0 else TotalLength(k, m - 1) + k.LengthOfLine(m).value
  }

  /** Lines 1 to `m` together reach exactly the end of line `m`. */
  lemma {:induction false} TotalLengthReachesLineEnd(k: Kit, m: int)
    requires k.Valid() && 1 <= m <= |k.lines|
    ensures TotalLength(k, m) == LineEnd(k.text, k.lines, m - 1)
  {
    if m > 1 {
      TotalLengthReachesLineEnd(k, m - 1);
    }
  }

  /** The line lengths sum to the length of the text. */
  lemma LineLengthsSumToText(k: Kit)
    requires k.Valid()
    ensures TotalLength(k, k.NumberOfLines()) == |k.text|
  {
    if k.lines != [] {
      TotalLengthReachesLineEnd(k, |k.lines|);
    }
  }

  /** For a fixed line, `toIndex` does not decrease as the column grows. */
  lemma ToIndexMonotoneInColumn(k: Kit, line: int, c1: int, c2: int)
    requires k.Valid() && c1 <= c2
    ensures k.ToIndex(Point(line, c1)) <= k.ToIndex(Point(line, c2))
  {
  }

  /** For a fixed column, `toIndex` does not decrease as the line grows. */
  lemma ToIndexMonotoneInLine(k: Kit, l1: int, l2: int, column: int)
    requires k.Valid() && l1 <= l2
    ensures k.ToIndex(Point(l1, column)) <= k.ToIndex(Point(l2, column))
  {
    if 1 <= l1 < l2 <= |k.lines| {
      assert k.lines[l1] <= k.lines[l2 - 1];
    }
  }

  /** The points the kit hands out are exactly those that `location` gives
      back unchanged from their offset. */
  lemma NormalPointsAreFixed(k: Kit, p: Point)
    requires k.Valid()
    ensures k.IsNormal(p) <==> k.Location(k.ToIndex(p)) == p
  {
    if k.text != [] && 1 <= p.line <= |k.lines| && 1 <= p.column <= k.LengthOfLine(p.line).value {
      k.LocationOfToIndex(p);
    }
  }

  /** Shifting twice is shifting once by the sum, as long as the first shift stays in the text. */
  lemma ShiftTwice(k: Kit, p: Point, a: int, b: int)
    requires k.Valid() && 0 <= k.ToIndex(p) + a <= |k.text|
    ensures k.Shift(k.Shift(p, a), b) == k.Shift(p, a + b)
  {
    var q := k.Shift(p, a);
    assert k.ToIndex(q) + b == k.ToIndex(p) + (a + b);
    assert k.Shift(q, b) == k.Location(k.ToIndex(q) + b);
    assert k.Shift(p, a + b) == k.Location(k.ToIndex(p) + (a + b));
  }

  /** One step past the last non-terminator character of a line is its end-of-line point. */
  lemma LastNonEolPrecedesEol(k: Kit, ln: int)
    requires k.Valid() && k.LastNonEol(ln).Some?
    ensures k.Shift(k.LastNonEol(ln).value, 1) == k.Eol(ln).value
  {
    var q := k.LastNonEol(ln).value;
    var e := k.Eol(ln).value;
    if k.IsTerminated(ln) {
      k.LocationOfToIndex(e);
    } else {
      assert k.ToIndex(q) + 1 == |k.text|;
    }
  }

  /** The span of a line selects the whole line, terminator included. */
  lemma LinePositionSelectsLine(k: Kit, ln: int)
    requires k.Valid() && 1 <= ln <= k.NumberOfLines()
    ensures var span := k.LinePosition(ln).value;
      k.Substring(span.start, ToPoint(span.end)) == Some(SplitLines(k.text)[ln - 1])
  {
    LinesArePieces(k, ln);
  }

  /** Up to the end of the line, a substring from the start of a line is the
      line's text without its terminator. */
  lemma EolSubstringOfLine(k: Kit, ln: int)
    requires k.Valid() && 1 <= ln <= k.NumberOfLines() && k.ContentLength(ln) > 0
    ensures k.Substring(Point(ln, 1), ToEol) ==
      Some(k.text[k.lines[ln - 1] .. k.lines[ln - 1] + k.ContentLength(ln)])
  {
    assert k.ToIndex(Point(ln, 1)) == k.lines[ln - 1];
  }

  /** A match found in a slice of the text is found in the text, shifted by the slice's start. */
  lemma MatchInSlice(text: string, a: nat, b: nat, m: RegexMatch)
    requires a <= b <= |text| && IsMatchIn(text[a..b], m)
    ensures a + m.index + |m.captures[0]| <= b
    ensures text[a + m.index .. a + m.index + |m.captures[0]|] == m.captures[0]
  {
    var x, y := m.index, m.index + |m.captures[0]|;
    forall i | 0 <= i < y - x
      ensures text[a + x .. a + y][i] == m.captures[0][i]
    {
      assert text[a..b][x..y][i] == text[a + x + i];
    }
  }

  /** The text `match` searched is the text between the region's offsets `a`
      and `b`, and the match `m` the pattern found there fixes the reported span. */
  lemma MatchContent(k: Kit, pattern: string -> Option<RegexMatch>, span: Position, r: MatchResult)
      returns (a: int, b: int, m: RegexMatch)
    requires k.Valid() && IsFirstMatchFunction(pattern)
    requires k.Match(pattern, span) == Some(r)
    ensures a == k.ToIndex(span.start) && b == k.ToIndex(span.end) && 0 <= a < b <= |k.text|
    ensures k.Substring(span.start, ToPoint(span.end)) == Some(k.text[a..b])
    ensures pattern(k.text[a..b]) == Some(m) && IsMatchIn(k.text[a..b], m)
    ensures r.captures == m.captures
    ensures k.ToIndex(r.position.start) == a + m.index
    ensures k.ToIndex(r.position.end) == a + m.index + |m.captures[0]|
  {
    var content := k.Substring(span.start, ToPoint(span.end)).value;
    assert content != [];
    a, b, m := k.ToIndex(span.start), k.ToIndex(span.end), pattern(content).value;
  }

  /** The span `match` reports lies inside the searched region. */
  lemma MatchWithinRegion(k: Kit, pattern: string -> Option<RegexMatch>, span: Position, r: MatchResult)
    requires k.Valid() && IsFirstMatchFunction(pattern)
    requires k.Match(pattern, span) == Some(r)
    ensures k.ToIndex(span.start) <= k.ToIndex(r.position.start) <= k.ToIndex(r.position.end) <= k.ToIndex(span.end)
  {
    var a, b, m := MatchContent(k, pattern, span, r);
  }

  /** The span `match` reports selects exactly the text of the whole match. */
  lemma MatchSelectsMatchedText(k: Kit, pattern: string -> Option<RegexMatch>, span: Position, r: MatchResult)
    requires k.Valid() && IsFirstMatchFunction(pattern)
    requires k.Match(pattern, span) == Some(r)
    ensures k.Substring(r.position.start, ToPoint(r.position.end)) == Some(r.captures[0])
  {
    var a, b, m := MatchContent(k, pattern, span, r);
    SpanSelectsMatch(k, r.position, a, b, m);
  }

  /** A span whose offsets bound a match found in `text[a..b]`, shifted by
      `a`, selects the text of the whole match. */
  lemma SpanSelectsMatch(k: Kit, span: Position, a: int, b: int, m: RegexMatch)
    requires k.Valid() && 0 <= a <= b <= |k.text| && IsMatchIn(k.text[a..b], m)
    requires k.ToIndex(span.start) == a + m.index
    requires k.ToIndex(span.end) == a + m.index + |m.captures[0]|
    ensures k.Substring(span.start, ToPoint(span.end)) == Some(m.captures[0])
  {
    MatchInSlice(k.text, a, b, m);
  }
}
