/**
 * The text kit of packages/text-kit/src/read.ts: built once from an immutable
 * text, it converts between 1-based (line, column) points and 0-based offsets,
 * extracts bounded substrings, derives end-of-line and end-of-file points and
 * runs a pattern over a region. Every operation is total: bad input is clamped
 * or answered with `None` (JavaScript's `undefined`).
 */
module TextKit {
  import opened Options
  import opened LineTable

  /** A 1-based coordinate; callers may pass any integers, including values below 1. */
  datatype Point = Point(line: int, column: int)

  /** A span of the text; `start` is inclusive and `end` exclusive. */
  datatype Position = Position(start: Point, end: Point)

  /** The result of `toIndexOrEOF`: an offset, or the end-of-file marker. */
  datatype IndexOrEof = Offset(index: int) | EndOfFile

  /** What bounds a substring: the end of the start's line, the end of the text, or a point. */
  datatype SpanEnd = ToEol | ToEof | ToPoint(point: Point)

  /** What `RegExp.prototype.exec` reports: where the match starts and the
      matched groups, group 0 being the whole match. */
  datatype RegexMatch = RegexMatch(index: int, captures: seq<string>)

  /** The result of `match`: the matched span as points, and the groups. */
  datatype MatchResult = MatchResult(position: Position, captures: seq<string>)

  /** `m` is a match that a regular expression can report on `s`: group 0 is
      the text of `s` found at `m.index`. */
  predicate IsMatchIn(s: string, m: RegexMatch) {
    && |m.captures| >= 1
    && 0 <= m.index
    && m.index + |m.captures[0]| <= |s|
    && s[m.index .. m.index + |m.captures[0]|] == m.captures[0]
  }

  /** A stateless first-match function standing for the pattern: every match
      it reports lies inside the string it searched. */
  ghost predicate IsFirstMatchFunction(pattern: string -> Option<RegexMatch>) {
    forall s :: pattern(s).Some? ==> IsMatchIn(s, pattern(s).value)
  }

  function Min(a: int, b: int): int {
    if a <= b then a else b
  }

  /** Clamps `i` into `[0, n]`, as JavaScript does with string positions. */
  function Clamp(i: int, n: nat): (c: nat)
    ensures c <= n
    ensures 0 <= i <= n ==> c == i
  {
    if i < 0 then 0 else if i > n then n else i
  }

  /** `s.substring(from, to)`: both bounds clamped to the string, and swapped
      when `to` comes before `from`. */
  function JsSubstring(s: string, from: int, to: int): (r: string)
    ensures |r| == if Clamp(from, |s|) <= Clamp(to, |s|) then Clamp(to, |s|) - Clamp(from, |s|)
                   else Clamp(from, |s|) - Clamp(to, |s|)
    ensures 0 <= from <= to <= |s| ==> r == s[from..to]
  {
    var a, b := Clamp(from, |s|), Clamp(to, |s|);
    if a <= b then s[a..b] else s[b..a]
  }

  /** First position at or after `q` holding a terminator, or `|s|`. */
  function NextTerminator(s: string, q: nat): (e: nat)
    requires q <= |s|
    ensures q <= e <= |s|
    ensures forall j :: q <= j < e ==> !IsTerminator(s[j])
    ensures e < |s| ==> IsTerminator(s[e])
    decreases |s| - q
  {
    if q == |s| || IsTerminator(s[q]) then q else NextTerminator(s, q + 1)
  }

  /**
   * `s.split(/$/mg)[0]`. A multiline `$` matches before every terminator and
   * at the end; the split skips a match at the very start, so the first piece
   * runs to the first terminator after position 0. The empty string matches
   * the pattern and splits into no piece at all, so the result is `undefined`.
   */
  function HeadBeforeLineEnd(s: string): (r: Option<string>)
    ensures r.None? <==> s == []
    ensures r.Some? ==> 1 <= |r.value| <= |s| && r.value == s[..|r.value|]
    ensures r.Some? ==> forall j :: 1 <= j < |r.value| ==> !IsTerminator(s[j])
    ensures r.Some? && |r.value| < |s| ==> IsTerminator(s[|r.value|])
  {
    if s == [] then None else Some(s[..NextTerminator(s, 1)])
  }

  class Kit {
    /** The text, fixed for the lifetime of the kit. */
    const text: string
    /** Offset at which each line starts; `lines[i]` is the start of line `i + 1`. */
    const lines: seq<int>

    ghost predicate Valid() {
      lines == LineStarts(text) && IsLineTable(text, lines)
    }

    /** Splits the text into lines and records each line's start offset. */
    constructor (text: string)
      ensures this.text == text && Valid()
    {
      var pieces := SplitLines(text);
      var starts: seq<int> := if |pieces| > 0 then [0] else [];
      if |pieces| > 0 {
        var i := 0;
        while i < |pieces| - 1
          invariant 0 <= i <= |pieces| - 1
          invariant starts == StartOffsets(pieces, 0)[..i + 1]
        {
          StartOffsetsStep(pieces, 0, i);
          starts := starts + [starts[i] + |pieces[i]|];
          i := i + 1;
        }
      }
      LineStartsIsTable(text);
      this.text := text;
      this.lines := starts;
    }

    /** The `numberOfLines` getter. */
    function NumberOfLines(): (n: nat)
      requires Valid()
      ensures n == |SplitLines(text)|
      ensures n == 0 <==> text == []
    {
      |lines|
    }

    /** Length of line `line`, terminator included, if the line exists. */
    function LengthOfLine(line: int): (len: Option<int>)
      requires Valid()
      ensures len.Some? <==> 1 <= line <= |lines|
      ensures len.Some? ==> len.value == LineEnd(text, lines, line - 1) - lines[line - 1]
      ensures len.Some? ==> 1 <= len.value && lines[line - 1] + len.value <= |text|
    {
      if line < 1 || line > |lines| then None
      else Some((if line < |lines| then lines[line] else |text|) - lines[line - 1])
    }

    /** Whether line `ln` ends with a terminator (all lines but possibly the last do). */
    ghost predicate IsTerminated(ln: int)
      requires Valid() && 1 <= ln <= |lines|
    {
      IsTerminator(text[LineEnd(text, lines, ln - 1) - 1])
    }

    /** Number of characters of line `ln` before its terminator. */
    ghost function ContentLength(ln: int): nat
      requires Valid() && 1 <= ln <= |lines|
    {
      LengthOfLine(ln).value - if IsTerminated(ln) then 1 else 0
    }

    /** The point one past the last character: `{1, 1}` when there is no last line. */
    function Eof(): (p: Point)
      requires Valid()
      ensures text == [] ==> p == Point(1, 1)
      ensures text != [] ==> p == Point(|lines|, LengthOfLine(|lines|).value + 1)
      ensures ToIndex(p) == |text|
    {
      var len := LengthOfLine(|lines|);
      if len.None? || len.value == 0 then Point(1, 1) else Point(|lines|, len.value + 1)
    }

    /** `toIndexOrEOF`: the offset of a point, or the end-of-file marker for a
        point past the last line or past the end of the last line. */
    function ToIndexOrEof(p: Point): (r: IndexOrEof)
      requires Valid()
      ensures r.Offset? ==> 0 <= r.index <= |text|
      ensures r.EndOfFile? <==>
        text != [] && 1 <= p.line &&
        (p.line > |lines| || (p.line == |lines| && p.column > LengthOfLine(p.line).value))
    {
      if |text| == 0 || p.line < 1 then Offset(0)
      else if p.line > |lines| then EndOfFile
      else
        var lineStart := lines[p.line - 1];
        if p.column < 1 then Offset(lineStart)
        else
          var maxCol := LengthOfLine(p.line).value;
          if p.column > maxCol && p.line == |lines| then EndOfFile
          else Offset(Min(lineStart + Min(p.column, maxCol) - 1, |text|))
    }

    /** `toIndex`: the best-fit offset of any point. */
    function ToIndex(p: Point): (r: int)
      requires Valid()
      ensures 0 <= r <= |text|
      ensures text == [] || p.line < 1 ==> r == 0
      ensures text != [] && p.line > |lines| ==> r == |text|
      ensures 1 <= p.line <= |lines| && p.column < 1 ==> r == lines[p.line - 1]
      ensures 1 <= p.line <= |lines| && 1 <= p.column <= LengthOfLine(p.line).value ==>
        r == lines[p.line - 1] + p.column - 1
      ensures 1 <= p.line < |lines| && p.column > LengthOfLine(p.line).value ==>
        r == LineEnd(text, lines, p.line - 1) - 1
      ensures 1 <= p.line == |lines| && p.column > LengthOfLine(p.line).value ==> r == |text|
    {
      match ToIndexOrEof(p)
      case Offset(i) => i
      case EndOfFile => |text|
    }

    /** `lines.findIndex(...)` from position `i`: the first line index that is
        the last one or whose successor starts beyond `index`; -1 if none. */
    function FindLineIndexFrom(index: int, i: nat): (r: int)
      requires Valid() && i <= |lines|
      ensures r == -1 <==> i == |lines|
      ensures r != -1 ==> i <= r < |lines| && (r == |lines| - 1 || index < lines[r + 1])
      ensures r != -1 ==> forall j :: i < j <= r ==> lines[j] <= index
      decreases |lines| - i
    {
      if i == |lines| then -1
      else if i == |lines| - 1 || index < lines[i + 1] then i
      else FindLineIndexFrom(index, i + 1)
    }

    /** `findLine`: the line on which `index` lies; line 1 below the text or
        without lines, the last line beyond the text. */
    function FindLine(index: int): (line: int)
      requires Valid()
      ensures lines == [] ==> line == 1
      ensures lines != [] ==> 1 <= line <= |lines|
      ensures lines != [] ==> (line == 1 || lines[line - 1] <= index) && (line == |lines| || index < lines[line])
    {
      var l := FindLineIndexFrom(index, 0);
      if l == -1 then 1 else l + 1
    }

    /** The points the kit hands out: `{1, 1}` for the empty text, otherwise a
        point on a character of an existing line, or the end-of-file point. */
    ghost predicate IsNormal(p: Point)
      requires Valid()
    {
      if text == [] then p == Point(1, 1)
      else (1 <= p.line <= |lines| && 1 <= p.column <= LengthOfLine(p.line).value) || p == Eof()
    }

    /** `location`: the point of an offset, with out-of-range offsets clamped. */
    function Location(index: int): (p: Point)
      requires Valid()
      ensures IsNormal(p)
      ensures text == [] || index < 0 ==> p == Point(1, 1)
      ensures index >= |text| ==> p == Eof()
      ensures 0 <= index < |text| ==> 1 <= p.line <= |lines| && 1 <= p.column <= LengthOfLine(p.line).value
    {
      var line := FindLine(index);
      if |lines| == 0 then Eof()
      else
        var lineStart := lines[line - 1];
        Point(line, ToIndex(Point(line, index - lineStart + 1)) - lineStart + 1)
    }

    /** Every offset of the text survives the trip through `location`. */
    lemma ToIndexOfLocation(index: int)
      requires Valid() && 0 <= index <= |text|
      ensures ToIndex(Location(index)) == index
    {
      if text != [] && index < |text| {
        var line := FindLine(index);
        assert lines[line - 1] <= index by {
          if line == 1 { assert lines[0] == 0; }
        }
      }
    }

    /** A point on a character of an existing line survives the trip through its offset. */
    lemma LocationOfToIndex(p: Point)
      requires Valid()
      requires 1 <= p.line <= NumberOfLines() && 1 <= p.column <= LengthOfLine(p.line).value
      ensures Location(ToIndex(p)) == p
    {
      var i := ToIndex(p);
      forall m | 0 <= m < p.line
        ensures lines[m] <= i
      {
        assert lines[m] <= lines[p.line - 1];
      }
      forall m | p.line <= m < |lines|
        ensures i < lines[m]
      {
        assert lines[p.line] <= lines[m];
      }
      assert FindLine(i) == p.line;
    }

    /** `shift`: the point `offset` characters away from `p`, clamped to the text. */
    function Shift(p: Point, offset: int): (r: Point)
      requires Valid()
      ensures IsNormal(r)
      ensures 0 <= ToIndex(p) + offset <= |text| ==> ToIndex(r) == ToIndex(p) + offset
    {
      var target := ToIndex(p) + offset;
      if 0 <= target <= |text| then ToIndexOfLocation(target); Location(target)
      else Location(target)
    }

    /** `eol`: the point of the terminator that ends line `ln`, or the end-of-file
        point when the line is the last one and has no terminator. */
    function Eol(ln: int): (r: Option<Point>)
      requires Valid()
      ensures r.Some? <==> 1 <= ln <= |lines|
      ensures r.Some? && IsTerminated(ln) ==>
        r.value == Point(ln, LengthOfLine(ln).value) && ToIndex(r.value) == LineEnd(text, lines, ln - 1) - 1
      ensures r.Some? && !IsTerminated(ln) ==> ln == |lines| && r.value == Eof()
    {
      var len := LengthOfLine(ln);
      if len.None? || len.value == 0 then None
      else
        var endIndex := lines[ln - 1] + len.value - 1;
        var end := Point(ln, len.value);
        // The one-character string has two matches of /$/m exactly when it is a terminator.
        if IsTerminator(text[endIndex]) then Some(end) else Some(Eof())
    }

    /** `lastNonEOL`: the point of the last character of line `ln` before its
        terminator; `None` when the line does not exist or holds only its terminator. */
    function LastNonEol(ln: int): (r: Option<Point>)
      requires Valid()
      ensures r.None? <==> !(1 <= ln <= |lines|) || ContentLength(ln) == 0
      ensures r.Some? ==> r.value == Point(ln, ContentLength(ln))
      ensures r.Some? ==> ToIndex(r.value) == lines[ln - 1] + ContentLength(ln) - 1
      ensures r.Some? ==> !IsTerminator(text[ToIndex(r.value)])
    {
      var end := Eol(ln);
      if end.None? then None
      else
        EolColumn(ln);
        if end.value.column == 1 then None
        else
          LastContentCharacter(ln);
          StepBackFromEol(ln);
          Some(Shift(end.value, -1))
    }

    /** The end-of-line point sits one column past the line's content. */
    lemma EolColumn(ln: int)
      requires Valid() && 1 <= ln <= |lines|
      ensures Eol(ln).value.column == ContentLength(ln) + 1
    {
    }

    /** One step back from the end-of-line point is the last character before the terminator. */
    lemma StepBackFromEol(ln: int)
      requires Valid() && 1 <= ln <= |lines| && ContentLength(ln) > 0
      ensures ToIndex(Point(ln, ContentLength(ln))) == lines[ln - 1] + ContentLength(ln) - 1
      ensures Shift(Eol(ln).value, -1) == Point(ln, ContentLength(ln))
    {
      var e := Eol(ln).value;
      var q := Point(ln, ContentLength(ln));
      assert ToIndex(e) - 1 == ToIndex(q);
      LocationOfToIndex(q);
    }

    /** The last character of a line before its terminator is not a terminator. */
    lemma LastContentCharacter(ln: int)
      requires Valid() && 1 <= ln <= |lines| && ContentLength(ln) > 0
      ensures !IsTerminator(text[lines[ln - 1] + ContentLength(ln) - 1])
    {
      if IsTerminated(ln) {
        NoTerminatorInside(text, lines, ln - 1, lines[ln - 1] + ContentLength(ln) - 1);
      }
    }

    /** `linePosition`: the span of line `ln`, terminator included. */
    function LinePosition(ln: int): (r: Option<Position>)
      requires Valid()
      ensures r.Some? <==> 1 <= ln <= |lines|
      ensures r.Some? ==> r.value.start == Point(ln, 1)
      ensures r.Some? ==> r.value.end == if ln < |lines| then Point(ln + 1, 1) else Eof()
    {
      var end := Eol(ln);
      if end.None? then None
      else Some(Position(Point(ln, 1), Shift(end.value, 1)))
    }

    /** What the `'EOL'` branch of `substring` cuts and keeps, case by case. */
    lemma EolSlice(start: Point)
      requires Valid()
      ensures var lineText := JsSubstring(text, ToIndex(start), ToIndex(Point(start.line, |text| + 1)) + 1);
        && ((text == [] || start.line > |lines|) ==> HeadBeforeLineEnd(lineText) == None)
        && (text != [] && start.line < 1 ==> HeadBeforeLineEnd(lineText) == Some(text[..1]))
        && (1 <= start.line <= |lines| ==>
              var a := ToIndex(start);
              var contentEnd := lines[start.line - 1] + ContentLength(start.line);
              var lineEnd := LineEnd(text, lines, start.line - 1);
              HeadBeforeLineEnd(lineText) ==
                if a < contentEnd then Some(text[a..contentEnd])
                else if a < lineEnd then Some(text[a..a + 1])
                else None)
    {
      var a := ToIndex(start);
      var lineText := JsSubstring(text, a, ToIndex(Point(start.line, |text| + 1)) + 1);
      if text != [] && start.line < 1 {
        assert lineText == text[..1];
        assert NextTerminator(lineText, 1) == 1;
        assert lineText[..1] == lineText;
      }
      if 1 <= start.line <= |lines| {
        EolSliceOnLine(start);
      }
    }

    /** On an existing line, the text `substring` splits runs from the start to the end of that line. */
    lemma EolLineText(start: Point)
      requires Valid() && 1 <= start.line <= |lines|
      ensures var a := ToIndex(start);
        var lineEnd := LineEnd(text, lines, start.line - 1);
        lines[start.line - 1] <= a <= lineEnd &&
        JsSubstring(text, a, ToIndex(Point(start.line, |text| + 1)) + 1) == text[a..lineEnd]
    {
    }

    /** On an existing line, the head of that text is the rest of the line's content. */
    lemma EolSliceOnLine(start: Point)
      requires Valid() && 1 <= start.line <= |lines|
      ensures var a := ToIndex(start);
        var contentEnd := lines[start.line - 1] + ContentLength(start.line);
        var lineEnd := LineEnd(text, lines, start.line - 1);
        HeadBeforeLineEnd(JsSubstring(text, a, ToIndex(Point(start.line, |text| + 1)) + 1)) ==
          if a < contentEnd then Some(text[a..contentEnd])
          else if a < lineEnd then Some(text[a..a + 1])
          else None
    {
      var a := ToIndex(start);
      var lineEnd := LineEnd(text, lines, start.line - 1);
      EolLineText(start);
      HeadOfLineFrom(start.line, a);
      assert HeadBeforeLineEnd(JsSubstring(text, a, ToIndex(Point(start.line, |text| + 1)) + 1)) ==
        HeadBeforeLineEnd(text[a..lineEnd]);
    }

    /** The head `split(/$/m)` keeps of the rest of line `ln` from offset `a`. */
    lemma HeadOfLineFrom(ln: int, a: int)
      requires Valid() && 1 <= ln <= |lines|
      requires lines[ln - 1] <= a <= LineEnd(text, lines, ln - 1)
      ensures var contentEnd := lines[ln - 1] + ContentLength(ln);
        var lineEnd := LineEnd(text, lines, ln - 1);
        HeadBeforeLineEnd(text[a..lineEnd]) ==
          if a < contentEnd then Some(text[a..contentEnd])
          else if a < lineEnd then Some(text[a..a + 1])
          else None
    {
      var contentEnd := lines[ln - 1] + ContentLength(ln);
      var lineEnd := LineEnd(text, lines, ln - 1);
      var lineText := text[a..lineEnd];
      if a < lineEnd {
        var target := if a < contentEnd then contentEnd - a else 1;
        forall j | 1 <= j < target
          ensures !IsTerminator(lineText[j])
        {
          if a + j < lineEnd - 1 {
            NoTerminatorInside(text, lines, ln - 1, a + j);
          }
        }
        assert target < |lineText| ==> IsTerminator(lineText[target]);
        var h := NextTerminator(lineText, 1);
        assert h == target;
        assert lineText[..h] == text[a..a + h];
      }
    }

    /**
     * `substring`: the text from `start` up to `end`. Up to a point, it is the
     * text between the two offsets, empty when the end does not come after the
     * start; up to the end of the file, the rest of the text; up to the end of
     * the line, the line's text without its terminator, except that a start on
     * the terminator gives the terminator itself and a start at the end of the
     * line gives `None`, as JavaScript's `split` does.
     */
    function Substring(start: Point, end: SpanEnd): (r: Option<string>)
      requires Valid()
      ensures end.ToEof? ==> r == Some(text[ToIndex(start)..])
      ensures end.ToPoint? && ToIndex(end.point) <= ToIndex(start) ==> r == Some("")
      ensures end.ToPoint? && ToIndex(start) <= ToIndex(end.point) ==>
        r == Some(text[ToIndex(start) .. ToIndex(end.point)])
      ensures end.ToEol? && (text == [] || start.line > |lines|) ==> r == None
      ensures end.ToEol? && text != [] && start.line < 1 ==> r == Some(text[..1])
      ensures end.ToEol? && 1 <= start.line <= |lines| ==>
        var a := ToIndex(start);
        var contentEnd := lines[start.line - 1] + ContentLength(start.line);
        var lineEnd := LineEnd(text, lines, start.line - 1);
        r == if a < contentEnd then Some(text[a..contentEnd])
             else if a < lineEnd then Some(text[a..a + 1])
             else None
    {
      var startIndex := ToIndex(start);
      match end
      case ToEol =>
        // `column: Infinity` lies past every line; |text| + 1 does too.
        var lineText := JsSubstring(text, startIndex, ToIndex(Point(start.line, |text| + 1)) + 1);
        EolSlice(start);
        HeadBeforeLineEnd(lineText)
      case ToEof =>
        assert text[startIndex..|text|] == text[startIndex..];
        Some(JsSubstring(text, startIndex, |text|))
      case ToPoint(p) =>
        var endIndex := ToIndex(p);
        if endIndex < startIndex then Some("") else Some(JsSubstring(text, startIndex, endIndex))
    }

    /** `match`: runs `pattern` once over the text `span` selects and reports
        the first match as points of the whole text. */
    function Match(pattern: string -> Option<RegexMatch>, span: Position): (r: Option<MatchResult>)
      requires Valid() && IsFirstMatchFunction(pattern)
      ensures var content := Substring(span.start, ToPoint(span.end)).value;
        r.None? <==> content == [] || pattern(content).None?
      ensures r.Some? ==>
        var m := pattern(Substring(span.start, ToPoint(span.end)).value).value;
        && r.value.captures == m.captures
        && IsNormal(r.value.position.start) && IsNormal(r.value.position.end)
        && ToIndex(r.value.position.start) == ToIndex(span.start) + m.index
        && ToIndex(r.value.position.end) == ToIndex(span.start) + m.index + |m.captures[0]|
    {
      var content := Substring(span.start, ToPoint(span.end)).value;
      if content == [] then None
      else
        match pattern(content)
        case None => None
        case Some(m) =>
          var offset := ToIndex(span.start);
          var from := offset + m.index;
          var upTo := from + |m.captures[0]|;
          ToIndexOfLocation(from);
          ToIndexOfLocation(upTo);
          Some(MatchResult(Position(Location(from), Location(upTo)), m.captures))
    }
  }
}
