/**
 * The string handling of the posts builder (packages/orga-posts/src/index.ts):
 * `sanitise`, which turns a title into a file-name slug, the parsing of the
 * `orga_publish_keyword` property into a keyword list, `getExportFileName`,
 * which fills in a missing export file name, and the fallback that gives
 * every post a title.
 */
module OrgaPosts {
  import opened Options

  /** JavaScript's `\s` class, which is also what `String.prototype.trim`
      strips: the WhiteSpace and LineTerminator characters of ECMAScript. */
  predicate IsJsWhitespace(c: char) {
    || c == '\t' || c == '\n' || c == '\U{000B}' || c == '\U{000C}' || c == '\r' || c == ' '
    || c == '\U{00A0}' || c == '\U{1680}' || ('\U{2000}' <= c <= '\U{200A}')
    || c == '\U{2028}' || c == '\U{2029}' || c == '\U{202F}' || c == '\U{205F}'
    || c == '\U{3000}' || c == '\U{FEFF}'
  }

  predicate NoWhitespace(s: string) {
    forall i :: 0 <= i < |s| ==> !IsJsWhitespace(s[i])
  }

  /** The end of the whitespace run that starts at `i`: the first position
      from `i` on that does not hold whitespace, or `|s|`. */
  function WhitespaceEnd(s: string, i: nat): (n: nat)
    requires i <= |s|
    ensures i <= n <= |s|
    ensures forall j :: i <= j < n ==> IsJsWhitespace(s[j])
    ensures n < |s| ==> !IsJsWhitespace(s[n])
    decreases |s| - i
  {
    if i < |s| && IsJsWhitespace(s[i]) then WhitespaceEnd(s, i + 1) else i
  }

  /** The start of the whitespace run that ends at `m`: the position after the
      last character before `m` that is not whitespace, or 0. */
  function WhitespaceStart(s: string, m: nat): (n: nat)
    requires m <= |s|
    ensures n <= m
    ensures forall j :: n <= j < m ==> IsJsWhitespace(s[j])
    ensures 0 < n ==> !IsJsWhitespace(s[n - 1])
  {
    if 0 < m && IsJsWhitespace(s[m - 1]) then WhitespaceStart(s, m - 1) else m
  }

  // ---------------------------------------------------------------------
  // sanitise
  // ---------------------------------------------------------------------

  /** `replace(/\s+/g, '-')`: each maximal run of whitespace becomes one `-`. */
  function CollapseWhitespace(s: string): string
    decreases |s|
  {
    if s == [] then []
    else if IsJsWhitespace(s[0]) then "-" + CollapseWhitespace(s[WhitespaceEnd(s, 0)..])
    else [s[0]] + CollapseWhitespace(s[1..])
  }

  /** The characters `[^a-z0-9-]` with the `i` flag does not match. Without the
      `u` flag, case-insensitive matching never maps a non-ASCII character to
      an ASCII one, so these are exactly the ASCII letters, digits and `-`. */
  predicate IsSlugChar(c: char) {
    ('a' <= c <= 'z') || ('A' <= c <= 'Z') || ('0' <= c <= '9') || c == '-'
  }

  /** The characters a sanitised name is made of: `[a-z0-9-]`. */
  predicate IsLowerSlugChar(c: char) {
    ('a' <= c <= 'z') || ('0' <= c <= '9') || c == '-'
  }

  /** `replace(/[^a-z0-9-]/gi, '')`: drops every other character. */
  function KeepSlugChars(s: string): (r: string)
    ensures |r| <= |s|
    ensures forall i :: 0 <= i < |r| ==> IsSlugChar(r[i])
  {
    if s == [] then []
    else (if IsSlugChar(s[0]) then [s[0]] else []) + KeepSlugChars(s[1..])
  }

  /** Lower case of an ASCII letter; every other character is its own lower case
      among the characters that reach this step. */
  function LowerChar(c: char): char {
    if 'A' <= c <= 'Z' then (c as int - 'A' as int + 'a' as int) as char else c
  }

  /** `toLowerCase()` on strings made of slug characters. */
  function LowerAscii(s: string): (r: string)
    ensures |r| == |s|
    ensures forall i :: 0 <= i < |s| ==> r[i] == LowerChar(s[i])
  {
    if s == [] then [] else [LowerChar(s[0])] + LowerAscii(s[1..])
  }

  /** `sanitise`: the three replacements of the title, in the source's order. */
  function Sanitise(title: string): (r: string)
    ensures forall i :: 0 <= i < |r| ==> IsLowerSlugChar(r[i])
  {
    LowerAscii(KeepSlugChars(CollapseWhitespace(title)))
  }

  /** A whitespace run that starts inside `x` ends inside `x` when `x` ends
      with a character that is not whitespace, whatever follows `x`. */
  lemma {:induction false} WhitespaceEndAppend(x: string, y: string, i: nat)
    requires i < |x| && !IsJsWhitespace(x[|x| - 1])
    ensures WhitespaceEnd(x + y, i) == WhitespaceEnd(x, i)
    decreases |x| - i
  {
    assert (x + y)[i] == x[i];
    if IsJsWhitespace(x[i]) {
      WhitespaceEndAppend(x, y, i + 1);
    }
  }

  /** A run of whitespace followed by a non-whitespace character ends there. */
  lemma {:induction false} WhitespaceEndRun(w: string, b: string, i: nat)
    requires i <= |w| && forall j :: 0 <= j < |w| ==> IsJsWhitespace(w[j])
    requires b == [] || !IsJsWhitespace(b[0])
    ensures WhitespaceEnd(w + b, i) == |w|
    decreases |w| - i
  {
    if i < |w| {
      assert (w + b)[i] == w[i];
      WhitespaceEndRun(w, b, i + 1);
    } else if b != [] {
      assert (w + b)[i] == b[0];
    }
  }

  /** Collapsing distributes over a cut made right after a non-whitespace
      character, which never splits a run. */
  lemma {:induction false} CollapseAppend(a: string, b: string)
    requires a == [] || !IsJsWhitespace(a[|a| - 1])
    ensures CollapseWhitespace(a + b) == CollapseWhitespace(a) + CollapseWhitespace(b)
    decreases |a|
  {
    if a == [] {
      assert a + b == b;
    } else if IsJsWhitespace(a[0]) {
      var n := WhitespaceEnd(a, 0);
      CollapseAppend(a[n..], b);
      CollapseAppendRunStep(a, b, n);
    } else {
      CollapseAppend(a[1..], b);
      CollapseAppendCharStep(a[0], a[1..], b);
      assert a == [a[0]] + a[1..];
      assert a + b == [a[0]] + (a[1..] + b);
    }
  }

  /** The step of `CollapseAppend` for a string that starts with a run of
      whitespace ending at `n`. */
  lemma CollapseAppendRunStep(a: string, b: string, n: nat)
    requires a != [] && IsJsWhitespace(a[0]) && !IsJsWhitespace(a[|a| - 1])
    requires n == WhitespaceEnd(a, 0)
    requires CollapseWhitespace(a[n..] + b) == CollapseWhitespace(a[n..]) + CollapseWhitespace(b)
    ensures CollapseWhitespace(a + b) == CollapseWhitespace(a) + CollapseWhitespace(b)
  {
    WhitespaceEndAppend(a, b, 0);
    assert (a + b)[0] == a[0];
    assert (a + b)[n..] == a[n..] + b;
  }

  /** The step of `CollapseAppend` for a string that starts with another character. */
  lemma CollapseAppendCharStep(c: char, t: string, b: string)
    requires !IsJsWhitespace(c)
    requires CollapseWhitespace(t + b) == CollapseWhitespace(t) + CollapseWhitespace(b)
    ensures CollapseWhitespace([c] + (t + b)) == CollapseWhitespace([c] + t) + CollapseWhitespace(b)
  {
    CollapseCons(c, t);
    CollapseCons(c, t + b);
  }

  /** Collapsing a string that starts with a non-whitespace character keeps that character. */
  lemma CollapseCons(c: char, t: string)
    requires !IsJsWhitespace(c)
    ensures CollapseWhitespace([c] + t) == [c] + CollapseWhitespace(t)
  {
    assert ([c] + t)[0] == c && ([c] + t)[1..] == t;
  }

  /** A leading run of whitespace becomes a single `-`. */
  lemma CollapseLeadingRun(w: string, b: string)
    requires w != [] && forall i :: 0 <= i < |w| ==> IsJsWhitespace(w[i])
    requires b == [] || !IsJsWhitespace(b[0])
    ensures CollapseWhitespace(w + b) == "-" + CollapseWhitespace(b)
  {
    WhitespaceEndRun(w, b, 0);
    assert (w + b)[0] == w[0];
    assert (w + b)[|w|..] == b;
  }

  /** A maximal run of whitespace between `a` and `b` becomes a single `-`. */
  lemma CollapseRun(a: string, w: string, b: string)
    requires a == [] || !IsJsWhitespace(a[|a| - 1])
    requires w != [] && forall i :: 0 <= i < |w| ==> IsJsWhitespace(w[i])
    requires b == [] || !IsJsWhitespace(b[0])
    ensures CollapseWhitespace(a + (w + b)) == CollapseWhitespace(a) + ("-" + CollapseWhitespace(b))
  {
    CollapseAppend(a, w + b);
    CollapseLeadingRun(w, b);
  }

  /** Collapsing leaves no whitespace behind. */
  lemma {:induction false} CollapseNoWhitespace(s: string)
    ensures NoWhitespace(CollapseWhitespace(s))
    decreases |s|
  {
    if s != [] {
      if IsJsWhitespace(s[0]) {
        CollapseNoWhitespace(s[WhitespaceEnd(s, 0)..]);
      } else {
        CollapseNoWhitespace(s[1..]);
      }
    }
  }

  /** A string without whitespace is not changed by collapsing. */
  lemma {:induction false} CollapsePlain(s: string)
    requires NoWhitespace(s)
    ensures CollapseWhitespace(s) == s
  {
    if s != [] {
      CollapsePlain(s[1..]);
      assert s == [s[0]] + s[1..];
    }
  }

  /** Dropping distributes over concatenation: what is kept is kept in order. */
  lemma {:induction false} KeepSlugCharsAppend(a: string, b: string)
    ensures KeepSlugChars(a + b) == KeepSlugChars(a) + KeepSlugChars(b)
  {
    if a == [] {
      assert a + b == b;
    } else {
      assert (a + b)[0] == a[0] && (a + b)[1..] == a[1..] + b;
      KeepSlugCharsAppend(a[1..], b);
    }
  }

  /** A single character is kept exactly when it is a slug character. */
  lemma KeepSlugCharsOne(c: char)
    ensures KeepSlugChars([c]) == if IsSlugChar(c) then [c] else []
  {
    assert [c][1..] == [];
  }

  /** A string made of slug characters is not changed by dropping. */
  lemma {:induction false} KeepSlugCharsPlain(s: string)
    requires forall i :: 0 <= i < |s| ==> IsSlugChar(s[i])
    ensures KeepSlugChars(s) == s
  {
    if s != [] {
      KeepSlugCharsPlain(s[1..]);
      assert s == [s[0]] + s[1..];
    }
  }

  /** Sanitising a sanitised name changes nothing. */
  lemma SanitiseIdempotent(title: string)
    ensures Sanitise(Sanitise(title)) == Sanitise(title)
  {
    var s := Sanitise(title);
    assert NoWhitespace(s);
    CollapsePlain(s);
    KeepSlugCharsPlain(s);
    assert LowerAscii(s) == s;
  }

  // ---------------------------------------------------------------------
  // the publish-keyword list
  // ---------------------------------------------------------------------

  /** `split(sep)` with a one-character separator: the parts between the
      separators, one more than there are separators. */
  function SplitOn(s: string, sep: char): (parts: seq<string>)
    ensures |parts| >= 1
    ensures forall i, j :: 0 <= i < |parts| && 0 <= j < |parts[i]| ==> parts[i][j] != sep
  {
    if s == [] then [[]]
    else
      var rest := SplitOn(s[1..], sep);
      if s[0] == sep then [[]] + rest else [[s[0]] + rest[0]] + rest[1..]
  }

  /** `join(sep)`. */
  function Join(parts: seq<string>, sep: char): string
    requires |parts| >= 1
  {
    if |parts| == 1 then parts[0] else parts[0] + [sep] + Join(parts[1..], sep)
  }

  /** Joining the parts of a split gives the string back. */
  lemma {:induction false} JoinSplit(s: string, sep: char)
    ensures Join(SplitOn(s, sep), sep) == s
  {
    if s != [] {
      JoinSplit(s[1..], sep);
      var rest := SplitOn(s[1..], sep);
      if s[0] == sep {
        assert SplitOn(s, sep)[1..] == rest;
        assert s == [] + [sep] + s[1..];
      } else {
        var parts := SplitOn(s, sep);
        assert parts[0] == [s[0]] + rest[0];
        if |rest| == 1 {
          assert s == [s[0]] + rest[0];
        } else {
          assert parts[1..] == rest[1..];
          assert Join(rest, sep) == rest[0] + [sep] + Join(rest[1..], sep);
          assert s == [s[0]] + Join(rest, sep);
        }
      }
    }
  }

  /** Joining parts whose first one starts with `c` is joining the rest with `c` in front. */
  lemma JoinCons(c: char, parts: seq<string>, sep: char)
    requires |parts| >= 1
    ensures Join([[c] + parts[0]] + parts[1..], sep) == [c] + Join(parts, sep)
  {
    var parts' := [[c] + parts[0]] + parts[1..];
    assert parts'[0] == [c] + parts[0];
    if |parts| > 1 {
      assert parts'[1..] == parts[1..];
    }
  }

  /** Splitting joined parts that hold no separator gives the parts back. */
  lemma {:induction false} SplitJoin(parts: seq<string>, sep: char)
    requires |parts| >= 1
    requires forall i, j :: 0 <= i < |parts| && 0 <= j < |parts[i]| ==> parts[i][j] != sep
    ensures SplitOn(Join(parts, sep), sep) == parts
    decreases |parts|, |parts[0]|
  {
    var p := parts[0];
    if p == [] {
      if |parts| > 1 {
        SplitJoin(parts[1..], sep);
        assert Join(parts, sep) == [sep] + Join(parts[1..], sep);
        assert Join(parts, sep)[1..] == Join(parts[1..], sep);
        assert parts == [[]] + parts[1..];
      }
    } else {
      var tail := [p[1..]] + parts[1..];
      assert tail[0] == p[1..] && tail[1..] == parts[1..];
      forall i, j | 0 <= i < |tail| && 0 <= j < |tail[i]|
        ensures tail[i][j] != sep
      {
        if i == 0 { assert tail[0][j] == p[j + 1]; } else { assert tail[i] == parts[i]; }
      }
      SplitJoin(tail, sep);
      assert p == [p[0]] + p[1..];
      assert parts == [[p[0]] + tail[0]] + tail[1..];
      JoinCons(p[0], tail, sep);
      var s := Join(parts, sep);
      assert s[0] == p[0] && s[1..] == Join(tail, sep);
      assert p[0] != sep;
    }
  }

  /** Neither end of the string is whitespace. */
  predicate IsTrimmed(s: string) {
    s == [] || (!IsJsWhitespace(s[0]) && !IsJsWhitespace(s[|s| - 1]))
  }

  /** `trim()`: the string without its leading and trailing whitespace. */
  function Trim(s: string): (r: string)
    ensures IsTrimmed(r)
  {
    var i, j := WhitespaceEnd(s, 0), WhitespaceStart(s, |s|);
    if i < j then s[i..j] else []
  }

  /** The trim is a contiguous slice of the string, and only whitespace is
      cut off on either side of it. */
  lemma TrimSlice(s: string)
    ensures var i, r := WhitespaceEnd(s, 0), Trim(s);
      && i + |r| <= |s| && r == s[i..i + |r|]
      && (forall k :: 0 <= k < i || i + |r| <= k < |s| ==> IsJsWhitespace(s[k]))
  {
  }

  /** A trimmed string is its own trim. */
  lemma TrimTrimmed(s: string)
    requires IsTrimmed(s)
    ensures Trim(s) == s
  {
  }

  /** The trimmed, non-empty parts, in order. */
  function NonEmptyTrimmed(parts: seq<string>): (r: seq<string>)
    ensures |r| <= |parts|
  {
    if parts == [] then [] else KeptTrim(parts[0]) + NonEmptyTrimmed(parts[1..])
  }

  /** What the filter keeps of one part: its trim, unless that is empty. */
  function KeptTrim(p: string): (r: seq<string>)
  {
    if Trim(p) != [] then [Trim(p)] else []
  }

  /** Keeping the non-empty trims distributes over concatenation, so the kept
      entries stay in the order of their parts. */
  lemma {:induction false} NonEmptyTrimmedAppend(a: seq<string>, b: seq<string>)
    ensures NonEmptyTrimmed(a + b) == NonEmptyTrimmed(a) + NonEmptyTrimmed(b)
  {
    if a == [] {
      assert a + b == b;
    } else {
      assert (a + b)[0] == a[0] && (a + b)[1..] == a[1..] + b;
      NonEmptyTrimmedAppend(a[1..], b);
    }
  }

  /** A single part gives its trim when that is not empty, and nothing otherwise. */
  lemma NonEmptyTrimmedOne(p: string)
    ensures NonEmptyTrimmed([p]) == if Trim(p) != [] then [Trim(p)] else []
  {
    assert [p][1..] == [];
  }

  /** An index past the first of two concatenated sequences falls in the second. */
  lemma IndexPastPrefix<T>(a: seq<T>, b: seq<T>, k: nat)
    requires |a| <= k < |a| + |b|
    ensures (a + b)[k] == b[k - |a|]
  {
  }

  /** Every kept entry is the trim of some part, and no earlier part than its position. */
  lemma {:induction false} NonEmptyTrimmedSound(parts: seq<string>, k: nat) returns (i: nat)
    requires k < |NonEmptyTrimmed(parts)|
    ensures k <= i < |parts| && NonEmptyTrimmed(parts)[k] == Trim(parts[i]) && Trim(parts[i]) != []
  {
    var head, rest := KeptTrim(parts[0]), NonEmptyTrimmed(parts[1..]);
    assert NonEmptyTrimmed(parts) == head + rest;
    if k < |head| {
      i := 0;
      KeptTrimHead(parts[0], head + rest, k);
    } else {
      var j := NonEmptyTrimmedSound(parts[1..], k - |head|);
      i := j + 1;
      IndexPastPrefix(head, rest, k);
      assert parts[1..][j] == parts[i];
    }
  }

  /** The kept entries are non-empty and trimmed. */
  lemma NonEmptyTrimmedWellFormed(parts: seq<string>)
    ensures forall k :: 0 <= k < |NonEmptyTrimmed(parts)| ==>
      NonEmptyTrimmed(parts)[k] != [] && IsTrimmed(NonEmptyTrimmed(parts)[k])
  {
    forall k | 0 <= k < |NonEmptyTrimmed(parts)|
      ensures NonEmptyTrimmed(parts)[k] != [] && IsTrimmed(NonEmptyTrimmed(parts)[k])
    {
      var i := NonEmptyTrimmedSound(parts, k);
    }
  }

  /** An entry taken from the kept trim of a part is that part's trim. */
  lemma KeptTrimHead(p: string, r: seq<string>, k: nat)
    requires k < |KeptTrim(p)| <= |r| && r[..|KeptTrim(p)|] == KeptTrim(p)
    ensures r[k] == Trim(p)
  {
    assert r[k] == r[..|KeptTrim(p)|][k];
  }

  /**
   * The keyword list of `build`: `orga_publish_keyword`, or `''` when the
   * property is missing, split on single spaces, each part trimmed, and the
   * empty ones dropped.
   */
  function PublishKeywords(property: Option<string>): (keywords: seq<string>)
  {
    var raw := if property.Some? then property.value else "";
    NonEmptyTrimmed(SplitOn(raw, ' '))
  }

  /** Every keyword that the trimmed parts keep holds no space. */
  lemma {:induction false} NonEmptyTrimmedNoSpace(parts: seq<string>)
    requires forall i, j :: 0 <= i < |parts| && 0 <= j < |parts[i]| ==> parts[i][j] != ' '
    ensures forall i, j :: 0 <= i < |NonEmptyTrimmed(parts)| && 0 <= j < |NonEmptyTrimmed(parts)[i]| ==>
      NonEmptyTrimmed(parts)[i][j] != ' '
  {
    if parts != [] {
      NonEmptyTrimmedNoSpace(parts[1..]);
      var p := parts[0];
      var t := Trim(p);
      var i0 := WhitespaceEnd(p, 0);
      TrimSlice(p);
      forall j | 0 <= j < |t|
        ensures t[j] != ' '
      {
        assert t[j] == p[i0 + j];
      }
    }
  }

  /** The keywords are non-empty, have no surrounding whitespace and hold no space. */
  lemma KeywordsWellFormed(property: Option<string>)
    ensures forall i :: 0 <= i < |PublishKeywords(property)| ==>
      PublishKeywords(property)[i] != [] && IsTrimmed(PublishKeywords(property)[i])
    ensures forall i, j :: 0 <= i < |PublishKeywords(property)| && 0 <= j < |PublishKeywords(property)[i]| ==>
      PublishKeywords(property)[i][j] != ' '
  {
    var raw := if property.Some? then property.value else "";
    NonEmptyTrimmedWellFormed(SplitOn(raw, ' '));
    NonEmptyTrimmedNoSpace(SplitOn(raw, ' '));
  }

  /** No part with a non-empty trim is lost. */
  lemma {:induction false} NonEmptyTrimmedComplete(parts: seq<string>, i: nat)
    requires i < |parts| && Trim(parts[i]) != []
    ensures Trim(parts[i]) in NonEmptyTrimmed(parts)
  {
    if i > 0 {
      NonEmptyTrimmedComplete(parts[1..], i - 1);
      assert parts[1..][i - 1] == parts[i];
    }
  }

  /** Every space-separated part with a non-empty trim is a keyword. */
  lemma KeywordsComplete(raw: string, i: nat)
    requires i < |SplitOn(raw, ' ')| && Trim(SplitOn(raw, ' ')[i]) != []
    ensures Trim(SplitOn(raw, ' ')[i]) in PublishKeywords(Some(raw))
  {
    NonEmptyTrimmedComplete(SplitOn(raw, ' '), i);
  }

  /** Every keyword is the trim of a space-separated part. */
  lemma KeywordsSound(raw: string, k: nat) returns (i: nat)
    requires k < |PublishKeywords(Some(raw))|
    ensures i < |SplitOn(raw, ' ')| && PublishKeywords(Some(raw))[k] == Trim(SplitOn(raw, ' ')[i])
  {
    i := NonEmptyTrimmedSound(SplitOn(raw, ' '), k);
  }

  /** Trimmed words that are already keywords are kept, in order. */
  lemma {:induction false} NonEmptyTrimmedWords(words: seq<string>)
    requires forall i :: 0 <= i < |words| ==> words[i] != [] && IsTrimmed(words[i])
    ensures NonEmptyTrimmed(words) == words
  {
    if words != [] {
      NonEmptyTrimmedWords(words[1..]);
      TrimTrimmed(words[0]);
      assert words == [words[0]] + words[1..];
    }
  }

  /** Keywords written out separated by single spaces are read back as they were. */
  lemma KeywordsRoundTrip(words: seq<string>)
    requires |words| >= 1
    requires forall i :: 0 <= i < |words| ==> words[i] != [] && IsTrimmed(words[i])
    requires forall i, j :: 0 <= i < |words| && 0 <= j < |words[i]| ==> words[i][j] != ' '
    ensures PublishKeywords(Some(Join(words, ' '))) == words
  {
    SplitJoin(words, ' ');
    NonEmptyTrimmedWords(words);
  }

  /** A missing or empty property gives no keyword, so the document is one post. */
  lemma NoKeywords()
    ensures PublishKeywords(None) == [] && PublishKeywords(Some("")) == []
  {
    assert SplitOn("", ' ') == [""];
    assert Trim("") == "";
  }

  // ---------------------------------------------------------------------
  // metadata
  // ---------------------------------------------------------------------

  /** The metadata of a post; an absent string property is `""`. */
  datatype Metadata = Metadata(
    title: string,
    category: string,
    exportFileName: string,
    keyword: string,
    tags: seq<string>)

  /** `getExportFileName`: a post without an export file name gets its sanitised title. */
  function GetExportFileName(metadata: Metadata): (r: Metadata)
    ensures metadata.exportFileName != [] ==> r == metadata
    ensures metadata.exportFileName == [] ==>
      r.exportFileName == Sanitise(metadata.title) && r.(exportFileName := []) == metadata
  {
    if metadata.exportFileName != [] then metadata
    else metadata.(exportFileName := Sanitise(metadata.title))
  }

  /** Filling in the export file name twice is filling it in once, and the
      file name is either the given one or a slug of the title. */
  lemma ExportFileNameSettled(metadata: Metadata)
    ensures GetExportFileName(GetExportFileName(metadata)) == GetExportFileName(metadata)
    ensures var name := GetExportFileName(metadata).exportFileName;
      name == metadata.exportFileName || forall i :: 0 <= i < |name| ==> IsLowerSlugChar(name[i])
  {
  }

  /**
   * The title `getTitle` settles on: `export_title`, else `title`, replaced by
   * the headline's text when the post is a section (`headline` is then
   * present), and `'Untitled'` when what that gives is empty.
   */
  function TitleOf(exportTitle: string, title: string, headline: Option<string>): (r: string)
    ensures r != []
    ensures r == "Untitled" || r == exportTitle || r == title || (headline.Some? && r == headline.value)
    ensures headline.Some? && headline.value != [] ==> r == headline.value
    ensures headline.None? && exportTitle != [] ==> r == exportTitle
    ensures headline.None? && exportTitle == [] && title != [] ==> r == title
    ensures (if headline.Some? then headline.value == [] else exportTitle == [] && title == []) ==>
      r == "Untitled"
  {
    var theTitle := if headline.Some? then headline.value
      else if exportTitle != [] then exportTitle else title;
    if theTitle != [] then theTitle else "Untitled"
  }
}
