# orgajs text kit and string helpers, in Dafny

This project models three parts of the orgajs repository and proves what they
promise.

- **The text kit** (`packages/text-kit/src/read.ts`). It is built once from
  an immutable text. The text is cut into lines the way JavaScript's
  `text.split(/^/mg)` cuts it, and the kit records the offset at which each
  line starts. Every other operation reads that table. The operations convert
  between 1-based `{line, column}` points and 0-based offsets, derive the
  end-of-line and end-of-file points, extract substrings, and run a pattern
  over a region of the text. None of them fails: bad input is clamped or
  answered with `undefined`, which is `None` here.
- **`escape` and `isPhrasingContent`** (`packages/orga/src/utils.ts`).
  `escape` backslash-quotes the fourteen regular-expression metacharacters.
  `isPhrasingContent` recognises the token types allowed inside a paragraph.
- **The string handling of the posts builder**
  (`packages/orga-posts/src/index.ts`). This covers `sanitise` (title to file
  name slug), the parsing of the `orga_publish_keyword` property,
  `getExportFileName`, and the `'Untitled'` fallback of `getTitle`.

The files:

- `options.dfy`: the `Option` type.
- `line_table.dfy`: the model of `split(/^/mg)` and the table of line starts.
- `text_kit.dfy`: the kit as a class. Its fields `text` and `lines` are
  constants, because the source never changes them after construction. The
  constructor fills the table with a loop, as the source's `forEach` does.
- `text_kit_properties.dfy`: lemmas that relate several operations of the
  kit.
- `orga_utils.dfy` and `orga_posts.dfy`: the helpers, as pure functions with
  lemmas.

Line terminators are the four characters that JavaScript's multiline `^` and
`$` recognise: LF, CR, U+2028 and U+2029. So `"\r\n"` is two lines, and a
trailing terminator does not open a further line.

## Model

| member | source | states |
|---|---|---|
| TextKit.Kit.constructor | packages/text-kit/src/read.ts:88-90 | The recorded table is the running sum of the lengths of the `split(/^/mg)` pieces, and it is a line table (see `LineTable.LineStartsIsTable`). |
| LineTable.NextLineStart | packages/text-kit/src/read.ts:88 | The scan of `split(/^/m)` stops at the first position after `q` that follows a terminator, or at the end of the text. No character it passes over, other than the last, is a terminator. |
| LineTable.SplitFrom | packages/text-kit/src/read.ts:88 | The pieces cut from `text[p..]`. There are none exactly when nothing is left. `SplitFromConcat` and `SplitFromPieces` state what the pieces are. |
| LineTable.SplitLines | packages/text-kit/src/read.ts:88 | `text.split(/^/mg)`, the pieces cut from offset 0. It has no contract of its own; `SplitFromConcat`, `SplitFromPieces` and `LinesArePieces` state what it yields. |
| LineTable.LineStarts | packages/text-kit/src/read.ts:89-90 | The running sums of the piece lengths, starting at 0. It has no contract of its own; `LineStartsIsTable` and `LineStartsAddressPieces` state that it is the line table of the text. |
| LineTable.SplitFromConcat | packages/text-kit/src/read.ts:88 | The pieces of the split, laid end to end, give the text back. |
| LineTable.SplitFromPieces | packages/text-kit/src/read.ts:88 | Every piece is non-empty. A terminator can only be the last character of a piece. Every piece but the last ends with a terminator. |
| LineTable.LineStartsIsTable | packages/text-kit/src/read.ts:88-90 | The empty text has no line. Otherwise the first line starts at 0 and the starts increase strictly and stay inside the text. Each start after the first follows a terminator. Each terminator that has a character after it ends a line. |
| LineTable.LineStartsAddressPieces | packages/text-kit/src/read.ts:88-90 | The text between consecutive starts of the table is exactly the corresponding piece of the split. |
| LineTable.NoTerminatorInside | packages/text-kit/src/read.ts:88-90 | Inside a line of a line table, only the last character can be a terminator. |
| TextKit.Kit.NumberOfLines | packages/text-kit/src/read.ts:211-213 | It is the number of pieces of the split, and it is 0 exactly for the empty text. |
| TextKit.Kit.LengthOfLine | packages/text-kit/src/read.ts:93-96 | Defined exactly for lines 1 to n. The length is the next line's start, or the text's length for the last line, minus this line's start. It is at least 1. |
| TextKitProperties.LinesArePieces | packages/text-kit/src/read.ts:88-96 | The length of line `ln` is that of piece `ln`, and the text of the line is that piece. |
| TextKitProperties.LinesButLastAreTerminated | packages/text-kit/src/read.ts:88-90 | Every line but the last ends with a terminator. |
| TextKitProperties.LineLengthsSumToText | packages/text-kit/src/read.ts:88-96 | The line lengths add up to the length of the text. |
| TextKitProperties.TotalLengthReachesLineEnd | packages/text-kit/src/read.ts:93-96 | Lines 1 to `m` together reach exactly the end of line `m`. |
| TextKit.Kit.Eof | packages/text-kit/src/read.ts:98-105 | It is `{1,1}` for the empty text and `{n, len(n)+1}` otherwise. Its offset is the length of the text. |
| TextKit.Kit.ToIndexOrEof | packages/text-kit/src/read.ts:126-135 | An offset always lies in `[0, len(text)]`. The end-of-file marker comes back exactly when the text is not empty and the point lies past the last line, or on the last line past its end. |
| TextKit.Kit.ToIndex | packages/text-kit/src/read.ts:121-135 | The result is in `[0, len(text)]`. It is 0 for the empty text or a line below 1, and `len(text)` for a line past the last. A column below 1 gives the line start. A column on the line gives start + column - 1. A column past the end gives the line's last character, or `len(text)` on the last line. |
| TextKitProperties.ToIndexMonotoneInColumn | packages/text-kit/src/read.ts:126-135 | On a fixed line, the offset does not decrease as the column grows. |
| TextKitProperties.ToIndexMonotoneInLine | packages/text-kit/src/read.ts:126-135 | For a fixed column, the offset does not decrease as the line grows. |
| TextKit.Kit.FindLineIndexFrom | packages/text-kit/src/read.ts:146 | The `findIndex` search returns -1 exactly when no line is left. Otherwise it returns the first line from `i` on that is the last line or whose successor starts after `index`. |
| TextKit.Kit.FindLine | packages/text-kit/src/read.ts:145-148 | The result is 1 without lines. Otherwise it is a line in `[1, n]` that starts at or before `index` (or is line 1) and whose successor starts after it (or is the last line). |
| TextKit.Kit.Location | packages/text-kit/src/read.ts:150-159 | The result is one of the points the kit hands out. It is `{1,1}` for the empty text or a negative offset, and `eof()` at or past the end. Otherwise it lies on a character of an existing line. |
| TextKit.Kit.ToIndexOfLocation | packages/text-kit/src/read.ts:150-159 | For `0 <= i <= len(text)`, `toIndex(location(i)) == i`. |
| TextKit.Kit.LocationOfToIndex | packages/text-kit/src/read.ts:121-159 | For a point on a character of an existing line, `location(toIndex(p)) == p`. |
| TextKitProperties.NormalPointsAreFixed | packages/text-kit/src/read.ts:121-159 | The points that `location` returns unchanged from their own offset are exactly the points the kit hands out. |
| TextKit.Kit.Shift | packages/text-kit/src/read.ts:180-182 | The result is a point the kit hands out. When the target offset is inside the text, the result's offset is the point's offset plus the shift. |
| TextKitProperties.ShiftTwice | packages/text-kit/src/read.ts:180-182 | Two shifts are one shift by the sum, when the first one stays inside the text. |
| TextKit.Kit.Eol | packages/text-kit/src/read.ts:107-113 | Defined exactly for existing lines. A line ending with a terminator gives `{ln, len}`, the point of that terminator. Otherwise the line is the last one and the result is `eof()`. |
| TextKit.Kit.LastNonEol | packages/text-kit/src/read.ts:115-119 | It is `None` exactly when the line does not exist or holds only its terminator. Otherwise it is `{ln, c}`, where `c` counts the line's characters before its terminator, and the character there is not a terminator. |
| TextKit.Kit.LastContentCharacter | packages/text-kit/src/read.ts:115-119 | The last character of a line before its terminator is not a terminator. |
| TextKitProperties.LastNonEolPrecedesEol | packages/text-kit/src/read.ts:107-119 | Shifting the last non-terminator point by one gives the end-of-line point. |
| TextKit.Kit.LinePosition | packages/text-kit/src/read.ts:184-191 | Defined exactly for existing lines. It starts at `{ln,1}` and ends at `{ln+1,1}`, or at `eof()` for the last line. |
| TextKitProperties.LinePositionSelectsLine | packages/text-kit/src/read.ts:184-208 | The span of a line selects the whole line, terminator included. |
| TextKit.JsSubstring | packages/text-kit/src/read.ts:199 | `String.prototype.substring` clamps both bounds and swaps them when they are reversed. For bounds in order inside the string it is the slice. |
| TextKit.HeadBeforeLineEnd | packages/text-kit/src/read.ts:200 | `split(/$/mg)[0]` is `undefined` exactly for the empty string. Otherwise it is the prefix that runs to the first terminator after position 0. |
| TextKit.Kit.HeadOfLineFrom | packages/text-kit/src/read.ts:199-200 | From an offset inside line `ln`, the head is the rest of the line's text before its terminator. From the terminator itself, the head is the terminator. From the end of the line, there is none. |
| TextKit.Kit.EolSlice | packages/text-kit/src/read.ts:197-200 | The `'EOL'` branch gives `undefined` for the empty text or a line past the last, and the first character for a line below 1. Otherwise it gives what `HeadOfLineFrom` states. |
| TextKit.Kit.Substring | packages/text-kit/src/read.ts:193-208 | `'EOF'` gives the suffix from the start's offset. A point end at or before the start gives `""`. Otherwise a point end gives the text between the two offsets. `'EOL'` behaves as `EolSlice` states. |
| TextKitProperties.EolSubstringOfLine | packages/text-kit/src/read.ts:193-200 | From column 1 of a line with text, up to `'EOL'` is the line without its terminator. |
| TextKit.Kit.Match | packages/text-kit/src/read.ts:161-178 | It is `None` exactly when the selected text is empty or the pattern finds nothing. Otherwise the captures are the pattern's groups in order. The reported start and end are points the kit hands out, at the region's offset plus the match index, and plus the match length. |
| TextKitProperties.MatchContent | packages/text-kit/src/read.ts:161-168 | The pattern ran over the text between the region's two offsets, which is not empty, and it found a match inside that text. |
| TextKitProperties.MatchWithinRegion | packages/text-kit/src/read.ts:161-178 | The reported span lies inside the searched region. |
| TextKitProperties.MatchSelectsMatchedText | packages/text-kit/src/read.ts:161-178 | The substring of the reported span is the whole match, group 0. |
| OrgaUtils.Escape | packages/orga/src/utils.ts:3-7 | Every metacharacter is replaced by a backslash followed by itself. It has no contract of its own; the `Escape*` and `UnescapeEscape` lemmas below hold what it promises. |
| OrgaUtils.EscapeLength | packages/orga/src/utils.ts:3-7 | The output is as long as the input plus its number of metacharacters. |
| OrgaUtils.EscapePosition | packages/orga/src/utils.ts:3-7 | Character `i` of the input moves right by the number of metacharacters before it. A metacharacter gets a backslash immediately in front of it, and any other character is copied unchanged. |
| OrgaUtils.EscapeAppend | packages/orga/src/utils.ts:5-7 | Escaping a concatenation is concatenating the escapes, so order is kept. |
| OrgaUtils.EscapePlain | packages/orga/src/utils.ts:3-7 | A string with no metacharacter is returned unchanged. |
| OrgaUtils.EscapeIsEscaped | packages/orga/src/utils.ts:3-7 | In the output, every metacharacter sits in a pair made of a backslash and a metacharacter. |
| OrgaUtils.UnescapeEscape | packages/orga/src/utils.ts:5-7 | Removing the inserted backslashes gives the input back. |
| OrgaUtils.EscapeUnescape | packages/orga/src/utils.ts:3-7 | Every escaped string is the escape of its unescaping, so `escape` is a bijection onto the escaped strings. |
| OrgaUtils.IsPhrasingContent | packages/orga/src/utils.ts:13-20 | The test of `isPhrasingContent` on the token's type. It has no contract of its own; `PhrasingContentTypes` states which types pass. |
| OrgaUtils.PhrasingContentTypes | packages/orga/src/utils.ts:13-20 | A type is phrasing content exactly when it is `"text."` followed by anything, `"footnote.reference"`, `"link"` or `"newline"`. |
| OrgaPosts.Sanitise | packages/orga-posts/src/index.ts:56-61 | Every character of the result is in `[a-z0-9-]`. |
| OrgaPosts.SanitiseIdempotent | packages/orga-posts/src/index.ts:56-61 | Sanitising a sanitised name changes nothing. |
| OrgaPosts.CollapseWhitespace | packages/orga-posts/src/index.ts:58 | `replace(/\s+/g, '-')`. It has no contract of its own; `CollapseRun`, `CollapseLeadingRun`, `CollapseAppend`, `CollapseNoWhitespace` and `CollapsePlain` state what it does. |
| OrgaPosts.CollapseRun | packages/orga-posts/src/index.ts:58 | A maximal run of whitespace between two parts becomes a single `-`. |
| OrgaPosts.CollapseLeadingRun | packages/orga-posts/src/index.ts:58 | A leading run of whitespace becomes a single `-`. |
| OrgaPosts.CollapseAppend | packages/orga-posts/src/index.ts:58 | A cut made right after a non-whitespace character can be collapsed piece by piece. |
| OrgaPosts.CollapseNoWhitespace | packages/orga-posts/src/index.ts:58 | No whitespace is left after the first step. |
| OrgaPosts.CollapsePlain | packages/orga-posts/src/index.ts:58 | A string without whitespace goes through the first step unchanged. |
| OrgaPosts.KeepSlugChars | packages/orga-posts/src/index.ts:59 | Only ASCII letters, digits and `-` are kept, and the result is no longer than the input. |
| OrgaPosts.KeepSlugCharsAppend | packages/orga-posts/src/index.ts:59 | The second step distributes over concatenation, so what is kept stays in order. |
| OrgaPosts.KeepSlugCharsOne | packages/orga-posts/src/index.ts:59 | A single character is kept exactly when it is an ASCII letter, digit or `-`. |
| OrgaPosts.KeepSlugCharsPlain | packages/orga-posts/src/index.ts:59 | A string of slug characters goes through the second step unchanged. |
| OrgaPosts.LowerAscii | packages/orga-posts/src/index.ts:60 | Lower-casing keeps the length and lowers each ASCII capital in place. |
| OrgaPosts.SplitOn | packages/orga-posts/src/index.ts:161 | `split(' ')` gives at least one part, and no part holds the separator. |
| OrgaPosts.JoinSplit | packages/orga-posts/src/index.ts:161 | Joining the parts with the separator gives the string back. |
| OrgaPosts.SplitJoin | packages/orga-posts/src/index.ts:161 | Splitting joined parts that hold no separator gives the parts back. |
| OrgaPosts.Trim | packages/orga-posts/src/index.ts:162 | `trim()` leaves no whitespace at either end. |
| OrgaPosts.TrimSlice | packages/orga-posts/src/index.ts:162 | The trim is a contiguous slice of the string, and only whitespace is cut off on both sides. |
| OrgaPosts.TrimTrimmed | packages/orga-posts/src/index.ts:162 | A trimmed string is its own trim. |
| OrgaPosts.NonEmptyTrimmed | packages/orga-posts/src/index.ts:162-163 | `map(trim)` then `filter(k => k.length > 0)`: there are no more entries than parts. The lemmas below say which entries come out, and in which order. |
| OrgaPosts.NonEmptyTrimmedAppend | packages/orga-posts/src/index.ts:162-163 | Mapping and filtering a concatenation of part lists gives the concatenation of the results, so entries keep the order of their parts and no entry appears without a part. |
| OrgaPosts.NonEmptyTrimmedOne | packages/orga-posts/src/index.ts:162-163 | One part gives its trim when that is not empty, and nothing otherwise. With the previous row, this fixes the result for every list of parts. |
| OrgaPosts.NonEmptyTrimmedSound | packages/orga-posts/src/index.ts:162-163 | Entry `k` is the non-empty trim of some part `i`, with `k <= i`. |
| OrgaPosts.NonEmptyTrimmedWellFormed | packages/orga-posts/src/index.ts:162-163 | Every entry is non-empty and trimmed. |
| OrgaPosts.PublishKeywords | packages/orga-posts/src/index.ts:160-163 | `(orga_publish_keyword \|\| '')` split on single spaces, trimmed and filtered. It has no contract of its own; the `Keywords*` lemmas and the `NonEmptyTrimmed*` lemmas state what it yields. |
| OrgaPosts.KeywordsWellFormed | packages/orga-posts/src/index.ts:160-163 | Every keyword is non-empty, trimmed and holds no space. |
| OrgaPosts.KeywordsComplete | packages/orga-posts/src/index.ts:160-163 | Every space-separated part whose trim is not empty is among the keywords. |
| OrgaPosts.KeywordsSound | packages/orga-posts/src/index.ts:160-163 | Every keyword is the trim of one of the space-separated parts. |
| OrgaPosts.KeywordsRoundTrip | packages/orga-posts/src/index.ts:160-163 | Well-formed keywords joined by single spaces are read back as the same list, in the same order. |
| OrgaPosts.NoKeywords | packages/orga-posts/src/index.ts:160-163 | A missing or empty property gives no keyword. |
| OrgaPosts.GetExportFileName | packages/orga-posts/src/index.ts:139-145 | Metadata that has an export file name is returned unchanged. Otherwise the export file name becomes the sanitised title and nothing else changes. |
| OrgaPosts.ExportFileNameSettled | packages/orga-posts/src/index.ts:139-145 | Applying it twice is applying it once. The file name is either the given one or made of `[a-z0-9-]`. |
| OrgaPosts.TitleOf | packages/orga-posts/src/index.ts:77-88 | The title is never empty. For a section, a non-empty headline text wins. Otherwise a non-empty `export_title` wins over `title`. When the chosen value is empty, the title is `'Untitled'`. |

## Left out

- The regular-expression engine behind `pattern.exec` in `match` is a parameter, a function from a string to its first match. The only assumption is that a reported match lies inside the searched string. `lastIndex` state (global or sticky patterns) is not modelled.
- Capture groups that did not take part in a match are `undefined` in JavaScript. Here every group is a string.
- `column: Infinity` in the `'EOL'` branch of `substring` is modelled as column `|text| + 1`. That column is past the end of every line and gives the same offset.
- Points hold integers. Non-integer, `NaN` and infinite coordinates are not modelled.
- `TextKit.Kit.Substring` returns `Option<string>`, because the `'EOL'` branch can yield `undefined` even though the TypeScript signature says `string`.
- `TextKit.Kit.Match` takes the region's end as a point, as `match` passes its position to `substring`. The default `'EOL'` end does not arise there.
- `clone` in packages/orga/src/utils.ts is JSON serialisation through the runtime. It is not part of this model.
- `OrgaUtils.IsPhrasingContent` takes the token's type name rather than the whole token, because only the type is read.
- `OrgaPosts.LowerAscii` lowers ASCII capitals only. JavaScript's `toLowerCase` is full Unicode. In `sanitise` it only ever sees ASCII letters, digits and `-`, so the two agree there.
- `build`'s call to the org parser, the `unist-util-select` queries, `extractContent`, `getDate`, `getTags`, `getKeyword`, `toHtml` and `statistics` are not part of this model. They are library calls, tree walks or asynchronous pipelines.
- `OrgaPosts.TitleOf` receives the headline text as a parameter, because `extractContent` is not modelled. It models only the title that `getTitle` picks. Removing `export_title` from the returned record is not modelled.
- `OrgaPosts.Metadata` holds the named string fields and `tags`. The date and the other properties spread into the record are not modelled. A missing string property is `""`, which JavaScript's `||` treats the same way as `undefined`.
- Text is a sequence of Unicode characters rather than UTF-16 code units. Every character the model tests for (terminators, whitespace, metacharacters, slug characters) lies in the Basic Multilingual Plane. Offsets and columns therefore agree with the source for text inside that plane. After the first character outside it, every offset differs: the offsets `toIndex` returns, the offsets `location` and `shift` take, the line lengths of `lengthOfLine`, the table of line starts and the match indices of `match`. Column numbers differ on every line that holds such a character.
