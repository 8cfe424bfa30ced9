# Regular-expression scalar functions over UTF-8 (Re2J flavour)

This project models the layer of the query engine's SQL scalar functions
that runs regular expressions: `regexp_like`, `regexp_replace`,
`regexp_extract_all`, `regexp_extract`, `regexp_split`, `regexp_position` and
`regexp_count`. A source string is a buffer of UTF-8 bytes. The SQL functions
take and report 1-based codepoint positions, while the regular-expression
engine takes and reports 0-based byte offsets. Most of the logic of this layer
translates between the two. The rest is the two search loops and the declared
output length of `regexp_replace`.

The modules:

- `Options` (options.dfy) — an optional value.
- `Utf8` (utf8.dfy) — the byte buffer and the translation between codepoints and bytes.
  - Well-formedness follows the syntax of section 4 of RFC 3629.
  - The width announced by a lead byte follows the table in section 3 of RFC 3629.
  - The codepoint count counts the bytes that are not continuation bytes.
  - `OffsetOfCodePoint` steps over whole codepoints.
- `Matching` (matching.dfy) — the engine seen from outside. A search
  `find(bytes, from)` returns nothing or the byte range `[start, end)` of a
  match.
  - Its contract (`WellBehaved`): on valid UTF-8 and an offset inside the input,
    a match lies in `[from, |bytes|]`. When `from` is a codepoint boundary,
    both ends of the match are boundaries too. A search resumed inside a
    codepoint is promised only the range.
  - `Occurrences` models the successive parameterless `find()` calls. Each call
    resumes at the end of the previous match, one byte further after an empty
    match. That byte may lie inside a multi-byte codepoint.
- `Re2JRegexpFunctions` (regexp_functions.dfy) — the SQL functions.
  - `regexp_position` and `regexp_count` are methods whose loops are proved
    against the specification functions `Position` and `CountedMatches`.
  - The other functions, and the default-argument overloads, are functions.
- `ReplaceLengthBound` (replace_length_bound.dfy) — the arithmetic of the
  declared result length of `regexp_replace`, and the worst-case argument
  behind it.

Three behaviours of the code worth knowing:

- `regexp_like` holds exactly when `regexp_count` is positive only for a
  non-empty source. On the empty source, `regexp_count` is always 0: its loop
  requires `nextStart < length`. This holds even when `regexp_like` is true,
  for example with the pattern `''`. The model follows the code:
  `LikeIffCountPositive` requires a non-empty source, and
  `EmptySourceLikeWithoutCount` exhibits `regexp_like('', '')` holding while
  `regexp_count('', '')` is 0.
- `regexp_position` can report the same position for two successive
  occurrences. After an empty match, `find()` resumes one byte further, which
  may be inside a multi-byte codepoint. A match found there reports the
  position of the codepoint that follows. With an engine that reports the
  empty pattern `''` wherever it resumes, `regexp_position('é', '', 1, k)` is 1,
  2, 2 for k = 1, 2, 3, and -1 for k = 4
  (`EmptyPatternRepeatsPositionInsideCodePoint`). `regexp_count` skips a whole
  codepoint after an empty match and so always searches from a boundary.
- `regexp_count` as written can read one byte past the end of the source (see
  Findings). The model's `RegexpCount` is the corrected loop.
  `RegexpCountAsWritten` is the loop as written.

## Model

All source paths are under `presto-main/src/main/java/io/prestosql/operator/scalar/`,
written out in full below.

| member | source | states |
|---|---|---|
| Re2JRegexpFunctions.LikeIffCountPositive | presto-main/src/main/java/io/prestosql/operator/scalar/Re2JRegexpFunctions.java:44 | on a non-empty source, regexp_like (a match anywhere) holds exactly when regexp_count is positive, in both directions |
| Re2JRegexpFunctions.EmptySourceLikeWithoutCount | presto-main/src/main/java/io/prestosql/operator/scalar/Re2JRegexpFunctions.java:181-183 | with the pattern '' on the empty source, regexp_like holds while regexp_count counts nothing |
| Re2JRegexpFunctions.RegexpReplaceWithEmpty | presto-main/src/main/java/io/prestosql/operator/scalar/Re2JRegexpFunctions.java:53 | two-argument regexp_replace is the engine's replace with the empty replacement |
| Re2JRegexpFunctions.RegexpExtractAllWholeMatch | presto-main/src/main/java/io/prestosql/operator/scalar/Re2JRegexpFunctions.java:77 | two-argument regexp_extract_all extracts group 0 |
| Re2JRegexpFunctions.RegexpExtractWholeMatch | presto-main/src/main/java/io/prestosql/operator/scalar/Re2JRegexpFunctions.java:96 | two-argument regexp_extract extracts group 0 |
| Re2JRegexpFunctions.RegexpPositionFirst | presto-main/src/main/java/io/prestosql/operator/scalar/Re2JRegexpFunctions.java:124 | two-argument regexp_position is the four-argument one with start 1 and occurrence 1; it never fails, and answers -1 or a position in [1, codepoints + 1] |
| Re2JRegexpFunctions.RegexpPositionFrom | presto-main/src/main/java/io/prestosql/operator/scalar/Re2JRegexpFunctions.java:135 | three-argument regexp_position is the four-argument one with occurrence 1; it fails exactly when start < 1, and a found position lies in [start, codepoints + 1] |
| Re2JRegexpFunctions.Position | presto-main/src/main/java/io/prestosql/operator/scalar/Re2JRegexpFunctions.java:142-171 | the specification of regexp_position: the start error exactly when start < 1, the occurrence error exactly when start >= 1 and occurrence < 1, success exactly when both are at least 1, and a success other than -1 lies in [start, codepoints + 1] |
| Re2JRegexpFunctions.RegexpPosition | presto-main/src/main/java/io/prestosql/operator/scalar/Re2JRegexpFunctions.java:142-171 | the method returns Position(...): the start error, then the occurrence error, -1 past the last codepoint, -1 with fewer matches than requested, else a position in [start, codepoints + 1] |
| Re2JRegexpFunctions.PositionOutcomes | presto-main/src/main/java/io/prestosql/operator/scalar/Re2JRegexpFunctions.java:148-157 | start < 1 gives the start error whatever the occurrence; otherwise occurrence < 1 gives the occurrence error; valid arguments never fail; a start past the last codepoint gives -1; a found position lies in [start, codepoints + 1] |
| Re2JRegexpFunctions.StartBytePosition | presto-main/src/main/java/io/prestosql/operator/scalar/Re2JRegexpFunctions.java:159 | the byte offset of codepoint `start` is a boundary inside the source, exactly start - 1 codepoints precede it, and the slice from it is valid UTF-8 |
| Re2JRegexpFunctions.FindOccurrence | presto-main/src/main/java/io/prestosql/operator/scalar/Re2JRegexpFunctions.java:161-168 | the counting loop stops at the occurrence-th of the successive find() matches, or reports none when there are fewer |
| Re2JRegexpFunctions.OccurrenceByteStart | presto-main/src/main/java/io/prestosql/operator/scalar/Re2JRegexpFunctions.java:159-166 | a found occurrence begins at a byte offset between the start's byte offset and the end, in the source's coordinates; the first occurrence begins on a boundary |
| Re2JRegexpFunctions.CodePointPosition | presto-main/src/main/java/io/prestosql/operator/scalar/Re2JRegexpFunctions.java:166 | the codepoint count before any offset plus one lies in [1, codepoints + 1]; at a boundary it is codepoints + 1 exactly at the end, and translated back by OffsetOfCodePoint gives the boundary |
| Re2JRegexpFunctions.CodePointPositionInsideCodePoint | presto-main/src/main/java/io/prestosql/operator/scalar/Re2JRegexpFunctions.java:166 | the offsets just before and just after a continuation byte report the same codepoint position |
| Re2JRegexpFunctions.CodePointIndexOfOffset | presto-main/src/main/java/io/prestosql/operator/scalar/Re2JRegexpFunctions.java:166 | codepoint counts before offsets grow with the offset and stay within the total; at a boundary they reach the total exactly at the end and invert OffsetOfCodePoint |
| Re2JRegexpFunctions.PositionFound | presto-main/src/main/java/io/prestosql/operator/scalar/Re2JRegexpFunctions.java:164-166 | a found occurrence yields the codepoint position of its first byte, no smaller than start |
| Re2JRegexpFunctions.PositionNotFound | presto-main/src/main/java/io/prestosql/operator/scalar/Re2JRegexpFunctions.java:155-170 | with valid arguments the answer is -1 exactly when start is past the last codepoint or the suffix holds fewer than `occurrence` matches |
| Re2JRegexpFunctions.PositionIncreasesWithOccurrence | presto-main/src/main/java/io/prestosql/operator/scalar/Re2JRegexpFunctions.java:163-166 | when the (k+1)-th occurrence is found so is the k-th, at a codepoint position no larger, and strictly smaller when the k-th begins on a boundary |
| Re2JRegexpFunctions.EmptyPatternRepeatsPositionInsideCodePoint | presto-main/src/main/java/io/prestosql/operator/scalar/Re2JRegexpFunctions.java:161-166 | with an engine that reports the empty match wherever it resumes, regexp_position('é', '', 1, k) is 1, 2, 2 for k = 1, 2, 3 and -1 for k = 4: the second empty match lies inside the codepoint |
| Re2JRegexpFunctions.OccurrenceStartsIncrease | presto-main/src/main/java/io/prestosql/operator/scalar/Re2JRegexpFunctions.java:163-164 | the (k+1)-th match begins at a strictly larger byte offset than the k-th |
| Re2JRegexpFunctions.CodePointPositionIncreases | presto-main/src/main/java/io/prestosql/operator/scalar/Re2JRegexpFunctions.java:166 | the codepoint position never decreases with the byte offset, and strictly increases past a boundary |
| Re2JRegexpFunctions.NextStart | presto-main/src/main/java/io/prestosql/operator/scalar/Re2JRegexpFunctions.java:184-189 | after a non-empty match the search resumes at its end; after an empty match inside the source, exactly one whole codepoint further, on a boundary; after the empty match at the end, at the end |
| Re2JRegexpFunctions.CountedMatches | presto-main/src/main/java/io/prestosql/operator/scalar/Re2JRegexpFunctions.java:181-194 | the counted matches lie inside the searched part, are in strictly increasing order of start, never overlap, and number at most the codepoints of the searched part |
| Re2JRegexpFunctions.RegexpCount | presto-main/src/main/java/io/prestosql/operator/scalar/Re2JRegexpFunctions.java:177-195 | the loop terminates with the number of CountedMatches, at most the codepoint count and so at most the byte length; the empty source counts 0 |
| Re2JRegexpFunctions.RegexpCountAsWritten | presto-main/src/main/java/io/prestosql/operator/scalar/Re2JRegexpFunctions.java:183-185 | the loop as written either counts at most the codepoints still to search, or fails reading the byte at the end offset while the resume offset is inside the source |
| Re2JRegexpFunctions.CountAsWrittenFailsOnlyAtEnd | presto-main/src/main/java/io/prestosql/operator/scalar/Re2JRegexpFunctions.java:183-185 | the loop as written agrees with the corrected count, except that it fails exactly when the last counted match is the empty match at the end of the source |
| Re2JRegexpFunctions.EndOfInputBreaksCountAsWritten | presto-main/src/main/java/io/prestosql/operator/scalar/Re2JRegexpFunctions.java:183-185 | regexp_count('a', '$'): the loop as written reads byte 1 of a one-byte source, while the corrected count is 1 |
| Matching.FindFrom | presto-main/src/main/java/io/prestosql/operator/scalar/Re2JRegexpFunctions.java:183 | `find(nextStart)` reports nothing or a range in [nextStart, length], whose ends are codepoint boundaries when nextStart is one |
| Matching.ResumeAfter | presto-main/src/main/java/io/prestosql/operator/scalar/Re2JRegexpFunctions.java:163 | the parameterless `find()` resumes past the previous match's start and not before its end |
| Matching.FindNext | presto-main/src/main/java/io/prestosql/operator/scalar/Re2JRegexpFunctions.java:163 | the parameterless `find()` finds nothing once it resumes past the end |
| Matching.Occurrences | presto-main/src/main/java/io/prestosql/operator/scalar/Re2JRegexpFunctions.java:161-168 | the successive find() matches lie in the input, each begins at or after the point where the previous one resumes, each found by a search from a boundary begins and ends on boundaries, and they number at most length + 1 |
| Utf8.LengthOfCodePointFromStartByte | presto-main/src/main/java/io/prestosql/operator/scalar/Re2JRegexpFunctions.java:185 | a lead byte announces a width of 1 to 4 bytes |
| Utf8.LengthFromHighOrderBits | presto-main/src/main/java/io/prestosql/operator/scalar/Re2JRegexpFunctions.java:185 | the width is 1, 2, 3 or 4 exactly when the lead byte has the high-order bit pattern 0xxxxxxx, 110xxxxx, 1110xxxx or 11110xxx |
| Utf8.NextCodePoint | presto-main/src/main/java/io/prestosql/operator/scalar/Re2JRegexpFunctions.java:185 | at a boundary inside valid UTF-8, stepping over the announced width stays inside the buffer, lands on the next boundary and passes exactly one codepoint |
| Utf8.CountCodePoints | presto-main/src/main/java/io/prestosql/operator/scalar/Re2JRegexpFunctions.java:155 | a buffer holds no more codepoints than bytes |
| Utf8.CountCodePointsSplit | presto-main/src/main/java/io/prestosql/operator/scalar/Re2JRegexpFunctions.java:166 | the codepoints of a buffer are those before an offset plus those after it |
| Utf8.CountCodePointsPrefixMonotone | presto-main/src/main/java/io/prestosql/operator/scalar/Re2JRegexpFunctions.java:166 | a longer prefix holds at least as many codepoints, strictly more when it reaches past a codepoint's first byte |
| Utf8.CountCodePointsShrink | presto-main/src/main/java/io/prestosql/operator/scalar/Re2JRegexpFunctions.java:183-189 | moving a boundary forward leaves strictly fewer codepoints to search (the loop's measure) |
| Utf8.ValidAfterBoundary | presto-main/src/main/java/io/prestosql/operator/scalar/Re2JRegexpFunctions.java:160-161 | slicing valid UTF-8 at a boundary leaves valid UTF-8 |
| Utf8.OffsetOfCodePoint | presto-main/src/main/java/io/prestosql/operator/scalar/Re2JRegexpFunctions.java:159 | the byte offset of codepoint n, when there is one, lies inside the buffer on a codepoint boundary (OffsetOfCodePointCorrect adds when it exists and how many codepoints precede it) |
| Utf8.OffsetOfCodePointCorrect | presto-main/src/main/java/io/prestosql/operator/scalar/Re2JRegexpFunctions.java:159 | the offset of codepoint n exists exactly when n is below the count; it is a boundary inside the buffer with exactly n codepoints before it |
| Utf8.OffsetOfCountedBoundary | presto-main/src/main/java/io/prestosql/operator/scalar/Re2JRegexpFunctions.java:159-166 | round trip: the offset of the codepoint counted before a boundary is that boundary |
| ReplaceLengthBound.InsertionBound | presto-main/src/main/java/io/prestosql/operator/scalar/Re2JRegexpFunctions.java:59-62 | one insertion is bounded by max(x * y / 2, y): at least y and at least x * y / 2 |
| ReplaceLengthBound.ReplacedLength | presto-main/src/main/java/io/prestosql/operator/scalar/Re2JRegexpFunctions.java:64 | z = min(2147483647, x + max(x * y / 2, y) * (x + 1)) never exceeds 2147483647 and is at least x when x <= 2147483647 |
| ReplaceLengthBound.ReplacedLengthMonotone | presto-main/src/main/java/io/prestosql/operator/scalar/Re2JRegexpFunctions.java:64 | z is monotone in x and in y |
| ReplaceLengthBound.ExpansionFitsInsertionBound | presto-main/src/main/java/io/prestosql/operator/scalar/Re2JRegexpFunctions.java:60-62 | a replacement of y characters with k two-character group references, each expanding to at most x characters, is no longer than max(x * y / 2, y) |
| ReplaceLengthBound.ReplacedLengthCoversInsertions | presto-main/src/main/java/io/prestosql/operator/scalar/Re2JRegexpFunctions.java:59-64 | a source of x characters with x + 1 insertions, each within the insertion bound, has a clamped length at most z |

## Left out

- The regular-expression engine (Re2J's `Matcher` and the compiled pattern) is not part of this model. It is the `find` search with the range contract above.
- `Re2JRegexp.matches` is modelled as a search from offset 0 (a match anywhere). The `Re2JRegexp` class is not part of this model.
- `replace`, `extractAll`, `extract` and `split` are passed through as opaque operations of the pattern, with no contract of their own. Only the delegations to them are stated.
- Re2JRegexpFunctions.RegexpLike: is the engine's search from offset 0 and has no contract of its own; what it promises in relation to regexp_count is stated by LikeIffCountPositive and EmptySourceLikeWithoutCount.
- Re2JRegexpFunctions.RegexpReplace: passes the source and replacement to the engine's replace unchanged (line 68); it has no contract beyond that delegation.
- Re2JRegexpFunctions.RegexpExtractAll: passes the source and group index to the engine's extractAll unchanged (line 86); it has no contract beyond that delegation.
- Re2JRegexpFunctions.RegexpExtract: passes the source and group index to the engine's extract unchanged (line 106); it has no contract beyond that delegation.
- Re2JRegexpFunctions.RegexpSplit: passes the source to the engine's split unchanged (line 115); it has no contract beyond that delegation.
- Re2JRegexpFunctions.LikeIffCountPositive: requires a non-empty source, because the counting loop's `nextStart < source.length()` guard (line 183) never lets it count a match in the empty source, whatever regexp_like says.
- Re2J's parameterless `find()` is modelled as resuming at the end of the previous match, one byte further after an empty match, and finding nothing past the end. The library's code is not part of this model. Whether the engine reports a match at an offset inside a codepoint is left open: the model admits both.
- The `SliceUtf8` helpers (`countCodePoints`, `offsetOfCodePoint`, `lengthOfCodePointFromStartByte`) are not part of this model. They are defined here from RFC 3629 for valid UTF-8.
- RegexpPosition: requires a valid UTF-8 source. The library's behaviour on ill-formed bytes, such as a lead byte announcing more bytes than remain, is not modelled.
- RegexpCount: requires a valid UTF-8 source, for the same reason.
- Utf8.LengthOfCodePointFromStartByte: is defined only for lead bytes. The result for a continuation byte or an invalid byte is not modelled.
- Java `int` and `long` widths are not modelled. Counts and offsets are unbounded integers. Every buffer shorter than 2^31 bytes keeps them in range.
- ReplaceLengthBound.ReplacedLength: evaluated over unbounded integers before the clamp. The engine's evaluator of `@Constraint` expressions is not part of this model, so neither is the width of its intermediate arithmetic.
- `PrestoException` and its error codes are represented by the `Error` datatype, with the same messages. `Slice` and `Block` construction are represented by byte and value sequences.
- The SQL type annotations and the static length propagation are not modelled. Only the bound's arithmetic is.
- CombineHashFunction.java is not modelled. It is a single hash-combining expression unrelated to the regular-expression functions.
- TestMongoPlugin.java is not modelled. It starts a database server and holds no logic of this layer.

## Findings

| source | as written | input that shows it | evidently intended | confidence | as-written member | corrected member |
|---|---|---|---|---|---|---|
| presto-main/src/main/java/io/prestosql/operator/scalar/Re2JRegexpFunctions.java:183-185 | after an empty match the loop reads `source.getByte(matcher.start())`, also when that empty match sits at the end of the source while `nextStart` is still inside it | `regexp_count('a', '$')`: `find(0)` reports the empty match [1, 1), and `getByte(1)` on a one-byte source is out of bounds | count the empty match at the end and stop, giving 1, as `CountAsWrittenFailsOnlyAtEnd` relates | not executed; relies on Re2J reporting the empty match at the end and on `getByte` checking its index | Re2JRegexpFunctions.RegexpCountAsWritten | Re2JRegexpFunctions.RegexpCount |
