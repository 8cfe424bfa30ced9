/**
 * The regular-expression scalar functions of the query engine: regexp_like,
 * regexp_replace, regexp_extract_all, regexp_extract, regexp_split,
 * regexp_position and regexp_count, over a UTF-8 source buffer and a compiled
 * pattern. Positions are reported as 1-based codepoint indexes although the
 * engine works on byte offsets.
 */
module Re2JRegexpFunctions {
  import opened Options
  import opened Utf8
  import opened Matching

  /** The failures the functions raise. */
  datatype Error =
    | InvalidFunctionArgument(message: string)  // a user-facing INVALID_FUNCTION_ARGUMENT error
    | IndexOutOfBounds(index: nat)              // a byte read past the end of the source

  datatype Result<T> = Ok(value: T) | Err(error: Error)

  const StartTooSmall: string := "start position cannot small than 1"
  const OccurrenceTooSmall: string := "occurrence cannot small than 1"

  /**
   * A compiled pattern: the search that regexp_position and regexp_count
   * drive, and the engine's own whole-buffer operations, which the other
   * functions hand the source to unchanged.
   */
  datatype Re2JRegexp = Re2JRegexp(
    find: Finder,
    replace: (seq<byte>, seq<byte>) -> seq<byte>,
    extractAll: (seq<byte>, int) -> Result<seq<Option<seq<byte>>>>,
    extract: (seq<byte>, int) -> Result<Option<seq<byte>>>,
    split: seq<byte> -> seq<seq<byte>>)
  {
    ghost predicate Valid() {
      WellBehaved(find)
    }
  }

  // ---------------------------------------------------------------------------
  // regexp_like and the default-argument overloads

  /** regexp_like: the pattern matches somewhere in the source. */
  function RegexpLike(pattern: Re2JRegexp, source: seq<byte>): bool {
    pattern.find(source, 0).Some?
  }

  function RegexpReplace(pattern: Re2JRegexp, source: seq<byte>, replacement: seq<byte>): seq<byte> {
    pattern.replace(source, replacement)
  }

  /** regexp_replace without a replacement removes every match. */
  function RegexpReplaceWithEmpty(pattern: Re2JRegexp, source: seq<byte>): (r: seq<byte>)
    ensures r == pattern.replace(source, [])
  {
    RegexpReplace(pattern, source, [])
  }

  function RegexpExtractAll(pattern: Re2JRegexp, source: seq<byte>, groupIndex: int): Result<seq<Option<seq<byte>>>> {
    pattern.extractAll(source, groupIndex)
  }

  /** regexp_extract_all without a group extracts the whole matches, group 0. */
  function RegexpExtractAllWholeMatch(pattern: Re2JRegexp, source: seq<byte>): (r: Result<seq<Option<seq<byte>>>>)
    ensures r == pattern.extractAll(source, 0)
  {
    RegexpExtractAll(pattern, source, 0)
  }

  function RegexpExtract(pattern: Re2JRegexp, source: seq<byte>, groupIndex: int): Result<Option<seq<byte>>> {
    pattern.extract(source, groupIndex)
  }

  /** regexp_extract without a group extracts the whole first match, group 0. */
  function RegexpExtractWholeMatch(pattern: Re2JRegexp, source: seq<byte>): (r: Result<Option<seq<byte>>>)
    ensures r == pattern.extract(source, 0)
  {
    RegexpExtract(pattern, source, 0)
  }

  function RegexpSplit(pattern: Re2JRegexp, source: seq<byte>): seq<seq<byte>> {
    pattern.split(source)
  }

  // ---------------------------------------------------------------------------
  // regexp_position

  /**
   * Byte offset at which the 1-based codepoint `start` begins: the bytes
   * before it hold exactly `start - 1` codepoints, and what follows it is
   * itself valid UTF-8.
   */
  function StartBytePosition(source: seq<byte>, start: int): (b: nat)
    requires ValidUtf8(source) && 1 <= start <= CountCodePoints(source)
    ensures b < |source| && IsBoundary(source, b)
    ensures CountCodePoints(source[..b]) == start - 1
    ensures ValidUtf8(source[b..])
  {
    OffsetOfCodePointCorrect(source, start - 1);
    ValidAfterBoundary(source, OffsetOfCodePoint(source, start - 1).value);
    OffsetOfCodePoint(source, start - 1).value
  }

  /**
   * Byte offset in `source` of the start of the `occurrence`-th match that the
   * matcher reports over the part of `source` from codepoint `start` on, if
   * there are that many. The first occurrence begins on a codepoint
   * boundary; a later one, found one byte after an empty match, may begin
   * inside a codepoint.
   */
  function OccurrenceByteStart(find: Finder, source: seq<byte>, start: int, occurrence: int): (p: Option<nat>)
    requires WellBehaved(find) && ValidUtf8(source) && 1 <= start && 1 <= occurrence
    ensures p.Some? ==>
      start <= CountCodePoints(source) && StartBytePosition(source, start) <= p.value <= |source|
    ensures p.Some? && occurrence == 1 ==> IsBoundary(source, p.value)
  {
    if start > CountCodePoints(source) then None
    else
      var b := StartBytePosition(source, start);
      var ms := Occurrences(find, source[b..], 0);
      if |ms| < occurrence then None
      else
        assert source[b..][ms[occurrence - 1].start..] == source[b + ms[occurrence - 1].start..];
        Some(b + ms[occurrence - 1].start)
  }

  /**
   * What regexp_position(source, pattern, start, occurrence) returns: the
   * start error exactly when start < 1, the occurrence error exactly when
   * start is valid and occurrence < 1, and otherwise -1 or a codepoint
   * position no smaller than start and at most the just-past-end sentinel.
   */
  function Position(pattern: Re2JRegexp, source: seq<byte>, start: int, occurrence: int): (r: Result<int>)
    requires pattern.Valid() && ValidUtf8(source)
    ensures r == Err(InvalidFunctionArgument(StartTooSmall)) <==> start < 1
    ensures r == Err(InvalidFunctionArgument(OccurrenceTooSmall)) <==> 1 <= start && occurrence < 1
    ensures r.Ok? <==> 1 <= start && 1 <= occurrence
    ensures r.Ok? && r.value != -1 ==> start <= r.value <= CountCodePoints(source) + 1
  {
    if start < 1 then Err(InvalidFunctionArgument(StartTooSmall))
    else if occurrence < 1 then Err(InvalidFunctionArgument(OccurrenceTooSmall))
    else
      match OccurrenceByteStart(pattern.find, source, start, occurrence)
      case None => Ok(-1)
      case Some(p) =>
        CodePointIndexOfOffset(source, StartBytePosition(source, start), p);
        Ok(CodePointPosition(source, p))
  }

  /**
   * The 1-based codepoint position reported for byte offset `p`: one more
   * than the number of codepoints that begin before it. At a boundary it is
   * the codepoint that begins there, or the just-past-end sentinel at the end
   * of the source, and translated back to a byte offset it gives `p`. Inside
   * a codepoint it is the position of the codepoint that follows.
   */
  function CodePointPosition(source: seq<byte>, p: nat): (r: int)
    requires ValidUtf8(source) && p <= |source|
    ensures 1 <= r <= CountCodePoints(source) + 1
    ensures IsBoundary(source, p) && p < |source| ==> OffsetOfCodePoint(source, r - 1) == Some(p)
    ensures IsBoundary(source, p) ==> (p == |source| <==> r == CountCodePoints(source) + 1)
  {
    CodePointIndexOfOffset(source, 0, p);
    CountCodePoints(source[..p]) + 1
  }

  /**
   * A continuation byte begins no codepoint: the offsets just before and
   * just after it report the same codepoint position.
   */
  lemma CodePointPositionInsideCodePoint(source: seq<byte>, p: nat)
    requires ValidUtf8(source) && p < |source| && IsContinuation(source[p])
    ensures CodePointPosition(source, p + 1) == CodePointPosition(source, p)
  {
    CountCodePointsSplit(source[..p + 1], p);
    assert source[..p + 1][..p] == source[..p];
    assert source[..p + 1][p..] == [source[p]];
  }

  /**
   * regexp_position: the 1-based codepoint position at which the
   * `occurrence`-th match at or after codepoint `start` begins, -1 when there
   * is none, an error when `start` or `occurrence` is below 1.
   */
  method RegexpPosition(pattern: Re2JRegexp, source: seq<byte>, start: int, occurrence: int) returns (r: Result<int>)
    requires pattern.Valid() && ValidUtf8(source)
    ensures r == Position(pattern, source, start, occurrence)
    ensures start < 1 ==> r == Err(InvalidFunctionArgument(StartTooSmall))
    ensures 1 <= start && occurrence < 1 ==> r == Err(InvalidFunctionArgument(OccurrenceTooSmall))
    ensures 1 <= start && 1 <= occurrence ==> r.Ok?
    ensures 1 <= occurrence && start > CountCodePoints(source) ==> r == Ok(-1)
    ensures r.Ok? && r.value != -1 ==> start <= r.value <= CountCodePoints(source) + 1
  {
    if start < 1 {
      r := Err(InvalidFunctionArgument(StartTooSmall));
    } else if occurrence < 1 {
      r := Err(InvalidFunctionArgument(OccurrenceTooSmall));
    } else if start > CountCodePoints(source) {
      r := Ok(-1);
    } else {
      var startBytePosition := StartBytePosition(source, start);
      var found := FindOccurrence(pattern.find, source[startBytePosition..], occurrence);
      if found.Some? {
        r := Ok(CodePointPosition(source, startBytePosition + found.value.start));
      } else {
        r := Ok(-1);
      }
      assert source[startBytePosition..][..] == source[startBytePosition..];
      assert r == Position(pattern, source, start, occurrence);
    }
  }

  /**
   * The counting loop of regexp_position: successive parameterless `find()`
   * calls over `bytes`, stopping at the `occurrence`-th match or when the
   * matcher finds nothing more.
   */
  method FindOccurrence(find: Finder, bytes: seq<byte>, occurrence: int) returns (found: Option<Match>)
    requires WellBehaved(find) && ValidUtf8(bytes) && 1 <= occurrence
    ensures
      var all := Occurrences(find, bytes, 0);
      found == if |all| < occurrence then None else Some(all[occurrence - 1])
  {
    ghost var all := Occurrences(find, bytes, 0);
    var from := 0;
    var count := 0;
    found := FindNext(find, bytes, from);
    while found.Some?
      invariant 0 <= count < occurrence
      invariant from <= |bytes| + 1
      invariant found == FindNext(find, bytes, from)
      invariant count <= |all| && all[count..] == Occurrences(find, bytes, from)
      decreases |bytes| + 1 - from
    {
      ghost var rest := Occurrences(find, bytes, ResumeAfter(found.value));
      assert all[count..] == [found.value] + rest;
      count := count + 1;
      if count == occurrence {
        assert all[occurrence - 1] == all[count - 1..][0];
        return;
      }
      assert all[count..] == all[count - 1..][1..];
      from := ResumeAfter(found.value);
      found := FindNext(find, bytes, from);
    }
  }

  /** regexp_position with the default occurrence, the first one. */
  method RegexpPositionFrom(pattern: Re2JRegexp, source: seq<byte>, start: int) returns (r: Result<int>)
    requires pattern.Valid() && ValidUtf8(source)
    ensures r == Position(pattern, source, start, 1)
    ensures r.Err? <==> start < 1
    ensures r.Ok? && r.value != -1 ==> start <= r.value <= CountCodePoints(source) + 1
  {
    r := RegexpPosition(pattern, source, start, 1);
  }

  /** regexp_position with the default start, the first codepoint, and the default occurrence, the first one. */
  method RegexpPositionFirst(pattern: Re2JRegexp, source: seq<byte>) returns (r: Result<int>)
    requires pattern.Valid() && ValidUtf8(source)
    ensures r == Position(pattern, source, 1, 1)
    ensures r.Ok? && (r.value == -1 || 1 <= r.value <= CountCodePoints(source) + 1)
  {
    r := RegexpPositionFrom(pattern, source, 1);
  }

  /**
   * The outcomes of regexp_position: the two argument errors, raised before
   * any search and in this order; -1, not an error, for a start past the last
   * codepoint; otherwise -1 or a position between `start` and the
   * just-past-end sentinel.
   */
  lemma PositionOutcomes(pattern: Re2JRegexp, source: seq<byte>, start: int, occurrence: int)
    requires pattern.Valid() && ValidUtf8(source)
    ensures start < 1 ==> Position(pattern, source, start, occurrence) == Err(InvalidFunctionArgument(StartTooSmall))
    ensures 1 <= start && occurrence < 1 ==>
      Position(pattern, source, start, occurrence) == Err(InvalidFunctionArgument(OccurrenceTooSmall))
    ensures 1 <= start && 1 <= occurrence ==> Position(pattern, source, start, occurrence).Ok?
    ensures 1 <= occurrence && start > CountCodePoints(source) ==> Position(pattern, source, start, occurrence) == Ok(-1)
    ensures
      var r := Position(pattern, source, start, occurrence);
      r.Ok? && r.value != -1 ==> start <= r.value <= CountCodePoints(source) + 1
  {
    if 1 <= start && 1 <= occurrence && OccurrenceByteStart(pattern.find, source, start, occurrence).Some? {
      PositionFound(pattern, source, start, occurrence);
    }
  }

  /**
   * A found position lies between `start` and the just-past-end sentinel, and
   * is exactly the codepoint at which the match begins: translated back to a
   * byte offset it gives the match's start.
   */
  lemma PositionFound(pattern: Re2JRegexp, source: seq<byte>, start: int, occurrence: int)
    requires pattern.Valid() && ValidUtf8(source) && 1 <= start && 1 <= occurrence
    requires OccurrenceByteStart(pattern.find, source, start, occurrence).Some?
    ensures
      var p := OccurrenceByteStart(pattern.find, source, start, occurrence).value;
      Position(pattern, source, start, occurrence) == Ok(CodePointPosition(source, p)) &&
      start <= CodePointPosition(source, p)
  {
    var p := OccurrenceByteStart(pattern.find, source, start, occurrence).value;
    CodePointIndexOfOffset(source, StartBytePosition(source, start), p);
  }

  /**
   * The number of codepoints before offset `p`, at or after offset `b`: no
   * smaller than before `b` and no larger than the total. At a boundary it is
   * the total exactly at the end, and it inverts OffsetOfCodePoint.
   */
  lemma CodePointIndexOfOffset(source: seq<byte>, b: nat, p: nat)
    requires ValidUtf8(source) && b <= p <= |source|
    ensures CountCodePoints(source[..b]) <= CountCodePoints(source[..p]) <= CountCodePoints(source)
    ensures IsBoundary(source, p) && p < |source| ==> OffsetOfCodePoint(source, CountCodePoints(source[..p])) == Some(p)
    ensures IsBoundary(source, p) ==> (p == |source| <==> CountCodePoints(source[..p]) == CountCodePoints(source))
  {
    CountCodePointsPrefixMonotone(source, b, p);
    CountCodePointsPrefixMonotone(source, p, |source|);
    assert source[..|source|] == source;
    if IsBoundary(source, p) && p < |source| {
      OffsetOfCountedBoundary(source, p);
    }
  }

  /**
   * With valid arguments, regexp_position answers -1 exactly when `start` is
   * past the last codepoint or the rest of the source holds fewer than
   * `occurrence` matches.
   */
  lemma PositionNotFound(pattern: Re2JRegexp, source: seq<byte>, start: int, occurrence: int)
    requires pattern.Valid() && ValidUtf8(source) && 1 <= start && 1 <= occurrence
    ensures Position(pattern, source, start, occurrence) == Ok(-1) <==>
      start > CountCodePoints(source) ||
      |Occurrences(pattern.find, source[StartBytePosition(source, start)..], 0)| < occurrence
  {
    if OccurrenceByteStart(pattern.find, source, start, occurrence).Some? {
      PositionFound(pattern, source, start, occurrence);
    }
  }

  /**
   * When the (k+1)-th occurrence is found, so is the k-th, at no larger a
   * codepoint position; at a strictly smaller one when the k-th begins on a
   * codepoint boundary. Two occurrences share a position only when the later
   * one begins inside the codepoint at which the earlier one ends.
   */
  lemma PositionIncreasesWithOccurrence(pattern: Re2JRegexp, source: seq<byte>, start: int, k: int)
    requires pattern.Valid() && ValidUtf8(source) && 1 <= start && 1 <= k
    requires Position(pattern, source, start, k + 1) != Ok(-1)
    ensures Position(pattern, source, start, k) != Ok(-1)
    ensures Position(pattern, source, start, k).value <= Position(pattern, source, start, k + 1).value
    ensures IsBoundary(source, OccurrenceByteStart(pattern.find, source, start, k).value) ==>
      Position(pattern, source, start, k).value < Position(pattern, source, start, k + 1).value
  {
    OccurrenceStartsIncrease(pattern.find, source, start, k);
    var p := OccurrenceByteStart(pattern.find, source, start, k).value;
    var q := OccurrenceByteStart(pattern.find, source, start, k + 1).value;
    CodePointPositionIncreases(source, p, q);
  }

  /** The pattern `''` as the engine sees it: the empty match wherever the search starts. */
  function EmptyMatchEverywhere(): Finder {
    (bytes: seq<byte>, from: nat) => Some(Match(from, from))
  }

  /**
   * regexp_position('é', '', 1, k): the successive empty matches lie at
   * bytes 0, 1 and 2 of the two-byte 'é', the second one inside the
   * codepoint, so occurrences 2 and 3 share position 2 and there is no
   * fourth.
   */
  lemma EmptyPatternRepeatsPositionInsideCodePoint(pattern: Re2JRegexp)
    requires pattern.find == EmptyMatchEverywhere()
    ensures pattern.Valid() && ValidUtf8([0xC3, 0xA9])
    ensures Position(pattern, [0xC3, 0xA9], 1, 1) == Ok(1)
    ensures Position(pattern, [0xC3, 0xA9], 1, 2) == Ok(2)
    ensures Position(pattern, [0xC3, 0xA9], 1, 3) == Ok(2)
    ensures Position(pattern, [0xC3, 0xA9], 1, 4) == Ok(-1)
  {
    EmptyMatchStartsInTwoBytes(pattern.find);
    CodePointPositionsInTwoBytes();
  }

  /** In 'é', byte 0 reports codepoint position 1, and bytes 1 and 2 both report position 2. */
  lemma CodePointPositionsInTwoBytes()
    ensures ValidUtf8([0xC3, 0xA9])
    ensures CodePointPosition([0xC3, 0xA9], 0) == 1
    ensures CodePointPosition([0xC3, 0xA9], 1) == 2
    ensures CodePointPosition([0xC3, 0xA9], 2) == 2
  {
    var e: seq<byte> := [0xC3, 0xA9];
    TwoByteCodePoint();
    assert e[..0] == [] && e[..1] == [0xC3] && e[..2] == e;
    assert CountCodePoints([0xC3]) == 1;
  }

  /** The byte offsets regexp_position finds for '' in 'é' from codepoint 1: 0, 1 and 2, then none. */
  lemma EmptyMatchStartsInTwoBytes(find: Finder)
    requires find == EmptyMatchEverywhere()
    ensures WellBehaved(find) && ValidUtf8([0xC3, 0xA9])
    ensures OccurrenceByteStart(find, [0xC3, 0xA9], 1, 1) == Some(0)
    ensures OccurrenceByteStart(find, [0xC3, 0xA9], 1, 2) == Some(1)
    ensures OccurrenceByteStart(find, [0xC3, 0xA9], 1, 3) == Some(2)
    ensures OccurrenceByteStart(find, [0xC3, 0xA9], 1, 4) == None
  {
    var e: seq<byte> := [0xC3, 0xA9];
    EmptyMatchesOfTwoBytes(find);
    assert StartBytePosition(e, 1) == 0 && e[0..] == e;
  }

  /** 'é', the bytes C3 A9, is one well-formed two-byte codepoint. */
  lemma TwoByteCodePoint()
    ensures ValidUtf8([0xC3, 0xA9]) && CountCodePoints([0xC3, 0xA9]) == 1
  {
    var e: seq<byte> := [0xC3, 0xA9];
    assert LengthOfCodePointFromStartByte(0xC3) == 2;
    assert TrailingBytesAllowed(e, 1, 2);
    assert CharLength(e) == 2 && e[2..] == [];
    assert e[1..] == [0xA9] && [0xA9][1..] == [];
  }

  /** The empty match at the search's own offset is reportable from anywhere. */
  lemma EmptyMatchEverywhereWellBehaved()
    ensures WellBehaved(EmptyMatchEverywhere())
  {
  }

  /** The empty matches the parameterless `find()` reports in 'é': at bytes 0, 1 and 2. */
  lemma EmptyMatchesOfTwoBytes(find: Finder)
    requires find == EmptyMatchEverywhere()
    ensures WellBehaved(find) && ValidUtf8([0xC3, 0xA9])
    ensures Occurrences(find, [0xC3, 0xA9], 0) == [Match(0, 0), Match(1, 1), Match(2, 2)]
  {
    var e: seq<byte> := [0xC3, 0xA9];
    TwoByteCodePoint();
    EmptyMatchEverywhereWellBehaved();
    assert Occurrences(find, e, 3) == [];
    assert Occurrences(find, e, 2) == [Match(2, 2)];
    assert Occurrences(find, e, 1) == [Match(1, 1), Match(2, 2)];
  }

  /** When there is a (k+1)-th occurrence there is a k-th one, and it begins at a smaller byte offset. */
  lemma OccurrenceStartsIncrease(find: Finder, source: seq<byte>, start: int, k: int)
    requires WellBehaved(find) && ValidUtf8(source) && 1 <= start && 1 <= k
    requires OccurrenceByteStart(find, source, start, k + 1).Some?
    ensures OccurrenceByteStart(find, source, start, k).Some?
    ensures OccurrenceByteStart(find, source, start, k).value < OccurrenceByteStart(find, source, start, k + 1).value
  {
    var ms := Occurrences(find, source[StartBytePosition(source, start)..], 0);
    assert ResumeAfter(ms[k - 1]) <= ms[k].start;
  }

  /**
   * Codepoint positions grow with the byte offset, strictly past an offset
   * at which a codepoint begins.
   */
  lemma CodePointPositionIncreases(source: seq<byte>, p: nat, q: nat)
    requires ValidUtf8(source) && p < q <= |source|
    ensures CodePointPosition(source, p) <= CodePointPosition(source, q)
    ensures IsBoundary(source, p) ==> CodePointPosition(source, p) < CodePointPosition(source, q)
  {
    CountCodePointsPrefixMonotone(source, p, q);
  }

  // ---------------------------------------------------------------------------
  // regexp_count

  /**
   * Where regexp_count searches next after counting match `m`: at its end
   * when `m` is not empty; past exactly one whole codepoint when `m` is empty,
   * and not at all further when `m` is the empty match at the end of the
   * source, which has no codepoint left to skip.
   */
  function NextStart(source: seq<byte>, m: Match): (n: nat)
    requires ValidUtf8(source) && m.start <= m.end <= |source|
    requires IsBoundary(source, m.start) && IsBoundary(source, m.end)
    ensures IsBoundary(source, n) && m.end <= n
    ensures m.start < m.end ==> n == m.end
    ensures m.start == m.end < |source| ==> m.end < n && CountCodePoints(source[m.end..n]) == 1
    ensures m.start == m.end == |source| ==> n == |source|
  {
    if m.start == m.end && m.end < |source| then
      NextCodePoint(source, m.start);
      m.end + LengthOfCodePointFromStartByte(source[m.start])
    else
      m.end
  }

  /**
   * The matches regexp_count counts when its search resumes at `nextStart`.
   * They lie inside the source, each begins after the previous ones and none
   * overlaps another, and there are no more of them than codepoints in the
   * part of the source that is still to be searched.
   */
  function CountedMatches(find: Finder, source: seq<byte>, nextStart: nat): (ms: seq<Match>)
    requires WellBehaved(find) && ValidUtf8(source) && IsBoundary(source, nextStart)
    ensures |ms| <= CountCodePoints(source[nextStart..])
    ensures forall i :: 0 <= i < |ms| ==> nextStart <= ms[i].start <= ms[i].end <= |source|
    ensures forall i, j :: 0 <= i < j < |ms| ==> ms[i].end <= ms[j].start && ms[i].start < ms[j].start
    decreases |source| - nextStart
  {
    match FindFrom(find, source, nextStart)
    case None => []
    case Some(m) =>
      if nextStart < |source| then
        var n := NextStart(source, m);
        var rest := CountedMatches(find, source, n);
        CountCodePointsShrink(source, nextStart, n);
        assert rest != [] ==> m.start < n by {
          if n == |source| { assert source[n..] == []; }
        }
        PrependInOrder(m, rest, nextStart, n, |source|);
        [m] + rest
      else
        []
  }

  /**
   * A match inside [from, n] put in front of matches that lie in order inside
   * [n, end] keeps them in order, provided it begins before n when they are
   * not empty.
   */
  lemma PrependInOrder(m: Match, rest: seq<Match>, from: nat, n: nat, end: nat)
    requires from <= m.start <= m.end <= n && m.end <= end
    requires rest != [] ==> m.start < n
    requires forall i :: 0 <= i < |rest| ==> n <= rest[i].start <= rest[i].end <= end
    requires forall i, j :: 0 <= i < j < |rest| ==> rest[i].end <= rest[j].start && rest[i].start < rest[j].start
    ensures var ms := [m] + rest;
      (forall i :: 0 <= i < |ms| ==> from <= ms[i].start <= ms[i].end <= end) &&
      (forall i, j :: 0 <= i < j < |ms| ==> ms[i].end <= ms[j].start && ms[i].start < ms[j].start)
  {
  }

  /**
   * regexp_count: the number of non-overlapping matches in the source. The
   * search resumes at the end of each match, one whole codepoint further
   * after an empty one, and stops when the engine finds nothing more or the
   * resume offset reaches the end of the source.
   */
  method RegexpCount(pattern: Re2JRegexp, source: seq<byte>) returns (count: nat)
    requires pattern.Valid() && ValidUtf8(source)
    ensures count == |CountedMatches(pattern.find, source, 0)|
    ensures count <= CountCodePoints(source) <= |source|
    ensures source == [] ==> count == 0
  {
    if source != [] {
      ValidHead(source);
    }
    assert source[0..] == source;
    count := 0;
    var nextStart := 0;
    var found := FindFrom(pattern.find, source, nextStart);
    while found.Some? && nextStart < |source|
      invariant IsBoundary(source, nextStart)
      invariant found == FindFrom(pattern.find, source, nextStart)
      invariant count + |CountedMatches(pattern.find, source, nextStart)| == |CountedMatches(pattern.find, source, 0)|
      decreases |source| - nextStart
    {
      var m := found.value;
      if m.start == m.end {
        if m.end < |source| {
          NextCodePoint(source, m.start);
          nextStart := m.end + LengthOfCodePointFromStartByte(source[m.start]);
        } else {
          nextStart := m.end;
        }
      } else {
        nextStart := m.end;
      }
      assert nextStart == NextStart(source, m);
      count := count + 1;
      found := FindFrom(pattern.find, source, nextStart);
    }
  }

  /**
   * regexp_count as written: an empty match at the very end of a non-empty
   * source, found while the resume offset is still inside the source, makes
   * it read the byte at that end offset, which does not exist.
   */
  function RegexpCountAsWritten(find: Finder, source: seq<byte>, nextStart: nat): (r: Result<nat>)
    requires WellBehaved(find) && ValidUtf8(source) && IsBoundary(source, nextStart)
    ensures r.Ok? ==> r.value <= CountCodePoints(source[nextStart..])
    ensures r.Err? ==> r.error == IndexOutOfBounds(|source|) && nextStart < |source|
    decreases |source| - nextStart
  {
    match FindFrom(find, source, nextStart)
    case None => Ok(0)
    case Some(m) =>
      if nextStart < |source| then
        if m.start == m.end && m.start == |source| then Err(IndexOutOfBounds(m.start))
        else
          var n := NextStart(source, m);
          CountCodePointsShrink(source, nextStart, n);
          match RegexpCountAsWritten(find, source, n)
          case Ok(k) => Ok(k + 1)
          case Err(e) => Err(e)
      else
        Ok(0)
  }

  /**
   * What the code as written reports for the matches `ms` it counts: their
   * number, unless the last of them is the empty match at the end `len` of
   * the source, whose first byte it then tries to read.
   */
  function CountOutcome(ms: seq<Match>, len: nat): Result<nat> {
    if ms != [] && ms[|ms| - 1].start == len then Err(IndexOutOfBounds(len)) else Ok(|ms|)
  }

  /**
   * The code as written agrees with RegexpCount except in one case: it fails
   * exactly when the last counted match is the empty match at the end of the
   * source.
   */
  lemma {:induction false} CountAsWrittenFailsOnlyAtEnd(find: Finder, source: seq<byte>, nextStart: nat)
    requires WellBehaved(find) && ValidUtf8(source) && IsBoundary(source, nextStart)
    ensures RegexpCountAsWritten(find, source, nextStart) ==
      CountOutcome(CountedMatches(find, source, nextStart), |source|)
    decreases |source| - nextStart
  {
    match FindFrom(find, source, nextStart)
    case None =>
    case Some(m) =>
      if nextStart < |source| {
        var n := NextStart(source, m);
        var rest := CountedMatches(find, source, n);
        assert CountedMatches(find, source, nextStart) == [m] + rest;
        if m.start == m.end && m.start == |source| {
          assert source[n..] == [];
          assert rest == [];
          assert RegexpCountAsWritten(find, source, nextStart) == Err(IndexOutOfBounds(|source|));
        } else {
          CountAsWrittenFailsOnlyAtEnd(find, source, n);
          PrependToOutcome(m, rest, |source|);
          assert RegexpCountAsWritten(find, source, nextStart) ==
            match RegexpCountAsWritten(find, source, n)
            case Ok(k) => Ok(k + 1)
            case Err(e) => Err(e);
        }
      }
  }

  /** Counting one more match that does not begin at the end adds one to the count and keeps a failure. */
  lemma PrependToOutcome(m: Match, rest: seq<Match>, len: nat)
    requires m.start != len
    ensures CountOutcome([m] + rest, len) ==
      match CountOutcome(rest, len)
      case Ok(k) => Ok(k + 1)
      case Err(e) => Err(e)
  {
    if rest != [] {
      assert ([m] + rest)[|rest|] == rest[|rest| - 1];
    }
  }

  /** The pattern `$` as the engine sees it: from anywhere, the empty match at the end of the input. */
  function EndOfInput(): Finder {
    (bytes: seq<byte>, from: nat) => Some(Match(|bytes|, |bytes|))
  }

  /**
   * regexp_count('a', '$') as written reads past the end of the one-byte
   * source, where the corrected count is 1.
   */
  lemma EndOfInputBreaksCountAsWritten()
    ensures WellBehaved(EndOfInput()) && ValidUtf8([0x61]) && IsBoundary([0x61], 0)
    ensures RegexpCountAsWritten(EndOfInput(), [0x61], 0) == Err(IndexOutOfBounds(1))
    ensures |CountedMatches(EndOfInput(), [0x61], 0)| == 1
  {
    var a: seq<byte> := [0x61];
    assert CharLength(a) == 1 && a[1..] == [];
    assert NextStart(a, Match(1, 1)) == 1;
  }

  /**
   * regexp_like('', '') holds while regexp_count('', '') is 0: the counting
   * loop never searches an empty source.
   */
  lemma EmptySourceLikeWithoutCount(pattern: Re2JRegexp)
    requires pattern.find == EmptyMatchEverywhere()
    ensures pattern.Valid() && ValidUtf8([]) && IsBoundary([], 0)
    ensures RegexpLike(pattern, []) && |CountedMatches(pattern.find, [], 0)| == 0
  {
    EmptyMatchEverywhereWellBehaved();
  }

  /**
   * On a non-empty source, regexp_like holds exactly when regexp_count is
   * positive. (On the empty source regexp_count is 0 whatever regexp_like says.)
   */
  lemma LikeIffCountPositive(pattern: Re2JRegexp, source: seq<byte>)
    requires pattern.Valid() && ValidUtf8(source) && source != []
    ensures ValidUtf8(source) && IsBoundary(source, 0)
    ensures RegexpLike(pattern, source) <==> |CountedMatches(pattern.find, source, 0)| > 0
  {
    ValidHead(source);
  }
}
