/**
 * The regular-expression engine seen from outside. The engine itself (Re2J's
 * Matcher and compiled program) is not part of this model: it is a search
 * `find(bytes, from)` that reports the leftmost match at or after byte offset
 * `from`, constrained only by the range it may report.
 */
module Matching {
  import opened Options
  import opened Utf8

  /** A match as the engine reports it: the half-open byte range [start, end). */
  datatype Match = Match(start: nat, end: nat)

  /** The engine's search from a byte offset, `Matcher.find(int)`. */
  type Finder = (seq<byte>, nat) -> Option<Match>

  /**
   * What a search from `from` may report: nothing, or a range inside
   * [from, |bytes|]. A search that starts on a codepoint boundary steps over
   * whole codepoints, so both ends of what it reports fall on boundaries; a
   * search resumed inside a codepoint (one byte after an empty match) is
   * promised nothing more than the range.
   */
  predicate Reportable(m: Option<Match>, bytes: seq<byte>, from: nat) {
    m.Some? ==>
      from <= m.value.start <= m.value.end <= |bytes| &&
      (IsBoundary(bytes, from) ==> IsBoundary(bytes, m.value.start) && IsBoundary(bytes, m.value.end))
  }

  /** The contract every search keeps on valid UTF-8 input and an offset inside it. */
  ghost predicate WellBehaved(find: Finder) {
    forall bytes: seq<byte>, from: nat ::
      ValidUtf8(bytes) && from <= |bytes| ==> Reportable(find(bytes, from), bytes, from)
  }

  /** A search from an offset inside the input (`Matcher.find(int)` rejects one beyond its end). */
  function FindFrom(find: Finder, bytes: seq<byte>, from: nat): (m: Option<Match>)
    requires WellBehaved(find) && ValidUtf8(bytes) && from <= |bytes|
    ensures Reportable(m, bytes, from)
  {
    find(bytes, from)
  }

  /**
   * Where the parameterless `find()` resumes after match `m`: at its end, one
   * byte further when `m` was empty so that the same empty match is not
   * reported again.
   */
  function ResumeAfter(m: Match): (from: nat)
    requires m.start <= m.end
    ensures m.start < from && m.end <= from
  {
    if m.start == m.end then m.end + 1 else m.end
  }

  /** The parameterless `find()` from its resume offset: past the end of the input there is nothing to find. */
  function FindNext(find: Finder, bytes: seq<byte>, from: nat): (m: Option<Match>)
    requires WellBehaved(find) && ValidUtf8(bytes)
    ensures from > |bytes| ==> m.None?
    ensures Reportable(m, bytes, from)
  {
    if from > |bytes| then None else find(bytes, from)
  }

  /**
   * Each match of `ms`, the first found by a search from `from` and each
   * later one by a search resumed after the one before it, begins and ends on
   * codepoint boundaries whenever its search started on one.
   */
  predicate FoundOnBoundaries(bytes: seq<byte>, from: nat, ms: seq<Match>)
    decreases |ms|
  {
    ms == [] ||
    (ms[0].start <= ms[0].end &&
     (IsBoundary(bytes, from) ==> IsBoundary(bytes, ms[0].start) && IsBoundary(bytes, ms[0].end)) &&
     FoundOnBoundaries(bytes, ResumeAfter(ms[0]), ms[1..]))
  }

  /**
   * The matches reported by successive parameterless `find()` calls, the
   * first one resuming at `from`. They are in increasing order of start,
   * none overlaps another, and there are at most |bytes| + 1 - from of them.
   * A match found from a boundary begins and ends on boundaries; one found
   * after the one-byte step past an empty match may begin inside a codepoint.
   */
  function Occurrences(find: Finder, bytes: seq<byte>, from: nat): (ms: seq<Match>)
    requires WellBehaved(find) && ValidUtf8(bytes)
    ensures from <= |bytes| + 1 ==> from + |ms| <= |bytes| + 1
    ensures forall i :: 0 <= i < |ms| ==> from <= ms[i].start <= ms[i].end <= |bytes|
    ensures forall i, j :: 0 <= i < j < |ms| ==> ResumeAfter(ms[i]) <= ms[j].start
    ensures FoundOnBoundaries(bytes, from, ms)
    decreases |bytes| + 1 - from
  {
    match FindNext(find, bytes, from)
    case None => []
    case Some(m) => [m] + Occurrences(find, bytes, ResumeAfter(m))
  }
}
