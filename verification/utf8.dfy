/**
 * UTF-8 byte buffers and the translation between 1-based codepoint positions,
 * as the SQL functions report them, and 0-based byte offsets, as the regular
 * expression engine reports them.
 *
 * Well-formedness follows the syntax of section 4 of RFC 3629; the width of a
 * codepoint read from its first byte follows the table of section 3.
 */
module Utf8 {
  import opened Options

  newtype byte = b: int | 0 <= b < 0x100

  /** A continuation byte, 10xx_xxxx, never begins a codepoint. */
  predicate IsContinuation(b: byte) {
    0x80 <= b < 0xC0
  }

  /** A byte whose high-order bits announce a sequence of one to four bytes. */
  predicate IsLeadByte(b: byte) {
    b < 0x80 || 0xC0 <= b < 0xF8
  }

  /** Number of bytes of the codepoint that begins with byte `b`. */
  function LengthOfCodePointFromStartByte(b: byte): (w: nat)
    requires IsLeadByte(b)
    ensures 1 <= w <= 4
  {
    if b < 0x80 then 1
    else if b < 0xE0 then 2
    else if b < 0xF0 then 3
    else 4
  }

  /** The width is the one the high-order bit pattern of the first byte announces. */
  lemma LengthFromHighOrderBits(b: byte)
    requires IsLeadByte(b)
    ensures LengthOfCodePointFromStartByte(b) == 1 <==> b / 0x80 == 0x00  // 0xxx_xxxx
    ensures LengthOfCodePointFromStartByte(b) == 2 <==> b / 0x20 == 0x06  // 110x_xxxx
    ensures LengthOfCodePointFromStartByte(b) == 3 <==> b / 0x10 == 0x0E  // 1110_xxxx
    ensures LengthOfCodePointFromStartByte(b) == 4 <==> b / 0x08 == 0x1E  // 1111_0xxx
  {
  }

  /**
   * Whether byte `b` may stand at position `i` (1, 2 or 3) of a character
   * that begins with `lead`. Every trailing byte is a continuation byte; the
   * second one is narrowed after E0 (no overlong form), ED (no surrogate), F0
   * (no overlong form) and F4 (nothing beyond U+10FFFF), and impossible after
   * C0, C1 (overlong forms) and F5..F7 (beyond U+10FFFF).
   */
  predicate TrailingByteAllowed(lead: byte, i: nat, b: byte)
    ensures TrailingByteAllowed(lead, i, b) ==> IsContinuation(b)
  {
    if i == 1 then
      if lead == 0xC0 || lead == 0xC1 || lead >= 0xF5 then false
      else if lead == 0xE0 then 0xA0 <= b <= 0xBF
      else if lead == 0xED then 0x80 <= b <= 0x9F
      else if lead == 0xF0 then 0x90 <= b <= 0xBF
      else if lead == 0xF4 then 0x80 <= b <= 0x8F
      else IsContinuation(b)
    else
      IsContinuation(b)
  }

  /** The bytes of `s` at positions `i` up to `w` may follow the lead byte `s[0]` of a character of width `w`. */
  predicate TrailingBytesAllowed(s: seq<byte>, i: nat, w: nat)
    requires 1 <= i <= w <= |s|
    decreases w - i
  {
    i == w || (TrailingByteAllowed(s[0], i, s[i]) && TrailingBytesAllowed(s, i + 1, w))
  }

  /**
   * Length of the well-formed UTF-8 character at the head of `s`, or 0 when the
   * head of `s` is not one (an overlong form, a surrogate, a value beyond
   * U+10FFFF, a stray continuation byte or a truncated sequence).
   */
  function CharLength(s: seq<byte>): (n: nat)
    ensures n <= 4 && n <= |s|
    ensures n > 0 ==> IsLeadByte(s[0]) && n == LengthOfCodePointFromStartByte(s[0])
  {
    if |s| == 0 || !IsLeadByte(s[0]) then 0
    else
      var w := LengthOfCodePointFromStartByte(s[0]);
      if w <= |s| && TrailingBytesAllowed(s, 1, w) then w else 0
  }

  /** The trailing bytes of a well-formed character are continuation bytes. */
  lemma {:induction false} TrailingBytesAreContinuations(s: seq<byte>, i: nat, w: nat)
    requires 1 <= i <= w <= |s| && TrailingBytesAllowed(s, i, w)
    ensures forall j :: i <= j < w ==> IsContinuation(s[j])
    decreases w - i
  {
    if i < w {
      TrailingBytesAreContinuations(s, i + 1, w);
    }
  }

  /** `s` is a sequence of well-formed UTF-8 characters. */
  predicate ValidUtf8(s: seq<byte>)
    decreases |s|
  {
    s == [] || (CharLength(s) > 0 && ValidUtf8(s[CharLength(s)..]))
  }

  /** Byte offset `k` is where a codepoint begins, or the end of `s`. */
  predicate IsBoundary(s: seq<byte>, k: int) {
    0 <= k <= |s| && (k == |s| || !IsContinuation(s[k]))
  }

  /**
   * Number of codepoints in `s`: every byte that is not a continuation byte
   * begins one. The count is defined for any byte range, not only for one
   * that starts and ends on codepoint boundaries.
   */
  function CountCodePoints(s: seq<byte>): (n: nat)
    ensures n <= |s|
  {
    if s == [] then 0
    else (if IsContinuation(s[0]) then 0 else 1) + CountCodePoints(s[1..])
  }

  /**
   * Byte offset at which the codepoint with 0-based index `n` begins, stepping
   * over whole codepoints by the width their first byte announces; None when
   * `s` has no such codepoint.
   */
  function OffsetOfCodePoint(s: seq<byte>, n: nat): (o: Option<nat>)
    requires ValidUtf8(s)
    ensures o.Some? ==> o.value < |s| && IsBoundary(s, o.value)
    decreases |s|
  {
    if s == [] then None
    else if n == 0 then Some(0)
    else
      var w := LengthOfCodePointFromStartByte(s[0]);
      match OffsetOfCodePoint(s[w..], n - 1)
      case None => None
      case Some(o) => Some(w + o)
  }

  lemma {:induction false} CountCodePointsConcat(a: seq<byte>, b: seq<byte>)
    ensures CountCodePoints(a + b) == CountCodePoints(a) + CountCodePoints(b)
  {
    if a == [] {
      assert a + b == b;
    } else {
      assert (a + b)[1..] == a[1..] + b;
      CountCodePointsConcat(a[1..], b);
    }
  }

  /** Counting the codepoints of `s` is counting those before and from byte offset `i`. */
  lemma CountCodePointsSplit(s: seq<byte>, i: nat)
    requires i <= |s|
    ensures CountCodePoints(s) == CountCodePoints(s[..i]) + CountCodePoints(s[i..])
  {
    assert s == s[..i] + s[i..];
    CountCodePointsConcat(s[..i], s[i..]);
  }

  /** A byte range made only of continuation bytes holds no codepoint. */
  lemma {:induction false} CountCodePointsOfContinuations(s: seq<byte>)
    requires forall i :: 0 <= i < |s| ==> IsContinuation(s[i])
    ensures CountCodePoints(s) == 0
  {
    if s != [] {
      CountCodePointsOfContinuations(s[1..]);
    }
  }

  /** A longer prefix holds at least as many codepoints. */
  lemma CountCodePointsPrefixMonotone(s: seq<byte>, i: nat, j: nat)
    requires i <= j <= |s|
    ensures CountCodePoints(s[..i]) <= CountCodePoints(s[..j])
    ensures i < j && !IsContinuation(s[i]) ==> CountCodePoints(s[..i]) < CountCodePoints(s[..j])
  {
    CountCodePointsSplit(s[..j], i);
    assert s[..j][..i] == s[..i];
  }

  /** Moving a codepoint boundary forward leaves fewer codepoints after it. */
  lemma CountCodePointsShrink(s: seq<byte>, i: int, j: int)
    requires IsBoundary(s, i) && i < j <= |s|
    ensures CountCodePoints(s[j..]) < CountCodePoints(s[i..])
  {
    CountCodePointsSplit(s[i..], j - i);
    assert s[i..][j - i..] == s[j..];
    assert s[i..][..j - i][0] == s[i];
  }

  /** A byte range that begins a codepoint and then holds only continuation bytes holds exactly one. */
  lemma OneCodePoint(c: seq<byte>)
    requires c != [] && !IsContinuation(c[0])
    requires forall i :: 0 < i < |c| ==> IsContinuation(c[i])
    ensures CountCodePoints(c) == 1
  {
    assert forall i :: 0 <= i < |c[1..]| ==> c[1..][i] == c[i + 1];
    CountCodePointsOfContinuations(c[1..]);
  }

  /** A non-empty valid buffer begins with a well-formed character followed by a valid buffer. */
  lemma ValidHead(s: seq<byte>)
    requires ValidUtf8(s) && s != []
    ensures CharLength(s) > 0 && ValidUtf8(s[CharLength(s)..])
    ensures IsLeadByte(s[0]) && !IsContinuation(s[0])
    ensures forall i :: 0 < i < CharLength(s) ==> IsContinuation(s[i])
  {
    TrailingBytesAreContinuations(s, 1, CharLength(s));
  }

  /**
   * The first codepoint of a non-empty valid buffer: its first byte announces
   * its width, the bytes after the first are continuation bytes and it ends on
   * a boundary.
   */
  lemma HeadCodePoint(s: seq<byte>)
    requires ValidUtf8(s) && s != []
    ensures IsLeadByte(s[0]) && !IsContinuation(s[0])
    ensures LengthOfCodePointFromStartByte(s[0]) <= |s|
    ensures forall i :: 0 < i < LengthOfCodePointFromStartByte(s[0]) ==> IsContinuation(s[i])
    ensures IsBoundary(s, LengthOfCodePointFromStartByte(s[0]))
    ensures CountCodePoints(s[..LengthOfCodePointFromStartByte(s[0])]) == 1
  {
    ValidHead(s);
    var w := CharLength(s);
    if w < |s| {
      ValidHead(s[w..]);
      assert s[w..][0] == s[w];
    }
    OneCodePoint(s[..w]);
  }

  /** What follows the first codepoint of a non-empty valid buffer is valid. */
  lemma ValidTail(s: seq<byte>)
    requires ValidUtf8(s) && s != []
    ensures IsLeadByte(s[0]) && ValidUtf8(s[LengthOfCodePointFromStartByte(s[0])..])
  {
    ValidHead(s);
  }

  /** Cutting a valid buffer at a codepoint boundary leaves a valid buffer after the cut. */
  lemma {:induction false} ValidAfterBoundary(s: seq<byte>, k: int)
    requires ValidUtf8(s) && IsBoundary(s, k)
    ensures ValidUtf8(s[k..])
    decreases |s|
  {
    if k == 0 {
      assert s[0..] == s;
    } else {
      HeadCodePoint(s);
      ValidTail(s);
      var w := LengthOfCodePointFromStartByte(s[0]);
      assert w <= k;
      var t := s[w..];
      assert IsBoundary(t, k - w) by {
        if k < |s| { assert t[k - w] == s[k]; }
      }
      ValidAfterBoundary(t, k - w);
      assert t[k - w..] == s[k..];
    }
  }

  /** The codepoint at offset `k` of a buffer that is valid from `k` on. */
  lemma CodePointAt(s: seq<byte>, k: int)
    requires 0 <= k < |s| && ValidUtf8(s[k..])
    ensures IsLeadByte(s[k])
    ensures k + LengthOfCodePointFromStartByte(s[k]) <= |s|
    ensures IsBoundary(s, k + LengthOfCodePointFromStartByte(s[k]))
    ensures CountCodePoints(s[k..k + LengthOfCodePointFromStartByte(s[k])]) == 1
  {
    var t := s[k..];
    HeadCodePoint(t);
    assert t[0] == s[k];
    var w := LengthOfCodePointFromStartByte(s[k]);
    assert t[..w] == s[k..k + w];
    if k + w < |s| {
      assert t[w] == s[k + w];
    }
  }

  /**
   * At a codepoint boundary inside a valid buffer, the first byte announces the
   * width of the codepoint, and stepping over that width lands on the next
   * boundary having passed exactly one codepoint.
   */
  lemma NextCodePoint(s: seq<byte>, k: int)
    requires ValidUtf8(s) && IsBoundary(s, k) && k < |s|
    ensures IsLeadByte(s[k])
    ensures k + LengthOfCodePointFromStartByte(s[k]) <= |s|
    ensures IsBoundary(s, k + LengthOfCodePointFromStartByte(s[k]))
    ensures CountCodePoints(s[k..k + LengthOfCodePointFromStartByte(s[k])]) == 1
  {
    ValidAfterBoundary(s, k);
    CodePointAt(s, k);
  }

  /** A non-empty valid buffer holds one codepoint more than what follows its first one. */
  lemma CountCodePointsOfValid(s: seq<byte>)
    requires ValidUtf8(s) && s != []
    ensures IsLeadByte(s[0])
    ensures CountCodePoints(s) == 1 + CountCodePoints(s[LengthOfCodePointFromStartByte(s[0])..])
  {
    HeadCodePoint(s);
    CountCodePointsSplit(s, LengthOfCodePointFromStartByte(s[0]));
  }

  /** Past its first codepoint, the search for a codepoint goes on in what follows with one fewer to skip. */
  lemma OffsetOfCodePointStep(s: seq<byte>, n: nat)
    requires ValidUtf8(s) && s != [] && n > 0
    ensures IsLeadByte(s[0]) && LengthOfCodePointFromStartByte(s[0]) <= |s|
    ensures ValidUtf8(s[LengthOfCodePointFromStartByte(s[0])..])
    ensures OffsetOfCodePoint(s, n).Some? == OffsetOfCodePoint(s[LengthOfCodePointFromStartByte(s[0])..], n - 1).Some?
    ensures OffsetOfCodePoint(s, n).Some? ==>
      OffsetOfCodePoint(s, n).value ==
        LengthOfCodePointFromStartByte(s[0]) + OffsetOfCodePoint(s[LengthOfCodePointFromStartByte(s[0])..], n - 1).value
  {
    ValidTail(s);
  }

  /**
   * The codepoint with 0-based index `n` exists exactly when `n` is below the
   * codepoint count; it begins on a boundary, and the bytes before it hold
   * exactly `n` codepoints.
   */
  lemma {:induction false} OffsetOfCodePointCorrect(s: seq<byte>, n: nat)
    requires ValidUtf8(s)
    ensures OffsetOfCodePoint(s, n).Some? <==> n < CountCodePoints(s)
    ensures OffsetOfCodePoint(s, n).Some? ==>
      var o := OffsetOfCodePoint(s, n).value;
      o < |s| && IsBoundary(s, o) && CountCodePoints(s[..o]) == n
    decreases |s|
  {
    if s == [] {
    } else if n == 0 {
      CountCodePointsOfValid(s);
      ValidHead(s);
      assert s[..0] == [];
    } else {
      var w := LengthOfCodePointFromStartByte(s[0]);
      OffsetOfCodePointCorrect(s[w..], n - 1);
      OffsetOfCodePointLater(s, n);
    }
  }

  /**
   * The inductive step of OffsetOfCodePointCorrect: what holds of the search
   * in what follows the first codepoint holds of the whole buffer with one
   * codepoint more.
   */
  lemma OffsetOfCodePointLater(s: seq<byte>, n: nat)
    requires ValidUtf8(s) && s != [] && n > 0
    requires IsLeadByte(s[0]) && LengthOfCodePointFromStartByte(s[0]) <= |s|
    requires ValidUtf8(s[LengthOfCodePointFromStartByte(s[0])..])
    requires
      var t := s[LengthOfCodePointFromStartByte(s[0])..];
      (OffsetOfCodePoint(t, n - 1).Some? <==> n - 1 < CountCodePoints(t)) &&
      (OffsetOfCodePoint(t, n - 1).Some? ==>
        var o := OffsetOfCodePoint(t, n - 1).value;
        o < |t| && IsBoundary(t, o) && CountCodePoints(t[..o]) == n - 1)
    ensures OffsetOfCodePoint(s, n).Some? <==> n < CountCodePoints(s)
    ensures OffsetOfCodePoint(s, n).Some? ==>
      var o := OffsetOfCodePoint(s, n).value;
      o < |s| && IsBoundary(s, o) && CountCodePoints(s[..o]) == n
  {
    CountCodePointsOfValid(s);
    OffsetOfCodePointStep(s, n);
    var w := LengthOfCodePointFromStartByte(s[0]);
    var t := s[w..];
    if OffsetOfCodePoint(t, n - 1).Some? {
      HeadCodePoint(s);
      ShiftBoundary(s, w, OffsetOfCodePoint(t, n - 1).value);
    }
  }

  /** A boundary `o` of `s[w..]` is the boundary `w + o` of `s`, with the codepoints of `s[..w]` before it. */
  lemma ShiftBoundary(s: seq<byte>, w: nat, o: nat)
    requires w <= |s| && o < |s| - w && IsBoundary(s[w..], o)
    ensures w + o < |s| && IsBoundary(s, w + o)
    ensures CountCodePoints(s[..w + o]) == CountCodePoints(s[..w]) + CountCodePoints(s[w..][..o])
  {
    var t := s[w..];
    assert s[w + o] == t[o];
    assert s[..w + o] == s[..w] + t[..o];
    CountCodePointsConcat(s[..w], t[..o]);
  }

  /**
   * Translating a boundary to its codepoint index and back gives the boundary:
   * OffsetOfCodePoint inverts the count of the codepoints before a boundary.
   */
  lemma OffsetOfCountedBoundary(s: seq<byte>, p: int)
    requires ValidUtf8(s) && IsBoundary(s, p) && p < |s|
    ensures OffsetOfCodePoint(s, CountCodePoints(s[..p])) == Some(p)
  {
    var n := CountCodePoints(s[..p]);
    CountCodePointsPrefixMonotone(s, p, |s|);
    assert s[..|s|] == s;
    OffsetOfCodePointCorrect(s, n);
    var o := OffsetOfCodePoint(s, n).value;
    if o < p {
      CountCodePointsPrefixMonotone(s, o, p);
    } else if p < o {
      CountCodePointsPrefixMonotone(s, p, o);
    }
  }
}
