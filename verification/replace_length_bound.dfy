/**
 * The declared result length of regexp_replace(source, pattern, replacement):
 * for a source of declared length x and a replacement of declared length y,
 * the result has declared length min(2147483647, x + max(x * y / 2, y) * (x + 1)).
 *
 * The bound rests on this argument. At worst the replacement is inserted at
 * every one of the x + 1 places between and around the characters of the
 * source. A replacement of y characters grows the most when it consists of
 * two-character group references, each of which may expand to the x
 * characters of the source, giving x * y / 2; when x < 2 the replacement
 * taken literally, y, may be longer.
 */
module ReplaceLengthBound {

  /** The largest declared varchar length, Java's Integer.MAX_VALUE. */
  const MaxLength: int := 2147483647

  function Max(a: int, b: int): (m: int)
    ensures m >= a && m >= b && (m == a || m == b)
  {
    if a >= b then a else b
  }

  function Min(a: int, b: int): (m: int)
    ensures m <= a && m <= b && (m == a || m == b)
  {
    if a <= b then a else b
  }

  /**
   * The longest text one insertion of a replacement of declared length `y`
   * can produce in a source of declared length `x`. The division is Java's
   * on non-negative operands, which Dafny's agrees with there.
   */
  function InsertionBound(x: int, y: int): (b: int)
    requires 0 <= x && 0 <= y
    ensures y <= b
    ensures x * y / 2 <= b
  {
    Max(x * y / 2, y)
  }

  /** The declared result length of regexp_replace with a replacement. */
  function ReplacedLength(x: int, y: int): (z: int)
    requires 0 <= x && 0 <= y
    ensures z <= MaxLength
    ensures x <= MaxLength ==> x <= z
  {
    NonNegativeProduct(InsertionBound(x, y), x + 1);
    Min(MaxLength, x + InsertionBound(x, y) * (x + 1))
  }

  lemma NonNegativeProduct(a: int, b: int)
    requires 0 <= a && 0 <= b
    ensures 0 <= a * b
  {
  }

  /** A product of non-negative factors grows with each factor. */
  lemma {:induction false} ProductMonotone(a: int, b: int, c: int, d: int)
    requires 0 <= a <= c && 0 <= b <= d
    ensures a * b <= c * d
  {
    assert a * b <= c * b by {
      assert (c - a) * b >= 0 by { NonNegativeProduct(c - a, b); }
    }
    assert c * b <= c * d by {
      assert c * (d - b) >= 0 by { NonNegativeProduct(c, d - b); }
    }
  }

  /** The insertion bound grows with both declared lengths. */
  lemma InsertionBoundMonotone(x1: int, y1: int, x2: int, y2: int)
    requires 0 <= x1 <= x2 && 0 <= y1 <= y2
    ensures InsertionBound(x1, y1) <= InsertionBound(x2, y2)
  {
    ProductMonotone(x1, y1, x2, y2);
  }

  /** A longer source or a longer replacement never gives a shorter declared result. */
  lemma ReplacedLengthMonotone(x1: int, y1: int, x2: int, y2: int)
    requires 0 <= x1 <= x2 && 0 <= y1 <= y2
    ensures ReplacedLength(x1, y1) <= ReplacedLength(x2, y2)
  {
    InsertionBoundMonotone(x1, y1, x2, y2);
    ProductMonotone(InsertionBound(x1, y1), x1 + 1, InsertionBound(x2, y2), x2 + 1);
  }

  /**
   * A replacement of `y` characters holding `k` two-character group
   * references, each expanding to at most the `x` characters of the source,
   * produces at most InsertionBound(x, y) characters.
   */
  lemma {:induction false} ExpansionFitsInsertionBound(x: int, y: int, k: int)
    requires 0 <= x && 0 <= k && 2 * k <= y
    ensures (y - 2 * k) + k * x <= InsertionBound(x, y)
  {
    if x < 2 {
      ProductMonotone(k, x, k, 2);
    } else {
      // (y - 2k) + k * x == y + k * (x - 2) <= y + h * (x - 2) <= x * y / 2, with h = y / 2
      var h, r := y / 2, y % 2;
      ProductMonotone(k, x - 2, h, x - 2);
      assert k * x == k * (x - 2) + 2 * k;
      assert h * x == h * (x - 2) + 2 * h;
      HalfProduct(x, h, r);
    }
  }

  /** Half the product of `x` and an odd or even `2 * h + r` is at least `h * x + r` when x >= 2. */
  lemma HalfProduct(x: int, h: int, r: int)
    requires 2 <= x && 0 <= h && 0 <= r <= 1
    ensures x * (2 * h + r) / 2 >= h * x + r
  {
    assert x * (2 * h + r) == 2 * (h * x) + r * x;
    assert (2 * (h * x) + r * x) / 2 == h * x + (r * x) / 2;
  }

  /** Sum of a sequence of lengths. */
  function Sum(ls: seq<int>): int {
    if ls == [] then 0 else ls[0] + Sum(ls[1..])
  }

  /** Lengths each at most `c` add up to at most `c` times their number. */
  lemma {:induction false} SumBounded(ls: seq<int>, c: int)
    requires forall i :: 0 <= i < |ls| ==> ls[i] <= c
    ensures Sum(ls) <= c * |ls|
  {
    if ls != [] {
      SumBounded(ls[1..], c);
    }
  }

  /**
   * The declared result length covers the worst case: a source of `x`
   * characters with an insertion at each of its x + 1 places, each insertion
   * no longer than InsertionBound(x, y), has a length that, clamped to the
   * largest varchar length, is at most ReplacedLength(x, y).
   */
  lemma ReplacedLengthCoversInsertions(x: int, y: int, insertions: seq<int>)
    requires 0 <= x && 0 <= y && |insertions| == x + 1
    requires forall i :: 0 <= i < |insertions| ==> insertions[i] <= InsertionBound(x, y)
    ensures Min(MaxLength, x + Sum(insertions)) <= ReplacedLength(x, y)
  {
    SumBounded(insertions, InsertionBound(x, y));
  }
}
