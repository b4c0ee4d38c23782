/**
 * Screen rectangles: the validity filter every module applies to a
 * bounding rectangle before trusting it, the point-to-rectangle distance
 * used for proximity, centres and the "..." hotspot above a separator.
 *
 * The source computes `sqrt(dx*dx + dy*dy)` and compares it with a radius;
 * here the squared distance is compared with the squared radius, which is
 * the same test for a radius that is not negative.
 */
module Geometry {
  import opened Text

  /** `(left, top, right, bottom)` in screen pixels, as `int(...)` of the provider's values. */
  datatype Rect = Rect(left: int, top: int, right: int, bottom: int)

  datatype Point = Point(x: int, y: int)

  const LowestCoordinate := -1000

  /**
   * `rect_ok` with the upper coordinate bound of the file it belongs to:
   * false for a missing rectangle, for an empty one (right <= left or
   * bottom <= top) and for any coordinate below -1000 or above `hi`.
   */
  predicate RectOk(r: Option<Rect>, hi: int) {
    match r
    case None => false
    case Some(q) =>
      q.left < q.right && q.top < q.bottom
      && LowestCoordinate <= q.left && LowestCoordinate <= q.top
      && LowestCoordinate <= q.right && LowestCoordinate <= q.bottom
      && q.left <= hi && q.top <= hi && q.right <= hi && q.bottom <= hi
  }

  function Width(q: Rect): int { q.right - q.left }

  function Height(q: Rect): int { q.bottom - q.top }

  /** A valid rectangle is at least one pixel wide and high, and at most `hi + 1000` of either. */
  lemma RectOkSize(r: Option<Rect>, hi: int)
    requires RectOk(r, hi)
    ensures r.Some? && 1 <= Width(r.value) <= hi - LowestCoordinate && 1 <= Height(r.value) <= hi - LowestCoordinate
  {
  }

  /** Clamped horizontal gap between `x` and `[left, right]`. */
  function GapX(q: Rect, x: int): (d: nat)
    ensures d == 0 <==> q.left <= x <= q.right
  {
    if q.left <= x <= q.right then 0 else if x < q.left then q.left - x else x - q.right
  }

  /** Clamped vertical gap between `y` and `[top, bottom]`. */
  function GapY(q: Rect, y: int): (d: nat)
    ensures d == 0 <==> q.top <= y <= q.bottom
  {
    if q.top <= y <= q.bottom then 0 else if y < q.top then q.top - y else y - q.bottom
  }

  /** Square of `dist_point_to_rect`. */
  function SqDist(q: Rect, x: int, y: int): nat {
    GapX(q, x) * GapX(q, x) + GapY(q, y) * GapY(q, y)
  }

  /** `dist_point_to_rect(q, x, y) <= radius` */
  predicate Within(q: Rect, x: int, y: int, radius: int) {
    0 <= radius && SqDist(q, x, y) <= radius * radius
  }

  /** The squared distance of a point to a non-empty rectangle is 0 exactly when the point lies in the closed rectangle. */
  lemma SqDistZeroIffInside(q: Rect, x: int, y: int)
    ensures SqDist(q, x, y) == 0 <==> q.left <= x <= q.right && q.top <= y <= q.bottom
  {
    SquareZero(GapX(q, x));
    SquareZero(GapY(q, y));
  }

  lemma SquareZero(a: nat)
    ensures a * a >= 0 && (a * a == 0 <==> a == 0)
  {
    if a > 0 {
      assert a * a >= a;
    }
  }

  /** A point straight left of the rectangle, at a height inside it, is `left - x` away. */
  lemma SqDistLeftOf(q: Rect, x: int, y: int)
    requires x < q.left <= q.right && q.top <= y <= q.bottom
    ensures SqDist(q, x, y) == (q.left - x) * (q.left - x)
  {
  }

  /** Distance is monotone in the radius: a hit within `r1` is a hit within any larger `r2`. */
  lemma WithinMonotone(q: Rect, x: int, y: int, r1: int, r2: int)
    requires Within(q, x, y, r1) && r1 <= r2
    ensures Within(q, x, y, r2)
  {
    assert r1 * r1 <= r2 * r2 by {
      assert 0 <= r1;
      assert r1 * r1 <= r1 * r2 <= r2 * r2;
    }
  }

  /** The scripts' bound (10000) is stricter than the library's (100000). */
  lemma RectOkBoundMonotone(r: Option<Rect>, lo: int, hi: int)
    requires RectOk(r, lo) && lo <= hi
    ensures RectOk(r, hi)
  {
  }

  /** `((l + r) // 2, (t + b) // 2)`: Dafny's `/` by 2 is Python's floor division. */
  function Center(q: Rect): (p: Point)
    ensures q.left <= q.right ==> q.left <= p.x <= q.right
    ensures q.top <= q.bottom ==> q.top <= p.y <= q.bottom
  {
    Point((q.left + q.right) / 2, (q.top + q.bottom) / 2)
  }

  /** Python `int(v)` for `v = a / d`, truncating toward zero. */
  function TruncDiv(a: int, d: int): (r: int)
    requires d > 0
    ensures a >= 0 ==> r * d <= a < r * d + d
    ensures a < 0 ==> r * d - d < a <= r * d
  {
    if a >= 0 then a / d else -((-a) / d)
  }

  /**
   * `int(l + (r - l) * ratio)` with `ratio = percent / 100` (the callers pass
   * 0.92, i.e. 92), computed exactly on rationals and then truncated toward
   * zero; the rounding of the double-precision product is not modelled.
   */
  function RatioX(left: int, right: int, percent: int): int {
    TruncDiv(100 * left + (right - left) * percent, 100)
  }

  /** The hotspot column stays inside the separator's horizontal span. */
  lemma RatioXInside(left: int, right: int, percent: int)
    requires left <= right && 0 <= percent <= 100
    ensures left <= RatioX(left, right, percent) <= right
  {
    var d := right - left;
    ProductNonNegative(d, percent);
    ProductNonNegative(d, 100 - percent);
    assert d * (100 - percent) == 100 * d - d * percent;
    var a := 100 * left + d * percent;
    assert 100 * left <= a <= 100 * right;
    var r := RatioX(left, right, percent);
    if a >= 0 {
      assert r * 100 <= a < r * 100 + 100;
    } else {
      assert r * 100 - 100 < a <= r * 100;
    }
  }

  lemma ProductNonNegative(x: int, y: int)
    requires 0 <= x && 0 <= y
    ensures 0 <= x * y
  {
  }
}
