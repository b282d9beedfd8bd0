/**
 Axis-aligned integer rectangles with the semantics of System.Drawing.Rectangle
 (Right = X + Width, Bottom = Y + Height, Union = bounding box), the
 edge-to-edge gap distance used to decide whether two rectangles merge, and
 the padding applied to every finished cluster.
 */
module Geometry {

  function Min(a: int, b: int): int { if a <= b then a else b }
  function Max(a: int, b: int): int { if a >= b then a else b }

  datatype Rect = Rect(x: int, y: int, width: int, height: int) {
    function Left(): int { x }
    function Top(): int { y }
    function Right(): int { x + width }
    function Bottom(): int { y + height }
  }

  /** `outer` covers `inner`, edge for edge (Rectangle.Contains(Rectangle)). */
  predicate Contains(outer: Rect, inner: Rect) {
    && outer.Left() <= inner.Left()
    && inner.Right() <= outer.Right()
    && outer.Top() <= inner.Top()
    && inner.Bottom() <= outer.Bottom()
  }

  lemma ContainsTransitive(a: Rect, b: Rect, c: Rect)
    requires Contains(a, b) && Contains(b, c)
    ensures Contains(a, c)
  {
  }

  /** Two rectangles that contain each other are equal. */
  lemma ContainsAntisymmetric(a: Rect, b: Rect)
    requires Contains(a, b) && Contains(b, a)
    ensures a == b
  {
  }

  /** Rectangle.Union: the smallest rectangle holding both arguments. */
  function Union(a: Rect, b: Rect): (u: Rect)
    ensures Contains(u, a) && Contains(u, b)
    ensures u.Left() == a.Left() || u.Left() == b.Left()
    ensures u.Top() == a.Top() || u.Top() == b.Top()
    ensures u.Right() == a.Right() || u.Right() == b.Right()
    ensures u.Bottom() == a.Bottom() || u.Bottom() == b.Bottom()
  {
    var x1 := Min(a.x, b.x);
    var x2 := Max(a.x + a.width, b.x + b.width);
    var y1 := Min(a.y, b.y);
    var y2 := Max(a.y + a.height, b.y + b.height);
    Rect(x1, y1, x2 - x1, y2 - y1)
  }

  /** The four sides of a rectangle, to speak of its edges uniformly. */
  datatype Side = LeftSide | TopSide | RightSide | BottomSide

  function Edge(r: Rect, s: Side): int {
    match s
    case LeftSide => r.Left()
    case TopSide => r.Top()
    case RightSide => r.Right()
    case BottomSide => r.Bottom()
  }

  /** Each edge of a union is the same edge of one of its arguments. */
  lemma UnionEdge(a: Rect, b: Rect, s: Side)
    ensures Edge(Union(a, b), s) == Edge(a, s) || Edge(Union(a, b), s) == Edge(b, s)
  {
  }

  /** Any rectangle holding both arguments holds their union. */
  lemma UnionIsLeast(a: Rect, b: Rect, c: Rect)
    requires Contains(c, a) && Contains(c, b)
    ensures Contains(c, Union(a, b))
  {
  }

  /** Integer square root, rounded down: what `(int)Math.Sqrt(n)` yields for
      every n in the 32-bit range. */
  function ISqrt(n: nat): (r: nat)
    ensures r * r <= n < (r + 1) * (r + 1)
  {
    if n == 0 then 0
    else
      var s := ISqrt(n - 1);
      assert (s + 2) * (s + 2) == (s + 1) * (s + 1) + 2 * s + 3;
      if (s + 1) * (s + 1) <= n then s + 1 else s
  }

  lemma SquareMonotone(a: nat, b: nat)
    requires a <= b
    ensures a * a <= b * b
  {
    assert a * a <= a * b <= b * b;
  }

  /** The floor square root is the only r with r*r <= n < (r+1)*(r+1). */
  lemma ISqrtUnique(n: nat, r: nat)
    requires r * r <= n < (r + 1) * (r + 1)
    ensures ISqrt(n) == r
  {
    var s := ISqrt(n);
    if s < r {
      SquareMonotone(s + 1, r);
    } else if r < s {
      SquareMonotone(r + 1, s);
    }
  }

  /** Horizontal gap: 0 when the x-ranges overlap or touch. */
  function XGap(a: Rect, b: Rect): nat {
    Max(0, Max(a.Left() - b.Right(), b.Left() - a.Right()))
  }

  /** Vertical gap: 0 when the y-ranges overlap or touch. */
  function YGap(a: Rect, b: Rect): nat {
    Max(0, Max(a.Top() - b.Bottom(), b.Top() - a.Bottom()))
  }

  function GapSquared(a: Rect, b: Rect): nat {
    XGap(a, b) * XGap(a, b) + YGap(a, b) * YGap(a, b)
  }

  /** The edge-to-edge Euclidean gap between two rectangles, truncated to an
      integer. */
  function Distance(a: Rect, b: Rect): (d: nat)
    ensures d * d <= GapSquared(a, b) < (d + 1) * (d + 1)
  {
    ISqrt(GapSquared(a, b))
  }

  lemma DistanceSymmetric(a: Rect, b: Rect)
    ensures Distance(a, b) == Distance(b, a)
  {
    assert XGap(a, b) == XGap(b, a) && YGap(a, b) == YGap(b, a);
  }

  /** The float-free criterion the merge test amounts to: a truncated square
      root is below m exactly when m is positive and the squared gap is below
      m*m. */
  lemma DistanceBelowIff(a: Rect, b: Rect, m: int)
    ensures Distance(a, b) < m <==> 0 < m && GapSquared(a, b) < m * m
  {
    var d := Distance(a, b);
    var n := GapSquared(a, b);
    if d < m {
      SquareMonotone(d + 1, m);
    }
    if 0 < m && n < m * m && m <= d {
      SquareMonotone(m, d);
    }
  }

  /** Two ranges [lo1, hi1] and [lo2, hi2] overlap or touch. */
  predicate RangesMeet(lo1: int, hi1: int, lo2: int, hi2: int) {
    lo1 <= hi2 && lo2 <= hi1
  }

  /** The gap is zero exactly when the rectangles overlap or touch on BOTH
      axes; overlap on one axis alone does not make it zero. */
  lemma DistanceZeroIff(a: Rect, b: Rect)
    ensures Distance(a, b) == 0 <==>
      RangesMeet(a.Left(), a.Right(), b.Left(), b.Right())
      && RangesMeet(a.Top(), a.Bottom(), b.Top(), b.Bottom())
  {
    var dx, dy := XGap(a, b), YGap(a, b);
    if Distance(a, b) == 0 {
      if 0 < dx {
        SquareMonotone(1, dx);
      }
      if 0 < dy {
        SquareMonotone(1, dy);
      }
    }
  }

  /** When the x-ranges meet, the distance is exactly the vertical gap (and
      symmetrically); so overlap on one axis still leaves the other axis's
      separation in full. */
  lemma DistanceOneAxis(a: Rect, b: Rect)
    ensures XGap(a, b) == 0 ==> Distance(a, b) == YGap(a, b)
    ensures YGap(a, b) == 0 ==> Distance(a, b) == XGap(a, b)
  {
    var dx, dy := XGap(a, b), YGap(a, b);
    if dx == 0 {
      assert (dy + 1) * (dy + 1) == dy * dy + 2 * dy + 1;
      ISqrtUnique(GapSquared(a, b), dy);
    }
    if dy == 0 {
      assert (dx + 1) * (dx + 1) == dx * dx + 2 * dx + 1;
      ISqrtUnique(GapSquared(a, b), dx);
    }
  }

  /** The truncated Euclidean gap lies between the larger axis gap and the
      sum of the axis gaps. */
  lemma DistanceBounds(a: Rect, b: Rect)
    ensures Max(XGap(a, b), YGap(a, b)) <= Distance(a, b) <= XGap(a, b) + YGap(a, b)
  {
    var dx, dy := XGap(a, b), YGap(a, b);
    var d := Distance(a, b);
    RootBounds(dx, dy, d);
  }

  lemma RootBounds(dx: nat, dy: nat, d: nat)
    requires d * d <= dx * dx + dy * dy < (d + 1) * (d + 1)
    ensures dx <= d && dy <= d && d <= dx + dy
  {
    if d < dx {
      SquareMonotone(d + 1, dx);
    }
    if d < dy {
      SquareMonotone(d + 1, dy);
    }
    RootBelowSum(dx, dy, d);
  }

  lemma RootBelowSum(dx: nat, dy: nat, d: nat)
    requires d * d <= dx * dx + dy * dy
    ensures d <= dx + dy
  {
    var s := dx + dy;
    calc {
      s * s;
      == dx * dx + dy * dy + 2 * (dx * dy);
      >= dx * dx + dy * dy;
    }
    if s < d {
      SquareMonotone(s + 1, d);
    }
  }

  /** A gap from a larger rectangle is never greater. */
  lemma DistanceShrinks(big: Rect, small: Rect, r: Rect)
    requires Contains(big, small)
    ensures Distance(big, r) <= Distance(small, r)
  {
    var d1, d2 := Distance(big, r), Distance(small, r);
    assert XGap(big, r) <= XGap(small, r) && YGap(big, r) <= YGap(small, r);
    SquareMonotone(XGap(big, r), XGap(small, r));
    SquareMonotone(YGap(big, r), YGap(small, r));
    if d2 < d1 {
      SquareMonotone(d2 + 1, d1);
    }
  }

  /** Expands `r` by `p` on every side, clamping left and top at 0. Width and
      height grow by 2p even when a side is clamped, so a clamped rectangle's
      right (bottom) edge moves out by more than p. */
  function Pad(r: Rect, p: int): (q: Rect)
    ensures q.Left() == Max(0, r.Left() - p) && q.Top() == Max(0, r.Top() - p)
    ensures q.width == r.width + 2 * p && q.height == r.height + 2 * p
    ensures q.Right() == r.Right() + p + Max(0, p - r.Left())
    ensures q.Bottom() == r.Bottom() + p + Max(0, p - r.Top())
  {
    Rect(Max(0, r.Left() - p), Max(0, r.Top() - p), r.width + p * 2, r.height + p * 2)
  }

  /** Padding by a non-negative margin never loses any of a rectangle that
      lies in the non-negative quadrant. */
  lemma PadContains(r: Rect, p: int)
    requires 0 <= p && 0 <= r.Left() && 0 <= r.Top()
    ensures Contains(Pad(r, p), r)
  {
  }
}
