/** Box geometry of the accident heuristic: clamped rectangle areas and the
    intersection-over-union score of two boxes. Coordinates are exact reals. */
module Geometry {

  /** An axis-aligned box [x1, y1, x2, y2] in pixel coordinates. Nothing
      forces x1 <= x2 or y1 <= y2: a reversed box simply has zero area. */
  datatype Box = Box(x1: real, y1: real, x2: real, y2: real)

  /** The small constant (1e-6) that keeps every division defined. */
  const Eps: real := 0.000001

  function Max(a: real, b: real): real { if a >= b then a else b }

  function Min(a: real, b: real): real { if a <= b then a else b }

  /** max(0, v): a negative extent counts as zero. */
  function Clamp(v: real): (r: real)
    ensures r >= 0.0 && r >= v
    ensures v >= 0.0 ==> r == v
    ensures v <= 0.0 ==> r == 0.0
  {
    if 0.0 >= v then 0.0 else v
  }

  function Width(b: Box): real { Clamp(b.x2 - b.x1) }

  function Height(b: Box): real { Clamp(b.y2 - b.y1) }

  lemma ProductOfNonNegatives(w: real, h: real)
    requires w >= 0.0 && h >= 0.0
    ensures w * h >= 0.0
    ensures w * h > 0.0 <==> w > 0.0 && h > 0.0
  {
    if w > 0.0 && h > 0.0 {
      assert w * h > 0.0;
    } else if w == 0.0 {
      assert w * h == 0.0;
    } else {
      assert h == 0.0;
      assert w * h == 0.0;
    }
  }

  lemma ProductMonotone(w1: real, h1: real, w2: real, h2: real)
    requires 0.0 <= w1 <= w2 && 0.0 <= h1 <= h2
    ensures w1 * h1 <= w2 * h2
  {
    assert w1 * h1 <= w2 * h1;
    assert w2 * h1 <= w2 * h2;
  }

  /** The clamped rectangle area max(0, x2-x1) * max(0, y2-y1). */
  function Area(b: Box): (r: real)
    ensures r >= 0.0
    ensures r > 0.0 <==> b.x1 < b.x2 && b.y1 < b.y2
  {
    ProductOfNonNegatives(Width(b), Height(b));
    Width(b) * Height(b)
  }

  /** The rectangle shared by two boxes (reversed when they do not meet). */
  function Overlap(a: Box, b: Box): Box
  {
    Box(Max(a.x1, b.x1), Max(a.y1, b.y1), Min(a.x2, b.x2), Min(a.y2, b.y2))
  }

  /** Two boxes share no area: their overlap is empty along some axis. */
  predicate Disjoint(a: Box, b: Box)
  {
    Min(a.x2, b.x2) <= Max(a.x1, b.x1) || Min(a.y2, b.y2) <= Max(a.y1, b.y1)
  }

  lemma OverlapWithin(a: Box, b: Box)
    ensures Area(Overlap(a, b)) <= Area(a)
  {
    var o := Overlap(a, b);
    assert Width(o) <= Width(a);
    assert Height(o) <= Height(a);
    ProductMonotone(Width(o), Height(o), Width(a), Height(a));
  }

  /** The intersection area never exceeds the area of either box, and is
      zero exactly when the boxes are disjoint. */
  function InterArea(a: Box, b: Box): (r: real)
    ensures 0.0 <= r <= Area(a) && r <= Area(b)
    ensures r == 0.0 <==> Disjoint(a, b)
  {
    OverlapWithin(a, b);
    OverlapWithin(b, a);
    assert Overlap(b, a) == Overlap(a, b);
    Area(Overlap(a, b))
  }

  lemma QuotientBelowOne(n: real, d: real)
    requires 0.0 <= n < d
    ensures 0.0 <= n / d < 1.0
    ensures n / d == 0.0 <==> n == 0.0
  {
    var q := n / d;
    assert q * d == n;
    assert (q - 1.0) * d == n - d < 0.0;
    if q >= 1.0 {
      ProductOfNonNegatives(q - 1.0, d);
    }
  }

  /** compute_iou: intersection over (union + Eps). The score lies in [0, 1)
      and is zero exactly when the boxes share no area. */
  function Iou(a: Box, b: Box): (r: real)
    ensures 0.0 <= r < 1.0
    ensures r == 0.0 <==> Disjoint(a, b)
  {
    var inter := InterArea(a, b);
    var union := Area(a) + Area(b) - inter + Eps;
    QuotientBelowOne(inter, union);
    inter / union
  }

  /** The score does not depend on the order of its arguments. */
  lemma IouSymmetric(a: Box, b: Box)
    ensures Iou(a, b) == Iou(b, a)
  {
    assert Overlap(a, b) == Overlap(b, a);
  }

  /** A non-degenerate box scores against itself within Eps / Area of 1. */
  lemma IouSelf(a: Box)
    requires Area(a) > 0.0
    ensures Iou(a, a) == Area(a) / (Area(a) + Eps)
    ensures 1.0 - Eps / Area(a) < Iou(a, a)
  {
    var s := Area(a);
    assert Overlap(a, a) == a;
    assert Iou(a, a) == s / (s + Eps);
    calc {
      1.0 - s / (s + Eps);
      (s + Eps) / (s + Eps) - s / (s + Eps);
      Eps / (s + Eps);
    <  { assert Eps * s < Eps * (s + Eps); }
      Eps / s;
    }
  }
}
