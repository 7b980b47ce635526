/**
  Intersection over union of two integer boxes, the overlap measure the
  suppression step compares against its threshold.
*/
module Iou {
  import opened Detections

  function Max(a: int, b: int): int { if a >= b then a else b }
  function Min(a: int, b: int): int { if a <= b then a else b }

  /** x1 <= x2 and y1 <= y2: the boxes the decoder produces from non-negative sizes. */
  predicate WellFormed(b: Box)
  {
    b.x1 <= b.x2 && b.y1 <= b.y2
  }

  /** Signed area (x2 - x1) * (y2 - y1); the source does not clamp it. */
  function Area(b: Box): int
  {
    (b.x2 - b.x1) * (b.y2 - b.y1)
  }

  /** Width and height of the overlap, each clamped at zero. */
  function IntersectionWidth(b1: Box, b2: Box): (r: nat)
  {
    Max(0, Min(b1.x2, b2.x2) - Max(b1.x1, b2.x1))
  }

  function IntersectionHeight(b1: Box, b2: Box): (r: nat)
  {
    Max(0, Min(b1.y2, b2.y2) - Max(b1.y1, b2.y1))
  }

  function IntersectionArea(b1: Box, b2: Box): (r: nat)
  {
    IntersectionWidth(b1, b2) * IntersectionHeight(b1, b2)
  }

  function UnionArea(b1: Box, b2: Box): int
  {
    Area(b1) + Area(b2) - IntersectionArea(b1, b2)
  }

  /** `calculate_iou`: 0.0 when the union area is zero, otherwise intersection / union. */
  function CalculateIou(b1: Box, b2: Box): real
  {
    var union := UnionArea(b1, b2);
    if union == 0 then 0.0 else IntersectionArea(b1, b2) as real / union as real
  }

  /** IoU does not depend on the order of its arguments. */
  lemma IouSymmetric(b1: Box, b2: Box)
    ensures CalculateIou(b1, b2) == CalculateIou(b2, b1)
  {
  }

  /** A well-formed box with positive area overlaps itself completely. */
  lemma IouSelf(b: Box)
    requires WellFormed(b) && Area(b) > 0
    ensures CalculateIou(b, b) == 1.0
  {
    assert IntersectionArea(b, b) == Area(b);
    assert UnionArea(b, b) == Area(b);
    DivSelf(Area(b) as real);
  }

  lemma DivSelf(a: real)
    requires a != 0.0
    ensures a / a == 1.0
  {
  }

  /**
    The area is signed, so a box inverted on both axes has positive area and
    yet IoU 0 with itself: the self-overlap above needs a well-formed box.
  */
  lemma IouSelfInverted()
    ensures var b := Box(10, 10, 0, 0); Area(b) > 0 && CalculateIou(b, b) == 0.0
  {
  }

  /** Boxes separated along either axis (touching edges included) have IoU 0. */
  lemma IouDisjoint(b1: Box, b2: Box)
    requires b1.x2 <= b2.x1 || b2.x2 <= b1.x1 || b1.y2 <= b2.y1 || b2.y2 <= b1.y1
    ensures CalculateIou(b1, b2) == 0.0
  {
  }

  /** The overlap never exceeds the area of a well-formed box. */
  lemma {:induction false} IntersectionWithin(b1: Box, b2: Box)
    requires WellFormed(b1)
    ensures IntersectionArea(b1, b2) <= Area(b1)
  {
    var iw, ih := IntersectionWidth(b1, b2), IntersectionHeight(b1, b2);
    var w, h := b1.x2 - b1.x1, b1.y2 - b1.y1;
    assert iw <= w && ih <= h;
    MulMonotone(iw, ih, w, h);
  }

  lemma MulMonotone(a: nat, b: nat, c: nat, d: nat)
    requires a <= c && b <= d
    ensures a * b <= c * d
  {
    assert a * b <= c * b;
    assert c * b <= c * d;
  }

  /**
    IoU is a ratio in [0, 1] for every pair of boxes, inverted ones included:
    a positive overlap forces both boxes to be well-formed, and without
    overlap the ratio is 0.
  */
  lemma IouBounds(b1: Box, b2: Box)
    ensures 0.0 <= CalculateIou(b1, b2) <= 1.0
  {
    if IntersectionArea(b1, b2) > 0 {
      assert IntersectionWidth(b1, b2) > 0 && IntersectionHeight(b1, b2) > 0;
      assert WellFormed(b1) && WellFormed(b2);
      IntersectionWithin(b1, b2);
      IntersectionWithin(b2, b1);
      assert IntersectionArea(b1, b2) == IntersectionArea(b2, b1);
      var i, u := IntersectionArea(b1, b2), UnionArea(b1, b2);
      assert 0 <= i <= u;
      if u != 0 {
        RatioAtMostOne(i as real, u as real);
      }
    }
  }

  lemma RatioAtMostOne(i: real, u: real)
    requires 0.0 <= i <= u && u > 0.0
    ensures 0.0 <= i / u <= 1.0
  {
  }

  /** For well-formed boxes the zero-union guard fires exactly when both areas are zero. */
  lemma UnionZeroIff(b1: Box, b2: Box)
    requires WellFormed(b1) && WellFormed(b2)
    ensures UnionArea(b1, b2) == 0 <==> Area(b1) == 0 && Area(b2) == 0
  {
    IntersectionWithin(b1, b2);
    IntersectionWithin(b2, b1);
    assert IntersectionArea(b1, b2) == IntersectionArea(b2, b1);
    MulMonotone(0, 0, b1.x2 - b1.x1, b1.y2 - b1.y1);
    MulMonotone(0, 0, b2.x2 - b2.x1, b2.y2 - b2.y1);
  }
}
