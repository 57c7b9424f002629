/** Screen rectangles and the hitbox shrinking of Npc.js's `isCollision`. */
module Geometry {
  import opened Optional

  datatype Point = Point(x: real, y: real)

  /** A bounding client rectangle: left/top corner and size. */
  datatype Rect = Rect(left: real, top: real, width: real, height: real) {
    function Right(): real { left + width }
    function Bottom(): real { top + height }
  }

  /** Hitbox percentages; either may be absent. */
  datatype Hitbox = Hitbox(widthPercentage: Option<real>, heightPercentage: Option<real>)

  const NoHitbox: Hitbox := Hitbox(None, None)

  /** `p || 0.0`: an absent percentage counts as zero. */
  function Pct(p: Option<real>): real {
    p.Or(0.0)
  }

  /** An edge-described box, after any shrinking. */
  datatype Box = Box(left: real, top: real, right: real, bottom: real)

  /** The collision box: left and right each move inward by `width * widthPercentage`,
      the top moves down by `height * heightPercentage`, the bottom stays put. */
  function Shrink(r: Rect, h: Hitbox): (b: Box)
    ensures b.bottom == r.Bottom()
    ensures b.left == r.left + r.width * Pct(h.widthPercentage)
    ensures b.top == r.top + r.height * Pct(h.heightPercentage)
    ensures b.left - r.left == r.Right() - b.right
  {
    var wr := r.width * Pct(h.widthPercentage);
    var hr := r.height * Pct(h.heightPercentage);
    Box(r.left + wr, r.top + hr, r.Right() - wr, r.Bottom())
  }

  /** The unshrunk box of a rectangle. */
  function Edges(r: Rect): Box {
    Box(r.left, r.top, r.Right(), r.Bottom())
  }

  /** Strict overlap on both axes: boxes that only share an edge do not overlap. */
  predicate Overlap(a: Box, b: Box) {
    a.left < b.right && a.right > b.left && a.top < b.bottom && a.bottom > b.top
  }

  lemma OverlapSymmetric(a: Box, b: Box)
    ensures Overlap(a, b) <==> Overlap(b, a)
  {
  }

  /** With no percentages the collision box is the rectangle itself. */
  lemma ShrinkWithoutHitbox(r: Rect)
    ensures Shrink(r, NoHitbox) == Edges(r)
    ensures Shrink(r, Hitbox(Some(0.0), Some(0.0))) == Edges(r)
  {
  }

  /** Percentages between 0 and one half keep the collision box inside the
      rectangle, with its bottom edge on the rectangle's bottom edge. */
  lemma ShrinkStaysInside(r: Rect, h: Hitbox)
    requires r.width >= 0.0 && r.height >= 0.0
    requires 0.0 <= Pct(h.widthPercentage) <= 0.5 && 0.0 <= Pct(h.heightPercentage) <= 1.0
    ensures var b := Shrink(r, h);
            r.left <= b.left <= b.right <= r.Right() && r.top <= b.top <= b.bottom == r.Bottom()
  {
    var p := Pct(h.widthPercentage);
    var q := Pct(h.heightPercentage);
    NonNegProduct(r.width, p);
    NonNegProduct(r.width, 0.5 - p);
    NonNegProduct(r.height, q);
    NonNegProduct(r.height, 1.0 - q);
    assert r.width * (0.5 - p) == r.width * 0.5 - r.width * p;
    assert r.height * (1.0 - q) == r.height - r.height * q;
  }

  lemma NonNegProduct(a: real, b: real)
    requires a >= 0.0 && b >= 0.0
    ensures a * b >= 0.0
  {
  }
}
