/**
  Rectangle geometry of the R-tree (r_tree.c, get_area .. get_overlapping_area).
  Coordinates are mathematical integers; the double arithmetic of the C code,
  with its rounding, is not modelled.
 */
module Geometry {

  /** A minimum bounding rectangle with lower-left (minX, minY) and upper-right (maxX, maxY). */
  datatype Mbr = Mbr(minX: int, minY: int, maxX: int, maxY: int)

  /** The invariant a rectangle is meant to keep: min <= max on both axes. */
  predicate WellFormed(m: Mbr) {
    m.minX <= m.maxX && m.minY <= m.maxY
  }

  /** Every edge of `inner` lies within `outer`. */
  predicate Contains(outer: Mbr, inner: Mbr) {
    outer.minX <= inner.minX && outer.minY <= inner.minY &&
    inner.maxX <= outer.maxX && inner.maxY <= outer.maxY
  }

  /** The interiors of the two rectangles share a point (touching edges do not count). */
  predicate InteriorsMeet(a: Mbr, b: Mbr) {
    a.minX < a.maxX && b.minX < b.maxX && a.minX < b.maxX && b.minX < a.maxX &&
    a.minY < a.maxY && b.minY < b.maxY && a.minY < b.maxY && b.minY < a.maxY
  }

  /** fmin and fmax on integer operands. */
  function Min(a: int, b: int): int { if a <= b then a else b }
  function Max(a: int, b: int): int { if a <= b then b else a }

  /** For non-negative factors, a product grows with each factor. */
  lemma MulMono(a: int, b: int, c: int, d: int)
    requires 0 <= a <= c && 0 <= b <= d
    ensures a * b <= c * d
  {
    assert a * b <= c * b;
    assert c * b <= c * d;
  }

  /** get_area: width times height. */
  function Area(m: Mbr): (r: int)
    ensures WellFormed(m) ==> r >= 0
    ensures WellFormed(m) ==> (r == 0 <==> m.minX == m.maxX || m.minY == m.maxY)
  {
    var w, h := m.maxX - m.minX, m.maxY - m.minY;
    if WellFormed(m) then
      MulMono(0, 0, w, h);
      assert w > 0 && h > 0 ==> w * h > 0 by {
        if w > 0 && h > 0 { MulMono(1, 1, w, h); }
      }
      w * h
    else
      w * h
  }

  /**
    The rectangle that expand_mbr leaves behind: each edge of `mbr` moved
    outward, only as far as needed, to cover `child`.
   */
  function Expanded(mbr: Mbr, child: Mbr): (r: Mbr)
    ensures Contains(r, child) && Contains(r, mbr)
  {
    Mbr(if child.minX < mbr.minX then child.minX else mbr.minX,
        if child.minY < mbr.minY then child.minY else mbr.minY,
        if child.maxX > mbr.maxX then child.maxX else mbr.maxX,
        if child.maxY > mbr.maxY then child.maxY else mbr.maxY)
  }

  /** The expanded rectangle is the smallest holding both: any box holding both holds it. */
  lemma ExpandedSmallest(mbr: Mbr, child: Mbr, box: Mbr)
    requires Contains(box, mbr) && Contains(box, child)
    ensures Contains(box, Expanded(mbr, child))
  {
  }

  /** Expanding changes nothing exactly when the child is already contained. */
  lemma ExpandedUnchangedIffContained(mbr: Mbr, child: Mbr)
    ensures Expanded(mbr, child) == mbr <==> Contains(mbr, child)
  {
  }

  /** A second expansion with the same child changes nothing. */
  lemma ExpandedIdempotent(mbr: Mbr, child: Mbr)
    ensures Expanded(Expanded(mbr, child), child) == Expanded(mbr, child)
  {
    ExpandedUnchangedIffContained(Expanded(mbr, child), child);
  }

  /** Expanding keeps a rectangle well formed. */
  lemma ExpandedWellFormed(mbr: Mbr, child: Mbr)
    requires WellFormed(mbr)
    ensures WellFormed(Expanded(mbr, child))
  {
  }

  /** Containment is transitive. */
  lemma ContainsTransitive(a: Mbr, b: Mbr, c: Mbr)
    requires Contains(a, b) && Contains(b, c)
    ensures Contains(a, c)
  {
  }

  /** A well-formed rectangle inside another has no more area. */
  lemma ContainedAreaLe(outer: Mbr, inner: Mbr)
    requires WellFormed(inner) && Contains(outer, inner)
    ensures Area(inner) <= Area(outer)
  {
    MulMono(inner.maxX - inner.minX, inner.maxY - inner.minY, outer.maxX - outer.minX, outer.maxY - outer.minY);
  }

  /** get_merged_area: the area of the smallest rectangle holding both. */
  function MergedArea(mbr1: Mbr, mbr2: Mbr): (r: int)
    ensures r == Area(Expanded(mbr1, mbr2))
    ensures WellFormed(mbr1) && WellFormed(mbr2) ==> r >= Area(mbr1) && r >= Area(mbr2)
  {
    var newWidth := Max(mbr1.maxX, mbr2.maxX) - Min(mbr1.minX, mbr2.minX);
    var newHeight := Max(mbr1.maxY, mbr2.maxY) - Min(mbr1.minY, mbr2.minY);
    if WellFormed(mbr1) && WellFormed(mbr2) then
      ContainedAreaLe(Expanded(mbr1, mbr2), mbr1);
      ContainedAreaLe(Expanded(mbr1, mbr2), mbr2);
      newWidth * newHeight
    else
      newWidth * newHeight
  }

  /** An area increase; Infinite stands for the DBL_MAX sentinel of get_area_increase. */
  datatype Increase = Finite(v: int) | Infinite

  /** The strict `<` the C code applies to area increases; DBL_MAX is never below itself. */
  predicate Less(a: Increase, b: Increase) {
    match (a, b)
    case (Finite(x), Finite(y)) => x < y
    case (Finite(_), Infinite) => true
    case (Infinite, _) => false
  }

  /** `Less` is a strict total order on increases. */
  lemma LessIsStrictTotalOrder(a: Increase, b: Increase, c: Increase)
    ensures !Less(a, a)
    ensures Less(a, b) && Less(b, c) ==> Less(a, c)
    ensures a != b ==> Less(a, b) || Less(b, a)
    ensures !(Less(a, b) && Less(b, a))
  {
  }

  /**
    get_area_increase: how much the area of `original` would grow if it were
    expanded to hold `newChild`; the sentinel whenever `original` has no area.
   */
  function AreaIncrease(original: Mbr, newChild: Mbr): (r: Increase)
    ensures r == Infinite <==> Area(original) == 0
    ensures r.Finite? ==> r.v == MergedArea(original, newChild) - Area(original)
    ensures r.Finite? && WellFormed(original) && WellFormed(newChild) ==> r.v >= 0
    ensures r.Finite? && Contains(original, newChild) ==> r.v == 0
  {
    var originalArea := Area(original);
    if originalArea == 0 then
      Infinite
    else
      var newWidth := Max(original.maxX, newChild.maxX) - Min(original.minX, newChild.minX);
      var newHeight := Max(original.maxY, newChild.maxY) - Min(original.minY, newChild.minY);
      assert Contains(original, newChild) ==> Expanded(original, newChild) == original;
      Finite(newWidth * newHeight - originalArea)
  }

  /**
    get_overlapping_area: the area the two rectangles share; 0 when they are
    apart or only touch along an edge.
   */
  function OverlapArea(mbr1: Mbr, mbr2: Mbr): (r: int)
    ensures r >= 0
    ensures r > 0 <==> InteriorsMeet(mbr1, mbr2)
    ensures WellFormed(mbr2) && Contains(mbr1, mbr2) ==> r == Area(mbr2)
  {
    var xDistance := Min(mbr1.maxX, mbr2.maxX) - Max(mbr1.minX, mbr2.minX);
    var yDistance := Min(mbr1.maxY, mbr2.maxY) - Max(mbr1.minY, mbr2.minY);
    if xDistance <= 0 || yDistance <= 0 then
      assert WellFormed(mbr2) && Contains(mbr1, mbr2) ==> Area(mbr2) == 0;
      0
    else
      MulMono(1, 1, xDistance, yDistance);
      xDistance * yDistance
  }

  /** The overlap does not depend on the order of the arguments. */
  lemma OverlapSymmetric(mbr1: Mbr, mbr2: Mbr)
    ensures OverlapArea(mbr1, mbr2) == OverlapArea(mbr2, mbr1)
  {
  }

  /** An MBR object whose four coordinates expand_mbr updates in place. */
  class Rect {
    var minX: int
    var minY: int
    var maxX: int
    var maxY: int

    /** The rectangle currently stored in the object. */
    function Value(): Mbr
      reads this
    {
      Mbr(minX, minY, maxX, maxY)
    }

    /** create_mbr: a rectangle with the given corners. */
    constructor (minX: int, minY: int, maxX: int, maxY: int)
      ensures Value() == Mbr(minX, minY, maxX, maxY)
    {
      this.minX, this.minY, this.maxX, this.maxY := minX, minY, maxX, maxY;
    }

    /** expand_mbr: move each edge outward where `child` sticks out. */
    method ExpandMbr(child: Mbr)
      modifies this
      ensures Value() == Expanded(old(Value()), child)
      ensures Contains(Value(), child) && Contains(Value(), old(Value()))
      ensures Contains(old(Value()), child) ==> Value() == old(Value())
    {
      if child.minX < minX {
        minX := child.minX;
      }
      if child.minY < minY {
        minY := child.minY;
      }
      if child.maxX > maxX {
        maxX := child.maxX;
      }
      if child.maxY > maxY {
        maxY := child.maxY;
      }
    }
  }
}
