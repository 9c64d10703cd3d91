/**
 The axis-aligned region of interest of src/ofApp.cpp: one closed interval
 per axis, held in the file-scope constants `xLimits`, `yLimits` and
 `zLimits`, and the test `isWithinBounds` that checks each coordinate
 against its own axis.
 */
module Bounds {

  /** A `glm::vec2` used as an interval: `.x` is the lower and `.y` the upper end. */
  datatype Limits = Limits(lo: real, hi: real)

  /** Closed-interval membership, both ends included. */
  predicate Contains(l: Limits, v: real)
  {
    l.lo <= v <= l.hi
  }

  const XLimits := Limits(-0.75, 0.75)

  const ZLimits := Limits(0.0, 2.25)

  /**
   The vec2 holds floats, so the literal -0.9 is stored as the nearest
   binary32 value, -15099494 / 2^24 = -0.89999997615814208984375.
   0.75, 2.25 and 0 are exact.
   */
  const YLimits := Limits(-0.89999997615814208984375, 0.75)

  /**
   `isWithinBounds`: each axis is rejected on a strict comparison against
   its own limits, x first, then y, then z. The result holds exactly when
   every coordinate lies in its closed interval.
   */
  function WithinBounds(x: real, y: real, z: real): (r: bool)
    ensures r <==> Contains(XLimits, x) && Contains(YLimits, y) && Contains(ZLimits, z)
  {
    if x < XLimits.lo || x > XLimits.hi then
      false
    else if y < YLimits.lo || y > YLimits.hi then
      false
    else if z < ZLimits.lo || z > ZLimits.hi then
      false
    else
      true
  }

  /** Both ends of every interval are inside the region. */
  lemma EndpointsIncluded()
    ensures WithinBounds(XLimits.lo, YLimits.lo, ZLimits.lo)
    ensures WithinBounds(XLimits.hi, YLimits.hi, ZLimits.hi)
    ensures WithinBounds(XLimits.lo, YLimits.hi, ZLimits.lo)
    ensures WithinBounds(XLimits.hi, YLimits.lo, ZLimits.hi)
  {
  }

  /** Failing one axis rejects the point, whatever the other two coordinates are. */
  lemma AnyAxisRejects(x: real, y: real, z: real)
    ensures !Contains(XLimits, x) ==> !WithinBounds(x, y, z)
    ensures !Contains(YLimits, y) ==> !WithinBounds(x, y, z)
    ensures !Contains(ZLimits, z) ==> !WithinBounds(x, y, z)
  {
  }

  /**
   The y coordinate is checked against `yLimits`, not against `zLimits`
   (declared just before it): 1.0 lies in the z interval but is rejected as
   a y, and -0.5 lies outside the z interval but is accepted as a y.
   */
  lemma YCheckedAgainstYLimits()
    ensures Contains(ZLimits, 1.0) && !WithinBounds(0.0, 1.0, 1.0)
    ensures !Contains(ZLimits, -0.5) && WithinBounds(0.0, -0.5, 1.0)
  {
  }

  /**
   The stored lower y limit is the float -15099494 / 2^24, the one nearest
   -0.9. A y at that value is accepted; the next float below it,
   -15099495 / 2^24, is rejected.
   */
  lemma YLowerLimitIsFloat()
    ensures YLimits.lo == -15099494.0 / 16777216.0
    ensures WithinBounds(0.0, YLimits.lo, 1.0)
    ensures !WithinBounds(0.0, -15099495.0 / 16777216.0, 1.0)
  {
  }
}
