/**
 * The drawing surface and the clamp that keeps a node's circle on it
 * (`width`, `height`, `radius` and `boundingBox` in app.js).
 * JavaScript numbers are modelled as exact reals.
 */
module Bounds {
  const Width: real := 300.0
  const Height: real := 300.0
  const Radius: real := 30.0

  /** The `type` argument of `boundingBox`: 'x', or anything else, which is treated as 'y'. */
  datatype Axis = X | Y

  /** The dimension of the surface along an axis. */
  function Extent(axis: Axis): real {
    match axis
    case X => Width
    case Y => Height
  }

  function Min(a: real, b: real): real { if a <= b then a else b }
  function Max(a: real, b: real): real { if a >= b then a else b }

  /** `Math.max(lo, Math.min(hi, v))`: v restricted to [lo, hi] whenever that interval is not empty. */
  function Clamp(lo: real, hi: real, v: real): (r: real)
    ensures lo <= hi ==> lo <= r <= hi
    ensures lo <= v <= hi ==> r == v
    ensures v < lo ==> r == lo
    ensures lo <= hi && hi < v ==> r == hi
  {
    Max(lo, Min(hi, v))
  }

  /** Clamping twice is clamping once. */
  lemma ClampIdempotent(lo: real, hi: real, v: real)
    requires lo <= hi
    ensures Clamp(lo, hi, Clamp(lo, hi, v)) == Clamp(lo, hi, v)
  {
  }

  /** The clamped value is the point of [lo, hi] nearest to v. */
  lemma ClampIsNearest(lo: real, hi: real, v: real, c: real)
    requires lo <= c <= hi
    ensures var r := Clamp(lo, hi, v);
      (if r >= v then r - v else v - r) <= (if c >= v then c - v else v - c)
  {
  }

  /** `boundingBox(type, value)`: the coordinate kept at least one radius away from both edges of its axis. */
  function BoundingBox(axis: Axis, value: real): (r: real)
    ensures Radius <= r <= Extent(axis) - Radius
    ensures Radius <= value <= Extent(axis) - Radius ==> r == value
  {
    Clamp(Radius, Extent(axis) - Radius, value)
  }

  /** `boundingBox` is idempotent on both axes. */
  lemma BoundingBoxIdempotent(axis: Axis, value: real)
    ensures BoundingBox(axis, BoundingBox(axis, value)) == BoundingBox(axis, value)
  {
  }
}
