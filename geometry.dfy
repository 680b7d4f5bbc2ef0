/** Plane points and the small numeric helpers of the animation script. */
module Geometry {

  /** A point of the viewport; grid points never change once produced. */
  datatype Point = Point(x: real, y: real)

  function Abs(v: real): (r: real)
    ensures r >= 0.0 && (r == v || r == -v)
  {
    if v < 0.0 then -v else v
  }

  /** `isClose`: the two values differ by strictly less than `diff`. */
  function IsClose(a: real, b: real, diff: real): (c: bool)
    ensures c <==> (a - b < diff && b - a < diff)
    ensures diff <= 0.0 ==> !c
    ensures c == IsCloseSpec(b, a, diff)
  {
    Abs(a - b) < diff
  }

  /** Reference reading of closeness: `b` lies in the open interval of radius `diff` around `a`. */
  ghost predicate IsCloseSpec(a: real, b: real, diff: real)
  {
    a - diff < b < a + diff
  }
}
