/** Plane vectors, the abstract maths library and the toroidal wrap. */
module Geometry {
  import opened Params

  datatype Vec = Vec(x: real, y: real) {
    function Plus(o: Vec): Vec { Vec(x + o.x, y + o.y) }
    function Minus(o: Vec): Vec { Vec(x - o.x, y - o.y) }
    function Times(k: real): Vec { Vec(x * k, y * k) }
    function Dot(o: Vec): real { x * o.x + y * o.y }
  }

  const Zero: Vec := Vec(0.0, 0.0)

  /** Squared Euclidean distance, as the source computes `dx*dx + dy*dy`. */
  function SqDist(a: Vec, b: Vec): real {
    (b.x - a.x) * (b.x - a.x) + (b.y - a.y) * (b.y - a.y)
  }

  /** `v` is `t` scaled by some non-negative factor. */
  ghost predicate NonNegMultiple(v: Vec, t: Vec) {
    exists k: real :: k >= 0.0 && v == t.Times(k)
  }

  /** `v` is `t` scaled by some non-positive factor. */
  ghost predicate NonPosMultiple(v: Vec, t: Vec) {
    exists k: real :: k <= 0.0 && v == t.Times(k)
  }

  /** The C maths functions the source calls. Their exact values are not
      modelled: the model only relies on `Bounded` below. */
  datatype Trig = Trig(cos: real -> real, sin: real -> real, sqrt: real -> real)

  ghost predicate Bounded(m: Trig) {
    forall a: real :: -1.0 <= m.cos(a) <= 1.0 && -1.0 <= m.sin(a) <= 1.0
  }

  /** The world interval [-1,1) of each coordinate. */
  predicate InDomain(v: real) {
    -1.0 <= v < 1.0
  }

  /** Toroidal wrap of one coordinate (main.cpp:370-373): first add 2 below
      -1, then subtract 2 at or above 1. The result is the input moved by a
      whole period, and it lands in the world exactly for inputs in [-3,3). */
  function Wrap(v: real): (w: real)
    ensures w == v || w == v + 2.0 || w == v - 2.0
    ensures InDomain(w) <==> -3.0 <= v < 3.0
    ensures InDomain(v) ==> w == v
  {
    var a := if v < -1.0 then v + 2.0 else v;
    if a >= 1.0 then a - 2.0 else a
  }

  /** A coordinate in the world, displaced by at most 2 in either direction,
      wraps back into the world. With `Speed` well below 2 this covers every
      translation of a tick (main.cpp:367-373). */
  lemma WrapAfterShift(v: real, d: real)
    requires InDomain(v) && -2.0 <= d <= 2.0
    ensures InDomain(Wrap(v + d))
  {
  }
}
