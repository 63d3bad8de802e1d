/** Fixed configuration of the simulation (main.cpp:97-105 and the PI macro
    at main.cpp:256). The source stores them as `float`; here they are exact
    reals, so float rounding of these constants is not modelled. */
module Params {

  /** Linear distance a dart travels per tick, and its fixed turning step. */
  const Speed: real := 0.02
  const AngStep: real := 0.05

  /** Window side in pixels; pointer positions arrive in this pixel space. */
  const WindowSize: int := 640

  /** Number of grid subdivisions per axis, and the side of one cell in
      world units (the world is [-1,1) on each axis, so 2 units wide). */
  const Sub: int := 50
  const Sgr: real := 2.0 / 50.0

  /** Neighbour radius and the smaller flee radius. */
  const R: real := 0.1
  const FleeR: real := 0.05

  /** Coefficients of the four steering contributions. */
  const OtherCoef: real := 0.1
  const CursorCoef: real := 0.0
  const FleeCoef: real := 0.2
  const CheckpointCoef: real := 0.3

  /** The PI macro and the full turn built from it. */
  const Pi: real := 3.1415926
  const TwoPi: real := 2.0 * Pi

  /** Floor applied to every distance before it is used as a divisor. */
  const MinDist: real := 0.001
}
