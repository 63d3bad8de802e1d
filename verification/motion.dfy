/** Per-dart motion of one tick (main.cpp:361-373): the bang-bang turn, the
    heading normalisation and the wrapped translation. */
module Motion {
  import opened Params
  import opened Geometry

  /** The dart's lateral axis `posa` (main.cpp:361). */
  function Perp(ang: real, m: Trig): Vec {
    Vec(-m.sin(Pi + ang), m.cos(Pi + ang))
  }

  /** The bang-bang controller (main.cpp:362-364): a fixed step whose sign is
      that of the desired vector's component along the lateral axis. A zero
      component, in particular a zero desired vector, turns negatively. */
  function TurnStep(want: Vec, perp: Vec): (s: real)
    ensures s == AngStep || s == -AngStep
    ensures s > 0.0 <==> want.Dot(perp) > 0.0
  {
    if want.Dot(perp) > 0.0 then AngStep else -AngStep
  }

  /** Only the direction of the desired vector matters: scaling it by any
      positive factor leaves the turn unchanged. */
  lemma TurnIgnoresMagnitude(want: Vec, perp: Vec, k: real)
    requires k > 0.0
    ensures TurnStep(want.Times(k), perp) == TurnStep(want, perp)
  {
    var d := want.Dot(perp);
    assert want.Times(k).Dot(perp) == k * d;
    if d > 0.0 {
      assert k * d > 0.0;
    } else {
      assert k * d <= 0.0 by {
        assert k * (-d) >= 0.0;
      }
    }
  }

  /** Heading normalisation (main.cpp:365-366): subtract a full turn above 2π,
      then add one at or below 0. The result differs from the input by at most
      one full turn, and lies in (0, 2π] exactly for inputs in (-2π, 4π]. */
  function Normalize(a: real): (r: real)
    ensures r == a || r == a - TwoPi || r == a + TwoPi
    ensures 0.0 < r <= TwoPi <==> -TwoPi < a <= 2.0 * TwoPi
  {
    var b := if a > TwoPi then a - TwoPi else a;
    if b <= 0.0 then b + TwoPi else b
  }

  /** `h2` is `h` turned by `±step` modulo a full turn. */
  predicate TurnedBy(h: real, h2: real, step: real) {
    || h2 == h + step || h2 == h + step - TwoPi || h2 == h + step + TwoPi
    || h2 == h - step || h2 == h - step - TwoPi || h2 == h - step + TwoPi
  }

  /** For any step strictly between 0 and 2π, a heading in [0, 2π] turned
      either way and normalised lands in (0, 2π] and equals the turned heading
      modulo 2π. */
  lemma NormalizeAfterTurn(h: real, step: real)
    requires 0.0 < step < TwoPi
    ensures 0.0 <= h <= TwoPi ==>
      && 0.0 < Normalize(h + step) <= TwoPi && TurnedBy(h, Normalize(h + step), step)
      && 0.0 < Normalize(h - step) <= TwoPi && TurnedBy(h, Normalize(h - step), step)
  {
    var up, down := Normalize(h + step), Normalize(h - step);
    assert up == h + step || up == h + step - TwoPi || up == h + step + TwoPi;
    assert down == h - step || down == h - step - TwoPi || down == h - step + TwoPi;
  }

  /** The new heading of a dart: turn by the controller, then normalise. */
  function Heading(ang: real, want: Vec, m: Trig): (a: real)
    ensures 0.0 <= ang <= TwoPi ==> 0.0 < a <= TwoPi && TurnedBy(ang, a, AngStep)
    ensures want.Dot(Perp(ang, m)) > 0.0 ==> Normalize(ang + AngStep) == a
    ensures want.Dot(Perp(ang, m)) <= 0.0 ==> Normalize(ang - AngStep) == a
  {
    NormalizeAfterTurn(ang, AngStep);
    Normalize(ang + TurnStep(want, Perp(ang, m)))
  }

  /** Translation opposite to the heading, then the wrap (main.cpp:367-373).
      With bounded cos and sin, a position in the world stays in the world,
      and each coordinate moves by exactly `Speed` times the heading component,
      up to a whole period. */
  function Advance(p: Vec, ang: real, m: Trig): (q: Vec)
    requires Bounded(m)
    ensures InDomain(p.x) && InDomain(p.y) ==> InDomain(q.x) && InDomain(q.y)
    ensures q.x == Wrap(p.x - m.cos(ang) * Speed)
    ensures q.y == Wrap(p.y - m.sin(ang) * Speed)
  {
    assert -1.0 <= m.cos(ang) <= 1.0 && -1.0 <= m.sin(ang) <= 1.0;
    Vec(Wrap(p.x - m.cos(ang) * Speed), Wrap(p.y - m.sin(ang) * Speed))
  }
}
