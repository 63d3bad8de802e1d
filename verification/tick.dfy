/** The whole simulation state and one tick of it (main.cpp:295-300 and
    main.cpp:304-383), without the drawing code. */
module Tick {
  import opened Params
  import opened Geometry
  import opened Grid
  import opened Darts
  import opened Motion
  import opened Steering
  import opened Checkpoints

  /** Dart store, grid and checkpoint registry. */
  datatype Sim = Sim(darts: seq<Dart>, grid: Grid, registry: Registry)

  /** A dart between ticks: inside the world, its cache naming the cell of its
      position, its heading within one turn. */
  ghost predicate DartOk(d: Dart) {
    && InDomain(d.x) && InDomain(d.y)
    && d.ingrid == CellOf(d.x, d.y)
    && 0.0 <= d.ang <= TwoPi
  }

  ghost predicate Valid(st: Sim) {
    && GridHolds(st.darts, st.grid)
    && forall i {:trigger DartOk(st.darts[i])} :: 0 <= i < |st.darts| ==> DartOk(st.darts[i])
  }

  /** The pointer read at the start of a tick, in world coordinates
      (main.cpp:305-311): where a click at the same pixel puts a checkpoint. */
  function Pointer(px: real, py: real): (p: Vec)
    ensures p == Vec(ClickX(px), ClickY(py))
  {
    ClickMatchesCursor(px, py);
    Vec(CursorX(px), CursorY(py))
  }

  /** Dart `j` of `after` is dart `j` of `before` moved once: turned by one
      step modulo a full turn into (0, 2π], then advanced along the new
      heading. */
  ghost predicate MovedOnce(before: Sim, after: Sim, j: int, m: Trig)
    requires 0 <= j < |before.darts| && 0 <= j < |after.darts|
  {
    var a, b := before.darts[j], after.darts[j];
    && 0.0 < b.ang <= TwoPi
    && TurnedBy(a.ang, b.ang, AngStep)
    && b.x == Wrap(a.x - m.cos(b.ang) * Speed)
    && b.y == Wrap(a.y - m.sin(b.ang) * Speed)
  }

  /** A steering rule: the desired vector of dart `i` in a state. */
  type Rule = (Sim, int) --> Vec

  /** The rule is defined for every dart of every valid state. */
  ghost predicate Steers(steer: Rule) {
    forall s: Sim, i: int :: Valid(s) && 0 <= i < |s.darts| ==> steer.requires(s, i)
  }

  /** The program's steering rule for a tick: the desired vector of
      main.cpp:315-359 against the pointer read at the start of the tick. */
  function ProgramRule(pointer: Vec, m: Trig): (steer: Rule)
    ensures Steers(steer)
  {
    (s: Sim, i: int) requires 0 <= i < |s.darts| && IndicesInRange(s.darts, s.grid) =>
      Want(s.darts, s.grid, s.registry.checkpoints, i, pointer, m)
  }

  /** The dart store after dart `i` has turned towards `want` and moved
      (main.cpp:361-373), before the grid resync: only dart `i` differs, its
      cache still names its old cell, so the grid invariant still holds. */
  function Moved(st: Sim, i: int, want: Vec, m: Trig): (moved: seq<Dart>)
    requires Valid(st) && Bounded(m) && 0 <= i < |st.darts|
    ensures |moved| == |st.darts| && GridHolds(moved, st.grid)
    ensures forall j :: 0 <= j < |st.darts| && j != i ==> moved[j] == st.darts[j]
    ensures moved[i].ingrid == st.darts[i].ingrid
    ensures InDomain(moved[i].x) && InDomain(moved[i].y)
    ensures 0.0 < moved[i].ang <= TwoPi && TurnedBy(st.darts[i].ang, moved[i].ang, AngStep)
    ensures moved[i].ang == Heading(st.darts[i].ang, want, m)
    ensures moved[i].Pos() == Advance(st.darts[i].Pos(), moved[i].ang, m)
  {
    var d := st.darts[i];
    assert DartOk(d);
    var ang := Heading(d.ang, want, m);
    var q := Advance(d.Pos(), ang, m);
    var moved := st.darts[i := Dart(q.x, q.y, ang, d.ingrid)];
    GridHoldsIgnoresPositions(st.darts, moved, st.grid);
    moved
  }

  /** A placement that keeps the grid invariant, changes only dart `i` and
      leaves that dart valid yields a valid state. */
  lemma PlacedValid(st: Sim, p: Placement, i: int)
    requires Valid(st) && 0 <= i < |st.darts|
    requires GridHolds(p.darts, p.grid) && |p.darts| == |st.darts|
    requires forall j :: 0 <= j < |st.darts| && j != i ==> p.darts[j] == st.darts[j]
    requires DartOk(p.darts[i])
    ensures Valid(Sim(p.darts, p.grid, st.registry))
  {
    forall j | 0 <= j < |p.darts|
      ensures DartOk(p.darts[j])
    {
      if j != i {
        assert p.darts[j] == st.darts[j];
      }
    }
  }

  /** The body of the tick loop for dart `i` given its desired vector
      (main.cpp:361-382): turn, translate, wrap and resync. Only dart `i`
      changes; it turns by one step towards `want`, modulo a full turn, moves
      by one translation along its new heading, and the state stays valid. */
  function StepWith(st: Sim, i: int, want: Vec, m: Trig): (r: Sim)
    requires Valid(st) && Bounded(m) && 0 <= i < |st.darts|
    ensures Valid(r)
    ensures |r.darts| == |st.darts| && r.registry == st.registry
    ensures forall j :: 0 <= j < |st.darts| && j != i ==> r.darts[j] == st.darts[j]
    ensures MovedOnce(st, r, i, m)
    ensures r.darts[i].ang == Heading(st.darts[i].ang, want, m)
  {
    var moved := Moved(st, i, want, m);
    ResyncKeepsGrid(moved, st.grid, i);
    var p := Resync(moved, st.grid, i).value;
    PlacedValid(st, p, i);
    Sim(p.darts, p.grid, st.registry)
  }

  /** The first `k` iterations of the tick loop, in index order: dart `k-1`
      steers against the state in which darts `0..k-2` have already moved
      (Gauss-Seidel order). The state stays valid, darts before `k` have moved
      exactly once and the others not at all. */
  function Sweep(st: Sim, steer: Rule, m: Trig, k: int): (r: Sim)
    requires Valid(st) && Bounded(m) && Steers(steer) && 0 <= k <= |st.darts|
    ensures Valid(r) && |r.darts| == |st.darts| && r.registry == st.registry
    ensures forall j :: k <= j < |st.darts| ==> r.darts[j] == st.darts[j]
    ensures forall j :: 0 <= j < k ==> MovedOnce(st, r, j, m)
  {
    if k == 0 then st
    else
      var prev := Sweep(st, steer, m, k - 1);
      var r := StepWith(prev, k - 1, steer(prev, k - 1), m);
      SweepStep(st, prev, r, k - 1, m);
      r
  }

  /** Moving dart `i` extends the set of darts moved once by `i`. */
  lemma SweepStep(st: Sim, prev: Sim, r: Sim, i: int, m: Trig)
    requires 0 <= i < |st.darts| && |prev.darts| == |st.darts| && |r.darts| == |st.darts|
    requires forall j :: i <= j < |st.darts| ==> prev.darts[j] == st.darts[j]
    requires forall j :: 0 <= j < i ==> MovedOnce(st, prev, j, m)
    requires forall j :: 0 <= j < |st.darts| && j != i ==> r.darts[j] == prev.darts[j]
    requires MovedOnce(prev, r, i, m)
    ensures forall j :: i + 1 <= j < |st.darts| ==> r.darts[j] == st.darts[j]
    ensures forall j :: 0 <= j < i + 1 ==> MovedOnce(st, r, j, m)
  {
    forall j | 0 <= j < i + 1
      ensures MovedOnce(st, r, j, m)
    {
      if j < i {
        assert r.darts[j] == prev.darts[j];
        assert MovedOnce(st, prev, j, m);
      } else {
        assert prev.darts[i] == st.darts[i];
        assert MovedOnce(prev, r, i, m);
      }
    }
  }

  /** In a tick, dart `k-1` turns towards the desired vector computed on the
      state in which darts `0..k-2` already sit at their new positions and
      headings, in their new cells (main.cpp:314-383 update the shared arrays
      in place). */
  lemma SweepSteersOnUpdatedState(st: Sim, pointer: Vec, m: Trig, k: int)
    requires Valid(st) && Bounded(m) && 0 < k <= |st.darts|
    ensures var steer := ProgramRule(pointer, m);
      var prev := Sweep(st, steer, m, k - 1);
      && IndicesInRange(prev.darts, prev.grid)
      && Sweep(st, steer, m, k).darts[k - 1].ang
         == Heading(st.darts[k - 1].ang, Want(prev.darts, prev.grid, prev.registry.checkpoints, k - 1, pointer, m), m)
  {
    var steer := ProgramRule(pointer, m);
    var prev := Sweep(st, steer, m, k - 1);
    assert prev.darts[k - 1] == st.darts[k - 1];
    assert Sweep(st, steer, m, k) == StepWith(prev, k - 1, steer(prev, k - 1), m);
  }

  /** An iteration of the tick loop leaves every earlier dart as it was. */
  lemma SweepLast(st: Sim, steer: Rule, m: Trig, j: int, k: int)
    requires Valid(st) && Bounded(m) && Steers(steer) && 0 <= j < k - 1 && k <= |st.darts|
    ensures Sweep(st, steer, m, k).darts[j] == Sweep(st, steer, m, k - 1).darts[j]
  {
    var prev := Sweep(st, steer, m, k - 1);
    assert Sweep(st, steer, m, k) == StepWith(prev, k - 1, steer(prev, k - 1), m);
  }

  /** Once its own iteration is done, a dart is not touched again: after any
      later number of iterations it is as iteration `j` left it. The step case
      is `SweepFrameUp`. */
  lemma {:induction false} SweepFrame(st: Sim, steer: Rule, m: Trig, j: int, k: int)
    requires Valid(st) && Bounded(m) && Steers(steer) && 0 <= j < k <= |st.darts|
    ensures Sweep(st, steer, m, k).darts[j] == Sweep(st, steer, m, j + 1).darts[j]
    decreases k, 1
  {
    if k != j + 1 {
      SweepFrameUp(st, steer, m, j, k);
    }
  }

  /** `SweepFrame` for an iteration count past `j + 1`. */
  lemma {:induction false} SweepFrameUp(st: Sim, steer: Rule, m: Trig, j: int, k: int)
    requires Valid(st) && Bounded(m) && Steers(steer) && 0 <= j < k - 1 && k <= |st.darts|
    ensures Sweep(st, steer, m, k).darts[j] == Sweep(st, steer, m, j + 1).darts[j]
    decreases k, 0
  {
    SweepFrame(st, steer, m, j, k - 1);
    SweepLast(st, steer, m, j, k);
  }

  /** After the whole tick (main.cpp:314-383), every dart `j` has turned the
      way the controller chose for it (main.cpp:361-366), against the desired
      vector computed on the state in which darts `0..j-1` had already moved. */
  lemma TickTurnsByRule(st: Sim, pointer: Vec, m: Trig, j: int)
    requires Valid(st) && Bounded(m) && 0 <= j < |st.darts|
    ensures var steer := ProgramRule(pointer, m);
      var prev := Sweep(st, steer, m, j);
      && IndicesInRange(prev.darts, prev.grid)
      && Sweep(st, steer, m, |st.darts|).darts[j].ang
         == Heading(st.darts[j].ang, Want(prev.darts, prev.grid, prev.registry.checkpoints, j, pointer, m), m)
  {
    SweepSteersOnUpdatedState(st, pointer, m, j + 1);
    SweepFrame(st, ProgramRule(pointer, m), m, j, |st.darts|);
  }

  /** A start-up coordinate as drawn (main.cpp:296): `rand()` is `n` in
      [0, RAND_MAX], scaled onto [-1, 1]. Both ends are reachable. The
      arithmetic is exact here; in single precision the top values of
      `rand()` below RAND_MAX round up to 1.0 as well. */
  function DrawnCoord(n: int, randMax: int): (v: real)
    requires 0 <= n <= randMax && 0 < randMax
    ensures -1.0 <= v <= 1.0
    ensures v == 1.0 <==> n == randMax
  {
    var u := n as real / randMax as real;
    assert 0.0 <= u <= 1.0 by {
      assert u * randMax as real == n as real;
    }
    assert u == 1.0 <==> n == randMax by {
      assert u * randMax as real == n as real;
    }
    u * 2.0 - 1.0
  }

  /** The largest draw is exactly 1.0, whose cell index is `sub`: the
      start-up loop then appends to a list one past the grid array. */
  lemma DrawnCoordCanLeaveGrid(randMax: int)
    requires 0 < randMax
    ensures CellIndex(DrawnCoord(randMax, randMax)) == Sub
    ensures !InGrid(CellOf(DrawnCoord(randMax, randMax), 0.0))
  {
    CellIndexAtOne();
  }

  /** The draw with the evident intent, `rand() / (RAND_MAX + 1.0) * 2 - 1`:
      in exact arithmetic every value lies in the world, so its cell is a
      valid grid cell. Stored as a `float` the top values still round to 1.0;
      `Grid.ClampedCellIndex` is the fix that also covers them. */
  function DrawnCoordInWorld(n: int, randMax: int): (v: real)
    requires 0 <= n <= randMax && 0 < randMax
    ensures InDomain(v) && 0 <= CellIndex(v) < Sub
  {
    var u := n as real / (randMax + 1) as real;
    assert 0.0 <= u < 1.0 by {
      assert u * (randMax + 1) as real == n as real;
    }
    u * 2.0 - 1.0
  }

  /** Initial values of one dart: the start-up loop draws them at random,
      each coordinate in [-1, 1] and the heading in [0, 2π]. */
  datatype Start = Start(x: real, y: real, ang: real)

  /** The start-up loop (main.cpp:295-300), given its drawn values: darts are
      appended in order and each index is appended to the list of its cell.
      A coordinate of exactly 1.0 maps to a cell one past the grid (see
      `CellIndexAtOne`); the loop fails at the first such dart. Otherwise the
      result is valid and holds the drawn darts in order. */
  method Populate(starts: seq<Start>) returns (r: Result)
    requires forall k :: 0 <= k < |starts| ==>
               -1.0 <= starts[k].x <= 1.0 && -1.0 <= starts[k].y <= 1.0 && 0.0 <= starts[k].ang <= TwoPi
    ensures r.Success? <==> forall k :: 0 <= k < |starts| ==> InGrid(CellOf(starts[k].x, starts[k].y))
    ensures r.Failure? ==>
      && r.error.OutsideGrid? && 0 <= r.error.dart < |starts|
      && r.error.cell == CellOf(starts[r.error.dart].x, starts[r.error.dart].y)
      && !InGrid(r.error.cell)
      && forall k :: 0 <= k < r.error.dart ==> InGrid(CellOf(starts[k].x, starts[k].y))
    ensures r.Success? ==>
      && Valid(Sim(r.value.darts, r.value.grid, Empty))
      && |r.value.darts| == |starts|
      && forall k :: 0 <= k < |starts| ==>
           r.value.darts[k] == Dart(starts[k].x, starts[k].y, starts[k].ang, CellOf(starts[k].x, starts[k].y))
  {
    var darts: seq<Dart> := [];
    var g: Grid := map[];
    var i := 0;
    while i < |starts|
      invariant 0 <= i <= |starts|
      invariant GridHolds(darts, g) && |darts| == i
      invariant forall k :: 0 <= k < i ==> InGrid(CellOf(starts[k].x, starts[k].y))
      invariant forall k :: 0 <= k < i ==>
                  darts[k] == Dart(starts[k].x, starts[k].y, starts[k].ang, CellOf(starts[k].x, starts[k].y))
    {
      var s := starts[i];
      var p := Spawn(darts, g, s.x, s.y, s.ang);
      if p.Failure? {
        return p;
      }
      darts, g := p.value.darts, p.value.grid;
      i := i + 1;
    }
    r := Success(Placement(darts, g));
    forall k | 0 <= k < |darts|
      ensures DartOk(darts[k])
    {
      CellInGridIsInDomain(starts[k].x, starts[k].y);
    }
  }
}
