# Darts: a verified model of the simulation core

Darts is a small OpenGL flocking toy: a hundred darts fly around a square
world `[-1, 1)²` that wraps at its edges. Each tick, every dart adds up a
desired direction. The sum has three parts: a pull toward the mouse pointer
(its weight `cursor_coef` is 0 in the shipped constants, main.cpp:105, so
this term is always zero), a pull or push from every checkpoint the user has
clicked, and, from
neighbours found through a uniform 50×50 grid, either a push away (flee) or
a pull toward their heading turned by π (alignment). The dart then turns a
fixed step left or right toward that direction, moves forward a fixed
distance and re-files itself in the grid.

This project models that core in Dafny and proves properties of it:

- `params.dfy`: the compile-time constants.
- `geometry.dfy`: vectors, the world domain and the edge wrap. `cos`, `sin`
  and `sqrt` are passed in a `Trig` record; `Bounded` states `|cos|, |sin| <= 1`.
- `grid.dfy`: `gcoords` as truncation toward zero, cells, and the per-cell
  index lists with `std::find` and `list::erase`.
- `darts.dfy`: the dart store, the grid invariant (each dart is filed exactly
  once, in the list of its cached cell), the resync after a move and the
  start-up insertion.
- `motion.dfy`: the bang-bang turn, the heading normalisation into (0, 2π],
  and the translation with wrap.
- `checkpoints.dfy`: the mouse-button handler, the checkpoint registry and
  its two counters, and the pixel-to-world conversions.
- `steering.dfy`: the force terms with the 0.001 distance floor, the
  neighbour scan (bounding box, corner pruning, own cell always read, self
  skipped) and the flee-before-alignment rule.
- `tick.dfy`: one tick. Darts are updated in place in index order
  (Gauss–Seidel), the grid invariant is kept, and every dart turns and moves
  exactly once. It also has the start-up loop.

The tick loop is `Tick.Sweep`, defined by recursion on the number of darts
already visited. `Sweep` takes the steering rule as a parameter;
the program's rule is `Tick.ProgramRule`, which is `Steering.Want` against
the pointer read at the start of the tick. `Tick.SweepSteersOnUpdatedState`
states the in-place order: dart `k` steers against the state in which darts
`0..k-1` have already moved and been re-filed. `Tick.SweepFrame` shows that
later iterations never touch a dart again, and `Tick.TickTurnsByRule`
combines the two into a statement about the state at the end of the tick.

The neighbour scan loops over a box around the dart's cell `c`. Its bounds
`c - r/sgr` (converted to int) and `c + 1 + r/sgr` give rows and columns
`c-3 .. c+3` within the grid, and that box holds the cell of every dart within `r`
(`Steering.ScanBoxHas`, `Steering.ScanBoxHoldsNeighbours`). The scan can
still miss such a dart, because each box cell is pruned by the distance to
one of its corners, not to its nearest point.
`Steering.CornerPruningMissesNeighbour` gives a concrete miss, so the model
does not claim that every neighbour within `r` is found.

## Model

| member | source | states |
|---|---|---|
| Geometry.Wrap | main.cpp:370-373 | the wrapped coordinate differs from the input by 0 or ±2; it lies in [-1, 1) exactly when the input lies in [-3, 3); a coordinate already in the world is unchanged |
| Geometry.WrapAfterShift | main.cpp:367-373 | a coordinate in the world moved by at most 2 wraps back into the world |
| Grid.Trunc | main.cpp:110 | the float-to-int conversion truncates toward zero: the result is the integer within 1 of the input on the side of zero |
| Grid.CellIndex | main.cpp:109-111 | for a coordinate in the world the index is a valid row and the coordinate lies in that cell's half-open interval |
| Grid.CellOf | main.cpp:109-111 | a position in the world maps to a cell of the grid |
| Grid.CellIndexExact | main.cpp:109-111 | the cell intervals tile the world: a coordinate maps to index `c` if and only if it lies in `c`'s interval |
| Grid.CellIndexAtOne | main.cpp:296-299 | a coordinate of exactly 1.0 maps to index `sub`, so the cell is outside the grid |
| Grid.CellIndexOfDrawn | main.cpp:296-299 | for a coordinate in [-1, 1] the index lies in [0, sub], and it is `sub` if and only if the coordinate is 1.0 |
| Grid.ClampedCellIndex | main.cpp:109-111 | `gcoords` with the index clamped to `sub-1` gives a valid row for every coordinate in [-1, 1], 1.0 included, and agrees with `gcoords` everywhere inside the world |
| Grid.CellInGridIsInDomain | main.cpp:296-299 | a drawn position lands in a grid cell if and only if both coordinates are below 1 |
| Grid.Find | main.cpp:377 | `std::find` gives nothing exactly when the value is absent; otherwise it gives the first position holding the value |
| Grid.EraseAt | main.cpp:379 | `list::erase` removes exactly the element at the position: one shorter, and the same multiset less that element |
| Darts.OnlyInCachedCell | main.cpp:375-382 | under the grid invariant a dart's index occurs in no list other than its cached cell's |
| Darts.ExactlyOneCell | main.cpp:375-382 | under the grid invariant a dart's index occurs once in its cached cell's list and zero times in every other list |
| Darts.GridHoldsIgnoresPositions | main.cpp:367-373 | moving darts without touching their cached cells keeps the grid invariant |
| Darts.Resync | main.cpp:375-382 | no contract of its own; see `Darts.ResyncKeepsGrid` and `Darts.ResyncMoves` |
| Darts.ResyncKeepsGrid | main.cpp:375-382 | given the invariant and a new position in the world, the `find` succeeds (the assertion holds) and the invariant holds afterwards; the cache names the new position's cell; only dart `i` changes; an unchanged cell changes nothing; and lists other than the old and new cells' are untouched |
| Darts.ResyncMoves | main.cpp:376-381 | when the cell changes, the resync removes the index from the old cell's list (as a multiset), appends it to the new one and updates the cache |
| Darts.MoveKeepsStoredIndices | main.cpp:379-381 | after such a move every stored index still names a dart whose cache is that cell |
| Darts.MoveKeepsSingleEntry | main.cpp:379-381 | after such a move every dart is still filed exactly once in its cached cell's list |
| Darts.AppendKeepsGrid | main.cpp:298-299 | appending a new dart and filing its index in its own cell keeps the invariant |
| Darts.Spawn | main.cpp:296-299 | one start-up iteration fails exactly when the cell is outside the grid; otherwise it appends the dart with its cell cached, adds its index to that cell's list alone, and keeps the invariant |
| Motion.Perp | main.cpp:361 | no contract of its own: the lateral axis `posa`, whose use `Motion.TurnStep` states |
| Motion.TurnStep | main.cpp:361-364 | the turn is ±angstep, and positive if and only if the desired vector has a positive component along the lateral axis; a zero component turns negatively |
| Motion.TurnIgnoresMagnitude | main.cpp:362-364 | scaling the desired vector by a positive factor leaves the turn unchanged |
| Motion.Normalize | main.cpp:365-366 | the result differs from the input by 0 or ±2π, and lies in (0, 2π] if and only if the input lies in (-2π, 4π] |
| Motion.NormalizeAfterTurn | main.cpp:363-366 | a heading in [0, 2π] turned by any step in (0, 2π), either way, normalises into (0, 2π] and equals the turned heading modulo 2π |
| Motion.Heading | main.cpp:361-366 | the new heading is the old one turned toward the desired vector by one step and normalised; from [0, 2π] it lands in (0, 2π] |
| Motion.Advance | main.cpp:367-373 | with bounded cos and sin a position in the world stays in the world; each coordinate moves by speed times the heading component, then wraps |
| Checkpoints.ClickX | main.cpp:132 | the click conversion inverts to the pixel, and maps the window's [0, 640] onto [-1, 1] |
| Checkpoints.ClickY | main.cpp:133 | likewise, with the y axis flipped |
| Checkpoints.CursorX | main.cpp:307-308 | the per-tick pointer conversion inverts to the pixel, and maps the window's [0, 640] onto [-1, 1] |
| Checkpoints.CursorY | main.cpp:309-311 | likewise, with the y axis flipped |
| Checkpoints.ClickMatchesCursor | main.cpp:307-311 | the pointer conversion of each tick equals the click conversion, so a checkpoint sits where the pointer was seen |
| Checkpoints.CountPositive | main.cpp:201-212 | the number of green checkpoints is at most the number of checkpoints, and zero if and only if no checkpoint has a positive coefficient |
| Checkpoints.CountNonPositive | main.cpp:201-212 | the green and red counts add up to the number of checkpoints |
| Checkpoints.CountsAppend | main.cpp:201-212 | both counts add up over a concatenation, so appending checkpoints adds exactly their own green and red counts |
| Checkpoints.OnButton | main.cpp:127-141 | a release changes nothing; a press appends one checkpoint at the pointer with coefficient ±checkpoint_coef, positive exactly for the left button; the left button bumps `positives` and the right bumps `negatives` |
| Checkpoints.OnButtonKeepsCounts | main.cpp:134-139 | left presses, right presses and releases keep both counters equal to the green and red counts |
| Checkpoints.OtherButtonBreaksCounts | main.cpp:134-139 | a press of any other button leaves `negatives` one below the red count |
| Checkpoints.OnButtonCounted | main.cpp:134-139 | the corrected handler appends the same checkpoints, bumps exactly one counter per press, and keeps the counters right |
| Checkpoints.Replay | main.cpp:127-141 | any sequence of events handled by the corrected handler, starting from the empty registry, leaves the counters right |
| Steering.FloorDist | main.cpp:317 | `max(l, 0.001)` is at least 0.001 and at least `l`, and equals one of them |
| Steering.InverseGain | main.cpp:318-319 | `coef / max(l, 0.001)` has the sign of `coef` and magnitude at most `|coef| / 0.001` |
| Steering.InverseSquareGain | main.cpp:325-326 | `coef / l / l`, with `l` floored, has the sign of `coef` and magnitude at most `|coef| / 0.001²` |
| Steering.CursorTerm | main.cpp:315-319 | the cursor term is a non-negative multiple of the vector toward the pointer, and zero for the configured zero coefficient |
| Steering.CheckpointTerm | main.cpp:322-326 | an attracting checkpoint adds a non-negative multiple of the vector toward it, and a repelling one a non-positive multiple |
| Steering.CheckpointSum | main.cpp:321-327 | no contract of its own; each term's direction is stated by `Steering.CheckpointTerm` |
| Steering.Span | main.cpp:330 | no contract of its own; see `Steering.SpanHas` |
| Steering.SpanHas | main.cpp:330 | a `for (y = lo; y < bound; ++y)` loop visits `lo, lo+1, …`, and holds exactly the integers from `lo` below `bound` |
| Steering.Box | main.cpp:330-331 | no contract of its own; see `Steering.BoxHas` |
| Steering.BoxHas | main.cpp:330-331 | the double loop reaches exactly the cells whose row and column are in the two ranges |
| Steering.AxisSpan | main.cpp:330-331 | no contract of its own; see `Steering.ScanSpanHas` |
| Steering.ScanBox | main.cpp:330-331 | no contract of its own; see `Steering.ScanBoxHas` |
| Steering.ScanSpanHas | main.cpp:330-331 | along one axis the loop reaches exactly the grid rows within three of the dart's row: `c - 2.5` truncates to `c - 3` for `c >= 3`, and below that row `c - 3` is outside the grid |
| Steering.ScanBoxHas | main.cpp:330-332 | the box holds exactly the grid cells at most three columns and three rows from the dart's cached cell |
| Steering.CloseCellsWithinThree | main.cpp:109-111 | two coordinates of the world less than `r` apart have cell indices at most three apart |
| Steering.ScanBoxHoldsNeighbours | main.cpp:329-332 | the box holds the cell of every position of the world within `r` of a dart whose cache is current |
| Steering.OwnCellInBox | main.cpp:330-331 | the dart's own cell, when it is in the grid, lies in the scan's bounding box |
| Steering.NearerLine | main.cpp:334-335 | the chosen grid line is `c` or `c + 1`, no farther from the coordinate than either, and `c + 1` exactly when that line is strictly nearer |
| Steering.CornerSqDist | main.cpp:336-338 | no contract of its own; see `Steering.CornerCaseGeometry` |
| Steering.Visits | main.cpp:332-339 | no contract of its own; see `Steering.VisitedHas` and `Steering.ScanCellsHas` |
| Steering.Visited | main.cpp:332-339 | no contract of its own; see `Steering.VisitedHas` |
| Steering.VisitedHas | main.cpp:332-339 | the cell test keeps exactly the cells in the grid whose chosen corner is within `r` or which are the dart's own cell |
| Steering.ScanCells | main.cpp:330-339 | no contract of its own; see `Steering.ScanCellsHas` |
| Steering.ScanCellsHas | main.cpp:329-339 | no scanned cell is outside the grid; the dart's own cell is always scanned; and the scanned cells are exactly the box cells that pass the cell test |
| Steering.Classify | main.cpp:345-354 | flee applies if and only if the pair is within `flee_r` and flee is enabled; alignment applies if and only if flee does not and the pair is within `r` |
| Steering.FarPairIgnored | main.cpp:345-351 | a pair at or beyond `r` neither flees nor aligns |
| Steering.FleeTerm | main.cpp:346-350 | the flee term is a non-negative multiple of the vector away from the neighbour |
| Steering.AlignTerm | main.cpp:352-353 | no contract of its own; see `Steering.Contribution` |
| Steering.Contribution | main.cpp:341-354 | a dart adds nothing for itself or for a neighbour at or beyond `r`; a fleeing pair adds a push away; an aligning pair adds the neighbour's reversed heading scaled by `other_coef` |
| Steering.CellSum | main.cpp:340-355 | no contract of its own; see `Steering.CellSumQuiet` |
| Steering.ScanSum | main.cpp:329-358 | no contract of its own; see `Steering.ScanSumQuiet` |
| Steering.Want | main.cpp:315-359 | no contract of its own; see `Steering.IsolatedWantIsZero` and `Tick.SweepSteersOnUpdatedState` |
| Steering.CellSumQuiet | main.cpp:340-355 | a cell list with no dart within `r` of the dart contributes nothing |
| Steering.ScanSumQuiet | main.cpp:329-359 | with no other dart within `r`, the neighbour scan contributes nothing, whichever cells it reads |
| Steering.IsolatedWantIsZero | main.cpp:315-359 | with no checkpoints and no neighbour within `r`, the desired vector is zero, so the dart turns negatively |
| Steering.CornerPruningMissesNeighbour | main.cpp:333-339 | a dart at (-0.579, 0.02) in cell (10, 25) does not read cell (13, 25), though that cell is in its box and holds a point within `r` of it |
| Steering.CornerCaseGeometry | main.cpp:333-339 | the example's cells, its distance below `r`, and its failing corner test |
| Steering.CornerCaseInBox | main.cpp:330-331 | cell (13, 25) lies in the example's bounding box |
| Tick.Pointer | main.cpp:304-311 | the pointer read at each tick is where a click at the same pixel places a checkpoint |
| Tick.ProgramRule | main.cpp:315-359 | the program's steering rule is defined for every dart of every valid state |
| Tick.Moved | main.cpp:361-373 | only dart `i` changes; it turns by one step toward the desired vector into (0, 2π] and advances along its new heading; it stays in the world, and with its cache untouched the invariant still holds |
| Tick.StepWith | main.cpp:361-382 | one loop iteration keeps the state valid, changes only dart `i`, leaves the registry alone, and moves dart `i` exactly once with the heading chosen by the controller |
| Tick.Sweep | main.cpp:314-383 | after the first `k` iterations the state is valid, darts before `k` have each turned and moved exactly once, and the rest are untouched |
| Tick.SweepStep | main.cpp:314 | moving dart `i` after darts `0..i-1` extends the set of darts moved once |
| Tick.SweepSteersOnUpdatedState | main.cpp:314-383 | in a tick, dart `k-1` turns toward the desired vector computed on the state in which darts `0..k-2` already moved and were re-filed |
| Tick.SweepLast | main.cpp:314-383 | an iteration of the tick loop leaves every dart before the one it moves unchanged |
| Tick.SweepFrame | main.cpp:314-383 | after any number of iterations past `j`, dart `j` is exactly as its own iteration left it |
| Tick.SweepFrameUp | main.cpp:314-383 | the same for iteration counts past `j + 1`; the inductive step of `Tick.SweepFrame` |
| Tick.TickTurnsByRule | main.cpp:314-366 | at the end of the whole tick, every dart `j` has the heading the controller chose against the desired vector computed on the state in which darts `0..j-1` had already moved |
| Tick.DrawnCoord | main.cpp:296 | over reals, the start-up draw lies in [-1, 1], and is 1.0 if and only if `rand()` returned RAND_MAX (in single precision more values reach 1.0f; see "## Left out") |
| Tick.DrawnCoordCanLeaveGrid | main.cpp:296-299 | the largest draw has cell index `sub`, outside the grid |
| Tick.DrawnCoordInWorld | main.cpp:296 | over reals, the corrected draw always lies in the world, so its cell index is a valid row |
| Tick.Populate | main.cpp:295-300 | the start-up loop fails if and only if some drawn position has a cell outside the grid, and then at the first one; otherwise it yields a valid state holding exactly the drawn darts in order, with an empty registry |

## Left out

- Drawing, shaders, buffers, the GLFW window and the event loop around the
  tick (main.cpp:143-290 and 385-407): they do not affect the simulation
  state. The counters are modelled only for what they promise the drawing
  code.
- Floating point: all quantities are reals. Rounding, NaN, and
  single-precision constants (`0.1f`, `3.1415926f`, `2.0f/50`) are not
  modelled; constants keep their decimal values.
- `cos`, `sin` and `sqrt`: taken as given functions in `Trig`. Only
  `|cos|, |sin| <= 1` is assumed about them, where a bound is needed.
- Tick.DrawnCoord: states the draw over reals. In single precision `(float)rand()` rounds the top 64 values of a RAND_MAX of 2^31-1 up to 2^31, so all of them give exactly 1.0f; the model does not count them, because rounding is not modelled.
- `rand()`: the start-up loop receives its drawn values as parameters
  (`Tick.Start`); `Tick.DrawnCoord` models the drawing formula itself.
- The pointer position read from the window: it is a parameter of
  `Tick.ProgramRule`, and its conversion is `Tick.Pointer`.
- The C++ assertion at main.cpp:378 is modelled as the `Failure` result of
  `Darts.Resync`, and is proved never to fire under the grid invariant.
- Neighbour completeness: not stated, because it does not hold. Corner
  pruning can skip a box cell that holds a dart within `r`.
- Trajectories over many ticks, and any convergence or flocking behaviour.
- Steering.CheckpointSum, Steering.ScanSum, Steering.Want: stated through
  the lemmas about them (`ScanSumQuiet`, `IsolatedWantIsZero`) and the term
  contracts, not through an ensures of their own.

## Findings

| source | as written | input that shows it | evidently intended | confidence | as-written member | corrected member |
|---|---|---|---|---|---|---|
| main.cpp:134-139 | only the left and right buttons bump a counter, but every press appends a checkpoint, and any non-left press appends a negative one | a middle-button press (button 2) on an empty registry: one red checkpoint, `negatives` stays 0, so `drawCheckpoints` allocates no red slots (main.cpp:187) and writes 90 floats into it (3 corners × 3 floats × `CIRCLETRIANGLE` = 10 triangles, main.cpp:193-206) | every negative checkpoint bumps `negatives` | not executed | Checkpoints.OtherButtonBreaksCounts | Checkpoints.OnButtonCounted |
| main.cpp:296-299 | the start-up draw `rand()/RAND_MAX*2-1` can be exactly 1.0, which `gcoords` maps to index 50 = `sub`, and `grid[50]` is outside the array | over reals, `rand()` returning RAND_MAX for the first coordinate; in single precision with RAND_MAX = 2^31-1, any of the top 64 values of `rand()`, since `(float)rand()` rounds them to 2^31 | every drawn position gets a valid cell. Over reals a draw in [-1, 1) does this, e.g. `rand()/(RAND_MAX+1.0)*2-1`; in single precision that formula still gives 1.0f for 32 values once stored in the `float` field `x`, so a fix that holds in `float` clamps the cell index to `sub-1` (`Grid.ClampedCellIndex`) | not executed | Tick.DrawnCoordCanLeaveGrid | Tick.DrawnCoordInWorld |
