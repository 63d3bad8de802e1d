/** The steering engine of one dart (main.cpp:315-359): the desired vector is
    the sum of a cursor term, one term per checkpoint and one term per
    neighbour found through the grid. */
module Steering {
  import opened Params
  import opened Geometry
  import opened Grid
  import opened Darts
  import opened Checkpoints

  /** `max(l, 0.001f)` as `std::max` computes it. Every divisor of the
      steering code goes through this floor, so none is below 0.001. */
  function FloorDist(l: real): (d: real)
    ensures d >= MinDist && d >= l
    ensures d == l || d == MinDist
  {
    if l < MinDist then MinDist else l
  }

  /** Dividing a non-negative amount by a larger divisor gives less. */
  lemma DivideByLarger(a: real, d: real, e: real)
    requires a >= 0.0 && 0.0 < e <= d
    ensures 0.0 <= a / d <= a / e
  {
    var q, p := a / d, a / e;
    assert q * d == a && p * e == a;
    assert q >= 0.0;
    assert q * e <= q * d;
  }

  /** `coef / max(l, 0.001)`: the gain of the linear-falloff terms. It has the
      sign of `coef` and is bounded by `|coef| / 0.001` whatever the distance. */
  function InverseGain(coef: real, l: real): (k: real)
    ensures coef > 0.0 ==> 0.0 < k <= coef / MinDist
    ensures coef < 0.0 ==> coef / MinDist <= k < 0.0
    ensures coef == 0.0 ==> k == 0.0
  {
    var d := FloorDist(l);
    DivideByLarger(if coef < 0.0 then -coef else coef, d, MinDist);
    coef / d
  }

  /** `coef / l / l` with `l` floored: the gain of the inverse-square
      checkpoint term. It has the sign of `coef` and is bounded by
      `|coef| / 0.001^2` whatever the distance. */
  function InverseSquareGain(coef: real, l: real): (k: real)
    ensures coef > 0.0 ==> 0.0 < k <= coef / MinDist / MinDist
    ensures coef < 0.0 ==> coef / MinDist / MinDist <= k < 0.0
    ensures coef == 0.0 ==> k == 0.0
  {
    InverseGain(InverseGain(coef, l), l)
  }

  /** The cursor term (main.cpp:315-319): the vector toward the pointer,
      scaled by `cursor_coef` over the floored distance. It points toward the
      pointer for a non-negative coefficient, and vanishes for a zero one, as
      configured. */
  function CursorTerm(pos: Vec, pointer: Vec, m: Trig): (v: Vec)
    ensures CursorCoef >= 0.0 ==> NonNegMultiple(v, pointer.Minus(pos))
    ensures CursorCoef == 0.0 ==> v == Zero
  {
    var t := pointer.Minus(pos);
    var k := InverseGain(CursorCoef, m.sqrt(t.Dot(t)));
    t.Times(k)
  }

  /** One checkpoint's term (main.cpp:322-326): the vector toward the
      checkpoint scaled by its coefficient over the squared floored distance.
      An attracting checkpoint adds a non-negative multiple of the vector
      toward it, a repelling one a non-positive multiple. */
  function CheckpointTerm(pos: Vec, c: Checkpoint, m: Trig): (v: Vec)
    ensures c.coef >= 0.0 ==> NonNegMultiple(v, Vec(c.x, c.y).Minus(pos))
    ensures c.coef <= 0.0 ==> NonPosMultiple(v, Vec(c.x, c.y).Minus(pos))
  {
    var t := Vec(c.x, c.y).Minus(pos);
    var k := InverseSquareGain(c.coef, m.sqrt(t.Dot(t)));
    t.Times(k)
  }

  /** All checkpoint terms, accumulated in registry order (main.cpp:321-327). */
  function CheckpointSum(pos: Vec, cs: seq<Checkpoint>, m: Trig): Vec {
    if |cs| == 0 then Zero
    else CheckpointSum(pos, cs[..|cs| - 1], m).Plus(CheckpointTerm(pos, cs[|cs| - 1], m))
  }

  /** The scan reach in cells, `r / sgr` (2.5 cells). */
  const Reach: real := R / Sgr

  /** The integers a C++ `for (int y = lo; y < bound; ++y)` visits, in order. */
  function Span(lo: int, bound: real): seq<int> {
    if bound <= lo as real then [] else seq(-((lo as real - bound).Floor), k => lo + k)
  }

  /** `Span` counts up from `lo` one at a time and holds exactly the integers
      from `lo` that lie below `bound`. */
  lemma SpanHas(lo: int, bound: real)
    ensures forall k :: 0 <= k < |Span(lo, bound)| ==> Span(lo, bound)[k] == lo + k
    ensures forall y :: y in Span(lo, bound) <==> lo <= y && (y as real) < bound
  {
    var s := Span(lo, bound);
    if lo as real < bound {
      SpanCovers(lo, bound, s);
    }
  }

  lemma SpanCovers(lo: int, bound: real, s: seq<int>)
    requires lo as real < bound && |s| == -((lo as real - bound).Floor)
    requires forall k :: 0 <= k < |s| ==> s[k] == lo + k
    ensures forall y :: lo <= y && (y as real) < bound ==> y in s
  {
    forall y | lo <= y && (y as real) < bound
      ensures y in s
    {
      assert s[y - lo] == y;
    }
  }

  /** One row of the scan: the cells of row `y` at columns `xs`, in order. */
  function Row(y: int, xs: seq<int>): seq<Cell> {
    seq(|xs|, k requires 0 <= k < |xs| => Cell(xs[k], y))
  }

  /** The cells of a row-major double loop: rows `ys` outside, columns `xs`
      inside (main.cpp:330-331). */
  function Box(ys: seq<int>, xs: seq<int>): seq<Cell> {
    if |ys| == 0 then [] else Row(ys[0], xs) + Box(ys[1..], xs)
  }

  /** The double loop reaches exactly the cells whose row is in `ys` and whose
      column is in `xs`. */
  lemma {:induction false} BoxHas(ys: seq<int>, xs: seq<int>)
    ensures forall c :: c in Box(ys, xs) <==> c.cy in ys && c.cx in xs
  {
    if |ys| > 0 {
      BoxHas(ys[1..], xs);
      var row := Row(ys[0], xs);
      forall c: Cell | c.cy == ys[0] && c.cx in xs
        ensures c in row
      {
        var k :| 0 <= k < |xs| && xs[k] == c.cx;
        assert row[k] == c;
      }
      assert Box(ys, xs) == row + Box(ys[1..], xs);
      assert forall y :: y in ys <==> y == ys[0] || y in ys[1..];
    }
  }

  lemma BoxHasCell(ys: seq<int>, xs: seq<int>, c: Cell)
    ensures c in Box(ys, xs) <==> c.cy in ys && c.cx in xs
  {
    BoxHas(ys, xs);
  }

  /** The rows (or columns) one scan loop visits around row `c`: from
      `c - r/sgr` converted to int while below `c + 1 + r/sgr`. */
  function AxisSpan(c: int): seq<int> {
    Span(Trunc(c as real - Reach), c as real + 1.0 + Reach)
  }

  /** The bounding box of the scan around a dart's cached cell: the loop
      starts at `ingrid - r/sgr` converted to int and runs while below
      `ingrid + 1 + r/sgr`. */
  function ScanBox(d: Dart): seq<Cell> {
    Box(AxisSpan(d.ingrid.cy), AxisSpan(d.ingrid.cx))
  }

  /** A dart's own cell, when it exists, lies in its scan box. */
  lemma OwnCellInBox(d: Dart)
    ensures InGrid(d.ingrid) ==> d.ingrid in ScanBox(d)
  {
    if InGrid(d.ingrid) {
      ScanBoxHas(d, d.ingrid);
    }
  }

  /** Along one axis the loop reaches exactly the grid rows within three of
      the dart's row: `c - r/sgr` is `c - 2.5`, which truncates to `c - 3`
      for `c >= 3`; below that the truncated bound is `c - 2`, and row `c - 3`
      lies outside the grid anyway. */
  lemma ScanSpanHas(c: int, y: int)
    requires 0 <= y < Sub
    ensures y in AxisSpan(c) <==> c - 3 <= y <= c + 3
  {
    assert Reach == 2.5;
    var lo := Trunc(c as real - Reach);
    SpanHas(lo, c as real + 1.0 + Reach);
    if c >= 3 {
      assert lo == c - 3;
    } else {
      assert lo == c - 2;
    }
  }

  /** The bounding box holds exactly the grid cells at most three columns
      and three rows from the dart's cached cell. */
  lemma ScanBoxHas(d: Dart, c: Cell)
    requires InGrid(c)
    ensures c in ScanBox(d) <==>
      d.ingrid.cx - 3 <= c.cx <= d.ingrid.cx + 3 && d.ingrid.cy - 3 <= c.cy <= d.ingrid.cy + 3
  {
    var ys, xs := AxisSpan(d.ingrid.cy), AxisSpan(d.ingrid.cx);
    ScanSpanHas(d.ingrid.cy, c.cy);
    ScanSpanHas(d.ingrid.cx, c.cx);
    BoxHasCell(ys, xs, c);
  }

  /** A coordinate difference whose square is below `r²` is below `r`. */
  lemma WithinRadius(a: real)
    ensures a * a < R * R ==> -R < a < R
  {
    if a >= R {
      assert a * a >= R * a;
    } else if a <= -R {
      assert a * a >= -R * a;
    }
  }

  /** Both coordinate differences of a displacement shorter than `r` are
      below `r`. */
  lemma WithinRadius2(dx: real, dy: real)
    requires dx * dx + dy * dy < R * R
    ensures -R < dx < R && -R < dy < R
  {
    assert dx * dx >= 0.0 && dy * dy >= 0.0;
    WithinRadius(dx);
    WithinRadius(dy);
  }

  /** Two coordinates of the world less than `r` apart lie in cells at most
      three apart: `r` spans two and a half cells. */
  lemma CloseCellsWithinThree(u: real, v: real)
    requires InDomain(u) && InDomain(v) && -R < u - v < R
    ensures -3 <= CellIndex(u) - CellIndex(v) <= 3
  {
    var cu, cv := CellIndex(u), CellIndex(v);
    assert cu as real * Sgr < (cv + 1) as real * Sgr + R;
    assert cv as real * Sgr < (cu + 1) as real * Sgr + R;
  }

  /** The box holds the cell of every position of the world within `r` of a
      dart whose cache is current, so the box itself loses no neighbour; only
      the corner test can (`CornerPruningMissesNeighbour`). */
  lemma ScanBoxHoldsNeighbours(d: Dart, p: Vec)
    requires InDomain(d.x) && InDomain(d.y) && d.ingrid == CellOf(d.x, d.y)
    requires InDomain(p.x) && InDomain(p.y) && SqDist(d.Pos(), p) < R * R
    ensures CellOf(p.x, p.y) in ScanBox(d)
  {
    WithinRadius2(p.x - d.x, p.y - d.y);
    CloseCellsWithinThree(p.x, d.x);
    CloseCellsWithinThree(p.y, d.y);
    ScanBoxHas(d, CellOf(p.x, p.y));
  }

  function Abs(v: real): real {
    if v < 0.0 then -v else v
  }

  /** The grid line of cell `c` or of `c + 1`, whichever is nearer to `v`
      (main.cpp:334-335): the coordinate of the cell corner used for pruning. */
  function NearerLine(c: int, v: real): (n: int)
    ensures n == c || n == c + 1
    ensures Abs(n as real * Sgr - 1.0 - v) <= Abs(c as real * Sgr - 1.0 - v)
    ensures Abs(n as real * Sgr - 1.0 - v) <= Abs((c + 1) as real * Sgr - 1.0 - v)
    ensures n == c + 1 <==> Abs((c + 1) as real * Sgr - 1.0 - v) < Abs(c as real * Sgr - 1.0 - v)
  {
    if Abs((c + 1) as real * Sgr - 1.0 - v) < Abs(c as real * Sgr - 1.0 - v) then c + 1 else c
  }

  /** Squared distance from the dart to the chosen corner of `c`
      (main.cpp:336-338). */
  function CornerSqDist(d: Dart, c: Cell): real {
    var dx := NearerLine(c.cx, d.x) as real * Sgr - 1.0 - d.x;
    var dy := NearerLine(c.cy, d.y) as real * Sgr - 1.0 - d.y;
    dx * dx + dy * dy
  }

  /** The cell tests of the scan (main.cpp:332, 339): a cell is read when it
      exists and either its chosen corner is within `r` or it is the dart's
      own cell. */
  predicate Visits(d: Dart, c: Cell) {
    InGrid(c) && (CornerSqDist(d, c) < R * R || c == d.ingrid)
  }

  function Visited(d: Dart, cells: seq<Cell>): seq<Cell> {
    if |cells| == 0 then []
    else (if Visits(d, cells[0]) then [cells[0]] else []) + Visited(d, cells[1..])
  }

  /** The filter keeps exactly the cells the scan reads. */
  lemma {:induction false} VisitedHas(d: Dart, cells: seq<Cell>)
    ensures forall c :: c in Visited(d, cells) <==> c in cells && Visits(d, c)
  {
    if |cells| > 0 {
      VisitedHas(d, cells[1..]);
      assert forall c :: c in cells <==> c == cells[0] || c in cells[1..];
    }
  }

  /** The cells whose lists the neighbour scan reads, in scan order. */
  function ScanCells(d: Dart): seq<Cell> {
    Visited(d, ScanBox(d))
  }

  /** None of the scanned cells lies outside the grid, the dart's own cell is
      always among them, and the others are exactly the existing cells of the
      bounding box whose chosen corner is within `r`. */
  lemma ScanCellsHas(d: Dart)
    ensures forall c :: c in ScanCells(d) ==> InGrid(c)
    ensures InGrid(d.ingrid) ==> d.ingrid in ScanCells(d)
    ensures forall c :: c in ScanCells(d) <==> c in ScanBox(d) && Visits(d, c)
  {
    OwnCellInBox(d);
    VisitedHas(d, ScanBox(d));
  }

  /** How a neighbour pair interacts (main.cpp:345-354). */
  datatype Contact = Flee | Align | Ignore

  /** Flee is checked first and wins; alignment applies only to pairs that do
      not flee and are within `r`. */
  function Classify(ds: real): (k: Contact)
    ensures k == Flee <==> ds < FleeR * FleeR && FleeCoef > 0.0
    ensures k == Align <==> !(ds < FleeR * FleeR && FleeCoef > 0.0) && ds < R * R
  {
    if ds < FleeR * FleeR && FleeCoef > 0.0 then Flee
    else if ds < R * R then Align
    else Ignore
  }

  /** A pair at or beyond the neighbour radius is ignored: the flee radius is
      smaller than it. */
  lemma FarPairIgnored(ds: real)
    requires ds >= R * R
    ensures Classify(ds) == Ignore
  {
  }

  /** The flee term (main.cpp:346-350): away from the neighbour, scaled by
      `flee_coef` over the floored distance. */
  function FleeTerm(me: Vec, other: Vec, m: Trig): (v: Vec)
    ensures NonNegMultiple(v, me.Minus(other))
  {
    var t := me.Minus(other);
    var k := InverseGain(FleeCoef, m.sqrt(t.Dot(t)));
    t.Times(k)
  }

  /** The alignment term (main.cpp:352-353): the neighbour's heading turned
      by π, scaled by `other_coef`, independent of distance. */
  function AlignTerm(ang: real, m: Trig): Vec {
    Vec(m.cos(ang + Pi), m.sin(ang + Pi)).Times(OtherCoef)
  }

  /** What neighbour `j` adds to dart `i`'s desired vector
      (main.cpp:341-354): nothing for the dart itself, nothing beyond the
      neighbour radius, otherwise exactly one of the flee and the alignment
      terms, flee first. */
  function Contribution(darts: seq<Dart>, i: int, j: int, m: Trig): (v: Vec)
    requires 0 <= i < |darts| && 0 <= j < |darts|
    ensures j == i ==> v == Zero
    ensures SqDist(darts[i].Pos(), darts[j].Pos()) >= R * R ==> v == Zero
    ensures j != i && Classify(SqDist(darts[i].Pos(), darts[j].Pos())) == Flee ==>
              NonNegMultiple(v, darts[i].Pos().Minus(darts[j].Pos()))
    ensures j != i && Classify(SqDist(darts[i].Pos(), darts[j].Pos())) == Align ==>
              v == AlignTerm(darts[j].ang, m)
  {
    if j == i then Zero
    else
      match Classify(SqDist(darts[i].Pos(), darts[j].Pos()))
      case Flee => FleeTerm(darts[i].Pos(), darts[j].Pos(), m)
      case Align => AlignTerm(darts[j].ang, m)
      case Ignore => Zero
  }

  /** Neighbour `j` lies within the neighbour radius of dart `i`. */
  predicate Near(darts: seq<Dart>, i: int, j: int)
    requires 0 <= i < |darts| && 0 <= j < |darts|
  {
    j != i && SqDist(darts[i].Pos(), darts[j].Pos()) < R * R
  }

  /** The contributions of one cell's list, in list order (main.cpp:340-355). */
  function CellSum(darts: seq<Dart>, i: int, js: seq<int>, m: Trig): Vec
    requires 0 <= i < |darts|
    requires forall k :: 0 <= k < |js| ==> 0 <= js[k] < |darts|
  {
    if |js| == 0 then Zero
    else CellSum(darts, i, js[..|js| - 1], m).Plus(Contribution(darts, i, js[|js| - 1], m))
  }

  /** A list holding no dart near `i` contributes nothing. */
  lemma {:induction false} CellSumQuiet(darts: seq<Dart>, i: int, js: seq<int>, m: Trig)
    requires 0 <= i < |darts|
    requires forall k :: 0 <= k < |js| ==> 0 <= js[k] < |darts|
    requires forall k :: 0 <= k < |js| ==> !Near(darts, i, js[k])
    ensures CellSum(darts, i, js, m) == Zero
  {
    if |js| > 0 {
      CellSumQuiet(darts, i, js[..|js| - 1], m);
      assert !Near(darts, i, js[|js| - 1]);
    }
  }

  /** The contributions of all scanned cells, in scan order. */
  function ScanSum(darts: seq<Dart>, g: Grid, i: int, cells: seq<Cell>, m: Trig): Vec
    requires 0 <= i < |darts| && IndicesInRange(darts, g)
  {
    if |cells| == 0 then Zero
    else
      var js := Members(g, cells[|cells| - 1]);
      ScanSum(darts, g, i, cells[..|cells| - 1], m).Plus(CellSum(darts, i, js, m))
  }

  /** With no dart near `i` at all, the neighbour scan contributes nothing,
      whichever cells it reads. */
  lemma {:induction false} ScanSumQuiet(darts: seq<Dart>, g: Grid, i: int, cells: seq<Cell>, m: Trig)
    requires 0 <= i < |darts| && IndicesInRange(darts, g)
    requires forall j :: 0 <= j < |darts| ==> !Near(darts, i, j)
    ensures ScanSum(darts, g, i, cells, m) == Zero
  {
    if |cells| > 0 {
      ScanSumQuiet(darts, g, i, cells[..|cells| - 1], m);
      var js := Members(g, cells[|cells| - 1]);
      CellSumQuiet(darts, i, js, m);
    }
  }

  /** The desired vector of dart `i` (main.cpp:315-359). */
  function Want(darts: seq<Dart>, g: Grid, cs: seq<Checkpoint>, i: int, pointer: Vec, m: Trig): Vec
    requires 0 <= i < |darts| && IndicesInRange(darts, g)
  {
    var pos := darts[i].Pos();
    var w := CursorTerm(pos, pointer, m).Plus(CheckpointSum(pos, cs, m));
    if OtherCoef > 0.0 || FleeCoef > 0.0 then w.Plus(ScanSum(darts, g, i, ScanCells(darts[i]), m))
    else w
  }

  /** A dart with no checkpoint placed and no other dart within the neighbour
      radius wants nothing (the cursor coefficient is zero), so it always
      turns negatively: the controller's boundary case at a zero vector. */
  lemma IsolatedWantIsZero(darts: seq<Dart>, g: Grid, i: int, pointer: Vec, m: Trig)
    requires 0 <= i < |darts| && IndicesInRange(darts, g)
    requires forall j :: 0 <= j < |darts| ==> !Near(darts, i, j)
    ensures Want(darts, g, [], i, pointer, m) == Zero
  {
    ScanSumQuiet(darts, g, i, ScanCells(darts[i]), m);
  }

  /** The scan can miss a neighbour within `r`: pruning measures the distance
      to a cell corner, not to the nearest point of the cell. A dart in cell
      (10, 25) skips cell (13, 25) although a point of that cell lies within
      the neighbour radius. */
  lemma CornerPruningMissesNeighbour()
    ensures var d := Dart(-0.579, 0.02, 0.0, Cell(10, 25));
      && d.ingrid == CellOf(d.x, d.y)
      && Cell(13, 25) == CellOf(-0.4795, 0.02)
      && SqDist(d.Pos(), Vec(-0.4795, 0.02)) < R * R
      && Cell(13, 25) in ScanBox(d)
      && Cell(13, 25) !in ScanCells(d)
  {
    var d := Dart(-0.579, 0.02, 0.0, Cell(10, 25));
    CornerCaseGeometry(d);
    CornerCaseInBox(d);
    VisitedHas(d, ScanBox(d));
  }

  /** The positions of the example: both cells, the distance, and the failed
      corner test. */
  lemma CornerCaseGeometry(d: Dart)
    requires d == Dart(-0.579, 0.02, 0.0, Cell(10, 25))
    ensures d.ingrid == CellOf(d.x, d.y) && Cell(13, 25) == CellOf(-0.4795, 0.02)
    ensures SqDist(d.Pos(), Vec(-0.4795, 0.02)) < R * R
    ensures !Visits(d, Cell(13, 25))
  {
    assert SqDist(d.Pos(), Vec(-0.4795, 0.02)) == 0.00990025;
    assert NearerLine(13, d.x) == 13;
    assert NearerLine(25, d.y) == 25;
    assert CornerSqDist(d, Cell(13, 25)) >= R * R;
  }

  /** Cell (13, 25) lies in the bounding box of the example's scan. */
  lemma CornerCaseInBox(d: Dart)
    requires d == Dart(-0.579, 0.02, 0.0, Cell(10, 25))
    ensures Cell(13, 25) in ScanBox(d)
  {
    ScanBoxHas(d, Cell(13, 25));
  }
}
