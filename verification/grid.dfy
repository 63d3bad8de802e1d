/** The uniform grid: the cell mapping `gcoords` (main.cpp:109-111) and the
    per-cell index lists with the two list operations the resync uses,
    `std::find` and `list::erase` (main.cpp:377-379). */
module Grid {
  import opened Params
  import opened Geometry

  datatype Option<T> = None | Some(value: T)

  /** A grid cell, `pair<int,int>` in the source: column then row. */
  datatype Cell = Cell(cx: int, cy: int)

  predicate InGrid(c: Cell) {
    0 <= c.cx < Sub && 0 <= c.cy < Sub
  }

  /** C++ conversion of a floating value to `int`: truncation toward zero. */
  function Trunc(v: real): (n: int)
    ensures 0.0 <= v ==> n as real <= v < n as real + 1.0
    ensures v <= 0.0 ==> n as real - 1.0 < v <= n as real
  {
    if v >= 0.0 then v.Floor else -((-v).Floor)
  }

  /** One coordinate of `gcoords`: `(v + 1) / 2 * sub`, converted to int.
      For a coordinate in the world the index is a valid cell, and the cell is
      the half-open interval [c*sgr - 1, (c+1)*sgr - 1) containing `v`. */
  function CellIndex(v: real): (c: int)
    ensures InDomain(v) ==> 0 <= c < Sub
    ensures InDomain(v) ==> c as real * Sgr - 1.0 <= v < (c + 1) as real * Sgr - 1.0
  {
    Trunc((v + 1.0) / 2.0 * Sub as real)
  }

  function CellOf(x: real, y: real): (c: Cell)
    ensures InDomain(x) && InDomain(y) ==> InGrid(c)
  {
    Cell(CellIndex(x), CellIndex(y))
  }

  /** The cell intervals tile the world: a coordinate maps to index `c`
      exactly when it lies in the interval of `c`. */
  lemma CellIndexExact(v: real, c: int)
    requires InDomain(v)
    ensures CellIndex(v) == c <==> c as real * Sgr - 1.0 <= v < (c + 1) as real * Sgr - 1.0
  {
    var n := CellIndex(v);
    if c as real * Sgr - 1.0 <= v < (c + 1) as real * Sgr - 1.0 {
      assert n as real * Sgr - 1.0 <= v < (n + 1) as real * Sgr - 1.0;
      assert n < c + 1 && c < n + 1;
    }
  }

  /** The start-up loop draws coordinates as `rand()/RAND_MAX*2-1`, which is
      exactly 1.0 when `rand()` returns RAND_MAX (and, in single precision,
      for a few values just below it); the cell index is then `sub`,
      one past the last row of the grid array. */
  lemma CellIndexAtOne()
    ensures CellIndex(1.0) == Sub
    ensures !InGrid(CellOf(1.0, 0.0))
  {
  }

  /** For a coordinate drawn in [-1, 1] the index is `sub` exactly at 1.0 and
      a valid row otherwise. */
  lemma CellIndexOfDrawn(v: real)
    requires -1.0 <= v <= 1.0
    ensures 0 <= CellIndex(v) <= Sub
    ensures CellIndex(v) == Sub <==> v == 1.0
  {
    if v < 1.0 {
      assert InDomain(v);
    } else {
      CellIndexAtOne();
    }
  }

  /** A drawn position lands in a grid cell exactly when it lies inside the
      world, i.e. neither coordinate is 1.0. */
  lemma CellInGridIsInDomain(x: real, y: real)
    requires -1.0 <= x <= 1.0 && -1.0 <= y <= 1.0
    ensures InGrid(CellOf(x, y)) <==> InDomain(x) && InDomain(y)
  {
    CellIndexOfDrawn(x);
    CellIndexOfDrawn(y);
  }

  /** `gcoords` with its index clamped to `sub - 1`: a valid row for every
      coordinate in [-1, 1], however the draw was rounded, and the row of
      `CellIndex` everywhere inside the world. */
  function ClampedCellIndex(v: real): (c: int)
    ensures -1.0 <= v <= 1.0 ==> 0 <= c < Sub
    ensures InDomain(v) ==> c == CellIndex(v)
    ensures v == 1.0 ==> c == Sub - 1
  {
    var n := CellIndex(v);
    if n >= Sub then Sub - 1 else n
  }

  /** The grid: for each cell, its list of dart indices in insertion order.
      A cell absent from the map holds the empty list. */
  type Grid = map<Cell, seq<int>>

  function Members(g: Grid, c: Cell): seq<int> {
    if c in g then g[c] else []
  }

  /** `std::find`: the position of the first occurrence of `v`, if any. */
  function Find(s: seq<int>, v: int): (r: Option<nat>)
    ensures r.None? <==> v !in s
    ensures r.Some? ==> r.value < |s| && s[r.value] == v && v !in s[..r.value]
  {
    if |s| == 0 then None
    else if s[0] == v then Some(0)
    else
      match Find(s[1..], v)
      case None => None
      case Some(k) =>
        assert s[..k + 1] == [s[0]] + s[1..][..k];
        Some(k + 1)
  }

  /** `list::erase` at a position: exactly one element, the one at `k`, leaves
      the list. */
  function EraseAt(s: seq<int>, k: nat): (r: seq<int>)
    requires k < |s|
    ensures |r| == |s| - 1
    ensures multiset(r) == multiset(s) - multiset{s[k]}
  {
    assert s == s[..k] + [s[k]] + s[k + 1..];
    s[..k] + s[k + 1..]
  }
}
