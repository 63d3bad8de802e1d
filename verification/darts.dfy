/** The dart store (main.cpp:113-116, 122) and its bookkeeping against the
    grid: start-up insertion (main.cpp:295-300) and the per-move resync
    (main.cpp:375-382). */
module Darts {
  import opened Params
  import opened Geometry
  import opened Grid

  /** Position, heading and the cached cell (`ingrid`). */
  datatype Dart = Dart(x: real, y: real, ang: real, ingrid: Cell) {
    function Pos(): Vec { Vec(x, y) }
  }

  /** Every index stored in the grid names a dart. */
  ghost predicate IndicesInRange(darts: seq<Dart>, g: Grid) {
    forall c, k :: c in g && 0 <= k < |g[c]| ==> 0 <= g[c][k] < |darts|
  }

  /** The grid invariant: only real cells are stored; every stored index names
      a dart whose cached cell is that cell; and every dart's index occurs
      exactly once in the list of its cached cell, which is a real cell. */
  ghost predicate GridHolds(darts: seq<Dart>, g: Grid) {
    && (forall c :: c in g ==> InGrid(c))
    && (forall c, k :: c in g && 0 <= k < |g[c]| ==>
          0 <= g[c][k] < |darts| && darts[g[c][k]].ingrid == c)
    && (forall i :: 0 <= i < |darts| ==> Filed(darts, g, i))
  }

  /** Dart `i` is filed once in the list of its cached cell, a real cell. */
  ghost predicate Filed(darts: seq<Dart>, g: Grid, i: int)
    requires 0 <= i < |darts|
  {
    InGrid(darts[i].ingrid) && multiset(Members(g, darts[i].ingrid))[i] == 1
  }

  /** A dart's index occurs in no list but the one of its cached cell. */
  lemma OnlyInCachedCell(darts: seq<Dart>, g: Grid, i: int, c: Cell)
    requires GridHolds(darts, g) && 0 <= i < |darts| && c != darts[i].ingrid
    ensures i !in Members(g, c)
  {
    forall t | 0 <= t < |Members(g, c)|
      ensures Members(g, c)[t] != i
    {
      assert darts[g[c][t]].ingrid == c;
    }
  }

  /** Under the grid invariant each dart index sits in exactly one cell list,
      once, and that cell is its cached `ingrid`. */
  lemma ExactlyOneCell(darts: seq<Dart>, g: Grid, i: int, c: Cell)
    requires GridHolds(darts, g) && 0 <= i < |darts|
    ensures multiset(Members(g, c))[i] == if c == darts[i].ingrid then 1 else 0
  {
    assert Filed(darts, g, i);
    if c != darts[i].ingrid {
      OnlyInCachedCell(darts, g, i, c);
    }
  }

  /** The grid invariant reads only the cached cells: moving darts without
      touching their caches keeps it. */
  lemma GridHoldsIgnoresPositions(darts: seq<Dart>, darts': seq<Dart>, g: Grid)
    requires GridHolds(darts, g)
    requires |darts'| == |darts|
    requires forall k :: 0 <= k < |darts| ==> darts'[k].ingrid == darts[k].ingrid
    ensures GridHolds(darts', g)
  {
    forall k | 0 <= k < |darts'|
      ensures Filed(darts', g, k)
    {
      assert Filed(darts, g, k);
    }
  }

  /** The result of moving a dart between cells. */
  datatype Placement = Placement(darts: seq<Dart>, grid: Grid)

  /** What can go wrong with the grid bookkeeping: the resync did not find the
      dart in its cached cell's list, which the source treats as a fatal
      assertion (main.cpp:378); or a dart was placed at a cell outside the
      grid, whose list the source would index out of bounds (main.cpp:299). */
  datatype Error = MissingFromCell(dart: int, cell: Cell) | OutsideGrid(dart: int, cell: Cell)

  datatype Result = Success(value: Placement) | Failure(error: Error)

  /** Grid resync after dart `i` moved (main.cpp:375-382): if the cell of its
      new position differs from the cached one, find `i` in the cached cell's
      list, erase it, append `i` to the new cell's list and update the cache. */
  function Resync(darts: seq<Dart>, g: Grid, i: int): Result
    requires 0 <= i < |darts|
  {
    var d := darts[i];
    var nc := CellOf(d.x, d.y);
    if nc == d.ingrid then Success(Placement(darts, g))
    else
      var was := Members(g, d.ingrid);
      match Find(was, i)
      case None => Failure(MissingFromCell(i, d.ingrid))
      case Some(k) =>
        var g1 := g[d.ingrid := EraseAt(was, k)];
        Success(Placement(darts[i := d.(ingrid := nc)], g1[nc := Members(g1, nc) + [i]]))
  }

  /** The two halves of a move from cell `oc` to a different cell `nc`: the
      old list without `i` and the new list with `i` appended. */
  ghost predicate IsMove(darts: seq<Dart>, g: Grid, i: int, nc: Cell,
                         darts': seq<Dart>, g': Grid)
    requires 0 <= i < |darts|
  {
    var oc := darts[i].ingrid;
    && nc != oc && InGrid(nc)
    && darts' == darts[i := darts[i].(ingrid := nc)]
    && oc in g' && nc in g' && g'.Keys <= g.Keys + {oc, nc}
    && multiset(g'[oc]) == multiset(Members(g, oc)) - multiset{i}
    && g'[nc] == Members(g, nc) + [i]
    && (forall c :: c != oc && c != nc ==> Members(g', c) == Members(g, c))
  }

  /** After a move, one stored index still names a dart cached in its cell. */
  lemma StoredAfterMove(darts: seq<Dart>, g: Grid, i: int, nc: Cell,
                        darts': seq<Dart>, g': Grid, c: Cell, t: int)
    requires GridHolds(darts, g) && 0 <= i < |darts|
    requires IsMove(darts, g, i, nc, darts', g')
    requires c in g' && 0 <= t < |g'[c]|
    ensures 0 <= g'[c][t] < |darts'| && darts'[g'[c][t]].ingrid == c
  {
    var oc := darts[i].ingrid;
    var e := g'[c][t];
    if c == nc {
      if t < |Members(g, nc)| {
        assert e == g[nc][t];
        OnlyInCachedCell(darts, g, i, nc);
        assert e != i;
      }
    } else if c == oc {
      assert Filed(darts, g, i);
      assert multiset(g'[oc])[e] >= 1;
      assert e != i;
      assert multiset(Members(g, oc))[e] >= 1;
      assert e in g[oc];
      var u :| 0 <= u < |g[oc]| && g[oc][u] == e;
      assert darts[e].ingrid == oc;
    } else {
      assert Members(g', c) == Members(g, c);
      assert e == g[c][t];
      assert darts[e].ingrid == c;
    }
  }

  /** A move keeps the first two clauses of the grid invariant. */
  lemma {:induction false} MoveKeepsStoredIndices(darts: seq<Dart>, g: Grid, i: int, nc: Cell,
                                                  darts': seq<Dart>, g': Grid)
    requires GridHolds(darts, g) && 0 <= i < |darts|
    requires IsMove(darts, g, i, nc, darts', g')
    ensures forall c :: c in g' ==> InGrid(c)
    ensures forall c, t :: c in g' && 0 <= t < |g'[c]| ==>
              0 <= g'[c][t] < |darts'| && darts'[g'[c][t]].ingrid == c
  {
    assert Filed(darts, g, i);
    forall c, t | c in g' && 0 <= t < |g'[c]|
      ensures 0 <= g'[c][t] < |darts'| && darts'[g'[c][t]].ingrid == c
    {
      StoredAfterMove(darts, g, i, nc, darts', g', c, t);
    }
  }

  /** A move keeps one dart's single entry in its cached cell. */
  lemma EntryAfterMove(darts: seq<Dart>, g: Grid, i: int, nc: Cell,
                       darts': seq<Dart>, g': Grid, j: int)
    requires GridHolds(darts, g) && 0 <= i < |darts|
    requires IsMove(darts, g, i, nc, darts', g')
    requires 0 <= j < |darts'|
    ensures Filed(darts', g', j)
  {
    var oc := darts[i].ingrid;
    var c := darts'[j].ingrid;
    if j == i {
      OnlyInCachedCell(darts, g, i, nc);
      assert multiset(g'[nc])[i] == multiset(Members(g, nc))[i] + 1;
    } else {
      assert darts'[j] == darts[j];
      assert Filed(darts, g, j);
      if c == oc {
        assert multiset(g'[oc])[j] == multiset(Members(g, oc))[j];
      } else if c == nc {
        assert multiset(g'[nc])[j] == multiset(Members(g, nc))[j];
      } else {
        assert Members(g', c) == Members(g, c);
      }
    }
  }

  /** A move keeps the third clause of the grid invariant. */
  lemma {:induction false} MoveKeepsSingleEntry(darts: seq<Dart>, g: Grid, i: int, nc: Cell,
                                                darts': seq<Dart>, g': Grid)
    requires GridHolds(darts, g) && 0 <= i < |darts|
    requires IsMove(darts, g, i, nc, darts', g')
    ensures forall j :: 0 <= j < |darts'| ==>
              Filed(darts', g', j)
  {
    forall j | 0 <= j < |darts'|
      ensures Filed(darts', g', j)
    {
      EntryAfterMove(darts, g, i, nc, darts', g', j);
    }
  }

  /** Resync keeps the grid invariant. Given the invariant and a new position
      inside the world, the `find` succeeds (so the assertion at main.cpp:378
      holds), the invariant holds afterwards and the cache names the cell of
      the new position. An unchanged cell changes nothing; otherwise only the
      old cell's list, the new cell's list and `darts[i].ingrid` change. */
  lemma {:induction false} ResyncKeepsGrid(darts: seq<Dart>, g: Grid, i: int)
    requires GridHolds(darts, g) && 0 <= i < |darts|
    requires InDomain(darts[i].x) && InDomain(darts[i].y)
    ensures Resync(darts, g, i).Success?
    ensures var p := Resync(darts, g, i).value;
      && GridHolds(p.darts, p.grid)
      && |p.darts| == |darts|
      && p.darts[i] == darts[i].(ingrid := CellOf(darts[i].x, darts[i].y))
      && (forall j :: 0 <= j < |darts| && j != i ==> p.darts[j] == darts[j])
      && (CellOf(darts[i].x, darts[i].y) == darts[i].ingrid ==> p == Placement(darts, g))
      && (forall c :: c != darts[i].ingrid && c != CellOf(darts[i].x, darts[i].y) ==>
            Members(p.grid, c) == Members(g, c))
  {
    var d := darts[i];
    var oc, nc := d.ingrid, CellOf(d.x, d.y);
    if nc != oc {
      var darts', g' := ResyncMoves(darts, g, i);
      MoveKeepsStoredIndices(darts, g, i, nc, darts', g');
      MoveKeepsSingleEntry(darts, g, i, nc, darts', g');
    }
  }

  /** When the cell changes, the resync finds the dart and performs a move. */
  lemma ResyncMoves(darts: seq<Dart>, g: Grid, i: int) returns (darts': seq<Dart>, g': Grid)
    requires GridHolds(darts, g) && 0 <= i < |darts|
    requires InDomain(darts[i].x) && InDomain(darts[i].y)
    requires CellOf(darts[i].x, darts[i].y) != darts[i].ingrid
    ensures Resync(darts, g, i) == Success(Placement(darts', g'))
    ensures IsMove(darts, g, i, CellOf(darts[i].x, darts[i].y), darts', g')
  {
    var d := darts[i];
    var oc, nc := d.ingrid, CellOf(d.x, d.y);
    var was := Members(g, oc);
    assert Filed(darts, g, i);
    assert i in multiset(was);
    var k := Find(was, i).value;
    var g1 := g[oc := EraseAt(was, k)];
    assert Members(g1, nc) == Members(g, nc);
    g' := g1[nc := Members(g, nc) + [i]];
    darts' := darts[i := d.(ingrid := nc)];
    assert was[k] == i;
    assert multiset(g'[oc]) == multiset(was) - multiset{i};
    assert forall c :: c != oc && c != nc ==> Members(g', c) == Members(g, c);
  }

  /** Appending a fresh dart to the list of its own cell keeps the grid
      invariant. */
  lemma {:induction false} AppendKeepsGrid(darts: seq<Dart>, g: Grid, d: Dart)
    requires GridHolds(darts, g) && InGrid(d.ingrid)
    ensures GridHolds(darts + [d], g[d.ingrid := Members(g, d.ingrid) + [|darts|]])
  {
    var c, n := d.ingrid, |darts|;
    var darts' := darts + [d];
    var g' := g[c := Members(g, c) + [n]];
    assert n !in Members(g, c) by {
      forall t | 0 <= t < |Members(g, c)|
        ensures Members(g, c)[t] != n
      {
        assert g[c][t] < n;
      }
    }
    forall c', t | c' in g' && 0 <= t < |g'[c']|
      ensures 0 <= g'[c'][t] < |darts'| && darts'[g'[c'][t]].ingrid == c'
    {
      if c' == c && t < |Members(g, c)| {
        assert g'[c'][t] == g[c][t];
      } else if c' != c {
        assert g'[c'][t] == g[c'][t];
      }
    }
    forall j | 0 <= j < |darts'|
      ensures Filed(darts', g', j)
    {
      if j < n {
        assert darts'[j] == darts[j];
        assert Filed(darts, g, j);
        var cj := darts[j].ingrid;
        if cj == c {
          assert multiset(Members(g', c))[j] == multiset(Members(g, c))[j];
        } else {
          assert Members(g', cj) == Members(g, cj);
        }
      }
    }
  }

  /** One iteration of the start-up loop (main.cpp:296-299): append a dart at
      the given position and heading, cache its cell and append its index to
      that cell's list. This fails exactly when the cell lies outside the
      grid; otherwise the invariant is kept and only that cell's list
      changes. */
  function Spawn(darts: seq<Dart>, g: Grid, x: real, y: real, ang: real): (r: Result)
    requires GridHolds(darts, g)
    ensures r.Success? <==> InGrid(CellOf(x, y))
    ensures r.Failure? ==> r.error == OutsideGrid(|darts|, CellOf(x, y))
    ensures r.Success? ==>
      && GridHolds(r.value.darts, r.value.grid)
      && r.value.darts == darts + [Dart(x, y, ang, CellOf(x, y))]
      && Members(r.value.grid, CellOf(x, y)) == Members(g, CellOf(x, y)) + [|darts|]
      && (forall c :: c != CellOf(x, y) ==> Members(r.value.grid, c) == Members(g, c))
  {
    var d := Dart(x, y, ang, CellOf(x, y));
    if !InGrid(d.ingrid) then Failure(OutsideGrid(|darts|, d.ingrid))
    else
      AppendKeepsGrid(darts, g, d);
      Success(Placement(darts + [d], g[d.ingrid := Members(g, d.ingrid) + [|darts|]]))
  }
}
