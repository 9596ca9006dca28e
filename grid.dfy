/** Grid geometry and trail utilities of the memory game: cells addressed by
    (row, column), the centre origin, 4-adjacency, the free-neighbour query
    and the invariant every trail keeps. */
module Grid {

  datatype Option<T> = None | Some(value: T)

  /** A cell, addressed by (row, column). */
  type Cell = (int, int)

  /** A connector drawn from the first cell's centre to the second's. */
  type Line = (Cell, Cell)

  /** Both grid dimensions are positive and odd, so a unique centre exists. */
  predicate ValidDims(rows: int, cols: int) {
    rows > 0 && cols > 0 && rows % 2 == 1 && cols % 2 == 1
  }

  predicate InBounds(rows: int, cols: int, c: Cell) {
    0 <= c.0 < rows && 0 <= c.1 < cols
  }

  /** The centre cell, where every trail starts. */
  function Origin(rows: int, cols: int): (o: Cell) {
    ((rows - 1) / 2, (cols - 1) / 2)
  }

  /** Axis-aligned neighbours: same row and adjacent columns, or the reverse. */
  predicate Adjacent(a: Cell, b: Cell) {
    (a.0 == b.0 && (a.1 == b.1 - 1 || a.1 == b.1 + 1)) ||
    (a.1 == b.1 && (a.0 == b.0 - 1 || a.0 == b.0 + 1))
  }

  /** The four neighbours of `c` in the order the game examines them:
      left, right, up, down. */
  function Candidates(c: Cell): (r: seq<Cell>) {
    [(c.0, c.1 - 1), (c.0, c.1 + 1), (c.0 - 1, c.1), (c.0 + 1, c.1)]
  }

  /** A cell the trail may grow into: on the grid and not yet on the trail. */
  predicate IsFree(rows: int, cols: int, trail: seq<Cell>, c: Cell) {
    c !in trail && InBounds(rows, cols, c)
  }

  /** `x` alone if it is free, nothing otherwise. */
  function IfFree(rows: int, cols: int, trail: seq<Cell>, x: Cell): (r: seq<Cell>) {
    if IsFree(rows, cols, trail, x) then [x] else []
  }

  /** The free cells of `cands`, in their order in `cands`. */
  function KeepFree(rows: int, cols: int, trail: seq<Cell>, cands: seq<Cell>): (r: seq<Cell>)
    decreases |cands|
  {
    if cands == [] then []
    else KeepFree(rows, cols, trail, cands[..|cands| - 1]) + IfFree(rows, cols, trail, cands[|cands| - 1])
  }

  /** The free neighbours of `c`, in the order of `Candidates`. */
  function FreeNeighbours(rows: int, cols: int, trail: seq<Cell>, c: Cell): (r: seq<Cell>) {
    KeepFree(rows, cols, trail, Candidates(c))
  }

  /** The random pick of `extendTrail` is a caller-supplied index into the
      free neighbours of the trail's last cell; it must fit when there are any. */
  predicate ChoiceFits(rows: int, cols: int, trail: seq<Cell>, choice: nat) {
    |trail| > 0 ==>
      var free := FreeNeighbours(rows, cols, trail, trail[|trail| - 1]);
      free == [] || choice < |free|
  }

  function Last(t: seq<Cell>): (c: Cell)
    requires |t| > 0
  {
    t[|t| - 1]
  }

  predicate Distinct(t: seq<Cell>) {
    forall i, j :: 0 <= i < j < |t| ==> t[i] != t[j]
  }

  /** What every trail of a game satisfies: it starts at the origin, stays on
      the grid, steps between 4-adjacent cells and never revisits a cell. */
  predicate ValidTrail(rows: int, cols: int, t: seq<Cell>) {
    |t| > 0 && t[0] == Origin(rows, cols) &&
    (forall i :: 0 <= i < |t| ==> InBounds(rows, cols, t[i])) &&
    (forall i :: 1 <= i < |t| ==> Adjacent(t[i - 1], t[i])) &&
    Distinct(t)
  }

  /** The cells a (prefix of a) trail covers. */
  function CellsOf(t: seq<Cell>): (r: set<Cell>) {
    set c | c in t
  }

  /** The connectors between consecutive cells of `t`, in trail order. */
  function Segments(t: seq<Cell>): (r: seq<Line>)
    decreases |t|
  {
    if |t| < 2 then []
    else Segments(t[..|t| - 1]) + [(t[|t| - 2], t[|t| - 1])]
  }

  function GridCells(rows: nat, cols: nat): (r: set<Cell>) {
    set r, c | 0 <= r < rows && 0 <= c < cols :: (r, c)
  }

  function RowCells(row: int, cols: nat): (r: set<Cell>) {
    set c | 0 <= c < cols :: (row, c)
  }

  // ---------------------------------------------------------------------
  // Queries of the source, as loops
  // ---------------------------------------------------------------------

  /** `isInTrail`: scans the trail for (row, col). */
  method IsInTrail(trail: seq<Cell>, row: int, col: int) returns (found: bool)
    ensures found <==> (row, col) in trail
  {
    for i := 0 to |trail|
      invariant forall k :: 0 <= k < i ==> trail[k] != (row, col)
    {
      if trail[i].0 == row && trail[i].1 == col {
        return true;
      }
    }
    return false;
  }

  /** `findFreeNeighbours`: collects the free neighbours of (row, col) in the
      order left, right, up, down; `None` stands for the source's null, which
      it returns exactly when no neighbour is free. */
  method FindFreeNeighbours(rows: int, cols: int, trail: seq<Cell>, row: int, col: int)
    returns (r: Option<seq<Cell>>)
    ensures r.None? <==> forall x :: x in Candidates((row, col)) ==> !IsFree(rows, cols, trail, x)
    ensures r.Some? ==> r.value == FreeNeighbours(rows, cols, trail, (row, col)) && r.value != []
    ensures r.None? ==> FreeNeighbours(rows, cols, trail, (row, col)) == []
  {
    var cands := Candidates((row, col));
    var inactiveNeighbours: seq<Cell> := [];
    for i := 0 to |cands|
      invariant inactiveNeighbours == KeepFree(rows, cols, trail, cands[..i])
    {
      var x := cands[i];
      var inTrail := IsInTrail(trail, x.0, x.1);
      if !inTrail && x.0 >= 0 && x.0 < rows && x.1 >= 0 && x.1 < cols {
        inactiveNeighbours := inactiveNeighbours + [x];
      }
      assert cands[..i + 1][..i] == cands[..i];
    }
    assert cands[..|cands|] == cands;
    if |inactiveNeighbours| > 0 {
      r := Some(inactiveNeighbours);
      KeepFreeMembers(rows, cols, trail, cands, inactiveNeighbours[0]);
    } else {
      r := None;
      forall x | x in cands ensures !IsFree(rows, cols, trail, x) {
        KeepFreeMembers(rows, cols, trail, cands, x);
      }
    }
  }

  // ---------------------------------------------------------------------
  // Free neighbours: soundness, completeness, order
  // ---------------------------------------------------------------------

  lemma {:induction false} KeepFreeMembers(rows: int, cols: int, trail: seq<Cell>, cands: seq<Cell>, x: Cell)
    ensures x in KeepFree(rows, cols, trail, cands) <==> x in cands && IsFree(rows, cols, trail, x)
    decreases |cands|
  {
    if cands != [] {
      var init := cands[..|cands| - 1];
      KeepFreeMembers(rows, cols, trail, init, x);
      assert cands == init + [cands[|cands| - 1]];
    }
  }

  /** A cell is among the free neighbours of `c` exactly when it is one of
      its four neighbours, on the grid, and not on the trail. */
  lemma FreeNeighboursExactly(rows: int, cols: int, trail: seq<Cell>, c: Cell, x: Cell)
    ensures x in FreeNeighbours(rows, cols, trail, c) <==>
            x in Candidates(c) && InBounds(rows, cols, x) && x !in trail
  {
    KeepFreeMembers(rows, cols, trail, Candidates(c), x);
  }

  /** The free neighbours come in the fixed order left, right, up, down. */
  lemma FreeNeighboursInOrder(rows: int, cols: int, trail: seq<Cell>, c: Cell)
    ensures FreeNeighbours(rows, cols, trail, c) ==
            IfFree(rows, cols, trail, (c.0, c.1 - 1)) + IfFree(rows, cols, trail, (c.0, c.1 + 1)) +
            IfFree(rows, cols, trail, (c.0 - 1, c.1)) + IfFree(rows, cols, trail, (c.0 + 1, c.1))
  {
    var cs := Candidates(c);
    assert cs[..4] == cs;
    assert cs[..3][..2] == cs[..2];
    assert cs[..2][..1] == cs[..1];
    assert cs[..1][..0] == [];
    assert KeepFree(rows, cols, trail, cs[..1]) == IfFree(rows, cols, trail, cs[0]);
    assert KeepFree(rows, cols, trail, cs[..2]) == IfFree(rows, cols, trail, cs[0]) + IfFree(rows, cols, trail, cs[1]);
    assert KeepFree(rows, cols, trail, cs[..3]) ==
           IfFree(rows, cols, trail, cs[0]) + IfFree(rows, cols, trail, cs[1]) + IfFree(rows, cols, trail, cs[2]);
  }

  /** Every free neighbour is 4-adjacent to the cell it was computed for. */
  lemma FreeNeighboursAdjacent(rows: int, cols: int, trail: seq<Cell>, c: Cell, x: Cell)
    requires x in FreeNeighbours(rows, cols, trail, c)
    ensures Adjacent(c, x) && InBounds(rows, cols, x) && x !in trail
  {
    FreeNeighboursExactly(rows, cols, trail, c, x);
  }

  // ---------------------------------------------------------------------
  // The trail invariant
  // ---------------------------------------------------------------------

  /** The origin is the exact centre of a grid with odd dimensions. */
  lemma OriginIsCentre(rows: int, cols: int)
    requires ValidDims(rows, cols)
    ensures InBounds(rows, cols, Origin(rows, cols))
    ensures 2 * Origin(rows, cols).0 + 1 == rows && 2 * Origin(rows, cols).1 + 1 == cols
  {
  }

  /** The trail a new game starts with satisfies the invariant. */
  lemma StartTrailValid(rows: int, cols: int)
    requires ValidDims(rows, cols)
    ensures ValidTrail(rows, cols, [Origin(rows, cols)])
  {
    OriginIsCentre(rows, cols);
  }

  /** Appending a free neighbour of the last cell keeps the invariant. */
  lemma ExtendKeepsValid(rows: int, cols: int, t: seq<Cell>, x: Cell)
    requires ValidTrail(rows, cols, t)
    requires x in FreeNeighbours(rows, cols, t, Last(t))
    ensures ValidTrail(rows, cols, t + [x])
  {
    FreeNeighboursAdjacent(rows, cols, t, Last(t), x);
    var u := t + [x];
    forall i, j | 0 <= i < j < |u| ensures u[i] != u[j] {
      if j == |t| {
        assert u[i] == t[i];
      }
    }
  }

  /** On a new trail of the origin alone, the free neighbours are the
      neighbours the grid has: two across if it has more than one column,
      two along if it has more than one row. */
  lemma OriginFreeCount(rows: int, cols: int)
    requires ValidDims(rows, cols)
    ensures var o := Origin(rows, cols);
            |FreeNeighbours(rows, cols, [o], o)| ==
            (if cols > 1 then 2 else 0) + (if rows > 1 then 2 else 0)
  {
    var o := Origin(rows, cols);
    OriginIsCentre(rows, cols);
    FreeNeighboursInOrder(rows, cols, [o], o);
    assert IsFree(rows, cols, [o], (o.0, o.1 - 1)) <==> cols > 1;
    assert IsFree(rows, cols, [o], (o.0, o.1 + 1)) <==> cols > 1;
    assert IsFree(rows, cols, [o], (o.0 - 1, o.1)) <==> rows > 1;
    assert IsFree(rows, cols, [o], (o.0 + 1, o.1)) <==> rows > 1;
  }

  lemma {:induction false} DistinctCellsCount(t: seq<Cell>)
    requires Distinct(t)
    ensures |CellsOf(t)| == |t|
    decreases |t|
  {
    if t != [] {
      var p := t[..|t| - 1];
      assert Distinct(p);
      DistinctCellsCount(p);
      assert t == p + [t[|t| - 1]];
      assert CellsOf(t) == CellsOf(p) + {t[|t| - 1]};
      assert t[|t| - 1] !in CellsOf(p);
    }
  }

  lemma {:induction false} RowCellsCount(r: int, cols: nat)
    ensures |RowCells(r, cols)| == cols
    decreases cols
  {
    if cols > 0 {
      RowCellsCount(r, cols - 1);
      assert RowCells(r, cols) == RowCells(r, cols - 1) + {(r, cols - 1)};
    }
  }

  /** The grid's rows are added one at a time. */
  lemma GridCellsSplit(rows: nat, cols: nat)
    requires rows > 0
    ensures GridCells(rows, cols) == GridCells(rows - 1, cols) + RowCells(rows - 1, cols)
    ensures GridCells(rows - 1, cols) * RowCells(rows - 1, cols) == {}
  {
  }

  lemma {:induction false} GridCellsCount(rows: nat, cols: nat)
    ensures |GridCells(rows, cols)| == rows * cols
    decreases rows
  {
    if rows > 0 {
      GridCellsCount(rows - 1, cols);
      RowCellsCount(rows - 1, cols);
      GridCellsSplit(rows, cols);
      assert (rows - 1) * cols + cols == rows * cols;
    }
  }

  lemma {:induction false} SubsetCount(a: set<Cell>, b: set<Cell>)
    requires a <= b
    ensures |a| <= |b|
    decreases |b|
  {
    if a != {} {
      var x :| x in a;
      SubsetCount(a - {x}, b - {x});
    }
  }

  /** No trail is longer than the grid has cells. */
  lemma TrailBound(rows: int, cols: int, t: seq<Cell>)
    requires ValidDims(rows, cols)
    requires ValidTrail(rows, cols, t)
    ensures |t| <= rows * cols
  {
    DistinctCellsCount(t);
    GridCellsCount(rows, cols);
    forall x | x in CellsOf(t) ensures x in GridCells(rows, cols) {
      assert x == (x.0, x.1);
    }
    SubsetCount(CellsOf(t), GridCells(rows, cols));
  }

  // ---------------------------------------------------------------------
  // Playback and tracing of a trail prefix
  // ---------------------------------------------------------------------

  /** `Segments(t)` holds one connector per step of `t`, the k-th joining
      `t[k]` to `t[k + 1]`. */
  lemma {:induction false} SegmentsAt(t: seq<Cell>)
    ensures |Segments(t)| == (if t == [] then 0 else |t| - 1)
    ensures forall j :: 0 <= j < |Segments(t)| ==> Segments(t)[j] == (t[j], t[j + 1])
    decreases |t|
  {
    if |t| >= 2 {
      var p := t[..|t| - 1];
      SegmentsAt(p);
    }
  }

  /** One more cell of the prefix shows one more cell and, past the first,
      one more connector from its predecessor. */
  lemma PrefixStep(t: seq<Cell>, k: nat)
    requires k < |t|
    ensures CellsOf(t[..k + 1]) == CellsOf(t[..k]) + {t[k]}
    ensures Segments(t[..k + 1]) == Segments(t[..k]) + (if k == 0 then [] else [(t[k - 1], t[k])])
  {
    assert t[..k + 1][..k] == t[..k];
    assert t[..k + 1] == t[..k] + [t[k]];
  }

  /** On a trail without repeats, the next cell to trace is never among the
      cells already traced. */
  lemma NextCellInactive(t: seq<Cell>, k: nat)
    requires Distinct(t) && k < |t|
    ensures t[k] !in CellsOf(t[..k])
  {
  }
}
