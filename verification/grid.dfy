/** The optional value used for the food cell (unset before the first spawn)
    and for the single-slot direction buffer (null when empty). */
module Optional {

  datatype Option<+T> = None | Some(value: T)
}

/** Static geometry of the board: integer cells, unit direction vectors,
    the bounds test and the row-major order in which the fallback food scan
    visits the cells. */
module Grid {

  /** Number of cells along each side of the square board. */
  const GridCells: int := 20

  /** Cells run from -HalfGrid to HalfGrid - 1 on both axes. */
  const HalfGrid: int := GridCells / 2

  /** One board cell; `x` is the source's `gx`, `z` its `gz`. */
  datatype Cell = Cell(x: int, z: int)

  /** A heading, as an offset added to the head each tick. */
  datatype Vec = Vec(x: int, z: int)

  const North: Vec := Vec(0, 1)
  const South: Vec := Vec(0, -1)
  const West: Vec := Vec(-1, 0)
  const East: Vec := Vec(1, 0)

  /** Exactly one component is nonzero and it has magnitude one. */
  predicate IsUnit(v: Vec) {
    if v.x == 0 then v.z == 1 || v.z == -1 else v.z == 0 && (v.x == 1 || v.x == -1)
  }

  function Neg(v: Vec): Vec {
    Vec(-v.x, -v.z)
  }

  function Translate(c: Cell, v: Vec): Cell {
    Cell(c.x + v.x, c.z + v.z)
  }

  /** Two cells are neighbours on the board. */
  predicate Adjacent(a: Cell, b: Cell) {
    IsUnit(Vec(a.x - b.x, a.z - b.z))
  }

  /** The source's bounds test on a coordinate pair. */
  predicate IsInsideBounds(gx: int, gz: int) {
    gx >= -HalfGrid && gx < HalfGrid && gz >= -HalfGrid && gz < HalfGrid
  }

  predicate InBounds(c: Cell) {
    IsInsideBounds(c.x, c.z)
  }

  /** Row-major order with `z` as the outer coordinate: the order of the
      fallback scan, whose outer loop runs over `gz` and inner over `gx`. */
  predicate RowMajorLess(a: Cell, b: Cell) {
    a.z < b.z || (a.z == b.z && a.x < b.x)
  }

  /** The cell the row-major scan visits at position `i`. */
  function CellAt(i: int): Cell {
    Cell(i % GridCells - HalfGrid, i / GridCells - HalfGrid)
  }

  /** The scan position of a cell. */
  function IndexOf(c: Cell): int {
    (c.z + HalfGrid) * GridCells + (c.x + HalfGrid)
  }

  /** No heading is its own reverse, so the reversal test can only reject
      the opposite heading. */
  lemma UnitIsNotItsReverse(v: Vec)
    requires IsUnit(v)
    ensures v != Neg(v)
  {
  }

  /** The bounds test accepts exactly the half-open square `[-10, 10)²`. */
  lemma BoundsAreHalfOpen(gx: int, gz: int)
    ensures IsInsideBounds(gx, gz) <==> -10 <= gx < 10 && -10 <= gz < 10
    ensures IsInsideBounds(9, 0) && IsInsideBounds(-10, 0)
    ensures !IsInsideBounds(10, 0) && !IsInsideBounds(-11, 0)
  {
  }

  /** The cells inside the bounds are exactly the `GridCells * GridCells`
      scan positions, and the scan position order is row-major order. This
      checks `RowMajorLess` against the nested loops' counting order; the
      fallback scan itself, `Food.ScanFrom`, is specified through
      `RowMajorLess` and not through `CellAt`. */
  lemma ScanPositionsEnumerateBoard(c: Cell, i: int)
    ensures InBounds(c) ==> 0 <= IndexOf(c) < GridCells * GridCells && CellAt(IndexOf(c)) == c
    ensures 0 <= i < GridCells * GridCells ==> InBounds(CellAt(i)) && IndexOf(CellAt(i)) == i
    ensures InBounds(c) && 0 <= i < GridCells * GridCells ==>
              (RowMajorLess(c, CellAt(i)) <==> IndexOf(c) < i)
  {
    if InBounds(c) {
      var k := IndexOf(c);
      assert k == (c.z + 10) * 20 + (c.x + 10);
      assert k / 20 == c.z + 10 && k % 20 == c.x + 10;
    }
    if 0 <= i < GridCells * GridCells {
      assert i == (i / 20) * 20 + i % 20;
      if InBounds(c) {
        var k := IndexOf(c);
        assert k / 20 == c.z + 10 && k % 20 == c.x + 10;
        assert k == (k / 20) * 20 + k % 20;
      }
    }
  }
}
