/** Toroidal neighbour geometry of the grid: a flat cell index `i` stands for
    the column `x = i % cols` and the row `y = i / cols`, and the eight cells
    around it are listed row by row (offset_y outer, offset_x inner, each from
    -1 to 1), skipping the cell itself. */
module Geometry {

  /** The (offset_x, offset_y) pairs in the order the nested loops visit them. */
  function Offsets(): (os: seq<(int, int)>)
    ensures |os| == 8
    ensures forall k :: 0 <= k < 8 ==> -1 <= os[k].0 <= 1 && -1 <= os[k].1 <= 1 && os[k] != (0, 0)
  {
    [(-1, -1), (0, -1), (1, -1),
     (-1, 0),           (1, 0),
     (-1, 1),  (0, 1),  (1, 1)]
  }

  /** Position of the pair (dx, dy) in `Offsets()`, or equivalently the number
      of pairs the loops have pushed before reaching it; dx == 2 means that the
      row dy is finished. */
  function Slot(dx: int, dy: int): int
  {
    3 * (dy + 1) + (dx + 1) - (if dy > 0 || (dy == 0 && dx > 0) then 1 else 0)
  }

  lemma SlotOfOffset(dx: int, dy: int)
    requires -1 <= dx <= 1 && -1 <= dy <= 1 && (dx, dy) != (0, 0)
    ensures 0 <= Slot(dx, dy) < 8 && Offsets()[Slot(dx, dy)] == (dx, dy)
  {
  }

  /** The single-step edge fix-up: -1 becomes the last position and one past the
      last position becomes 0; anything else is left alone. A position already
      on the axis is kept, and one step off either end lands back on the axis. */
  function WrapStep(v: int, n: int): (w: int)
    ensures 0 <= v < n ==> w == v
    ensures n > 0 && -1 <= v <= n ==> 0 <= w < n
  {
    if v == -1 then n - 1 else if v == n then 0 else v
  }

  /** Flat index of the cell at offset (dx, dy) from in-grid cell `i`: an
      in-grid index whose column and row are those of `i` moved by the offset
      and wrapped around the torus. */
  function NeighbourAt(i: int, rows: int, cols: int, dx: int, dy: int): (n: int)
    requires rows > 0 && cols > 0 && 0 <= i < rows * cols
    requires -1 <= dx <= 1 && -1 <= dy <= 1
    ensures 0 <= n < rows * cols
    ensures n % cols == (i % cols + dx) % cols && n / cols == (i / cols + dy) % rows
  {
    IndexToCoordinates(i, rows, cols);
    WrapStepIsMod(i % cols + dx, cols);
    WrapStepIsMod(i / cols + dy, rows);
    CoordinatesToIndex(WrapStep(i % cols + dx, cols), WrapStep(i / cols + dy, rows), rows, cols);
    WrapStep(i / cols + dy, rows) * cols + WrapStep(i % cols + dx, cols)
  }

  /** The eight neighbour indices of cell `i`, in the order the source pushes them. */
  function NeighbourIndices(i: int, rows: int, cols: int): (ns: seq<int>)
    requires rows > 0 && cols > 0 && 0 <= i < rows * cols
    ensures |ns| == 8
  {
    seq(8, k requires 0 <= k < 8 => NeighbourAt(i, rows, cols, Offsets()[k].0, Offsets()[k].1))
  }

  // ---------------------------------------------------------------------
  // Arithmetic on flat indices

  lemma MulMonotone(a: int, b: int, c: int)
    requires a <= b && c >= 0
    ensures a * c <= b * c
  {
  }

  /** Splitting a flat index into column and row and putting it back together
      gives the index again, and the coordinates are inside the grid. */
  lemma IndexToCoordinates(i: int, rows: int, cols: int)
    requires rows > 0 && cols > 0 && 0 <= i < rows * cols
    ensures 0 <= i % cols < cols && 0 <= i / cols < rows
    ensures (i / cols) * cols + i % cols == i
  {
    if i / cols >= rows {
      MulMonotone(rows, i / cols, cols);
      assert false;
    }
  }

  /** Conversely, `y * cols + x` for coordinates inside the grid is an index
      inside the grid whose column and row are `x` and `y`. */
  lemma CoordinatesToIndex(x: int, y: int, rows: int, cols: int)
    requires rows > 0 && cols > 0 && 0 <= x < cols && 0 <= y < rows
    ensures 0 <= y * cols + x < rows * cols
    ensures (y * cols + x) % cols == x && (y * cols + x) / cols == y
  {
    MulMonotone(y, rows - 1, cols);
    assert (rows - 1) * cols + cols == rows * cols;
    CoordinatesUnique(y, x, (y * cols + x) / cols, (y * cols + x) % cols, cols);
  }

  /** Row-major indices determine their coordinates. */
  lemma CoordinatesUnique(y1: int, x1: int, y2: int, x2: int, cols: int)
    requires cols > 0 && 0 <= x1 < cols && 0 <= x2 < cols
    requires y1 * cols + x1 == y2 * cols + x2
    ensures y1 == y2 && x1 == x2
  {
    if y1 < y2 {
      MulMonotone(y1 + 1, y2, cols);
      assert false;
    } else if y2 < y1 {
      MulMonotone(y2 + 1, y1, cols);
      assert false;
    }
  }

  // ---------------------------------------------------------------------
  // Properties of the neighbour list

  /** Because offsets are only -1, 0 or 1, the edge fix-up is the same as
      taking the remainder modulo the grid size. */
  lemma WrapStepIsMod(v: int, n: int)
    requires n > 0 && -1 <= v <= n
    ensures WrapStep(v, n) == v % n
    ensures 0 <= WrapStep(v, n) < n
  {
    if v == -1 {
      assert (n - 1) + (-1) * n == -1;
    } else if v == n {
      assert 0 + 1 * n == n;
    }
  }

  /** Every neighbour index lies inside the grid, and neighbour k is the cell
      at column `(x + dx) mod cols` and row `(y + dy) mod rows` where (dx, dy)
      is the k-th offset. */
  lemma NeighbourCoordinates(i: int, rows: int, cols: int, k: int)
    requires rows > 0 && cols > 0 && 0 <= i < rows * cols && 0 <= k < 8
    ensures var (dx, dy) := Offsets()[k];
            NeighbourIndices(i, rows, cols)[k] == ((i / cols + dy) % rows) * cols + (i % cols + dx) % cols
    ensures 0 <= NeighbourIndices(i, rows, cols)[k] < rows * cols
  {
    var (dx, dy) := Offsets()[k];
    IndexToCoordinates(i, rows, cols);
    WrapStepIsMod(i % cols + dx, cols);
    WrapStepIsMod(i / cols + dy, rows);
    CoordinatesToIndex(WrapStep(i % cols + dx, cols), WrapStep(i / cols + dy, rows), rows, cols);
  }

  /** All eight neighbour indices of an in-grid cell are in-grid. */
  lemma NeighbourIndicesInRange(i: int, rows: int, cols: int)
    requires rows > 0 && cols > 0 && 0 <= i < rows * cols
    ensures forall k :: 0 <= k < 8 ==> 0 <= NeighbourIndices(i, rows, cols)[k] < rows * cols
  {
    forall k | 0 <= k < 8
      ensures 0 <= NeighbourIndices(i, rows, cols)[k] < rows * cols
    {
      NeighbourCoordinates(i, rows, cols, k);
    }
  }

  /** On an axis of length at least 3, different offsets reach different positions. */
  lemma WrapStepInjective(v: int, n: int, d1: int, d2: int)
    requires n >= 3 && 0 <= v < n && -1 <= d1 <= 1 && -1 <= d2 <= 1 && d1 != d2
    ensures WrapStep(v + d1, n) != WrapStep(v + d2, n)
  {
  }

  /** On a grid of at least 3 by 3 cells, two different offsets in
      {-1, 0, 1} x {-1, 0, 1} lead to two different cells. */
  lemma OffsetsReachDistinctCells(i: int, rows: int, cols: int, dx1: int, dy1: int, dx2: int, dy2: int)
    requires rows >= 3 && cols >= 3 && 0 <= i < rows * cols
    requires -1 <= dx1 <= 1 && -1 <= dy1 <= 1 && -1 <= dx2 <= 1 && -1 <= dy2 <= 1
    requires (dx1, dy1) != (dx2, dy2)
    ensures NeighbourAt(i, rows, cols, dx1, dy1) != NeighbourAt(i, rows, cols, dx2, dy2)
  {
    IndexToCoordinates(i, rows, cols);
    var x, y := i % cols, i / cols;
    WrapStepIsMod(x + dx1, cols);
    WrapStepIsMod(x + dx2, cols);
    if NeighbourAt(i, rows, cols, dx1, dy1) == NeighbourAt(i, rows, cols, dx2, dy2) {
      CoordinatesUnique(WrapStep(y + dy1, rows), WrapStep(x + dx1, cols),
                        WrapStep(y + dy2, rows), WrapStep(x + dx2, cols), cols);
      if dx1 != dx2 {
        WrapStepInjective(x, cols, dx1, dx2);
      } else {
        WrapStepInjective(y, rows, dy1, dy2);
      }
    }
  }

  /** The offset (0, 0) that the loops skip would have been the cell itself. */
  lemma CentreIsSelf(i: int, rows: int, cols: int)
    requires rows > 0 && cols > 0 && 0 <= i < rows * cols
    ensures NeighbourAt(i, rows, cols, 0, 0) == i
  {
    IndexToCoordinates(i, rows, cols);
  }

  /** The eight neighbours are pairwise different and all differ from the cell
      itself exactly when the grid is at least 3 by 3. On a narrower grid the
      left and right neighbours coincide, on a lower grid the upper and lower
      neighbours coincide, and the source does not guard against either. */
  lemma NeighboursDistinctIff(i: int, rows: int, cols: int)
    requires rows > 0 && cols > 0 && 0 <= i < rows * cols
    ensures var ns := NeighbourIndices(i, rows, cols);
            (forall k, l :: 0 <= k < l < 8 ==> ns[k] != ns[l]) && i !in ns
            <==> rows >= 3 && cols >= 3
    ensures var ns := NeighbourIndices(i, rows, cols);
            rows < 3 || cols < 3 ==> exists k, l :: 0 <= k < l < 8 && ns[k] == ns[l]
  {
    var ns := NeighbourIndices(i, rows, cols);
    var x, y := i % cols, i / cols;
    if rows >= 3 && cols >= 3 {
      forall k, l | 0 <= k < l < 8
        ensures ns[k] != ns[l]
      {
        OffsetsReachDistinctCells(i, rows, cols, Offsets()[k].0, Offsets()[k].1, Offsets()[l].0, Offsets()[l].1);
      }
      forall k | 0 <= k < 8
        ensures ns[k] != i
      {
        CentreIsSelf(i, rows, cols);
        OffsetsReachDistinctCells(i, rows, cols, Offsets()[k].0, Offsets()[k].1, 0, 0);
      }
    } else if cols < 3 {
      // left (slot 3) and right (slot 4) neighbours are the same cell
      IndexToCoordinates(i, rows, cols);
      assert WrapStep(x - 1, cols) == WrapStep(x + 1, cols);
      assert ns[3] == ns[4];
    } else {
      // upper (slot 1) and lower (slot 6) neighbours are the same cell
      IndexToCoordinates(i, rows, cols);
      assert WrapStep(y - 1, rows) == WrapStep(y + 1, rows);
      assert ns[1] == ns[6];
    }
  }

  /** On a grid one cell wide, the left neighbour of every cell is the cell itself. */
  lemma SingleColumnSeesItself(i: int, rows: int)
    requires rows > 0 && 0 <= i < rows
    ensures NeighbourIndices(i, rows, 1)[3] == i
  {
    IndexToCoordinates(i, rows, 1);
  }

  /** The wrapped neighbourhood of the top-left corner of a 3 by 3 grid. */
  lemma CornerOfThreeByThree()
    ensures NeighbourIndices(0, 3, 3) == [8, 6, 7, 2, 1, 5, 3, 4]
  {
  }
}
