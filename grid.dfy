/** The simulation state: the grid dimensions and the two swappable buffers
    `cells` (the generation shown) and `old_cells` (the previous generation,
    reused as scratch space on the next step). */
module Life {
  import opened Geometry
  import opened Rules

  class Grid {
    const rows: int
    const cols: int
    var cells: array<int>
    var old_cells: array<int>

    /** Both buffers hold one value per cell and are distinct arrays, so that
        writing the new generation never disturbs the one it is read from. */
    ghost predicate Valid()
      reads this
    {
      rows > 0 && cols > 0 &&
      cells.Length == rows * cols && old_cells.Length == rows * cols &&
      cells != old_cells
    }

    /** Buffers of `rows * cols` cells; the unset entries of a fresh JavaScript
        array are modelled as dead cells. */
    constructor (rows: int, cols: int)
      requires rows > 0 && cols > 0
      ensures Valid() && this.rows == rows && this.cols == cols
      ensures fresh(cells) && fresh(old_cells)
      ensures AllDead(cells[..]) && AllDead(old_cells[..])
    {
      this.rows := rows;
      this.cols := cols;
      cells := new int[rows * cols](_ => 0);
      old_cells := new int[rows * cols](_ => 0);
    }

    /** The reset loop: each cell is either spawned with a hue or set to 0.
        `spawn[i]` stands for `random() < initial_spawn_ratio` and `hue[i]` for
        `round(random() * 360)`. The previous-generation buffer is untouched. */
    method Reset(spawn: seq<bool>, hue: seq<int>)
      requires Valid()
      requires |spawn| == cells.Length && |hue| == cells.Length && HuesInRange(hue)
      modifies cells
      ensures Valid()
      ensures cells[..] == ResetCells(spawn, hue)
      ensures HuesInRange(cells[..])
      ensures unchanged(old_cells)
    {
      var i := 0;
      while i < cells.Length
        invariant 0 <= i <= cells.Length
        invariant forall j :: 0 <= j < i ==> cells[j] == (if spawn[j] then hue[j] else 0)
        invariant unchanged(old_cells)
      {
        cells[i] := if spawn[i] then hue[i] else 0;
        i := i + 1;
      }
      ResetEstablishesHueRange(spawn, hue);
    }

    /** The neighbour indices of cell i, built by the two nested offset loops
        with the edge fix-up, exactly as the source pushes them. */
    method GetNeighbourIndices(i: int) returns (ns: seq<int>)
      requires Valid() && 0 <= i < rows * cols
      ensures ns == NeighbourIndices(i, rows, cols)
      ensures forall k :: 0 <= k < |ns| ==> 0 <= ns[k] < rows * cols
    {
      ns := [];
      var x := i % cols;
      var y := i / cols;
      var dy := -1;
      while dy <= 1
        invariant -1 <= dy <= 2
        invariant |ns| == Slot(-1, dy)
        invariant forall k :: 0 <= k < |ns| ==> ns[k] == NeighbourIndices(i, rows, cols)[k]
      {
        var dx := -1;
        while dx <= 1
          invariant -1 <= dx <= 2
          invariant |ns| == Slot(dx, dy)
          invariant forall k :: 0 <= k < |ns| ==> ns[k] == NeighbourIndices(i, rows, cols)[k]
        {
          if dy == 0 && dx == 0 {
            dx := dx + 1;
            continue;
          }
          var nx := x + dx;
          var ny := y + dy;
          if nx == -1 {
            nx := cols - 1;
          } else if nx == cols {
            nx := 0;
          }
          if ny == -1 {
            ny := rows - 1;
          } else if ny == rows {
            ny := 0;
          }
          SlotOfOffset(dx, dy);
          ns := ns + [ny * cols + nx];
          dx := dx + 1;
        }
        dy := dy + 1;
      }
      NeighbourIndicesInRange(i, rows, cols);
    }

    /** The per-cell step of the generation loop: `Rules.NextCell` computed
        over the array `old_cells`. It gathers the neighbour values, keeps the
        non-zero ones and applies the rule's branches in the source's order.
        `c` is the parent picked if the cell is born. */
    method CellRule(i: int, c: int) returns (next: int)
      requires Valid() && 0 <= i < old_cells.Length && 0 <= c < 3
      ensures next == NextCell(old_cells[..], rows, cols, i, c)
    {
      var ns := GetNeighbourIndices(i);
      var alive := AliveValues(Gather(old_cells[..], ns));
      assert alive == AliveValues(NeighbourValues(old_cells[..], rows, cols, i));
      var isAlive := old_cells[i] > 0;
      if isAlive {
        if |alive| < 2 {
          next := 0;
        } else if |alive| > 3 {
          next := 0;
        } else {
          next := old_cells[i];
        }
      } else {
        if |alive| == 3 {
          next := alive[c];
        } else {
          next := 0;
        }
      }
    }

    /** One generation: swap the two buffers by reference, then write every
        cell of the new `cells` from `old_cells` by the B3/S23 rule. `choice[i]`
        stands for `floor(random() * 3)`, the parent picked if cell i is born. */
    method UpdateCells(choice: seq<int>)
      requires Valid()
      requires ValidChoices(choice, cells.Length)
      modifies this, old_cells
      ensures Valid()
      ensures cells == old(old_cells) && old_cells == old(cells)
      ensures old_cells[..] == old(cells[..])
      ensures cells[..] == NextGeneration(old(cells[..]), rows, cols, choice)
      ensures HuesInRange(old(cells[..])) ==> HuesInRange(cells[..])
    {
      cells, old_cells := old_cells, cells;
      ghost var prev := old_cells[..];
      assert WellFormed(prev, rows, cols);
      var i := 0;
      while i < old_cells.Length
        invariant 0 <= i <= old_cells.Length
        invariant Valid() && cells == old(old_cells) && old_cells == old(cells)
        invariant old_cells[..] == prev
        invariant forall j :: 0 <= j < i ==> cells[j] == NextCell(prev, rows, cols, j, choice[j])
      {
        var next := CellRule(i, choice[i]);
        cells[i] := next;
        i := i + 1;
      }
      assert cells[..] == NextGeneration(prev, rows, cols, choice);
      if HuesInRange(prev) {
        StepPreservesHueRange(prev, rows, cols, choice);
      }
    }
  }
}
