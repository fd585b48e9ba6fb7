/** The B3/S23 transition rule with hue inheritance, stated over the previous
    generation as a sequence of cell values: 0 is a dead cell, a positive value
    is a live cell's hue. The random pick of a parent on birth is an input: the
    choice index for each cell, one of 0, 1 or 2. */
module Rules {
  import opened Geometry

  /** The values found at the given indices (`neighbours.map(i => old_cells[i])`). */
  function Gather(cells: seq<int>, indices: seq<int>): (vs: seq<int>)
    requires forall k :: 0 <= k < |indices| ==> 0 <= indices[k] < |cells|
    ensures |vs| == |indices|
    ensures forall k :: 0 <= k < |indices| ==> vs[k] == cells[indices[k]]
  {
    seq(|indices|, k requires 0 <= k < |indices| => cells[indices[k]])
  }

  /** The non-zero values in their original order (`.filter(v => v !== 0)`):
      every non-zero value keeps its multiplicity, zeros are dropped. */
  function AliveValues(vs: seq<int>): (r: seq<int>)
    ensures |r| == |vs| - multiset(vs)[0]
    ensures multiset(r)[0] == 0
    ensures forall v :: v != 0 ==> multiset(r)[v] == multiset(vs)[v]
  {
    if vs == [] then []
    else
      assert vs == [vs[0]] + vs[1..];
      (if vs[0] != 0 then [vs[0]] else []) + AliveValues(vs[1..])
  }

  /** The filter keeps the non-zero values in scan order: if the non-zero
      entries of `vs` sit exactly at the increasing positions `ks`, the
      filtered list is the values at those positions, in that order. */
  lemma {:induction false} AliveValuesInScanOrder(vs: seq<int>, ks: seq<int>)
    requires forall j :: 0 <= j < |ks| ==> 0 <= ks[j] < |vs|
    requires forall j, j' :: 0 <= j < j' < |ks| ==> ks[j] < ks[j']
    requires forall k :: 0 <= k < |vs| ==> (vs[k] != 0 <==> k in ks)
    ensures AliveValues(vs) == seq(|ks|, j requires 0 <= j < |ks| => vs[ks[j]])
    decreases |vs|
  {
    if vs == [] {
      assert |ks| == 0;
    } else {
      var head := vs[0] != 0;
      var drop := if head then 1 else 0;
      if head {
        assert 0 in ks;
        var j0 :| 0 <= j0 < |ks| && ks[j0] == 0;
        assert 0 <= ks[0] <= ks[j0];
        assert j0 == 0;
      } else {
        forall j | 0 <= j < |ks|
          ensures ks[j] != 0
        {
          assert ks[j] in ks;
        }
      }
      var ks' := seq(|ks| - drop, j requires 0 <= j < |ks| - drop => ks[j + drop] - 1);
      ShiftedPositions(vs, ks, drop, ks');
      AliveValuesInScanOrder(vs[1..], ks');
      PositionsShiftValues(vs, ks, drop, ks');
      assert AliveValues(vs) == (if head then [vs[0]] else []) + AliveValues(vs[1..]);
    }
  }

  /** The values at positions `ks` of `vs` are the first value (when position
      0 is among them) followed by the values at the shifted positions `ks'`
      of `vs[1..]`. */
  lemma PositionsShiftValues(vs: seq<int>, ks: seq<int>, drop: int, ks': seq<int>)
    requires |vs| > 0 && 0 <= drop <= 1 && |ks| >= drop
    requires forall j :: 0 <= j < |ks| ==> 0 <= ks[j] < |vs|
    requires drop == 1 ==> ks[0] == 0
    requires |ks'| == |ks| - drop
    requires forall j :: 0 <= j < |ks'| ==> ks'[j] == ks[j + drop] - 1 && 0 <= ks'[j] < |vs| - 1
    ensures seq(|ks|, j requires 0 <= j < |ks| => vs[ks[j]])
            == (if drop == 1 then [vs[0]] else []) + seq(|ks'|, j requires 0 <= j < |ks'| => vs[1..][ks'[j]])
  {
    var want := seq(|ks|, j requires 0 <= j < |ks| => vs[ks[j]]);
    var rest := seq(|ks'|, j requires 0 <= j < |ks'| => vs[1..][ks'[j]]);
    var got := (if drop == 1 then [vs[0]] else []) + rest;
    assert |want| == |got|;
    forall j | 0 <= j < |want|
      ensures want[j] == got[j]
    {
      if j >= drop {
        assert got[j] == rest[j - drop];
      }
    }
  }

  /** Dropping the first value of `vs` shifts its non-zero positions down by one
      (and drops position 0 when that value was non-zero). */
  lemma ShiftedPositions(vs: seq<int>, ks: seq<int>, drop: int, ks': seq<int>)
    requires |vs| > 0 && drop == (if vs[0] != 0 then 1 else 0)
    requires forall j :: 0 <= j < |ks| ==> 0 <= ks[j] < |vs|
    requires forall j, j' :: 0 <= j < j' < |ks| ==> ks[j] < ks[j']
    requires forall k :: 0 <= k < |vs| ==> (vs[k] != 0 <==> k in ks)
    requires drop == 1 ==> |ks| > 0 && ks[0] == 0
    requires drop == 0 ==> forall j :: 0 <= j < |ks| ==> ks[j] != 0
    requires |ks'| == |ks| - drop
    requires forall j :: 0 <= j < |ks'| ==> ks'[j] == ks[j + drop] - 1
    ensures forall j :: 0 <= j < |ks'| ==> 0 <= ks'[j] < |vs| - 1
    ensures forall j, j' :: 0 <= j < j' < |ks'| ==> ks'[j] < ks'[j']
    ensures forall k :: 0 <= k < |vs| - 1 ==> (vs[1..][k] != 0 <==> k in ks')
  {
    forall j | 0 <= j < |ks'|
      ensures 0 <= ks'[j] < |vs| - 1
    {
      if drop == 1 {
        assert ks[0] < ks[j + 1];
      }
    }
    forall k | 0 <= k < |vs| - 1
      ensures vs[1..][k] != 0 <==> k in ks'
    {
      if vs[k + 1] != 0 {
        assert k + 1 in ks;
        var j :| 0 <= j < |ks| && ks[j] == k + 1;
        if drop == 1 {
          assert j != 0;
        }
        assert ks'[j - drop] == k;
      }
      if k in ks' {
        var j :| 0 <= j < |ks'| && ks'[j] == k;
        assert ks[j + drop] == k + 1;
      }
    }
  }

  /** A previous generation that fits a rows x cols grid. */
  predicate WellFormed(prev: seq<int>, rows: int, cols: int)
  {
    rows > 0 && cols > 0 && |prev| == rows * cols
  }

  /** A choice sequence as `floor(random() * 3)` yields it, one entry per cell. */
  predicate ValidChoices(choice: seq<int>, n: int)
  {
    |choice| == n && forall i :: 0 <= i < |choice| ==> 0 <= choice[i] < 3
  }

  /** The eight neighbour values of cell i in the previous generation. */
  function NeighbourValues(prev: seq<int>, rows: int, cols: int, i: int): (vs: seq<int>)
    requires WellFormed(prev, rows, cols) && 0 <= i < |prev|
    ensures |vs| == 8
  {
    NeighbourIndicesInRange(i, rows, cols);
    Gather(prev, NeighbourIndices(i, rows, cols))
  }

  /** Number of the eight neighbour slots that hold a non-zero value. */
  function LiveNeighbourCount(prev: seq<int>, rows: int, cols: int, i: int): int
    requires WellFormed(prev, rows, cols) && 0 <= i < |prev|
  {
    8 - multiset(NeighbourValues(prev, rows, cols, i))[0]
  }

  /** Next value of cell i, following the four rules of the source. */
  function NextCell(prev: seq<int>, rows: int, cols: int, i: int, c: int): (h: int)
    requires WellFormed(prev, rows, cols) && 0 <= i < |prev| && 0 <= c < 3
    ensures prev[i] > 0 ==> h == 0 || h == prev[i]
    ensures prev[i] <= 0 && h != 0 ==> h in NeighbourValues(prev, rows, cols, i)
  {
    var alive := AliveValues(NeighbourValues(prev, rows, cols, i));
    if prev[i] > 0 then
      if |alive| < 2 then 0
      else if |alive| > 3 then 0
      else prev[i]
    else
      if |alive| == 3 then
        assert alive[c] in multiset(alive);
        alive[c]
      else 0
  }

  /** The whole next generation. */
  function NextGeneration(prev: seq<int>, rows: int, cols: int, choice: seq<int>): (next: seq<int>)
    requires WellFormed(prev, rows, cols) && ValidChoices(choice, |prev|)
    ensures |next| == |prev|
    ensures forall i :: 0 <= i < |next| ==>
              next[i] == 0 || next[i] == prev[i] || next[i] in NeighbourValues(prev, rows, cols, i)
  {
    seq(|prev|, i requires 0 <= i < |prev| => NextCell(prev, rows, cols, i, choice[i]))
  }

  // ---------------------------------------------------------------------
  // The rules, stated in terms of the live-neighbour count

  lemma AliveCountIsLiveNeighbourCount(prev: seq<int>, rows: int, cols: int, i: int)
    requires WellFormed(prev, rows, cols) && 0 <= i < |prev|
    ensures |AliveValues(NeighbourValues(prev, rows, cols, i))| == LiveNeighbourCount(prev, rows, cols, i)
  {
  }

  /** Rules 1 and 3: a live cell with fewer than two or more than three live
      neighbours is dead in the next generation. */
  lemma LiveCellDies(prev: seq<int>, rows: int, cols: int, choice: seq<int>, i: int)
    requires WellFormed(prev, rows, cols) && ValidChoices(choice, |prev|) && 0 <= i < |prev|
    requires prev[i] > 0
    requires LiveNeighbourCount(prev, rows, cols, i) < 2 || LiveNeighbourCount(prev, rows, cols, i) > 3
    ensures NextGeneration(prev, rows, cols, choice)[i] == 0
  {
    AliveCountIsLiveNeighbourCount(prev, rows, cols, i);
  }

  /** Rule 2: a live cell with two or three live neighbours keeps its exact hue. */
  lemma LiveCellSurvives(prev: seq<int>, rows: int, cols: int, choice: seq<int>, i: int)
    requires WellFormed(prev, rows, cols) && ValidChoices(choice, |prev|) && 0 <= i < |prev|
    requires prev[i] > 0
    requires 2 <= LiveNeighbourCount(prev, rows, cols, i) <= 3
    ensures NextGeneration(prev, rows, cols, choice)[i] == prev[i]
  {
    AliveCountIsLiveNeighbourCount(prev, rows, cols, i);
  }

  /** Rule 4: a cell that is not live and whose live neighbours sit exactly at
      scan positions k0 < k1 < k2 is born with the hue, read from the previous
      generation, of the live neighbour picked by its choice index: choice 0
      picks the first in scan order, 1 the second, 2 the third. */
  lemma DeadCellIsBorn(prev: seq<int>, rows: int, cols: int, choice: seq<int>, i: int, k0: int, k1: int, k2: int)
    requires WellFormed(prev, rows, cols) && ValidChoices(choice, |prev|) && 0 <= i < |prev|
    requires prev[i] <= 0
    requires 0 <= k0 < k1 < k2 < 8
    requires forall k :: 0 <= k < 8 ==>
               (NeighbourValues(prev, rows, cols, i)[k] != 0 <==> k == k0 || k == k1 || k == k2)
    ensures LiveNeighbourCount(prev, rows, cols, i) == 3
    ensures var ns := NeighbourIndices(i, rows, cols);
            var h := NextGeneration(prev, rows, cols, choice)[i];
            0 <= ns[[k0, k1, k2][choice[i]]] < |prev| && h == prev[ns[[k0, k1, k2][choice[i]]]] && h != 0
  {
    var vs := NeighbourValues(prev, rows, cols, i);
    var ks := [k0, k1, k2];
    forall k | 0 <= k < 8
      ensures vs[k] != 0 <==> k in ks
    {
    }
    AliveValuesInScanOrder(vs, ks);
    NeighbourIndicesInRange(i, rows, cols);
  }

  /** Rule 4, without naming the parent: a cell that is not live and has
      exactly three live neighbours is born with the hue some neighbour had in
      the previous generation. */
  lemma DeadCellIsBornFromNeighbour(prev: seq<int>, rows: int, cols: int, choice: seq<int>, i: int)
    requires WellFormed(prev, rows, cols) && ValidChoices(choice, |prev|) && 0 <= i < |prev|
    requires prev[i] <= 0
    requires LiveNeighbourCount(prev, rows, cols, i) == 3
    ensures var ns := NeighbourIndices(i, rows, cols);
            var h := NextGeneration(prev, rows, cols, choice)[i];
            h != 0 && exists k :: 0 <= k < 8 && 0 <= ns[k] < |prev| && prev[ns[k]] == h
  {
    var vs := NeighbourValues(prev, rows, cols, i);
    var alive := AliveValues(vs);
    var h := alive[choice[i]];
    assert h in multiset(alive);
    assert h in vs;
    var k :| 0 <= k < 8 && vs[k] == h;
    NeighbourIndicesInRange(i, rows, cols);
  }

  /** Otherwise a cell that is not live stays dead. */
  lemma DeadCellStaysDead(prev: seq<int>, rows: int, cols: int, choice: seq<int>, i: int)
    requires WellFormed(prev, rows, cols) && ValidChoices(choice, |prev|) && 0 <= i < |prev|
    requires prev[i] <= 0
    requires LiveNeighbourCount(prev, rows, cols, i) != 3
    ensures NextGeneration(prev, rows, cols, choice)[i] == 0
  {
    AliveCountIsLiveNeighbourCount(prev, rows, cols, i);
  }

  // ---------------------------------------------------------------------
  // Invariants of a generation step

  /** Every cell holds 0 or a hue in [0, 360]. */
  predicate HuesInRange(cells: seq<int>)
  {
    forall i :: 0 <= i < |cells| ==> 0 <= cells[i] <= 360
  }

  predicate AllDead(cells: seq<int>)
  {
    forall i :: 0 <= i < |cells| ==> cells[i] == 0
  }

  /** Every value of the next generation was already a value of the previous
      one, or is 0: survivors keep theirs and newborns copy a neighbour's. */
  lemma NextValuesComeFromPrevious(prev: seq<int>, rows: int, cols: int, choice: seq<int>, i: int)
    requires WellFormed(prev, rows, cols) && ValidChoices(choice, |prev|) && 0 <= i < |prev|
    ensures var h := NextGeneration(prev, rows, cols, choice)[i];
            h == 0 || h in prev
  {
    var h := NextGeneration(prev, rows, cols, choice)[i];
    if h != 0 && prev[i] <= 0 {
      var vs := NeighbourValues(prev, rows, cols, i);
      var alive := AliveValues(vs);
      assert h == alive[choice[i]];
      assert h in multiset(alive);
      assert h in vs;
      var k :| 0 <= k < 8 && vs[k] == h;
      NeighbourIndicesInRange(i, rows, cols);
      assert prev[NeighbourIndices(i, rows, cols)[k]] == h;
    }
  }

  /** A step keeps every cell within [0, 360]. */
  lemma StepPreservesHueRange(prev: seq<int>, rows: int, cols: int, choice: seq<int>)
    requires WellFormed(prev, rows, cols) && ValidChoices(choice, |prev|)
    requires HuesInRange(prev)
    ensures HuesInRange(NextGeneration(prev, rows, cols, choice))
  {
    var next := NextGeneration(prev, rows, cols, choice);
    forall i | 0 <= i < |next|
      ensures 0 <= next[i] <= 360
    {
      NextValuesComeFromPrevious(prev, rows, cols, choice, i);
    }
  }

  /** An all-dead grid stays all dead after one step. */
  lemma StepPreservesAllDead(prev: seq<int>, rows: int, cols: int, choice: seq<int>)
    requires WellFormed(prev, rows, cols) && ValidChoices(choice, |prev|)
    requires AllDead(prev)
    ensures AllDead(NextGeneration(prev, rows, cols, choice))
  {
    var next := NextGeneration(prev, rows, cols, choice);
    forall i | 0 <= i < |next|
      ensures next[i] == 0
    {
      NextValuesComeFromPrevious(prev, rows, cols, choice, i);
    }
  }

  /** The generation reached after one step per entry of `choices`. */
  function Run(prev: seq<int>, rows: int, cols: int, choices: seq<seq<int>>): (last: seq<int>)
    requires WellFormed(prev, rows, cols)
    requires forall t :: 0 <= t < |choices| ==> ValidChoices(choices[t], |prev|)
    ensures |last| == |prev|
    decreases |choices|
  {
    if choices == [] then prev
    else Run(NextGeneration(prev, rows, cols, choices[0]), rows, cols, choices[1..])
  }

  /** An all-dead grid stays all dead after any number of steps. */
  lemma {:induction false} RunPreservesAllDead(prev: seq<int>, rows: int, cols: int, choices: seq<seq<int>>)
    requires WellFormed(prev, rows, cols)
    requires forall t :: 0 <= t < |choices| ==> ValidChoices(choices[t], |prev|)
    requires AllDead(prev)
    ensures AllDead(Run(prev, rows, cols, choices))
    decreases |choices|
  {
    if choices != [] {
      StepPreservesAllDead(prev, rows, cols, choices[0]);
      RunPreservesAllDead(NextGeneration(prev, rows, cols, choices[0]), rows, cols, choices[1..]);
    }
  }

  /** Any number of steps keeps every cell within [0, 360]. */
  lemma {:induction false} RunPreservesHueRange(prev: seq<int>, rows: int, cols: int, choices: seq<seq<int>>)
    requires WellFormed(prev, rows, cols)
    requires forall t :: 0 <= t < |choices| ==> ValidChoices(choices[t], |prev|)
    requires HuesInRange(prev)
    ensures HuesInRange(Run(prev, rows, cols, choices))
    decreases |choices|
  {
    if choices != [] {
      StepPreservesHueRange(prev, rows, cols, choices[0]);
      RunPreservesHueRange(NextGeneration(prev, rows, cols, choices[0]), rows, cols, choices[1..]);
    }
  }

  // ---------------------------------------------------------------------
  // Reset

  /** The cells written by the reset loop: a spawned cell gets its hue, any
      other cell gets 0. */
  function ResetCells(spawn: seq<bool>, hue: seq<int>): (cells: seq<int>)
    requires |spawn| == |hue|
    ensures |cells| == |spawn|
    ensures forall i :: 0 <= i < |cells| ==> cells[i] == 0 || cells[i] == hue[i]
  {
    seq(|spawn|, i requires 0 <= i < |spawn| => if spawn[i] then hue[i] else 0)
  }

  /** With hues drawn from [0, 360], the reset grid satisfies the hue range;
      with no cell spawned it is all dead; with every cell spawned it holds
      exactly the drawn hues. */
  lemma ResetEstablishesHueRange(spawn: seq<bool>, hue: seq<int>)
    requires |spawn| == |hue| && HuesInRange(hue)
    ensures HuesInRange(ResetCells(spawn, hue))
    ensures (forall i :: 0 <= i < |spawn| ==> !spawn[i]) ==> AllDead(ResetCells(spawn, hue))
    ensures (forall i :: 0 <= i < |spawn| ==> spawn[i]) ==> ResetCells(spawn, hue) == hue
  {
  }
}
