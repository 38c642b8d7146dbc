/** The generation-transition engine: the current and next grids of a colony, the
    neighbour scan, and the double-buffered step from one generation to the next. */
module Life {
  import opened Grids
  import opened LifeRules
  import opened Seeds

  /** The location holds no cell. */
  function IsEmpty(current: array2<int>, row: int, col: int): (empty: bool)
    requires 0 <= row < current.Length0 && 0 <= col < current.Length1
    reads current
    ensures empty <==> !Occupied(Cells(current), row, col)
  {
    current[row, col] == 0
  }

  /** The neighbour in direction (drow, dcol) does not add to the count: the direction is
      (0, 0), the position is off the grid, or the cell there is dead. */
  function IsDirectionEmpty(current: array2<int>, row: int, col: int, drow: int, dcol: int): (empty: bool)
    reads current
    ensures empty <==> (drow == 0 && dcol == 0) || !Occupied(Cells(current), row + drow, col + dcol)
  {
    var r, c := row + drow, col + dcol;
    if drow == 0 && dcol == 0 then true
    else if 0 <= r < current.Length0 && 0 <= c < current.Length1 then current[r, c] == 0
    else true
  }

  /** Non-empty directions among (drow, -1), ..., (drow, n - 2). */
  ghost function RowScanned(current: array2<int>, row: int, col: int, drow: int, n: nat): nat
    requires n <= 3
    reads current
  {
    if n == 0 then 0
    else RowScanned(current, row, col, drow, n - 1) + Bit(!IsDirectionEmpty(current, row, col, drow, n - 2))
  }

  /** Non-empty directions in the rows drow = -1, ..., n - 2 of the 3 x 3 scan. */
  ghost function Scanned(current: array2<int>, row: int, col: int, n: nat): nat
    requires n <= 3
    reads current
  {
    if n == 0 then 0
    else Scanned(current, row, col, n - 1) + RowScanned(current, row, col, n - 2, 3)
  }

  /** One row of the scan, unrolled. */
  lemma RowScannedUnrolled(current: array2<int>, row: int, col: int, drow: int)
    ensures RowScanned(current, row, col, drow, 3) ==
      Bit(!IsDirectionEmpty(current, row, col, drow, -1)) + Bit(!IsDirectionEmpty(current, row, col, drow, 0)) +
      Bit(!IsDirectionEmpty(current, row, col, drow, 1))
  {
    assert RowScanned(current, row, col, drow, 1) == Bit(!IsDirectionEmpty(current, row, col, drow, -1));
    assert RowScanned(current, row, col, drow, 2) ==
      RowScanned(current, row, col, drow, 1) + Bit(!IsDirectionEmpty(current, row, col, drow, 0));
  }

  /** The full 3 x 3 scan, centre included, counts exactly the occupied eight neighbours. */
  lemma ScanCountsNeighbours(current: array2<int>, row: int, col: int)
    ensures Scanned(current, row, col, 3) == Count(Cells(current), row, col)
  {
    RowScannedUnrolled(current, row, col, -1);
    RowScannedUnrolled(current, row, col, 0);
    RowScannedUnrolled(current, row, col, 1);
    assert Scanned(current, row, col, 1) == RowScanned(current, row, col, -1, 3);
    assert Scanned(current, row, col, 2) == Scanned(current, row, col, 1) + RowScanned(current, row, col, 0, 3);
  }

  /** Whether (row, col) has exactly `neighbours` occupied neighbours. */
  method IsNumNeighboursCorrect(current: array2<int>, row: int, col: int, neighbours: int) returns (correct: bool)
    ensures correct <==> Count(Cells(current), row, col) == neighbours
  {
    var numNeighbours := 0;
    for drow := -1 to 2
      invariant numNeighbours == Scanned(current, row, col, drow + 1)
    {
      for dcol := -1 to 2
        invariant numNeighbours == Scanned(current, row, col, drow + 1) + RowScanned(current, row, col, drow, dcol + 1)
      {
        if !IsDirectionEmpty(current, row, col, drow, dcol) {
          numNeighbours := numNeighbours + 1;
        }
      }
    }
    ScanCountsNeighbours(current, row, col);
    correct := numNeighbours == neighbours;
  }

  /** The value of location (row, col) in the next generation, chosen by the rule its
      neighbour count selects. */
  method NextValue(current: array2<int>, row: int, col: int) returns (value: int)
    requires 0 <= row < current.Length0 && 0 <= col < current.Length1
    ensures value == NextCell(Cells(current), row, col)
  {
    var lonely := IsNumNeighboursCorrect(current, row, col, 0);
    if !lonely {
      lonely := IsNumNeighboursCorrect(current, row, col, 1);
    }
    if lonely {
      value := 0;
    } else {
      var stable := IsNumNeighboursCorrect(current, row, col, 2);
      if stable {
        if IsEmpty(current, row, col) {
          value := 0;
        } else {
          value := current[row, col] + 1;
        }
      } else {
        var birth := IsNumNeighboursCorrect(current, row, col, 3);
        if birth {
          if IsEmpty(current, row, col) {
            value := 1;
          } else {
            value := current[row, col] + 1;
          }
        } else {
          value := 0;
        }
      }
    }
  }

  /** A fresh grid with the same size and contents, as `Grid` assignment makes. */
  method CopyOf(source: array2<int>) returns (copy: array2<int>)
    ensures fresh(copy)
    ensures copy.Length0 == source.Length0 && copy.Length1 == source.Length1
    ensures Cells(copy) == Cells(source)
  {
    copy := new int[source.Length0, source.Length1]((_, _) => 0);
    for i := 0 to source.Length0
      invariant forall r, c :: 0 <= r < i && 0 <= c < source.Length1 ==> copy[r, c] == source[r, c]
    {
      for j := 0 to source.Length1
        invariant forall r, c :: 0 <= r < i && 0 <= c < source.Length1 ==> copy[r, c] == source[r, c]
        invariant forall c :: 0 <= c < j ==> copy[i, c] == source[i, c]
      {
        copy[i, j] := source[i, j];
      }
    }
    assert forall r :: 0 <= r < source.Length0 ==> Cells(copy)[r] == Cells(source)[r];
  }

  /** An array filled cell by cell with the next generation of `g` holds NextGrid(g). */
  lemma HoldsNextGrid(a: array2<int>, g: Grid)
    requires IsRect(g, a.Length0, a.Length1)
    requires forall r, c :: 0 <= r < a.Length0 && 0 <= c < a.Length1 ==> a[r, c] == NextCell(g, r, c)
    ensures Cells(a) == NextGrid(g)
  {
    var h := NextGrid(g);
    forall r | 0 <= r < a.Length0 ensures Cells(a)[r] == h[r] {
      forall c | 0 <= c < a.Length1 ensures Cells(a)[r][c] == h[r][c] {
      }
    }
  }

  /** Fills row `row` of `grid` with the next values of `current`'s row, leaving the other rows as they were. */
  method FillRow(current: array2<int>, grid: array2<int>, row: int, ghost g: Grid)
    requires grid != current && g == Cells(current)
    requires grid.Length0 == current.Length0 && grid.Length1 == current.Length1 && 0 <= row < current.Length0
    modifies grid
    ensures forall c :: 0 <= c < grid.Length1 ==> grid[row, c] == NextCell(g, row, c)
    ensures forall r, c :: 0 <= r < grid.Length0 && r != row && 0 <= c < grid.Length1 ==> grid[r, c] == old(grid[r, c])
  {
    for j := 0 to current.Length1
      invariant forall c :: 0 <= c < j ==> grid[row, c] == NextCell(g, row, c)
      invariant forall r, c :: 0 <= r < grid.Length0 && r != row && 0 <= c < grid.Length1 ==> grid[r, c] == old(grid[r, c])
    {
      grid[row, j] := NextValue(current, row, j);
    }
  }

  /** The two grids of a run: the generation on display and the one being computed. */
  class Colony {
    var current: array2<int>
    var next: array2<int>

    /** Both grids start empty, with no rows and no columns. */
    constructor ()
      ensures current.Length0 == 0 && current.Length1 == 0
      ensures next.Length0 == 0 && next.Length1 == 0
    {
      current := new int[0, 0];
      next := new int[0, 0];
    }

    /** Resizes `current` to `rows` x `cols` and fills it from the colony file's row lines. */
    method Seed(lines: seq<string>, rows: nat, cols: nat)
      requires LinesFit(lines, rows, cols)
      modifies this`current
      ensures fresh(current) && next == old(next)
      ensures current.Length0 == rows && current.Length1 == cols
      ensures Cells(current) == DecodeSeed(lines, rows, cols)
    {
      var grid := new int[rows, cols]((_, _) => 0);
      for i := 0 to rows
        invariant forall r, c :: 0 <= r < i && 0 <= c < cols ==> grid[r, c] == DecodeSeed(lines, rows, cols)[r][c]
      {
        var line := lines[i];
        for j := 0 to cols
          invariant forall r, c :: 0 <= r < i && 0 <= c < cols ==> grid[r, c] == DecodeSeed(lines, rows, cols)[r][c]
          invariant forall c :: 0 <= c < j ==> grid[i, c] == DecodeSeed(lines, rows, cols)[i][c]
        {
          if line[j] == DeadMark {
            grid[i, j] := 0;
          } else {
            grid[i, j] := 1;
          }
        }
      }
      current := grid;
      assert forall r :: 0 <= r < rows ==> Cells(current)[r] == DecodeSeed(lines, rows, cols)[r];
    }

    /** Resizes `next` to the size of `current` and fills it with the next generation,
        reading only `current`, which it leaves as it was. */
    method ComputeNext()
      modifies this`next
      ensures fresh(next)
      ensures next.Length0 == current.Length0 && next.Length1 == current.Length1
      ensures Cells(current) == old(Cells(current))
      ensures Cells(next) == NextGrid(Cells(current))
    {
      var cur := current;
      ghost var g := Cells(cur);
      var grid := new int[cur.Length0, cur.Length1]((_, _) => 0);
      for i := 0 to cur.Length0
        invariant forall r, c :: 0 <= r < i && 0 <= c < cur.Length1 ==> grid[r, c] == NextCell(g, r, c)
      {
        FillRow(cur, grid, i, g);
      }
      next := grid;
      HoldsNextGrid(next, g);
    }

    /** One generation: computes `next`, then makes `current` a copy of it. */
    method Advance()
      modifies this
      ensures fresh(current) && fresh(next) && current != next
      ensures current.Length0 == old(current.Length0) && current.Length1 == old(current.Length1)
      ensures next.Length0 == current.Length0 && next.Length1 == current.Length1
      ensures Cells(current) == NextGrid(old(Cells(current)))
      ensures Cells(next) == Cells(current)
    {
      ComputeNext();
      current := CopyOf(next);
    }
  }
}
