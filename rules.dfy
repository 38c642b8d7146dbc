/** The transition rule of the Game of Life with ages, as a function on grid values. */
module LifeRules {
  import opened Grids

  /** A live cell stands at (row, col). Positions off the grid are never occupied:
      they neither wrap around nor count as alive. */
  predicate Occupied(g: Grid, row: int, col: int)
    ensures Occupied(g, row, col) ==> InBounds(g, row, col)
  {
    InBounds(g, row, col) && g[row][col] != 0
  }

  function Bit(b: bool): nat {
    if b then 1 else 0
  }

  /** The number of occupied positions among the eight neighbours of (row, col). */
  function Count(g: Grid, row: int, col: int): (n: nat)
    ensures n <= 8
  {
    Bit(Occupied(g, row - 1, col - 1)) + Bit(Occupied(g, row - 1, col)) + Bit(Occupied(g, row - 1, col + 1)) +
    Bit(Occupied(g, row, col - 1)) + Bit(Occupied(g, row, col + 1)) +
    Bit(Occupied(g, row + 1, col - 1)) + Bit(Occupied(g, row + 1, col)) + Bit(Occupied(g, row + 1, col + 1))
  }

  /** The value of cell (row, col) in the next generation. */
  function NextCell(g: Grid, row: int, col: int): (v: int)
    requires InBounds(g, row, col)
    ensures v == 0 || v == 1 || v == g[row][col] + 1
    ensures g[row][col] >= 0 ==> v >= 0
  {
    var n := Count(g, row, col);
    var age := g[row][col];
    if n <= 1 then 0
    else if n == 2 then (if age == 0 then 0 else age + 1)
    else if n == 3 then (if age == 0 then 1 else age + 1)
    else 0
  }

  /** The next generation: every cell computed from the current grid alone. */
  function NextGrid(g: Grid): (h: Grid)
    ensures |h| == |g| && forall i :: 0 <= i < |g| ==> |h[i]| == |g[i]|
    // zero or one neighbour: empty, whatever was there
    ensures forall i, j :: InBounds(g, i, j) && Count(g, i, j) <= 1 ==> h[i][j] == 0
    // two neighbours: stable; an empty location stays empty, a cell ages
    ensures forall i, j :: InBounds(g, i, j) && Count(g, i, j) == 2 && g[i][j] == 0 ==> h[i][j] == 0
    ensures forall i, j :: InBounds(g, i, j) && Count(g, i, j) == 2 && g[i][j] != 0 ==> h[i][j] == g[i][j] + 1
    // three neighbours: a cell is born in an empty location, an existing cell ages
    ensures forall i, j :: InBounds(g, i, j) && Count(g, i, j) == 3 && g[i][j] == 0 ==> h[i][j] == 1
    ensures forall i, j :: InBounds(g, i, j) && Count(g, i, j) == 3 && g[i][j] != 0 ==> h[i][j] == g[i][j] + 1
    // four or more neighbours: empty
    ensures forall i, j :: InBounds(g, i, j) && Count(g, i, j) >= 4 ==> h[i][j] == 0
  {
    seq(|g|, i requires 0 <= i < |g| =>
      seq(|g[i]|, j requires 0 <= j < |g[i]| => NextCell(g, i, j)))
  }

  /** The grid after `k` generations. */
  function Generations(g: Grid, k: nat): (h: Grid)
    ensures |h| == |g|
    decreases k
  {
    if k == 0 then g else Generations(NextGrid(g), k - 1)
  }

  /** The grid surrounded by a border of dead cells. */
  function Pad(g: Grid, rows: nat, cols: nat): (p: Grid)
    requires IsRect(g, rows, cols)
    ensures IsRect(p, rows + 2, cols + 2)
  {
    seq(rows + 2, i =>
      seq(cols + 2, j => if 1 <= i <= rows && 1 <= j <= cols then g[i - 1][j - 1] else 0))
  }

  // ---------------------------------------------------------------------------
  // Properties of the neighbour count

  /** The count never looks at the cell itself: overwriting (row, col) leaves it unchanged. */
  lemma CountIgnoresSelf(g: Grid, row: int, col: int, v: int)
    requires InBounds(g, row, col)
    ensures Count(g[row := g[row][col := v]], row, col) == Count(g, row, col)
  {
  }

  /** Occupancy in the grid padded with dead cells agrees with occupancy in the grid,
      on the grid and off it. */
  lemma PadKeepsOccupancy(g: Grid, rows: nat, cols: nat, row: int, col: int)
    requires IsRect(g, rows, cols)
    ensures Occupied(Pad(g, rows, cols), row + 1, col + 1) == Occupied(g, row, col)
  {
  }

  /** Edge policy: the count at any position equals the count at the same position of the
      grid surrounded by dead cells, so off-grid neighbours behave exactly like dead ones. */
  lemma OffGridIsDead(g: Grid, rows: nat, cols: nat, row: int, col: int)
    requires IsRect(g, rows, cols)
    ensures Count(g, row, col) == Count(Pad(g, rows, cols), row + 1, col + 1)
  {
  }

  /** A corner cell has only three neighbours on the grid. */
  lemma CornerCount(g: Grid, rows: nat, cols: nat, row: int, col: int)
    requires IsRect(g, rows, cols) && rows > 0 && cols > 0
    requires (row == 0 || row == rows - 1) && (col == 0 || col == cols - 1)
    ensures Count(g, row, col) <= 3
  {
  }

  // ---------------------------------------------------------------------------
  // Properties of one generation

  /** Liveness follows the classic rule (born with three neighbours, survives with two or
      three); a survivor ages by one and a newborn has age 1. */
  lemma ClassicRule(g: Grid, row: int, col: int)
    requires InBounds(g, row, col) && g[row][col] >= 0
    ensures NextCell(g, row, col) != 0 <==>
      Count(g, row, col) == 3 || (Count(g, row, col) == 2 && Occupied(g, row, col))
    ensures NextCell(g, row, col) != 0 && Occupied(g, row, col) ==> NextCell(g, row, col) == g[row][col] + 1
    ensures NextCell(g, row, col) != 0 && !Occupied(g, row, col) ==> NextCell(g, row, col) == 1
  {
  }

  /** The next value of a cell depends only on the cell and its eight neighbours. */
  lemma Locality(g: Grid, h: Grid, row: int, col: int)
    requires InBounds(g, row, col) && InBounds(h, row, col) && g[row][col] == h[row][col]
    requires forall r, c :: row - 1 <= r <= row + 1 && col - 1 <= c <= col + 1 ==>
      Occupied(g, r, c) == Occupied(h, r, c)
    ensures NextCell(g, row, col) == NextCell(h, row, col)
  {
  }

  /** A grid with no live cell is a fixed point. */
  lemma DeadGridStaysDead(g: Grid)
    requires AllDead(g)
    ensures NextGrid(g) == g
  {
    var h := NextGrid(g);
    forall i | 0 <= i < |g| ensures h[i] == g[i] {
      forall j | 0 <= j < |g[i]| ensures h[i][j] == g[i][j] {
        assert !Occupied(g, i - 1, j - 1) && !Occupied(g, i - 1, j) && !Occupied(g, i - 1, j + 1);
        assert !Occupied(g, i, j - 1) && !Occupied(g, i, j + 1);
        assert !Occupied(g, i + 1, j - 1) && !Occupied(g, i + 1, j) && !Occupied(g, i + 1, j + 1);
      }
    }
  }

  /** No cell becomes negative. */
  lemma NonNegativeStaysNonNegative(g: Grid)
    requires AllNonNegative(g)
    ensures AllNonNegative(NextGrid(g))
  {
  }

  // ---------------------------------------------------------------------------
  // Properties of many generations

  lemma {:induction false} GenerationsKeepShape(g: Grid, rows: nat, cols: nat, k: nat)
    requires IsRect(g, rows, cols)
    ensures IsRect(Generations(g, k), rows, cols)
    decreases k
  {
    if k > 0 {
      GenerationsKeepShape(NextGrid(g), rows, cols, k - 1);
    }
  }

  lemma {:induction false} GenerationsStayDead(g: Grid, k: nat)
    requires AllDead(g)
    ensures Generations(g, k) == g
    decreases k
  {
    if k > 0 {
      DeadGridStaysDead(g);
      GenerationsStayDead(NextGrid(g), k - 1);
    }
  }

  lemma {:induction false} GenerationsStayNonNegative(g: Grid, k: nat)
    requires AllNonNegative(g)
    ensures AllNonNegative(Generations(g, k))
    decreases k
  {
    if k > 0 {
      NonNegativeStaysNonNegative(g);
      GenerationsStayNonNegative(NextGrid(g), k - 1);
    }
  }
}
