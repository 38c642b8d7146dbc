/** Worked generations on small grids, computed by the rules. */
module Scenarios {
  import opened Grids
  import opened LifeRules

  /** A horizontal blinker: the middle row of a 3 x 3 grid alive with age 1. */
  const Horizontal: Grid := [[0, 0, 0], [1, 1, 1], [0, 0, 0]]
  /** One generation later: vertical, the centre cell aged to 2, the newborns of age 1. */
  const Vertical: Grid := [[0, 1, 0], [0, 2, 0], [0, 1, 0]]
  /** Two generations later: horizontal again, the centre aged to 3. */
  const HorizontalAged: Grid := [[0, 0, 0], [1, 3, 1], [0, 0, 0]]

  /** One generation of a grid whose rows are those of Horizontal. The grid is a parameter
      so that the counts are worked out cell by cell. */
  lemma HorizontalBecomesVertical(g: Grid)
    requires |g| == 3 && g[0] == Horizontal[0] && g[1] == Horizontal[1] && g[2] == Horizontal[2]
    ensures NextGrid(g) == Vertical
  {
    assert NextCell(g, 0, 0) == 0 by { assert Count(g, 0, 0) == 2; }
    assert NextCell(g, 0, 1) == 1 by { assert Count(g, 0, 1) == 3; }
    assert NextCell(g, 0, 2) == 0 by { assert Count(g, 0, 2) == 2; }
    assert NextCell(g, 1, 0) == 0 by { assert Count(g, 1, 0) == 1; }
    assert NextCell(g, 1, 1) == 2 by { assert Count(g, 1, 1) == 2; }
    assert NextCell(g, 1, 2) == 0 by { assert Count(g, 1, 2) == 1; }
    assert NextCell(g, 2, 0) == 0 by { assert Count(g, 2, 0) == 2; }
    assert NextCell(g, 2, 1) == 1 by { assert Count(g, 2, 1) == 3; }
    assert NextCell(g, 2, 2) == 0 by { assert Count(g, 2, 2) == 2; }
    var h := NextGrid(g);
    assert h[0] == Vertical[0] && h[1] == Vertical[1] && h[2] == Vertical[2];
  }

  /** One generation of a grid whose rows are those of Vertical. */
  lemma VerticalBecomesHorizontal(g: Grid)
    requires |g| == 3 && g[0] == Vertical[0] && g[1] == Vertical[1] && g[2] == Vertical[2]
    ensures NextGrid(g) == HorizontalAged
  {
    assert NextCell(g, 0, 0) == 0 by { assert Count(g, 0, 0) == 2; }
    assert NextCell(g, 0, 1) == 0 by { assert Count(g, 0, 1) == 1; }
    assert NextCell(g, 0, 2) == 0 by { assert Count(g, 0, 2) == 2; }
    assert NextCell(g, 1, 0) == 1 by { assert Count(g, 1, 0) == 3; }
    assert NextCell(g, 1, 1) == 3 by { assert Count(g, 1, 1) == 2; }
    assert NextCell(g, 1, 2) == 1 by { assert Count(g, 1, 2) == 3; }
    assert NextCell(g, 2, 0) == 0 by { assert Count(g, 2, 0) == 2; }
    assert NextCell(g, 2, 1) == 0 by { assert Count(g, 2, 1) == 1; }
    assert NextCell(g, 2, 2) == 0 by { assert Count(g, 2, 2) == 2; }
    var h := NextGrid(g);
    assert h[0] == HorizontalAged[0] && h[1] == HorizontalAged[1] && h[2] == HorizontalAged[2];
  }

  /** The blinker has period two in its pattern of live cells; the surviving centre keeps ageing. */
  lemma BlinkerOscillates()
    ensures Generations(Horizontal, 1) == Vertical
    ensures Generations(Horizontal, 2) == HorizontalAged
    ensures forall i, j :: InBounds(Horizontal, i, j) ==>
      (Occupied(Generations(Horizontal, 2), i, j) <==> Occupied(Horizontal, i, j))
  {
    HorizontalBecomesVertical(Horizontal);
    VerticalBecomesHorizontal(Vertical);
    assert Generations(Horizontal, 2) == Generations(Vertical, 1) == Generations(HorizontalAged, 0);
  }

  /** A cell alone at any of the four corners of a grid dies in the next generation. */
  lemma LoneCornerCellDies(g: Grid, rows: nat, cols: nat, row: int, col: int)
    requires IsRect(g, rows, cols) && rows > 0 && cols > 0
    requires (row == 0 || row == rows - 1) && (col == 0 || col == cols - 1)
    requires forall i, j :: InBounds(g, i, j) && (i, j) != (row, col) ==> g[i][j] == 0
    ensures NextGrid(g)[row][col] == 0
  {
  }
}
