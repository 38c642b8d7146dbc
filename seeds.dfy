/** Decoding of a colony file's row lines into a starting grid. */
module Seeds {
  import opened Grids

  /** The character that marks a dead cell; every other character marks a newborn cell. */
  const DeadMark: char := '-'

  /** There are at least `rows` lines and each of them has at least `cols` characters. */
  ghost predicate LinesFit(lines: seq<string>, rows: nat, cols: nat) {
    |lines| >= rows && forall i :: 0 <= i < rows ==> |lines[i]| >= cols
  }

  /** The starting grid spelled by the first `cols` characters of the first `rows` lines. */
  function DecodeSeed(lines: seq<string>, rows: nat, cols: nat): (g: Grid)
    requires LinesFit(lines, rows, cols)
    ensures IsRect(g, rows, cols)
    ensures forall i, j :: 0 <= i < rows && 0 <= j < cols ==>
      (g[i][j] == 0 <==> lines[i][j] == DeadMark) && (g[i][j] == 0 || g[i][j] == 1)
  {
    seq(rows, i requires 0 <= i < rows =>
      seq(cols, j requires 0 <= j < cols => if lines[i][j] == DeadMark then 0 else 1))
  }

  /** Writes a grid of dead and newborn cells as row lines, `alive` marking live cells. */
  function EncodeSeed(g: Grid, alive: char): (lines: seq<string>)
    requires alive != DeadMark
    ensures |lines| == |g| && forall i :: 0 <= i < |g| ==> |lines[i]| == |g[i]|
  {
    seq(|g|, i requires 0 <= i < |g| =>
      seq(|g[i]|, j requires 0 <= j < |g[i]| => if g[i][j] == 0 then DeadMark else alive))
  }

  /** Every grid of dead (0) and newborn (1) cells survives being written and read back. */
  lemma DecodeEncode(g: Grid, rows: nat, cols: nat, alive: char)
    requires IsRect(g, rows, cols) && alive != DeadMark
    requires forall i, j :: 0 <= i < rows && 0 <= j < cols ==> g[i][j] == 0 || g[i][j] == 1
    ensures LinesFit(EncodeSeed(g, alive), rows, cols)
    ensures DecodeSeed(EncodeSeed(g, alive), rows, cols) == g
  {
    var d := DecodeSeed(EncodeSeed(g, alive), rows, cols);
    forall i | 0 <= i < rows ensures d[i] == g[i] {
    }
  }

  /** Lines of exactly `cols` characters, each a dead mark or `alive`, are what the grid they
      decode to is written as. */
  lemma EncodeDecode(lines: seq<string>, rows: nat, cols: nat, alive: char)
    requires alive != DeadMark && |lines| == rows
    requires forall i :: 0 <= i < rows ==> |lines[i]| == cols
    requires forall i, j :: 0 <= i < rows && 0 <= j < cols ==> lines[i][j] == DeadMark || lines[i][j] == alive
    ensures EncodeSeed(DecodeSeed(lines, rows, cols), alive) == lines
  {
    var e := EncodeSeed(DecodeSeed(lines, rows, cols), alive);
    forall i | 0 <= i < rows ensures e[i] == lines[i] {
    }
  }
}
