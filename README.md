# Game of Life with ages: the generation-transition engine

This project models the core of a Game of Life program and proves properties of that model. The program runs Conway-style Life on a rectangular grid of integer cells. A cell is dead when it holds 0 and alive when it holds its age. Each generation, the program counts every cell's occupied neighbours among the eight around it. Positions off the grid count as empty. The count then decides the cell's next value:

- 0 or 1 neighbours: the location becomes empty.
- 2 neighbours: it is stable. An empty location stays empty and a live cell ages by one.
- 3 neighbours: a cell is born with age 1 in an empty location, and a live cell ages by one.
- 4 or more neighbours: the location becomes empty.

All results go into a separate `next` grid of the same size, which then replaces `current` (double buffering). A colony file's row lines become a starting grid: `-` is a dead cell and every other character is a newborn cell of age 1.

Structure:

- `grids.dfy` (module `Grids`): the grid value (`seq<seq<int>>`), rectangularity, the grid library's `inBounds`, and `Cells`, which reads a two-dimensional array as a grid value.
- `rules.dfy` (module `LifeRules`): the rule as functions on grid values. `Occupied` and `Count` give the eight-neighbour count. `NextCell` and `NextGrid` give one generation and `Generations` gives many. The lemmas cover the count, the edge policy and the rule.
- `seeds.dfy` (module `Seeds`): decoding of a colony file's row lines, with an encoder as its inverse and round-trip lemmas in both directions.
- `life.dfy` (module `Life`): the program's own imperative structure over `array2<int>`:
  - `IsEmpty` and `IsDirectionEmpty` are its two predicates.
  - `IsNumNeighboursCorrect` is its nested `drow`/`dcol` scan.
  - Class `Colony` holds the `current` and `next` grids that `main` owns and passes by reference. Its methods are `ComputeNext`, `Advance` and `Seed`, the decoding loop of `fileInitialize`.
  - `ComputeNext` resizes `next` by allocating a zero-filled array and fills it row by row. The loop over columns sits in `FillRow`, and each cell's branch on the neighbour count sits in `NextValue`. `NextValue` keeps the source's order of tests: counts 0 and 1, then 2, then 3, then the rest.
  - `Advance` makes `current` a fresh copy of `next` (`CopyOf`), since `Grid` assignment copies the contents.
- `scenarios.dfy` (module `Scenarios`): a horizontal blinker over two generations, and a lone corner cell.

Ages are never capped. In the source, `kMaxAge` appears only in random seeding (`life.cpp:67`), and a surviving cell always becomes `age + 1` (`life.cpp:168`, `life.cpp:174`). Any capping of the displayed shade belongs to the display, which is left out.

## Model

| member | source | states |
|---|---|---|
| `LifeRules.Count` | assign-1-game-of-life/assign-1-game-of-life/src/life.cpp:193-201 | the neighbour count is at most 8 (eight directions, each adding at most one) |
| `LifeRules.Occupied` | assign-1-game-of-life/assign-1-game-of-life/src/life.cpp:229-230 | a position is occupied exactly when it is in bounds and its cell is non-zero; the contract states that an occupied position is always on the grid |
| `LifeRules.NextCell` | assign-1-game-of-life/assign-1-game-of-life/src/life.cpp:161-178 | the per-cell rule; its contract says the next value is 0, 1 or the current value plus one, and is never negative when the current value is not; the individual cases are stated on `NextGrid` and `ClassicRule` |
| `LifeRules.Generations` | assign-1-game-of-life/assign-1-game-of-life/src/life.cpp:250-254 | repeated `advance` (as the timer loop at life.cpp:266-269 does): `k` applications of `NextGrid`; keeps the number of rows, and the full shape is proved in `GenerationsKeepShape` |
| `LifeRules.NextGrid` | assign-1-game-of-life/assign-1-game-of-life/src/life.cpp:157-181 | the next grid has the same number of rows and row lengths; with count 0 or 1 a cell becomes 0; with count 2 an empty cell stays 0 and a live one becomes age + 1; with count 3 an empty cell becomes 1 and a live one becomes age + 1; with count 4 or more it becomes 0 |
| `LifeRules.CountIgnoresSelf` | assign-1-game-of-life/assign-1-game-of-life/src/life.cpp:221-224 | the count at a position does not change with the value stored at that position: the cell never counts itself |
| `LifeRules.PadKeepsOccupancy` | assign-1-game-of-life/assign-1-game-of-life/src/life.cpp:226-233 | in the grid surrounded by a border of dead cells, each position is occupied exactly when it is occupied in the grid; off-grid positions are never occupied |
| `LifeRules.OffGridIsDead` | assign-1-game-of-life/assign-1-game-of-life/src/life.cpp:226-233 | edge policy: the count at any position equals the count at the same position of the dead-bordered grid, so off-grid neighbours act as dead cells, with no wrap-around |
| `LifeRules.CornerCount` | assign-1-game-of-life/assign-1-game-of-life/src/life.cpp:211-213 | a cell at any of the four corners of a non-empty grid has a count of at most 3 |
| `LifeRules.ClassicRule` | assign-1-game-of-life/assign-1-game-of-life/src/life.cpp:144-150 | for a non-negative cell: it is alive next exactly when its count is 3, or its count is 2 and it is alive now; a survivor's age goes up by one and a newborn has age 1 |
| `LifeRules.Locality` | assign-1-game-of-life/assign-1-game-of-life/src/life.cpp:153-155 | two grids that agree on a cell and on the occupancy of its 3 x 3 neighbourhood give that cell the same next value |
| `LifeRules.DeadGridStaysDead` | assign-1-game-of-life/assign-1-game-of-life/src/life.cpp:161-163 | a grid with no live cell maps to itself |
| `LifeRules.NonNegativeStaysNonNegative` | assign-1-game-of-life/assign-1-game-of-life/src/life.cpp:161-178 | if no cell is negative, no cell of the next grid is negative |
| `LifeRules.GenerationsKeepShape` | assign-1-game-of-life/assign-1-game-of-life/src/life.cpp:250-254 | every number of generations keeps the grid's rows and columns |
| `LifeRules.GenerationsStayDead` | assign-1-game-of-life/assign-1-game-of-life/src/life.cpp:250-254 | an all-dead grid stays the same over every number of generations |
| `LifeRules.GenerationsStayNonNegative` | assign-1-game-of-life/assign-1-game-of-life/src/life.cpp:250-254 | a non-negative grid stays non-negative over every number of generations |
| `Seeds.DecodeSeed` | assign-1-game-of-life/assign-1-game-of-life/src/life.cpp:108-119 | the decoded grid is rows x cols; a cell is 0 exactly when its character is `-`, and it is otherwise 1, never any other value |
| `Seeds.DecodeEncode` | assign-1-game-of-life/assign-1-game-of-life/src/life.cpp:108-119 | a grid of 0 and 1 cells, written with `-` and any other mark and then decoded, gives back the same grid |
| `Seeds.EncodeDecode` | assign-1-game-of-life/assign-1-game-of-life/src/life.cpp:108-119 | lines made of `-` and a single other mark decode to a grid that is written back as the same lines |
| `Life.IsEmpty` | assign-1-game-of-life/assign-1-game-of-life/src/life.cpp:241-243 | a location is empty exactly when it is not occupied |
| `Life.IsDirectionEmpty` | assign-1-game-of-life/assign-1-game-of-life/src/life.cpp:215-234 | a direction is empty exactly when it is (0, 0) or the position it points to is not occupied (off the grid or holding 0) |
| `Life.ScanCountsNeighbours` | assign-1-game-of-life/assign-1-game-of-life/src/life.cpp:195-201 | the 3 x 3 scan, centre included, finds exactly the occupied eight neighbours |
| `Life.IsNumNeighboursCorrect` | assign-1-game-of-life/assign-1-game-of-life/src/life.cpp:191-206 | returns true exactly when the neighbour count equals the requested number |
| `Life.NextValue` | assign-1-game-of-life/assign-1-game-of-life/src/life.cpp:161-178 | the branch on the neighbour counts 0/1, 2, 3 and the rest gives the cell's next value under the rule |
| `Life.FillRow` | assign-1-game-of-life/assign-1-game-of-life/src/life.cpp:160-180 | the inner loop over columns: every cell of the given row gets its next value; the other rows are untouched |
| `Life.HoldsNextGrid` | assign-1-game-of-life/assign-1-game-of-life/src/life.cpp:158-181 | an array filled cell by cell with the next values holds the whole next grid |
| `Life.CopyOf` | assign-1-game-of-life/assign-1-game-of-life/src/life.cpp:252 | the copy is a new array with the same dimensions and contents |
| `Life.Colony.constructor` | assign-1-game-of-life/assign-1-game-of-life/src/life.cpp:362-363 | both grids start with 0 rows and 0 columns |
| `Life.Colony.Seed` | assign-1-game-of-life/assign-1-game-of-life/src/life.cpp:102-119 | `current` becomes a new rows x cols grid holding the decoded lines; `next` is untouched |
| `Life.Colony.ComputeNext` | assign-1-game-of-life/assign-1-game-of-life/src/life.cpp:157-182 | `next` becomes a new grid of exactly the size of `current`, holding the next generation of `current`; `current` is unchanged (double buffering) |
| `Life.Colony.Advance` | assign-1-game-of-life/assign-1-game-of-life/src/life.cpp:250-254 | `current` becomes a separate copy of the computed next generation of the old `current`, with the same dimensions, and `next` holds the same contents |
| `Scenarios.BlinkerOscillates` | assign-1-game-of-life/assign-1-game-of-life/src/life.cpp:157-181 | a 3 x 3 horizontal blinker turns vertical with its centre at age 2, then horizontal again with its centre at age 3; its live cells are the same after two generations |
| `Scenarios.LoneCornerCellDies` | assign-1-game-of-life/assign-1-game-of-life/src/life.cpp:161-163 | a cell alone at any of the four corners of a non-empty grid is empty in the next generation |

## Left out

- Display calls (`setDimensions`, `drawCellAt`, `repaint`, `setTitle`) are left out. They only render and do not affect grid contents.
- `randomInitialize` is left out. It depends on a random number generator.
- The file-opening retry loop, `fileExists`, and reading the dimensions and lines from the stream are left out, because they are I/O. `Colony.Seed` receives the row count, the column count and the row lines as parameters.
- `input >> line` splits the file at whitespace. The model receives the lines already split.
- `Colony.Seed` requires at least `rows` lines of at least `cols` characters each. In the source, a line exactly one character short reads the terminating `'\0'` at `j == line.size()`, which is not `-`, so its last cell becomes 1. A line two or more characters short is read out of range, which has no defined result. The model does not cover either case.
- `Colony.Seed` takes `rows` and `cols` as natural numbers. The failure of `Grid::resize` on negative dimensions is not modelled.
- `welcome`, `initialize`, `setSpeed`, `start`, `restart` and `main` are left out. They are console prompts and menus.
- `runAnimation` is left out. It is a timer and mouse event loop. Repeated generations are modelled by `LifeRules.Generations`.
- The Stanford `Grid` library is modelled as a plain two-dimensional array. Resizing allocates a zero-filled array; `inBounds` is `Grids.InBounds`.
- NextGrid: ages are unbounded integers. The source's 32-bit `int` would overflow after about 2^31 generations of survival, and the model does not capture that.
