# Maze generator model

A Dafny model of the Unity maze generator `MazeGenerator` of MazeGame. The
generator sizes a `(2 * mazeWidth + 1) x (2 * mazeHeight + 1)` boolean grid
`visited`, clears it, and carves a "recursive backtracker" maze from `(1, 1)`:
`DFS(x, y)` marks its position, shuffles the four step vectors
`(0, 2), (2, 0), (0, -2), (-2, 0)` with a Fisher-Yates shuffle, and for each
step whose target is strictly inside the outer ring (`IsInBounds`) and
unvisited, opens the connector halfway there and recurses. `InstantiateMaze`
then walks the grid column by column and places an entry marker at `(1, 0)`,
an exit marker at `(actualWidth - 2, actualHeight - 1)`, and a wall on every
other unvisited position. `BuildFloor` sizes a floor ten positions larger than
the grid.

The model is functional:

- `Geometry` holds positions, step vectors, the in-bounds test and the set of
  logical cells: odd/odd positions inside the ring.
- `Shuffle` holds `ShuffleArray` on sequences. The engine's random source is an
  input sequence of draws. The shuffle is shown to be a permutation, and a
  bijection between valid draw blocks and orderings.
- `Carve` holds the grid as the set of positions whose flag is set, and `DFS`
  with its direction loop (`Explore`, one iteration `Visit`). These are
  mutually recursive functions that terminate because every nested `DFS` marks
  a new logical cell.
- `CarveProperties` proves the spanning-tree shape and full coverage.
- `CarveDepth` bounds the recursion depth.
- `Generator` holds `Start`, `GenerateMaze`, the classification,
  `InstantiateMaze` and the floor sizing. It includes the C# `int` wrap-around
  of `mazeWidth * 2 + 1` and the exceptions the source throws.
- `GeneratorProperties` holds the end-to-end theorems.

Randomness. Every `DFS` call shuffles with the next four values the engine
returns, and nothing else draws during generation. So the stream seen from
`Random.InitState(seed)` on splits into aligned blocks of four, and the draw
at offset `k` lies in `[0, k % 4]` (`ValidDraws`). Determinism for a given
seed is the fact that every model member is a function of its inputs.

Behaviour of the code that the model keeps, where a reader might expect otherwise:

- Logical cells sit at odd/odd coordinates and connectors have exactly one
  even coordinate.
- A maze size of 0 makes `DFS(1, 1)` index outside a one-wide grid, and this is
  modelled as `IndexOutOfRangeException`. A negative size either makes the
  allocation throw (`OverflowException`) or wraps around to a positive grid
  size, so the model does not degrade gracefully here.
- There is a single exit. No two-exit variant exists in this class.
- The entry and exit are never visited by the carve. They receive their own
  markers ahead of the wall test, rather than being carved open.

## Model

| member | source | states |
|---|---|---|
| `Geometry.IsInBounds` | MazeGame/Assets/0_MazeAssets/Scripts/MazeGenerator.cs:122-125 | true exactly for the positions inside the grid that are not on its outer ring |
| `Geometry.StepGeometry` | MazeGame/Assets/0_MazeAssets/Scripts/MazeGenerator.cs:110-115 | a step from a logical cell lands on an odd/odd position and crosses a position with exactly one even coordinate, whose two sides are the start and the target; when the target is in bounds it is a cell and the crossed position a connector |
| `Geometry.CellSetIsCells` | MazeGame/Assets/0_MazeAssets/Scripts/MazeGenerator.cs:113 | the enumerated cell set holds exactly the odd/odd in-bounds positions |
| `Geometry.CellCount` | MazeGame/Assets/0_MazeAssets/Scripts/MazeGenerator.cs:36-37 | a grid sized `2 * mazeWidth + 1` by `2 * mazeHeight + 1` has exactly `mazeWidth * mazeHeight` logical cells |
| `Geometry.CellsSize` | MazeGame/Assets/0_MazeAssets/Scripts/MazeGenerator.cs:36-37 | `columns` by `rows` odd/odd positions number `columns * rows` |
| `Shuffle.Swap` | MazeGame/Assets/0_MazeAssets/Scripts/MazeGenerator.cs:133-138 | exchanges entries `i` and `rand`, keeps every other entry, and keeps the multiset of entries |
| `Shuffle.ShufflePrefix` | MazeGame/Assets/0_MazeAssets/Scripts/MazeGenerator.cs:130-139 | after `n` iterations with draws in `[0, i]`, the table is a permutation of the original, entries from `n` on are untouched, and distinct entries stay distinct |
| `Shuffle.ShuffleArray` | MazeGame/Assets/0_MazeAssets/Scripts/MazeGenerator.cs:128-140 | the whole table is permuted and exactly one draw per entry is taken from the front of the stream |
| `Shuffle.Unshuffle` | MazeGame/Assets/0_MazeAssets/Scripts/MazeGenerator.cs:130-139 | from a table reachable by `n` shuffle steps, recovers `n` draws, the `i`-th in `[0, i]` |
| `Shuffle.UnshuffleShuffle` | MazeGame/Assets/0_MazeAssets/Scripts/MazeGenerator.cs:130-139 | unshuffling the shuffle of distinct entries gives back exactly the draws used |
| `Shuffle.ShuffleUnshuffle` | MazeGame/Assets/0_MazeAssets/Scripts/MazeGenerator.cs:130-139 | shuffling with the recovered draws reproduces the ordering |
| `Shuffle.PrefixOnly` | MazeGame/Assets/0_MazeAssets/Scripts/MazeGenerator.cs:130-132 | the first `n` iterations depend only on the first `n` draws |
| `Shuffle.ShuffleOnto` | MazeGame/Assets/0_MazeAssets/Scripts/MazeGenerator.cs:128-140 | every ordering of a table of distinct entries is produced by some valid block of draws |
| `Shuffle.ShuffleInjective` | MazeGame/Assets/0_MazeAssets/Scripts/MazeGenerator.cs:128-140 | two different valid draw blocks never produce the same ordering of distinct entries |
| `Shuffle.ShuffleUnique` | MazeGame/Assets/0_MazeAssets/Scripts/MazeGenerator.cs:128-140 | a valid block yields a given ordering exactly when it is the unshuffled block, in both directions |
| `Carve.NextBlock` | MazeGame/Assets/0_MazeAssets/Scripts/MazeGenerator.cs:132 | a valid stream starts with four draws whose `i`-th lies in `[0, i]`, and the rest is again a valid stream |
| `Carve.MarkCell` | MazeGame/Assets/0_MazeAssets/Scripts/MazeGenerator.cs:104 | marking an unvisited cell removes exactly that cell from the unvisited cells |
| `Carve.OpenConnector` | MazeGame/Assets/0_MazeAssets/Scripts/MazeGenerator.cs:113-115 | opening the connector towards an unvisited in-bounds neighbour leaves that neighbour an unvisited cell and the unvisited cells unchanged |
| `Carve.DirectionsShuffled` | MazeGame/Assets/0_MazeAssets/Scripts/MazeGenerator.cs:105-106 | a shuffled direction table holds four step vectors, each of the original four among them |
| `Carve.DFS` | MazeGame/Assets/0_MazeAssets/Scripts/MazeGenerator.cs:102-119 | the start cell ends visited; dimensions are kept, flags are only ever set, the unvisited cells only shrink, and four draws from the front of the stream are consumed per cell that became visited |
| `Carve.Explore` | MazeGame/Assets/0_MazeAssets/Scripts/MazeGenerator.cs:108-118 | the direction loop keeps the same progress guarantee as `DFS` |
| `Carve.Visit` | MazeGame/Assets/0_MazeAssets/Scripts/MazeGenerator.cs:110-117 | one loop iteration keeps the progress guarantee, and an in-bounds neighbour is visited afterwards whether or not it was carved now |
| `CarveProperties.DFSShape` | MazeGame/Assets/0_MazeAssets/Scripts/MazeGenerator.cs:102-119 | every opened position stays a cell or a connector between two opened cells, and the carve opens `2 * newCells - 1` positions: one cell per call plus one connector per recursive call |
| `CarveProperties.ExploreShape` | MazeGame/Assets/0_MazeAssets/Scripts/MazeGenerator.cs:108-118 | the direction loop keeps the grid well formed and opens exactly two positions per new cell |
| `CarveProperties.VisitShape` | MazeGame/Assets/0_MazeAssets/Scripts/MazeGenerator.cs:113-117 | a carved neighbour adds its connector and its own subtree, two positions per new cell |
| `CarveProperties.ReachableStep` | MazeGame/Assets/0_MazeAssets/Scripts/MazeGenerator.cs:115-116 | a path to a cell extends through an opened connector to the cell beyond it |
| `CarveProperties.ClosedInEveryDirection` | MazeGame/Assets/0_MazeAssets/Scripts/MazeGenerator.cs:105-108 | when every shuffled direction's in-bounds neighbour is visited, every one of the four neighbours is |
| `CarveProperties.ExploreVisitsNeighbours` | MazeGame/Assets/0_MazeAssets/Scripts/MazeGenerator.cs:108-118 | after the loop from iteration `i`, every in-bounds neighbour in the remaining directions is visited |
| `CarveProperties.DFSCovers` | MazeGame/Assets/0_MazeAssets/Scripts/MazeGenerator.cs:102-119 | every cell the carve newly visits has all its in-bounds neighbours visited and is reachable from `(1, 1)` through opened connectors |
| `CarveProperties.ExploreCovers` | MazeGame/Assets/0_MazeAssets/Scripts/MazeGenerator.cs:108-118 | the same for the cells visited during the direction loop |
| `CarveProperties.VisitCovers` | MazeGame/Assets/0_MazeAssets/Scripts/MazeGenerator.cs:113-116 | the same for the cells visited by one recursive call |
| `CarveDepth.DFSDepth` | MazeGame/Assets/0_MazeAssets/Scripts/MazeGenerator.cs:102-119 | the number of nested `DFS` frames is at least one and at most the number of unvisited cells at the call |
| `CarveDepth.ExploreDepth` | MazeGame/Assets/0_MazeAssets/Scripts/MazeGenerator.cs:108-118 | the nesting below the direction loop is at most the number of unvisited cells |
| `CarveDepth.VisitDepth` | MazeGame/Assets/0_MazeAssets/Scripts/MazeGenerator.cs:113-117 | one iteration recurses exactly when its neighbour is in bounds and unvisited, and nests at most the number of unvisited cells |
| `Generator.Wrap32` | MazeGame/Assets/0_MazeAssets/Scripts/MazeGenerator.cs:36-37 | the result is a 32-bit `int` congruent to the exact value modulo 2^32, and equal to it when that fits |
| `Generator.ActualSize` | MazeGame/Assets/0_MazeAssets/Scripts/MazeGenerator.cs:36-37 | `mazeWidth * 2 + 1` is always odd, is `2 * mazeWidth + 1` for sizes below 2^30, and is at least 3 exactly for sizes in `[1, 2^30)` or `(-2^31, -2^30)` |
| `Generator.NewGrid` | MazeGame/Assets/0_MazeAssets/Scripts/MazeGenerator.cs:46-56 | the allocation throws exactly when a dimension is negative; otherwise the grid has the given size and every flag is false |
| `Generator.GenerateMaze` | MazeGame/Assets/0_MazeAssets/Scripts/MazeGenerator.cs:44-59 | succeeds exactly when both dimensions are at least 3; fails with an overflow exactly for a negative dimension, and otherwise with an index error; on success the sizes are kept and `(1, 1)` is visited |
| `Generator.Classify` | MazeGame/Assets/0_MazeAssets/Scripts/MazeGenerator.cs:72-85 | the entry at `(1, 0)` takes precedence, then the exit at `(width - 2, height - 1)`, then a wall exactly on the unvisited positions; visited positions get no marker |
| `Generator.InstantiateMaze` | MazeGame/Assets/0_MazeAssets/Scripts/MazeGenerator.cs:65-88 | the placements are exactly the in-grid positions with a marker, each with its classified marker, in strictly increasing column-major order and so without duplicates |
| `Generator.FloorScale` | MazeGame/Assets/0_MazeAssets/Scripts/MazeGenerator.cs:93 | the floor scale is the grid size plus 10 on both axes whenever that sum fits in an `int` |
| `Generator.FloorCentre` | MazeGame/Assets/0_MazeAssets/Scripts/MazeGenerator.cs:94 | the floor centre is the middle of `0 .. size - 1` on both axes, `mazeWidth` and `mazeHeight` for odd sizes |
| `Generator.CellsFor` | MazeGame/Assets/0_MazeAssets/Scripts/MazeGenerator.cs:36-37 | the grid allocated for in-range sizes has `mazeWidth * mazeHeight` logical cells |
| `Generator.Start` | MazeGame/Assets/0_MazeAssets/Scripts/MazeGenerator.cs:34-41 | sizes in `[1, 2^30)` give a maze on a `(2 * mazeWidth + 1) x (2 * mazeHeight + 1)` grid, and a size of 0 fails |
| `GeneratorProperties.AllCellsVisited` | MazeGame/Assets/0_MazeAssets/Scripts/MazeGenerator.cs:108-118 | if `(1, 1)` is visited and every visited cell has all in-bounds neighbours visited, then every cell is visited |
| `GeneratorProperties.CarveShape` | MazeGame/Assets/0_MazeAssets/Scripts/MazeGenerator.cs:59 | the carve from `(1, 1)` on a cleared grid leaves it well formed and opens `2 * visitedCells - 1` positions |
| `GeneratorProperties.CarveCovers` | MazeGame/Assets/0_MazeAssets/Scripts/MazeGenerator.cs:59 | the carve from `(1, 1)` on a cleared grid visits every cell and reaches each from `(1, 1)` |
| `GeneratorProperties.GenerateMazeCorrect` | MazeGame/Assets/0_MazeAssets/Scripts/MazeGenerator.cs:44-59 | a generated maze is a spanning tree: every cell is visited and reachable, only cells and connectors between opened cells are open, the ring and every pillar stay closed, there is one connector fewer than cells, and four draws per cell were consumed |
| `GeneratorProperties.StartSizes` | MazeGame/Assets/0_MazeAssets/Scripts/MazeGenerator.cs:34-41 | for accepted sizes, `Start` is `GenerateMaze` on the `(2 * mazeWidth + 1) x (2 * mazeHeight + 1)` grid with `mazeWidth * mazeHeight` cells, then the floor sizing of that grid |
| `GeneratorProperties.StartCorrect` | MazeGame/Assets/0_MazeAssets/Scripts/MazeGenerator.cs:34-41 | a `mazeWidth x mazeHeight` maze has every cell reached, `mazeWidth * mazeHeight - 1` connectors, a closed ring and closed pillars, and uses `4 * mazeWidth * mazeHeight` draws |
| `GeneratorProperties.MazeMarkers` | MazeGame/Assets/0_MazeAssets/Scripts/MazeGenerator.cs:65-88 | on a finished maze the entry and exit are distinct ring positions next to open cells, a position has no marker exactly when it is visited, and the rest of the ring and every pillar are walls |
| `GeneratorProperties.GeneratedMarkers` | MazeGame/Assets/0_MazeAssets/Scripts/MazeGenerator.cs:59-61 | the classification of a generated maze: open exactly where visited, walls on the ring except the entry and exit |
| `GeneratorProperties.SmallestMaze` | MazeGame/Assets/0_MazeAssets/Scripts/MazeGenerator.cs:34-88 | a `1 x 1` maze opens only `(1, 1)`, has its entry at `(1, 0)`, its exit at `(1, 2)` and walls on the other six positions, and uses four draws |
| `GeneratorProperties.StartOutcome` | MazeGame/Assets/0_MazeAssets/Scripts/MazeGenerator.cs:36-46 | `Start` succeeds exactly for sizes that wrap to at least 3, and fails with an overflow exactly when a wrapped size is negative |
| `GeneratorProperties.NegativeSizeWraps` | MazeGame/Assets/0_MazeAssets/Scripts/MazeGenerator.cs:36 | a maze size of `-2^30 - 1` gives a grid `2^31 - 1` positions wide |
| `GeneratorProperties.DepthBound` | MazeGame/Assets/0_MazeAssets/Scripts/MazeGenerator.cs:59 | the recursion from `(1, 1)` nests at most one `DFS` frame per logical cell |
| `GeneratorProperties.DirectionsDistinct` | MazeGame/Assets/0_MazeAssets/Scripts/MazeGenerator.cs:105 | the four step vectors are pairwise different, which is what makes the shuffle of the direction table a bijection between draw blocks and orders |

## Left out

- Unity object creation is not modelled: `Instantiate`, the prefabs, `Vector3`, `Quaternion` and `floor.transform`. `InstantiateMaze` returns the list of placements it would make, and `BuildFloor` becomes `FloorScale` and `FloorCentre`.
- `Random.InitState(seed)` and `Random.Range` are the engine's PRNG, which is foreign code. The draws are an input sequence that satisfies the range contract of `Random.Range(0, i + 1)`. Statistical fairness of the shuffle is not modelled; its deterministic counterpart, that the shuffle is a bijection between draw blocks and orderings, is proved instead.
- Generator.FloorScale: states the scale only where `size + 10` fits in an `int`; beyond that the body wraps around like the source, but the contract does not describe the wrapped value.
- Generator.FloorCentre: computed over exact reals. Single-precision float rounding and the `int` to `float` conversion of the floor scale are not modelled.
- `visited` is a set of positions, not a mutable 2D array. Array bounds are implied by the in-grid and in-bounds predicates.
- Running out of memory for huge grids and stack overflow from deep recursion are not modelled. `DFSDepth` bounds the depth instead.
- The other scripts (player movement, camera, torch bobbing, typewriter text, game and menu managers, triggers) are engine glue and are not part of this model.

## Findings

None: every property stated above holds of the code as written.
