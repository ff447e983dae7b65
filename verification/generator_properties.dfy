/** What a generated maze looks like: a spanning tree over the logical
    cells, rooted at `(1, 1)`, inside an untouched outer ring, with an entry
    and an exit that open onto carved cells. */
module GeneratorProperties {
  import opened Geometry
  import opened Shuffle
  import opened Carve
  import opened CarveProperties
  import opened CarveDepth
  import opened Generator

  /** Every visited cell has all of its in-ring neighbours visited. */
  ghost predicate AllClosed(g: Grid) {
    forall q | q in g.visited && IsCell(g.width, g.height, q) :: Closed(g, q)
  }

  lemma {:induction false} ReachesFirstColumn(g: Grid, j: nat)
    requires StartCell in g.visited && AllClosed(g)
    requires IsCell(g.width, g.height, Pos(1, 2 * j + 1))
    ensures Pos(1, 2 * j + 1) in g.visited
  {
    if j > 0 {
      var q := Pos(1, 2 * j - 1);
      ReachesFirstColumn(g, j - 1);
      assert Closed(g, q);
      assert Add(q, Directions[0]) == Pos(1, 2 * j + 1);
    }
  }

  lemma {:induction false} ReachesCell(g: Grid, i: nat, j: nat)
    requires StartCell in g.visited && AllClosed(g)
    requires IsCell(g.width, g.height, Pos(2 * i + 1, 2 * j + 1))
    ensures Pos(2 * i + 1, 2 * j + 1) in g.visited
  {
    if i == 0 {
      ReachesFirstColumn(g, j);
    } else {
      var q := Pos(2 * i - 1, 2 * j + 1);
      ReachesCell(g, i - 1, j);
      assert Closed(g, q);
      assert Add(q, Directions[1]) == Pos(2 * i + 1, 2 * j + 1);
    }
  }

  /** Closedness spreads from `(1, 1)` to every cell of the grid. */
  lemma AllCellsVisited(g: Grid)
    requires StartCell in g.visited && AllClosed(g)
    ensures forall p | IsCell(g.width, g.height, p) :: p in g.visited
  {
    forall p | IsCell(g.width, g.height, p) ensures p in g.visited {
      ReachesCell(g, (p.x - 1) / 2, (p.y - 1) / 2);
    }
  }

  /** Every logical cell is visited and reachable from `(1, 1)` through
      opened connectors. */
  ghost predicate AllCellsReached(g: Grid) {
    forall p | IsCell(g.width, g.height, p) :: p in g.visited && Reachable(g.visited, p)
  }

  /** Nothing on the outer ring and no pillar was ever opened. */
  ghost predicate RingAndPillarsClosed(g: Grid) {
    forall p | p in g.visited :: InGrid(g.width, g.height, p) && !OnBorder(g.width, g.height, p) && !IsPillar(p)
  }

  /** Every cell is open and the other opened positions number one less than
      the cells: the connectors of a spanning tree. */
  predicate TreeCount(g: Grid) {
    && CellSet(g.width, g.height) <= g.visited
    && |g.visited - CellSet(g.width, g.height)| == |CellSet(g.width, g.height)| - 1
  }

  lemma WellFormedStaysInside(g: Grid)
    requires WellFormed(g)
    ensures RingAndPillarsClosed(g)
  {
  }

  lemma CellsPlusConnectors(g: Grid)
    requires CellSet(g.width, g.height) <= g.visited
    requires |g.visited| == 2 * |CellSet(g.width, g.height)| - 1
    ensures TreeCount(g)
  {
    var cells := CellSet(g.width, g.height);
    assert g.visited == cells + (g.visited - cells);
    DisjointUnionSize(cells, g.visited - cells);
  }

  /** The carve from `(1, 1)` on a cleared grid keeps the grid well formed
      and opens two positions per cell it visits but the first. */
  lemma {:induction false} CarveShape(width: int, height: int, draws: seq<nat>)
    requires width >= 3 && height >= 3
    requires ValidDraws(draws) && |draws| >= 4 * |CellSet(width, height)|
    ensures var r := DFS(Grid(width, height, {}), StartCell, draws);
      && WellFormed(r.grid)
      && |r.grid.visited| == 2 * (|CellSet(width, height)| - |Unvisited(r.grid)|) - 1
  {
    var g0 := Grid(width, height, {});
    assert Unvisited(g0) == CellSet(width, height);
    StartAloneWellFormed(g0);
    DFSShape(g0, StartCell, draws);
  }

  lemma ProgressRest(g: Grid, draws: seq<nat>, r: Carving)
    requires Progress(g, draws, r)
    ensures 0 <= 4 * (|Unvisited(g)| - |Unvisited(r.grid)|) <= |draws|
    ensures r.rest == draws[4 * (|Unvisited(g)| - |Unvisited(r.grid)|)..]
  {
  }

  lemma StartAloneWellFormed(g: Grid)
    requires g.width >= 3 && g.height >= 3 && g.visited == {}
    ensures WellFormed(Mark(g, StartCell))
  {
    assert Mark(g, StartCell).visited == {StartCell};
  }

  /** The carve from `(1, 1)` on a cleared grid reaches every cell. */
  lemma {:induction false} CarveCovers(width: int, height: int, draws: seq<nat>)
    requires width >= 3 && height >= 3
    requires ValidDraws(draws) && |draws| >= 4 * |CellSet(width, height)|
    ensures var r := DFS(Grid(width, height, {}), StartCell, draws);
      && AllCellsReached(r.grid)
      && Unvisited(r.grid) == {}
  {
    var g0 := Grid(width, height, {});
    assert Unvisited(g0) == CellSet(width, height);
    var g := DFS(g0, StartCell, draws).grid;
    ReachableStart({});
    DFSCovers(g0, StartCell, draws);
    AllCellsVisited(g);
    CellSetIsCells(width, height);
  }

  /** `GenerateMaze` on a grid of at least `3 x 3`: every logical cell is
      visited and reachable from `(1, 1)` through opened connectors; only
      cells and connectors between two visited cells are opened, so the
      outer ring and every pillar stay closed; the opened connectors number
      one less than the cells (a spanning tree); and four draws were used
      per cell. */
  lemma GenerateMazeCorrect(width: int, height: int, draws: seq<nat>)
    requires width % 2 == 1 && height % 2 == 1 && width >= 3 && height >= 3
    requires ValidDraws(draws) && |draws| >= 4 * |CellSet(width, height)|
    ensures var g := GenerateMaze(width, height, draws).value.grid;
      AllCellsReached(g) && WellFormed(g) && RingAndPillarsClosed(g) && TreeCount(g)
    ensures GenerateMaze(width, height, draws).value.rest == draws[4 * |CellSet(width, height)|..]
  {
    var r := DFS(Grid(width, height, {}), StartCell, draws);
    assert GenerateMaze(width, height, draws).value == r;
    CarveShape(width, height, draws);
    CarveCovers(width, height, draws);
    ProgressRest(Grid(width, height, {}), draws, r);
    WellFormedStaysInside(r.grid);
    CellSetIsCells(width, height);
    CellsPlusConnectors(r.grid);
  }

  /** With the sizes `Start` accepts, `Start` is `GenerateMaze` on a
      `(2 * mazeWidth + 1) x (2 * mazeHeight + 1)` grid with
      `mazeWidth * mazeHeight` cells, followed by the floor sizing of that
      grid. */
  lemma StartSizes(mazeWidth: int, mazeHeight: int, draws: seq<nat>)
    requires 1 <= mazeWidth < 0x4000_0000 && 1 <= mazeHeight < 0x4000_0000
    requires ValidDraws(draws) && |draws| >= 4 * CellsFor(mazeWidth, mazeHeight)
    ensures ActualSize(mazeWidth) == 2 * mazeWidth + 1 && ActualSize(mazeHeight) == 2 * mazeHeight + 1
    ensures |CellSet(ActualSize(mazeWidth), ActualSize(mazeHeight))| == mazeWidth * mazeHeight
    ensures var r := Start(mazeWidth, mazeHeight, draws);
      var generated := GenerateMaze(ActualSize(mazeWidth), ActualSize(mazeHeight), draws);
      && r.Ok? && generated.Ok?
      && r.value.grid == generated.value.grid && r.value.rest == generated.value.rest
      && r.value.floorScale == FloorScale(ActualSize(mazeWidth), ActualSize(mazeHeight))
  {
    CellCount(mazeWidth, mazeHeight);
  }

  /** A `mazeWidth x mazeHeight` maze from `Start` has `mazeWidth *
      mazeHeight` cells, all open and reached from `(1, 1)`, opens
      `mazeWidth * mazeHeight - 1` connectors and nothing on the ring or a
      pillar, and uses four draws per cell. */
  lemma StartCorrect(mazeWidth: int, mazeHeight: int, draws: seq<nat>)
    requires 1 <= mazeWidth < 0x4000_0000 && 1 <= mazeHeight < 0x4000_0000
    requires ValidDraws(draws) && |draws| >= 4 * (mazeWidth * mazeHeight)
    ensures var r := Start(mazeWidth, mazeHeight, draws);
      && r.Ok?
      && r.value.grid.width == 2 * mazeWidth + 1 && r.value.grid.height == 2 * mazeHeight + 1
      && AllCellsReached(r.value.grid) && RingAndPillarsClosed(r.value.grid) && TreeCount(r.value.grid)
      && |r.value.grid.visited - CellSet(r.value.grid.width, r.value.grid.height)| == mazeWidth * mazeHeight - 1
      && r.value.rest == draws[4 * (mazeWidth * mazeHeight)..]
  {
    StartSizes(mazeWidth, mazeHeight, draws);
    GenerateMazeCorrect(ActualSize(mazeWidth), ActualSize(mazeHeight), draws);
  }

  /** How `InstantiateMaze` classifies a finished maze on an odd grid of at
      least `3 x 3` whose cells are all open and whose ring and pillars are
      closed: the entry `(1, 0)` and the exit `(width - 2, height - 1)` are
      distinct doorways in the outer ring, each next to an open cell; every
      other position gets a wall exactly when it is closed, so the rest of
      the ring and every pillar become walls and every cell stays open
      floor. */
  lemma MazeMarkers(g: Grid)
    requires g.width % 2 == 1 && g.height % 2 == 1 && g.width >= 3 && g.height >= 3
    requires RingAndPillarsClosed(g)
    requires forall p | IsCell(g.width, g.height, p) :: p in g.visited
    ensures Entry(g) != Exit(g)
    ensures OnBorder(g.width, g.height, Entry(g)) && OnBorder(g.width, g.height, Exit(g))
    ensures Classify(g, Entry(g)) == Some(EntryMarker) && Classify(g, Exit(g)) == Some(ExitMarker)
    ensures Pos(1, 1) in g.visited && Pos(g.width - 2, g.height - 2) in g.visited
    ensures forall p | InGrid(g.width, g.height, p) :: Classify(g, p) == None <==> p in g.visited
    ensures forall p | InGrid(g.width, g.height, p) && OnBorder(g.width, g.height, p) && p != Entry(g) && p != Exit(g) ::
      Classify(g, p) == Some(WallMarker)
    ensures forall p | InGrid(g.width, g.height, p) && IsPillar(p) :: Classify(g, p) == Some(WallMarker)
    ensures forall p | IsCell(g.width, g.height, p) :: Classify(g, p) == None
  {
    assert IsCell(g.width, g.height, Pos(1, 1));
    assert IsCell(g.width, g.height, Pos(g.width - 2, g.height - 2));
  }

  /** The markers of a generated maze. */
  lemma GeneratedMarkers(width: int, height: int, draws: seq<nat>)
    requires width % 2 == 1 && height % 2 == 1 && width >= 3 && height >= 3
    requires ValidDraws(draws) && |draws| >= 4 * |CellSet(width, height)|
    ensures var g := GenerateMaze(width, height, draws).value.grid;
      && (forall p | InGrid(width, height, p) :: Classify(g, p) == None <==> p in g.visited)
      && (forall p | InGrid(width, height, p) && OnBorder(width, height, p) && p != Entry(g) && p != Exit(g) ::
            Classify(g, p) == Some(WallMarker))
      && Classify(g, Entry(g)) == Some(EntryMarker) && Classify(g, Exit(g)) == Some(ExitMarker)
  {
    GenerateMazeCorrect(width, height, draws);
    MazeMarkers(GenerateMaze(width, height, draws).value.grid);
  }

  /** The smallest maze, `1 x 1`: a `3 x 3` grid whose only opened position is
      the cell `(1, 1)`, entered from `(1, 0)` and left through `(1, 2)`, with
      walls on the other six positions. */
  lemma SmallestMaze(draws: seq<nat>)
    requires ValidDraws(draws) && |draws| >= 4
    ensures var r := Start(1, 1, draws);
      && r.Ok? && r.value.grid == Grid(3, 3, {Pos(1, 1)}) && r.value.rest == draws[4..]
      && forall p | InGrid(3, 3, p) ::
           Classify(r.value.grid, p) ==
             if p == Pos(1, 0) then Some(EntryMarker)
             else if p == Pos(1, 2) then Some(ExitMarker)
             else if p == Pos(1, 1) then None
             else Some(WallMarker)
  {
    StartCorrect(1, 1, draws);
    var g := Start(1, 1, draws).value.grid;
    SmallestGrid(g);
  }

  lemma SmallestGrid(g: Grid)
    requires g.width == 3 && g.height == 3 && TreeCount(g)
    ensures g == Grid(3, 3, {Pos(1, 1)})
  {
    assert OddsInside(3) == 1;
    assert Row(1, 1) == Row(0, 1) + {Pos(1, 1)} == {Pos(1, 1)};
    assert Cells(1, 1) == Cells(1, 0) + Row(1, 1) == {Pos(1, 1)};
    var others := g.visited - {Pos(1, 1)};
    assert |others| == 0;
    assert others == {};
    assert g.visited == {Pos(1, 1)} + others;
  }

  /** The recursion started by `GenerateMaze` nests at most one `DFS` frame
      per logical cell, `mazeWidth * mazeHeight` by `CellCount`. */
  lemma DepthBound(width: int, height: int, draws: seq<nat>)
    requires width >= 3 && height >= 3
    requires ValidDraws(draws) && |draws| >= 4 * |CellSet(width, height)|
    ensures Unvisited(Grid(width, height, {})) == CellSet(width, height)
    ensures DFSDepth(Grid(width, height, {}), StartCell, draws) <= |CellSet(width, height)|
  {
  }

  /** Which sizes `Start` accepts: `mazeWidth * 2 + 1` must come out at least
      3 after wrap-around, and otherwise the allocation or `visited[1, 1]`
      throws. */
  lemma StartOutcome(mazeWidth: int, mazeHeight: int, draws: seq<nat>)
    requires IsInt32(mazeWidth) && IsInt32(mazeHeight)
    requires ValidDraws(draws) && |draws| >= 4 * CellsFor(mazeWidth, mazeHeight)
    ensures var r := Start(mazeWidth, mazeHeight, draws);
      && (r.Ok? <==> Accepted(mazeWidth) && Accepted(mazeHeight))
      && (r.Err? ==> (r.error == OverflowException <==>
                      ActualSize(mazeWidth) < 0 || ActualSize(mazeHeight) < 0))
  {
  }

  /** `mazeWidth * 2 + 1` wraps to at least 3. */
  predicate Accepted(mazeSize: int) {
    1 <= mazeSize < 0x4000_0000 || Int32Min < mazeSize < -0x4000_0000
  }

  /** A negative size can wrap around to a huge grid. */
  lemma NegativeSizeWraps()
    ensures ActualSize(-0x4000_0001) == Int32Max
  {
  }

  /** The four step vectors are pairwise different, so by `ShuffleOnto`
      and `ShuffleInjective` every one of their 24 orders comes from exactly
      one valid block of four draws. */
  lemma DirectionsDistinct()
    ensures Distinct(Directions)
  {
  }
}
