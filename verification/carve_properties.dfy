/** What the depth-first carve guarantees about the `visited` grid.

    - Shape: every opened position is a logical cell or a connector whose two
      cells are both open, so nothing on the border ring and no pillar is ever
      opened; and each call opens exactly one connector per cell it visits
      beyond its own, so the carve is a tree.
    - Coverage: when a call returns, every cell it visited has all its
      in-ring neighbours visited and is reachable from the start through
      opened connectors.
 */
module CarveProperties {
  import opened Geometry
  import opened Shuffle
  import opened Carve

  /** Every open position is a cell, or a connector both of whose cells are open. */
  ghost predicate WellFormed(g: Grid) {
    forall p | p in g.visited ::
      IsCell(g.width, g.height, p) ||
      (IsConnector(g.width, g.height, p) && Sides(p).0 in g.visited && Sides(p).1 in g.visited)
  }

  function Mark(g: Grid, p: Pos): Grid {
    g.(visited := g.visited + {p})
  }

  /** The carve keeps the grid well formed and opens, besides its own cell,
      one connector and one cell at a time: `2 * cells - 1` new positions. */
  lemma {:induction false} DFSShape(g: Grid, c: Pos, draws: seq<nat>)
    requires IsCell(g.width, g.height, c) && c !in g.visited
    requires ValidDraws(draws) && |draws| >= 4 * |Unvisited(g)|
    requires WellFormed(Mark(g, c))
    ensures WellFormed(DFS(g, c, draws).grid)
    ensures |DFS(g, c, draws).grid.visited| - |g.visited|
         == 2 * (|Unvisited(g)| - |Unvisited(DFS(g, c, draws).grid)|) - 1
    decreases Unvisited(g), 0
  {
    var g1 := Mark(g, c);
    MarkCell(g, c);
    NextBlock(draws);
    var shuffled := ShuffleArray(Directions, draws);
    DirectionsShuffled(shuffled.0);
    ExploreShape(g1, c, shuffled.0, 0, shuffled.1);
  }

  lemma {:induction false} ExploreShape(g: Grid, c: Pos, dirs: seq<Vec>, i: nat, draws: seq<nat>)
    requires IsCell(g.width, g.height, c) && c in g.visited
    requires |dirs| == 4 && i <= 4 && forall k | 0 <= k < 4 :: IsStep(dirs[k])
    requires ValidDraws(draws) && |draws| >= 4 * |Unvisited(g)|
    requires WellFormed(g)
    ensures WellFormed(Explore(g, c, dirs, i, draws).grid)
    ensures |Explore(g, c, dirs, i, draws).grid.visited| - |g.visited|
         == 2 * (|Unvisited(g)| - |Unvisited(Explore(g, c, dirs, i, draws).grid)|)
    decreases Unvisited(g), 2, 4 - i
  {
    if i < 4 {
      var r1 := Visit(g, c, dirs[i], draws);
      VisitShape(g, c, dirs[i], draws);
      ExploreShape(r1.grid, c, dirs, i + 1, r1.rest);
      var r2 := Explore(r1.grid, c, dirs, i + 1, r1.rest);
      assert Explore(g, c, dirs, i, draws) == r2;
      assert |r2.grid.visited| - |g.visited|
          == (|r2.grid.visited| - |r1.grid.visited|) + (|r1.grid.visited| - |g.visited|);
    }
  }

  lemma {:induction false} VisitShape(g: Grid, c: Pos, d: Vec, draws: seq<nat>)
    requires IsCell(g.width, g.height, c) && c in g.visited && IsStep(d)
    requires ValidDraws(draws) && |draws| >= 4 * |Unvisited(g)|
    requires WellFormed(g)
    ensures WellFormed(Visit(g, c, d, draws).grid)
    ensures |Visit(g, c, d, draws).grid.visited| - |g.visited|
         == 2 * (|Unvisited(g)| - |Unvisited(Visit(g, c, d, draws).grid)|)
    decreases Unvisited(g), 1
  {
    var n := Add(c, d);
    if IsInBounds(g.width, g.height, n) && n !in g.visited {
      var m := Connector(c, d);
      var g2 := Mark(g, m);
      OpenConnector(g, c, d);
      StepGeometry(g.width, g.height, c, d);
      assert m !in g.visited;
      assert |g2.visited| == |g.visited| + 1;
      assert WellFormed(Mark(g2, n));
      DFSShape(g2, n, draws);
    }
  }

  /** Every in-ring neighbour of `q` is open. */
  ghost predicate Closed(g: Grid, q: Pos) {
    forall k | 0 <= k < 4 ::
      IsInBounds(g.width, g.height, Add(q, Directions[k])) ==> Add(q, Directions[k]) in g.visited
  }

  /** `b` is one step from `a` and the connector between them is open. */
  ghost predicate Linked(visited: set<Pos>, a: Pos, b: Pos) {
    var d := Vec(b.x - a.x, b.y - a.y);
    IsStep(d) && Connector(a, d) in visited
  }

  /** `path` walks from the start to `q` through open connectors. */
  ghost predicate IsPathTo(visited: set<Pos>, path: seq<Pos>, q: Pos) {
    |path| > 0 && path[0] == StartCell && path[|path| - 1] == q &&
    forall i | 0 <= i < |path| - 1 :: Linked(visited, path[i], path[i + 1])
  }

  ghost predicate Reachable(visited: set<Pos>, q: Pos) {
    exists path :: IsPathTo(visited, path, q)
  }

  lemma ReachableStart(visited: set<Pos>)
    ensures Reachable(visited, StartCell)
  {
    assert IsPathTo(visited, [StartCell], StartCell);
  }

  /** Opening more positions never disconnects a reachable cell. */
  lemma ReachableMono(visited: set<Pos>, more: set<Pos>, q: Pos)
    requires Reachable(visited, q) && visited <= more
    ensures Reachable(more, q)
  {
    var path :| IsPathTo(visited, path, q);
    assert IsPathTo(more, path, q);
  }

  /** Crossing an open connector from a reachable cell reaches the neighbour. */
  lemma ReachableStep(visited: set<Pos>, c: Pos, d: Vec)
    requires Reachable(visited, c) && IsStep(d) && Connector(c, d) in visited
    ensures Reachable(visited, Add(c, d))
  {
    var path :| IsPathTo(visited, path, c);
    var n := Add(c, d);
    assert Vec(n.x - c.x, n.y - c.y) == d;
    var path' := path + [n];
    forall i | 0 <= i < |path'| - 1 ensures Linked(visited, path'[i], path'[i + 1]) {
      if i < |path| - 1 {
        assert path'[i] == path[i] && path'[i + 1] == path[i + 1];
      }
    }
    assert IsPathTo(visited, path', n);
  }

  /** The cells a carve newly opened are finished: their neighbours are all
      open and they are reachable from the start. */
  ghost predicate NewCellsDone(g: Grid, r: Grid) {
    forall q | q in r.visited && q !in g.visited && IsCell(g.width, g.height, q) ::
      Closed(r, q) && Reachable(r.visited, q)
  }

  /** A cell whose neighbours in every shuffled direction are open is closed. */
  lemma ClosedInEveryDirection(r: Grid, c: Pos, dirs: seq<Vec>)
    requires multiset(dirs) == multiset(Directions)
    requires forall j | 0 <= j < |dirs| ::
      IsInBounds(r.width, r.height, Add(c, dirs[j])) ==> Add(c, dirs[j]) in r.visited
    ensures Closed(r, c)
  {
    DirectionsShuffled(dirs);
    forall k | 0 <= k < 4 && IsInBounds(r.width, r.height, Add(c, Directions[k]))
      ensures Add(c, Directions[k]) in r.visited
    {
      var j := IndexOf(dirs, Directions[k]);
      assert IsInBounds(r.width, r.height, Add(c, dirs[j]));
    }
  }

  /** After the direction loop, every in-ring neighbour in the remaining
      directions is visited. */
  lemma {:induction false} ExploreVisitsNeighbours(g: Grid, c: Pos, dirs: seq<Vec>, i: nat, draws: seq<nat>)
    requires IsCell(g.width, g.height, c) && c in g.visited
    requires |dirs| == 4 && i <= 4 && forall k | 0 <= k < 4 :: IsStep(dirs[k])
    requires ValidDraws(draws) && |draws| >= 4 * |Unvisited(g)|
    ensures forall j | i <= j < 4 && IsInBounds(g.width, g.height, Add(c, dirs[j])) ::
      Add(c, dirs[j]) in Explore(g, c, dirs, i, draws).grid.visited
    decreases 4 - i
  {
    if i < 4 {
      var r1 := Visit(g, c, dirs[i], draws);
      ExploreVisitsNeighbours(r1.grid, c, dirs, i + 1, r1.rest);
      var r := Explore(g, c, dirs, i, draws);
      assert r == Explore(r1.grid, c, dirs, i + 1, r1.rest);
      assert r1.grid.visited <= r.grid.visited;
      forall j | i <= j < 4 && IsInBounds(g.width, g.height, Add(c, dirs[j]))
        ensures Add(c, dirs[j]) in r.grid.visited
      {
        if j == i {
          assert Add(c, dirs[i]) in r1.grid.visited;
        }
      }
    }
  }

  /** Finished cells stay finished as more positions are opened. */
  lemma DoneTransitive(g: Grid, mid: Grid, r: Grid)
    requires g.width == mid.width == r.width && g.height == mid.height == r.height
    requires g.visited <= mid.visited <= r.visited
    requires NewCellsDone(g, mid) && NewCellsDone(mid, r)
    ensures NewCellsDone(g, r)
  {
    forall q | q in r.visited && q !in g.visited && IsCell(g.width, g.height, q)
      ensures Closed(r, q) && Reachable(r.visited, q)
    {
      if q in mid.visited {
        ReachableMono(mid.visited, r.visited, q);
      }
    }
  }

  lemma {:induction false} DFSCovers(g: Grid, c: Pos, draws: seq<nat>)
    requires IsCell(g.width, g.height, c) && c !in g.visited
    requires ValidDraws(draws) && |draws| >= 4 * |Unvisited(g)|
    requires Reachable(g.visited, c)
    ensures NewCellsDone(g, DFS(g, c, draws).grid)
    decreases Unvisited(g), 0
  {
    var g1 := Mark(g, c);
    MarkCell(g, c);
    NextBlock(draws);
    var shuffled := ShuffleArray(Directions, draws);
    var dirs := shuffled.0;
    DirectionsShuffled(dirs);
    ReachableMono(g.visited, g1.visited, c);
    ExploreCovers(g1, c, dirs, 0, shuffled.1);
    ExploreVisitsNeighbours(g1, c, dirs, 0, shuffled.1);
    var r := DFS(g, c, draws).grid;
    assert r == Explore(g1, c, dirs, 0, shuffled.1).grid;
    ClosedInEveryDirection(r, c, dirs);
    ReachableMono(g.visited, r.visited, c);
    DoneAfterMark(g, c, r);
  }

  /** The cells new since `g` are `c` and those new since `c` was marked. */
  lemma DoneAfterMark(g: Grid, c: Pos, r: Grid)
    requires r.width == g.width && r.height == g.height
    requires NewCellsDone(Mark(g, c), r) && Closed(r, c) && Reachable(r.visited, c)
    ensures NewCellsDone(g, r)
  {
    forall q | q in r.visited && q !in g.visited && IsCell(g.width, g.height, q)
      ensures Closed(r, q) && Reachable(r.visited, q)
    {
      if q != c {
        assert q !in Mark(g, c).visited;
      }
    }
  }

  lemma {:induction false} ExploreCovers(g: Grid, c: Pos, dirs: seq<Vec>, i: nat, draws: seq<nat>)
    requires IsCell(g.width, g.height, c) && c in g.visited
    requires |dirs| == 4 && i <= 4 && forall k | 0 <= k < 4 :: IsStep(dirs[k])
    requires ValidDraws(draws) && |draws| >= 4 * |Unvisited(g)|
    requires Reachable(g.visited, c)
    ensures NewCellsDone(g, Explore(g, c, dirs, i, draws).grid)
    decreases Unvisited(g), 2, 4 - i
  {
    if i < 4 {
      var r1 := Visit(g, c, dirs[i], draws);
      VisitCovers(g, c, dirs[i], draws);
      ReachableMono(g.visited, r1.grid.visited, c);
      ExploreCovers(r1.grid, c, dirs, i + 1, r1.rest);
      var r := Explore(g, c, dirs, i, draws).grid;
      assert r == Explore(r1.grid, c, dirs, i + 1, r1.rest).grid;
      DoneTransitive(g, r1.grid, r);
    }
  }

  lemma {:induction false} VisitCovers(g: Grid, c: Pos, d: Vec, draws: seq<nat>)
    requires IsCell(g.width, g.height, c) && c in g.visited && IsStep(d)
    requires ValidDraws(draws) && |draws| >= 4 * |Unvisited(g)|
    requires Reachable(g.visited, c)
    ensures NewCellsDone(g, Visit(g, c, d, draws).grid)
    decreases Unvisited(g), 1
  {
    var n := Add(c, d);
    if IsInBounds(g.width, g.height, n) && n !in g.visited {
      var g2 := Mark(g, Connector(c, d));
      OpenConnector(g, c, d);
      ReachableMono(g.visited, g2.visited, c);
      ReachableStep(g2.visited, c, d);
      DFSCovers(g2, n, draws);
      var r := Visit(g, c, d, draws).grid;
      assert r == DFS(g2, n, draws).grid;
      forall q | q in r.visited && q !in g.visited && IsCell(g.width, g.height, q)
        ensures Closed(r, q) && Reachable(r.visited, q)
      {
        assert q !in g2.visited;
      }
    }
  }
}
