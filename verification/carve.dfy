/** The generator's grid and its randomized depth-first carve (`DFS`).

    `visited` is modelled as the set of positions whose flag is `true`. The
    engine's random source becomes an input stream of draws; every call of
    `DFS` shuffles the four step vectors with the next four draws, so the
    whole stream splits into aligned blocks of four whose `i`-th draw lies in
    `[0, i]`.
 */
module Carve {
  import opened Geometry
  import opened Shuffle

  /** The `visited` grid: `width x height` flags, `true` exactly on `visited`. */
  datatype Grid = Grid(width: int, height: int, visited: set<Pos>)

  /** The outcome of a carve: the grid and the draws left in the stream. */
  datatype Carving = Carving(grid: Grid, rest: seq<nat>)

  /** The logical cells not yet visited; every recursive `DFS` call removes one. */
  function Unvisited(g: Grid): set<Pos> {
    CellSet(g.width, g.height) - g.visited
  }

  /** A stream the generator can consume: the draw at offset `k` answers
      `Random.Range(0, k % 4 + 1)`, so it lies in `[0, k % 4]`. */
  predicate ValidDraws(draws: seq<nat>) {
    forall k | 0 <= k < |draws| :: draws[k] <= k % 4
  }

  /** The next four draws of a valid stream feed one shuffle, and what
      follows is again a valid stream. */
  lemma NextBlock(draws: seq<nat>)
    requires ValidDraws(draws) && |draws| >= 4
    ensures ValidBlock(draws, 4) && ValidDraws(draws[4..])
  {
    forall k | 0 <= k < |draws| - 4
      ensures draws[4..][k] <= k % 4
    {
      assert draws[4..][k] == draws[k + 4];
      assert (k + 4) % 4 == k % 4;
    }
  }

  lemma SuffixOfSuffix<T>(s: seq<T>, t: seq<T>, u: seq<T>)
    requires |u| <= |t| <= |s|
    requires t == s[|s| - |t|..] && u == t[|t| - |u|..]
    ensures u == s[|s| - |u|..]
  {
    forall k | 0 <= k < |u| ensures u[k] == s[|s| - |u| + k] {
      assert u[k] == t[|t| - |u| + k];
    }
  }

  /** Opening the connector towards an unvisited in-ring neighbour leaves
      the neighbour an unvisited cell and the unvisited cells unchanged. */
  lemma OpenConnector(g: Grid, c: Pos, d: Vec)
    requires IsCell(g.width, g.height, c) && IsStep(d)
    requires IsInBounds(g.width, g.height, Add(c, d)) && Add(c, d) !in g.visited
    ensures IsCell(g.width, g.height, Add(c, d)) && !IsCell(g.width, g.height, Connector(c, d))
    ensures Add(c, d) !in g.visited + {Connector(c, d)}
    ensures Unvisited(g.(visited := g.visited + {Connector(c, d)})) == Unvisited(g)
  {
    StepGeometry(g.width, g.height, c, d);
    CellSetIsCells(g.width, g.height);
  }

  /** Marking `c`, which is an unvisited cell, removes exactly `c` from the
      unvisited cells. */
  lemma MarkCell(g: Grid, c: Pos)
    requires IsCell(g.width, g.height, c) && c !in g.visited
    ensures Unvisited(g.(visited := g.visited + {c})) == Unvisited(g) - {c}
    ensures |Unvisited(g.(visited := g.visited + {c}))| == |Unvisited(g)| - 1
  {
    CellSetIsCells(g.width, g.height);
    assert c in Unvisited(g);
  }

  /** What every carve step promises about the grid it returns and the
      stream it leaves: the dimensions are kept, flags are only ever set, the
      unvisited cells only shrink, and exactly four draws are consumed for
      every logical cell that became visited, from the front of the stream. */
  predicate Progress(g: Grid, draws: seq<nat>, r: Carving) {
    && r.grid.width == g.width && r.grid.height == g.height
    && g.visited <= r.grid.visited
    && Unvisited(r.grid) <= Unvisited(g)
    && ValidDraws(r.rest) && |r.rest| <= |draws|
    && |draws| - |r.rest| == 4 * (|Unvisited(g)| - |Unvisited(r.grid)|)
    && r.rest == draws[|draws| - |r.rest|..]
  }

  lemma ProgressTransitive(g: Grid, draws: seq<nat>, r1: Carving, r2: Carving)
    requires Progress(g, draws, r1) && Progress(r1.grid, r1.rest, r2)
    ensures Progress(g, draws, r2)
  {
    SuffixOfSuffix(draws, r1.rest, r2.rest);
  }

  /** `DFS(x, y)`: marks `c`, shuffles the step vectors with the next four
      draws and explores them in the shuffled order; `c` ends up visited and
      every in-ring neighbour of `c` too. */
  function DFS(g: Grid, c: Pos, draws: seq<nat>): (r: Carving)
    requires IsCell(g.width, g.height, c) && c !in g.visited
    requires ValidDraws(draws) && |draws| >= 4 * |Unvisited(g)|
    ensures Progress(g, draws, r)
    ensures c in r.grid.visited && c !in Unvisited(r.grid)
    decreases Unvisited(g), 0
  {
    var g1 := g.(visited := g.visited + {c});
    MarkCell(g, c);
    NextBlock(draws);
    var shuffled := ShuffleArray(Directions, draws);
    DirectionsShuffled(shuffled.0);
    var r := Explore(g1, c, shuffled.0, 0, shuffled.1);
    SuffixOfSuffix(draws, shuffled.1, r.rest);
    r
  }

  /** A reordering of the step vectors still holds only step vectors, and
      holds every one of them. */
  lemma DirectionsShuffled(dirs: seq<Vec>)
    requires multiset(dirs) == multiset(Directions)
    ensures |dirs| == 4
    ensures forall k | 0 <= k < |dirs| :: IsStep(dirs[k])
    ensures forall k | 0 <= k < 4 :: Directions[k] in dirs
  {
    assert |dirs| == |multiset(dirs)|;
    forall k | 0 <= k < |dirs| ensures IsStep(dirs[k]) {
      assert dirs[k] in multiset(dirs);
    }
    forall k | 0 <= k < 4 ensures Directions[k] in dirs {
      assert Directions[k] in multiset(Directions);
    }
  }

  /** The direction loop of `DFS(x, y)` from iteration `i` on. */
  function Explore(g: Grid, c: Pos, dirs: seq<Vec>, i: nat, draws: seq<nat>): (r: Carving)
    requires IsCell(g.width, g.height, c) && c in g.visited
    requires |dirs| == 4 && i <= 4 && forall k | 0 <= k < 4 :: IsStep(dirs[k])
    requires ValidDraws(draws) && |draws| >= 4 * |Unvisited(g)|
    ensures Progress(g, draws, r)
    decreases Unvisited(g), 2, 4 - i
  {
    if i == 4 then Carving(g, draws)
    else
      var r1 := Visit(g, c, dirs[i], draws);
      var r2 := Explore(r1.grid, c, dirs, i + 1, r1.rest);
      ProgressTransitive(g, draws, r1, r2);
      r2
  }

  /** One iteration of the direction loop: a neighbour that is inside the
      ring and unvisited gets its connector opened and is carved
      recursively; any other neighbour is skipped. Either way the neighbour,
      when inside the ring, is visited afterwards. */
  function Visit(g: Grid, c: Pos, d: Vec, draws: seq<nat>): (r: Carving)
    requires IsCell(g.width, g.height, c) && c in g.visited && IsStep(d)
    requires ValidDraws(draws) && |draws| >= 4 * |Unvisited(g)|
    ensures Progress(g, draws, r)
    ensures IsInBounds(g.width, g.height, Add(c, d)) ==> Add(c, d) in r.grid.visited
    decreases Unvisited(g), 1
  {
    var n := Add(c, d);
    if IsInBounds(g.width, g.height, n) && n !in g.visited then
      var g2 := g.(visited := g.visited + {Connector(c, d)});
      OpenConnector(g, c, d);
      DFS(g2, n, draws)
    else
      Carving(g, draws)
  }
}
