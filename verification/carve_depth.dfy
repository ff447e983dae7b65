/** How deep the recursion of `DFS` nests: one level per cell it carves,
    so never more than the number of unvisited cells it starts with. */
module CarveDepth {
  import opened Geometry
  import opened Shuffle
  import opened Carve

  lemma SubsetSize<T>(a: set<T>, b: set<T>)
    requires a <= b
    ensures |a| <= |b|
  {
    assert b == a + (b - a);
    DisjointUnionSize(a, b - a);
  }

  /** The number of `DFS` frames on the stack at the deepest point of the
      call `DFS(c)`, this call included. */
  function DFSDepth(g: Grid, c: Pos, draws: seq<nat>): (depth: nat)
    requires IsCell(g.width, g.height, c) && c !in g.visited
    requires ValidDraws(draws) && |draws| >= 4 * |Unvisited(g)|
    ensures 1 <= depth <= |Unvisited(g)|
    decreases Unvisited(g), 0
  {
    var g1 := g.(visited := g.visited + {c});
    MarkCell(g, c);
    NextBlock(draws);
    var shuffled := ShuffleArray(Directions, draws);
    DirectionsShuffled(shuffled.0);
    1 + ExploreDepth(g1, c, shuffled.0, 0, shuffled.1)
  }

  /** The deepest nesting below the direction loop from iteration `i` on. */
  function ExploreDepth(g: Grid, c: Pos, dirs: seq<Vec>, i: nat, draws: seq<nat>): (depth: nat)
    requires IsCell(g.width, g.height, c) && c in g.visited
    requires |dirs| == 4 && i <= 4 && forall k | 0 <= k < 4 :: IsStep(dirs[k])
    requires ValidDraws(draws) && |draws| >= 4 * |Unvisited(g)|
    ensures depth <= |Unvisited(g)|
    decreases Unvisited(g), 2, 4 - i
  {
    if i == 4 then 0
    else
      var r1 := Visit(g, c, dirs[i], draws);
      var here := VisitDepth(g, c, dirs[i], draws);
      var later := ExploreDepth(r1.grid, c, dirs, i + 1, r1.rest);
      SubsetSize(Unvisited(r1.grid), Unvisited(g));
      if here < later then later else here
  }

  /** The deepest nesting below one iteration of the direction loop: none
      when the neighbour is skipped. */
  function VisitDepth(g: Grid, c: Pos, d: Vec, draws: seq<nat>): (depth: nat)
    requires IsCell(g.width, g.height, c) && c in g.visited && IsStep(d)
    requires ValidDraws(draws) && |draws| >= 4 * |Unvisited(g)|
    ensures depth <= |Unvisited(g)|
    ensures depth > 0 <==> IsInBounds(g.width, g.height, Add(c, d)) && Add(c, d) !in g.visited
    decreases Unvisited(g), 1
  {
    var n := Add(c, d);
    if IsInBounds(g.width, g.height, n) && n !in g.visited then
      var g2 := g.(visited := g.visited + {Connector(c, d)});
      OpenConnector(g, c, d);
      DFSDepth(g2, n, draws)
    else
      0
  }
}
