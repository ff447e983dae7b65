/** `MazeGenerator.Start`: sizing, grid allocation, the carve from `(1, 1)`,
    the per-position classification that `InstantiateMaze` turns into entry,
    exit and wall objects, and the floor sizing of `BuildFloor`.

    Sizes are C# `int`s: `mazeWidth * 2 + 1` wraps around modulo 2^32, a
    negative size makes the allocation `new bool[w, h]` throw, and a grid one
    position wide or high makes `DFS(1, 1)` index outside it.
 */
module Generator {
  import opened Geometry
  import opened Shuffle
  import opened Carve
  import opened CarveProperties

  const Int32Min: int := -0x8000_0000
  const Int32Max: int := 0x7FFF_FFFF

  predicate IsInt32(n: int) {
    Int32Min <= n <= Int32Max
  }

  /** Two's-complement wrap-around of an unchecked C# `int` result. */
  function Wrap32(n: int): (r: int)
    ensures IsInt32(r)
    ensures (r - n) % 0x1_0000_0000 == 0
    ensures IsInt32(n) ==> r == n
  {
    (n - Int32Min) % 0x1_0000_0000 + Int32Min
  }

  /** `mazeWidth * 2 + 1` (and likewise for the height) as `Start` computes it. */
  function ActualSize(mazeSize: int): (r: int)
    requires IsInt32(mazeSize)
    ensures r % 2 == 1
    ensures 0 <= mazeSize < 0x4000_0000 ==> r == 2 * mazeSize + 1
    ensures r >= 3 <==> (1 <= mazeSize < 0x4000_0000 || Int32Min < mazeSize < -0x4000_0000)
  {
    var n := mazeSize * 2 + 1;
    if n > Int32Max then
      assert Wrap32(n) == n - 0x1_0000_0000;
      Wrap32(n)
    else if n < Int32Min then
      assert Wrap32(n) == n + 0x1_0000_0000;
      Wrap32(n)
    else
      Wrap32(n)
  }

  /** The exceptions the source can raise while generating. */
  datatype GenError =
    | OverflowException         // `new bool[w, h]` with a negative size
    | IndexOutOfRangeException  // `visited[1, 1]` outside a one-wide grid

  datatype Result<T> = Ok(value: T) | Err(error: GenError)

  /** `visited = new bool[actualWidth, actualHeight]` followed by the loop
      clearing every flag. */
  function NewGrid(width: int, height: int): (r: Result<Grid>)
    ensures r.Ok? <==> width >= 0 && height >= 0
    ensures r.Err? ==> r.error == OverflowException
    ensures r.Ok? ==> r.value.width == width && r.value.height == height
    ensures r.Ok? ==> forall p :: p !in r.value.visited
  {
    if width < 0 || height < 0 then Err(OverflowException)
    else Ok(Grid(width, height, {}))
  }

  /** `GenerateMaze`: allocate and clear the grid, then carve from `(1, 1)`.
      The carve only starts when `(1, 1)` is inside the grid. */
  function GenerateMaze(width: int, height: int, draws: seq<nat>): (r: Result<Carving>)
    requires width % 2 == 1 && height % 2 == 1
    requires ValidDraws(draws) && |draws| >= 4 * |CellSet(width, height)|
    ensures r.Ok? <==> width >= 3 && height >= 3
    ensures r.Err? ==> (r.error == OverflowException <==> width < 0 || height < 0)
    ensures r.Ok? ==> r.value.grid.width == width && r.value.grid.height == height
    ensures r.Ok? ==> StartCell in r.value.grid.visited
  {
    var cleared := NewGrid(width, height);
    if cleared.Err? then Err(cleared.error)
    else if !InGrid(width, height, StartCell) then Err(IndexOutOfRangeException)
    else
      assert Unvisited(cleared.value) == CellSet(width, height);
      Ok(DFS(cleared.value, StartCell, draws))
  }

  /** The markers `InstantiateMaze` places; an open position gets none. */
  datatype Marker = EntryMarker | ExitMarker | WallMarker

  datatype Option<T> = None | Some(value: T)

  function Entry(g: Grid): Pos {
    Pos(1, 0)
  }

  function Exit(g: Grid): Pos {
    Pos(g.width - 2, g.height - 1)
  }

  /** The body of `InstantiateMaze`'s loop: entry first, then exit, then a
      wall on every position that was never visited. */
  function Classify(g: Grid, p: Pos): (m: Option<Marker>)
    requires InGrid(g.width, g.height, p)
    ensures m == Some(EntryMarker) <==> p == Entry(g)
    ensures m == Some(ExitMarker) <==> p == Exit(g) && p != Entry(g)
    ensures m == Some(WallMarker) <==> p != Entry(g) && p != Exit(g) && p !in g.visited
    ensures m == None <==> p != Entry(g) && p != Exit(g) && p in g.visited
  {
    if p.x == 1 && p.y == 0 then Some(EntryMarker)
    else if p.x == g.width - 2 && p.y == g.height - 1 then Some(ExitMarker)
    else if p !in g.visited then Some(WallMarker)
    else None
  }

  datatype Placement = Placement(pos: Pos, marker: Marker)

  /** Column-major order of `InstantiateMaze`'s nested loops. */
  predicate Before(a: Pos, b: Pos) {
    a.x < b.x || (a.x == b.x && a.y < b.y)
  }

  /** `InstantiateMaze`: walks the grid column by column and records one
      placement per position that gets a marker, in visiting order. */
  method InstantiateMaze(g: Grid) returns (placed: seq<Placement>)
    ensures forall k | 0 <= k < |placed| ::
      InGrid(g.width, g.height, placed[k].pos) && Classify(g, placed[k].pos) == Some(placed[k].marker)
    ensures forall p | InGrid(g.width, g.height, p) && Classify(g, p).Some? ::
      Placement(p, Classify(g, p).value) in placed
    ensures forall k, l | 0 <= k < l < |placed| :: Before(placed[k].pos, placed[l].pos)
  {
    placed := [];
    var x := 0;
    while x < g.width
      invariant 0 <= x && (g.width >= 0 ==> x <= g.width)
      invariant forall k | 0 <= k < |placed| ::
        InGrid(g.width, g.height, placed[k].pos) && placed[k].pos.x < x &&
        Classify(g, placed[k].pos) == Some(placed[k].marker)
      invariant forall p | InGrid(g.width, g.height, p) && p.x < x && Classify(g, p).Some? ::
        Placement(p, Classify(g, p).value) in placed
      invariant forall k, l | 0 <= k < l < |placed| :: Before(placed[k].pos, placed[l].pos)
    {
      var y := 0;
      while y < g.height
        invariant 0 <= y && (g.height >= 0 ==> y <= g.height)
        invariant forall k | 0 <= k < |placed| ::
          InGrid(g.width, g.height, placed[k].pos) && Before(placed[k].pos, Pos(x, y)) &&
          Classify(g, placed[k].pos) == Some(placed[k].marker)
        invariant forall p | InGrid(g.width, g.height, p) && Before(p, Pos(x, y)) && Classify(g, p).Some? ::
          Placement(p, Classify(g, p).value) in placed
        invariant forall k, l | 0 <= k < l < |placed| :: Before(placed[k].pos, placed[l].pos)
      {
        var m := Classify(g, Pos(x, y));
        if m.Some? {
          placed := placed + [Placement(Pos(x, y), m.value)];
        }
        y := y + 1;
      }
      x := x + 1;
    }
  }

  /** `floorExtraSize`. */
  const FloorExtraSize: int := 10

  /** The integer part of `BuildFloor`: the floor's scale along the maze's
      two axes (its third scale component is the constant 1). */
  function FloorScale(width: int, height: int): (scale: (int, int))
    requires IsInt32(width) && IsInt32(height)
    ensures width <= Int32Max - FloorExtraSize ==> scale.0 == width + FloorExtraSize
    ensures height <= Int32Max - FloorExtraSize ==> scale.1 == height + FloorExtraSize
  {
    (Wrap32(width + FloorExtraSize), Wrap32(height + FloorExtraSize))
  }

  /** The floor's centre `(actualWidth / 2 - 0.5, actualHeight / 2 - 0.5)`,
      in exact arithmetic: the middle of the grid's `0 .. size - 1` range. */
  function FloorCentre(width: int, height: int): (centre: (real, real))
    ensures 2.0 * centre.0 == (width - 1) as real && 2.0 * centre.1 == (height - 1) as real
    ensures width % 2 == 1 ==> centre.0 == ((width - 1) / 2) as real
    ensures height % 2 == 1 ==> centre.1 == ((height - 1) / 2) as real
  {
    (width as real / 2.0 - 0.5, height as real / 2.0 - 0.5)
  }

  /** What `Start` produces: the carved grid, the draws left in the stream
      and the floor's scale. */
  datatype Maze = Maze(grid: Grid, rest: seq<nat>, floorScale: (int, int))

  /** The number of logical cells of the grid `Start` allocates for a maze of
      the given size, one block of four draws each. */
  function CellsFor(mazeWidth: int, mazeHeight: int): (n: nat)
    requires IsInt32(mazeWidth) && IsInt32(mazeHeight)
    ensures 0 <= mazeWidth < 0x4000_0000 && 0 <= mazeHeight < 0x4000_0000 ==> n == mazeWidth * mazeHeight
  {
    if 0 <= mazeWidth < 0x4000_0000 && 0 <= mazeHeight < 0x4000_0000 then
      CellCount(mazeWidth, mazeHeight);
      |CellSet(ActualSize(mazeWidth), ActualSize(mazeHeight))|
    else
      |CellSet(ActualSize(mazeWidth), ActualSize(mazeHeight))|
  }

  /** `Start`: size the grid, generate the maze, then size the floor. */
  function Start(mazeWidth: int, mazeHeight: int, draws: seq<nat>): (r: Result<Maze>)
    requires IsInt32(mazeWidth) && IsInt32(mazeHeight)
    requires ValidDraws(draws) && |draws| >= 4 * CellsFor(mazeWidth, mazeHeight)
    ensures 1 <= mazeWidth < 0x4000_0000 && 1 <= mazeHeight < 0x4000_0000 ==>
      r.Ok? && r.value.grid.width == 2 * mazeWidth + 1 && r.value.grid.height == 2 * mazeHeight + 1
    ensures (mazeWidth == 0 || mazeHeight == 0) ==> r.Err?
  {
    var width := ActualSize(mazeWidth);
    var height := ActualSize(mazeHeight);
    var generated := GenerateMaze(width, height, draws);
    if generated.Err? then Err(generated.error)
    else Ok(Maze(generated.value.grid, generated.value.rest, FloorScale(width, height)))
  }
}
