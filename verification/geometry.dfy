/** Grid geometry of the maze generator.

    The maze lives on a `width x height` grid of positions (in the generator
    `width == 2 * mazeWidth + 1` and `height == 2 * mazeHeight + 1`). Logical
    cells sit at odd/odd positions strictly inside the outer ring; the
    position between two neighbouring cells is their connector; even/even
    positions are pillars that are never opened.
 */
module Geometry {

  /** A grid position `(x, y)`; `visited[x, y]` in the generator. */
  datatype Pos = Pos(x: int, y: int)

  /** A step vector: one of the rows of the generator's `directions` table. */
  datatype Vec = Vec(dx: int, dy: int)

  /** The four step vectors in the order the generator lists them before
      shuffling: north, east, south, west, each skipping a connector. */
  const Directions: seq<Vec> := [Vec(0, 2), Vec(2, 0), Vec(0, -2), Vec(-2, 0)]

  /** The position the generator starts carving from. */
  const StartCell: Pos := Pos(1, 1)

  predicate IsStep(d: Vec) {
    d in Directions
  }

  function Add(p: Pos, d: Vec): Pos {
    Pos(p.x + d.dx, p.y + d.dy)
  }

  /** The connector crossed by step `d` from `p`: half the step, with C#'s
      integer division (which agrees with Dafny's on the even values here). */
  function Connector(p: Pos, d: Vec): Pos {
    Pos(p.x + d.dx / 2, p.y + d.dy / 2)
  }

  predicate InGrid(width: int, height: int, p: Pos) {
    0 <= p.x < width && 0 <= p.y < height
  }

  predicate OnBorder(width: int, height: int, p: Pos) {
    p.x == 0 || p.y == 0 || p.x == width - 1 || p.y == height - 1
  }

  predicate Odd(n: int) {
    n % 2 == 1
  }

  /** The generator's `IsInBounds`: strictly inside the outer ring. */
  function IsInBounds(width: int, height: int, p: Pos): (r: bool)
    ensures r <==> InGrid(width, height, p) && !OnBorder(width, height, p)
  {
    p.x > 0 && p.y > 0 && p.x < width - 1 && p.y < height - 1
  }

  /** A logical maze cell: odd/odd and strictly inside the outer ring. */
  predicate IsCell(width: int, height: int, p: Pos) {
    IsInBounds(width, height, p) && Odd(p.x) && Odd(p.y)
  }

  /** A connector position: inside the ring with exactly one even coordinate. */
  predicate IsConnector(width: int, height: int, p: Pos) {
    IsInBounds(width, height, p) && (Odd(p.x) != Odd(p.y))
  }

  /** A pillar: both coordinates even. */
  predicate IsPillar(p: Pos) {
    !Odd(p.x) && !Odd(p.y)
  }

  /** The two cells a connector joins: left and right of it on a row with
      even x, below and above it otherwise. */
  function Sides(p: Pos): (Pos, Pos) {
    if Odd(p.x) then (Pos(p.x, p.y - 1), Pos(p.x, p.y + 1))
    else (Pos(p.x - 1, p.y), Pos(p.x + 1, p.y))
  }

  /** The cells `(2i + 1, y)` for `0 <= i < count`. */
  function Row(count: nat, y: int): set<Pos> {
    if count == 0 then {} else Row(count - 1, y) + {Pos(2 * count - 1, y)}
  }

  /** The cells `(2i + 1, 2j + 1)` for `0 <= i < columns` and `0 <= j < rows`. */
  function Cells(columns: nat, rows: nat): set<Pos> {
    if rows == 0 then {} else Cells(columns, rows - 1) + Row(columns, 2 * rows - 1)
  }

  /** How many odd coordinates lie strictly inside `[0, size - 1]`. */
  function OddsInside(size: int): nat {
    if size <= 1 then 0 else (size - 1) / 2
  }

  /** The set of all logical cells of a `width x height` grid. */
  function CellSet(width: int, height: int): set<Pos> {
    Cells(OddsInside(width), OddsInside(height))
  }

  lemma {:induction false} RowMembers(count: nat, y: int)
    ensures forall p: Pos :: p in Row(count, y) <==> p.y == y && 0 < p.x < 2 * count && Odd(p.x)
  {
    if count > 0 {
      RowMembers(count - 1, y);
      forall p: Pos | p.y == y && 0 < p.x < 2 * count && Odd(p.x)
        ensures p in Row(count, y)
      {
        if p.x != 2 * count - 1 {
          assert p.x < 2 * count - 2 + 1;
        }
      }
    }
  }

  lemma {:induction false} RowSize(count: nat, y: int)
    ensures |Row(count, y)| == count
  {
    if count > 0 {
      RowMembers(count - 1, y);
      RowSize(count - 1, y);
    }
  }

  lemma {:induction false} CellsMembers(columns: nat, rows: nat)
    ensures forall p: Pos :: p in Cells(columns, rows) <==>
      0 < p.x < 2 * columns && 0 < p.y < 2 * rows && Odd(p.x) && Odd(p.y)
  {
    if rows > 0 {
      CellsMembers(columns, rows - 1);
      RowMembers(columns, 2 * rows - 1);
    }
  }

  lemma {:induction false} CellsSize(columns: nat, rows: nat)
    ensures |Cells(columns, rows)| == columns * rows
  {
    if rows > 0 {
      RowSize(columns, 2 * rows - 1);
      CellsSize(columns, rows - 1);
      LastRowIsNew(columns, rows);
      DisjointUnionSize(Cells(columns, rows - 1), Row(columns, 2 * rows - 1));
      assert columns * rows == columns * (rows - 1) + columns;
    }
  }

  lemma LastRowIsNew(columns: nat, rows: nat)
    requires rows > 0
    ensures Cells(columns, rows - 1) * Row(columns, 2 * rows - 1) == {}
  {
    CellsMembers(columns, rows - 1);
    RowMembers(columns, 2 * rows - 1);
    var a, b := Cells(columns, rows - 1), Row(columns, 2 * rows - 1);
    forall p | p in a ensures p !in b {
      assert p.y < 2 * rows - 2;
    }
  }

  lemma DisjointUnionSize<T>(a: set<T>, b: set<T>)
    requires a * b == {}
    ensures |a + b| == |a| + |b|
  {
  }

  lemma CellSetIsCells(width: int, height: int)
    ensures forall p :: p in CellSet(width, height) <==> IsCell(width, height, p)
  {
    CellsMembers(OddsInside(width), OddsInside(height));
  }

  /** A `mazeWidth x mazeHeight` maze has `mazeWidth * mazeHeight` logical cells. */
  lemma CellCount(mazeWidth: nat, mazeHeight: nat)
    ensures |CellSet(2 * mazeWidth + 1, 2 * mazeHeight + 1)| == mazeWidth * mazeHeight
  {
    CellsSize(mazeWidth, mazeHeight);
  }

  /** A step from an odd/odd position lands on an odd/odd position and
      crosses a connector whose two sides are exactly the start and the target. */
  lemma StepGeometry(width: int, height: int, p: Pos, d: Vec)
    requires IsCell(width, height, p) && IsStep(d)
    ensures Odd(Add(p, d).x) && Odd(Add(p, d).y)
    ensures Odd(Connector(p, d).x) != Odd(Connector(p, d).y)
    ensures Sides(Connector(p, d)) == (p, Add(p, d)) || Sides(Connector(p, d)) == (Add(p, d), p)
    ensures IsInBounds(width, height, Add(p, d)) ==>
              IsCell(width, height, Add(p, d)) && IsConnector(width, height, Connector(p, d))
    ensures Connector(p, d) != Add(p, d) && Connector(p, d) != p
  {
    if d == Vec(0, 2) {
      assert Connector(p, d) == Pos(p.x, p.y + 1);
    } else if d == Vec(2, 0) {
      assert Connector(p, d) == Pos(p.x + 1, p.y);
    } else if d == Vec(0, -2) {
      assert Connector(p, d) == Pos(p.x, p.y - 1);
    } else {
      assert d == Vec(-2, 0);
      assert Connector(p, d) == Pos(p.x - 1, p.y);
    }
  }
}
