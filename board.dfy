// The 8x8 board of the game: players, cells, the grid value, single-cell
// writes and tile counting.
module Board {

  /** The two players; the human plays Red ("R"), the computer Blue ("B"). */
  datatype Player = Red | Blue

  /** A cell is empty ("E") or holds one player's tile. */
  datatype Cell = Empty | Tile(owner: Player)

  /** A board coordinate, written (x, y) as the source does: x is the column, y the row. */
  type Coord = (int, int)

  /** The opponent of `p`: Blue's opponent is Red, anybody else's is Blue. */
  function Other(p: Player): (q: Player)
    ensures q != p
  {
    if p == Blue then Red else Blue
  }

  predicate InBounds(x: int, y: int)
  {
    0 <= x < 8 && 0 <= y < 8
  }

  predicate IsGrid(b: seq<seq<Cell>>)
  {
    |b| == 8 && forall j :: 0 <= j < |b| ==> |b[j]| == 8
  }

  /** A board: 8 rows of 8 cells, indexed as b[y][x]. */
  type Grid = b: seq<seq<Cell>> | IsGrid(b) witness EmptyGrid()

  function EmptyGrid(): (b: seq<seq<Cell>>)
  {
    seq(8, _ => seq(8, _ => Empty))
  }

  /** The cell at column x, row y. */
  function At(b: Grid, x: int, y: int): Cell
    requires InBounds(x, y)
  {
    b[y][x]
  }

  /** The board after writing `c` at column x, row y (the source's `_set`). */
  function Set(b: Grid, x: int, y: int, c: Cell): (r: Grid)
    requires InBounds(x, y)
    ensures At(r, x, y) == c
    ensures forall i, j :: InBounds(i, j) && (i, j) != (x, y) ==> At(r, i, j) == At(b, i, j)
  {
    b[y := b[y][x := c]]
  }

  /** The starting layout: Red at (3,3) and (4,4), Blue at (3,4) and (4,3). */
  function InitialGrid(): Grid
  {
    var e: Grid := EmptyGrid();
    var b1 := Set(e, 3, 3, Tile(Red));
    var b2 := Set(b1, 3, 4, Tile(Blue));
    var b3 := Set(b2, 4, 3, Tile(Blue));
    Set(b3, 4, 4, Tile(Red))
  }

  // ---------------------------------------------------------------------------
  // Counting tiles

  /** How many cells of `row` equal `c`. */
  function RowCount(row: seq<Cell>, c: Cell): nat
  {
    if row == [] then 0
    else RowCount(row[..|row| - 1], c) + (if row[|row| - 1] == c then 1 else 0)
  }

  /** How many cells of the whole board equal `c`, summed row by row. */
  function Count(rows: seq<seq<Cell>>, c: Cell): nat
  {
    if rows == [] then 0
    else Count(rows[..|rows| - 1], c) + RowCount(rows[|rows| - 1], c)
  }

  function Indicator(b: bool): nat
  {
    if b then 1 else 0
  }

  lemma {:induction false} RowCountUpdate(row: seq<Cell>, i: nat, v: Cell, c: Cell)
    requires i < |row|
    ensures RowCount(row[i := v], c) == RowCount(row, c) - Indicator(row[i] == c) + Indicator(v == c)
  {
    var n := |row|;
    if i == n - 1 {
      assert row[i := v][..n - 1] == row[..n - 1];
    } else {
      assert row[i := v][..n - 1] == row[..n - 1][i := v];
      RowCountUpdate(row[..n - 1], i, v, c);
    }
  }

  lemma {:induction false} CountUpdate(rows: seq<seq<Cell>>, j: nat, newRow: seq<Cell>, c: Cell)
    requires j < |rows|
    ensures Count(rows[j := newRow], c) == Count(rows, c) - RowCount(rows[j], c) + RowCount(newRow, c)
  {
    var n := |rows|;
    if j == n - 1 {
      assert rows[j := newRow][..n - 1] == rows[..n - 1];
    } else {
      assert rows[j := newRow][..n - 1] == rows[..n - 1][j := newRow];
      CountUpdate(rows[..n - 1], j, newRow, c);
    }
  }

  /** Writing one cell moves exactly that cell from its old value's count to the new value's. */
  lemma SetCount(b: Grid, x: int, y: int, v: Cell, c: Cell)
    requires InBounds(x, y)
    ensures Count(Set(b, x, y, v), c) == Count(b, c) - Indicator(At(b, x, y) == c) + Indicator(v == c)
  {
    RowCountUpdate(b[y], x, v, c);
    CountUpdate(b, y, b[y][x := v], c);
  }

  lemma {:induction false} RowCountPartition(row: seq<Cell>)
    ensures RowCount(row, Empty) + RowCount(row, Tile(Red)) + RowCount(row, Tile(Blue)) == |row|
  {
    if row != [] {
      RowCountPartition(row[..|row| - 1]);
      assert row[|row| - 1] in {Empty, Tile(Red), Tile(Blue)} by {
        match row[|row| - 1]
        case Empty =>
        case Tile(p) => assert p == Red || p == Blue;
      }
    }
  }

  lemma {:induction false} CountPartitionRows(rows: seq<seq<Cell>>)
    requires forall j :: 0 <= j < |rows| ==> |rows[j]| == 8
    ensures Count(rows, Empty) + Count(rows, Tile(Red)) + Count(rows, Tile(Blue)) == 8 * |rows|
  {
    if rows != [] {
      CountPartitionRows(rows[..|rows| - 1]);
      RowCountPartition(rows[|rows| - 1]);
    }
  }

  /** Every one of the 64 cells is empty, red or blue. */
  lemma CountPartition(b: Grid)
    ensures Count(b, Empty) + Count(b, Tile(Red)) + Count(b, Tile(Blue)) == 64
  {
    CountPartitionRows(b);
  }

  lemma {:induction false} RowCountUniform(row: seq<Cell>, v: Cell, c: Cell)
    requires forall i :: 0 <= i < |row| ==> row[i] == v
    ensures RowCount(row, c) == if v == c then |row| else 0
  {
    if row != [] {
      RowCountUniform(row[..|row| - 1], v, c);
    }
  }

  lemma {:induction false} CountUniform(rows: seq<seq<Cell>>, v: Cell, c: Cell)
    requires forall j, i :: 0 <= j < |rows| && 0 <= i < |rows[j]| ==> rows[j][i] == v
    requires forall j :: 0 <= j < |rows| ==> |rows[j]| == 8
    ensures Count(rows, c) == if v == c then 8 * |rows| else 0
  {
    if rows != [] {
      CountUniform(rows[..|rows| - 1], v, c);
      RowCountUniform(rows[|rows| - 1], v, c);
    }
  }

  /**
   * The initial board holds exactly the four centre tiles (Red on the
   * diagonal (3,3), (4,4); Blue on (3,4), (4,3)) and 60 empty cells.
   */
  lemma InitialGridLayout()
    ensures At(InitialGrid(), 3, 3) == Tile(Red) && At(InitialGrid(), 4, 4) == Tile(Red)
    ensures At(InitialGrid(), 3, 4) == Tile(Blue) && At(InitialGrid(), 4, 3) == Tile(Blue)
    ensures forall x, y :: InBounds(x, y) && (x, y) !in {(3, 3), (3, 4), (4, 3), (4, 4)} ==>
              At(InitialGrid(), x, y) == Empty
    ensures Count(InitialGrid(), Empty) == 60
    ensures Count(InitialGrid(), Tile(Red)) == 2 && Count(InitialGrid(), Tile(Blue)) == 2
  {
    var e: Grid := EmptyGrid();
    var b1 := Set(e, 3, 3, Tile(Red));
    var b2 := Set(b1, 3, 4, Tile(Blue));
    var b3 := Set(b2, 4, 3, Tile(Blue));
    var b4 := Set(b3, 4, 4, Tile(Red));
    forall c: Cell ensures Count(e, c) == if c == Empty then 64 else 0 {
      CountUniform(e, Empty, c);
    }
    forall c: Cell
      ensures Count(b4, c) == Count(e, c) - 4 * Indicator(c == Empty) + 2 * Indicator(c == Tile(Red)) + 2 * Indicator(c == Tile(Blue))
    {
      SetCount(e, 3, 3, Tile(Red), c);
      SetCount(b1, 3, 4, Tile(Blue), c);
      SetCount(b2, 4, 3, Tile(Blue), c);
      SetCount(b3, 4, 4, Tile(Red), c);
    }
  }
}
