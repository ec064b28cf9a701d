// Grid topology of the maze: cells, the four direction offsets, bounds and
// the direction between two adjacent cells (Assets/Scripts/Maze.cs).
module Grid {

  /** A cell is (row, column): the first coordinate grows downwards, the second to the right. */
  type Cell = (int, int)

  /** A half-edge (x, y, d): the passage leaving cell (x, y) in direction d. */
  type HalfEdge = (int, int, int)

  /** Direction codes: 0 left, 1 up, 2 right, 3 down. */
  const Left := 0
  const Up := 1
  const Right := 2
  const Down := 3

  /** Row and column offsets of the four directions, in direction order. */
  const PX: seq<int> := [0, -1, 0, 1]
  const PY: seq<int> := [-1, 0, 1, 0]

  predicate IsDir(d: int) { 0 <= d < 4 }

  /** The cell one step from c in direction d. */
  function Move(c: Cell, d: int): Cell
    requires IsDir(d)
  {
    (c.0 + PX[d], c.1 + PY[d])
  }

  /** The bounds test of an n-by-n maze. */
  predicate Inside(n: int, c: Cell) {
    0 <= c.0 < n && 0 <= c.1 < n
  }

  /** The direction from (x, y) to (u, v): the first of 1, 3, 0 whose test matches, and 2
      otherwise.  It never fails, and it does not check that the cells are adjacent. */
  function GetDir(x: int, y: int, u: int, v: int): (d: int)
    ensures IsDir(d)
  {
    if u - x == -1 then Up
    else if u - x == 1 then Down
    else if v - y == -1 then Left
    else Right
  }

  function DirTo(a: Cell, b: Cell): (d: int)
    ensures IsDir(d)
  {
    GetDir(a.0, a.1, b.0, b.1)
  }

  function Opposite(d: int): int { (d + 2) % 4 }

  /** a and b differ by one step along exactly one axis. */
  predicate Adjacent(a: Cell, b: Cell) {
    (a.0 == b.0 && (a.1 - b.1 == 1 || b.1 - a.1 == 1)) ||
    (a.1 == b.1 && (a.0 - b.0 == 1 || b.0 - a.0 == 1))
  }

  /** No cell occurs twice in s. */
  predicate NoDups(s: seq<Cell>) {
    forall i, j | 0 <= i < j < |s| :: s[i] != s[j]
  }

  /** A per-cell table S has an entry for exactly the cells of the n-by-n maze. */
  ghost predicate Covers(n: int, S: map<Cell, int>) {
    forall c :: c in S <==> Inside(n, c)
  }

  /** All cells of an n-by-n maze. */
  function Cells(n: int): set<Cell> {
    set x, y | 0 <= x < n && 0 <= y < n :: (x, y)
  }

  /** Row-major order: a is scanned before b. */
  predicate Before(a: Cell, b: Cell) {
    a.0 < b.0 || (a.0 == b.0 && a.1 < b.1)
  }

  /** Moving in direction d and asking for the direction back gives d and its opposite. */
  lemma GetDirOfMove(c: Cell, d: int)
    requires IsDir(d)
    ensures DirTo(c, Move(c, d)) == d
    ensures DirTo(Move(c, d), c) == Opposite(d)
    ensures Move(Move(c, d), Opposite(d)) == c
    ensures Adjacent(c, Move(c, d))
  {
  }

  /** For adjacent cells, GetDir names the direction that leads from one to the other. */
  lemma MoveOfGetDir(a: Cell, b: Cell)
    requires Adjacent(a, b)
    ensures Move(a, DirTo(a, b)) == b
    ensures DirTo(b, a) == Opposite(DirTo(a, b))
  {
  }

  /** Adjacency is irreflexive and symmetric. */
  lemma AdjacentSymmetric(a: Cell, b: Cell)
    ensures Adjacent(a, b) ==> a != b && Adjacent(b, a)
  {
  }

  /** The four neighbours of a cell are pairwise distinct. */
  lemma MoveInjective(c: Cell, d: int, e: int)
    requires IsDir(d) && IsDir(e) && d != e
    ensures Move(c, d) != Move(c, e)
  {
  }

  lemma InCells(n: int, c: Cell)
    ensures c in Cells(n) <==> Inside(n, c)
  {
    if Inside(n, c) {
      assert c == (c.0, c.1);
    }
  }

  /** One row of the grid, column indices below k. */
  function RowCells(x: int, k: nat): set<Cell> {
    set y | 0 <= y < k :: (x, y)
  }

  function Rect(rows: nat, cols: nat): set<Cell> {
    set x, y | 0 <= x < rows && 0 <= y < cols :: (x, y)
  }

  lemma {:induction false} RowCellsCard(x: int, k: nat)
    ensures |RowCells(x, k)| == k
  {
    if k > 0 {
      RowCellsCard(x, k - 1);
      assert RowCells(x, k) == RowCells(x, k - 1) + {(x, k - 1)};
    }
  }

  lemma RectSplit(rows: nat, cols: nat)
    requires rows > 0
    ensures Rect(rows, cols) == Rect(rows - 1, cols) + RowCells(rows - 1, cols)
    ensures Rect(rows - 1, cols) !! RowCells(rows - 1, cols)
  {
    forall c | c in Rect(rows, cols)
      ensures c in Rect(rows - 1, cols) + RowCells(rows - 1, cols)
    {
      if c.0 < rows - 1 {
        assert c in Rect(rows - 1, cols);
      } else {
        assert c in RowCells(rows - 1, cols);
      }
    }
  }

  lemma {:induction false} RectCard(rows: nat, cols: nat)
    ensures |Rect(rows, cols)| == rows * cols
  {
    if rows > 0 {
      RectCard(rows - 1, cols);
      RowCellsCard(rows - 1, cols);
      RectSplit(rows, cols);
      assert rows * cols == (rows - 1) * cols + cols;
    }
  }

  /** An n-by-n maze has n * n cells. */
  lemma CellsCard(n: nat)
    ensures |Cells(n)| == n * n
  {
    assert Cells(n) == Rect(n, n);
    RectCard(n, n);
  }

  /** A set of cells that holds, with every cell, all its in-bounds neighbours. */
  ghost predicate NeighbourClosed(n: int, s: set<Cell>) {
    forall c, d | c in s && IsDir(d) && Inside(n, Move(c, d)) :: Move(c, d) in s
  }

  lemma {:induction false} ClosedColumn(n: int, s: set<Cell>, x: int, y: int, y': int)
    requires NeighbourClosed(n, s) && (x, y) in s && Inside(n, (x, y)) && Inside(n, (x, y'))
    ensures (x, y') in s
    decreases if y < y' then y' - y else y - y'
  {
    if y < y' {
      assert Move((x, y), Right) == (x, y + 1);
      ClosedColumn(n, s, x, y + 1, y');
    } else if y > y' {
      assert Move((x, y), Left) == (x, y - 1);
      ClosedColumn(n, s, x, y - 1, y');
    }
  }

  lemma {:induction false} ClosedRow(n: int, s: set<Cell>, x: int, y: int, x': int)
    requires NeighbourClosed(n, s) && (x, y) in s && Inside(n, (x, y)) && Inside(n, (x', y))
    ensures (x', y) in s
    decreases if x < x' then x' - x else x - x'
  {
    if x < x' {
      assert Move((x, y), Down) == (x + 1, y);
      ClosedRow(n, s, x + 1, y, x');
    } else if x > x' {
      assert Move((x, y), Up) == (x - 1, y);
      ClosedRow(n, s, x - 1, y, x');
    }
  }

  /** The grid is connected: a neighbour-closed set with one in-bounds cell holds every cell. */
  lemma GridConnected(n: int, s: set<Cell>, c: Cell)
    requires NeighbourClosed(n, s) && c in s && Inside(n, c)
    ensures Cells(n) <= s
  {
    forall e | e in Cells(n)
      ensures e in s
    {
      InCells(n, e);
      ClosedRow(n, s, c.0, c.1, e.0);
      ClosedColumn(n, s, e.0, c.1, e.1);
    }
  }
}
