/**
 * Geometry of the rows x cols grid: cells as (row, col) pairs, the classes a
 * cell element carries, the in-bounds orthogonal neighbours of a cell, and
 * walks that avoid obstacles.
 */
module Grid {

  /** A cell is identified by its (row, col) coordinates. */
  type Cell = (int, int)

  /** The CSS classes of one cell element: each flag is independent of the others. */
  datatype Classes = Classes(start: bool, end: bool, obstacle: bool, path: bool)

  const NoClasses := Classes(false, false, false, false)

  /** Row and column offsets of the four moves, in the order up, down, left, right. */
  const Directions: seq<Cell> := [(-1, 0), (1, 0), (0, -1), (0, 1)]

  predicate InBounds(rows: int, cols: int, c: Cell)
  {
    0 <= c.0 < rows && 0 <= c.1 < cols
  }

  /** Every cell of a rows x cols grid. */
  function AllCells(rows: nat, cols: nat): set<Cell>
  {
    set r, c | 0 <= r < rows && 0 <= c < cols :: (r, c)
  }

  /** Solver hint: an in-bounds cell is one of the cells of the grid. */
  lemma InAllCells(rows: nat, cols: nat, c: Cell)
    requires InBounds(rows, cols, c)
    ensures c in AllCells(rows, cols)
  {
    assert c == (c.0, c.1);
  }

  /** a and b are one orthogonal step apart. */
  predicate Adjacent(a: Cell, b: Cell)
  {
    (a.0 == b.0 && (a.1 == b.1 + 1 || a.1 + 1 == b.1)) ||
    (a.1 == b.1 && (a.0 == b.0 + 1 || a.0 + 1 == b.0))
  }

  function Step(c: Cell, d: Cell): Cell
  {
    (c.0 + d.0, c.1 + d.1)
  }

  /** Which of the four moves leads from c to an adjacent cell n: 0 up, 1 down, 2 left, 3 right. */
  function DirectionIndex(c: Cell, n: Cell): int
  {
    if n == Step(c, Directions[0]) then 0
    else if n == Step(c, Directions[1]) then 1
    else if n == Step(c, Directions[2]) then 2
    else 3
  }

  /** The move to n when n lies inside the grid, nothing otherwise. */
  function KeepInBounds(rows: int, cols: int, n: Cell): seq<Cell>
  {
    if InBounds(rows, cols, n) then [n] else []
  }

  /**
   * The in-bounds orthogonal neighbours of c, in the order up, down, left,
   * right: the moves of Directions that stay on the grid.
   */
  function Neighbors(rows: int, cols: int, c: Cell): (ns: seq<Cell>)
    ensures |ns| <= 4
    ensures forall i :: 0 <= i < |ns| ==> InBounds(rows, cols, ns[i]) && Adjacent(c, ns[i])
    ensures forall n :: InBounds(rows, cols, n) && Adjacent(c, n) ==> n in ns
  {
    KeepInBounds(rows, cols, Step(c, Directions[0])) + KeepInBounds(rows, cols, Step(c, Directions[1])) +
    KeepInBounds(rows, cols, Step(c, Directions[2])) + KeepInBounds(rows, cols, Step(c, Directions[3]))
  }

  /** The cells of s follow each other in strictly increasing direction from c. */
  predicate InDirectionOrder(c: Cell, s: seq<Cell>)
  {
    forall i, j :: 0 <= i < j < |s| ==> DirectionIndex(c, s[i]) < DirectionIndex(c, s[j])
  }

  /** Every cell of s lies in a direction from c in [lo, hi). */
  predicate DirectionsWithin(c: Cell, s: seq<Cell>, lo: int, hi: int)
  {
    forall i :: 0 <= i < |s| ==> lo <= DirectionIndex(c, s[i]) < hi
  }

  lemma InDirectionOrderConcat(c: Cell, a: seq<Cell>, b: seq<Cell>, lo: int, mid: int, hi: int)
    requires InDirectionOrder(c, a) && InDirectionOrder(c, b)
    requires lo <= mid <= hi && DirectionsWithin(c, a, lo, mid) && DirectionsWithin(c, b, mid, hi)
    ensures InDirectionOrder(c, a + b) && DirectionsWithin(c, a + b, lo, hi)
  {
    forall i, j | 0 <= i < j < |a + b| ensures DirectionIndex(c, (a + b)[i]) < DirectionIndex(c, (a + b)[j]) {
      if j < |a| {
        assert (a + b)[i] == a[i] && (a + b)[j] == a[j];
      } else if i >= |a| {
        assert (a + b)[i] == b[i - |a|] && (a + b)[j] == b[j - |a|];
      } else {
        assert (a + b)[i] == a[i] && (a + b)[j] == b[j - |a|];
      }
    }
    forall i | 0 <= i < |a + b| ensures lo <= DirectionIndex(c, (a + b)[i]) < hi {
      if i < |a| {
        assert (a + b)[i] == a[i];
      } else {
        assert (a + b)[i] == b[i - |a|];
      }
    }
  }

  /** The neighbours come in the order up, down, left, right, each at most once. */
  lemma NeighborsInOrder(rows: int, cols: int, c: Cell)
    ensures InDirectionOrder(c, Neighbors(rows, cols, c))
  {
    var k0, k1 := KeepInBounds(rows, cols, Step(c, Directions[0])), KeepInBounds(rows, cols, Step(c, Directions[1]));
    var k2, k3 := KeepInBounds(rows, cols, Step(c, Directions[2])), KeepInBounds(rows, cols, Step(c, Directions[3]));
    assert DirectionsWithin(c, k0, 0, 1) && DirectionsWithin(c, k1, 1, 2);
    assert DirectionsWithin(c, k2, 2, 3) && DirectionsWithin(c, k3, 3, 4);
    InDirectionOrderConcat(c, k0, k1, 0, 1, 2);
    InDirectionOrderConcat(c, k0 + k1, k2, 0, 2, 3);
    InDirectionOrderConcat(c, k0 + k1 + k2, k3, 0, 3, 4);
  }

  /**
   * What the search sees of the grid: its dimensions and which cells carry
   * the obstacle class.
   */
  datatype Snapshot = Snapshot(rows: nat, cols: nat, obstacles: set<Cell>)

  /** A cell the search may enter: inside the grid and not an obstacle. */
  predicate Open(g: Snapshot, c: Cell)
  {
    InBounds(g.rows, g.cols, c) && c !in g.obstacles
  }

  /** p is a walk of orthogonal steps through open cells; it takes |p| - 1 hops. */
  predicate IsWalk(g: Snapshot, p: seq<Cell>)
  {
    |p| > 0 &&
    (forall i :: 0 <= i < |p| ==> Open(g, p[i])) &&
    (forall i :: 0 < i < |p| ==> Adjacent(p[i - 1], p[i]))
  }

  predicate WalkBetween(g: Snapshot, p: seq<Cell>, a: Cell, b: Cell)
  {
    IsWalk(g, p) && p[0] == a && p[|p| - 1] == b
  }

  ghost predicate Reachable(g: Snapshot, a: Cell, b: Cell)
  {
    exists p :: WalkBetween(g, p, a, b)
  }

  /** The obstacle classes of the cell elements are exactly the obstacles of g. */
  ghost predicate Mirrors(cells: array2<Classes>, g: Snapshot)
    reads cells
  {
    g.rows == cells.Length0 && g.cols == cells.Length1 &&
    forall r, c :: 0 <= r < g.rows && 0 <= c < g.cols ==> (cells[r, c].obstacle <==> (r, c) in g.obstacles)
  }
}
