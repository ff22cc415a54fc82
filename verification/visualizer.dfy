/**
 * The page script's global state and its handlers: the rows x cols array of
 * cell elements with their classes, the start and end references, the cell
 * click handler, the clear button handler and the start button handler
 * (Dijkstra's search followed by the highlighting of the path it found).
 */
module Visualizer {
  import opened Wrappers
  import opened Grid
  import opened GridState
  import opened Search

  /** What the start button achieves: no search, no path, or the highlighted route from start to end. */
  datatype Outcome = MissingEndpoints | NoPath | Found(route: seq<Cell>)

  class GridPage {
    const rows: nat
    const cols: nat
    /** The classes of the cell element at each (row, col). */
    const cells: array2<Classes>
    var startCell: Option<Cell>
    var endCell: Option<Cell>
    /** The abstract state the page is in. */
    ghost var state: State

    ghost predicate Valid()
      reads this, cells
    {
      cells.Length0 == rows && cells.Length1 == cols &&
      state.rows == rows && state.cols == cols &&
      state.startCell == startCell && state.endCell == endCell &&
      Consistent(state) &&
      forall r, c :: 0 <= r < rows && 0 <= c < cols ==> cells[r, c] == ClassesAt(state, (r, c))
    }

    /** Builds the grid row by row; every cell starts without classes and no cell is referenced. */
    constructor (rows: nat, cols: nat)
      ensures Valid() && fresh(cells)
      ensures state == Initial(rows, cols)
    {
      var a := new Classes[rows, cols];
      for i := 0 to rows
        invariant forall r, c :: 0 <= r < i && 0 <= c < cols ==> a[r, c] == NoClasses
      {
        for j := 0 to cols
          invariant forall r, c :: 0 <= r < i && 0 <= c < cols ==> a[r, c] == NoClasses
          invariant forall c :: 0 <= c < j ==> a[i, c] == NoClasses
        {
          a[i, j] := NoClasses;
        }
      }
      this.rows, this.cols, cells := rows, cols, a;
      startCell, endCell := None, None;
      state := Initial(rows, cols);
    }

    /** A click on a cell element of the grid, following the first-match click policy. */
    method HandleCellClick(cell: Cell)
      requires Valid() && InBounds(rows, cols, cell)
      modifies this, cells
      ensures Valid()
      ensures state == Click(old(state), cell)
    {
      var (r, c) := cell;
      if startCell.None? {
        startCell := Some(cell);
        cells[r, c] := cells[r, c].(start := true);
      } else if endCell.None? && Some(cell) != startCell {
        endCell := Some(cell);
        cells[r, c] := cells[r, c].(end := true);
      } else if Some(cell) != startCell && Some(cell) != endCell {
        cells[r, c] := cells[r, c].(obstacle := !cells[r, c].obstacle);
      }
      state := Click(state, cell);
    }

    /** The clear button: drops both references and removes all four classes from every cell. */
    method Clear()
      requires Valid()
      modifies this, cells
      ensures Valid()
      ensures state == ClearAll(old(state))
    {
      startCell, endCell := None, None;
      for i := 0 to rows
        modifies cells
        invariant forall r, c :: 0 <= r < i && 0 <= c < cols ==> cells[r, c] == NoClasses
      {
        for j := 0 to cols
          modifies cells
          invariant forall r, c :: 0 <= r < i && 0 <= c < cols ==> cells[r, c] == NoClasses
          invariant forall c :: 0 <= c < j ==> cells[i, c] == NoClasses
        {
          cells[i, j] := cells[i, j].(start := false, end := false, obstacle := false, path := false);
        }
      }
      state := ClearAll(state);
    }

    /**
     * Walks the predecessor links from the end cell back to the start cell,
     * giving every cell met other than the two endpoints the path class.
     * route lists the cells met, from start to end.
     */
    method ReconstructPath(ghost g: Snapshot, dist: Distances, prev: Previous) returns (route: seq<Cell>)
      requires Valid() && startCell.Some? && endCell.Some? && g == SnapshotOf(state)
      requires Chains(g, startCell.value, dist, prev) && endCell.value in dist
      modifies this, cells
      ensures Valid() && startCell == old(startCell) && endCell == old(endCell)
      ensures route == TraceBack(g, startCell.value, dist, prev, endCell.value)
      ensures state == MarkRoute(old(state), route)
    {
      ghost var source, target := startCell.value, endCell.value;
      var current := endCell;
      route := [];
      while current.Some?
        invariant Valid() && startCell == Some(source) && endCell == Some(target)
        invariant current.Some? ==> current.value in dist &&
                                    TraceBack(g, source, dist, prev, target) == TraceBack(g, source, dist, prev, current.value) + route
        invariant current.None? ==> TraceBack(g, source, dist, prev, target) == route
        invariant state == MarkRoute(old(state), route)
        decreases if current.Some? then dist[current.value] + 1 else 0
      {
        var cell := current.value;
        MarkCell(cell);
        MarkRouteTwice(old(state), [cell], route);
        TraceBackPrepend(g, source, dist, prev, cell, route);
        route := [cell] + route;
        current := if cell in prev then Some(prev[cell]) else None;
      }
    }

    /** Gives cell the path class unless it is the start or the end cell. */
    method MarkCell(cell: Cell)
      requires Valid() && InBounds(rows, cols, cell) && startCell.Some? && endCell.Some?
      modifies this, cells
      ensures Valid() && startCell == old(startCell) && endCell == old(endCell)
      ensures state == MarkRoute(old(state), [cell])
    {
      if Some(cell) != startCell && Some(cell) != endCell {
        cells[cell.0, cell.1] := cells[cell.0, cell.1].(path := true);
      }
      MarkRouteConsistent(state, [cell]);
      state := MarkRoute(state, [cell]);
    }

    /**
     * The start button: with both endpoints set, search for a shortest
     * obstacle-avoiding route from start to end and highlight it.
     */
    method Dijkstra() returns (outcome: Outcome)
      requires Valid()
      modifies this, cells
      ensures Valid() && startCell == old(startCell) && endCell == old(endCell)
      ensures outcome.MissingEndpoints? <==> old(startCell).None? || old(endCell).None?
      ensures !outcome.Found? ==> state == old(state)
      ensures outcome.NoPath? ==> !Reachable(SnapshotOf(state), startCell.value, endCell.value)
      ensures outcome.Found? ==>
        WalkBetween(SnapshotOf(state), outcome.route, startCell.value, endCell.value) &&
        (forall p :: WalkBetween(SnapshotOf(state), p, startCell.value, endCell.value) ==> |outcome.route| <= |p|) &&
        state == MarkRoute(old(state), outcome.route)
    {
      if startCell.None? || endCell.None? {
        return MissingEndpoints;
      }
      var source, target := startCell.value, endCell.value;
      ghost var g := SnapshotOf(state);
      var reached, dist, prev := ShortestPath(cells, g, source, target);
      if !reached {
        return NoPath;
      }
      var route := ReconstructPath(g, dist, prev);
      return Found(route);
    }
  }
}
