/**
 * The grid's state as a value: the start and end references and, for each
 * of the four classes, the cells that carry it. Clicks, the clear button and
 * the marking of a found path are functions on this value; the page object
 * in module Visualizer is proved to follow them.
 */
module GridState {
  import opened Wrappers
  import opened Grid

  datatype State = State(rows: nat, cols: nat, startCell: Option<Cell>, endCell: Option<Cell>,
                         starts: set<Cell>, ends: set<Cell>, obstacles: set<Cell>, paths: set<Cell>)

  /** The classes the element of cell c carries in state s. */
  function ClassesAt(s: State, c: Cell): Classes
  {
    Classes(c in s.starts, c in s.ends, c in s.obstacles, c in s.paths)
  }

  /** What the search sees of s. */
  function SnapshotOf(s: State): Snapshot
  {
    Snapshot(s.rows, s.cols, s.obstacles)
  }

  /**
   * The invariant the click policy keeps: classes sit on grid cells; the
   * start and end classes mark exactly the referenced cells; an end exists
   * only after a start and differs from it; obstacles and path cells exist
   * only while both references are set; and neither endpoint is an obstacle
   * or a path cell.
   */
  ghost predicate Consistent(s: State)
  {
    (forall c :: c in s.starts + s.ends + s.obstacles + s.paths ==> InBounds(s.rows, s.cols, c)) &&
    s.starts == Marked(s.startCell) && s.ends == Marked(s.endCell) &&
    (s.endCell.Some? ==> s.startCell.Some? && s.endCell != s.startCell) &&
    (s.endCell.None? ==> s.obstacles == {} && s.paths == {}) &&
    s.starts !! s.obstacles && s.ends !! s.obstacles &&
    s.starts !! s.paths && s.ends !! s.paths
  }

  /** The grid as the page builds it: no references, no classes. */
  function Initial(rows: nat, cols: nat): (s: State)
    ensures Consistent(s)
    ensures s.rows == rows && s.cols == cols && s.startCell.None? && s.endCell.None?
    ensures forall c :: ClassesAt(s, c) == NoClasses
  {
    State(rows, cols, None, None, {}, {}, {}, {})
  }

  /**
   * A click on cell c, first match wins: with no start, c becomes the start;
   * else with no end and c not the start, c becomes the end; else, unless c
   * is the start or the end, c's obstacle class is toggled.
   */
  function Click(s: State, c: Cell): (r: State)
    requires InBounds(s.rows, s.cols, c)
    ensures Consistent(s) ==> Consistent(r)
    ensures r.rows == s.rows && r.cols == s.cols && r.paths == s.paths && r.startCell.Some?
    ensures Consistent(s) && (s.startCell == Some(c) || s.endCell == Some(c)) ==> r == s
    ensures r.obstacles != s.obstacles ==> s.startCell.Some? && s.endCell.Some?
  {
    if s.startCell.None? then
      s.(startCell := Some(c), starts := s.starts + {c})
    else if s.endCell.None? && Some(c) != s.startCell then
      s.(endCell := Some(c), ends := s.ends + {c})
    else if Some(c) != s.startCell && Some(c) != s.endCell then
      s.(obstacles := if c in s.obstacles then s.obstacles - {c} else s.obstacles + {c})
    else
      s
  }

  /** The clear button: both references dropped, every class removed from every cell. */
  function ClearAll(s: State): (r: State)
    ensures Consistent(r)
    ensures r.rows == s.rows && r.cols == s.cols && r.startCell.None? && r.endCell.None?
    ensures forall c :: ClassesAt(r, c) == NoClasses
  {
    s.(startCell := None, endCell := None, starts := {}, ends := {}, obstacles := {}, paths := {})
  }

  /** A found route highlighted: every route cell other than start and end gains the path class. */
  function MarkRoute(s: State, route: seq<Cell>): (r: State)
    ensures r.rows == s.rows && r.cols == s.cols && r.startCell == s.startCell && r.endCell == s.endCell
    ensures r.starts == s.starts && r.ends == s.ends && r.obstacles == s.obstacles
    ensures forall c :: c in r.paths <==> c in s.paths || (c in route && Some(c) != s.startCell && Some(c) != s.endCell)
  {
    s.(paths := s.paths + set c | c in route && Some(c) != s.startCell && Some(c) != s.endCell)
  }

  /** Highlighting an in-bounds route while both endpoints are set keeps the invariant. */
  lemma MarkRouteConsistent(s: State, route: seq<Cell>)
    requires Consistent(s) && s.startCell.Some? && s.endCell.Some?
    requires forall i :: 0 <= i < |route| ==> InBounds(s.rows, s.cols, route[i])
    ensures Consistent(MarkRoute(s, route))
  {
    var r := MarkRoute(s, route);
    forall c | c in r.paths ensures InBounds(r.rows, r.cols, c) {
      if c !in s.paths {
        var i :| 0 <= i < |route| && route[i] == c;
      }
    }
  }

  /** Highlighting a route in two pieces is highlighting the whole route. */
  lemma MarkRouteTwice(s: State, front: seq<Cell>, back: seq<Cell>)
    ensures MarkRoute(MarkRoute(s, back), front) == MarkRoute(s, front + back)
  {
    var r, t := MarkRoute(MarkRoute(s, back), front), MarkRoute(s, front + back);
    forall c ensures c in r.paths <==> c in t.paths {
      assert c in front + back <==> c in front || c in back;
    }
  }

  /** The first click places the start; a click on another cell while no end exists places the end. */
  lemma ClicksPlaceEndpoints(s: State, a: Cell, b: Cell)
    requires Consistent(s) && s.startCell.None?
    requires InBounds(s.rows, s.cols, a) && InBounds(s.rows, s.cols, b) && a != b
    ensures Click(s, a).startCell == Some(a) && Click(s, a).endCell.None?
    ensures Click(Click(s, a), b).startCell == Some(a) && Click(Click(s, a), b).endCell == Some(b)
    ensures Click(Click(s, a), a) == Click(s, a)
  {
  }

  /**
   * With both endpoints set, a click on any other cell changes only that
   * cell's obstacle class, and a second click on it restores the state.
   */
  lemma ClickTogglesObstacle(s: State, c: Cell)
    requires Consistent(s) && s.startCell.Some? && s.endCell.Some?
    requires InBounds(s.rows, s.cols, c) && Some(c) != s.startCell && Some(c) != s.endCell
    ensures Click(s, c) == s.(obstacles := if c in s.obstacles then s.obstacles - {c} else s.obstacles + {c})
    ensures forall x :: x != c ==> ClassesAt(Click(s, c), x) == ClassesAt(s, x)
    ensures ClassesAt(Click(s, c), c).obstacle == !ClassesAt(s, c).obstacle
    ensures Click(Click(s, c), c) == s
  {
    var r := Click(s, c);
    if c in s.obstacles {
      assert r.obstacles + {c} == s.obstacles;
    } else {
      assert r.obstacles - {c} == s.obstacles;
    }
  }

  /** Clearing twice is the same as clearing once. */
  lemma ClearIdempotent(s: State)
    ensures ClearAll(ClearAll(s)) == ClearAll(s)
  {
  }

  /** The user's actions on the page: a click on a cell, the clear button, a search that found route. */
  datatype Event = ClickOn(cell: Cell) | ClearButton | SearchFound(route: seq<Cell>)

  /** Every cell an action names lies inside a rows x cols grid. */
  predicate InGrid(rows: nat, cols: nat, e: Event)
  {
    match e
    case ClickOn(c) => InBounds(rows, cols, c)
    case ClearButton => true
    case SearchFound(route) => forall i :: 0 <= i < |route| ==> InBounds(rows, cols, route[i])
  }

  /** An action applied to a state; a search without both endpoints changes nothing. */
  function Apply(s: State, e: Event): State
    requires InGrid(s.rows, s.cols, e)
  {
    match e
    case ClickOn(c) => Click(s, c)
    case ClearButton => ClearAll(s)
    case SearchFound(route) => if s.startCell.Some? && s.endCell.Some? then MarkRoute(s, route) else s
  }

  /** The state after a sequence of actions, in order. */
  function Run(s: State, events: seq<Event>): (r: State)
    requires forall i :: 0 <= i < |events| ==> InGrid(s.rows, s.cols, events[i])
    ensures r.rows == s.rows && r.cols == s.cols
    decreases |events|
  {
    if events == [] then s
    else Run(Apply(s, events[0]), events[1..])
  }

  /**
   * Across any sequence of clicks, clears and searches the invariant holds:
   * in particular the start and end cells never carry the obstacle class.
   */
  lemma {:induction false} RunConsistent(s: State, events: seq<Event>)
    requires Consistent(s)
    requires forall i :: 0 <= i < |events| ==> InGrid(s.rows, s.cols, events[i])
    ensures Consistent(Run(s, events))
    ensures Run(s, events).startCell.Some? ==> Run(s, events).startCell.value !in Run(s, events).obstacles
    ensures Run(s, events).endCell.Some? ==> Run(s, events).endCell.value !in Run(s, events).obstacles
    decreases |events|
  {
    if events != [] {
      var next := Apply(s, events[0]);
      if events[0].SearchFound? && s.startCell.Some? && s.endCell.Some? {
        MarkRouteConsistent(s, events[0].route);
      }
      assert forall i :: 0 <= i < |events[1..]| ==> InGrid(next.rows, next.cols, events[1..][i]);
      RunConsistent(next, events[1..]);
    }
  }
}
