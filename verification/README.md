# Pathfinding visualizer, modelled in Dafny

The page shows a `rows x cols` grid of cell elements. The first click marks a
start cell and the next click on another cell marks an end cell. After that,
clicks toggle obstacles. The start button runs Dijkstra's algorithm with unit
edge weights over the 4-connected grid, avoiding obstacles. It then walks the
predecessor links back from the end cell and gives every cell on the way,
other than the start and end cells, the `path` class. The clear button drops both endpoints and every class.

The model has five modules:

- `Wrappers` defines `Option`.
- `Grid` holds the geometry:
  - a cell is a `(row, col)` pair;
  - each cell carries four independent class flags;
  - `Neighbors` is the in-bounds orthogonal neighbours of a cell, in the order up, down, left, right;
  - walks are the obstacle-avoiding routes a search may take.
- `GridState` is the page state as a value:
  - the start and end references, plus the set of cells carrying each class;
  - the click policy, the clear button and the highlighting of a found route, as functions;
  - the invariant they keep, with lemmas over any sequence of user actions.
- `Search` is the search loop of the start handler:
  - a `while` loop over a distance map, a predecessor map, a visited set and a queue;
  - proved to return a shortest obstacle-avoiding distance, or to report that the end is unreachable.
- `Visualizer` holds the class `GridPage`, which owns what the script keeps in globals:
  - fields: the `cells` array of class flags and the `startCell`/`endCell` references;
  - methods: the grid-building loop, the click handler, the clear handler, the start handler and the path reconstruction loop;
  - each method is proved to move its ghost `state` exactly as the matching `GridState` function says.

An infinite distance is a cell missing from the distance map. A null predecessor is a cell missing from the predecessor map.

## Model

| member | source | states |
|---|---|---|
| Grid.Neighbors | script.js:110-124 | at most four neighbours; each is inside the grid and one orthogonal step away; every in-bounds orthogonal neighbour is listed |
| Grid.NeighborsInOrder | script.js:112-122 | the neighbours come in the order up, down, left, right, with no repeats |
| GridState.Initial | script.js:8-24 | the freshly built grid has no start, no end and no class on any cell, and satisfies the invariant |
| GridState.Click | script.js:27-37 | first match wins: set the start if there is none; else set the end if there is none and the cell is not the start; else toggle the obstacle unless the cell is an endpoint. The invariant is kept, a click on an endpoint changes nothing, and obstacles change only while both endpoints are set |
| GridState.ClicksPlaceEndpoints | script.js:28-33 | the first click sets the start, a click on a different cell sets the end, and clicking the start again before an end exists changes nothing |
| GridState.ClickTogglesObstacle | script.js:34-36 | with both endpoints set, a click on another cell flips only that cell's obstacle flag, and two clicks on it restore the state |
| GridState.ClearAll | script.js:127-135 | both references become none and no cell keeps any of the four classes |
| GridState.ClearIdempotent | script.js:127-135 | clearing twice equals clearing once |
| GridState.MarkRoute | script.js:98-107 | the path class is added exactly to the route cells other than start and end; references and the other classes are unchanged, and no flag is removed |
| GridState.MarkRouteConsistent | script.js:102-103 | highlighting an in-grid route with both endpoints set keeps the invariant: the endpoints never carry the path class |
| GridState.RunConsistent | script.js:28-36 | after any sequence of clicks, clears and successful searches, the invariant holds: start and end differ, are never obstacles, and obstacles and path cells exist only while both endpoints are set |
| Search.TraceBack | script.js:98-106 | following the predecessors from a discovered cell reaches the start cell along an obstacle-avoiding walk of exactly `dist[c]` steps |
| Search.FrontierCrossing | script.js:67-94 | a walk from the start either stays among visited cells, or meets a discovered, unvisited cell whose distance is no larger than its position on the walk |
| Search.PoppedIsSettled | script.js:69-71 | the queued cell of least distance has a distance no larger than any walk to it |
| Search.Unreachable | script.js:67-94 | once the queue is empty without the end having been removed, no obstacle-avoiding walk from start to end exists |
| Search.ChainsExtend | script.js:88-89 | recording `dist[n] = dist[current] + 1` and `previous[n] = current` for an open neighbour keeps every predecessor link one step and one hop back |
| Search.ProgressStep | script.js:84-91 | one distance update keeps the chains and the visited predecessors; distances only decrease, and each change lowers an unvisited neighbour to one hop beyond current and queues it |
| Search.ProgressDone | script.js:81-93 | after the whole neighbour loop, every open, unvisited neighbour of current is at most one hop beyond it |
| Search.SelectMin | script.js:68-71 | the returned position holds a queued cell of least distance, and it is the first such position (the entry a stable sort followed by a shift removes) |
| Search.RelaxNeighbour | script.js:83-92 | the loop body: when the neighbour is unvisited, not an obstacle and `dist[current] + 1` beats its recorded distance, the new maps and queue are exactly `dist[n := dist[current] + 1]`, `prev[n := current]` and `queue + [n]`; otherwise all three are unchanged |
| Search.Relax | script.js:81-93 | the neighbour loop keeps the chains and the visited predecessors and only lowers distances. Every cell it queues had its distance lowered. A lowered cell has current as predecessor, and a cell whose distance is kept keeps its predecessor. Afterwards every open unvisited neighbour is relaxed, and nothing is queued when no neighbour improves |
| Search.PassStep | script.js:87-91 | one update of the pass keeps both facts: lowered cells point back to current, kept cells keep their predecessor, and queued cells were lowered |
| Search.RemoveAt | script.js:71 | exactly one occurrence of the entry at position k is removed: the result is one shorter and, as a multiset, is the queue minus that one entry |
| Search.FrontierKept | script.js:71-93 | every discovered, unvisited cell stays queued across an iteration |
| Search.OrderedKept | script.js:69-93 | visited cells stay no farther than queued ones across an iteration |
| Search.RelaxedKept | script.js:79-93 | every open, unvisited neighbour of a visited cell stays discovered and at most one hop beyond it |
| Search.SettledKept | script.js:81-93 | relaxing changes no visited distance, so visited distances stay minimal |
| Search.ShortestPath | script.js:51-95 | the search terminates. On reaching the end, its distance is no larger than any obstacle-avoiding walk. Otherwise no such walk exists. The predecessor links are always consistent chains back to the start |
| Visualizer.GridPage.constructor | script.js:13-24 | builds a `rows x cols` array with no class on any cell and no references: the state is `Initial` |
| Visualizer.GridPage.HandleCellClick | script.js:27-37 | the cell flags and references move exactly as `Click` says |
| Visualizer.GridPage.Clear | script.js:127-135 | the references and every cell's four classes are reset, exactly as `ClearAll` says |
| Visualizer.GridPage.ReconstructPath | script.js:98-107 | the loop walks the predecessor chain from the end to the start; the cells met are the `TraceBack` route, and the flags change exactly as `MarkRoute` of that route says |
| Visualizer.GridPage.MarkCell | script.js:102-104 | a cell other than start and end gets the path class; nothing else changes |
| Visualizer.GridPage.Dijkstra | script.js:40-95 | with an endpoint missing it reports `MissingEndpoints` and changes nothing. With no path it reports `NoPath`, changes nothing, and the end is unreachable. Otherwise the highlighted route is an obstacle-avoiding walk from start to end, no longer than any other, and only its interior cells gain the path class |

## Left out

- DOM construction, `dataset` parsing and event-listener wiring (script.js:1-3, 16-20, 46-49, 138) are not modelled. Cells are `(row, col)` pairs, and each handler is a method of `GridPage`.
- The `alert` on a missing endpoint (script.js:42) is a UI side effect. It becomes the `MissingEndpoints` outcome.
- The grid size is a constructor parameter rather than the constant 20 x 20 (script.js:6-7). All properties hold for every size.
- The floating-point `Infinity` sentinel (script.js:59) is not modelled. An undiscovered cell is simply absent from the distance map. The loop that fills every entry with `Infinity` and `null` (script.js:57-62) is therefore not a loop in the model.
- The string keys `"row,col"` and `split(',')` (script.js:59, 83, 99-105) are not modelled. They only encode coordinate pairs, and the model uses the pairs directly.
- Search.SelectMin: does not model the JS `sort` comparator as a re-ordering of the whole queue (script.js:69). It removes the first entry of least distance and leaves the rest in place, which is what a stable sort followed by `shift` removes. Every proved property depends only on the minimality of the removed entry, so it holds for any tie order.
- Visualizer.GridPage.Dijkstra: does not say which of several equally short routes is highlighted. That choice depends on the queue order among equal distances.
- Stale `path` classes from an earlier search are kept until the clear button is pressed, as the code does. No separate path-only clear exists in the code, and a search does not start from a clean path layer.
- When the start cell is also the end cell, the code does no special handling. This cannot happen, because a click on the start never makes it the end (script.js:31), so the model adds no such case either.
- The obstacle classes are read from the `cells` array during the search. The proofs state the result against a ghost snapshot of those flags, kept equal to the array by `Mirrors`.
