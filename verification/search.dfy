/**
 * Dijkstra's algorithm with unit edge weights on the 4-connected grid,
 * avoiding obstacles. A distance map without a key stands for an infinite
 * distance, a predecessor map without a key for a null predecessor.
 */
module Search {
  import opened Grid

  type Distances = map<Cell, nat>
  type Previous = map<Cell, Cell>

  /**
   * The predecessor links form chains back to source: every discovered cell
   * other than source has a predecessor, one step away and one hop nearer.
   */
  ghost predicate Chains(g: Snapshot, source: Cell, dist: Distances, prev: Previous)
  {
    source in dist && dist[source] == 0 && prev.Keys == dist.Keys - {source} &&
    (forall c :: c in dist ==> Open(g, c)) &&
    (forall c {:trigger prev[c]} :: c in prev ==> prev[c] in dist && Adjacent(prev[c], c) && dist[c] == dist[prev[c]] + 1)
  }

  /**
   * The cells met by following the predecessor links from c back to source,
   * listed from source to c.
   */
  function TraceBack(g: Snapshot, source: Cell, dist: Distances, prev: Previous, c: Cell): (route: seq<Cell>)
    requires Chains(g, source, dist, prev) && c in dist
    ensures WalkBetween(g, route, source, c)
    ensures |route| == dist[c] + 1
    decreases dist[c]
  {
    if c in prev then TraceBack(g, source, dist, prev, prev[c]) + [c] else [c]
  }

  /** Putting c in front of route extends the chain that ends at c's predecessor. */
  lemma TraceBackPrepend(g: Snapshot, source: Cell, dist: Distances, prev: Previous, c: Cell, route: seq<Cell>)
    requires Chains(g, source, dist, prev) && c in dist
    ensures c in prev ==>
      TraceBack(g, source, dist, prev, c) + route == TraceBack(g, source, dist, prev, prev[c]) + ([c] + route)
    ensures c !in prev ==> TraceBack(g, source, dist, prev, c) + route == [c] + route
  {
    if c in prev {
      AppendAssociative(TraceBack(g, source, dist, prev, prev[c]), [c], route);
    }
  }

  /** Solver hint: concatenation regrouped, stated once so that callers need not prove it by extensionality. */
  lemma AppendAssociative<T>(a: seq<T>, b: seq<T>, c: seq<T>)
    ensures (a + b) + c == a + (b + c)
  {
  }

  /** Every cell of the queue is discovered, and every discovered, unvisited cell is queued. */
  ghost predicate Frontier(visited: set<Cell>, dist: Distances, queue: seq<Cell>)
  {
    (forall i :: 0 <= i < |queue| ==> queue[i] in dist) &&
    (forall c :: c in dist && c !in visited ==> c in queue)
  }

  /** No visited cell is farther than a queued one. */
  ghost predicate Ordered(visited: set<Cell>, dist: Distances, queue: seq<Cell>)
  {
    forall v, i :: v in visited && v in dist && 0 <= i < |queue| && queue[i] in dist ==> dist[v] <= dist[queue[i]]
  }

  /** Every open, unvisited neighbour of u is discovered at most one hop beyond u. */
  ghost predicate RelaxedAt(g: Snapshot, visited: set<Cell>, dist: Distances, u: Cell)
    requires u in dist
  {
    forall n :: n !in visited && Adjacent(u, n) && Open(g, n) ==> n in dist && dist[n] <= dist[u] + 1
  }

  /** The neighbours of every visited cell have been relaxed. */
  ghost predicate Relaxed(g: Snapshot, visited: set<Cell>, dist: Distances)
  {
    forall v, n :: v in visited && v in dist && n !in visited && Adjacent(v, n) && Open(g, n) ==>
      n in dist && dist[n] <= dist[v] + 1
  }

  /** The distance of every visited cell is no longer than any walk to it. */
  ghost predicate Settled(g: Snapshot, source: Cell, visited: set<Cell>, dist: Distances)
  {
    forall v, p :: v in visited && v in dist && WalkBetween(g, p, source, v) ==> dist[v] <= |p| - 1
  }

  /**
   * A walk from source either stays among visited cells, or reaches an
   * unvisited, discovered cell whose distance is at most its index on the walk.
   */
  lemma {:induction false} FrontierCrossing(g: Snapshot, source: Cell, visited: set<Cell>, dist: Distances, p: seq<Cell>)
    requires source in dist && dist[source] == 0 && visited <= dist.Keys
    requires Relaxed(g, visited, dist) && Settled(g, source, visited, dist)
    requires IsWalk(g, p) && p[0] == source
    ensures (forall i :: 0 <= i < |p| ==> p[i] in visited) ||
            exists j :: 0 <= j < |p| && p[j] !in visited && p[j] in dist && dist[p[j]] <= j
    decreases |p|
  {
    if |p| > 1 {
      var q := p[..|p| - 1];
      assert IsWalk(g, q) && q[0] == source;
      FrontierCrossing(g, source, visited, dist, q);
      if forall i :: 0 <= i < |q| ==> q[i] in visited {
        var last, before := p[|p| - 1], p[|p| - 2];
        if last !in visited {
          assert WalkBetween(g, q, source, before);
          assert Adjacent(before, last);
          assert dist[last] <= |p| - 1;
        }
      } else {
        var j :| 0 <= j < |q| && q[j] !in visited && q[j] in dist && dist[q[j]] <= j;
        assert p[j] == q[j];
      }
    }
  }

  /** The queued cell of least distance is settled: no walk to it is shorter than its distance. */
  lemma PoppedIsSettled(g: Snapshot, source: Cell, visited: set<Cell>, dist: Distances, queue: seq<Cell>, k: nat)
    requires source in dist && dist[source] == 0 && visited <= dist.Keys
    requires Relaxed(g, visited, dist) && Settled(g, source, visited, dist) && Frontier(visited, dist, queue)
    requires k < |queue| && forall i :: 0 <= i < |queue| ==> dist[queue[k]] <= dist[queue[i]]
    ensures Settled(g, source, visited + {queue[k]}, dist)
  {
    var u := queue[k];
    forall v, p | v in visited + {u} && v in dist && WalkBetween(g, p, source, v)
      ensures dist[v] <= |p| - 1
    {
      if v !in visited {
        FrontierCrossing(g, source, visited, dist, p);
        if !(forall i :: 0 <= i < |p| ==> p[i] in visited) {
          var j :| 0 <= j < |p| && p[j] !in visited && p[j] in dist && dist[p[j]] <= j;
          var i :| 0 <= i < |queue| && queue[i] == p[j];
        }
      }
    }
  }

  /** Once no discovered cell is left unvisited, an unvisited target cannot be reached. */
  lemma Unreachable(g: Snapshot, source: Cell, target: Cell, visited: set<Cell>, dist: Distances)
    requires source in dist && dist[source] == 0 && visited <= dist.Keys
    requires Relaxed(g, visited, dist) && Settled(g, source, visited, dist)
    requires target !in visited && dist.Keys <= visited
    ensures !Reachable(g, source, target)
  {
    if p :| WalkBetween(g, p, source, target) {
      FrontierCrossing(g, source, visited, dist, p);
    }
  }

  /**
   * What relaxing (part of) the neighbours of current does to the distances
   * and the queue: recorded distances only decrease, each change lowers an
   * unvisited neighbour of current to one hop beyond it and appends that
   * neighbour to the queue, and the queue only grows at its end.
   */
  ghost predicate Lowered(visited: set<Cell>, current: Cell,
                          dist: Distances, queue: seq<Cell>, dist': Distances, queue': seq<Cell>)
  {
    current in dist && dist.Keys <= dist'.Keys &&
    |queue| <= |queue'| && queue'[..|queue|] == queue &&
    (forall c :: c in dist ==> dist'[c] <= dist[c]) &&
    (forall c :: c in dist' && (c !in dist || dist'[c] != dist[c]) ==>
      c !in visited && Adjacent(current, c) && dist'[c] == dist[current] + 1 && c in queue'[|queue|..]) &&
    (forall i :: |queue| <= i < |queue'| ==> queue'[i] in dist' && dist'[queue'[i]] == dist[current] + 1)
  }

  /**
   * A whole pass over the neighbours of current: distances were Lowered,
   * afterwards every open, unvisited neighbour is relaxed, and nothing is
   * queued when all of them were relaxed already.
   */
  ghost predicate RelaxStep(g: Snapshot, visited: set<Cell>, current: Cell,
                            dist: Distances, queue: seq<Cell>, dist': Distances, queue': seq<Cell>)
  {
    Lowered(visited, current, dist, queue, dist', queue') &&
    RelaxedAt(g, visited, dist', current) &&
    (RelaxedAt(g, visited, dist, current) ==> queue' == queue)
  }

  /**
   * Part way through relaxing the neighbours of current: the chains are
   * intact, every predecessor is visited, and distances were Lowered without
   * touching current's own.
   */
  ghost predicate Progress(g: Snapshot, source: Cell, visited: set<Cell>, current: Cell,
                           dist: Distances, queue: seq<Cell>, dist': Distances, prev': Previous, queue': seq<Cell>)
  {
    Chains(g, source, dist', prev') &&
    (forall c :: c in prev' ==> prev'[c] in visited) &&
    current in visited && Lowered(visited, current, dist, queue, dist', queue') &&
    dist'[current] == dist[current]
  }

  /**
   * Part way through relaxing the neighbours of current: a cell whose
   * distance was kept keeps its predecessor, and a cell whose distance was
   * lowered has current as predecessor.
   */
  ghost predicate Repointed(current: Cell, dist: Distances, prev: Previous, dist': Distances, prev': Previous)
  {
    (forall c :: c in prev && c in dist && c in dist' && dist'[c] == dist[c] ==> c in prev' && prev'[c] == prev[c]) &&
    (forall c :: c in dist' && (c !in dist || dist'[c] < dist[c]) ==> c in prev' && prev'[c] == current)
  }

  /** Every cell appended to the queue during the pass had its distance lowered. */
  ghost predicate QueuedLowered(dist: Distances, queue: seq<Cell>, dist': Distances, queue': seq<Cell>)
  {
    forall i :: |queue| <= i < |queue'| && queue'[i] in dist ==> queue'[i] in dist' && dist'[queue'[i]] < dist[queue'[i]]
  }

  /** One distance update of the pass keeps Repointed and QueuedLowered. */
  lemma PassStep(current: Cell, dist: Distances, prev: Previous, queue: seq<Cell>,
                 dist0: Distances, prev0: Previous, queue0: seq<Cell>, n: Cell)
    requires current in dist && current in dist0 && dist0[current] == dist[current]
    requires dist.Keys <= dist0.Keys && forall c :: c in dist ==> dist0[c] <= dist[c]
    requires Repointed(current, dist, prev, dist0, prev0) && QueuedLowered(dist, queue, dist0, queue0)
    requires n !in dist0 || dist0[current] + 1 < dist0[n]
    ensures Repointed(current, dist, prev, dist0[n := dist0[current] + 1], prev0[n := current])
    ensures QueuedLowered(dist, queue, dist0[n := dist0[current] + 1], queue0 + [n])
  {
    var d, p, q := dist0[n := dist0[current] + 1], prev0[n := current], queue0 + [n];
    forall c | c in d && (c !in dist || d[c] < dist[c]) ensures c in p && p[c] == current {
      if c != n {
        assert d[c] == dist0[c];
      }
    }
    forall c | c in prev && c in dist && c in d && d[c] == dist[c] ensures c in p && p[c] == prev[c] {
      assert c != n;
    }
    forall i | |queue| <= i < |q| && q[i] in dist ensures q[i] in d && d[q[i]] < dist[q[i]] {
      if i < |queue0| {
        assert q[i] == queue0[i];
      }
    }
  }

  /**
   * Linking an open neighbour n of current, one hop beyond it, keeps the
   * chains, provided n is the predecessor of no cell.
   */
  lemma ChainsExtend(g: Snapshot, source: Cell, dist: Distances, prev: Previous, current: Cell, n: Cell)
    requires Chains(g, source, dist, prev) && current in dist && Open(g, n) && Adjacent(current, n)
    requires n != source && forall c :: c in prev ==> prev[c] != n
    ensures Chains(g, source, dist[n := dist[current] + 1], prev[n := current])
  {
    var d, p := dist[n := dist[current] + 1], prev[n := current];
    assert p.Keys == d.Keys - {source};
    forall c | c in p ensures p[c] in d && Adjacent(p[c], c) && d[c] == d[p[c]] + 1 {
      if c != n {
        assert p[c] == prev[c] != n;
      }
    }
  }

  /** Lowering the distance of one open, unvisited neighbour of current keeps Progress. */
  lemma ProgressStep(g: Snapshot, source: Cell, visited: set<Cell>, current: Cell,
                     dist: Distances, queue: seq<Cell>, dist': Distances, prev': Previous, queue': seq<Cell>, n: Cell)
    requires Progress(g, source, visited, current, dist, queue, dist', prev', queue')
    requires n !in visited && Open(g, n) && Adjacent(current, n) && (n !in dist' || dist'[current] + 1 < dist'[n])
    ensures Progress(g, source, visited, current, dist, queue,
                     dist'[n := dist'[current] + 1], prev'[n := current], queue' + [n])
    ensures !RelaxedAt(g, visited, dist, current)
  {
    var d, p, q := dist'[n := dist[current] + 1], prev'[n := current], queue' + [n];
    ChainsExtend(g, source, dist', prev', current, n);
    assert q[..|queue|] == queue;
    forall c | c in d && (c !in dist || d[c] != dist[c])
      ensures c !in visited && Adjacent(current, c) && d[c] == dist[current] + 1 && c in q[|queue|..]
    {
      if c != n {
        assert c in queue'[|queue|..];
        assert queue'[|queue|..] <= q[|queue|..];
      } else {
        assert q[|q| - 1] == n;
      }
    }
    if n in dist {
      assert dist'[n] <= dist[n];
    }
  }

  /** Once every neighbour of current has been considered, Progress amounts to a RelaxStep. */
  lemma ProgressDone(g: Snapshot, source: Cell, visited: set<Cell>, current: Cell, neighbors: seq<Cell>,
                     dist: Distances, queue: seq<Cell>, dist': Distances, prev': Previous, queue': seq<Cell>)
    requires Progress(g, source, visited, current, dist, queue, dist', prev', queue')
    requires neighbors == Neighbors(g.rows, g.cols, current)
    requires forall j :: 0 <= j < |neighbors| && neighbors[j] !in visited && Open(g, neighbors[j]) ==>
      neighbors[j] in dist' && dist'[neighbors[j]] <= dist[current] + 1
    requires RelaxedAt(g, visited, dist, current) ==> queue' == queue
    ensures RelaxStep(g, visited, current, dist, queue, dist', queue')
  {
    forall n | n !in visited && Adjacent(current, n) && Open(g, n)
      ensures n in dist' && dist'[n] <= dist'[current] + 1
    {
      assert n in neighbors;
      var j :| 0 <= j < |neighbors| && neighbors[j] == n;
    }
  }

  /**
   * The first queue position of least distance: the entry that sorting the
   * queue by distance (a stable sort) and then shifting it would remove.
   */
  method SelectMin(queue: seq<Cell>, dist: Distances) returns (k: nat)
    requires queue != [] && forall i :: 0 <= i < |queue| ==> queue[i] in dist
    ensures k < |queue|
    ensures forall i :: 0 <= i < |queue| ==> dist[queue[k]] <= dist[queue[i]]
    ensures forall i :: 0 <= i < k ==> dist[queue[k]] < dist[queue[i]]
  {
    k := 0;
    for i := 1 to |queue|
      invariant k < i
      invariant forall j :: 0 <= j < i ==> dist[queue[k]] <= dist[queue[j]]
      invariant forall j :: 0 <= j < k ==> dist[queue[k]] < dist[queue[j]]
    {
      if dist[queue[i]] < dist[queue[k]] {
        k := i;
      }
    }
  }

  /**
   * Lowering distances keeps the neighbours already considered within
   * bound; together with the one just considered, one more is done.
   */
  lemma NeighbourDone(g: Snapshot, visited: set<Cell>, neighbors: seq<Cell>, i: nat, bound: nat,
                      before: Distances, after: Distances)
    requires i < |neighbors| && before.Keys <= after.Keys && forall c :: c in before ==> after[c] <= before[c]
    requires forall j :: 0 <= j < i && neighbors[j] !in visited && Open(g, neighbors[j]) ==>
      neighbors[j] in before && before[neighbors[j]] <= bound
    requires neighbors[i] !in visited && Open(g, neighbors[i]) ==> neighbors[i] in after && after[neighbors[i]] <= bound
    ensures forall j :: 0 <= j < i + 1 && neighbors[j] !in visited && Open(g, neighbors[j]) ==>
      neighbors[j] in after && after[neighbors[j]] <= bound
  {
  }

  /**
   * The body of the loop over the neighbours: when n is unvisited, not an
   * obstacle and current's distance plus one beats its recorded distance,
   * record that distance and current as its predecessor, and queue n.
   */
  method RelaxNeighbour(cells: array2<Classes>, ghost g: Snapshot, ghost source: Cell, visited: set<Cell>,
                        current: Cell, n: Cell, ghost dist: Distances, ghost queue: seq<Cell>,
                        dist0: Distances, prev0: Previous, queue0: seq<Cell>)
    returns (dist1: Distances, prev1: Previous, queue1: seq<Cell>)
    requires Mirrors(cells, g) && InBounds(g.rows, g.cols, n) && Adjacent(current, n)
    requires Progress(g, source, visited, current, dist, queue, dist0, prev0, queue0)
    ensures Progress(g, source, visited, current, dist, queue, dist1, prev1, queue1)
    ensures dist0.Keys <= dist1.Keys && forall c :: c in dist0 ==> dist1[c] <= dist0[c]
    ensures n !in visited && Open(g, n) ==> n in dist1 && dist1[n] <= dist[current] + 1
    ensures RelaxedAt(g, visited, dist, current) ==> queue1 == queue0
    ensures if n !in visited && Open(g, n) && (n !in dist0 || dist0[current] + 1 < dist0[n])
            then dist1 == dist0[n := dist0[current] + 1] && prev1 == prev0[n := current] && queue1 == queue0 + [n]
            else dist1 == dist0 && prev1 == prev0 && queue1 == queue0
  {
    dist1, prev1, queue1 := dist0, prev0, queue0;
    assert n == (n.0, n.1);
    if n !in visited && !cells[n.0, n.1].obstacle {
      var newDistance := dist0[current] + 1;
      if n !in dist0 || newDistance < dist0[n] {
        ProgressStep(g, source, visited, current, dist, queue, dist0, prev0, queue0, n);
        dist1 := dist0[n := newDistance];
        prev1 := prev0[n := current];
        queue1 := queue0 + [n];
      }
    }
  }

  /**
   * One pass over the neighbours of the cell just visited: each open,
   * unvisited neighbour whose recorded distance exceeds current's plus one
   * gets that distance, current as predecessor, and is appended to the queue.
   */
  method Relax(cells: array2<Classes>, ghost g: Snapshot, ghost source: Cell, current: Cell, visited: set<Cell>,
               dist: Distances, prev: Previous, queue: seq<Cell>)
    returns (dist': Distances, prev': Previous, queue': seq<Cell>)
    requires Mirrors(cells, g)
    requires Chains(g, source, dist, prev) && current in visited && visited <= dist.Keys
    requires forall c :: c in prev ==> prev[c] in visited
    ensures Chains(g, source, dist', prev')
    ensures forall c :: c in prev' ==> prev'[c] in visited
    ensures RelaxStep(g, visited, current, dist, queue, dist', queue')
    ensures forall i :: |queue| <= i < |queue'| ==> queue'[i] !in dist || dist'[queue'[i]] < dist[queue'[i]]
    ensures forall c :: c in prev && c in dist && c in dist' && dist'[c] == dist[c] ==> c in prev' && prev'[c] == prev[c]
    ensures forall c :: c in dist' && (c !in dist || dist'[c] < dist[c]) ==> c in prev' && prev'[c] == current
  {
    var neighbors := Neighbors(cells.Length0, cells.Length1, current);
    dist', prev', queue' := dist, prev, queue;
    for i := 0 to |neighbors|
      invariant Progress(g, source, visited, current, dist, queue, dist', prev', queue')
      invariant forall j :: 0 <= j < i && neighbors[j] !in visited && Open(g, neighbors[j]) ==>
        neighbors[j] in dist' && dist'[neighbors[j]] <= dist[current] + 1
      invariant RelaxedAt(g, visited, dist, current) ==> queue' == queue
      invariant Repointed(current, dist, prev, dist', prev') && QueuedLowered(dist, queue, dist', queue')
    {
      ghost var before, beforePrev, beforeQueue := dist', prev', queue';
      var n := neighbors[i];
      dist', prev', queue' := RelaxNeighbour(cells, g, source, visited, current, n,
                                             dist, queue, dist', prev', queue');
      NeighbourDone(g, visited, neighbors, i, dist[current] + 1, before, dist');
      if n !in visited && Open(g, n) && (n !in before || before[current] + 1 < before[n]) {
        PassStep(current, dist, prev, queue, before, beforePrev, beforeQueue, n);
      }
    }
    ProgressDone(g, source, visited, current, neighbors, dist, queue, dist', prev', queue');
  }

  /** Solver hint: adding a member leaves a set unchanged, stated once to keep the search loop's proof small. */
  lemma AddPresent(s: set<Cell>, x: Cell)
    requires x in s
    ensures s + {x} == s
  {
  }

  /** The queue without its entry at position k. */
  function RemoveAt(queue: seq<Cell>, k: nat): (rest: seq<Cell>)
    requires k < |queue|
    ensures |rest| == |queue| - 1
    ensures forall c :: c in queue && c != queue[k] ==> c in rest
    ensures forall i :: 0 <= i < |rest| ==> rest[i] in queue
    ensures multiset(rest) == multiset(queue) - multiset{queue[k]}
  {
    assert queue == queue[..k] + [queue[k]] + queue[k + 1..];
    queue[..k] + queue[k + 1..]
  }

  /** Visiting the popped cell and relaxing its neighbours keeps the frontier complete. */
  lemma FrontierKept(g: Snapshot, visited: set<Cell>, dist: Distances, queue: seq<Cell>, k: nat,
                     dist': Distances, queue': seq<Cell>)
    requires visited <= dist.Keys && Frontier(visited, dist, queue) && k < |queue|
    requires RelaxStep(g, visited + {queue[k]}, queue[k], dist, RemoveAt(queue, k), dist', queue')
    ensures Frontier(visited + {queue[k]}, dist', queue')
  {
    var rest := RemoveAt(queue, k);
    forall i | 0 <= i < |queue'| ensures queue'[i] in dist' {
      if i < |rest| {
        assert queue'[i] == rest[i];
      }
    }
    forall c | c in dist' && c !in visited + {queue[k]} ensures c in queue' {
      if c in dist && dist'[c] == dist[c] {
        assert c in rest;
        var i :| 0 <= i < |rest| && rest[i] == c;
        assert queue'[i] == c;
      } else {
        assert c in queue'[|rest|..];
      }
    }
  }

  /** Visiting the popped cell of least distance keeps visited cells no farther than queued ones. */
  lemma OrderedKept(g: Snapshot, visited: set<Cell>, dist: Distances, queue: seq<Cell>, k: nat,
                    dist': Distances, queue': seq<Cell>)
    requires visited <= dist.Keys && Frontier(visited, dist, queue) && Ordered(visited, dist, queue)
    requires k < |queue| && forall i :: 0 <= i < |queue| ==> dist[queue[k]] <= dist[queue[i]]
    requires RelaxStep(g, visited + {queue[k]}, queue[k], dist, RemoveAt(queue, k), dist', queue')
    ensures Ordered(visited + {queue[k]}, dist', queue')
  {
    var rest, current := RemoveAt(queue, k), queue[k];
    forall v, i | v in visited + {current} && v in dist' && 0 <= i < |queue'| && queue'[i] in dist'
      ensures dist'[v] <= dist'[queue'[i]]
    {
      assert dist'[v] == dist[v];
      assert dist[v] <= dist[current];
      if i < |rest| {
        assert queue'[i] == rest[i];
        var j :| 0 <= j < |queue| && queue[j] == rest[i];
      }
    }
  }

  /** Visiting the popped cell and relaxing its neighbours keeps every visited cell relaxed. */
  lemma RelaxedKept(g: Snapshot, visited: set<Cell>, dist: Distances, current: Cell, queue: seq<Cell>,
                    dist': Distances, queue': seq<Cell>)
    requires visited <= dist.Keys && Relaxed(g, visited, dist)
    requires RelaxStep(g, visited + {current}, current, dist, queue, dist', queue')
    ensures Relaxed(g, visited + {current}, dist')
  {
    forall v, n | v in visited + {current} && v in dist' && n !in visited + {current} && Adjacent(v, n) && Open(g, n)
      ensures n in dist' && dist'[n] <= dist'[v] + 1
    {
      if v != current {
        assert dist'[v] == dist[v];
      }
    }
  }

  /** Relaxing changes no visited distance, so visited cells stay settled. */
  lemma SettledKept(g: Snapshot, source: Cell, visited: set<Cell>, current: Cell, dist: Distances, queue: seq<Cell>,
                    dist': Distances, queue': seq<Cell>)
    requires visited <= dist.Keys && Settled(g, source, visited, dist)
    requires RelaxStep(g, visited, current, dist, queue, dist', queue')
    ensures Settled(g, source, visited, dist')
  {
    forall v, p | v in visited && v in dist' && WalkBetween(g, p, source, v)
      ensures dist'[v] <= |p| - 1
    {
      assert dist'[v] == dist[v];
    }
  }

  /**
   * The search loop of the visualizer: repeatedly remove the queued cell of
   * least distance; stop when it is target, otherwise visit it and relax its
   * neighbours. reached tells whether target was removed from the queue.
   */
  method ShortestPath(cells: array2<Classes>, ghost g: Snapshot, source: Cell, target: Cell)
    returns (reached: bool, dist: Distances, prev: Previous)
    requires Mirrors(cells, g) && Open(g, source)
    ensures Chains(g, source, dist, prev)
    ensures reached ==> target in dist && forall p :: WalkBetween(g, p, source, target) ==> dist[target] <= |p| - 1
    ensures !reached ==> !Reachable(g, source, target)
  {
    dist := map[source := 0];
    prev := map[];
    var visited: set<Cell> := {};
    var queue := [source];
    while queue != []
      invariant Chains(g, source, dist, prev)
      invariant visited <= dist.Keys && target !in visited
      invariant forall c :: c in prev ==> prev[c] in visited
      invariant Frontier(visited, dist, queue)
      invariant Ordered(visited, dist, queue)
      invariant Relaxed(g, visited, dist)
      invariant Settled(g, source, visited, dist)
      decreases AllCells(g.rows, g.cols) - visited, |queue|
    {
      var k := SelectMin(queue, dist);
      var current := queue[k];
      ghost var visited0, dist0, queue0 := visited, dist, queue;
      PoppedIsSettled(g, source, visited, dist, queue, k);
      queue := RemoveAt(queue, k);
      if current == target {
        return true, dist, prev;
      }
      InAllCells(g.rows, g.cols, current);
      visited := visited + {current};
      dist, prev, queue := Relax(cells, g, source, current, visited, dist, prev, queue);
      FrontierKept(g, visited0, dist0, queue0, k, dist, queue);
      OrderedKept(g, visited0, dist0, queue0, k, dist, queue);
      RelaxedKept(g, visited0, dist0, current, RemoveAt(queue0, k), dist, queue);
      SettledKept(g, source, visited, current, dist0, RemoveAt(queue0, k), dist, queue);
      if current in visited0 {
        AddPresent(visited0, current);
        assert RelaxedAt(g, visited, dist0, current);
      }
    }
    Unreachable(g, source, target, visited, dist);
    reached := false;
  }
}
