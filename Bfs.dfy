/** The breadth-first shortest-path search of `src/bfs.rs`, over a grid with
    signed (row, column) coordinates. A step goes to one of the four
    orthogonal neighbours inside the grid, and only "uphill by at most one":
    the neighbour's value is at most the current value plus one. */
module Bfs {

  type Coord = (int, int)

  datatype Option<T> = None | Some(value: T)

  /** `MOVE_DIRECTIONS`: the (row, column) offsets tried from every cell, in
      this order: down, up, right, left. */
  const MoveDirections: seq<(int, int)> := [(1, 0), (-1, 0), (0, 1), (0, -1)]

  function Abs(x: int): nat
  {
    if x < 0 then -x else x
  }

  /** The neighbour of `p` in direction `k`: one unit step away. */
  function Move(p: Coord, k: nat): (q: Coord)
    requires k < |MoveDirections|
    ensures Abs(q.0 - p.0) + Abs(q.1 - p.1) == 1
  {
    (p.0 + MoveDirections[k].0, p.1 + MoveDirections[k].1)
  }

  /** The grid `bfs` reads: rows `top .. top + height`, columns
      `left .. left + width` (either may start below zero), and a value for
      every cell. */
  datatype Grid = Grid(top: int, left: int, height: nat, width: nat, value: Coord -> int)
  {
    predicate Contains(p: Coord)
    {
      top <= p.0 < top + height && left <= p.1 < left + width
    }

    /** Every coordinate of the grid: the keys of the visited mask. */
    function Coords(): (cs: set<Coord>)
      ensures forall p :: p in cs <==> Contains(p)
    {
      set r, c | top <= r < top + height && left <= c < left + width :: (r, c)
    }

    /** The fallible lookup: `None` outside the grid. */
    function At(p: Coord): (v: Option<int>)
      ensures v.Some? <==> Contains(p)
      ensures v.Some? ==> v.value == value(p)
    {
      if Contains(p) then Some(value(p)) else None
    }
  }

  /** The step rule: both cells in the grid, and the target at most one
      higher than the source. */
  predicate Admissible(g: Grid, p: Coord, q: Coord)
  {
    g.Contains(p) && g.Contains(q) && g.value(q) <= g.value(p) + 1
  }

  /** The cells one admissible step away from `p`. */
  ghost function Succ(g: Grid, p: Coord): set<Coord>
  {
    set k | 0 <= k < |MoveDirections| && Admissible(g, p, Move(p, k)) :: Move(p, k)
  }

  /** The cells one admissible step away from some cell of `s`. */
  ghost function Next(g: Grid, s: set<Coord>): set<Coord>
  {
    set p, q | p in s && q in Succ(g, p) :: q
  }

  /** The reference definition: the cells reachable from `start` in at most
      `n` admissible steps. */
  ghost function Within(g: Grid, start: Coord, n: nat): (s: set<Coord>)
    ensures start in s
    decreases n
  {
    if n == 0 then {start} else Within(g, start, n - 1) + Next(g, Within(g, start, n - 1))
  }

  /** `n` is the least number of steps that reaches `p`. */
  ghost predicate Exact(g: Grid, start: Coord, p: Coord, n: nat)
  {
    p in Within(g, start, n) && forall k: nat :: k < n ==> p !in Within(g, start, k)
  }

  // ---------------------------------------------------------------------
  // Paths
  // ---------------------------------------------------------------------

  /** A walk of admissible steps; it takes `|path| - 1` steps. */
  ghost predicate IsPath(g: Grid, path: seq<Coord>)
  {
    |path| >= 1 && forall i :: 0 <= i < |path| - 1 ==> path[i + 1] in Succ(g, path[i])
  }

  /** Every walk ends inside the layer of its length. */
  lemma {:induction false} PathWithin(g: Grid, path: seq<Coord>)
    requires IsPath(g, path)
    ensures path[|path| - 1] in Within(g, path[0], |path| - 1)
    decreases |path|
  {
    var n := |path| - 1;
    if n > 0 {
      var front := path[..n];
      assert IsPath(g, front) by {
        forall i | 0 <= i < |front| - 1
          ensures front[i + 1] in Succ(g, front[i])
        {
          assert front[i] == path[i] && front[i + 1] == path[i + 1];
        }
      }
      PathWithin(g, front);
      assert path[n] in Succ(g, path[n - 1]);
      assert path[n] in Next(g, Within(g, path[0], n - 1));
    }
  }

  /** A cell new in layer `m + 1` is one step from a cell of layer `m`. */
  lemma LayerStep(g: Grid, start: Coord, m: nat, p: Coord) returns (y: Coord)
    requires p in Within(g, start, m + 1) && p !in Within(g, start, m)
    ensures y in Within(g, start, m) && p in Succ(g, y)
  {
    y :| y in Within(g, start, m) && p in Succ(g, y);
  }

  /** A step of `Succ` is admissible and one unit long. */
  lemma SuccAdjacent(g: Grid, y: Coord, p: Coord)
    requires p in Succ(g, y)
    ensures Admissible(g, y, p) && Abs(p.0 - y.0) + Abs(p.1 - y.1) == 1
  {
    var k :| 0 <= k < |MoveDirections| && Admissible(g, y, Move(y, k)) && p == Move(y, k);
  }

  /** Every cell of a layer is the end of a walk no longer than the layer. */
  lemma {:induction false} WithinPath(g: Grid, start: Coord, n: nat, p: Coord) returns (path: seq<Coord>)
    requires p in Within(g, start, n)
    ensures IsPath(g, path) && path[0] == start && path[|path| - 1] == p && |path| <= n + 1
    decreases n
  {
    if n == 0 {
      path := [start];
      return;
    }
    var m: nat := n - 1;
    if p in Within(g, start, m) {
      path := WithinPath(g, start, m, p);
    } else {
      var y := LayerStep(g, start, m, p);
      var front := WithinPath(g, start, m, y);
      path := front + [p];
      forall i | 0 <= i < |path| - 1
        ensures path[i + 1] in Succ(g, path[i])
      {
        if i < |front| - 1 {
          assert path[i] == front[i] && path[i + 1] == front[i + 1];
        }
      }
    }
  }

  /** Layers only grow. */
  lemma {:induction false} WithinMonotone(g: Grid, start: Coord, i: nat, j: nat)
    requires i <= j
    ensures Within(g, start, i) <= Within(g, start, j)
    decreases j
  {
    if i < j {
      WithinMonotone(g, start, i, j - 1);
    }
  }

  /** A set that holds `start` and every admissible step out of its cells
      holds every layer. */
  lemma {:induction false} ClosedHoldsWithin(g: Grid, start: Coord, s: set<Coord>, n: nat)
    requires start in s
    requires forall p :: p in s ==> Succ(g, p) <= s
    ensures Within(g, start, n) <= s
    decreases n
  {
    if n > 0 {
      ClosedHoldsWithin(g, start, s, n - 1);
    }
  }

  /** Every step changes the Manhattan distance to `start` by one, so a
      layer holds no cell farther than its number. */
  lemma {:induction false} WithinManhattan(g: Grid, start: Coord, n: nat, p: Coord)
    requires p in Within(g, start, n)
    ensures Abs(p.0 - start.0) + Abs(p.1 - start.1) <= n
    decreases n
  {
    if n > 0 {
      var m: nat := n - 1;
      if p in Within(g, start, m) {
        WithinManhattan(g, start, m, p);
      } else {
        var y := LayerStep(g, start, m, p);
        WithinManhattan(g, start, m, y);
        SuccAdjacent(g, y, p);
      }
    }
  }

  /** The search's answer as a path: an `Exact` distance is the length of a
      shortest walk. */
  lemma ExactIsShortest(g: Grid, start: Coord, p: Coord, n: nat) returns (path: seq<Coord>)
    requires Exact(g, start, p, n)
    ensures IsPath(g, path) && path[0] == start && path[|path| - 1] == p && |path| == n + 1
    ensures forall other :: IsPath(g, other) && other[0] == start && other[|other| - 1] == p ==>
              |other| >= n + 1
  {
    path := WithinPath(g, start, n, p);
    PathWithin(g, path);
    forall other | IsPath(g, other) && other[0] == start && other[|other| - 1] == p
      ensures |other| >= n + 1
    {
      PathWithin(g, other);
    }
  }

  /** No cell is reachable: no walk from `start` ends there. */
  lemma UnreachableHasNoPath(g: Grid, start: Coord, p: Coord)
    requires forall k: nat :: p !in Within(g, start, k)
    ensures forall path :: IsPath(g, path) && path[0] == start ==> path[|path| - 1] != p
  {
    forall path | IsPath(g, path) && path[0] == start
      ensures path[|path| - 1] != p
    {
      PathWithin(g, path);
    }
  }

  // ---------------------------------------------------------------------
  // Steps of the search's proof
  // ---------------------------------------------------------------------

  /** A cell first discovered from a cell at distance `l`, while every cell
      within `l` steps has already been seen, is at distance `l + 1`. */
  lemma NewNeighbourExact(g: Grid, start: Coord, p: Coord, l: nat, q: Coord, seen: set<Coord>)
    requires Exact(g, start, p, l)
    requires q in Succ(g, p)
    requires Within(g, start, l) <= seen && q !in seen
    ensures Exact(g, start, q, l + 1)
  {
    assert q in Next(g, Within(g, start, l));
    forall k: nat | k < l + 1
      ensures q !in Within(g, start, k)
    {
      WithinMonotone(g, start, k, l);
    }
  }

  // ---------------------------------------------------------------------
  // The search
  // ---------------------------------------------------------------------

  /** The visited mask has the grid's extents and is set exactly on `marked`. */
  ghost predicate MarksAgree(g: Grid, visited: map<Coord, bool>, marked: set<Coord>)
  {
    visited.Keys == g.Coords() && marked <= g.Coords() &&
    forall x :: x in visited ==> (visited[x] <==> x in marked)
  }

  /** The cells seen so far (the marked ones and `start`) with their exact
      distances. */
  ghost predicate Distances(g: Grid, start: Coord, dist: map<Coord, nat>, marked: set<Coord>)
  {
    dist.Keys == marked + {start} &&
    forall x {:trigger Exact(g, start, x, dist[x])} :: x in dist ==> Exact(g, start, x, dist[x])
  }

  /** Expanded cells have had every admissible step out of them seen. */
  ghost predicate Expanded(g: Grid, dist: map<Coord, nat>, done: set<Coord>)
  {
    done <= dist.Keys && forall x {:trigger Succ(g, x)} :: x in done ==> Succ(g, x) <= dist.Keys
  }

  /** Every queue entry is a seen cell with its exact distance, except the
      second entry `start` may get once it has been expanded. */
  ghost predicate Entries(dist: map<Coord, nat>, done: set<Coord>, queue: seq<(Coord, nat)>)
  {
    forall i :: 0 <= i < |queue| ==>
      queue[i].0 in dist && (queue[i].0 in done || queue[i].1 == dist[queue[i].0])
  }

  /** Every seen cell not yet expanded (other than the one being expanded)
      waits in the queue with its distance. */
  ghost predicate Pending(dist: map<Coord, nat>, done: set<Coord>, queue: seq<(Coord, nat)>, skip: set<Coord>)
  {
    forall x :: x in dist && x !in done && x !in skip ==> (x, dist[x]) in queue
  }

  /** Queued distances never decrease from front to back and lie in
      `l .. l + 1`. */
  ghost predicate Levels(queue: seq<(Coord, nat)>, l: nat)
  {
    (forall i, j :: 0 <= i <= j < |queue| ==> queue[i].1 <= queue[j].1) &&
    forall i :: 0 <= i < |queue| ==> l <= queue[i].1 <= l + 1
  }

  lemma MarkAgrees(g: Grid, visited: map<Coord, bool>, marked: set<Coord>, next: Coord)
    requires MarksAgree(g, visited, marked) && g.Contains(next)
    ensures MarksAgree(g, visited[next := true], marked + {next})
  {
  }

  lemma DistancesAdd(g: Grid, start: Coord, dist: map<Coord, nat>, marked: set<Coord>, next: Coord, d: nat)
    requires Distances(g, start, dist, marked) && next !in dist && Exact(g, start, next, d)
    ensures Distances(g, start, dist[next := d], marked + {next})
  {
  }

  lemma ExpandedGrows(g: Grid, dist: map<Coord, nat>, dist': map<Coord, nat>, done: set<Coord>)
    requires Expanded(g, dist, done) && dist.Keys <= dist'.Keys
    ensures Expanded(g, dist', done)
  {
  }

  lemma EntriesPush(dist: map<Coord, nat>, dist': map<Coord, nat>, done: set<Coord>,
                    queue: seq<(Coord, nat)>, e: (Coord, nat))
    requires Entries(dist, done, queue)
    requires forall x :: x in dist ==> x in dist' && dist'[x] == dist[x]
    requires e.0 in dist' && (e.0 in done || e.1 == dist'[e.0])
    ensures Entries(dist', done, queue + [e])
  {
  }

  lemma PendingPush(dist: map<Coord, nat>, done: set<Coord>, queue: seq<(Coord, nat)>,
                    p: Coord, next: Coord, d: nat)
    requires Pending(dist, done, queue, {p}) && next !in dist
    ensures Pending(dist[next := d], done, queue + [(next, d)], {p})
  {
    forall x | x in dist[next := d] && x !in done && x !in {p}
      ensures (x, dist[next := d][x]) in queue + [(next, d)]
    {
      if x != next {
        assert (x, dist[x]) in queue;
      } else {
        assert (queue + [(next, d)])[|queue|] == (next, d);
      }
    }
  }

  lemma PendingPushSeen(dist: map<Coord, nat>, done: set<Coord>, queue: seq<(Coord, nat)>,
                        p: Coord, e: (Coord, nat))
    requires Pending(dist, done, queue, {p})
    ensures Pending(dist, done, queue + [e], {p})
  {
    forall x | x in dist && x !in done && x !in {p}
      ensures (x, dist[x]) in queue + [e]
    {
      assert (x, dist[x]) in queue;
    }
  }

  lemma LevelsPush(queue: seq<(Coord, nat)>, l: nat, next: Coord)
    requires Levels(queue, l)
    ensures Levels(queue + [(next, l + 1)], l)
  {
  }

  /** The state while the neighbours of `p`, popped at distance `l`, are
      being offered. */
  ghost predicate Expanding(g: Grid, start: Coord, p: Coord, l: nat,
                            visited: map<Coord, bool>, queue: seq<(Coord, nat)>,
                            marked: set<Coord>, dist: map<Coord, nat>, done: set<Coord>)
  {
    g.Contains(p) && p in dist &&
    MarksAgree(g, visited, marked) && Distances(g, start, dist, marked) &&
    Expanded(g, dist, done) && Entries(dist, done, queue) && Pending(dist, done, queue, {p}) &&
    Levels(queue, l) && Within(g, start, l) <= dist.Keys &&
    (p !in done ==> l == dist[p]) &&
    (start in done || (p == start && start !in marked))
  }

  /** Queuing a cell never seen before, at distance `l + 1`: that distance
      is exact. */
  lemma PushNewExact(g: Grid, start: Coord, p: Coord, l: nat,
                     visited: map<Coord, bool>, queue: seq<(Coord, nat)>,
                     marked: set<Coord>, dist: map<Coord, nat>, done: set<Coord>, next: Coord)
    requires Expanding(g, start, p, l, visited, queue, marked, dist, done)
    requires next in Succ(g, p) && next !in dist
    ensures Distances(g, start, dist[next := l + 1], marked + {next})
    ensures Within(g, start, l) <= dist[next := l + 1].Keys
  {
    assert p !in done && l == dist[p];
    NewNeighbourExact(g, start, p, l, next, dist.Keys);
    DistancesAdd(g, start, dist, marked, next, l + 1);
  }

  /** Queuing a cell never seen before keeps the visited mask and the queue
      levels in step. */
  lemma PushNewMarked(g: Grid, start: Coord, p: Coord, l: nat,
                      visited: map<Coord, bool>, queue: seq<(Coord, nat)>,
                      marked: set<Coord>, dist: map<Coord, nat>, done: set<Coord>, next: Coord)
    requires Expanding(g, start, p, l, visited, queue, marked, dist, done)
    requires next in Succ(g, p) && next !in dist
    ensures MarksAgree(g, visited[next := true], marked + {next})
    ensures Levels(queue + [(next, l + 1)], l)
    ensures g.Contains(p) && p in dist[next := l + 1] && (p !in done ==> l == dist[next := l + 1][p])
    ensures start in done || (p == start && start !in marked + {next})
  {
    MarkAgrees(g, visited, marked, next);
    LevelsPush(queue, l, next);
  }

  /** Queuing a cell never seen before keeps the queue and the expanded
      cells in step with the distances. */
  lemma PushNewQueued(g: Grid, start: Coord, p: Coord, l: nat,
                      visited: map<Coord, bool>, queue: seq<(Coord, nat)>,
                      marked: set<Coord>, dist: map<Coord, nat>, done: set<Coord>, next: Coord)
    requires Expanding(g, start, p, l, visited, queue, marked, dist, done)
    requires next !in dist
    ensures Expanded(g, dist[next := l + 1], done)
    ensures Entries(dist[next := l + 1], done, queue + [(next, l + 1)])
    ensures Pending(dist[next := l + 1], done, queue + [(next, l + 1)], {p})
  {
    var dist' := dist[next := l + 1];
    ExpandedGrows(g, dist, dist', done);
    EntriesPush(dist, dist', done, queue, (next, l + 1));
    PendingPush(dist, done, queue, p, next, l + 1);
  }

  lemma Assemble(g: Grid, start: Coord, p: Coord, l: nat,
                 visited: map<Coord, bool>, queue: seq<(Coord, nat)>,
                 marked: set<Coord>, dist: map<Coord, nat>, done: set<Coord>)
    requires MarksAgree(g, visited, marked)
    requires Levels(queue, l)
    requires Distances(g, start, dist, marked)
    requires Expanded(g, dist, done)
    requires Entries(dist, done, queue)
    requires Pending(dist, done, queue, {p})
    requires Within(g, start, l) <= dist.Keys
    requires g.Contains(p) && p in dist && (p !in done ==> l == dist[p])
    requires start in done || (p == start && start !in marked)
    ensures Expanding(g, start, p, l, visited, queue, marked, dist, done)
  {
  }

  /** Queuing `start` a second time: it was never marked, so the step back
      to it is taken once, after it has been expanded. */
  lemma PushStart(g: Grid, start: Coord, p: Coord, l: nat,
                  visited: map<Coord, bool>, queue: seq<(Coord, nat)>,
                  marked: set<Coord>, dist: map<Coord, nat>, done: set<Coord>, next: Coord)
    requires Expanding(g, start, p, l, visited, queue, marked, dist, done)
    requires next in Succ(g, p) && next in dist && next !in marked && next != p
    ensures next == start && start in done
    ensures Expanding(g, start, p, l, visited[next := true], queue + [(next, l + 1)],
                      marked + {next}, dist, done)
  {
    MarkAgrees(g, visited, marked, next);
    LevelsPush(queue, l, next);
    EntriesPush(dist, dist, done, queue, (next, l + 1));
    PendingPushSeen(dist, done, queue, p, (next, l + 1));
  }

  /** One pass of the inner loop of `bfs`: the neighbour of `p` in direction
      `k` is queued at distance `l + 1`, and marked, when the grid holds it,
      the step rule admits it and it is not yet marked. Whatever happens, an
      admissible neighbour has been seen afterwards. */
  method Offer(g: Grid, start: Coord, p: Coord, l: nat, k: nat,
               visited: map<Coord, bool>, queue: seq<(Coord, nat)>,
               ghost marked: set<Coord>, ghost dist: map<Coord, nat>, ghost done: set<Coord>)
    returns (visited': map<Coord, bool>, queue': seq<(Coord, nat)>,
             ghost marked': set<Coord>, ghost dist': map<Coord, nat>)
    requires k < |MoveDirections|
    requires Expanding(g, start, p, l, visited, queue, marked, dist, done)
    ensures Expanding(g, start, p, l, visited', queue', marked', dist', done)
    ensures dist.Keys <= dist'.Keys
    ensures marked <= marked' && (marked' == marked ==> queue' == queue)
    ensures Admissible(g, p, Move(p, k)) ==> Move(p, k) in dist'
    ensures Admissible(g, p, Move(p, k)) && Move(p, k) !in marked ==>
              visited' == visited[Move(p, k) := true] && marked' == marked + {Move(p, k)} &&
              queue' == queue + [(Move(p, k), l + 1)]
    ensures !(Admissible(g, p, Move(p, k)) && Move(p, k) !in marked) ==>
              visited' == visited && marked' == marked && queue' == queue
  {
    visited', queue', marked', dist' := visited, queue, marked, dist;
    var (dr, dc) := MoveDirections[k];
    var next := (p.0 + dr, p.1 + dc);
    assert next == Move(p, k);
    var nextValue := g.At(next);
    if nextValue.Some? {
      var value := g.value(p) + 1;
      if value >= nextValue.value && !visited[next] {
        assert next in Succ(g, p);
        visited' := visited[next := true];
        if next !in dist {
          PushNewExact(g, start, p, l, visited, queue, marked, dist, done, next);
          PushNewMarked(g, start, p, l, visited, queue, marked, dist, done, next);
          PushNewQueued(g, start, p, l, visited, queue, marked, dist, done, next);
          Assemble(g, start, p, l, visited[next := true], queue + [(next, l + 1)], marked + {next}, dist[next := l + 1], done);
          dist' := dist[next := l + 1];
        } else {
          PushStart(g, start, p, l, visited, queue, marked, dist, done, next);
        }
        marked' := marked + {next};
        queue' := queue + [(next, l + 1)];
      }
    }
  }

  /** The inner loop of `bfs`: every direction of `MoveDirections` in turn.
      Afterwards every admissible neighbour of `p` has been seen. */
  method Expand(g: Grid, start: Coord, p: Coord, l: nat,
                visited: map<Coord, bool>, queue: seq<(Coord, nat)>,
                ghost marked: set<Coord>, ghost dist: map<Coord, nat>, ghost done: set<Coord>,
                ghost pushed: seq<(Coord, nat)>)
    returns (visited': map<Coord, bool>, queue': seq<(Coord, nat)>,
             ghost marked': set<Coord>, ghost dist': map<Coord, nat>, ghost pushed': seq<(Coord, nat)>)
    requires Expanding(g, start, p, l, visited, queue, marked, dist, done)
    requires Log(start, queue, pushed, marked)
    ensures Expanding(g, start, p, l, visited', queue', marked', dist', done)
    ensures marked <= marked' && (marked' == marked ==> queue' == queue)
    ensures Log(start, queue', pushed', marked')
    ensures Succ(g, p) <= dist'.Keys
    ensures Queues(g, p, l, marked, |MoveDirections|, queue, marked', queue')
  {
    visited', queue', marked', dist', pushed' := visited, queue, marked, dist, pushed;
    for k := 0 to |MoveDirections|
      invariant Expanding(g, start, p, l, visited', queue', marked', dist', done)
      invariant marked <= marked' && (marked' == marked ==> queue' == queue)
      invariant Log(start, queue', pushed', marked')
      invariant Seen(g, p, k, dist'.Keys)
      invariant Queues(g, p, l, marked, k, queue, marked', queue')
    {
      ghost var before, seen, queued := marked', dist'.Keys, queue';
      FreshAvoids(g, p, l, marked, k, k);
      ghost var grows := Admissible(g, p, Move(p, k)) && Move(p, k) !in marked';
      visited', queue', marked', dist' := Offer(g, start, p, l, k, visited', queue', marked', dist', done);
      SeenGrows(g, p, k, seen, dist'.Keys);
      FreshStep(g, p, l, marked, k, queue, queued, before, queue', marked');
      if grows {
        ghost var e: (Coord, nat) := (Move(p, k), l + 1);
        LogPush(start, queued, pushed', before, e);
        pushed' := pushed' + [e];
      }
    }
    SeenAll(g, p, dist'.Keys);
  }

  /** The entries the inner loop of `bfs` queues from `p` over the first `k`
      directions, in direction order: each admissible neighbour that was not
      marked when the expansion began, at distance `l + 1`. */
  ghost function Fresh(g: Grid, p: Coord, l: nat, marked: set<Coord>, k: nat): seq<(Coord, nat)>
    requires k <= |MoveDirections|
    decreases k
  {
    if k == 0 then []
    else
      var q := Move(p, k - 1);
      Fresh(g, p, l, marked, k - 1) + if Admissible(g, p, q) && q !in marked then [(q, l + 1)] else []
  }

  /** After the first `k` directions from `p`, the queue is the old queue
      followed by exactly the entries of `Fresh`, and the mask has grown by
      exactly their cells. */
  ghost predicate Queues(g: Grid, p: Coord, l: nat, marked: set<Coord>, k: nat,
                         queue: seq<(Coord, nat)>, marked': set<Coord>, queue': seq<(Coord, nat)>)
    requires k <= |MoveDirections|
  {
    queue' == queue + Fresh(g, p, l, marked, k) &&
    marked' == marked + Cells(Fresh(g, p, l, marked, k))
  }

  /** The coordinates of some queue entries. */
  ghost function Cells(entries: seq<(Coord, nat)>): set<Coord>
  {
    set e | e in entries :: e.0
  }

  /** The four moves lead to four different cells. */
  lemma MovesDistinct(p: Coord, i: nat, j: nat)
    requires i < j < |MoveDirections|
    ensures Move(p, i) != Move(p, j)
  {
  }

  /** The entries of the first `k` directions name none of the later
      directions' neighbours. */
  lemma {:induction false} FreshAvoids(g: Grid, p: Coord, l: nat, marked: set<Coord>, k: nat, j: nat)
    requires k <= j < |MoveDirections|
    ensures Move(p, j) !in Cells(Fresh(g, p, l, marked, k))
    decreases k
  {
    if k > 0 {
      FreshAvoids(g, p, l, marked, k - 1, j);
      MovesDistinct(p, k - 1, j);
    }
  }

  /** One pass of the inner loop extends the queued entries and the marked
      cells by direction `k`'s entry, if any. */
  lemma FreshStep(g: Grid, p: Coord, l: nat, marked: set<Coord>, k: nat,
                  queue: seq<(Coord, nat)>, queued: seq<(Coord, nat)>, before: set<Coord>,
                  queue': seq<(Coord, nat)>, marked': set<Coord>)
    requires k < |MoveDirections|
    requires Queues(g, p, l, marked, k, queue, before, queued)
    requires Move(p, k) !in Cells(Fresh(g, p, l, marked, k))
    requires Admissible(g, p, Move(p, k)) && Move(p, k) !in before ==>
               marked' == before + {Move(p, k)} && queue' == queued + [(Move(p, k), l + 1)]
    requires !(Admissible(g, p, Move(p, k)) && Move(p, k) !in before) ==>
               marked' == before && queue' == queued
    ensures Queues(g, p, l, marked, k + 1, queue, marked', queue')
  {
    var f := Fresh(g, p, l, marked, k);
    if Admissible(g, p, Move(p, k)) && Move(p, k) !in marked {
      assert Fresh(g, p, l, marked, k + 1) == f + [(Move(p, k), l + 1)];
      assert Cells(f + [(Move(p, k), l + 1)]) == Cells(f) + {Move(p, k)};
    } else {
      assert Fresh(g, p, l, marked, k + 1) == f;
    }
  }

  /** Every admissible neighbour of `p` in the first `k` directions is in
      `keys`. */
  ghost predicate Seen(g: Grid, p: Coord, k: nat, keys: set<Coord>)
  {
    forall j :: 0 <= j < k && j < |MoveDirections| && Admissible(g, p, Move(p, j)) ==> Move(p, j) in keys
  }

  lemma SeenGrows(g: Grid, p: Coord, k: nat, keys: set<Coord>, keys': set<Coord>)
    requires k < |MoveDirections| && Seen(g, p, k, keys) && keys <= keys'
    requires Admissible(g, p, Move(p, k)) ==> Move(p, k) in keys'
    ensures Seen(g, p, k + 1, keys')
  {
  }

  lemma SeenAll(g: Grid, p: Coord, keys: set<Coord>)
    requires Seen(g, p, |MoveDirections|, keys)
    ensures Succ(g, p) <= keys
  {
  }

  /** No coordinate is queued twice among `entries`. */
  ghost predicate Once(entries: seq<(Coord, nat)>)
  {
    forall i, j :: 0 <= i < j < |entries| ==> entries[i].0 != entries[j].0
  }

  /** `queue` is what is left of `history` after popping from its front. */
  ghost predicate Tail(queue: seq<(Coord, nat)>, history: seq<(Coord, nat)>)
  {
    |queue| <= |history| && history[|history| - |queue|..] == queue
  }

  /** The log of the search: `pushed` lists the entries pushed after
      `(start, 0)`, in order. The queue is what is left of `(start, 0)`
      followed by them, no cell is pushed twice, and the pushed cells are
      exactly the marked ones. */
  ghost predicate Log(start: Coord, queue: seq<(Coord, nat)>, pushed: seq<(Coord, nat)>, marked: set<Coord>)
  {
    Tail(queue, [(start, 0)] + pushed) && Once(pushed) && Cells(pushed) == marked
  }

  /** Before the loop nothing has been pushed or marked. */
  lemma LogStart(start: Coord)
    ensures Log(start, [(start, 0)], [], {})
  {
  }

  /** Popping the front of the queue keeps the log. */
  lemma LogPop(start: Coord, queue: seq<(Coord, nat)>, pushed: seq<(Coord, nat)>, marked: set<Coord>)
    requires Log(start, queue, pushed, marked) && queue != []
    ensures Log(start, queue[1..], pushed, marked)
  {
    var history := [(start, 0)] + pushed;
    assert history[|history| - |queue[1..]|..] == history[|history| - |queue|..][1..];
  }

  /** Pushing an entry for a cell as it is marked keeps the log: the cell
      was never pushed before. */
  lemma LogPush(start: Coord, queue: seq<(Coord, nat)>, pushed: seq<(Coord, nat)>, marked: set<Coord>,
                e: (Coord, nat))
    requires Log(start, queue, pushed, marked) && e.0 !in marked
    ensures Log(start, queue + [e], pushed + [e], marked + {e.0})
  {
    var history := [(start, 0)] + pushed;
    assert [(start, 0)] + (pushed + [e]) == history + [e];
    assert (history + [e])[|history + [e]| - |queue + [e]|..] == history[|history| - |queue|..] + [e];
    assert Cells(pushed + [e]) == Cells(pushed) + {e.0};
    forall i | 0 <= i < |pushed|
      ensures pushed[i].0 != e.0
    {
      assert pushed[i] in pushed;
    }
  }

  /** The invariant of the outer loop of `bfs`: the seen cells carry their
      exact distances, expanded cells have had all their steps seen, every
      seen cell not yet expanded waits in the queue, the queue's distances
      are sorted and span at most one, every cell closer than the front has
      been seen, and `end` has not been popped. Until `start` is expanded
      the queue holds only its first entry. */
  ghost predicate Searching(g: Grid, start: Coord, end: Coord,
                            visited: map<Coord, bool>, queue: seq<(Coord, nat)>,
                            marked: set<Coord>, dist: map<Coord, nat>, done: set<Coord>)
  {
    MarksAgree(g, visited, marked) && Distances(g, start, dist, marked) &&
    Expanded(g, dist, done) && Entries(dist, done, queue) && Pending(dist, done, queue, {}) &&
    (queue != [] ==> Levels(queue, queue[0].1) && Within(g, start, queue[0].1) <= dist.Keys) &&
    end !in done &&
    (start in done || (queue == [(start, 0)] && done == {} && marked == {}))
  }

  /** The state `bfs` starts from: nothing marked, `start` queued at 0. */
  lemma SearchStarts(g: Grid, start: Coord, end: Coord)
    requires g.Contains(start) || start == end
    ensures Searching(g, start, end, map p | p in g.Coords() :: false, [(start, 0)],
                      {}, map[start := 0], {})
  {
    assert Exact(g, start, start, 0);
  }

  /** Popping `end`: the popped length is its exact distance. */
  lemma PopsEnd(g: Grid, start: Coord, end: Coord,
                visited: map<Coord, bool>, queue: seq<(Coord, nat)>,
                marked: set<Coord>, dist: map<Coord, nat>, done: set<Coord>)
    requires Searching(g, start, end, visited, queue, marked, dist, done)
    requires queue != [] && queue[0].0 == end
    ensures Exact(g, start, end, queue[0].1)
  {
    assert queue[0].0 in dist;
  }

  /** Popping any other cell starts its expansion. */
  lemma PopsOther(g: Grid, start: Coord, end: Coord,
                  visited: map<Coord, bool>, queue: seq<(Coord, nat)>,
                  marked: set<Coord>, dist: map<Coord, nat>, done: set<Coord>)
    requires g.Contains(start) || start == end
    requires Searching(g, start, end, visited, queue, marked, dist, done)
    requires start == end ==> queue == [(start, 0)]
    requires queue != [] && queue[0].0 != end
    ensures Expanding(g, start, queue[0].0, queue[0].1, visited, queue[1..], marked, dist, done)
  {
    var (p, l) := queue[0];
    assert p in dist;
    assert Pending(dist, done, queue[1..], {p}) by {
      forall x | x in dist && x !in done && x !in {p}
        ensures (x, dist[x]) in queue[1..]
      {
        assert (x, dist[x]) in queue && (x, dist[x]) != queue[0];
      }
    }
  }

  /** Expanding `p` completes a pass of the outer loop. */
  lemma Advance(g: Grid, start: Coord, end: Coord, p: Coord, l: nat,
                visited: map<Coord, bool>, queue: seq<(Coord, nat)>,
                marked: set<Coord>, dist: map<Coord, nat>, done: set<Coord>)
    requires Expanding(g, start, p, l, visited, queue, marked, dist, done)
    requires Succ(g, p) <= dist.Keys && p != end && end !in done
    ensures marked <= g.Coords()
    ensures Searching(g, start, end, visited, queue, marked, dist, done + {p})
  {
    AdvanceSeen(g, start, p, l, visited, queue, marked, dist, done);
    AdvanceFront(g, start, p, l, visited, queue, marked, dist, done);
  }

  /** After expanding `p`, `p` joins the expanded cells and leaves the
      pending ones. */
  lemma AdvanceSeen(g: Grid, start: Coord, p: Coord, l: nat,
                    visited: map<Coord, bool>, queue: seq<(Coord, nat)>,
                    marked: set<Coord>, dist: map<Coord, nat>, done: set<Coord>)
    requires Expanding(g, start, p, l, visited, queue, marked, dist, done)
    requires Succ(g, p) <= dist.Keys
    ensures marked <= g.Coords() && start in done + {p}
    ensures Expanded(g, dist, done + {p}) && Entries(dist, done + {p}, queue)
    ensures Pending(dist, done + {p}, queue, {})
  {
  }

  /** After expanding `p`, every cell closer than the new front has been
      seen. */
  lemma AdvanceFront(g: Grid, start: Coord, p: Coord, l: nat,
                     visited: map<Coord, bool>, queue: seq<(Coord, nat)>,
                     marked: set<Coord>, dist: map<Coord, nat>, done: set<Coord>)
    requires Expanding(g, start, p, l, visited, queue, marked, dist, done)
    requires Succ(g, p) <= dist.Keys
    ensures queue != [] ==> Levels(queue, queue[0].1) && Within(g, start, queue[0].1) <= dist.Keys
  {
    if queue != [] && queue[0].1 != l {
      AdvanceLevel(g, start, p, l, visited, queue, marked, dist, done);
    }
  }

  /** The front of the queue moves from `l` to `l + 1` once `p` has been
      expanded. */
  lemma AdvanceLevel(g: Grid, start: Coord, p: Coord, l: nat,
                     visited: map<Coord, bool>, queue: seq<(Coord, nat)>,
                     marked: set<Coord>, dist: map<Coord, nat>, done: set<Coord>)
    requires Expanding(g, start, p, l, visited, queue, marked, dist, done)
    requires Succ(g, p) <= dist.Keys
    requires queue != [] && queue[0].1 != l
    ensures queue[0].1 == l + 1 && Levels(queue, l + 1)
    ensures Within(g, start, l + 1) <= dist.Keys
  {
    AdvanceSeen(g, start, p, l, visited, queue, marked, dist, done);
    assert forall i :: 0 <= i < |queue| ==> queue[i].1 > l;
    FrontAdvances(g, start, l, marked, dist, done + {p}, queue);
  }

  /** Once every queued distance exceeds `l`, every cell within `l` steps has
      been expanded, so every cell within `l + 1` steps has been seen. */
  lemma FrontAdvances(g: Grid, start: Coord, l: nat, marked: set<Coord>, dist: map<Coord, nat>,
                      done: set<Coord>, queue: seq<(Coord, nat)>)
    requires Within(g, start, l) <= dist.Keys
    requires Distances(g, start, dist, marked) && Expanded(g, dist, done) && Pending(dist, done, queue, {})
    requires forall i :: 0 <= i < |queue| ==> queue[i].1 > l
    ensures Within(g, start, l + 1) <= dist.Keys
  {
    forall y | y in Within(g, start, l)
      ensures y in done
    {
      assert Exact(g, start, y, dist[y]);
      if y !in done {
        assert false;
      }
    }
    forall z | z in Within(g, start, l + 1)
      ensures z in dist
    {
      if z !in Within(g, start, l) {
        var y :| y in Within(g, start, l) && z in Succ(g, y);
      }
    }
  }

  /** A dry queue: every seen cell is expanded, so no layer reaches `end`. */
  lemma Exhausted(g: Grid, start: Coord, end: Coord,
                  visited: map<Coord, bool>, marked: set<Coord>, dist: map<Coord, nat>, done: set<Coord>)
    requires Searching(g, start, end, visited, [], marked, dist, done)
    ensures forall k: nat :: end !in Within(g, start, k)
  {
    forall k: nat
      ensures Within(g, start, k) <= done
    {
      ClosedHoldsWithin(g, start, done, k);
    }
  }

  /** Marking at least one more cell of the grid leaves fewer unmarked
      cells: the outer loop of `bfs` terminates. */
  lemma MarkingShrinks(g: Grid, marked0: set<Coord>, marked: set<Coord>)
    requires marked0 <= marked <= g.Coords() && marked != marked0
    ensures g.Coords() - marked < g.Coords() - marked0
  {
    var x :| x in marked && x !in marked0;
    assert x in g.Coords() - marked0;
  }

  /** `bfs`: pops (coordinate, path length) pairs off the front of a FIFO
      queue, answers as soon as it pops `end`, and otherwise queues every
      neighbour the step rule admits that is not yet marked, marking it.
      `start` is not marked up front. The answer is the least number of
      admissible steps from `start` to `end`, or `None` when no number of
      steps reaches `end`. `start` must be in the grid unless it is `end`:
      the search reads its value. */
  method Search(g: Grid, start: Coord, end: Coord) returns (r: Option<nat>)
    requires g.Contains(start) || start == end
    ensures start == end ==> r == Some(0)
    ensures r.Some? ==> Exact(g, start, end, r.value)
    ensures r.None? ==> forall k: nat :: end !in Within(g, start, k)
  {
    var visited := map p | p in g.Coords() :: false;
    var queue: seq<(Coord, nat)> := [(start, 0)];
    ghost var marked: set<Coord> := {};
    ghost var dist: map<Coord, nat> := map[start := 0];
    ghost var done: set<Coord> := {};
    ghost var pushed: seq<(Coord, nat)> := [];
    SearchStarts(g, start, end);
    LogStart(start);
    while queue != []
      invariant Searching(g, start, end, visited, queue, marked, dist, done)
      invariant start == end ==> queue == [(start, 0)]
      invariant Log(start, queue, pushed, marked)
      decreases g.Coords() - marked, |queue|
    {
      ghost var popped := queue;
      var (p, l) := queue[0];
      LogPop(start, queue, pushed, marked);
      queue := queue[1..];
      if p == end {
        PopsEnd(g, start, end, visited, popped, marked, dist, done);
        return Some(l);
      }
      PopsOther(g, start, end, visited, popped, marked, dist, done);
      ghost var marked0 := marked;
      visited, queue, marked, dist, pushed := Expand(g, start, p, l, visited, queue, marked, dist, done, pushed);
      Advance(g, start, end, p, l, visited, queue, marked, dist, done);
      done := done + {p};
      if marked != marked0 {
        MarkingShrinks(g, marked0, marked);
      }
    }
    Exhausted(g, start, end, visited, marked, dist, done);
    return None;
  }

  // ---------------------------------------------------------------------
  // The unit test
  // ---------------------------------------------------------------------

  /** The 6x6 grid of `it_can_find_shortest_path`, row by row. */
  const FixtureRows: seq<seq<int>> := [
    [0, 1, 1, 1, 1, 1],
    [0, 0, 0, 1, 1, 1],
    [0, 1, 0, 1, 1, 1],
    [0, 0, 1, 1, 1, 1],
    [1, 0, 0, 1, 1, 1],
    [1, 0, 0, 0, 1, 1]
  ]

  function FixtureGrid(): (g: Grid)
    ensures g.top == 0 && g.left == 0 && g.height == 6 && g.width == 6
  {
    Grid(0, 0, 6, 6, (p: Coord) => if 0 <= p.0 < 6 && 0 <= p.1 < 6 then FixtureRows[p.0][p.1] else 0)
  }

  /** An admissible move from a cell of layer `n` lands in layer `n + 1`. */
  lemma MoveWithin(g: Grid, start: Coord, n: nat, p: Coord, k: nat)
    requires p in Within(g, start, n)
    requires k < |MoveDirections| && Admissible(g, p, Move(p, k))
    ensures Move(p, k) in Within(g, start, n + 1)
  {
    assert Move(p, k) in Succ(g, p);
    assert Move(p, k) in Next(g, Within(g, start, n));
  }

  /** Where the moves `moves[i..]` lead from `p`, as long as each is
      admissible; `None` once one is not. */
  function Walk(g: Grid, p: Coord, moves: seq<nat>, i: nat): Option<Coord>
    requires i <= |moves|
    decreases |moves| - i
  {
    if i == |moves| then Some(p)
    else if moves[i] < |MoveDirections| && Admissible(g, p, Move(p, moves[i])) then
      Walk(g, Move(p, moves[i]), moves, i + 1)
    else None
  }

  /** A walk of admissible moves from a cell of layer `n` ends in the layer
      as many moves further out. */
  lemma {:induction false} WalkWithin(g: Grid, start: Coord, n: nat, p: Coord, moves: seq<nat>, i: nat, e: Coord, m: nat)
    requires i <= |moves| && p in Within(g, start, n)
    requires Walk(g, p, moves, i) == Some(e) && m == n + |moves| - i
    ensures e in Within(g, start, m)
    decreases |moves| - i
  {
    if i == |moves| {
      assert e == p;
    } else {
      MoveWithin(g, start, n, p, moves[i]);
      WalkWithin(g, start, n + 1, Move(p, moves[i]), moves, i + 1, e, m);
    }
  }

  /** The moves of the test walk: down three, right one, down two, right two. */
  const FixtureMoves: seq<nat> := [0, 0, 0, 2, 0, 0, 2, 2]

  /** The last two moves of the test walk lead from (5, 1) to (5, 3). */
  lemma FixtureWalkFrom6()
    ensures Walk(FixtureGrid(), (5, 1), FixtureMoves, 6) == Some((5, 3))
  {
    assert Walk(FixtureGrid(), (5, 2), FixtureMoves, 7) == Some((5, 3));
  }

  /** The last four moves of the test walk lead from (3, 1) to (5, 3). */
  lemma FixtureWalkFrom4()
    ensures Walk(FixtureGrid(), (3, 1), FixtureMoves, 4) == Some((5, 3))
  {
    FixtureWalkFrom6();
    assert Walk(FixtureGrid(), (4, 1), FixtureMoves, 5) == Some((5, 3));
  }

  /** The last six moves of the test walk lead from (2, 0) to (5, 3). */
  lemma FixtureWalkFrom2()
    ensures Walk(FixtureGrid(), (2, 0), FixtureMoves, 2) == Some((5, 3))
  {
    FixtureWalkFrom4();
    assert Walk(FixtureGrid(), (3, 0), FixtureMoves, 3) == Some((5, 3));
  }

  /** The whole test walk leads from (0, 0) to (5, 3). */
  lemma FixtureWalk()
    ensures Walk(FixtureGrid(), (0, 0), FixtureMoves, 0) == Some((5, 3))
  {
    FixtureWalkFrom2();
    assert Walk(FixtureGrid(), (1, 0), FixtureMoves, 1) == Some((5, 3));
  }

  /** In the test grid (5, 3) is within eight admissible steps of (0, 0). */
  lemma FixtureReachable()
    ensures (5, 3) in Within(FixtureGrid(), (0, 0), 8)
  {
    FixtureWalk();
    WalkWithin(FixtureGrid(), (0, 0), 0, (0, 0), FixtureMoves, 0, (5, 3), 8);
  }

  /** No walk from (0, 0) to (5, 3) is shorter than their Manhattan distance,
      eight, so eight steps is the exact distance. */
  lemma FixtureDistance()
    ensures forall n: nat :: Exact(FixtureGrid(), (0, 0), (5, 3), n) <==> n == 8
  {
    var g := FixtureGrid();
    FixtureReachable();
    forall n: nat | Exact(g, (0, 0), (5, 3), n)
      ensures n == 8
    {
      WithinManhattan(g, (0, 0), n, (5, 3));
    }
    forall k: nat | k < 8
      ensures (5, 3) !in Within(g, (0, 0), k)
    {
      if (5, 3) in Within(g, (0, 0), k) {
        WithinManhattan(g, (0, 0), k, (5, 3));
      }
    }
    assert Exact(g, (0, 0), (5, 3), 8);
  }

  /** `it_can_find_shortest_path`: from (0, 0) to (5, 3) on the test grid
      the search answers 8. */
  method ShortestPathFixture() returns (r: Option<nat>)
    ensures r == Some(8)
  {
    r := Search(FixtureGrid(), (0, 0), (5, 3));
    FixtureDistance();
    assert Exact(FixtureGrid(), (0, 0), (5, 3), 8);
  }
}
