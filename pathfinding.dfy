/** Goal cells and the two breadth-first searches (pathfinding.py): whether a pawn can
    reach its goal side at all, and in how many orthogonal steps, ignoring other pawns. */
module Pathfinding {
  import opened Wrappers
  import opened GameState
  import opened Movement

  /** The neighbours `neighbors` returns after scanning the first k directions. */
  function NeighborsUpTo(b: Board, x: Cell, k: nat): seq<Cell>
    requires b.Valid() && k <= 4
  {
    if k == 0 then []
    else
      var y := Shift(x, Directions[k - 1]);
      NeighborsUpTo(b, x, k - 1) + (if InBounds(b.size, y) && !IsBlockedBetween(b, x, y) then [y] else [])
  }

  function NeighborList(b: Board, x: Cell): seq<Cell>
    requires b.Valid()
  {
    NeighborsUpTo(b, x, 4)
  }

  /** The neighbours of x are exactly the cells a pawn on x can step to through an open edge. */
  lemma NeighborListExact(b: Board, x: Cell)
    requires b.Valid()
    ensures forall y :: y in NeighborList(b, x) <==> Open(b, x, y)
  {
    var d0, d1, d2, d3 := Shift(x, Directions[0]), Shift(x, Directions[1]), Shift(x, Directions[2]), Shift(x, Directions[3]);
    assert NeighborsUpTo(b, x, 1) == (if Open(b, x, d0) then [d0] else []);
    assert NeighborsUpTo(b, x, 2) == NeighborsUpTo(b, x, 1) + (if Open(b, x, d1) then [d1] else []);
    assert NeighborsUpTo(b, x, 3) == NeighborsUpTo(b, x, 2) + (if Open(b, x, d2) then [d2] else []);
    assert NeighborList(b, x) == NeighborsUpTo(b, x, 3) + (if Open(b, x, d3) then [d3] else []);
    forall y | Open(b, x, y) ensures y == d0 || y == d1 || y == d2 || y == d3 {
      BlockedIff(b, x, y);
    }
  }

  lemma NeighborIsOpen(b: Board, x: Cell, y: Cell)
    requires b.Valid() && y in NeighborList(b, x)
    ensures Open(b, x, y)
  {
    NeighborListExact(b, x);
  }

  /** neighbors: the orthogonal cells on the board that no wall separates from (r, c). */
  method Neighbors(gs: GameState, r: int, c: int) returns (results: seq<Cell>)
    requires gs.Valid()
    ensures results == NeighborList(gs.Walls(), Cell(r, c))
  {
    var b := gs.Walls();
    results := [];
    for i := 0 to 4
      invariant results == NeighborsUpTo(b, Cell(r, c), i)
    {
      var next := Shift(Cell(r, c), Directions[i]);
      if 0 <= next.row < gs.boardSize && 0 <= next.col < gs.boardSize {
        if !IsBlockedBetween(b, Cell(r, c), next) {
          results := results + [next];
        }
      }
    }
  }

  /** get_goal_cells: P1 the bottom row, P2 the top row, and with four players P3 the right
      column and P4 the left column; nothing for any other player or player count. */
  function GoalCells(n: int, playerCount: int, player: int): (goals: seq<Cell>)
    ensures forall i :: 0 <= i < |goals| ==> InBounds(n, goals[i]) && OnGoalSide(n, playerCount, player, goals[i])
    ensures forall i, j :: 0 <= i < j < |goals| ==> goals[i] != goals[j]
  {
    var line := if n > 0 then n else 0;
    if (playerCount == 2 || playerCount == 4) && player == 1 then seq(line, col => Cell(n - 1, col))
    else if (playerCount == 2 || playerCount == 4) && player == 2 then seq(line, col => Cell(0, col))
    else if playerCount == 4 && player == 3 then seq(line, row => Cell(row, n - 1))
    else if playerCount == 4 && player == 4 then seq(line, row => Cell(row, 0))
    else []
  }

  /** Whether x lies on the goal side of `player`, as get_goal_cells describes it. */
  predicate OnGoalSide(n: int, playerCount: int, player: int, x: Cell) {
    if playerCount != 2 && playerCount != 4 then false
    else if player == 1 then x.row == n - 1
    else if player == 2 then x.row == 0
    else if player == 3 then playerCount == 4 && x.col == n - 1
    else if player == 4 then playerCount == 4 && x.col == 0
    else false
  }

  /** The goal cells are exactly the cells of the board on the player's goal side. */
  lemma GoalCellsExact(n: int, playerCount: int, player: int, x: Cell)
    ensures x in GoalCells(n, playerCount, player) <==> InBounds(n, x) && OnGoalSide(n, playerCount, player, x)
  {
    var g := GoalCells(n, playerCount, player);
    if InBounds(n, x) && OnGoalSide(n, playerCount, player, x) {
      var i := if player <= 2 then x.col else x.row;
      assert g[i] == x;
    }
  }

  /** The cells of an N x N board. */
  ghost function AllCells(n: int): set<Cell> {
    set r, c | 0 <= r < n && 0 <= c < n :: Cell(r, c)
  }

  lemma InAllCells(n: int, x: Cell)
    requires InBounds(n, x)
    ensures x in AllCells(n)
  {
    assert x == Cell(x.row, x.col);
  }

  /** x can be reached from s in at most k steps between neighbouring cells. */
  ghost predicate Within(b: Board, s: Cell, x: Cell, k: nat)
    requires b.Valid()
    decreases k
  {
    x == s || (k > 0 && exists y :: Within(b, s, y, k - 1) && Open(b, y, x))
  }

  ghost predicate Reachable(b: Board, s: Cell, x: Cell)
    requires b.Valid()
  {
    exists k: nat :: Within(b, s, x, k)
  }

  ghost predicate GoalWithin(b: Board, s: Cell, goals: seq<Cell>, k: nat)
    requires b.Valid()
  {
    exists y :: y in goals && Within(b, s, y, k)
  }

  /** Some goal cell can be reached from s. */
  ghost predicate GoalReachable(b: Board, s: Cell, goals: seq<Cell>)
    requires b.Valid()
  {
    exists k: nat :: GoalWithin(b, s, goals, k)
  }

  /** A search distance; Inf stands for the source's float('inf'). */
  datatype Dist = Fin(steps: nat) | Inf

  /** Python's `<` on an int-or-infinity distance. */
  predicate Less(x: Dist, y: Dist) {
    match (x, y)
    case (Fin(i), Fin(j)) => i < j
    case (Fin(_), Inf) => true
    case (Inf, _) => false
  }

  predicate AtMost(x: Dist, y: Dist) {
    !Less(y, x)
  }

  /** d is the number of steps of a shortest route from s to a goal cell, or Inf if none. */
  ghost predicate IsDistance(b: Board, s: Cell, goals: seq<Cell>, d: Dist)
    requires b.Valid()
  {
    match d
    case Fin(k) => GoalWithin(b, s, goals, k) && forall j: nat :: j < k ==> !GoalWithin(b, s, goals, j)
    case Inf => !GoalReachable(b, s, goals)
  }

  ghost function FirstWithin(b: Board, s: Cell, goals: seq<Cell>, i: nat, k: nat): (j: nat)
    requires b.Valid() && i <= k && GoalWithin(b, s, goals, k)
    requires forall t: nat :: t < i ==> !GoalWithin(b, s, goals, t)
    ensures GoalWithin(b, s, goals, j) && forall t: nat :: t < j ==> !GoalWithin(b, s, goals, t)
    decreases k - i
  {
    if GoalWithin(b, s, goals, i) then i else FirstWithin(b, s, goals, i + 1, k)
  }

  /** The shortest route length from s to the goal cells. */
  ghost function Distance(b: Board, s: Cell, goals: seq<Cell>): (d: Dist)
    requires b.Valid()
    ensures IsDistance(b, s, goals, d)
  {
    if GoalReachable(b, s, goals) then
      var k: nat :| GoalWithin(b, s, goals, k);
      Fin(FirstWithin(b, s, goals, 0, k))
    else Inf
  }

  lemma DistanceUnique(b: Board, s: Cell, goals: seq<Cell>, d: Dist)
    requires b.Valid() && IsDistance(b, s, goals, d)
    ensures d == Distance(b, s, goals)
  {
    var e := Distance(b, s, goals);
  }

  /** The distance is zero exactly when the pawn already stands on a goal cell, and finite
      exactly when a goal cell is reachable. */
  lemma DistanceZeroIffOnGoal(b: Board, s: Cell, goals: seq<Cell>)
    requires b.Valid()
    ensures Distance(b, s, goals) == Fin(0) <==> s in goals
    ensures Distance(b, s, goals).Fin? <==> GoalReachable(b, s, goals)
  {
    if s in goals {
      assert Within(b, s, s, 0);
      assert GoalWithin(b, s, goals, 0);
      DistanceUnique(b, s, goals, Fin(0));
    }
    if Distance(b, s, goals) == Fin(0) {
      var y :| y in goals && Within(b, s, y, 0);
    }
  }

  /** A route of k steps changes row and column by at most k each. */
  lemma {:induction false} WithinBound(b: Board, s: Cell, x: Cell, k: nat)
    requires b.Valid() && Within(b, s, x, k)
    ensures Abs(x.row - s.row) <= k && Abs(x.col - s.col) <= k
    decreases k
  {
    if x != s {
      var y :| Within(b, s, y, k - 1) && Open(b, y, x);
      WithinBound(b, s, y, k - 1);
      assert Manhattan(y, x) == 1 by {
        assert !IsBlockedBetween(b, y, x);
      }
    }
  }

  /** A pawn needs at least as many steps as rows separate it from its goal row. */
  lemma DistanceAtLeastRowGap(b: Board, s: Cell, playerCount: int)
    requires b.Valid() && (playerCount == 2 || playerCount == 4) && InBounds(b.size, s)
    ensures Distance(b, s, GoalCells(b.size, playerCount, 1)).Fin? ==>
      Distance(b, s, GoalCells(b.size, playerCount, 1)).steps >= b.size - 1 - s.row
    ensures Distance(b, s, GoalCells(b.size, playerCount, 2)).Fin? ==>
      Distance(b, s, GoalCells(b.size, playerCount, 2)).steps >= s.row
  {
    var d1 := Distance(b, s, GoalCells(b.size, playerCount, 1));
    if d1.Fin? {
      var y :| y in GoalCells(b.size, playerCount, 1) && Within(b, s, y, d1.steps);
      GoalCellsExact(b.size, playerCount, 1, y);
      WithinBound(b, s, y, d1.steps);
    }
    var d2 := Distance(b, s, GoalCells(b.size, playerCount, 2));
    if d2.Fin? {
      var y :| y in GoalCells(b.size, playerCount, 2) && Within(b, s, y, d2.steps);
      GoalCellsExact(b.size, playerCount, 2, y);
      WithinBound(b, s, y, d2.steps);
    }
  }

  /** Adding a wall never opens a route: whatever is reachable after placing w was
      reachable before. */
  lemma {:induction false} WithinAfterPlace(b: Board, w: Wall, s: Cell, x: Cell, k: nat)
    requires b.Valid() && InRange(b.size, w) && Within(Place(b, w), s, x, k)
    ensures Within(b, s, x, k)
    decreases k
  {
    if x != s {
      var b' := Place(b, w);
      var y :| Within(b', s, y, k - 1) && Open(b', y, x);
      WithinAfterPlace(b, w, s, y, k - 1);
      BlockedAfterPlace(b, w, y, x);
      assert Open(b, y, x);
    }
  }

  /** Walls only lengthen routes: the distance after placing w is at least the distance
      before, and a goal reachable afterwards was reachable before. */
  lemma WallsOnlyLengthen(b: Board, w: Wall, s: Cell, goals: seq<Cell>)
    requires b.Valid() && InRange(b.size, w)
    ensures AtMost(Distance(b, s, goals), Distance(Place(b, w), s, goals))
    ensures GoalReachable(Place(b, w), s, goals) ==> GoalReachable(b, s, goals)
  {
    var b' := Place(b, w);
    var after := Distance(b', s, goals);
    if after.Fin? {
      var y :| y in goals && Within(b', s, y, after.steps);
      WithinAfterPlace(b, w, s, y, after.steps);
      assert GoalWithin(b, s, goals, after.steps);
    }
  }

  lemma WithinStep(b: Board, s: Cell, x: Cell, y: Cell, k: nat)
    requires b.Valid() && Within(b, s, x, k) && Open(b, x, y)
    ensures Within(b, s, y, k + 1)
  {
  }

  /** A set containing s and every open neighbour of its members holds everything reachable from s. */
  lemma {:induction false} ClosedHoldsReachable(b: Board, s: Cell, closed: set<Cell>, x: Cell, k: nat)
    requires b.Valid() && s in closed && Within(b, s, x, k)
    requires forall z, y :: z in closed && Open(b, z, y) ==> y in closed
    ensures x in closed
    decreases k
  {
    if x != s {
      var y :| Within(b, s, y, k - 1) && Open(b, y, x);
      ClosedHoldsReachable(b, s, closed, y, k - 1);
    }
  }

  lemma RemoveOne(all: set<Cell>, visited: set<Cell>, y: Cell)
    requires y in all && y !in visited
    ensures |all - (visited + {y})| == |all - visited| - 1
  {
    assert all - visited == (all - (visited + {y})) + {y};
  }

  /** The inner loop of exists_path_to_goal: queue every unvisited neighbour of x and mark
      it visited. */
  method VisitNeighbors(gs: GameState, start: Cell, x: Cell, queue: seq<Cell>, visited: set<Cell>)
    returns (queue': seq<Cell>, visited': set<Cell>)
    requires gs.Valid() && Reachable(gs.Walls(), start, x)
    requires visited <= AllCells(gs.boardSize)
    requires forall i :: 0 <= i < |queue| ==> Reachable(gs.Walls(), start, queue[i])
    ensures visited <= visited' <= AllCells(gs.boardSize)
    ensures |queue| <= |queue'| && queue'[..|queue|] == queue
    ensures forall i :: 0 <= i < |queue'| ==> Reachable(gs.Walls(), start, queue'[i])
    ensures forall y :: y in visited' ==> y in visited || y in queue'
    ensures forall y :: y in queue ==> y in queue'
    ensures forall y :: Open(gs.Walls(), x, y) ==> y in visited'
    ensures 2 * |AllCells(gs.boardSize) - visited'| + |queue'| <= 2 * |AllCells(gs.boardSize) - visited| + |queue|
  {
    var b := gs.Walls();
    ghost var k: nat :| Within(b, start, x, k);
    var nbrs := Neighbors(gs, x.row, x.col);
    NeighborListExact(b, x);
    forall i | 0 <= i < |nbrs| ensures InBounds(b.size, nbrs[i]) {
      assert Open(b, x, nbrs[i]);
    }
    queue', visited' := VisitAll(b, nbrs, queue, visited);
    QueuedReachable(b, start, x, k, nbrs, queue, queue');
  }

  /** Cells queued from the open neighbours of a reachable cell are reachable. */
  lemma QueuedReachable(b: Board, start: Cell, x: Cell, k: nat, nbrs: seq<Cell>, queue: seq<Cell>, queue': seq<Cell>)
    requires b.Valid() && Within(b, start, x, k)
    requires forall i :: 0 <= i < |nbrs| ==> Open(b, x, nbrs[i])
    requires forall i :: 0 <= i < |queue| ==> Reachable(b, start, queue[i])
    requires |queue| <= |queue'| && queue'[..|queue|] == queue
    requires forall i :: |queue| <= i < |queue'| ==> queue'[i] in nbrs
    ensures forall i :: 0 <= i < |queue'| ==> Reachable(b, start, queue'[i])
  {
    forall i | 0 <= i < |queue'| ensures Reachable(b, start, queue'[i]) {
      if i < |queue| {
        assert queue'[i] == queue[i];
      } else {
        WithinStep(b, start, x, queue'[i], k);
      }
    }
  }

  /** The inner loop over the neighbour list: each unvisited neighbour is marked visited
      and queued, in list order. */
  method VisitAll(b: Board, nbrs: seq<Cell>, queue: seq<Cell>, visited: set<Cell>)
    returns (queue': seq<Cell>, visited': set<Cell>)
    requires b.Valid() && visited <= AllCells(b.size)
    requires forall i :: 0 <= i < |nbrs| ==> InBounds(b.size, nbrs[i])
    ensures visited <= visited' <= AllCells(b.size)
    ensures |queue| <= |queue'| && queue'[..|queue|] == queue
    ensures forall i :: |queue| <= i < |queue'| ==> queue'[i] in nbrs
    ensures forall y :: y in visited' ==> y in visited || y in queue'
    ensures forall i :: 0 <= i < |nbrs| ==> nbrs[i] in visited'
    ensures 2 * |AllCells(b.size) - visited'| + |queue'| <= 2 * |AllCells(b.size) - visited| + |queue|
  {
    queue', visited' := queue, visited;
    ghost var extra: seq<Cell> := [];
    for j := 0 to |nbrs|
      invariant visited <= visited' <= AllCells(b.size)
      invariant queue' == queue + extra
      invariant forall i :: 0 <= i < |extra| ==> extra[i] in nbrs
      invariant forall y :: y in visited' ==> y in visited || y in extra
      invariant forall t :: 0 <= t < j ==> nbrs[t] in visited'
      invariant 2 * |AllCells(b.size) - visited'| + |queue'| <= 2 * |AllCells(b.size) - visited| + |queue|
    {
      var y := nbrs[j];
      if y !in visited' {
        extra := extra + [y];
      }
      queue', visited' := VisitOne(b, y, queue', visited');
    }
    assert queue'[..|queue|] == queue;
    forall i | |queue| <= i < |queue'| ensures queue'[i] in nbrs {
      assert queue'[i] == extra[i - |queue|];
    }
  }

  /** One pass of the inner loop: an unvisited neighbour y is marked visited and queued. */
  method VisitOne(b: Board, y: Cell, queue: seq<Cell>, visited: set<Cell>)
    returns (queue': seq<Cell>, visited': set<Cell>)
    requires b.Valid() && InBounds(b.size, y) && visited <= AllCells(b.size)
    ensures visited' == visited + {y} && visited' <= AllCells(b.size)
    ensures queue' == if y in visited then queue else queue + [y]
    ensures 2 * |AllCells(b.size) - visited'| + |queue'| <= 2 * |AllCells(b.size) - visited| + |queue|
  {
    queue', visited' := queue, visited;
    if y !in visited {
      InAllCells(b.size, y);
      RemoveOne(AllCells(b.size), visited, y);
      visited' := visited + {y};
      queue' := queue + [y];
    }
  }

  /** exists_path_to_goal: breadth-first search from the pawn; true exactly when one of the
      player's goal cells is reachable through open edges. */
  method ExistsPathToGoal(gs: GameState, player: int) returns (found: bool)
    requires gs.Valid() && player in gs.positions
    ensures found == GoalReachable(gs.Walls(), gs.positions[player], GoalCells(gs.boardSize, gs.playerCount, player))
  {
    var b := gs.Walls();
    var start := gs.positions[player];
    var goals := GoalCells(gs.boardSize, gs.playerCount, player);
    var visited: set<Cell> := {};
    var queue: seq<Cell> := [start];
    ghost var done: set<Cell> := {};
    assert Within(b, start, start, 0);
    while |queue| > 0
      invariant visited <= AllCells(b.size)
      invariant forall i :: 0 <= i < |queue| ==> Reachable(b, start, queue[i])
      invariant start in done || start in queue
      invariant forall y :: y in visited ==> y in done || y in queue
      invariant forall y :: y in done ==> y !in goals
      invariant forall z, y :: z in done && Open(b, z, y) ==> y in visited
      decreases 2 * |AllCells(b.size) - visited| + |queue|
    {
      var x := queue[0];
      queue := queue[1..];
      ghost var k: nat :| Within(b, start, x, k);
      if x in goals {
        assert GoalWithin(b, start, goals, k);
        return true;
      }
      queue, visited := VisitNeighbors(gs, start, x, queue, visited);
      done := done + {x};
    }
    found := false;
    forall k: nat | GoalWithin(b, start, goals, k) ensures false {
      var y :| y in goals && Within(b, start, y, k);
      ClosedHoldsReachable(b, start, done, y, k);
    }
  }

  /** Every queued entry (x, d) is reachable from s within d steps, and unless x was
      already expanded, not in fewer. */
  ghost predicate QueueOk(b: Board, s: Cell, queue: seq<(Cell, nat)>, level: nat, done: set<Cell>)
    requires b.Valid()
  {
    (forall i :: 0 <= i < |queue| ==> level <= queue[i].1 <= level + 1) &&
    (forall i, j :: 0 <= i < j < |queue| ==> queue[i].1 <= queue[j].1) &&
    (forall i :: 0 <= i < |queue| ==> Within(b, s, queue[i].0, queue[i].1)) &&
    (forall i :: 0 <= i < |queue| ==> queue[i].0 in done || forall k: nat :: k < queue[i].1 ==> !Within(b, s, queue[i].0, k))
  }

  predicate Queued(queue: seq<(Cell, nat)>, y: Cell) {
    exists i :: 0 <= i < |queue| && queue[i].0 == y
  }

  /** Every cell reachable in fewer than `level` steps has been expanded. */
  ghost predicate LayersDone(b: Board, s: Cell, level: nat, done: set<Cell>)
    requires b.Valid()
  {
    forall y, k: nat :: k < level && Within(b, s, y, k) ==> y in done
  }

  /** Expanded cells have every open neighbour marked visited. */
  ghost predicate Expanded(b: Board, done: set<Cell>, visited: set<Cell>)
    requires b.Valid()
  {
    forall z, y :: z in done && Open(b, z, y) ==> y in visited
  }

  /** Every cell reachable in at most `level` steps has been seen (is the start or visited). */
  lemma SeenUpToLevel(b: Board, s: Cell, level: nat, done: set<Cell>, visited: set<Cell>, y: Cell, k: nat)
    requires b.Valid() && LayersDone(b, s, level, done) && Expanded(b, done, visited)
    requires k <= level && Within(b, s, y, k)
    ensures y == s || y in visited
  {
    if y != s {
      var z :| Within(b, s, z, k - 1) && Open(b, z, y);
    }
  }

  /** Popping the head (x, d) of the queue: everything reachable in fewer than d steps is
      x or already expanded. */
  lemma AdvanceLevel(b: Board, s: Cell, queue: seq<(Cell, nat)>, level: nat, done: set<Cell>, visited: set<Cell>)
    requires b.Valid() && |queue| > 0
    requires QueueOk(b, s, queue, level, done) && LayersDone(b, s, level, done) && Expanded(b, done, visited)
    requires s in done || Queued(queue, s)
    requires forall y :: y in visited ==> y in done || Queued(queue, y)
    ensures LayersDone(b, s, queue[0].1, done + {queue[0].0})
    ensures QueueOk(b, s, queue[1..], queue[0].1, done + {queue[0].0})
  {
    var x, d := queue[0].0, queue[0].1;
    var done' := done + {x};
    forall y, k: nat | k < d && Within(b, s, y, k) ensures y in done' {
      if k >= level {
        assert k == level && d == level + 1;
        SeenUpToLevel(b, s, level, done, visited, y, k);
      }
    }
  }

  /** The state of shortest_path_length at the head of its loop. */
  ghost predicate SearchOk(b: Board, s: Cell, goals: seq<Cell>, queue: seq<(Cell, nat)>, level: nat,
                           done: set<Cell>, visited: set<Cell>)
    requires b.Valid()
  {
    visited <= AllCells(b.size) &&
    QueueOk(b, s, queue, level, done) && LayersDone(b, s, level, done) && Expanded(b, done, visited) &&
    (done == {} ==> queue == [(s, 0)] && visited == {}) &&
    (done != {} ==> s in done) &&
    (forall y :: y in visited ==> y in done || Queued(queue, y)) &&
    (forall y :: y in done ==> y !in goals)
  }

  /** The state while the popped cell x, reached in d steps, has its neighbours queued. */
  ghost predicate ExpandOk(b: Board, s: Cell, queue: seq<(Cell, nat)>, d: nat, x: Cell,
                           done: set<Cell>, visited: set<Cell>)
    requires b.Valid()
  {
    visited <= AllCells(b.size) &&
    QueueOk(b, s, queue, d, done + {x}) && LayersDone(b, s, d, done + {x}) && Expanded(b, done, visited) &&
    Within(b, s, x, d) && (x in done || forall k: nat :: k < d ==> !Within(b, s, x, k)) &&
    s in done + {x} &&
    (forall y :: y in visited ==> y in done || y == x || Queued(queue, y))
  }

  lemma PopHead(b: Board, s: Cell, goals: seq<Cell>, queue: seq<(Cell, nat)>, level: nat,
                done: set<Cell>, visited: set<Cell>)
    requires b.Valid() && |queue| > 0 && SearchOk(b, s, goals, queue, level, done, visited)
    ensures ExpandOk(b, s, queue[1..], queue[0].1, queue[0].0, done, visited)
  {
    if done == {} {
      assert queue[0].0 == s;
    }
    AdvanceLevel(b, s, queue, level, done, visited);
    forall y | y in visited && y != queue[0].0 && y !in done ensures Queued(queue[1..], y) {
      var i :| 0 <= i < |queue| && queue[i].0 == y;
      assert queue[1..][i - 1] == queue[i];
    }
  }

  /** A goal cell at the head of the queue is at exactly its queued distance. */
  lemma FoundGoal(b: Board, s: Cell, goals: seq<Cell>, queue: seq<(Cell, nat)>, d: nat, x: Cell,
                  done: set<Cell>, visited: set<Cell>)
    requires b.Valid() && ExpandOk(b, s, queue, d, x, done, visited)
    requires x in goals && forall y :: y in done ==> y !in goals
    ensures IsDistance(b, s, goals, Fin(d))
  {
    assert GoalWithin(b, s, goals, d);
  }

  /** Once all neighbours of x are visited, x joins the expanded cells. */
  lemma FinishExpand(b: Board, s: Cell, goals: seq<Cell>, queue: seq<(Cell, nat)>, d: nat, x: Cell,
                     done: set<Cell>, visited: set<Cell>)
    requires b.Valid() && ExpandOk(b, s, queue, d, x, done, visited)
    requires forall y :: Open(b, x, y) ==> y in visited
    requires x !in goals && forall y :: y in done ==> y !in goals
    ensures SearchOk(b, s, goals, queue, d, done + {x}, visited)
  {
  }

  /** An empty queue means no goal cell is reachable. */
  lemma Exhausted(b: Board, s: Cell, goals: seq<Cell>, level: nat, done: set<Cell>, visited: set<Cell>)
    requires b.Valid() && SearchOk(b, s, goals, [], level, done, visited)
    ensures !GoalReachable(b, s, goals)
  {
    forall k: nat | GoalWithin(b, s, goals, k) ensures false {
      var y :| y in goals && Within(b, s, y, k);
      ClosedHoldsReachable(b, s, done, y, k);
    }
  }

  /** The entries ExpandCell appends: each an unvisited open neighbour of x at distance d + 1. */
  ghost predicate Appended(b: Board, queue: seq<(Cell, nat)>, queue': seq<(Cell, nat)>, d: nat, x: Cell,
                           visited: set<Cell>, visited': set<Cell>)
    requires b.Valid()
  {
    visited <= visited' &&
    |queue| <= |queue'| && queue'[..|queue|] == queue &&
    (forall i :: |queue| <= i < |queue'| ==> queue'[i].1 == d + 1 && Open(b, x, queue'[i].0) && queue'[i].0 !in visited) &&
    (forall y :: y in visited' ==> y in visited || Queued(queue', y))
  }

  /** The neighbour y of x appended with d + 1 is reachable within d + 1 steps and, unless
      already expanded, not in fewer. */
  lemma NewEntryOk(b: Board, s: Cell, queue: seq<(Cell, nat)>, d: nat, x: Cell, y: Cell,
                   done: set<Cell>, visited: set<Cell>)
    requires b.Valid() && ExpandOk(b, s, queue, d, x, done, visited)
    requires Open(b, x, y) && y !in visited
    ensures Within(b, s, y, d + 1)
    ensures y in done + {x} || forall k: nat :: k < d + 1 ==> !Within(b, s, y, k)
  {
    WithinStep(b, s, x, y, d);
    if y !in done + {x} {
      forall k: nat | k < d + 1 ensures !Within(b, s, y, k) {
        if Within(b, s, y, k) {
          var z :| Within(b, s, z, k - 1) && Open(b, z, y);
        }
      }
    }
  }

  /** Appending the unvisited open neighbours of x keeps the search state. */
  lemma AppendedOk(b: Board, s: Cell, queue: seq<(Cell, nat)>, queue': seq<(Cell, nat)>, d: nat, x: Cell,
                   done: set<Cell>, visited: set<Cell>, visited': set<Cell>)
    requires b.Valid() && ExpandOk(b, s, queue, d, x, done, visited)
    requires Appended(b, queue, queue', d, x, visited, visited') && visited' <= AllCells(b.size)
    ensures ExpandOk(b, s, queue', d, x, done, visited')
  {
    forall i | |queue| <= i < |queue'|
      ensures Within(b, s, queue'[i].0, queue'[i].1)
      ensures queue'[i].0 in done + {x} || forall k: nat :: k < queue'[i].1 ==> !Within(b, s, queue'[i].0, k)
    {
      NewEntryOk(b, s, queue, d, x, queue'[i].0, done, visited);
    }
    assert forall i :: 0 <= i < |queue| ==> queue'[i] == queue[i];
    forall v | v in visited' && v !in done && v != x ensures Queued(queue', v) {
      if v in visited {
        var i :| 0 <= i < |queue| && queue[i].0 == v;
        assert queue'[i].0 == v;
      }
    }
  }

  /** The inner loop of shortest_path_length: queue every unvisited neighbour of x with
      distance d + 1 and mark it visited. */
  method ExpandCell(gs: GameState, x: Cell, d: nat, queue: seq<(Cell, nat)>, visited: set<Cell>)
    returns (queue': seq<(Cell, nat)>, visited': set<Cell>)
    requires gs.Valid() && visited <= AllCells(gs.boardSize)
    ensures Appended(gs.Walls(), queue, queue', d, x, visited, visited') && visited' <= AllCells(gs.boardSize)
    ensures forall y :: Open(gs.Walls(), x, y) ==> y in visited'
    ensures 2 * |AllCells(gs.boardSize) - visited'| + |queue'| <= 2 * |AllCells(gs.boardSize) - visited| + |queue|
  {
    var b := gs.Walls();
    var nbrs := Neighbors(gs, x.row, x.col);
    NeighborListExact(b, x);
    forall i | 0 <= i < |nbrs| ensures InBounds(b.size, nbrs[i]) {
      assert Open(b, x, nbrs[i]);
    }
    queue', visited' := EnqueueAll(b.size, nbrs, d, queue, visited);
    forall i | |queue| <= i < |queue'| ensures Open(b, x, queue'[i].0) {
      assert queue'[i].0 in nbrs;
    }
  }

  /** The loop over the neighbour list: each unvisited neighbour is queued with distance
      d + 1 and marked visited, in list order. */
  method EnqueueAll(n: int, nbrs: seq<Cell>, d: nat, queue: seq<(Cell, nat)>, visited: set<Cell>)
    returns (queue': seq<(Cell, nat)>, visited': set<Cell>)
    requires visited <= AllCells(n)
    requires forall i :: 0 <= i < |nbrs| ==> InBounds(n, nbrs[i])
    ensures visited <= visited' <= AllCells(n)
    ensures |queue| <= |queue'| && queue'[..|queue|] == queue
    ensures forall i :: |queue| <= i < |queue'| ==> queue'[i].1 == d + 1 && queue'[i].0 in nbrs && queue'[i].0 !in visited
    ensures forall y :: y in visited' ==> y in visited || Queued(queue', y)
    ensures forall i :: 0 <= i < |nbrs| ==> nbrs[i] in visited'
    ensures 2 * |AllCells(n) - visited'| + |queue'| <= 2 * |AllCells(n) - visited| + |queue|
  {
    queue', visited' := queue, visited;
    ghost var extra: seq<(Cell, nat)> := [];
    ghost var cells: seq<Cell> := [];
    for j := 0 to |nbrs|
      invariant visited <= visited' <= AllCells(n)
      invariant queue' == queue + extra
      invariant |cells| == |extra| && forall i :: 0 <= i < |extra| ==> extra[i] == (cells[i], d + 1)
      invariant forall y :: y in cells ==> y in nbrs && y !in visited
      invariant forall y :: y in visited' ==> y in visited || y in cells
      invariant forall t :: 0 <= t < j ==> nbrs[t] in visited'
      invariant 2 * |AllCells(n) - visited'| + |queue'| <= 2 * |AllCells(n) - visited| + |queue|
    {
      var y := nbrs[j];
      if y !in visited' {
        cells := cells + [y];
        extra := extra + [(y, d + 1)];
      }
      queue', visited' := EnqueueOne(n, y, d, queue', visited');
    }
    assert queue'[..|queue|] == queue;
    forall i | |queue| <= i < |queue'| ensures queue'[i].1 == d + 1 && queue'[i].0 in nbrs && queue'[i].0 !in visited {
      assert queue'[i] == extra[i - |queue|] == (cells[i - |queue|], d + 1);
    }
    forall y | y in visited' && y !in visited ensures Queued(queue', y) {
      var i :| 0 <= i < |cells| && cells[i] == y;
      assert queue'[|queue| + i] == extra[i];
    }
  }

  /** One pass of that loop: an unvisited neighbour y is queued with d + 1 and marked visited. */
  method EnqueueOne(n: int, y: Cell, d: nat, queue: seq<(Cell, nat)>, visited: set<Cell>)
    returns (queue': seq<(Cell, nat)>, visited': set<Cell>)
    requires InBounds(n, y) && visited <= AllCells(n)
    ensures visited' == visited + {y} && visited' <= AllCells(n)
    ensures queue' == if y in visited then queue else queue + [(y, d + 1)]
    ensures 2 * |AllCells(n) - visited'| + |queue'| <= 2 * |AllCells(n) - visited| + |queue|
  {
    queue', visited' := queue, visited;
    if y !in visited {
      InAllCells(n, y);
      RemoveOne(AllCells(n), visited, y);
      visited' := visited + {y};
      queue' := queue + [(y, d + 1)];
    }
  }

  /** The search state before the first pop: only the start is queued, at distance 0. */
  lemma SearchStarts(b: Board, s: Cell, goals: seq<Cell>)
    requires b.Valid()
    ensures SearchOk(b, s, goals, [(s, 0)], 0, {}, {})
  {
    assert Within(b, s, s, 0);
  }

  /** One expansion of shortest_path_length: the popped non-goal cell x has its neighbours
      queued and joins the expanded cells. */
  method ExpandStep(gs: GameState, ghost start: Cell, ghost goals: seq<Cell>, x: Cell, d: nat,
                    queue: seq<(Cell, nat)>, ghost done: set<Cell>, visited: set<Cell>)
    returns (queue': seq<(Cell, nat)>, visited': set<Cell>)
    requires gs.Valid() && ExpandOk(gs.Walls(), start, queue, d, x, done, visited)
    requires x !in goals && forall y :: y in done ==> y !in goals
    ensures SearchOk(gs.Walls(), start, goals, queue', d, done + {x}, visited')
    ensures 2 * |AllCells(gs.boardSize) - visited'| + |queue'| <= 2 * |AllCells(gs.boardSize) - visited| + |queue|
  {
    queue', visited' := ExpandCell(gs, x, d, queue, visited);
    AppendedOk(gs.Walls(), start, queue, queue', d, x, done, visited, visited');
    FinishExpand(gs.Walls(), start, goals, queue', d, x, done, visited');
  }

  /** shortest_path_length: breadth-first search with distances; the number of steps of a
      shortest route to a goal cell, or Inf when there is none. */
  method ShortestPathLength(gs: GameState, player: int) returns (dist: Dist)
    requires gs.Valid() && player in gs.positions
    ensures dist == Distance(gs.Walls(), gs.positions[player], GoalCells(gs.boardSize, gs.playerCount, player))
  {
    var b := gs.Walls();
    var start := gs.positions[player];
    var goals := GoalCells(gs.boardSize, gs.playerCount, player);
    var visited: set<Cell> := {};
    var queue: seq<(Cell, nat)> := [(start, 0)];
    ghost var done: set<Cell> := {};
    ghost var level: nat := 0;
    SearchStarts(b, start, goals);
    while |queue| > 0
      invariant SearchOk(b, start, goals, queue, level, done, visited)
      decreases 2 * |AllCells(b.size) - visited| + |queue|
    {
      PopHead(b, start, goals, queue, level, done, visited);
      var x, d := queue[0].0, queue[0].1;
      queue := queue[1..];
      level := d;
      if x in goals {
        FoundGoal(b, start, goals, queue, d, x, done, visited);
        dist := Fin(d);
        DistanceUnique(b, start, goals, dist);
        return;
      }
      queue, visited := ExpandStep(gs, start, goals, x, d, queue, done, visited);
      done := done + {x};
    }
    Exhausted(b, start, goals, level, done, visited);
    dist := Inf;
    DistanceUnique(b, start, goals, dist);
  }

  /** Every player 1..playerCount has a route to its goal cells. */
  ghost predicate AllPathsExist(b: Board, positions: map<int, Cell>, playerCount: int)
    requires b.Valid()
  {
    forall p :: 1 <= p <= playerCount ==> p in positions && GoalReachable(b, positions[p], GoalCells(b.size, playerCount, p))
  }

  /** The scan of paths_exist_for_all_players only reaches an id past 1 once player 1 has a
      route, which needs goal cells, hence two or four players and every id seated. */
  lemma SeatedOnceFirstReaches(b: Board, positions: map<int, Cell>, playerCount: int, p: int)
    requires b.Valid() && playerCount >= 2 && positions.Keys == SeatIds(playerCount)
    requires 1 <= p <= playerCount
    requires p > 1 ==> GoalReachable(b, positions[1], GoalCells(b.size, playerCount, 1))
    ensures p in positions
  {
  }

  /** paths_exist_for_all_players: true exactly when every player can still reach its goal;
      an unseated id is never looked up, because the scan stops at player 1 first. */
  method PathsExistForAllPlayers(gs: GameState) returns (ok: bool)
    requires gs.Valid()
    ensures ok == AllPathsExist(gs.Walls(), gs.positions, gs.playerCount)
  {
    for player := 1 to gs.playerCount + 1
      invariant forall p :: 1 <= p < player ==>
        p in gs.positions && GoalReachable(gs.Walls(), gs.positions[p], GoalCells(gs.boardSize, gs.playerCount, p))
    {
      SeatedOnceFirstReaches(gs.Walls(), gs.positions, gs.playerCount, player);
      var found := ExistsPathToGoal(gs, player);
      if !found {
        return false;
      }
    }
    return true;
  }

  /** check_victory reports p exactly when p is the lowest-numbered player standing on its
      goal cells, so a winner is at distance zero from its goal. */
  lemma VictoryIsGoal(b: Board, playerCount: int, positions: map<int, Cell>, p: int)
    requires b.Valid() && (playerCount == 2 || playerCount == 4)
    requires positions.Keys == SeatIds(playerCount)
    requires forall q :: q in positions ==> InBounds(b.size, positions[q])
    ensures CheckVictory(b.size, playerCount, positions) == Some(p) <==>
      p in positions && positions[p] in GoalCells(b.size, playerCount, p) &&
      forall q :: q in positions && q < p ==> positions[q] !in GoalCells(b.size, playerCount, q)
    ensures CheckVictory(b.size, playerCount, positions) == Some(p) ==>
      Distance(b, positions[p], GoalCells(b.size, playerCount, p)) == Fin(0)
  {
    forall q | q in positions {
      GoalCellsExact(b.size, playerCount, q, positions[q]);
    }
    if p in positions {
      DistanceZeroIffOnGoal(b, positions[p], GoalCells(b.size, playerCount, p));
    }
  }
}
