/** The deterministic decision rules of the computer player (ai.py): the main opponent,
    the winning-move test, the best blocking wall, and the medium and hard tiers; for
    the easy tier only the candidate sets, the random pick left open. */
module QuoridorAI {
  import opened Wrappers
  import opened GameState
  import opened Movement
  import opened Pathfinding
  import opened WallPlacement

  /** An action the computer player proposes: ("move", (r, c)) or ("wall", (r, c, h)). */
  datatype Action = MoveTo(cell: Cell) | PlaceAt(wall: Wall)

  /** Every id 1..playerCount has a pawn (the searches index player_positions by these ids). */
  predicate AllSeated(positions: map<int, Cell>, playerCount: int) {
    forall p :: 1 <= p <= playerCount ==> p in positions
  }

  /** q is a player id other than `player`. */
  predicate Other(playerCount: int, player: int, q: int) {
    1 <= q <= playerCount && q != player
  }

  /** _get_main_opponent: 3 - p with two players; otherwise the smallest id in
      1..playerCount other than p, and 2 when there is none. */
  function MainOpponent(playerCount: int, player: int): (opp: int)
    ensures playerCount == 2 ==> opp == 3 - player
    ensures playerCount != 2 && (exists q :: Other(playerCount, player, q)) ==>
      Other(playerCount, player, opp) && forall q :: Other(playerCount, player, q) ==> opp <= q
    ensures playerCount != 2 && !(exists q :: Other(playerCount, player, q)) ==> opp == 2
  {
    if playerCount == 2 then 3 - player
    else if 1 <= playerCount && player != 1 then assert Other(playerCount, player, 1); 1
    else if 2 <= playerCount then assert Other(playerCount, player, 2); 2
    else 2
  }

  /** _get_main_opponent as the source computes it, by scanning the ids in order. */
  method GetMainOpponent(playerCount: int, player: int) returns (opp: int)
    ensures opp == MainOpponent(playerCount, player)
  {
    if playerCount == 2 {
      return 3 - player;
    }
    if playerCount >= 1 {
      for p := 1 to playerCount + 1
        invariant forall q :: Other(playerCount, player, q) ==> p <= q
      {
        if p != player {
          assert Other(playerCount, player, p);
          return p;
        }
      }
    }
    return 2;
  }

  /** In a consistent game whose seats 1..playerCount are all filled there are two or four
      players, and the main opponent of a seated player is another seated player. */
  lemma MainOpponentSeated(positions: map<int, Cell>, playerCount: int, player: int)
    requires playerCount >= 2 && positions.Keys == SeatIds(playerCount)
    requires AllSeated(positions, playerCount) && player in positions
    ensures playerCount == 2 || playerCount == 4
    ensures 1 <= player <= playerCount
    ensures Other(playerCount, player, MainOpponent(playerCount, player))
    ensures MainOpponent(playerCount, player) in positions
  {
    assert playerCount >= 3 ==> 3 in positions;
    assert playerCount >= 5 ==> 5 in positions;
    assert Other(playerCount, player, if player == 1 then 2 else 1);
  }

  /** In any consistent game the main opponent of a seated player is another seated player:
      with two players the other one, otherwise player 1 or 2. */
  lemma MainOpponentPresent(positions: map<int, Cell>, playerCount: int, player: int)
    requires playerCount >= 2 && positions.Keys == SeatIds(playerCount) && player in positions
    ensures Other(playerCount, player, MainOpponent(playerCount, player))
    ensures MainOpponent(playerCount, player) in positions
  {
    assert Other(playerCount, player, if player == 1 then 2 else 1);
  }

  /** _is_winning_move: the goal row or column of the player for two or four players. */
  function IsWinningMove(n: int, playerCount: int, player: int, row: int, col: int): (wins: bool)
    ensures wins <==> OnGoalSide(n, playerCount, player, Cell(row, col))
  {
    if playerCount == 2 then
      if player == 1 then row == n - 1
      else if player == 2 then row == 0
      else false
    else if playerCount == 4 then
      if player == 1 then row == n - 1
      else if player == 2 then row == 0
      else if player == 3 then col == n - 1
      else if player == 4 then col == 0
      else false
    else false
  }

  /** A cell of the board is a winning destination exactly when it is one of the player's goal cells. */
  lemma WinningMoveIsGoal(n: int, playerCount: int, player: int, x: Cell)
    requires InBounds(n, x)
    ensures IsWinningMove(n, playerCount, player, x.row, x.col) <==> x in GoalCells(n, playerCount, player)
  {
    GoalCellsExact(n, playerCount, player, x);
  }

  // ---------------------------------------------------------------- the wall scan

  /** The walls the triple loop (rows, then columns, then horizontal before vertical) has
      visited before position (row, col, i) on a board with m = N - 1 wall columns. */
  function ScannedBefore(m: int, row: int, col: int, i: int): seq<Wall>
    requires m >= 0 && row >= 0 && 0 <= col <= m && 0 <= i <= 2 && (i > 0 ==> col < m)
    decreases row, col, i
  {
    if i > 0 then ScannedBefore(m, row, col, i - 1) + [Wall(row, col, i == 1)]
    else if col > 0 then ScannedBefore(m, row, col - 1, 2)
    else if row > 0 then ScannedBefore(m, row - 1, m, 0)
    else []
  }

  /** All walls in the source's scan order. */
  function ScanOrder(n: int): seq<Wall>
    requires n >= 1
  {
    ScannedBefore(n - 1, n - 1, 0, 0)
  }

  /** w comes before (row, col, i) in the scan. */
  predicate Before(m: int, w: Wall, row: int, col: int, i: int) {
    0 <= w.row && 0 <= w.col < m &&
    (w.row < row || (w.row == row && (w.col < col || (w.col == col && (if w.horizontal then 0 < i else 1 < i)))))
  }

  lemma {:induction false} ScannedBeforeExact(m: int, row: int, col: int, i: int, w: Wall)
    requires m >= 0 && row >= 0 && 0 <= col <= m && 0 <= i <= 2 && (i > 0 ==> col < m)
    ensures w in ScannedBefore(m, row, col, i) <==> Before(m, w, row, col, i)
    decreases row, col, i
  {
    if i > 0 {
      ScannedBeforeExact(m, row, col, i - 1, w);
    } else if col > 0 {
      ScannedBeforeExact(m, row, col - 1, 2, w);
    } else if row > 0 {
      ScannedBeforeExact(m, row - 1, m, 0, w);
    }
  }

  /** Row-major order with the horizontal wall of an anchor before the vertical one. */
  predicate LexLess(w1: Wall, w2: Wall) {
    w1.row < w2.row ||
    (w1.row == w2.row && (w1.col < w2.col || (w1.col == w2.col && w1.horizontal && !w2.horizontal)))
  }

  predicate LexSorted(s: seq<Wall>) {
    forall a, b :: 0 <= a < b < |s| ==> LexLess(s[a], s[b])
  }

  lemma {:induction false} ScannedBeforeSorted(m: int, row: int, col: int, i: int)
    requires m >= 0 && row >= 0 && 0 <= col <= m && 0 <= i <= 2 && (i > 0 ==> col < m)
    ensures LexSorted(ScannedBefore(m, row, col, i))
    decreases row, col, i
  {
    if i > 0 {
      ScannedBeforeSorted(m, row, col, i - 1);
      var s' := ScannedBefore(m, row, col, i - 1);
      var s := s' + [Wall(row, col, i == 1)];
      forall a | 0 <= a < |s'| ensures LexLess(s'[a], Wall(row, col, i == 1)) {
        ScannedBeforeExact(m, row, col, i - 1, s'[a]);
      }
      assert forall a :: 0 <= a < |s'| ==> s[a] == s'[a];
      assert s == ScannedBefore(m, row, col, i);
    } else if col > 0 {
      ScannedBeforeSorted(m, row, col - 1, 2);
      assert ScannedBefore(m, row, col, i) == ScannedBefore(m, row, col - 1, 2);
    } else if row > 0 {
      ScannedBeforeSorted(m, row - 1, m, 0);
      assert ScannedBefore(m, row, col, i) == ScannedBefore(m, row - 1, m, 0);
    }
  }

  /** The scan visits every wall anchor of the board exactly once, in row-major order with
      horizontal before vertical. */
  lemma ScanOrderExact(n: int)
    requires n >= 1
    ensures forall w :: w in ScanOrder(n) <==> InRange(n, w)
    ensures LexSorted(ScanOrder(n))
  {
    forall w ensures w in ScanOrder(n) <==> InRange(n, w) {
      ScannedBeforeExact(n - 1, n - 1, 0, 0, w);
    }
    ScannedBeforeSorted(n - 1, n - 1, 0, 0);
  }

  // ---------------------------------------------------------------- the best blocking wall

  /** A wall the searches may test: it passes is_valid_wall_placement and, once placed,
      leaves every player a route. */
  ghost predicate Eligible(b: Board, positions: map<int, Cell>, playerCount: int, w: Wall)
    requires b.Valid()
  {
    IsValidWallPlacement(b, w).ok && AllPathsExist(Place(b, w), positions, playerCount)
  }

  /** new_path - original_path; the infinite cases do not arise for eligible walls. */
  function Improvement(original: Dist, lengthened: Dist): int {
    if original.Fin? && lengthened.Fin? then lengthened.steps - original.steps else 0
  }

  /** How much placing w lengthens the target's shortest route. */
  ghost function Gain(b: Board, positions: map<int, Cell>, playerCount: int, target: int, w: Wall): int
    requires b.Valid() && InRange(b.size, w) && target in positions
  {
    var goals := GoalCells(b.size, playerCount, target);
    Improvement(Distance(b, positions[target], goals), Distance(Place(b, w), positions[target], goals))
  }

  /** For an eligible wall both distances are finite and the gain is their true, nonnegative difference. */
  lemma EligibleGain(b: Board, positions: map<int, Cell>, playerCount: int, target: int, w: Wall)
    requires b.Valid() && Eligible(b, positions, playerCount, w) && 1 <= target <= playerCount
    ensures var goals := GoalCells(b.size, playerCount, target);
      var before := Distance(b, positions[target], goals);
      var after := Distance(Place(b, w), positions[target], goals);
      before.Fin? && after.Fin? && Gain(b, positions, playerCount, target, w) == after.steps - before.steps >= 0
  {
    var goals := GoalCells(b.size, playerCount, target);
    WallsOnlyLengthen(b, w, positions[target], goals);
    DistanceZeroIffOnGoal(b, positions[target], goals);
    DistanceZeroIffOnGoal(Place(b, w), positions[target], goals);
  }

  /** The accumulator of _find_best_blocking_wall: (best_wall, best_improvement). */
  datatype Pick = Pick(wall: Option<Wall>, gain: int)

  /** A scanned wall with what the search measured for it. */
  datatype Scored = Scored(wall: Wall, eligible: bool, gain: int)

  /** One step of the scan: an eligible wall replaces the best only on strict improvement. */
  function Consider(pick: Pick, s: Scored): Pick {
    if s.eligible && s.gain > pick.gain then Pick(Some(s.wall), s.gain) else pick
  }

  /** The accumulator after scanning `ss` from (None, 0). */
  function FirstBest(ss: seq<Scored>): Pick {
    if ss == [] then Pick(None, 0) else Consider(FirstBest(ss[..|ss| - 1]), ss[|ss| - 1])
  }

  /** The accumulator is the first eligible entry of strictly positive, maximal gain, or
      None with gain 0 when no eligible entry has positive gain. */
  lemma {:induction false} FirstBestIsFirstMaximum(ss: seq<Scored>)
    ensures var p := FirstBest(ss);
      p.gain >= 0 &&
      (p.wall.None? ==> p.gain == 0) &&
      (forall i :: 0 <= i < |ss| && ss[i].eligible ==> ss[i].gain <= p.gain) &&
      (p.wall.Some? ==>
        exists i :: 0 <= i < |ss| && ss[i].wall == p.wall.value && ss[i].eligible && ss[i].gain == p.gain > 0 &&
          forall j :: 0 <= j < i && ss[j].eligible ==> ss[j].gain < p.gain)
  {
    if ss != [] {
      var ss' := ss[..|ss| - 1];
      FirstBestIsFirstMaximum(ss');
      assert forall i :: 0 <= i < |ss'| ==> ss[i] == ss'[i];
      var p := FirstBest(ss);
      if p != FirstBest(ss') {
        assert ss[|ss| - 1].wall == p.wall.value;
      } else if p.wall.Some? {
        var i :| 0 <= i < |ss'| && ss'[i].wall == p.wall.value && ss'[i].eligible && ss'[i].gain == p.gain > 0 &&
          forall j :: 0 <= j < i && ss'[j].eligible ==> ss'[j].gain < p.gain;
        assert ss[i] == ss'[i];
      }
    }
  }

  /** What one pass of the triple loop measures for w. */
  ghost function Score(b: Board, positions: map<int, Cell>, playerCount: int, target: int, w: Wall): Scored
    requires b.Valid() && target in positions
  {
    var e := Eligible(b, positions, playerCount, w);
    Scored(w, e, if e then Gain(b, positions, playerCount, target, w) else 0)
  }

  /** The measurements of a sequence of walls, in order. */
  ghost function Scores(b: Board, positions: map<int, Cell>, playerCount: int, target: int, walls: seq<Wall>): (ss: seq<Scored>)
    requires b.Valid() && target in positions
    ensures |ss| == |walls|
    ensures forall i :: 0 <= i < |walls| ==> ss[i] == Score(b, positions, playerCount, target, walls[i])
  {
    if walls == [] then []
    else Scores(b, positions, playerCount, target, walls[..|walls| - 1]) + [Score(b, positions, playerCount, target, walls[|walls| - 1])]
  }

  /** The result of _find_best_blocking_wall. */
  ghost function BestWall(b: Board, positions: map<int, Cell>, playerCount: int, target: int): Option<Wall>
    requires b.Valid() && target in positions
  {
    FirstBest(Scores(b, positions, playerCount, target, ScanOrder(b.size))).wall
  }

  /** What the scan records for a wall: whether it is eligible and, if so, its gain. */
  lemma ScoreFields(b: Board, positions: map<int, Cell>, playerCount: int, target: int, w: Wall)
    requires b.Valid() && target in positions
    ensures var sc := Score(b, positions, playerCount, target, w);
      sc.wall == w && (sc.eligible <==> Eligible(b, positions, playerCount, w)) &&
      (sc.eligible ==> InRange(b.size, w) && sc.gain == Gain(b, positions, playerCount, target, w))
  {
  }

  /** In a strictly increasing scan, a wall that comes earlier in the order sits at an earlier index. */
  lemma LexSortedIndexOrder(s: seq<Wall>)
    requires LexSorted(s)
    ensures forall i, j :: 0 <= i < |s| && 0 <= j < |s| && LexLess(s[j], s[i]) ==> j < i
  {
    forall i, j | 0 <= i < |s| && 0 <= j < |s| && LexLess(s[j], s[i])
      ensures j < i
    {
      assert !LexLess(s[i], s[j]) && !LexLess(s[i], s[i]);
    }
  }

  /** Over a scan in strictly increasing order, the accumulator is an eligible entry of
      maximal positive gain that beats every eligible entry earlier in that order. */
  lemma {:induction false} ScoredFirstMax(s: seq<Wall>, ss: seq<Scored>)
    requires |ss| == |s| && (forall i :: 0 <= i < |s| ==> ss[i].wall == s[i]) && LexSorted(s)
    ensures var p := FirstBest(ss);
      (forall i :: 0 <= i < |s| && ss[i].eligible ==> ss[i].gain <= p.gain) &&
      (p.wall.None? ==> p.gain == 0) &&
      (p.wall.Some? ==>
        exists i :: 0 <= i < |s| && s[i] == p.wall.value && ss[i].eligible && ss[i].gain == p.gain > 0 &&
          forall j :: 0 <= j < |s| && ss[j].eligible && LexLess(s[j], s[i]) ==> ss[j].gain < p.gain)
  {
    FirstBestIsFirstMaximum(ss);
    var p := FirstBest(ss);
    if p.wall.Some? {
      var i :| 0 <= i < |ss| && ss[i].wall == p.wall.value && ss[i].eligible && ss[i].gain == p.gain > 0 &&
        forall j :: 0 <= j < i && ss[j].eligible ==> ss[j].gain < p.gain;
      LexSortedIndexOrder(s);
    }
  }

  /** A best blocking wall is eligible, lengthens the target's route, no eligible wall
      lengthens it more, and every eligible wall before it in row-major order (horizontal
      first) lengthens it strictly less; None means no eligible wall lengthens it at all. */
  lemma BestWallIsFirstMaximum(b: Board, positions: map<int, Cell>, playerCount: int, target: int)
    requires b.Valid() && 1 <= target <= playerCount && target in positions
    ensures var best := BestWall(b, positions, playerCount, target);
      (best.Some? ==>
        Eligible(b, positions, playerCount, best.value) &&
        Gain(b, positions, playerCount, target, best.value) > 0 &&
        forall w :: Eligible(b, positions, playerCount, w) ==>
          Gain(b, positions, playerCount, target, w) <= Gain(b, positions, playerCount, target, best.value) &&
          (LexLess(w, best.value) ==> Gain(b, positions, playerCount, target, w) < Gain(b, positions, playerCount, target, best.value))) &&
      (best.None? ==> forall w :: Eligible(b, positions, playerCount, w) ==> Gain(b, positions, playerCount, target, w) == 0)
  {
    var s := ScanOrder(b.size);
    var ss := Scores(b, positions, playerCount, target, s);
    ScanOrderExact(b.size);
    ScoredFirstMax(s, ss);
    var p := FirstBest(ss);
    assert p.wall == BestWall(b, positions, playerCount, target);
    forall w | Eligible(b, positions, playerCount, w)
      ensures Gain(b, positions, playerCount, target, w) <= p.gain
      ensures Gain(b, positions, playerCount, target, w) >= 0
      ensures p.wall.Some? && LexLess(w, p.wall.value) ==> Gain(b, positions, playerCount, target, w) < p.gain
    {
      assert InRange(b.size, w);
      var k :| 0 <= k < |s| && s[k] == w;
      ScoreFields(b, positions, playerCount, target, w);
      assert ss[k] == Score(b, positions, playerCount, target, w);
      EligibleGain(b, positions, playerCount, target, w);
    }
    if p.wall.Some? {
      var i :| 0 <= i < |s| && s[i] == p.wall.value && ss[i].eligible && ss[i].gain == p.gain > 0;
      ScoreFields(b, positions, playerCount, target, s[i]);
      assert ss[i] == Score(b, positions, playerCount, target, s[i]);
    }
  }

  /** One pass of the triple loop's body: the wall is tried on the board and taken back. */
  method TryWall(gs: GameState, target: int, w: Wall, pick: Pick) returns (pick': Pick)
    requires gs.Valid() && target in gs.positions
    modifies gs`hWalls, gs`vWalls
    ensures unchanged(gs)
    ensures pick' == Consider(pick, Score(old(gs.Walls()), gs.positions, gs.playerCount, target, w))
  {
    var verdict := IsValidWallPlacement(gs.Walls(), w);
    if !verdict.ok {
      return pick;
    }
    var originalPath := ShortestPathLength(gs, target);
    var allPaths, improvement := MeasureWall(gs, target, w, originalPath);
    pick' := pick;
    if allPaths && improvement > pick.gain {
      pick' := Pick(Some(w), improvement);
    }
  }

  /** The tentative part of one pass: the wall is written, measured and taken back. */
  method MeasureWall(gs: GameState, target: int, w: Wall, originalPath: Dist) returns (allPaths: bool, improvement: int)
    requires gs.Valid() && target in gs.positions
    requires IsValidWallPlacement(gs.Walls(), w).ok
    requires originalPath == Distance(gs.Walls(), gs.positions[target], GoalCells(gs.boardSize, gs.playerCount, target))
    modifies gs`hWalls, gs`vWalls
    ensures unchanged(gs)
    ensures allPaths == AllPathsExist(Place(old(gs.Walls()), w), gs.positions, gs.playerCount)
    ensures allPaths ==> improvement == Gain(old(gs.Walls()), gs.positions, gs.playerCount, target, w)
  {
    ghost var before := gs.Walls();
    PutWall(gs, w);
    allPaths, improvement := MeasureBoard(gs, target, originalPath);
    TakeBackWall(gs, before, w);
  }

  /** What the searches measure on the board with the wall written: whether every player
      still has a route and, if so, how much longer the target's route became. */
  method MeasureBoard(gs: GameState, target: int, originalPath: Dist) returns (allPaths: bool, improvement: int)
    requires gs.Valid() && target in gs.positions
    ensures allPaths == AllPathsExist(gs.Walls(), gs.positions, gs.playerCount)
    ensures allPaths ==>
      improvement == Improvement(originalPath, Distance(gs.Walls(), gs.positions[target], GoalCells(gs.boardSize, gs.playerCount, target)))
  {
    allPaths := PathsExistForAllPlayers(gs);
    improvement := 0;
    if allPaths {
      var newPath := ShortestPathLength(gs, target);
      improvement := Improvement(originalPath, newPath);
    }
  }

  lemma ScoresSnoc(b: Board, positions: map<int, Cell>, playerCount: int, target: int, walls: seq<Wall>, w: Wall)
    requires b.Valid() && target in positions
    ensures FirstBest(Scores(b, positions, playerCount, target, walls + [w])) ==
      Consider(FirstBest(Scores(b, positions, playerCount, target, walls)), Score(b, positions, playerCount, target, w))
  {
    assert (walls + [w])[..|walls|] == walls;
    var ss := Scores(b, positions, playerCount, target, walls + [w]);
    assert ss[..|walls|] == Scores(b, positions, playerCount, target, walls);
  }

  /** _find_best_blocking_wall: scans every anchor and orientation, and leaves both grids
      as they were. */
  method FindBestBlockingWall(gs: GameState, target: int) returns (best: Option<Wall>)
    requires gs.Valid() && target in gs.positions
    modifies gs`hWalls, gs`vWalls
    ensures unchanged(gs)
    ensures best == BestWall(old(gs.Walls()), gs.positions, gs.playerCount, target)
  {
    ghost var b := gs.Walls();
    var m := gs.boardSize - 1;
    var pick := Pick(None, 0);
    for row := 0 to m
      invariant unchanged(gs)
      invariant pick == FirstBest(Scores(b, gs.positions, gs.playerCount, target, ScannedBefore(m, row, 0, 0)))
    {
      pick := ScanRow(gs, target, b, m, row, pick);
    }
    best := pick.wall;
  }

  /** The column loop for one row of anchors. */
  method ScanRow(gs: GameState, target: int, ghost b: Board, m: int, row: int, pick: Pick) returns (pick': Pick)
    requires gs.Valid() && target in gs.positions
    requires gs.Walls() == b && m == gs.boardSize - 1 && 0 <= row < m
    requires pick == FirstBest(Scores(b, gs.positions, gs.playerCount, target, ScannedBefore(m, row, 0, 0)))
    modifies gs`hWalls, gs`vWalls
    ensures unchanged(gs)
    ensures pick' == FirstBest(Scores(b, gs.positions, gs.playerCount, target, ScannedBefore(m, row + 1, 0, 0)))
  {
    pick' := pick;
    for col := 0 to m
      invariant unchanged(gs)
      invariant pick' == FirstBest(Scores(b, gs.positions, gs.playerCount, target, ScannedBefore(m, row, col, 0)))
    {
      pick' := ScanAnchor(gs, target, b, m, row, col, pick');
    }
  }

  /** The orientation loop for one anchor: horizontal, then vertical. */
  method ScanAnchor(gs: GameState, target: int, ghost b: Board, m: int, row: int, col: int, pick: Pick) returns (pick': Pick)
    requires gs.Valid() && target in gs.positions
    requires gs.Walls() == b && m == gs.boardSize - 1 && 0 <= row < m && 0 <= col < m
    requires pick == FirstBest(Scores(b, gs.positions, gs.playerCount, target, ScannedBefore(m, row, col, 0)))
    modifies gs`hWalls, gs`vWalls
    ensures unchanged(gs)
    ensures pick' == FirstBest(Scores(b, gs.positions, gs.playerCount, target, ScannedBefore(m, row, col + 1, 0)))
  {
    pick' := pick;
    for i := 0 to 2
      invariant unchanged(gs)
      invariant pick' == FirstBest(Scores(b, gs.positions, gs.playerCount, target, ScannedBefore(m, row, col, i)))
    {
      ScoresSnoc(b, gs.positions, gs.playerCount, target, ScannedBefore(m, row, col, i), Wall(row, col, i == 0));
      pick' := TryWall(gs, target, Wall(row, col, i == 0), pick');
    }
  }

  // ---------------------------------------------------------------- medium tier

  /** The accumulator of the medium tier's move loop: (best_move, best_distance). */
  datatype Closest = Closest(move: Option<Cell>, dist: Dist)

  /** The accumulator after scanning `moves` from (None, inf): a move replaces the best
      only when its distance is strictly smaller. */
  ghost function ClosestMove(b: Board, goals: seq<Cell>, moves: seq<Cell>): Closest
    requires b.Valid()
  {
    if moves == [] then Closest(None, Inf)
    else
      var c := ClosestMove(b, goals, moves[..|moves| - 1]);
      var d := Distance(b, moves[|moves| - 1], goals);
      if Less(d, c.dist) then Closest(Some(moves[|moves| - 1]), d) else c
  }

  /** The chosen move has the smallest distance of all moves and every earlier move is
      strictly farther; there is no choice exactly when every move is cut off. */
  lemma {:induction false} ClosestIsFirstMinimum(b: Board, goals: seq<Cell>, moves: seq<Cell>)
    requires b.Valid()
    ensures var c := ClosestMove(b, goals, moves);
      (c.move.None? <==> c.dist == Inf) &&
      (c.move.None? ==> forall i :: 0 <= i < |moves| ==> Distance(b, moves[i], goals) == Inf) &&
      (forall i :: 0 <= i < |moves| ==> AtMost(c.dist, Distance(b, moves[i], goals))) &&
      (c.move.Some? ==>
        exists i :: 0 <= i < |moves| && moves[i] == c.move.value &&
          Distance(b, moves[i], goals) == c.dist &&
          forall j :: 0 <= j < i ==> Less(c.dist, Distance(b, moves[j], goals)))
  {
    if moves != [] {
      var s' := moves[..|moves| - 1];
      ClosestIsFirstMinimum(b, goals, s');
      assert forall i :: 0 <= i < |s'| ==> moves[i] == s'[i];
      var c' := ClosestMove(b, goals, s');
      var c := ClosestMove(b, goals, moves);
      if c != c' {
        assert moves[|moves| - 1] == c.move.value;
      } else if c.move.Some? {
        var i :| 0 <= i < |s'| && s'[i] == c.move.value && Distance(b, s'[i], goals) == c.dist &&
          forall j :: 0 <= j < i ==> Less(c.dist, Distance(b, s'[j], goals));
        assert moves[i] == c.move.value;
      }
    }
  }

  /** The choice of _medium_move on a board, the pawns, the budgets and the player to move. */
  ghost function MediumChoice(b: Board, positions: map<int, Cell>, playerCount: int, budget: map<int, int>, player: int): Option<Action>
    requires b.Valid() && player in positions && player in budget
    requires MainOpponent(playerCount, player) in positions
  {
    var opp := MainOpponent(playerCount, player);
    var playerPath := Distance(b, positions[player], GoalCells(b.size, playerCount, player));
    var opponentPath := Distance(b, positions[opp], GoalCells(b.size, playerCount, opp));
    var wall := BestWall(b, positions, playerCount, opp);
    if Less(opponentPath, playerPath) && budget[player] > 0 && wall.Some? then Some(PlaceAt(wall.value))
    else
      var legal := LegalMoves(b, positions, positions[player]);
      if legal == [] then None
      else
        var c := ClosestMove(b, GoalCells(b.size, playerCount, player), legal);
        Some(MoveTo(if c.move.Some? then c.move.value else legal[0]))
  }

  /** The medium tier places the best blocking wall exactly when the opponent is strictly
      closer to its goal, the player has walls left and such a wall exists; otherwise it
      passes only when there is no legal move, and else moves to a legal destination of
      least distance, the first among equals, or to the first legal move when every
      destination is cut off. */
  lemma MediumChoiceProperties(b: Board, positions: map<int, Cell>, playerCount: int, budget: map<int, int>, player: int)
    requires b.Valid() && player in positions && player in budget
    requires MainOpponent(playerCount, player) in positions
    ensures var choice := MediumChoice(b, positions, playerCount, budget, player);
      var opp := MainOpponent(playerCount, player);
      var goals := GoalCells(b.size, playerCount, player);
      var legal := LegalMoves(b, positions, positions[player]);
      var wall := BestWall(b, positions, playerCount, opp);
      var blocks := Less(Distance(b, positions[opp], GoalCells(b.size, playerCount, opp)), Distance(b, positions[player], goals)) &&
        budget[player] > 0 && wall.Some?;
      (blocks ==> choice == Some(PlaceAt(wall.value))) &&
      (!blocks && legal == [] ==> choice == None) &&
      (!blocks && legal != [] ==>
        choice.Some? && choice.value.MoveTo? &&
        exists i :: 0 <= i < |legal| && legal[i] == choice.value.cell &&
          (forall j :: 0 <= j < |legal| ==> AtMost(Distance(b, legal[i], goals), Distance(b, legal[j], goals))) &&
          (Distance(b, legal[i], goals).Fin? ==> forall j :: 0 <= j < i ==> Less(Distance(b, legal[i], goals), Distance(b, legal[j], goals))) &&
          (Distance(b, legal[i], goals) == Inf ==> i == 0))
  {
    var choice := MediumChoice(b, positions, playerCount, budget, player);
    var goals := GoalCells(b.size, playerCount, player);
    var legal := LegalMoves(b, positions, positions[player]);
    ClosestIsFirstMinimum(b, goals, legal);
    var c := ClosestMove(b, goals, legal);
    if choice.Some? && choice.value.MoveTo? {
      if c.move.Some? {
        var i :| 0 <= i < |legal| && legal[i] == c.move.value && Distance(b, legal[i], goals) == c.dist &&
          forall j :: 0 <= j < i ==> Less(c.dist, Distance(b, legal[j], goals));
      } else {
        assert legal[0] == choice.value.cell;
      }
    }
  }

  /** The medium tier's move loop: each legal move is tried by moving the pawn there,
      measuring, and moving it back. */
  method ClosestLegalMove(gs: GameState, player: int, legal: seq<Cell>) returns (c: Closest)
    requires gs.Valid() && player in gs.positions
    requires forall i :: 0 <= i < |legal| ==> InBounds(gs.boardSize, legal[i])
    modifies gs`positions
    ensures unchanged(gs)
    ensures c == ClosestMove(gs.Walls(), GoalCells(gs.boardSize, gs.playerCount, player), legal)
  {
    ghost var b := gs.Walls();
    ghost var pos := gs.positions;
    ghost var goals := GoalCells(gs.boardSize, gs.playerCount, player);
    var bestMove: Option<Cell> := None;
    var bestDistance := Inf;
    for i := 0 to |legal|
      invariant unchanged(gs)
      invariant Closest(bestMove, bestDistance) == ClosestMove(b, goals, legal[..i])
    {
      assert legal[..i + 1][..i] == legal[..i];
      var newDistance := DistanceFrom(gs, player, legal[i]);
      if Less(newDistance, bestDistance) {
        bestDistance := newDistance;
        bestMove := Some(legal[i]);
      }
    }
    assert legal[..|legal|] == legal;
    c := Closest(bestMove, bestDistance);
  }

  /** One pass of the move loop: the pawn is put on m, the route measured, and the pawn put back. */
  method DistanceFrom(gs: GameState, player: int, m: Cell) returns (d: Dist)
    requires gs.Valid() && player in gs.positions && InBounds(gs.boardSize, m)
    modifies gs`positions
    ensures unchanged(gs)
    ensures d == Distance(gs.Walls(), m, GoalCells(gs.boardSize, gs.playerCount, player))
  {
    var originalPos := gs.positions[player];
    gs.positions := gs.positions[player := m];
    d := ShortestPathLength(gs, player);
    gs.positions := gs.positions[player := originalPos];
    assert gs.positions == old(gs.positions);
  }

  /** _medium_move: compares the two distances, may search for a blocking wall, then tries
      every legal move; grids and pawns end as they began. */
  method MediumMove(gs: GameState) returns (action: Option<Action>)
    requires gs.Valid()
    modifies gs`hWalls, gs`vWalls, gs`positions
    ensures unchanged(gs)
    ensures gs.currentPlayer in gs.wallsRemaining && MainOpponent(gs.playerCount, gs.currentPlayer) in gs.positions
    ensures action == MediumChoice(gs.Walls(), gs.positions, gs.playerCount, gs.wallsRemaining, gs.currentPlayer)
  {
    var player := gs.currentPlayer;
    var opponent := GetMainOpponent(gs.playerCount, player);
    MainOpponentPresent(gs.positions, gs.playerCount, player);
    var bestWall := MediumBlock(gs, player, opponent);
    if bestWall.Some? {
      return Some(PlaceAt(bestWall.value));
    }
    action := MediumPawnMove(gs, player);
  }

  /** The wall branch of _medium_move: the best blocking wall when the opponent is strictly
      closer to its goal and the player has walls left, else None. */
  method MediumBlock(gs: GameState, player: int, opponent: int) returns (wall: Option<Wall>)
    requires gs.Valid()
    requires player in gs.positions && player in gs.wallsRemaining && opponent in gs.positions
    modifies gs`hWalls, gs`vWalls
    ensures unchanged(gs)
    ensures var b := gs.Walls();
      var playerPath := Distance(b, gs.positions[player], GoalCells(b.size, gs.playerCount, player));
      var opponentPath := Distance(b, gs.positions[opponent], GoalCells(b.size, gs.playerCount, opponent));
      wall == if Less(opponentPath, playerPath) && gs.wallsRemaining[player] > 0
              then BestWall(b, gs.positions, gs.playerCount, opponent) else None
  {
    var playerPath := ShortestPathLength(gs, player);
    var opponentPath := ShortestPathLength(gs, opponent);
    wall := None;
    if Less(opponentPath, playerPath) && gs.wallsRemaining[player] > 0 {
      wall := FindBestBlockingWall(gs, opponent);
    }
  }

  /** The move branch of _medium_move: None without a legal move, else the closest legal
      move, or the first one when every destination is cut off. */
  method MediumPawnMove(gs: GameState, player: int) returns (action: Option<Action>)
    requires gs.Valid() && player in gs.positions
    modifies gs`positions
    ensures unchanged(gs)
    ensures var legal := LegalMoves(gs.Walls(), gs.positions, gs.positions[player]);
      action == if legal == [] then None
                else var c := ClosestMove(gs.Walls(), GoalCells(gs.boardSize, gs.playerCount, player), legal);
                  Some(MoveTo(if c.move.Some? then c.move.value else legal[0]))
  {
    var legal := GetLegalMoves(gs, player);
    if |legal| == 0 {
      return None;
    }
    LegalMovesSound(gs.Walls(), gs.positions, gs.positions[player]);
    var c := ClosestLegalMove(gs, player, legal);
    action := if c.move.Some? then Some(MoveTo(c.move.value)) else Some(MoveTo(legal[0]));
  }

  // ---------------------------------------------------------------- hard tier

  /** The first legal move that reaches the player's goal, if any. */
  function FirstWinning(n: int, playerCount: int, player: int, moves: seq<Cell>): (win: Option<Cell>)
    ensures win.Some? ==> win.value in moves && IsWinningMove(n, playerCount, player, win.value.row, win.value.col)
    ensures win.None? ==> forall m :: m in moves ==> !IsWinningMove(n, playerCount, player, m.row, m.col)
    ensures win.Some? ==>
      exists i :: 0 <= i < |moves| && moves[i] == win.value &&
        forall j :: 0 <= j < i ==> !IsWinningMove(n, playerCount, player, moves[j].row, moves[j].col)
  {
    if moves == [] then None
    else if IsWinningMove(n, playerCount, player, moves[0].row, moves[0].col) then Some(moves[0])
    else FirstWinning(n, playerCount, player, moves[1..])
  }

  function PlusOne(d: Dist): Dist {
    match d
    case Fin(k) => Fin(k + 1)
    case Inf => Inf
  }

  /** The wall the hard tier places when no move wins: the best blocking wall, if the
      player has walls left and it lengthens the opponent's route by more than one step. */
  ghost function HardWall(b: Board, positions: map<int, Cell>, playerCount: int, budget: map<int, int>, player: int): Option<Wall>
    requires b.Valid() && player in budget
    requires MainOpponent(playerCount, player) in positions
  {
    var opp := MainOpponent(playerCount, player);
    var goals := GoalCells(b.size, playerCount, opp);
    var wall := BestWall(b, positions, playerCount, opp);
    if budget[player] > 0 && wall.Some? && InRange(b.size, wall.value) &&
       Less(PlusOne(Distance(b, positions[opp], goals)), Distance(Place(b, wall.value), positions[opp], goals))
    then wall
    else None
  }

  /** The choice of _hard_move. */
  ghost function HardChoice(b: Board, positions: map<int, Cell>, playerCount: int, budget: map<int, int>, player: int): Option<Action>
    requires b.Valid() && player in positions && player in budget
    requires MainOpponent(playerCount, player) in positions
  {
    var win := FirstWinning(b.size, playerCount, player, LegalMoves(b, positions, positions[player]));
    var wall := HardWall(b, positions, playerCount, budget, player);
    if win.Some? then Some(MoveTo(win.value))
    else if wall.Some? then Some(PlaceAt(wall.value))
    else MediumChoice(b, positions, playerCount, budget, player)
  }

  /** The hard tier takes the first winning legal move when there is one; otherwise it
      places the best blocking wall exactly when the player has walls left and that wall
      lengthens the opponent's route by more than one step; otherwise it does what the
      medium tier does. */
  lemma HardChoiceProperties(b: Board, positions: map<int, Cell>, playerCount: int, budget: map<int, int>, player: int)
    requires b.Valid() && player in positions && player in budget
    requires playerCount >= 2 && positions.Keys == SeatIds(playerCount)
    ensures MainOpponent(playerCount, player) in positions
    ensures var choice := HardChoice(b, positions, playerCount, budget, player);
      var legal := LegalMoves(b, positions, positions[player]);
      var opp := MainOpponent(playerCount, player);
      var wall := BestWall(b, positions, playerCount, opp);
      var wins := exists m :: m in legal && IsWinningMove(b.size, playerCount, player, m.row, m.col);
      var blocks := budget[player] > 0 && wall.Some? && InRange(b.size, wall.value) && Gain(b, positions, playerCount, opp, wall.value) > 1;
      (wins ==>
        choice == Some(MoveTo(FirstWinning(b.size, playerCount, player, legal).value)) &&
        choice.value.cell in GoalCells(b.size, playerCount, player)) &&
      (!wins && blocks ==> choice == Some(PlaceAt(wall.value))) &&
      (!wins && !blocks ==> choice == MediumChoice(b, positions, playerCount, budget, player))
  {
    MainOpponentPresent(positions, playerCount, player);
    var legal := LegalMoves(b, positions, positions[player]);
    var win := FirstWinning(b.size, playerCount, player, legal);
    var opp := MainOpponent(playerCount, player);
    if win.Some? {
      LegalMovesSound(b, positions, positions[player]);
      WinningMoveIsGoal(b.size, playerCount, player, win.value);
    }
    var wall := BestWall(b, positions, playerCount, opp);
    if wall.Some? {
      BestWallIsFirstMaximum(b, positions, playerCount, opp);
      EligibleGain(b, positions, playerCount, opp, wall.value);
    }
  }

  /** The hard tier's first loop: the first legal move that wins. */
  method FindWinningMove(n: int, playerCount: int, player: int, legal: seq<Cell>) returns (win: Option<Cell>)
    ensures win == FirstWinning(n, playerCount, player, legal)
  {
    for i := 0 to |legal|
      invariant FirstWinning(n, playerCount, player, legal) == FirstWinning(n, playerCount, player, legal[i..])
    {
      if IsWinningMove(n, playerCount, player, legal[i].row, legal[i].col) {
        return Some(legal[i]);
      }
      assert legal[i..][1..] == legal[i + 1..];
    }
    return None;
  }

  /** The hard tier's re-measurement: the wall is put on the board, the opponent's route
      measured, and the wall taken back. */
  method LengthensByMoreThanOne(gs: GameState, opponent: int, w: Wall) returns (worth: bool)
    requires gs.Valid() && opponent in gs.positions
    requires IsValidWallPlacement(gs.Walls(), w).ok
    modifies gs`hWalls, gs`vWalls
    ensures unchanged(gs)
    ensures var goals := GoalCells(gs.boardSize, gs.playerCount, opponent);
      worth == Less(PlusOne(Distance(gs.Walls(), gs.positions[opponent], goals)),
                    Distance(Place(gs.Walls(), w), gs.positions[opponent], goals))
  {
    var originalPath := ShortestPathLength(gs, opponent);
    var newPath := RouteWithWall(gs, opponent, w);
    worth := Less(PlusOne(originalPath), newPath);
  }

  /** The player's route on the board with w written, which is then taken back. */
  method RouteWithWall(gs: GameState, player: int, w: Wall) returns (d: Dist)
    requires gs.Valid() && player in gs.positions
    requires IsValidWallPlacement(gs.Walls(), w).ok
    modifies gs`hWalls, gs`vWalls
    ensures unchanged(gs)
    ensures d == Distance(Place(gs.Walls(), w), gs.positions[player], GoalCells(gs.boardSize, gs.playerCount, player))
  {
    ghost var b := gs.Walls();
    PutWall(gs, w);
    d := ShortestPathLength(gs, player);
    TakeBackWall(gs, b, w);
  }

  /** The wall branch of _hard_move. */
  method HardWallMove(gs: GameState) returns (wall: Option<Wall>)
    requires gs.Valid()
    modifies gs`hWalls, gs`vWalls
    ensures unchanged(gs)
    ensures gs.currentPlayer in gs.wallsRemaining && MainOpponent(gs.playerCount, gs.currentPlayer) in gs.positions
    ensures wall == HardWall(gs.Walls(), gs.positions, gs.playerCount, gs.wallsRemaining, gs.currentPlayer)
  {
    var player := gs.currentPlayer;
    MainOpponentPresent(gs.positions, gs.playerCount, player);
    if gs.wallsRemaining[player] > 0 {
      var opponent := GetMainOpponent(gs.playerCount, player);
      var bestWall := FindBestBlockingWall(gs, opponent);
      if bestWall.Some? {
        BestWallIsFirstMaximum(gs.Walls(), gs.positions, gs.playerCount, opponent);
        var worth := LengthensByMoreThanOne(gs, opponent, bestWall.value);
        if worth {
          return bestWall;
        }
      }
    }
    return None;
  }

  /** _hard_move: looks for a winning move, then re-measures the best blocking wall, then
      falls back to the medium tier; grids and pawns end as they began. */
  method HardMove(gs: GameState) returns (action: Option<Action>)
    requires gs.Valid()
    modifies gs`hWalls, gs`vWalls, gs`positions
    ensures unchanged(gs)
    ensures gs.currentPlayer in gs.wallsRemaining && MainOpponent(gs.playerCount, gs.currentPlayer) in gs.positions
    ensures action == HardChoice(gs.Walls(), gs.positions, gs.playerCount, gs.wallsRemaining, gs.currentPlayer)
  {
    var player := gs.currentPlayer;
    var legal := GetLegalMoves(gs, player);
    var win := FindWinningMove(gs.boardSize, gs.playerCount, player, legal);
    if win.Some? {
      MainOpponentPresent(gs.positions, gs.playerCount, player);
      return Some(MoveTo(win.value));
    }
    var wall := HardWallMove(gs);
    if wall.Some? {
      return Some(PlaceAt(wall.value));
    }
    action := MediumMove(gs);
  }

  // ---------------------------------------------------------------- easy tier

  /** The eligible walls among `walls`, in order. */
  ghost function EligibleAmong(b: Board, positions: map<int, Cell>, playerCount: int, walls: seq<Wall>): seq<Wall>
    requires b.Valid()
  {
    if walls == [] then []
    else
      var rest := EligibleAmong(b, positions, playerCount, walls[..|walls| - 1]);
      if Eligible(b, positions, playerCount, walls[|walls| - 1]) then rest + [walls[|walls| - 1]] else rest
  }

  lemma {:induction false} EligibleAmongExact(b: Board, positions: map<int, Cell>, playerCount: int, walls: seq<Wall>)
    requires b.Valid()
    ensures forall w :: w in EligibleAmong(b, positions, playerCount, walls) <==> w in walls && Eligible(b, positions, playerCount, w)
  {
    if walls != [] {
      EligibleAmongExact(b, positions, playerCount, walls[..|walls| - 1]);
      assert walls == walls[..|walls| - 1] + [walls[|walls| - 1]];
    }
  }

  /** The easy tier's candidate walls are exactly the valid placements that leave every
      player a route. */
  lemma EasyCandidatesExact(b: Board, positions: map<int, Cell>, playerCount: int)
    requires b.Valid()
    ensures forall w :: w in EligibleAmong(b, positions, playerCount, ScanOrder(b.size)) <==> Eligible(b, positions, playerCount, w)
  {
    EligibleAmongExact(b, positions, playerCount, ScanOrder(b.size));
    ScanOrderExact(b.size);
  }

  /** One pass of the easy tier's triple loop: the wall is kept as a candidate when it is
      valid and, tried on the board, leaves every player a route. */
  method TestCandidate(gs: GameState, w: Wall, candidates: seq<Wall>) returns (candidates': seq<Wall>)
    requires gs.Valid()
    modifies gs`hWalls, gs`vWalls
    ensures unchanged(gs)
    ensures candidates' == candidates + (if Eligible(old(gs.Walls()), gs.positions, gs.playerCount, w) then [w] else [])
  {
    var verdict := IsValidWallPlacement(gs.Walls(), w);
    if !verdict.ok {
      return candidates;
    }
    ghost var before := gs.Walls();
    PutWall(gs, w);
    var allPaths := PathsExistForAllPlayers(gs);
    candidates' := if allPaths then candidates + [w] else candidates;
    TakeBackWall(gs, before, w);
  }

  /** The wall_placements list of _easy_move; both grids end as they began. */
  method EasyWallCandidates(gs: GameState) returns (candidates: seq<Wall>)
    requires gs.Valid()
    modifies gs`hWalls, gs`vWalls
    ensures unchanged(gs)
    ensures candidates == EligibleAmong(gs.Walls(), gs.positions, gs.playerCount, ScanOrder(gs.boardSize))
  {
    ghost var b := gs.Walls();
    var m := gs.boardSize - 1;
    candidates := [];
    for row := 0 to m
      invariant unchanged(gs)
      invariant candidates == EligibleAmong(b, gs.positions, gs.playerCount, ScannedBefore(m, row, 0, 0))
    {
      for col := 0 to m
        invariant unchanged(gs)
        invariant candidates == EligibleAmong(b, gs.positions, gs.playerCount, ScannedBefore(m, row, col, 0))
      {
        for i := 0 to 2
          invariant unchanged(gs)
          invariant candidates == EligibleAmong(b, gs.positions, gs.playerCount, ScannedBefore(m, row, col, i))
        {
          var s := ScannedBefore(m, row, col, i);
          assert (s + [Wall(row, col, i == 0)])[..|s|] == s;
          candidates := TestCandidate(gs, Wall(row, col, i == 0), candidates);
        }
      }
    }
  }

  /** _easy_move with the outcome of random.random() < 0.3 as `wantWall` and random.choice
      left open: a wall only if wanted, budget remains and some candidate exists, and it is
      a candidate; otherwise one of the legal moves; nothing only when there is no legal move. */
  method EasyMove(gs: GameState, wantWall: bool) returns (action: Option<Action>)
    requires gs.Valid()
    modifies gs`hWalls, gs`vWalls
    ensures unchanged(gs)
    ensures gs.currentPlayer in gs.wallsRemaining
    ensures wantWall && gs.wallsRemaining[gs.currentPlayer] > 0 &&
            (exists w :: Eligible(gs.Walls(), gs.positions, gs.playerCount, w)) ==>
      action.Some? && action.value.PlaceAt?
    ensures action.Some? && action.value.PlaceAt? ==>
      wantWall && gs.wallsRemaining[gs.currentPlayer] > 0 &&
      Eligible(gs.Walls(), gs.positions, gs.playerCount, action.value.wall)
    ensures action.Some? && action.value.MoveTo? ==>
      action.value.cell in LegalMoves(gs.Walls(), gs.positions, gs.positions[gs.currentPlayer])
    ensures action.None? <==> (LegalMoves(gs.Walls(), gs.positions, gs.positions[gs.currentPlayer]) == [] &&
      !(wantWall && gs.wallsRemaining[gs.currentPlayer] > 0 &&
        exists w :: Eligible(gs.Walls(), gs.positions, gs.playerCount, w)))
  {
    var player := gs.currentPlayer;
    ghost var b := gs.Walls();
    if gs.wallsRemaining[player] > 0 && wantWall {
      var wallPlacements := EasyWallCandidates(gs);
      EasyCandidatesExact(b, gs.positions, gs.playerCount);
      if |wallPlacements| > 0 {
        assert wallPlacements[0] in wallPlacements;
        var w :| w in wallPlacements;
        return Some(PlaceAt(w));
      }
    }
    var legalMoves := GetLegalMoves(gs, player);
    if |legalMoves| > 0 {
      assert legalMoves[0] in legalMoves;
      var m :| m in legalMoves;
      return Some(MoveTo(m));
    }
    return None;
  }
}
