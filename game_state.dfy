/** The board state of a Quoridor game (game_state.py): pawn positions, the two
    (N-1)x(N-1) wall grids, the wall budgets, the turn pointer and the undo/redo
    history of full-state snapshots. */
module GameState {
  import opened Wrappers

  /** A board cell, the source's `[row, col]` pair. */
  datatype Cell = Cell(row: int, col: int)

  /** A wall grid: true at (r, c) is a wall segment anchored at that grid point. */
  type Grid = seq<seq<bool>>

  /** A wall segment as the engine addresses it: grid coordinates and orientation. */
  datatype Wall = Wall(row: int, col: int, horizontal: bool)

  predicate GridOk(g: Grid, n: int) {
    |g| == n - 1 && forall i :: 0 <= i < |g| ==> |g[i]| == n - 1
  }

  predicate InBounds(n: int, x: Cell) {
    0 <= x.row < n && 0 <= x.col < n
  }

  /** The wall coordinates of an N x N board, 0..N-2 in both directions. */
  predicate InRange(n: int, w: Wall) {
    0 <= w.row < n - 1 && 0 <= w.col < n - 1
  }

  /** The walls of a board: its size and both grids, as every query sees them. */
  datatype Board = Board(size: int, h: Grid, v: Grid) {
    predicate Valid() {
      size >= 1 && GridOk(h, size) && GridOk(v, size)
    }
  }

  /** Whether wall `w` is present on the board. */
  predicate Placed(b: Board, w: Wall)
    requires b.Valid()
  {
    InRange(b.size, w) && (if w.horizontal then b.h[w.row][w.col] else b.v[w.row][w.col])
  }

  /** `g` with the single cell (r, c) set to `value`. */
  function SetCell(g: Grid, r: int, c: int, value: bool): (g': Grid)
    requires 0 <= r < |g| && 0 <= c < |g[r]|
    ensures |g'| == |g| && forall i :: 0 <= i < |g| ==> |g'[i]| == |g[i]|
    ensures forall i, j :: 0 <= i < |g| && 0 <= j < |g[i]| ==>
      g'[i][j] == if i == r && j == c then value else g[i][j]
  {
    g[r := g[r][c := value]]
  }

  lemma {:induction false} SetCellBack(g: Grid, r: int, c: int)
    requires 0 <= r < |g| && 0 <= c < |g[r]| && !g[r][c]
    ensures SetCell(SetCell(g, r, c, true), r, c, false) == g
  {
    var g' := SetCell(SetCell(g, r, c, true), r, c, false);
    assert |g'| == |g|;
    forall i | 0 <= i < |g| ensures g'[i] == g[i] {
      assert |g'[i]| == |g[i]|;
      forall j | 0 <= j < |g[i]| ensures g'[i][j] == g[i][j] { }
    }
  }

  /** The board with wall `w` set: the tentative write `H[r][c] = True` / `V[r][c] = True`. */
  function Place(b: Board, w: Wall): (b': Board)
    requires b.Valid() && InRange(b.size, w)
    ensures b'.Valid() && b'.size == b.size
    ensures Placed(b', w)
    ensures forall w' :: InRange(b.size, w') && w' != w ==> (Placed(b', w') <==> Placed(b, w'))
  {
    if w.horizontal then Board(b.size, SetCell(b.h, w.row, w.col, true), b.v)
    else Board(b.size, b.h, SetCell(b.v, w.row, w.col, true))
  }

  /** Undoing the tentative write of a wall that was absent gives the board back. */
  lemma RevertPlace(b: Board, w: Wall)
    requires b.Valid() && InRange(b.size, w) && !Placed(b, w)
    ensures w.horizontal ==> SetCell(Place(b, w).h, w.row, w.col, false) == b.h && Place(b, w).v == b.v
    ensures !w.horizontal ==> SetCell(Place(b, w).v, w.row, w.col, false) == b.v && Place(b, w).h == b.h
  {
    if w.horizontal { SetCellBack(b.h, w.row, w.col); } else { SetCellBack(b.v, w.row, w.col); }
  }

  function EmptyGrid(n: int): (g: Grid)
    requires n >= 1
    ensures GridOk(g, n)
    ensures forall i, j :: 0 <= i < n - 1 && 0 <= j < n - 1 ==> !g[i][j]
  {
    seq(n - 1, _ => seq(n - 1, _ => false))
  }

  /** The ids that receive a pawn: 1 and 2 for two or more players, 3 and 4 as well for four or more. */
  function SeatIds(playerCount: int): set<int> {
    (if playerCount >= 2 then {1, 2} else {}) + (if playerCount >= 4 then {3, 4} else {})
  }

  /** get_initial_positions: top and bottom centre, then left and right centre. */
  function InitialPositions(playerCount: int, n: int): (pos: map<int, Cell>)
    ensures pos.Keys == SeatIds(playerCount)
  {
    var mid := n / 2;
    (if playerCount >= 2 then map[1 := Cell(0, mid), 2 := Cell(n - 1, mid)] else map[])
    + (if playerCount >= 4 then map[3 := Cell(mid, 0), 4 := Cell(mid, n - 1)] else map[])
  }

  /** The layout written entry by entry, as set_initial_positions does. */
  lemma InitialPositionsByWrites(playerCount: int, n: int)
    ensures var mid := n / 2;
      var two: map<int, Cell> := if playerCount >= 2 then map[][1 := Cell(0, mid)][2 := Cell(n - 1, mid)] else map[];
      InitialPositions(playerCount, n) == if playerCount >= 4 then two[3 := Cell(mid, 0)][4 := Cell(mid, n - 1)] else two
  {
  }

  /** No two seated players share a cell. */
  predicate PawnsApart(pos: map<int, Cell>) {
    forall p, q :: p in pos && q in pos && p != q ==> pos[p] != pos[q]
  }

  /** The initial layout is on the board, mirrored across the centre lines, and puts
      no two pawns on one cell once the board is at least 3 wide. */
  lemma InitialLayout(playerCount: int, n: int)
    requires n >= 1
    ensures var pos := InitialPositions(playerCount, n);
      (forall p :: p in pos ==> InBounds(n, pos[p])) &&
      (playerCount >= 2 ==> pos[1] == Cell(0, n / 2) && pos[2] == Cell(n - 1 - pos[1].row, pos[1].col)) &&
      (playerCount >= 4 ==> pos[3] == Cell(n / 2, 0) && pos[4] == Cell(pos[3].row, n - 1 - pos[3].col)) &&
      (n >= 3 ==> PawnsApart(pos))
  {
  }

  function Max(a: int, b: int): int { if a < b then b else a }

  /** The wall budget each player starts with (get_initial_walls). */
  function WallBudget(playerCount: int, n: int): (budget: int)
    ensures 3 <= budget <= 12
    ensures playerCount == 4 && n <= 7 ==> budget == 3
  {
    var base := if playerCount == 2 then 10 else if playerCount == 4 then 5 else 10;
    if n <= 7 then Max(3, base - 2) else if n >= 11 then base + 2 else base
  }

  /** The budget map built by the loop of get_initial_walls after ids 1..k. */
  function BudgetMap(k: int, budget: int): (walls: map<int, int>)
    ensures forall p :: p in walls <==> 1 <= p <= k
    ensures forall p :: p in walls ==> walls[p] == budget
    decreases k
  {
    if k < 1 then map[] else BudgetMap(k - 1, budget)[k := budget]
  }

  /** get_initial_walls: every id 1..player_count gets the same budget. */
  function InitialWalls(playerCount: int, n: int): (walls: map<int, int>)
  {
    BudgetMap(playerCount, WallBudget(playerCount, n))
  }

  /** Exactly the ids 1..player_count get a budget, all of them the same one, at least 3. */
  lemma InitialWallsShared(playerCount: int, n: int)
    ensures var walls := InitialWalls(playerCount, n);
      (forall p :: p in walls <==> 1 <= p <= playerCount) &&
      (forall p, q :: p in walls && q in walls ==> walls[p] == walls[q] >= 3)
  {
  }

  /** The budgets for the two configurations the setup offers, on small, standard and large boards. */
  lemma BudgetTable(n: int)
    ensures WallBudget(2, n) == (if n <= 7 then 8 else if n >= 11 then 12 else 10)
    ensures WallBudget(4, n) == (if n <= 7 then 3 else if n >= 11 then 7 else 5)
  {
  }

  /** A full-state snapshot, the dictionary built by save_game_state. */
  datatype Snapshot = Snapshot(
    positions: map<int, Cell>,
    hWalls: Grid,
    vWalls: Grid,
    currentPlayer: int,
    wallsRemaining: map<int, int>,
    gameOver: bool,
    boardSize: int,
    playerCount: int)

  /** What every state the engine builds satisfies: grid shapes, the seated ids, pawns on
      the board, a budget per id, and a seated player to move. */
  predicate Consistent(s: Snapshot) {
    s.boardSize >= 1 && s.playerCount >= 2 &&
    GridOk(s.hWalls, s.boardSize) && GridOk(s.vWalls, s.boardSize) &&
    s.positions.Keys == SeatIds(s.playerCount) &&
    (forall p :: p in s.positions ==> InBounds(s.boardSize, s.positions[p])) &&
    (forall p :: p in s.wallsRemaining ==> 1 <= p <= s.playerCount) &&
    (forall p :: 1 <= p <= s.playerCount ==> p in s.wallsRemaining) &&
    s.currentPlayer in s.positions
  }

  /** The snapshot of a game just set up: empty grids, the initial layout and budgets,
      player 1 to move. */
  function FreshSnapshot(boardSize: int, playerCount: int): Snapshot
    requires boardSize >= 1
  {
    Snapshot(InitialPositions(playerCount, boardSize), EmptyGrid(boardSize), EmptyGrid(boardSize), 1,
             InitialWalls(playerCount, boardSize), false, boardSize, playerCount)
  }

  /** A freshly set up game satisfies the state invariant. */
  lemma FreshConsistent(boardSize: int, playerCount: int)
    requires boardSize >= 1 && playerCount >= 2
    ensures Consistent(FreshSnapshot(boardSize, playerCount))
  {
    InitialLayout(playerCount, boardSize);
    InitialWallsShared(playerCount, boardSize);
  }

  /** A snapshot that can be restored into a game of this size and player count. */
  predicate Fits(s: Snapshot, boardSize: int, playerCount: int) {
    Consistent(s) && s.boardSize == boardSize && s.playerCount == playerCount
  }

  predicate AllFit(ss: seq<Snapshot>, boardSize: int, playerCount: int) {
    forall i :: 0 <= i < |ss| ==> Fits(ss[i], boardSize, playerCount)
  }

  /** The present state with its undo history and redo stack. */
  datatype Timeline = Timeline(history: seq<Snapshot>, present: Snapshot, redo: seq<Snapshot>)

  /** Every snapshot of a timeline is consistent and of the present's size and player count. */
  predicate Coherent(t: Timeline) {
    Consistent(t.present) &&
    AllFit(t.history, t.present.boardSize, t.present.playerCount) &&
    AllFit(t.redo, t.present.boardSize, t.present.playerCount)
  }

  /** save_game_state: push the present onto the history and empty the redo stack. */
  function Save(t: Timeline): Timeline {
    Timeline(t.history + [t.present], t.present, [])
  }

  /** undo_action: None on an empty history; otherwise the present moves to the redo
      stack and the last snapshot becomes the present. */
  function Undo(t: Timeline): Option<Timeline> {
    if t.history == [] then None
    else Some(Timeline(t.history[..|t.history| - 1], t.history[|t.history| - 1], t.redo + [t.present]))
  }

  /** redo_action: the mirror image of Undo. */
  function Redo(t: Timeline): Option<Timeline> {
    if t.redo == [] then None
    else Some(Timeline(t.history + [t.present], t.redo[|t.redo| - 1], t.redo[..|t.redo| - 1]))
  }

  /** Undo then redo gives back exactly the timeline before the undo. */
  lemma RedoUndoes(t: Timeline)
    requires t.history != []
    ensures Undo(t).Some? && Redo(Undo(t).value) == Some(t)
  {
    var u := Undo(t).value;
    assert u.history + [u.present] == t.history;
    assert u.redo[..|u.redo| - 1] == t.redo;
  }

  /** Redo then undo gives back exactly the timeline before the redo. */
  lemma UndoRedoes(t: Timeline)
    requires t.redo != []
    ensures Redo(t).Some? && Undo(Redo(t).value) == Some(t)
  {
    var u := Redo(t).value;
    assert u.history[..|u.history| - 1] == t.history;
    assert u.redo + [u.present] == t.redo;
  }

  /** The snapshot-then-act protocol of the turn dispatcher: after Save and an action that
      turns the present into `next`, undo restores the saved present and keeps `next` for redo;
      a redo then reproduces `next`. Neither stack can ever be popped when empty. */
  lemma SaveActUndoRedo(t: Timeline, next: Snapshot)
    ensures Redo(Save(t)) == None
    ensures Undo(Save(t).(present := next)) == Some(Timeline(t.history, t.present, [next]))
    ensures Redo(Timeline(t.history, t.present, [next])) == Some(Save(t).(present := next))
    ensures Undo(Timeline([], t.present, t.redo)) == None && Redo(Timeline(t.history, t.present, [])) == None
  {
    assert (t.history + [t.present])[..|t.history|] == t.history;
    assert [] + [next] == [next];
    assert [next][..0] == [];
  }

  /** The i-th id after `current` in the cyclic scan `p % player_count + 1` of get_next_player. */
  function Cyc(current: int, i: nat, playerCount: int): int
    requires playerCount >= 1
  {
    if i == 0 then current else Cyc(current, i - 1, playerCount) % playerCount + 1
  }

  lemma {:induction false} MulAtLeast(x: int, m: int)
    requires x >= 1 && m > 0
    ensures x * m >= m
  {
    if x > 1 {
      MulAtLeast(x - 1, m);
      assert x * m == (x - 1) * m + m;
    }
  }

  /** Euclidean division leaves a unique remainder. */
  lemma ModUnique(a: int, m: int, q: int, r: int)
    requires m > 0 && 0 <= r < m && a == q * m + r
    ensures a % m == r
  {
    var q0, r0 := a / m, a % m;
    assert a == q0 * m + r0;
    assert (q - q0) * m == r0 - r;
    if q > q0 {
      MulAtLeast(q - q0, m);
    } else if q < q0 {
      MulAtLeast(q0 - q, m);
    }
  }

  lemma ModSucc(a: int, m: int)
    requires m > 0
    ensures (a % m + 1) % m == (a + 1) % m
  {
    var q, r := a / m, a % m;
    assert a == q * m + r;
    if r + 1 < m {
      ModUnique(r + 1, m, 0, r + 1);
      ModUnique(a + 1, m, q, r + 1);
    } else {
      assert (q + 1) * m == q * m + m;
      ModUnique(r + 1, m, 1, 0);
      ModUnique(a + 1, m, q + 1, 0);
    }
  }

  lemma ModShift(a: int, b: int, m: int)
    requires m > 0
    ensures (a + b % m) % m == (a + b) % m
  {
    var x := a + b % m;
    var q, r := x / m, x % m;
    assert x == q * m + r;
    assert b == (b / m) * m + b % m;
    assert a + b == (q + b / m) * m + r;
    ModUnique(a + b, m, q + b / m, r);
  }

  lemma {:induction false} CycFormula(current: int, i: nat, playerCount: int)
    requires playerCount >= 1 && i >= 1
    ensures Cyc(current, i, playerCount) == (current + i - 1) % playerCount + 1
  {
    if i > 1 {
      var a := current + i - 2;
      CycFormula(current, i - 1, playerCount);
      assert Cyc(current, i - 1, playerCount) == a % playerCount + 1;
      ModSucc(a, playerCount);
      assert Cyc(current, i, playerCount) == (a % playerCount + 1) % playerCount + 1;
      assert a + 1 == current + i - 1;
    }
  }

  /** Every id 1..player_count comes up within player_count steps of the scan. */
  lemma CycReaches(current: int, k: int, playerCount: int) returns (j: nat)
    requires playerCount >= 1 && 1 <= k <= playerCount
    ensures 1 <= j <= playerCount && Cyc(current, j, playerCount) == k
  {
    j := (k - current - 1) % playerCount + 1;
    CycFormula(current, j, playerCount);
    ModShift(current, k - current - 1, playerCount);
    ModUnique(k - 1, playerCount, 0, k - 1);
  }

  /** `next` is the first id of the cyclic scan after `current` that has a pawn. */
  ghost predicate IsNextPlayer(positions: map<int, Cell>, playerCount: int, current: int, next: int)
    requires playerCount >= 1
  {
    1 <= next <= playerCount && next in positions &&
    exists j: nat :: 1 <= j <= playerCount && Cyc(current, j, playerCount) == next &&
      forall i :: 1 <= i < j ==> Cyc(current, i, playerCount) !in positions
  }

  /** When the id right after `current` is seated (always, when the pawns are exactly
      1..player_count), the next player is `current % player_count + 1`: the turn wraps. */
  lemma NextPlayerWraps(positions: map<int, Cell>, playerCount: int, current: int, next: int)
    requires playerCount >= 1 && current % playerCount + 1 in positions
    requires IsNextPlayer(positions, playerCount, current, next)
    ensures next == current % playerCount + 1
  {
    var j: nat :| 1 <= j <= playerCount && Cyc(current, j, playerCount) == next &&
      forall i :: 1 <= i < j ==> Cyc(current, i, playerCount) !in positions;
    assert Cyc(current, 1, playerCount) == current % playerCount + 1;
  }

  /** The GameState object: one owned, mutable board shared by all engines. */
  class GameState {
    var boardSize: int
    var playerCount: int
    var currentPlayer: int
    var gameOver: bool
    var positions: map<int, Cell>
    var initialPositions: map<int, Cell>
    var hWalls: Grid
    var vWalls: Grid
    var wallsRemaining: map<int, int>
    var history: seq<Snapshot>
    var redoStack: seq<Snapshot>

    /** The fields a snapshot records. */
    function Current(): Snapshot
      reads this
    {
      Snapshot(positions, hWalls, vWalls, currentPlayer, wallsRemaining, gameOver, boardSize, playerCount)
    }

    function Walls(): Board
      reads this
    {
      Board(boardSize, hWalls, vWalls)
    }

    function View(): Timeline
      reads this
    {
      Timeline(history, Current(), redoStack)
    }

    ghost predicate Valid()
      reads this
    {
      Coherent(View())
    }

    lemma WallsValid()
      requires Valid()
      ensures Walls().Valid()
    {
    }

    /** __init__: a fresh game with empty grids, player 1 to move and empty stacks. */
    constructor (boardSize: int, playerCount: int)
      requires boardSize >= 1 && playerCount >= 2
      ensures Valid()
      ensures Current() == FreshSnapshot(boardSize, playerCount)
      ensures history == [] && redoStack == [] && initialPositions == positions
    {
      this.boardSize := boardSize;
      this.playerCount := playerCount;
      currentPlayer := 1;
      history := [];
      redoStack := [];
      gameOver := false;
      hWalls := EmptyGrid(boardSize);
      vWalls := EmptyGrid(boardSize);
      new;
      SetInitialPositions();
      wallsRemaining := InitialWalls(playerCount, boardSize);
      FreshConsistent(boardSize, playerCount);
      assert Current() == FreshSnapshot(boardSize, playerCount);
    }

    /** set_initial_positions: both position maps get the initial layout; the two dictionaries
        receive the same entries in the same order, built here once. */
    method SetInitialPositions()
      modifies this`positions, this`initialPositions
      ensures positions == InitialPositions(playerCount, boardSize) && initialPositions == positions
    {
      var mid := boardSize / 2;
      var layout: map<int, Cell> := map[];
      if playerCount >= 2 {
        layout := layout[1 := Cell(0, mid)];
        layout := layout[2 := Cell(boardSize - 1, mid)];
      }
      if playerCount >= 4 {
        layout := layout[3 := Cell(mid, 0)];
        layout := layout[4 := Cell(mid, boardSize - 1)];
      }
      InitialPositionsByWrites(playerCount, boardSize);
      initialPositions, positions := layout, layout;
    }

    /** save_game_state: appends one snapshot of the present and clears the redo stack. */
    method SaveGameState() returns (state: Snapshot)
      requires Valid()
      modifies this`history, this`redoStack
      ensures Valid()
      ensures state == Current()
      ensures View() == Save(old(View()))
    {
      state := Current();
      history := history + [state];
      redoStack := [];
    }

    method Restore(s: Snapshot)
      requires Fits(s, boardSize, playerCount)
      modifies this`positions, this`hWalls, this`vWalls, this`currentPlayer, this`wallsRemaining, this`gameOver
      ensures Current() == s
    {
      positions := s.positions;
      hWalls := s.hWalls;
      vWalls := s.vWalls;
      currentPlayer := s.currentPlayer;
      wallsRemaining := s.wallsRemaining;
      gameOver := s.gameOver;
    }

    /** undo_action: false and no change on an empty history; otherwise the present goes
        onto the redo stack and the last snapshot is restored. */
    method UndoAction() returns (ok: bool)
      requires Valid()
      modifies this`positions, this`hWalls, this`vWalls, this`currentPlayer, this`wallsRemaining,
        this`gameOver, this`history, this`redoStack
      ensures Valid()
      ensures ok == (old(history) != [])
      ensures View() == if ok then Undo(old(View())).value else old(View())
    {
      if history == [] {
        return false;
      }
      var currentState := Current();
      redoStack := redoStack + [currentState];
      var state := history[|history| - 1];
      history := history[..|history| - 1];
      Restore(state);
      ok := true;
    }

    /** redo_action: the mirror image of undo_action. */
    method RedoAction() returns (ok: bool)
      requires Valid()
      modifies this`positions, this`hWalls, this`vWalls, this`currentPlayer, this`wallsRemaining,
        this`gameOver, this`history, this`redoStack
      ensures Valid()
      ensures ok == (old(redoStack) != [])
      ensures View() == if ok then Redo(old(View())).value else old(View())
    {
      if redoStack == [] {
        return false;
      }
      var currentState := Current();
      history := history + [currentState];
      var state := redoStack[|redoStack| - 1];
      redoStack := redoStack[..|redoStack| - 1];
      Restore(state);
      ok := true;
    }

    /** get_next_player: the `while True` scan `p % player_count + 1` until a seated id;
        it stops within player_count steps once any of 1..player_count is seated. */
    method GetNextPlayer() returns (next: int)
      requires playerCount >= 1 && exists k :: k in positions && 1 <= k <= playerCount
      ensures IsNextPlayer(positions, playerCount, currentPlayer, next)
    {
      ghost var k :| k in positions && 1 <= k <= playerCount;
      ghost var target := CycReaches(currentPlayer, k, playerCount);
      next := currentPlayer;
      ghost var i: nat := 0;
      while true
        invariant 0 <= i < target
        invariant next == Cyc(currentPlayer, i, playerCount)
        invariant forall t :: 1 <= t <= i ==> Cyc(currentPlayer, t, playerCount) !in positions
        decreases target - i
      {
        next := next % playerCount + 1;
        i := i + 1;
        assert next == Cyc(currentPlayer, i, playerCount);
        if next in positions {
          return;
        }
      }
    }

    /** switch_turn: the turn passes to the next seated player. */
    method SwitchTurn()
      requires Valid()
      modifies this`currentPlayer
      ensures Valid()
      ensures IsNextPlayer(positions, playerCount, old(currentPlayer), currentPlayer)
    {
      assert 1 in positions;
      var next := GetNextPlayer();
      currentPlayer := next;
    }

    /** validate_turn: only the player to move may act, and nobody once the game is over. */
    predicate ValidateTurn(player: int): (allowed: bool)
      reads this
      ensures allowed ==> !gameOver
      ensures allowed ==> player == currentPlayer
      ensures Valid() && allowed ==> player in positions && 1 <= player <= playerCount && player in wallsRemaining
    {
      currentPlayer == player && !gameOver
    }

    /** other_player_at: the first id, in the ascending order in which the pawns were
        entered, whose pawn stands on (row, col), or None. */
    method OtherPlayerAt(row: int, col: int) returns (p: Option<int>)
      requires Valid()
      ensures p.Some? ==> p.value in positions && positions[p.value] == Cell(row, col) &&
                          forall q :: q in positions && q < p.value ==> positions[q] != Cell(row, col)
      ensures p.None? ==> forall q :: q in positions ==> positions[q] != Cell(row, col)
    {
      for id := 1 to playerCount + 1
        invariant forall q :: q in positions && q < id ==> positions[q] != Cell(row, col)
      {
        if id in positions && positions[id] == Cell(row, col) {
          return Some(id);
        }
      }
      return None;
    }

    /** reset_game: the state of a fresh game of the given size and player count. */
    method ResetGame(boardSize: int, playerCount: int)
      requires boardSize >= 1 && playerCount >= 2
      modifies this
      ensures Valid()
      ensures Current() == FreshSnapshot(boardSize, playerCount)
      ensures history == [] && redoStack == [] && initialPositions == positions
    {
      var initial := InitialPositions(playerCount, boardSize);
      var empty := EmptyGrid(boardSize);
      var walls := InitialWalls(playerCount, boardSize);
      FreshConsistent(boardSize, playerCount);
      this.boardSize, this.playerCount, currentPlayer := boardSize, playerCount, 1;
      history, redoStack, gameOver := [], [], false;
      initialPositions, positions := initial, initial;
      hWalls, vWalls, wallsRemaining := empty, empty, walls;
    }
  }

  /** check_victory: in ascending id order, P1 on row N-1, P2 on row 0, and with four
      players P3 on column N-1 and P4 on column 0; the first match wins. */
  function CheckVictory(n: int, playerCount: int, positions: map<int, Cell>): (winner: Option<int>)
    requires playerCount == 2 ==> 1 in positions && 2 in positions
    requires playerCount == 4 ==> 1 in positions && 2 in positions && 3 in positions && 4 in positions
    ensures winner.Some? ==> (playerCount == 2 || playerCount == 4) && 1 <= winner.value <= playerCount
    ensures playerCount != 2 && playerCount != 4 ==> winner.None?
    ensures (playerCount == 2 || playerCount == 4) && positions[1].row == n - 1 ==> winner == Some(1)
  {
    if playerCount == 2 then
      if positions[1].row == n - 1 then Some(1)
      else if positions[2].row == 0 then Some(2)
      else None
    else if playerCount == 4 then
      if positions[1].row == n - 1 then Some(1)
      else if positions[2].row == 0 then Some(2)
      else if positions[3].col == n - 1 then Some(3)
      else if positions[4].col == 0 then Some(4)
      else None
    else None
  }
}
