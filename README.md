# Quoridor rules engine in Dafny

This project models the rules engine of a Quoridor game for two or four players on an
N x N board. The engine has five parts:

- the mutable game state: pawns, the two wall-anchor grids, wall budgets, the turn, and the undo and redo stacks;
- legal-move generation with the jump and diagonal side-step rules;
- breadth-first reachability and shortest-distance searches over open edges;
- wall validation and placement, which keeps every player a route to its goal;
- the computer player's easy, medium and hard decision tiers.

Module layout, one module per source file:

- `GameState` (`game_state.dfy`) holds the pure board value `Board(size, h, v)` used by every specification function. It also holds the class `GameState`, whose fields the engine reassigns in place, and the snapshot `Timeline` that specifies undo and redo.
- `Movement` (`movement.dfy`) covers blocked edges and legal moves. It contains the edge semantics of wall segments, the reference definition `LegalMoves`, and the imperative `GetLegalMoves` and `MakeMove`.
- `Pathfinding` (`pathfinding.dfy`) covers neighbours and goal cells. It defines reachability within k steps (`Within`), the distance `Distance : Dist = Fin(n) | Inf`, and the two breadth-first searches proved against them.
- `WallPlacement` (`wall_placement.dfy`) covers the checks of `is_valid_wall_placement` in their fixed order, and the tentative write of `place_wall` that is taken back when it would cut a player off. The same write and take-back serve the computer player's trial placements.
- `QuoridorAI` (`ai.dfy`) covers the main opponent, the winning-move test, the best blocking wall (first maximum in scan order), and the medium, hard and easy tiers. Every tier leaves the game state exactly as it found it.

Every search returns what a reference definition says. That definition is a function of the board, the pawns and the budgets. Lemmas then prove what the source promises about each one:
- the BFS distance is the least number of open steps;
- walls only lengthen routes;
- the blocking wall is the first wall of maximal gain;
- the medium move is the first move of least distance;
- the hard tier wins when it can.

Where the tiers' docstrings and the code disagree, the model follows the code. `_hard_move` is described as minimax with alpha-beta pruning, but it performs no game-tree search.

## Model

| member | source | states |
|---|---|---|
| GameState.Place | wall_placement.py:56-60 | writing one wall anchor keeps the grids well-shaped, puts that wall on the board and leaves every other wall as it was |
| GameState.RevertPlace | wall_placement.py:64-67 | writing False back over a wall that was absent gives back the original grids |
| GameState.EmptyGrid | game_state.py:22-23 | the fresh (N-1) x (N-1) grid has no wall |
| GameState.InitialPositions | game_state.py:51-64 | exactly ids 1,2 are seated for two players and 1..4 for four |
| GameState.InitialLayout | game_state.py:29-64 | the starting cells are on the board, mirror images across the centre lines, and pairwise distinct once N >= 3 |
| GameState.InitialPositionsByWrites | game_state.py:29-49 | writing seats 1 and 2, then 3 and 4, entry by entry gives the layout of get_initial_positions |
| GameState.FreshConsistent | game_state.py:8-27 | a freshly set up game satisfies the state invariant: grid shapes, seated ids, pawns on the board, a budget per id and a seated player to move |
| GameState.WallBudget | game_state.py:66-80 | the starting budget lies in 3..12, and is 3 for four players on a board of at most 7 |
| GameState.BudgetMap | game_state.py:82-85 | the loop gives exactly ids 1..k an entry, each equal to the budget |
| GameState.InitialWallsShared | game_state.py:66-85 | exactly the ids 1..player_count get a budget, all the same and at least 3 |
| GameState.BudgetTable | game_state.py:68-80 | two players get 8/10/12 walls and four players 3/5/7 on small, standard and large boards |
| GameState.RedoUndoes | game_state.py:104-158 | undo followed by redo gives back exactly the timeline before the undo |
| GameState.UndoRedoes | game_state.py:104-158 | redo followed by undo gives back exactly the timeline before the redo |
| GameState.SaveActUndoRedo | game_state.py:87-158 | after a save and an action, undo restores the saved present and keeps the action for redo, redo replays it, and an empty stack is never popped |
| GameState.CycFormula | game_state.py:207-209 | the i-th id of the scan `p % player_count + 1` is `(current + i - 1) % player_count + 1` |
| GameState.CycReaches | game_state.py:205-211 | every id 1..player_count comes up within player_count steps of the scan |
| GameState.NextPlayerWraps | game_state.py:205-211 | when the id right after the current one is seated, the next player is `current % player_count + 1` |
| GameState.CheckVictory | game_state.py:216-241 | a winner is an id in 1..player_count, nobody wins outside the two- and four-player setups, and player 1 on the last row wins first; the full characterisation, the lowest id standing on its own goal cells, is Pathfinding.VictoryIsGoal |
| GameState.GameState.constructor | game_state.py:8-27 | a fresh valid game: the present state is the fresh snapshot (empty grids, the initial layout, the initial budgets, player 1 to move), both position maps agree and both stacks are empty |
| GameState.GameState.SetInitialPositions | game_state.py:29-49 | both position maps become the initial layout of get_initial_positions |
| GameState.GameState.SaveGameState | game_state.py:87-102 | returns the present snapshot, appends it to the history and empties the redo stack |
| GameState.GameState.Restore | game_state.py:123-129 | the present state becomes the given snapshot |
| GameState.GameState.UndoAction | game_state.py:104-130 | false and nothing changes on an empty history; otherwise the state becomes Undo of the timeline |
| GameState.GameState.RedoAction | game_state.py:132-158 | false and nothing changes on an empty redo stack; otherwise the state becomes Redo of the timeline |
| GameState.GameState.GetNextPlayer | game_state.py:205-211 | the `while True` loop stops, at the first seated id of the cyclic scan |
| GameState.GameState.SwitchTurn | game_state.py:201-203 | the turn passes to the next seated player in the cyclic scan |
| GameState.GameState.ValidateTurn | game_state.py:213-214 | a player may act only while the game is not over, and in a valid state only a seated id 1..player_count with a wall budget may; since only the player to move passes, at most one player may act at a time |
| GameState.GameState.OtherPlayerAt | game_state.py:243-247 | returns the lowest id whose pawn stands on the cell, or None exactly when no pawn does |
| GameState.GameState.ResetGame | game_state.py:249-266 | whatever the state before, it becomes a valid fresh game of the given size and player count, with both position maps agreeing and both stacks empty |
| Movement.CoversTwoEdges | movement.py:14-48 | a wall segment spans exactly two distinct edges, each between 4-adjacent cells |
| Movement.IsBlockedBetween | movement.py:7-50 | two cells that are not 4-adjacent are always blocked, and on a board with empty grids no step between 4-adjacent cells is |
| Movement.VerticalMoveBlockedIff | movement.py:14-30 | a step up or down is blocked exactly when a placed wall spans that edge |
| Movement.HorizontalMoveBlockedIff | movement.py:32-48 | a step left or right is blocked exactly when a placed wall spans that edge |
| Movement.BlockedIff | movement.py:7-50 | two cells are blocked exactly when they are not 4-adjacent or a placed wall spans their edge |
| Movement.BlockedSymmetric | movement.py:7-50 | blocking does not depend on the direction of travel |
| Movement.BlockedAfterPlace | movement.py:7-50 | after placing a wall, an edge is blocked exactly when it was blocked before or the new wall spans it |
| Movement.IndexOf | movement.py:86-90 | the first index at which a move occurs |
| Movement.IndexOfUnique | movement.py:86-90 | an index before which the move does not occur is the first index |
| Movement.DedupFirstOccurrences | movement.py:86-91 | duplicate removal keeps exactly the same moves, each once, in order of first occurrence |
| Movement.SideStepsExact | movement.py:75-82 | the diagonal destinations are exactly the two perpendicular cells beside the pawn that are on the board, open and empty |
| Movement.DirectionGeometry | movement.py:56-82 | a step is one cell away; a straight jump and a diagonal side-step are two cells away |
| Movement.DirectionMovesSound | movement.py:58-84 | every destination found in one direction is on the board and empty, and is an open neighbour or two cells away |
| Movement.RawMovesSound | movement.py:52-85 | every collected destination is on the board, empty, and an open neighbour or two cells away |
| Movement.LegalMovesSound | movement.py:52-91 | every legal move is on the board, empty, and an open neighbour or a jump/side-step two cells away |
| Movement.RawMovesContains | movement.py:58-84 | all destinations of each direction are collected |
| Movement.JumpRule | movement.py:58-84 | per direction: a closed edge gives nothing; an empty neighbour gives the step; an occupied one gives the straight jump when it is free, else exactly the free diagonal side-steps; each of these is legal |
| Movement.MoveKeepsPawnsApart | movement.py:93-100 | a legal move never puts two pawns on one cell |
| Movement.ScanDirection | movement.py:58-84 | the loop body for one direction collects exactly that direction's destinations |
| Movement.LandingFree | movement.py:70-81 | the landing test for a jump or a diagonal holds exactly when the cell is on the board, the edge is open and no pawn stands there |
| Movement.RemoveDuplicates | movement.py:86-91 | the loop builds the duplicate-free list |
| Movement.GetLegalMoves | movement.py:52-91 | returns exactly LegalMoves of the pawn's cell |
| Movement.MakeMove | movement.py:93-100 | succeeds exactly when the target is a legal move, and then only that player's pawn moves there; otherwise nothing changes |
| Pathfinding.NeighborListExact | pathfinding.py:9-20 | the neighbour list holds exactly the open, on-board, 4-adjacent cells |
| Pathfinding.NeighborIsOpen | pathfinding.py:9-20 | every listed neighbour is reachable in one open step |
| Pathfinding.Neighbors | pathfinding.py:9-20 | the loop returns the neighbour list in source direction order |
| Pathfinding.GoalCells | pathfinding.py:39-58 | every listed goal cell is on the board and on the player's goal side, and none is listed twice |
| Pathfinding.GoalCellsExact | pathfinding.py:39-58 | the goal cells are exactly the cells of the player's goal row or column, and there are none outside the two- and four-player setups |
| Pathfinding.InAllCells | pathfinding.py:71-81 | every on-board cell is one of the cells a search can visit |
| Pathfinding.FirstWithin | pathfinding.py:74-81 | the least number of steps within which a goal is reachable |
| Pathfinding.Distance | pathfinding.py:67-82 | the distance is the least number of open steps to a goal cell, or Inf when none is reachable |
| Pathfinding.DistanceUnique | pathfinding.py:67-82 | any value meeting the distance definition is the distance |
| Pathfinding.DistanceZeroIffOnGoal | pathfinding.py:74-77 | the distance is 0 exactly on a goal cell, and finite exactly when a goal is reachable |
| Pathfinding.WithinBound | pathfinding.py:78-81 | k steps move a pawn at most k rows and k columns |
| Pathfinding.DistanceAtLeastRowGap | pathfinding.py:44-53 | a route to the bottom or top row is at least as long as the rows left to cross |
| Pathfinding.WithinAfterPlace | pathfinding.py:9-20 | a cell reachable within k steps after placing a wall was reachable within k steps before |
| Pathfinding.WallsOnlyLengthen | pathfinding.py:67-82 | placing a wall never shortens a route and never creates one |
| Pathfinding.WithinStep | pathfinding.py:78-81 | one open step from a cell reachable within k steps reaches within k+1 |
| Pathfinding.ClosedHoldsReachable | pathfinding.py:29-37 | a set holding the start and closed under open steps holds every reachable cell |
| Pathfinding.RemoveOne | pathfinding.py:33-36 | marking a new cell visited shrinks the unvisited set by one |
| Pathfinding.VisitNeighbors | pathfinding.py:33-36 | expanding a reachable cell queues only reachable cells, marks every open neighbour visited, and decreases the termination measure |
| Pathfinding.VisitAll | pathfinding.py:33-36 | the loop over the neighbour list only appends to the queue, appends only listed neighbours, marks every listed neighbour visited, and marks nothing it did not queue |
| Pathfinding.VisitOne | pathfinding.py:34-36 | an unvisited neighbour is marked visited and queued; a visited one changes nothing |
| Pathfinding.QueuedReachable | pathfinding.py:29-36 | cells queued from the open neighbours of a reachable cell are reachable |
| Pathfinding.ExistsPathToGoal | pathfinding.py:22-37 | the search returns true exactly when a goal cell is reachable |
| Pathfinding.SeenUpToLevel | pathfinding.py:74-81 | every cell within the current level is the start or visited |
| Pathfinding.AdvanceLevel | pathfinding.py:74-75 | popping the queue head keeps the queue sorted by distance and finishes every earlier layer |
| Pathfinding.PopHead | pathfinding.py:74-75 | the popped entry carries the true distance of its cell |
| Pathfinding.FoundGoal | pathfinding.py:76-77 | the first goal cell popped is at the shortest distance |
| Pathfinding.FinishExpand | pathfinding.py:78-81 | expanding a non-goal cell keeps the search invariant |
| Pathfinding.Exhausted | pathfinding.py:82 | an empty queue means no goal is reachable |
| Pathfinding.NewEntryOk | pathfinding.py:79-81 | a newly enqueued neighbour is reachable within d+1 steps and not within fewer unless already expanded |
| Pathfinding.AppendedOk | pathfinding.py:78-81 | entries appended by expansion keep the queue invariant |
| Pathfinding.ExpandCell | pathfinding.py:78-81 | the inner loop appends each unvisited open neighbour at distance d+1 and marks it visited |
| Pathfinding.EnqueueAll | pathfinding.py:78-81 | the loop over the neighbour list only appends entries at distance d+1 of listed, previously unvisited cells, marks every listed neighbour visited, and marks nothing it did not queue |
| Pathfinding.EnqueueOne | pathfinding.py:79-81 | an unvisited neighbour is marked visited and queued at distance d+1; a visited one changes nothing |
| Pathfinding.ExpandStep | pathfinding.py:75-81 | expanding a popped non-goal cell keeps the search invariant with that cell counted as expanded, and decreases the termination measure |
| Pathfinding.SearchStarts | pathfinding.py:71-72 | the search invariant holds before the first pop, with only the start queued at distance 0 |
| Pathfinding.ShortestPathLength | pathfinding.py:67-82 | the search returns exactly the distance: Fin(least steps) or Inf |
| Pathfinding.SeatedOnceFirstReaches | pathfinding.py:60-65 | in a consistent game the scan reaches an id past 1 only when player 1 has a route, and then every id it reaches is seated |
| Pathfinding.PathsExistForAllPlayers | pathfinding.py:60-65 | true exactly when every player 1..player_count is seated and can reach its goal, on every consistent game and without looking up an unseated id |
| Pathfinding.VictoryIsGoal | game_state.py:216-241 | check_victory names p exactly when p is the lowest id standing on its own goal cells, and then p's distance is 0 |
| WallPlacement.IsValidWallPlacement | wall_placement.py:5-46 | accepted exactly when the reason is empty; an accepted wall is in range and not yet on the board |
| WallPlacement.OverlapsIff | wall_placement.py:19-23 | two walls share an edge exactly when they have the same orientation, lie on the same line, and are less than two cells apart |
| WallPlacement.ValidIff | wall_placement.py:5-46 | a wall is accepted exactly when it is in range, shares no edge with a placed wall, and no placed wall stands in one of its rejected crossing positions |
| WallPlacement.ReasonBoundsAndExists | wall_placement.py:11-17 | "Out of bounds" exactly when the anchor is outside 0..N-2; "Wall exists" exactly when the same wall is already placed |
| WallPlacement.NoSameJunctionCrossing | wall_placement.py:25-44 | a horizontal and a vertical wall through the same junction are never both accepted |
| WallPlacement.AcceptedKeepsWallsDisjoint | wall_placement.py:5-46 | placing only accepted walls keeps every edge spanned by at most one wall |
| WallPlacement.PlacementOrderMatters | wall_placement.py:25-44 | whether a crossing pair is accepted depends on which wall is placed first |
| WallPlacement.PutWall | wall_placement.py:56-60 | the tentative write keeps the state valid and places exactly that wall |
| WallPlacement.TakeBackWall | wall_placement.py:63-67 | the reverting write gives back the board the wall was tried on |
| WallPlacement.WriteWall | wall_placement.py:53-68 | the wall stays exactly unless a path finder is attached and some player would be cut off, in which case the board is as before |
| WallPlacement.PlaceWall | wall_placement.py:48-73 | an invalid wall is refused with its reason and nothing changes; a wall that cuts a player off (checked only with a path finder) is refused and taken back; otherwise it stays, so every player keeps a route, and the mover's budget drops by one |
| QuoridorAI.MainOpponent | ai.py:173-182 | 3 - p for two players; otherwise the smallest other id in 1..player_count, and 2 when there is none |
| QuoridorAI.GetMainOpponent | ai.py:173-182 | the scanning loop returns the main opponent |
| QuoridorAI.MainOpponentSeated | ai.py:173-182 | the full-seating special case of MainOpponentPresent: a consistent game whose seats 1..player_count are all filled has two or four players, and the main opponent is another seated player |
| QuoridorAI.MainOpponentPresent | ai.py:173-182 | in any consistent game the main opponent of a seated player is another seated player |
| QuoridorAI.IsWinningMove | ai.py:184-204 | a square wins exactly when it lies on the goal side that get_goal_cells assigns to the player, and never outside the two- and four-player setups |
| QuoridorAI.WinningMoveIsGoal | ai.py:184-204 | an on-board cell is a winning destination exactly when it is one of the player's goal cells |
| QuoridorAI.ScannedBeforeExact | ai.py:211-213 | the walls scanned before (row, col, orientation) are exactly the walls before it in row-major, horizontal-first order |
| QuoridorAI.ScannedBeforeSorted | ai.py:211-213 | the scan visits walls in strictly increasing row-major, horizontal-first order |
| QuoridorAI.ScanOrderExact | ai.py:211-213 | the scan visits every in-range wall anchor exactly once, in that order |
| QuoridorAI.EligibleGain | ai.py:217-227 | for a valid, path-preserving wall both distances are finite and the improvement is their nonnegative difference |
| QuoridorAI.FirstBestIsFirstMaximum | ai.py:208-231 | the accumulator is the first eligible entry of strictly positive, maximal improvement, or None with 0 |
| QuoridorAI.Scores | ai.py:214-231 | one measurement per scanned wall, in scan order |
| QuoridorAI.ScoreFields | ai.py:214-231 | a wall's measurement records that wall, is eligible exactly when it is valid and path-preserving, and then carries the wall's gain |
| QuoridorAI.LexSortedIndexOrder | ai.py:211-213 | in a scan sorted row-major, horizontal first, a wall that comes earlier in that order has an earlier index |
| QuoridorAI.ScoredFirstMax | ai.py:208-231 | over a sorted scan, the accumulator's wall has maximal gain and every wall earlier in row-major order has strictly less; None means gain 0 |
| QuoridorAI.BestWallIsFirstMaximum | ai.py:206-239 | the best blocking wall is valid and path-preserving and lengthens the target's route; no eligible wall lengthens it more; every earlier wall in scan order lengthens it strictly less; None means no eligible wall lengthens it |
| QuoridorAI.TryWall | ai.py:214-237 | one pass of the loop body updates the accumulator by the wall's measurement and leaves the game state unchanged |
| QuoridorAI.MeasureWall | ai.py:217-237 | with the wall written and taken back, reports whether every player keeps a route and, if so, the wall's gain; the game state ends unchanged |
| QuoridorAI.MeasureBoard | ai.py:225-227 | reports whether every player has a route and, if so, how much longer the target's route is than the original |
| QuoridorAI.ScoresSnoc | ai.py:211-231 | scanning one more wall is one more accumulator step |
| QuoridorAI.FindBestBlockingWall | ai.py:206-239 | returns the best blocking wall of the scan and leaves the game state unchanged |
| QuoridorAI.ScanRow | ai.py:212-237 | the column loop for one row advances the accumulator over that row's walls and leaves the game state unchanged |
| QuoridorAI.ScanAnchor | ai.py:213-237 | the orientation loop for one anchor advances the accumulator over its horizontal, then vertical wall and leaves the game state unchanged |
| QuoridorAI.ClosestIsFirstMinimum | ai.py:105-121 | the chosen move has the least distance and every earlier move is strictly farther; there is no choice exactly when the least distance is Inf, and then every move is cut off |
| QuoridorAI.MediumChoiceProperties | ai.py:82-125 | the best blocking wall is placed exactly when the opponent is strictly closer, walls remain and such a wall exists; otherwise the tier passes only with no legal move, and else takes the first legal move of least distance, or the first legal move when all are cut off |
| QuoridorAI.ClosestLegalMove | ai.py:105-121 | the loop that moves the pawn out and back computes the first closest move and leaves the game state unchanged |
| QuoridorAI.DistanceFrom | ai.py:109-117 | with the pawn put on the move and back, returns that destination's distance to the goal; the game state ends unchanged |
| QuoridorAI.MediumMove | ai.py:82-125 | returns the medium tier's choice and leaves the game state unchanged |
| QuoridorAI.MediumBlock | ai.py:84-97 | the best blocking wall exactly when the opponent is strictly closer and the player has walls left, else nothing; the game state ends unchanged |
| QuoridorAI.MediumPawnMove | ai.py:99-125 | nothing without a legal move; else the closest legal move, or the first legal move when all are cut off; the game state ends unchanged |
| QuoridorAI.FirstWinning | ai.py:131-138 | the first legal move that wins: a returned move is legal and winning and no earlier legal move wins; no result means no legal move wins |
| QuoridorAI.HardChoiceProperties | ai.py:127-171 | a winning legal move is taken first and lands on a goal cell; otherwise the best blocking wall is placed exactly when walls remain and it lengthens the opponent's route by more than one step; otherwise the medium tier decides |
| QuoridorAI.FindWinningMove | ai.py:131-138 | the loop returns the first winning legal move |
| QuoridorAI.LengthensByMoreThanOne | ai.py:146-163 | the re-measurement compares the opponent's distance before and with the wall against the one-step threshold, and leaves the game state unchanged |
| QuoridorAI.RouteWithWall | ai.py:148-161 | with the wall written and taken back, returns the player's distance on the board with that wall; the game state ends unchanged |
| QuoridorAI.HardWallMove | ai.py:140-166 | the wall branch returns the hard tier's wall, if any, and leaves the game state unchanged |
| QuoridorAI.HardMove | ai.py:127-171 | returns the hard tier's choice and leaves the game state unchanged |
| QuoridorAI.EligibleAmongExact | ai.py:51-60 | the candidate list holds exactly the eligible walls of the scanned sequence |
| QuoridorAI.EasyCandidatesExact | ai.py:47-66 | the easy tier's candidates are exactly the valid wall placements that leave every player a route |
| QuoridorAI.TestCandidate | ai.py:51-66 | a wall is appended exactly when it is eligible, and the game state ends unchanged |
| QuoridorAI.EasyWallCandidates | ai.py:47-66 | the triple loop collects the eligible walls in scan order and leaves the game state unchanged |
| QuoridorAI.EasyMove | ai.py:41-80 | a wall only when one is wanted, walls remain, and it is eligible, and always a wall in that case when some wall is eligible; otherwise a legal move; nothing exactly when there is no legal move and no eligible wall could be taken |

## Left out

- The GUI (gui.py), the start screen (start_screen.py) and the program entry (main.py) are not part of this model, and neither is the GUI's application of an AI action to the state.
- save_to_file and load_from_file are file I/O with pickle. Only the in-memory undo/redo snapshots are modelled.
- The `mode`, `legal_moves` and `ai_players` fields are presentation state that no modelled operation reads, and the `print` calls are output. All of them are left out.
- `get_move`, the dispatch on the difficulty string, only forwards to one of the three tiers, which are modelled.
- QuoridorAI.EasyMove: `random.random() < 0.3` is the parameter `wantWall`, and `random.choice` is an arbitrary pick among the candidates. The contract states which values are possible, not their distribution.
- `float('inf')` is the `Inf` case of `Dist`. The comparisons `<` and `>` on distances are `Less`, and `+ 1` is `PlusOne`.
- QuoridorAI.Improvement: `new_path - original_path` is defined on finite distances. Its infinite cases default to 0. They cannot arise, because the scan only measures walls after which every player still has a route (`EligibleGain`).
- Iteration over `player_positions` follows ascending id. That is the insertion order of every position map the engine builds.
- The `pathfinding=None` argument of place_wall is the flag `checkPaths`.
- GameState.GameState.ResetGame: the defaults `board_size=DEFAULT_BOARD_SIZE` and `player_count=2` are not modelled, because DEFAULT_BOARD_SIZE is defined in constants.py, which is not part of this model. Callers pass both values.
- WallPlacement.PlaceWall does not check that the mover has walls left, and may drive the budget below zero, as the source does. Callers check the budget.
- Player counts other than 2 and 4 are modelled as the source treats them: only the ids of the initial layout are seated and nobody has goal cells, so every route search fails and no wall is eligible.
- GameState.GameState.ResetGame and the constructor require a board size of at least 1 and at least 2 players. With a smaller board the pawns would stand off the board. With fewer players no pawn is placed, and player 1, who moves first, has no position for the queries to read.
- Pawn positions are stored as lists in the source and compared with `pos == [row, col]`. The model uses `Cell(row, col)` values throughout.
