/** Wall validation and placement (wall_placement.py): the geometric checks in their
    fixed order with one reason per failure, and the tentative write that is reverted
    when it would cut a player off from its goal. */
module WallPlacement {
  import opened GameState
  import opened Movement
  import opened Pathfinding

  /** The reason strings of is_valid_wall_placement and place_wall; NoReason is the empty string. */
  datatype Reason =
    | NoReason
    | OutOfBounds
    | WallExists
    | AdjacentHorizontal
    | AdjacentVertical
    | CrossVertical
    | CrossHorizontal
    | BlocksPlayer
    | WallPlaced

  /** The (success, reason) pair both functions return. */
  datatype Verdict = Verdict(ok: bool, reason: Reason)

  /** is_valid_wall_placement: bounds first, then for a horizontal wall an existing wall,
      a horizontal neighbour on either side, and a vertical wall at (r, c) or (r-1, c); for
      a vertical wall an existing wall, a vertical neighbour above or below, and a
      horizontal wall at (r, c) or (r, c-1). */
  function IsValidWallPlacement(b: Board, w: Wall): (v: Verdict)
    requires b.Valid()
    ensures v.ok <==> v.reason == NoReason
    ensures v.ok ==> InRange(b.size, w) && !Placed(b, w)
  {
    var n, r, c := b.size, w.row, w.col;
    if r < 0 || r >= n - 1 || c < 0 || c >= n - 1 then Verdict(false, OutOfBounds)
    else if w.horizontal then
      if b.h[r][c] then Verdict(false, WallExists)
      else if c > 0 && b.h[r][c - 1] then Verdict(false, AdjacentHorizontal)
      else if c < n - 2 && b.h[r][c + 1] then Verdict(false, AdjacentHorizontal)
      else if b.v[r][c] then Verdict(false, CrossVertical)
      else if r > 0 && b.v[r - 1][c] then Verdict(false, CrossVertical)
      else Verdict(true, NoReason)
    else
      if b.v[r][c] then Verdict(false, WallExists)
      else if r > 0 && b.v[r - 1][c] then Verdict(false, AdjacentVertical)
      else if r < n - 2 && b.v[r + 1][c] then Verdict(false, AdjacentVertical)
      else if b.h[r][c] then Verdict(false, CrossHorizontal)
      else if c > 0 && b.h[r][c - 1] then Verdict(false, CrossHorizontal)
      else Verdict(true, NoReason)
  }

  /** Two walls share an edge. */
  predicate Overlaps(w: Wall, w': Wall) {
    Covers(w) * Covers(w') != {}
  }

  /** The perpendicular walls the crossing check rejects: for a horizontal wall at (r, c)
      the vertical walls at (r, c) and (r-1, c); for a vertical wall at (r, c) the
      horizontal walls at (r, c) and (r, c-1). */
  predicate CrossConflict(w: Wall, w': Wall) {
    w.horizontal != w'.horizontal &&
    if w.horizontal then w'.col == w.col && (w'.row == w.row || w'.row == w.row - 1)
    else w'.row == w.row && (w'.col == w.col || w'.col == w.col - 1)
  }

  /** Walls of one orientation overlap exactly when they lie on the same line less than
      two cells apart; walls of different orientations never share an edge. */
  lemma OverlapsIff(w: Wall, w': Wall)
    ensures Overlaps(w, w') <==>
      w.horizontal == w'.horizontal &&
      if w.horizontal then w'.row == w.row && -1 <= w'.col - w.col <= 1
      else w'.col == w.col && -1 <= w'.row - w.row <= 1
  {
    if w.horizontal == w'.horizontal && w.horizontal && w'.row == w.row && -1 <= w'.col - w.col <= 1 {
      var e := if w'.col == w.col - 1 then Edge(Cell(w.row, w.col), Cell(w.row + 1, w.col))
               else Edge(Cell(w.row, w'.col), Cell(w.row + 1, w'.col));
      assert e in Covers(w) * Covers(w');
    }
    if w.horizontal == w'.horizontal && !w.horizontal && w'.col == w.col && -1 <= w'.row - w.row <= 1 {
      var e := if w'.row == w.row - 1 then Edge(Cell(w.row, w.col), Cell(w.row, w.col + 1))
               else Edge(Cell(w'.row, w.col), Cell(w'.row, w.col + 1));
      assert e in Covers(w) * Covers(w');
    }
  }

  /** Validity in terms of the walls already on the board: a placement is accepted exactly
      when it is in range, shares no edge with a placed wall, and no placed wall stands in
      one of its rejected crossing positions. */
  lemma ValidIff(b: Board, w: Wall)
    requires b.Valid()
    ensures IsValidWallPlacement(b, w).ok <==>
      InRange(b.size, w) && forall w' :: Placed(b, w') ==> !Overlaps(w, w') && !CrossConflict(w, w')
  {
    var n, r, c := b.size, w.row, w.col;
    if IsValidWallPlacement(b, w).ok {
      forall w' | Placed(b, w') ensures !Overlaps(w, w') && !CrossConflict(w, w') {
        OverlapsIff(w, w');
      }
    } else if InRange(b.size, w) {
      var v := IsValidWallPlacement(b, w);
      var w' :=
        if w.horizontal then
          if b.h[r][c] then w
          else if c > 0 && b.h[r][c - 1] then Wall(r, c - 1, true)
          else if c < n - 2 && b.h[r][c + 1] then Wall(r, c + 1, true)
          else if b.v[r][c] then Wall(r, c, false)
          else Wall(r - 1, c, false)
        else
          if b.v[r][c] then w
          else if r > 0 && b.v[r - 1][c] then Wall(r - 1, c, false)
          else if r < n - 2 && b.v[r + 1][c] then Wall(r + 1, c, false)
          else if b.h[r][c] then Wall(r, c, true)
          else Wall(r, c - 1, true);
      OverlapsIff(w, w');
      assert Placed(b, w') && (Overlaps(w, w') || CrossConflict(w, w'));
    }
  }

  /** The first two reasons: out of bounds exactly when the anchor is outside 0..N-2, and
      "wall exists" exactly when the same wall is already on the board. */
  lemma ReasonBoundsAndExists(b: Board, w: Wall)
    requires b.Valid()
    ensures IsValidWallPlacement(b, w).reason == OutOfBounds <==> !InRange(b.size, w)
    ensures IsValidWallPlacement(b, w).reason == WallExists <==> Placed(b, w)
  {
  }

  /** A horizontal and a vertical wall through the same junction are never both accepted:
      whichever is on the board, the other is refused. */
  lemma NoSameJunctionCrossing(b: Board, r: int, c: int)
    requires b.Valid()
    ensures Placed(b, Wall(r, c, true)) ==> !IsValidWallPlacement(b, Wall(r, c, false)).ok
    ensures Placed(b, Wall(r, c, false)) ==> !IsValidWallPlacement(b, Wall(r, c, true)).ok
  {
    ValidIff(b, Wall(r, c, false));
    ValidIff(b, Wall(r, c, true));
    assert CrossConflict(Wall(r, c, false), Wall(r, c, true));
    assert CrossConflict(Wall(r, c, true), Wall(r, c, false));
  }

  /** Placing only accepted walls keeps every edge covered by at most one wall. */
  lemma AcceptedKeepsWallsDisjoint(b: Board, w: Wall)
    requires b.Valid() && IsValidWallPlacement(b, w).ok
    requires forall w1, w2 :: Placed(b, w1) && Placed(b, w2) && w1 != w2 ==> !Overlaps(w1, w2)
    ensures forall w1, w2 :: Placed(Place(b, w), w1) && Placed(Place(b, w), w2) && w1 != w2 ==> !Overlaps(w1, w2)
  {
    ValidIff(b, w);
    forall w1, w2 | Placed(Place(b, w), w1) && Placed(Place(b, w), w2) && w1 != w2 ensures !Overlaps(w1, w2) {
      if w1 == w {
        assert Placed(b, w2) && !Overlaps(w, w2);
      } else if w2 == w {
        assert Placed(b, w1) && !Overlaps(w, w1);
        assert Covers(w1) * Covers(w) == Covers(w) * Covers(w1);
      } else {
        assert Placed(b, w1) && Placed(b, w2);
      }
    }
  }

  /** Acceptance depends on placement order: with the vertical wall at (0, 0) on an empty
      9 x 9 board the horizontal wall at (1, 0) is refused, but with that horizontal wall
      on the board the vertical wall at (0, 0) is accepted. */
  lemma PlacementOrderMatters()
    ensures var empty := Board(9, EmptyGrid(9), EmptyGrid(9));
      var vFirst := Place(empty, Wall(0, 0, false));
      var hFirst := Place(empty, Wall(1, 0, true));
      IsValidWallPlacement(vFirst, Wall(1, 0, true)) == Verdict(false, CrossVertical) &&
      IsValidWallPlacement(hFirst, Wall(0, 0, false)) == Verdict(true, NoReason)
  {
    var empty := Board(9, EmptyGrid(9), EmptyGrid(9));
    var vFirst := Place(empty, Wall(0, 0, false));
    var hFirst := Place(empty, Wall(1, 0, true));
    assert vFirst.v[0][0];
    assert !vFirst.h[1][0] && !vFirst.h[1][1] && !vFirst.v[1][0];
    assert !hFirst.v[0][0] && !hFirst.v[1][0] && !hFirst.h[0][0];
  }

  /** The tentative write h_walls[r][c] = True (or v_walls) of the searches. */
  method PutWall(gs: GameState, w: Wall)
    requires gs.Valid() && InRange(gs.boardSize, w)
    modifies gs`hWalls, gs`vWalls
    ensures gs.Valid() && gs.Walls() == Place(old(gs.Walls()), w)
  {
    if w.horizontal {
      gs.hWalls := SetCell(gs.hWalls, w.row, w.col, true);
    } else {
      gs.vWalls := SetCell(gs.vWalls, w.row, w.col, true);
    }
  }

  /** The matching write of False, which gives back the board the wall was tried on. */
  method TakeBackWall(gs: GameState, ghost before: Board, w: Wall)
    requires before.Valid() && InRange(before.size, w) && !Placed(before, w)
    requires gs.Walls() == Place(before, w)
    modifies gs`hWalls, gs`vWalls
    ensures gs.Walls() == before
  {
    RevertPlace(before, w);
    if w.horizontal {
      gs.hWalls := SetCell(gs.hWalls, w.row, w.col, false);
    } else {
      gs.vWalls := SetCell(gs.vWalls, w.row, w.col, false);
    }
  }

  /** place_wall: an invalid wall is refused with its reason and nothing changes; a wall
      that would leave some player without a route (checked only when a path finder is
      attached) is written, then taken back, and refused; otherwise it stays and the
      current player's budget drops by one. The budget itself is not checked here. */
  method PlaceWall(gs: GameState, w: Wall, checkPaths: bool) returns (res: Verdict)
    requires gs.Valid()
    modifies gs`hWalls, gs`vWalls, gs`wallsRemaining
    ensures gs.Valid()
    ensures var v := IsValidWallPlacement(old(gs.Walls()), w);
      if !v.ok then
        res == v && gs.Walls() == old(gs.Walls()) && gs.wallsRemaining == old(gs.wallsRemaining)
      else if checkPaths && !AllPathsExist(Place(old(gs.Walls()), w), gs.positions, gs.playerCount) then
        res == Verdict(false, BlocksPlayer) && gs.Walls() == old(gs.Walls()) &&
        gs.wallsRemaining == old(gs.wallsRemaining)
      else
        res == Verdict(true, WallPlaced) && gs.Walls() == Place(old(gs.Walls()), w) &&
        gs.wallsRemaining == old(gs.wallsRemaining)[gs.currentPlayer := old(gs.wallsRemaining)[gs.currentPlayer] - 1]
  {
    var verdict := IsValidWallPlacement(gs.Walls(), w);
    if !verdict.ok {
      return verdict;
    }
    var kept := WriteWall(gs, w, checkPaths);
    if !kept {
      return Verdict(false, BlocksPlayer);
    }
    gs.wallsRemaining := gs.wallsRemaining[gs.currentPlayer := gs.wallsRemaining[gs.currentPlayer] - 1];
    return Verdict(true, WallPlaced);
  }

  /** The temporary placement of place_wall: the wall is written and, when a path finder is
      attached and some player would be cut off, written back to False. */
  method WriteWall(gs: GameState, w: Wall, checkPaths: bool) returns (kept: bool)
    requires gs.Valid() && IsValidWallPlacement(gs.Walls(), w).ok
    modifies gs`hWalls, gs`vWalls
    ensures gs.Valid()
    ensures kept == !(checkPaths && !AllPathsExist(Place(old(gs.Walls()), w), gs.positions, gs.playerCount))
    ensures gs.Walls() == if kept then Place(old(gs.Walls()), w) else old(gs.Walls())
  {
    ghost var before := gs.Walls();
    PutWall(gs, w);
    kept := true;
    if checkPaths {
      var ok := PathsExistForAllPlayers(gs);
      if !ok {
        TakeBackWall(gs, before, w);
        kept := false;
      }
    }
  }
}
