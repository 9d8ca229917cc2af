/** Edge blocking and pawn moves (movement.py): which edges the wall grids block, and
    the orthogonal step, straight jump and diagonal sidestep rules. */
module Movement {
  import opened Wrappers
  import opened GameState

  function Abs(x: int): nat { if x < 0 then -x else x }

  function Manhattan(x: Cell, y: Cell): nat {
    Abs(x.row - y.row) + Abs(x.col - y.col)
  }

  /** is_blocked_between: every pair of cells that are not 4-adjacent is blocked; an edge
      between rows wr and wr+1 is blocked by H[wr][c] or H[wr][c-1], an edge between
      columns wc and wc+1 by V[r][wc] or V[r-1][wc], each only where that index exists. */
  function IsBlockedBetween(b: Board, x: Cell, y: Cell): (blocked: bool)
    requires b.Valid()
    ensures Manhattan(x, y) != 1 ==> blocked
    ensures Manhattan(x, y) == 1 && b.h == EmptyGrid(b.size) && b.v == EmptyGrid(b.size) ==> !blocked
  {
    var n := b.size;
    var r1, c1, r2, c2 := x.row, x.col, y.row, y.col;
    if Manhattan(x, y) != 1 then true
    else if r2 == r1 - 1 then
      var wr := r2;
      0 <= wr < n - 1 && ((0 <= c1 < n - 1 && b.h[wr][c1]) || (0 <= c1 - 1 < n - 1 && b.h[wr][c1 - 1]))
    else if r2 == r1 + 1 then
      var wr := r1;
      0 <= wr < n - 1 && ((0 <= c1 < n - 1 && b.h[wr][c1]) || (0 <= c1 - 1 < n - 1 && b.h[wr][c1 - 1]))
    else if c2 == c1 - 1 then
      var wc := c2;
      0 <= wc < n - 1 && ((0 <= r1 < n - 1 && b.v[r1][wc]) || (0 <= r1 - 1 < n - 1 && b.v[r1 - 1][wc]))
    else if c2 == c1 + 1 then
      var wc := c1;
      0 <= wc < n - 1 && ((0 <= r1 < n - 1 && b.v[r1][wc]) || (0 <= r1 - 1 < n - 1 && b.v[r1 - 1][wc]))
    else true
  }

  /** An edge between two cells, the upper (or left) cell first. */
  datatype Edge = Edge(first: Cell, second: Cell)

  function EdgeOf(x: Cell, y: Cell): Edge {
    if x.row < y.row || (x.row == y.row && x.col < y.col) then Edge(x, y) else Edge(y, x)
  }

  /** The two edges a wall segment spans: a horizontal wall at (r, c) separates rows r and r+1
      in columns c and c+1; a vertical wall separates columns c and c+1 in rows r and r+1. */
  function Covers(w: Wall): set<Edge> {
    if w.horizontal then
      {Edge(Cell(w.row, w.col), Cell(w.row + 1, w.col)), Edge(Cell(w.row, w.col + 1), Cell(w.row + 1, w.col + 1))}
    else
      {Edge(Cell(w.row, w.col), Cell(w.row, w.col + 1)), Edge(Cell(w.row + 1, w.col), Cell(w.row + 1, w.col + 1))}
  }

  /** A wall spans exactly two distinct edges, each between 4-adjacent cells. */
  lemma CoversTwoEdges(w: Wall)
    ensures |Covers(w)| == 2
    ensures forall e :: e in Covers(w) ==> Manhattan(e.first, e.second) == 1 && EdgeOf(e.first, e.second) == e
  {
    var e1, e2 := if w.horizontal then Edge(Cell(w.row, w.col), Cell(w.row + 1, w.col)) else Edge(Cell(w.row, w.col), Cell(w.row, w.col + 1)),
                  if w.horizontal then Edge(Cell(w.row, w.col + 1), Cell(w.row + 1, w.col + 1)) else Edge(Cell(w.row + 1, w.col), Cell(w.row + 1, w.col + 1));
    assert Covers(w) == {e1, e2} && e1 != e2;
  }

  /** Some wall on the board spans the edge between x and y. */
  ghost predicate WallCovers(b: Board, x: Cell, y: Cell)
    requires b.Valid()
  {
    exists w :: Placed(b, w) && EdgeOf(x, y) in Covers(w)
  }

  lemma VerticalMoveBlockedIff(b: Board, x: Cell, y: Cell)
    requires b.Valid() && y.col == x.col && (y.row == x.row - 1 || y.row == x.row + 1)
    ensures IsBlockedBetween(b, x, y) <==> WallCovers(b, x, y)
  {
    var n := b.size;
    var wr := if y.row == x.row - 1 then y.row else x.row;
    var c := x.col;
    assert Manhattan(x, y) == 1;
    assert EdgeOf(x, y) == Edge(Cell(wr, c), Cell(wr + 1, c));
    if IsBlockedBetween(b, x, y) {
      if 0 <= c < n - 1 && b.h[wr][c] {
        assert Placed(b, Wall(wr, c, true)) && EdgeOf(x, y) in Covers(Wall(wr, c, true));
      } else {
        assert Placed(b, Wall(wr, c - 1, true)) && EdgeOf(x, y) in Covers(Wall(wr, c - 1, true));
      }
    }
    if WallCovers(b, x, y) {
      var w :| Placed(b, w) && EdgeOf(x, y) in Covers(w);
      assert w.horizontal && w.row == wr && (w.col == c || w.col == c - 1);
    }
  }

  lemma HorizontalMoveBlockedIff(b: Board, x: Cell, y: Cell)
    requires b.Valid() && y.row == x.row && (y.col == x.col - 1 || y.col == x.col + 1)
    ensures IsBlockedBetween(b, x, y) <==> WallCovers(b, x, y)
  {
    var n := b.size;
    var wc := if y.col == x.col - 1 then y.col else x.col;
    var r := x.row;
    assert Manhattan(x, y) == 1;
    assert EdgeOf(x, y) == Edge(Cell(r, wc), Cell(r, wc + 1));
    if IsBlockedBetween(b, x, y) {
      if 0 <= r < n - 1 && b.v[r][wc] {
        assert Placed(b, Wall(r, wc, false)) && EdgeOf(x, y) in Covers(Wall(r, wc, false));
      } else {
        assert Placed(b, Wall(r - 1, wc, false)) && EdgeOf(x, y) in Covers(Wall(r - 1, wc, false));
      }
    }
    if WallCovers(b, x, y) {
      var w :| Placed(b, w) && EdgeOf(x, y) in Covers(w);
      assert !w.horizontal && w.col == wc && (w.row == r || w.row == r - 1);
    }
  }

  /** The wall-to-edge mapping is exact: a move is blocked iff the cells are not 4-adjacent
      or some wall on the board spans the edge between them. */
  lemma BlockedIff(b: Board, x: Cell, y: Cell)
    requires b.Valid()
    ensures IsBlockedBetween(b, x, y) <==> Manhattan(x, y) != 1 || WallCovers(b, x, y)
  {
    if Manhattan(x, y) == 1 {
      if x.col == y.col {
        VerticalMoveBlockedIff(b, x, y);
      } else {
        HorizontalMoveBlockedIff(b, x, y);
      }
    }
  }

  /** Blocking is symmetric: a -> b and b -> a test the same wall cells. */
  lemma BlockedSymmetric(b: Board, x: Cell, y: Cell)
    requires b.Valid()
    ensures IsBlockedBetween(b, x, y) == IsBlockedBetween(b, y, x)
  {
    BlockedIff(b, x, y);
    BlockedIff(b, y, x);
    if x != y {
      assert EdgeOf(x, y) == EdgeOf(y, x);
    }
  }

  /** Setting wall w blocks exactly the two edges it spans in addition to what was blocked. */
  lemma BlockedAfterPlace(b: Board, w: Wall, x: Cell, y: Cell)
    requires b.Valid() && InRange(b.size, w)
    ensures IsBlockedBetween(Place(b, w), x, y) <==>
      IsBlockedBetween(b, x, y) || (Manhattan(x, y) == 1 && EdgeOf(x, y) in Covers(w))
  {
    var b' := Place(b, w);
    BlockedIff(b, x, y);
    BlockedIff(b', x, y);
    if WallCovers(b, x, y) {
      var w' :| Placed(b, w') && EdgeOf(x, y) in Covers(w');
      assert Placed(b', w');
    }
    if Manhattan(x, y) == 1 && EdgeOf(x, y) in Covers(w) {
      assert Placed(b', w);
    }
    if WallCovers(b', x, y) {
      var w' :| Placed(b', w') && EdgeOf(x, y) in Covers(w');
      if w' != w {
        assert Placed(b, w');
      }
    }
  }

  /** The scan order of get_legal_moves: up, down, left, right. */
  const Directions: seq<(int, int)> := [(-1, 0), (1, 0), (0, -1), (0, 1)]

  function Shift(x: Cell, d: (int, int)): Cell {
    Cell(x.row + d.0, x.col + d.1)
  }

  /** Whether some pawn stands on x (other_player_at returns an id). */
  predicate Occupied(positions: map<int, Cell>, x: Cell) {
    x in positions.Values
  }

  /** A pawn on x may cross to y: y is on the board and the edge is open. */
  predicate Open(b: Board, x: Cell, y: Cell)
    requires b.Valid()
  {
    InBounds(b.size, y) && !IsBlockedBetween(b, x, y)
  }

  /** A pawn on x may land on y: open and unoccupied. */
  predicate Free(b: Board, positions: map<int, Cell>, x: Cell, y: Cell)
    requires b.Valid()
  {
    Open(b, x, y) && !Occupied(positions, y)
  }

  /** The two directions perpendicular to d, in the order the source tries them. */
  function Perpendiculars(d: (int, int)): seq<(int, int)> {
    [(-d.1, -d.0), (d.1, d.0)]
  }

  /** The diagonal destinations beside the occupied cell `next` from the first k perpendiculars. */
  function SideSteps(b: Board, positions: map<int, Cell>, next: Cell, d: (int, int), k: nat): seq<Cell>
    requires b.Valid() && k <= 2
  {
    if k == 0 then []
    else
      var q := Shift(next, Perpendiculars(d)[k - 1]);
      SideSteps(b, positions, next, d, k - 1) + (if Free(b, positions, next, q) then [q] else [])
  }

  /** The destinations one scan direction contributes: the neighbour if it is free; over a
      neighbouring pawn the straight jump if it is free, else the free diagonals. */
  function DirectionMoves(b: Board, positions: map<int, Cell>, at: Cell, d: (int, int)): seq<Cell>
    requires b.Valid()
  {
    var next := Shift(at, d);
    if !InBounds(b.size, next) || IsBlockedBetween(b, at, next) then []
    else if Occupied(positions, next) then
      var jump := Shift(next, d);
      if Free(b, positions, next, jump) then [jump] else SideSteps(b, positions, next, d, 2)
    else [next]
  }

  /** The `moves` list after scanning the first k directions. */
  function RawMoves(b: Board, positions: map<int, Cell>, at: Cell, k: nat): seq<Cell>
    requires b.Valid() && k <= 4
  {
    if k == 0 then [] else RawMoves(b, positions, at, k - 1) + DirectionMoves(b, positions, at, Directions[k - 1])
  }

  /** `s` without repeats, first occurrences kept in order (the `unique` loop). */
  function Dedup<T(==)>(s: seq<T>): seq<T> {
    if s == [] then []
    else
      var d := Dedup(s[..|s| - 1]);
      if s[|s| - 1] in d then d else d + [s[|s| - 1]]
  }

  /** The first index of x in s. */
  function IndexOf<T(==)>(s: seq<T>, x: T): (i: nat)
    requires x in s
    ensures i < |s| && s[i] == x && x !in s[..i]
  {
    if s[0] == x then 0 else 1 + IndexOf(s[1..], x)
  }

  lemma IndexOfUnique<T>(s: seq<T>, x: T, i: nat)
    requires i < |s| && s[i] == x && x !in s[..i]
    ensures IndexOf(s, x) == i
  {
    var j := IndexOf(s, x);
  }

  /** Dedup keeps exactly the elements of s, each once, in the order of their first occurrence in s. */
  lemma {:induction false} DedupFirstOccurrences<T>(s: seq<T>)
    ensures forall x :: x in Dedup(s) <==> x in s
    ensures forall i, j :: 0 <= i < j < |Dedup(s)| ==> Dedup(s)[i] != Dedup(s)[j]
    ensures forall i, j :: 0 <= i < j < |Dedup(s)| ==> IndexOf(s, Dedup(s)[i]) < IndexOf(s, Dedup(s)[j])
  {
    if s != [] {
      var s' := s[..|s| - 1];
      var last := s[|s| - 1];
      DedupFirstOccurrences(s');
      var d' := Dedup(s');
      assert s == s' + [last];
      forall x | x in s' ensures IndexOf(s, x) == IndexOf(s', x) {
        var k := IndexOf(s', x);
        assert s[..k] == s'[..k];
        IndexOfUnique(s, x, k);
      }
      if last !in d' {
        assert last !in s';
        assert s[..|s| - 1] == s';
        IndexOfUnique(s, last, |s| - 1);
        var d := Dedup(s);
        assert d == d' + [last];
        forall i, j | 0 <= i < j < |d| ensures IndexOf(s, d[i]) < IndexOf(s, d[j]) {
          if j < |d'| {
            assert d[i] == d'[i] && d[j] == d'[j];
          } else {
            assert d[i] == d'[i] && d'[i] in d';
          }
        }
      }
    }
  }

  /** get_legal_moves' result: the scan of all four directions without repeats. */
  function LegalMoves(b: Board, positions: map<int, Cell>, at: Cell): seq<Cell>
    requires b.Valid()
  {
    Dedup(RawMoves(b, positions, at, 4))
  }

  /** The sidesteps are exactly the free cells of the two perpendicular neighbours of `next`. */
  lemma SideStepsExact(b: Board, positions: map<int, Cell>, next: Cell, d: (int, int))
    requires b.Valid()
    ensures forall q :: q in SideSteps(b, positions, next, d, 2) <==>
      (q == Shift(next, Perpendiculars(d)[0]) || q == Shift(next, Perpendiculars(d)[1])) &&
      Free(b, positions, next, q)
  {
    var q0, q1 := Shift(next, Perpendiculars(d)[0]), Shift(next, Perpendiculars(d)[1]);
    assert SideSteps(b, positions, next, d, 1) == (if Free(b, positions, next, q0) then [q0] else []);
    assert SideSteps(b, positions, next, d, 2) ==
      SideSteps(b, positions, next, d, 1) + (if Free(b, positions, next, q1) then [q1] else []);
  }

  /** A scan direction is a unit step; a straight jump or a diagonal lands two steps away. */
  lemma DirectionGeometry(at: Cell, d: (int, int))
    requires d in Directions
    ensures Manhattan(at, Shift(at, d)) == 1
    ensures Manhattan(at, Shift(Shift(at, d), d)) == 2
    ensures Manhattan(at, Shift(Shift(at, d), Perpendiculars(d)[0])) == 2
    ensures Manhattan(at, Shift(Shift(at, d), Perpendiculars(d)[1])) == 2
  {
  }

  lemma DirectionMovesSound(b: Board, positions: map<int, Cell>, at: Cell, d: (int, int), m: Cell)
    requires b.Valid() && d in Directions && m in DirectionMoves(b, positions, at, d)
    ensures InBounds(b.size, m) && !Occupied(positions, m)
    ensures (Manhattan(at, m) == 1 && !IsBlockedBetween(b, at, m)) || Manhattan(at, m) == 2
  {
    var next := Shift(at, d);
    var jump := Shift(next, d);
    DirectionGeometry(at, d);
    assert Open(b, at, next);
    if !Occupied(positions, next) {
      assert m == next;
    } else if Free(b, positions, next, jump) {
      assert m == jump;
    } else {
      SideStepsExact(b, positions, next, d);
    }
  }

  lemma {:induction false} RawMovesSound(b: Board, positions: map<int, Cell>, at: Cell, k: nat, m: Cell)
    requires b.Valid() && k <= 4 && m in RawMoves(b, positions, at, k)
    ensures InBounds(b.size, m) && !Occupied(positions, m)
    ensures (Manhattan(at, m) == 1 && !IsBlockedBetween(b, at, m)) || Manhattan(at, m) == 2
  {
    if m in RawMoves(b, positions, at, k - 1) {
      RawMovesSound(b, positions, at, k - 1, m);
    } else {
      DirectionMovesSound(b, positions, at, Directions[k - 1], m);
    }
  }

  /** Every legal destination is on the board and unoccupied, and is either an open
      neighbour (a plain step) or two steps away (a jump or a diagonal sidestep). */
  lemma LegalMovesSound(b: Board, positions: map<int, Cell>, at: Cell)
    requires b.Valid()
    ensures forall m :: m in LegalMoves(b, positions, at) ==>
      InBounds(b.size, m) && !Occupied(positions, m) &&
      ((Manhattan(at, m) == 1 && !IsBlockedBetween(b, at, m)) || Manhattan(at, m) == 2)
  {
    DedupFirstOccurrences(RawMoves(b, positions, at, 4));
    forall m | m in LegalMoves(b, positions, at)
      ensures InBounds(b.size, m) && !Occupied(positions, m) &&
        ((Manhattan(at, m) == 1 && !IsBlockedBetween(b, at, m)) || Manhattan(at, m) == 2)
    {
      RawMovesSound(b, positions, at, 4, m);
    }
  }

  lemma {:induction false} RawMovesContains(b: Board, positions: map<int, Cell>, at: Cell, k: nat, i: nat)
    requires b.Valid() && i < k <= 4
    ensures forall m :: m in DirectionMoves(b, positions, at, Directions[i]) ==> m in RawMoves(b, positions, at, k)
  {
    if i < k - 1 {
      RawMovesContains(b, positions, at, k - 1, i);
    }
  }

  /** The jump rule for scan direction i: a wall or the board edge gives nothing; a free
      neighbour is the step; over a neighbouring pawn the free straight jump is the only
      destination, and otherwise the destinations are exactly the free diagonals beside that
      pawn. Every such destination is legal. */
  lemma JumpRule(b: Board, positions: map<int, Cell>, at: Cell, i: nat)
    requires b.Valid() && i < 4
    ensures var d := Directions[i];
      var next := Shift(at, d);
      var jump := Shift(next, d);
      var moves := DirectionMoves(b, positions, at, d);
      (!Open(b, at, next) ==> moves == []) &&
      (Open(b, at, next) && !Occupied(positions, next) ==> moves == [next]) &&
      (Open(b, at, next) && Occupied(positions, next) && Free(b, positions, next, jump) ==> moves == [jump]) &&
      (Open(b, at, next) && Occupied(positions, next) && !Free(b, positions, next, jump) ==>
        forall q :: q in moves <==>
          (q == Shift(next, Perpendiculars(d)[0]) || q == Shift(next, Perpendiculars(d)[1])) &&
          Free(b, positions, next, q)) &&
      (forall q :: q in moves ==> q in LegalMoves(b, positions, at))
  {
    RawMovesContains(b, positions, at, 4, i);
    DedupFirstOccurrences(RawMoves(b, positions, at, 4));
    var next := Shift(at, Directions[i]);
    SideStepsExact(b, positions, next, Directions[i]);
  }

  /** A move onto a legal destination keeps every pawn on its own cell. */
  lemma MoveKeepsPawnsApart(b: Board, positions: map<int, Cell>, p: int, m: Cell)
    requires b.Valid() && p in positions && PawnsApart(positions)
    requires m in LegalMoves(b, positions, positions[p])
    ensures PawnsApart(positions[p := m])
  {
    LegalMovesSound(b, positions, positions[p]);
    forall q | q in positions && q != p ensures positions[q] != m {
      assert positions[q] in positions.Values;
    }
  }

  /** The landing test get_legal_moves applies to a jump or a diagonal: on the board, the
      edge from `from` open, and no pawn on q (other_player_at returns None). */
  method LandingFree(gs: GameState, ghost b: Board, ghost positions: map<int, Cell>, from: Cell, q: Cell)
    returns (free: bool)
    requires gs.Valid() && b == gs.Walls() && positions == gs.positions
    ensures free == Free(b, positions, from, q)
  {
    if !InBounds(gs.boardSize, q) || IsBlockedBetween(gs.Walls(), from, q) {
      return false;
    }
    var atQ := gs.OtherPlayerAt(q.row, q.col);
    if atQ.Some? {
      assert positions[atQ.value] == q;
      return false;
    }
    assert !Occupied(positions, q);
    return true;
  }

  /** One pass of get_legal_moves' direction loop: the destinations direction d contributes. */
  method ScanDirection(gs: GameState, at: Cell, d: (int, int)) returns (found: seq<Cell>)
    requires gs.Valid()
    ensures found == DirectionMoves(gs.Walls(), gs.positions, at, d)
  {
    var b := gs.Walls();
    var positions := gs.positions;
    var next := Shift(at, d);
    if !InBounds(b.size, next) || IsBlockedBetween(b, at, next) {
      return [];
    }
    var other := gs.OtherPlayerAt(next.row, next.col);
    if other.None? {
      assert !Occupied(positions, next);
      return [next];
    }
    assert positions[other.value] == next;
    var jump := Shift(next, d);
    var jumpFree := LandingFree(gs, b, positions, next, jump);
    if jumpFree {
      return [jump];
    }
    found := [];
    var perp := Perpendiculars(d);
    for j := 0 to 2
      invariant b.Valid() && found == SideSteps(b, positions, next, d, j)
    {
      var q := Shift(next, perp[j]);
      var diagFree := LandingFree(gs, b, positions, next, q);
      if diagFree {
        found := found + [q];
      }
    }
  }

  /** The `unique` loop: keeps the first occurrence of each destination. */
  method RemoveDuplicates(moves: seq<Cell>) returns (unique: seq<Cell>)
    ensures unique == Dedup(moves)
  {
    unique := [];
    for i := 0 to |moves|
      invariant unique == Dedup(moves[..i])
    {
      assert moves[..i + 1][..i] == moves[..i];
      if moves[i] !in unique {
        unique := unique + [moves[i]];
      }
    }
    assert moves[..|moves|] == moves;
  }

  /** get_legal_moves: scans up, down, left, right, then removes repeats. */
  method GetLegalMoves(gs: GameState, player: int) returns (unique: seq<Cell>)
    requires gs.Valid() && player in gs.positions
    ensures unique == LegalMoves(gs.Walls(), gs.positions, gs.positions[player])
  {
    var b := gs.Walls();
    var positions := gs.positions;
    var at := positions[player];
    var moves: seq<Cell> := [];
    for i := 0 to 4
      invariant b.Valid() && moves == RawMoves(b, positions, at, i)
    {
      var found := ScanDirection(gs, at, Directions[i]);
      moves := moves + found;
    }
    unique := RemoveDuplicates(moves);
  }

  /** make_move: a destination that is not legal is refused and nothing changes; a legal
      one moves only that player's pawn. */
  method MakeMove(gs: GameState, player: int, row: int, col: int) returns (ok: bool)
    requires gs.Valid() && player in gs.positions
    modifies gs`positions
    ensures gs.Valid()
    ensures ok == (Cell(row, col) in LegalMoves(gs.Walls(), old(gs.positions), old(gs.positions)[player]))
    ensures gs.positions == if ok then old(gs.positions)[player := Cell(row, col)] else old(gs.positions)
  {
    var legalMoves := GetLegalMoves(gs, player);
    if Cell(row, col) !in legalMoves {
      return false;
    }
    LegalMovesSound(gs.Walls(), gs.positions, gs.positions[player]);
    gs.positions := gs.positions[player := Cell(row, col)];
    ok := true;
  }
}
