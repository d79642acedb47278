/** The game engine as values: a snapshot of the four pieces of state the
    application keeps (board, player to move, seconds left, whether a
    countdown tick is scheduled) and one function per operation giving the
    snapshot it leaves behind. The class in module App performs these
    operations step by step and is proved to end in exactly these snapshots. */
module Engine {
  import opened Board
  import opened WinCheck

  /** Seconds a player has for a move (`time_left` after a restart). */
  const TurnSeconds: nat := 30

  /** board, current_player, time_left, and whether a pending `update_timer`
      callback is scheduled (a live `timer_id`). */
  datatype Game = Game(board: Grid, player: Player, timeLeft: int, pending: bool)

  /** What every reachable state satisfies: a full-size board and a counter in
      [0, 30] that is below 30 whenever a tick is scheduled. */
  predicate Invariant(g: Game) {
    WellFormed(g.board)
    && 0 <= g.timeLeft <= TurnSeconds
    && (g.pending ==> g.timeLeft < TurnSeconds)
  }

  /** State after construction: empty board, black to move, 30 seconds, no tick. */
  function Initial(): (h: Game) {
    Game(EmptyGrid(Size), Black, TurnSeconds, false)
  }

  /** `start_timer`: cancel the pending tick, set 30, and run `update_timer`
      once, which shows 30, leaves 29 and schedules the next tick. */
  function Restart(g: Game): (h: Game) {
    g.(timeLeft := TurnSeconds - 1, pending := true)
  }

  /** `reset_game`: empty board, black to move; the countdown is not touched. */
  function Reset(g: Game): (h: Game) {
    g.(board := EmptyGrid(Size), player := Black)
  }

  /** `place_stone_at`: write the mover's stone; on a win reset the game,
      otherwise hand the turn over and restart the countdown. */
  function PlaceAt(g: Game, row: int, col: int): (h: Game)
    requires WellFormed(g.board) && InBounds(row, col)
  {
    var b := Place(g.board, row, col, g.player);
    if IsWin(b, row, col) then Reset(g.(board := b))
    else Restart(g.(board := b, player := Opponent(g.player)))
  }

  /** The entry of the empty-cell list that the random draw `pick` selects
      (`random.choice`). */
  function DrawnCell(b: Grid, pick: nat): (p: (int, int))
    requires WellFormed(b) && |EmptyPositions(b)| > 0
    ensures IsLegal(b, p.0, p.1)
  {
    var empties := EmptyPositions(b);
    ListedIsLegal(b, pick % |empties|);
    empties[pick % |empties|]
  }

  /** `place_random_stone`: place on the drawn empty cell; with no empty cell,
      do nothing. */
  function Timeout(g: Game, pick: nat): (h: Game)
    requires WellFormed(g.board)
  {
    if |EmptyPositions(g.board)| == 0 then g
    else
      var p := DrawnCell(g.board, pick);
      PlaceAt(g, p.0, p.1)
  }

  /** `update_timer`, entered with no tick scheduled: count down and schedule
      the next tick, or at zero make the timeout move. */
  function UpdateTimer(g: Game, pick: nat): (h: Game)
    requires WellFormed(g.board)
  {
    if g.timeLeft > 0 then g.(timeLeft := g.timeLeft - 1, pending := true)
    else Timeout(g, pick)
  }

  /** The scheduled tick fires: it is no longer pending, and `update_timer` runs. */
  function Tick(g: Game, pick: nat): (h: Game)
    requires WellFormed(g.board) && g.pending
  {
    UpdateTimer(g.(pending := false), pick)
  }

  /** `place_stone` on the clicked cell: ignored unless the move is legal;
      a legal move is placed and the countdown restarted. */
  function Click(g: Game, row: int, col: int): (h: Game)
    requires WellFormed(g.board)
  {
    if IsLegal(g.board, row, col) then Restart(PlaceAt(g, row, col)) else g
  }

  /** Every stone on `a` is still on `b`. */
  ghost predicate KeepsStones(a: Grid, b: Grid)
    requires WellFormed(a) && WellFormed(b)
  {
    forall r, c :: InBounds(r, c) && a[r][c] != Empty ==> b[r][c] == a[r][c]
  }

  lemma PlaceAtKeepsInvariant(g: Game, row: int, col: int)
    requires Invariant(g) && InBounds(row, col)
    ensures Invariant(PlaceAt(g, row, col))
  {
  }

  lemma TimeoutKeepsInvariant(g: Game, pick: nat)
    requires Invariant(g)
    ensures Invariant(Timeout(g, pick))
  {
    if |EmptyPositions(g.board)| > 0 {
      var p := DrawnCell(g.board, pick);
      PlaceAtKeepsInvariant(g, p.0, p.1);
    }
  }

  lemma UpdateTimerKeepsInvariant(g: Game, pick: nat)
    requires Invariant(g)
    ensures Invariant(UpdateTimer(g, pick))
  {
    if g.timeLeft == 0 {
      TimeoutKeepsInvariant(g, pick);
    }
  }

  lemma TickKeepsInvariant(g: Game, pick: nat)
    requires Invariant(g) && g.pending
    ensures Invariant(Tick(g, pick))
  {
    UpdateTimerKeepsInvariant(g.(pending := false), pick);
  }

  lemma ClickKeepsInvariant(g: Game, row: int, col: int)
    requires Invariant(g)
    ensures Invariant(Click(g, row, col))
  {
    if IsLegal(g.board, row, col) {
      PlaceAtKeepsInvariant(g, row, col);
    }
  }

  /** A placement changes exactly the target cell, to the mover's stone, and
      passes the turn with a fresh countdown; a winning one instead leaves an
      empty board with black to move. */
  lemma PlacementOutcome(g: Game, row: int, col: int)
    requires WellFormed(g.board) && InBounds(row, col)
    ensures var h := PlaceAt(g, row, col);
      if IsWin(Place(g.board, row, col, g.player), row, col) then
        (forall r, c :: InBounds(r, c) ==> h.board[r][c] == Empty)
        && h.player == Black && h.timeLeft == g.timeLeft && h.pending == g.pending
      else
        h.board[row][col] == Stone(g.player)
        && (forall r, c :: InBounds(r, c) && (r != row || c != col) ==> h.board[r][c] == g.board[r][c])
        && h.player != g.player && Opponent(h.player) == g.player
        && h.timeLeft == TurnSeconds - 1 && h.pending
  {
    OpponentInvolution(g.player);
  }

  /** A click is applied exactly when it is legal: an illegal one leaves the
      whole state as it was, a legal one always changes the board (a winning
      stone needs a partner already on the board, so the reset is a change). */
  lemma ClickAppliedIffLegal(g: Game, row: int, col: int)
    requires WellFormed(g.board)
    ensures !IsLegal(g.board, row, col) ==> Click(g, row, col) == g
    ensures IsLegal(g.board, row, col) ==> Click(g, row, col).board != g.board
  {
    if IsLegal(g.board, row, col) {
      var b := Place(g.board, row, col, g.player);
      if IsWin(b, row, col) {
        WinHasNeighbour(b, row, col);
        var r, c :| InBounds(r, c) && (r != row || c != col) && b[r][c] == b[row][col];
        assert g.board[r][c] == Stone(g.player);
        assert EmptyGrid(Size)[r][c] == Empty;
      } else {
        assert Click(g, row, col).board[row][col] != g.board[row][col];
      }
    }
  }

  /** A scheduled tick with time left counts down by exactly one and changes
      nothing else. */
  lemma TickCountsDown(g: Game, pick: nat)
    requires Invariant(g) && g.pending && g.timeLeft > 0
    ensures var h := Tick(g, pick);
      h.timeLeft == g.timeLeft - 1 && h.timeLeft >= 0
      && h.board == g.board && h.player == g.player && h.pending
  {
  }

  /** A tick at zero places the mover's stone on a cell taken from exactly the
      empty cells; on a full board it changes nothing and schedules no tick. */
  lemma TimeoutPicksEmptyCell(g: Game, pick: nat)
    requires Invariant(g) && g.pending && g.timeLeft == 0
    ensures |EmptyPositions(g.board)| > 0 ==>
      var p := DrawnCell(g.board, pick);
      IsLegal(g.board, p.0, p.1) && Tick(g, pick) == PlaceAt(g.(pending := false), p.0, p.1)
    ensures (forall r, c :: InBounds(r, c) ==> g.board[r][c] != Empty) ==>
      Tick(g, pick) == g.(pending := false)
  {
    var empties := EmptyPositions(g.board);
    if |empties| > 0 {
      ListedIsLegal(g.board, 0);
    }
  }

  /** Every empty cell is the timeout move for some draw. */
  lemma EveryEmptyCellCanBeDrawn(g: Game, row: int, col: int)
    requires Invariant(g) && g.pending && g.timeLeft == 0
    requires IsLegal(g.board, row, col)
    ensures exists pick: nat :: Tick(g, pick) == PlaceAt(g.(pending := false), row, col)
  {
    var empties := EmptyPositions(g.board);
    LegalIsListed(g.board, row, col);
    var i :| 0 <= i < |empties| && empties[i] == (row, col);
    DrawIndex(g.board, i);
    TimeoutAtZero(g, i);
  }

  /** A draw below the list's length selects that very entry. */
  lemma DrawIndex(b: Grid, i: nat)
    requires WellFormed(b) && i < |EmptyPositions(b)|
    ensures DrawnCell(b, i) == EmptyPositions(b)[i]
  {
    var n := |EmptyPositions(b)|;
    assert i % n == i;
  }

  /** A tick at zero with some empty cell places on the drawn cell. */
  lemma TimeoutAtZero(g: Game, pick: nat)
    requires Invariant(g) && g.pending && g.timeLeft == 0
    requires |EmptyPositions(g.board)| > 0
    ensures var p := DrawnCell(g.board, pick);
      Tick(g, pick) == PlaceAt(g.(pending := false), p.0, p.1)
  {
  }

  /** With one empty cell left, the timeout move goes there whatever the draw. */
  lemma LastEmptyCellIsForced(g: Game, row: int, col: int, pick: nat)
    requires Invariant(g) && g.pending && g.timeLeft == 0
    requires IsLegal(g.board, row, col)
    requires forall r, c :: IsLegal(g.board, r, c) ==> r == row && c == col
    ensures Tick(g, pick) == PlaceAt(g.(pending := false), row, col)
  {
    LegalIsListed(g.board, row, col);
    var p := DrawnCell(g.board, pick);
    assert p == (row, col);
  }

  /** A placement keeps every stone unless it wins, and then the board is
      cleared and black is to move. */
  lemma PlaceAtKeepsStones(g: Game, row: int, col: int)
    requires WellFormed(g.board) && IsLegal(g.board, row, col)
    ensures var h := PlaceAt(g, row, col);
      KeepsStones(g.board, h.board) || (h.board == EmptyGrid(Size) && h.player == Black)
  {
    var b := Place(g.board, row, col, g.player);
    if !IsWin(b, row, col) {
      assert PlaceAt(g, row, col).board == b;
    }
  }

  /** Stones are never taken off the board by a click except by the reset
      that follows a win, which leaves every cell empty and black to move. */
  lemma ClickKeepsStones(g: Game, row: int, col: int)
    requires Invariant(g)
    ensures var h := Click(g, row, col);
      KeepsStones(g.board, h.board) || (h.board == EmptyGrid(Size) && h.player == Black)
  {
    if IsLegal(g.board, row, col) {
      PlaceAtKeepsStones(g, row, col);
    }
  }

  /** The same for a tick: a countdown step or a timeout move. */
  lemma TickKeepsStones(g: Game, pick: nat)
    requires Invariant(g) && g.pending
    ensures var h := Tick(g, pick);
      KeepsStones(g.board, h.board) || (h.board == EmptyGrid(Size) && h.player == Black)
  {
    if g.timeLeft == 0 && |EmptyPositions(g.board)| > 0 {
      var p := DrawnCell(g.board, pick);
      TimeoutAtZero(g, pick);
      PlaceAtKeepsStones(g.(pending := false), p.0, p.1);
    }
  }

  /** Restarting a running countdown leaves a single countdown at 29, the same
      as restarting once. */
  lemma RestartIdempotent(g: Game)
    ensures Restart(Restart(g)) == Restart(g)
    ensures Restart(g).timeLeft == TurnSeconds - 1 && Restart(g).pending
  {
  }
}
