/** The application object. Its four fields are the engine state of the
    Python class `GomokuApp`; its methods follow the source's call chain
    step by step (start_timer -> update_timer -> place_random_stone ->
    place_stone_at -> start_timer), and each is proved to leave exactly the
    snapshot the matching function of module Engine describes.

    Scheduling is made explicit: `timerPending` records that an
    `update_timer` callback is scheduled, cancelling it clears the flag, and
    the method `Tick` is that callback firing. The random draw is the
    parameter `pick`. */
module App {
  import opened Board
  import opened WinCheck
  import Engine

  class GomokuApp {
    var board: Grid
    var currentPlayer: Player
    var timeLeft: int
    var timerPending: bool

    /** The fields as an engine snapshot. */
    ghost function State(): Engine.Game
      reads this
    {
      Engine.Game(board, currentPlayer, timeLeft, timerPending)
    }

    ghost predicate Valid()
      reads this
    {
      Engine.Invariant(State())
    }

    /** `__init__`: empty 19 x 19 board, black to move, 30 seconds. */
    constructor ()
      ensures Valid() && State() == Engine.Initial()
    {
      board := EmptyGrid(Size);
      currentPlayer := Black;
      timeLeft := Engine.TurnSeconds;
      timerPending := false;
    }

    /** `start_timer`: cancel any scheduled tick, set 30 and run `update_timer`. */
    method StartTimer()
      requires Valid()
      modifies this
      ensures Valid() && State() == Engine.Restart(old(State()))
      decreases 1
    {
      timerPending := false;
      timeLeft := Engine.TurnSeconds;
      UpdateTimer(0);
    }

    /** `update_timer`, entered with no tick scheduled: count down one second
        and schedule the next tick, or at zero make the timeout move. */
    method UpdateTimer(pick: nat)
      requires Valid() && !timerPending
      modifies this
      ensures Valid() && State() == Engine.UpdateTimer(old(State()), pick)
      decreases if timeLeft > 0 then 0 else 4
    {
      if timeLeft > 0 {
        timeLeft := timeLeft - 1;
        timerPending := true;
      } else {
        PlaceRandomStone(pick);
      }
    }

    /** The scheduled `update_timer` callback fires. */
    method Tick(pick: nat)
      requires Valid() && timerPending
      modifies this
      ensures Valid() && State() == Engine.Tick(old(State()), pick)
    {
      timerPending := false;
      UpdateTimer(pick);
    }

    /** `place_random_stone`: list the empty cells and place on the drawn one. */
    method PlaceRandomStone(pick: nat)
      requires Valid()
      modifies this
      ensures Valid() && State() == Engine.Timeout(old(State()), pick)
      decreases 3
    {
      var empties := EmptyPositions(board);
      if |empties| > 0 {
        var (row, col) := Engine.DrawnCell(board, pick);
        PlaceStoneAt(row, col);
      }
    }

    /** The engine part of `place_stone`: a click on (row, col) is acted on
        only when the cell is on the board and empty, and then the countdown
        is restarted. */
    method PlaceStone(row: int, col: int)
      requires Valid()
      modifies this
      ensures Valid() && State() == Engine.Click(old(State()), row, col)
    {
      if 0 <= row < Size && 0 <= col < Size && board[row][col] == Empty {
        PlaceStoneAt(row, col);
        timerPending := false;
        StartTimer();
      }
    }

    /** `place_stone_at`: write the mover's stone, then either reset after a
        win or pass the turn and restart the countdown. */
    method PlaceStoneAt(row: int, col: int)
      requires Valid() && InBounds(row, col)
      modifies this
      ensures Valid() && State() == Engine.PlaceAt(old(State()), row, col)
      decreases 2
    {
      board := board[row := board[row][col := Stone(currentPlayer)]];
      assert board == Place(old(board), row, col, currentPlayer);
      var won := CheckWinner(row, col);
      if won {
        ResetGame();
        return;
      }
      currentPlayer := Opponent(currentPlayer);
      StartTimer();
    }

    /** `check_winner`: some axis has 1 + forward + backward >= 5 (by
        WinCheck.WinIffLine, a real line of five or more through (row, col)). */
    method CheckWinner(row: int, col: int) returns (won: bool)
      requires WellFormed(board) && InBounds(row, col)
      ensures won == IsWin(board, row, col)
    {
      var i := 0;
      while i < |Directions|
        invariant 0 <= i <= |Directions|
        invariant forall j :: 0 <= j < i ==> !WinsAlong(board, row, col, Directions[j])
      {
        var (dx, dy) := Directions[i];
        var count := 1;
        var forward := CountStones(row, col, dx, dy);
        count := count + forward;
        var backward := CountStones(row, col, -dx, -dy);
        count := count + backward;
        if count >= WinLength {
          assert WinsAlong(board, row, col, Directions[i]);
          return true;
        }
        i := i + 1;
      }
      return false;
    }

    /** `count_stones`: walk at most four steps along (dx, dy), stopping at
        the first cell that is off the board or holds another value. */
    method CountStones(row: int, col: int, dx: int, dy: int) returns (count: int)
      requires WellFormed(board) && InBounds(row, col)
      ensures 0 <= count <= MaxSteps
      ensures IsRun(board, row, col, dx, dy, count)
      ensures count == Run(board, row, col, dx, dy)
    {
      count := 0;
      var player := board[row][col];
      var r, c := row, col;
      var step := 0;
      while step < MaxSteps
        invariant 0 <= step <= MaxSteps && count == step
        invariant r == row + step * dy && c == col + step * dx
        invariant forall k :: 1 <= k <= count ==> SameAt(board, row, col, dx, dy, k)
      {
        r := r + dy;
        c := c + dx;
        assert r == row + (step + 1) * dy && c == col + (step + 1) * dx;
        if 0 <= r < Size && 0 <= c < Size && board[r][c] == player {
          count := count + 1;
        } else {
          break;
        }
        step := step + 1;
      }
      RunUnique(board, row, col, dx, dy, count);
    }

    /** `reset_game`: a fresh empty board and black to move. */
    method ResetGame()
      requires Valid()
      modifies this
      ensures Valid() && State() == Engine.Reset(old(State()))
    {
      board := EmptyGrid(Size);
      currentPlayer := Black;
    }
  }
}
