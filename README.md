# Gomoku engine — a verified Dafny model

This project models the game engine inside `GomokuApp`, a tkinter
five-in-a-row game on a 19 x 19 board. The engine covers:

- the board and the player to move;
- the legality test for a click;
- placing a stone and passing the turn;
- the win check, which counts at most four equal cells each way along four axes;
- the reset after a win;
- the 30-second countdown;
- the random move made when the countdown runs out.

The model has four modules:

- `Board` (`board.dfy`): players, cells, the 19 x 19 grid, the legality test,
  writing one stone, and the row-major list of empty cells that
  `place_random_stone` draws from.
- `WinCheck` (`win.dfy`): the capped count of `count_stones`, the answer of
  `check_winner`, and the proof that this answer is exactly "a contiguous line
  of five or more equal cells passes through the placed stone", overlines
  included. The cap of four steps per side never hides a win, and the count
  never invents one.
- `Engine` (`engine.dfy`): the four fields as a value (`Game`) and one
  function per engine operation, giving the state it leaves behind, with
  lemmas about those functions.
- `App` (`app.dfy`): the class `GomokuApp`, whose fields `board`,
  `currentPlayer`, `timeLeft` and `timerPending` its methods update in place.
  The methods follow the Python call chain (start_timer -> update_timer ->
  place_random_stone -> place_stone_at -> start_timer). Each is proved to end
  in exactly the state the matching `Engine` function describes. The
  invariant `Valid()` holds throughout: a 19 x 19 board, a counter in
  [0, 30], and a counter below 30 whenever a tick is scheduled.
  `CheckWinner` and `CountStones` are loops proved against `WinCheck.IsWin`
  and `WinCheck.Run`.

Scheduling and randomness are made explicit:

- `timerPending` records that an `update_timer` callback is scheduled.
- `after_cancel` clears `timerPending`.
- `Tick(pick)` is the scheduled callback firing.
- `random.choice(empty_positions)` is `empty_positions[pick % len]` for a
  `pick` supplied by the caller. Every empty cell is reachable with some
  `pick` (`Engine.EveryEmptyCellCanBeDrawn`).

Four behaviours of the code that are modelled as written:

- `reset_game` does not cancel the countdown.
- After a restart the counter reads 29, not 30, because `start_timer`
  immediately runs `update_timer` once.
- The empty cells are a list in row-major order.
- On a full board the timeout makes no move and the countdown stops.

## Model

| member | source | states |
|---|---|---|
| Board.EmptyGrid | copilot/main.py:16 | the fresh board is 19 x 19 with every cell empty |
| Board.Opponent | copilot/main.py:156 | the player after `p` is never `p` |
| Board.OpponentInvolution | copilot/main.py:156 | flipping the player twice gives the original player |
| Board.Place | copilot/main.py:147 | writing the mover's stone keeps a 19 x 19 board, puts the stone at (row, col) and leaves every other cell as it was |
| Board.IsLegal | copilot/main.py:128 | a click is acted on exactly when 0 <= row < 19, 0 <= col < 19 and the cell is empty; its consequences are stated by Board.LegalIsListed, Board.ListedIsLegal and Engine.ClickAppliedIffLegal |
| Board.EmptyInRow | copilot/main.py:116 | the inner `for c` of the comprehension, one row's empty cells left to right; its contents and order are stated by Board.EmptyInRowSpec |
| Board.EmptyFrom | copilot/main.py:116 | the outer `for r` of the comprehension, rows one after another; its contents and order are stated by Board.EmptyFromSpec |
| Board.EmptyPositions | copilot/main.py:116 | the list `empty_positions`; Board.EmptyPositionsSpec states that it holds exactly the legal moves, once each, in row-major order |
| Board.EmptyInRowSpec | copilot/main.py:116 | the empty cells of a row, from column c on and followed by a tail, are exactly those cells plus the tail, in increasing order |
| Board.EmptyFromSpec | copilot/main.py:116 | the cells listed from row r on are exactly the empty cells of rows r..18, strictly increasing in row-major order |
| Board.EmptyPositionsSpec | copilot/main.py:116 | `empty_positions` holds exactly the cells that are on the board and empty, each once, in row-major order |
| Board.LegalIsListed | copilot/main.py:116 | every legal move is in `empty_positions` |
| Board.ListedIsLegal | copilot/main.py:116 | every entry of `empty_positions` is a legal move |
| WinCheck.RunFromSpec | copilot/main.py:176-182 | the cells counted from step k all match, the count stays within the step limit, and it stops at the first step that does not match |
| WinCheck.RunFrom | copilot/main.py:174-182 | the loop of `count_stones` from step k on, counting until a step fails or the limit is reached; its meaning is stated by WinCheck.RunFromSpec |
| WinCheck.Run | copilot/main.py:172-183 | `count_stones` is between 0 and 4; steps 1..n are on the board and equal the start cell; if n < 4, step n + 1 is off the board or different |
| WinCheck.RunUnique | copilot/main.py:172-183 | only one number has that property, so any loop that achieves it returns the same count |
| WinCheck.RunAtLeast | copilot/main.py:176-182 | if the first m steps match, the count is at least m or has hit the cap of 4 |
| WinCheck.SameAtFlip | copilot/main.py:166-167 | step k along (-dx, -dy) is step -k along (dx, dy), so the backward count runs along the same axis |
| WinCheck.SameAtZero | copilot/main.py:165 | the placed stone itself is the `count = 1` of the line |
| WinCheck.RunsFormSegment | copilot/main.py:163-168 | the backward count, the stone and the forward count form one contiguous segment of equal cells |
| WinCheck.WinsAlongGivesLine | copilot/main.py:163-169 | when 1 + forward + backward >= 5 on an axis, a real line of at least five equal cells lies on that axis through the stone |
| WinCheck.SegmentGivesRuns | copilot/main.py:176-182 | a segment of equal cells through the stone makes each count reach the segment's end or the cap |
| WinCheck.WinsAlong | copilot/main.py:165-168 | one pass of the `for dx, dy` loop: 1 + forward + backward >= 5; WinCheck.WinsAlongGivesLine and WinCheck.LineGivesWinsAlong state that it means a line of five or more |
| WinCheck.IsWin | copilot/main.py:161-170 | `check_winner`'s answer: some axis of the four passes WinsAlong; WinCheck.WinIffLine states that it means a contiguous line of five or more through the stone |
| WinCheck.LineGivesWinsAlong | copilot/main.py:163-168 | any line of five or more equal cells through the stone, including overlines, makes 1 + forward + backward >= 5: the cap hides no win |
| WinCheck.WinIffLine | copilot/main.py:161-170 | `check_winner` is true if and only if one of the four axes carries a contiguous line of five or more equal cells through (row, col) |
| WinCheck.RowOfFiveWins | copilot/main.py:161-170 | five equal cells side by side in a row, the stone among them, are a win, also inside a longer run |
| WinCheck.DirectionsProper | copilot/main.py:163 | none of the four axes is the null step |
| WinCheck.StepGivesNeighbour | copilot/main.py:176-179 | a matching first step is another cell with the stone's value |
| WinCheck.WinsAlongGivesNeighbour | copilot/main.py:164-168 | counts reaching five along an axis need a second equal cell next to the stone |
| WinCheck.WinHasNeighbour | copilot/main.py:161-170 | a win needs an adjacent cell of the same colour |
| Engine.DrawnCell | copilot/main.py:116-118 | the cell `random.choice` returns is on the board and empty |
| Engine.DrawIndex | copilot/main.py:118 | a draw below the list length picks that entry of the list |
| Engine.Initial | copilot/main.py:14-19 | the state after construction: empty board, black to move, 30 seconds, no tick; App.GomokuApp.constructor is proved to reach it |
| Engine.Restart | copilot/main.py:95-101 | `start_timer` as a state change: 29 left and one tick scheduled; Engine.RestartIdempotent states restarting twice equals once |
| Engine.Reset | copilot/main.py:185-188 | `reset_game`: empty board and black to move, countdown untouched; Engine.PlacementOutcome states the board after a win is all empty |
| Engine.PlaceAt | copilot/main.py:136-159 | `place_stone_at` as a state change; Engine.PlacementOutcome, Engine.PlaceAtKeepsInvariant and Engine.PlaceAtKeepsStones state what it does |
| Engine.Timeout | copilot/main.py:114-119 | `place_random_stone`: place on the drawn empty cell, or nothing on a full board; Engine.TimeoutPicksEmptyCell and Engine.EveryEmptyCellCanBeDrawn state which cells it can choose |
| Engine.UpdateTimer | copilot/main.py:103-112 | `update_timer`: count down and schedule the next tick, or make the timeout move at zero; Engine.UpdateTimerKeepsInvariant states the counter never goes negative |
| Engine.Tick | copilot/main.py:103-112 | the scheduled callback firing; Engine.TickCountsDown and Engine.TimeoutPicksEmptyCell state its two cases |
| Engine.Click | copilot/main.py:121-134 | the engine part of `place_stone`; Engine.ClickAppliedIffLegal states it acts exactly on legal clicks |
| Engine.PlaceAtKeepsInvariant | copilot/main.py:136-159 | `place_stone_at` keeps a 19 x 19 board and the counter in [0, 30] |
| Engine.TimeoutKeepsInvariant | copilot/main.py:114-119 | `place_random_stone` keeps the invariant |
| Engine.UpdateTimerKeepsInvariant | copilot/main.py:103-112 | `update_timer` keeps the invariant; in particular the counter never goes negative |
| Engine.TickKeepsInvariant | copilot/main.py:103-112 | a scheduled tick keeps the invariant |
| Engine.ClickKeepsInvariant | copilot/main.py:121-134 | a click keeps the invariant |
| Engine.PlacementOutcome | copilot/main.py:136-159 | a non-winning placement changes exactly the target cell, to the mover's stone, flips the player and restarts the countdown (29 left, one tick pending); a winning one leaves an all-empty board with black to move and the counter untouched |
| Engine.ClickAppliedIffLegal | copilot/main.py:127-134 | a click off the board or on a stone leaves board, player, counter and timer as they were; a click on an empty cell always changes the board |
| Engine.TickCountsDown | copilot/main.py:105-109 | a tick with time left lowers the counter by exactly one, schedules the next tick and changes nothing else |
| Engine.TimeoutAtZero | copilot/main.py:110-119 | a tick at zero with an empty cell places the mover's stone on the drawn cell |
| Engine.TimeoutPicksEmptyCell | copilot/main.py:110-119 | a tick at zero places on a cell drawn from exactly the empty cells; on a full board it changes nothing and schedules no tick |
| Engine.EveryEmptyCellCanBeDrawn | copilot/main.py:114-119 | every empty cell is the timeout move for some draw |
| Engine.LastEmptyCellIsForced | copilot/main.py:114-119 | with one empty cell left, the timeout move goes there whatever the draw |
| Engine.PlaceAtKeepsStones | copilot/main.py:136-159 | a placement removes no stone unless it wins, and then the board is empty with black to move |
| Engine.ClickKeepsStones | copilot/main.py:121-134 | a click removes no stone except through the reset after a win |
| Engine.TickKeepsStones | copilot/main.py:103-119 | a tick removes no stone except through the reset after a win |
| Engine.RestartIdempotent | copilot/main.py:95-101 | starting the countdown twice in a row leaves one countdown at 29, the same as starting it once |
| App.GomokuApp.constructor | copilot/main.py:14-19 | a new game has an empty 19 x 19 board, black to move, 30 seconds and no tick scheduled |
| App.GomokuApp.StartTimer | copilot/main.py:95-101 | cancels the pending tick, sets 30, and ends at 29 with one tick scheduled |
| App.GomokuApp.UpdateTimer | copilot/main.py:103-112 | counts down one second and schedules the next tick, or at zero makes the timeout move |
| App.GomokuApp.Tick | copilot/main.py:103-112 | the scheduled callback fires: the tick is no longer pending and `update_timer` runs |
| App.GomokuApp.PlaceRandomStone | copilot/main.py:114-119 | places the mover's stone on the drawn empty cell, or does nothing on a full board |
| App.GomokuApp.PlaceStone | copilot/main.py:127-134 | acts only on an in-bounds empty cell, then places there and restarts the countdown |
| App.GomokuApp.PlaceStoneAt | copilot/main.py:136-159 | writes the stone in place, then resets after a win or flips the player and restarts the countdown |
| App.GomokuApp.CheckWinner | copilot/main.py:161-170 | the loop over the four axes returns exactly `IsWin`, without changing the game |
| App.GomokuApp.CountStones | copilot/main.py:172-183 | the loop with early `break` returns a count in [0, 4] equal to `Run`, without changing the game |
| App.GomokuApp.ResetGame | copilot/main.py:185-188 | empty board and black to move; the counter and the timer are untouched |

## Left out

- Window, canvas, labels, buttons, `messagebox`, the menu and exit screens
  (`copilot/main.py:24-93`, `191-201`): presentation only. This includes the
  oval drawing in `place_stone_at`, the label text in `update_timer` and the
  call to `show_main_menu` in `reset_game`.
- The background image loaded with PIL from a fixed path: file I/O and a
  foreign library.
- Converting a click's pixel coordinates to a cell with float division and
  `round` (`copilot/main.py:124-125`): `PlaceStone` takes the row and column
  directly.
- Wall-clock time: `root.after` and `after_cancel` become the `timerPending`
  flag and the `Tick` method. The timer handle and the `hasattr` test are not
  modelled, because cancelling a callback that has already fired has no effect.
- `random.choice`: the draw is the caller's `pick`, not a probability
  distribution.
- `start_game`: its engine effect is a call to `StartTimer`, which is
  modelled; the rest rebuilds widgets.
- App.GomokuApp.PlaceStone: after a winning click the program goes on to
  `start_timer` (`copilot/main.py:134`), which fails on the timer label that
  the reset has destroyed. The model instead completes the restart, leaving
  29 seconds and a scheduled tick (`Engine.Click`).
- App.GomokuApp.UpdateTimer: requires that no tick is scheduled, as every
  caller in the program ensures. Two overlapping countdowns cannot be
  represented.
- Players are the strings `"black"` and `"white"` in the program and an
  enumeration here; empty cells are `None` there and `Empty` here.
