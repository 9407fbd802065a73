# Snake game engine

A model of the simulation engine inside the `GameBoard` widget of a small Qt
snake game: a snake on a 20×20 board moves one cell per timer tick in the
direction the arrow keys choose, grows by one cell and scores 10 points for
each piece of food, speeds up at every 50 points, and the game ends when the
head leaves the board or lands on the snake.

- `snake_rules.dfy`, module `SnakeRules`: the rules on values. It defines cells,
  the direction codes (0 up, 1 right, 2 down, 3 left) and `Opposite`. It defines
  the key guard `Steer`, the unit step `Step`, and `Advance`, a reference
  definition of one tick whose result is `Wall`, `Bite`, `Eat` or `Slide`. It
  also holds the tick-interval law `TickInterval`, the board invariant `Sound`,
  the timer invariant `Paced`, and the counting lemmas that show when a free
  cell for the food exists.
- `game_board.dfy`, module `SnakeGame`: the class `GameBoard` with the widget's
  own state. The fields are `snake` (head first), `food`, `direction`, `score`,
  `isPaused` and `gameOver`, plus `timerRunning` and `interval` for the timer
  and `scoreLog` for the `scoreChanged` signals. Each operation is an
  imperative method that keeps `Valid()`. `MoveSnake` follows the source step
  by step: wall check, prepend, count check, then eat or drop the tail. It is
  proved equal to `Advance` of the state before it (the `Moved` predicate).

Facts the proofs pin down:

- A wall death leaves snake, food and score as they were.
- A bite keeps the new head, so the frozen snake has one repeated cell.
- Moving into the current tail cell is a bite, because the count runs before the tail is removed.
- Between ticks the key guard compares a key with the current direction, not with the direction of the last move.
  One key press can never turn the head onto the neck (`SteerSparesNeck`).
  From every direction, two presses can set the reverse direction, and the next tick then bites the neck (`TwoPressesBiteNeck`).
- The score always equals 10 × (length − 1) of the live snake. So it is a multiple of 10 and at most 3990, well inside a C++ `int`.
- When a 399-cell snake eats, the grown snake covers the whole board and the food search has no free cell to find (`LastFoodLeavesNoCell`). `generateFood` then loops forever, so the game hangs at the moment it is won.

Other behaviours of the code worth knowing:

- `pauseGame` toggles the flag even after game over.
- A key changes `direction` at once. Nothing is queued until the next tick.
- The only signal is `scoreChanged`. There is no game-over signal.

## Model

| member | source | states |
|---|---|---|
| `SnakeRules.Opposite` | gameboard.cpp:120-129 | the reverse of a direction code is another valid code of the same parity: 0 and 2, 1 and 3 |
| `SnakeRules.Steer` | gameboard.cpp:117-134 | an arrow key sets its direction unless that is the exact reverse of the current one; other keys change nothing; the result is a valid code and never the reverse of the old direction |
| `SnakeRules.Step` | gameboard.cpp:146-151 | the new head is exactly one cell away from the old head (Manhattan distance 1) |
| `SnakeRules.StepUndone` | gameboard.cpp:146-151 | a step followed by a step in the opposite direction returns to the start |
| `SnakeRules.StepInjective` | gameboard.cpp:146-151 | two directions give the same next cell only if they are the same direction |
| `SnakeRules.AdvanceByCount` | gameboard.cpp:153-183 | the source's procedure (prepend, bite when the head then occurs more than once, drop the last cell otherwise) gives the same result as the reference tick for every snake |
| `SnakeRules.BiteIffHeadOnSnake` | gameboard.cpp:161-168 | a tick is a bite exactly when the new head is on the board and is a cell of the old snake |
| `SnakeRules.TailCellIsFatal` | gameboard.cpp:161-183 | moving onto the current tail cell is a bite, even though that cell would be vacated by the same move |
| `SnakeRules.AdvanceLeavesNeckBehind` | gameboard.cpp:142-161 | after a live tick the new head is one step from the old head in the direction of travel, and the old head becomes the neck, one step behind |
| `SnakeRules.SteerSparesNeck` | gameboard.cpp:117-134 | with the neck behind the head, no single key press can aim the next step at the neck |
| `SnakeRules.TwoPressesCanReverse` | gameboard.cpp:117-134 | up then left while moving right sets the reverse of the direction moved, because the guard checks the current direction only |
| `SnakeRules.TwoPressesBiteNeck` | gameboard.cpp:117-168 | from every direction some two key presses set the reverse direction, and with the neck behind the head the next tick is then a bite |
| `SnakeRules.FirstBiteOfFood` | gameboard.cpp:171-175 | a fresh snake at (10,10) heading right with food at (11,10) eats it and becomes [(11,10),(10,10)] |
| `SnakeRules.RightWallIsFatal` | gameboard.cpp:153-159 | a head at (19,10) moving right hits the wall |
| `SnakeRules.TurnOntoBodyIsFatal` | gameboard.cpp:161-168 | a head at (5,5) moving down onto (5,6) of its own body bites |
| `SnakeRules.AdvanceKeepsBoard` | gameboard.cpp:153-183 | on a live board: an ordinary move keeps the cells distinct and on the board, keeps the length and leaves the food free; eating grows the snake by one with the food as head; a bite adds one repeated cell, the head |
| `SnakeRules.AdvanceKeepsSound` | gameboard.cpp:153-183 | a tick keeps the board invariant, by way of `AdvanceKeepsBoard`: wall and bite end the game, eating is sound with 10 more points wherever the new food lands, an ordinary move keeps the score |
| `SnakeRules.TickInterval` | gameboard.cpp:176-180 | the interval set by the last milestone stays between 50 and 200 |
| `SnakeRules.IntervalAtMilestone` | gameboard.cpp:177-180 | at a multiple of 50 the interval is max(50, 200 − score/5) |
| `SnakeRules.IntervalSteadyBetweenMilestones` | gameboard.cpp:176-180 | food that does not reach a multiple of 50 leaves the interval unchanged |
| `SnakeRules.IntervalNonIncreasing` | gameboard.cpp:176-180 | a higher score never gives a longer interval |
| `SnakeRules.IntervalExamples` | gameboard.cpp:176-180 | intervals 200, 190, 100 and 50 at scores 0, 50, 500 and 1000 |
| `SnakeRules.EatKeepsPace` | gameboard.cpp:171-180 | after eating, the timer runs at the interval the new score calls for: restarted at a multiple of 50, untouched otherwise |
| `SnakeRules.CoveringSnakeIsLong` | gameboard.cpp:188-193 | a snake that covers every cell of the 20×20 board has at least 400 cells |
| `SnakeRules.SnakeFitsBoard` | gameboard.h:37 | a snake of distinct board cells has at most 400 cells |
| `SnakeRules.FreeCellExists` | gameboard.cpp:188-193 | a snake shorter than 400 cells leaves a free cell, so the food search has something to find |
| `SnakeRules.LastFoodLeavesNoCell` | gameboard.cpp:171-193 | a snake one cell short of the board that reaches the food eats, and afterwards no board cell is free for the food search |
| `SnakeGame.GameBoard.constructor` | gameboard.cpp:4-9 | a new board holds one cell at the centre heading right, score 0, not paused, not over, no timer, food on a free cell, score 0 signalled once |
| `SnakeGame.GameBoard.InitGame` | gameboard.cpp:11-21 | resets snake to [(10,10)], direction to right, score to 0 and both flags to false; places food off the snake; signals 0; leaves the timer alone |
| `SnakeGame.GameBoard.StartGame` | gameboard.cpp:23-28 | starts the timer at 200 only when none runs, keeps the running timer's interval otherwise, and always clears the pause flag |
| `SnakeGame.GameBoard.PauseGame` | gameboard.cpp:30-32 | flips the pause flag and nothing else |
| `SnakeGame.GameBoard.RestartGame` | gameboard.cpp:34-38 | from any state: timer stopped, then the same reset as InitGame, with 0 signalled |
| `SnakeGame.GameBoard.GetScore` | gameboard.h:20 | returns the score without changing anything; it is a multiple of 10 between 0 and 3990, and 10 × (length − 1) while the game runs |
| `SnakeGame.GameBoard.KeyPressEvent` | gameboard.cpp:117-134 | the direction becomes Steer of the old direction and the key; nothing else changes |
| `SnakeGame.GameBoard.TimerEvent` | gameboard.cpp:136-140 | a move happens exactly when the event is from the current timer, the timer runs, and the game is neither paused nor over; otherwise the whole state is unchanged |
| `SnakeGame.GameBoard.MoveSnake` | gameboard.cpp:142-186 | the new state is the reference tick of the old one: wall keeps the snake, bite keeps the new head, both set game over; eating adds 10 points, signals once, moves food to a free cell and restarts the timer at max(50, 200 − score/5) at multiples of 50; an ordinary move drops the tail; the invariant is kept |
| `SnakeGame.GameBoard.GenerateFood` | gameboard.cpp:188-193 | the food ends on a board cell the snake does not occupy |
| `SnakeGame.PauseTwice` | gameboard.cpp:30-32 | pausing twice leaves every field of the board as it was |
| `SnakeGame.RestartTwice` | gameboard.cpp:34-38 | restarting twice gives the same structural state as restarting once |

## Left out

- `paintEvent` (drawing, colours, fonts, the game-over overlay), `update()` repaint requests, `setFixedSize` and `setFocusPolicy`: presentation only.
- mainwindow.cpp and mainwindow.h (layout, style sheets, button wiring) are not part of this model.
- Qt timers: `startTimer`/`killTimer` handles become the flag `timerRunning` and the period `interval`. Whether a timer event comes from the current timer is the parameter `fromCurrentTimer` of `TimerEvent`.
- Key events: only the four arrow keys are decoded; every other key is `KeyOther`.
- `checkCollision` is declared but never defined or called. `growSnake` has an empty body and is not modelled.
- GenerateFood: the random draw is a nondeterministic choice of a free cell. The model does not capture the uniform distribution or the number of draws.
- GenerateFood: on a full board the source loops forever. The model requires a free cell instead. For this reason `MoveSnake` and `TimerEvent` require room for new food when the move eats (`RoomForFood`).
- MoveSnake: requires a running timer and a game that is not over, which its only caller, `timerEvent`, guarantees.
- InitGame: requires a stopped timer, which both of its callers (the constructor and `restartGame`) guarantee.
