/**
 The snake engine of the game board: the state the widget keeps between
 events and the operations that change it. Painting, widget set-up and the
 real Qt timer are not modelled; the timer is a running flag and the period
 it was last started with, and every scoreChanged signal is appended to a log.
 */
module SnakeGame {
  import opened SnakeRules

  class GameBoard {
    /** Snake cells, head first. */
    var snake: seq<Cell>
    var food: Cell
    /** Direction code, see SnakeRules.Up .. SnakeRules.Left. */
    var direction: int
    var score: int
    var isPaused: bool
    var gameOver: bool
    /** Whether a timer is running (a non-zero timer id in the widget). */
    var timerRunning: bool
    /** The period the timer was last started with (0 before the first start). */
    var interval: int
    /** Every value sent with the scoreChanged signal, oldest first. */
    var scoreLog: seq<int>

    /**
     The board invariant. While the game runs the snake is live and its length
     pays for the score; a bite freezes it with one repeated cell, the new head.
     The timer runs at the speed the score has reached, and a stopped timer
     means no point has been scored since the last restart.
     */
    ghost predicate Valid()
      reads this
    {
      && Sound(snake, food, score, gameOver)
      && Paced(timerRunning, interval, score)
      && IsDirection(direction)
      && |scoreLog| >= 1 && scoreLog[|scoreLog| - 1] == score
    }

    /** A timer event moves the snake only from the live timer of a running, unpaused game. */
    predicate TickRuns(fromCurrentTimer: bool)
      reads this
    {
      fromCurrentTimer && timerRunning && !isPaused && !gameOver
    }

    /**
     What one move did, against the reference tick SnakeRules.Advance of the
     state before it. A wall leaves everything as it was; a bite keeps the new
     head; food adds 10 points, signals the new score once, puts new food on a
     free cell and, at each multiple of 50, restarts the timer faster.
     */
    twostate predicate Moved()
      reads this
      requires old(|snake| >= 1 && IsDirection(direction))
    {
      && direction == old(direction) && isPaused == old(isPaused)
      && match old(Advance(snake, direction, food))
        case Wall =>
          gameOver && snake == old(snake) && food == old(food) && score == old(score)
          && scoreLog == old(scoreLog) && Unsped()
        case Bite(b) =>
          gameOver && snake == b && food == old(food) && score == old(score)
          && scoreLog == old(scoreLog) && Unsped()
        case Eat(b) =>
          !gameOver && snake == b && FreeCell(food, snake)
          && score == old(score) + 10 && scoreLog == old(scoreLog) + [score]
          && (score % 50 == 0 ==>
                timerRunning && interval == Max(50, 200 - score / 5))
          && (score % 50 != 0 ==> Unsped())
        case Slide(b) =>
          !gameOver && snake == b && food == old(food) && score == old(score)
          && scoreLog == old(scoreLog) && Unsped()
    }

    /** The timer was left alone. */
    twostate predicate Unsped()
      reads this
    {
      timerRunning == old(timerRunning) && interval == old(interval)
    }

    /** A new board: one cell in the centre heading right, no score, no timer. */
    constructor ()
      ensures Valid()
      ensures snake == [Center] && direction == Right && score == 0
      ensures !gameOver && !isPaused && !timerRunning && FreeCell(food, snake)
      ensures scoreLog == [0]
    {
      direction := Right;
      timerRunning := false;
      interval := 0;
      score := 0;
      isPaused := false;
      gameOver := false;
      snake := [];
      food := Center;
      scoreLog := [];
      new;
      InitGame();
    }

    /**
     Puts the board back to its starting position and signals the score 0.
     The widget calls it only while no timer runs.
     */
    method InitGame()
      requires !timerRunning
      modifies this
      ensures Valid()
      ensures snake == [Center] && direction == Right && score == 0
      ensures !gameOver && !isPaused && FreeCell(food, snake)
      ensures scoreLog == old(scoreLog) + [0]
      ensures timerRunning == old(timerRunning) && interval == old(interval)
    {
      snake := [];
      snake := snake + [Center];
      direction := Right;
      score := 0;
      gameOver := false;
      isPaused := false;
      assert FreeCell((0, 0), snake);
      GenerateFood();
      scoreLog := scoreLog + [score];
    }

    /** Starts the timer at 200 ms unless one runs already; always resumes. */
    method StartGame()
      requires Valid()
      modifies this`timerRunning, this`interval, this`isPaused
      ensures Valid()
      ensures timerRunning && !isPaused
      ensures interval == if old(timerRunning) then old(interval) else InitialInterval
    {
      if !timerRunning {
        timerRunning := true;
        interval := InitialInterval;
      }
      isPaused := false;
    }

    /** Flips the pause flag, in every state, game over included. */
    method PauseGame()
      requires Valid()
      modifies this`isPaused
      ensures Valid()
      ensures isPaused == !old(isPaused)
    {
      isPaused := !isPaused;
    }

    /**
     Stops the timer and starts over. It works from any state, and the state
     it leaves does not depend on the one before except for the score log and
     the last timer period, so restarting twice is like restarting once.
     */
    method RestartGame()
      modifies this
      ensures Valid()
      ensures snake == [Center] && direction == Right && score == 0
      ensures !gameOver && !isPaused && !timerRunning && FreeCell(food, snake)
      ensures scoreLog == old(scoreLog) + [0]
      ensures interval == old(interval)
    {
      timerRunning := false;
      InitGame();
    }

    /** The score shown to the player; a multiple of 10 that fits any int. */
    function GetScore(): (r: int)
      requires Valid()
      reads this
      ensures r == score
      ensures 0 <= r <= 10 * (Cells - 1) && r % 10 == 0
      ensures !gameOver ==> r == 10 * (|snake| - 1)
    {
      if Distinct(snake) then SnakeFitsBoard(snake); score
      else SnakeFitsBoard(snake[1..]); score
    }

    /** Arrow keys turn the snake, except into the reverse of its direction. */
    method KeyPressEvent(key: Key)
      requires Valid()
      modifies this`direction
      ensures Valid()
      ensures direction == Steer(old(direction), key)
    {
      match key
      case KeyUp =>
        if direction != Down { direction := Up; }
      case KeyRight =>
        if direction != Left { direction := Right; }
      case KeyDown =>
        if direction != Up { direction := Down; }
      case KeyLeft =>
        if direction != Right { direction := Left; }
      case KeyOther =>
    }

    /**
     A timer event. fromCurrentTimer says whether the event comes from the
     timer the board last started. A paused or finished game, or a stale
     timer, changes nothing; otherwise the snake moves once.
     */
    method TimerEvent(fromCurrentTimer: bool)
      requires Valid()
      requires TickRuns(fromCurrentTimer) ==> RoomForFood(snake, direction, food)
      modifies this
      ensures Valid()
      ensures old(TickRuns(fromCurrentTimer)) ==> Moved()
      ensures !old(TickRuns(fromCurrentTimer)) ==> unchanged(this)
    {
      if fromCurrentTimer && timerRunning && !isPaused && !gameOver {
        MoveSnake();
      }
    }

    /**
     One move: wall check, new head in front, self-collision check (the old
     tail still counts), then either eat or drop the tail.
     */
    method MoveSnake()
      requires Valid() && !gameOver && timerRunning
      requires RoomForFood(snake, direction, food)
      modifies this
      ensures Valid()
      ensures Moved()
    {
      AdvanceByCount(snake, direction, food);
      AdvanceKeepsSound(snake, direction, food, score);
      var head := snake[0];
      var newHead := Step(head, direction);

      if !(0 <= newHead.0 < BoardSize && 0 <= newHead.1 < BoardSize) {
        gameOver := true;
        return;
      }

      snake := [newHead] + snake;

      if multiset(snake)[newHead] > 1 {
        gameOver := true;
        return;
      }

      if newHead == food {
        EatKeepsPace(interval, score);
        score := score + 10;
        scoreLog := scoreLog + [score];
        FreeCellExists(snake);
        GenerateFood();
        if score % 50 == 0 {
          timerRunning := true;
          interval := Max(50, 200 - score / 5);
        }
      } else {
        snake := snake[..|snake| - 1];
      }
    }

    /** Puts the food on a cell of the board the snake does not occupy. */
    method GenerateFood()
      requires exists c :: FreeCell(c, snake)
      modifies this`food
      ensures FreeCell(food, snake)
    {
      var c :| FreeCell(c, snake);
      food := c;
    }
  }

  /** Pausing twice gives back the flag the game had, whatever it was. */
  method PauseTwice(b: GameBoard)
    requires b.Valid()
    modifies b
    ensures b.Valid() && unchanged(b)
  {
    b.PauseGame();
    b.PauseGame();
  }

  /** Restarting twice leaves the same structural state as restarting once. */
  method RestartTwice(b: GameBoard)
    modifies b
    ensures b.Valid() && !b.timerRunning
    ensures b.snake == [Center] && b.direction == Right && b.score == 0
    ensures !b.gameOver && !b.isPaused && FreeCell(b.food, b.snake)
    ensures b.scoreLog == old(b.scoreLog) + [0, 0]
  {
    b.RestartGame();
    b.RestartGame();
  }
}
