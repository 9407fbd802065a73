/**
 The rules of the snake engine, stated on values: the board, the four
 direction codes, how a key changes the direction, where the next head lands,
 what one tick does to the snake, and how the tick interval follows the score.
 The GameBoard class in game_board.dfy is proved against these definitions.
 */
module SnakeRules {

  /** A board cell (x, y); y grows downwards, as on screen. */
  type Cell = (int, int)

  const BoardSize := 20
  const Cells := 400  // BoardSize * BoardSize
  const Center: Cell := (BoardSize / 2, BoardSize / 2)

  /** Direction codes: 0 up, 1 right, 2 down, 3 left. */
  const Up := 0
  const Right := 1
  const Down := 2
  const Left := 3

  /**
   Tick interval (milliseconds) of a freshly started timer. Food is worth 10
   points, and at every multiple of 50 points the interval becomes
   max(50, 200 - score / 5); those numbers are written out where they are used,
   as in the game's code, so that the arithmetic stays linear.
   */
  const InitialInterval := 200

  /** The keys the board reacts to; every other key is KeyOther. */
  datatype Key = KeyUp | KeyRight | KeyDown | KeyLeft | KeyOther

  predicate IsDirection(d: int) { 0 <= d < 4 }

  predicate InBoard(c: Cell) { 0 <= c.0 < BoardSize && 0 <= c.1 < BoardSize }

  predicate AllInBoard(s: seq<Cell>) { forall i :: 0 <= i < |s| ==> InBoard(s[i]) }

  predicate Distinct(s: seq<Cell>) { forall i, j :: 0 <= i < j < |s| ==> s[i] != s[j] }

  /** c is a cell of the board that the snake s does not occupy. */
  predicate FreeCell(c: Cell, s: seq<Cell>) { InBoard(c) && c !in s }

  /** A live snake: non-empty, inside the board, no cell twice, food on a free cell. */
  predicate Playable(s: seq<Cell>, food: Cell)
  {
    |s| >= 1 && AllInBoard(s) && Distinct(s) && FreeCell(food, s)
  }

  /**
   The board invariant, with over meaning the game has ended. A live snake
   pays for the score with its length; a bite leaves one repeated cell, the
   new head, and one cell more than the score pays for.
   */
  predicate Sound(s: seq<Cell>, food: Cell, score: int, over: bool)
  {
    && |s| >= 1 && AllInBoard(s) && Distinct(s[1..]) && FreeCell(food, s)
    && score >= 0 && score % 10 == 0
    && ((Distinct(s) && score == 10 * (|s| - 1)) || (over && score == 10 * (|s| - 2)))
  }

  /** The timer runs at the speed the score has reached; a stopped timer means no points yet. */
  predicate Paced(running: bool, interval: int, score: int)
  {
    score >= 0 && (running ==> interval == TickInterval(score)) && (!running ==> score == 0)
  }

  function Abs(n: int): nat { if n < 0 then -n else n }

  function Max(a: int, b: int): int { if a < b then b else a }

  /** The direction exactly reverse to d: 0 and 2, 1 and 3 are opposites. */
  function Opposite(d: int): (r: int)
    requires IsDirection(d)
    ensures IsDirection(r) && r != d
    ensures (r - d) % 2 == 0
  {
    (d + 2) % 4
  }

  /** The direction code an arrow key asks for. */
  function Code(k: Key): (d: int)
    requires k != KeyOther
    ensures IsDirection(d)
  {
    match k
    case KeyUp => Up
    case KeyRight => Right
    case KeyDown => Down
    case KeyLeft => Left
  }

  /** The direction after key k is pressed while moving in direction d. */
  function Steer(d: int, k: Key): (r: int)
    requires IsDirection(d)
    ensures IsDirection(r)
    ensures r != Opposite(d)
    ensures k == KeyOther ==> r == d
    ensures k != KeyOther ==> r == (if Code(k) == Opposite(d) then d else Code(k))
  {
    match k
    case KeyUp => if d != Down then Up else d
    case KeyRight => if d != Left then Right else d
    case KeyDown => if d != Up then Down else d
    case KeyLeft => if d != Right then Left else d
    case KeyOther => d
  }

  /** The cell next to c in direction d. */
  function Step(c: Cell, d: int): (n: Cell)
    requires IsDirection(d)
    ensures Abs(n.0 - c.0) + Abs(n.1 - c.1) == 1
  {
    if d == Up then (c.0, c.1 - 1)
    else if d == Right then (c.0 + 1, c.1)
    else if d == Down then (c.0, c.1 + 1)
    else (c.0 - 1, c.1)
  }

  /** What one tick does to the snake. */
  datatype Move =
    | Wall                   // the head would leave the board: nothing moves
    | Bite(body: seq<Cell>)  // the head lands on the snake: frozen with the new head
    | Eat(body: seq<Cell>)   // the head lands on the food: the snake grows
    | Slide(body: seq<Cell>) // an ordinary move: the tail follows

  /**
   Reference definition of a tick for a snake s (head first) moving in
   direction d with the food at food: the wall check comes first, then the
   check against the whole old snake, its tail included, then the food.
   */
  function Advance(s: seq<Cell>, d: int, food: Cell): Move
    requires |s| >= 1 && IsDirection(d)
  {
    var h := Step(s[0], d);
    if !InBoard(h) then Wall
    else if h in s then Bite([h] + s)
    else if h == food then Eat([h] + s)
    else Slide([h] + s[..|s| - 1])
  }

  /**
   The only tick that needs a new food cell is one that eats; it can find one
   only if the grown snake leaves a cell of the board free.
   */
  predicate RoomForFood(s: seq<Cell>, d: int, food: Cell)
    requires |s| >= 1 && IsDirection(d)
  {
    Step(s[0], d) == food ==> |s| + 1 < Cells
  }

  /** Tick interval for a score: the one set when the last multiple of 50 was reached. */
  function TickInterval(score: int): (t: int)
    requires score >= 0
    ensures 50 <= t <= 200
  {
    var reached := score - score % 50;
    Max(50, 200 - reached / 5)
  }

  // ---------------------------------------------------------------------------
  // Moves and directions

  /** Stepping back in the opposite direction returns to the start. */
  lemma StepUndone(c: Cell, d: int)
    requires IsDirection(d)
    ensures Step(Step(c, d), Opposite(d)) == c
  {
  }

  /** Different directions lead to different cells. */
  lemma StepInjective(c: Cell, d1: int, d2: int)
    requires IsDirection(d1) && IsDirection(d2)
    ensures Step(c, d1) == Step(c, d2) <==> d1 == d2
  {
  }

  /**
   After a live tick the old head is the new neck, one step behind the new
   head against the direction of travel.
   */
  lemma AdvanceLeavesNeckBehind(s: seq<Cell>, d: int, food: Cell)
    requires |s| >= 1 && IsDirection(d)
    ensures Advance(s, d, food).Eat? || Advance(s, d, food).Slide? ==>
      var b := Advance(s, d, food).body;
      |b| >= 1 && b[0] == Step(s[0], d) &&
      (|b| >= 2 ==> b[1] == s[0] && b[1] == Step(b[0], Opposite(d)))
  {
  }

  /**
   One key press between two ticks can never turn the head back onto the
   neck: the guard rejects exactly the reverse direction.
   */
  lemma SteerSparesNeck(s: seq<Cell>, d: int, k: Key)
    requires |s| >= 2 && IsDirection(d)
    requires s[1] == Step(s[0], Opposite(d))
    ensures Step(s[0], Steer(d, k)) != s[1]
  {
  }

  /**
   The guard compares a key with the current direction, not with the
   direction of the last move: two presses between ticks (up, then left while
   moving right) end in the reverse of the direction moved.
   */
  lemma TwoPressesCanReverse()
    ensures Steer(Steer(Right, KeyUp), KeyLeft) == Opposite(Right)
  {
  }

  /**
   From every direction some two key presses between ticks set the reverse of
   it, and when the neck lies behind the head the next tick then bites.
   */
  lemma TwoPressesBiteNeck(s: seq<Cell>, d: int, food: Cell)
    requires |s| >= 2 && IsDirection(d)
    requires s[1] == Step(s[0], Opposite(d)) && InBoard(s[1])
    ensures exists k1: Key, k2: Key ::
      Steer(Steer(d, k1), k2) == Opposite(d) && Advance(s, Steer(Steer(d, k1), k2), food).Bite?
  {
    var k1, k2 :=
      if d == Up then KeyLeft
      else if d == Right then KeyUp
      else if d == Down then KeyRight
      else KeyDown,
      if d == Up then KeyDown
      else if d == Right then KeyLeft
      else if d == Down then KeyUp
      else KeyRight;
    assert Steer(Steer(d, k1), k2) == Opposite(d);
    assert s[1] in s;
  }

  // ---------------------------------------------------------------------------
  // One tick

  /** The head moves onto the snake exactly when the new head is an old cell. */
  lemma BiteIffHeadOnSnake(s: seq<Cell>, d: int, food: Cell)
    requires |s| >= 1 && IsDirection(d)
    ensures Advance(s, d, food).Bite? <==> InBoard(Step(s[0], d)) && Step(s[0], d) in s
  {
  }

  /**
   Moving into the cell the tail occupies is fatal, although that cell would
   be vacated by the same move.
   */
  lemma TailCellIsFatal(s: seq<Cell>, d: int, food: Cell)
    requires |s| >= 1 && IsDirection(d)
    requires InBoard(Step(s[0], d)) && Step(s[0], d) == s[|s| - 1]
    ensures Advance(s, d, food).Bite?
  {
  }

  /**
   The board's own procedure: put the new head in front, call it a bite when
   the head then occurs twice, and drop the last cell of an ordinary move.
   It agrees with Advance on every snake.
   */
  lemma AdvanceByCount(s: seq<Cell>, d: int, food: Cell)
    requires |s| >= 1 && IsDirection(d)
    ensures var h := Step(s[0], d);
      var grown := [h] + s;
      Advance(s, d, food) ==
        if !InBoard(h) then Wall
        else if multiset(grown)[h] > 1 then Bite(grown)
        else if h == food then Eat(grown)
        else Slide(grown[..|grown| - 1])
  {
  }

  /** A fresh snake heading right with food just ahead eats it and grows to two cells. */
  lemma FirstBiteOfFood()
    ensures Advance([Center], Right, (11, 10)) == Eat([(11, 10), (10, 10)])
  {
  }

  /** A head in the rightmost column moving right hits the wall. */
  lemma RightWallIsFatal(food: Cell)
    ensures Advance([(19, 10)], Right, food) == Wall
  {
  }

  /** A head turned back onto the cell behind it bites the snake. */
  lemma TurnOntoBodyIsFatal(food: Cell)
    ensures Advance([(5, 5), (5, 6), (5, 7), (5, 8)], Down, food).Bite?
  {
  }

  /** Prepending a cell that is not in s keeps the cells distinct. */
  lemma PrependDistinct(h: Cell, s: seq<Cell>)
    requires Distinct(s) && h !in s
    ensures Distinct([h] + s)
  {
  }

  /**
   A tick keeps every invariant of the board: an ordinary move keeps the snake
   live with the same length, eating grows it by one with the food as head,
   and a bite leaves a snake whose only repeated cell is the new head.
   */
  lemma AdvanceKeepsBoard(s: seq<Cell>, d: int, food: Cell)
    requires Playable(s, food) && IsDirection(d)
    ensures match Advance(s, d, food)
      case Wall => true
      case Bite(b) =>
        |b| == |s| + 1 && AllInBoard(b) && !Distinct(b) && Distinct(b[1..]) && FreeCell(food, b)
      case Eat(b) =>
        |b| == |s| + 1 && AllInBoard(b) && Distinct(b) && b[0] == food && b[1..] == s
      case Slide(b) =>
        |b| == |s| && Playable(b, food) && b[1..] == s[..|s| - 1]
  {
    var h := Step(s[0], d);
    match Advance(s, d, food)
    case Wall =>
    case Bite(b) =>
      var k :| 0 <= k < |s| && s[k] == h;
      assert b[0] == b[k + 1];
      assert b[1..] == s;
    case Eat(b) =>
      PrependDistinct(h, s);
      assert b[1..] == s;
    case Slide(b) =>
      var t := s[..|s| - 1];
      assert Distinct(t) && h !in t by {
        forall c | c in t ensures c in s { }
      }
      PrependDistinct(h, t);
      assert b[1..] == t;
  }

  /**
   A tick of a running game keeps the board invariant: a wall or a bite ends
   the game, eating leaves a sound board with 10 more points wherever the new
   food goes, and an ordinary move keeps the score.
   */
  lemma AdvanceKeepsSound(s: seq<Cell>, d: int, food: Cell, score: int)
    requires Sound(s, food, score, false) && IsDirection(d)
    ensures match Advance(s, d, food)
      case Wall => Sound(s, food, score, true)
      case Bite(b) => Sound(b, food, score, true)
      case Eat(b) =>
        |b| == |s| + 1 && forall f :: FreeCell(f, b) ==> Sound(b, f, score + 10, false)
      case Slide(b) => Sound(b, food, score, false)
  {
    AdvanceKeepsBoard(s, d, food);
  }

  /**
   Eating keeps the timer in step with the score: at a multiple of 50 the
   timer is restarted at the milestone's interval, otherwise it is left alone.
   */
  lemma EatKeepsPace(interval: int, score: int)
    requires Paced(true, interval, score) && score % 10 == 0
    ensures var next := score + 10;
      Paced(true, if next % 50 == 0 then Max(50, 200 - next / 5) else interval, next)
  {
    var next := score + 10;
    if next % 50 == 0 {
      IntervalAtMilestone(next);
    } else {
      IntervalSteadyBetweenMilestones(score);
    }
  }

  // ---------------------------------------------------------------------------
  // Speed

  /** At a multiple of 50 the interval is 200 - score / 5, but never below 50. */
  lemma IntervalAtMilestone(score: int)
    requires score >= 0 && score % 50 == 0
    ensures TickInterval(score) == Max(50, 200 - score / 5)
  {
  }

  /** Food that does not reach a multiple of 50 leaves the interval unchanged. */
  lemma IntervalSteadyBetweenMilestones(score: int)
    requires score >= 0 && score % 10 == 0
    requires (score + 10) % 50 != 0
    ensures TickInterval(score + 10) == TickInterval(score)
  {
    var q, m := score / 50, score % 50;
    assert score == 50 * q + m && 0 <= m < 50;
    assert m % 10 == 0;
    assert m != 40;
    assert (score + 10) % 50 == m + 10;
  }

  /** A higher score never means a slower game. */
  lemma IntervalNonIncreasing(a: int, b: int)
    requires 0 <= a <= b
    ensures TickInterval(b) <= TickInterval(a)
  {
  }

  /** Milestones at scores 50, 500 and 1000: 190, 100, and the floor of 50. */
  lemma IntervalExamples()
    ensures TickInterval(0) == 200 && TickInterval(50) == 190
    ensures TickInterval(500) == 100 && TickInterval(1000) == 50
  {
  }

  // ---------------------------------------------------------------------------
  // Counting cells

  /** The cells a snake occupies. */
  function CellSet(s: seq<Cell>): set<Cell> { set c | c in s }

  /** Every cell of the board exactly once, row by row of x. */
  function BoardCells(): (all: seq<Cell>)
    ensures |all| == Cells
  {
    seq(Cells, i requires 0 <= i < Cells => (i / BoardSize, i % BoardSize))
  }

  lemma {:induction false} CellSetSize(s: seq<Cell>)
    ensures |CellSet(s)| <= |s|
    ensures Distinct(s) ==> |CellSet(s)| == |s|
  {
    if |s| > 0 {
      CellSetSize(s[1..]);
      assert CellSet(s) == {s[0]} + CellSet(s[1..]);
      if Distinct(s) {
        assert Distinct(s[1..]);
        assert s[0] !in CellSet(s[1..]);
      }
    }
  }

  lemma BoardCellsComplete()
    ensures Distinct(BoardCells()) && AllInBoard(BoardCells())
    ensures forall c :: InBoard(c) ==> c in BoardCells()
  {
    var all := BoardCells();
    forall c | InBoard(c) ensures c in all {
      var i := c.0 * BoardSize + c.1;
      assert all[i] == c;
    }
    forall i, j | 0 <= i < j < |all| ensures all[i] != all[j] {
      assert i == (i / BoardSize) * BoardSize + i % BoardSize;
      assert j == (j / BoardSize) * BoardSize + j % BoardSize;
    }
  }

  lemma SubsetSize(a: set<Cell>, b: set<Cell>)
    requires a <= b
    ensures |a| <= |b|
  {
    assert b == a + (b - a);
  }

  /** A snake that covers every cell of the board is at least 400 cells long. */
  lemma CoveringSnakeIsLong(s: seq<Cell>)
    requires forall c :: InBoard(c) ==> c in s
    ensures |s| >= Cells
  {
    BoardCellsComplete();
    CellSetSize(BoardCells());
    CellSetSize(s);
    SubsetSize(CellSet(BoardCells()), CellSet(s));
  }

  /** A snake of distinct board cells fits on the board: at most 400 cells. */
  lemma SnakeFitsBoard(s: seq<Cell>)
    requires AllInBoard(s) && Distinct(s)
    ensures |s| <= Cells
  {
    BoardCellsComplete();
    CellSetSize(BoardCells());
    CellSetSize(s);
    SubsetSize(CellSet(s), CellSet(BoardCells()));
  }

  /** A snake shorter than the board leaves a free cell for the food. */
  lemma FreeCellExists(s: seq<Cell>)
    requires |s| < Cells
    ensures exists c :: FreeCell(c, s)
  {
    if !exists c :: FreeCell(c, s) {
      forall c | InBoard(c) ensures c in s {
        assert !FreeCell(c, s);
      }
      CoveringSnakeIsLong(s);
      assert false;
    }
  }

  /**
   When a snake one cell short of the board eats, the grown snake covers every
   cell, so the food search that follows has no cell to find.
   */
  lemma LastFoodLeavesNoCell(s: seq<Cell>, d: int, food: Cell)
    requires Playable(s, food) && IsDirection(d)
    requires |s| == Cells - 1 && Step(s[0], d) == food
    ensures Advance(s, d, food).Eat?
    ensures forall c :: !FreeCell(c, Advance(s, d, food).body)
  {
    var b := [food] + s;
    PrependDistinct(food, s);
    assert Advance(s, d, food) == Eat(b);
    forall c | FreeCell(c, b) ensures false {
      PrependDistinct(c, b);
      SnakeFitsBoard([c] + b);
    }
  }
}
