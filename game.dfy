/** The `SnakeGame` object: its fields, the per-tick move, food placement, game over,
    reset and start, and the two input handlers that change the heading. */
module Game {
  import opened Grid
  import opened Steering
  import opened Movement
  import opened Scoring
  import opened FoodSupply

  /** Where the one-cell snake starts. */
  const StartCell := Cell(10, 10)

  /** The storage log holds strictly rising values, the last of which is the in-memory high score. */
  ghost predicate SavedConsistently(saved: seq<nat>, highScore: nat) {
    && (forall i, j :: 0 <= i < j < |saved| ==> saved[i] < saved[j])
    && (saved != [] ==> saved[|saved| - 1] == highScore)
  }

  class SnakeGame {
    /** Tiles per side of the board (the canvas width over the tile size). */
    const tileCount: int
    /** The body, head first. */
    var snake: seq<Cell>
    var food: Cell
    var dx: int
    var dy: int
    var score: nat
    var highScore: nat
    var gameRunning: bool
    var gameStarted: bool
    /** Every value written to persistent storage under the high-score key, oldest first. */
    ghost var saved: seq<nat>

    ghost predicate Valid()
      reads this
    {
      && tileCount > 10
      && WellFormed(snake, tileCount)
      && IsHeading((dx, dy))
      && InGrid(food, tileCount)
      && food !in snake
      && SavedConsistently(saved, highScore)
    }

    /** A new game: one cell at the start, no heading, food placed, not running.
        `storedHighScore` is what storage held (0 when nothing was stored). */
    constructor (tileCount: int, storedHighScore: nat, randoms: seq<real>)
      requires tileCount > 10
      requires IsRandom(randoms) && HasFreeCandidate(randoms, tileCount, [StartCell], 0)
      ensures Valid()
      ensures this.tileCount == tileCount
      ensures snake == [StartCell] && dx == 0 && dy == 0 && score == 0
      ensures highScore == storedHighScore && saved == []
      ensures !gameRunning && !gameStarted
      ensures exists k :: FirstFreeAt(randoms, tileCount, snake, k) && food == Candidate(randoms, k, tileCount)
    {
      this.tileCount := tileCount;
      snake := [StartCell];
      food := StartCell;
      dx, dy := 0, 0;
      score := 0;
      highScore := storedHighScore;
      gameRunning, gameStarted := false, false;
      saved := [];
      new;
      var draws := GenerateFood(randoms);
    }

    /** `generateFood`: draw cells until one is off the snake. Returns the number of attempts. */
    method GenerateFood(randoms: seq<real>) returns (draws: nat)
      requires tileCount > 0
      requires IsRandom(randoms) && HasFreeCandidate(randoms, tileCount, snake, 0)
      modifies this`food
      ensures draws >= 1 && FirstFreeAt(randoms, tileCount, snake, draws - 1)
      ensures food == Candidate(randoms, draws - 1, tileCount)
      ensures food !in snake && InGrid(food, tileCount)
    {
      var k: nat := 0;
      food := Candidate(randoms, k, tileCount);
      while food in snake
        invariant 2 * k + 1 < |randoms|
        invariant food == Candidate(randoms, k, tileCount)
        invariant forall j: nat :: j < k ==> Candidate(randoms, j, tileCount) in snake
        invariant HasFreeCandidate(randoms, tileCount, snake, k)
        decreases |randoms| - 2 * k
      {
        k := k + 1;
        food := Candidate(randoms, k, tileCount);
      }
      draws := k + 1;
    }

    /** `gameOver`: stop, and raise and store the high score when the score beat it. */
    method GameOver()
      requires Valid()
      modifies this`gameRunning, this`highScore, this`saved
      ensures Valid()
      ensures !gameRunning
      ensures highScore == HighScoreAfter(old(highScore), score)
      ensures saved == if Persists(old(highScore), score) then old(saved) + [score] else old(saved)
    {
      gameRunning := false;
      if score > highScore {
        highScore := score;
        saved := saved + [highScore];
      }
    }

    /** `moveSnake`: one tick, as `Step` describes it; a crash ends the game, eating scores
        a point and places new food. */
    method MoveSnake(randoms: seq<real>)
      requires Valid() && IsRandom(randoms)
      requires Step(snake, dx, dy, food, tileCount).Grow? ==>
        HasFreeCandidate(randoms, tileCount, Step(snake, dx, dy, food, tileCount).body, 0)
      modifies this
      ensures Valid()
      ensures var m := Step(old(snake), old(dx), old(dy), old(food), tileCount);
        && snake == (if m.Slide? || m.Grow? then m.body else old(snake))
        && score == (if m.Grow? then old(score) + 1 else old(score))
        && (m.Grow? ==> exists k :: FirstFreeAt(randoms, tileCount, snake, k) && food == Candidate(randoms, k, tileCount))
        && (!m.Grow? ==> food == old(food))
        && gameRunning == (if m.Crash? then false else old(gameRunning))
        && highScore == (if m.Crash? then HighScoreAfter(old(highScore), old(score)) else old(highScore))
        && saved == (if m.Crash? && Persists(old(highScore), old(score)) then old(saved) + [old(score)] else old(saved))
      ensures dx == old(dx) && dy == old(dy) && gameStarted == old(gameStarted)
    {
      ghost var m := Step(snake, dx, dy, food, tileCount);
      StepPreservesWellFormed(snake, dx, dy, food, tileCount);
      FoodStaysFree(snake, dx, dy, food, tileCount);
      if dx == 0 && dy == 0 {
        return;
      }
      var head := Cell(snake[0].x + dx, snake[0].y + dy);
      if head.x < 0 || head.x >= tileCount || head.y < 0 || head.y >= tileCount {
        GameOver();
        return;
      }
      if head in snake {
        GameOver();
        return;
      }
      snake := [head] + snake;
      if head == food {
        score := score + 1;
        var draws := GenerateFood(randoms);
      } else {
        snake := snake[..|snake| - 1];
      }
    }

    /** `resetGame`: back to the starting body, heading and score, with fresh food.
        The running flags are left as they are. */
    method ResetGame(randoms: seq<real>)
      requires Valid()
      requires IsRandom(randoms) && HasFreeCandidate(randoms, tileCount, [StartCell], 0)
      modifies this`snake, this`dx, this`dy, this`score, this`food
      ensures Valid()
      ensures snake == [StartCell] && dx == 0 && dy == 0 && score == 0
      ensures exists k :: FirstFreeAt(randoms, tileCount, snake, k) && food == Candidate(randoms, k, tileCount)
    {
      snake := [StartCell];
      dx, dy := 0, 0;
      score := 0;
      var draws := GenerateFood(randoms);
    }

    /** `startGame`, without the overlay and the timer it also starts. */
    method StartGame()
      requires Valid()
      modifies this`gameRunning, this`gameStarted
      ensures Valid()
      ensures gameRunning && gameStarted
    {
      gameRunning := true;
      gameStarted := true;
    }

    /** The restart button: reset, then start. */
    method Restart(randoms: seq<real>)
      requires Valid()
      requires IsRandom(randoms) && HasFreeCandidate(randoms, tileCount, [StartCell], 0)
      modifies this
      ensures Valid()
      ensures snake == [StartCell] && dx == 0 && dy == 0 && score == 0
      ensures gameRunning && gameStarted
      ensures highScore == old(highScore) && saved == old(saved)
      ensures exists k :: FirstFreeAt(randoms, tileCount, snake, k) && food == Candidate(randoms, k, tileCount)
    {
      ResetGame(randoms);
      StartGame();
    }

    /** The keydown handler: ignored unless the game is running; otherwise the key's
        direction is applied at once, unless it is the reverse of the current heading. */
    method KeyDown(key: string)
      requires Valid()
      modifies this`dx, this`dy
      ensures Valid()
      ensures (dx, dy) == if gameRunning then KeyHeading(key, old((dx, dy))) else old((dx, dy))
    {
      if !gameRunning {
        return;
      }
      match KeyDirection(key) {
        case None =>
        case Some(d) =>
          var h := Turn(d, (dx, dy));
          dx, dy := h.0, h.1;
      }
    }
  }

  /** The touchend handler on the page's one game object; `deltaX` and `deltaY` are the
      distances from the touch start to the touch end. */
  method TouchEnd(game: SnakeGame, deltaX: int, deltaY: int)
    requires game.Valid()
    modifies game`dx, game`dy
    ensures game.Valid()
    ensures (game.dx, game.dy) ==
      if game.gameRunning then SwipeHeading(deltaX, deltaY, old((game.dx, game.dy))) else old((game.dx, game.dy))
  {
    if !game.gameRunning {
      return;
    }
    var h := SwipeHeading(deltaX, deltaY, (game.dx, game.dy));
    game.dx, game.dy := h.0, h.1;
  }

  /** A caller's view of a new game: the first draw off the snake becomes the food. */
  method NewGameScenario() returns (game: SnakeGame)
    ensures fresh(game) && game.Valid() && game.tileCount == 20
    ensures game.snake == [StartCell] && (game.dx, game.dy) == (0, 0) && game.score == 0 && game.food == Cell(0, 0)
  {
    var randoms := [0.0, 0.0, 0.5, 0.5];
    assert Candidate(randoms, 0, 20) == Cell(0, 0);
    assert HasFreeCandidate(randoms, 20, [StartCell], 0);
    game := new SnakeGame(20, 3, randoms);
    assert game.food == Cell(0, 0) by {
      var k :| FirstFreeAt(randoms, 20, game.snake, k) && game.food == Candidate(randoms, k, 20);
      assert k == 0;
    }
  }

  /** A caller's view of the first tick: started, steered right (a later press of the
      opposite key is refused) and advanced once. */
  method FirstMoveScenario()
  {
    var game := NewGameScenario();
    game.StartGame();
    game.KeyDown("ArrowRight");
    assert (game.dx, game.dy) == (1, 0);
    game.KeyDown("a");
    assert (game.dx, game.dy) == (1, 0);
    assert Step(game.snake, game.dx, game.dy, game.food, game.tileCount) == Slide([Cell(11, 10)]);
    game.MoveSnake([]);
    assert game.snake == [Cell(11, 10)] && game.score == 0 && game.gameRunning;
  }
}
