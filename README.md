# Snake game: the game-state core, in Dafny

This project models the game logic of a browser Snake game (`script.js`): the
`SnakeGame` object's per-tick move, food placement, difficulty scaling, the
high-score rule at game over, reset and start, and the two input handlers
(keyboard and swipe) that steer the snake. It proves what that logic promises:
the body stays on the board and never crosses itself, food never lands on the
body, eating grows the snake by one and scores one point, a single steering
request never reverses the snake, the tick interval falls in steps of 10 ms per
5 points down to 80 ms, and the high score only ever rises and is stored exactly
when it does.

Modules:

- `Grid` (`grid.dfy`): cells and the body's shape invariant `WellFormed`.
- `Movement` (`movement.dfy`): `Step`, the pure description of `moveSnake`, and
  lemmas about it.
- `Steering` (`steering.dfy`): the reversal guard `Turn`, the key map, the swipe
  classifier and the touchend handler's decision as written.
- `Scoring` (`scoring.dfy`): `getGameSpeed` and the high-score rule.
- `FoodSupply` (`food.dfy`): turning the values `Math.random` returns into
  candidate cells, and where the retry loop stops.
- `Game` (`game.dfy`): the class `SnakeGame`, whose methods update its fields in
  place as the source does, and the free-standing touchend handler `TouchEnd`.

Two behaviours are modelled as the code has them, not as a tidier design would:

- A steering request writes `dx`/`dy` at once (script.js:47-77, script.js:354-374).
  Nothing buffers a request until the next tick. Two requests between two ticks can
  therefore turn the snake straight back (`Steering.TwoTurnsCanReverse`). For a body
  of two or more cells, the next tick then ends the game
  (`Movement.ReversingAfterMoveCrashes`). A one-cell snake reverses without harm.
- The self-collision test runs against the whole body before the tail is dropped.
  Moving into the cell the tail is about to leave is a collision
  (`Movement.EnteringTailCellCrashes`).

`resetGame` (script.js:101-109) leaves `gameRunning` and `gameStarted` as they were;
`Game.SnakeGame.ResetGame` does the same.

Environment as parameters:

- `Math.random` is the parameter `randoms: seq<real>`. It holds the values the
  calls would return, each in `[0, 1)`, two per attempt.
- Methods that place food require that some attempt lands off the snake. Without
  one, the source's loop never ends.
- Stored high score: the constructor takes the value read from storage as
  `storedHighScore`.
- Writes to storage: every write is appended to the ghost log `saved`.
- Touch input: the swipe handler takes the integer deltas between touch start and
  touch end.

## Model

| member | source | states |
|---|---|---|
| `Movement.Step` | script.js:152-183 | no heading iff nothing happens; a wall crash iff the next head is off the board; a meal iff the next head is the food, on the board and off the body; eating keeps the whole old body behind the new head (length +1), otherwise the tail is dropped (length kept); a new head is never a cell of the old body |
| `Movement.SelfHitIff` | script.js:166-170 | the tick is a self-collision iff the next head is on the board and equals any current segment, the tail included |
| `Movement.StepPreservesWellFormed` | script.js:158-182 | a tick that moves keeps every segment on the board and all segments distinct |
| `Movement.FoodStaysFree` | script.js:172-182 | food that was off the body is still off it after a move that did not eat it |
| `Movement.StepMovesOneTile` | script.js:158 | with a unit heading, the new head is exactly one tile from the old head |
| `Movement.EnteringTailCellCrashes` | script.js:166-181 | moving into the tail's cell ends the game, even though dropping the tail first would have left a well-formed body |
| `Movement.ReversingAfterMoveCrashes` | script.js:158-170 | after a move that leaves a body of two or more cells, heading straight back hits the cell the head just left and ends the game (a one-cell snake reverses without harm) |
| `Movement.Scenarios` | script.js:152-183 | from (10,10) heading right the snake becomes [(11,10)]; the three-cell snake eating at (6,5) becomes four cells with the old body behind; stepping to x = -1 or x = tileCount is a wall crash |
| `Scoring.GameSpeed` | script.js:125-130 | the interval always lies between 80 and 150 ms |
| `Scoring.LevelSpeedClosedForm` | script.js:127-129 | lowering 150 ms by 10 ms per level, never below 80 ms, gives max(80, 150 - 10 * level) |
| `Scoring.GameSpeedByLevel` | script.js:125-130 | the interval is the level schedule at level floor(score / 5) |
| `Scoring.GameSpeedNextLevel` | script.js:125-130 | five more points take off exactly 10 ms, down to the floor |
| `Scoring.GameSpeedMonotone` | script.js:125-130 | a higher score never gives a longer interval |
| `Scoring.GameSpeedFloor` | script.js:127-129 | the interval is at the 80 ms floor iff the score is at least 35 |
| `Scoring.HighScoreAfter` | script.js:242-243 | the new high score is the larger of the old high score and the score |
| `Scoring.PersistsIffImproved` | script.js:242-244 | the high score is stored iff game over changes it |
| `Scoring.HighScoreScenarios` | script.js:238-247 | a score of 7 over a high score of 3 becomes the high score and is stored; 2 under 5 changes and stores nothing |
| `Steering.Turn` | script.js:43-79 | a request yields either the old heading or the requested one; from a valid heading, the result is a moving unit heading and never the reverse of the old one; the request is honoured iff it is not the reverse |
| `Steering.TwoTurnsCanReverse` | script.js:43-79 | from any moving heading, two requests in a row can reach its exact reverse |
| `Steering.KeyDirection` | script.js:43-79 | a key asks for Up iff it is ArrowUp, W or w; Down iff ArrowDown, S or s; Left iff ArrowLeft, A or a; Right iff ArrowRight, D or d; every other key asks for nothing |
| `Steering.KeyHeading` | script.js:43-80 | a direction key yields either the old heading or the key's direction, and the key's direction iff it is not the reverse of the current heading, so a refused reversal leaves the heading unchanged and a key press never reverses a valid heading; any other key leaves the heading alone |
| `Steering.ClassifySwipe` | script.js:349-377 | no direction iff both deltas are at most 30; the direction is horizontal iff the horizontal delta is strictly larger (a tie is vertical); the swipe travelled more than 30 in the chosen direction, and at least as far as along either axis |
| `Steering.SwipeHeading` | script.js:346-377 | the handler's nested tests equal classifying the swipe and then applying the keyboard's reversal guard |
| `Steering.SwipeNeverReverses` | script.js:351-377 | a swipe keeps the heading valid and never reverses it |
| `FoodSupply.Scale` | script.js:188-189 | `Math.floor(Math.random() * tileCount)` is a coordinate in `[0, tileCount)` |
| `FoodSupply.Candidate` | script.js:187-190 | each attempt proposes a cell on the board |
| `Game.SnakeGame.constructor` | script.js:2-35 | a new game holds the one-cell snake at (10,10), no heading, score 0, the stored high score, both flags false, and food at the first attempt off the snake |
| `Game.SnakeGame.GenerateFood` | script.js:185-192 | the food is the cell of the first attempt that lands off the snake: every earlier attempt hit the snake, and the food is on the board |
| `Game.SnakeGame.GameOver` | script.js:238-247 | the game stops; the high score becomes the larger of itself and the score; a storage write of the score happens iff the score beat the high score |
| `Game.SnakeGame.MoveSnake` | script.js:152-183 | the new body, score, food, running flag, high score and storage log are those `Step` prescribes: unchanged body on no heading or a crash, a crash ends the game through `GameOver`, eating adds exactly one point and places new food off the grown body; the object invariant (well-formed body, valid heading, food on the board and off the body, consistent storage log) is kept |
| `Game.SnakeGame.ResetGame` | script.js:101-109 | body back to [(10,10)], no heading, score 0, new food off the snake; the running flags and the high score are untouched |
| `Game.SnakeGame.StartGame` | script.js:94-96 | both flags become true |
| `Game.SnakeGame.Restart` | script.js:88-91 | reset followed by start: the initial body, heading and score, running, with the high score and storage untouched |
| `Game.SnakeGame.KeyDown` | script.js:40-81 | while not running, a key changes nothing; while running, the heading becomes the guarded turn for the key |
| `Game.TouchEnd` | script.js:340-378 | while not running, a swipe changes nothing; while running, the heading becomes the swipe's guarded turn |

## Left out

- Canvas drawing (`clearCanvas`, `draw`): presentation only, with floating-point pixel arithmetic and a sine pulse.
- DOM and overlay updates (`showGameOverOverlay`, `hideOverlay`, `updateDisplay`, `showScoreAnimation`, `showNewHighScore`): side effects on the page only.
- `gameLoop` and its `setTimeout` scheduling: timer plumbing. Only the interval `getGameSpeed` computes is modelled, as `Scoring.GameSpeed`. A second start while running, which would start a second timer chain, is therefore not modelled either.
- `localStorage`: reading it is the constructor's `storedHighScore`. Writing it is the ghost log `saved`. The string-to-number coercion of the stored value is not modelled; the high score is a natural number.
- `Math.random` itself: its results are the `randoms` parameter.
- A full board: the source's retry loop would never end. The methods that place food require that some supplied attempt lands off the snake.
- Event-listener registration, `preventDefault`, the `touchmove` scroll block, `DOMContentLoaded` construction, and the `touchstart` handler that records the start point: browser wiring. The swipe handler takes integer deltas instead of floating-point client coordinates.
- `Game.SnakeGame.constructor`: the placeholder `food = {}` is never observable, because `initializeGame` places food before anything reads it. The model uses the start cell as a placeholder until `GenerateFood` runs.
