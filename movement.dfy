/** One tick of the game, `moveSnake`, as a function of the body, the heading and the food. */
module Movement {
  import opened Grid

  /** What stopped the snake. */
  datatype Collision = WallHit | SelfHit

  /** The outcome of one tick. */
  datatype Move =
    | Stay                     // no heading yet: nothing happens
    | Crash(cause: Collision)  // the game ends; the body is left as it was
    | Slide(body: seq<Cell>)   // head added, tail dropped
    | Grow(body: seq<Cell>)    // the head reached the food: head added, tail kept

  /** The cell the head moves into. */
  function NextHead(body: seq<Cell>, dx: int, dy: int): Cell
    requires |body| >= 1
  {
    Cell(body[0].x + dx, body[0].y + dy)
  }

  /** `moveSnake`: the wall test, then the self test against the whole current body
      (tail included), then the food test; the tail is dropped only when nothing was eaten. */
  function Step(body: seq<Cell>, dx: int, dy: int, food: Cell, tileCount: int): (m: Move)
    requires |body| >= 1
    ensures m.Stay? <==> dx == 0 && dy == 0
    ensures m == Crash(WallHit) <==> (dx, dy) != (0, 0) && !InGrid(NextHead(body, dx, dy), tileCount)
    ensures m.Grow? <==> (dx, dy) != (0, 0) && InGrid(food, tileCount) && food !in body && NextHead(body, dx, dy) == food
    ensures m.Grow? ==> |m.body| == |body| + 1 && m.body[1..] == body
    ensures m.Slide? ==> |m.body| == |body| && m.body[1..] == body[..|body| - 1]
    ensures m.Slide? || m.Grow? ==> m.body[0] == NextHead(body, dx, dy) && m.body[0] !in body
  {
    if dx == 0 && dy == 0 then Stay
    else
      var head := NextHead(body, dx, dy);
      if head.x < 0 || head.x >= tileCount || head.y < 0 || head.y >= tileCount then Crash(WallHit)
      else if head in body then Crash(SelfHit)
      else if head == food then Grow([head] + body)
      else Slide([head] + body[..|body| - 1])
  }

  /** Any cell of the current body, the tail included, is fatal to move into. */
  lemma SelfHitIff(body: seq<Cell>, dx: int, dy: int, food: Cell, tileCount: int)
    requires |body| >= 1
    ensures Step(body, dx, dy, food, tileCount) == Crash(SelfHit) <==>
      (dx, dy) != (0, 0) && InGrid(NextHead(body, dx, dy), tileCount) && NextHead(body, dx, dy) in body
  {
  }

  /** A tick keeps the body on the board and free of repeated cells. */
  lemma StepPreservesWellFormed(body: seq<Cell>, dx: int, dy: int, food: Cell, tileCount: int)
    requires WellFormed(body, tileCount)
    ensures var m := Step(body, dx, dy, food, tileCount);
      m.Slide? || m.Grow? ==> WellFormed(m.body, tileCount)
  {
  }

  /** The food stays off the body after a tick that did not eat it. */
  lemma FoodStaysFree(body: seq<Cell>, dx: int, dy: int, food: Cell, tileCount: int)
    requires |body| >= 1 && food !in body
    ensures var m := Step(body, dx, dy, food, tileCount);
      m.Slide? ==> food !in m.body
  {
  }

  /** The head moves exactly one tile along one axis. */
  lemma StepMovesOneTile(body: seq<Cell>, dx: int, dy: int, food: Cell, tileCount: int)
    requires |body| >= 1
    requires (dx == 0 && -1 <= dy <= 1) || (dy == 0 && -1 <= dx <= 1)
    ensures var m := Step(body, dx, dy, food, tileCount);
      m.Slide? || m.Grow? ==> Distance(m.body[0], body[0]) == 1
  {
  }

  /** Taxicab distance between two cells. */
  function Distance(a: Cell, b: Cell): nat {
    (if a.x >= b.x then a.x - b.x else b.x - a.x) + (if a.y >= b.y then a.y - b.y else b.y - a.y)
  }

  /** The tail cell counts as a collision even though it would be vacated on the same
      tick: `moveSnake` tests the whole body before dropping the tail. A rule that dropped
      the tail first would have produced a well-formed body here. */
  lemma EnteringTailCellCrashes(body: seq<Cell>, dx: int, dy: int, food: Cell, tileCount: int)
    requires WellFormed(body, tileCount) && |body| >= 2
    requires NextHead(body, dx, dy) == body[|body| - 1]
    ensures Step(body, dx, dy, food, tileCount) == Crash(SelfHit)
    ensures WellFormed([body[|body| - 1]] + body[..|body| - 1], tileCount)
  {
  }

  /** After a move, heading straight back runs into the cell the head just left:
      with two turns between ticks (see `Steering.TwoTurnsCanReverse`) the game ends. */
  lemma ReversingAfterMoveCrashes(body: seq<Cell>, dx: int, dy: int, food: Cell, food': Cell, tileCount: int)
    requires WellFormed(body, tileCount)
    requires var m := Step(body, dx, dy, food, tileCount); (m.Slide? || m.Grow?) && |m.body| >= 2
    ensures Step(Step(body, dx, dy, food, tileCount).body, -dx, -dy, food', tileCount) == Crash(SelfHit)
  {
  }

  /** The first move of a new game, and a meal: the body moves one tile; eating keeps the tail. */
  lemma Scenarios(food: Cell, tileCount: int)
    requires tileCount > 11 && food != Cell(11, 10)
    ensures Step([Cell(10, 10)], 1, 0, food, tileCount) == Slide([Cell(11, 10)])
    ensures Step([Cell(5, 5), Cell(4, 5), Cell(3, 5)], 1, 0, Cell(6, 5), tileCount)
      == Grow([Cell(6, 5), Cell(5, 5), Cell(4, 5), Cell(3, 5)])
    ensures Step([Cell(0, 3)], -1, 0, food, tileCount) == Crash(WallHit)
    ensures Step([Cell(tileCount - 1, 3)], 1, 0, food, tileCount) == Crash(WallHit)
  {
  }
}
