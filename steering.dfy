/** Direction changes: the keyboard handler's reversal guards and the swipe classifier. */
module Steering {

  datatype Option<T> = None | Some(value: T)

  /** A requested direction; the screen's y axis grows downwards. */
  datatype Dir = Up | Down | Left | Right

  /** A heading is the pair `(dx, dy)` the game adds to the head every tick. */
  type Heading = (int, int)

  function Vector(d: Dir): Heading {
    match d
    case Up => (0, -1)
    case Down => (0, 1)
    case Left => (-1, 0)
    case Right => (1, 0)
  }

  function Reverse(h: Heading): Heading {
    (-h.0, -h.1)
  }

  /** The headings the game ever holds: standing still or one unit along one axis. */
  predicate IsHeading(h: Heading) {
    (h.0 == 0 && -1 <= h.1 <= 1) || (h.1 == 0 && -1 <= h.0 <= 1)
  }

  /** The heading after a request for `d`, with the guard the source puts in front of
      every assignment: a request for the direct opposite of the current heading is ignored. */
  function Turn(d: Dir, h: Heading): (r: Heading)
    ensures r == h || r == Vector(d)
    ensures IsHeading(h) ==> IsHeading(r) && r != (0, 0) && r != Reverse(h)
    ensures IsHeading(h) ==> (r == Vector(d) <==> Vector(d) != Reverse(h))
  {
    var (dx, dy) := h;
    match d
    case Up => if dy != 1 then (0, -1) else h
    case Down => if dy != -1 then (0, 1) else h
    case Left => if dx != 1 then (-1, 0) else h
    case Right => if dx != -1 then (1, 0) else h
  }

  /** The heading is written at once, with no buffer until the next tick; two requests
      between two ticks can therefore turn a moving snake straight back on itself. */
  lemma TwoTurnsCanReverse(h: Heading)
    requires IsHeading(h) && h != (0, 0)
    ensures exists first: Dir, second: Dir :: Turn(second, Turn(first, h)) == Reverse(h)
  {
    if h == (1, 0) {
      assert Turn(Left, Turn(Up, h)) == Reverse(h);
    } else if h == (-1, 0) {
      assert Turn(Right, Turn(Up, h)) == Reverse(h);
    } else if h == (0, 1) {
      assert Turn(Up, Turn(Left, h)) == Reverse(h);
    } else {
      assert Turn(Down, Turn(Left, h)) == Reverse(h);
    }
  }

  /** The keys the keydown handler reacts to: the arrows and WASD in either case. */
  function KeyDirection(key: string): (r: Option<Dir>)
    ensures r == Some(Up) <==> key in {"ArrowUp", "W", "w"}
    ensures r == Some(Down) <==> key in {"ArrowDown", "S", "s"}
    ensures r == Some(Left) <==> key in {"ArrowLeft", "A", "a"}
    ensures r == Some(Right) <==> key in {"ArrowRight", "D", "d"}
  {
    if key == "ArrowUp" || key == "W" || key == "w" then Some(Up)
    else if key == "ArrowDown" || key == "S" || key == "s" then Some(Down)
    else if key == "ArrowLeft" || key == "A" || key == "a" then Some(Left)
    else if key == "ArrowRight" || key == "D" || key == "d" then Some(Right)
    else None
  }

  /** The keydown handler's effect on the heading: unknown keys change nothing. */
  function KeyHeading(key: string, h: Heading): (r: Heading)
    ensures IsHeading(h) ==> IsHeading(r) && (r == h || r != Reverse(h))
    ensures KeyDirection(key).None? ==> r == h
    ensures KeyDirection(key).Some? ==> r == h || r == Vector(KeyDirection(key).value)
    ensures IsHeading(h) && KeyDirection(key).Some? ==>
      (r == Vector(KeyDirection(key).value) <==> Vector(KeyDirection(key).value) != Reverse(h))
  {
    match KeyDirection(key)
    case None => h
    case Some(d) => Turn(d, h)
  }

  /** A swipe must travel more than this along its dominant axis. */
  const MinSwipeDistance := 30

  function Abs(n: int): nat {
    if n < 0 then -n else n
  }

  predicate Horizontal(d: Dir) {
    d == Left || d == Right
  }

  /** How far a swipe travelled in direction `d`. */
  function Along(d: Dir, deltaX: int, deltaY: int): int {
    Vector(d).0 * deltaX + Vector(d).1 * deltaY
  }

  /** The direction a swipe asks for: its dominant axis (a tie counts as vertical),
      provided it travelled more than the minimum distance along that axis. */
  function ClassifySwipe(deltaX: int, deltaY: int): (r: Option<Dir>)
    ensures r.None? <==> Abs(deltaX) <= MinSwipeDistance && Abs(deltaY) <= MinSwipeDistance
    ensures r.Some? ==> (Horizontal(r.value) <==> Abs(deltaX) > Abs(deltaY))
    ensures r.Some? ==> Along(r.value, deltaX, deltaY) > MinSwipeDistance
    ensures r.Some? ==> Along(r.value, deltaX, deltaY) >= Abs(deltaX) && Along(r.value, deltaX, deltaY) >= Abs(deltaY)
  {
    if Abs(deltaX) > Abs(deltaY) then
      if Abs(deltaX) > MinSwipeDistance then Some(if deltaX > 0 then Right else Left) else None
    else
      if Abs(deltaY) > MinSwipeDistance then Some(if deltaY > 0 then Down else Up) else None
  }

  /** The touchend handler's nested tests, as written, on the deltas between touch start
      and touch end: they amount to classifying the swipe and applying the keyboard's guard. */
  function SwipeHeading(deltaX: int, deltaY: int, h: Heading): (r: Heading)
    ensures r == match ClassifySwipe(deltaX, deltaY)
                 case None => h
                 case Some(d) => Turn(d, h)
  {
    var (dx, dy) := h;
    if Abs(deltaX) > Abs(deltaY) then
      if Abs(deltaX) > MinSwipeDistance then
        if deltaX > 0 && dx != -1 then (1, 0)
        else if deltaX < 0 && dx != 1 then (-1, 0)
        else h
      else h
    else
      if Abs(deltaY) > MinSwipeDistance then
        if deltaY > 0 && dy != -1 then (0, 1)
        else if deltaY < 0 && dy != 1 then (0, -1)
        else h
      else h
  }

  /** A swipe, like a key, never turns the snake straight back. */
  lemma SwipeNeverReverses(deltaX: int, deltaY: int, h: Heading)
    requires IsHeading(h)
    ensures IsHeading(SwipeHeading(deltaX, deltaY, h))
    ensures SwipeHeading(deltaX, deltaY, h) == h || SwipeHeading(deltaX, deltaY, h) != Reverse(h)
  {
  }
}
