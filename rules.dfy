/** The rules of one tick and of the arrow keys, as functions of the game
    state, together with the invariants they keep. */
module Rules {
  import opened Grid

  /** The snake a new game starts with: one segment in the middle. */
  const InitialSnake: seq<Position> := [Position(12, 12)]

  /** A new game starts moving right. */
  const InitialDirection: Position := Position(1, 0)

  /** The food cell a new game holds before its first placement. */
  const InitialFood: Position := Position(5, 5)

  /** Whether some segment occupies `cell` (the program's `some` scan). */
  function Hits(segments: seq<Position>, cell: Position): (hit: bool)
    ensures hit <==> cell in segments
  {
    if segments == [] then false
    else segments[0] == cell || Hits(segments[1..], cell)
  }

  /** No two segments share a cell. */
  ghost predicate Distinct(snake: seq<Position>) {
    forall i, j :: 0 <= i < j < |snake| ==> snake[i] != snake[j]
  }

  /** Each segment is one unit step from the one before it. */
  ghost predicate Connected(snake: seq<Position>) {
    forall i :: 1 <= i < |snake| ==> IsUnit(Delta(snake[i], snake[i - 1]))
  }

  /** The shape every snake of a game keeps: non-empty, one segment per
      point of score plus the head, on the board, self-avoiding, connected. */
  ghost predicate WellFormed(snake: seq<Position>, score: int) {
    && |snake| == 1 + score
    && (forall p :: p in snake ==> InGrid(p))
    && Distinct(snake)
    && Connected(snake)
  }

  /** What a tick of a running game does to the snake. */
  datatype Move =
    | OffGrid                        // the head would leave the board
    | SelfCollision                  // the head would enter a segment
    | Slide(body: seq<Position>)     // moved, tail dropped
    | Grow(body: seq<Position>)      // moved onto the food, tail kept

  /** One tick of a running game: the bounds check first, then the collision
      check against every current segment (the tail included), then growth
      onto the food or a shift by one cell. */
  function Advance(snake: seq<Position>, direction: Position, food: Position): (m: Move)
    requires snake != []
    ensures m.Slide? || m.Grow? ==>
      && m.body != [] && m.body[0] == Add(snake[0], direction)
      && InGrid(m.body[0]) && m.body[0] !in snake
      && m.body[1..] <= snake
    ensures m.Grow? ==> m.body[0] == food && |m.body| == |snake| + 1
    ensures m.Slide? ==> m.body[0] != food && |m.body| == |snake|
  {
    var head := Add(snake[0], direction);
    if !InGrid(head) then OffGrid
    else if Hits(snake, head) then SelfCollision
    else if head == food then Grow([head] + snake)
    else Slide([head] + snake[..|snake| - 1])
  }

  /** The condition under which a tick's food placement can finish: if the
      tick eats, some interior cell is free of the grown snake. */
  ghost predicate FoodFits(snake: seq<Position>, direction: Position, food: Position)
    requires snake != []
  {
    var m := Advance(snake, direction, food);
    m.Grow? ==> HasFreeInteriorCell(m.body)
  }

  /** The outcome of a tick, characterised by where the new head lands. The
      bounds check wins over the collision check, and the collision check
      sees the tail that a slide would have vacated. */
  lemma AdvanceOutcome(snake: seq<Position>, direction: Position, food: Position)
    requires snake != []
    ensures var head := Add(snake[0], direction);
      && (Advance(snake, direction, food) == OffGrid <==> !InGrid(head))
      && (Advance(snake, direction, food) == SelfCollision <==> InGrid(head) && head in snake)
      && (Advance(snake, direction, food).Grow? <==> InGrid(head) && head !in snake && head == food)
      && (Advance(snake, direction, food).Slide? <==> InGrid(head) && head !in snake && head != food)
  {
  }

  /** Occupancy after a move: a slide covers the old cells minus the tail
      plus the new head, with the length unchanged; a growth covers the old
      cells plus the new head, one longer. */
  lemma {:induction false} MoveOccupancy(snake: seq<Position>, direction: Position, food: Position)
    requires snake != [] && Distinct(snake)
    ensures var head := Add(snake[0], direction);
      match Advance(snake, direction, food)
      case Slide(body) =>
        && |body| == |snake| && body[0] == head
        && forall p :: p in body <==> p == head || (p in snake && p != snake[|snake| - 1])
      case Grow(body) =>
        && |body| == |snake| + 1 && body[0] == head
        && forall p :: p in body <==> p == head || p in snake
      case _ => true
  {
    var head := Add(snake[0], direction);
    var n := |snake|;
    match Advance(snake, direction, food)
    case Slide(body) =>
      assert body == [head] + snake[..n - 1];
      forall p ensures p in body <==> p == head || (p in snake && p != snake[n - 1]) {
        if p in snake && p != snake[n - 1] {
          var i :| 0 <= i < n && snake[i] == p;
          assert i < n - 1 && snake[..n - 1][i] == p;
        }
        if p in snake[..n - 1] {
          var i :| 0 <= i < n - 1 && snake[..n - 1][i] == p;
          assert snake[i] == p;
        }
      }
    case Grow(body) =>
    case _ =>
  }

  /** A tick keeps the snake's shape: a slide keeps the score's length, a
      growth takes the length one further, and both stay on the board,
      self-avoiding and connected. */
  lemma {:induction false} AdvancePreservesShape(snake: seq<Position>, score: nat, direction: Position, food: Position)
    requires WellFormed(snake, score) && IsUnit(direction)
    ensures match Advance(snake, direction, food)
      case Slide(body) => WellFormed(body, score)
      case Grow(body) => WellFormed(body, score + 1)
      case _ => true
  {
    var head := Add(snake[0], direction);
    var n := |snake|;
    match Advance(snake, direction, food)
    case Slide(body) =>
      assert body == [head] + snake[..n - 1];
      NewHeadKeepsShape(snake, snake[..n - 1], head, direction);
    case Grow(body) =>
      assert body == [head] + snake;
      NewHeadKeepsShape(snake, snake, head, direction);
    case _ =>
  }

  /** Prepending a free, on-board head one step ahead of the old head to a
      prefix of a well-shaped snake gives a well-shaped snake. */
  lemma NewHeadKeepsShape(snake: seq<Position>, kept: seq<Position>, head: Position, direction: Position)
    requires snake != [] && kept <= snake
    requires (forall p :: p in snake ==> InGrid(p)) && Distinct(snake) && Connected(snake)
    requires IsUnit(direction) && head == Add(snake[0], direction)
    requires InGrid(head) && head !in snake
    ensures var body := [head] + kept;
      (forall p :: p in body ==> InGrid(p)) && Distinct(body) && Connected(body)
  {
    var body := [head] + kept;
    forall i, j | 0 <= i < j < |body| ensures body[i] != body[j] {
      assert body[j] == snake[j - 1];
      if i > 0 {
        assert body[i] == snake[i - 1];
      }
    }
    forall i | 1 <= i < |body| ensures IsUnit(Delta(body[i], body[i - 1])) {
      if i == 1 {
        assert body[1] == snake[0];
      } else {
        assert body[i] == snake[i - 1] && body[i - 1] == snake[i - 2];
      }
    }
    forall p | p in body ensures InGrid(p) {
      if p != head {
        var k :| 0 <= k < |kept| && kept[k] == p;
        assert snake[k] == p;
      }
    }
  }

  /** A slide never moves the head onto the food, so food that was off the
      snake stays off it. */
  lemma SlideKeepsFoodClear(snake: seq<Position>, direction: Position, food: Position)
    requires snake != [] && food !in snake
    ensures Advance(snake, direction, food).Slide? ==> food !in Advance(snake, direction, food).body
  {
  }

  /** The food placement of any tick can finish while the grown snake is
      still shorter than the interior. */
  lemma FoodFitsWhileRoom(snake: seq<Position>, score: nat, direction: Position, food: Position)
    requires WellFormed(snake, score) && score + 2 < InteriorArea
    ensures FoodFits(snake, direction, food)
  {
    var m := Advance(snake, direction, food);
    if m.Grow? {
      RoomForFood(m.body);
    }
  }

  /** Moving into the cell the tail is about to vacate still ends the game:
      a well-shaped snake of four segments bent into a square, heading into
      its own tail. */
  lemma TailCellCollides()
    ensures var square := [Position(5, 5), Position(5, 6), Position(6, 6), Position(6, 5)];
      && WellFormed(square, 3)
      && Add(square[0], Position(1, 0)) == square[3]
      && Advance(square, Position(1, 0), Position(1, 1)) == SelfCollision
  {
    var square := [Position(5, 5), Position(5, 6), Position(6, 6), Position(6, 5)];
    assert Hits(square, Position(6, 5));
  }

  /** The keys the game listens to; every other key is `Other`. */
  datatype Key = Space | Arrow(arrow: Arrow) | Other

  datatype Arrow = Up | Down | Left | Right

  /** The unit step an arrow key asks for (screen `y` grows downwards). */
  function Heading(arrow: Arrow): (d: Position)
    ensures IsUnit(d)
  {
    match arrow
    case Up => Position(0, -1)
    case Down => Position(0, 1)
    case Left => Position(-1, 0)
    case Right => Position(1, 0)
  }

  /** The direction after an arrow key: Up and Down are taken only while
      moving horizontally (`y == 0`), Left and Right only while moving
      vertically (`x == 0`); otherwise the direction stays. */
  function Turn(current: Position, arrow: Arrow): (next: Position)
    ensures next == current || next == Heading(arrow)
    ensures next != current ==> next.x * current.x == 0 && next.y * current.y == 0
  {
    match arrow
    case Up => if current.y == 0 then Position(0, -1) else current
    case Down => if current.y == 0 then Position(0, 1) else current
    case Left => if current.x == 0 then Position(-1, 0) else current
    case Right => if current.x == 0 then Position(1, 0) else current
  }

  /** From a unit direction, an arrow key is obeyed exactly when it does not
      ask for the reverse; otherwise the direction stays. So the direction
      stays a unit step and never flips in one key press. */
  lemma TurnObeysUnlessReverse(current: Position, arrow: Arrow)
    requires IsUnit(current)
    ensures Turn(current, arrow) == Heading(arrow) <==> Heading(arrow) != Reverse(current)
    ensures Turn(current, arrow) == Heading(arrow) || Turn(current, arrow) == current
    ensures IsUnit(Turn(current, arrow))
    ensures Turn(current, arrow) != Reverse(current)
  {
  }

  /** The check compares with the current direction, not the one the last
      tick used, so two quick presses between ticks reverse the snake: moving
      right, Up then Left turns it left, and the next tick runs into the neck. */
  lemma DoubleTurnReverses()
    ensures Turn(Turn(Position(1, 0), Up), Left) == Reverse(Position(1, 0))
    ensures Advance([Position(5, 5), Position(4, 5)], Turn(Turn(Position(1, 0), Up), Left), Position(9, 9))
            == SelfCollision
  {
    assert Hits([Position(5, 5), Position(4, 5)], Position(4, 5));
  }
}
