/** The game engine: the six pieces of state a game holds and the operations
    that update them (tick, key press, pause toggle, reset), plus the food
    placement they share. */
module Game {
  import opened Grid
  import opened Rules

  /** The phase a game is in, as the two flags encode it. */
  datatype Status = Running | Paused | Over

  /** Rejection sampling of a food cell: each coordinate is drawn from
      `[1, GridSize - 2]` until the cell is off `currentSnake`. Any free
      interior cell can come out, so the draw is a free choice here. */
  method GenerateFood(currentSnake: seq<Position>) returns (food: Position)
    requires HasFreeInteriorCell(currentSnake)
    ensures Interior(food) && food !in currentSnake
  {
    ghost var free :| Interior(free) && free !in currentSnake;
    assert Position(free.x, free.y) == free;
    var x, y :| 1 <= x <= GridSize - 2 && 1 <= y <= GridSize - 2 && !Hits(currentSnake, Position(x, y));
    food := Position(x, y);
    assert Hits(currentSnake, food) <==> food in currentSnake;
  }

  class SnakeGame {
    var snake: seq<Position>
    var direction: Position
    var food: Position
    var gameOver: bool
    var score: nat
    var isPaused: bool

    /** The invariant every operation keeps: the snake is well shaped with
        one segment per point plus the head, the direction is a unit step,
        the food is an interior cell off the snake, and a finished game is
        never also paused. */
    ghost predicate Valid()
      reads this
    {
      && WellFormed(snake, score)
      && IsUnit(direction)
      && Interior(food) && food !in snake
      && !(gameOver && isPaused)
    }

    function Phase(): Status
      reads this
    {
      if gameOver then Over else if isPaused then Paused else Running
    }

    /** A new game, with the food placed once off the initial snake when the
        game first appears. */
    constructor ()
      ensures Valid() && Phase() == Running
      ensures snake == InitialSnake && direction == InitialDirection && score == 0
    {
      snake := InitialSnake;
      direction := InitialDirection;
      food := InitialFood;
      gameOver := false;
      score := 0;
      isPaused := false;
      new;
      assert Interior(Position(1, 1)) && Position(1, 1) !in InitialSnake;
      food := GenerateFood(InitialSnake);
    }

    /** One timer tick. Nothing changes unless the game is running. Leaving
        the board or entering a segment ends the game with the snake as it
        was; otherwise the snake slides one cell, or grows onto the food, which
        scores a point and places new food off the grown snake. */
    method Tick()
      requires Valid()
      requires Phase() == Running ==> FoodFits(snake, direction, food)
      modifies this
      ensures Valid()
      ensures old(Phase()) != Running ==> unchanged(this)
      ensures old(Phase()) == Running ==>
        && direction == old(direction) && !isPaused
        && match Advance(old(snake), old(direction), old(food))
           case OffGrid =>
             gameOver && snake == old(snake) && food == old(food) && score == old(score)
           case SelfCollision =>
             gameOver && snake == old(snake) && food == old(food) && score == old(score)
           case Slide(body) =>
             !gameOver && snake == body && food == old(food) && score == old(score)
           case Grow(body) =>
             !gameOver && snake == body && score == old(score) + 1 && Interior(food) && food !in body
    {
      if gameOver || isPaused {
        return;
      }
      AdvancePreservesShape(snake, score, direction, food);
      SlideKeepsFoodClear(snake, direction, food);
      var newSnake := snake;
      var head := Position(newSnake[0].x + direction.x, newSnake[0].y + direction.y);
      if head.x < 0 || head.x >= GridSize || head.y < 0 || head.y >= GridSize {
        gameOver := true;
        return;
      }
      if Hits(newSnake, head) {
        gameOver := true;
        return;
      }
      newSnake := [head] + newSnake;
      if head == food {
        score := score + 1;
        food := GenerateFood(newSnake);
      } else {
        newSnake := newSnake[..|newSnake| - 1];
      }
      snake := newSnake;
    }

    /** A key press. Space flips the pause flag unless the game is over.
        While paused or over every other key is ignored; while running an
        arrow key turns the snake as `Turn` allows and other keys do nothing. */
    method HandleKey(key: Key)
      requires Valid()
      modifies this
      ensures Valid()
      ensures snake == old(snake) && food == old(food) && score == old(score) && gameOver == old(gameOver)
      ensures key == Space ==>
        && direction == old(direction)
        && isPaused == (if old(gameOver) then old(isPaused) else !old(isPaused))
      ensures key.Arrow? ==>
        && isPaused == old(isPaused)
        && direction == (if old(Phase()) == Running then Turn(old(direction), key.arrow) else old(direction))
      ensures key == Other ==> unchanged(this)
    {
      if key == Space && !gameOver {
        isPaused := !isPaused;
        return;
      }
      if isPaused || gameOver {
        return;
      }
      if key.Arrow? {
        SetDirection(key.arrow);
      }
    }

    /** The arrow-key part of a key press in a running game: Up and Down are
        taken only while moving horizontally, Left and Right only while
        moving vertically, as `Turn` states. */
    method SetDirection(arrow: Arrow)
      requires Valid()
      modifies this`direction
      ensures Valid()
      ensures direction == Turn(old(direction), arrow)
    {
      match arrow {
        case Up =>
          if direction.y == 0 { direction := Position(0, -1); }
        case Down =>
          if direction.y == 0 { direction := Position(0, 1); }
        case Left =>
          if direction.x == 0 { direction := Position(-1, 0); }
        case Right =>
          if direction.x == 0 { direction := Position(1, 0); }
      }
      TurnObeysUnlessReverse(old(direction), arrow);
    }

    /** The pause button: running and paused swap, a finished game stays
        finished, and nothing else changes. */
    method TogglePause()
      requires Valid()
      modifies this
      ensures Valid()
      ensures old(Phase()) == Running ==> Phase() == Paused
      ensures old(Phase()) == Paused ==> Phase() == Running
      ensures old(Phase()) == Over ==> Phase() == Over
      ensures isPaused == (if old(gameOver) then old(isPaused) else !old(isPaused))
      ensures snake == old(snake) && direction == old(direction) && food == old(food)
      ensures score == old(score) && gameOver == old(gameOver)
    {
      if !gameOver {
        isPaused := !isPaused;
      }
    }

    /** Play again: the initial snake and direction, no score, running, and
        fresh food placed off the initial snake. */
    method Reset()
      modifies this
      ensures Valid() && Phase() == Running
      ensures snake == InitialSnake && direction == InitialDirection && score == 0
    {
      var newSnake := InitialSnake;
      snake := newSnake;
      direction := InitialDirection;
      assert Interior(Position(1, 1)) && Position(1, 1) !in newSnake;
      food := GenerateFood(newSnake);
      gameOver := false;
      score := 0;
      isPaused := false;
    }
  }
}
