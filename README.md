# Snake game engine in Dafny

A model of the game engine behind a single-player browser snake game on a
25 × 25 board. The engine holds six pieces of state: the snake as a
head-first sequence of cells, the current direction (a unit step), the food
cell, the score, the game-over flag and the pause flag. Five operations
change that state:

- a timer tick moves the snake;
- a key press turns the snake (arrow keys) or toggles the pause (space);
- the pause button toggles the pause;
- "play again" resets the game;
- food placement draws a random interior cell off the snake.

The model has three modules:

- `Grid` (`grid.dfy`): cells, the board bounds, the interior ring where food
  may appear, and a counting argument. The board has 23 × 23 = 529 interior
  cells, so food placement can always succeed while the snake covers fewer
  cells than that.
- `Rules` (`rules.dfy`): the rules as functions of the state.
  - `Hits` is the collision scan over the segments.
  - `Advance` is what one tick of a running game does to the snake: leave the
    board, hit itself, slide, or grow.
  - `Turn` is what an arrow key does to the direction.
  - Lemmas state what these rules guarantee: the snake stays on the board,
    self-avoiding and connected, with one segment per point of score plus the
    head; food stays off the snake; the direction stays a unit step and never
    reverses in one key press.
- `Game` (`game.dfy`): the engine itself. `SnakeGame` is a class whose six
  fields are the game state. Its methods `Tick`, `HandleKey` (with
  `SetDirection` for the arrow keys), `TogglePause` and `Reset` update those
  fields in place. Each method's postcondition gives the whole new state in
  terms of the old one, through `Advance` and `Turn`.
  Each method keeps the invariant `Valid()`, so the invariant holds across
  any sequence of operations. `GenerateFood` is the food placement.

The game's phase (`Running`, `Paused`, `Over`) is derived from the two flags
by `SnakeGame.Phase`. `Valid()` includes that a finished game is never also
paused.

Two behaviours of the program are worth noting, and a lemma exhibits
each one:

- **The collision check includes the tail.** It runs against the snake
  before the tail is dropped. Moving into the cell the tail is about to
  vacate therefore ends the game (`Rules.TailCellCollides`).
- **Arrow keys are checked against the current direction.** They are not
  checked against the direction the last tick used. Two quick presses
  between ticks (Up then Left while moving right) therefore reverse the
  snake into its own neck (`Rules.DoubleTurnReverses`).

Two more facts about the program shape the model:

- An arrow on the current axis is ignored, including the arrow for the
  current direction, which would change nothing anyway; `Turn` follows this.
- Game over and pause are two independent flags; `SnakeGame.Phase` derives
  Running, Paused or Over from them.

## Model

| member | source | states |
|---|---|---|
| `Rules.Hits` | app/page.tsx:36 | the segment scan reports a hit exactly when the cell is one of the segments |
| `Rules.Advance` | app/page.tsx:27-48 | one tick of a running game: when the snake moves, its new head is the old head plus the direction, on the board and on no current segment, and the rest of the body is a prefix of the old snake; it grows by one exactly onto the food and otherwise keeps its length |
| `Rules.AdvanceOutcome` | app/page.tsx:27-48 | a tick ends the game exactly when the new head is off the board (checked first, whatever the snake covers) or, on the board, on any current segment including the tail; otherwise it grows exactly when the new head is the food cell and slides otherwise |
| `Rules.MoveOccupancy` | app/page.tsx:41-48 | after a slide the snake has the same length, starts at the new head, and covers exactly the new head plus the old cells minus the tail; after growth it is one longer and covers the new head plus all old cells |
| `Rules.AdvancePreservesShape` | app/page.tsx:31-48 | from a well-shaped snake and a unit direction, a slide gives a well-shaped snake of the same score and a growth one of score + 1: every segment on the board, no two segments on one cell, consecutive segments one step apart, and length equal to 1 + score |
| `Rules.SlideKeepsFoodClear` | app/page.tsx:43-48 | food that is off the snake is still off it after a slide |
| `Rules.FoodFitsWhileRoom` | app/page.tsx:43-45 | for a well-shaped snake with score + 2 below the 529 interior cells, an eating tick always leaves a free interior cell for the new food |
| `Rules.TailCellCollides` | app/page.tsx:36-39 | a well-shaped four-segment snake whose next head is its own tail cell hits itself, although a slide would have vacated that cell |
| `Rules.Heading` | app/page.tsx:75-86 | every arrow key asks for one of the four unit steps |
| `Rules.Turn` | app/page.tsx:74-87 | the direction after an arrow key: either unchanged or the arrow's own unit step, and a change is always perpendicular to the current direction |
| `Rules.TurnObeysUnlessReverse` | app/page.tsx:74-87 | from a unit direction, an arrow is obeyed exactly when it does not ask for the reverse, and is otherwise ignored; the direction stays a unit step and never reverses |
| `Rules.DoubleTurnReverses` | app/page.tsx:72-89 | Up then Left while moving right reverses the direction, and the next tick of a two-segment snake hits its own neck |
| `Grid.RoomForFood` | app/page.tsx:56-61 | a snake covering fewer cells than the interior leaves a free interior cell, so rejection sampling has a cell to find |
| `Grid.InteriorSize` | app/page.tsx:58-59 | the cells sampled for food, each coordinate in `[1, GridSize - 2]`, are exactly the interior cells, and there are `(GridSize - 2)²` of them |
| `Game.GenerateFood` | app/page.tsx:54-63 | the placed food is an interior cell and on no segment of the snake it was placed against |
| `Game.SnakeGame.constructor` | app/page.tsx:15-20 | a new game starts running with snake `[(12,12)]`, direction `(1,0)`, score 0, and food placed off the snake, the mount-time placement of app/page.tsx:112-114 folded in; the invariant holds |
| `Game.SnakeGame.Tick` | app/page.tsx:22-52 | a paused or finished game is unchanged; a running game that leaves the board or hits itself is over with snake, food and score unchanged; a slide replaces the snake and keeps food and score; a growth replaces the snake, adds exactly one point and places food off the grown snake, new head included; the invariant holds |
| `Game.SnakeGame.HandleKey` | app/page.tsx:65-90 | space flips the pause flag unless the game is over; arrow keys set the direction to `Turn` of the current direction while running and are ignored while paused or over; snake, food, score and the game-over flag never change; the invariant holds |
| `Game.SnakeGame.SetDirection` | app/page.tsx:74-87 | the new direction is `Turn` of the old one, so it stays a unit step and an arrow asking for the reverse is ignored; the invariant holds |
| `Game.SnakeGame.TogglePause` | app/page.tsx:116-120 | running becomes paused, paused becomes running, a finished game stays finished; nothing else changes |
| `Game.SnakeGame.Reset` | app/page.tsx:102-110 | the snake is `[(12,12)]`, the direction `(1,0)`, the score 0, the game running, and the food freshly placed off the snake; the invariant holds |

## Left out

- Rendering (the board, the cells, the overlays and buttons) and `CELL_SIZE`: presentation only.
- The interval timer, `GAME_SPEED` and the key listener's registration and removal: browser event plumbing. The model's operations are what those events call.
- `Math.random` and `Math.floor`: a floating-point random source. `GenerateFood` instead picks any coordinate pair in `[1, GridSize - 2]` whose cell is off the snake. Every such cell is a possible outcome of the sampling.
- Game.GenerateFood: does not model that the retry loop runs forever when no interior cell is free. It requires that a free interior cell exists. `Game.SnakeGame.Tick` requires this only for a tick that eats (`Rules.FoodFits`). `Rules.FoodFitsWhileRoom` shows that this holds whenever the score is below 527.
- React's update semantics: batched state setters, stale closures over `direction` and `food`, and `setGameOver` called inside the snake updater. Each operation is modelled as one atomic update of the state it reads.
- The mount-time food placement is folded into the constructor. The constructor first sets `INITIAL_FOOD` and then places food once.
- JavaScript numbers are doubles. Every coordinate and score here stays a small integer, where doubles are exact, so the model uses unbounded integers.
