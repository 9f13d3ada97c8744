# Snake game rules, modelled in Dafny

This project models the rules of a browser snake game (`game.js`). The game
is a small deterministic state machine over one record: the snake (a
head-first sequence of pixel cells), the food cell, the stored direction, the
score, the game-over flag and the time of the last processed frame. Here that
record is an immutable `GameState`, and every operation of the game is a pure
function over it:

- `Geometry`: the constants `SIZE = 20` (pixels per cell) and `SPEED = 5`
  (ticks per second), the tick interval `1000 / SPEED = 200` ms, and cells,
  directions, the board and the one-cell `Step`.
- `Snake`: `moveSnake` as `Move` (a new head one step ahead, the tail dropped)
  and the body part of `eatFood` as `Grow` (the tail duplicated at once).
- `Collision`: `checkCollision`, written as a method with the source's scan
  loop and proved equal to the predicate `Collides`, and `checkFoodCollision`.
- `Input`: `changeDirection`, which maps key codes 37 to 40 to left, up,
  right and down and ignores a key that names the reverse of the stored
  direction.
- `Game`: food placement (`createFood`), the restart done by `showGameOver`
  and the `init` it calls, one animation frame (`gameLoop`) as `Tick`, and a
  run of host events (key presses and frames in any interleaving) as `Run`.
- `Scenarios`: concrete walk-throughs on a 200 by 200 board.

The random draw in `createFood` is an input: the caller picks the cell
indices `kx` and `ky`. `Math.floor(Math.random() * maxX)` with
`maxX = width / SIZE` yields exactly the `k >= 0` with `k * SIZE < width`
when the width is positive, and only `0` when it is zero. `ValidIndex` states
this. Timestamps are integers in milliseconds.

Main results:

- `Tick` says when a frame changes nothing: the game is over, or less than
  200 ms have passed. It also says when a frame is fatal, when the snake eats,
  and what each outcome leaves behind.
- `Valid` is the game's invariant. The snake is non-empty and the score is
  always its length minus one. Every segment and the food are grid-aligned
  and on the board. The game-over flag is clear between frames.
  `TickPreservesValid` and `Run` prove that every interleaving of events
  keeps it.
- `RestartIsStart` shows that a restart reproduces the start state exactly.
  Only the frame clock carries over.
- `ChangeDirectionIdempotent` shows that handling the same key event twice
  has the same effect as handling it once.
- `TwoKeysReverse` and `Scenarios.TwoKeysIntoNeck` show a limit of the
  reversal guard. The guard compares a key with the stored direction, not
  with the last move. So two keys pressed between ticks can turn the snake
  around, and a snake of three or more segments then dies on its own neck.

Three behaviours of the code are easy to miss:

- Growth is not deferred. `eatFood` appends a copy of the tail in the same
  frame, so the length goes up by one in the eating tick. `MoveAfterGrow`
  shows that on the next move the duplicated tail acts like a "growth pending"
  flag.
- The restart also places new food, because `showGameOver` calls `init`,
  which calls `createFood`.
- The restart does not reset `lastRenderTime`.

## Model

| member | source | states |
|---|---|---|
| Geometry.Opposite | game.js:156-171 | each direction's reverse is a different direction on the same axis: the pairs the turn guards exclude |
| Geometry.Step | game.js:96-110 | the new head is exactly SIZE pixels away along the direction's axis, the other coordinate unchanged; right and down increase a coordinate, left and up decrease one |
| Geometry.StepInverse | game.js:96-110 | two steps return to the start exactly when the second is the opposite of the first |
| Geometry.StepAligned | game.js:96-110 | a step keeps a grid-aligned cell grid-aligned |
| Snake.Move | game.js:95-113 | length unchanged; new head is the old head stepped in the current direction; new segment i+1 is old segment i |
| Snake.Grow | game.js:179-184 | length up by one, every earlier segment unchanged, the appended segment equals the previous tail |
| Snake.MoveAfterGrow | game.js:179-186 | a move after eating keeps the whole old body behind the new head |
| Snake.MoveAligned | game.js:95-113 | a move keeps every segment grid-aligned |
| Collision.HitsWallIffOutside | game.js:129-136 | the wall test holds exactly when the head is outside [0,width) x [0,height) |
| Collision.CheckCollision | game.js:127-143 | true iff the head is off the board or equals some segment at index 1 or later |
| Collision.CheckFoodCollision | game.js:146-149 | true iff the head's x and y equal the food's x and y |
| Input.KeyDirection | game.js:152-175 | exactly the key codes 37 to 40 name a direction |
| Input.KeyCode | game.js:155-170 | each direction's key code maps back to that direction |
| Input.KeyCodeRoundTrip | game.js:155-170 | a key names a direction exactly when it is that direction's code |
| Input.ChangeDirection | game.js:152-176 | the result is never the opposite of the stored direction; other keys change nothing; a non-reversing arrow sets its direction; a reversing one is ignored |
| Input.NonReversingAccepted | game.js:152-176 | an arrow key is obeyed exactly when its direction is not the reverse of the stored one |
| Input.ChangeDirectionIdempotent | game.js:152-176 | handling the same key event twice equals handling it once |
| Input.TwoKeysReverse | game.js:152-176 | a perpendicular key followed by the reverse key turns the stored direction around |
| Game.CreateFood | game.js:37-49 | food coordinates are non-negative multiples of SIZE, inside the board when it is non-empty |
| Game.CreateFoodReachesEveryCell | game.js:46-49 | every grid-aligned cell of the board is a possible food position |
| Game.Start | game.js:6-11 | the initial state is the snake [(0,0)] moving right, score 0, flag clear, frame clock 0, with freshly placed food |
| Game.StartValid | game.js:6-11 | the initial state satisfies the game invariant on a non-empty board |
| Game.Restart | game.js:189-196 | after game over the snake is [(0,0)] moving right, score 0, flag clear, the new food placed, frame clock kept |
| Game.RestartIsStart | game.js:189-196 | the restarted state equals the initial state, apart from the frame clock, whatever the game that ended |
| Game.Due | game.js:59-64 | a frame is processed only when the game is not over and at least 200 ms have passed; a processed frame lies strictly after the last one |
| Game.Tick | game.js:58-84 | a frame that is over or under 200 ms changes nothing; otherwise the clock advances; fatal iff the moved snake collides, then reports the score, resets and places new food; eats iff not fatal and the new head is on the food, then the moved body gains a copy of its tail, the score goes up by one and new food is placed; a due frame is never throttled or halted, and a plain move changes only the snake (moved) and the clock |
| Game.TickPreservesValid | game.js:69-83 | every frame keeps the invariant: score equals length minus one, all cells aligned and on the board, flag clear |
| Game.ValidNeverHalted | game.js:59-61 | between frames the game-over early return is never taken |
| Game.ThrottleAfterTick | game.js:63-69 | after a processed frame, every frame within the next 200 ms is throttled |
| Game.Handle | game.js:20-21 | a key press changes only the direction, never to its reverse; every event keeps the invariant |
| Game.Run | game.js:58-84 | any interleaving of key presses and frames keeps the invariant |
| Scenarios.PlainMove | game.js:95-113 | a one-cell snake at (100,100) moving right ends at (120,100) |
| Scenarios.WallDeath | game.js:127-136 | a three-segment snake with its head at x = 180 moving right on a 200-wide board dies, reports its score 2 and restarts |
| Scenarios.EatGrowsAtOnce | game.js:79-82 | eating turns two segments into three in the same tick and raises the score from 1 to 2 |
| Scenarios.TwoKeysIntoNeck | game.js:152-176 | up then left between ticks makes a three-segment snake moving right die on its neck |

## Left out

- Rendering (`createSnake`, `drawSnake`, `clearSnake` and the element part of `createFood`): these only update the page and hold no game logic.
- `alert`: the game-over message is modelled as the `Died(finalScore)` event, which carries the score the message shows. The message text itself is not built.
- `requestAnimationFrame` scheduling and `addEventListener` registration: these are host I/O. `Run` takes the events the host delivers as a sequence. From `Event` one can read which frames skip their own request for the next frame: `Halted` and `Died`. After `Died`, the restart requests a fresh frame.
- The call to `addEventListener` on every restart: the browser ignores a repeated registration of the same handler, so the handler still runs once per key; this is not modelled as state.
- `Math.random` and the floating-point `maxX`/`maxY` division: these are replaced by caller-chosen indices under `ValidIndex`.
- High-resolution floating-point timestamps: these are modelled as integer milliseconds.
- An empty snake: the source never produces one, and `moveSnake` would fail on it. Functions that read the head require at least one segment.
- Food landing on the snake: the source does not avoid it, and neither does the model.
