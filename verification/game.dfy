/** The game state and its state machine: food placement, the restart after
    a fatal collision, one animation-frame tick, and a run of host events
    (key presses and animation frames) in the order the host delivers them. */
module Game {
  import opened Geometry
  import opened Snake
  import opened Collision
  import opened Input

  /** Everything the game keeps between frames. */
  datatype GameState = GameState(
    snake: seq<Cell>,
    food: Cell,
    direction: Direction,
    score: nat,
    gameOver: bool,
    lastRenderTime: int)

  /** What one animation frame did. A `Halted` frame asks the host for no
      further frame. A `Died` frame skips its own request, but the restart
      it triggers asks for a fresh frame. The others ask for the next frame
      themselves. */
  datatype Event = Halted | Throttled | Moved | Ate | Died(finalScore: nat)

  datatype Outcome = Outcome(state: GameState, event: Event)

  /** Where the snake starts, and restarts. */
  const ORIGIN: Cell := Cell(0, 0)

  /** A cell index the random draw can produce along an axis `extent`
      pixels long: below extent / SIZE, or 0 when that quotient is 0. */
  predicate ValidIndex(k: nat, extent: int)
  {
    k == 0 || k * SIZE < extent
  }

  /** New food at the chosen cell indices. */
  function CreateFood(b: Board, kx: nat, ky: nat): (f: Cell)
    requires ValidIndex(kx, b.width) && ValidIndex(ky, b.height)
    ensures Aligned(f)
    ensures f.x >= 0 && f.y >= 0
    ensures b.width > 0 && b.height > 0 ==> InBounds(f, b)
  {
    Cell(kx * SIZE, ky * SIZE)
  }

  /** Every grid-aligned cell of the board is a possible food position. */
  lemma CreateFoodReachesEveryCell(b: Board, c: Cell)
    requires Aligned(c) && InBounds(c, b)
    ensures exists kx: nat, ky: nat ::
              ValidIndex(kx, b.width) && ValidIndex(ky, b.height) && CreateFood(b, kx, ky) == c
  {
    var kx: nat, ky: nat := c.x / SIZE, c.y / SIZE;
    assert CreateFood(b, kx, ky) == c;
  }

  /** The state the page loads with: a one-cell snake at the origin moving
      right, no score, and freshly placed food. */
  function Start(b: Board, kx: nat, ky: nat): (g: GameState)
    requires ValidIndex(kx, b.width) && ValidIndex(ky, b.height)
    ensures g.snake == [ORIGIN] && g.direction == Right
    ensures g.score == 0 && !g.gameOver && g.lastRenderTime == 0
    ensures g.food == CreateFood(b, kx, ky)
  {
    GameState([ORIGIN], CreateFood(b, kx, ky), Right, 0, false, 0)
  }

  /** The state part of the game-over handler and the re-initialisation it
      triggers: snake, direction, score and flag go back to their start
      values and new food is placed; the frame clock is kept. */
  function Restart(g: GameState, food: Cell): (r: GameState)
    ensures r.snake == [ORIGIN] && r.direction == Right
    ensures r.score == 0 && !r.gameOver
    ensures r.food == food
    ensures r.lastRenderTime == g.lastRenderTime
  {
    GameState([ORIGIN], food, Right, 0, false, g.lastRenderTime)
  }

  /** A restart reproduces the start state exactly, whatever the length of
      the game that ended, apart from the frame clock. */
  lemma RestartIsStart(g: GameState, b: Board, kx: nat, ky: nat)
    requires ValidIndex(kx, b.width) && ValidIndex(ky, b.height)
    ensures Restart(g, CreateFood(b, kx, ky)) == Start(b, kx, ky).(lastRenderTime := g.lastRenderTime)
  {
  }

  /** Is this frame processed: the game still running and enough time
      elapsed? A processed frame always lies strictly after the last one. */
  predicate Due(g: GameState, now: int): (r: bool)
    ensures r ==> !g.gameOver && now > g.lastRenderTime
  {
    !g.gameOver && now - g.lastRenderTime >= TICK_INTERVAL
  }

  /** One animation frame at time `now`. `kx` and `ky` are the cell indices
      the random draw picks if food has to be placed during this frame. */
  function Tick(g: GameState, b: Board, now: int, kx: nat, ky: nat): (r: Outcome)
    requires |g.snake| >= 1
    requires ValidIndex(kx, b.width) && ValidIndex(ky, b.height)
    ensures r.state == g <==> !Due(g, now)
    ensures !Due(g, now) ==> r.event == (if g.gameOver then Halted else Throttled)
    ensures Due(g, now) ==> r.state.lastRenderTime == now
    ensures r.event.Died? <==> Due(g, now) && Collides(Move(g.snake, g.direction), b)
    ensures r.event.Died? ==>
              && r.event.finalScore == g.score
              && r.state.snake == [ORIGIN]
              && r.state.direction == Right
              && r.state.score == 0
              && !r.state.gameOver
              && r.state.food == CreateFood(b, kx, ky)
    ensures r.event == Ate <==>
              && Due(g, now)
              && !Collides(Move(g.snake, g.direction), b)
              && Step(g.snake[0], g.direction) == g.food
    ensures Due(g, now) ==> r.event != Halted && r.event != Throttled
    ensures r.event == Moved ==>
              r.state == g.(lastRenderTime := now, snake := Move(g.snake, g.direction))
    ensures r.event == Ate ==>
              && |r.state.snake| == |g.snake| + 1
              && r.state.snake[0] == g.food
              && r.state.snake[..|g.snake|] == Move(g.snake, g.direction)
              && r.state.snake[|g.snake|] == r.state.snake[|g.snake| - 1]
              && r.state.score == g.score + 1
              && r.state.food == CreateFood(b, kx, ky)
              && !r.state.gameOver
    ensures !r.event.Died? ==> r.state.direction == g.direction
  {
    if g.gameOver then Outcome(g, Halted)
    else if now - g.lastRenderTime < TICK_INTERVAL then Outcome(g, Throttled)
    else
      var moved := g.(lastRenderTime := now, snake := Move(g.snake, g.direction));
      if Collides(moved.snake, b) then
        Outcome(Restart(moved.(gameOver := true), CreateFood(b, kx, ky)), Died(moved.score))
      else if CheckFoodCollision(moved.snake, moved.food) then
        Outcome(moved.(snake := Grow(moved.snake),
                       score := moved.score + 1,
                       food := CreateFood(b, kx, ky)), Ate)
      else
        Outcome(moved, Moved)
  }

  /** The invariant the game keeps between frames on a non-empty board:
      a non-empty snake whose score counts the segments grown, every segment
      and the food on the board and on the grid, and the game-over flag
      clear (the handler resets it in the same frame that sets it). */
  predicate Valid(g: GameState, b: Board)
  {
    && b.width > 0 && b.height > 0
    && |g.snake| >= 1
    && g.score == |g.snake| - 1
    && !g.gameOver
    && (forall i :: 0 <= i < |g.snake| ==> Aligned(g.snake[i]) && InBounds(g.snake[i], b))
    && Aligned(g.food) && InBounds(g.food, b)
  }

  lemma StartValid(b: Board, kx: nat, ky: nat)
    requires b.width > 0 && b.height > 0
    requires ValidIndex(kx, b.width) && ValidIndex(ky, b.height)
    ensures Valid(Start(b, kx, ky), b)
  {
  }

  /** Every tick keeps the invariant. */
  lemma TickPreservesValid(g: GameState, b: Board, now: int, kx: nat, ky: nat)
    requires Valid(g, b)
    requires ValidIndex(kx, b.width) && ValidIndex(ky, b.height)
    ensures Valid(Tick(g, b, now, kx, ky).state, b)
  {
  }

  /** In a valid state the game-over branch of the frame handler is never
      taken: a frame is either throttled or processed. */
  lemma ValidNeverHalted(g: GameState, b: Board, now: int, kx: nat, ky: nat)
    requires Valid(g, b)
    requires ValidIndex(kx, b.width) && ValidIndex(ky, b.height)
    ensures Tick(g, b, now, kx, ky).event != Halted
  {
  }

  /** A processed tick is followed by throttled frames for TICK_INTERVAL
      milliseconds: the game advances at most SPEED times a second. */
  lemma ThrottleAfterTick(g: GameState, b: Board, now: int, later: int, kx: nat, ky: nat,
                          kx': nat, ky': nat)
    requires |g.snake| >= 1
    requires ValidIndex(kx, b.width) && ValidIndex(ky, b.height)
    requires ValidIndex(kx', b.width) && ValidIndex(ky', b.height)
    requires Due(g, now) && later < now + TICK_INTERVAL
    ensures |Tick(g, b, now, kx, ky).state.snake| >= 1
    ensures Tick(Tick(g, b, now, kx, ky).state, b, later, kx', ky').event == Throttled
  {
  }

  /** What the host delivers: a key-down event or an animation frame with
      its timestamp and the indices its random draws would produce. */
  datatype HostEvent = KeyDown(key: int) | Frame(time: int, kx: nat, ky: nat)

  predicate ValidEvents(es: seq<HostEvent>, b: Board)
  {
    forall i :: 0 <= i < |es| ==>
      es[i].Frame? ==> ValidIndex(es[i].kx, b.width) && ValidIndex(es[i].ky, b.height)
  }

  /** One host event: a key press turns the snake, a frame ticks. */
  function Handle(g: GameState, b: Board, e: HostEvent): (r: GameState)
    requires Valid(g, b)
    requires e.Frame? ==> ValidIndex(e.kx, b.width) && ValidIndex(e.ky, b.height)
    ensures Valid(r, b)
    ensures e.KeyDown? ==> r == g.(direction := r.direction) && r.direction != Opposite(g.direction)
  {
    match e
    case KeyDown(key) => g.(direction := ChangeDirection(g.direction, key))
    case Frame(time, kx, ky) =>
      TickPreservesValid(g, b, time, kx, ky);
      Tick(g, b, time, kx, ky).state
  }

  /** The game after the host has delivered `es` in order, starting valid;
      it stays valid whatever the events. */
  function Run(g: GameState, b: Board, es: seq<HostEvent>): (r: GameState)
    requires Valid(g, b) && ValidEvents(es, b)
    ensures Valid(r, b)
    decreases |es|
  {
    if |es| == 0 then g else Run(Handle(g, b, es[0]), b, es[1..])
  }
}
