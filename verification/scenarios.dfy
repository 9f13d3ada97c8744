/** Concrete walk-throughs on a 200 by 200 pixel board (a 10 by 10 grid). */
module Scenarios {
  import opened Geometry
  import opened Input
  import Snake
  import Collision
  import opened Game

  const BOARD: Board := Board(200, 200)

  /** A one-cell snake in mid-board moves one cell right and keeps its
      length. */
  lemma PlainMove()
    ensures var g := GameState([Cell(100, 100)], Cell(0, 0), Right, 0, false, 0);
            var r := Tick(g, BOARD, 200, 0, 0);
            r.event == Moved && r.state.snake == [Cell(120, 100)]
  {
  }

  /** A three-segment snake whose head is in the right-hand column runs
      into the wall moving right: the game-over event carries the score,
      and the game restarts. */
  lemma WallDeath()
    ensures var g := GameState([Cell(180, 100), Cell(160, 100), Cell(140, 100)],
                               Cell(0, 0), Right, 2, false, 0);
            var r := Tick(g, BOARD, 200, 3, 7);
            && r.event == Died(2)
            && r.state == GameState([Cell(0, 0)], Cell(60, 140), Right, 0, false, 200)
  {
  }

  /** Eating grows the snake in the same tick: two segments become three,
      the new last segment doubles the old tail, and the score goes up. */
  lemma EatGrowsAtOnce()
    ensures var g := GameState([Cell(100, 100), Cell(80, 100)], Cell(120, 100), Right, 1, false, 0);
            var r := Tick(g, BOARD, 250, 1, 2);
            && r.event == Ate
            && r.state.snake == [Cell(120, 100), Cell(100, 100), Cell(100, 100)]
            && r.state.score == 2
            && r.state.food == Cell(20, 40)
  {
  }

  /** Up then left between two ticks turns a snake moving right around;
      with three segments the next tick runs it into its own neck. */
  lemma TwoKeysIntoNeck()
    ensures var g := GameState([Cell(40, 0), Cell(20, 0), Cell(0, 0)], Cell(100, 100), Right, 2, false, 0);
            var turned := g.(direction := ApplyKeys(g.direction, [KEY_UP, KEY_LEFT]));
            turned.direction == Left && Tick(turned, BOARD, 200, 0, 0).event == Died(2)
  {
    TwoKeysReverse(Right, Up);
    var g := GameState([Cell(40, 0), Cell(20, 0), Cell(0, 0)], Cell(100, 100), Right, 2, false, 0);
    var moved := Snake.Move(g.snake, Left);
    assert moved == [Cell(20, 0), Cell(40, 0), Cell(20, 0)];
    assert moved[1..][1] == moved[0];
    assert Collision.Collides(moved, BOARD);
  }
}
