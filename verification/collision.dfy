/** The collision rules checked after every move: a fatal collision with a
    wall or with the snake's own body, and the head landing on the food. */
module Collision {
  import opened Geometry

  /** The head has left the board on some side. */
  predicate HitsWall(c: Cell, b: Board)
  {
    c.x < 0 || c.x >= b.width || c.y < 0 || c.y >= b.height
  }

  /** The head lies on a later segment of the body. */
  predicate HitsSelf(s: seq<Cell>)
    requires |s| >= 1
  {
    s[0] in s[1..]
  }

  /** A fatal collision ends the current game. */
  predicate Collides(s: seq<Cell>, b: Board)
    requires |s| >= 1
  {
    HitsWall(s[0], b) || HitsSelf(s)
  }

  /** Leaving the board is exactly not being in bounds. */
  lemma HitsWallIffOutside(c: Cell, b: Board)
    ensures HitsWall(c, b) <==> !InBounds(c, b)
  {
  }

  /** The wall test, then a scan of the body from index 1 for a segment
      equal to the head. */
  method CheckCollision(s: seq<Cell>, b: Board) returns (hit: bool)
    requires |s| >= 1
    ensures hit <==> !InBounds(s[0], b) || exists i :: 1 <= i < |s| && s[i] == s[0]
    ensures hit == Collides(s, b)
  {
    var head := s[0];
    if head.x < 0 || head.x >= b.width || head.y < 0 || head.y >= b.height {
      return true;
    }
    var i := 1;
    while i < |s|
      invariant 1 <= i <= |s|
      invariant forall j :: 1 <= j < i ==> s[j] != head
    {
      if head.x == s[i].x && head.y == s[i].y {
        assert s[1..][i - 1] == s[i];
        return true;
      }
      i := i + 1;
    }
    assert forall c :: c in s[1..] ==> c != head;
    return false;
  }

  /** The head and the food share both coordinates. */
  function CheckFoodCollision(s: seq<Cell>, food: Cell): (r: bool)
    requires |s| >= 1
    ensures r <==> s[0].x == food.x && s[0].y == food.y
  {
    s[0] == food
  }
}
