/** The keyboard handler: arrow keys turn the snake, except that a key
    naming the reverse of the stored direction is ignored. */
module Input {
  import opened Geometry

  datatype Option<T> = None | Some(value: T)

  /** Arrow-key codes of the key-down event. */
  const KEY_LEFT: int := 37
  const KEY_UP: int := 38
  const KEY_RIGHT: int := 39
  const KEY_DOWN: int := 40

  /** The direction an arrow key asks for; other keys ask for none. */
  function KeyDirection(key: int): (r: Option<Direction>)
    ensures r.Some? <==> KEY_LEFT <= key <= KEY_DOWN
  {
    if key == KEY_LEFT then Some(Left)
    else if key == KEY_UP then Some(Up)
    else if key == KEY_RIGHT then Some(Right)
    else if key == KEY_DOWN then Some(Down)
    else None
  }

  /** The arrow key that asks for `d`. */
  function KeyCode(d: Direction): (key: int)
    ensures KeyDirection(key) == Some(d)
  {
    match d
    case Left => KEY_LEFT
    case Up => KEY_UP
    case Right => KEY_RIGHT
    case Down => KEY_DOWN
  }

  /** Every key that names a direction is that direction's own code. */
  lemma KeyCodeRoundTrip(key: int, d: Direction)
    ensures KeyDirection(key) == Some(d) <==> key == KeyCode(d)
  {
  }

  /** One key-down event applied to the stored direction `d`: each arrow
      key sets its direction unless `d` is that direction's reverse. */
  function ChangeDirection(d: Direction, key: int): (r: Direction)
    ensures r != Opposite(d)
    ensures KeyDirection(key).None? ==> r == d
    ensures KeyDirection(key).Some? && KeyDirection(key).value != Opposite(d) ==>
              r == KeyDirection(key).value
    ensures KeyDirection(key).Some? && KeyDirection(key).value == Opposite(d) ==> r == d
  {
    if key == 37 then (if d != Right then Left else d)
    else if key == 38 then (if d != Down then Up else d)
    else if key == 39 then (if d != Left then Right else d)
    else if key == 40 then (if d != Up then Down else d)
    else d
  }

  /** The three directions other than the reverse are always accepted. */
  lemma NonReversingAccepted(d: Direction, e: Direction)
    ensures ChangeDirection(d, KeyCode(e)) == e <==> e != Opposite(d)
  {
  }

  /** Handling the same event twice has the effect of handling it once, so
      a key listener registered more than once changes nothing. */
  lemma ChangeDirectionIdempotent(d: Direction, key: int)
    ensures ChangeDirection(ChangeDirection(d, key), key) == ChangeDirection(d, key)
  {
  }

  /** Applies a run of key-down events in order. */
  function ApplyKeys(d: Direction, keys: seq<int>): (r: Direction)
    decreases |keys|
  {
    if |keys| == 0 then d else ApplyKeys(ChangeDirection(d, keys[0]), keys[1..])
  }

  /** The guard compares with the stored direction, not the direction of
      the last move: two keys between ticks can turn the snake around. */
  lemma TwoKeysReverse(d: Direction, turn: Direction)
    requires Horizontal(turn) != Horizontal(d)
    ensures ApplyKeys(d, [KeyCode(turn), KeyCode(Opposite(d))]) == Opposite(d)
  {
    var k1, k2 := KeyCode(turn), KeyCode(Opposite(d));
    assert ChangeDirection(d, k1) == turn;
    assert ChangeDirection(turn, k2) == Opposite(d);
    assert [k1, k2][1..] == [k2];
    assert ApplyKeys(d, [k1, k2]) == ApplyKeys(turn, [k2]);
    assert [k2][1..] == [];
  }
}
