/**
 * The four headings of the game: the `Direction` enum of snake_game.py, its
 * unit grid vectors, the table that maps the gesture strings onto it and the
 * table of opposites that `change_direction` consults.
 */
module Directions {
  import opened Wrappers

  datatype Direction = Up | Down | Left | Right

  /** Horizontal component of the direction's vector (x grows to the right). */
  function Dx(d: Direction): int
  {
    match d
    case Left => -1
    case Right => 1
    case _ => 0
  }

  /** Vertical component of the direction's vector (y grows downwards). */
  function Dy(d: Direction): int
  {
    match d
    case Up => -1
    case Down => 1
    case _ => 0
  }

  /** The 180-degree reversal of `d`: the vector negated. */
  function Opposite(d: Direction): (r: Direction)
    ensures Dx(r) == -Dx(d) && Dy(r) == -Dy(d)
    ensures r != d
  {
    match d
    case Up => Down
    case Down => Up
    case Left => Right
    case Right => Left
  }

  /** The string by which the gesture interpreter and the game name a direction. */
  function Name(d: Direction): string
  {
    match d
    case Up => "UP"
    case Down => "DOWN"
    case Left => "LEFT"
    case Right => "RIGHT"
  }

  /** The `mapping` lookup of `change_direction`: only the four names are known. */
  function Parse(s: string): (r: Option<Direction>)
    ensures r.Some? ==> Name(r.value) == s
    ensures r.None? ==> forall d: Direction :: Name(d) != s
  {
    if s == "UP" then Some(Up)
    else if s == "DOWN" then Some(Down)
    else if s == "LEFT" then Some(Left)
    else if s == "RIGHT" then Some(Right)
    else None
  }

  /** Every direction is a unit step along exactly one axis, and reversing twice is the identity. */
  lemma DirectionFacts(d: Direction)
    ensures (Dx(d) == 0) != (Dy(d) == 0)
    ensures -1 <= Dx(d) <= 1 && -1 <= Dy(d) <= 1
    ensures Opposite(Opposite(d)) == d
    ensures Parse(Name(d)) == Some(d)
  {
  }
}
