/** Stone colours and board positions (src/stone.rs).

    The source has two spellings of a stone: `StoneType` wrapped in a `Stone`
    struct in stone.rs, and a two-variant `Stone` enum as used by
    game_master.rs and main.rs. Both are the one two-valued `Color` here.
 */
module Stone {

  /** The colour of a stone. */
  datatype Color = Black | White

  /** An optional value; `None` is an empty board cell. */
  datatype Option<T> = None | Some(value: T)

  /** A board coordinate: column `x`, row `y`. The source stores both as `u32`;
      no arithmetic is ever done on a `Position`, so the width does not matter. */
  datatype Position = Position(x: nat, y: nat)

  /** Side length of the square board. */
  const BoardSize: nat := 8

  /** True when `p` names a cell of the board. */
  predicate InRange(p: Position) {
    p.x < BoardSize && p.y < BoardSize
  }

  /** `Stone::reverse`: the colour flip. It never returns its argument. */
  function Reverse(c: Color): (r: Color)
    ensures r != c
  {
    match c
    case Black => White
    case White => Black
  }

  /** Flipping twice restores the colour. */
  lemma ReverseInvolutive(c: Color)
    ensures Reverse(Reverse(c)) == c
  {
  }

  /** With only two colours, the flip is the one colour that differs. */
  lemma ReverseIsOtherColor(c: Color, other: Color)
    ensures other != c <==> other == Reverse(c)
  {
  }
}
