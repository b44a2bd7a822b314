/** The game interface the strategies are written against, with the two
    games of the repository as its cases: a position of either game, its
    legal moves, the position a move leads to, the end of the game and its
    winners. */
module Games {
  import opened Players
  import SubtractSquare
  import Stonehenge

  datatype Position = Square(square: SubtractSquare.State) | Henge(henge: Stonehenge.State)

  datatype Move = SquareMove(amount: int) | HengeMove(cell: char)

  /** The `Game` object the strategies receive; only its `current_state` is used. */
  datatype Session = Session(current: Position)

  /** The positions the rules are defined on: every subtract-square state,
      and Stonehenge states with a board of the game's shape. */
  predicate Valid(p: Position)
  {
    match p
    case Square(_) => true
    case Henge(s) => Stonehenge.Valid(s)
  }

  /** `get_current_player_name()`. */
  function Mover(p: Position): Player
  {
    match p
    case Square(s) => SubtractSquare.Mover(s)
    case Henge(s) => Stonehenge.Mover(s)
  }

  /** `game.is_over(state)`. */
  predicate IsOver(p: Position)
    requires Valid(p)
  {
    match p
    case Square(s) => SubtractSquare.IsOver(s)
    case Henge(s) => Stonehenge.ValidTotal(s); Stonehenge.IsOver(s)
  }

  /** `game.is_winner(player)` with `game.current_state` at `p`. */
  predicate IsWinner(p: Position, pl: Player)
    requires Valid(p)
  {
    match p
    case Square(s) => SubtractSquare.IsWinner(s, pl)
    case Henge(s) => Stonehenge.ValidTotal(s); Stonehenge.IsWinner(s, pl)
  }

  /** `get_possible_moves()`. */
  function Moves(p: Position): (ms: seq<Move>)
    requires Valid(p)
  {
    match p
    case Square(s) =>
      var ns := SubtractSquare.Moves(s);
      seq(|ns|, i requires 0 <= i < |ns| => SquareMove(ns[i]))
    case Henge(s) =>
      Stonehenge.ValidTotal(s);
      var cs := Stonehenge.Moves(s);
      seq(|cs|, i requires 0 <= i < |cs| => HengeMove(cs[i]))
  }

  /** How far a position is from the end of any game through it: the
      subtract-square total, or the Stonehenge letter cells left. */
  function Rank(p: Position): nat
  {
    match p
    case Square(s) => if s.total >= 0 then s.total else 0
    case Henge(s) => Stonehenge.LetterCount(s)
  }

  /** `make_move(move)`, for a move the position offers: the result is again
      a position of the game, and strictly closer to the end. */
  function Apply(p: Position, m: Move): (r: Position)
    requires Valid(p) && m in Moves(p)
    ensures Valid(r)
    ensures Rank(r) < Rank(p)
    ensures Mover(r) == Opponent(Mover(p))
  {
    match p
    case Square(s) =>
      var r := SubtractSquare.MakeMove(s, m.amount);
      assert m.amount in SubtractSquare.Moves(s);
      Square(r)
    case Henge(s) =>
      Stonehenge.ValidTotal(s);
      assert m.cell in Stonehenge.Moves(s);
      Stonehenge.MoveUsesLetter(s, m.cell);
      Henge(Stonehenge.MakeMove(s, m.cell))
  }

  /** The position move `i` of `p` leads to. */
  function Child(p: Position, i: nat): (r: Position)
    requires Valid(p) && i < |Moves(p)|
    ensures Valid(r) && Rank(r) < Rank(p)
  {
    Apply(p, Moves(p)[i])
  }

  /** The position each move of `p` leads to, in move order. */
  function ChildStates(p: Position): (cs: seq<Position>)
    requires Valid(p)
    ensures |cs| == |Moves(p)|
    ensures forall i | 0 <= i < |cs| :: cs[i] == Child(p, i)
  {
    seq(|Moves(p)|, i requires 0 <= i < |Moves(p)| => Child(p, i))
  }

  /** `rough_outcome()`. */
  function RoughOutcome(p: Position): (v: int)
    requires Valid(p)
    ensures LOSE <= v <= WIN
  {
    match p
    case Square(s) => SubtractSquare.RoughOutcome(s)
    case Henge(s) => Stonehenge.RoughOutcome(s)
  }

  /** The positions on which the exhaustive strategies finish: every
      position reachable from `p` is either over or offers a move. From any
      other position the source takes `max` of an empty list, or its
      iterative strategy pushes the same node forever. */
  predicate Sound(p: Position)
    decreases Rank(p)
  {
    && Valid(p)
    && (IsOver(p) || (|Moves(p)| > 0 && forall i {:trigger Sound(Child(p, i))} | 0 <= i < |Moves(p)| :: Sound(Child(p, i))))
  }

  /** A move offered by a sound position that is not over leads to a sound
      position. */
  lemma SoundChild(p: Position, m: Move)
    requires Sound(p) && !IsOver(p) && m in Moves(p)
    ensures Sound(Apply(p, m))
  {
    var i :| 0 <= i < |Moves(p)| && Moves(p)[i] == m;
    assert Sound(Child(p, i));
  }

  /** In both games a finished position offers no moves. */
  lemma OverHasNoMoves(p: Position)
    requires Valid(p) && IsOver(p)
    ensures Moves(p) == []
  {
    match p
    case Square(s) => SubtractSquare.NoMovesIffOver(s);
    case Henge(s) =>
  }

  /** Every subtract-square game from a total of at least 0 is sound: each
      total above 0 offers the move 1, and every move lowers the total. */
  lemma {:induction false} SquareSound(s: SubtractSquare.State)
    requires s.total >= 0
    ensures Sound(Square(s))
    decreases s.total
  {
    var p := Square(s);
    if !SubtractSquare.IsOver(s) {
      SubtractSquare.NoMovesIffOver(s);
      forall i | 0 <= i < |Moves(p)| ensures Sound(Child(p, i)) {
        var r := Child(p, i);
        SquareSound(r.square);
      }
    }
  }

  /** The fresh Stonehenge game of size 1 is sound: it is not over, and each
      of its three moves ends the game. */
  lemma SmallHengeSound()
    ensures Sound(Henge(Stonehenge.Small(true, 'A', 'B', 'C', "@@", "@@", "@@")))
  {
    var s := Stonehenge.Small(true, 'A', 'B', 'C', "@@", "@@", "@@");
    var p := Henge(s);
    Stonehenge.FreshBoardDoctest();
    assert !IsOver(p);
    assert |Moves(p)| == 3;
    forall i | 0 <= i < 3 ensures Sound(Child(p, i)) {
      Stonehenge.SmallFirstMoveWins(Moves(p)[i].cell);
    }
  }
}
