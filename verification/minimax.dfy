/** The value every exhaustive strategy computes, defined once: negamax over
    the game interface, scored from the side of the player to move, and the
    first move that attains it. */
module Minimax {
  import opened Players
  import opened SeqMax
  import opened Games

  /** The score of a finished game for the player to move: 1 if they have
      won, -1 if their opponent has, 0 otherwise. */
  function TerminalValue(p: Position): (v: int)
    requires Valid(p)
    ensures v == WIN <==> IsWinner(p, Mover(p))
    ensures v == LOSE <==> !IsWinner(p, Mover(p)) && IsWinner(p, Opponent(Mover(p)))
    ensures v == DRAW <==> !IsWinner(p, Mover(p)) && !IsWinner(p, Opponent(Mover(p)))
  {
    Outcome(IsWinner(p, Mover(p)), IsWinner(p, Opponent(Mover(p))))
  }

  /** The negamax value of a position: its terminal value once the game is
      over, otherwise the largest negated value among the positions its moves
      lead to. */
  function Negamax(p: Position): (v: int)
    requires Sound(p)
    ensures LOSE <= v <= WIN
    decreases Rank(p), 1
  {
    if IsOver(p) then TerminalValue(p) else Max(ChildValues(p))
  }

  /** The value of each move of `p` to the player to move: the negated value
      of the position it leads to, in move order. */
  function ChildValues(p: Position): (vs: seq<int>)
    requires Sound(p) && !IsOver(p)
    ensures |vs| == |Moves(p)| > 0
    ensures forall i | 0 <= i < |vs| :: LOSE <= vs[i] <= WIN
    decreases Rank(p), 0
  {
    var ms := Moves(p);
    seq(|ms|, i requires 0 <= i < |ms| => -Negamax(Child(p, i)))
  }

  /** The position, in move order, of the first move whose value is the
      negamax value: `scores.index(max(scores))`. */
  function BestIndex(p: Position): (k: nat)
    requires Sound(p) && !IsOver(p)
    ensures k < |Moves(p)|
  {
    FirstMaxIndex(ChildValues(p))
  }

  /** The first-maximum tie-break: the chosen move attains the negamax value,
      no move is worth more, and every earlier move is worth strictly less. */
  lemma BestIndexSpec(p: Position)
    requires Sound(p) && !IsOver(p)
    ensures var k := BestIndex(p);
      && ChildValues(p)[k] == Negamax(p)
      && (forall j | 0 <= j < |Moves(p)| :: ChildValues(p)[j] <= Negamax(p))
      && (forall j | 0 <= j < k :: ChildValues(p)[j] < Negamax(p))
  {
  }

  /** The negamax recurrence: the value of a position that is not over is
      attained by one of its moves and bounds them all. */
  lemma Recurrence(p: Position)
    requires Sound(p) && !IsOver(p)
    ensures exists i | 0 <= i < |Moves(p)| :: -Negamax(Child(p, i)) == Negamax(p)
    ensures forall i | 0 <= i < |Moves(p)| :: -Negamax(Child(p, i)) <= Negamax(p)
  {
    var vs := ChildValues(p);
    var k := BestIndex(p);
    assert vs[k] == -Negamax(Child(p, k));
    forall i | 0 <= i < |Moves(p)| ensures -Negamax(Child(p, i)) <= Negamax(p) {
      assert vs[i] == -Negamax(Child(p, i));
    }
  }

  /** In game terms: the player to move can force a win exactly when some
      move leaves the opponent lost, and is lost exactly when every move
      leaves the opponent a forced win. */
  lemma WinLoss(p: Position)
    requires Sound(p) && !IsOver(p)
    ensures Negamax(p) == WIN <==> exists i | 0 <= i < |Moves(p)| :: Negamax(Child(p, i)) == LOSE
    ensures Negamax(p) == LOSE <==> forall i | 0 <= i < |Moves(p)| :: Negamax(Child(p, i)) == WIN
  {
    Recurrence(p);
  }

  /** A score that bounds every move and is attained by one is the negamax
      value: the recurrence determines it. */
  lemma RecurrenceDetermines(p: Position, v: int)
    requires Sound(p) && !IsOver(p)
    requires exists i | 0 <= i < |Moves(p)| :: -Negamax(Child(p, i)) == v
    requires forall i | 0 <= i < |Moves(p)| :: -Negamax(Child(p, i)) <= v
    ensures Negamax(p) == v
  {
    Recurrence(p);
  }
}
