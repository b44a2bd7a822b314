/** Subtract-square: players alternately subtract a positive square from a
    running total; whoever brings it to 0 wins. Models `SubtractSquareState`
    and `SubtractSquareGame` of `games/subtract_square.py` (the class in
    `subtract_square_game.py` has the same rules). */
module SubtractSquare {
  import opened Players
  import Text

  datatype State = State(p1Turn: bool, total: int)

  function Mover(s: State): Player
  {
    PlayerOf(s.p1Turn)
  }

  /** `n * n`, named so that quantifiers over roots have a trigger. */
  function Sq(n: int): int
  {
    n * n
  }

  lemma SqMonotone(a: nat, b: nat)
    requires a <= b
    ensures Sq(a) <= Sq(b)
  {
    assert a * a <= a * b <= b * b;
  }

  lemma SqStrictMonotone(a: nat, b: nat)
    requires a < b
    ensures Sq(a) < Sq(b)
  {
    assert a * a <= a * b < b * b;
  }

  /** The integer square root: the largest `r` with `r * r <= n`. */
  function Isqrt(n: nat): (r: nat)
    ensures Sq(r) <= n < Sq(r + 1)
  {
    if n == 0 then 0
    else
      var r := Isqrt(n - 1);
      if Sq(r + 1) <= n then r + 1 else r
  }

  /** Any `r` with `r * r <= n < (r + 1) * (r + 1)` is the integer square root. */
  lemma IsqrtUnique(n: nat, r: nat)
    requires Sq(r) <= n < Sq(r + 1)
    ensures Isqrt(n) == r
  {
    var q := Isqrt(n);
    if q < r {
      SqMonotone(q + 1, r);
    } else if q > r {
      SqMonotone(r + 1, q);
    }
  }

  /** `is_pos_square(n)`: `n` is positive and a perfect square. */
  predicate IsPosSquare(n: int)
  {
    0 < n && Sq(Isqrt(n)) == n
  }

  /** `is_pos_square` holds exactly of the squares of positive integers. */
  lemma IsPosSquareIff(n: int)
    ensures IsPosSquare(n) <==> 0 < n && exists r: nat :: Sq(r) == n
  {
    if 0 < n && exists r: nat :: Sq(r) == n {
      var r: nat :| Sq(r) == n;
      SqStrictMonotone(r, r + 1);
      IsqrtUnique(n, r);
    }
  }

  /** The doctests of `is_pos_square`. */
  lemma IsPosSquareDoctest()
    ensures !IsPosSquare(5)
    ensures IsPosSquare(9)
  {
    IsqrtUnique(5, 2);
    IsqrtUnique(9, 3);
  }

  /** The moves the loop `for i in range(lo, total + 1)` collects:
      each `i * i` that does not exceed the total. */
  function SquaresFrom(lo: int, total: int): seq<int>
    decreases total - lo + 1
  {
    if lo > total then []
    else (if Sq(lo) <= total then [Sq(lo)] else []) + SquaresFrom(lo + 1, total)
  }

  /** `get_possible_moves`. */
  function Moves(s: State): seq<int>
  {
    SquaresFrom(1, s.total)
  }

  /** `make_move`: subtract the move from the total and pass the turn. */
  function MakeMove(s: State, move: int): (r: State)
    ensures r.p1Turn == !s.p1Turn
    ensures move in Moves(s) ==> 0 <= r.total < s.total
  {
    MovesInRange(s);
    State(!s.p1Turn, s.total - move)
  }

  /** `is_over`. */
  predicate IsOver(s: State)
  {
    s.total == 0
  }

  /** `is_winner(player)`: the game is over and `player` is not the one to move. */
  predicate IsWinner(s: State, p: Player)
  {
    Mover(s) != p && IsOver(s)
  }

  /** `LeavesSquare(total, n)`: subtracting `n * n` leaves a positive square. */
  predicate LeavesSquare(total: int, n: int)
  {
    IsPosSquare(total - Sq(n))
  }

  /** `all(is_pos_square(total - n ** 2) for n in range(lo, total + 1) if n ** 2 < total)`. */
  predicate AllLeaveSquares(total: int, lo: int)
    decreases total - lo + 1
  {
    lo > total || ((Sq(lo) < total ==> LeavesSquare(total, lo)) && AllLeaveSquares(total, lo + 1))
  }

  /** `rough_outcome`. */
  function RoughOutcome(s: State): int
  {
    if IsPosSquare(s.total) then WIN
    else if AllLeaveSquares(s.total, 1) then LOSE
    else DRAW
  }

  /** `str_to_move`: -1 unless the stripped text is all digits, else its value. */
  function StrToMove(text: string): int
  {
    var t := Text.Strip(text);
    if !Text.IsDigits(t) then -1 else Text.DecimalValue(t)
  }

  // ---------------------------------------------------------------------
  // Properties

  lemma {:induction false} SquaresFromShape(lo: nat, total: nat)
    requires 1 <= lo
    ensures var r := Isqrt(total);
      |SquaresFrom(lo, total)| == (if lo <= r then r - lo + 1 else 0)
    ensures forall j | 0 <= j < |SquaresFrom(lo, total)| :: SquaresFrom(lo, total)[j] == Sq(lo + j)
    decreases total - lo + 1
  {
    var r := Isqrt(total);
    if lo > total {
      SqAtLeast(r);
    } else {
      SquaresFromShape(lo + 1, total);
      var rest := SquaresFrom(lo + 1, total);
      if lo <= r {
        SqMonotone(lo, r);
        assert SquaresFrom(lo, total) == [Sq(lo)] + rest;
      } else {
        SqMonotone(r + 1, lo);
        assert SquaresFrom(lo, total) == rest;
      }
    }
  }

  /** The legal moves are 1, 4, 9, ... up to the total, in increasing order. */
  lemma MovesAreSquares(s: State)
    ensures |Moves(s)| == (if s.total >= 0 then Isqrt(s.total) else 0)
    ensures forall j | 0 <= j < |Moves(s)| :: Moves(s)[j] == Sq(j + 1)
  {
    if s.total >= 0 {
      SquaresFromShape(1, s.total);
    }
  }

  /** A move is legal exactly when it is a positive square no larger than the total. */
  lemma MovesMembership(s: State, m: int)
    ensures m in Moves(s) <==> IsPosSquare(m) && m <= s.total
  {
    MovesAreSquares(s);
    if m in Moves(s) {
      var j :| 0 <= j < |Moves(s)| && Moves(s)[j] == m;
      SqMonotone(j + 1, Isqrt(s.total));
      IsPosSquareIff(m);
    }
    if IsPosSquare(m) && m <= s.total {
      var r := Isqrt(m);
      SqMonotone(1, r);
      IsqrtUnique(s.total, Isqrt(s.total));
      if r > Isqrt(s.total) {
        SqMonotone(Isqrt(s.total) + 1, r);
      }
      assert Moves(s)[r - 1] == m;
    }
  }

  lemma MovesInRange(s: State)
    ensures forall m | m in Moves(s) :: 1 <= m <= s.total
  {
    forall m | m in Moves(s) ensures 1 <= m <= s.total {
      MovesMembership(s, m);
    }
  }

  /** There is nothing to play exactly when the game is over (for the
      non-negative totals that play produces). */
  lemma NoMovesIffOver(s: State)
    requires s.total >= 0
    ensures Moves(s) == [] <==> IsOver(s)
  {
    MovesAreSquares(s);
    if s.total > 0 {
      SqMonotone(1, Isqrt(s.total));
      assert Isqrt(s.total) >= 1 by {
        if Isqrt(s.total) == 0 { assert Sq(1) <= s.total; }
      }
    }
  }

  /** At a finished game exactly one of the two players is the winner. */
  lemma ExactlyOneWinner(s: State)
    requires IsOver(s)
    ensures IsWinner(s, P1) != IsWinner(s, P2)
  {
  }

  /** A positive number is at most its square. */
  lemma SqAtLeast(n: nat)
    ensures n <= Sq(n)
  {
    if n > 0 {
      assert n * 1 <= n * n;
    }
  }

  lemma {:induction false} AllLeaveSquaresIff(total: int, lo: int)
    requires lo >= 1
    ensures AllLeaveSquares(total, lo) <==>
      forall n | lo <= n && Sq(n) < total :: LeavesSquare(total, n)
    decreases total - lo + 1
  {
    if lo > total {
      forall n | lo <= n ensures total <= Sq(n) {
        SqAtLeast(n);
      }
    } else {
      AllLeaveSquaresIff(total, lo + 1);
      if AllLeaveSquares(total, lo) {
        forall n | lo <= n && Sq(n) < total ensures LeavesSquare(total, n) {
          if n > lo {
            assert lo + 1 <= n;
          }
        }
      }
    }
  }

  /** `rough_outcome` is WIN when the total is a positive square, LOSE when every
      smaller square leaves a positive square (vacuously so at 0), and DRAW
      otherwise. */
  lemma RoughOutcomeCases(s: State)
    ensures RoughOutcome(s) == WIN <==> IsPosSquare(s.total)
    ensures RoughOutcome(s) == LOSE <==>
      !IsPosSquare(s.total) && forall n | 1 <= n && Sq(n) < s.total :: LeavesSquare(s.total, n)
    ensures RoughOutcome(s) == DRAW <==>
      !IsPosSquare(s.total) && exists n | 1 <= n && Sq(n) < s.total :: !LeavesSquare(s.total, n)
  {
    AllLeaveSquaresIff(s.total, 1);
  }

  /** `str_to_move` rejects anything whose stripped text is not all digits. */
  lemma StrToMoveRejects(text: string)
    ensures StrToMove(text) == -1 <==> !Text.IsDigits(Text.Strip(text))
  {
  }

  /** `str_to_move` reads back a number written in decimal, with any white
      space around it. */
  lemma StrToMoveReadsDecimal(n: nat, pre: string, post: string)
    requires forall i | 0 <= i < |pre| :: Text.IsSpace(pre[i])
    requires forall i | 0 <= i < |post| :: Text.IsSpace(post[i])
    ensures StrToMove(pre + Text.Decimal(n) + post) == n
  {
    var d := Text.Decimal(n);
    Text.StripPadded(d, pre, post);
    Text.DecimalRoundTrip(n);
  }
}
