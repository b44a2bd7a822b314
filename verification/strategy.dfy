/** The move-picking strategies of `strategy.py` other than the iterative
    one: the one-ply rough-outcome picker, recursive minimax and memoized
    minimax. Each takes the game session and hands it back with its
    `current_state` as it was on entry. */
module Strategy {
  import opened Basics
  import opened Players
  import opened SeqMax
  import opened Games
  import opened Minimax

  // ---------------------------------------------------------------------
  // rough_outcome_strategy

  /** The negated rough outcome of each position, in order. */
  function RoughScores(cs: seq<Position>): (gs: seq<int>)
    requires forall i | 0 <= i < |cs| :: Valid(cs[i])
    ensures |gs| == |cs|
  {
    if cs == [] then [] else RoughScores(cs[..|cs| - 1]) + [-RoughOutcome(cs[|cs| - 1])]
  }

  /** Score `i` is the negated rough outcome of position `i`. */
  lemma {:induction false} RoughScoreAt(cs: seq<Position>, i: nat)
    requires forall j | 0 <= j < |cs| :: Valid(cs[j])
    requires i < |cs|
    ensures RoughScores(cs)[i] == -RoughOutcome(cs[i])
  {
    if i < |cs| - 1 {
      RoughScoreAt(cs[..|cs| - 1], i);
    }
  }

  /** The guessed score of every move, in move order: the negated rough
      outcome of the position it leads to. */
  function Guesses(p: Position): (gs: seq<int>)
    requires Valid(p)
    ensures |gs| == |Moves(p)|
  {
    RoughScores(ChildStates(p))
  }

  /** The body of the loop of `rough_outcome_strategy` for move `i`: the
      position the move leads to, and its rough outcome negated. */
  method GuessMove(p: Position, i: nat) returns (guessed: int)
    requires Valid(p) && i < |Moves(p)|
    ensures guessed == Guesses(p)[i]
  {
    var newState := Apply(p, Moves(p)[i]);
    guessed := RoughOutcome(newState) * -1;
    RoughScoreAt(ChildStates(p), i);
  }

  /** The move the scan of the first `i` guesses holds, if any. */
  function Held(p: Position, bestAt: int): Option<Move>
    requires Valid(p) && bestAt < |Moves(p)|
  {
    if bestAt < 0 then None else Some(Moves(p)[bestAt])
  }

  /** The body of the loop of `rough_outcome_strategy` for move `i`: the
      best guess so far and its move are those of a scan one move longer. */
  method RoughStep(p: Position, i: nat, bestOutcome: int, best: Option<Move>, ghost bestAt: int)
    returns (bestOutcome': int, best': Option<Move>, ghost bestAt': int)
    requires Valid(p) && i < |Moves(p)|
    requires bestAt == Scan(Guesses(p), i, -2).0 && bestOutcome == Scan(Guesses(p), i, -2).1
    requires best == Held(p, bestAt)
    ensures bestOutcome' == Scan(Guesses(p), i + 1, -2).1
    ensures best' == Held(p, Scan(Guesses(p), i + 1, -2).0)
    ensures bestAt' == Scan(Guesses(p), i + 1, -2).0
  {
    var guessed := GuessMove(p, i);
    ScanStep(Guesses(p), i, -2, Scan(Guesses(p), i, -2));
    bestOutcome', best', bestAt' := bestOutcome, best, bestAt;
    if guessed > bestOutcome {
      bestOutcome' := guessed;
      best' := Some(Moves(p)[i]);
      bestAt' := i;
    }
  }

  /** Scanning every guess from -2, below every guess, holds no move
      exactly when there is none, and otherwise the first move with the
      best guess. */
  lemma RoughPick(p: Position, r: (int, int), best: Option<Move>)
    requires Valid(p) && r == Scan(Guesses(p), |Moves(p)|, -2) && best == Held(p, r.0)
    ensures best.None? <==> |Moves(p)| == 0
    ensures best.Some? ==> best.value == Moves(p)[FirstMaxIndex(Guesses(p))]
  {
    var gs := Guesses(p);
    if |gs| > 0 {
      forall i | 0 <= i < |gs| ensures -2 < gs[i] {
        RoughScoreAt(ChildStates(p), i);
      }
      ScanFindsFirstMax(gs, |gs|, -2);
      assert gs[..|gs|] == gs;
    }
  }

  /** `rough_outcome_strategy`: no move when the position offers none;
      otherwise the first move, in move order, with the highest guessed
      score. The starting best of -2 is below every guess, so the first move
      is always taken. */
  method RoughOutcomeStrategy(game: Session) returns (best: Option<Move>, after: Session)
    requires Valid(game.current)
    ensures var p := game.current;
      && (best.None? <==> |Moves(p)| == 0)
      && (best.Some? ==> best.value == Moves(p)[FirstMaxIndex(Guesses(p))])
    ensures after == game
  {
    var p := game.current;
    var moves := Moves(p);
    ghost var bestAt := -1;
    best := None;
    var bestOutcome := -2;
    var i := 0;
    while i < |moves|
      invariant 0 <= i <= |moves|
      invariant bestAt == Scan(Guesses(p), i, -2).0 && bestOutcome == Scan(Guesses(p), i, -2).1
      invariant best == Held(p, bestAt)
    {
      bestOutcome, best, bestAt := RoughStep(p, i, bestOutcome, best, bestAt);
      i := i + 1;
    }
    RoughPick(p, Scan(Guesses(p), |moves|, -2), best);
    after := game;
  }

  // ---------------------------------------------------------------------
  // recursive_minimax_strategy

  /** Appending the value of move `i` to the values of the moves before it. */
  lemma ChildValueStep(p: Position, i: nat, scores: seq<int>, score: int)
    requires Sound(p) && !IsOver(p) && i < |Moves(p)|
    requires scores == ChildValues(p)[..i]
    requires score == -Negamax(Child(p, i))
    ensures scores + [score] == ChildValues(p)[..i + 1]
  {
    var vs := ChildValues(p);
    PrefixSnoc(vs, i);
    assert vs[i] == score;
  }

  /** The body of the loop of `recursive_minimax_helper` for move `i` of
      `p`: the helper's score of the position the move leads to, negated. */
  method HelperChild(p: Position, i: nat) returns (value: int, leftAt: Position)
    requires Sound(p) && !IsOver(p) && i < |Moves(p)|
    ensures value == -Negamax(Child(p, i))
    ensures Valid(leftAt) && IsOver(leftAt)
    decreases Rank(p), 0
  {
    var child := Apply(p, Moves(p)[i]);
    assert Sound(Child(p, i));
    var score;
    score, leftAt := RecursiveHelper(child);
    value := -score;
  }

  /** `recursive_minimax_helper`: the negamax value of `p`. It also returns
      where it leaves `game.current_state`, which is always a finished
      position: the last one it scored. */
  method RecursiveHelper(p: Position) returns (v: int, leftAt: Position)
    requires Sound(p)
    ensures v == Negamax(p)
    ensures Valid(leftAt) && IsOver(leftAt)
    decreases Rank(p), 1
  {
    leftAt := p;
    var me := Mover(p);
    if IsOver(p) {
      if IsWinner(p, me) {
        return WIN, leftAt;
      } else if IsWinner(p, Opponent(me)) {
        return LOSE, leftAt;
      }
      return DRAW, leftAt;
    }
    var moves := Moves(p);
    var scores: seq<int> := [];
    var i := 0;
    while i < |moves|
      invariant 0 <= i <= |moves|
      invariant scores == ChildValues(p)[..i]
      invariant i > 0 ==> Valid(leftAt) && IsOver(leftAt)
    {
      var value, at := HelperChild(p, i);
      ChildValueStep(p, i, scores, value);
      scores := scores + [value];
      leftAt := at;
      i := i + 1;
    }
    assert scores == ChildValues(p);
    v := Max(scores);
  }

  /** `recursive_minimax_strategy`: the first move, in move order, whose
      value is the negamax value of the position. The source takes `max` of
      the scores, so the position must offer a move. */
  method RecursiveMinimax(game: Session) returns (m: Move, after: Session)
    requires Sound(game.current) && |Moves(game.current)| > 0
    ensures var p := game.current;
      && !IsOver(p)
      && m == Moves(p)[BestIndex(p)]
    ensures after == game
  {
    var p := game.current;
    if IsOver(p) {
      OverHasNoMoves(p);
      assert false;
    }
    var moves := Moves(p);
    var scores: seq<int> := [];
    var i := 0;
    while i < |moves|
      invariant 0 <= i <= |moves|
      invariant scores == ChildValues(p)[..i]
    {
      var value, _ := HelperChild(p, i);
      ChildValueStep(p, i, scores, value);
      scores := scores + [value];
      i := i + 1;
    }
    assert scores == ChildValues(p);
    m := moves[IndexOf(scores, Max(scores))];
    after := game;
  }

  // ---------------------------------------------------------------------
  // memoization_minimax_strategy

  /** What every entry of the cache keeps: the negated negamax value of the
      position it is keyed by. */
  ghost predicate MemoOk(memo: map<Position, int>)
  {
    forall q | q in memo :: Sound(q) && memo[q] == -Negamax(q)
  }

  /** The body of both memoized loops for move `i` of `p`: the cached score
      of the position the move leads to when the cache has it, otherwise its
      helper score negated; either way the score is then recorded for that
      position. */
  method MemoChild(p: Position, i: nat, memo: map<Position, int>) returns (score: int, memo': map<Position, int>)
    requires Sound(p) && !IsOver(p) && i < |Moves(p)| && MemoOk(memo)
    ensures score == -Negamax(Child(p, i))
    ensures MemoOk(memo') && memo.Keys <= memo'.Keys
    ensures Child(p, i) in memo'
    decreases Rank(p), 0
  {
    var child := Apply(p, Moves(p)[i]);
    SoundChild(p, Moves(p)[i]);
    memo' := memo;
    if child in memo' {
      score := memo'[child];
    } else {
      var cv;
      cv, memo' := MemoHelper(child, memo');
      score := -cv;
    }
    memo' := memo'[child := score];
  }

  /** `memoization_minimax_helper`: the negamax value of `p`, reading a
      position's score from the cache when it is there and recording the
      score of every position it scores. The cache only grows and keeps its
      invariant. */
  method MemoHelper(p: Position, memo: map<Position, int>) returns (v: int, memo': map<Position, int>)
    requires Sound(p) && MemoOk(memo)
    ensures v == Negamax(p)
    ensures MemoOk(memo') && memo.Keys <= memo'.Keys
    decreases Rank(p), 1
  {
    memo' := memo;
    var me := Mover(p);
    if IsOver(p) {
      if IsWinner(p, me) {
        return WIN, memo';
      } else if IsWinner(p, Opponent(me)) {
        return LOSE, memo';
      }
      return DRAW, memo';
    }
    var moves := Moves(p);
    var scores: seq<int> := [];
    var i := 0;
    while i < |moves|
      invariant 0 <= i <= |moves|
      invariant scores == ChildValues(p)[..i]
      invariant MemoOk(memo') && memo.Keys <= memo'.Keys
    {
      var score;
      score, memo' := MemoChild(p, i, memo');
      ChildValueStep(p, i, scores, score);
      scores := scores + [score];
      i := i + 1;
    }
    assert scores == ChildValues(p);
    v := Max(scores);
  }

  /** `memoization_minimax_strategy`: with a cache that starts empty, the
      same move as recursive minimax. */
  method MemoMinimax(game: Session) returns (m: Move, after: Session)
    requires Sound(game.current) && |Moves(game.current)| > 0
    ensures var p := game.current;
      && !IsOver(p)
      && m == Moves(p)[BestIndex(p)]
    ensures after == game
  {
    var p := game.current;
    if IsOver(p) {
      OverHasNoMoves(p);
      assert false;
    }
    var moves := Moves(p);
    var scores: seq<int> := [];
    var memo: map<Position, int> := map[];
    var i := 0;
    while i < |moves|
      invariant 0 <= i <= |moves|
      invariant scores == ChildValues(p)[..i]
      invariant MemoOk(memo)
    {
      var score;
      score, memo := MemoChild(p, i, memo);
      ChildValueStep(p, i, scores, score);
      scores := scores + [score];
      i := i + 1;
    }
    assert scores == ChildValues(p);
    m := moves[IndexOf(scores, Max(scores))];
    after := game;
  }
}
