# Minimax text games: the move-selection core in Dafny

This project models the move-picking engine of MinimaxTextGames: the four
strategies of `strategy.py` and the data they run on. The strategies are:

- the one-ply rough-outcome picker;
- recursive minimax;
- iterative minimax on an explicit stack of `Node`s;
- memoized minimax.

They run over the two games of the repository:

- **Subtract Square**: players take turns subtracting a positive square from a total, and the player who reaches 0 wins.
- **Stonehenge**: players claim lettered cells of a triangular board. A player who holds half of a ley line captures it, and the first player to capture half of all ley lines wins.

Modules, in dependency order:

| module | file | models |
|---|---|---|
| `Basics` | basics.dfy | `Option`, `Result`, and `Operand` (the right-hand side of `__eq__`, which may be of another type) |
| `Players` | players.dfy | the players `p1`/`p2` and the outcome constants WIN = 1, DRAW = 0, LOSE = -1 |
| `Text` | text.dfy | `str.strip` over the full `str.isspace` set, and the ASCII behaviour of `isdigit`, `isalpha`, `upper` and `int(...)` |
| `SeqMax` | seq_max.dfy | `max(scores)`, `scores.index(...)` and the best-so-far scan of the rough-outcome loop |
| `Stacks` | stack.dfy | `Stack` of `stack.py` |
| `Nodes` | node.dfy | `Node` of `node.py` |
| `SubtractSquare` | subtract_square.dfy | `games/subtract_square.py` and `subtract_square_game.py`, which state the same rules |
| `StonehengeBoard` | stonehenge_board.dfy | Stonehenge board construction and `get_leys` |
| `Stonehenge` | stonehenge.dfy | the Stonehenge rules: moves, `make_move`, `is_over`, `is_winner`, `rough_outcome`, `str_to_move` |
| `Games` | games.dfy | the game interface the strategies use, with the two games as its cases |
| `Minimax` | minimax.dfy | the reference: negamax and the first-best-move tie-break |
| `Strategy` | strategy.dfy | `rough_outcome_strategy`, `recursive_minimax_*`, `memoization_minimax_*` |
| `Iterative` | iterative.dfy | `iterative_minimax_strategy` |

Every exhaustive strategy is proved to pick `Moves(p)[BestIndex(p)]`. That is the first move, in move order, whose negated child value equals the negamax value of the position. So all three exhaustive strategies pick the same move.

Each strategy takes the game session and hands it back unchanged, just as the source restores `game.current_state`. The strategies need a *sound* position (`Games.Sound`), which means every non-finished position reachable from it offers a move. Outside that condition the source fails:

- `max` of an empty list raises;
- the iterative loop pushes the same node forever.

Soundness is proved for every subtract-square total of at least 0, and for the fresh Stonehenge game of size 1.

A Stonehenge board built by the game labels each cell with a letter of its own. `Stonehenge.Valid` states only the board's shape; the unique labels are a second invariant, `UniqueLabels`, which a new game has and every move keeps. Under it each move uses up exactly one letter cell.

Points where the model follows the code:

- Stonehenge's `make_move` accepts any string and raises no error; a string that labels no cell, such as `'AB'` or `''`, only flips the turn. The model's `MakeMove` accepts any one-character move on a valid board and likewise raises no error.
- The memoized strategy stores the *negated* child value (the `score` its parent uses), keyed by the child. `MemoOk` states exactly that.

## Model

| member | source | states |
|---|---|---|
| Players.Outcome | strategy.py:89-95 | a finished game scores WIN exactly when the player has won, LOSE exactly when only the opponent has, DRAW otherwise |
| Nodes.NewNode | node.py:24-35 | a new node keeps the given state and move, has no children and no score |
| Nodes.Equals | node.py:51-67 | nodes are equal exactly when the other object is a node and state, children, move and score all agree |
| Nodes.EqualsDoctest | node.py:54-61 | a node equals itself, nodes built from different moves differ, a node never equals a non-node |
| Stacks.New | stack.py:12-17 | a new stack is empty |
| Stacks.Add | stack.py:44-50 | after `add` the stack is non-empty and one element taller |
| Stacks.Remove | stack.py:52-64 | `remove` needs a non-empty stack and leaves it one element shorter |
| Stacks.RemoveAfterAdd | stack.py:44-64 | removing right after adding returns the added element and the previous stack |
| Stacks.AddAfterRemove | stack.py:44-64 | adding back the removed element restores the stack |
| Stacks.LastInFirstOut | stack.py:58-62 | add 5, add 7: removal yields 7, then 5, then the stack is empty |
| Stacks.EqualsIffSameItems | stack.py:29-42 | stacks are equal exactly when their contents are; a stack never equals a non-stack |
| SeqMax.Max | strategy.py:106 | `max(scores)` is one of the scores and bounds them all |
| SeqMax.IndexOf | strategy.py:76 | `scores.index(x)` is the first position holding `x` |
| SeqMax.FirstMaxIndex | strategy.py:76 | the first position of the maximum: it holds the maximum and every earlier score is strictly smaller |
| SeqMax.MaxSnoc | strategy.py:97-106 | appending a score raises the maximum only if the new score is larger, and then the first maximum moves to it |
| SeqMax.ScanFindsFirstMax | strategy.py:38-51 | the best-so-far loop, started below every score, ends holding the first maximum and its value |
| SubtractSquare.IsPosSquareIff | games/subtract_square.py:122-131 | `is_pos_square(n)` holds exactly when n > 0 and n is a perfect square |
| SubtractSquare.IsPosSquareDoctest | games/subtract_square.py:126-129 | 5 is not a positive square, 9 is |
| SubtractSquare.MovesAreSquares | games/subtract_square.py:77-86 | the moves are 1, 4, 9, … up to the total, in increasing order, one per root |
| SubtractSquare.MovesMembership | games/subtract_square.py:81-84 | a number is a move exactly when it is a positive square no larger than the total |
| SubtractSquare.NoMovesIffOver | games/subtract_square.py:77-86 | from a total of at least 0, there is no move exactly when the game is over (total 0) |
| SubtractSquare.MakeMove | games/subtract_square.py:88-97 | the turn flips; a legal move keeps the total at least 0 and strictly lowers it |
| SubtractSquare.ExactlyOneWinner | games/subtract_square.py:38-45 | when the game is over, exactly one of p1 and p2 has won: the player not to move (the duplicate class in subtract_square_game.py:37-44 has the same rule) |
| SubtractSquare.AllLeaveSquaresIff | games/subtract_square.py:114-116 | the `all(...)` test holds exactly when every n ≥ 1 with n² below the total leaves a positive square |
| SubtractSquare.RoughOutcomeCases | games/subtract_square.py:107-119 | WIN exactly on a positive square; LOSE exactly when every smaller square leaves a positive square (total 0 included); DRAW exactly otherwise |
| SubtractSquare.StrToMoveRejects | games/subtract_square.py:47-55 | the result is -1 exactly when the stripped text is not all digits |
| SubtractSquare.StrToMoveReadsDecimal | subtract_square_game.py:46-54 | a decimal numeral padded with whitespace reads back as its value |
| StonehengeBoard.Letter | games/stonehenge.py:10-13 | a board label is an upper-case letter |
| StonehengeBoard.BuildRowsSucceeds | games/stonehenge.py:44-54 | board building succeeds exactly when the rows need no more than the 26 letters |
| StonehengeBoard.BuildRowsShape | games/stonehenge.py:46-54 | rows have lengths r+2, r+3, …, n+1 and then a last row of length n |
| StonehengeBoard.BuildRowsLetters | games/stonehenge.py:46-54 | the cells, row by row, are consecutive letters from the running count |
| StonehengeBoard.NewBoardSpec | games/stonehenge.py:43-54 | sizes 1 to 5 give n+1 rows labelled A, B, C, … in row-major order; size 0 or less gives no rows; size 6 or more runs out of letters |
| StonehengeBoard.NewMarkersSpec | games/stonehenge.py:56-61 | each of the three marker lists has n+1 entries, all `@` |
| StonehengeBoard.FamilyLeys | games/stonehenge.py:409-413 | each family has as many leys as the board has rows |
| StonehengeBoard.LeyIndexInRange | games/stonehenge.py:416-424 | every cell's ley index in every family is a valid ley |
| StonehengeBoard.LeysPartitionBoard | games/stonehenge.py:397-426 | each family's leys hold every board cell exactly once (as multisets) |
| StonehengeBoard.LeysNonEmpty | games/stonehenge.py:406-426 | every ley holds at least one cell, so `len(ley)` is never 0 |
| StonehengeBoard.GetLeysDoctest | games/stonehenge.py:401-404 | `[[A,B],[C]]` has h `[[A,B],[C]]`, du `[[A],[B,C]]`, dd `[[A,C],[B]]` |
| Stonehenge.Token | games/stonehenge.py:254 | p1 claims with `1`, p2 with `2`; a token is neither a letter nor `@` |
| Stonehenge.ValidTotal | games/stonehenge.py:386-393 | on a board of the game's shape there are 3 × rows markers, so the ratio's divisor is not 0 |
| Stonehenge.WinnerIffOver | games/stonehenge.py:357-394 | the game is over exactly when some player is a winner |
| Stonehenge.Moves | games/stonehenge.py:206-228 | every move is a letter cell of the board |
| Stonehenge.MovesMembership | games/stonehenge.py:217-228 | a character is a move exactly when the game is not over and it is a letter cell of the board |
| Stonehenge.MakeMove | games/stonehenge.py:230-277 | the result is again a board of the game's shape, with the turn flipped |
| Stonehenge.ClaimBoard | games/stonehenge.py:256-260 | claiming a cell keeps every row's length |
| Stonehenge.FlattenClaimBoard | games/stonehenge.py:256-260 | claiming on the board is claiming on its cells in row-major order |
| Stonehenge.LettersAfterClaim | games/stonehenge.py:256-260 | after a claim the letter cells are the old ones minus the move, with fewer letter cells when the move was a letter |
| Stonehenge.MoveUsesLetter | games/stonehenge.py:256-260 | a legal move removes its letter, keeps every other letter, and lowers the letter count |
| Stonehenge.MakeMoveKeepsLabels | games/stonehenge.py:256-260 | a move keeps every letter on at most one cell: the token it writes is not a letter |
| Stonehenge.MoveUsesOneLetter | games/stonehenge.py:254-260 | on a board whose letters label one cell each, a legal move leaves exactly one letter cell fewer |
| Stonehenge.CaptureLeys | games/stonehenge.py:266-271 | capturing keeps one marker per ley |
| Stonehenge.CaptureRule | games/stonehenge.py:265-271 | a claimed marker never changes; a marker changes only from `@` to the mover's token, and does so exactly when that token holds at least half the ley |
| Stonehenge.MarkerCounts | games/stonehenge.py:265-271 | a move never lowers the mover's marker count, never changes the opponent's, and keeps the marker total |
| Stonehenge.OnlyMoverWins | games/stonehenge.py:265-271 | a move that ends the game makes the mover the winner and not the opponent |
| Stonehenge.Scan | games/stonehenge.py:319-332 | the move loop yields WIN, LOSE or DRAW, and never WIN without a move |
| Stonehenge.ScanCases | games/stonehenge.py:319-332 | the loop returns WIN exactly when some move wins at once; otherwise LOSE exactly when every move has a winning reply |
| Stonehenge.RoughOutcome | games/stonehenge.py:294-344 | the estimate lies between LOSE and WIN |
| Stonehenge.RoughOutcomeCases | games/stonehenge.py:306-332 | a finished game scores its result; otherwise WIN exactly when a move wins at once, LOSE exactly when none does and every move has a winning reply, DRAW otherwise |
| Stonehenge.StrToMoveCases | games/stonehenge.py:122-129 | a single letter reads as its upper case; anything else reads as `-1` |
| Stonehenge.StrToMoveRoundTrip | games/stonehenge.py:122-129 | a typed board label reads back as itself, and reading a move twice changes nothing |
| Stonehenge.StrToMoveLegal | games/stonehenge.py:122-129 | the parsed text is a one-letter move the position offers exactly when the text is one letter whose upper case it offers, and then it is that letter; `-1` is never a move |
| Stonehenge.LettersAllLetters | games/stonehenge.py:222-226 | cells that are all letters are all kept as moves, in order |
| Stonehenge.NewGameSpec | games/stonehenge.py:34-67 | a new game of size 1 to 5 is valid, not over, has no winner, has the chosen player to move and offers A, B, C, … as moves |
| Stonehenge.NewGameLabels | games/stonehenge.py:44-54 | a new game of size 1 to 5 labels each cell with a letter of its own |
| Stonehenge.SmallLeys | games/stonehenge.py:401-404 | the leys of any size-1 board `[[a,b],[c]]` |
| Stonehenge.MakeMoveDoctest | games/stonehenge.py:234-244 | p1 claiming A on the size-1 board captures the first ley of every family |
| Stonehenge.FreshBoardDoctest | games/stonehenge.py:210-215 | the fresh size-1 board is not over, has no winner and offers A, B, C |
| Stonehenge.FreshRoughOutcomeDoctest | games/stonehenge.py:299-304 | the fresh size-1 board has rough outcome WIN |
| Stonehenge.SmallOtherMoves | games/stonehenge.py:252-277 | p1 claiming B on the fresh size-1 board captures h0, du1 and dd1; claiming C captures h1, du1 and dd0 |
| Stonehenge.SmallFirstMoveWins | games/stonehenge.py:357-394 | every first move of p1 on the fresh size-1 board ends the game with p1 the winner |
| Games.Apply | strategy.py:101-103 | a legal move leads to a position of the game, strictly closer to the end, with the other player to move |
| Games.Child | strategy.py:101-102 | the position of move i is a position of the game, strictly closer to the end |
| Games.RoughOutcome | strategy.py:48 | a rough outcome lies between LOSE and WIN |
| Games.SoundChild | strategy.py:101-103 | the moves of a sound unfinished position lead to sound positions |
| Games.OverHasNoMoves | games/stonehenge.py:217-220 | a finished position offers no moves, in both games |
| Games.SquareSound | games/subtract_square.py:77-97 | every subtract-square total of at least 0 is sound |
| Games.SmallHengeSound | games/stonehenge.py:206-277 | the fresh Stonehenge game of size 1 is sound, so the strategy theorems apply to Stonehenge |
| Minimax.TerminalValue | strategy.py:89-95 | a finished position scores WIN exactly when the mover has won, LOSE exactly when only the opponent has, DRAW exactly when neither has |
| Minimax.Negamax | strategy.py:79-106 | every value lies between LOSE and WIN |
| Minimax.ChildValues | strategy.py:97-103 | one value per move, each between LOSE and WIN |
| Minimax.BestIndexSpec | strategy.py:76 | the chosen move attains the negamax value, no move is worth more, and every earlier move is worth strictly less |
| Minimax.Recurrence | strategy.py:97-106 | an unfinished position's value is attained by one move and bounds all of them |
| Minimax.RecurrenceDetermines | strategy.py:97-106 | any score that bounds every move and is attained by one is the negamax value |
| Minimax.WinLoss | strategy.py:97-106 | a forced win exactly when some move leaves the opponent lost; a forced loss exactly when every move leaves the opponent a forced win |
| Strategy.RoughScoreAt | strategy.py:44-48 | guess i is the negated rough outcome of the position move i leads to |
| Strategy.GuessMove | strategy.py:44-48 | the loop body computes guess i |
| Strategy.RoughStep | strategy.py:49-51 | one pass of the loop advances the best-so-far scan by one move |
| Strategy.RoughPick | strategy.py:38-54 | the loop's result is no move exactly when there are no moves, and otherwise the first move with the best guess |
| Strategy.RoughOutcomeStrategy | strategy.py:18-54 | no move exactly when there are none; otherwise the first move maximising the negated rough outcome; the session comes back unchanged |
| Strategy.HelperChild | strategy.py:101-103 | the loop body scores move i as the negated negamax value of its position |
| Strategy.RecursiveHelper | strategy.py:79-106 | the helper returns the negamax value and leaves the session at a finished position |
| Strategy.RecursiveMinimax | strategy.py:57-76 | with at least one move, returns the first best move; the session comes back unchanged |
| Strategy.MemoChild | strategy.py:231-244 | the loop body scores move i as the negated negamax value, cached or not, and records it without breaking the cache invariant |
| Strategy.MemoHelper | strategy.py:205-247 | the helper returns the negamax value; the cache only grows and every entry stays the negated negamax value of its key |
| Strategy.MemoMinimax | strategy.py:168-202 | with a cache starting empty, returns the same first best move as recursive minimax; the session comes back unchanged |
| Iterative.Start | strategy.py:116-119 | the search starts with one unscored node for the current state on the stack and no best move |
| Iterative.PushAll | strategy.py:146-147 | pushing the nodes one by one puts them on top in order |
| Iterative.Terminal | strategy.py:129-136 | a finished node is scored with its terminal value and popped: the rest of the stack, every other node and the best move are unchanged |
| Iterative.Grow | strategy.py:139-144 | expanding adds exactly one node per move to the arena |
| Iterative.GrowFresh | strategy.py:139-144 | expanding changes only the expanded node's children; the new nodes are childless and unscored |
| Iterative.Expand | strategy.py:137-147 | a node seen first goes back on the stack with one child per move above it |
| Iterative.Finish | strategy.py:148-160 | a node seen again is popped, and the best move changes only when the stack empties |
| Iterative.Step | strategy.py:122-160 | a pass sets the best move only when it empties the stack |
| Iterative.StartOk | strategy.py:114-119 | the starting search satisfies the loop invariant |
| Iterative.InvReady | strategy.py:148-152 | a node popped a second time has all its children scored, so `child.score * -1` never meets `None` |
| Iterative.TerminalKeeps | strategy.py:129-136 | scoring a finished node keeps the invariant and shortens the remaining work |
| Iterative.ScoredChildren | strategy.py:149-155 | the negated scores of an expanded node's children are its move values |
| Iterative.FinishRoot | strategy.py:157-160 | when the root is resolved with an empty stack, the best move is the first best move |
| Iterative.FinishKeeps | strategy.py:148-160 | scoring an expanded node with the maximum keeps the invariant and shortens the remaining work |
| Iterative.ExpandKeeps | strategy.py:137-147 | expanding a node keeps the invariant and shortens the remaining work |
| Iterative.ExpandPending | strategy.py:137-147 | expanding a node lowers the count of passes still to come |
| Iterative.StepKeeps | strategy.py:122-160 | every pass keeps the invariant and shortens the remaining work, so the loop ends |
| Iterative.IterativeMinimax | strategy.py:109-165 | no move from a finished position, otherwise the same first best move as recursive minimax; the session comes back unchanged |

## Left out

- `interactive_strategy` and the `input()` calls of both games' constructors: console I/O. The board size and starting total are parameters instead.
- `__str__` and `__repr__` of states, nodes and stacks: presentation only.
- Floating point:
  - `is_pos_square` uses `round(n ** 0.5)`; the model uses an exact integer square root. The two can disagree on very large perfect squares, where the float root is rounded. Beyond the float range (about 1.8e308), `n ** 0.5` raises `OverflowError`, which the model does not have.
  - Each ratio `count / len >= 0.5` is modelled as `2 * count >= len`.
- Stonehenge.RoughOutcome: the margin fallback `(player_leys - opponent_leys) / (total_leys / 2)` is modelled as DRAW (0). Both tallies count the mover's own token, so the source always computes 0 here. The margin the code evidently meant (a float between -1 and 1) is not modelled.
- Strategy.MemoHelper: the cache is keyed by the position itself. The source keys it by the bound method `new_state.__repr__`, never called, so a lookup in practice never hits. The chosen move is the same either way; only the saved work differs.
- The string-to-int coercion inside subtract-square `make_move`: moves are integers.
- `str` methods: digits, letters and case mappings cover ASCII only; Unicode digits and letters and non-ASCII case mappings are not modelled. White space is the full set `str.isspace` accepts.
- The `Game` and `GameState` base classes are not part of this model. WIN, DRAW and LOSE are the constants 1, 0 and -1, and `get_current_player_name` follows `p1_turn`.
- The mutable `game.current_state` is modelled as a session value passed in and handed back. Only the recursive helper's exit value, a finished position, is tracked.
- Nodes hold their children as arena positions, not object references. The model does not track aliasing between Python objects.
- Nodes.Equals: node equality compares children as arena positions, where `Node.__eq__` compares the child lists by recursive node equality. The strategies never compare nodes.
- Games.Valid: the Stonehenge game of board size 0 is outside the model. The source builds the board `[]` with one `@` marker per direction. That position is not over and offers no moves, so `rough_outcome_strategy` returns `None` there. `Stonehenge.Valid` requires the game's shape with one marker per row, which that position lacks, so the model does not cover this `None`. Negative sizes give no markers at all, and `is_over` then divides by zero.
- Games.Sound: soundness of every Stonehenge position is not proved, only of the fresh size-1 game (Games.SmallHengeSound). The Stonehenge strategies are verified for positions that are sound.
- Strategy.RecursiveHelper, Strategy.MemoHelper: recursion depth is unbounded in the model. Python stops at its recursion limit, about 1000 frames, and raises `RecursionError`; the helpers recurse once per move played, so a subtract-square total around 1000 already exceeds it. The model promises the negamax value at every depth.
- `make_move` with an illegal move is modelled as the code computes it, but no property is stated about it.
