/** The Stonehenge game of `games/stonehenge.py`: players claim lettered
    cells, capture a ley line once they hold at least half of its cells, and
    win by capturing at least half of all ley lines. */
module Stonehenge {
  import opened Basics
  import opened Players
  import opened StonehengeBoard
  import Text

  /** The marker of a ley line nobody has captured. */
  const Unclaimed: char := '@'

  /** The token a player writes on claimed cells and captured leys. */
  function Token(p: Player): (c: char)
    ensures !Text.IsLetter(c) && c != Unclaimed
    ensures c == (if p == P1 then '1' else '2')
  {
    if p == P1 then '1' else '2'
  }

  /** `StonehengeState`: whose turn it is, the board, and the ley-line
      markers of each direction. */
  datatype State = State(p1Turn: bool, board: Board, markers: ByFamily<seq<char>>)

  function Mover(s: State): Player
  {
    PlayerOf(s.p1Turn)
  }

  /** No letter labels two cells: no letter cell is repeated further on. */
  predicate DistinctLetters(cells: seq<char>)
  {
    |cells| == 0 || ((Text.IsLetter(cells[0]) ==> cells[0] !in cells[1..]) && DistinctLetters(cells[1..]))
  }

  /** The states the rules are defined on: a board of the game's shape and
      one marker per ley line of each direction. */
  predicate Valid(s: State)
  {
    && Shaped(s.board)
    && |s.markers.h| == |s.board|
    && |s.markers.du| == |s.board|
    && |s.markers.dd| == |s.board|
  }

  /** The states a game builds and reaches also label each cell with a
      letter of its own. */
  predicate UniqueLabels(s: State)
  {
    DistinctLetters(Flatten(s.board))
  }

  /** The number of ley lines marked `c`, over all directions. */
  function MarkerCount(s: State, c: char): nat
  {
    Count(s.markers.h, c) + Count(s.markers.du, c) + Count(s.markers.dd, c)
  }

  /** The number of ley lines, over all directions. */
  function MarkerTotal(s: State): nat
  {
    |s.markers.h| + |s.markers.du| + |s.markers.dd|
  }

  /** `occurr / total_leys >= 0.5`, in integers. */
  predicate HoldsHalf(s: State, c: char)
    requires MarkerTotal(s) > 0
  {
    2 * MarkerCount(s, c) >= MarkerTotal(s)
  }

  /** `is_over`: a token marks at least half of all ley lines. */
  predicate IsOver(s: State)
    requires MarkerTotal(s) > 0
  {
    HoldsHalf(s, Token(P1)) || HoldsHalf(s, Token(P2))
  }

  /** `is_winner`: `p`'s token marks at least half of all ley lines (which
      also makes the game over). */
  predicate IsWinner(s: State, p: Player)
    requires MarkerTotal(s) > 0
  {
    HoldsHalf(s, Token(p)) && IsOver(s)
  }

  /** The letter cells among `cells`, in order. */
  function Letters(cells: seq<char>): (ls: seq<char>)
    ensures |ls| <= |cells|
    ensures forall c :: c in ls <==> c in cells && Text.IsLetter(c)
  {
    if |cells| == 0 then []
    else (if Text.IsLetter(cells[0]) then [cells[0]] else []) + Letters(cells[1..])
  }

  /** `get_possible_moves`: no moves once the game is over, otherwise the
      cells still showing a letter, in row-major order. */
  function Moves(s: State): (ms: seq<char>)
    requires MarkerTotal(s) > 0
    ensures forall m | m in ms :: Text.IsLetter(m) && m in Flatten(s.board)
  {
    if IsOver(s) then [] else Letters(Flatten(s.board))
  }

  /** The letter cells left: what every move uses up. */
  function LetterCount(s: State): nat
  {
    |Letters(Flatten(s.board))|
  }

  /** A cell after `token` claims the cells labelled `move`. */
  function ClaimCell(cell: char, move: char, token: char): char
  {
    if cell == move then token else cell
  }

  /** The board after `token` claims every cell labelled `move`. */
  function ClaimBoard(board: Board, move: char, token: char): (r: Board)
    ensures |r| == |board|
    ensures forall i | 0 <= i < |r| :: |r[i]| == |board[i]|
  {
    seq(|board|, i requires 0 <= i < |board| =>
      seq(|board[i]|, k requires 0 <= k < |board[i]| => ClaimCell(board[i][k], move, token)))
  }

  /** The markers of one direction after `token`'s player moves: an
      unclaimed ley of which `token` now holds at least half the cells goes
      to that player; every other marker stays. */
  function CaptureLeys(markers: seq<char>, leys: seq<seq<char>>, token: char): (r: seq<char>)
    requires |markers| == |leys|
    ensures |r| == |markers|
  {
    seq(|markers|, j requires 0 <= j < |markers| =>
      if 2 * Count(leys[j], token) >= |leys[j]| && markers[j] == Unclaimed then token else markers[j])
  }

  /** `make_move`: the mover claims the cells labelled `move`, captures the
      ley lines that gives them, and the turn passes. */
  function MakeMove(s: State, move: char): (r: State)
    requires Valid(s)
    ensures Valid(r)
    ensures r.p1Turn == !s.p1Turn
  {
    var token := Token(Mover(s));
    var board := ClaimBoard(s.board, move, token);
    var leys := GetLeys(board);
    State(!s.p1Turn, board, ByFamily(
      CaptureLeys(s.markers.h, leys.h, token),
      CaptureLeys(s.markers.du, leys.du, token),
      CaptureLeys(s.markers.dd, leys.dd, token)))
  }

  /** Whether some reply from `t` makes `p` a winner. */
  predicate ReplyWins(t: State, p: Player)
    requires Valid(t)
  {
    exists j | 0 <= j < |Moves(t)| :: IsWinner(MakeMove(t, Moves(t)[j]), p)
  }

  /** The loop of `rough_outcome` over the moves `ms` still to try, with
      `lossPossible` recording whether every move tried so far has a winning
      reply for the opponent. */
  function Scan(s: State, ms: seq<char>, lossPossible: bool): (v: int)
    requires Valid(s)
    ensures v == WIN || v == LOSE || v == DRAW
    ensures |ms| == 0 ==> v != WIN
  {
    if |ms| == 0 then (if lossPossible then LOSE else DRAW)
    else
      var t := MakeMove(s, ms[0]);
      if IsWinner(t, Mover(s)) then WIN
      else Scan(s, ms[1..], lossPossible && ReplyWins(t, Opponent(Mover(s))))
  }

  /** `rough_outcome`: the exact outcome of a finished game; otherwise WIN if
      a move wins at once, LOSE if every move has a winning reply, and else
      the ley margin, which the source computes as 0. */
  function RoughOutcome(s: State): (v: int)
    requires Valid(s)
    ensures LOSE <= v <= WIN
  {
    var me := Mover(s);
    if IsOver(s) then Outcome(IsWinner(s, me), IsWinner(s, Opponent(me)))
    else Scan(s, Moves(s), true)
  }

  /** `str_to_move`: a single letter, upper-cased; anything else becomes the
      move "-1", which no board offers. */
  function StrToMove(text: string): (m: string)
  {
    if !Text.IsAlpha(text) || |text| != 1 then "-1" else [Text.Upper(text[0])]
  }

  /** `StonehengeGame.__init__` with the typed board size as a parameter. */
  function NewGame(p1Starts: bool, size: int): Result<State, BoardError>
  {
    match NewBoard(size)
    case Failure(e) => Failure(e)
    case Success(board) => Success(State(p1Starts, board, NewMarkers(size)))
  }

  // ---------------------------------------------------------------------
  // Counting

  lemma ValidTotal(s: State)
    requires Valid(s)
    ensures MarkerTotal(s) == 3 * |s.board| && MarkerTotal(s) > 0
  {
  }

  /** Two sequences that hold `c` at the same places hold it equally often. */
  lemma {:induction false} CountSamePlaces(a: seq<char>, b: seq<char>, c: char)
    requires |a| == |b|
    requires forall j | 0 <= j < |a| :: a[j] == c <==> b[j] == c
    ensures Count(a, c) == Count(b, c)
  {
    if |a| > 0 {
      CountSamePlaces(a[1..], b[1..], c);
    }
  }

  /** If `b` holds `c` wherever `a` does, it holds `c` at least as often. */
  lemma {:induction false} CountMorePlaces(a: seq<char>, b: seq<char>, c: char)
    requires |a| == |b|
    requires forall j | 0 <= j < |a| :: a[j] == c ==> b[j] == c
    ensures Count(a, c) <= Count(b, c)
  {
    if |a| > 0 {
      CountMorePlaces(a[1..], b[1..], c);
    }
  }

  /** The cells of a claimed board, in row-major order. */
  function ClaimCells(cells: seq<char>, move: char, token: char): (r: seq<char>)
    ensures |r| == |cells|
  {
    seq(|cells|, k requires 0 <= k < |cells| => ClaimCell(cells[k], move, token))
  }

  lemma {:induction false} FlattenClaimBoard(board: Board, move: char, token: char)
    ensures Flatten(ClaimBoard(board, move, token)) == ClaimCells(Flatten(board), move, token)
  {
    if |board| > 0 {
      var r := ClaimBoard(board, move, token);
      assert r[1..] == ClaimBoard(board[1..], move, token);
      FlattenClaimBoard(board[1..], move, token);
      assert ClaimCells(board[0] + Flatten(board[1..]), move, token)
        == ClaimCells(board[0], move, token) + ClaimCells(Flatten(board[1..]), move, token);
      assert r[0] == ClaimCells(board[0], move, token);
    }
  }

  /** Claiming the cells labelled `move` with a non-letter token takes away
      the letter `move` and no other letter; when `move` is one of the letters,
      fewer letters are left. */
  lemma {:induction false} LettersAfterClaim(cells: seq<char>, move: char, token: char)
    requires !Text.IsLetter(token)
    ensures forall c :: c in Letters(ClaimCells(cells, move, token)) <==> c in Letters(cells) && c != move
    ensures |Letters(ClaimCells(cells, move, token))| <= |Letters(cells)|
    ensures move in Letters(cells) ==> |Letters(ClaimCells(cells, move, token))| < |Letters(cells)|
  {
    if |cells| > 0 {
      var r := ClaimCells(cells, move, token);
      assert r[1..] == ClaimCells(cells[1..], move, token);
      LettersAfterClaim(cells[1..], move, token);
      assert cells == [cells[0]] + cells[1..];
    }
  }

  /** Claiming with a non-letter token keeps the letters distinct. */
  lemma {:induction false} ClaimKeepsDistinct(cells: seq<char>, move: char, token: char)
    requires !Text.IsLetter(token) && DistinctLetters(cells)
    ensures DistinctLetters(ClaimCells(cells, move, token))
  {
    if |cells| > 0 {
      var r := ClaimCells(cells, move, token);
      assert r[1..] == ClaimCells(cells[1..], move, token);
      ClaimKeepsDistinct(cells[1..], move, token);
    }
  }

  /** Claiming a letter the cells do not hold changes nothing. */
  lemma ClaimAbsent(cells: seq<char>, move: char, token: char)
    requires move !in cells
    ensures ClaimCells(cells, move, token) == cells
  {
  }

  /** On cells with distinct letters, claiming one of the letters takes away
      exactly one letter cell. */
  lemma {:induction false} ClaimOneLetter(cells: seq<char>, move: char, token: char)
    requires !Text.IsLetter(token) && DistinctLetters(cells) && move in Letters(cells)
    ensures |Letters(ClaimCells(cells, move, token))| == |Letters(cells)| - 1
  {
    var r := ClaimCells(cells, move, token);
    var rest := cells[1..];
    assert r[1..] == ClaimCells(rest, move, token);
    assert cells == [cells[0]] + rest;
    assert r == [r[0]] + r[1..];
    if cells[0] == move {
      ClaimAbsent(rest, move, token);
    } else {
      ClaimOneLetter(rest, move, token);
    }
  }

  // ---------------------------------------------------------------------
  // Properties of a move

  /** A move keeps each letter on at most one cell. */
  lemma MakeMoveKeepsLabels(s: State, move: char)
    requires Valid(s) && UniqueLabels(s)
    ensures UniqueLabels(MakeMove(s, move))
  {
    var token := Token(Mover(s));
    FlattenClaimBoard(s.board, move, token);
    ClaimKeepsDistinct(Flatten(s.board), move, token);
  }

  /** A legal move uses up its letter: the letter is gone from the board,
      every other letter stays, and fewer letter cells are left. */
  lemma MoveUsesLetter(s: State, move: char)
    requires Valid(s) && move in Moves(s)
    ensures var r := MakeMove(s, move);
      && move !in Flatten(r.board)
      && (forall c | Text.IsLetter(c) && c != move :: c in Flatten(r.board) <==> c in Flatten(s.board))
      && LetterCount(r) < LetterCount(s)
  {
    var token := Token(Mover(s));
    FlattenClaimBoard(s.board, move, token);
    LettersAfterClaim(Flatten(s.board), move, token);
  }

  /** On a board whose letters label one cell each, as every game's board
      does, a legal move leaves exactly one letter cell fewer. */
  lemma MoveUsesOneLetter(s: State, move: char)
    requires Valid(s) && move in Moves(s)
    ensures UniqueLabels(s) ==> LetterCount(MakeMove(s, move)) == LetterCount(s) - 1
  {
    if UniqueLabels(s) {
      var token := Token(Mover(s));
      FlattenClaimBoard(s.board, move, token);
      ClaimOneLetter(Flatten(s.board), move, token);
    }
  }

  /** A captured ley line is never lost or taken over: a marker changes only
      from unclaimed to the mover's token, and it does exactly when the mover
      holds at least half of that ley's cells after the move. */
  lemma CaptureRule(s: State, move: char, f: Family, j: nat)
    requires Valid(s) && j < |s.board|
    ensures var r := MakeMove(s, move);
      var before := s.markers.Get(f)[j];
      var after := r.markers.Get(f)[j];
      var ley := GetLeys(r.board).Get(f)[j];
      var token := Token(Mover(s));
      && (before != Unclaimed ==> after == before)
      && (after != before ==> before == Unclaimed && after == token)
      && (before == Unclaimed ==> (after == token <==> 2 * Count(ley, token) >= |ley|))
  {
  }

  /** A move never changes how many ley lines the opponent holds, and never
      lowers how many the mover holds. */
  lemma MarkerCounts(s: State, move: char)
    requires Valid(s)
    ensures var r := MakeMove(s, move);
      && MarkerCount(r, Token(Opponent(Mover(s)))) == MarkerCount(s, Token(Opponent(Mover(s))))
      && MarkerCount(r, Token(Mover(s))) >= MarkerCount(s, Token(Mover(s)))
      && MarkerTotal(r) == MarkerTotal(s)
  {
    var r := MakeMove(s, move);
    var me := Token(Mover(s));
    var them := Token(Opponent(Mover(s)));
    forall f: Family
      ensures Count(r.markers.Get(f), them) == Count(s.markers.Get(f), them)
      ensures Count(s.markers.Get(f), me) <= Count(r.markers.Get(f), me)
    {
      forall j | 0 <= j < |s.board| ensures s.markers.Get(f)[j] == them <==> r.markers.Get(f)[j] == them {
        CaptureRule(s, move, f, j);
      }
      CountSamePlaces(s.markers.Get(f), r.markers.Get(f), them);
      forall j | 0 <= j < |s.board| ensures s.markers.Get(f)[j] == me ==> r.markers.Get(f)[j] == me {
        CaptureRule(s, move, f, j);
      }
      CountMorePlaces(s.markers.Get(f), r.markers.Get(f), me);
    }
    assert r.markers.h == r.markers.Get(H) && r.markers.du == r.markers.Get(Du) && r.markers.dd == r.markers.Get(Dd);
    assert s.markers.h == s.markers.Get(H) && s.markers.du == s.markers.Get(Du) && s.markers.dd == s.markers.Get(Dd);
  }

  /** Only the player who moves can end an unfinished game, and then they
      are its winner and their opponent is not. */
  lemma OnlyMoverWins(s: State, move: char)
    requires Valid(s) && !IsOver(s)
    ensures var r := MakeMove(s, move);
      IsOver(r) ==> IsWinner(r, Mover(s)) && !IsWinner(r, Opponent(Mover(s)))
  {
    MarkerCounts(s, move);
    ValidTotal(s);
    var r := MakeMove(s, move);
    ValidTotal(r);
    assert !HoldsHalf(r, Token(Opponent(Mover(s))));
    if Mover(s) == P1 {
      assert Opponent(Mover(s)) == P2;
    } else {
      assert Opponent(Mover(s)) == P1;
    }
  }

  /** Every state has a winner exactly when it is over. */
  lemma WinnerIffOver(s: State)
    requires MarkerTotal(s) > 0
    ensures IsOver(s) <==> IsWinner(s, P1) || IsWinner(s, P2)
  {
  }

  /** A finished game offers no moves; an unfinished one offers each letter
      still on the board. */
  lemma MovesMembership(s: State, m: char)
    requires Valid(s)
    ensures m in Moves(s) <==> !IsOver(s) && Text.IsLetter(m) && m in Flatten(s.board)
  {
  }

  // ---------------------------------------------------------------------
  // rough_outcome

  /** Moving `m` makes the mover a winner at once. */
  predicate WinsAt(s: State, m: char)
    requires Valid(s)
  {
    IsWinner(MakeMove(s, m), Mover(s))
  }

  /** After the mover plays `m`, the opponent has a reply that wins. */
  predicate Answered(s: State, m: char)
    requires Valid(s)
  {
    ReplyWins(MakeMove(s, m), Opponent(Mover(s)))
  }

  lemma {:induction false} ScanCases(s: State, ms: seq<char>, lossPossible: bool)
    requires Valid(s)
    ensures var v := Scan(s, ms, lossPossible);
      && (v == WIN <==> exists m | m in ms :: WinsAt(s, m))
      && (v == LOSE <==> lossPossible && forall m | m in ms :: !WinsAt(s, m) && Answered(s, m))
      && (v == DRAW <==> (forall m | m in ms :: !WinsAt(s, m)) && !(lossPossible && forall m | m in ms :: Answered(s, m)))
  {
    if |ms| > 0 {
      var t := MakeMove(s, ms[0]);
      var rest := ms[1..];
      assert forall m :: m in ms <==> m == ms[0] || m in rest;
      if !WinsAt(s, ms[0]) {
        ScanCases(s, rest, lossPossible && Answered(s, ms[0]));
      }
    }
  }

  /** `rough_outcome` in full: a finished game scores its result; otherwise
      WIN exactly when some move wins at once, LOSE exactly when no move wins
      at once and every move has a winning reply, and 0 otherwise. */
  lemma RoughOutcomeCases(s: State)
    requires Valid(s)
    ensures var v := RoughOutcome(s);
      var me := Mover(s);
      && (IsOver(s) ==> v == Outcome(IsWinner(s, me), IsWinner(s, Opponent(me))))
      && (!IsOver(s) ==>
        && (v == WIN <==> exists m | m in Moves(s) :: WinsAt(s, m))
        && (v == LOSE <==> forall m | m in Moves(s) :: !WinsAt(s, m) && Answered(s, m))
        && (v == DRAW <==> (forall m | m in Moves(s) :: !WinsAt(s, m)) && exists m | m in Moves(s) :: !Answered(s, m)))
  {
    if !IsOver(s) {
      ScanCases(s, Moves(s), true);
    }
  }

  // ---------------------------------------------------------------------
  // str_to_move

  /** A typed single letter names the upper-case move; anything else is the
      invalid move "-1". */
  lemma StrToMoveCases(text: string)
    ensures |text| == 1 && Text.IsLetter(text[0]) ==> StrToMove(text) == [Text.Upper(text[0])]
    ensures !(|text| == 1 && Text.IsLetter(text[0])) ==> StrToMove(text) == "-1"
  {
  }

  /** Typing a board label gives back that label, and reading a move twice
      changes nothing. */
  lemma StrToMoveRoundTrip(c: char, text: string)
    requires 'A' <= c <= 'Z'
    ensures StrToMove([c]) == [c]
    ensures StrToMove(StrToMove(text)) == StrToMove(text)
  {
    if |text| == 1 && Text.IsLetter(text[0]) {
      var u := Text.Upper(text[0]);
      assert Text.IsAlpha([u]);
    } else {
      assert !Text.IsAlpha("-1") by {
        assert !Text.IsLetter("-1"[0]);
      }
    }
  }

  /** A typed move is a move the position offers exactly when the text is a
      single letter whose upper case the position offers; then it names the
      cell `MakeMove` claims. The rejection "-1" is never offered. */
  lemma StrToMoveLegal(s: State, text: string)
    requires Valid(s)
    ensures var m := StrToMove(text);
      (|m| == 1 && m[0] in Moves(s)) <==> (|text| == 1 && Text.IsLetter(text[0]) && Text.Upper(text[0]) in Moves(s))
    ensures var m := StrToMove(text);
      |m| == 1 && m[0] in Moves(s) ==> m == [Text.Upper(text[0])]
    ensures !(|text| == 1 && Text.IsLetter(text[0])) ==> |StrToMove(text)| != 1
  {
    StrToMoveCases(text);
  }

  // ---------------------------------------------------------------------
  // A new game

  /** A row of letter cells keeps every cell as a letter. */
  lemma {:induction false} LettersAllLetters(cells: seq<char>)
    requires forall k | 0 <= k < |cells| :: Text.IsLetter(cells[k])
    ensures Letters(cells) == cells
    decreases |cells|
  {
    if |cells| > 0 {
      var rest := cells[1..];
      LettersAllLetters(rest);
      assert Text.IsLetter(cells[0]);
      assert cells == [cells[0]] + rest;
    }
  }

  /** Consecutive letters of the alphabet are all different. */
  lemma {:induction false} LetterRowDistinct(start: nat, len: nat)
    requires start + len <= 26
    ensures DistinctLetters(LetterRow(start, len))
    decreases len
  {
    var row := LetterRow(start, len);
    if len > 0 {
      assert row[1..] == LetterRow(start + 1, len - 1);
      LetterRowDistinct(start + 1, len - 1);
      forall k | 0 <= k < len - 1 ensures row[1..][k] != row[0] {
        assert row[1..][k] == Letter(start + 1 + k) && row[0] == Letter(start);
      }
    }
  }

  lemma {:induction false} UnclaimedCount(ms: seq<char>, c: char)
    requires forall j | 0 <= j < |ms| :: ms[j] == Unclaimed
    requires c != Unclaimed
    ensures Count(ms, c) == 0
  {
    if |ms| > 0 {
      assert forall j | 0 <= j < |ms| - 1 :: ms[1..][j] == ms[j + 1];
      UnclaimedCount(ms[1..], c);
    }
  }

  /** A new game of size 1 to 5 starts valid and unfinished, with no winner,
      the chosen player to move, and every label A, B, C, ... as a move. */
  lemma NewGameSpec(p1Starts: bool, n: int)
    requires 1 <= n <= 5
    ensures NewGame(p1Starts, n).Success?
    ensures var s := NewGame(p1Starts, n).value;
      && Valid(s)
      && s.p1Turn == p1Starts
      && !IsOver(s)
      && !IsWinner(s, P1) && !IsWinner(s, P2)
      && Moves(s) == LetterRow(0, CellTotal(n))
  {
    NewBoardSpec(n);
    NewMarkersSpec(n);
    var s := NewGame(p1Starts, n).value;
    ValidTotal(s);
    forall f: Family, c: char | c != Unclaimed ensures Count(s.markers.Get(f), c) == 0 {
      UnclaimedCount(s.markers.Get(f), c);
    }
    assert s.markers.h == s.markers.Get(H) && s.markers.du == s.markers.Get(Du) && s.markers.dd == s.markers.Get(Dd);
    assert MarkerCount(s, Token(P1)) == 0 && MarkerCount(s, Token(P2)) == 0;
    var row := LetterRow(0, CellTotal(n));
    forall k | 0 <= k < |row| ensures Text.IsLetter(row[k]) {
      assert row[k] == Letter(k);
    }
    LettersAllLetters(row);
  }

  /** A new game labels each cell with a letter of its own, so every move
      leaves exactly one letter cell fewer. */
  lemma NewGameLabels(p1Starts: bool, n: int)
    requires 1 <= n <= 5
    ensures NewGame(p1Starts, n).Success?
    ensures UniqueLabels(NewGame(p1Starts, n).value)
  {
    NewBoardSpec(n);
    LetterRowDistinct(0, CellTotal(n));
  }

  // ---------------------------------------------------------------------
  // The doctests, on the board of size 1

  /** The size-1 board with its cells `a`, `b`, `c` and markers. */
  function Small(p1Turn: bool, a: char, b: char, c: char, h: seq<char>, du: seq<char>, dd: seq<char>): State
  {
    State(p1Turn, [[a, b], [c]], ByFamily(h, du, dd))
  }

  /** The leys of every direction of the size-1 board with cells `a`, `b`, `c`. */
  lemma SmallLeys(a: char, b: char, c: char)
    ensures GetLeys([[a, b], [c]]) == ByFamily([[a, b], [c]], [[a], [b, c]], [[a, c], [b]])
  {
    var board: Board := [[a, b], [c]];
    assert Shaped(board);
    SmallBoardLey(a, b, c, H, 0);
    SmallBoardLey(a, b, c, H, 1);
    SmallBoardLey(a, b, c, Du, 0);
    SmallBoardLey(a, b, c, Du, 1);
    SmallBoardLey(a, b, c, Dd, 0);
    SmallBoardLey(a, b, c, Dd, 1);
    assert Ley(board, H, 0) == [a, b] && Ley(board, H, 1) == [c];
    assert Ley(board, Du, 0) == [a] && Ley(board, Du, 1) == [b, c];
    assert Ley(board, Dd, 0) == [a, c] && Ley(board, Dd, 1) == [b];
    assert FamilyLeys(board, H) == [[a, b], [c]];
    assert FamilyLeys(board, Du) == [[a], [b, c]];
    assert FamilyLeys(board, Dd) == [[a, c], [b]];
  }

  /** The doctest of `make_move`: player 1 claiming A captures the first ley
      of every direction. */
  lemma MakeMoveDoctest()
    ensures MakeMove(Small(true, 'A', 'B', 'C', "@@", "@@", "@@"), 'A')
      == Small(false, '1', 'B', 'C', "1@", "1@", "1@")
  {
    var s := Small(true, 'A', 'B', 'C', "@@", "@@", "@@");
    assert Valid(s);
    var board := ClaimBoard(s.board, 'A', '1');
    assert |board| == 2 && |board[0]| == 2 && |board[1]| == 1;
    assert board[0][0] == '1' && board[0][1] == 'B' && board[1][0] == 'C';
    assert board[0] == ['1', 'B'] && board[1] == ['C'];
    assert board == [['1', 'B'], ['C']];
    SmallLeys('1', 'B', 'C');
    var leys := GetLeys(board);
    assert CaptureLeys("@@", leys.h, '1') == "1@";
    assert CaptureLeys("@@", leys.du, '1') == "1@";
    assert CaptureLeys("@@", leys.dd, '1') == "1@";
  }

  /** The capture of two unclaimed leys. */
  lemma CaptureTwo(l0: seq<char>, l1: seq<char>, token: char)
    ensures CaptureLeys([Unclaimed, Unclaimed], [l0, l1], token)
      == [if 2 * Count(l0, token) >= |l0| then token else Unclaimed,
          if 2 * Count(l1, token) >= |l1| then token else Unclaimed]
  {
  }

  /** Claiming on a size-1 board claims each of its three cells. */
  lemma SmallClaimBoard(a: char, b: char, c: char, move: char, token: char)
    ensures ClaimBoard([[a, b], [c]], move, token)
      == [[ClaimCell(a, move, token), ClaimCell(b, move, token)], [ClaimCell(c, move, token)]]
  {
    var r := ClaimBoard([[a, b], [c]], move, token);
    assert r[0] == [ClaimCell(a, move, token), ClaimCell(b, move, token)];
    assert r[1] == [ClaimCell(c, move, token)];
  }

  /** Player 1 claiming B or C on the fresh board of size 1: B captures h0,
      du1 and dd1; C captures h1, du1 and dd0. */
  lemma SmallOtherMoves()
    ensures MakeMove(Small(true, 'A', 'B', 'C', "@@", "@@", "@@"), 'B')
      == Small(false, 'A', '1', 'C', "1@", "@1", "@1")
    ensures MakeMove(Small(true, 'A', 'B', 'C', "@@", "@@", "@@"), 'C')
      == Small(false, 'A', 'B', '1', "@1", "@1", "1@")
  {
    var s := Small(true, 'A', 'B', 'C', "@@", "@@", "@@");
    assert Valid(s);
    SmallClaimBoard('A', 'B', 'C', 'B', '1');
    SmallLeys('A', '1', 'C');
    CaptureTwo(['A', '1'], ['C'], '1');
    CaptureTwo(['A'], ['1', 'C'], '1');
    CaptureTwo(['A', 'C'], ['1'], '1');
    SmallClaimBoard('A', 'B', 'C', 'C', '1');
    SmallLeys('A', 'B', '1');
    CaptureTwo(['A', 'B'], ['1'], '1');
    CaptureTwo(['A'], ['B', '1'], '1');
    CaptureTwo(['A', '1'], ['B'], '1');
  }

  /** On the fresh board of size 1 every first move of player 1 captures three
      of the six ley lines and so wins the game. */
  lemma SmallFirstMoveWins(m: char)
    requires m == 'A' || m == 'B' || m == 'C'
    ensures var r := MakeMove(Small(true, 'A', 'B', 'C', "@@", "@@", "@@"), m);
      MarkerTotal(r) > 0 && IsOver(r) && IsWinner(r, P1)
  {
    MakeMoveDoctest();
    SmallOtherMoves();
    var r := MakeMove(Small(true, 'A', 'B', 'C', "@@", "@@", "@@"), m);
    assert MarkerCount(r, '1') == 3;
  }

  /** The doctests of `get_possible_moves`, `is_over` and `is_winner` on a
      fresh board of size 1. */
  lemma FreshBoardDoctest()
    ensures var s := Small(true, 'A', 'B', 'C', "@@", "@@", "@@");
      && Valid(s)
      && !IsOver(s)
      && !IsWinner(s, P1)
      && Moves(s) == ['A', 'B', 'C']
  {
    var s := Small(true, 'A', 'B', 'C', "@@", "@@", "@@");
    assert Valid(s);
    assert MarkerCount(s, '1') == 0 && MarkerCount(s, '2') == 0;
    assert Flatten(s.board) == ['A', 'B', 'C'];
    assert Letters(['A', 'B', 'C']) == ['A', 'B', 'C'];
  }

  /** The doctest of `rough_outcome` on a fresh board of size 1: the first
      move already wins. */
  lemma FreshRoughOutcomeDoctest()
    ensures RoughOutcome(Small(true, 'A', 'B', 'C', "@@", "@@", "@@")) == WIN
  {
    var s := Small(true, 'A', 'B', 'C', "@@", "@@", "@@");
    FreshBoardDoctest();
    MakeMoveDoctest();
    var t := Small(false, '1', 'B', 'C', "1@", "1@", "1@");
    assert MarkerCount(t, '1') == 3;
    assert IsWinner(t, P1);
  }
}
