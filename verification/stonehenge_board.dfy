/** The Stonehenge board of `games/stonehenge.py`: rows of one-character
    cells, the ley lines through them, and the board a new game starts with. */
module StonehengeBoard {
  import opened Basics

  type Board = seq<seq<char>>

  /** The three ley-line directions: horizontal, diagonal up and diagonal down
      (the keys 'h', 'du' and 'dd'). */
  datatype Family = H | Du | Dd

  /** One value per ley-line direction. */
  datatype ByFamily<T> = ByFamily(h: T, du: T, dd: T)
  {
    function Get(f: Family): T
    {
      match f
      case H => h
      case Du => du
      case Dd => dd
    }
  }

  datatype BoardError = AlphabetExhausted

  /** `ALPHABET[k]`. */
  function Letter(k: nat): (c: char)
    requires k < 26
    ensures 'A' <= c <= 'Z'
  {
    (('A' as int) + k) as char
  }

  /** `[ALPHABET[ch] for ch in range(start, start + len)]`. */
  function LetterRow(start: nat, len: nat): (row: seq<char>)
    requires start + len <= 26
    ensures |row| == len
  {
    seq(len, k requires 0 <= k < len => Letter(start + k))
  }

  /** The rows the construction loop appends from loop row `r` on (the loop
      variable `i` of the source is `r + 2`), with `count` letters used so far:
      row `r` has `r + 2` cells, and the row appended after the last loop row
      has `n`. The alphabet runs out when more than 26 letters are needed. */
  function BuildRows(r: nat, n: nat, count: nat): Result<Board, BoardError>
    requires r < n
    decreases n - r
  {
    if count + r + 2 > 26 then Failure(AlphabetExhausted)
    else
      var row := LetterRow(count, r + 2);
      var next := count + r + 2;
      if r == n - 1 then
        if next + n > 26 then Failure(AlphabetExhausted)
        else Success([row, LetterRow(next, n)])
      else
        match BuildRows(r + 1, n, next)
        case Failure(e) => Failure(e)
        case Success(rest) => Success([row] + rest)
  }

  /** The board of `StonehengeGame.__init__` for a given size. */
  function NewBoard(size: int): Result<Board, BoardError>
  {
    if size <= 0 then Success([]) else BuildRows(0, size, 0)
  }

  /** `['@'] * (size + 1)` for each direction. */
  function NewMarkers(size: int): (m: ByFamily<seq<char>>)
  {
    var len := if size + 1 > 0 then size + 1 else 0;
    var row := seq(len, _ => '@');
    ByFamily(row, row, row)
  }

  /** All cells in row-major order. */
  function Flatten(board: Board): (cells: seq<char>)
  {
    if |board| == 0 then [] else board[0] + Flatten(board[1..])
  }

  /** The shape every board of size `n >= 1` has: rows of 2, 3, ..., n + 1
      cells and then a last row of `n` cells. */
  predicate Shaped(board: Board)
  {
    && |board| >= 2
    && (forall i | 0 <= i < |board| - 1 :: |board[i]| == i + 2)
    && |board[|board| - 1]| == |board| - 1
  }

  predicate IsCell(board: Board, i: int, k: int)
  {
    0 <= i < |board| && 0 <= k < |board[i]|
  }

  /** The ley line of direction `f` that `get_leys` appends cell (i, k) to, on a
      board with `rows` rows. */
  function LeyIndex(f: Family, rows: int, i: int, k: int): int
  {
    match f
    case H => i
    case Du => if i != rows - 1 then k else k + 1
    case Dd => if i != rows - 1 then rows - 2 - i + k else rows - 1 - i + k
  }

  /** The cells of row `i`, from column `k` on, that belong to ley `j` of `f`. */
  function RowLey(board: Board, f: Family, j: int, i: nat, k: nat): seq<char>
    requires i < |board|
    decreases |board[i]| - k
  {
    if k >= |board[i]| then []
    else (if LeyIndex(f, |board|, i, k) == j then [board[i][k]] else []) + RowLey(board, f, j, i, k + 1)
  }

  /** The cells of rows `i` onwards that belong to ley `j` of `f`, in the
      row-major order in which `get_leys` appends them. */
  function LeyFrom(board: Board, f: Family, j: int, i: nat): seq<char>
    decreases |board| - i
  {
    if i >= |board| then [] else RowLey(board, f, j, i, 0) + LeyFrom(board, f, j, i + 1)
  }

  function Ley(board: Board, f: Family, j: int): seq<char>
  {
    LeyFrom(board, f, j, 0)
  }

  /** The `board_size` leys of one direction. */
  function FamilyLeys(board: Board, f: Family): (leys: seq<seq<char>>)
    ensures |leys| == |board|
  {
    seq(|board|, j requires 0 <= j < |board| => Ley(board, f, j))
  }

  /** `get_leys(board)`. The source indexes its lists by these positions, which
      stay in range only on a board of the shape the game builds. */
  function GetLeys(board: Board): ByFamily<seq<seq<char>>>
    requires Shaped(board)
  {
    ByFamily(FamilyLeys(board, H), FamilyLeys(board, Du), FamilyLeys(board, Dd))
  }

  // ---------------------------------------------------------------------
  // Construction

  /** The number of cells from loop row `r` to the end of a size-`n` board. */
  function Remaining(r: nat, n: nat): nat
    requires r < n
    decreases n - r
  {
    if r == n - 1 then r + 2 + n else r + 2 + Remaining(r + 1, n)
  }

  /** The number of cells of a size-`n` board: 2 + 3 + ... + (n + 1) + n. */
  function CellTotal(n: nat): nat
  {
    n * (n + 3) / 2 + n
  }

  lemma {:induction false} RemainingClosedForm(r: nat, n: nat)
    requires r < n
    ensures 2 * Remaining(r, n) == n * (n + 3) - r * (r + 3) + 2 * n
    decreases n - r
  {
    if r < n - 1 {
      RemainingClosedForm(r + 1, n);
      assert (r + 1) * (r + 4) == r * (r + 3) + 2 * r + 4;
    } else {
      assert n * (n + 3) == r * (r + 3) + 2 * r + 4;
    }
  }

  lemma LetterRowAppend(a: nat, x: nat, y: nat)
    requires a + x + y <= 26
    ensures LetterRow(a, x) + LetterRow(a + x, y) == LetterRow(a, x + y)
  {
  }

  lemma FlattenCons(row: seq<char>, rest: Board)
    ensures Flatten([row] + rest) == row + Flatten(rest)
  {
    assert ([row] + rest)[1..] == rest;
  }

  lemma {:induction false} BuildRowsSucceeds(r: nat, n: nat, count: nat)
    requires r < n
    ensures BuildRows(r, n, count).Success? <==> count + Remaining(r, n) <= 26
    decreases n - r
  {
    if r < n - 1 {
      BuildRowsSucceeds(r + 1, n, count + r + 2);
    }
  }

  lemma {:induction false} BuildRowsShape(r: nat, n: nat, count: nat)
    requires r < n
    requires BuildRows(r, n, count).Success?
    ensures var rows := BuildRows(r, n, count).value;
      && |rows| == n - r + 1
      && (forall j | 0 <= j < n - r :: |rows[j]| == r + j + 2)
      && |rows[n - r]| == n
    decreases n - r
  {
    if r < n - 1 {
      BuildRowsShape(r + 1, n, count + r + 2);
    }
  }

  lemma {:induction false} BuildRowsLetters(r: nat, n: nat, count: nat)
    requires r < n
    requires BuildRows(r, n, count).Success?
    ensures count + Remaining(r, n) <= 26
    ensures Flatten(BuildRows(r, n, count).value) == LetterRow(count, Remaining(r, n))
    decreases n - r
  {
    BuildRowsSucceeds(r, n, count);
    var row := LetterRow(count, r + 2);
    var next := count + r + 2;
    if r == n - 1 {
      FlattenCons(LetterRow(next, n), []);
      FlattenCons(row, [LetterRow(next, n)]);
      LetterRowAppend(count, r + 2, n);
    } else {
      BuildRowsLetters(r + 1, n, next);
      FlattenCons(row, BuildRows(r + 1, n, next).value);
      LetterRowAppend(count, r + 2, Remaining(r + 1, n));
    }
  }

  /** `StonehengeGame.__init__`'s board: for sizes 1 to 5, rows of 2, 3, ...,
      n + 1 cells and a last row of n, labelled A, B, C, ... in row-major
      order; from size 6 on the 26 letters do not suffice; sizes below 1 give
      an empty board. */
  lemma NewBoardSpec(n: int)
    ensures n <= 0 ==> NewBoard(n) == Success([])
    ensures 1 <= n <= 5 ==>
      && NewBoard(n).Success?
      && Shaped(NewBoard(n).value)
      && |NewBoard(n).value| == n + 1
      && Flatten(NewBoard(n).value) == LetterRow(0, CellTotal(n))
    ensures n >= 6 ==> NewBoard(n).Failure?
  {
    if n >= 1 {
      BuildRowsSucceeds(0, n, 0);
      RemainingClosedForm(0, n);
      if n <= 5 {
        assert n * (n + 3) <= 40 by {
          assert n * (n + 3) <= 5 * (n + 3) <= 40;
        }
        BuildRowsShape(0, n, 0);
        BuildRowsLetters(0, n, 0);
      } else {
        assert n * (n + 3) >= 54 by {
          assert n * (n + 3) >= 6 * (n + 3) >= 54;
        }
      }
    }
  }

  /** The ley markers of a new game: `size + 1` unclaimed markers per direction. */
  lemma NewMarkersSpec(n: nat)
    ensures |NewMarkers(n).h| == |NewMarkers(n).du| == |NewMarkers(n).dd| == n + 1
    ensures forall f: Family, j | 0 <= j < n + 1 :: NewMarkers(n).Get(f)[j] == '@'
  {
  }

  // ---------------------------------------------------------------------
  // Ley lines

  /** On a board of the game's shape, every cell's ley position lies within
      the `board_size` leys of each direction. */
  lemma LeyIndexInRange(board: Board, f: Family, i: int, k: int)
    requires Shaped(board) && IsCell(board, i, k)
    ensures 0 <= LeyIndex(f, |board|, i, k) < |board|
  {
  }

  /** `list.count(c)`. */
  function Count(xs: seq<char>, c: char): (n: nat)
    ensures n <= |xs|
  {
    if |xs| == 0 then 0 else (if xs[0] == c then 1 else 0) + Count(xs[1..], c)
  }

  lemma {:induction false} CountAppend(a: seq<char>, b: seq<char>, c: char)
    ensures Count(a + b, c) == Count(a, c) + Count(b, c)
  {
    if |a| == 0 {
      assert a + b == b;
    } else {
      CountAppend(a[1..], b, c);
      assert (a + b)[0] == a[0];
      assert (a + b)[1..] == a[1..] + b;
    }
  }

  /** The number of times `c` occurs is its multiplicity in the multiset. */
  lemma {:induction false} CountIsMultiplicity(xs: seq<char>, c: char)
    ensures Count(xs, c) == multiset(xs)[c]
  {
    if |xs| > 0 {
      CountIsMultiplicity(xs[1..], c);
      assert xs == [xs[0]] + xs[1..];
    }
  }

  /** 1 if cell (i, k) holds `c` and its ley position is in `lo..hi - 1`, else 0. */
  function CellIf(board: Board, f: Family, lo: int, hi: int, i: nat, k: nat, c: char): nat
    requires IsCell(board, i, k)
  {
    if lo <= LeyIndex(f, |board|, i, k) < hi && board[i][k] == c then 1 else 0
  }

  /** Occurrences of `c` among the cells of row `i`, columns `k` on, summed
      over leys `j0` onward. */
  function RowSum(board: Board, f: Family, j0: nat, i: nat, k: nat, c: char): nat
    requires i < |board|
    decreases |board| - j0
  {
    if j0 >= |board| then 0
    else Count(RowLey(board, f, j0, i, k), c) + RowSum(board, f, j0 + 1, i, k, c)
  }

  /** Occurrences of `c` among rows `i` on, summed over leys `j0` onward. */
  function LeySum(board: Board, f: Family, j0: nat, i: nat, c: char): nat
    decreases |board| - j0
  {
    if j0 >= |board| then 0
    else Count(LeyFrom(board, f, j0, i), c) + LeySum(board, f, j0 + 1, i, c)
  }

  lemma RowLeyStep(board: Board, f: Family, j: int, i: nat, k: nat, c: char)
    requires IsCell(board, i, k)
    ensures Count(RowLey(board, f, j, i, k), c) == CellIf(board, f, j, j + 1, i, k, c) + Count(RowLey(board, f, j, i, k + 1), c)
  {
    var here := if LeyIndex(f, |board|, i, k) == j then [board[i][k]] else [];
    assert RowLey(board, f, j, i, k) == here + RowLey(board, f, j, i, k + 1);
    CountAppend(here, RowLey(board, f, j, i, k + 1), c);
  }

  lemma {:induction false} RowSumStep(board: Board, f: Family, j0: nat, i: nat, k: nat, c: char)
    requires IsCell(board, i, k)
    ensures RowSum(board, f, j0, i, k, c) == CellIf(board, f, j0, |board|, i, k, c) + RowSum(board, f, j0, i, k + 1, c)
    decreases |board| - j0
  {
    if j0 < |board| {
      RowSumStep(board, f, j0 + 1, i, k, c);
      RowLeyStep(board, f, j0, i, k, c);
    }
  }

  lemma {:induction false} RowSumEnd(board: Board, f: Family, j0: nat, i: nat, k: nat, c: char)
    requires i < |board| && k >= |board[i]|
    ensures RowSum(board, f, j0, i, k, c) == 0
    decreases |board| - j0
  {
    if j0 < |board| {
      RowSumEnd(board, f, j0 + 1, i, k, c);
    }
  }

  /** Every cell of row `i` has its ley position within the board's leys. */
  predicate RowInRange(board: Board, f: Family, i: nat)
    requires i < |board|
  {
    forall k | 0 <= k < |board[i]| :: 0 <= LeyIndex(f, |board|, i, k) < |board|
  }

  lemma {:induction false} RowSumWholeRow(board: Board, f: Family, i: nat, k: nat, c: char)
    requires i < |board| && k <= |board[i]| && RowInRange(board, f, i)
    ensures RowSum(board, f, 0, i, k, c) == Count(board[i][k..], c)
    decreases |board[i]| - k
  {
    var row := board[i];
    if k == |row| {
      RowSumEnd(board, f, 0, i, k, c);
      assert row[k..] == [];
    } else {
      RowSumStep(board, f, 0, i, k, c);
      RowSumWholeRow(board, f, i, k + 1, c);
      assert row[k..][1..] == row[k + 1..];
    }
  }

  lemma {:induction false} LeySumStep(board: Board, f: Family, j0: nat, i: nat, c: char)
    requires i < |board|
    ensures LeySum(board, f, j0, i, c) == RowSum(board, f, j0, i, 0, c) + LeySum(board, f, j0, i + 1, c)
    decreases |board| - j0
  {
    if j0 < |board| {
      LeySumStep(board, f, j0 + 1, i, c);
      CountAppend(RowLey(board, f, j0, i, 0), LeyFrom(board, f, j0, i + 1), c);
    }
  }

  lemma {:induction false} LeySumEnd(board: Board, f: Family, j0: nat, c: char)
    ensures LeySum(board, f, j0, |board|, c) == 0
    decreases |board| - j0
  {
    if j0 < |board| {
      LeySumEnd(board, f, j0 + 1, c);
    }
  }

  lemma ShapedRowInRange(board: Board, f: Family, i: nat)
    requires Shaped(board) && i < |board|
    ensures RowInRange(board, f, i)
  {
    forall k | 0 <= k < |board[i]| ensures 0 <= LeyIndex(f, |board|, i, k) < |board| {
      LeyIndexInRange(board, f, i, k);
    }
  }

  /** Counting over the rows from `i` on splits off row `i`. */
  lemma CountFlattenFrom(rows: Board, i: nat, c: char)
    requires i < |rows|
    ensures Count(Flatten(rows[i..]), c) == Count(rows[i], c) + Count(Flatten(rows[i + 1..]), c)
  {
    assert rows[i..] == [rows[i]] + rows[i + 1..];
    FlattenCons(rows[i], rows[i + 1..]);
    CountAppend(rows[i], Flatten(rows[i + 1..]), c);
  }

  lemma {:induction false} LeySumRows(board: Board, f: Family, i: nat, c: char)
    requires Shaped(board) && i <= |board|
    ensures LeySum(board, f, 0, i, c) == Count(Flatten(board[i..]), c)
    decreases |board| - i
  {
    if i == |board| {
      LeySumEnd(board, f, 0, c);
      assert board[i..] == [];
    } else {
      LeySumStep(board, f, 0, i, c);
      ShapedRowInRange(board, f, i);
      RowSumWholeRow(board, f, i, 0, c);
      assert board[i][0..] == board[i];
      LeySumRows(board, f, i + 1, c);
      CountFlattenFrom(board, i, c);
    }
  }

  lemma {:induction false} FamilySum(board: Board, f: Family, j0: nat, c: char)
    requires j0 <= |board|
    ensures Count(Flatten(FamilyLeys(board, f)[j0..]), c) == LeySum(board, f, j0, 0, c)
    decreases |board| - j0
  {
    var leys := FamilyLeys(board, f);
    if j0 < |board| {
      FamilySum(board, f, j0 + 1, c);
      CountFlattenFrom(leys, j0, c);
    } else {
      assert leys[j0..] == [];
    }
  }

  /** `get_leys` puts every cell of the board into exactly one ley line of each
      direction: read one after another, the leys of a direction hold the
      board's cells, each as often as on the board. */
  lemma LeysPartitionBoard(board: Board, f: Family)
    requires Shaped(board)
    ensures multiset(Flatten(GetLeys(board).Get(f))) == multiset(Flatten(board))
  {
    var leys := GetLeys(board).Get(f);
    assert leys == FamilyLeys(board, f);
    assert leys[0..] == leys;
    assert board[0..] == board;
    forall c: char
      ensures multiset(Flatten(leys))[c] == multiset(Flatten(board))[c]
    {
      FamilySum(board, f, 0, c);
      LeySumRows(board, f, 0, c);
      CountIsMultiplicity(Flatten(leys), c);
      CountIsMultiplicity(Flatten(board), c);
    }
  }

  lemma {:induction false} RowLeyHolds(board: Board, f: Family, i: nat, k: nat, k0: nat)
    requires IsCell(board, i, k) && k0 <= k
    ensures |RowLey(board, f, LeyIndex(f, |board|, i, k), i, k0)| > 0
    decreases k - k0
  {
    if k0 < k {
      RowLeyHolds(board, f, i, k, k0 + 1);
    }
  }

  lemma {:induction false} LeyFromHolds(board: Board, f: Family, i: nat, k: nat, i0: nat)
    requires IsCell(board, i, k) && i0 <= i
    ensures |LeyFrom(board, f, LeyIndex(f, |board|, i, k), i0)| > 0
    decreases i - i0
  {
    if i0 < i {
      LeyFromHolds(board, f, i, k, i0 + 1);
    } else {
      RowLeyHolds(board, f, i, k, 0);
    }
  }

  /** No ley line of a board of the game's shape is empty, so the source's
      `count / len(ley)` never divides by zero. */
  lemma LeysNonEmpty(board: Board, f: Family, j: nat)
    requires Shaped(board) && j < |board|
    ensures |GetLeys(board).Get(f)[j]| > 0
  {
    var last := |board| - 1;
    match f
    case H =>
      LeyFromHolds(board, f, j, 0, 0);
    case Du =>
      if j == 0 { LeyFromHolds(board, f, 0, 0, 0); }
      else { LeyFromHolds(board, f, last, j - 1, 0); }
    case Dd =>
      if j < last { LeyFromHolds(board, f, last, j, 0); }
      else { LeyFromHolds(board, f, 0, 1, 0); }
  }

  /** Ley `j` of a board of size 1, cell by cell. */
  lemma SmallBoardLey(a: char, b: char, c: char, f: Family, j: int)
    ensures Ley([[a, b], [c]], f, j) ==
      (if LeyIndex(f, 2, 0, 0) == j then [a] else [])
      + (if LeyIndex(f, 2, 0, 1) == j then [b] else [])
      + (if LeyIndex(f, 2, 1, 0) == j then [c] else [])
  {
    var board: Board := [[a, b], [c]];
    assert LeyFrom(board, f, j, 2) == [];
    assert RowLey(board, f, j, 0, 2) == [];
    assert RowLey(board, f, j, 1, 1) == [];
    assert RowLey(board, f, j, 0, 1) == (if LeyIndex(f, 2, 0, 1) == j then [b] else []);
    assert RowLey(board, f, j, 0, 0) == (if LeyIndex(f, 2, 0, 0) == j then [a] else []) + RowLey(board, f, j, 0, 1);
    assert RowLey(board, f, j, 1, 0) == (if LeyIndex(f, 2, 1, 0) == j then [c] else []);
    assert LeyFrom(board, f, j, 1) == RowLey(board, f, j, 1, 0);
  }

  /** The doctest of `get_leys` on the size-1 board. */
  lemma GetLeysDoctest()
    ensures GetLeys([['A', 'B'], ['C']]) ==
      ByFamily([['A', 'B'], ['C']], [['A'], ['B', 'C']], [['A', 'C'], ['B']])
  {
    var b: Board := [['A', 'B'], ['C']];
    assert Shaped(b);
    SmallBoardLey('A', 'B', 'C', H, 0);
    assert Ley(b, H, 0) == ['A', 'B'];
    SmallBoardLey('A', 'B', 'C', H, 1);
    assert Ley(b, H, 1) == ['C'];
    assert FamilyLeys(b, H)[0] == ['A', 'B'] && FamilyLeys(b, H)[1] == ['C'];
    SmallBoardLey('A', 'B', 'C', Du, 0);
    assert Ley(b, Du, 0) == ['A'];
    SmallBoardLey('A', 'B', 'C', Du, 1);
    assert Ley(b, Du, 1) == ['B', 'C'];
    assert FamilyLeys(b, Du)[0] == ['A'] && FamilyLeys(b, Du)[1] == ['B', 'C'];
    SmallBoardLey('A', 'B', 'C', Dd, 0);
    assert Ley(b, Dd, 0) == ['A', 'C'];
    SmallBoardLey('A', 'B', 'C', Dd, 1);
    assert Ley(b, Dd, 1) == ['B'];
    assert FamilyLeys(b, Dd)[0] == ['A', 'C'] && FamilyLeys(b, Dd)[1] == ['B'];
    assert FamilyLeys(b, H) == [['A', 'B'], ['C']];
    assert FamilyLeys(b, Du) == [['A'], ['B', 'C']];
    assert FamilyLeys(b, Dd) == [['A', 'C'], ['B']];
  }
}
