/** The board of the Tic-Tac-Toe game: a 3x3 grid of cell codes together with
    a counter of how many squares have been marked. The board knows nothing
    about turns; it only stores marks and answers queries about them. */
module Boards {

  /** Cell codes, as the game stores them in the grid. */
  const EMPTY := 0
  const PLAYER_X := 1
  const PLAYER_O := 2

  const BOARD_ROWS := 3
  const BOARD_COLS := 3

  /** A value a square can hold. */
  type Code = c: int | 0 <= c <= 2

  /** A code that names a player: never EMPTY. */
  type Player = p: int | p == 1 || p == 2 witness 1

  /** A row or column number; the board is square, so one range serves both. */
  type Index = i: int | 0 <= i < BOARD_ROWS

  /** A square, addressed as (row, col). */
  type Square = (Index, Index)

  /** Three rows of three codes each. */
  type Grid = g: seq<seq<Code>> | |g| == BOARD_ROWS && forall r :: 0 <= r < BOARD_ROWS ==> |g[r]| == BOARD_COLS
    witness [[0, 0, 0], [0, 0, 0], [0, 0, 0]]

  datatype Board = Board(squares: Grid, markedSquares: nat)

  function At(b: Board, row: Index, col: Index): Code
  {
    b.squares[row][col]
  }

  /** Position of a square in row-major order, 0 .. 8. */
  function Flat(sq: Square): (k: nat)
    ensures k < 9
  {
    3 * sq.0 + sq.1
  }

  /** The square at row-major position `k`. */
  function SquareOf(k: nat): (sq: Square)
    requires k < 9
    ensures Flat(sq) == k
  {
    (k / 3, k % 3)
  }

  /** A freshly constructed board: every square EMPTY, nothing marked. */
  function NewBoard(): (b: Board)
    ensures b.markedSquares == 0
    ensures forall r: Index, c: Index :: At(b, r, c) == EMPTY
  {
    Board([[EMPTY, EMPTY, EMPTY], [EMPTY, EMPTY, EMPTY], [EMPTY, EMPTY, EMPTY]], 0)
  }

  /** Puts `player` in square (row, col) and counts one more mark. Like the
      game, it does not look at what the square held before. */
  function Mark(b: Board, row: Index, col: Index, player: Code): (b': Board)
    ensures At(b', row, col) == player
    ensures forall r: Index, c: Index :: (r, c) != (row, col) ==> At(b', r, c) == At(b, r, c)
    ensures b'.markedSquares == b.markedSquares + 1
  {
    var newRow: seq<Code> := b.squares[row][col := player];
    Board(b.squares[row := newRow], b.markedSquares + 1)
  }

  /** A square is available exactly when neither player has marked it. */
  predicate IsAvailable(b: Board, row: Index, col: Index)
    ensures IsAvailable(b, row, col) <==> At(b, row, col) != PLAYER_X && At(b, row, col) != PLAYER_O
  {
    At(b, row, col) == EMPTY
  }

  /** Full and empty are read off the counter, not off the grid; with a
      consistent counter they still say what the grid holds. */
  predicate IsFull(b: Board)
    ensures Consistent(b) ==> (IsFull(b) <==> forall r: Index, c: Index :: !IsAvailable(b, r, c))
  {
    CountedSquares(b);
    b.markedSquares == 9
  }

  predicate IsEmpty(b: Board)
    ensures Consistent(b) ==> (IsEmpty(b) <==> forall r: Index, c: Index :: IsAvailable(b, r, c))
  {
    CountedSquares(b);
    b.markedSquares == 0
  }

  /** Number of non-EMPTY squares among the first `n` in row-major order. */
  function Filled(b: Board, n: nat): (count: nat)
    requires n <= 9
    ensures count <= n
  {
    if n == 0 then 0
    else
      var sq := SquareOf(n - 1);
      Filled(b, n - 1) + (if IsAvailable(b, sq.0, sq.1) then 0 else 1)
  }

  /** The counter agrees with the grid. */
  predicate Consistent(b: Board)
  {
    b.markedSquares == Filled(b, 9)
  }

  /** What the walk over the board contributes for one square. */
  function Listed(b: Board, sq: Square): (s: seq<Square>)
    ensures |s| == if IsAvailable(b, sq.0, sq.1) then 1 else 0
  {
    if IsAvailable(b, sq.0, sq.1) then [sq] else []
  }

  /** The available squares among the first `n`, in row-major order. */
  function EmptyPrefix(b: Board, n: nat): (s: seq<Square>)
    requires n <= 9
    ensures |s| + Filled(b, n) == n
  {
    if n == 0 then [] else EmptyPrefix(b, n - 1) + Listed(b, SquareOf(n - 1))
  }

  /** Everything the walk lists lies before `n`, is available, and comes in
      strictly increasing row-major order. */
  lemma {:induction false} EmptyPrefixSound(b: Board, n: nat)
    requires n <= 9
    ensures forall i :: 0 <= i < |EmptyPrefix(b, n)| ==>
              Flat(EmptyPrefix(b, n)[i]) < n && IsAvailable(b, EmptyPrefix(b, n)[i].0, EmptyPrefix(b, n)[i].1)
    ensures forall i, j :: 0 <= i < j < |EmptyPrefix(b, n)| ==> Flat(EmptyPrefix(b, n)[i]) < Flat(EmptyPrefix(b, n)[j])
  {
    if n > 0 {
      EmptyPrefixSound(b, n - 1);
    }
  }

  lemma {:induction false} EmptyPrefixComplete(b: Board, n: nat, sq: Square)
    requires n <= 9
    requires Flat(sq) < n && IsAvailable(b, sq.0, sq.1)
    ensures sq in EmptyPrefix(b, n)
  {
    if Flat(sq) == n - 1 {
      assert sq == SquareOf(n - 1);
      assert EmptyPrefix(b, n)[|EmptyPrefix(b, n)| - 1] == sq;
    } else {
      EmptyPrefixComplete(b, n - 1, sq);
    }
  }

  /** The game's list of empty squares: a row loop around a column loop,
      appending each available square as it is met. */
  function EmptySquares(b: Board): (squares: seq<Square>)
    ensures |squares| == 9 - Filled(b, 9)
  {
    EmptyPrefix(b, 9)
  }

  /** The list holds exactly the available squares, each once, in strictly
      increasing row-major order, and there are as many as unmarked squares. */
  lemma EmptySquaresExact(b: Board)
    ensures forall sq: Square :: sq in EmptySquares(b) <==> IsAvailable(b, sq.0, sq.1)
    ensures forall i, j :: 0 <= i < j < |EmptySquares(b)| ==> Flat(EmptySquares(b)[i]) < Flat(EmptySquares(b)[j])
    ensures Consistent(b) ==> |EmptySquares(b)| == 9 - b.markedSquares
  {
    EmptyPrefixSound(b, 9);
    forall sq: Square | IsAvailable(b, sq.0, sq.1)
      ensures sq in EmptySquares(b)
    {
      EmptyPrefixComplete(b, 9, sq);
    }
  }

  /** Marking an available square with a player's code adds exactly one to
      the count of filled squares at or after that square. */
  lemma {:induction false} MarkFilled(b: Board, row: Index, col: Index, player: Code, n: nat)
    requires n <= 9
    requires IsAvailable(b, row, col) && player != EMPTY
    ensures Filled(Mark(b, row, col, player), n)
            == Filled(b, n) + (if Flat((row, col)) < n then 1 else 0)
  {
    if n > 0 {
      MarkFilled(b, row, col, player, n - 1);
    }
  }

  /** The counter keeps agreeing with the grid as long as only available
      squares are marked, and only with a player's code. */
  lemma MarkKeepsConsistent(b: Board, row: Index, col: Index, player: Code)
    requires Consistent(b)
    requires IsAvailable(b, row, col) && player != EMPTY
    ensures Consistent(Mark(b, row, col, player))
    ensures Mark(b, row, col, player).markedSquares <= 9
  {
    MarkFilled(b, row, col, player, 9);
  }

  lemma {:induction false} FilledNone(b: Board, n: nat)
    requires n <= 9
    ensures Filled(b, n) == 0 <==> forall k :: 0 <= k < n ==> IsAvailable(b, SquareOf(k).0, SquareOf(k).1)
  {
    if n > 0 {
      FilledNone(b, n - 1);
    }
  }

  lemma {:induction false} FilledAll(b: Board, n: nat)
    requires n <= 9
    ensures Filled(b, n) == n <==> forall k :: 0 <= k < n ==> !IsAvailable(b, SquareOf(k).0, SquareOf(k).1)
  {
    if n > 0 {
      FilledAll(b, n - 1);
    }
  }

  /** A consistent counter lies in 0 .. 9; it is 9 exactly when no square
      is available and 0 exactly when every square is available. */
  lemma CountedSquares(b: Board)
    ensures Consistent(b) ==> 0 <= b.markedSquares <= 9
    ensures Consistent(b) ==> (b.markedSquares == 9 <==> forall r: Index, c: Index :: !IsAvailable(b, r, c))
    ensures Consistent(b) ==> (b.markedSquares == 0 <==> forall r: Index, c: Index :: IsAvailable(b, r, c))
  {
    FilledAll(b, 9);
    FilledNone(b, 9);
    if forall k :: 0 <= k < 9 ==> !IsAvailable(b, SquareOf(k).0, SquareOf(k).1) {
      forall r: Index, c: Index ensures !IsAvailable(b, r, c) {
        assert SquareOf(Flat((r, c))) == (r, c);
      }
    }
    if forall k :: 0 <= k < 9 ==> IsAvailable(b, SquareOf(k).0, SquareOf(k).1) {
      forall r: Index, c: Index ensures IsAvailable(b, r, c) {
        assert SquareOf(Flat((r, c))) == (r, c);
      }
    }
  }

  /** A fresh board is empty, consistent, and offers all nine squares. */
  lemma NewBoardEmpty()
    ensures Consistent(NewBoard()) && IsEmpty(NewBoard()) && !IsFull(NewBoard())
    ensures forall r: Index, c: Index :: IsAvailable(NewBoard(), r, c)
  {
  }

  // ---------------------------------------------------------------------
  // Winning lines

  /** The eight winning lines: three rows, three columns, two diagonals. */
  datatype Line = Row(r: Index) | Column(c: Index) | Diagonal | AntiDiagonal

  function LineSquares(l: Line): (s: seq<Square>)
    ensures |s| == 3
  {
    match l
    case Row(r) => [(r, 0), (r, 1), (r, 2)]
    case Column(c) => [(0, c), (1, c), (2, c)]
    case Diagonal => [(0, 0), (1, 1), (2, 2)]
    case AntiDiagonal => [(0, 2), (1, 1), (2, 0)]
  }

  /** `player` occupies every square of line `l`. */
  predicate Owns(b: Board, player: Code, l: Line)
  {
    forall k :: 0 <= k < 3 ==> At(b, LineSquares(l)[k].0, LineSquares(l)[k].1) == player
  }

  predicate ColumnWin(b: Board, player: Code, col: Index)
  {
    At(b, 0, col) == player && At(b, 1, col) == player && At(b, 2, col) == player
  }

  predicate RowWin(b: Board, player: Code, row: Index)
  {
    At(b, row, 0) == player && At(b, row, 1) == player && At(b, row, 2) == player
  }

  /** The game's win test: columns, then rows, then the two diagonals. It
      holds exactly when the player occupies all three squares of a line. */
  predicate CheckWin(b: Board, player: Code)
    ensures CheckWin(b, player) <==> exists l: Line :: Owns(b, player, l)
  {
    LineTests(b, player);
    || ColumnWin(b, player, 0) || ColumnWin(b, player, 1) || ColumnWin(b, player, 2)
    || RowWin(b, player, 0) || RowWin(b, player, 1) || RowWin(b, player, 2)
    || (At(b, 0, 0) == player && At(b, 1, 1) == player && At(b, 2, 2) == player)
    || (At(b, 0, 2) == player && At(b, 1, 1) == player && At(b, 2, 0) == player)
  }

  /** Owning a line means passing that line's test, and owning some line
      means owning a column, a row or one of the two diagonals. */
  lemma LineTests(b: Board, player: Code)
    ensures forall c: Index :: Owns(b, player, Column(c)) <==> ColumnWin(b, player, c)
    ensures forall r: Index :: Owns(b, player, Row(r)) <==> RowWin(b, player, r)
    ensures Owns(b, player, Diagonal) <==> At(b, 0, 0) == player && At(b, 1, 1) == player && At(b, 2, 2) == player
    ensures Owns(b, player, AntiDiagonal) <==> At(b, 0, 2) == player && At(b, 1, 1) == player && At(b, 2, 0) == player
    ensures (exists l: Line :: Owns(b, player, l)) <==>
      || (exists c: Index :: ColumnWin(b, player, c))
      || (exists r: Index :: RowWin(b, player, r))
      || Owns(b, player, Diagonal) || Owns(b, player, AntiDiagonal)
  {
    forall l: Line ensures Owns(b, player, l) <==> forall k :: 0 <= k < 3 ==> At(b, LineSquares(l)[k].0, LineSquares(l)[k].1) == player {
    }
    forall c: Index ensures Owns(b, player, Column(c)) <==> ColumnWin(b, player, c) {
      var s := LineSquares(Column(c));
      assert s[0] == (0, c) && s[1] == (1, c) && s[2] == (2, c);
    }
    forall r: Index ensures Owns(b, player, Row(r)) <==> RowWin(b, player, r) {
      var s := LineSquares(Row(r));
      assert s[0] == (r, 0) && s[1] == (r, 1) && s[2] == (r, 2);
    }
    var d := LineSquares(Diagonal);
    assert d[0] == (0, 0) && d[1] == (1, 1) && d[2] == (2, 2);
    var e := LineSquares(AntiDiagonal);
    assert e[0] == (0, 2) && e[1] == (1, 1) && e[2] == (2, 0);
    if l: Line :| Owns(b, player, l) {
      match l
      case Column(c) => assert ColumnWin(b, player, c);
      case Row(r) => assert RowWin(b, player, r);
      case Diagonal =>
      case AntiDiagonal =>
    }
    if c: Index :| ColumnWin(b, player, c) {
      assert Owns(b, player, Column(c));
    }
    if r: Index :| RowWin(b, player, r) {
      assert Owns(b, player, Row(r));
    }
  }

  /** Nobody wins on a board where every square is available. */
  lemma NoWinWithoutMarks(b: Board, player: Player)
    requires forall r: Index, c: Index :: IsAvailable(b, r, c)
    ensures !CheckWin(b, player)
  {
    assert IsAvailable(b, 0, 0) && IsAvailable(b, 1, 1) && IsAvailable(b, 0, 2);
    assert IsAvailable(b, 1, 0) && IsAvailable(b, 1, 2);
    assert IsAvailable(b, 0, 1) && IsAvailable(b, 2, 1);
    assert IsAvailable(b, 2, 0) && IsAvailable(b, 2, 2);
  }

  /** A mark by one player can never complete a line for another code. */
  lemma MarkHelpsOnlyMarker(b: Board, row: Index, col: Index, player: Code, other: Code)
    requires other != player
    ensures CheckWin(Mark(b, row, col, player), other) ==> CheckWin(b, other)
  {
  }
}
