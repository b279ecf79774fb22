/** The game state machine of the two-player Tic-Tac-Toe game: whose turn it
    is, whether the game is over, and the transitions driven by mouse clicks
    and the restart key. Drawing is not part of the state. */
module Games {
  import opened Boards

  /** Window size in pixels; each square is a third of the width. */
  const WIDTH := 600
  const HEIGHT := 600
  const SQUARE_SIZE := WIDTH / BOARD_COLS

  datatype Game = Game(board: Board, currentPlayer: Player, gameOver: bool)

  /** The turn toggle, with the game's arithmetic on player codes. */
  function Toggle(p: Player): (q: Player)
    ensures q != p
  {
    (p % 2) + 1
  }

  /** The toggle swaps X and O and undoes itself. */
  lemma ToggleSwaps(p: Player)
    ensures Toggle(PLAYER_X) == PLAYER_O && Toggle(PLAYER_O) == PLAYER_X
    ensures Toggle(Toggle(p)) == p
  {
  }

  /** The state the game starts in, and the one restart returns to. */
  function NewGame(): (g: Game)
    ensures g.currentPlayer == PLAYER_X && !g.gameOver
    ensures g.board.markedSquares == 0
    ensures forall r: Index, c: Index :: IsAvailable(g.board, r, c)
  {
    Game(NewBoard(), PLAYER_X, false)
  }

  /** Restart throws the board away whatever state the game was in. */
  function Restart(g: Game): (g': Game)
    ensures Consistent(g'.board) && IsEmpty(g'.board)
    ensures forall r: Index, c: Index :: IsAvailable(g'.board, r, c)
    ensures g'.currentPlayer == PLAYER_X && !g'.gameOver
  {
    NewBoardEmpty();
    NewGame()
  }

  /** A move for the current player onto an available square: the board is
      marked, the game ends if the mover now owns a line, and the turn passes
      to the other player in every case, a winning move included. */
  function MakeMove(g: Game, row: Index, col: Index): (g': Game)
    requires IsAvailable(g.board, row, col)
    ensures At(g'.board, row, col) == g.currentPlayer
    ensures forall r: Index, c: Index :: (r, c) != (row, col) ==> At(g'.board, r, c) == At(g.board, r, c)
    ensures g'.board.markedSquares == g.board.markedSquares + 1
    ensures g'.currentPlayer != g.currentPlayer
    ensures g'.gameOver <==> g.gameOver || CheckWin(g'.board, g.currentPlayer)
  {
    var board := Mark(g.board, row, col, g.currentPlayer);
    var over := if CheckWin(board, g.currentPlayer) then true else g.gameOver;
    Game(board, Toggle(g.currentPlayer), over)
  }

  /** The square under a pixel of the window, by floor division. */
  function PixelToSquare(x: int, y: int): (sq: Square)
    requires 0 <= x < WIDTH && 0 <= y < HEIGHT
    ensures sq.0 * SQUARE_SIZE <= y < (sq.0 + 1) * SQUARE_SIZE
    ensures sq.1 * SQUARE_SIZE <= x < (sq.1 + 1) * SQUARE_SIZE
  {
    (y / SQUARE_SIZE, x / SQUARE_SIZE)
  }

  /** A mouse click at pixel (x, y). Once the game is over, or on a square
      already taken, nothing happens. Otherwise the current player moves
      there, and a move that fills the board without a win ends the game as
      a draw. */
  function Click(g: Game, x: int, y: int): (g': Game)
    requires 0 <= x < WIDTH && 0 <= y < HEIGHT
    ensures g.gameOver ==> g' == g
    ensures !IsAvailable(g.board, PixelToSquare(x, y).0, PixelToSquare(x, y).1) ==> g' == g
    ensures !g.gameOver && IsAvailable(g.board, PixelToSquare(x, y).0, PixelToSquare(x, y).1) ==>
              && g'.board == Mark(g.board, PixelToSquare(x, y).0, PixelToSquare(x, y).1, g.currentPlayer)
              && g'.currentPlayer == Toggle(g.currentPlayer)
              && (g'.gameOver <==> CheckWin(g'.board, g.currentPlayer) || IsFull(g'.board))
  {
    if g.gameOver then g
    else
      var sq := PixelToSquare(x, y);
      if !IsAvailable(g.board, sq.0, sq.1) then g
      else
        var moved := MakeMove(g, sq.0, sq.1);
        if !moved.gameOver && IsFull(moved.board) then moved.(gameOver := true) else moved
  }

  /** The events the game reacts to. The window-close event ends the
      program and is not part of the state machine. */
  datatype Key = KeyR | OtherKey
  datatype Event = MouseDown(x: int, y: int) | KeyDown(key: Key)

  /** Clicks always land inside the window. */
  predicate InWindow(e: Event)
  {
    e.MouseDown? ==> 0 <= e.x < WIDTH && 0 <= e.y < HEIGHT
  }

  function Step(g: Game, e: Event): (g': Game)
    requires InWindow(e)
    ensures e == KeyDown(KeyR) ==> g' == NewGame()
    ensures e == KeyDown(OtherKey) ==> g' == g
    ensures e.MouseDown? ==> g' == Click(g, e.x, e.y)
  {
    match e
    case KeyDown(KeyR) => Restart(g)
    case KeyDown(OtherKey) => g
    case MouseDown(x, y) => Click(g, x, y)
  }

  /** The state after handling a sequence of events in order: the `r` key as
      the last event leaves a new game, and keys other than `r` alone leave
      the state as it was. */
  function Run(g: Game, events: seq<Event>): (r: Game)
    requires forall i :: 0 <= i < |events| ==> InWindow(events[i])
    ensures |events| > 0 && events[|events| - 1] == KeyDown(KeyR) ==> r == NewGame()
    ensures (forall i :: 0 <= i < |events| ==> events[i] == KeyDown(OtherKey)) ==> r == g
    decreases |events|
  {
    if |events| == 0 then g else Run(Step(g, events[0]), events[1..])
  }

  // ---------------------------------------------------------------------
  // The invariant of every state the game can reach

  /** The counter agrees with the board; X moves when an even number of
      squares is marked; the player to move never owns a line; and the game
      is over exactly when the player who moved last owns a line or the
      board is full. */
  predicate Invariant(g: Game)
  {
    && Consistent(g.board)
    && g.currentPlayer == (if g.board.markedSquares % 2 == 0 then PLAYER_X else PLAYER_O)
    && !CheckWin(g.board, g.currentPlayer)
    && (g.gameOver <==> CheckWin(g.board, Toggle(g.currentPlayer)) || IsFull(g.board))
  }

  lemma NewGameInvariant()
    ensures Invariant(NewGame())
  {
  }

  lemma ClickPreservesInvariant(g: Game, x: int, y: int)
    requires 0 <= x < WIDTH && 0 <= y < HEIGHT
    requires Invariant(g)
    ensures Invariant(Click(g, x, y))
  {
    var sq := PixelToSquare(x, y);
    if !g.gameOver && IsAvailable(g.board, sq.0, sq.1) {
      var p := g.currentPlayer;
      var board := Mark(g.board, sq.0, sq.1, p);
      MarkKeepsConsistent(g.board, sq.0, sq.1, p);
      MarkHelpsOnlyMarker(g.board, sq.0, sq.1, p, Toggle(p));
      ToggleSwaps(p);
    }
  }

  lemma StepPreservesInvariant(g: Game, e: Event)
    requires InWindow(e)
    requires Invariant(g)
    ensures Invariant(Step(g, e))
  {
    match e
    case KeyDown(KeyR) => NewGameInvariant();
    case KeyDown(OtherKey) =>
    case MouseDown(x, y) => ClickPreservesInvariant(g, x, y);
  }

  /** Every state reached from an invariant state satisfies the invariant,
      in particular every state reached from the start of a game. */
  lemma {:induction false} RunPreservesInvariant(g: Game, events: seq<Event>)
    requires forall i :: 0 <= i < |events| ==> InWindow(events[i])
    requires Invariant(g)
    ensures Invariant(Run(g, events))
    decreases |events|
  {
    if |events| > 0 {
      StepPreservesInvariant(g, events[0]);
      RunPreservesInvariant(Step(g, events[0]), events[1..]);
    }
  }

  /** In a reachable state the counter lies in 0 .. 9 and matches the grid,
      and X is to move exactly when an even number of squares is marked. */
  lemma ReachableCounter(events: seq<Event>)
    requires forall i :: 0 <= i < |events| ==> InWindow(events[i])
    ensures Consistent(Run(NewGame(), events).board)
    ensures 0 <= Run(NewGame(), events).board.markedSquares <= 9
    ensures Run(NewGame(), events).currentPlayer == PLAYER_X <==> Run(NewGame(), events).board.markedSquares % 2 == 0
  {
    NewGameInvariant();
    RunPreservesInvariant(NewGame(), events);
    CountedSquares(Run(NewGame(), events).board);
  }

  /** Once the game is over, nothing but the restart key changes it. */
  lemma {:induction false} GameOverIsAbsorbing(g: Game, events: seq<Event>)
    requires forall i :: 0 <= i < |events| ==> InWindow(events[i])
    requires g.gameOver
    requires forall i :: 0 <= i < |events| ==> events[i] != KeyDown(KeyR)
    ensures Run(g, events) == g
    decreases |events|
  {
    if |events| > 0 {
      assert Step(g, events[0]) == g;
      GameOverIsAbsorbing(g, events[1..]);
    }
  }

  /** In a reachable state a line can only belong to the player who moved
      last, and then the game is over: the toggle after a winning move makes
      the winner the player who is NOT to move. */
  lemma WinnerMovedLast(g: Game, p: Player)
    requires Invariant(g)
    requires CheckWin(g.board, p)
    ensures g.gameOver && p == Toggle(g.currentPlayer)
  {
  }

  /** At most one player owns a line. */
  lemma AtMostOneWinner(g: Game)
    requires Invariant(g)
    ensures !(CheckWin(g.board, PLAYER_X) && CheckWin(g.board, PLAYER_O))
  {
  }

  /** A finished game without a winner is a draw on a full board, and a full
      board always means the game is over. */
  lemma DrawMeansFull(g: Game)
    requires Invariant(g)
    ensures g.gameOver && !CheckWin(g.board, PLAYER_X) && !CheckWin(g.board, PLAYER_O) ==> IsFull(g.board)
    ensures IsFull(g.board) ==> g.gameOver
  {
  }

  /** A game that is not over always has an available square to click. */
  lemma OpenGameHasMove(g: Game)
    requires Invariant(g)
    requires !g.gameOver
    ensures exists r: Index, c: Index :: IsAvailable(g.board, r, c)
  {
    CountedSquares(g.board);
  }

  // ---------------------------------------------------------------------
  // Two complete games, clicking the centre pixel of each square

  /** X takes the top row while O answers in the centre and a corner. */
  lemma TopRowWin()
    ensures var g := Click(Click(Click(Click(Click(NewGame(), 100, 100), 300, 300), 300, 100), 500, 500), 500, 100);
            g.gameOver && CheckWin(g.board, PLAYER_X) && !CheckWin(g.board, PLAYER_O) && !IsFull(g.board)
  {
    NewGameShows();
    TopRowOpening(NewGame());
    var g3 := Click(Click(Click(NewGame(), 100, 100), 300, 300), 300, 100);
    TopRowFinish(g3);
    TopRowPosition(Click(Click(g3, 500, 500), 500, 100));
  }

  lemma TopRowPosition(g: Game)
    requires Shows(g, [[1, 1, 1], [0, 2, 0], [0, 0, 2]], 5, PLAYER_O, true)
    ensures g.gameOver && CheckWin(g.board, PLAYER_X) && !CheckWin(g.board, PLAYER_O) && !IsFull(g.board)
  {
    assert At(g.board, 0, 0) == 1 && At(g.board, 0, 1) == 1 && At(g.board, 0, 2) == 1;
    assert At(g.board, 1, 0) == 0 && At(g.board, 1, 1) == 2 && At(g.board, 1, 2) == 0;
    assert At(g.board, 2, 0) == 0 && At(g.board, 2, 1) == 0 && At(g.board, 2, 2) == 2;
  }

  lemma TopRowOpening(g: Game)
    requires Shows(g, [[0, 0, 0], [0, 0, 0], [0, 0, 0]], 0, PLAYER_X, false)
    ensures Shows(Click(Click(Click(g, 100, 100), 300, 300), 300, 100),
                  [[1, 1, 0], [0, 2, 0], [0, 0, 0]], 3, PLAYER_O, false)
  {
    assert PixelToSquare(100, 100) == (0, 0) && PixelToSquare(300, 300) == (1, 1);
    assert PixelToSquare(300, 100) == (0, 1);
    var g1 := Click(g, 100, 100);
    assert At(g1.board, 0, 0) == 1 && !g1.gameOver;
    var g2 := Click(g1, 300, 300);
    assert At(g2.board, 1, 1) == 2 && !g2.gameOver;
  }

  lemma TopRowFinish(g: Game)
    requires Shows(g, [[1, 1, 0], [0, 2, 0], [0, 0, 0]], 3, PLAYER_O, false)
    ensures Shows(Click(Click(g, 500, 500), 500, 100), [[1, 1, 1], [0, 2, 0], [0, 0, 2]], 5, PLAYER_O, true)
  {
    assert PixelToSquare(500, 500) == (2, 2) && PixelToSquare(500, 100) == (0, 2);
    var g1 := Click(g, 500, 500);
    assert At(g1.board, 2, 2) == 2 && !g1.gameOver;
  }

  /** Each scenario is split into stages of at most three clicks, linked by
      `Shows`, so that every stage stays a small proof. */
  lemma NewGameShows()
    ensures Shows(NewGame(), [[0, 0, 0], [0, 0, 0], [0, 0, 0]], 0, PLAYER_X, false)
  {
  }

  /** Game `g` shows the given grid, counter, player to move and flag. */
  predicate Shows(g: Game, cells: Grid, marked: nat, player: Player, over: bool)
  {
    && (forall r: Index, c: Index :: At(g.board, r, c) == cells[r][c])
    && g.board.markedSquares == marked && g.currentPlayer == player && g.gameOver == over
  }

  lemma DrawOpening(g: Game)
    requires Shows(g, [[0, 0, 0], [0, 0, 0], [0, 0, 0]], 0, PLAYER_X, false)
    ensures Shows(Click(Click(Click(g, 100, 100), 300, 100), 500, 100),
                  [[1, 2, 1], [0, 0, 0], [0, 0, 0]], 3, PLAYER_O, false)
  {
    assert PixelToSquare(100, 100) == (0, 0) && PixelToSquare(300, 100) == (0, 1);
    assert PixelToSquare(500, 100) == (0, 2);
    var g1 := Click(g, 100, 100);
    assert At(g1.board, 0, 0) == 1 && !g1.gameOver;
    var g2 := Click(g1, 300, 100);
    assert At(g2.board, 0, 1) == 2 && !g2.gameOver;
  }

  lemma DrawMiddle(g: Game)
    requires Shows(g, [[1, 2, 1], [0, 0, 0], [0, 0, 0]], 3, PLAYER_O, false)
    ensures Shows(Click(Click(Click(g, 300, 300), 300, 500), 500, 300),
                  [[1, 2, 1], [0, 2, 2], [0, 1, 0]], 6, PLAYER_X, false)
  {
    assert PixelToSquare(300, 300) == (1, 1) && PixelToSquare(300, 500) == (2, 1);
    assert PixelToSquare(500, 300) == (1, 2);
    var g1 := Click(g, 300, 300);
    assert At(g1.board, 1, 1) == 2 && !g1.gameOver;
    var g2 := Click(g1, 300, 500);
    assert At(g2.board, 2, 1) == 1 && !g2.gameOver;
  }

  lemma DrawEnding(g: Game)
    requires Shows(g, [[1, 2, 1], [0, 2, 2], [0, 1, 0]], 6, PLAYER_X, false)
    ensures Shows(Click(Click(Click(g, 100, 300), 100, 500), 500, 500),
                  [[1, 2, 1], [1, 2, 2], [2, 1, 1]], 9, PLAYER_O, true)
  {
    assert PixelToSquare(100, 300) == (1, 0) && PixelToSquare(100, 500) == (2, 0);
    assert PixelToSquare(500, 500) == (2, 2);
    var g1 := Click(g, 100, 300);
    assert At(g1.board, 1, 0) == 1 && !g1.gameOver;
    var g2 := Click(g1, 100, 500);
    assert At(g2.board, 2, 0) == 2 && !g2.gameOver;
  }

  /** Nine moves in which neither player completes a line end in a draw:
        X O X
        X O O
        O X X   */
  lemma FullBoardDraw()
    ensures var g := Click(Click(Click(Click(Click(Click(Click(Click(Click(NewGame(),
                       100, 100), 300, 100), 500, 100), 300, 300), 300, 500), 500, 300), 100, 300), 100, 500), 500, 500);
            g.gameOver && IsFull(g.board) && !CheckWin(g.board, PLAYER_X) && !CheckWin(g.board, PLAYER_O)
  {
    NewGameShows();
    DrawOpening(NewGame());
    var g3 := Click(Click(Click(NewGame(), 100, 100), 300, 100), 500, 100);
    DrawMiddle(g3);
    var g6 := Click(Click(Click(g3, 300, 300), 300, 500), 500, 300);
    DrawEnding(g6);
    DrawnPosition(Click(Click(Click(g6, 100, 300), 100, 500), 500, 500));
  }

  lemma DrawnPosition(g: Game)
    requires Shows(g, [[1, 2, 1], [1, 2, 2], [2, 1, 1]], 9, PLAYER_O, true)
    ensures g.gameOver && IsFull(g.board) && !CheckWin(g.board, PLAYER_X) && !CheckWin(g.board, PLAYER_O)
  {
    assert At(g.board, 0, 0) == 1 && At(g.board, 0, 1) == 2 && At(g.board, 0, 2) == 1;
    assert At(g.board, 1, 0) == 1 && At(g.board, 1, 1) == 2 && At(g.board, 1, 2) == 2;
    assert At(g.board, 2, 0) == 2 && At(g.board, 2, 1) == 1 && At(g.board, 2, 2) == 1;
  }
}
