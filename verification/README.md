# Tic-Tac-Toe game engine in Dafny

This project models the game logic of a two-player, mouse-driven Tic-Tac-Toe
game written in Python with pygame (`src/main.py`). Only the logic is
modelled. Drawing, the window and the event loop are left out.

- `boards.dfy`, module `Boards`, models the `Board` class. It is a 3x3 grid
  of cell codes (`EMPTY = 0`, `PLAYER_X = 1`, `PLAYER_O = 2`) plus the
  counter `marked_squares`. It covers marking a square, the availability,
  full and empty queries, the row-major list of empty squares, and the
  8-line win test. The counter is stored, not derived, as in the source.
  `Consistent` states that it agrees with the grid. The lemmas show that
  marking available squares keeps it so.
- `games.dfy`, module `Games`, models `Game.make_move` and `Game.restart`
  without their drawing calls. It also models the click and `r`-key
  branches of the main loop as pure transitions: `Click`, `Step`, and `Run`
  over a sequence of events. `Invariant` holds in every state the game can
  reach. It says four things:
  - the counter matches the grid;
  - X is to move exactly when an even number of squares is marked;
  - the player to move never owns a line;
  - the game is over exactly when the last mover owns a line or the board
    is full.

Turn switching uses the source's arithmetic `(p % 2) + 1`. As in the
source, the turn also passes after a winning move. So in a finished game
the winner is the player who is *not* to move (`Games.WinnerMovedLast`).

The code keeps only a `game_over` flag, and `make_move` toggles the player
after every move, a winning one included (`src/main.py:248-256`). Clicks on
a taken square are skipped silently (`src/main.py:344`), and so are they by
`Games.Click`.

## Model

| member | source | states |
|---|---|---|
| `Boards.NewBoard` | src/main.py:86-94 | a new board has every square EMPTY and a counter of 0 |
| `Boards.NewBoardEmpty` | src/main.py:86-114 | a new board is consistent and empty, is not full, and has all nine squares available |
| `Boards.Mark` | src/main.py:96-101 | `mark_square` puts the player's code in exactly square (row, col), leaves the other eight squares unchanged, and raises the counter by one, whatever the square held before |
| `Boards.MarkFilled` | src/main.py:96-101 | marking an available square with a player's code adds exactly one non-EMPTY square, and only at the marked square's row-major position |
| `Boards.MarkKeepsConsistent` | src/main.py:94-101 | if only available squares are marked, and only with player codes, the counter keeps equal to the number of non-EMPTY squares and stays at most 9 |
| `Boards.IsAvailable` | src/main.py:103-106 | `is_square_available` holds exactly when neither X nor O has marked the square |
| `Boards.IsFull` | src/main.py:108-110 | `is_board_full` reads the counter; with a consistent counter it holds exactly when no square is available |
| `Boards.IsEmpty` | src/main.py:112-114 | `is_board_empty` reads the counter; with a consistent counter it holds exactly when every square is available |
| `Boards.FilledNone` | src/main.py:112-114 | no square in a row-major prefix is filled exactly when every square in it is available |
| `Boards.FilledAll` | src/main.py:108-110 | every square in a row-major prefix is filled exactly when none in it is available |
| `Boards.CountedSquares` | src/main.py:94-114 | with a consistent counter, the counter lies in 0..9; it is 9 exactly when no square is available and 0 exactly when every square is available |
| `Boards.EmptyPrefix` | src/main.py:116-127 | the squares the row/column walk has listed so far, plus the filled squares it has passed, add up to the number of squares visited |
| `Boards.EmptyPrefixSound` | src/main.py:116-127 | every square the walk lists comes before the current position and is available; the list is in strictly increasing row-major order |
| `Boards.EmptyPrefixComplete` | src/main.py:116-127 | every available square before the current position is in the walk's list |
| `Boards.EmptySquares` | src/main.py:116-127 | the length of `get_empty_squares` is nine minus the number of filled squares |
| `Boards.EmptySquaresExact` | src/main.py:103-127 | `get_empty_squares` lists exactly the available squares, each once, in row-major order; with a consistent counter it has `9 - marked_squares` entries |
| `Boards.CheckWin` | src/main.py:129-159 | `check_win(p)` holds iff `p` occupies all three squares of one of the 8 lines (3 rows, 3 columns, 2 diagonals) |
| `Boards.LineTests` | src/main.py:129-159 | each column, row and diagonal test of `check_win` passes exactly when the player occupies that line's three squares, and the eight lines are all the lines there are |
| `Boards.NoWinWithoutMarks` | src/main.py:129-159 | on a board where every square is available, neither player wins |
| `Boards.MarkHelpsOnlyMarker` | src/main.py:96-159 | a mark by one player never completes a line for any other code |
| `Games.Toggle` | src/main.py:252-256 | the toggle `(p % 2) + 1` always yields the other player |
| `Games.ToggleSwaps` | src/main.py:252-256 | the toggle maps X to O and O to X; applied twice it gives back the original player |
| `Games.NewGame` | src/main.py:170-181 | the game starts with X to move, `game_over` false, and an empty board with every square available |
| `Games.Restart` | src/main.py:258-270 | restart, from any state, gives a consistent empty board with all squares available, X to move and `game_over` false |
| `Games.MakeMove` | src/main.py:238-256 | `make_move` marks only the chosen square with the mover's code and adds one to the counter; the turn passes even after a win; `game_over` becomes set iff it was set or the mover now owns a line |
| `Games.PixelToSquare` | src/main.py:335-341 | the chosen square's pixel box, 200 pixels (`SQUARE_SIZE`) on a side, contains the clicked pixel; so each coordinate in 0..599 maps to an index in 0..2 |
| `Games.Click` | src/main.py:326-351 | a click changes nothing once the game is over or on a taken square; otherwise the mover marks the square, the turn toggles, and the game ends iff the mover owns a line or the board is now full |
| `Games.Step` | src/main.py:309-351 | the `r` key restarts the game, other keys do nothing, and a mouse click acts as `Click` |
| `Games.Run` | src/main.py:291-351 | handling events in order: a final `r` key leaves a new game, and a run of keys other than `r` leaves the state unchanged |
| `Games.NewGameInvariant` | src/main.py:170-181 | the starting state satisfies the game invariant |
| `Games.ClickPreservesInvariant` | src/main.py:326-351 | every click preserves the game invariant: counter consistency, turn parity, no line for the player to move, and `game_over` set iff the last mover owns a line or the board is full |
| `Games.StepPreservesInvariant` | src/main.py:309-351 | every key or click event preserves the game invariant |
| `Games.RunPreservesInvariant` | src/main.py:291-351 | every sequence of events preserves the game invariant |
| `Games.ReachableCounter` | src/main.py:94-110 | in every state reached from the start, the counter equals the number of non-EMPTY squares and lies in 0..9, and X is to move exactly when that number is even, so turns alternate X, O, X, ... |
| `Games.GameOverIsAbsorbing` | src/main.py:326-331 | once `game_over` is set, any sequence of events without the `r` key leaves the whole state unchanged |
| `Games.WinnerMovedLast` | src/main.py:247-256 | in any state that satisfies the game invariant (every reachable state does), a player who owns a line ended the game and is not the player to move |
| `Games.AtMostOneWinner` | src/main.py:247-256 | in any state that satisfies the game invariant (every reachable state does), X and O never both own a line |
| `Games.DrawMeansFull` | src/main.py:348-350 | in any state that satisfies the game invariant (every reachable state does), a finished game without a winner has a full board, and a full board means the game is over |
| `Games.OpenGameHasMove` | src/main.py:344-350 | in any state that satisfies the game invariant and where the game is not over, some square is still available |
| `Games.TopRowWin` | src/main.py:326-351 | clicks X(0,0), O(1,1), X(0,1), O(2,2), X(0,2) end the game with X owning the top row, O owning no line, and the board not full |
| `Games.FullBoardDraw` | src/main.py:326-351 | nine clicks giving X O X / X O O / O X X end the game on a full board where neither player owns a line |

## Left out

- Drawing: the grid lines, the X and O figures, colours, line widths and padding, `screen.fill` and `pygame.display.update` (src/main.py:33-52, 63-74, 185-236). They have no effect on the game state.
- The event loop and its plumbing: `pygame.event.get`, the window-close event (`pygame.quit`/`sys.exit`) and the `print` calls (src/main.py:291-305, 260, 351). `Run` replaces the loop with a sequence of key and click events.
- The unused `gamemode` field and the commented-out AI code (src/main.py:161-162, 175-179, 315-322, 353-356). No behaviour depends on them.
- Clicks outside the window. The windowing library only reports coordinates in 0..599, so `Click` and `PixelToSquare` take that as a precondition.
- Out-of-range row/column indices, including Python's negative indices. Indices are the subset type `Index` (0..2): every caller passes indices in 0..2, either pixels divided by `SQUARE_SIZE` (src/main.py:340-341) or values of `range(3)` (src/main.py:120-121).
- Boards.EmptySquares: the source builds the list with two nested `for` loops. The model is a recursive function over the nine row-major positions, built in the same order. A recursive definition states the row-major order directly.
- Boards.CheckWin: the source returns early from its loops. The model is the same eight tests as one disjunction in the same order, which gives the same result because the tests have no side effects.
- Square contents hold only the codes 0, 1 and 2 (subset type `Code`). In Python a square can hold any value, but the game only ever stores these three.
