# Tic-tac-toe controller, modelled in Dafny

This project models the game logic of `TicTacToe`, the Swing controller of a two-player tic-tac-toe
game. The controller holds four things:

- the player to move;
- the outcome: in progress, won by X or O, or a tie;
- the number of free squares;
- the 3x3 board of buttons, where each button shows a mark and can be enabled or disabled.

A click on an enabled button is a move. A move writes the player's mark on the button and disables it.
It then uses up one free square and runs the win check `haveWinner`. After the check, the game is either
over (a win or a tie) and the board is disabled, or the turn passes to the other player. The Reset
menu item clears the board and restarts the game with X to move.

The project has two modules.

- `Board` (`board.dfy`) holds the rules as pure values:
  - the grid is kept row by row in a sequence of nine cells; square (row, col) is at `Idx(row, col) = 3*row + col`;
  - `Count` counts the cells that hold a given mark;
  - `LineAt` lists the eight lines;
  - `HaveWinner` mirrors the source's win check. This includes the early exit while more than four
    squares are free, and the text-against-text comparisons.

  Its lemmas prove four things. The early exit never hides a win while the players take turns. The
  comparisons succeed exactly when the player who just moved owns a line through the clicked square.
  Under the invariant, that is exactly when the player owns a line anywhere on the board. The check
  gives the same answer when the board is turned or mirrored (any of its eight symmetries) and when the
  two players' marks are exchanged.
- `Game` (`game.dfy`) holds the controller.
  - First, as values:
    - `State` is everything the controller holds;
    - `Initial` is the state of a new or reset game;
    - `Click` is the effect of a click;
    - `Inv` is the invariant of every reachable state;
    - `StatusText` is the status line.
  - Then the class `TicTacToe` holds the same state in fields and two nine-element arrays, one for the
    buttons' marks (`board`) and one for their enabled flags (`enabled`).
  - Its methods `Reset`, `ClearBoard` and `Move` are the source's `reset`, `clearBoard` and the button
    branch of `actionPerformed`. They use the same nested loops, the same early return, and the same
    branches, including the status text set inside each branch.
  - `Reset` is proved to reach the `Initial` state and establish `Valid()` from any prior state.
  - `Move` is proved to reach exactly the state `Click` gives and to keep `Valid()`.
  - `ClearBoard` is proved to leave the enabled flags unchanged when no square is free, and to disable
    all nine otherwise.

The source's string constants become datatypes:

- `PLAYER_X` and `PLAYER_O` become `Player`;
- a button's text becomes `Cell`, with `EMPTY` as `Empty`;
- `winner` becomes `Outcome`, with `EMPTY` as `InProgress` and `TIE` as `Tie`.

The source compares these strings by reference (`player == PLAYER_X`, `winner != EMPTY`) and compares
button texts with `equals`. Both become datatype equality.

## Model

| member | source | states |
|---|---|---|
| Board.Other | TicTacToe.java:236-244 | passing the turn always gives the other player, never the same one |
| Board.CountUpdate | TicTacToe.java:203-214 | writing a mark into one cell changes each count by exactly that cell's old and new content, so the free count drops by one when an empty cell is filled |
| Board.BlankGrid | TicTacToe.java:64-75 | a board of nine blank squares has nine free squares, is a board on which X moves next, and holds no line |
| Board.LineNeedsThree | TicTacToe.java:145-148 | a player who owns a line has at least three marks on the board |
| Board.ShortcutSound | TicTacToe.java:145-148 | while more than four squares are free and the players have taken turns, neither player owns a line, so returning false early never hides a win |
| Board.LinesThrough | TicTacToe.java:162-178 | a line through square (row, col) is its row, its column, the main diagonal only when row == col, or the anti-diagonal only when row == 2 - col |
| Board.HaveWinner | TicTacToe.java:143-181 | no contract of its own: it mirrors the code's win check (false while more than four squares are free, then the row, column and diagonal text comparisons); what it computes is stated by HaveWinnerLocal and HaveWinnerSound |
| Board.HaveWinnerFinds | TicTacToe.java:162-181 | each comparison of the win check that succeeds is a whole line of the player who filled the square, through that square |
| Board.HaveWinnerSees | TicTacToe.java:162-181 | with at most four squares free, every whole line through the filled square makes the win check answer true |
| Board.HaveWinnerLocal | TicTacToe.java:143-181 | with at most four squares free, the win check is true exactly when the mover owns a line through the square just filled |
| Board.HaveWinnerSound | TicTacToe.java:143-181 | filling a free square for the player to move on a board without lines: the check (early exit included) is true exactly when that player now owns a line anywhere, the other player owns none, and the turns still alternate |
| Board.RotSym | TicTacToe.java:162-181 | the win check on a board turned a quarter turn, at the square the clicked one moves to, answers as on the original board |
| Board.TransposeSym | TicTacToe.java:162-181 | the win check on a board mirrored in its main diagonal, at the mirrored square, answers as on the original; with the quarter turn this gives all eight symmetries of the board |
| Board.RelabelSym | TicTacToe.java:162-181 | exchanging X and O on the board leaves the win check's answer unchanged, and turns each line of one player into a line of the other |
| Board.RelabelTwice | TicTacToe.java:237-243 | exchanging the players' marks on every square twice gives the same board back, so the exchange used by RelabelSym loses nothing |
| Game.StatusText | TicTacToe.java:225-243 | no contract of its own: it gives the five status strings of the code (also the reset text at line 71); StatusTextIdentifies states that they tell the outcomes and the player to move apart |
| Game.StatusTextIdentifies | TicTacToe.java:225-243 | the status line tells a tie and each player's win apart, and while the game goes on it names the player to move |
| Game.Initial | TicTacToe.java:51-57 | no contract of its own: it is the state the constructor with setGUI (lines 104-113) and reset (lines 62-76) leave, namely nine blank enabled squares, X to move, nine free, in progress, "Currently X's turn"; InitialInv states that it satisfies the invariant |
| Game.InitialInv | TicTacToe.java:51-57 | a new game (nine blank enabled squares, X to move, nine free, in progress, "Currently X's turn") satisfies the invariant |
| Game.Click | TicTacToe.java:201-245 | no contract of its own: it mirrors the button branch of actionPerformed on values (mark, disable, decrement, win check, then outcome, board disabling, turn and status); ClickMarks, ClickOutcome and ClickInv state what it computes |
| Game.ClickMarks | TicTacToe.java:201-214 | a click writes the player's mark into exactly the clicked square, disables it and uses up one free square; every other mark stays, and every other button stays enabled exactly when it was and the game goes on |
| Game.ClickOutcome | TicTacToe.java:216-245 | a click that completes a line wins for the clicking player, who keeps the turn; otherwise a full board is a tie; otherwise the game goes on and the turn passes; the status line shows the result |
| Game.ClickInv | TicTacToe.java:122-133 | every click keeps the invariant (free count = blank squares; enabled exactly when blank and in progress; alternation; outcome agrees with the lines), and after a win or tie no button is enabled, including when the board is full and clearBoard returns early |
| Game.TicTacToe.constructor | TicTacToe.java:51-57 | the new controller is in the initial state and satisfies the invariant |
| Game.TicTacToe.Reset | TicTacToe.java:62-76 | from any prior state, every square becomes blank and enabled, X is to move, nine squares are free, the game is in progress, and the invariant holds |
| Game.TicTacToe.ClearBoard | TicTacToe.java:122-133 | with no free square it changes nothing; otherwise it disables all nine buttons and leaves the marks alone |
| Game.TicTacToe.Move | TicTacToe.java:201-245 | a click on an enabled button leaves the controller in exactly the state `Click` gives (mark, disabled button, free count, outcome, turn and status line), and keeps the invariant |

## Left out

- The window, menu bar, panel and layout built in `setGUI` (TicTacToe.java:81-117) are left out; they are presentation only. The constructor models just the state `setGUI` leaves behind: blank, enabled buttons and the status "Currently X's turn".
- The icons set on buttons (TicTacToe.java:67, 204-211) are left out; they have no effect on the game.
- The menu dispatch and `System.exit` (TicTacToe.java:192-199) are left out. The reset branch is modelled by `Reset` itself.
- Finding the clicked button from the event source (TicTacToe.java:153-160, 201) is left out. `Move` takes the square's row and column directly.
- The Swing event-dispatch thread is left out; the model is sequential.
- The 3x3 array of `JButton` becomes two nine-element arrays in row order: one for the buttons' texts and one for their enabled flags. Both are `const` fields, since the source never replaces its button array.
- The status `JLabel` becomes the string field `gameProcess`.
- Game.TicTacToe.Move: the precondition is that the clicked button is enabled and the object satisfies `Valid()`. Swing delivers clicks only to enabled buttons, so this stands for the source's only guard. The source has no error path for clicking an occupied square or clicking after the game is over, so no such error is modelled.
