/** The game controller: the 3x3 board of buttons, whose turn it is, how many
    squares are free, who has won, and the status line under the board. A click
    on an enabled button is a move; the menu can reset the game.

    The rules are first stated on values (`State`, `Click`, `Inv`) and proved
    there; the class `TicTacToe` then holds the same state in fields and two
    arrays (the buttons' marks and their enabled flags), and each of its methods
    is proved to act as the rules say. */
module Game {
  import opened Board

  /** The state of play: still going, won by a player, or a tie. */
  datatype Outcome = InProgress | Win(p: Player) | Tie

  /** The status line shown under the board. */
  function StatusText(winner: Outcome, player: Player): string
  {
    match winner
    case Tie => "Game Over! Tie game!"
    case Win(X) => "Game Over! Player X wins!"
    case Win(O) => "Game Over! Player O wins!"
    case InProgress => if player == X then "Currently X's turn" else "Currently O's turn"
  }

  /** The status line tells the outcomes apart, and while the game goes on it
      names the player to move. */
  lemma StatusTextIdentifies(w1: Outcome, p1: Player, w2: Outcome, p2: Player)
    requires StatusText(w1, p1) == StatusText(w2, p2)
    ensures w1 == w2
    ensures w1 == InProgress ==> p1 == p2
  {
    var s1, s2 := StatusText(w1, p1), StatusText(w2, p2);
    assert s1[9] == s2[9];
    if s1[9] == '!' {
      assert s1[11] == s2[11] && s1[18] == s2[18];
    } else {
      assert s1[10] == s2[10];
    }
  }

  /** Everything the controller holds, as a value: the marks and enabled flags
      of the nine buttons row by row, the player to move, the outcome, the
      number of free squares and the status line. */
  datatype State = State(
    marks: seq<Cell>,
    enabled: seq<bool>,
    player: Player,
    winner: Outcome,
    free: int,
    status: string)

  /** The state of a new or reset game. */
  function Initial(): State
  {
    State(seq(9, _ => Empty), seq(9, _ => true), X, InProgress, 9, "Currently X's turn")
  }

  /** The invariant of every reachable state: the free count matches the board,
      exactly the free squares of a game in progress take clicks, the players
      have taken turns starting with X, the outcome agrees with the lines on the
      board, and the status line shows the outcome. */
  predicate Inv(s: State)
  {
    |s.marks| == 9 && |s.enabled| == 9
    && s.free == Count(s.marks, Empty)
    && (forall k :: 0 <= k < 9 ==> (s.enabled[k] <==> s.marks[k] == Empty && s.winner == InProgress))
    && Alternating(s.marks, if s.winner == InProgress then s.player else Other(s.player))
    && (match s.winner
        case InProgress => s.free > 0 && !HasLine(s.marks, X) && !HasLine(s.marks, O)
        case Win(p) => p == s.player && HasLine(s.marks, p) && !HasLine(s.marks, Other(p))
        case Tie => s.free == 0 && !HasLine(s.marks, X) && !HasLine(s.marks, O))
    && s.status == StatusText(s.winner, s.player)
  }

  /** A new or reset game satisfies the invariant. */
  lemma InitialInv()
    ensures Inv(Initial())
  {
    BlankGrid(Initial().marks);
  }

  /** The flags of a board on which no button takes clicks. */
  function AllDisabled(): seq<bool>
  {
    seq(9, _ => false)
  }

  /** Only an enabled square can be clicked. */
  predicate Clickable(s: State, row: nat, col: nat)
  {
    row < 3 && col < 3 && Idx(row, col) < |s.enabled| && s.enabled[Idx(row, col)]
  }

  /** A click on square (row, col): write the player's mark and disable the
      button, one square fewer is free, run the win check; a win or a full board
      ends the game and disables the board (which is left alone when no square
      is free), otherwise the turn passes to the other player. */
  function Click(s: State, row: nat, col: nat): State
    requires |s.marks| == 9 && Clickable(s, row, col)
  {
    var i := Idx(row, col);
    var marks := s.marks[i := Mark(s.player)];
    var enabled := s.enabled[i := false];
    var free := s.free - 1;
    var winner :=
      if HaveWinner(marks, row, col, free) then Win(s.player)
      else if free == 0 then Tie
      else s.winner;
    if winner != InProgress then
      State(marks, if free == 0 then enabled else AllDisabled(),
            s.player, winner, free, StatusText(winner, s.player))
    else
      State(marks, enabled, Other(s.player), winner, free, StatusText(winner, Other(s.player)))
  }

  /** A click writes the current player's mark into exactly the clicked square,
      disables its button and uses up one free square; every other square keeps
      its mark, and keeps its button enabled exactly while the game goes on. */
  lemma ClickMarks(s: State, row: nat, col: nat)
    requires Inv(s) && Clickable(s, row, col)
    ensures var s' := Click(s, row, col);
      s'.marks == s.marks[Idx(row, col) := Mark(s.player)]
      && s'.free == s.free - 1
      && |s'.enabled| == 9 && !s'.enabled[Idx(row, col)]
      && forall k :: 0 <= k < 9 && k != Idx(row, col) ==>
           s'.enabled[k] == (s.enabled[k] && s'.winner == InProgress)
  {
    var i := Idx(row, col);
    var s' := Click(s, row, col);
    assert s'.marks == s.marks[i := Mark(s.player)];
    CountUpdate(s.marks, i, Mark(s.player), Empty);
    assert s'.free == Count(s'.marks, Empty);
    if s'.winner == InProgress {
      assert s'.enabled == s.enabled[i := false];
    } else if s'.free == 0 {
      assert s'.enabled == s.enabled[i := false];
      forall k | 0 <= k < 9 && k != i
        ensures !s.enabled[k]
      {
        if s.enabled[k] {
          assert s'.marks[k] == Empty;
          CountPositive(s'.marks, k, Empty);
        }
      }
    } else {
      assert s'.enabled == AllDisabled();
    }
  }

  /** The outcome of a click: the clicking player wins, keeping the turn, when
      the mark completes a line anywhere on the board; otherwise a board with
      no free square is a tie, again keeping the turn; otherwise the game goes
      on and the turn passes to the other player. */
  lemma ClickOutcome(s: State, row: nat, col: nat)
    requires Inv(s) && Clickable(s, row, col)
    ensures var s' := Click(s, row, col);
      s'.winner == (if HasLine(s'.marks, s.player) then Win(s.player)
                    else if s'.free == 0 then Tie
                    else InProgress)
      && s'.player == (if s'.winner == InProgress then Other(s.player) else s.player)
      && s'.status == StatusText(s'.winner, s'.player)
  {
    HaveWinnerSound(s.marks, row, col, s.player);
  }

  /** Every click keeps the invariant; in particular, once the game is over no
      button is enabled, so no further click is possible until a reset. */
  lemma ClickInv(s: State, row: nat, col: nat)
    requires Inv(s) && Clickable(s, row, col)
    ensures Inv(Click(s, row, col))
    ensures Click(s, row, col).winner != InProgress ==>
      forall k :: 0 <= k < 9 ==> !Click(s, row, col).enabled[k]
  {
    HaveWinnerSound(s.marks, row, col, s.player);
    ClickMarks(s, row, col);
  }

  class TicTacToe {
    /** The player whose mark the next click writes. */
    var player: Player
    /** InProgress until someone wins or the board fills. */
    var winner: Outcome
    /** Number of squares still free. */
    var numFreeSquares: int
    /** The text of the 3x3 board of buttons, row by row: square (row, col) is
        board[Idx(row, col)]. */
    const board: array<Cell>
    /** Whether each button takes clicks, in the same order. */
    const enabled: array<bool>
    /** The status line. */
    var gameProcess: string

    /** The value of the whole controller. */
    function Value(): State
      reads this, board, enabled
    {
      State(board[..], enabled[..], player, winner, numFreeSquares, gameProcess)
    }

    ghost predicate Valid()
      reads this, board, enabled
    {
      board.Length == 9 && enabled.Length == 9 && Inv(Value())
    }

    /** A new game: nine blank, enabled buttons, X to move. */
    constructor ()
      ensures Valid() && fresh(board) && fresh(enabled)
      ensures Value() == Initial()
    {
      board := new Cell[9](_ => Empty);
      enabled := new bool[9](_ => true);
      gameProcess := "Currently X's turn";
      player := X;
      numFreeSquares := 9;
      winner := InProgress;
      new;
      assert Value() == Initial();
      InitialInv();
    }

    /** Starts over from any state: every button blank and enabled, X to move. */
    method Reset()
      requires board.Length == 9 && enabled.Length == 9
      modifies this, board, enabled
      ensures Valid() && Value() == Initial()
    {
      for row := 0 to 3
        modifies board, enabled
        invariant forall k :: 0 <= k < 3 * row ==> board[k] == Empty && enabled[k]
      {
        for col := 0 to 3
          modifies board, enabled
          invariant forall k :: 0 <= k < 3 * row + col ==> board[k] == Empty && enabled[k]
        {
          board[Idx(row, col)] := Empty;
          enabled[Idx(row, col)] := true;
        }
      }
      gameProcess := "Currently X's turn";
      player := X;
      numFreeSquares := 9;
      winner := InProgress;
      assert Value() == Initial();
      InitialInv();
    }

    /** Disables every button once the game is over; does nothing when no
        square is free. */
    method ClearBoard()
      requires enabled.Length == 9
      modifies enabled
      ensures enabled[..] == if numFreeSquares == 0 then old(enabled[..]) else AllDisabled()
    {
      if numFreeSquares == 0 {
        return;
      }
      for i := 0 to 3
        invariant forall k :: 0 <= k < 3 * i ==> !enabled[k]
      {
        for j := 0 to 3
          invariant forall k :: 0 <= k < 3 * i + j ==> !enabled[k]
        {
          enabled[Idx(i, j)] := false;
        }
      }
      assert enabled[..] == AllDisabled();
    }

    /** A click on the enabled button (row, col) acts as `Click` says and keeps
        the invariant. */
    method Move(row: nat, col: nat)
      requires Valid() && row < 3 && col < 3 && enabled[Idx(row, col)]
      modifies this, board, enabled
      ensures Value() == Click(old(Value()), row, col)
      ensures Valid()
    {
      ghost var s := Value();
      ghost var s' := Click(s, row, col);
      ClickInv(s, row, col);
      var i := Idx(row, col);

      board[i] := Mark(player);
      enabled[i] := false;
      numFreeSquares := numFreeSquares - 1;

      if HaveWinner(board[..], row, col, numFreeSquares) {
        winner := Win(player);
      } else if numFreeSquares == 0 {
        winner := Tie;
      }

      if winner != InProgress {
        ClearBoard();
        assert enabled[..] == s'.enabled;
        if winner == Tie {
          gameProcess := "Game Over! Tie game!";
        } else if winner == Win(X) {
          gameProcess := "Game Over! Player X wins!";
        } else if winner == Win(O) {
          gameProcess := "Game Over! Player O wins!";
        }
      } else {
        if player == X {
          player := O;
          gameProcess := "Currently O's turn";
        } else {
          player := X;
          gameProcess := "Currently X's turn";
        }
      }
      assert Value() == s';
    }
  }
}
