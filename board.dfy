/** The rules of the 3x3 board, as values: the marks in the cells, the eight
    lines, the count of free squares and the win check that the game runs after
    every move. The grid is kept row by row in a sequence of nine cells. */
module Board {

  /** The two players; each one writes its own mark. */
  datatype Player = X | O

  /** The text of one square: blank, or the mark of the player who took it. */
  datatype Cell = Empty | Mark(owner: Player)

  /** The player who moves after `p`. */
  function Other(p: Player): (q: Player)
    ensures q != p
  {
    if p == X then O else X
  }

  /** Position of square (row, col) in the row-by-row grid. */
  function Idx(row: nat, col: nat): (i: nat)
    requires row < 3 && col < 3
    ensures i < 9
  {
    3 * row + col
  }

  /** Number of cells of `s` that hold `x`. */
  function Count(s: seq<Cell>, x: Cell): (n: nat)
    ensures n <= |s|
  {
    if s == [] then 0 else (if s[0] == x then 1 else 0) + Count(s[1..], x)
  }

  /** Overwriting one cell moves one unit of count from the old value to the new one. */
  lemma {:induction false} CountUpdate(s: seq<Cell>, i: nat, v: Cell, x: Cell)
    requires i < |s|
    ensures Count(s[i := v], x)
            == Count(s, x) - (if s[i] == x then 1 else 0) + (if v == x then 1 else 0)
  {
    if i == 0 {
      assert s[i := v][1..] == s[1..];
    } else {
      assert s[i := v][1..] == s[1..][i - 1 := v];
      CountUpdate(s[1..], i - 1, v, x);
    }
  }

  /** A sequence that holds nothing but `x` counts `x` at every cell. */
  lemma {:induction false} CountUniform(s: seq<Cell>, x: Cell)
    requires forall k :: 0 <= k < |s| ==> s[k] == x
    ensures Count(s, x) == |s|
  {
    if s != [] {
      CountUniform(s[1..], x);
    }
  }

  /** Every cell is blank or holds one of the two marks. */
  lemma {:induction false} CountTotal(s: seq<Cell>)
    ensures Count(s, Empty) + Count(s, Mark(X)) + Count(s, Mark(O)) == |s|
  {
    if s != [] {
      CountTotal(s[1..]);
      if s[0].Mark? {
        assert s[0] == Mark(s[0].owner);
        assert s[0].owner == X || s[0].owner == O;
      }
    }
  }

  /** A value that occurs in `s` is counted at least once. */
  lemma {:induction false} CountPositive(s: seq<Cell>, k: nat, x: Cell)
    requires k < |s| && s[k] == x
    ensures Count(s, x) > 0
  {
    if k > 0 {
      CountPositive(s[1..], k - 1, x);
    }
  }

  /** Three squares in a straight line, as positions in the grid. */
  datatype Line = Line(a: nat, b: nat, c: nat)

  /** The eight lines, numbered 0 to 7: the three rows, then the three
      columns, then the main diagonal and the anti-diagonal. */
  function LineAt(k: nat): (l: Line)
    requires k < 8
    ensures l.a < l.b < l.c < 9
  {
    if k < 3 then Line(3 * k, 3 * k + 1, 3 * k + 2)
    else if k < 6 then Line(k - 3, k, k + 3)
    else if k == 6 then Line(0, 4, 8)
    else Line(2, 4, 6)
  }

  /** Square `i` is one of the three squares of `l`. */
  predicate Through(l: Line, i: nat)
  {
    i == l.a || i == l.b || i == l.c
  }

  /** All three squares of `l` hold the mark of `p`. */
  predicate Full(g: seq<Cell>, l: Line, p: Player)
  {
    l.a < |g| && l.b < |g| && l.c < |g|
    && g[l.a] == Mark(p) && g[l.b] == Mark(p) && g[l.c] == Mark(p)
  }

  /** Player `p` owns a whole line somewhere on the board. */
  predicate HasLine(g: seq<Cell>, p: Player)
  {
    exists k :: 0 <= k < 8 && Full(g, LineAt(k), p)
  }

  /** Player `p` owns a whole line that passes through square `i`. */
  predicate HasLineThrough(g: seq<Cell>, i: nat, p: Player)
  {
    exists k :: 0 <= k < 8 && Through(LineAt(k), i) && Full(g, LineAt(k), p)
  }

  /** Turns alternate, X first, and `next` is the player to move: X has as many
      marks as O when X is next, and one more when O is next. */
  predicate Alternating(g: seq<Cell>, next: Player)
  {
    Count(g, Mark(X)) == Count(g, Mark(O)) + (if next == X then 0 else 1)
  }

  /** The win check run after square (row, col) was filled, with `free` squares
      left: nothing before five squares are filled, then the row and the column
      of the square, and each diagonal the square lies on, compared cell text
      against cell text. */
  function HaveWinner(g: seq<Cell>, row: nat, col: nat, free: int): bool
    requires |g| == 9 && row < 3 && col < 3
  {
    if free > 4 then false
    else
      (g[Idx(row, 0)] == g[Idx(row, 1)] && g[Idx(row, 0)] == g[Idx(row, 2)])
      || (g[Idx(0, col)] == g[Idx(1, col)] && g[Idx(0, col)] == g[Idx(2, col)])
      || (row == col && g[Idx(0, 0)] == g[Idx(1, 1)] && g[Idx(0, 0)] == g[Idx(2, 2)])
      || (row == 2 - col && g[Idx(0, 2)] == g[Idx(1, 1)] && g[Idx(0, 2)] == g[Idx(2, 0)])
  }

  /** A blank board: all nine squares free, X to move, and nobody owns a line. */
  lemma BlankGrid(g: seq<Cell>)
    requires |g| == 9 && forall k :: 0 <= k < 9 ==> g[k] == Empty
    ensures Count(g, Empty) == 9 && Alternating(g, X)
    ensures !HasLine(g, X) && !HasLine(g, O)
  {
    CountUniform(g, Empty);
    CountTotal(g);
  }

  /** A whole line takes three of the owner's marks. */
  lemma LineNeedsThree(g: seq<Cell>, p: Player)
    requires HasLine(g, p)
    ensures Count(g, Mark(p)) >= 3
  {
    var k :| 0 <= k < 8 && Full(g, LineAt(k), p);
    var l := LineAt(k);
    var g1 := g[l.a := Empty];
    var g2 := g1[l.b := Empty];
    var g3 := g2[l.c := Empty];
    CountUpdate(g, l.a, Empty, Mark(p));
    CountUpdate(g1, l.b, Empty, Mark(p));
    CountUpdate(g2, l.c, Empty, Mark(p));
  }

  /** The early exit of the win check is sound: while more than four squares are
      free, and the players have taken turns, nobody can own a line. */
  lemma ShortcutSound(g: seq<Cell>, next: Player)
    requires Alternating(g, next) && Count(g, Empty) > 4 && |g| == 9
    ensures !HasLine(g, X) && !HasLine(g, O)
  {
    CountTotal(g);
    if HasLine(g, X) {
      LineNeedsThree(g, X);
    }
    if HasLine(g, O) {
      LineNeedsThree(g, O);
    }
  }

  /** Three equal cells along a line through a square that holds `p`'s mark
      make a whole line of `p` through that square. */
  lemma EqualLine(g: seq<Cell>, i: nat, p: Player, k: nat)
    requires k < 8 && i < |g| == 9 && g[i] == Mark(p) && Through(LineAt(k), i)
    requires g[LineAt(k).a] == g[LineAt(k).b] == g[LineAt(k).c]
    ensures HasLineThrough(g, i, p)
  {
    assert Full(g, LineAt(k), p);
  }

  /** Line `row` is the row of square (row, col). */
  lemma RowLine(row: nat, col: nat)
    requires row < 3 && col < 3
    ensures LineAt(row) == Line(Idx(row, 0), Idx(row, 1), Idx(row, 2))
    ensures Through(LineAt(row), Idx(row, col))
  {
  }

  /** Line `3 + col` is the column of square (row, col). */
  lemma ColumnLine(row: nat, col: nat)
    requires row < 3 && col < 3
    ensures LineAt(3 + col) == Line(Idx(0, col), Idx(1, col), Idx(2, col))
    ensures Through(LineAt(3 + col), Idx(row, col))
  {
  }

  /** Line 6 is the main diagonal and line 7 the anti-diagonal; each passes
      through the squares that lie on it. */
  lemma DiagonalsOf(row: nat, col: nat)
    requires row < 3 && col < 3
    ensures row == col ==> Through(LineAt(6), Idx(row, col))
    ensures row == 2 - col ==> Through(LineAt(7), Idx(row, col))
  {
  }

  /** Each comparison of the win check that succeeds is a whole line of the
      player who filled (row, col), and that line passes through the square. */
  lemma HaveWinnerFinds(g: seq<Cell>, row: nat, col: nat, free: int, p: Player)
    requires |g| == 9 && row < 3 && col < 3 && g[Idx(row, col)] == Mark(p)
    requires HaveWinner(g, row, col, free)
    ensures HasLineThrough(g, Idx(row, col), p)
  {
    var i := Idx(row, col);
    if g[Idx(row, 0)] == g[Idx(row, 1)] && g[Idx(row, 0)] == g[Idx(row, 2)] {
      RowLine(row, col);
      EqualLine(g, i, p, row);
    } else if g[Idx(0, col)] == g[Idx(1, col)] && g[Idx(0, col)] == g[Idx(2, col)] {
      ColumnLine(row, col);
      EqualLine(g, i, p, 3 + col);
    } else if row == col && g[Idx(0, 0)] == g[Idx(1, 1)] && g[Idx(0, 0)] == g[Idx(2, 2)] {
      DiagonalsOf(row, col);
      EqualLine(g, i, p, 6);
    } else {
      DiagonalsOf(row, col);
      EqualLine(g, i, p, 7);
    }
  }

  /** Which of the eight lines pass through square (row, col): its row, its
      column, and the diagonals only when the square lies on them. */
  lemma LinesThrough(row: nat, col: nat, k: nat)
    requires row < 3 && col < 3 && k < 8 && Through(LineAt(k), Idx(row, col))
    ensures k < 3 ==> k == row && LineAt(k) == Line(Idx(row, 0), Idx(row, 1), Idx(row, 2))
    ensures 3 <= k < 6 ==> k == 3 + col && LineAt(k) == Line(Idx(0, col), Idx(1, col), Idx(2, col))
    ensures k == 6 ==> row == col && LineAt(k) == Line(Idx(0, 0), Idx(1, 1), Idx(2, 2))
    ensures k == 7 ==> row == 2 - col && LineAt(k) == Line(Idx(0, 2), Idx(1, 1), Idx(2, 0))
  {
  }

  /** A whole line of the player through (row, col) makes one of the win
      check's comparisons succeed, once five squares are filled. */
  lemma HaveWinnerSees(g: seq<Cell>, row: nat, col: nat, free: int, p: Player, k: nat)
    requires |g| == 9 && row < 3 && col < 3 && free <= 4
    requires k < 8 && Through(LineAt(k), Idx(row, col)) && Full(g, LineAt(k), p)
    ensures HaveWinner(g, row, col, free)
  {
    if k < 3 {
      LinesThrough(row, col, k);
      assert g[Idx(row, 0)] == g[Idx(row, 1)] && g[Idx(row, 0)] == g[Idx(row, 2)];
    } else if k < 6 {
      LinesThrough(row, col, k);
      assert g[Idx(0, col)] == g[Idx(1, col)] && g[Idx(0, col)] == g[Idx(2, col)];
    } else if k == 6 {
      LinesThrough(row, col, k);
      assert g[Idx(0, 0)] == g[Idx(1, 1)] && g[Idx(0, 0)] == g[Idx(2, 2)];
    } else {
      LinesThrough(row, col, k);
      assert g[Idx(0, 2)] == g[Idx(1, 1)] && g[Idx(0, 2)] == g[Idx(2, 0)];
    }
  }

  /** Once five squares are filled, the win check answers true exactly when the
      player who just filled (row, col) owns a line through that square. */
  lemma HaveWinnerLocal(g: seq<Cell>, row: nat, col: nat, free: int, p: Player)
    requires |g| == 9 && row < 3 && col < 3 && free <= 4
    requires g[Idx(row, col)] == Mark(p)
    ensures HaveWinner(g, row, col, free) <==> HasLineThrough(g, Idx(row, col), p)
  {
    if HaveWinner(g, row, col, free) {
      HaveWinnerFinds(g, row, col, free, p);
    }
    if HasLineThrough(g, Idx(row, col), p) {
      var k :| 0 <= k < 8 && Through(LineAt(k), Idx(row, col)) && Full(g, LineAt(k), p);
      HaveWinnerSees(g, row, col, free, p, k);
    }
  }

  /** Filling the free square (row, col) for the player `p` whose turn it is, on
      a board where nobody owns a line yet: the win check with its early exit
      answers exactly whether `p` now owns a line anywhere on the board, the
      other player still owns none, and the turns still alternate. */
  lemma HaveWinnerSound(g: seq<Cell>, row: nat, col: nat, p: Player)
    requires |g| == 9 && row < 3 && col < 3 && g[Idx(row, col)] == Empty
    requires Alternating(g, p) && !HasLine(g, X) && !HasLine(g, O)
    ensures var g' := g[Idx(row, col) := Mark(p)];
      Count(g', Empty) == Count(g, Empty) - 1
      && Alternating(g', Other(p))
      && (HaveWinner(g', row, col, Count(g', Empty)) <==> HasLine(g', p))
      && !HasLine(g', Other(p))
  {
    var i := Idx(row, col);
    var g' := g[i := Mark(p)];
    CountUpdate(g, i, Mark(p), Empty);
    CountUpdate(g, i, Mark(p), Mark(X));
    CountUpdate(g, i, Mark(p), Mark(O));
    forall k, q | 0 <= k < 8 && !Through(LineAt(k), i)
      ensures Full(g', LineAt(k), q) == Full(g, LineAt(k), q)
    {
    }
    if Count(g', Empty) > 4 {
      ShortcutSound(g', Other(p));
    } else {
      HaveWinnerLocal(g', row, col, Count(g', Empty), p);
    }
  }

  /** The board turned a quarter turn clockwise: square (row, col) moves to
      (col, 2 - row). */
  function Rot(g: seq<Cell>): (r: seq<Cell>)
    requires |g| == 9
    ensures |r| == 9
    ensures forall row: nat, col: nat :: row < 3 && col < 3 ==> r[Idx(col, 2 - row)] == g[Idx(row, col)]
  {
    seq(9, i requires 0 <= i < 9 => g[Idx(2 - i % 3, i / 3)])
  }

  /** The board mirrored in its main diagonal: square (row, col) moves to (col, row). */
  function Transpose(g: seq<Cell>): (r: seq<Cell>)
    requires |g| == 9
    ensures |r| == 9
    ensures forall row: nat, col: nat :: row < 3 && col < 3 ==> r[Idx(col, row)] == g[Idx(row, col)]
  {
    seq(9, i requires 0 <= i < 9 => g[Idx(i % 3, i / 3)])
  }

  /** The mark of the other player; a blank stays blank. */
  function SwapCell(c: Cell): Cell
  {
    match c
    case Empty => Empty
    case Mark(p) => Mark(Other(p))
  }

  /** The board with the two players' marks exchanged. */
  function Relabel(g: seq<Cell>): seq<Cell>
  {
    seq(|g|, k requires 0 <= k < |g| => SwapCell(g[k]))
  }

  /** Exchanging the marks of one square twice gives the square back. */
  lemma SwapCellTwice(c: Cell)
    ensures SwapCell(SwapCell(c)) == c
  {
    if c.Mark? {
      assert c == Mark(c.owner);
      assert c.owner == X || c.owner == O;
    }
  }

  /** Exchanging the players' marks twice gives the board back. */
  lemma RelabelTwice(g: seq<Cell>)
    ensures Relabel(Relabel(g)) == g
  {
    forall k | 0 <= k < |g|
      ensures Relabel(Relabel(g))[k] == g[k]
    {
      SwapCellTwice(g[k]);
    }
  }

  /** The win check does not depend on how the board is turned: checking square
      (row, col) of a board gives the same answer as checking the square it
      moves to on the board turned a quarter turn. */
  lemma RotSym(g: seq<Cell>, row: nat, col: nat, free: int)
    requires |g| == 9 && row < 3 && col < 3
    ensures HaveWinner(Rot(g), col, 2 - row, free) == HaveWinner(g, row, col, free)
  {
  }

  /** The win check does not depend on mirroring the board in its main
      diagonal. With `RotSym` this covers all eight symmetries of the board. */
  lemma TransposeSym(g: seq<Cell>, row: nat, col: nat, free: int)
    requires |g| == 9 && row < 3 && col < 3
    ensures HaveWinner(Transpose(g), col, row, free) == HaveWinner(g, row, col, free)
  {
    var t := Transpose(g);
    if free <= 4 {
      assert (t[Idx(col, 0)] == t[Idx(col, 1)] && t[Idx(col, 0)] == t[Idx(col, 2)])
          == (g[Idx(0, col)] == g[Idx(1, col)] && g[Idx(0, col)] == g[Idx(2, col)]);
      assert (t[Idx(0, row)] == t[Idx(1, row)] && t[Idx(0, row)] == t[Idx(2, row)])
          == (g[Idx(row, 0)] == g[Idx(row, 1)] && g[Idx(row, 0)] == g[Idx(row, 2)]);
      assert (t[Idx(0, 0)] == t[Idx(1, 1)] && t[Idx(0, 0)] == t[Idx(2, 2)])
          == (g[Idx(0, 0)] == g[Idx(1, 1)] && g[Idx(0, 0)] == g[Idx(2, 2)]);
      assert (t[Idx(0, 2)] == t[Idx(1, 1)] && t[Idx(0, 2)] == t[Idx(2, 0)])
          == (g[Idx(0, 2)] == g[Idx(1, 1)] && g[Idx(0, 2)] == g[Idx(2, 0)]);
    }
  }

  /** Exchanging the players' marks does not change the win check, and a line
      of `p` becomes a line of the other player. */
  lemma RelabelSym(g: seq<Cell>, row: nat, col: nat, free: int, p: Player)
    requires |g| == 9 && row < 3 && col < 3
    ensures HaveWinner(Relabel(g), row, col, free) == HaveWinner(g, row, col, free)
    ensures HasLine(Relabel(g), Other(p)) == HasLine(g, p)
  {
    var r := Relabel(g);
    forall c, d ensures (SwapCell(c) == SwapCell(d)) == (c == d) {
      if c.Mark? && d.Mark? {
        assert c == Mark(c.owner) && d == Mark(d.owner);
        assert c.owner == X || c.owner == O;
        assert d.owner == X || d.owner == O;
      }
    }
    forall k | 0 <= k < 8
      ensures Full(r, LineAt(k), Other(p)) == Full(g, LineAt(k), p)
    {
      var l := LineAt(k);
      assert SwapCell(Mark(p)) == Mark(Other(p));
    }
  }
}
