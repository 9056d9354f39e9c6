// The outcome evaluator of the game: cells, boards, the eight winning lines,
// `calculateWinner` and `isFull`, plus the cell counting that the search and
// the game state use to measure progress.

module Rules {

  datatype Player = X | O

  /** A square of the board; `Empty` stands for the JavaScript `null`. */
  datatype Cell = Empty | Taken(mark: Player)

  datatype Option<T> = None | Some(value: T)

  /** A board position index, row-major: index == row * 3 + column. */
  type Index = i: int | 0 <= i < 9

  /** The squares array of a board: always exactly nine cells. */
  type Squares = s: seq<Cell> | |s| == 9 witness [Empty, Empty, Empty, Empty, Empty, Empty, Empty, Empty, Empty]

  const EmptySquares: Squares := [Empty, Empty, Empty, Empty, Empty, Empty, Empty, Empty, Empty]

  /** The eight winning lines, in scan order: rows, then columns, then diagonals. */
  const Lines: seq<(Index, Index, Index)> :=
    [(0, 1, 2), (3, 4, 5), (6, 7, 8),
     (0, 3, 6), (1, 4, 7), (2, 5, 8),
     (0, 4, 8), (2, 4, 6)]

  /** The other symbol. */
  function Opponent(p: Player): (q: Player)
    ensures q != p
  {
    if p == X then O else X
  }

  /** There are only two symbols: any symbol other than `p` is `p`'s opponent. */
  lemma OtherIsOpponent(p: Player, q: Player)
    requires q != p
    ensures q == Opponent(p)
  {
    match p
    case X =>
    case O =>
  }

  /** The symbol placed by the side to move: `xIsNext ? 'X' : 'O'`. */
  function Mark(xIsNext: bool): (p: Player)
    ensures p == X <==> xIsNext
  {
    if xIsNext then X else O
  }

  /** Line `k` is filled with three equal, non-empty cells. */
  predicate LineComplete(b: Squares, k: int)
    requires 0 <= k < |Lines|
  {
    b[Lines[k].0] != Empty && b[Lines[k].0] == b[Lines[k].1] && b[Lines[k].0] == b[Lines[k].2]
  }

  /** The first complete line at or after `k`, if any, gives the winner. */
  function WinnerFrom(b: Squares, k: int): (w: Option<Player>)
    requires 0 <= k <= |Lines|
    decreases |Lines| - k
    ensures w.None? <==> forall j :: k <= j < |Lines| ==> !LineComplete(b, j)
    ensures w.Some? ==>
      exists j :: k <= j < |Lines| && LineComplete(b, j) && b[Lines[j].0] == Taken(w.value) &&
        forall m :: k <= m < j ==> !LineComplete(b, m)
  {
    if k == |Lines| then None
    else if LineComplete(b, k) then Some(b[Lines[k].0].mark)
    else WinnerFrom(b, k + 1)
  }

  /** The winner of a board: the symbol of the first complete line, or None. */
  function Winner(b: Squares): (w: Option<Player>)
    ensures w.None? <==> forall j :: 0 <= j < |Lines| ==> !LineComplete(b, j)
    ensures w.Some? ==>
      exists j :: 0 <= j < |Lines| && LineComplete(b, j) && b[Lines[j].0] == Taken(w.value) &&
        forall m :: 0 <= m < j ==> !LineComplete(b, m)
  {
    WinnerFrom(b, 0)
  }

  /** No cell is empty. */
  predicate Full(b: seq<Cell>) {
    forall i :: 0 <= i < |b| ==> b[i] != Empty
  }

  /** The game is over: someone has won or the board is full. */
  predicate Terminal(b: Squares) {
    Winner(b).Some? || Full(b)
  }

  /** `isFull`: scans the cells and stops at the first empty one. */
  method IsFull(squares: seq<Cell>) returns (full: bool)
    ensures full <==> Full(squares)
  {
    for i := 0 to |squares|
      invariant forall k :: 0 <= k < i ==> squares[k] != Empty
    {
      if squares[i] == Empty {
        return false;
      }
    }
    return true;
  }

  /** `calculateWinner`: scans the lines in order and returns at the first complete one. */
  method CalculateWinner(squares: Squares) returns (winner: Option<Player>)
    ensures winner == Winner(squares)
  {
    var i := 0;
    while i < |Lines|
      invariant 0 <= i <= |Lines|
      invariant WinnerFrom(squares, i) == Winner(squares)
    {
      var (a, b, c) := Lines[i];
      if squares[a] != Empty && squares[a] == squares[b] && squares[a] == squares[c] {
        return Some(squares[a].mark);
      }
      i := i + 1;
    }
    return None;
  }

  /** The number of cells of `b` equal to `c`. */
  function Count(b: seq<Cell>, c: Cell): nat {
    if b == [] then 0 else (if b[0] == c then 1 else 0) + Count(b[1..], c)
  }

  /** Overwriting one cell moves one unit of count from the old value to the new one. */
  lemma {:induction false} CountUpdate(b: seq<Cell>, i: int, c: Cell, d: Cell)
    requires 0 <= i < |b|
    ensures Count(b[i := c], d) + (if b[i] == d then 1 else 0) == Count(b, d) + (if c == d then 1 else 0)
  {
    if i == 0 {
      assert b[i := c][1..] == b[1..];
    } else {
      assert b[i := c][1..] == b[1..][i - 1 := c];
      CountUpdate(b[1..], i - 1, c, d);
    }
  }

  /** Placing a symbol on an empty cell: exactly that cell changes, and one empty cell fewer remains. */
  function Place(b: Squares, i: Index, p: Player): (r: Squares)
    requires b[i] == Empty
    ensures r[i] == Taken(p)
    ensures forall k :: 0 <= k < 9 && k != i ==> r[k] == b[k]
    ensures Count(r, Empty) + 1 == Count(b, Empty)
  {
    CountUpdate(b, i, Taken(p), Empty);
    b[i := Taken(p)]
  }

  /** The board holding `p` on the cells of line `k` and nothing else. */
  function LoneLine(k: int, p: Player): (b: Squares)
    requires 0 <= k < |Lines|
  {
    seq(9, i => if i == Lines[k].0 || i == Lines[k].1 || i == Lines[k].2 then Taken(p) else Empty)
  }

  /** Each winning line, filled alone with one symbol, is reported as won by that symbol. */
  lemma LoneLineWins(k: int, p: Player)
    requires 0 <= k < |Lines|
    ensures Winner(LoneLine(k, p)) == Some(p)
  {
    var b := LoneLine(k, p);
    assert LineComplete(b, k);
    assert k == 0 || k == 1 || k == 2 || k == 3 || k == 4 || k == 5 || k == 6 || k == 7;
    forall j | 0 <= j < k ensures !LineComplete(b, j) {
      assert j == 0 || j == 1 || j == 2 || j == 3 || j == 4 || j == 5 || j == 6;
    }
    WinnerFromSkips(b, 0, k);
  }

  /** Lines known to be incomplete are skipped by the scan. */
  lemma {:induction false} WinnerFromSkips(b: Squares, k: int, n: int)
    requires 0 <= k <= n <= |Lines|
    requires forall j :: k <= j < n ==> !LineComplete(b, j)
    ensures WinnerFrom(b, k) == WinnerFrom(b, n)
    decreases n - k
  {
    if k < n {
      WinnerFromSkips(b, k + 1, n);
    }
  }
}
