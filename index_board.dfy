// The earlier, self-contained `Board` component: nine squares and the turn
// flag, updated by clicks with the same placement rule and no history.

module IndexBoard {
  import opened Rules

  class Board {
    var squares: Squares
    var xIsNext: bool

    /** X has moved as often as O when X is to move, once more otherwise. */
    ghost predicate Valid()
      reads this
    {
      Count(squares, Taken(X)) == Count(squares, Taken(O)) + (if xIsNext then 0 else 1)
    }

    constructor ()
      ensures squares == EmptySquares && xIsNext
      ensures Valid()
    {
      squares := EmptySquares;
      xIsNext := true;
    }

    /** A click on square `i`: refused when the board is won or `i` is filled;
        otherwise only `i` changes, to the mover's symbol, and the turn passes. */
    method HandleClick(i: int)
      requires 0 <= i < 9
      modifies this
      ensures old(Winner(squares)).Some? || old(squares[i]) != Empty ==>
        squares == old(squares) && xIsNext == old(xIsNext)
      ensures old(Winner(squares)).None? && old(squares[i]) == Empty ==>
        squares[i] == Taken(Mark(old(xIsNext))) &&
        (forall k :: 0 <= k < 9 && k != i ==> squares[k] == old(squares[k])) &&
        xIsNext == !old(xIsNext)
      ensures old(Valid()) ==> Valid()
    {
      var next := squares;
      var winner := CalculateWinner(next);
      if winner.Some? || next[i] != Empty {
        return;
      }
      next := next[i := Taken(if xIsNext then X else O)];
      CountUpdate(squares, i, next[i], Taken(X));
      CountUpdate(squares, i, next[i], Taken(O));
      squares, xIsNext := next, !xIsNext;
    }
  }
}
