// The perfect-play move chooser `findBestSquare` and its inner `minimax`
// (one implementation for the two verbatim copies of the search).
//
// `Minimax` and `Scan` are the specification: the value of a position for the
// maximizing `player`, and the left-to-right fold over the empty cells that
// keeps a running best (square, score) pair.  `MinimaxSearch` is the search
// itself, placing and undoing trial moves on the squares array in place.

module Search {
  import opened Rules

  /** The `{square, score}` pair of the search; square -1 means "no move". */
  datatype Choice = Choice(square: int, score: int)

  /** The starting best score of a ply: below (maximizing) or above (minimizing)
      every real score; it stands for -Infinity and +Infinity. */
  function Sentinel(isMax: bool): int {
    if isMax then -2 else 2
  }

  /** The symbol placed on a ply: the player's on maximizing plies, the opponent's otherwise. */
  function Mover(player: Player, isMax: bool): (p: Player)
    ensures p == player <==> isMax
  {
    if isMax then player else Opponent(player)
  }

  /** The strict comparison that decides whether a child replaces the running best. */
  predicate Better(isMax: bool, score: int, best: int) {
    if isMax then score > best else score < best
  }

  /** A running best that is either the untouched sentinel or a real move with a real score. */
  predicate Tracked(b: Squares, isMax: bool, c: Choice) {
    (c.square == -1 && c.score == Sentinel(isMax)) ||
    (0 <= c.square < 9 && b[c.square] == Empty && -1 <= c.score <= 1)
  }

  /** The value of a position: +1 if `player` has won, -1 if the opponent has,
      0 if the board is full, otherwise the best child for the side to move. */
  function Minimax(b: Squares, player: Player, isMax: bool): (r: Choice)
    decreases Count(b, Empty), 10
    ensures -1 <= r.score <= 1
    ensures r.square == -1 <==> Terminal(b)
    ensures r.square != -1 ==> 0 <= r.square < 9 && b[r.square] == Empty
  {
    var winner := Winner(b);
    if winner == Some(player) then Choice(-1, 1)
    else if winner == Some(Opponent(player)) then Choice(-1, -1)
    else if Full(b) then Choice(-1, 0)
    else
      assert winner.None? by {
        if winner.Some? {
          OtherIsOpponent(player, winner.value);
        }
      }
      Scan(b, player, isMax, 0, Choice(-1, Sentinel(isMax)))
  }

  /** The score of the child reached by playing the mover's symbol on empty cell `k`. */
  function ChildScore(b: Squares, player: Player, isMax: bool, k: int): (s: int)
    requires 0 <= k < 9 && b[k] == Empty
    decreases Count(b, Empty), 0
    ensures -1 <= s <= 1
  {
    Minimax(Place(b, k, Mover(player, isMax)), player, !isMax).score
  }

  /** The loop over cells `i..8`: each empty cell's child score replaces the
      running best only when strictly better. */
  function Scan(b: Squares, player: Player, isMax: bool, i: int, best: Choice): (r: Choice)
    requires 0 <= i <= 9
    requires Tracked(b, isMax, best)
    decreases Count(b, Empty), 9 - i
    ensures Tracked(b, isMax, r)
    ensures r.square == -1 ==> best.square == -1 && forall k :: i <= k < 9 ==> b[k] != Empty
  {
    if i == 9 then best
    else if b[i] != Empty then Scan(b, player, isMax, i + 1, best)
    else
      var score := ChildScore(b, player, isMax, i);
      Scan(b, player, isMax, i + 1, if Better(isMax, score, best.score) then Choice(i, score) else best)
  }

  /** What the running best means after the cells `0..i-1` have been scanned. */
  predicate ScanInv(b: Squares, player: Player, isMax: bool, i: int, best: Choice)
    requires 0 <= i <= 9
  {
    (best.square == -1 ==> best.score == Sentinel(isMax) && forall k :: 0 <= k < i ==> b[k] != Empty) &&
    (best.square != -1 ==>
      0 <= best.square < i && b[best.square] == Empty && best.score == ChildScore(b, player, isMax, best.square)) &&
    (forall k :: 0 <= k < i && b[k] == Empty ==> !Better(isMax, ChildScore(b, player, isMax, k), best.score)) &&
    (forall k :: 0 <= k < best.square && b[k] == Empty ==> Better(isMax, best.score, ChildScore(b, player, isMax, k)))
  }

  /** One empty cell scanned: the running best, updated only on a strictly better score, keeps its meaning. */
  lemma ScanStep(b: Squares, player: Player, isMax: bool, i: int, best: Choice)
    requires 0 <= i < 9 && b[i] == Empty
    requires ScanInv(b, player, isMax, i, best)
    ensures var score := ChildScore(b, player, isMax, i);
      ScanInv(b, player, isMax, i + 1, if Better(isMax, score, best.score) then Choice(i, score) else best)
  {
    var score := ChildScore(b, player, isMax, i);
    if Better(isMax, score, best.score) {
      var next := Choice(i, score);
      forall k | 0 <= k < i + 1 && b[k] == Empty
        ensures !Better(isMax, ChildScore(b, player, isMax, k), next.score)
      {
      }
      forall k | 0 <= k < next.square && b[k] == Empty
        ensures Better(isMax, next.score, ChildScore(b, player, isMax, k))
      {
      }
    }
  }

  lemma {:induction false} ScanKeepsInv(b: Squares, player: Player, isMax: bool, i: int, best: Choice)
    requires 0 <= i <= 9
    requires ScanInv(b, player, isMax, i, best)
    ensures Tracked(b, isMax, best)
    ensures ScanInv(b, player, isMax, 9, Scan(b, player, isMax, i, best))
    decreases 9 - i
  {
    if i < 9 {
      if b[i] != Empty {
        ScanKeepsInv(b, player, isMax, i + 1, best);
      } else {
        var score := ChildScore(b, player, isMax, i);
        var next := if Better(isMax, score, best.score) then Choice(i, score) else best;
        ScanStep(b, player, isMax, i, best);
        ScanKeepsInv(b, player, isMax, i + 1, next);
      }
    }
  }

  /** At a position that is not over, minimax picks an empty cell whose child
      score is the best of all children (maximum on maximizing plies, minimum
      on minimizing plies), and every empty cell before it scores strictly
      worse: the chosen square is the lowest-index optimal move. */
  lemma MinimaxOptimal(b: Squares, player: Player, isMax: bool)
    requires !Terminal(b)
    ensures 0 <= Minimax(b, player, isMax).square < 9
    ensures b[Minimax(b, player, isMax).square] == Empty
    ensures Minimax(b, player, isMax).score == ChildScore(b, player, isMax, Minimax(b, player, isMax).square)
    ensures isMax ==> forall k :: 0 <= k < 9 && b[k] == Empty ==>
      ChildScore(b, player, isMax, k) <= Minimax(b, player, isMax).score
    ensures !isMax ==> forall k :: 0 <= k < 9 && b[k] == Empty ==>
      ChildScore(b, player, isMax, k) >= Minimax(b, player, isMax).score
    ensures isMax ==> forall k :: 0 <= k < Minimax(b, player, isMax).square && b[k] == Empty ==>
      ChildScore(b, player, isMax, k) < Minimax(b, player, isMax).score
    ensures !isMax ==> forall k :: 0 <= k < Minimax(b, player, isMax).square && b[k] == Empty ==>
      ChildScore(b, player, isMax, k) > Minimax(b, player, isMax).score
  {
    var r := Minimax(b, player, isMax);
    assert r == Scan(b, player, isMax, 0, Choice(-1, Sentinel(isMax)));
    ScanKeepsInv(b, player, isMax, 0, Choice(-1, Sentinel(isMax)));
    assert ScanInv(b, player, isMax, 9, r);
  }

  /** The square `findBestSquare` answers: -1 exactly when the game is already
      over, otherwise the lowest-index empty cell with the best child score. */
  function BestSquare(b: Squares, player: Player): (r: int)
    ensures r == -1 <==> Terminal(b)
    ensures r != -1 ==> 0 <= r < 9 && b[r] == Empty
    ensures r != -1 ==> forall k :: 0 <= k < 9 && b[k] == Empty ==>
      ChildScore(b, player, true, k) <= ChildScore(b, player, true, r)
    ensures r != -1 ==> forall k :: 0 <= k < r && b[k] == Empty ==>
      ChildScore(b, player, true, k) < ChildScore(b, player, true, r)
  {
    if Terminal(b) then -1
    else
      MinimaxOptimal(b, player, true);
      Minimax(b, player, true).square
  }

  /** The inner `minimax`: place a trial symbol, recurse, undo it, and keep the
      strictly better (square, score); the array is restored on return. */
  method MinimaxSearch(squares: array<Cell>, player: Player, isMax: bool) returns (square: int, score: int)
    requires squares.Length == 9
    modifies squares
    decreases Count(squares[..], Empty)
    ensures squares[..] == old(squares[..])
    ensures Choice(square, score) == Minimax(old(squares[..]), player, isMax)
  {
    var opponent := Opponent(player);
    var winner := CalculateWinner(squares[..]);
    if winner == Some(player) {
      return -1, 1;
    }
    if winner == Some(opponent) {
      return -1, -1;
    }
    var full := IsFull(squares[..]);
    if full {
      return -1, 0;
    }
    ghost var b: Squares := squares[..];
    square, score := -1, Sentinel(isMax);
    var i := 0;
    while i < squares.Length
      invariant 0 <= i <= 9
      invariant squares[..] == b
      invariant Tracked(b, isMax, Choice(square, score))
      invariant Scan(b, player, isMax, i, Choice(square, score)) == Scan(b, player, isMax, 0, Choice(-1, Sentinel(isMax)))
    {
      if squares[i] != Empty {
        i := i + 1;
        continue;
      }
      squares[i] := Taken(if isMax then player else opponent);
      assert squares[..] == Place(b, i, Mover(player, isMax));
      var childSquare, childScore := MinimaxSearch(squares, player, !isMax);
      squares[i] := Empty;
      assert squares[..] == b;
      if isMax {
        if childScore > score {
          score, square := childScore, i;
        }
      } else {
        if childScore < score {
          score, square := childScore, i;
        }
      }
      i := i + 1;
    }
  }

  /** `findBestSquare`: the square chosen for `player` as the maximizing side,
      or -1; the squares array is left as it was. */
  method FindBestSquare(squares: array<Cell>, player: Player) returns (square: int)
    requires squares.Length == 9
    modifies squares
    ensures squares[..] == old(squares[..])
    ensures square == BestSquare(old(squares[..]), player)
  {
    var score;
    square, score := MinimaxSearch(squares, player, true);
  }
}

module SearchExamples {
  import opened Rules
  import opened Search

  /** With `[X, X, _, O, O, _, _, _, _]` and X to move, the search completes row 0 at square 2. */
  lemma ImmediateWin()
    ensures BestSquare([Taken(X), Taken(X), Empty, Taken(O), Taken(O), Empty, Empty, Empty, Empty], X) == 2
  {
    var b: Squares := [Taken(X), Taken(X), Empty, Taken(O), Taken(O), Empty, Empty, Empty, Empty];
    assert !LineComplete(b, 0) && !LineComplete(b, 1) && !LineComplete(b, 2) && !LineComplete(b, 3);
    assert !LineComplete(b, 4) && !LineComplete(b, 5) && !LineComplete(b, 6) && !LineComplete(b, 7);
    assert !Terminal(b) by { assert b[2] == Empty; }
    var win := Place(b, 2, X);
    assert LineComplete(win, 0);
    assert ChildScore(b, X, true, 2) == 1;
  }

  /** With `[O, O, _, X, _, _, _, _, _]` and X to move, the search blocks O's row at square 2:
      any other move lets O complete row 0 on the next ply. */
  lemma ForcedBlock()
    ensures BestSquare([Taken(O), Taken(O), Empty, Taken(X), Empty, Empty, Empty, Empty, Empty], X) == 2
  {
    var b: Squares := [Taken(O), Taken(O), Empty, Taken(X), Empty, Empty, Empty, Empty, Empty];
    BlockBoardOpen(b);
    var r := BestSquare(b, X);
    assert 0 <= r < 9 && b[r] == Empty;
    if r != 2 {
      assert 4 <= r < 9;
      OtherMoveLoses(b, r);
      assert false;
    }
  }

  /** Helper of ForcedBlock: the starting board is still in play. */
  lemma BlockBoardOpen(b: Squares)
    requires b == [Taken(O), Taken(O), Empty, Taken(X), Empty, Empty, Empty, Empty, Empty]
    ensures !Terminal(b)
  {
    assert !LineComplete(b, 0) && !LineComplete(b, 1) && !LineComplete(b, 2) && !LineComplete(b, 3);
    assert !LineComplete(b, 4) && !LineComplete(b, 5) && !LineComplete(b, 6) && !LineComplete(b, 7);
    assert b[2] == Empty;
  }

  /** Helper of ForcedBlock: after X plays any square but 2, O wins by taking square 2. */
  lemma OtherMoveLoses(b: Squares, r: int)
    requires b == [Taken(O), Taken(O), Empty, Taken(X), Empty, Empty, Empty, Empty, Empty]
    requires 4 <= r < 9
    ensures ChildScore(b, X, true, r) == -1
  {
    var after := Place(b, r, X);
    NoLineAfterOtherMove(b, r);
    assert !Terminal(after) by { assert after[2] == Empty; }
    MinimaxOptimal(after, X, false);
    assert LineComplete(Place(after, 2, O), 0);
    assert ChildScore(after, X, false, 2) == -1;
  }

  /** Helper of ForcedBlock: X's moves other than square 2 complete no line. */
  lemma NoLineAfterOtherMove(b: Squares, r: int)
    requires b == [Taken(O), Taken(O), Empty, Taken(X), Empty, Empty, Empty, Empty, Empty]
    requires 4 <= r < 9
    ensures forall j :: 0 <= j < |Lines| ==> !LineComplete(Place(b, r, X), j)
  {
    var a := Place(b, r, X);
    forall j | 0 <= j < |Lines| ensures !LineComplete(a, j) {
      assert a[2] == Empty;
      assert r == 4 || r == 5 || r == 6 || r == 7 || r == 8;
      assert j == 0 || j == 1 || j == 2 || j == 3 || j == 4 || j == 5 || j == 6 || j == 7;
    }
  }
}
