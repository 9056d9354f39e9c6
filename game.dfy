// The state of the `Game` component: the list of past boards for time travel,
// the step shown, and whose turn it is.  `Move`, `Jump` and `Click` are the
// transitions on a state value; the class `Game` keeps the same three fields
// and its methods update them in place.

module GameComponent {
  import opened Rules
  import Search

  datatype GameState = GameState(history: seq<Squares>, stepNumber: nat, xIsNext: bool)

  /** The constructor's state: one empty board, step 0, X to move. */
  const Initial: GameState := GameState([EmptySquares], 0, true)

  /** The step shown is an entry of the history. */
  predicate WellFormed(s: GameState) {
    s.stepNumber < |s.history|
  }

  /** The board shown: `history[stepNumber]`. */
  function Current(s: GameState): Squares
    requires WellFormed(s)
  {
    s.history[s.stepNumber]
  }

  /** Board `k` of a game that alternates X and O: X has made ceil(k/2)
      moves, O floor(k/2), and 9 - k cells are empty. */
  predicate Alternated(b: Squares, k: nat) {
    Count(b, Taken(X)) == (k + 1) / 2 && Count(b, Taken(O)) == k / 2 && Count(b, Empty) == 9 - k
  }

  /** The states reachable by clicks and jumps: each history board is the
      board after that many alternating moves, and X is to move exactly on even steps. */
  predicate Valid(s: GameState) {
    WellFormed(s) &&
    s.xIsNext == (s.stepNumber % 2 == 0) &&
    forall k :: 0 <= k < |s.history| ==> Alternated(s.history[k], k)
  }

  /** A click on square `i` is accepted: the shown board has no winner and `i` is empty. */
  predicate Accepts(s: GameState, i: int)
    requires WellFormed(s) && 0 <= i < 9
  {
    Winner(Current(s)).None? && Current(s)[i] == Empty
  }

  /** `makeMove(i)`: drop the boards after the shown one, then, unless the shown
      board is won or square `i` is filled, append a copy with the mover's symbol
      on `i`, show it and pass the turn. */
  function Move(s: GameState, i: int): (t: GameState)
    requires WellFormed(s) && 0 <= i < 9
    ensures WellFormed(t)
  {
    var history := s.history[..s.stepNumber + 1];
    var current := history[|history| - 1];
    if Winner(current).Some? || current[i] != Empty then s
    else GameState(history + [current[i := Taken(Mark(s.xIsNext))]], |history|, !s.xIsNext)
  }

  /** `jumpTo(step)`: show an earlier board; X is to move on even steps. The history is kept. */
  function Jump(s: GameState, step: nat): (t: GameState)
    requires step < |s.history|
    ensures WellFormed(t) && t.history == s.history
  {
    GameState(s.history, step, step % 2 == 0)
  }

  /** `handleClick(i)` as written: the clicked move, then the computer's reply for
      whichever symbol is to move afterwards, when the search finds one. */
  function Click(s: GameState, i: int): (t: GameState)
    requires WellFormed(s) && 0 <= i < 9
    ensures WellFormed(t)
  {
    var clicked := Move(s, i);
    var best := Search.BestSquare(Current(clicked), Mark(clicked.xIsNext));
    if best == -1 then clicked else Move(clicked, best)
  }

  /** `handleClick(i)` as evidently intended: the computer replies only to a click that was accepted. */
  function ClickFixed(s: GameState, i: int): (t: GameState)
    requires WellFormed(s) && 0 <= i < 9
    ensures WellFormed(t)
  {
    if Accepts(s, i) then Click(s, i) else s
  }

  /** A refused click changes nothing, and an accepted one always changes the state. */
  lemma MoveRefusedIff(s: GameState, i: int)
    requires WellFormed(s) && 0 <= i < 9
    ensures Move(s, i) == s <==> !Accepts(s, i)
  {
    var history := s.history[..s.stepNumber + 1];
    assert history[|history| - 1] == Current(s);
  }

  /** An accepted click keeps the boards up to the shown one, appends exactly one
      board, shows it, and passes the turn; the new board differs from the shown
      one only on square `i`, which gets the mover's symbol. */
  lemma MoveAppendsOneBoard(s: GameState, i: int)
    requires WellFormed(s) && 0 <= i < 9
    requires Accepts(s, i)
    ensures var t := Move(s, i);
      |t.history| == s.stepNumber + 2 &&
      t.stepNumber == s.stepNumber + 1 &&
      t.xIsNext == !s.xIsNext &&
      (forall k :: 0 <= k <= s.stepNumber ==> t.history[k] == s.history[k]) &&
      Current(t)[i] == Taken(Mark(s.xIsNext)) &&
      (forall k :: 0 <= k < 9 && k != i ==> Current(t)[k] == Current(s)[k])
  {
    var history := s.history[..s.stepNumber + 1];
    assert history[|history| - 1] == Current(s);
  }

  /** `makeMove` keeps the history a record of alternating play with the turn matching the step. */
  lemma MoveKeepsValid(s: GameState, i: int)
    requires Valid(s) && 0 <= i < 9
    ensures Valid(Move(s, i))
  {
    var t := Move(s, i);
    if t != s {
      var history := s.history[..s.stepNumber + 1];
      var current := history[|history| - 1];
      var mark := Taken(Mark(s.xIsNext));
      var next := current[i := mark];
      assert Alternated(current, s.stepNumber);
      CountUpdate(current, i, mark, Empty);
      CountUpdate(current, i, mark, Taken(X));
      CountUpdate(current, i, mark, Taken(O));
      assert Alternated(next, s.stepNumber + 1);
      forall k | 0 <= k < |t.history| ensures Alternated(t.history[k], k) {
        if k < |history| {
          assert t.history[k] == s.history[k];
        }
      }
    }
  }

  /** `jumpTo` keeps the history a record of alternating play with the turn matching the step. */
  lemma JumpKeepsValid(s: GameState, step: nat)
    requires Valid(s) && step < |s.history|
    ensures Valid(Jump(s, step))
  {
  }

  /** The constructor's state is valid. */
  lemma InitialValid()
    ensures Valid(Initial)
  {
    assert Alternated(EmptySquares, 0);
  }

  /** A click on a square holding the computer's symbol, in a game still in
      progress, is refused, yet the computer then moves with the CLICKER's
      symbol: the clicked square keeps the computer's symbol, a new board is
      shown, and the turn passes to the computer's symbol. */
  lemma ClickOnTakenSquareMovesForClicker(s: GameState, i: int)
    requires WellFormed(s) && 0 <= i < 9
    requires Current(s)[i] == Taken(Opponent(Mark(s.xIsNext)))
    requires !Terminal(Current(s))
    ensures Click(s, i) != s
    ensures Current(Click(s, i))[i] != Taken(Mark(s.xIsNext))
    ensures Click(s, i).xIsNext == !s.xIsNext
    ensures exists k ::
              0 <= k < 9 && Current(s)[k] == Empty && Current(Click(s, i)) == Current(s)[k := Taken(Mark(s.xIsNext))]
  {
    MoveRefusedIff(s, i);
    assert Move(s, i) == s;
    var best := Search.BestSquare(Current(s), Mark(s.xIsNext));
    assert best != -1;
    assert Accepts(s, best);
    MoveAppendsOneBoard(s, best);
    var t := Move(s, best);
    assert Current(t) == Current(s)[best := Taken(Mark(s.xIsNext))];
  }

  /** With the correction, a click either changes nothing or puts the clicker's
      symbol on the clicked square; and the turn ends up with the other symbol
      only when the game is over (the computer had no reply). */
  lemma ClickFixedPlaysClickersSymbol(s: GameState, i: int)
    requires WellFormed(s) && 0 <= i < 9
    ensures ClickFixed(s, i) == s || Current(ClickFixed(s, i))[i] == Taken(Mark(s.xIsNext))
    ensures ClickFixed(s, i).xIsNext != s.xIsNext ==> Terminal(Current(ClickFixed(s, i)))
  {
    if Accepts(s, i) {
      MoveAppendsOneBoard(s, i);
      var clicked := Move(s, i);
      var best := Search.BestSquare(Current(clicked), Mark(clicked.xIsNext));
      if best != -1 {
        assert Accepts(clicked, best);
        MoveAppendsOneBoard(clicked, best);
      }
    }
  }

  /** The React component, with its three state fields. */
  class Game {
    var history: seq<Squares>
    var stepNumber: nat
    var xIsNext: bool

    function State(): GameState
      reads this
    {
      GameState(history, stepNumber, xIsNext)
    }

    constructor ()
      ensures State() == Initial
    {
      history := [EmptySquares];
      stepNumber := 0;
      xIsNext := true;
    }

    method MakeMove(i: int)
      requires WellFormed(State()) && 0 <= i < 9
      modifies this
      ensures State() == Move(old(State()), i)
    {
      var hist := history[..stepNumber + 1];
      var current := hist[|hist| - 1];
      var winner := CalculateWinner(current);
      if winner.Some? || current[i] != Empty {
        return;
      }
      var squares := current[i := Taken(if xIsNext then X else O)];
      history, stepNumber, xIsNext := hist + [squares], |hist|, !xIsNext;
    }

    method JumpTo(step: nat)
      requires step < |history|
      modifies this
      ensures State() == Jump(old(State()), step)
    {
      stepNumber := step;
      xIsNext := step % 2 == 0;
    }

    /** The human's move, then the computer's reply, run one after the other. */
    method HandleClick(i: int)
      requires WellFormed(State()) && 0 <= i < 9
      modifies this
      ensures State() == Click(old(State()), i)
    {
      MakeMove(i);
      var current := history[stepNumber];
      var squares := new Cell[9](k => if 0 <= k < 9 then current[k] else Empty);
      assert squares[..] == current;
      var bestSquare := Search.FindBestSquare(squares, if xIsNext then X else O);
      if bestSquare != -1 {
        MakeMove(bestSquare);
      }
    }
  }
}
