/**
 Exhaustive minimax over the game tree of a board. X maximizes and O
 minimizes one score: a win for X is +1, a win for O is -1, a draw is 0.
 */
module Search {
  import opened GameBoard

  /** The score of a finished game. */
  function Score(o: Outcome): (r: int)
    requires o != InProgress
    ensures -1 <= r <= 1
  {
    match o
    case Win(X) => 1
    case Win(O) => -1
    case Draw => 0
  }

  /**
   Stand-ins for the -Infinity and +Infinity seeds of the running maximum and
   minimum; both lie outside the score range.
   */
  const NegInfinity: int := -2
  const PosInfinity: int := 2

  /** The seed of the running best for the side to move. */
  function Seed(maximizing: bool): int {
    if maximizing then NegInfinity else PosInfinity
  }

  /** The mark of the side to move. */
  function Mover(maximizing: bool): Player {
    if maximizing then X else O
  }

  function Max(a: int, b: int): int { if a >= b then a else b }

  function Min(a: int, b: int): int { if a <= b then a else b }

  /** The running best after a child scoring `score`: the larger for the maximizer, the smaller for the minimizer. */
  function Better(maximizing: bool, score: int, best: int): int {
    if maximizing then Max(score, best) else Min(score, best)
  }

  /**
   The minimax score of a board with the given side to move. A finished
   board scores through the fixed table; otherwise every empty cell is tried
   in index order and the best child score for the mover is kept.
   */
  function Minimax(b: Board, maximizing: bool): (r: int)
    ensures -1 <= r <= 1
    ensures Evaluate(b) == Win(X) ==> r == 1
    ensures Evaluate(b) == Win(O) ==> r == -1
    ensures Evaluate(b) == Draw ==> r == 0
    decreases EmptyCount(b), 1
  {
    var outcome := Evaluate(b);
    if outcome != InProgress then Score(outcome)
    else Explore(b, maximizing, 0, Seed(maximizing))
  }

  /**
   The loop of the search from cell `i` on, with running best `best`: the
   score is never a seed once one empty cell has been tried.
   */
  function Explore(b: Board, maximizing: bool, i: nat, best: int): (r: int)
    requires i <= 9
    requires best == Seed(maximizing) || -1 <= best <= 1
    ensures (exists j :: i <= j < 9 && b[j] == Empty) ==> -1 <= r <= 1
    ensures (forall j :: i <= j < 9 ==> b[j] != Empty) ==> r == best
    decreases EmptyCount(b), 0, 9 - i
  {
    if i == 9 then best
    else if b[i] == Empty then
      Explore(b, maximizing, i + 1, Better(maximizing, ChildValue(b, maximizing, i), best))
    else
      Explore(b, maximizing, i + 1, best)
  }

  /** The score of the child reached by the mover playing the empty cell `j`. */
  function ChildValue(b: Board, maximizing: bool, j: Index): (r: int)
    requires b[j] == Empty
    ensures -1 <= r <= 1
    decreases EmptyCount(b), 0, 0
  {
    Minimax(Place(b, j, Mover(maximizing)), !maximizing)
  }

  /**
   The loop from cell `i` on ends with the running best or with the score of
   one of the children it tried.
   */
  lemma {:induction false} ExploreAttains(b: Board, maximizing: bool, i: nat, best: int)
    requires i <= 9
    requires best == Seed(maximizing) || -1 <= best <= 1
    ensures var r := Explore(b, maximizing, i, best);
      r == best || exists j :: i <= j < 9 && b[j] == Empty && r == ChildValue(b, maximizing, j)
    decreases 9 - i
  {
    ExploreStep(b, maximizing, i, best);
    if i < 9 {
      if b[i] == Empty {
        ExploreAttains(b, maximizing, i + 1, Better(maximizing, ChildValue(b, maximizing, i), best));
      } else {
        ExploreAttains(b, maximizing, i + 1, best);
      }
    }
  }

  /**
   The loop from cell `i` on ends at least as good for the mover as the
   running best and as every child it tried: no smaller for the maximizer,
   no larger for the minimizer.
   */
  lemma {:induction false} ExploreBounds(b: Board, maximizing: bool, i: nat, best: int)
    requires i <= 9
    requires best == Seed(maximizing) || -1 <= best <= 1
    ensures var r := Explore(b, maximizing, i, best);
      && (maximizing ==> best <= r && forall j :: i <= j < 9 && b[j] == Empty ==> ChildValue(b, maximizing, j) <= r)
      && (!maximizing ==> r <= best && forall j :: i <= j < 9 && b[j] == Empty ==> r <= ChildValue(b, maximizing, j))
    decreases 9 - i
  {
    ExploreStep(b, maximizing, i, best);
    if i < 9 {
      if b[i] == Empty {
        ExploreBounds(b, maximizing, i + 1, Better(maximizing, ChildValue(b, maximizing, i), best));
      } else {
        ExploreBounds(b, maximizing, i + 1, best);
      }
    }
  }

  /** One turn of the search loop: the end returns the running best, a filled cell is passed over, an empty cell is tried. */
  lemma ExploreStep(b: Board, maximizing: bool, i: nat, best: int)
    requires i <= 9
    requires best == Seed(maximizing) || -1 <= best <= 1
    ensures i == 9 ==> Explore(b, maximizing, i, best) == best
    ensures i < 9 && b[i] != Empty ==> Explore(b, maximizing, i, best) == Explore(b, maximizing, i + 1, best)
    ensures i < 9 && b[i] == Empty ==>
      Explore(b, maximizing, i, best) == Explore(b, maximizing, i + 1, Better(maximizing, ChildValue(b, maximizing, i), best))
  {
  }

  /**
   On a board still in progress, the maximizer's score is the largest and the
   minimizer's score the smallest of the scores of the children reached by
   playing one empty cell.
   */
  lemma MinimaxChoosesExtremum(b: Board, maximizing: bool)
    requires Evaluate(b) == InProgress
    ensures exists j :: 0 <= j < 9 && b[j] == Empty && Minimax(b, maximizing) == ChildValue(b, maximizing, j)
    ensures maximizing ==> forall j :: 0 <= j < 9 && b[j] == Empty ==> ChildValue(b, maximizing, j) <= Minimax(b, maximizing)
    ensures !maximizing ==> forall j :: 0 <= j < 9 && b[j] == Empty ==> Minimax(b, maximizing) <= ChildValue(b, maximizing, j)
  {
    ExploreAttains(b, maximizing, 0, Seed(maximizing));
    ExploreBounds(b, maximizing, 0, Seed(maximizing));
  }

  /**
   The scoring is zero-sum and symmetric in the marks: exchanging X and O on
   the board and the side to move negates the score.
   */
  lemma {:induction false} MinimaxSwapped(b: Board, maximizing: bool)
    ensures Minimax(SwapMarks(b), !maximizing) == -Minimax(b, maximizing)
    decreases EmptyCount(b)
  {
    var s := SwapMarks(b);
    EvaluateSwapped(b);
    if Evaluate(b) == InProgress {
      forall j: Index | b[j] == Empty
        ensures s[j] == Empty && ChildValue(s, !maximizing, j) == -ChildValue(b, maximizing, j)
      {
        PlaceSwapped(b, j, Mover(maximizing));
        assert Mover(!maximizing) == Opponent(Mover(maximizing));
        MinimaxSwapped(Place(b, j, Mover(maximizing)), !maximizing);
      }
      forall j: Index | s[j] == Empty
        ensures b[j] == Empty
      {
        assert s[j] == SwapCell(b[j]);
      }
      MinimaxChoosesExtremum(b, maximizing);
      MinimaxChoosesExtremum(s, !maximizing);
    }
  }

  /**
   The search on a mutable board: each tried cell is written, searched and
   written back to empty, so the board ends as it began, and the score is
   that of the pure search.
   */
  method MinimaxInPlace(a: array<Cell>, maximizing: bool) returns (r: int)
    requires a.Length == 9
    modifies a
    ensures a[..] == old(a[..])
    ensures r == Minimax(old(a[..]), maximizing)
    decreases EmptyCount(a[..])
  {
    var b: Board := a[..];
    var outcome := Evaluate(b);
    if outcome != InProgress {
      return Score(outcome);
    }
    var best := Seed(maximizing);
    var i := 0;
    while i < 9
      invariant 0 <= i <= 9
      invariant a[..] == b
      invariant best == Seed(maximizing) || -1 <= best <= 1
      invariant Explore(b, maximizing, i, best) == Minimax(b, maximizing)
    {
      if a[i] == Empty {
        a[i] := Marked(Mover(maximizing));
        assert a[..] == Place(b, i, Mover(maximizing));
        var score := MinimaxInPlace(a, !maximizing);
        a[i] := Empty;
        assert a[..] == b;
        best := Better(maximizing, score, best);
      }
      i := i + 1;
    }
    r := best;
  }
}
