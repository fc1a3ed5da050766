/**
 The computer's move: X tries every empty cell, scores the resulting board
 with O to move, and keeps the first cell whose score beats every earlier one.
 */
module Selection {
  import opened GameBoard
  import opened Search

  /** The chosen cell, or none when the board has no empty cell. */
  datatype Move = NoMove | MoveAt(index: Index)

  /**
   Cell `m` is an empty cell with the highest score for X, and no empty cell
   before it scores as high.
   */
  predicate IsChosenMove(b: Board, m: Index) {
    && b[m] == Empty
    && (forall j :: 0 <= j < 9 && b[j] == Empty ==> ChildValue(b, true, j) <= ChildValue(b, true, m))
    && (forall j :: 0 <= j < m && b[j] == Empty ==> ChildValue(b, true, j) < ChildValue(b, true, m))
  }

  /**
   The selection loop of the computer's turn. With an empty cell, it returns
   the lowest-index best-scoring cell and the board with X placed there;
   without one, it returns no move and the board unchanged.
   */
  method ComputerMove(b: Board) returns (move: Move, next: Board)
    ensures move.NoMove? <==> Full(b)
    ensures move.MoveAt? ==> IsChosenMove(b, move.index) && next == Place(b, move.index, X)
    ensures move.NoMove? ==> next == b
  {
    var bestScore := NegInfinity;
    move := NoMove;
    var i := 0;
    while i < 9
      invariant 0 <= i <= 9
      invariant move.NoMove? <==> forall j :: 0 <= j < i ==> b[j] != Empty
      invariant move.NoMove? ==> bestScore == NegInfinity
      invariant move.MoveAt? ==>
        && move.index < i
        && b[move.index] == Empty
        && bestScore == ChildValue(b, true, move.index)
        && (forall j :: 0 <= j < i && b[j] == Empty ==> ChildValue(b, true, j) <= bestScore)
        && (forall j :: 0 <= j < move.index && b[j] == Empty ==> ChildValue(b, true, j) < bestScore)
    {
      if b[i] == Empty {
        var score := ChildValue(b, true, i);
        if score > bestScore {
          bestScore := score;
          move := MoveAt(i);
        }
      }
      i := i + 1;
    }
    if move.MoveAt? {
      next := Place(b, move.index, X);
    } else {
      next := b;
    }
  }

  /** The tie-break leaves at most one cell that can be chosen. */
  lemma ChosenMoveUnique(b: Board, m1: Index, m2: Index)
    ensures IsChosenMove(b, m1) && IsChosenMove(b, m2) ==> m1 == m2
  {
  }

  /**
   On a board still in progress, the chosen cell attains the minimax value of
   the board with X to move.
   */
  lemma ChosenMoveAttainsValue(b: Board, m: Index)
    ensures Evaluate(b) == InProgress && IsChosenMove(b, m) ==> ChildValue(b, true, m) == Minimax(b, true)
  {
    if Evaluate(b) == InProgress && IsChosenMove(b, m) {
      MinimaxChoosesExtremum(b, true);
      var j :| 0 <= j < 9 && b[j] == Empty && Minimax(b, true) == ChildValue(b, true, j);
      assert ChildValue(b, true, j) <= ChildValue(b, true, m);
    }
  }

  /**
   A round of play never lowers X's value: after X plays the chosen cell and
   O answers in any empty cell, the board with X to move is worth at least
   what the board before the round was worth. In particular O cannot win
   that round against a board that X does not lose under best play.
   */
  lemma RoundKeepsValue(b: Board, m: Index, j: Index)
    ensures
      && Evaluate(b) == InProgress
      && IsChosenMove(b, m)
      && Evaluate(Place(b, m, X)) == InProgress
      && Place(b, m, X)[j] == Empty
      ==>
      var after := Place(Place(b, m, X), j, O);
      && Minimax(b, true) <= Minimax(after, true)
      && (Minimax(b, true) >= 0 ==> Evaluate(after) != Win(O))
  {
    if && Evaluate(b) == InProgress
       && IsChosenMove(b, m)
       && Evaluate(Place(b, m, X)) == InProgress
       && Place(b, m, X)[j] == Empty
    {
      ChosenMoveAttainsValue(b, m);
      MinimaxChoosesExtremum(Place(b, m, X), false);
      assert ChildValue(Place(b, m, X), false, j) >= Minimax(Place(b, m, X), false);
    }
  }

  /**
   With X O X on the top row and O X O on the middle row, X playing cell 6
   completes the diagonal 2-4-6; cell 6 is the first empty cell and scores a
   win, so it is the cell chosen.
   */
  lemma ChoosesImmediateWin(b: Board)
    requires b == [Marked(X), Marked(O), Marked(X), Marked(O), Marked(X), Marked(O), Empty, Empty, Empty]
    ensures IsChosenMove(b, 6) && ChildValue(b, true, 6) == 1
  {
    DiagonalWin(Place(b, 6, X));
  }

  /** The board X O X / O X O / X _ _ is won by X on the diagonal 2-4-6. */
  lemma DiagonalWin(c: Board)
    requires c == [Marked(X), Marked(O), Marked(X), Marked(O), Marked(X), Marked(O), Marked(X), Empty, Empty]
    ensures Evaluate(c) == Win(X)
  {
    assert Completes(c, 7);
    forall k | 0 <= k < |WinPatterns| && Completes(c, k)
      ensures LineOwner(c, k) == Marked(X)
    {
      assert k == 7;
    }
    EvaluateSoleOwner(c, X);
  }
}
