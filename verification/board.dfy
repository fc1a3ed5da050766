/**
 The board model of the tic-tac-toe game: cells, the 3x3 board in row-major
 order, the eight winning lines and the classification of a board as won,
 drawn or still in progress.
 */
module GameBoard {

  /** The two marks. X is the computer (the maximizer), O the human. */
  datatype Player = X | O

  /** A cell is empty (the empty string in the game) or holds a mark. */
  datatype Cell = Empty | Marked(mark: Player)

  /** A cell index 0..8; row r, column c is index 3 * r + c. */
  type Index = i: nat | i < 9

  /** The game keeps exactly nine cells. */
  type Board = b: seq<Cell> | |b| == 9
    witness [Empty, Empty, Empty, Empty, Empty, Empty, Empty, Empty, Empty]

  /** The eight winning triples, scanned in this order: rows, columns, diagonals. */
  const WinPatterns: seq<(Index, Index, Index)> := [
    (0, 1, 2), (3, 4, 5), (6, 7, 8),
    (0, 3, 6), (1, 4, 7), (2, 5, 8),
    (0, 4, 8), (2, 4, 6)
  ]

  /** The classification of a board. */
  datatype Outcome = Win(winner: Player) | Draw | InProgress

  /** Line `k` of the pattern list holds three equal non-empty cells. */
  predicate Completes(b: Board, k: nat)
    requires k < |WinPatterns|
  {
    var (p, q, r) := WinPatterns[k];
    b[p] != Empty && b[p] == b[q] && b[q] == b[r]
  }

  /** Some line of the board is complete. */
  predicate HasLine(b: Board) {
    exists k :: 0 <= k < |WinPatterns| && Completes(b, k)
  }

  /** Line `k` is the first complete line in pattern order. */
  predicate IsFirstLine(b: Board, k: nat) {
    && k < |WinPatterns|
    && Completes(b, k)
    && forall l :: 0 <= l < k ==> !Completes(b, l)
  }

  /** The mark occupying the first cell of line `k`. */
  function LineOwner(b: Board, k: nat): Cell
    requires k < |WinPatterns|
  {
    b[WinPatterns[k].0]
  }

  /** No cell is empty. */
  predicate Full(b: Board) {
    forall i :: 0 <= i < 9 ==> b[i] != Empty
  }

  /**
   Scans the patterns from position `k` on and yields the owner of the first
   complete line, if any.
   */
  function FirstWinner(b: Board, k: nat): (r: Cell)
    requires k <= |WinPatterns|
    ensures r == Empty <==> forall l :: k <= l < |WinPatterns| ==> !Completes(b, l)
    ensures r != Empty ==>
      exists l :: k <= l < |WinPatterns| && Completes(b, l) && LineOwner(b, l) == r
        && forall m :: k <= m < l ==> !Completes(b, m)
    decreases |WinPatterns| - k
  {
    if k == |WinPatterns| then Empty
    else if Completes(b, k) then LineOwner(b, k)
    else FirstWinner(b, k + 1)
  }

  /**
   Classifies a board: the mark of the first complete line in pattern order;
   otherwise a draw when every cell is filled; otherwise still in progress.
   */
  function Evaluate(b: Board): (r: Outcome)
    ensures r.Win? ==> exists k :: IsFirstLine(b, k) && LineOwner(b, k) == Marked(r.winner)
    ensures r.Win? <==> HasLine(b)
    ensures r == Draw <==> !HasLine(b) && Full(b)
    ensures r == InProgress <==> !HasLine(b) && !Full(b)
  {
    var first := FirstWinner(b, 0);
    if first.Marked? then Win(first.mark)
    else if Full(b) then Draw
    else InProgress
  }

  /** The number of empty cells of a row of cells. */
  function EmptyCount(s: seq<Cell>): nat
  {
    if |s| == 0 then 0
    else (if s[0] == Empty then 1 else 0) + EmptyCount(s[1..])
  }

  /** Filling one empty cell lowers the empty-cell count by exactly one. */
  lemma {:induction false} FillOneCell(s: seq<Cell>, i: nat, c: Cell)
    requires i < |s| && s[i] == Empty && c != Empty
    ensures EmptyCount(s[i := c]) == EmptyCount(s) - 1
    decreases |s|
  {
    if i == 0 {
      assert s[i := c][1..] == s[1..];
    } else {
      assert s[i := c][1..] == s[1..][i - 1 := c];
      FillOneCell(s[1..], i - 1, c);
    }
  }

  /**
   Puts mark `p` into the empty cell `i`: the board gains exactly one
   non-empty cell, and every other cell keeps its content.
   */
  function Place(b: Board, i: Index, p: Player): (r: Board)
    requires b[i] == Empty
    ensures r[i] == Marked(p)
    ensures forall j :: 0 <= j < 9 && j != i ==> r[j] == b[j]
    ensures EmptyCount(r) == EmptyCount(b) - 1
  {
    FillOneCell(b, i, Marked(p));
    b[i := Marked(p)]
  }

  /** Evaluation does not depend on pattern order when one mark owns every complete line. */
  lemma EvaluateSoleOwner(b: Board, p: Player)
    requires HasLine(b)
    requires forall k :: 0 <= k < |WinPatterns| && Completes(b, k) ==> LineOwner(b, k) == Marked(p)
    ensures Evaluate(b) == Win(p)
  {
  }

  /** The other mark. */
  function Opponent(p: Player): Player {
    match p
    case X => O
    case O => X
  }

  /** A cell with its mark exchanged for the other one. */
  function SwapCell(c: Cell): Cell {
    match c
    case Empty => Empty
    case Marked(p) => Marked(Opponent(p))
  }

  /** The board with every X replaced by O and every O by X. */
  function SwapMarks(b: Board): (r: Board)
    ensures forall i :: 0 <= i < 9 ==> r[i] == SwapCell(b[i])
  {
    seq(9, i requires 0 <= i < 9 => SwapCell(b[i]))
  }

  /** Placing a mark and then exchanging the marks is placing the other mark on the exchanged board. */
  lemma PlaceSwapped(b: Board, i: Index, p: Player)
    requires b[i] == Empty
    ensures SwapMarks(b)[i] == Empty
    ensures Place(SwapMarks(b), i, Opponent(p)) == SwapMarks(Place(b, i, p))
  {
    assert SwapMarks(b)[i] == SwapCell(b[i]);
  }

  /** Exchanging the marks on the pattern scan from position `k` on exchanges the winner found. */
  lemma {:induction false} FirstWinnerSwapped(b: Board, k: nat)
    requires k <= |WinPatterns|
    ensures FirstWinner(SwapMarks(b), k) == SwapCell(FirstWinner(b, k))
    decreases |WinPatterns| - k
  {
    if k < |WinPatterns| {
      assert Completes(SwapMarks(b), k) <==> Completes(b, k);
      FirstWinnerSwapped(b, k + 1);
    }
  }

  /** Exchanging the marks exchanges the winner and keeps a draw or a game in progress. */
  lemma EvaluateSwapped(b: Board)
    ensures Evaluate(SwapMarks(b)) ==
      match Evaluate(b)
      case Win(p) => Win(Opponent(p))
      case Draw => Draw
      case InProgress => InProgress
  {
    FirstWinnerSwapped(b, 0);
    assert Full(SwapMarks(b)) <==> Full(b);
  }
}
