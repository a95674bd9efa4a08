/** The computer player's exhaustive minimax search. O maximises, X
    minimises; a win for O at depth d scores 10 - d, a win for X scores
    -10 + d, a draw scores 0. */
module Search {
  import opened Rules

  /** The numbers a score can take in the source: integers, and the
      -Infinity / Infinity that start the max and min accumulators. */
  datatype Score = NegInf | Finite(value: int) | PosInf

  /** The strict numeric order on scores, infinities included. */
  predicate Less(a: Score, b: Score)
  {
    || (a.NegInf? && !b.NegInf?)
    || (b.PosInf? && !a.PosInf?)
    || (a.Finite? && b.Finite? && a.value < b.value)
  }

  /** `Math.max` on scores. */
  function Max(a: Score, b: Score): (r: Score)
    ensures !Less(r, a) && !Less(r, b)
    ensures r == a || r == b
  {
    if Less(a, b) then b else a
  }

  /** `Math.min` on scores. */
  function Min(a: Score, b: Score): (r: Score)
    ensures !Less(a, r) && !Less(b, r)
    ensures r == a || r == b
  {
    if Less(b, a) then b else a
  }

  /** The board reached when the side to move plays at `i`: O when
      maximising, X when minimising. */
  function Child(b: Board, i: Index, maximizing: bool): Board
  {
    Place(b, i, if maximizing then O else X)
  }

  /** The score of a board with `depth` plies already searched and the given
      side to move. */
  function Minimax(b: Board, depth: int, maximizing: bool): Score
    decreases EmptyCount(b), 10
  {
    match CheckWinner(b)
    case Won(X) => Finite(-10 + depth)
    case Won(O) => Finite(10 - depth)
    case Draw => Finite(0)
    case Ongoing => Fold(b, depth, maximizing, 0, if maximizing then NegInf else PosInf)
  }

  /** The `forEach` over the cells from index `i` on: every empty cell is
      tried on a copy of the board, and its score is folded into the
      running best `acc` with max (maximising) or min (minimising). */
  function Fold(b: Board, depth: int, maximizing: bool, i: nat, acc: Score): Score
    requires i <= 9
    decreases EmptyCount(b), 9 - i
  {
    if i == 9 then acc
    else if b[i] == Empty then
      var score := Minimax(Child(b, i, maximizing), depth + 1, !maximizing);
      Fold(b, depth, maximizing, i + 1, if maximizing then Max(score, acc) else Min(score, acc))
    else
      Fold(b, depth, maximizing, i + 1, acc)
  }

  /** The fold ends with the best of its start value and the scores of the
      empty cells from `i` on, and that best is one of them. */
  lemma {:induction false} FoldIsBest(b: Board, depth: int, maximizing: bool, i: nat, acc: Score)
    requires i <= 9
    ensures var r := Fold(b, depth, maximizing, i, acc);
      if maximizing then
        !Less(r, acc) &&
        forall j :: i <= j < 9 && b[j] == Empty ==> !Less(r, Minimax(Child(b, j, true), depth + 1, false))
      else
        !Less(acc, r) &&
        forall j :: i <= j < 9 && b[j] == Empty ==> !Less(Minimax(Child(b, j, false), depth + 1, true), r)
    ensures var r := Fold(b, depth, maximizing, i, acc);
      r == acc ||
      exists j :: i <= j < 9 && b[j] == Empty && r == Minimax(Child(b, j, maximizing), depth + 1, !maximizing)
    decreases 9 - i
  {
    if i < 9 {
      if b[i] == Empty {
        var score := Minimax(Child(b, i, maximizing), depth + 1, !maximizing);
        FoldIsBest(b, depth, maximizing, i + 1, if maximizing then Max(score, acc) else Min(score, acc));
      } else {
        FoldIsBest(b, depth, maximizing, i + 1, acc);
      }
    }
  }

  /** Minimax never returns the -Infinity or Infinity it starts from: a game
      that is not over has an empty cell, so the fold sees a real score. */
  lemma {:induction false} MinimaxFinite(b: Board, depth: int, maximizing: bool)
    ensures Minimax(b, depth, maximizing).Finite?
    decreases EmptyCount(b)
  {
    if CheckWinner(b) == Ongoing {
      var init := if maximizing then NegInf else PosInf;
      forall j: Index | b[j] == Empty
        ensures Minimax(Child(b, j, maximizing), depth + 1, !maximizing).Finite?
      {
        MinimaxFinite(Child(b, j, maximizing), depth + 1, !maximizing);
      }
      FoldIsBest(b, depth, maximizing, 0, init);
      var r := Fold(b, depth, maximizing, 0, init);
      assert Minimax(b, depth, maximizing) == r;
      // Some cell is empty, and its real score bounds r, so r is not `init`.
      var j :| 0 <= j < 9 && b[j] == Empty;
      assert r != init;
    }
  }

  /** The score of a game not yet over is the score of one of its moves. */
  lemma MinimaxPicksChild(b: Board, depth: int, maximizing: bool) returns (j: Index)
    requires CheckWinner(b) == Ongoing
    ensures b[j] == Empty
    ensures Minimax(b, depth, maximizing) == Minimax(Child(b, j, maximizing), depth + 1, !maximizing)
  {
    var init := if maximizing then NegInf else PosInf;
    FoldIsBest(b, depth, maximizing, 0, init);
    MinimaxFinite(b, depth, maximizing);
    var r := Fold(b, depth, maximizing, 0, init);
    assert Minimax(b, depth, maximizing) == r;
    j :| 0 <= j < 9 && b[j] == Empty && r == Minimax(Child(b, j, maximizing), depth + 1, !maximizing);
  }

  /** What Minimax computes: the depth-adjusted score of a finished board,
      and otherwise the best score over the moves of the side to move, which
      some move achieves. */
  lemma MinimaxIsBest(b: Board, depth: int, maximizing: bool)
    ensures CheckWinner(b) == Won(X) ==> Minimax(b, depth, maximizing) == Finite(-10 + depth)
    ensures CheckWinner(b) == Won(O) ==> Minimax(b, depth, maximizing) == Finite(10 - depth)
    ensures CheckWinner(b) == Draw ==> Minimax(b, depth, maximizing) == Finite(0)
    ensures CheckWinner(b) == Ongoing ==>
      (exists j :: 0 <= j < 9 && b[j] == Empty &&
         Minimax(b, depth, maximizing) == Minimax(Child(b, j, maximizing), depth + 1, !maximizing)) &&
      forall j :: 0 <= j < 9 && b[j] == Empty ==>
        if maximizing then !Less(Minimax(b, depth, true), Minimax(Child(b, j, true), depth + 1, false))
        else !Less(Minimax(Child(b, j, false), depth + 1, true), Minimax(b, depth, false))
  {
    if CheckWinner(b) == Ongoing {
      FoldIsBest(b, depth, maximizing, 0, if maximizing then NegInf else PosInf);
      MinimaxFinite(b, depth, maximizing);
    }
  }

  /** With a non-negative depth and at most 20 plies to the deepest leaf
      (always so for depths 0 to 11), the score lies in [-10, 10]. */
  lemma {:induction false} MinimaxBounds(b: Board, depth: int, maximizing: bool)
    requires 0 <= depth && depth + EmptyCount(b) <= 20
    ensures Minimax(b, depth, maximizing).Finite?
    ensures -10 <= Minimax(b, depth, maximizing).value <= 10
    decreases EmptyCount(b)
  {
    MinimaxFinite(b, depth, maximizing);
    if CheckWinner(b) == Ongoing {
      var j := MinimaxPicksChild(b, depth, maximizing);
      var c := Child(b, j, maximizing);
      assert EmptyCount(c) == EmptyCount(b) - 1;
      MinimaxBounds(c, depth + 1, !maximizing);
    }
  }

  /** With at most 10 plies to the deepest leaf, the score is at most
      10 - depth, and at most 9 - depth while the game is not over: a game
      still going cannot reach the score of a win on the board itself. */
  lemma {:induction false} MinimaxUpperBound(b: Board, depth: int, maximizing: bool)
    requires 0 <= depth && depth + EmptyCount(b) <= 10
    ensures Minimax(b, depth, maximizing).Finite?
    ensures Minimax(b, depth, maximizing).value <= 10 - depth
    ensures CheckWinner(b) == Ongoing ==> Minimax(b, depth, maximizing).value <= 9 - depth
    decreases EmptyCount(b)
  {
    MinimaxFinite(b, depth, maximizing);
    if CheckWinner(b) == Ongoing {
      var j := MinimaxPicksChild(b, depth, maximizing);
      var c := Child(b, j, maximizing);
      assert EmptyCount(c) == EmptyCount(b) - 1;
      MinimaxUpperBound(c, depth + 1, !maximizing);
    }
  }

  /** The score `makeAIMove` gives to O playing at `k`. */
  function MoveScore(b: Board, k: Index): Score
  {
    Minimax(Place(b, k, O), 0, false)
  }

  /** `k` is the move `makeAIMove` picks: an empty cell whose score no empty
      cell beats, and every empty cell before it scores strictly less. */
  ghost predicate IsBestMove(b: Board, k: Index)
  {
    && b[k] == Empty
    && (forall j :: 0 <= j < 9 && b[j] == Empty ==> !Less(MoveScore(b, k), MoveScore(b, j)))
    && (forall j :: 0 <= j < k && b[j] == Empty ==> Less(MoveScore(b, j), MoveScore(b, k)))
  }

  /** The scoring loop of `makeAIMove`: scan the cells in ascending order,
      score each empty one, keep the first strict improvement. No cell is
      chosen on a full board. */
  method ChooseMove(b: Board) returns (move: Option<Index>)
    ensures move.None? <==> Empty !in b
    ensures move.Some? ==> IsBestMove(b, move.value)
  {
    var bestScore := NegInf;
    move := None;
    for i := 0 to 9
      invariant move.None? <==> forall j :: 0 <= j < i ==> b[j] != Empty
      invariant move.None? ==> bestScore == NegInf
      invariant move.Some? ==>
        && move.value < i && b[move.value] == Empty
        && bestScore == MoveScore(b, move.value)
        && (forall j :: 0 <= j < i && b[j] == Empty ==> !Less(bestScore, MoveScore(b, j)))
        && (forall j :: 0 <= j < move.value && b[j] == Empty ==> Less(MoveScore(b, j), bestScore))
    {
      if b[i] == Empty {
        var tempBoard := Place(b, i, O);
        var score := Minimax(tempBoard, 0, false);
        MinimaxFinite(tempBoard, 0, false);
        if Less(bestScore, score) {
          bestScore := score;
          move := Some(i);
        }
      }
    }
  }

  /** A board admits at most one best move, so the choice is determined by
      the board alone. */
  lemma BestMoveUnique(b: Board, k1: Index, k2: Index)
    requires IsBestMove(b, k1) && IsBestMove(b, k2)
    ensures k1 == k2
  {
  }

  /** A move that wins at once scores 10, the most any move can score. */
  lemma ImmediateWinScoresTen(b: Board, j: Index)
    requires b[j] == Empty && CheckWinner(Place(b, j, O)) == Won(O)
    ensures MoveScore(b, j) == Finite(10)
    ensures forall k :: 0 <= k < 9 && b[k] == Empty ==> !Less(MoveScore(b, j), MoveScore(b, k))
  {
    forall k: Index | b[k] == Empty
      ensures !Less(MoveScore(b, j), MoveScore(b, k))
    {
      MinimaxBounds(Place(b, k, O), 0, false);
    }
  }

  /** A move scores 10 only when it wins at once. */
  lemma TenMeansImmediateWin(b: Board, k: Index)
    requires b[k] == Empty && MoveScore(b, k) == Finite(10)
    ensures CheckWinner(Place(b, k, O)) == Won(O)
  {
    MinimaxUpperBound(Place(b, k, O), 0, false);
  }

  /** So when O can win at once at `j`, the best move wins at once too,
      at `j` or at a lower index: `j` is chosen unless a lower-indexed
      empty cell also wins at once. */
  lemma ImmediateWinChosen(b: Board, j: Index)
    requires b[j] == Empty && CheckWinner(Place(b, j, O)) == Won(O)
    ensures forall k :: 0 <= k < 9 && IsBestMove(b, k) ==>
      k <= j && MoveScore(b, k) == Finite(10) && CheckWinner(Place(b, k, O)) == Won(O)
  {
    ImmediateWinScoresTen(b, j);
    forall k: Index | IsBestMove(b, k)
      ensures k <= j && MoveScore(b, k) == Finite(10) && CheckWinner(Place(b, k, O)) == Won(O)
    {
      MinimaxBounds(Place(b, k, O), 0, false);
      TenMeansImmediateWin(b, k);
    }
  }

  /** The board of the winning-move scenario below. */
  const WinBoard: Board :=
    [Marked(O), Marked(O), Empty, Marked(X), Marked(X), Empty, Empty, Empty, Empty]

  /** Scenario: O takes the win at 2 on [O, O, _, X, X, _, _, _, _] rather
      than anything else. */
  lemma TakesTheWin()
    ensures IsBestMove(WinBoard, 2)
  {
    assert OwnedBy(Place(WinBoard, 2, O), WinningLines[0], O);
    ImmediateWinScoresTen(WinBoard, 2);
  }

  /** The board of the blocking scenario below. */
  const BlockBoard: Board :=
    [Marked(X), Marked(X), Empty, Marked(O), Marked(O), Marked(X), Marked(X), Marked(O), Empty]

  /** On the blocking board, O at 2 leaves X only 8, which draws. */
  lemma BlockScore()
    ensures MoveScore(BlockBoard, 2) == Finite(0)
  {
    var after := Place(BlockBoard, 2, O);
    assert after == [Marked(X), Marked(X), Marked(O), Marked(O), Marked(O), Marked(X), Marked(X), Marked(O), Empty];
    assert CheckWinner(after) == Ongoing;
    var last := Place(after, 8, X);
    assert CheckWinner(last) == Draw;
    assert Minimax(last, 1, true) == Finite(0);
    assert Fold(after, 0, false, 8, PosInf) == Finite(0);
  }

  /** On the blocking board, O at 8 lets X complete the top row at depth 1. */
  lemma NoBlockScore()
    ensures MoveScore(BlockBoard, 8) == Finite(-9)
  {
    var after := Place(BlockBoard, 8, O);
    assert after == [Marked(X), Marked(X), Empty, Marked(O), Marked(O), Marked(X), Marked(X), Marked(O), Marked(O)];
    assert CheckWinner(after) == Ongoing;
    var last := Place(after, 2, X);
    assert OwnedBy(last, WinningLines[0], X);
    assert CheckWinner(last) == Won(X);
    assert Minimax(last, 1, true) == Finite(-9);
    assert Fold(after, 0, false, 8, Finite(-9)) == Finite(-9);
    assert Fold(after, 0, false, 6, Finite(-9)) == Finite(-9);
    assert Fold(after, 0, false, 4, Finite(-9)) == Finite(-9);
    assert Fold(after, 0, false, 3, Finite(-9)) == Finite(-9);
    assert Fold(after, 0, false, 2, PosInf) == Finite(-9);
    assert Fold(after, 0, false, 0, PosInf) == Finite(-9);
  }

  /** Scenario: on [X, X, _, O, O, X, X, O, _] O must block at 2: playing 8
      lets X complete the top row (score -9), playing 2 leads to a draw. */
  lemma BlocksTheRow()
    ensures IsBestMove(BlockBoard, 2)
  {
    BlockScore();
    NoBlockScore();
    assert forall j :: 0 <= j < 9 && BlockBoard[j] == Empty ==> j == 2 || j == 8;
  }
}
