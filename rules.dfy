/** The board and the rules of tic-tac-toe: cells, the 3x3 board, the fixed
    table of winning lines, and the evaluation of a board into an outcome
    (a winner, a draw, or a game still in progress). */
module Rules {

  datatype Option<T> = None | Some(value: T)

  /** The two marks. X is the human, O the computer. */
  datatype Player = X | O

  /** A cell is empty (`null` in the source) or holds a player's mark. */
  datatype Cell = Empty | Marked(player: Player)

  /** What evaluating a board can report: a winner, a draw, or nothing yet
      (`null` in the source). */
  datatype Outcome = Ongoing | Won(player: Player) | Draw

  /** A position on the board, row-major: row * 3 + column. */
  type Index = i: int | 0 <= i < 9

  /** The board is always exactly nine cells. */
  type Board = b: seq<Cell> | |b| == 9 witness EmptyBoard

  const EmptyBoard: seq<Cell> := [Empty, Empty, Empty, Empty, Empty, Empty, Empty, Empty, Empty]

  /** The eight winning index triples, in the order the source scans them:
      three rows, three columns, two diagonals. */
  const WinningLines: seq<(Index, Index, Index)> := [
    (0, 1, 2), (3, 4, 5), (6, 7, 8),
    (0, 3, 6), (1, 4, 7), (2, 5, 8),
    (0, 4, 8), (2, 4, 6)
  ]

  /** The player who moves after `p`. */
  function Other(p: Player): (q: Player)
    ensures q != p
  {
    if p == X then O else X
  }

  /** Player `p` holds all three cells of `line`. */
  predicate OwnedBy(b: Board, line: (Index, Index, Index), p: Player)
  {
    b[line.0] == Marked(p) && b[line.1] == Marked(p) && b[line.2] == Marked(p)
  }

  /** Some player holds all three cells of `line`. */
  predicate Complete(b: Board, line: (Index, Index, Index))
  {
    b[line.0].Marked? && OwnedBy(b, line, b[line.0].player)
  }

  /** Some line of the table is complete. */
  ghost predicate SomeLineComplete(b: Board)
  {
    exists k :: 0 <= k < |WinningLines| && Complete(b, WinningLines[k])
  }

  /** The scan of the winning-line table from entry `k` on: the mark of the
      first line whose three cells are non-empty and equal, if any. */
  function ScanLines(b: Board, k: nat): Option<Player>
    requires k <= |WinningLines|
    decreases |WinningLines| - k
  {
    if k == |WinningLines| then None
    else
      var line := WinningLines[k];
      if b[line.0] != Empty && b[line.0] == b[line.1] && b[line.0] == b[line.2] then
        Some(b[line.0].player)
      else
        ScanLines(b, k + 1)
  }

  /** The scan returns the owner of the first complete line from entry `k`
      on, and nothing when no line from `k` on is complete. */
  lemma {:induction false} ScanLinesFindsFirst(b: Board, k: nat)
    requires k <= |WinningLines|
    ensures ScanLines(b, k).Some? ==>
      exists j :: k <= j < |WinningLines| && OwnedBy(b, WinningLines[j], ScanLines(b, k).value) &&
        forall i :: k <= i < j ==> !Complete(b, WinningLines[i])
    ensures ScanLines(b, k).None? ==> forall j :: k <= j < |WinningLines| ==> !Complete(b, WinningLines[j])
    decreases |WinningLines| - k
  {
    if k < |WinningLines| {
      var line := WinningLines[k];
      if b[line.0] != Empty && b[line.0] == b[line.1] && b[line.0] == b[line.2] {
        assert OwnedBy(b, line, b[line.0].player);
      } else {
        ScanLinesFindsFirst(b, k + 1);
      }
    }
  }

  /** The evaluation of a board: the mark of the first complete line in
      table order; otherwise a draw when no cell is empty; otherwise the
      game goes on. A game that goes on always has an empty cell. */
  function CheckWinner(b: Board): (r: Outcome)
    ensures r == Ongoing ==> Empty in b
  {
    match ScanLines(b, 0)
    case Some(p) => Won(p)
    case None => if Empty in b then Ongoing else Draw
  }

  /** What the evaluation reports, stated against the line table: a win
      exactly when some line is complete, naming the owner of the first
      complete line in table order; a draw exactly when no line is complete
      and no cell is empty; and otherwise that the game goes on. */
  lemma CheckWinnerCorrect(b: Board)
    ensures CheckWinner(b).Won? ==>
      exists k :: 0 <= k < |WinningLines| && OwnedBy(b, WinningLines[k], CheckWinner(b).player) &&
        forall j :: 0 <= j < k ==> !Complete(b, WinningLines[j])
    ensures CheckWinner(b).Won? <==> SomeLineComplete(b)
    ensures CheckWinner(b) == Draw <==> !SomeLineComplete(b) && Empty !in b
    ensures CheckWinner(b) == Ongoing <==> !SomeLineComplete(b) && Empty in b
  {
    ScanLinesFindsFirst(b, 0);
  }

  /** The number of empty cells. */
  function EmptyCount(s: seq<Cell>): (n: nat)
    ensures n <= |s|
  {
    if s == [] then 0
    else (if s[0] == Empty then 1 else 0) + EmptyCount(s[1..])
  }

  /** Filling an empty cell lowers the empty-cell count by exactly one. */
  lemma {:induction false} EmptyCountFill(s: seq<Cell>, i: nat, c: Cell)
    requires i < |s| && s[i] == Empty && c != Empty
    ensures EmptyCount(s[i := c]) == EmptyCount(s) - 1
  {
    if i > 0 {
      EmptyCountFill(s[1..], i - 1, c);
      assert s[i := c][1..] == s[1..][i - 1 := c];
    }
  }

  /** A copy of the board with `p`'s mark at `i`: it differs from `b` at `i`
      only, and it has one empty cell fewer when that cell was empty. */
  function Place(b: Board, i: Index, p: Player): (r: Board)
    ensures r[i] == Marked(p)
    ensures forall j :: 0 <= j < 9 && j != i ==> r[j] == b[j]
    ensures b[i] == Empty ==> EmptyCount(r) == EmptyCount(b) - 1
  {
    if b[i] == Empty then
      EmptyCountFill(b, i, Marked(p));
      b[i := Marked(p)]
    else
      b[i := Marked(p)]
  }

  /** Adding a mark never undoes a complete line, so a board with a free
      cell that already has a result keeps a winner reported. */
  lemma PlaceKeepsFinished(b: Board, i: Index, p: Player)
    requires b[i] == Empty
    requires CheckWinner(b) != Ongoing
    ensures CheckWinner(Place(b, i, p)).Won?
  {
    CheckWinnerCorrect(b);
    CheckWinnerCorrect(Place(b, i, p));
    var k :| 0 <= k < |WinningLines| && Complete(b, WinningLines[k]);
    assert Complete(Place(b, i, p), WinningLines[k]);
  }

  /** Scenario: a full board with no complete line is a draw. */
  lemma FullBoardDraw()
    ensures CheckWinner([Marked(X), Marked(O), Marked(X),
                         Marked(X), Marked(O), Marked(O),
                         Marked(O), Marked(X), Marked(X)]) == Draw
  {
  }

  /** Scenario: a full board with a complete line reports the winner, not a draw. */
  lemma FullBoardWithLine()
    ensures CheckWinner([Marked(X), Marked(X), Marked(X),
                         Marked(O), Marked(O), Marked(X),
                         Marked(X), Marked(O), Marked(O)]) == Won(X)
  {
  }
}
