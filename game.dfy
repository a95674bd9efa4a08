/** The game state the component keeps between clicks: the board, whose turn
    it is, and the recorded result, with the human's click, the computer's
    move and the reset that change them. */
module App {
  import opened Rules
  import opened Search

  class Game {
    /** The current board; each update installs a new nine-cell array. */
    var board: array<Cell>
    /** The player whose mark the next click places. */
    var turn: Player
    /** The recorded result; `Ongoing` stands for the source's `null`. */
    var winner: Outcome

    /** The board has nine cells, and a result is recorded exactly when the
        board's evaluation says the game is over. */
    ghost predicate Valid()
      reads this, board
    {
      board.Length == 9 && ((winner == Ongoing) <==> (CheckWinner(board[..]) == Ongoing))
    }

    function Cells(): (b: Board)
      reads this, board
      requires Valid()
    {
      board[..]
    }

    /** The initial state: an empty board, X to move, no result. */
    constructor ()
      ensures Valid() && fresh(board)
      ensures Cells() == EmptyBoard && turn == X && winner == Ongoing
    {
      board := new Cell[9](_ => Empty);
      turn := X;
      winner := Ongoing;
      new;
      assert board[..] == EmptyBoard;
    }

    /** "Play Again": back to the initial state. */
    method Reset()
      modifies this
      ensures Valid() && fresh(board)
      ensures Cells() == EmptyBoard && turn == X && winner == Ongoing
    {
      board := new Cell[9](_ => Empty);
      turn := X;
      winner := Ongoing;
      assert board[..] == EmptyBoard;
    }

    /** A click on cell `index`. A click on a filled cell or after the game
        has ended does nothing. Otherwise the current player's mark goes on
        a copy of the board at `index`; a finished game records its result,
        and a game still going passes the turn to the other player.
        `aiScheduled` tells whether the computer's reply was scheduled,
        which happens when X moved and the game goes on. */
    method HandleClick(index: Index) returns (aiScheduled: bool)
      requires Valid()
      modifies this
      ensures Valid()
      ensures old(Cells()[index] != Empty || winner != Ongoing) ==>
        board == old(board) && Cells() == old(Cells()) &&
        turn == old(turn) && winner == old(winner) && !aiScheduled
      ensures old(Cells()[index] == Empty && winner == Ongoing) ==>
        fresh(board) && Cells() == old(Cells())[index := Marked(old(turn))] &&
        winner == CheckWinner(Cells()) &&
        turn == (if winner == Ongoing then Other(old(turn)) else old(turn)) &&
        aiScheduled == (winner == Ongoing && old(turn) == X)
    {
      aiScheduled := false;
      if board[index] != Empty || winner != Ongoing {
        return;
      }
      var cells := board[..];
      var newBoard := new Cell[9](i requires 0 <= i < 9 => cells[i]);
      newBoard[index] := Marked(turn);
      assert newBoard[..] == cells[index := Marked(turn)];
      board := newBoard;
      var gameWinner := CheckWinner(newBoard[..]);
      if gameWinner != Ongoing {
        winner := gameWinner;
      } else {
        var mover := turn;
        turn := Other(turn);
        aiScheduled := mover == X;
      }
    }

    /** The computer's move: O goes on the best empty cell (the lowest index
        among the best scores), written into the current board array in
        place, after which a copy of it becomes the board. A finished game
        records its result; otherwise it is X's turn. A full board changes
        nothing. */
    method MakeAIMove()
      requires Valid()
      modifies this, board
      ensures Valid()
      ensures Empty !in old(Cells()) ==>
        board == old(board) && Cells() == old(Cells()) &&
        turn == old(turn) && winner == old(winner)
      ensures Empty in old(Cells()) ==>
        exists k: Index :: IsBestMove(old(Cells()), k) && Cells() == old(Cells())[k := Marked(O)] &&
          fresh(board) && old(board)[..] == Cells() &&
          (if CheckWinner(Cells()) != Ongoing
           then winner == CheckWinner(Cells()) && turn == old(turn)
           else winner == old(winner) && turn == X)
    {
      ghost var before := board[..];
      var bestMove := ChooseMove(board[..]);
      if bestMove.Some? {
        var k := bestMove.value;
        ghost var after := Place(before, k, O);
        if winner != Ongoing {
          PlaceKeepsFinished(before, k, O);
        }
        board[k] := Marked(O);
        assert board[..] == after;
        var cells := board[..];
        var copy := new Cell[9](i requires 0 <= i < 9 => cells[i]);
        assert copy[..] == after;
        board := copy;
        var gameWinner := CheckWinner(cells);
        if gameWinner != Ongoing {
          winner := gameWinner;
        } else {
          turn := X;
        }
        assert IsBestMove(before, k) && Cells() == before[k := Marked(O)];
      }
    }
  }
}
