/** The live game board: one mutable array of nine cells that moves are
    written into and that fresh games replace. */
module Board {
  import opened Rules

  class GameBoard {
    var board: array<Cell>

    ghost predicate Valid()
      reads this
    {
      board.Length == 9
    }

    /** The board as first created: nine empty cells. */
    constructor ()
      ensures Valid() && fresh(board) && board[..] == EmptyBoard
    {
      board := new Cell[9](_ => Empty);
    }

    /** `getBoard`: a defensive copy; writing into it never reaches the live board. */
    method GetBoard() returns (copy: array<Cell>)
      requires Valid()
      ensures fresh(copy) && copy[..] == board[..]
    {
      var cells := board[..];
      copy := new Cell[9](i requires 0 <= i < 9 => cells[i]);
    }

    /** `resetBoard`: the live board is replaced by nine empty cells, and a
        copy of the new board is returned. */
    method ResetBoard() returns (snapshot: array<Cell>)
      modifies this
      ensures Valid() && fresh(board) && board[..] == EmptyBoard
      ensures fresh(snapshot) && snapshot != board && snapshot[..] == EmptyBoard
    {
      board := new Cell[9](_ => Empty);
      snapshot := GetBoard();
    }

    /** `placeMarker`: writes `marker` at `index` and reports success exactly
        when the index is on the board and that cell is empty; on failure
        nothing changes, and on success no other cell changes. */
    method PlaceMarker(index: int, marker: Cell) returns (placed: bool)
      requires Valid()
      modifies board
      ensures placed <==> IsFree(old(board[..]), index)
      ensures placed ==> board[index] == marker
      ensures forall j :: 0 <= j < 9 && j != index ==> board[j] == old(board[j])
      ensures !placed ==> board[..] == old(board[..])
      ensures board[..] == Place(old(board[..]), index, marker)
    {
      if 0 <= index < 9 && board[index] == Empty {
        board[index] := marker;
        return true;
      }
      return false;
    }

    /** `isBoardFull`, read off the live board. */
    function IsBoardFull(): (full: bool)
      requires Valid()
      reads this, board
      ensures full <==> forall i :: 0 <= i < 9 ==> board[i] != Empty
    {
      IsFull(board[..])
    }

    /** `checkWin`, read off the live board. */
    function CheckWin(): (r: Option<WinResult>)
      requires Valid()
      reads this, board
      ensures r.None? <==> !HasLine(board[..])
      ensures r.Some? ==> IsLine(board[..], r.value.winningCells) && r.value.winner == board[r.value.winningCells.0]
      ensures r.Some? ==> exists k: nat :: IsFirstLine(board[..], k) && r.value.winningCells == WinPatterns[k]
    {
      Rules.CheckWin(board[..])
    }

    /** `getAvailableMoves`, read off the live board. */
    function GetAvailableMoves(): (moves: seq<nat>)
      requires Valid()
      reads this, board
      ensures forall i: nat :: i in moves <==> i < 9 && board[i] == Empty
      ensures StrictlyIncreasing(moves)
    {
      AvailableMoves(board[..])
    }
  }
}
