/** Values shared by the board, the search engine and the controller:
    cells, the eight winning lines, and the pure queries over a grid of
    cells (win detection, fullness, free cells, a placement). */
module Rules {

  datatype Option<T> = None | Some(value: T)

  /** A cell holds no marker (the source's `null`) or one of the two markers. */
  datatype Cell = Empty | X | O

  /** Three board indices; the grid is row-major, indices 0..8. */
  type Pattern = (nat, nat, nat)

  /** The eight lines in the order they are scanned: rows, columns, diagonals. */
  const WinPatterns: seq<Pattern> :=
    [(0, 1, 2), (3, 4, 5), (6, 7, 8),
     (0, 3, 6), (1, 4, 7), (2, 5, 8),
     (0, 4, 8), (2, 4, 6)]

  /** A fresh board: nine empty cells. */
  const EmptyBoard: seq<Cell> := [Empty, Empty, Empty, Empty, Empty, Empty, Empty, Empty, Empty]

  /** The answer of a win check: the shared marker and the line that holds it. */
  datatype WinResult = WinResult(winner: Cell, winningCells: Pattern)

  /** The three cells of `p` hold the same marker. */
  predicate IsLine(b: seq<Cell>, p: Pattern)
  {
    p.0 < |b| && p.1 < |b| && p.2 < |b| &&
    b[p.0] != Empty && b[p.0] == b[p.1] && b[p.0] == b[p.2]
  }

  /** Some winning pattern is a line. */
  predicate HasLine(b: seq<Cell>)
  {
    exists k :: 0 <= k < |WinPatterns| && IsLine(b, WinPatterns[k])
  }

  /** Some winning pattern is a line of marker `m`. */
  predicate HasLineOf(b: seq<Cell>, m: Cell)
  {
    exists k :: 0 <= k < |WinPatterns| && IsLine(b, WinPatterns[k]) && b[WinPatterns[k].0] == m
  }

  /** Pattern `k` is the first line in scanning order. */
  predicate IsFirstLine(b: seq<Cell>, k: nat)
  {
    k < |WinPatterns| && IsLine(b, WinPatterns[k]) &&
    forall j :: 0 <= j < k ==> !IsLine(b, WinPatterns[j])
  }

  /** The scan of `CheckWin` from pattern `k` onwards. */
  function ScanFrom(b: seq<Cell>, k: nat): (r: Option<WinResult>)
    requires |b| == 9 && k <= |WinPatterns|
    ensures r.None? <==> forall j :: k <= j < |WinPatterns| ==> !IsLine(b, WinPatterns[j])
    ensures r.Some? ==>
      exists j :: k <= j < |WinPatterns| && IsLine(b, WinPatterns[j]) &&
        (forall i :: k <= i < j ==> !IsLine(b, WinPatterns[i])) &&
        r.value == WinResult(b[WinPatterns[j].0], WinPatterns[j])
    decreases |WinPatterns| - k
  {
    if k == |WinPatterns| then None
    else
      var p := WinPatterns[k];
      if b[p.0] != Empty && b[p.0] == b[p.1] && b[p.0] == b[p.2]
      then Some(WinResult(b[p.0], p))
      else ScanFrom(b, k + 1)
  }

  /** `checkWin`: the first winning pattern, in row, column, diagonal order,
      whose three cells hold the same marker, with that marker. */
  function CheckWin(b: seq<Cell>): (r: Option<WinResult>)
    requires |b| == 9
    ensures r.None? <==> !HasLine(b)
    ensures r.Some? ==>
      exists k: nat :: IsFirstLine(b, k) && r.value.winningCells == WinPatterns[k]
    ensures r.Some? ==> r.value.winner != Empty && r.value.winner == b[r.value.winningCells.0]
  {
    ScanFrom(b, 0)
  }

  /** `isBoardFull`: no cell is empty. */
  predicate IsFull(b: seq<Cell>)
  {
    forall i :: 0 <= i < |b| ==> b[i] != Empty
  }

  predicate StrictlyIncreasing(s: seq<nat>)
  {
    forall i, j :: 0 <= i < j < |s| ==> s[i] < s[j]
  }

  /** The fold of `getAvailableMoves` after its first `n` cells. */
  function MovesUpTo(b: seq<Cell>, n: nat): (moves: seq<nat>)
    requires n <= |b|
    ensures forall i: nat :: i in moves <==> i < n && b[i] == Empty
    ensures forall k :: 0 <= k < |moves| ==> moves[k] < n
    ensures StrictlyIncreasing(moves)
  {
    if n == 0 then []
    else MovesUpTo(b, n - 1) + (if b[n - 1] == Empty then [n - 1] else [])
  }

  /** `getAvailableMoves`: exactly the indices of the empty cells, ascending. */
  function AvailableMoves(b: seq<Cell>): (moves: seq<nat>)
    ensures forall i: nat :: i in moves <==> i < |b| && b[i] == Empty
    ensures StrictlyIncreasing(moves)
  {
    MovesUpTo(b, |b|)
  }

  /** The board is full exactly when no move is available. */
  lemma FullIffNoMoves(b: seq<Cell>)
    ensures IsFull(b) <==> AvailableMoves(b) == []
  {
    var moves := AvailableMoves(b);
    if moves != [] {
      assert moves[0] in moves;
    }
  }

  /** The guard of `placeMarker`: the index is on the board and its cell is empty. */
  predicate IsFree(b: seq<Cell>, index: int)
  {
    0 <= index < |b| && b[index] == Empty
  }

  /** The board after `placeMarker(index, m)`: cell `index` becomes `m` when
      the guard holds; otherwise the board is unchanged. */
  function Place(b: seq<Cell>, index: int, m: Cell): (r: seq<Cell>)
    ensures |r| == |b|
    ensures forall j :: 0 <= j < |b| && j != index ==> r[j] == b[j]
    ensures IsFree(b, index) ==> r[index] == m
    ensures !IsFree(b, index) ==> r == b
  {
    if IsFree(b, index) then b[index := m] else b
  }

  /** A fresh board has no line and is not full. */
  lemma EmptyBoardIsOpen()
    ensures |EmptyBoard| == 9 && CheckWin(EmptyBoard).None? && !IsFull(EmptyBoard)
  {
  }
}
