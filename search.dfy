/** The automated player's move search: unpruned minimax in which `O` is
    always the maximiser and `X` the minimiser. The functions state what a
    search computes; the methods run it the way the source does, writing a
    marker into the array, recursing, and restoring the cell. */
module Search {
  import opened Rules

  /** Stand-ins for the source's `-Infinity` and `Infinity`: every score is
      one of -10, 0 and 10, so these lie strictly outside all of them. */
  const NegInf: int := -11
  const PosInf: int := 11

  predicate IsScore(s: int)
  {
    s == -10 || s == 0 || s == 10
  }

  function Max(a: int, b: int): int { if a >= b then a else b }
  function Min(a: int, b: int): int { if a <= b then a else b }

  /** The number of empty cells: what bounds the depth of the search. */
  function EmptyCount(b: seq<Cell>): nat
  {
    multiset(b)[Empty]
  }

  lemma EmptyCountDrops(b: seq<Cell>, i: nat, m: Cell)
    requires i < |b| && b[i] == Empty && m != Empty
    ensures EmptyCount(b[i := m]) < EmptyCount(b)
  {
  }

  /** `evaluateBoard`: 10 when the first line found is `O`'s, -10 when it is
      another marker's, 0 when there is no line. */
  function Evaluate(b: seq<Cell>): (score: int)
    requires |b| == 9
    ensures IsScore(score)
    ensures score == 0 <==> !HasLine(b)
    ensures score == 10 ==> HasLineOf(b, O)
    ensures score == -10 ==> HasLineOf(b, X)
    ensures HasLineOf(b, O) && !HasLineOf(b, X) ==> score == 10
    ensures HasLineOf(b, X) && !HasLineOf(b, O) ==> score == -10
    ensures forall k: nat :: IsFirstLine(b, k) ==> score == (if b[WinPatterns[k].0] == O then 10 else -10)
  {
    match CheckWin(b)
    case None => 0
    case Some(w) => if w.winner == O then 10 else -10
  }

  /** The marker the side to move places: `O` for the maximiser. */
  function Mark(maxTurn: bool): Cell
  {
    if maxTurn then O else X
  }

  /** The minimax value of `b` with `O` to move when `maxTurn` holds and `X`
      to move otherwise. Search depth plays no part in it. */
  function MinimaxValue(b: seq<Cell>, maxTurn: bool): (score: int)
    requires |b| == 9
    ensures IsScore(score)
    decreases EmptyCount(b), 1
  {
    var s := Evaluate(b);
    if s != 0 then s
    else if IsFull(b) then 0
    else if maxTurn then MaxFrom(b, MoveValues(b, true), 0, NegInf)
    else MinFrom(b, MoveValues(b, false), 0, PosInf)
  }

  /** For each empty cell, the value after the side to move plays there (0
      for occupied cells, which the loops skip). */
  function MoveValues(b: seq<Cell>, maxTurn: bool): (vals: seq<int>)
    requires |b| == 9
    ensures |vals| == 9
    ensures forall j :: 0 <= j < 9 && b[j] == Empty ==> IsScore(vals[j])
    decreases EmptyCount(b), 0
  {
    seq(9, j requires 0 <= j < 9 =>
      if b[j] == Empty then MinimaxValue(b[j := Mark(maxTurn)], !maxTurn) else 0)
  }

  /** A value for every empty cell is a score. */
  predicate ScoredAt(b: seq<Cell>, vals: seq<int>)
  {
    |b| == 9 && |vals| == 9 && forall j :: 0 <= j < 9 && b[j] == Empty ==> IsScore(vals[j])
  }

  /** The maximiser's loop from cell `i` on, with the running best `best`. */
  function MaxFrom(b: seq<Cell>, vals: seq<int>, i: nat, best: int): (r: int)
    requires ScoredAt(b, vals) && i <= 9
    requires best == NegInf || IsScore(best)
    ensures IsScore(r) || (r == best && forall j :: i <= j < 9 ==> b[j] != Empty)
    decreases 9 - i
  {
    if i == 9 then best
    else if b[i] == Empty then MaxFrom(b, vals, i + 1, Max(vals[i], best))
    else MaxFrom(b, vals, i + 1, best)
  }

  /** The minimiser's loop from cell `i` on, with the running best `best`. */
  function MinFrom(b: seq<Cell>, vals: seq<int>, i: nat, best: int): (r: int)
    requires ScoredAt(b, vals) && i <= 9
    requires best == PosInf || IsScore(best)
    ensures IsScore(r) || (r == best && forall j :: i <= j < 9 ==> b[j] != Empty)
    decreases 9 - i
  {
    if i == 9 then best
    else if b[i] == Empty then MinFrom(b, vals, i + 1, Min(vals[i], best))
    else MinFrom(b, vals, i + 1, best)
  }

  /** The value the maximiser reaches by playing `O` at `j`. */
  function ScoreOfMove(b: seq<Cell>, j: nat): int
    requires |b| == 9 && j < 9
  {
    MinimaxValue(b[j := O], false)
  }

  lemma {:induction false} MaxFromIsMaximum(b: seq<Cell>, vals: seq<int>, i: nat, best: int)
    requires ScoredAt(b, vals) && i <= 9
    requires best == NegInf || IsScore(best)
    ensures MaxFrom(b, vals, i, best) >= best
    ensures forall j :: i <= j < 9 && b[j] == Empty ==> MaxFrom(b, vals, i, best) >= vals[j]
    ensures MaxFrom(b, vals, i, best) == best ||
            exists j :: i <= j < 9 && b[j] == Empty && MaxFrom(b, vals, i, best) == vals[j]
    decreases 9 - i
  {
    if i < 9 {
      if b[i] == Empty {
        MaxFromIsMaximum(b, vals, i + 1, Max(vals[i], best));
      } else {
        MaxFromIsMaximum(b, vals, i + 1, best);
      }
    }
  }

  lemma {:induction false} MinFromIsMinimum(b: seq<Cell>, vals: seq<int>, i: nat, best: int)
    requires ScoredAt(b, vals) && i <= 9
    requires best == PosInf || IsScore(best)
    ensures MinFrom(b, vals, i, best) <= best
    ensures forall j :: i <= j < 9 && b[j] == Empty ==> MinFrom(b, vals, i, best) <= vals[j]
    ensures MinFrom(b, vals, i, best) == best ||
            exists j :: i <= j < 9 && b[j] == Empty && MinFrom(b, vals, i, best) == vals[j]
    decreases 9 - i
  {
    if i < 9 {
      if b[i] == Empty {
        MinFromIsMinimum(b, vals, i + 1, Min(vals[i], best));
      } else {
        MinFromIsMinimum(b, vals, i + 1, best);
      }
    }
  }

  /** A board with a line is scored by that line alone, whoever is to move;
      a full board without a line is a draw. */
  lemma MinimaxTerminal(b: seq<Cell>, maxTurn: bool)
    requires |b| == 9
    ensures HasLineOf(b, O) && !HasLineOf(b, X) ==> MinimaxValue(b, maxTurn) == 10
    ensures HasLineOf(b, X) && !HasLineOf(b, O) ==> MinimaxValue(b, maxTurn) == -10
    ensures !HasLine(b) && IsFull(b) ==> MinimaxValue(b, maxTurn) == 0
    ensures HasLine(b) ==> MinimaxValue(b, maxTurn) == Evaluate(b)
  {
  }

  /** On an open board with `O` to move, the value is the greatest value
      over the empty cells of placing `O` there. */
  lemma MinimaxMaximises(b: seq<Cell>)
    requires |b| == 9 && !HasLine(b) && !IsFull(b)
    ensures forall j :: 0 <= j < 9 && b[j] == Empty ==> MinimaxValue(b, true) >= ScoreOfMove(b, j)
    ensures exists j :: 0 <= j < 9 && b[j] == Empty && MinimaxValue(b, true) == ScoreOfMove(b, j)
  {
    var vals := MoveValues(b, true);
    MaxFromIsMaximum(b, vals, 0, NegInf);
    assert forall j :: 0 <= j < 9 && b[j] == Empty ==> vals[j] == ScoreOfMove(b, j);
  }

  /** On an open board with `X` to move, the value is the least value over
      the empty cells of placing `X` there. */
  lemma MinimaxMinimises(b: seq<Cell>)
    requires |b| == 9 && !HasLine(b) && !IsFull(b)
    ensures forall j :: 0 <= j < 9 && b[j] == Empty ==> MinimaxValue(b, false) <= MinimaxValue(b[j := X], true)
    ensures exists j :: 0 <= j < 9 && b[j] == Empty && MinimaxValue(b, false) == MinimaxValue(b[j := X], true)
  {
    var vals := MoveValues(b, false);
    MinFromIsMinimum(b, vals, 0, PosInf);
    assert forall j :: 0 <= j < 9 && b[j] == Empty ==> vals[j] == MinimaxValue(b[j := X], true);
  }

  /** The loop of `getBestMove` from cell `i` on, with the running best
      score and move; `vals` holds the scores of the moves. */
  function BestFrom(b: seq<Cell>, vals: seq<int>, i: nat, bestScore: int, bestMove: Option<nat>): Option<nat>
    requires |b| == 9 && |vals| == 9 && i <= 9
    decreases 9 - i
  {
    if i == 9 then bestMove
    else if b[i] == Empty && vals[i] > bestScore then BestFrom(b, vals, i + 1, vals[i], Some(i))
    else BestFrom(b, vals, i + 1, bestScore, bestMove)
  }

  /** `getBestMove` as a value: the first empty cell, in ascending order,
      with the strictly greatest score for `O`; none on a full board. */
  function BestMove(b: seq<Cell>): Option<nat>
    requires |b| == 9
  {
    BestFrom(b, MoveValues(b, true), 0, NegInf, None)
  }

  /** `m` is empty, its value is the greatest among empty cells, and every
      empty cell before it has a strictly smaller value. */
  predicate IsFirstGreatest(b: seq<Cell>, vals: seq<int>, m: nat)
    requires |b| == 9 && |vals| == 9
  {
    m < 9 && b[m] == Empty &&
    (forall j :: 0 <= j < 9 && b[j] == Empty ==> vals[j] <= vals[m]) &&
    (forall j :: 0 <= j < m && b[j] == Empty ==> vals[j] < vals[m])
  }

  /** `m` is the cell `getBestMove` promises: empty, of greatest score for
      `O`, and the first cell of that score. */
  predicate IsBestMove(b: seq<Cell>, m: nat)
    requires |b| == 9
  {
    m < 9 && b[m] == Empty &&
    (forall j :: 0 <= j < 9 && b[j] == Empty ==> ScoreOfMove(b, j) <= ScoreOfMove(b, m)) &&
    (forall j :: 0 <= j < m && b[j] == Empty ==> ScoreOfMove(b, j) < ScoreOfMove(b, m))
  }

  /** What the loop state of `BestFrom` says about the cells before `i`. */
  predicate BestSoFar(b: seq<Cell>, vals: seq<int>, i: nat, bestScore: int, bestMove: Option<nat>)
    requires |b| == 9 && |vals| == 9 && i <= 9
  {
    match bestMove
    case None => bestScore == NegInf && forall j :: 0 <= j < i ==> b[j] != Empty
    case Some(m) =>
      m < i && b[m] == Empty && bestScore == vals[m] &&
      (forall j :: 0 <= j < i && b[j] == Empty ==> vals[j] <= bestScore) &&
      (forall j :: 0 <= j < m && b[j] == Empty ==> vals[j] < bestScore)
  }

  lemma {:induction false} BestFromCorrect(b: seq<Cell>, vals: seq<int>, i: nat, bestScore: int, bestMove: Option<nat>)
    requires ScoredAt(b, vals) && i <= 9
    requires BestSoFar(b, vals, i, bestScore, bestMove)
    ensures BestFrom(b, vals, i, bestScore, bestMove).None? <==> forall j :: 0 <= j < 9 ==> b[j] != Empty
    ensures BestFrom(b, vals, i, bestScore, bestMove).Some? ==>
              IsFirstGreatest(b, vals, BestFrom(b, vals, i, bestScore, bestMove).value)
    decreases 9 - i
  {
    if i < 9 {
      if b[i] == Empty && vals[i] > bestScore {
        BestFromCorrect(b, vals, i + 1, vals[i], Some(i));
      } else {
        BestFromCorrect(b, vals, i + 1, bestScore, bestMove);
      }
    }
  }

  /** `getBestMove` answers no move exactly on a full board, and otherwise
      the first empty cell of strictly greatest score. */
  lemma BestMoveCorrect(b: seq<Cell>)
    requires |b| == 9
    ensures BestMove(b).None? <==> IsFull(b)
    ensures BestMove(b).Some? ==> IsBestMove(b, BestMove(b).value)
  {
    var vals := MoveValues(b, true);
    BestFromCorrect(b, vals, 0, NegInf, None);
    assert forall j :: 0 <= j < 9 && b[j] == Empty ==> vals[j] == ScoreOfMove(b, j);
  }

  /** The promise of `getBestMove` fixes the move: two cells that both meet
      it are the same cell. */
  lemma BestMoveUnique(b: seq<Cell>, m: nat, n: nat)
    requires |b| == 9 && IsBestMove(b, m) && IsBestMove(b, n)
    ensures m == n
  {
  }

  /** When the first empty cell completes a line of `O` (and `X` has none),
      the search takes it at once. */
  lemma ImmediateWinTaken(b: seq<Cell>, j: nat)
    requires |b| == 9 && j < 9 && b[j] == Empty
    requires forall i :: 0 <= i < j ==> b[i] != Empty
    requires HasLineOf(b[j := O], O) && !HasLineOf(b[j := O], X)
    ensures BestMove(b) == Some(j)
  {
    BestMoveCorrect(b);
    assert ScoreOfMove(b, j) == 10;
    var m := BestMove(b).value;
    BestMoveUnique(b, m, j);
  }

  /** Two `O`s on the top row, the rest empty: the search plays cell 2. */
  lemma TopRowCompleted()
    ensures BestMove([O, O, Empty, Empty, Empty, Empty, Empty, Empty, Empty]) == Some(2)
  {
    var b := [O, O, Empty, Empty, Empty, Empty, Empty, Empty, Empty];
    var w := b[2 := O];
    assert IsLine(w, WinPatterns[0]);
    assert forall k :: 0 <= k < 9 ==> w[k] != X;
    ImmediateWinTaken(b, 2);
  }

  /** `minimax`: the mutate-and-undo search on `board`. It returns the
      minimax value of the board it was given, whatever `depth` is, and
      leaves the board as it found it. */
  method Minimax(board: array<Cell>, depth: int, isMaximizing: bool) returns (score: int)
    requires board.Length == 9
    modifies board
    ensures board[..] == old(board[..])
    ensures score == MinimaxValue(old(board[..]), isMaximizing)
    decreases EmptyCount(board[..]), 1
  {
    score := Evaluate(board[..]);
    if score != 0 {
      return;
    }
    if IsFull(board[..]) {
      return 0;
    }
    ghost var b0 := board[..];
    ghost var vals := MoveValues(b0, isMaximizing);
    if isMaximizing {
      var bestScore := NegInf;
      for i := 0 to 9
        invariant board[..] == b0
        invariant bestScore == NegInf || IsScore(bestScore)
        invariant MaxFrom(b0, vals, i, bestScore) == MaxFrom(b0, vals, 0, NegInf)
      {
        if board[i] == Empty {
          var s := PlayAndUndo(board, i, true, depth + 1);
          bestScore := Max(s, bestScore);
        }
      }
      score := bestScore;
    } else {
      var bestScore := PosInf;
      for i := 0 to 9
        invariant board[..] == b0
        invariant bestScore == PosInf || IsScore(bestScore)
        invariant MinFrom(b0, vals, i, bestScore) == MinFrom(b0, vals, 0, PosInf)
      {
        if board[i] == Empty {
          var s := PlayAndUndo(board, i, false, depth + 1);
          bestScore := Min(s, bestScore);
        }
      }
      score := bestScore;
    }
  }

  /** One pass of a search loop: write the mover's marker at `i`, search
      the board one ply deeper with the other side to move, then put `null`
      back at `i`; `childDepth` is the depth handed to the deeper search.
      The result is that cell's entry of `MoveValues`. */
  method PlayAndUndo(board: array<Cell>, i: nat, maxTurn: bool, childDepth: int) returns (score: int)
    requires board.Length == 9 && i < 9 && board[i] == Empty
    modifies board
    ensures board[..] == old(board[..])
    ensures score == MoveValues(old(board[..]), maxTurn)[i]
    ensures IsScore(score)
    decreases EmptyCount(board[..]), 0
  {
    ghost var b0 := board[..];
    board[i] := Mark(maxTurn);
    assert board[..] == b0[i := Mark(maxTurn)];
    EmptyCountDrops(b0, i, Mark(maxTurn));
    score := Minimax(board, childDepth, !maxTurn);
    board[i] := Empty;
    assert board[..] == b0;
  }

  /** `getBestMove`: tries `O` on each empty cell in ascending order, keeps the
      first of strictly greatest score, and leaves the board as it found it. */
  method GetBestMove(board: array<Cell>) returns (bestMove: Option<nat>)
    requires board.Length == 9
    modifies board
    ensures board[..] == old(board[..])
    ensures bestMove == BestMove(old(board[..]))
  {
    ghost var b0 := board[..];
    ghost var vals := MoveValues(b0, true);
    var bestScore := NegInf;
    bestMove := None;
    for i := 0 to 9
      invariant board[..] == b0
      invariant BestFrom(b0, vals, i, bestScore, bestMove) == BestMove(b0)
    {
      if board[i] == Empty {
        var score := PlayAndUndo(board, i, true, 0);
        if score > bestScore {
          bestScore := score;
          bestMove := Some(i);
        }
      }
    }
  }
}
