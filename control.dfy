/** The turn logic of the game controller, with every display call left
    out: who is to move, whether the game is still on, and how human
    clicks and bot moves change the board and the turn. The state machine
    is stated first on values (`Session`), then run by a class that holds
    the source's fields and the live `GameBoard`. */
module Control {
  import opened Rules
  import opened Search
  import opened Board

  /** The source's `Player` record. */
  datatype Player = Player(name: string, marker: Cell, isBot: bool)

  /** The controller's fields and the cells of the live board. `current` is
      the index into `players` of `currentPlayer`. */
  datatype Session = Session(board: seq<Cell>, players: seq<Player>, current: nat, active: bool)

  predicate WellFormed(s: Session)
  {
    |s.board| == 9 && |s.players| == 2 && s.current < 2
  }

  /** The players `initialize` creates: a human playing `X`, then `O`. */
  predicate Roster(s: Session)
  {
    |s.players| == 2 &&
    s.players[0].marker == X && !s.players[0].isBot && s.players[1].marker == O
  }

  /** While the game is active nobody has a line and some cell is empty. */
  predicate Open(s: Session)
  {
    s.active ==> |s.board| == 9 && !HasLine(s.board) && !IsFull(s.board)
  }

  predicate Invariant(s: Session)
  {
    WellFormed(s) && Roster(s) && Open(s)
  }

  /** `initialize`: two players (the second a bot in player-versus-bot
      mode), player one to move, the game active, the board reset. */
  function Start(name1: string, name2: string, pve: bool): Session
  {
    Session(EmptyBoard, [Player(name1, X, false), Player(name2, O, pve)], 0, true)
  }

  /** A started game meets the invariant: nine empty cells, player one
      (`X`, human) to move, the game active. */
  lemma StartIsOpen(name1: string, name2: string, pve: bool)
    ensures var s := Start(name1, name2, pve);
      Invariant(s) && s.board == EmptyBoard && s.current == 0 && s.active &&
      AvailableMoves(s.board) != []
  {
    EmptyBoardIsOpen();
    FullIffNoMoves(EmptyBoard);
  }

  /** `switchPlayer`: the other of the two players. */
  function Other(current: nat): nat
  {
    if current == 0 then 1 else 0
  }

  /** What both move handlers do once a marker is down on board `b`: a line
      ends the game, else a full board ends it, else the turn passes. */
  function Settle(s: Session, b: seq<Cell>): Session
    requires WellFormed(s) && |b| == 9
  {
    if CheckWin(b).Some? then s.(board := b, active := false)
    else if IsFull(b) then s.(board := b, active := false)
    else s.(board := b, current := Other(s.current))
  }

  /** `handleCellClick(index)`: ignored when the game is over, when the bot
      is to move, or when the cell cannot take a marker. */
  function Click(s: Session, index: int): Session
    requires WellFormed(s)
  {
    if !s.active || s.players[s.current].isBot then s
    else if !IsFree(s.board, index) then s
    else Settle(s, Place(s.board, index, s.players[s.current].marker))
  }

  /** `makeBotMove`: ignored when the game is over; otherwise the search's
      move for the current player's marker, and no move at all when the
      search returns none. The result of the placement is not checked. */
  function BotMove(s: Session): Session
    requires WellFormed(s)
  {
    if !s.active then s
    else match BestMove(s.board)
      case None => s
      case Some(m) => Settle(s, Place(s.board, m, s.players[s.current].marker))
  }

  /** `restartGame`: a fresh board; the turn and `gameActive` are kept. */
  function Restart(s: Session): Session
  {
    s.(board := EmptyBoard)
  }

  /** A click is a no-op when the game is over, when the bot is to move, or
      when the placement fails; a click that places a marker writes it and
      then ends the game on a line or a full board, or else passes the turn. */
  lemma ClickOutcome(s: Session, index: int)
    requires WellFormed(s)
    ensures !s.active || s.players[s.current].isBot || !IsFree(s.board, index) ==> Click(s, index) == s
    ensures s.active && !s.players[s.current].isBot && IsFree(s.board, index) ==>
      var b := s.board[index := s.players[s.current].marker];
      var r := Click(s, index);
      r.board == b && r.players == s.players &&
      (r.active <==> !HasLine(b) && !IsFull(b)) &&
      r.current == (if r.active then Other(s.current) else s.current)
  {
  }

  /** Once the game is over, a click and a bot move both leave it unchanged. */
  lemma FinishedGameIgnoresMoves(s: Session, index: int)
    requires WellFormed(s) && !s.active
    ensures Click(s, index) == s && BotMove(s) == s
  {
  }

  /** A marker put on a board with no line makes a line only through its
      own cell, so the line is that marker's. */
  lemma NewLineIsMovers(b: seq<Cell>, index: int, m: Cell)
    requires |b| == 9 && !HasLine(b) && IsFree(b, index) && m != Empty
    ensures CheckWin(b[index := m]).Some? ==> CheckWin(b[index := m]).value.winner == m
  {
    var b' := b[index := m];
    var w := CheckWin(b');
    if w.Some? {
      var k: nat :| IsFirstLine(b', k) && w.value.winningCells == WinPatterns[k];
      var p := WinPatterns[k];
      assert !IsLine(b, p);
      assert index == p.0 || index == p.1 || index == p.2;
    }
  }

  /** On an open board the player whose click ends the game with a line is
      the one whose marker that line holds: the "wins" message names the
      mover. A click on the last free cell that makes no line is a draw. */
  lemma ClickWinnerIsMover(s: Session, index: int)
    requires Invariant(s) && s.active && !s.players[s.current].isBot && IsFree(s.board, index)
    ensures var b := Click(s, index).board;
      (CheckWin(b).Some? ==> CheckWin(b).value.winner == s.players[s.current].marker) &&
      (CheckWin(b).None? && IsFull(b) ==> !Click(s, index).active)
  {
    NewLineIsMovers(s.board, index, s.players[s.current].marker);
  }

  /** On an open, active game the search always has a move, it is a free
      cell, and the bot's placement succeeds: the board changes in exactly
      that cell. */
  lemma BotMoveAlwaysPlaces(s: Session)
    requires Invariant(s) && s.active
    ensures BestMove(s.board).Some?
    ensures IsFree(s.board, BestMove(s.board).value)
    ensures BotMove(s).board == s.board[BestMove(s.board).value := s.players[s.current].marker]
  {
    BestMoveCorrect(s.board);
  }

  /** After its placement a bot move settles the game as a click does: the
      game ends exactly when the new board has a line or is full, and only
      otherwise does the turn pass; the players stay the same. */
  lemma BotMoveOutcome(s: Session)
    requires Invariant(s) && s.active
    ensures BestMove(s.board).Some? && IsFree(s.board, BestMove(s.board).value)
    ensures var m := BestMove(s.board).value;
      var b := s.board[m := s.players[s.current].marker];
      var r := BotMove(s);
      r.board == b && r.players == s.players &&
      (r.active <==> !HasLine(b) && !IsFull(b)) &&
      r.current == (if r.active then Other(s.current) else s.current)
  {
    BotMoveAlwaysPlaces(s);
    var b := s.board[BestMove(s.board).value := s.players[s.current].marker];
    assert BotMove(s) == Settle(s, b);
    SettleOutcome(s, b);
  }

  /** Settling an active game on board `b`: the game ends exactly on a line
      or a full board, and only otherwise does the turn pass. */
  lemma SettleOutcome(s: Session, b: seq<Cell>)
    requires WellFormed(s) && s.active && |b| == 9
    ensures var r := Settle(s, b);
      r.board == b && r.players == s.players &&
      (r.active <==> !HasLine(b) && !IsFull(b)) &&
      r.current == (if r.active then Other(s.current) else s.current)
  {
  }

  /** Settling a well-formed session on any nine cells keeps the invariant:
      the game stays active only without a line and with a free cell. */
  lemma SettleKeepsInvariant(s: Session, b: seq<Cell>)
    requires Invariant(s) && |b| == 9
    ensures Invariant(Settle(s, b))
  {
  }

  /** A click keeps the invariant: the roster is unchanged and an active
      game never has a line or a full board. */
  lemma ClickKeepsInvariant(s: Session, index: int)
    requires Invariant(s)
    ensures Invariant(Click(s, index))
  {
    if s.active && !s.players[s.current].isBot && IsFree(s.board, index) {
      SettleKeepsInvariant(s, Place(s.board, index, s.players[s.current].marker));
    }
  }

  /** A bot move keeps the invariant. */
  lemma BotMoveKeepsInvariant(s: Session)
    requires Invariant(s)
    ensures Invariant(BotMove(s))
  {
    if s.active && BestMove(s.board).Some? {
      SettleKeepsInvariant(s, Place(s.board, BestMove(s.board).value, s.players[s.current].marker));
    }
  }

  /** A restart keeps the invariant, whatever the state of the game. */
  lemma RestartKeepsInvariant(s: Session)
    requires Invariant(s)
    ensures Invariant(Restart(s))
  {
    EmptyBoardIsOpen();
  }

  class GameController {
    var gameBoard: GameBoard
    var players: seq<Player>
    var current: nat
    var gameActive: bool

    ghost predicate Valid()
      reads this, gameBoard
    {
      gameBoard.Valid() && |players| == 2 && current < 2
    }

    /** The controller's state as a `Session`. */
    ghost function State(): Session
      reads this, gameBoard, gameBoard.board
      requires Valid()
    {
      Session(gameBoard.board[..], players, current, gameActive)
    }

    /** The controller as the start button leaves it: the game board is
        created, then `initialize` runs. */
    constructor (name1: string, name2: string, pve: bool)
      ensures Valid() && fresh(gameBoard) && fresh(gameBoard.board)
      ensures State() == Start(name1, name2, pve)
    {
      gameBoard := new GameBoard();
      players := [];
      current := 0;
      gameActive := false;
      new;
      Initialize(name1, name2, pve);
    }

    /** `initialize`, without its display calls. */
    method Initialize(name1: string, name2: string, pve: bool)
      modifies this, gameBoard
      ensures Valid() && gameBoard == old(gameBoard) && fresh(gameBoard.board)
      ensures State() == Start(name1, name2, pve)
    {
      players := [Player(name1, X, false), Player(name2, O, pve)];
      current := 0;
      gameActive := true;
      var snapshot := gameBoard.ResetBoard();
    }

    /** `handleCellClick`, without its display calls. */
    method HandleCellClick(index: int)
      requires Valid()
      modifies this, gameBoard.board
      ensures Valid() && gameBoard == old(gameBoard) && gameBoard.board == old(gameBoard.board)
      ensures State() == Click(old(State()), index)
    {
      if !gameActive || players[current].isBot {
        return;
      }
      var placed := gameBoard.PlaceMarker(index, players[current].marker);
      if placed {
        var winResult := gameBoard.CheckWin();
        if winResult.Some? {
          gameActive := false;
          return;
        }
        if gameBoard.IsBoardFull() {
          gameActive := false;
          return;
        }
        SwitchPlayer();
      }
    }

    /** `makeBotMove`, without its display calls. The search runs on a copy
        of the board, so only the placement touches the live board. */
    method MakeBotMove()
      requires Valid()
      modifies this, gameBoard.board
      ensures Valid() && gameBoard == old(gameBoard) && gameBoard.board == old(gameBoard.board)
      ensures State() == BotMove(old(State()))
    {
      if !gameActive {
        return;
      }
      var snapshot := gameBoard.GetBoard();
      var bestMove := GetBestMove(snapshot);
      if bestMove.Some? {
        var placed := gameBoard.PlaceMarker(bestMove.value, players[current].marker);
        var winResult := gameBoard.CheckWin();
        if winResult.Some? {
          gameActive := false;
          return;
        }
        if gameBoard.IsBoardFull() {
          gameActive := false;
          return;
        }
        SwitchPlayer();
      }
    }

    /** `switchPlayer`, without its display calls. */
    method SwitchPlayer()
      requires Valid()
      modifies this`current
      ensures Valid() && current == Other(old(current))
    {
      current := if current == 0 then 1 else 0;
    }

    /** `restartGame`, without its display calls: only the board is reset. */
    method RestartGame()
      requires Valid()
      modifies gameBoard
      ensures Valid() && fresh(gameBoard.board)
      ensures State() == Restart(old(State()))
    {
      var snapshot := gameBoard.ResetBoard();
    }
  }
}
