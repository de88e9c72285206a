/**
 * The Reversi game of r/script.js: the module-level state (`board`,
 * `currentPlayer`, the counts, `gameOver`, the message line) as the fields
 * of a class, and its functions as methods proved against the board
 * definitions of module ReversiBoard. White is the person at the page,
 * Black the random NPC. A `setTimeout(npcTurn, ...)` that the source
 * schedules is counted in `pendingNpcTurns`; `NpcTurn` runs one of them.
 */
module Reversi {
  import opened Random
  import opened Wrappers
  import opened ReversiBoard

  /**
   * checkFlip(r, c, player, boardState): the stones a stone of `player` at
   * `(r, c)` would turn over, scanned direction by direction in the order of
   * DIRECTIONS. An occupied cell turns over nothing.
   */
  method CheckFlip(r: int, c: int, player: int, boardState: Board) returns (flippedStones: seq<Pos>)
    requires WellFormed(boardState) && IsValid(r, c)
    ensures flippedStones == Flips(boardState, r, c, player)
  {
    if boardState[r][c] != EMPTY {
      return [];
    }
    var opponent := -player;
    var directions := DIRECTIONS;
    flippedStones := [];
    DirectionsAreDirections();
    for k := 0 to |directions|
      invariant flippedStones == FlipsAlong(boardState, r, c, player, directions[..k])
    {
      var d := directions[k];
      var tempFlipped, curR, curC := ScanDirection(boardState, r, c, d, opponent);
      FlipsAlongStep(boardState, r, c, player, directions, k, tempFlipped, Pos(curR, curC));
      if IsValid(curR, curC) && boardState[curR][curC] == player {
        flippedStones := flippedStones + tempFlipped;
      }
    }
    assert directions[..|directions|] == directions;
  }

  /**
   * One more direction of the scan adds what that direction brackets: the
   * stones of the walk if it stopped at a stone of `player`, none otherwise.
   */
  lemma FlipsAlongStep(b: Board, r: int, c: int, player: int, dirs: seq<Dir>, k: nat,
                       stones: seq<Pos>, stop: Pos)
    requires WellFormed(b) && AreDirections(dirs) && k < |dirs|
    requires Walk(b, Step(Pos(r, c), dirs[k]), dirs[k], -player) == Ray(stones, stop)
    ensures FlipsAlong(b, r, c, player, dirs[..k + 1])
         == FlipsAlong(b, r, c, player, dirs[..k])
          + if IsValid(stop.r, stop.c) && b[stop.r][stop.c] == player then stones else []
  {
    assert dirs[..k + 1][..k] == dirs[..k];
  }

  /**
   * The `while` loop of checkFlip for one direction `d`: from the neighbour
   * of `(r, c)`, collect opponent stones until the walk leaves the board or
   * meets another cell; `(curR, curC)` is where it stopped. Together with
   * WalkIsRun: the collected stones are a line of opponent stones and the
   * stop cell is not the opponent's.
   */
  method ScanDirection(boardState: Board, r: int, c: int, d: Dir, opponent: int)
    returns (tempFlipped: seq<Pos>, curR: int, curC: int)
    requires WellFormed(boardState) && IsDirection(d)
    ensures tempFlipped == Walk(boardState, Step(Pos(r, c), d), d, opponent).stones
    ensures Pos(curR, curC) == Walk(boardState, Step(Pos(r, c), d), d, opponent).end
  {
    var dr, dc := d.dr, d.dc;
    tempFlipped := [];
    curR, curC := r + dr, c + dc;
    ghost var cur := Step(Pos(r, c), d);
    ghost var whole := Walk(boardState, cur, d, opponent);
    while IsValid(curR, curC) && boardState[curR][curC] == opponent
      invariant cur == Pos(curR, curC)
      invariant tempFlipped + Walk(boardState, cur, d, opponent).stones == whole.stones
      invariant Walk(boardState, cur, d, opponent).end == whole.end
      decreases if IsValid(curR, curC) then Span(curR, dr) + Span(curC, dc) else 0
    {
      WalkStep(boardState, cur, d, opponent, tempFlipped);
      tempFlipped := tempFlipped + [Pos(curR, curC)];
      curR, curC := curR + dr, curC + dc;
      cur := Step(cur, d);
    }
    WalkStop(boardState, Pos(curR, curC), d, opponent, tempFlipped);
  }

  /** One step of the walk over an opponent stone, after the stones collected so far. */
  lemma WalkStep(b: Board, p: Pos, d: Dir, opponent: int, front: seq<Pos>)
    requires WellFormed(b) && IsDirection(d) && IsValid(p.r, p.c) && b[p.r][p.c] == opponent
    ensures var rest := Walk(b, Step(p, d), d, opponent);
      && front + Walk(b, p, d, opponent).stones == (front + [p]) + rest.stones
      && Walk(b, p, d, opponent).end == rest.end
  {
    var rest := Walk(b, Step(p, d), d, opponent);
    assert Walk(b, p, d, opponent).stones == [p] + rest.stones;
    assert front + ([p] + rest.stones) == (front + [p]) + rest.stones;
  }

  /** The walk stops at once on a cell that is off the board or not the opponent's. */
  lemma WalkStop(b: Board, p: Pos, d: Dir, opponent: int, front: seq<Pos>)
    requires WellFormed(b) && IsDirection(d) && !(IsValid(p.r, p.c) && b[p.r][p.c] == opponent)
    ensures front + Walk(b, p, d, opponent).stones == front && Walk(b, p, d, opponent).end == p
  {
    assert front + [] == front;
  }

  /**
   * One more cell of the row-major scan: the cell is appended exactly when
   * it is a move, and the list stays the row-major list of the moves so far.
   */
  lemma MovesStep(b: Board, player: int, s: seq<Pos>, r: int, c: int, found: bool)
    requires WellFormed(b) && IsValid(r, c)
    requires RowMajor(s) && forall p :: p in s <==> IsMove(b, player, p) && Before(p, Pos(r, c))
    requires found <==> IsMove(b, player, Pos(r, c))
    ensures var t := if found then s + [Pos(r, c)] else s;
      RowMajor(t) && forall p :: p in t <==> IsMove(b, player, p) && Before(p, Pos(r, c + 1))
  {
    var here, next := Pos(r, c), Pos(r, c + 1);
    var t := if found then s + [here] else s;
    if found {
      RowMajorAppend(s, here);
    }
    forall p ensures p in t <==> IsMove(b, player, p) && Before(p, next) {
      assert Before(p, next) <==> Before(p, here) || p == here;
      assert p in t <==> p in s || (found && p == here);
    }
  }

  /** Appending a cell that comes after every listed cell keeps a list row-major. */
  lemma RowMajorAppend(s: seq<Pos>, x: Pos)
    requires RowMajor(s) && forall p :: p in s ==> Before(p, x)
    ensures RowMajor(s + [x])
  {
    forall i, j | 0 <= i < j < |s + [x]| ensures Before((s + [x])[i], (s + [x])[j]) {
      assert (s + [x])[i] == s[i];
      if j == |s| {
        assert s[i] in s;
      } else {
        assert (s + [x])[j] == s[j];
      }
    }
  }

  datatype Outcome = WhiteWins | BlackWins | Draw

  /** The message line of the page. */
  datatype Message =
    | Blank
    | Pass(player: int)  // "... has no place to put a stone and passes"
    | CannotPlace        // "you cannot place there"
    | NpcThinking        // "Black (NPC) is thinking ..."
    | GameResult(outcome: Outcome, white: int, black: int)

  /** endGame's rule: the side with more stones wins, equal counts are a draw. */
  function Decide(white: int, black: int): (o: Outcome)
    ensures o == WhiteWins <==> white > black
    ensures o == BlackWins <==> black > white
    ensures o == Draw <==> white == black
  {
    if white > black then WhiteWins else if black > white then BlackWins else Draw
  }

  /** How many npcTurn calls a status check schedules for side `p` to move. */
  function NpcStarts(p: int, over: bool): nat
  {
    if p == BLACK && !over then 1 else 0
  }

  /**
   * The side to move, the game-over flag, the message line and the number
   * of scheduled npcTurn calls.
   */
  datatype Status = Status(player: int, over: bool, message: Message, pending: nat)

  /**
   * What checkGameStatus leaves on board `b` with the counts `white` and
   * `black`, starting from `s`: if the side to move can move it keeps the
   * turn (and an NPC turn is scheduled when that side is Black); if only
   * the other side can, the side to move passes; if neither can, the game
   * ends with the counts' verdict.
   */
  ghost function AfterCheck(b: Board, white: int, black: int, s: Status): Status
    requires WellFormed(b)
  {
    if HasMove(b, s.player) then
      s.(pending := s.pending + NpcStarts(s.player, s.over))
    else if HasMove(b, -s.player) then
      Status(-s.player, s.over, Pass(s.player), s.pending + NpcStarts(-s.player, s.over))
    else
      Status(s.player, true, GameResult(Decide(white, black), white, black), s.pending)
  }

  /** A status check schedules at most one NPC turn, and only when Black is left to move. */
  lemma AfterCheckSchedulesOnce(b: Board, white: int, black: int, s: Status)
    requires WellFormed(b)
    ensures var t := AfterCheck(b, white, black, s);
      t.pending == s.pending + NpcStarts(t.player, t.over) && t.pending <= s.pending + 1
  {
  }

  /**
   * checkGameStatus as written: when the side to move passes, the timer
   * callback runs switchTurn, whose status check already schedules npcTurn
   * for Black, and then schedules npcTurn for Black once more.
   */
  ghost function AfterCheckAsWritten(b: Board, white: int, black: int, s: Status): Status
    requires WellFormed(b)
  {
    if !HasMove(b, s.player) && HasMove(b, -s.player) then
      var t := AfterCheck(b, white, black, Status(-s.player, s.over, Pass(s.player), s.pending));
      if t.player == BLACK && !t.over then t.(pending := t.pending + 1) else t
    else
      AfterCheck(b, white, black, s)
  }

  /**
   * When White passes and Black can move, the status check as written
   * leaves two npcTurn calls scheduled where the corrected one leaves one.
   */
  lemma PassSchedulesTwice(b: Board, white: int, black: int, s: Status)
    requires WellFormed(b) && s.player == WHITE && !s.over
    requires !HasMove(b, WHITE) && HasMove(b, BLACK)
    ensures AfterCheckAsWritten(b, white, black, s).pending == s.pending + 2
    ensures AfterCheck(b, white, black, s).pending == s.pending + 1
  {
  }

  class ReversiGame {
    var board: Board
    var currentPlayer: int
    var whiteCount: int
    var blackCount: int
    var gameOver: bool
    var message: Message
    /** The npcTurn calls scheduled with setTimeout that have not run yet. */
    var pendingNpcTurns: nat

    /** The board is legal, a side is to move, and the counts are the board's. */
    ghost predicate Valid()
      reads this
    {
      && Legal(board)
      && IsPlayer(currentPlayer)
      && whiteCount == Count(board, WHITE)
      && blackCount == Count(board, BLACK)
    }

    /** The part of the state that the turn logic changes. */
    function State(): Status
      reads this`currentPlayer, this`gameOver, this`message, this`pendingNpcTurns
    {
      Status(currentPlayer, gameOver, message, pendingNpcTurns)
    }

    /** Page load: the globals' initial values, then initializeGame(). */
    constructor ()
      ensures Valid()
      ensures board == InitialBoard() && currentPlayer == WHITE && whiteCount == 2 && blackCount == 2
      ensures !gameOver && message == Blank && pendingNpcTurns == 0
    {
      board := [];
      currentPlayer := WHITE;
      whiteCount := 0;
      blackCount := 0;
      gameOver := false;
      message := Blank;
      pendingNpcTurns := 0;
      new;
      InitializeGame();
    }

    /**
     * initializeGame (also the reset button): the empty board with the four
     * centre stones, White to move. Timers already scheduled stay scheduled.
     */
    method InitializeGame()
      modifies this`board, this`currentPlayer, this`whiteCount, this`blackCount, this`gameOver, this`message
      ensures Valid()
      ensures board == InitialBoard() && currentPlayer == WHITE && whiteCount == 2 && blackCount == 2
      ensures !gameOver && message == Blank
    {
      board := EmptyBoard();
      board := SetCell(board, Pos(3, 3), WHITE);
      board := SetCell(board, Pos(3, 4), BLACK);
      board := SetCell(board, Pos(4, 3), BLACK);
      board := SetCell(board, Pos(4, 4), WHITE);
      currentPlayer := WHITE;
      gameOver := false;
      message := Blank;
      UpdateCounts();
      InitialCounts();
    }

    /** updateCounts: count the white and the black stones on the board. */
    method UpdateCounts()
      requires WellFormed(board)
      modifies this`whiteCount, this`blackCount
      ensures whiteCount == Count(board, WHITE) && blackCount == Count(board, BLACK)
    {
      whiteCount := 0;
      blackCount := 0;
      for r := 0 to SIZE
        invariant whiteCount == Count(board[..r], WHITE) && blackCount == Count(board[..r], BLACK)
      {
        for c := 0 to SIZE
          invariant whiteCount == Count(board[..r], WHITE) + CountIn(board[r][..c], WHITE)
          invariant blackCount == Count(board[..r], BLACK) + CountIn(board[r][..c], BLACK)
        {
          assert board[r][..c + 1][..c] == board[r][..c];
          if board[r][c] == WHITE {
            whiteCount := whiteCount + 1;
          } else if board[r][c] == BLACK {
            blackCount := blackCount + 1;
          }
        }
        assert board[..r + 1][..r] == board[..r] && board[r][..SIZE] == board[r];
      }
      assert board[..SIZE] == board;
    }

    /**
     * getValidMoves(player): every cell where checkFlip finds stones, in
     * row-major order; by RowMajorUnique no other list has both properties.
     */
    method GetValidMoves(player: int) returns (validMoves: seq<Pos>)
      requires WellFormed(board)
      ensures forall p :: p in validMoves <==> IsMove(board, player, p)
      ensures RowMajor(validMoves)
      ensures |validMoves| > 0 <==> HasMove(board, player)
    {
      validMoves := [];
      for r := 0 to SIZE
        invariant RowMajor(validMoves)
        invariant forall p :: p in validMoves <==> IsMove(board, player, p) && p.r < r
      {
        for c := 0 to SIZE
          invariant RowMajor(validMoves)
          invariant forall p :: p in validMoves <==> IsMove(board, player, p) && Before(p, Pos(r, c))
        {
          var flipped := CheckFlip(r, c, player, board);
          MovesStep(board, player, validMoves, r, c, |flipped| > 0);
          if |flipped| > 0 {
            validMoves := validMoves + [Pos(r, c)];
          }
        }
      }
      if |validMoves| > 0 {
        assert validMoves[0] in validMoves;
      }
    }

    /**
     * placeStoneAndFlip(r, c, player): when checkFlip finds nothing, report
     * failure and change nothing; otherwise put the stone down, turn over
     * every flipped stone and recount.
     */
    method PlaceStoneAndFlip(r: int, c: int, player: int) returns (success: bool)
      requires Valid() && IsValid(r, c) && IsPlayer(player)
      modifies this`board, this`whiteCount, this`blackCount
      ensures Legal(board)
      ensures whiteCount == Count(board, WHITE) && blackCount == Count(board, BLACK)
      ensures success <==> IsMove(old(board), player, Pos(r, c))
      ensures !success ==> board == old(board)
      ensures success ==> board == Move(old(board), r, c, player)
      ensures success ==>
        var n := |Flips(old(board), r, c, player)|;
        if player == WHITE then whiteCount == old(whiteCount) + 1 + n && blackCount == old(blackCount) - n
        else blackCount == old(blackCount) + 1 + n && whiteCount == old(whiteCount) - n
    {
      var flipped := CheckFlip(r, c, player, board);
      if |flipped| == 0 {
        return false;
      }
      ghost var b0 := board;
      board := SetCell(board, Pos(r, c), player);
      TurnOver(flipped, player);
      MoveIsPlaceThenPaint(b0, r, c, player);
      assert board == Move(b0, r, c, player);
      MoveCounts(b0, r, c, player);
      UpdateCounts();
      return true;
    }

    /**
     * The animation loop of placeStoneAndFlip: each stone of `stones` in
     * turn takes the colour of `player` when its flip animation ends.
     */
    method TurnOver(stones: seq<Pos>, player: int)
      requires WellFormed(board)
      modifies this`board
      ensures board == Paint(old(board), stones, player)
    {
      ghost var b0 := board;
      for i := 0 to |stones|
        invariant WellFormed(board)
        invariant board == Paint(b0, stones[..i], player)
      {
        var stonePos := stones[i];
        assert stones[..i + 1][..i] == stones[..i];
        board := SetCell(board, stonePos, player);
      }
      assert stones[..|stones|] == stones;
    }

    /** endGame: the game is over and the message gives the verdict and the counts. */
    method EndGame()
      modifies this`gameOver, this`message
      ensures gameOver && message == GameResult(Decide(whiteCount, blackCount), whiteCount, blackCount)
    {
      gameOver := true;
      message := GameResult(Decide(whiteCount, blackCount), whiteCount, blackCount);
    }

    /** switchTurn: hand the move to the other side, then checkGameStatus. */
    method SwitchTurn()
      requires Valid()
      modifies this`currentPlayer, this`gameOver, this`message, this`pendingNpcTurns
      decreases if HasMove(board, -currentPlayer) then 0 else 1, 1
      ensures Valid()
      ensures State() == AfterCheck(board, whiteCount, blackCount, old(State()).(player := -old(currentPlayer)))
    {
      currentPlayer := -currentPlayer;
      CheckGameStatus();
    }

    /**
     * checkGameStatus, with the pass callback scheduling no second npcTurn
     * (see CheckGameStatusAsWritten): a side with a move keeps the turn and
     * Black's turn starts the NPC; a side without one passes; when neither
     * side can move the game ends. At most one NPC turn is scheduled.
     */
    method CheckGameStatus()
      requires Valid()
      modifies this`currentPlayer, this`gameOver, this`message, this`pendingNpcTurns
      decreases if HasMove(board, currentPlayer) then 0 else 1, 0
      ensures Valid()
      ensures State() == AfterCheck(board, whiteCount, blackCount, old(State()))
    {
      var playerValidMoves := GetValidMoves(currentPlayer);
      if |playerValidMoves| == 0 {
        message := Pass(currentPlayer);
        var opponentValidMoves := GetValidMoves(-currentPlayer);
        if |opponentValidMoves| == 0 {
          EndGame();
        } else {
          SwitchTurn();
        }
      } else if currentPlayer == BLACK && !gameOver {
        pendingNpcTurns := pendingNpcTurns + 1;
      }
    }

    /**
     * checkGameStatus as written: after a pass, the callback's switchTurn
     * already runs checkGameStatus, which schedules npcTurn when Black is
     * to move, and the callback then schedules npcTurn once more.
     */
    method CheckGameStatusAsWritten()
      requires Valid()
      modifies this`currentPlayer, this`gameOver, this`message, this`pendingNpcTurns
      ensures Valid()
      ensures State() == AfterCheckAsWritten(board, whiteCount, blackCount, old(State()))
    {
      var playerValidMoves := GetValidMoves(currentPlayer);
      if |playerValidMoves| == 0 {
        message := Pass(currentPlayer);
        var opponentValidMoves := GetValidMoves(-currentPlayer);
        if |opponentValidMoves| == 0 {
          EndGame();
        } else {
          SwitchTurn();
          if currentPlayer == BLACK && !gameOver {
            pendingNpcTurns := pendingNpcTurns + 1;
          }
        }
      } else if currentPlayer == BLACK && !gameOver {
        pendingNpcTurns := pendingNpcTurns + 1;
      }
    }

    /**
     * handleCellClick on cell `(r, c)`: ignored when the game is over or
     * Black is to move; otherwise White's stone is placed if that is a valid
     * move (then the turn passes on), else the message says it cannot be.
     */
    method HandleCellClick(r: int, c: int)
      requires Valid() && IsValid(r, c)
      modifies this`board, this`whiteCount, this`blackCount, this`currentPlayer, this`gameOver, this`message, this`pendingNpcTurns
      ensures Valid()
      ensures old(gameOver) || old(currentPlayer) == BLACK ==>
        && board == old(board) && currentPlayer == old(currentPlayer) && gameOver == old(gameOver)
        && message == old(message) && pendingNpcTurns == old(pendingNpcTurns)
      ensures !old(gameOver) && old(currentPlayer) == WHITE && !IsMove(old(board), WHITE, Pos(r, c)) ==>
        && board == old(board) && currentPlayer == WHITE && !gameOver
        && message == CannotPlace && pendingNpcTurns == old(pendingNpcTurns)
      ensures !old(gameOver) && old(currentPlayer) == WHITE && IsMove(old(board), WHITE, Pos(r, c)) ==>
        && board == Move(old(board), r, c, WHITE)
        && State() == AfterCheck(board, whiteCount, blackCount, Status(BLACK, false, Blank, old(pendingNpcTurns)))
    {
      if gameOver || currentPlayer == BLACK {
        return;
      }
      var success := PlaceStoneAndFlip(r, c, currentPlayer);
      if success {
        message := Blank;
        SwitchTurn();
      } else {
        message := CannotPlace;
      }
    }

    /**
     * The move branch of npcTurn: Black plays the move at index
     * floor(u * n) of its n valid moves, and the turn passes on.
     */
    method NpcPlay(u: Unit, validMoves: seq<Pos>) returns (move: Pos)
      requires Valid() && !gameOver && |validMoves| > 0
      requires forall p :: p in validMoves ==> IsMove(board, BLACK, p)
      modifies this`board, this`whiteCount, this`blackCount, this`currentPlayer, this`gameOver, this`message, this`pendingNpcTurns
      ensures Valid()
      ensures move == validMoves[RandomInt(u, |validMoves|)] && IsMove(old(board), BLACK, move)
      ensures board == Move(old(board), move.r, move.c, BLACK)
      ensures State() == AfterCheck(board, whiteCount, blackCount, Status(-old(currentPlayer), false, Blank, old(pendingNpcTurns)))
    {
      var randomIndex := RandomInt(u, |validMoves|);
      move := validMoves[randomIndex];
      assert move in validMoves;
      var success := PlaceStoneAndFlip(move.r, move.c, BLACK);
      assert success;
      message := Blank;
      SwitchTurn();
    }

    /**
     * npcTurn, run by one scheduled timer, with `u` the value of
     * Math.random(): when the game goes on and Black has a move, Black plays
     * the move at index floor(u * n) of the n valid moves in row-major order
     * and the turn passes on; without a move, the status is checked again.
     */
    method NpcTurn(u: Unit) returns (played: Option<Pos>, ghost moves: seq<Pos>)
      requires Valid() && pendingNpcTurns > 0
      modifies this`board, this`whiteCount, this`blackCount, this`currentPlayer, this`gameOver, this`message, this`pendingNpcTurns
      ensures Valid()
      ensures old(gameOver) ==>
        && played == None && board == old(board) && currentPlayer == old(currentPlayer)
        && gameOver && message == old(message) && pendingNpcTurns == old(pendingNpcTurns) - 1
      ensures !old(gameOver) && !HasMove(old(board), BLACK) ==>
        && played == None && board == old(board)
        && State() == AfterCheck(board, whiteCount, blackCount, Status(old(currentPlayer), false, NpcThinking, old(pendingNpcTurns) - 1))
      ensures !old(gameOver) && HasMove(old(board), BLACK) ==>
        && played.Some? && IsMove(old(board), BLACK, played.value)
        && RowMajor(moves) && (forall p :: p in moves <==> IsMove(old(board), BLACK, p))
        && |moves| > 0 && played.value == moves[RandomInt(u, |moves|)]
        && board == Move(old(board), played.value.r, played.value.c, BLACK)
        && State() == AfterCheck(board, whiteCount, blackCount, Status(-old(currentPlayer), false, Blank, old(pendingNpcTurns) - 1))
    {
      pendingNpcTurns := pendingNpcTurns - 1;
      moves := [];
      if gameOver {
        return None, moves;
      }
      message := NpcThinking;
      var validMoves := GetValidMoves(BLACK);
      moves := validMoves;
      if |validMoves| > 0 {
        var move := NpcPlay(u, validMoves);
        return Some(move), moves;
      } else {
        CheckGameStatus();
        return None, moves;
      }
    }
  }
}
