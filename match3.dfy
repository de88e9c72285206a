/**
 * The match-3 engine of p/script.js: the match detector, the board
 * generator, and the game object whose methods are the click handler, the
 * cascade, the gravity pass, the timer and the stalemate check. The
 * awaited animations are plain sequential steps; every `Math.random()` is
 * the next value of the game's `random` stream.
 */
module Match3 {
  import opened Wrappers
  import opened Random
  import opened Match3Board

  /** Time is counted in half seconds: 60 s, +0.5 s per cleared tile, -1 s per tick. */
  const INITIAL_TIME: int := 120
  const TIME_BONUS_PER_TILE: int := 1
  const TICK: int := 2

  /** `matchedTiles.length * TIME_BONUS_PER_TILE`: in half-second units, one per tile. */
  method TimeBonus(tiles: nat) returns (bonus: nat)
    ensures bonus == tiles
  {
    bonus := tiles * TIME_BONUS_PER_TILE;
  }

  function Min(a: int, b: int): int
  {
    if a <= b then a else b
  }

  /** `Set.add` on a set kept in insertion order, as `Array.from` returns it. */
  function AddToSet(tiles: seq<Pos>, p: Pos): (r: seq<Pos>)
    ensures forall q :: q in r <==> q in tiles || q == p
    ensures Distinct(tiles) ==> Distinct(r)
  {
    if p in tiles then tiles else tiles + [p]
  }

  /** `p` lies in a horizontal window whose row-major scan index is below `limit`. */
  ghost predicate HCoveredBefore(g: Grid, p: Pos, limit: int)
    requires WellFormed(g)
  {
    (HWin(g, p.row, p.col - 2) && p.row * BOARD_SIZE + p.col - 2 < limit) ||
    (HWin(g, p.row, p.col - 1) && p.row * BOARD_SIZE + p.col - 1 < limit) ||
    (HWin(g, p.row, p.col) && p.row * BOARD_SIZE + p.col < limit)
  }

  /** `p` lies in a vertical window whose column-major scan index is below `limit`. */
  ghost predicate VCoveredBefore(g: Grid, p: Pos, limit: int)
    requires WellFormed(g)
  {
    (VWin(g, p.row - 2, p.col) && p.col * BOARD_SIZE + p.row - 2 < limit) ||
    (VWin(g, p.row - 1, p.col) && p.col * BOARD_SIZE + p.row - 1 < limit) ||
    (VWin(g, p.row, p.col) && p.col * BOARD_SIZE + p.row < limit)
  }

  /** The cells of the window of three at (r, c), horizontal or vertical. */
  function WindowCells(r: int, c: int, horizontal: bool): set<Pos>
  {
    if horizontal then {Pos(r, c), Pos(r, c + 1), Pos(r, c + 2)}
    else {Pos(r, c), Pos(r + 1, c), Pos(r + 2, c)}
  }

  lemma HScanStep(g: Grid, r: int, c: int, p: Pos)
    requires WellFormed(g) && 0 <= r < BOARD_SIZE && 0 <= c < BOARD_SIZE - 2
    ensures HCoveredBefore(g, p, r * BOARD_SIZE + c + 1) <==>
      HCoveredBefore(g, p, r * BOARD_SIZE + c) || (HWin(g, r, c) && p in WindowCells(r, c, true))
  {
  }

  lemma HScanRowEnd(g: Grid, r: int, p: Pos)
    requires WellFormed(g) && 0 <= r < BOARD_SIZE
    ensures HCoveredBefore(g, p, r * BOARD_SIZE + BOARD_SIZE - 2) <==> HCoveredBefore(g, p, (r + 1) * BOARD_SIZE)
  {
  }

  lemma VScanStep(g: Grid, r: int, c: int, p: Pos)
    requires WellFormed(g) && 0 <= c < BOARD_SIZE && 0 <= r < BOARD_SIZE - 2
    ensures VCoveredBefore(g, p, c * BOARD_SIZE + r + 1) <==>
      VCoveredBefore(g, p, c * BOARD_SIZE + r) || (VWin(g, r, c) && p in WindowCells(r, c, false))
  {
  }

  lemma VScanColumnEnd(g: Grid, c: int, p: Pos)
    requires WellFormed(g) && 0 <= c < BOARD_SIZE
    ensures VCoveredBefore(g, p, c * BOARD_SIZE + BOARD_SIZE - 2) <==> VCoveredBefore(g, p, (c + 1) * BOARD_SIZE)
  {
  }

  lemma ScanComplete(g: Grid, p: Pos)
    requires WellFormed(g) && InBounds(p.row, p.col)
    ensures (HCoveredBefore(g, p, BOARD_SIZE * BOARD_SIZE) || VCoveredBefore(g, p, BOARD_SIZE * BOARD_SIZE))
      <==> p in Matched(g)
  {
    assert p in Matched(g) <==> InMatch(g, p.row, p.col);
  }

  /** Add the three cells of a window, in the source's order. */
  function AddWindow(tiles: seq<Pos>, r: int, c: int, horizontal: bool): (res: seq<Pos>)
    ensures forall q :: q in res <==> q in tiles || q in WindowCells(r, c, horizontal)
    ensures Distinct(tiles) ==> Distinct(res)
  {
    if horizontal then AddToSet(AddToSet(AddToSet(tiles, Pos(r, c)), Pos(r, c + 1)), Pos(r, c + 2))
    else AddToSet(AddToSet(AddToSet(tiles, Pos(r, c)), Pos(r + 1, c)), Pos(r + 2, c))
  }

  /**
   * checkMatchesOnBoard: scan every horizontal window of three row by row,
   * then every vertical one column by column, and collect the covered cells.
   * The result lists each matched cell exactly once.
   */
  method CheckMatchesOnBoard(targetBoard: Grid) returns (matches: seq<Pos>)
    requires WellFormed(targetBoard)
    ensures Distinct(matches)
    ensures forall p :: p in matches <==> p in Matched(targetBoard)
    ensures |matches| == |Matched(targetBoard)|
  {
    ghost var g := targetBoard;
    matches := [];
    for r := 0 to BOARD_SIZE
      invariant Distinct(matches)
      invariant forall p :: p in matches <==> (InBounds(p.row, p.col) && HCoveredBefore(g, p, r * BOARD_SIZE))
    {
      for c := 0 to BOARD_SIZE - 2
        invariant Distinct(matches)
        invariant forall p :: p in matches <==> (InBounds(p.row, p.col) && HCoveredBefore(g, p, r * BOARD_SIZE + c))
      {
        var t := targetBoard[r][c];
        ghost var before := matches;
        if t != Null && targetBoard[r][c + 1] == t && targetBoard[r][c + 2] == t {
          matches := AddWindow(matches, r, c, true);
        }
        forall p ensures p in matches <==> (InBounds(p.row, p.col) && HCoveredBefore(g, p, r * BOARD_SIZE + c + 1)) {
          HScanStep(g, r, c, p);
        }
      }
      forall p ensures p in matches <==> (InBounds(p.row, p.col) && HCoveredBefore(g, p, (r + 1) * BOARD_SIZE)) {
        HScanRowEnd(g, r, p);
      }
    }
    for c := 0 to BOARD_SIZE
      invariant Distinct(matches)
      invariant forall p :: p in matches <==> (InBounds(p.row, p.col) &&
        (HCoveredBefore(g, p, BOARD_SIZE * BOARD_SIZE) || VCoveredBefore(g, p, c * BOARD_SIZE)))
    {
      for r := 0 to BOARD_SIZE - 2
        invariant Distinct(matches)
        invariant forall p :: p in matches <==> (InBounds(p.row, p.col) &&
          (HCoveredBefore(g, p, BOARD_SIZE * BOARD_SIZE) || VCoveredBefore(g, p, c * BOARD_SIZE + r)))
      {
        var t := targetBoard[r][c];
        if t != Null && targetBoard[r + 1][c] == t && targetBoard[r + 2][c] == t {
          matches := AddWindow(matches, r, c, false);
        }
        forall p ensures p in matches <==> (InBounds(p.row, p.col) &&
          (HCoveredBefore(g, p, BOARD_SIZE * BOARD_SIZE) || VCoveredBefore(g, p, c * BOARD_SIZE + r + 1))) {
          VScanStep(g, r, c, p);
        }
      }
      forall p ensures p in matches <==> (InBounds(p.row, p.col) &&
        (HCoveredBefore(g, p, BOARD_SIZE * BOARD_SIZE) || VCoveredBefore(g, p, (c + 1) * BOARD_SIZE))) {
        VScanColumnEnd(g, c, p);
      }
    }
    forall p ensures p in matches <==> p in Matched(g) {
      if InBounds(p.row, p.col) {
        ScanComplete(g, p);
      }
    }
    assert (set p | p in matches) == Matched(g);
    DistinctCardinality(matches);
  }

  // ---------------------------------------------------------------------
  // Generation

  /** Three equal cells from index `j` of one row. */
  ghost predicate RowRun(row: seq<Cell>, j: int)
  {
    0 <= j && j + 2 < |row| && row[j] == row[j + 1] && row[j + 1] == row[j + 2]
  }

  /** Three equal cells from row `i` down column `j`. */
  ghost predicate ColumnRun(rows: Grid, i: int, j: int)
    requires 0 <= i && i + 2 < |rows| && 0 <= j
    requires |rows[i]| > j && |rows[i + 1]| > j && |rows[i + 2]| > j
  {
    rows[i][j] == rows[i + 1][j] && rows[i + 1][j] == rows[i + 2][j]
  }

  /**
   * The rows generated so far (`rows`, all complete) and the row being
   * filled (`row`) hold tiles only and contain no window of three.
   */
  ghost predicate PartialBoardOk(rows: Grid, row: seq<Cell>)
  {
    && (forall i :: 0 <= i < |rows| ==> |rows[i]| == BOARD_SIZE)
    && (forall i, j :: 0 <= i < |rows| && 0 <= j < BOARD_SIZE ==> IsTile(rows[i][j]))
    && (forall j :: 0 <= j < |row| ==> IsTile(row[j]))
    && (forall i, j :: 0 <= i < |rows| && 0 <= j ==> !RowRun(rows[i], j))
    && (forall j :: 0 <= j ==> !RowRun(row, j))
    && (forall i, j :: 0 <= i && i + 2 < |rows| && 0 <= j < BOARD_SIZE ==> !ColumnRun(rows, i, j))
    && (forall j :: 0 <= j < |row| && j < BOARD_SIZE && |rows| >= 2 ==>
          !(rows[|rows| - 2][j] == rows[|rows| - 1][j] && rows[|rows| - 1][j] == row[j]))
  }

  lemma AppendCellOk(rows: Grid, row: seq<Cell>, t: Cell)
    requires PartialBoardOk(rows, row) && |rows| < BOARD_SIZE && |row| < BOARD_SIZE
    requires IsTile(t) && !CompletesRun(rows, row, t)
    ensures PartialBoardOk(rows, row + [t])
  {
    var row' := row + [t];
    forall j | 0 <= j ensures !RowRun(row', j) {
      if j + 2 < |row| {
        assert !RowRun(row, j);
      } else if j + 2 == |row| {
        assert row'[j] == row[|row| - 2] && row'[j + 1] == row[|row| - 1] && row'[j + 2] == t;
      }
    }
  }

  lemma AppendRowOk(rows: Grid, row: seq<Cell>)
    requires PartialBoardOk(rows, row) && |row| == BOARD_SIZE
    ensures PartialBoardOk(rows + [row], [])
  {
    var rows' := rows + [row];
    forall i, j | 0 <= i < |rows'| && 0 <= j ensures !RowRun(rows'[i], j) {
      if i < |rows| {
        assert !RowRun(rows[i], j);
      }
    }
    forall i, j | 0 <= i && i + 2 < |rows'| && 0 <= j < BOARD_SIZE ensures !ColumnRun(rows', i, j) {
      if i + 2 < |rows| {
        assert !ColumnRun(rows, i, j);
      }
    }
  }

  lemma CompleteBoardOk(rows: Grid)
    requires PartialBoardOk(rows, []) && |rows| == BOARD_SIZE
    ensures Full(rows) && NoWindows(rows)
  {
    forall r, c ensures !HWin(rows, r, c) && !VWin(rows, r, c) {
      if HWin(rows, r, c) {
        assert RowRun(rows[r], c);
      }
      if VWin(rows, r, c) {
        assert ColumnRun(rows, r, c);
      }
    }
  }

  /**
   * createInitialBoardData: fill the board in row-major order, redrawing a
   * cell while its draw would complete a run of three with the two cells
   * above or the two cells to the left. The draws are random(from),
   * random(from + 1), ...; the `do/while` ends only by chance, so at most
   * `fuel` draws are made and None reports that they did not suffice.
   */
  method CreateInitialBoardData(random: nat -> Unit, from: nat, fuel: nat)
    returns (res: Option<Grid>, next: nat)
    ensures from <= next <= from + fuel
    ensures res.Some? ==> Full(res.value) && NoWindows(res.value) && Matched(res.value) == {}
    ensures res.None? ==> next == from + fuel
  {
    var newBoard: Grid := [];
    next := from;
    for r := 0 to BOARD_SIZE
      invariant |newBoard| == r && PartialBoardOk(newBoard, [])
      invariant from <= next <= from + fuel
    {
      var row: seq<Cell> := [];
      for c := 0 to BOARD_SIZE
        invariant |row| == c && PartialBoardOk(newBoard, row)
        invariant from <= next <= from + fuel
      {
        if next == from + fuel {
          return None, next;
        }
        var animalType := RandomTile(random(next));
        next := next + 1;
        while CompletesRun(newBoard, row, animalType)
          invariant from <= next <= from + fuel
          invariant IsTile(animalType)
          decreases from + fuel - next
        {
          if next == from + fuel {
            return None, next;
          }
          animalType := RandomTile(random(next));
          next := next + 1;
        }
        AppendCellOk(newBoard, row, animalType);
        row := row + [animalType];
      }
      AppendRowOk(newBoard, row);
      newBoard := newBoard + [row];
    }
    res := Some(newBoard);
    CompleteBoardOk(newBoard);
    NoWindowsIffNoMatches(newBoard);
  }

  // ---------------------------------------------------------------------
  // Clearing and gravity. The source mutates the global board in place; these
  // take the board and return its new value, which the game stores back.

  /** clearTiles (board part): every listed cell becomes null, no other cell changes. */
  method ClearTiles(board: Grid, tiles: seq<Pos>) returns (cleared: Grid)
    requires WellFormed(board)
    requires forall p :: p in tiles ==> InBounds(p.row, p.col)
    ensures cleared == Cleared(board, tiles)
  {
    cleared := board;
    for i := 0 to |tiles|
      invariant WellFormed(cleared)
      invariant forall r, c :: InBounds(r, c) ==>
        cleared[r][c] == (if Pos(r, c) in tiles[..i] then Null else board[r][c])
    {
      assert tiles[..i + 1] == tiles[..i] + [tiles[i]];
      cleared := SetCell(cleared, tiles[i].row, tiles[i].col, Null);
    }
    assert tiles[..|tiles|] == tiles;
    GridExt(cleared, Cleared(board, tiles));
  }

  /** clearTiles followed by dropTiles: a full board again. */
  method ClearAndDrop(board: Grid, tiles: seq<Pos>, random: nat -> Unit, from: nat) returns (dropped: Grid, next: nat)
    requires Full(board)
    requires forall p :: p in tiles ==> InBounds(p.row, p.col)
    ensures Full(dropped)
    ensures dropped == Dropped(Cleared(board, tiles), random, from)
    ensures next == from + DrawsBefore(Cleared(board, tiles), BOARD_SIZE)
  {
    var cleared := ClearTiles(board, tiles);
    DroppedFull(cleared, random, from);
    dropped, next := DropTiles(cleared, random, from);
  }

  /** The round of checkMatchesWrapper on the detector's list: clearTiles then dropTiles, which is one Step. */
  method ResolveRound(board: Grid, tiles: seq<Pos>, random: nat -> Unit, from: nat) returns (dropped: Grid, next: nat)
    requires Full(board)
    requires forall p :: p in tiles <==> p in Matched(board)
    ensures dropped == Step(board, random, from, 2).board && next == Step(board, random, from, 2).drawn
  {
    StepClears(board, tiles, random, from);
    dropped, next := ClearAndDrop(board, tiles, random, from);
  }

  /**
   * dropTiles (board part): column by column, every tile falls over the
   * nulls below it, then the top of the column is refilled with fresh draws
   * `random(from)`, `random(from + 1)`, ...; `next` is the first unused draw.
   */
  method DropTiles(board: Grid, random: nat -> Unit, from: nat) returns (dropped: Grid, next: nat)
    requires WellFormed(board)
    ensures dropped == Dropped(board, random, from)
    ensures next == from + DrawsBefore(board, BOARD_SIZE)
  {
    dropped, next := board, from;
    for c := 0 to BOARD_SIZE
      invariant DropInv(board, random, from, dropped, c, next)
    {
      var settled, after := DropColumn(dropped, c, random, next);
      DropInvStep(board, random, from, dropped, settled, c, next);
      dropped, next := settled, after;
    }
    DropDone(board, random, from, dropped, next);
  }

  /**
   * The state of dropTiles before column `c`: columns 0..c-1 are settled,
   * the others untouched, and `next` draws have been made.
   */
  ghost predicate DropInv(board: Grid, random: nat -> Unit, from: nat, g: Grid, c: int, next: nat)
  {
    && WellFormed(board) && WellFormed(g) && 0 <= c <= BOARD_SIZE
    && next == from + DrawsBefore(board, c)
    && (forall r, j :: InBounds(r, j) && j < c ==> g[r][j] == SettledColumn(board, random, from, j)[r])
    && (forall r, j :: InBounds(r, j) && c <= j ==> g[r][j] == board[r][j])
  }

  lemma DropInvStep(board: Grid, random: nat -> Unit, from: nat, g: Grid, h: Grid, c: int, next: nat)
    requires DropInv(board, random, from, g, c, next) && c < BOARD_SIZE
    requires WellFormed(h) && SameOutsideColumn(g, h, c)
    requires forall k :: 0 <= k < BOARD_SIZE ==> h[k][c] == Settle(Column(g, c), random, next)[k]
    ensures DropInv(board, random, from, h, c + 1, next + NullCount(Column(g, c)))
  {
    UntouchedColumn(board, g, c);
    assert SettledColumn(board, random, from, c) == Settle(Column(g, c), random, next);
  }

  lemma UntouchedColumn(board: Grid, g: Grid, c: int)
    requires WellFormed(board) && WellFormed(g) && 0 <= c < BOARD_SIZE
    requires forall r, j :: InBounds(r, j) && c <= j ==> g[r][j] == board[r][j]
    ensures Column(g, c) == Column(board, c)
  {
  }

  lemma DropDone(board: Grid, random: nat -> Unit, from: nat, g: Grid, next: nat)
    requires DropInv(board, random, from, g, BOARD_SIZE, next)
    ensures g == Dropped(board, random, from)
  {
    GridExt(g, Dropped(board, random, from));
  }

  /** One column of dropTiles: the gravity scan, then the refill. */
  method DropColumn(dropped: Grid, c: int, random: nat -> Unit, next: nat) returns (settled: Grid, after: nat)
    requires WellFormed(dropped) && 0 <= c < BOARD_SIZE
    ensures WellFormed(settled) && SameOutsideColumn(dropped, settled, c)
    ensures forall k :: 0 <= k < BOARD_SIZE ==> settled[k][c] == Settle(Column(dropped, c), random, next)[k]
    ensures after == next + NullCount(Column(dropped, c))
  {
    var fallen, emptySpacesInColumn := FallColumn(dropped, c);
    settled := RefillColumn(fallen, c, emptySpacesInColumn, random, next);
    after := next + emptySpacesInColumn;
    ColumnSettled(dropped, fallen, settled, c, emptySpacesInColumn, random, next);
  }

  /** The scan and the refill together settle the column (Match3Board.Settle). */
  lemma ColumnSettled(dropped: Grid, fallen: Grid, settled: Grid, c: int, e: nat, random: nat -> Unit, next: nat)
    requires WellFormed(dropped) && WellFormed(settled) && 0 <= c < BOARD_SIZE
    requires e == NullCount(Column(dropped, c))
    requires fallen == WithColumn(dropped, c, Nulls(e) + Compact(Column(dropped, c)))
    requires forall k :: 0 <= k < e ==> settled[k][c] == RandomTile(random(next + k))
    requires forall k :: e <= k < BOARD_SIZE ==> settled[k][c] == fallen[k][c]
    requires SameOutsideColumn(fallen, settled, c)
    ensures forall k :: 0 <= k < BOARD_SIZE ==> settled[k][c] == Settle(Column(dropped, c), random, next)[k]
    ensures SameOutsideColumn(dropped, settled, c)
  {
    var col := Column(dropped, c);
    var s := Settle(col, random, next);
    assert s == Fresh(random, next, e) + Compact(col);
    forall k | 0 <= k < BOARD_SIZE
      ensures settled[k][c] == s[k]
    {
      if k >= e {
        assert settled[k][c] == fallen[k][c] == (Nulls(e) + Compact(col))[k] == Compact(col)[k - e];
      }
    }
  }

  /** `g` with column `c` replaced by `v` (read top to bottom). */
  ghost function WithColumn(g: Grid, c: int, v: seq<Cell>): (h: Grid)
    requires WellFormed(g) && 0 <= c < BOARD_SIZE && |v| == BOARD_SIZE
    ensures WellFormed(h)
    ensures forall i, j :: InBounds(i, j) ==> h[i][j] == if j == c then v[i] else g[i][j]
  {
    seq(BOARD_SIZE, i requires 0 <= i < BOARD_SIZE => g[i][c := v[i]])
  }

  /** Putting back a column that was read out changes nothing. */
  lemma WithOwnColumn(g: Grid, c: int)
    requires WellFormed(g) && 0 <= c < BOARD_SIZE
    ensures WithColumn(g, c, Column(g, c)) == g
  {
    GridExt(WithColumn(g, c, Column(g, c)), g);
  }

  /** Setting a cell of column `c` is updating the replaced column. */
  lemma SetCellInColumn(g: Grid, c: int, v: seq<Cell>, r: int, x: Cell)
    requires WellFormed(g) && 0 <= c < BOARD_SIZE && |v| == BOARD_SIZE && 0 <= r < BOARD_SIZE
    ensures SetCell(WithColumn(g, c, v), r, c, x) == WithColumn(g, c, v[r := x])
  {
    GridExt(SetCell(WithColumn(g, c, v), r, c, x), WithColumn(g, c, v[r := x]));
  }

  /** `n` empty cells. */
  ghost function Nulls(n: nat): (s: seq<Cell>)
    ensures |s| == n && forall i :: 0 <= i < n ==> s[i] == Null
  {
    seq(n, _ => Null)
  }

  /**
   * The scan of dropTiles over column `c`, bottom to top: every tile falls
   * by the number of nulls below it, which the loop counts. The nulls end
   * up on top, the tiles keep their order.
   */
  method FallColumn(board: Grid, c: int) returns (fallen: Grid, emptySpacesInColumn: nat)
    requires WellFormed(board) && 0 <= c < BOARD_SIZE
    ensures emptySpacesInColumn == NullCount(Column(board, c))
    ensures fallen == WithColumn(board, c, Nulls(emptySpacesInColumn) + Compact(Column(board, c)))
  {
    ghost var col := Column(board, c);
    ghost var survivors: seq<Cell> := [];
    fallen := board;
    emptySpacesInColumn := 0;
    var r := BOARD_SIZE - 1;
    FallStart(board, c);
    while r >= 0
      invariant FallInv(board, fallen, c, col, r, emptySpacesInColumn, survivors)
    {
      fallen, emptySpacesInColumn, survivors := FallStep(board, fallen, c, col, r, emptySpacesInColumn, survivors);
      r := r - 1;
    }
    FallDone(board, fallen, c, col, r, emptySpacesInColumn, survivors);
  }

  /** One step of the gravity scan, at row `r`: count a null, or move a tile down. */
  method FallStep(ghost board: Grid, g: Grid, c: int, ghost col: seq<Cell>, r: int, e: nat, ghost survivors: seq<Cell>)
    returns (fallen: Grid, emptySpacesInColumn: nat, ghost rest: seq<Cell>)
    requires FallInv(board, g, c, col, r, e, survivors) && r >= 0
    ensures FallInv(board, fallen, c, col, r - 1, emptySpacesInColumn, rest)
  {
    DropStep(col, r);
    ghost var v := col[..r + 1] + Nulls(e) + survivors;
    assert g[r][c] == v[r] == col[r];
    fallen, emptySpacesInColumn, rest := g, e, survivors;
    if fallen[r][c] == Null {
      ScanOverNull(col, r, e, survivors);
      emptySpacesInColumn := emptySpacesInColumn + 1;
    } else {
      rest := [col[r]] + survivors;
      if emptySpacesInColumn > 0 {
        ScanMove(col, r, e, survivors);
        SetCellInColumn(board, c, v, r + e, col[r]);
        SetCellInColumn(board, c, v[r + e := col[r]], r, Null);
        var targetRow := r + emptySpacesInColumn;
        fallen := SetCell(fallen, targetRow, c, fallen[r][c]);
        fallen := SetCell(fallen, r, c, Null);
      } else {
        assert v == col[..r] + Nulls(0) + rest;
      }
    }
  }

  /**
   * The state of the gravity scan of column `c` of `board` above row `r`:
   * rows 0..r still hold the old column `col`, below them come the
   * `e` nulls among rows r+1.., then the survivors of those rows packed
   * at the bottom; other columns are untouched.
   */
  ghost predicate FallInv(board: Grid, g: Grid, c: int, col: seq<Cell>, r: int, e: nat, survivors: seq<Cell>)
  {
    && WellFormed(board) && 0 <= c < BOARD_SIZE && |col| == BOARD_SIZE && -1 <= r < BOARD_SIZE
    && e == NullCount(col[r + 1..]) && survivors == Compact(col[r + 1..])
    && g == WithColumn(board, c, col[..r + 1] + Nulls(e) + survivors)
  }

  lemma FallStart(board: Grid, c: int)
    requires WellFormed(board) && 0 <= c < BOARD_SIZE
    ensures FallInv(board, board, c, Column(board, c), BOARD_SIZE - 1, 0, [])
  {
    var col := Column(board, c);
    assert col[BOARD_SIZE..] == [];
    assert col[..BOARD_SIZE] + Nulls(0) + [] == col;
    WithOwnColumn(board, c);
  }

  lemma FallDone(board: Grid, g: Grid, c: int, col: seq<Cell>, r: int, e: nat, survivors: seq<Cell>)
    requires WellFormed(board) && 0 <= c < BOARD_SIZE && col == Column(board, c)
    requires FallInv(board, g, c, col, r, e, survivors) && r < 0
    ensures e == NullCount(Column(board, c))
    ensures g == WithColumn(board, c, Nulls(e) + Compact(Column(board, c)))
  {
    assert col[0..] == col;
    assert col[..0] + Nulls(e) + survivors == Nulls(e) + survivors;
  }

  /** A null at row `r` joins the block of nulls below it. */
  lemma ScanOverNull(col: seq<Cell>, r: int, e: nat, survivors: seq<Cell>)
    requires 0 <= r < |col| && col[r] == Null
    ensures col[..r + 1] + Nulls(e) + survivors == col[..r] + Nulls(e + 1) + survivors
  {
    var a := col[..r + 1] + Nulls(e) + survivors;
    var b := col[..r] + Nulls(e + 1) + survivors;
    assert |a| == |b|;
    forall k | 0 <= k < |a| ensures a[k] == b[k] {
      if k < r {
        assert a[k] == col[k] == b[k];
      } else if k < r + 1 + e {
        assert a[k] == Null == b[k];
      } else {
        assert a[k] == survivors[k - r - 1 - e] == b[k];
      }
    }
  }

  /** A tile at row `r` jumps over the `e` nulls below it, leaving a null behind. */
  lemma ScanMove(col: seq<Cell>, r: int, e: nat, survivors: seq<Cell>)
    requires 0 <= r < |col| && e > 0
    ensures var v := col[..r + 1] + Nulls(e) + survivors;
      r + e < |v| && v[r + e := col[r]][r := Null] == col[..r] + Nulls(e) + ([col[r]] + survivors)
  {
    var v := col[..r + 1] + Nulls(e) + survivors;
    var a := v[r + e := col[r]][r := Null];
    var b := col[..r] + Nulls(e) + ([col[r]] + survivors);
    assert |a| == |b|;
    forall k | 0 <= k < |a| ensures a[k] == b[k] {
      if k < r {
        assert a[k] == col[k] == b[k];
      } else if k < r + e {
        assert a[k] == Null == b[k];
      } else if k == r + e {
        assert a[k] == col[r] == b[k];
      } else {
        assert a[k] == survivors[k - r - 1 - e] == b[k];
      }
    }
  }

  /** The refill of dropTiles: rows 0..count-1 of column `c` get the draws from `from` on, top first. */
  method RefillColumn(board: Grid, c: int, count: nat, random: nat -> Unit, from: nat) returns (filled: Grid)
    requires WellFormed(board) && 0 <= c < BOARD_SIZE && count <= BOARD_SIZE
    ensures WellFormed(filled)
    ensures forall k :: 0 <= k < count ==> filled[k][c] == RandomTile(random(from + k))
    ensures forall k :: count <= k < BOARD_SIZE ==> filled[k][c] == board[k][c]
    ensures SameOutsideColumn(board, filled, c)
  {
    filled := board;
    for i := 0 to count
      invariant WellFormed(filled)
      invariant forall k :: 0 <= k < i ==> filled[k][c] == RandomTile(random(from + k))
      invariant forall k :: count <= k < BOARD_SIZE ==> filled[k][c] == board[k][c]
      invariant SameOutsideColumn(board, filled, c)
    {
      var newRow := i;
      var newAnimalType := RandomTile(random(from + i));
      filled := SetCell(filled, newRow, c, newAnimalType);
    }
  }

  // ---------------------------------------------------------------------
  // The game

  /** The module-level state of p/script.js. */
  class Match3Game {
    var board: Grid
    var selectedTile: Option<Pos>
    var isProcessing: bool
    var isGameOver: bool
    /** Remaining time, in half seconds. */
    var timeLeft: int
    /** The debounced stalemate check is armed (`stalemateCheckTimeout` is set). */
    var stalemateCheckPending: bool
    /** What `Math.random()` returns on its n-th call, and how many calls were made. */
    const random: nat -> Unit
    var drawn: nat

    /**
     * Outside the handlers the board is a full 8x8 grid of tile types; it is
     * `[]` only while the first generation has not finished, when input is locked.
     */
    ghost predicate Valid()
      reads this
    {
      && (board == [] ==> isProcessing || isGameOver)
      && (board != [] ==> Full(board))
      && 0 <= timeLeft <= INITIAL_TIME
      && (selectedTile.Some? ==> InBounds(selectedTile.value.row, selectedTile.value.col))
    }

    /** The page load: the `let` declarations, then `setupGame` starts the game. */
    constructor (random: nat -> Unit, genFuel: nat, cascadeFuel: nat)
      ensures Valid() && this.random == random && !isGameOver && timeLeft == INITIAL_TIME
    {
      this.random := random;
      board := [];
      selectedTile := None;
      isProcessing := false;
      isGameOver := false;
      timeLeft := INITIAL_TIME;
      stalemateCheckPending := false;
      drawn := 0;
      new;
      var ready := StartGame(genFuel, cascadeFuel);
    }

    /**
     * startGame: reset the flags and the timer, generate a board and resolve it.
     * `ready` is false when generation ran out of draws; the source would
     * still be drawing then, with input locked.
     */
    method StartGame(genFuel: nat, cascadeFuel: nat) returns (ready: bool)
      requires board == [] || Full(board)
      modifies this
      ensures Valid()
      ensures !isGameOver && timeLeft == INITIAL_TIME && selectedTile.None?
      ensures ready ==> !isProcessing && Full(board) && Matched(board) == {} && stalemateCheckPending
      ensures !ready ==> isProcessing && board == old(board)
    {
      isProcessing := false;
      isGameOver := false;
      timeLeft := INITIAL_TIME;
      selectedTile := None;
      isProcessing := true;
      ready := InitializeBoard(genFuel, cascadeFuel);
      if ready {
        isProcessing := false;
        ScheduleStalemateCheck();
      }
    }

    /** initializeBoard / the board part of reloadBoard: a fresh board, then the cascade. */
    method InitializeBoard(genFuel: nat, cascadeFuel: nat) returns (ready: bool)
      requires isProcessing && (board == [] || Full(board)) && 0 <= timeLeft <= INITIAL_TIME
      requires selectedTile.Some? ==> InBounds(selectedTile.value.row, selectedTile.value.col)
      modifies this`board, this`drawn, this`timeLeft
      ensures Valid() && isProcessing && timeLeft == old(timeLeft)
      ensures ready ==> Full(board) && Matched(board) == {}
      ensures !ready ==> board == old(board)
    {
      var res, next := CreateInitialBoardData(random, drawn, genFuel);
      drawn := next;
      if res.None? {
        return false;
      }
      board := res.value;
      ready := true;
      // The generated board has no match, so the chain reaction stops at once.
      var found, cleared, settled := CheckMatchesWrapper(cascadeFuel);
    }

    /** addTime: add the bonus, never above INITIAL_TIME. */
    method AddTime(amount: int)
      requires 0 <= amount && 0 <= timeLeft <= INITIAL_TIME
      modifies this`timeLeft
      ensures timeLeft == Min(INITIAL_TIME, old(timeLeft) + amount)
      ensures old(timeLeft) <= timeLeft <= INITIAL_TIME
    {
      timeLeft := timeLeft + amount;
      if timeLeft > INITIAL_TIME {
        timeLeft := INITIAL_TIME;
      }
    }

    /** updateTimer: one tick of the one-second interval. */
    method UpdateTimer()
      requires Valid()
      modifies this`timeLeft, this`isGameOver, this`isProcessing
      ensures Valid()
      ensures old(isGameOver) ==> timeLeft == old(timeLeft) && isGameOver && isProcessing == old(isProcessing)
      ensures !old(isGameOver) ==> timeLeft == (if old(timeLeft) - TICK <= 0 then 0 else old(timeLeft) - TICK)
      ensures !old(isGameOver) ==> (isGameOver <==> old(timeLeft) - TICK <= 0)
      ensures !old(isGameOver) ==> isProcessing == (old(isProcessing) && !isGameOver)
    {
      if isGameOver {
        return;
      }
      timeLeft := timeLeft - TICK;
      if timeLeft <= 0 {
        timeLeft := 0;
        EndGame();
      }
    }

    /** endGame: the first call ends the game and releases the lock; later calls do nothing. */
    method EndGame()
      modifies this`isGameOver, this`isProcessing
      ensures isGameOver
      ensures isProcessing == (old(isProcessing) && old(isGameOver))
    {
      if isGameOver {
        return;
      }
      isGameOver := true;
      isProcessing := false;
    }

    /** checkMatches: the detector on the current board lists each matched cell once. */
    method CheckMatches() returns (matches: seq<Pos>)
      requires WellFormed(board)
      ensures Distinct(matches)
      ensures forall p {:trigger p in Matched(board)} :: p in matches <==> p in Matched(board)
      ensures |matches| == |Matched(board)|
      ensures |matches| > 0 <==> Matched(board) != {}
    {
      matches := CheckMatchesOnBoard(board);
    }

    /**
     * checkMatchesWrapper: detect, add the time bonus, clear, drop, and
     * repeat until a detection finds nothing: the chain reaction Cascade.
     * `found` is true iff the first detection found a match; `cleared` is
     * the number of cells cleared over the whole cascade. The chain ends only
     * by chance, so it is cut after `fuel` further rounds; `settled` says
     * that it reached a stable board.
     */
    method CheckMatchesWrapper(fuel: nat) returns (found: bool, cleared: nat, settled: bool)
      requires Valid() && board != []
      modifies this`board, this`drawn, this`timeLeft
      decreases fuel
      ensures Valid() && board != []
      ensures found == (Matched(old(board)) != {})
      ensures found <==> cleared > 0
      ensures !found ==> board == old(board) && drawn == old(drawn)
      ensures settled ==> Matched(board) == {}
      ensures Cascade(old(board), random, old(drawn), fuel) == Chain(board, drawn, cleared, settled)
      ensures timeLeft == Min(INITIAL_TIME, old(timeLeft) + cleared)
    {
      ghost var g0, d0, t0 := board, drawn, timeLeft;
      var n := DetectAndResolve();
      if n == 0 {
        CascadeOnStable(g0, random, d0, fuel);
        found, cleared, settled := false, 0, true;
      } else if fuel == 0 {
        CascadeCut(g0, random, d0, Step(g0, random, d0, 2));
        found, cleared, settled := true, n, false;
      } else {
        var more, moreCleared, moreSettled := CheckMatchesWrapper(fuel - 1);
        CascadeRound(g0, random, d0, fuel, Step(g0, random, d0, 2), Chain(board, drawn, moreCleared, moreSettled));
        BonusesAccumulate(t0, n, moreCleared);
        found, cleared, settled := true, n + moreCleared, moreSettled;
      }
    }

    /**
     * The detection and the first round of checkMatchesWrapper: `n` cells
     * match; when some do, they earn their bonus, are cleared and the tiles
     * drop, which is one Step of the chain.
     */
    method DetectAndResolve() returns (n: nat)
      requires Valid() && board != []
      modifies this`board, this`drawn, this`timeLeft
      ensures Valid() && board != []
      ensures n == |Matched(old(board))|
      ensures n == 0 ==> board == old(board) && drawn == old(drawn)
      ensures n > 0 ==> board == Step(old(board), random, old(drawn), 2).board && drawn == Step(old(board), random, old(drawn), 2).drawn
      ensures timeLeft == Min(INITIAL_TIME, old(timeLeft) + n)
    {
      var matchedTiles := CheckMatches();
      n := |matchedTiles|;
      if n > 0 {
        var bonus := TimeBonus(n);
        AddTime(bonus);
        board, drawn := ResolveRound(board, matchedTiles, random, drawn);
      }
    }

    /**
     * handleTileClick: the first click selects a cell; a second click on the
     * same cell or a non-adjacent one only drops the selection; a click on a
     * neighbour swaps the two cells under the processing lock, runs the
     * cascade, and restores the pre-swap board when no match was found.
     */
    method HandleTileClick(row: int, col: int, fuel: nat)
      requires Valid() && InBounds(row, col)
      modifies this`board, this`drawn, this`timeLeft, this`selectedTile, this`isProcessing, this`stalemateCheckPending
      ensures Valid()
      ensures old(isProcessing || isGameOver) ==>
        && board == old(board) && drawn == old(drawn) && selectedTile == old(selectedTile) && timeLeft == old(timeLeft)
        && isProcessing == old(isProcessing) && stalemateCheckPending == old(stalemateCheckPending)
      ensures !old(isProcessing || isGameOver) ==> !isProcessing
      ensures !old(isProcessing || isGameOver) && old(selectedTile).None? ==>
        && selectedTile == Some(Pos(row, col)) && board == old(board) && drawn == old(drawn) && timeLeft == old(timeLeft)
        && stalemateCheckPending == old(stalemateCheckPending)
      ensures !old(isProcessing || isGameOver) && old(selectedTile) == Some(Pos(row, col)) ==>
        && selectedTile.None? && board == old(board) && drawn == old(drawn) && timeLeft == old(timeLeft)
        && stalemateCheckPending == old(stalemateCheckPending)
      ensures !old(isProcessing || isGameOver) && old(selectedTile).Some? && old(selectedTile) != Some(Pos(row, col)) ==>
        selectedTile.None? && stalemateCheckPending
      ensures !old(isProcessing || isGameOver) && old(selectedTile).Some? && !Adjacent(old(selectedTile).value, Pos(row, col)) ==>
        board == old(board) && drawn == old(drawn) && timeLeft == old(timeLeft)
      ensures !old(isProcessing || isGameOver) && old(selectedTile).Some? && Adjacent(old(selectedTile).value, Pos(row, col)) ==>
        SwapOutcome(old(board), old(drawn), old(timeLeft), old(selectedTile).value, Pos(row, col), fuel)
    {
      if isProcessing || isGameOver {
        return;
      }
      if selectedTile.None? {
        selectedTile := Some(Pos(row, col));
        return;
      }
      var prev := selectedTile.value;
      if prev == Pos(row, col) {
        selectedTile := None;
        return;
      }
      if Adjacent(prev, Pos(row, col)) {
        isProcessing := true;
        SwapAndResolve(prev, Pos(row, col), fuel);
        isProcessing := false;
      }
      selectedTile := None;
      ScheduleStalemateCheck();
    }

    /**
     * What a swap of two adjacent cells leads to, from board `g`, draw `d`
     * and time `t`: without a match on the swapped board nothing changes;
     * with one, the board and the stream are where the chain reaction from
     * the swapped board leaves them, and the bonus for every cell it cleared
     * is added (so the time grows unless it is already full).
     */
    ghost predicate SwapOutcome(g: Grid, d: nat, t: int, a: Pos, b: Pos, fuel: nat)
      requires Full(g) && InBounds(a.row, a.col) && InBounds(b.row, b.col)
      reads this
    {
      var swapped := Swap(g, a, b);
      var chain := Cascade(swapped, random, d, fuel);
      && (Matched(swapped) == {} ==> board == g && drawn == d && timeLeft == t)
      && (Matched(swapped) != {} ==>
            && board == chain.board && drawn == chain.drawn
            && timeLeft == Min(INITIAL_TIME, t + chain.cleared)
            && (t < timeLeft || timeLeft == INITIAL_TIME))
    }

    /** The adjacent-swap branch of handleTileClick: swap, run the chain reaction, roll back if nothing matched. */
    method SwapAndResolve(prev: Pos, clicked: Pos, fuel: nat)
      requires Valid() && board != []
      requires InBounds(prev.row, prev.col) && InBounds(clicked.row, clicked.col)
      modifies this`board, this`drawn, this`timeLeft
      ensures Valid() && board != []
      ensures SwapOutcome(old(board), old(drawn), old(timeLeft), prev, clicked, fuel)
    {
      ghost var d0 := drawn;
      var boardBeforeSwap := board;
      board := Swap(board, clicked, prev);
      SwapSymmetric(boardBeforeSwap, clicked, prev);
      var matchesFoundDuringChain, cleared, settled := CheckMatchesWrapper(fuel);
      CascadeCounts(Swap(boardBeforeSwap, prev, clicked), random, d0, fuel);
      if !matchesFoundDuringChain {
        board := boardBeforeSwap;
      }
    }

    /** scheduleStalemateCheck: (re)arm the debounced check; a pending one is superseded. */
    method ScheduleStalemateCheck()
      modifies this`stalemateCheckPending
      ensures stalemateCheckPending
    {
      stalemateCheckPending := true;
    }

    /**
     * The debounced stalemate check firing: when input is not locked and no
     * adjacent swap can make a match, the board is reloaded.
     */
    method StalemateCheckFires(genFuel: nat, cascadeFuel: nat)
      requires Valid()
      modifies this`board, this`drawn, this`timeLeft, this`isProcessing, this`stalemateCheckPending
      ensures Valid() && timeLeft == old(timeLeft)
      ensures !old(stalemateCheckPending) ==>
        board == old(board) && drawn == old(drawn) && isProcessing == old(isProcessing) && !stalemateCheckPending
      ensures old(stalemateCheckPending) && (old(isProcessing) || isGameOver || HasMove(old(board))) ==>
        board == old(board) && drawn == old(drawn) && isProcessing == old(isProcessing) && !stalemateCheckPending
      ensures old(stalemateCheckPending) && !old(isProcessing) && !isGameOver && !HasMove(old(board)) ==>
        || (isProcessing && board == old(board) && !stalemateCheckPending)
        || (!isProcessing && Full(board) && Matched(board) == {} && stalemateCheckPending)
    {
      if !stalemateCheckPending {
        return;
      }
      stalemateCheckPending := false;
      if !isProcessing && !isGameOver {
        var moves := HasPossibleMoves();
        if !moves {
          var ready := ReloadBoard(genFuel, cascadeFuel);
        }
      }
    }

    /** reloadBoard (board part): lock input, generate a new board, resolve it, rearm the check. */
    method ReloadBoard(genFuel: nat, cascadeFuel: nat) returns (ready: bool)
      requires Valid() && board != []
      modifies this`board, this`drawn, this`timeLeft, this`isProcessing, this`stalemateCheckPending
      ensures Valid() && timeLeft == old(timeLeft)
      ensures ready ==> Full(board) && Matched(board) == {} && !isProcessing && stalemateCheckPending
      ensures !ready ==> board == old(board) && isProcessing && stalemateCheckPending == old(stalemateCheckPending)
    {
      isProcessing := true;
      ready := InitializeBoard(genFuel, cascadeFuel);
      if ready {
        isProcessing := false;
        ScheduleStalemateCheck();
      }
    }

    /**
     * hasPossibleMoves: on a copy of the board, swap every cell with its right
     * and its lower neighbour, run the detector, and swap back.
     */
    method HasPossibleMoves() returns (moves: bool)
      requires WellFormed(board)
      ensures moves <==> HasMove(board)
    {
      var tempBoard := board;
      for r := 0 to BOARD_SIZE
        invariant tempBoard == board
        invariant forall i, j :: 0 <= i < r ==> !RightSwapMatches(board, i, j) && !DownSwapMatches(board, i, j)
      {
        for c := 0 to BOARD_SIZE
          invariant tempBoard == board
          invariant forall i, j :: 0 <= i < r ==> !RightSwapMatches(board, i, j) && !DownSwapMatches(board, i, j)
          invariant forall j :: j < c ==> !RightSwapMatches(board, r, j) && !DownSwapMatches(board, r, j)
        {
          if c < BOARD_SIZE - 1 {
            tempBoard := Swap(tempBoard, Pos(r, c), Pos(r, c + 1));
            var found := CheckMatchesOnBoard(tempBoard);
            if |found| > 0 {
              assert found[0] in Matched(tempBoard);
              assert RightSwapMatches(board, r, c);
              return true;
            }
            assert Matched(tempBoard) == {};
            SwapTwice(board, Pos(r, c), Pos(r, c + 1));
            tempBoard := Swap(tempBoard, Pos(r, c), Pos(r, c + 1));
          }
          if r < BOARD_SIZE - 1 {
            tempBoard := Swap(tempBoard, Pos(r, c), Pos(r + 1, c));
            var found := CheckMatchesOnBoard(tempBoard);
            if |found| > 0 {
              assert found[0] in Matched(tempBoard);
              assert DownSwapMatches(board, r, c);
              return true;
            }
            assert Matched(tempBoard) == {};
            SwapTwice(board, Pos(r, c), Pos(r + 1, c));
            tempBoard := Swap(tempBoard, Pos(r, c), Pos(r + 1, c));
          }
        }
      }
      return false;
    }
  }

  /** Two time bonuses, each clamped at INITIAL_TIME, add up to their sum clamped once. */
  lemma BonusesAccumulate(t: int, a: nat, b: nat)
    ensures Min(INITIAL_TIME, Min(INITIAL_TIME, t + a) + b) == Min(INITIAL_TIME, t + a + b)
  {
  }

  /** `h` differs from `g` at most in column `c`. */
  ghost predicate SameOutsideColumn(g: Grid, h: Grid, c: int)
    requires WellFormed(g) && WellFormed(h)
  {
    forall i, j :: InBounds(i, j) && j != c ==> h[i][j] == g[i][j]
  }

  /** The step of the gravity scan at row `r`: unfold Compact and NullCount once. */
  lemma DropStep(col: seq<Cell>, r: int)
    requires 0 <= r < |col|
    ensures Compact(col[r..]) == (if col[r] == Null then [] else [col[r]]) + Compact(col[r + 1..])
    ensures NullCount(col[r..]) == (if col[r] == Null then 1 else 0) + NullCount(col[r + 1..])
  {
    assert col[r..][1..] == col[r + 1..];
  }
}
