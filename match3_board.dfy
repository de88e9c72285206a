/**
 * The match-3 board as a value: an 8x8 grid of tile types 0..5 in which
 * `null` marks a cell emptied by a clear. This module states what a match
 * is, what the gravity pass does to one column, and what a possible move
 * is; the engine in module Match3 is proved against these definitions.
 */
module Match3Board {
  import opened Random

  const BOARD_SIZE: nat := 8
  const TILE_TYPES: nat := 6

  /** A cell of `board`: `null` or an animal type id. */
  datatype Cell = Null | Tile(kind: int)

  /** `{row, col}` coordinates. */
  datatype Pos = Pos(row: int, col: int)

  type Grid = seq<seq<Cell>>

  predicate InBounds(r: int, c: int)
  {
    0 <= r < BOARD_SIZE && 0 <= c < BOARD_SIZE
  }

  predicate WellFormed(g: Grid)
  {
    |g| == BOARD_SIZE && forall r :: 0 <= r < BOARD_SIZE ==> |g[r]| == BOARD_SIZE
  }

  /** A cell that holds one of the TILE_TYPES animals. */
  predicate IsTile(x: Cell)
  {
    x.Tile? && 0 <= x.kind < TILE_TYPES
  }

  /** Every cell holds a tile type in 0..TILE_TYPES-1: no `null` is left. */
  ghost predicate Full(g: Grid)
  {
    WellFormed(g) && forall r, c :: InBounds(r, c) ==> IsTile(g[r][c])
  }

  /** The value `Math.floor(Math.random() * TILE_TYPES)` as a cell. */
  function RandomTile(u: Unit): (x: Cell)
    ensures IsTile(x)
  {
    Tile(RandomInt(u, TILE_TYPES))
  }

  // ---------------------------------------------------------------------
  // Matches

  /** The horizontal window of three starting at (r, c) holds one non-null type. */
  predicate HWin(g: Grid, r: int, c: int)
    requires WellFormed(g)
  {
    0 <= r < BOARD_SIZE && 0 <= c && c + 2 < BOARD_SIZE &&
    g[r][c] != Null && g[r][c + 1] == g[r][c] && g[r][c + 2] == g[r][c]
  }

  /** The vertical window of three starting at (r, c) holds one non-null type. */
  predicate VWin(g: Grid, r: int, c: int)
    requires WellFormed(g)
  {
    0 <= r && r + 2 < BOARD_SIZE && 0 <= c < BOARD_SIZE &&
    g[r][c] != Null && g[r + 1][c] == g[r][c] && g[r + 2][c] == g[r][c]
  }

  /** Cell (r, c) lies in some matching window of three, horizontal or vertical. */
  predicate InMatch(g: Grid, r: int, c: int)
    requires WellFormed(g)
  {
    HWin(g, r, c - 2) || HWin(g, r, c - 1) || HWin(g, r, c) ||
    VWin(g, r - 2, c) || VWin(g, r - 1, c) || VWin(g, r, c)
  }

  /** The cells a clear removes: the union of all matching windows. */
  function Matched(g: Grid): (m: set<Pos>)
    requires WellFormed(g)
    ensures forall p :: p in m ==> InBounds(p.row, p.col) && g[p.row][p.col] != Null
  {
    set r, c | 0 <= r < BOARD_SIZE && 0 <= c < BOARD_SIZE && InMatch(g, r, c) :: Pos(r, c)
  }

  /** Every cell of every horizontal or vertical window of three is matched. */
  lemma WindowsMatched(g: Grid)
    requires WellFormed(g)
    ensures forall r, c :: HWin(g, r, c) ==>
      Pos(r, c) in Matched(g) && Pos(r, c + 1) in Matched(g) && Pos(r, c + 2) in Matched(g)
    ensures forall r, c :: VWin(g, r, c) ==>
      Pos(r, c) in Matched(g) && Pos(r + 1, c) in Matched(g) && Pos(r + 2, c) in Matched(g)
  {
  }

  /** No window of three equal non-null cells anywhere. */
  ghost predicate NoWindows(g: Grid)
    requires WellFormed(g)
  {
    forall r, c :: !HWin(g, r, c) && !VWin(g, r, c)
  }

  /** A board is stable exactly when it has no window of three. */
  lemma NoWindowsIffNoMatches(g: Grid)
    requires WellFormed(g)
    ensures NoWindows(g) <==> Matched(g) == {}
  {
    if !NoWindows(g) {
      var r, c :| HWin(g, r, c) || VWin(g, r, c);
      assert Pos(r, c) in Matched(g);
    }
  }

  // ---------------------------------------------------------------------
  // Point updates and swaps

  function SetCell(g: Grid, r: int, c: int, v: Cell): (h: Grid)
    requires WellFormed(g) && InBounds(r, c)
    ensures WellFormed(h) && h[r][c] == v
    ensures forall i, j :: InBounds(i, j) && (i != r || j != c) ==> h[i][j] == g[i][j]
  {
    g[r := g[r][c := v]]
  }

  /** The grid with the values at `a` and `b` exchanged. */
  function Swap(g: Grid, a: Pos, b: Pos): (h: Grid)
    requires WellFormed(g) && InBounds(a.row, a.col) && InBounds(b.row, b.col)
    ensures WellFormed(h)
    ensures h[a.row][a.col] == g[b.row][b.col] && h[b.row][b.col] == g[a.row][a.col]
    ensures forall i, j :: InBounds(i, j) && Pos(i, j) != a && Pos(i, j) != b ==> h[i][j] == g[i][j]
    ensures Full(g) ==> Full(h)
  {
    var va, vb := g[a.row][a.col], g[b.row][b.col];
    SetCell(SetCell(g, a.row, a.col, vb), b.row, b.col, va)
  }

  /** Two well-formed grids with the same cells are the same grid. */
  lemma GridExt(g: Grid, h: Grid)
    requires WellFormed(g) && WellFormed(h)
    requires forall i, j :: InBounds(i, j) ==> g[i][j] == h[i][j]
    ensures g == h
  {
    forall i | 0 <= i < BOARD_SIZE ensures g[i] == h[i] {
      assert forall j :: 0 <= j < BOARD_SIZE ==> g[i][j] == h[i][j];
    }
  }

  /** Swapping the same two cells twice restores the grid (the stalemate search relies on it). */
  lemma SwapTwice(g: Grid, a: Pos, b: Pos)
    requires WellFormed(g) && InBounds(a.row, a.col) && InBounds(b.row, b.col)
    ensures Swap(Swap(g, a, b), a, b) == g
  {
    GridExt(Swap(Swap(g, a, b), a, b), g);
  }

  /** The two clicked cells are orthogonal neighbours (Manhattan distance 1). */
  predicate Adjacent(a: Pos, b: Pos)
  {
    (a.col == b.col && (a.row - b.row == 1 || b.row - a.row == 1)) ||
    (a.row == b.row && (a.col - b.col == 1 || b.col - a.col == 1))
  }

  // ---------------------------------------------------------------------
  // Possible moves

  /** Swapping (r, c) with its right neighbour creates a match. */
  predicate RightSwapMatches(g: Grid, r: int, c: int)
    requires WellFormed(g)
  {
    InBounds(r, c) && c < BOARD_SIZE - 1 && Matched(Swap(g, Pos(r, c), Pos(r, c + 1))) != {}
  }

  /** Swapping (r, c) with its lower neighbour creates a match. */
  predicate DownSwapMatches(g: Grid, r: int, c: int)
    requires WellFormed(g)
  {
    InBounds(r, c) && r < BOARD_SIZE - 1 && Matched(Swap(g, Pos(r, c), Pos(r + 1, c))) != {}
  }

  /** Some single adjacent swap on the board creates a match. */
  ghost predicate HasMove(g: Grid)
    requires WellFormed(g)
  {
    exists r, c :: RightSwapMatches(g, r, c) || DownSwapMatches(g, r, c)
  }

  /** Every adjacent swap is a right or a lower swap of one of its two cells. */
  lemma HasMoveCoversAdjacentSwaps(g: Grid, a: Pos, b: Pos)
    requires WellFormed(g) && InBounds(a.row, a.col) && InBounds(b.row, b.col) && Adjacent(a, b)
    requires Matched(Swap(g, a, b)) != {}
    ensures HasMove(g)
  {
    SwapSymmetric(g, a, b);
    if a.row == b.row && b.col == a.col + 1 {
      assert RightSwapMatches(g, a.row, a.col);
    } else if a.row == b.row {
      assert RightSwapMatches(g, b.row, b.col);
    } else if b.row == a.row + 1 {
      assert DownSwapMatches(g, a.row, a.col);
    } else {
      assert DownSwapMatches(g, b.row, b.col);
    }
  }

  lemma SwapSymmetric(g: Grid, a: Pos, b: Pos)
    requires WellFormed(g) && InBounds(a.row, a.col) && InBounds(b.row, b.col)
    ensures Swap(g, a, b) == Swap(g, b, a)
  {
    GridExt(Swap(g, a, b), Swap(g, b, a));
  }

  // ---------------------------------------------------------------------
  // Gravity: one column at a time

  /** Column `c` read from top (row 0) to bottom. */
  function Column(g: Grid, c: int): (col: seq<Cell>)
    requires WellFormed(g) && 0 <= c < BOARD_SIZE
    ensures |col| == BOARD_SIZE && forall r :: 0 <= r < BOARD_SIZE ==> col[r] == g[r][c]
  {
    seq(BOARD_SIZE, r requires 0 <= r < BOARD_SIZE => g[r][c])
  }

  function NullCount(s: seq<Cell>): (n: nat)
    ensures n <= |s|
  {
    if s == [] then 0 else (if s[0] == Null then 1 else 0) + NullCount(s[1..])
  }

  /** The non-null cells of `s`, in their order. */
  function Compact(s: seq<Cell>): (r: seq<Cell>)
    ensures |r| + NullCount(s) == |s|
    ensures Null !in r
  {
    if s == [] then [] else (if s[0] == Null then [] else [s[0]]) + Compact(s[1..])
  }

  /** Compact keeps tiles tiles. */
  lemma {:induction false} CompactShape(s: seq<Cell>)
    ensures (forall i :: 0 <= i < |s| ==> IsTile(s[i]) || s[i] == Null) ==>
            forall i :: 0 <= i < |Compact(s)| ==> IsTile(Compact(s)[i])
  {
    if s != [] {
      CompactShape(s[1..]);
      var t := s[1..];
      assert forall i :: 0 <= i < |t| ==> t[i] == s[i + 1];
    }
  }

  lemma {:induction false} CompactAppend(a: seq<Cell>, b: seq<Cell>)
    ensures Compact(a + b) == Compact(a) + Compact(b)
    ensures NullCount(a + b) == NullCount(a) + NullCount(b)
  {
    if a == [] {
      assert a + b == b;
    } else {
      assert (a + b)[1..] == a[1..] + b;
      CompactAppend(a[1..], b);
    }
  }

  lemma {:induction false} CompactNoNull(s: seq<Cell>)
    requires NullCount(s) == 0
    ensures Compact(s) == s
  {
    if s != [] {
      CompactNoNull(s[1..]);
    }
  }

  /** The `k` fresh tiles that refill the top of one column, drawn in row order. */
  function Fresh(random: nat -> Unit, from: nat, k: nat): (f: seq<Cell>)
    ensures |f| == k && forall i :: 0 <= i < k ==> f[i] == RandomTile(random(from + i))
  {
    seq(k, i requires 0 <= i < k => RandomTile(random(from + i)))
  }

  /** One column after the gravity pass: fresh tiles on top, the survivors below. */
  function Settle(col: seq<Cell>, random: nat -> Unit, from: nat): seq<Cell>
  {
    Fresh(random, from, NullCount(col)) + Compact(col)
  }

  /**
   * The gravity pass on one column: the column keeps its height, its top
   * NullCount(col) cells are the fresh draws, every survivor falls by the
   * number of null cells below it (so survivors keep their order and fill
   * the bottom rows), and no null is left.
   */
  lemma SettleSpec(col: seq<Cell>, random: nat -> Unit, from: nat)
    requires forall i :: 0 <= i < |col| ==> IsTile(col[i]) || col[i] == Null
    ensures var s := Settle(col, random, from);
      && |s| == |col|
      && (forall i :: 0 <= i < NullCount(col) ==> s[i] == RandomTile(random(from + i)))
      && (forall i :: 0 <= i < |col| && col[i] != Null ==> s[i + NullCount(col[i + 1..])] == col[i])
      && (forall i :: 0 <= i < |s| ==> IsTile(s[i]))
  {
    var s := Settle(col, random, from);
    CompactShape(col);
    forall i | 0 <= i < |col| && col[i] != Null
      ensures s[i + NullCount(col[i + 1..])] == col[i]
    {
      SurvivorRow(col, i);
      CompactAt(col, i);
    }
  }

  /** The survivor at index `i` is the next one after those of `s[..i]`. */
  lemma {:induction false} CompactAt(s: seq<Cell>, i: int)
    requires 0 <= i < |s| && s[i] != Null
    ensures |Compact(s[..i])| < |Compact(s)| && Compact(s)[|Compact(s[..i])|] == s[i]
  {
    if i == 0 {
      assert s[..i] == [];
    } else {
      var head := if s[0] == Null then [] else [s[0]];
      CompactAt(s[1..], i - 1);
      assert s[..i][1..] == s[1..][..i - 1];
      assert Compact(s[..i]) == head + Compact(s[1..][..i - 1]);
      assert Compact(s) == head + Compact(s[1..]);
    }
  }

  /** The row a survivor at index `i` settles in, counted from the top. */
  lemma SurvivorRow(col: seq<Cell>, i: int)
    requires 0 <= i < |col| && col[i] != Null
    ensures NullCount(col) + |Compact(col[..i])| == i + NullCount(col[i + 1..])
  {
    assert col == col[..i] + col[i..];
    CompactAppend(col[..i], col[i..]);
    assert col[i..][1..] == col[i + 1..];
  }

  /** Every cell holds a tile or is null: the board between clearTiles and dropTiles. */
  ghost predicate TilesOrNull(g: Grid)
  {
    WellFormed(g) && forall r, c :: InBounds(r, c) ==> IsTile(g[r][c]) || g[r][c] == Null
  }

  /** The board after clearing the cells in `tiles`. */
  function Cleared(g: Grid, tiles: seq<Pos>): (h: Grid)
    requires WellFormed(g)
    ensures WellFormed(h)
    ensures Full(g) ==> TilesOrNull(h)
    ensures forall p :: p in tiles && InBounds(p.row, p.col) ==> h[p.row][p.col] == Null
    ensures forall r, c {:trigger h[r][c]} :: InBounds(r, c) && Pos(r, c) !in tiles ==> h[r][c] == g[r][c]
  {
    seq(BOARD_SIZE, r requires 0 <= r < BOARD_SIZE =>
      seq(BOARD_SIZE, c requires 0 <= c < BOARD_SIZE => if Pos(r, c) in tiles then Null else g[r][c]))
  }

  /** Fresh draws the gravity pass consumes for columns 0..c-1: their null cells. */
  function DrawsBefore(g: Grid, c: nat): nat
    requires WellFormed(g) && c <= BOARD_SIZE
  {
    if c == 0 then 0 else DrawsBefore(g, c - 1) + NullCount(Column(g, c - 1))
  }

  /** Column `c` after the gravity pass, its draws starting at call `from`. */
  function SettledColumn(g: Grid, random: nat -> Unit, from: nat, c: int): (col: seq<Cell>)
    requires WellFormed(g) && 0 <= c < BOARD_SIZE
    ensures |col| == BOARD_SIZE
  {
    Settle(Column(g, c), random, from + DrawsBefore(g, c))
  }

  /** The board after the gravity pass, its draws starting at call `from`. */
  function Dropped(g: Grid, random: nat -> Unit, from: nat): (h: Grid)
    requires WellFormed(g)
    ensures WellFormed(h)
    ensures forall r, c :: InBounds(r, c) ==> h[r][c] == SettledColumn(g, random, from, c)[r]
  {
    seq(BOARD_SIZE, r requires 0 <= r < BOARD_SIZE =>
      seq(BOARD_SIZE, c requires 0 <= c < BOARD_SIZE => SettledColumn(g, random, from, c)[r]))
  }

  /**
   * The gravity pass leaves no hole: every cell of the result holds a tile.
   * Each of its columns is described by SettleSpec.
   */
  lemma DroppedFull(g: Grid, random: nat -> Unit, from: nat)
    requires TilesOrNull(g)
    ensures Full(Dropped(g, random, from))
  {
    var h := Dropped(g, random, from);
    forall r, c | InBounds(r, c) ensures IsTile(h[r][c]) {
      SettleSpec(Column(g, c), random, from + DrawsBefore(g, c));
    }
  }

  // ---------------------------------------------------------------------
  // The chain reaction

  /** The board after a clear of every matched cell. */
  function ClearMatches(g: Grid): (h: Grid)
    requires WellFormed(g)
    ensures WellFormed(h)
    ensures Full(g) ==> TilesOrNull(h)
  {
    seq(BOARD_SIZE, r requires 0 <= r < BOARD_SIZE =>
      seq(BOARD_SIZE, c requires 0 <= c < BOARD_SIZE => if InMatch(g, r, c) then Null else g[r][c]))
  }

  /** Clearing a list that holds exactly the matched cells is ClearMatches. */
  lemma ClearedMatches(g: Grid, tiles: seq<Pos>)
    requires WellFormed(g)
    requires forall p :: p in tiles <==> p in Matched(g)
    ensures Cleared(g, tiles) == ClearMatches(g)
  {
    GridExt(Cleared(g, tiles), ClearMatches(g));
  }

  /** What a chain reaction leaves: the board, the next unused draw, the cells cleared, and whether it settled. */
  datatype Chain = Chain(board: Grid, drawn: nat, cleared: nat, settled: bool)

  /**
   * One round of the chain reaction: every matched cell cleared, then the
   * gravity pass. The round is the same for every `delay`; `delay` only
   * keeps the verifier from unfolding the grids of a round it is not asked about.
   */
  function Step(g: Grid, random: nat -> Unit, from: nat, delay: nat): (ch: Chain)
    requires Full(g)
    decreases delay, g
    ensures Full(ch.board) && from <= ch.drawn && ch.cleared == |Matched(g)| && !ch.settled
  {
    if delay > 0 then Step(g, random, from, delay - 1)
    else
      DroppedFull(ClearMatches(g), random, from);
      Chain(Dropped(ClearMatches(g), random, from), from + DrawsBefore(ClearMatches(g), BOARD_SIZE), |Matched(g)|, false)
  }

  /** A round computed from a list that holds exactly the matched cells is Step. */
  lemma StepClears(g: Grid, tiles: seq<Pos>, random: nat -> Unit, from: nat)
    requires Full(g)
    requires forall p :: p in tiles <==> p in Matched(g)
    ensures Step(g, random, from, 2).board == Dropped(Cleared(g, tiles), random, from)
    ensures Step(g, random, from, 2).drawn == from + DrawsBefore(Cleared(g, tiles), BOARD_SIZE)
  {
    ClearedMatches(g, tiles);
    assert Step(g, random, from, 2) == Step(g, random, from, 1) == Step(g, random, from, 0);
  }

  /**
   * The chain reaction from board `g`, its draws starting at call `from`:
   * while some window matches, a Step clears every matched cell and lets
   * the tiles fall, and the cleared cells are counted. After `fuel` further
   * rounds the chain is cut off unsettled.
   */
  function Cascade(g: Grid, random: nat -> Unit, from: nat, fuel: nat): (ch: Chain)
    requires Full(g)
    decreases fuel, 1
    ensures Full(ch.board) && from <= ch.drawn
  {
    if Matched(g) == {} then Chain(g, from, 0, true)
    else AfterStep(Step(g, random, from, 2), random, fuel)
  }

  /** The chain once round `r` is done: cut off there, or continued from its board with one round less. */
  function AfterStep(r: Chain, random: nat -> Unit, fuel: nat): (ch: Chain)
    requires Full(r.board)
    decreases fuel, 0
    ensures Full(ch.board) && r.drawn <= ch.drawn && r.cleared <= ch.cleared
  {
    if fuel == 0 then r
    else
      var rest := Cascade(r.board, random, r.drawn, fuel - 1);
      Chain(rest.board, rest.drawn, r.cleared + rest.cleared, rest.settled)
  }

  /** A chain on a board without a match changes nothing and clears nothing. */
  lemma CascadeOnStable(g: Grid, random: nat -> Unit, from: nat, fuel: nat)
    requires Full(g) && Matched(g) == {}
    ensures Cascade(g, random, from, fuel) == Chain(g, from, 0, true)
  {
  }

  /** The chain clears at least the cells of its first detection, and it clears some cell iff that one found a match. */
  lemma CascadeCounts(g: Grid, random: nat -> Unit, from: nat, fuel: nat)
    requires Full(g)
    ensures Cascade(g, random, from, fuel).cleared >= |Matched(g)|
    ensures Cascade(g, random, from, fuel).cleared == 0 <==> Matched(g) == {}
  {
  }

  /** A chain that settles ends on a board without a match. */
  lemma {:induction false} CascadeSettles(g: Grid, random: nat -> Unit, from: nat, fuel: nat)
    requires Full(g)
    decreases fuel
    ensures Cascade(g, random, from, fuel).settled ==> Matched(Cascade(g, random, from, fuel).board) == {}
  {
    if Matched(g) != {} && fuel > 0 {
      var r := Step(g, random, from, 2);
      var rest := Cascade(r.board, random, r.drawn, fuel - 1);
      CascadeSettles(r.board, random, r.drawn, fuel - 1);
      CascadeRound(g, random, from, fuel, r, rest);
    }
  }

  /** A chain that finds a match with no fuel left is its first Step, unsettled. */
  lemma CascadeCut(g: Grid, random: nat -> Unit, from: nat, r: Chain)
    requires Full(g) && Matched(g) != {}
    requires r == Step(g, random, from, 2)
    ensures Cascade(g, random, from, 0) == r
  {
  }

  /** A chain that finds a match is its first Step followed by the chain `rest` from the new board. */
  lemma CascadeRound(g: Grid, random: nat -> Unit, from: nat, fuel: nat, r: Chain, rest: Chain)
    requires Full(g) && Matched(g) != {} && fuel > 0
    requires r == Step(g, random, from, 2)
    requires rest == Cascade(r.board, random, r.drawn, fuel - 1)
    ensures Cascade(g, random, from, fuel) == Chain(rest.board, rest.drawn, |Matched(g)| + rest.cleared, rest.settled)
  {
  }

  // ---------------------------------------------------------------------
  // Generation

  /**
   * The rejection rule of the generator, over a board filled in row-major
   * order: type `t` at (r, c) would complete a run of three with the two
   * cells above it or the two cells to its left.
   */
  predicate CompletesRun(rows: Grid, row: seq<Cell>, t: Cell)
    requires forall i :: 0 <= i < |rows| ==> |rows[i]| == BOARD_SIZE
    requires |row| < BOARD_SIZE
  {
    var r, c := |rows|, |row|;
    (r >= 2 && rows[r - 1][c] == t && rows[r - 2][c] == t) ||
    (c >= 2 && row[c - 1] == t && row[c - 2] == t)
  }
}
