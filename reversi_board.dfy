/**
 * The Reversi board of r/script.js as a value: an 8x8 grid holding EMPTY
 * (0), WHITE (1) or BLACK (-1). This module defines which stones a move
 * turns over (the eight-direction scan of `checkFlip`), which cells are
 * valid moves, the board after a move, and the stone counts of
 * `updateCounts`. Module Reversi proves the game's methods against these
 * definitions.
 */
module ReversiBoard {
  import opened Random

  const EMPTY: int := 0
  const WHITE: int := 1
  const BLACK: int := -1
  const SIZE: int := 8

  /** A cell `{r, c}`. */
  datatype Pos = Pos(r: int, c: int)

  /** A step `[dr, dc]` of the scan. */
  datatype Dir = Dir(dr: int, dc: int)

  type Board = seq<seq<int>>

  /** isValid: the coordinates lie on the board. */
  predicate IsValid(r: int, c: int)
  {
    0 <= r < SIZE && 0 <= c < SIZE
  }

  predicate WellFormed(b: Board)
  {
    |b| == SIZE && forall i :: 0 <= i < SIZE ==> |b[i]| == SIZE
  }

  predicate IsPlayer(v: int)
  {
    v == WHITE || v == BLACK
  }

  /** Every cell is empty or holds a stone of one of the two colours. */
  ghost predicate Legal(b: Board)
  {
    WellFormed(b) && forall i, j :: IsValid(i, j) ==> b[i][j] == EMPTY || IsPlayer(b[i][j])
  }

  /** Two boards are equal when they agree on every cell. */
  lemma BoardExt(g: Board, h: Board)
    requires WellFormed(g) && WellFormed(h)
    requires forall i, j :: IsValid(i, j) ==> g[i][j] == h[i][j]
    ensures g == h
  {
    forall i | 0 <= i < SIZE ensures g[i] == h[i] {
      assert forall j :: 0 <= j < SIZE ==> g[i][j] == h[i][j];
    }
  }

  /** The board with the cell `p` set to `v` (a cell off the board changes nothing). */
  function SetCell(b: Board, p: Pos, v: int): (h: Board)
    requires WellFormed(b)
    ensures WellFormed(h)
    ensures forall i, j :: IsValid(i, j) ==> h[i][j] == if Pos(i, j) == p then v else b[i][j]
  {
    if IsValid(p.r, p.c) then b[p.r := b[p.r][p.c := v]] else b
  }

  // ----- the scan of checkFlip -----

  /** The eight directions, in the order checkFlip tries them. */
  const DIRECTIONS: seq<Dir> := [Dir(-1, 0), Dir(1, 0), Dir(0, -1), Dir(0, 1),
                                 Dir(-1, -1), Dir(-1, 1), Dir(1, -1), Dir(1, 1)]

  /** A unit step along a row, a column or a diagonal. */
  predicate IsDirection(d: Dir)
  {
    -1 <= d.dr <= 1 && -1 <= d.dc <= 1 && (d.dr != 0 || d.dc != 0)
  }

  lemma DirectionsAreDirections()
    ensures |DIRECTIONS| == 8 && AreDirections(DIRECTIONS) && Distinct(DIRECTIONS)
  {
  }

  /** The cell one step from `p` in direction `d`. */
  function Step(p: Pos, d: Dir): Pos
  {
    Pos(p.r + d.dr, p.c + d.dc)
  }

  /** How many steps of sign `d` stay on the board from coordinate `x`. */
  function Span(x: int, d: int): nat
    requires 0 <= x < SIZE
  {
    if d > 0 then SIZE - x else if d < 0 then x + 1 else 0
  }

  /** The run of opponent stones met walking from `p`, and the cell where the walk stopped. */
  datatype Ray = Ray(stones: seq<Pos>, end: Pos)

  /**
   * The `while` loop of checkFlip: from `p`, step in direction `d` while the
   * cell is on the board and holds `opponent`.
   */
  function Walk(b: Board, p: Pos, d: Dir, opponent: int): Ray
    requires WellFormed(b) && IsDirection(d)
    decreases if IsValid(p.r, p.c) then Span(p.r, d.dr) + Span(p.c, d.dc) else 0
  {
    if IsValid(p.r, p.c) && b[p.r][p.c] == opponent then
      var rest := Walk(b, Step(p, d), d, opponent);
      Ray([p] + rest.stones, rest.end)
    else
      Ray([], p)
  }

  /**
   * A walk collects a line of consecutive opponent stones starting at `p`
   * and stops at the first cell past it that is off the board or not the
   * opponent's.
   */
  lemma {:induction false} WalkIsRun(b: Board, p: Pos, d: Dir, opponent: int)
    requires WellFormed(b) && IsDirection(d)
    ensures var ray := Walk(b, p, d, opponent);
      forall q :: q in ray.stones ==> IsValid(q.r, q.c) && b[q.r][q.c] == opponent
    ensures var ray := Walk(b, p, d, opponent);
      !(IsValid(ray.end.r, ray.end.c) && b[ray.end.r][ray.end.c] == opponent)
    ensures var ray := Walk(b, p, d, opponent);
      ray.stones == [] ==> ray.end == p
    ensures var ray := Walk(b, p, d, opponent);
      ray.stones != [] ==> ray.stones[0] == p && ray.end == Step(ray.stones[|ray.stones| - 1], d)
    ensures var ray := Walk(b, p, d, opponent);
      forall i, j :: 0 <= i < j < |ray.stones| && j == i + 1 ==> ray.stones[j] == Step(ray.stones[i], d)
    decreases if IsValid(p.r, p.c) then Span(p.r, d.dr) + Span(p.c, d.dc) else 0
  {
    if IsValid(p.r, p.c) && b[p.r][p.c] == opponent {
      var next := Step(p, d);
      WalkIsRun(b, next, d, opponent);
      var rest := Walk(b, next, d, opponent);
      var stones := Walk(b, p, d, opponent).stones;
      assert stones == [p] + rest.stones;
      forall i, j | 0 <= i < j < |stones| && j == i + 1 ensures stones[j] == Step(stones[i], d) {
        if i > 0 {
          assert stones[i] == rest.stones[i - 1] && stones[j] == rest.stones[j - 1];
        }
      }
    }
  }

  /**
   * What one direction adds to checkFlip's list: the run of opponent stones
   * next to `(r, c)`, kept only when the player's own stone closes it.
   */
  function Bracketed(b: Board, r: int, c: int, player: int, d: Dir): seq<Pos>
    requires WellFormed(b) && IsDirection(d)
  {
    var ray := Walk(b, Step(Pos(r, c), d), d, -player);
    if IsValid(ray.end.r, ray.end.c) && b[ray.end.r][ray.end.c] == player then ray.stones else []
  }

  /** Every element is a direction. */
  predicate AreDirections(dirs: seq<Dir>)
  {
    forall k :: 0 <= k < |dirs| ==> IsDirection(dirs[k])
  }

  /** The stones the directions `dirs` contribute, concatenated in their order. */
  function FlipsAlong(b: Board, r: int, c: int, player: int, dirs: seq<Dir>): seq<Pos>
    requires WellFormed(b) && AreDirections(dirs)
  {
    if dirs == [] then []
    else FlipsAlong(b, r, c, player, dirs[..|dirs| - 1]) + Bracketed(b, r, c, player, dirs[|dirs| - 1])
  }

  /** checkFlip(r, c, player, b): the stones a stone of `player` at `(r, c)` turns over. */
  function Flips(b: Board, r: int, c: int, player: int): seq<Pos>
    requires WellFormed(b) && IsValid(r, c)
  {
    if b[r][c] != EMPTY then []
    else
      DirectionsAreDirections();
      FlipsAlong(b, r, c, player, DIRECTIONS)
  }

  /** Every stone that is turned over is an opponent stone on the board. */
  lemma FlipsAreOpponent(b: Board, r: int, c: int, player: int)
    requires WellFormed(b) && IsValid(r, c)
    ensures forall q :: q in Flips(b, r, c, player) ==> IsValid(q.r, q.c) && b[q.r][q.c] == -player
  {
    if b[r][c] == EMPTY {
      DirectionsAreDirections();
      FlipsAlongAreOpponent(b, r, c, player, DIRECTIONS);
    }
  }

  /** Nothing is turned over by a stone on an occupied cell. */
  lemma OccupiedFlipsNothing(b: Board, r: int, c: int, player: int)
    requires WellFormed(b) && IsValid(r, c) && b[r][c] != EMPTY
    ensures Flips(b, r, c, player) == []
  {
  }

  /**
   * A direction contributes only when its run of opponent stones is
   * non-empty and the cell right after the run holds the player's stone.
   */
  lemma BracketedIsClosedRun(b: Board, r: int, c: int, player: int, d: Dir)
    requires WellFormed(b) && IsDirection(d)
    ensures var run := Bracketed(b, r, c, player, d);
      run != [] ==>
        && run[0] == Step(Pos(r, c), d)
        && (forall i, j :: 0 <= i < j < |run| && j == i + 1 ==> run[j] == Step(run[i], d))
        && (forall q :: q in run ==> IsValid(q.r, q.c) && b[q.r][q.c] == -player)
        && var last := Step(run[|run| - 1], d);
           IsValid(last.r, last.c) && b[last.r][last.c] == player
  {
    WalkIsRun(b, Step(Pos(r, c), d), d, -player);
  }

  /** Every stone a move turns over is on the board and is the opponent's. */
  lemma {:induction false} FlipsAlongAreOpponent(b: Board, r: int, c: int, player: int, dirs: seq<Dir>)
    requires WellFormed(b) && AreDirections(dirs)
    ensures forall q :: q in FlipsAlong(b, r, c, player, dirs) ==> IsValid(q.r, q.c) && b[q.r][q.c] == -player
  {
    if dirs != [] {
      FlipsAlongAreOpponent(b, r, c, player, dirs[..|dirs| - 1]);
      BracketedIsClosedRun(b, r, c, player, dirs[|dirs| - 1]);
    }
  }

  // ----- no stone is turned over twice -----

  function Sign(x: int): int
  {
    if x > 0 then 1 else if x < 0 then -1 else 0
  }

  /** The direction in which `q` lies from `o`. */
  function DirOf(o: Pos, q: Pos): Dir
  {
    Dir(Sign(q.r - o.r), Sign(q.c - o.c))
  }

  /**
   * The stones of a walk in direction `d` from the neighbour `p` of `o` all
   * lie in direction `d` from `o`, and none repeats.
   */
  lemma {:induction false} WalkAhead(b: Board, o: Pos, p: Pos, d: Dir, opponent: int)
    requires WellFormed(b) && IsDirection(d) && p == Step(o, d)
    ensures Distinct(Walk(b, p, d, opponent).stones)
    ensures forall q :: q in Walk(b, p, d, opponent).stones ==> DirOf(o, q) == d
    decreases if IsValid(p.r, p.c) then Span(p.r, d.dr) + Span(p.c, d.dc) else 0
  {
    if IsValid(p.r, p.c) && b[p.r][p.c] == opponent {
      var next := Step(p, d);
      WalkAhead(b, p, next, d, opponent);
      var rest := Walk(b, next, d, opponent).stones;
      assert Walk(b, p, d, opponent).stones == [p] + rest;
      forall q | q in rest ensures DirOf(o, q) == d && q != p {
        assert DirOf(p, q) == d;
      }
      DistinctConcat([p], rest);
    }
  }

  /** The stones one direction contributes all lie in that direction from `(r, c)`, and none repeats. */
  lemma BracketedAhead(b: Board, r: int, c: int, player: int, d: Dir)
    requires WellFormed(b) && IsDirection(d)
    ensures Distinct(Bracketed(b, r, c, player, d))
    ensures forall q :: q in Bracketed(b, r, c, player, d) ==> DirOf(Pos(r, c), q) == d
  {
    WalkAhead(b, Pos(r, c), Step(Pos(r, c), d), d, -player);
  }

  /**
   * Distinct directions contribute distinct stones: each stone lies in its
   * own direction from `(r, c)`.
   */
  lemma {:induction false} FlipsAlongDistinct(b: Board, r: int, c: int, player: int, dirs: seq<Dir>)
    requires WellFormed(b) && AreDirections(dirs) && Distinct(dirs)
    ensures Distinct(FlipsAlong(b, r, c, player, dirs))
    ensures forall q :: q in FlipsAlong(b, r, c, player, dirs) ==> DirOf(Pos(r, c), q) in dirs
  {
    if dirs != [] {
      var front, d := dirs[..|dirs| - 1], dirs[|dirs| - 1];
      DistinctPrefix(dirs, |dirs| - 1);
      FlipsAlongDistinct(b, r, c, player, front);
      BracketedAhead(b, r, c, player, d);
      var earlier := FlipsAlong(b, r, c, player, front);
      var run := Bracketed(b, r, c, player, d);
      forall q | q in earlier ensures q !in run {
        assert DirOf(Pos(r, c), q) != d;
      }
      DistinctConcat(earlier, run);
      assert dirs == front + [d];
    }
  }

  /** checkFlip never lists a stone twice. */
  lemma FlipsDistinct(b: Board, r: int, c: int, player: int)
    requires WellFormed(b) && IsValid(r, c)
    ensures Distinct(Flips(b, r, c, player))
  {
    if b[r][c] == EMPTY {
      DirectionsAreDirections();
      FlipsAlongDistinct(b, r, c, player, DIRECTIONS);
    }
  }

  // ----- counting stones (updateCounts) -----

  /** The number of cells of `row` holding `v`. */
  function CountIn(row: seq<int>, v: int): (n: nat)
    ensures n <= |row|
  {
    if row == [] then 0 else CountIn(row[..|row| - 1], v) + (if row[|row| - 1] == v then 1 else 0)
  }

  /** The number of cells of `b` holding `v`. */
  function Count(b: Board, v: int): nat
  {
    if b == [] then 0 else Count(b[..|b| - 1], v) + CountIn(b[|b| - 1], v)
  }

  /** Overwriting one cell of a row changes its count of `v` by that cell alone. */
  lemma {:induction false} CountInUpdate(row: seq<int>, i: nat, x: int, v: int)
    requires i < |row|
    ensures CountIn(row[i := x], v) == CountIn(row, v) - (if row[i] == v then 1 else 0) + (if x == v then 1 else 0)
    decreases |row|
  {
    var n := |row|;
    if i == n - 1 {
      assert row[i := x][..n - 1] == row[..n - 1];
    } else {
      assert row[i := x][..n - 1] == row[..n - 1][i := x];
      CountInUpdate(row[..n - 1], i, x, v);
    }
  }

  /** Replacing one row changes the count of `v` by the difference of the two rows' counts. */
  lemma {:induction false} CountUpdate(b: Board, i: nat, row: seq<int>, v: int)
    requires i < |b|
    ensures Count(b[i := row], v) == Count(b, v) - CountIn(b[i], v) + CountIn(row, v)
    decreases |b|
  {
    var n := |b|;
    if i == n - 1 {
      assert b[i := row][..n - 1] == b[..n - 1];
    } else {
      assert b[i := row][..n - 1] == b[..n - 1][i := row];
      CountUpdate(b[..n - 1], i, row, v);
    }
  }

  /** Setting one cell changes the count of `v` by that cell alone. */
  lemma CountSetCell(b: Board, p: Pos, x: int, v: int)
    requires WellFormed(b) && IsValid(p.r, p.c)
    ensures Count(SetCell(b, p, x), v) == Count(b, v) - (if b[p.r][p.c] == v then 1 else 0) + (if x == v then 1 else 0)
  {
    CountInUpdate(b[p.r], p.c, x, v);
    CountUpdate(b, p.r, b[p.r][p.c := x], v);
  }

  /** The board at page load before the centre stones: every cell EMPTY. */
  function EmptyBoard(): (b: Board)
    ensures WellFormed(b) && forall i, j :: IsValid(i, j) ==> b[i][j] == EMPTY
  {
    seq(SIZE, _ => seq(SIZE, _ => EMPTY))
  }

  lemma {:induction false} CountInNone(row: seq<int>, v: int)
    requires forall k :: 0 <= k < |row| ==> row[k] != v
    ensures CountIn(row, v) == 0
    decreases |row|
  {
    if row != [] {
      CountInNone(row[..|row| - 1], v);
    }
  }

  lemma {:induction false} CountNone(b: Board, v: int)
    requires forall i, j :: 0 <= i < |b| && 0 <= j < |b[i]| ==> b[i][j] != v
    ensures Count(b, v) == 0
    decreases |b|
  {
    if b != [] {
      CountNone(b[..|b| - 1], v);
      CountInNone(b[|b| - 1], v);
    }
  }

  /** initializeGame's board: the empty board with the four centre stones. */
  function InitialBoard(): (b: Board)
    ensures Legal(b)
  {
    var e := EmptyBoard();
    SetCell(SetCell(SetCell(SetCell(e, Pos(3, 3), WHITE), Pos(3, 4), BLACK), Pos(4, 3), BLACK), Pos(4, 4), WHITE)
  }

  /** The opening position: a white and a black stone on each diagonal of the centre, all else empty. */
  lemma InitialBoardShape()
    ensures var b := InitialBoard();
      && b[3][3] == WHITE && b[4][4] == WHITE && b[3][4] == BLACK && b[4][3] == BLACK
      && forall i, j :: IsValid(i, j) && !(3 <= i <= 4 && 3 <= j <= 4) ==> b[i][j] == EMPTY
  {
  }

  /** A stone placed on an empty cell adds one to its colour's count and leaves the other's alone. */
  lemma CountPlace(b: Board, p: Pos, v: int)
    requires WellFormed(b) && IsValid(p.r, p.c) && b[p.r][p.c] == EMPTY && IsPlayer(v)
    ensures Count(SetCell(b, p, v), v) == Count(b, v) + 1
    ensures Count(SetCell(b, p, v), -v) == Count(b, -v)
  {
    CountSetCell(b, p, v, v);
    CountSetCell(b, p, v, -v);
  }

  /** The opening position holds two stones of each colour. */
  lemma InitialCounts()
    ensures Count(InitialBoard(), WHITE) == 2 && Count(InitialBoard(), BLACK) == 2
  {
    var e := EmptyBoard();
    CountNone(e, WHITE);
    CountNone(e, BLACK);
    var b1 := SetCell(e, Pos(3, 3), WHITE);
    CountPlace(e, Pos(3, 3), WHITE);
    assert b1[3][4] == EMPTY;
    var b2 := SetCell(b1, Pos(3, 4), BLACK);
    CountPlace(b1, Pos(3, 4), BLACK);
    assert b2[4][3] == EMPTY;
    var b3 := SetCell(b2, Pos(4, 3), BLACK);
    CountPlace(b2, Pos(4, 3), BLACK);
    assert b3[4][4] == EMPTY;
    CountPlace(b3, Pos(4, 4), WHITE);
  }

  // ----- placing a stone (placeStoneAndFlip) -----

  /** The board with every cell of `cells`, set one after another, given colour `v`. */
  function Paint(b: Board, cells: seq<Pos>, v: int): (h: Board)
    requires WellFormed(b)
    ensures WellFormed(h)
  {
    if cells == [] then b
    else SetCell(Paint(b, cells[..|cells| - 1], v), cells[|cells| - 1], v)
  }

  /** The painted cells have colour `v`; every other cell keeps its colour. */
  lemma {:induction false} PaintCells(b: Board, cells: seq<Pos>, v: int)
    requires WellFormed(b)
    ensures forall i, j :: IsValid(i, j) ==>
      Paint(b, cells, v)[i][j] == if Pos(i, j) in cells then v else b[i][j]
    decreases |cells|
  {
    if cells != [] {
      var front := cells[..|cells| - 1];
      PaintCells(b, front, v);
      assert cells == front + [cells[|cells| - 1]];
    }
  }

  /**
   * Painting distinct cells that all hold `w` with another colour `v` moves
   * exactly |cells| stones from the count of `w` to the count of `v`.
   */
  lemma {:induction false} PaintCounts(b: Board, cells: seq<Pos>, v: int, w: int)
    requires WellFormed(b) && forall q :: q in cells ==> IsValid(q.r, q.c) && b[q.r][q.c] == w
    requires Distinct(cells) && v != w
    ensures Count(Paint(b, cells, v), v) == Count(b, v) + |cells|
    ensures Count(Paint(b, cells, v), w) == Count(b, w) - |cells|
    decreases |cells|
  {
    if cells != [] {
      var n := |cells|;
      var front := cells[..n - 1];
      var last := cells[n - 1];
      DistinctPrefix(cells, n - 1);
      PaintCounts(b, front, v, w);
      var h := Paint(b, front, v);
      PaintCells(b, front, v);
      assert h[last.r][last.c] == w;
      CountSetCell(h, last, v, v);
      CountSetCell(h, last, v, w);
    }
  }

  /** The board after `player` places a stone at `(r, c)`: that cell and every flipped stone take the player's colour. */
  function Move(b: Board, r: int, c: int, player: int): (h: Board)
    requires WellFormed(b) && IsValid(r, c)
    ensures WellFormed(h)
  {
    Paint(b, [Pos(r, c)] + Flips(b, r, c, player), player)
  }

  /** After the move, that cell and every flipped stone have the player's colour; nothing else changes. */
  lemma MoveCells(b: Board, r: int, c: int, player: int)
    requires WellFormed(b) && IsValid(r, c)
    ensures forall i, j :: IsValid(i, j) ==>
      Move(b, r, c, player)[i][j]
        == if Pos(i, j) == Pos(r, c) || Pos(i, j) in Flips(b, r, c, player) then player else b[i][j]
  {
    PaintCells(b, [Pos(r, c)] + Flips(b, r, c, player), player);
  }

  /**
   * A move that turns over stones adds 1 + |flips| to the mover's count and
   * takes |flips| from the opponent's, and keeps the board legal.
   */
  lemma MoveCounts(b: Board, r: int, c: int, player: int)
    requires Legal(b) && IsValid(r, c) && IsPlayer(player) && Flips(b, r, c, player) != []
    ensures Legal(Move(b, r, c, player))
    ensures Count(Move(b, r, c, player), player) == Count(b, player) + 1 + |Flips(b, r, c, player)|
    ensures Count(Move(b, r, c, player), -player) == Count(b, -player) - |Flips(b, r, c, player)|
  {
    var flips := Flips(b, r, c, player);
    var p := Pos(r, c);
    FlipsAreOpponent(b, r, c, player);
    FlipsDistinct(b, r, c, player);
    var b1 := SetCell(b, p, player);
    CountSetCell(b, p, player, player);
    CountSetCell(b, p, player, -player);
    assert p !in flips;
    PaintCounts(b1, flips, player, -player);
    MoveIsPlaceThenPaint(b, r, c, player);
    MoveCells(b, r, c, player);
  }

  /** The move is the new stone placed first, then the flipped stones painted over. */
  lemma MoveIsPlaceThenPaint(b: Board, r: int, c: int, player: int)
    requires WellFormed(b) && IsValid(r, c)
    ensures Move(b, r, c, player) == Paint(SetCell(b, Pos(r, c), player), Flips(b, r, c, player), player)
  {
    PaintCells(b, [Pos(r, c)] + Flips(b, r, c, player), player);
    PaintCells(SetCell(b, Pos(r, c), player), Flips(b, r, c, player), player);
    BoardExt(Move(b, r, c, player), Paint(SetCell(b, Pos(r, c), player), Flips(b, r, c, player), player));
  }

  // ----- valid moves (getValidMoves) -----

  /** A cell where `player` may move: checkFlip finds stones to turn over. */
  ghost predicate IsMove(b: Board, player: int, p: Pos)
    requires WellFormed(b)
  {
    IsValid(p.r, p.c) && Flips(b, p.r, p.c, player) != []
  }

  /** `player` has at least one valid move. */
  ghost predicate HasMove(b: Board, player: int)
    requires WellFormed(b)
  {
    exists p :: IsMove(b, player, p)
  }

  /** Row-major order: the order in which getValidMoves visits the cells. */
  predicate Before(p: Pos, q: Pos)
  {
    p.r < q.r || (p.r == q.r && p.c < q.c)
  }

  /** The cells are listed in row-major order, each once. */
  predicate RowMajor(cells: seq<Pos>)
  {
    forall i, j {:trigger Before(cells[i], cells[j])} :: 0 <= i < j < |cells| ==> Before(cells[i], cells[j])
  }

  /** Every earlier element of a row-major list comes before its last one. */
  lemma RowMajorLast(s: seq<Pos>, front: seq<Pos>, last: Pos)
    requires RowMajor(s) && s == front + [last]
    ensures RowMajor(front)
    ensures forall p :: p in front ==> Before(p, last)
  {
    forall p | p in front ensures Before(p, last) {
      var k :| 0 <= k < |front| && front[k] == p;
      assert s[k] == p && s[|s| - 1] == last;
    }
    assert forall i :: 0 <= i < |front| ==> front[i] == s[i];
  }

  lemma SameElementsEmpty<T>(s: seq<T>, t: seq<T>)
    requires forall p :: p in s <==> p in t
    ensures s == [] <==> t == []
  {
    if s != [] {
      assert s[0] in t;
    }
    if t != [] {
      assert t[0] in s;
    }
  }

  /** A row-major list is determined by its elements: the list getValidMoves returns is unique. */
  lemma {:induction false} RowMajorUnique(s: seq<Pos>, t: seq<Pos>)
    requires RowMajor(s) && RowMajor(t)
    requires forall p :: p in s <==> p in t
    ensures s == t
    decreases |s|
  {
    SameElementsEmpty(s, t);
    if s != [] {
      var s', x := s[..|s| - 1], s[|s| - 1];
      var t', y := t[..|t| - 1], t[|t| - 1];
      assert s == s' + [x] && t == t' + [y];
      RowMajorLast(s, s', x);
      RowMajorLast(t, t', y);
      assert x in t' + [y] && y in s' + [x];
      assert x == y;
      forall p ensures p in s' <==> p in t' {
        if p in s' {
          assert p in t' + [y] && p != y;
        }
        if p in t' {
          assert p in s' + [x] && p != x;
        }
      }
      RowMajorUnique(s', t');
    }
  }
}
