/**
 * Rectangular boards as sequences of rows, with the queries the engine makes
 * of them: bounds, the eight-cell neighbourhood, the neighbour mine count, the
 * win test and per-code cell counts.
 */
module Grids {
  import opened Cells

  type Grid = seq<seq<char>>

  /** Number of columns, read off the first row as the engine does (len(board[0])). */
  function Width(g: Grid): nat {
    if |g| == 0 then 0 else |g[0]|
  }

  predicate IsRect(g: Grid) {
    forall i :: 0 <= i < |g| ==> |g[i]| == Width(g)
  }

  predicate InBounds(g: Grid, x: int, y: int) {
    0 <= x < |g| && 0 <= y < Width(g)
  }

  /** The board with one cell overwritten: the engine's `board[x][y] = v`. */
  function Set(g: Grid, x: int, y: int, v: char): (h: Grid)
    requires IsRect(g) && InBounds(g, x, y)
    ensures IsRect(h) && |h| == |g| && Width(h) == Width(g)
    ensures h[x][y] == v
    ensures forall i, j :: InBounds(g, i, j) && (i != x || j != y) ==> h[i][j] == g[i][j]
  {
    g[x := g[x][y := v]]
  }

  /** NW, N, NE, SE, S, SW, W, E, in the engine's order. */
  const Directions: seq<(int, int)> :=
    [(-1, -1), (-1, 0), (-1, 1), (1, 1), (1, 0), (1, -1), (0, -1), (0, 1)]

  function Neighbour(r: int, c: int, d: nat): (int, int)
    requires d < 8
  {
    (r + Directions[d].0, c + Directions[d].1)
  }

  /** (x, y) is one of the eight cells around (r, c). */
  predicate Adjacent(r: int, c: int, x: int, y: int) {
    -1 <= x - r <= 1 && -1 <= y - c <= 1 && (x != r || y != c)
  }

  lemma NeighbourAdjacent(r: int, c: int, d: nat)
    requires d < 8
    ensures Adjacent(r, c, Neighbour(r, c, d).0, Neighbour(r, c, d).1)
  {
  }

  /** The direction vectors enumerate the eight-cell neighbourhood, each cell once. */
  lemma {:induction false} DirectionTo(r: int, c: int, x: int, y: int) returns (d: nat)
    requires Adjacent(r, c, x, y)
    ensures d < 8 && Neighbour(r, c, d) == (x, y)
    ensures forall e :: 0 <= e < 8 && Neighbour(r, c, e) == (x, y) ==> e == d
  {
    var dx, dy := x - r, y - c;
    d := if dx == -1 && dy == -1 then 0
      else if dx == -1 && dy == 0 then 1
      else if dx == -1 then 2
      else if dx == 1 && dy == 1 then 3
      else if dx == 1 && dy == 0 then 4
      else if dx == 1 then 5
      else if dy == -1 then 6
      else 7;
  }

  /** The cell at p is on the board and holds a veiled or flagged mine. */
  predicate MineAt(g: Grid, p: (int, int))
    requires IsRect(g)
  {
    InBounds(g, p.0, p.1) && IsMine(g[p.0][p.1])
  }

  /** Mines among the first d direction vectors; cells off the board are skipped, never wrapped. */
  function MinesAmong(g: Grid, r: int, c: int, d: nat): (k: nat)
    requires IsRect(g) && d <= 8
    ensures k <= d
  {
    if d == 0 then 0
    else MinesAmong(g, r, c, d - 1) + (if MineAt(g, Neighbour(r, c, d - 1)) then 1 else 0)
  }

  /** The mine count of cell (r, c), as the reveal computes it. */
  function AdjacentMines(g: Grid, r: int, c: int): (k: nat)
    requires IsRect(g)
    ensures k <= 8
  {
    MinesAmong(g, r, c, 8)
  }

  /** Independent reference: the set of mined cells in the eight-cell neighbourhood. */
  function MooreMines(g: Grid, r: int, c: int): set<(int, int)>
    requires IsRect(g)
  {
    set x, y | r - 1 <= x <= r + 1 && c - 1 <= y <= c + 1 && Adjacent(r, c, x, y) && MineAt(g, (x, y)) :: (x, y)
  }

  function MinedDirections(g: Grid, r: int, c: int, d: nat): set<(int, int)>
    requires IsRect(g) && d <= 8
  {
    set k | 0 <= k < d && MineAt(g, Neighbour(r, c, k)) :: Neighbour(r, c, k)
  }

  /** Distinct direction indices point at distinct cells. */
  lemma NeighbourInjective(r: int, c: int, k: nat, e: nat)
    requires k < 8 && e < 8 && k != e
    ensures Neighbour(r, c, k) != Neighbour(r, c, e)
  {
  }

  lemma {:induction false} MinedDirectionsSize(g: Grid, r: int, c: int, d: nat)
    requires IsRect(g) && d <= 8
    ensures |MinedDirections(g, r, c, d)| == MinesAmong(g, r, c, d)
  {
    if d > 0 {
      MinedDirectionsSize(g, r, c, d - 1);
      MinedDirectionsStep(g, r, c, d);
    }
  }

  /** Direction d - 1 adds its cell, if mined, to the cells of the earlier directions, none of which it is. */
  lemma MinedDirectionsStep(g: Grid, r: int, c: int, d: nat)
    requires IsRect(g) && 0 < d <= 8
    ensures Neighbour(r, c, d - 1) !in MinedDirections(g, r, c, d - 1)
    ensures MinedDirections(g, r, c, d) == MinedDirections(g, r, c, d - 1) +
      (if MineAt(g, Neighbour(r, c, d - 1)) then {Neighbour(r, c, d - 1)} else {})
  {
    var p := Neighbour(r, c, d - 1);
    var prev := MinedDirections(g, r, c, d - 1);
    var cur := MinedDirections(g, r, c, d);
    var added: set<(int, int)> := if MineAt(g, p) then {p} else {};
    forall k | 0 <= k < d - 1 ensures Neighbour(r, c, k) != p {
      NeighbourInjective(r, c, k, d - 1);
    }
    forall q | q in cur ensures q in prev + added {
      var k :| 0 <= k < d && MineAt(g, Neighbour(r, c, k)) && q == Neighbour(r, c, k);
      if k < d - 1 {
        assert q in prev;
      }
    }
    forall q | q in prev + added ensures q in cur {
      if q in prev {
        var k :| 0 <= k < d - 1 && MineAt(g, Neighbour(r, c, k)) && q == Neighbour(r, c, k);
        assert q in cur;
      }
    }
  }

  /** The neighbour count equals the number of mined cells around (r, c) on the board. */
  lemma {:induction false} AdjacentMinesCountsNeighbourhood(g: Grid, r: int, c: int)
    requires IsRect(g)
    ensures AdjacentMines(g, r, c) == |MooreMines(g, r, c)|
  {
    MinedDirectionsSize(g, r, c, 8);
    var s := MinedDirections(g, r, c, 8);
    forall p | p in MooreMines(g, r, c) ensures p in s {
      var d := DirectionTo(r, c, p.0, p.1);
    }
    assert s == MooreMines(g, r, c);
  }

  /** The code a cell shows once revealed: 'B' with no adjacent mine, else the digit. */
  function RevealCode(g: Grid, r: int, c: int): (ch: char)
    requires IsRect(g)
    ensures !IsVeiled(ch) && !HoldsMine(ch) && !BlocksWin(ch)
    ensures ch == 'B' <==> AdjacentMines(g, r, c) == 0
  {
    var k := AdjacentMines(g, r, c);
    if k == 0 then 'B' else Digit(k)
  }

  /** A code other than 'B' is the digit of the adjacent mine count. */
  lemma RevealCodeDigit(g: Grid, r: int, c: int)
    requires IsRect(g)
    ensures RevealCode(g, r, c) != 'B' ==> RevealCode(g, r, c) == Digit(AdjacentMines(g, r, c))
  {
  }

  /** Two boards of one shape with mines (veiled or flagged) in the same cells. */
  predicate SameMines(g: Grid, h: Grid) {
    IsRect(g) && IsRect(h) && |g| == |h| && Width(g) == Width(h) &&
    forall i, j :: 0 <= i < |g| && 0 <= j < Width(g) ==> (IsMine(g[i][j]) <==> IsMine(h[i][j]))
  }

  lemma {:induction false} SameMinesAmong(g: Grid, h: Grid, r: int, c: int, d: nat)
    requires SameMines(g, h) && d <= 8
    ensures MinesAmong(g, r, c, d) == MinesAmong(h, r, c, d)
  {
    if d > 0 {
      SameMinesAmong(g, h, r, c, d - 1);
    }
  }

  /** The reveal code depends only on where the mines are. */
  lemma SameMinesSameCode(g: Grid, h: Grid, r: int, c: int)
    requires SameMines(g, h)
    ensures AdjacentMines(g, r, c) == AdjacentMines(h, r, c)
    ensures RevealCode(g, r, c) == RevealCode(h, r, c)
  {
    SameMinesAmong(g, h, r, c, 8);
  }

  /** The win test: no veiled or flagged empty cell and no detonated mine. */
  predicate IsWin(g: Grid)
    requires IsRect(g)
  {
    forall i, j :: 0 <= i < |g| && 0 <= j < Width(g) ==> !BlocksWin(g[i][j])
  }

  // ---- counting cells by code ----

  function RowCount(s: seq<char>, codes: set<char>): (n: nat)
    ensures n <= |s|
  {
    if |s| == 0 then 0
    else RowCount(s[..|s| - 1], codes) + (if s[|s| - 1] in codes then 1 else 0)
  }

  /** Number of cells of g whose code is in `codes`. */
  function CountIn(g: Grid, codes: set<char>): nat {
    if |g| == 0 then 0
    else CountIn(g[..|g| - 1], codes) + RowCount(g[|g| - 1], codes)
  }

  lemma {:induction false} RowCountUpdate(s: seq<char>, j: int, v: char, codes: set<char>)
    requires 0 <= j < |s|
    ensures RowCount(s[j := v], codes) + (if s[j] in codes then 1 else 0)
         == RowCount(s, codes) + (if v in codes then 1 else 0)
  {
    var n := |s|;
    if j == n - 1 {
      assert s[j := v][..n - 1] == s[..n - 1];
    } else {
      assert s[j := v][..n - 1] == s[..n - 1][j := v];
      RowCountUpdate(s[..n - 1], j, v, codes);
    }
  }

  /** Overwriting one cell moves the count by at most that cell. */
  lemma {:induction false} CountUpdate(g: Grid, x: int, y: int, v: char, codes: set<char>)
    requires 0 <= x < |g| && 0 <= y < |g[x]|
    ensures CountIn(g[x := g[x][y := v]], codes) + (if g[x][y] in codes then 1 else 0)
         == CountIn(g, codes) + (if v in codes then 1 else 0)
  {
    var n := |g|;
    var h := g[x := g[x][y := v]];
    if x == n - 1 {
      assert h[..n - 1] == g[..n - 1];
      RowCountUpdate(g[x], y, v, codes);
    } else {
      assert h[..n - 1] == g[..n - 1][x := g[x][y := v]];
      CountUpdate(g[..n - 1], x, y, v, codes);
    }
  }

  lemma {:induction false} RowCountCellwise(s: seq<char>, t: seq<char>, codes: set<char>)
    requires |s| == |t|
    requires forall j :: 0 <= j < |s| ==> (s[j] in codes <==> t[j] in codes)
    ensures RowCount(s, codes) == RowCount(t, codes)
  {
    if |s| > 0 {
      RowCountCellwise(s[..|s| - 1], t[..|t| - 1], codes);
    }
  }

  /** Boards that agree cell by cell on membership in `codes` have the same count. */
  lemma {:induction false} CountCellwise(g: Grid, h: Grid, codes: set<char>)
    requires |g| == |h|
    requires forall i :: 0 <= i < |g| ==> |g[i]| == |h[i]|
    requires forall i, j :: 0 <= i < |g| && 0 <= j < |g[i]| ==> (g[i][j] in codes <==> h[i][j] in codes)
    ensures CountIn(g, codes) == CountIn(h, codes)
  {
    var n := |g|;
    if n > 0 {
      CountCellwise(g[..n - 1], h[..n - 1], codes);
      RowCountCellwise(g[n - 1], h[n - 1], codes);
    }
  }

  /** The cells of g whose code is in `codes`. */
  function CellsIn(g: Grid, codes: set<char>): set<(int, int)> {
    set i, j | 0 <= i < |g| && 0 <= j < |g[i]| && g[i][j] in codes :: (i, j)
  }

  function RowCellsIn(s: seq<char>, i: int, codes: set<char>): set<(int, int)> {
    set j | 0 <= j < |s| && s[j] in codes :: (i, j)
  }

  lemma {:induction false} RowCellsSize(s: seq<char>, i: int, codes: set<char>)
    ensures |RowCellsIn(s, i, codes)| == RowCount(s, codes)
  {
    var n := |s|;
    if n > 0 {
      RowCellsSize(s[..n - 1], i, codes);
      var prev := RowCellsIn(s[..n - 1], i, codes);
      assert (i, n - 1) !in prev;
      if s[n - 1] in codes {
        assert RowCellsIn(s, i, codes) == prev + {(i, n - 1)};
      } else {
        assert RowCellsIn(s, i, codes) == prev;
      }
    }
  }

  /** The count is the number of such cells. */
  lemma {:induction false} CountIsCells(g: Grid, codes: set<char>)
    ensures |CellsIn(g, codes)| == CountIn(g, codes)
  {
    var n := |g|;
    if n > 0 {
      CountIsCells(g[..n - 1], codes);
      RowCellsSize(g[n - 1], n - 1, codes);
      var prev := CellsIn(g[..n - 1], codes);
      var last := RowCellsIn(g[n - 1], n - 1, codes);
      assert CellsIn(g, codes) == prev + last;
      assert prev !! last;
    }
  }
}
