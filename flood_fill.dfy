/**
 * The reveal of a cell, as the engine's recursive `solve` performs it: write
 * the neighbour mine count, and if it is zero write 'B' and recurse, in the
 * eight directions' order, into every neighbour that is still veiled empty
 * ('E' or 'e', so flagged empty cells are entered too).
 *
 * `Reveal` and `RevealNeighbours` define the resulting board exactly; the
 * lemmas state what that board is: which cells changed, to what, and that no
 * blank it revealed is left next to a veiled empty cell.
 */
module FloodFill {
  import opened Cells
  import opened Grids

  /** The codes IsVeiledEmpty accepts, written out as a display, which keeps the counting proofs cheap. */
  const VeiledEmptyCodes: set<char> := {'E', 'e'}

  lemma VeiledEmptyCodesAreVeiledEmpty(ch: char)
    ensures ch in VeiledEmptyCodes <==> IsVeiledEmpty(ch)
  {
  }

  /** The board after `solve(board, r, c)`. Every recursive step turns one veiled empty cell into a revealed one. */
  function Reveal(g: Grid, r: int, c: int): (h: Grid)
    requires IsRect(g) && InBounds(g, r, c)
    ensures IsRect(h) && |h| == |g| && Width(h) == Width(g)
    ensures CountIn(h, VeiledEmptyCodes) + (if IsVeiledEmpty(g[r][c]) then 1 else 0) <= CountIn(g, VeiledEmptyCodes)
    decreases CountIn(g, VeiledEmptyCodes), if IsVeiledEmpty(g[r][c]) then 0 else 1, 0
  {
    var mineCount := AdjacentMines(g, r, c);
    CountUpdate(g, r, c, RevealCode(g, r, c), VeiledEmptyCodes);
    if mineCount > 0 then Set(g, r, c, Digit(mineCount))
    else RevealNeighbours(Set(g, r, c, 'B'), r, c, 0)
  }

  /** The recursion loop of `solve` from direction d on, around a cell already written 'B'. */
  function RevealNeighbours(g: Grid, r: int, c: int, d: nat): (h: Grid)
    requires IsRect(g) && d <= 8
    ensures IsRect(h) && |h| == |g| && Width(h) == Width(g)
    ensures CountIn(h, VeiledEmptyCodes) <= CountIn(g, VeiledEmptyCodes)
    decreases CountIn(g, VeiledEmptyCodes), 0, 9 - d
  {
    if d == 8 then g
    else
      var p := Neighbour(r, c, d);
      var next := if InBounds(g, p.0, p.1) && IsVeiledEmpty(g[p.0][p.1]) then Reveal(g, p.0, p.1) else g;
      RevealNeighbours(next, r, c, d + 1)
  }

  /** The two ways solve's body reaches the revealed board, and the count the blank case starts from. */
  lemma RevealUnfolds(g: Grid, r: int, c: int)
    requires IsRect(g) && InBounds(g, r, c)
    ensures AdjacentMines(g, r, c) > 0 ==> Reveal(g, r, c) == Set(g, r, c, Digit(AdjacentMines(g, r, c)))
    ensures AdjacentMines(g, r, c) == 0 ==> Reveal(g, r, c) == RevealNeighbours(Set(g, r, c, 'B'), r, c, 0)
    ensures CountIn(Set(g, r, c, 'B'), VeiledEmptyCodes) + (if IsVeiledEmpty(g[r][c]) then 1 else 0)
      <= CountIn(g, VeiledEmptyCodes)
  {
    CountUpdate(g, r, c, 'B', VeiledEmptyCodes);
  }

  /** h differs from g only in veiled empty cells, each of which now shows its reveal code. */
  ghost predicate Uncovers(g: Grid, h: Grid) {
    IsRect(g) && IsRect(h) && |h| == |g| && Width(h) == Width(g) &&
    forall i, j {:trigger h[i][j]} :: InBounds(g, i, j) ==>
      h[i][j] == g[i][j] || (IsVeiledEmpty(g[i][j]) && h[i][j] == RevealCode(g, i, j))
  }

  /** No veiled empty cell is left around (i, j). */
  ghost predicate Settled(h: Grid, i: int, j: int)
    requires IsRect(h)
  {
    forall x, y :: InBounds(h, x, y) && Adjacent(i, j, x, y) ==> !IsVeiledEmpty(h[x][y])
  }

  /** Every cell that became 'B' on the way from g to h has no veiled empty neighbour in h. */
  ghost predicate BlanksSettled(g: Grid, h: Grid)
    requires IsRect(g) && IsRect(h) && |h| == |g| && Width(h) == Width(g)
  {
    forall i, j :: InBounds(h, i, j) && h[i][j] == 'B' && g[i][j] != 'B' ==> Settled(h, i, j)
  }

  /**
   * What revealing (r, c) does to board g, giving h: the target shows its
   * reveal code; every other cell is unchanged or was veiled empty and now
   * shows its reveal code; and the target, if blank, and every cell that
   * became blank have no veiled empty neighbour left.
   */
  ghost predicate RevealPost(g: Grid, h: Grid, r: int, c: int)
    requires IsRect(g) && InBounds(g, r, c)
  {
    IsRect(h) && |h| == |g| && Width(h) == Width(g) &&
    h[r][c] == RevealCode(g, r, c) &&
    (forall i, j {:trigger h[i][j]} :: InBounds(g, i, j) && (i != r || j != c) ==>
      h[i][j] == g[i][j] || (IsVeiledEmpty(g[i][j]) && h[i][j] == RevealCode(g, i, j))) &&
    (h[r][c] == 'B' ==> Settled(h, r, c)) &&
    BlanksSettled(g, h)
  }

  predicate NeighbourSettled(g: Grid, r: int, c: int, e: nat)
    requires IsRect(g) && e < 8
  {
    var p := Neighbour(r, c, e);
    InBounds(g, p.0, p.1) ==> !IsVeiledEmpty(g[p.0][p.1])
  }

  // ---- algebra of Uncovers and BlanksSettled ----

  lemma UncoversSameMines(g: Grid, h: Grid)
    requires Uncovers(g, h)
    ensures SameMines(g, h)
  {
  }

  lemma {:induction false} UncoversTrans(g1: Grid, g2: Grid, g3: Grid)
    requires Uncovers(g1, g2) && Uncovers(g2, g3)
    ensures Uncovers(g1, g3)
  {
    UncoversSameMines(g1, g2);
    forall i, j | InBounds(g1, i, j)
      ensures g3[i][j] == g1[i][j] || (IsVeiledEmpty(g1[i][j]) && g3[i][j] == RevealCode(g1, i, j))
    {
      SameMinesSameCode(g1, g2, i, j);
    }
  }

  lemma {:induction false} BlanksSettledTrans(g1: Grid, g2: Grid, g3: Grid)
    requires Uncovers(g1, g2) && Uncovers(g2, g3)
    requires BlanksSettled(g1, g2) && BlanksSettled(g2, g3)
    ensures BlanksSettled(g1, g3)
  {
    forall i, j | InBounds(g3, i, j) && g3[i][j] == 'B' && g1[i][j] != 'B'
      ensures Settled(g3, i, j)
    {
      if g2[i][j] == 'B' {
        assert Settled(g2, i, j);
      }
    }
  }

  /** Writing its reveal code into one veiled empty cell is an uncovering step. */
  lemma RevealOneCell(g: Grid, x: int, y: int)
    requires IsRect(g) && InBounds(g, x, y) && IsVeiledEmpty(g[x][y])
    ensures Uncovers(g, Set(g, x, y, RevealCode(g, x, y)))
  {
  }

  // ---- the flood fill's contract, by induction along its recursion ----

  lemma {:induction false} RevealVeiled(g: Grid, x: int, y: int)
    requires IsRect(g) && InBounds(g, x, y) && IsVeiledEmpty(g[x][y])
    ensures Uncovers(g, Reveal(g, x, y)) && BlanksSettled(g, Reveal(g, x, y))
    ensures Reveal(g, x, y)[x][y] == RevealCode(g, x, y)
    decreases CountIn(g, VeiledEmptyCodes), 0, 0, 0
  {
    var code := RevealCode(g, x, y);
    var g1 := Set(g, x, y, code);
    RevealOneCell(g, x, y);
    if code == 'B' {
      CountUpdate(g, x, y, code, VeiledEmptyCodes);
      RevealAround(g1, x, y, 0);
      var h := RevealNeighbours(g1, x, y, 0);
      assert h == Reveal(g, x, y);
      UncoversTrans(g, g1, h);
      forall i, j | InBounds(h, i, j) && h[i][j] == 'B' && g[i][j] != 'B'
        ensures Settled(h, i, j)
      {
        if i != x || j != y {
          assert g1[i][j] == g[i][j];
        }
      }
    }
  }

  lemma {:induction false} RevealAround(g: Grid, r: int, c: int, d: nat)
    requires IsRect(g) && InBounds(g, r, c) && d <= 8 && g[r][c] == 'B'
    requires forall e :: 0 <= e < d ==> NeighbourSettled(g, r, c, e)
    ensures Uncovers(g, RevealNeighbours(g, r, c, d)) && BlanksSettled(g, RevealNeighbours(g, r, c, d))
    ensures RevealNeighbours(g, r, c, d)[r][c] == 'B' && Settled(RevealNeighbours(g, r, c, d), r, c)
    decreases CountIn(g, VeiledEmptyCodes), 0, 9 - d, 1
  {
    if d == 8 {
      AllNeighboursSettled(g, r, c);
    } else {
      var p := Neighbour(r, c, d);
      if InBounds(g, p.0, p.1) && IsVeiledEmpty(g[p.0][p.1]) {
        RevealAroundVeiled(g, r, c, d);
      } else {
        RevealAround(g, r, c, d + 1);
      }
    }
  }

  /** The step of RevealAround where the neighbour in direction d is veiled and empty: reveal it, then go on. */
  lemma {:induction false} RevealAroundVeiled(g: Grid, r: int, c: int, d: nat)
    requires IsRect(g) && InBounds(g, r, c) && d < 8 && g[r][c] == 'B'
    requires forall e :: 0 <= e < d ==> NeighbourSettled(g, r, c, e)
    requires var p := Neighbour(r, c, d); InBounds(g, p.0, p.1) && IsVeiledEmpty(g[p.0][p.1])
    ensures var p := Neighbour(r, c, d);
      RevealNeighbours(g, r, c, d) == RevealNeighbours(Reveal(g, p.0, p.1), r, c, d + 1)
    ensures Uncovers(g, RevealNeighbours(g, r, c, d)) && BlanksSettled(g, RevealNeighbours(g, r, c, d))
    ensures RevealNeighbours(g, r, c, d)[r][c] == 'B' && Settled(RevealNeighbours(g, r, c, d), r, c)
    decreases CountIn(g, VeiledEmptyCodes), 0, 9 - d, 0
  {
    var p := Neighbour(r, c, d);
    var next := Reveal(g, p.0, p.1);
    RevealVeiled(g, p.0, p.1);
    StillSettled(g, next, r, c, d);
    RevealAround(next, r, c, d + 1);
    var h := RevealNeighbours(next, r, c, d + 1);
    UncoversTrans(g, next, h);
    BlanksSettledTrans(g, next, h);
  }

  /** Settled in all eight directions is settled. */
  lemma AllNeighboursSettled(g: Grid, r: int, c: int)
    requires IsRect(g) && InBounds(g, r, c)
    requires forall e :: 0 <= e < 8 ==> NeighbourSettled(g, r, c, e)
    ensures Settled(g, r, c)
  {
    forall x, y | InBounds(g, x, y) && Adjacent(r, c, x, y)
      ensures !IsVeiledEmpty(g[x][y])
    {
      var e := DirectionTo(r, c, x, y);
      assert NeighbourSettled(g, r, c, e);
    }
  }

  /** Revealing the veiled empty neighbour in direction d settles it and unsettles none of the earlier ones. */
  lemma StillSettled(g: Grid, next: Grid, r: int, c: int, d: nat)
    requires IsRect(g) && InBounds(g, r, c) && d < 8 && g[r][c] == 'B'
    requires forall e :: 0 <= e < d ==> NeighbourSettled(g, r, c, e)
    requires Uncovers(g, next)
    requires var p := Neighbour(r, c, d); InBounds(g, p.0, p.1) && !IsVeiledEmpty(next[p.0][p.1])
    ensures next[r][c] == 'B'
    ensures forall e :: 0 <= e < d + 1 ==> NeighbourSettled(next, r, c, e)
  {
    forall e | 0 <= e < d + 1 ensures NeighbourSettled(next, r, c, e) {
      if e < d {
        assert NeighbourSettled(g, r, c, e);
      }
    }
  }

  /** The flood fill, started on any cell that holds no veiled or flagged mine, meets RevealPost. */
  lemma {:induction false} RevealMeetsPost(g: Grid, r: int, c: int)
    requires IsRect(g) && InBounds(g, r, c) && !IsMine(g[r][c])
    ensures RevealPost(g, Reveal(g, r, c), r, c)
  {
    var code := RevealCode(g, r, c);
    var g1 := Set(g, r, c, code);
    var h := Reveal(g, r, c);
    assert SameMines(g, g1);
    if code == 'B' {
      RevealAround(g1, r, c, 0);
      assert h == RevealNeighbours(g1, r, c, 0);
      forall i, j | InBounds(g, i, j) && (i != r || j != c)
        ensures h[i][j] == g[i][j] || (IsVeiledEmpty(g[i][j]) && h[i][j] == RevealCode(g, i, j))
      {
        SameMinesSameCode(g, g1, i, j);
      }
      forall i, j | InBounds(h, i, j) && h[i][j] == 'B' && g[i][j] != 'B'
        ensures Settled(h, i, j)
      {
        if i != r || j != c {
          assert g1[i][j] == g[i][j];
        }
      }
    }
  }

  // ---- the flood fill reveals no more than it must ----

  /** g has the mines of g0, and every cell of g that is still veiled empty is as it was in g0. */
  ghost predicate Tracks(g0: Grid, g: Grid) {
    SameMines(g0, g) &&
    forall i, j {:trigger g[i][j]} :: InBounds(g0, i, j) && IsVeiledEmpty(g[i][j]) ==> g[i][j] == g0[i][j]
  }

  /** Every cell h changed from g0 shows its reveal code, and every cell h turned blank has no veiled empty neighbour. */
  ghost predicate CodedAndSettled(g0: Grid, h: Grid) {
    IsRect(g0) && IsRect(h) && |h| == |g0| && Width(h) == Width(g0) &&
    (forall i, j {:trigger h[i][j]} :: InBounds(g0, i, j) && h[i][j] != g0[i][j] ==> h[i][j] == RevealCode(g0, i, j)) &&
    BlanksSettled(g0, h)
  }

  /** Every cell g changed from g0 was changed by h too. */
  ghost predicate ChangesWithin(g0: Grid, g: Grid, h: Grid) {
    IsRect(g0) && IsRect(g) && IsRect(h) && |g| == |g0| && Width(g) == Width(g0) && |h| == |g0| && Width(h) == Width(g0) &&
    forall i, j {:trigger g[i][j]} :: InBounds(g0, i, j) && g[i][j] != g0[i][j] ==> h[i][j] != g0[i][j]
  }

  lemma {:induction false} RevealWithin(g0: Grid, g: Grid, h: Grid, x: int, y: int)
    requires Tracks(g0, g) && CodedAndSettled(g0, h) && ChangesWithin(g0, g, h)
    requires InBounds(g, x, y) && IsVeiledEmpty(g[x][y]) && h[x][y] != g0[x][y]
    ensures Tracks(g0, Reveal(g, x, y)) && ChangesWithin(g0, Reveal(g, x, y), h)
    decreases CountIn(g, VeiledEmptyCodes), 0, 0, 0
  {
    var code := RevealCode(g, x, y);
    var g1 := Set(g, x, y, code);
    SameMinesSameCode(g0, g, x, y);
    assert Tracks(g0, g1) && ChangesWithin(g0, g1, h);
    if code == 'B' {
      assert Settled(h, x, y);
      CountUpdate(g, x, y, code, VeiledEmptyCodes);
      RevealAroundWithin(g0, g1, h, x, y, 0);
    }
  }

  lemma {:induction false} RevealAroundWithin(g0: Grid, g: Grid, h: Grid, r: int, c: int, d: nat)
    requires Tracks(g0, g) && CodedAndSettled(g0, h) && ChangesWithin(g0, g, h)
    requires d <= 8 && Settled(h, r, c)
    ensures Tracks(g0, RevealNeighbours(g, r, c, d)) && ChangesWithin(g0, RevealNeighbours(g, r, c, d), h)
    decreases CountIn(g, VeiledEmptyCodes), 0, 9 - d, 1
  {
    if d < 8 {
      var p := Neighbour(r, c, d);
      if InBounds(g, p.0, p.1) && IsVeiledEmpty(g[p.0][p.1]) {
        RevealAroundVeiledWithin(g0, g, h, r, c, d);
      } else {
        RevealAroundWithin(g0, g, h, r, c, d + 1);
      }
    }
  }

  /** The recursing step: a veiled empty neighbour of a cell h settled was changed by h, so revealing it stays within h. */
  lemma {:induction false} RevealAroundVeiledWithin(g0: Grid, g: Grid, h: Grid, r: int, c: int, d: nat)
    requires Tracks(g0, g) && CodedAndSettled(g0, h) && ChangesWithin(g0, g, h)
    requires d < 8 && Settled(h, r, c)
    requires var p := Neighbour(r, c, d); InBounds(g, p.0, p.1) && IsVeiledEmpty(g[p.0][p.1])
    ensures var p := Neighbour(r, c, d);
      RevealNeighbours(g, r, c, d) == RevealNeighbours(Reveal(g, p.0, p.1), r, c, d + 1)
    ensures Tracks(g0, RevealNeighbours(g, r, c, d)) && ChangesWithin(g0, RevealNeighbours(g, r, c, d), h)
    decreases CountIn(g, VeiledEmptyCodes), 0, 9 - d, 0
  {
    var p := Neighbour(r, c, d);
    NeighbourAdjacent(r, c, d);
    assert h[p.0][p.1] != g0[p.0][p.1];
    RevealWithin(g0, g, h, p.0, p.1);
    RevealAroundWithin(g0, Reveal(g, p.0, p.1), h, r, c, d + 1);
  }

  /**
   * Any board h that meets RevealPost shows, on every cell the flood fill
   * changes, what the flood fill writes there. With RevealMeetsPost: the flood
   * fill's board is the least one meeting RevealPost, so it reveals only what
   * is reached from the click through new blanks.
   */
  lemma {:induction false} RevealIsLeast(g: Grid, r: int, c: int, h: Grid)
    requires IsRect(g) && InBounds(g, r, c) && !IsMine(g[r][c])
    requires RevealPost(g, h, r, c)
    ensures forall i, j :: InBounds(g, i, j) && Reveal(g, r, c)[i][j] != g[i][j] ==> h[i][j] == Reveal(g, r, c)[i][j]
  {
    var code := RevealCode(g, r, c);
    var g1 := Set(g, r, c, code);
    var f := Reveal(g, r, c);
    RevealMeetsPost(g, r, c);
    assert CodedAndSettled(g, h);
    assert Tracks(g, g1) && ChangesWithin(g, g1, h);
    if code == 'B' {
      RevealAroundWithin(g, g1, h, r, c, 0);
    }
    assert ChangesWithin(g, f, h);
  }

  // ---- consequences ----

  const MineCodes: set<char> := set ch: char | HoldsMine(ch)

  /** The flood fill never touches a mine: every cell keeps whether it holds one, so the mine count is preserved. */
  lemma {:induction false} RevealKeepsMines(g: Grid, r: int, c: int)
    requires IsRect(g) && InBounds(g, r, c) && !HoldsMine(g[r][c])
    ensures forall i, j :: InBounds(g, i, j) ==> (HoldsMine(Reveal(g, r, c)[i][j]) <==> HoldsMine(g[i][j]))
    ensures CountIn(Reveal(g, r, c), MineCodes) == CountIn(g, MineCodes)
  {
    var h := Reveal(g, r, c);
    RevealMeetsPost(g, r, c);
    CountCellwise(g, h, MineCodes);
  }

  lemma {:induction false} NoMinesAmong(g: Grid, r: int, c: int, d: nat)
    requires IsRect(g) && d <= 8
    requires forall i, j :: InBounds(g, i, j) ==> !IsMine(g[i][j])
    ensures MinesAmong(g, r, c, d) == 0
  {
    if d > 0 {
      NoMinesAmong(g, r, c, d - 1);
    }
  }

  function Dist(a: int, b: int): nat {
    if a < b then b - a else a - b
  }

  function Step(from: int, to: int): int {
    if from < to then from + 1 else if from > to then from - 1 else from
  }

  /**
   * On a board of 'E' and 'B' cells where no blank has a veiled empty
   * neighbour, every cell is blank once one is: the grid is connected.
   */
  lemma {:induction false} BlankSpreads(h: Grid, r: int, c: int, i: int, j: int)
    requires IsRect(h) && InBounds(h, r, c) && InBounds(h, i, j) && h[r][c] == 'B'
    requires forall x, y :: InBounds(h, x, y) ==> h[x][y] == 'E' || h[x][y] == 'B'
    requires forall x, y :: InBounds(h, x, y) && h[x][y] == 'B' ==> Settled(h, x, y)
    ensures h[i][j] == 'B'
    decreases Dist(i, r) + Dist(j, c)
  {
    if i != r || j != c {
      var i', j' := Step(i, r), Step(j, c);
      BlankSpreads(h, r, c, i', j');
      assert Settled(h, i', j') && Adjacent(i', j', i, j);
    }
  }

  /** Clicking anywhere on a board without mines reveals the whole board as blank. */
  lemma {:induction false} MineFreeRevealIsTotal(g: Grid, r: int, c: int)
    requires IsRect(g) && InBounds(g, r, c)
    requires forall i, j :: InBounds(g, i, j) ==> g[i][j] == 'E'
    ensures forall i, j :: InBounds(g, i, j) ==> Reveal(g, r, c)[i][j] == 'B'
  {
    var h := Reveal(g, r, c);
    RevealMeetsPost(g, r, c);
    forall i, j | InBounds(g, i, j) ensures RevealCode(g, i, j) == 'B' {
      NoMinesAmong(g, i, j, 8);
    }
    forall i, j | InBounds(g, i, j) ensures h[i][j] == 'B' {
      BlankSpreads(h, r, c, i, j);
    }
  }
}
