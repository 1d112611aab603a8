/**
 * The game engine as functions on a game record: board generation by
 * rejection sampling, clickCell, flagCell and the win test. Engine.Game
 * performs these in place on an array and is proved to agree with them.
 */
module Rules {
  import opened Results
  import opened Cells
  import opened Grids
  import opened FloodFill
  import opened Domain

  datatype EngineError = ClickOutOfBounds | ClickOnFlagged | FlagOutOfBounds

  /** The error texts; the older generation capitalises them. */
  function EngineErrorText(e: EngineError, gen: Generation): string {
    match e
    case ClickOutOfBounds => if gen == Current then "clicked cell out of bounds" else "Clicked cell out of bounds"
    case ClickOnFlagged => if gen == Current then "clicked cell is flagged" else "Clicked cell is flagged"
    case FlagOutOfBounds => if gen == Current then "flagged cell out of bounds" else "Flagged cell out of bounds"
  }

  // ---- generateBoard ----

  /** A rows x cols board of veiled empty cells. */
  function EmptyBoard(rows: nat, cols: nat): (g: Grid)
    ensures |g| == rows && forall i :: 0 <= i < rows ==> |g[i]| == cols
    ensures forall i, j :: 0 <= i < rows && 0 <= j < cols ==> g[i][j] == 'E'
  {
    seq(rows, i => seq(cols, j => 'E'))
  }

  /**
   * The random source is a stream of draws; a draw (a, b) stands for the pair
   * Intn(Rows), Intn(Cols) and lands on cell (a % Rows, b % Cols), so every
   * sequence of Intn results is some stream.
   */
  function DrawnCell(draw: (nat, nat), rows: int, cols: int): (int, int)
    requires rows > 0 && cols > 0
  {
    (draw.0 % rows, draw.1 % cols)
  }

  function DrawnCells(draws: seq<(nat, nat)>, rows: int, cols: int): set<(int, int)>
    requires rows > 0 && cols > 0
  {
    set k | 0 <= k < |draws| :: DrawnCell(draws[k], rows, cols)
  }

  /** The outcome of the planting loop: the board, how many draws it consumed, how many mines it planted. */
  datatype Planting = Planting(board: Grid, drawsUsed: nat, planted: nat)

  /**
   * The planting loop with `remaining` mines still to plant: a draw on a cell
   * that is not yet 'M' plants one, a draw on an 'M' is redrawn.
   */
  function Plant(g: Grid, draws: seq<(nat, nat)>, remaining: int): (p: Planting)
    requires IsRect(g)
    requires remaining > 0 ==> |g| > 0 && Width(g) > 0
    ensures IsRect(p.board) && |p.board| == |g| && Width(p.board) == Width(g)
    ensures p.drawsUsed <= |draws|
    ensures remaining <= 0 ==> p == Planting(g, 0, 0)
    ensures remaining > 0 ==> p.planted <= remaining && (p.planted == remaining || p.drawsUsed == |draws|)
    decreases |draws|
  {
    if remaining <= 0 || |draws| == 0 then Planting(g, 0, 0)
    else
      var (x, y) := DrawnCell(draws[0], |g|, Width(g));
      if g[x][y] != 'M' then
        var rest := Plant(Set(g, x, y, 'M'), draws[1..], remaining - 1);
        Planting(rest.board, rest.drawsUsed + 1, rest.planted + 1)
      else
        var rest := Plant(g, draws[1..], remaining);
        Planting(rest.board, rest.drawsUsed + 1, rest.planted)
  }

  /** Every mine the loop reports as planted is a new 'M' on the board. */
  lemma {:induction false} PlantCounts(g: Grid, draws: seq<(nat, nat)>, remaining: int)
    requires IsRect(g)
    requires remaining > 0 ==> |g| > 0 && Width(g) > 0
    ensures CountIn(Plant(g, draws, remaining).board, {'M'}) == CountIn(g, {'M'}) + Plant(g, draws, remaining).planted
    decreases |draws|
  {
    if remaining > 0 && |draws| > 0 {
      var (x, y) := DrawnCell(draws[0], |g|, Width(g));
      if g[x][y] != 'M' {
        CountUpdate(g, x, y, 'M', {'M'});
        PlantCounts(Set(g, x, y, 'M'), draws[1..], remaining - 1);
      } else {
        PlantCounts(g, draws[1..], remaining);
      }
    }
  }

  /**
   * The planting loop's invariant: after `used` draws and `planted` mines the
   * board is `cur`, and finishing the loop from there gives the whole outcome.
   */
  ghost predicate PlantedSoFar(g0: Grid, draws: seq<(nat, nat)>, mines: int, cur: Grid, used: nat, planted: nat)
    requires IsRect(cur) && used <= |draws|
    requires mines - planted > 0 ==> |cur| > 0 && Width(cur) > 0
    requires IsRect(g0) && (mines > 0 ==> |g0| > 0 && Width(g0) > 0)
  {
    var rest := Plant(cur, draws[used..], mines - planted);
    Plant(g0, draws, mines) == Planting(rest.board, used + rest.drawsUsed, planted + rest.planted)
  }

  /** One turn of the planting loop keeps its invariant. */
  lemma PlantStep(g0: Grid, draws: seq<(nat, nat)>, mines: int, cur: Grid, used: nat, planted: nat, x: int, y: int)
    requires IsRect(g0) && |g0| > 0 && Width(g0) > 0
    requires IsRect(cur) && |cur| == |g0| && Width(cur) == Width(g0)
    requires planted < mines && used < |draws|
    requires PlantedSoFar(g0, draws, mines, cur, used, planted)
    requires (x, y) == DrawnCell(draws[used], |cur|, Width(cur))
    ensures cur[x][y] != 'M' ==> PlantedSoFar(g0, draws, mines, Set(cur, x, y, 'M'), used + 1, planted + 1)
    ensures cur[x][y] == 'M' ==> PlantedSoFar(g0, draws, mines, cur, used + 1, planted)
  {
    assert draws[used..][0] == draws[used] && draws[used..][1..] == draws[used + 1..];
  }

  /** When the planting loop stops, its invariant gives the outcome. */
  lemma PlantDone(g0: Grid, draws: seq<(nat, nat)>, mines: int, cur: Grid, used: nat, planted: nat)
    requires IsRect(g0) && (mines > 0 ==> |g0| > 0 && Width(g0) > 0)
    requires IsRect(cur) && used <= |draws| && (mines - planted > 0 ==> |cur| > 0 && Width(cur) > 0)
    requires planted >= mines || used == |draws|
    requires PlantedSoFar(g0, draws, mines, cur, used, planted)
    ensures Plant(g0, draws, mines) == Planting(cur, used, planted)
  {
  }

  /** The planting loop turns exactly the drawn cells it consumed into 'M' and leaves the rest. */
  lemma {:induction false} PlantCells(g: Grid, draws: seq<(nat, nat)>, remaining: int)
    requires IsRect(g)
    requires remaining > 0 ==> |g| > 0 && Width(g) > 0
    ensures forall i, j :: InBounds(g, i, j) ==>
      Plant(g, draws, remaining).board[i][j]
        == if (i, j) in DrawnCells(draws[..Plant(g, draws, remaining).drawsUsed], |g|, Width(g)) then 'M' else g[i][j]
    decreases |draws|
  {
    if remaining > 0 && |draws| > 0 {
      var (x, y) := DrawnCell(draws[0], |g|, Width(g));
      var next := if g[x][y] != 'M' then Set(g, x, y, 'M') else g;
      var left := if g[x][y] != 'M' then remaining - 1 else remaining;
      PlantCells(next, draws[1..], left);
      var rest := Plant(next, draws[1..], left);
      assert Plant(g, draws, remaining).board == rest.board;
      assert Plant(g, draws, remaining).drawsUsed == rest.drawsUsed + 1;
      DrawnCellsCons(draws, rest.drawsUsed, |g|, Width(g));
    }
  }

  lemma DrawnCellsCons(draws: seq<(nat, nat)>, k: nat, rows: int, cols: int)
    requires rows > 0 && cols > 0 && 0 < |draws| && k < |draws|
    ensures DrawnCells(draws[..k + 1], rows, cols)
         == {DrawnCell(draws[0], rows, cols)} + DrawnCells(draws[1..][..k], rows, cols)
  {
    var a := DrawnCells(draws[..k + 1], rows, cols);
    var b := {DrawnCell(draws[0], rows, cols)} + DrawnCells(draws[1..][..k], rows, cols);
    forall p | p in a ensures p in b {
      var m :| 0 <= m < k + 1 && DrawnCell(draws[..k + 1][m], rows, cols) == p;
      if m > 0 {
        assert draws[1..][..k][m - 1] == draws[m];
      }
    }
    forall p | p in b ensures p in a {
      if p != DrawnCell(draws[0], rows, cols) {
        var m :| 0 <= m < k && DrawnCell(draws[1..][..k][m], rows, cols) == p;
        assert draws[..k + 1][m + 1] == draws[m + 1];
      }
    }
  }

  /** generateBoard: a rows x cols board of 'E', then the planting loop for `mines` mines. */
  function GenerateBoard(rows: int, cols: int, mines: int, draws: seq<(nat, nat)>): (p: Planting)
    requires 0 <= rows && 0 <= cols && (mines > 0 ==> rows > 0 && cols > 0)
    ensures |p.board| == rows && forall i :: 0 <= i < rows ==> |p.board[i]| == cols
    ensures p.drawsUsed <= |draws|
    ensures forall i, j :: 0 <= i < rows && 0 <= j < cols ==>
      p.board[i][j] == if (i, j) in DrawnCells(draws[..p.drawsUsed], rows, cols) then 'M' else 'E'
    ensures CountIn(p.board, {'M'}) == p.planted
    ensures mines <= 0 ==> p.planted == 0 && p.drawsUsed == 0
    ensures mines > 0 ==> p.planted <= mines && (p.planted == mines || p.drawsUsed == |draws|)
  {
    var empty := EmptyBoard(rows, cols);
    NoneCounted(empty, {'M'});
    PlantCounts(empty, draws, mines);
    PlantCells(empty, draws, mines);
    Plant(empty, draws, mines)
  }

  lemma {:induction false} NoneCounted(g: Grid, codes: set<char>)
    requires forall i, j :: 0 <= i < |g| && 0 <= j < |g[i]| ==> g[i][j] !in codes
    ensures CountIn(g, codes) == 0
  {
    CountIsCells(g, codes);
    assert CellsIn(g, codes) == {};
  }

  /**
   * Rejection sampling plants exactly `mines` distinct mines as soon as the
   * random stream offers that many distinct cells.
   */
  lemma {:induction false} GenerateBoardPlantsAll(rows: int, cols: int, mines: int, draws: seq<(nat, nat)>)
    requires 0 < rows && 0 < cols && 0 < mines <= |DrawnCells(draws, rows, cols)|
    ensures GenerateBoard(rows, cols, mines, draws).planted == mines
    ensures CountIn(GenerateBoard(rows, cols, mines, draws).board, {'M'}) == mines
  {
    var p := GenerateBoard(rows, cols, mines, draws);
    if p.planted != mines {
      DrawnAreMined(rows, cols, mines, draws);
      CountIsCells(p.board, {'M'});
      CardinalityMonotone(DrawnCells(draws, rows, cols), CellsIn(p.board, {'M'}));
    }
  }

  lemma CardinalityMonotone<T>(a: set<T>, b: set<T>)
    requires a <= b
    ensures |a| <= |b|
  {
    assert b == a + (b - a);
  }

  /** Once the stream is used up, every cell it drew is a mine. */
  lemma DrawnAreMined(rows: int, cols: int, mines: int, draws: seq<(nat, nat)>)
    requires 0 < rows && 0 < cols && 0 < mines
    requires GenerateBoard(rows, cols, mines, draws).drawsUsed == |draws|
    ensures DrawnCells(draws, rows, cols) <= CellsIn(GenerateBoard(rows, cols, mines, draws).board, {'M'})
  {
    var p := GenerateBoard(rows, cols, mines, draws);
    assert draws[..p.drawsUsed] == draws;
    forall q | q in DrawnCells(draws, rows, cols) ensures q in CellsIn(p.board, {'M'}) {
      var k :| 0 <= k < |draws| && DrawnCell(draws[k], rows, cols) == q;
      assert 0 <= q.0 < rows && 0 <= q.1 < cols;
      assert p.board[q.0][q.1] == 'M';
    }
  }

  // ---- clickCell ----

  /**
   * clickCell: bounds, then flags, then the click counter, then either the
   * detonation or the reveal.
   */
  function ClickCell(g: Game, i: int, j: int): (r: Result<Game, EngineError>)
    requires Shaped(g)
    ensures r.Err? <==> !InGame(g, i, j) || IsFlagged(g.board[i][j])
    ensures r == Err(ClickOutOfBounds) <==> !InGame(g, i, j)
    ensures InGame(g, i, j) && IsFlagged(g.board[i][j]) ==> r == Err(ClickOnFlagged)
    ensures r.Ok? ==> Shaped(r.value)
    ensures r.Ok? ==> r.value == g.(board := r.value.board, clicks := r.value.clicks, status := r.value.status)
    ensures r.Ok? ==> r.value.clicks == g.clicks + (if g.board[i][j] == 'M' || g.board[i][j] == 'E' then 1 else 0)
    ensures r.Ok? ==> (r.value.status == Over <==> g.status == Over || g.board[i][j] == 'M')
  {
    ShapedBoard(g);
    if !InGame(g, i, j) then Err(ClickOutOfBounds)
    else if g.board[i][j] == 'm' || g.board[i][j] == 'e' then Err(ClickOnFlagged)
    else
      var clicks := if g.board[i][j] == 'M' || g.board[i][j] == 'E' then g.clicks + 1 else g.clicks;
      if g.board[i][j] == 'M' then
        Ok(g.(board := Set(g.board, i, j, 'X'), status := Over, clicks := clicks))
      else
        Ok(g.(board := Reveal(g.board, i, j), clicks := clicks))
  }

  /**
   * What a click does to the board: a mine detonates and nothing else
   * changes; any other unflagged cell is revealed, flooding outwards from a
   * blank, and the status is kept.
   */
  lemma ClickCellEffect(g: Game, i: int, j: int)
    requires Shaped(g) && ClickCell(g, i, j).Ok?
    ensures IsRect(g.board) && InBounds(g.board, i, j)
    ensures var h := ClickCell(g, i, j).value;
      g.board[i][j] == 'M' ==>
        h.status == Over && h.board[i][j] == 'X' &&
        forall x, y :: InGame(g, x, y) && (x != i || y != j) ==> h.board[x][y] == g.board[x][y]
    ensures var h := ClickCell(g, i, j).value;
      g.board[i][j] != 'M' ==> h.status == g.status && RevealPost(g.board, h.board, i, j)
  {
    ShapedBoard(g);
    if g.board[i][j] != 'M' {
      RevealMeetsPost(g.board, i, j);
    }
  }

  /** clickCell on an unflagged mine, spelled out as the in-place engine performs it. */
  lemma ClickCellDetonates(g: Game, i: int, j: int)
    requires Shaped(g) && InGame(g, i, j) && g.board[i][j] == 'M'
    ensures IsRect(g.board) && InBounds(g.board, i, j)
    ensures ClickCell(g, i, j) == Ok(g.(board := Set(g.board, i, j, 'X'), status := Over, clicks := g.clicks + 1))
  {
    ShapedBoard(g);
  }

  /** clickCell on any other unflagged cell, spelled out as the in-place engine performs it. */
  lemma ClickCellReveals(g: Game, i: int, j: int)
    requires Shaped(g) && InGame(g, i, j) && !IsFlagged(g.board[i][j]) && g.board[i][j] != 'M'
    ensures IsRect(g.board) && InBounds(g.board, i, j)
    ensures ClickCell(g, i, j)
      == Ok(g.(board := Reveal(g.board, i, j), clicks := g.clicks + if g.board[i][j] == 'E' then 1 else 0))
  {
    ShapedBoard(g);
  }

  // ---- flagCell ----

  /** flagCell: bounds, then M/E become m/e and m/e become M/E; revealed cells stay. */
  function FlagCell(g: Game, i: int, j: int): (r: Result<Game, EngineError>)
    requires Shaped(g)
    ensures r.Err? <==> !InGame(g, i, j)
    ensures r.Err? ==> r.error == FlagOutOfBounds
    ensures r.Ok? ==> Shaped(r.value) && r.value == g.(board := r.value.board)
    ensures r.Ok? ==> r.value.board[i][j] == ToggleFlag(g.board[i][j])
    ensures r.Ok? ==> forall x, y :: InGame(g, x, y) && (x != i || y != j) ==> r.value.board[x][y] == g.board[x][y]
  {
    ShapedBoard(g);
    if !InGame(g, i, j) then Err(FlagOutOfBounds)
    else
      var value := g.board[i][j];
      if IsVeiled(value) then Ok(g.(board := Set(g.board, i, j, ToggleFlag(value))))
      else Ok(g)
  }

  // ---- what the engine operations preserve ----

  /** Clicking keeps every mine where it was (a detonation relabels 'M' as 'X'), so the mine count is unchanged. */
  lemma {:induction false} ClickKeepsMines(g: Game, i: int, j: int)
    requires WellFormed(g) && g.status != Over && ClickCell(g, i, j).Ok?
    ensures forall x, y :: InGame(g, x, y) ==>
      (HoldsMine(ClickCell(g, i, j).value.board[x][y]) <==> HoldsMine(g.board[x][y]))
    ensures CountIn(ClickCell(g, i, j).value.board, MineCodes) == CountIn(g.board, MineCodes)
  {
    ShapedBoard(g);
    var h := ClickCell(g, i, j).value;
    if g.board[i][j] != 'M' {
      assert g.board[i][j] != 'X';
      RevealKeepsMines(g.board, i, j);
    } else {
      CountCellwise(g.board, h.board, MineCodes);
    }
  }

  /** A click on a game that is not over leaves a well-formed game: an 'X' appears only together with status over. */
  lemma {:induction false} ClickKeepsWellFormed(g: Game, i: int, j: int)
    requires WellFormed(g) && g.status != Over && ClickCell(g, i, j).Ok?
    ensures WellFormed(ClickCell(g, i, j).value)
  {
    ShapedBoard(g);
    ClickCellEffect(g, i, j);
    var h := ClickCell(g, i, j).value;
    if g.board[i][j] != 'M' {
      forall x, y | 0 <= x < h.rows && 0 <= y < h.cols ensures h.board[x][y] != 'X' {
        if x != i || y != j {
          assert g.board[x][y] != 'X';
        }
      }
    }
  }

  /** Hitting a mine ends the game, and a board with a detonated mine is never a win. */
  lemma MineHitIsNeverWin(g: Game, i: int, j: int)
    requires Shaped(g) && InGame(g, i, j) && g.board[i][j] == 'M'
    ensures ClickCell(g, i, j).Ok? && ClickCell(g, i, j).value.status == Over
    ensures !IsWin(ClickCell(g, i, j).value.board)
  {
    ShapedBoard(g);
    ClickCellEffect(g, i, j);
    var h := ClickCell(g, i, j).value;
    assert BlocksWin(h.board[i][j]);
  }

  /** Flagging keeps every mine where it was. */
  lemma {:induction false} FlagKeepsMines(g: Game, i: int, j: int)
    requires Shaped(g) && FlagCell(g, i, j).Ok?
    ensures forall x, y :: InGame(g, x, y) ==>
      (HoldsMine(FlagCell(g, i, j).value.board[x][y]) <==> HoldsMine(g.board[x][y]))
    ensures CountIn(FlagCell(g, i, j).value.board, MineCodes) == CountIn(g.board, MineCodes)
    ensures WellFormed(g) ==> WellFormed(FlagCell(g, i, j).value)
  {
    var h := FlagCell(g, i, j).value;
    CountCellwise(g.board, h.board, MineCodes);
  }

  /** Flagging the same cell twice gives back the game unchanged. */
  lemma {:induction false} FlagTwiceRestores(g: Game, i: int, j: int)
    requires Shaped(g) && InGame(g, i, j)
    ensures FlagCell(g, i, j).Ok? && FlagCell(FlagCell(g, i, j).value, i, j) == Ok(g)
  {
    var h := FlagCell(g, i, j).value;
    var k := FlagCell(h, i, j).value;
    assert k.board[i][j] == g.board[i][j];
    forall x | 0 <= x < g.rows ensures k.board[x] == g.board[x] {
      assert |k.board[x]| == |g.board[x]|;
      forall y | 0 <= y < g.cols ensures k.board[x][y] == g.board[x][y] {
      }
    }
    assert k.board == g.board;
  }
}
