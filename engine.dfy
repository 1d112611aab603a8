/**
 * The engine as the Go code runs it: a game object whose board is a
 * two-dimensional byte buffer that generateBoard, clickCell (with its
 * recursive solve), flagCell and weHaveWinner read and overwrite in place.
 * Every method is proved to leave the object in the state the functions of
 * Rules and FloodFill describe.
 */
module Engine {
  import opened Results
  import opened Cells
  import opened Grids
  import opened FloodFill
  import opened Domain
  import Rules

  class Game {
    var name: string
    var username: string
    var rows: int
    var cols: int
    var mines: int
    var status: Status
    var board: array2<char>
    var clicks: int
    var createdAt: Time
    var startedAt: Time
    var timeSpent: int

    /** The buffer read row by row. */
    function Contents(): (g: Grid)
      reads this`board, board
      ensures |g| == board.Length0
      ensures IsRect(g) && (board.Length0 > 0 ==> Width(g) == board.Length1)
    {
      var a := board;
      seq(a.Length0, i requires 0 <= i < a.Length0 reads a =>
        seq(a.Length1, j requires 0 <= j < a.Length1 reads a => a[i, j]))
    }

    /** The game as a record, as the store would serialise it. */
    function Snapshot(): Domain.Game
      reads this, board
    {
      Domain.Game(name, username, rows, cols, mines, status, Contents(), clicks, createdAt, startedAt, timeSpent)
    }

    /** The buffer has Rows rows of Cols cells. */
    predicate Valid()
      reads this
    {
      board.Length0 == rows && board.Length1 == cols
    }

    lemma ValidIsShaped()
      requires Valid()
      ensures Shaped(Snapshot())
    {
    }

    /** A game as a request decodes it: the given settings, every other field zero, no board yet; Ready stands for its empty status. */
    constructor (name: string, username: string, rows: int, cols: int, mines: int)
      ensures Snapshot() == Domain.Game(name, username, rows, cols, mines, Ready, [], 0, 0, 0, 0)
      ensures fresh(board)
    {
      this.name := name;
      this.username := username;
      this.rows := rows;
      this.cols := cols;
      this.mines := mines;
      status := Ready;
      board := new char[0, 0];
      clicks := 0;
      createdAt := 0;
      startedAt := 0;
      timeSpent := 0;
    }

    /** A game as read back from the store: a fresh object holding a copy of the record. */
    constructor Load(g: Domain.Game)
      requires Shaped(g)
      ensures Valid() && Snapshot() == g && fresh(board)
    {
      name := g.name;
      username := g.username;
      rows := g.rows;
      cols := g.cols;
      mines := g.mines;
      status := g.status;
      board := new char[g.rows, g.cols]((i, j) requires 0 <= i < g.rows && 0 <= j < g.cols => g.board[i][j]);
      clicks := g.clicks;
      createdAt := g.createdAt;
      startedAt := g.startedAt;
      timeSpent := g.timeSpent;
      new;
      ghost var b := Contents();
      assert forall i | 0 <= i < g.rows :: b[i] == g.board[i];
    }

    /** A request made ready to play: its name and settings as the service settled them, the creation time, status ready. */
    method Prepare(name: string, rows: int, cols: int, mines: int, createdAt: Time)
      modifies this
      ensures board == old(board)
      ensures this.rows == rows && this.cols == cols && this.mines == mines
      ensures Snapshot() == old(Snapshot()).(name := name, rows := rows, cols := cols, mines := mines,
                                             createdAt := createdAt, status := Ready)
    {
      ghost var before := Snapshot();
      this.name, this.rows, this.cols, this.mines, this.createdAt, status := name, rows, cols, mines, createdAt, Ready;
      assert unchanged(board);
    }

    /** board[x][y] = v */
    method SetCell(x: int, y: int, v: char)
      requires 0 <= x < board.Length0 && 0 <= y < board.Length1
      modifies board
      ensures Contents() == Set(old(Contents()), x, y, v)
    {
      ghost var g := Contents();
      board[x, y] := v;
      ghost var h := Contents();
      assert forall i | 0 <= i < |h| :: h[i] == Set(g, x, y, v)[i];
    }

    /**
     * generateBoard: a fresh Rows x Cols buffer of 'E', then mines planted by
     * rejection sampling from the draws. Returns how many draws were used.
     */
    method GenerateBoard(draws: seq<(nat, nat)>) returns (used: nat)
      requires 0 <= rows && 0 <= cols && (mines > 0 ==> rows > 0 && cols > 0)
      modifies this
      ensures fresh(board) && Valid()
      ensures var p := Rules.GenerateBoard(old(rows), old(cols), old(mines), draws);
        used == p.drawsUsed && Snapshot() == old(Snapshot()).(board := p.board)
    {
      board := new char[rows, cols];
      FillVeiled();
      used := PlantMines(draws);
    }

    /** The first phase of generateBoard: every cell becomes 'E'. */
    method FillVeiled()
      modifies board
      ensures Contents() == Rules.EmptyBoard(board.Length0, board.Length1)
    {
      for i := 0 to board.Length0
        invariant forall x, y :: 0 <= x < i && 0 <= y < board.Length1 ==> board[x, y] == 'E'
      {
        for j := 0 to board.Length1
          invariant forall x, y :: 0 <= x < i && 0 <= y < board.Length1 ==> board[x, y] == 'E'
          invariant forall y :: 0 <= y < j ==> board[i, y] == 'E'
        {
          board[i, j] := 'E';
        }
      }
      ghost var g := Contents();
      assert forall x | 0 <= x < board.Length0 :: g[x] == Rules.EmptyBoard(board.Length0, board.Length1)[x];
    }

    /** The second phase of generateBoard: draw cells until Mines new mines are planted or the draws run out. */
    method PlantMines(draws: seq<(nat, nat)>) returns (used: nat)
      requires Valid() && (mines > 0 ==> rows > 0 && cols > 0)
      modifies board
      ensures var p := Rules.Plant(old(Contents()), draws, mines);
        Contents() == p.board && used == p.drawsUsed
    {
      ghost var g0 := Contents();
      var planted := 0;
      used := 0;
      while planted < mines && used < |draws|
        invariant 0 <= planted && used <= |draws| && (mines > 0 || planted == 0)
        invariant Rules.PlantedSoFar(g0, draws, mines, Contents(), used, planted)
        decreases |draws| - used
      {
        planted := PlantOne(g0, draws, used, planted);
        used := used + 1;
      }
      Rules.PlantDone(g0, draws, mines, Contents(), used, planted);
    }

    /** One turn of the planting loop: the drawn cell becomes a mine unless it already is one. */
    method PlantOne(ghost g0: Grid, draws: seq<(nat, nat)>, used: nat, planted: nat) returns (next: nat)
      requires Valid() && planted < mines && used < |draws|
      requires rows > 0 && cols > 0 && IsRect(g0) && |g0| == rows && Width(g0) == cols
      requires Rules.PlantedSoFar(g0, draws, mines, Contents(), used, planted)
      modifies board
      ensures Rules.PlantedSoFar(g0, draws, mines, Contents(), used + 1, next)
      ensures var p := Rules.DrawnCell(draws[used], rows, cols);
        Contents() == (if old(Contents())[p.0][p.1] != 'M' then Set(old(Contents()), p.0, p.1, 'M') else old(Contents())) &&
        (next == planted + 1 <==> old(Contents())[p.0][p.1] != 'M')
      ensures next == planted || next == planted + 1
    {
      var x, y := draws[used].0 % rows, draws[used].1 % cols;
      Rules.PlantStep(g0, draws, mines, Contents(), used, planted, x, y);
      assert Contents()[x][y] == board[x, y];
      next := planted;
      if board[x, y] != 'M' {
        SetCell(x, y, 'M');
        next := planted + 1;
      }
    }

    /**
     * clickCell: rejects a click outside the board or on a flag; otherwise
     * counts a click on a veiled cell and either detonates a mine or reveals.
     */
    method ClickCell(i: int, j: int) returns (err: Option<Rules.EngineError>)
      requires Valid()
      modifies this, board
      ensures Valid() && board == old(board)
      ensures match Rules.ClickCell(old(Snapshot()), i, j)
        case Ok(g) => err == None && Snapshot() == g
        case Err(e) => err == Some(e) && Snapshot() == old(Snapshot())
    {
      if !(0 <= i < rows && 0 <= j < cols) {
        return Some(Rules.ClickOutOfBounds);
      }
      if board[i, j] == 'm' || board[i, j] == 'e' {
        return Some(Rules.ClickOnFlagged);
      }
      ghost var g := Snapshot();
      if board[i, j] == 'M' {
        Rules.ClickCellDetonates(g, i, j);
        Detonate(i, j);
      } else {
        Rules.ClickCellReveals(g, i, j);
        Uncover(i, j);
      }
      return None;
    }

    /** clickCell on an unflagged mine: the click counts, the mine becomes 'X' and the game is over. */
    method Detonate(i: int, j: int)
      requires Valid() && 0 <= i < rows && 0 <= j < cols && board[i, j] == 'M'
      modifies this, board
      ensures Valid() && board == old(board)
      ensures Snapshot() == old(Snapshot()).(board := Set(old(Contents()), i, j, 'X'), status := Over, clicks := old(clicks) + 1)
    {
      clicks := clicks + 1;
      SetCell(i, j, 'X');
      status := Over;
    }

    /** clickCell on any other unflagged cell: a click on 'E' counts, then solve reveals from the cell. */
    method Uncover(i: int, j: int)
      requires Valid() && 0 <= i < rows && 0 <= j < cols && !IsFlagged(board[i, j]) && board[i, j] != 'M'
      modifies this, board
      ensures Valid() && board == old(board)
      ensures Snapshot() == old(Snapshot()).(board := Reveal(old(Contents()), i, j), clicks := old(clicks) + if old(board[i, j]) == 'E' then 1 else 0)
    {
      if board[i, j] == 'E' {
        clicks := clicks + 1;
      }
      Solve(i, j);
    }

    /** solve's first loop: the mines ('M' or 'm') among the eight neighbours of (r, c) that lie on the board. */
    method MinesAround(r: int, c: int) returns (mineCount: nat)
      requires 0 <= r < board.Length0 && 0 <= c < board.Length1
      ensures mineCount == AdjacentMines(Contents(), r, c)
    {
      ghost var g := Contents();
      mineCount := 0;
      for d := 0 to 8
        invariant mineCount == MinesAmong(g, r, c, d)
      {
        var x, y := r + Directions[d].0, c + Directions[d].1;
        assert Neighbour(r, c, d) == (x, y);
        if 0 <= x < board.Length0 && 0 <= y < board.Length1 && (board[x, y] == 'M' || board[x, y] == 'm') {
          mineCount := mineCount + 1;
        }
      }
    }

    /**
     * solve: count the mines around (r, c); write the digit, or write 'B'
     * and solve every veiled empty neighbour in direction order.
     */
    method Solve(r: int, c: int)
      requires 0 <= r < board.Length0 && 0 <= c < board.Length1
      modifies board
      ensures Contents() == Reveal(old(Contents()), r, c)
      decreases CountIn(Contents(), VeiledEmptyCodes), if IsVeiledEmpty(board[r, c]) then 0 else 1, 1
    {
      ghost var g0 := Contents();
      RevealUnfolds(g0, r, c);
      var mineCount := MinesAround(r, c);
      if mineCount > 0 {
        SetCell(r, c, Digit(mineCount));
        return;
      }
      SetCell(r, c, 'B');
      SolveAround(r, c);
    }

    /** solve's second loop, around a cell just written 'B': the eight directions in order. */
    method SolveAround(r: int, c: int)
      requires 0 <= r < board.Length0 && 0 <= c < board.Length1
      modifies board
      ensures Contents() == RevealNeighbours(old(Contents()), r, c, 0)
      ensures CountIn(Contents(), VeiledEmptyCodes) <= CountIn(old(Contents()), VeiledEmptyCodes)
      decreases CountIn(Contents(), VeiledEmptyCodes), 0, 3
    {
      ghost var g1 := Contents();
      for d := 0 to 8
        invariant RevealNeighbours(Contents(), r, c, d) == RevealNeighbours(g1, r, c, 0)
        invariant CountIn(Contents(), VeiledEmptyCodes) <= CountIn(g1, VeiledEmptyCodes)
      {
        SolveNeighbour(r, c, d);
      }
    }

    /** One pass of solve's second loop: solve the neighbour in direction d if it is on the board and veiled empty. */
    method SolveNeighbour(r: int, c: int, d: nat)
      requires 0 <= r < board.Length0 && 0 <= c < board.Length1 && d < 8
      modifies board
      ensures var p := Neighbour(r, c, d);
        Contents() == if InBounds(old(Contents()), p.0, p.1) && IsVeiledEmpty(old(Contents())[p.0][p.1])
          then Reveal(old(Contents()), p.0, p.1) else old(Contents())
      ensures RevealNeighbours(old(Contents()), r, c, d) == RevealNeighbours(Contents(), r, c, d + 1)
      ensures CountIn(Contents(), VeiledEmptyCodes) <= CountIn(old(Contents()), VeiledEmptyCodes)
      decreases CountIn(Contents(), VeiledEmptyCodes), 0, 2
    {
      ghost var g := Contents();
      var x, y := r + Directions[d].0, c + Directions[d].1;
      assert Neighbour(r, c, d) == (x, y);
      if 0 <= x < board.Length0 && 0 <= y < board.Length1 && (board[x, y] == 'E' || board[x, y] == 'e') {
        assert InBounds(g, x, y) && IsVeiledEmpty(g[x][y]);
        Solve(x, y);
      } else {
        assert !(InBounds(g, x, y) && IsVeiledEmpty(g[x][y]));
      }
    }

    /** flagCell: rejects a cell outside the board; toggles the flag on a veiled cell. */
    method FlagCell(i: int, j: int) returns (err: Option<Rules.EngineError>)
      requires Valid()
      modifies board
      ensures match Rules.FlagCell(old(Snapshot()), i, j)
        case Ok(g) => err == None && Snapshot() == g
        case Err(e) => err == Some(e) && Snapshot() == old(Snapshot())
    {
      if !(0 <= i < rows && 0 <= j < cols) {
        return Some(Rules.FlagOutOfBounds);
      }
      var value := board[i, j];
      if value == 'M' || value == 'E' {
        SetCell(i, j, ToLower(value));
      }
      if value == 'm' || value == 'e' {
        SetCell(i, j, ToUpper(value));
      }
      return None;
    }

    /** weHaveWinner: no cell is veiled empty, flagged empty or a detonated mine. */
    method WeHaveWinner() returns (won: bool)
      ensures won == IsWin(Contents())
    {
      for i := 0 to board.Length0
        invariant forall x, y :: 0 <= x < i && 0 <= y < board.Length1 ==> !BlocksWin(board[x, y])
      {
        for j := 0 to board.Length1
          invariant forall x, y :: 0 <= x < i && 0 <= y < board.Length1 ==> !BlocksWin(board[x, y])
          invariant forall y :: 0 <= y < j ==> !BlocksWin(board[i, y])
        {
          if board[i, j] == 'E' || board[i, j] == 'e' || board[i, j] == 'X' {
            assert Contents()[i][j] == board[i, j];
            return false;
          }
        }
      }
      return true;
    }
  }
}
