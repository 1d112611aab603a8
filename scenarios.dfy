/**
 * Concrete games played through the in-place engine: the two engine tests
 * of the repository (a click outside and a click inside a mine-free 4x4
 * board) and two short games, one cleared by a single click and one lost
 * on the first click; and a request, which carries no board yet, turned into a
 * stored game by the service.
 */
module Scenarios {
  import opened Results
  import opened Cells
  import opened Grids
  import opened FloodFill
  import opened Domain
  import Rules
  import Engine
  import Store
  import Service
  import ServiceRules

  /** The test fixture: a 4x4 game whose Mines field keeps its zero value, with its board generated. */
  method MineFreeFourByFour(draws: seq<(nat, nat)>) returns (game: Engine.Game)
    ensures fresh(game) && fresh(game.board) && game.Valid()
    ensures game.rows == 4 && game.cols == 4 && game.status == Ready && game.clicks == 0
    ensures game.Contents() == Rules.EmptyBoard(4, 4)
  {
    game := new Engine.Game("TestGame1", "TestPlayer1", 4, 4, 0);
    var _ := game.GenerateBoard(draws);
  }

  /** A click on (4, 4) of a 4x4 board is out of bounds. */
  method ClickOutOfBounds(draws: seq<(nat, nat)>) returns (err: Option<Rules.EngineError>)
    ensures err == Some(Rules.ClickOutOfBounds)
  {
    var game := MineFreeFourByFour(draws);
    err := game.ClickCell(4, 4);
  }

  /** A click on (3, 3) of a mine-free 4x4 board is accepted. */
  method ClickWithinBounds(draws: seq<(nat, nat)>) returns (err: Option<Rules.EngineError>)
    ensures err == None
  {
    var game := MineFreeFourByFour(draws);
    err := game.ClickCell(3, 3);
  }

  /** One click on a mine-free 4x4 board blanks every cell, counts one click and wins. */
  method ClearMineFreeBoard(draws: seq<(nat, nat)>) returns (board: Grid, clicks: int, won: bool)
    ensures |board| == 4 && forall i :: 0 <= i < 4 ==> |board[i]| == 4
    ensures forall i, j :: 0 <= i < 4 && 0 <= j < 4 ==> board[i][j] == 'B'
    ensures clicks == 1 && won
  {
    var game := MineFreeFourByFour(draws);
    ghost var before := game.Snapshot();
    ClearedAtOnce(before.board, 0, 0);
    Rules.ClickCellReveals(before, 0, 0);
    var err := game.ClickCell(0, 0);
    board := game.Contents();
    assert board == seq(4, i => seq(4, j => 'B'));
    clicks := game.clicks;
    won := game.WeHaveWinner();
  }

  /** One reveal on a board of veiled empty cells only blanks every cell, and that is a win. */
  lemma ClearedAtOnce(g: Grid, r: int, c: int)
    requires IsRect(g) && InBounds(g, r, c)
    requires forall i, j :: InBounds(g, i, j) ==> g[i][j] == 'E'
    ensures Reveal(g, r, c) == seq(|g|, i => seq(Width(g), j => 'B'))
    ensures IsWin(Reveal(g, r, c))
  {
    MineFreeRevealIsTotal(g, r, c);
    var h := Reveal(g, r, c);
    forall i | 0 <= i < |g| ensures h[i] == seq(Width(g), j => 'B') {
    }
  }

  /** On a 2x2 board with its mine at (0, 0), clicking (0, 0) detonates it and the game is over, not won. */
  method LoseOnFirstClick() returns (board: Grid, status: Status, won: bool)
    ensures board == ["XE", "EE"] && status == Over && !won
  {
    var game := new Engine.Game.Load(Domain.Game("g", "u", 2, 2, 1, InProgress, ["ME", "EE"], 0, 0, 0, 0));
    var err := game.ClickCell(0, 0);
    board := game.Contents();
    assert board == Set(["ME", "EE"], 0, 0, 'X');
    assert board[0] == "XE" && board[1] == "EE";
    status := game.status;
    won := game.WeHaveWinner();
  }

  /**
   * A registered user asks for a game of any settings inside the bounds: the
   * request has no board, and the service keeps the settings and generates a
   * board of that shape.
   */
  method CreateFromRequest(rows: int, cols: int, mines: int, now: Time, draws: seq<(nat, nat)>)
      returns (registered: bool, game: Engine.Game)
    requires 2 <= rows <= 30 && 2 <= cols <= 30 && 0 < mines <= rows * cols
    ensures registered ==> game.Valid() && game.rows == rows && game.cols == cols && game.mines == mines
    ensures registered ==> game.status == Ready && |game.Contents()| == rows && Width(game.Contents()) == cols
  {
    var repo := new Store.Repo();
    var svc := new Service.GameService(repo, Current);
    var _ := svc.CreateUser(User("u", 0), now);
    game := new Engine.Game("", "u", rows, cols, mines);
    registered := svc.Exists("u");
    if registered {
      ServiceRules.NormalizeBounds(rows, cols, mines);
      var _ := svc.CreateGame(game, now, "fresh", draws);
    }
  }
}
