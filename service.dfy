/**
 * The game service as the Go code runs it: an object holding the
 * repository, whose methods rewrite a request game field by field, load a
 * stored game into an engine object, drive the engine and write back. Each
 * method is proved to produce one of the outcomes ServiceRules describes,
 * the one chosen by whether the store accepted the write.
 */
module Service {
  import opened Results
  import opened Cells
  import opened Grids
  import opened Domain
  import opened Store
  import opened ServiceRules
  import Rules
  import Engine

  class GameService {
    const repo: Repo
    const generation: Generation

    constructor (repo: Repo, generation: Generation)
      ensures this.repo == repo && this.generation == generation
    {
      this.repo := repo;
      this.generation := generation;
    }

    /** The store is consistent: every entry under its own key, every game well formed. */
    ghost predicate Valid()
      reads this, repo
    {
      Consistent(repo.entries)
    }

    /**
     * CreateGame: refuses an unknown username; otherwise normalises the
     * request in place, names it, generates its board and saves it.
     */
    method CreateGame(game: Engine.Game, now: Time, freshName: string, draws: seq<(nat, nat)>)
        returns (err: Option<ServiceError>)
      requires Valid()
      modifies repo, game
      ensures Valid()
      ensures old(game.username) in old(repo.entries) ==> game.Valid()
      ensures var o0 := CreateGameOutcome(old(repo.entries), old(game.Snapshot()), now, freshName, draws, false);
        var o1 := CreateGameOutcome(old(repo.entries), old(game.Snapshot()), now, freshName, draws, true);
        (repo.entries == o0.1 && Replied(o0.0, err, game)) || (repo.entries == o1.1 && Replied(o1.0, err, game))
      ensures old(game.username) in old(repo.entries) ==>
        game.Snapshot() == NewGame(old(game.Snapshot()), now, freshName, draws)
      ensures old(game.username) !in old(repo.entries) ==>
        unchanged(game) && game.board == old(game.board)
    {
      ghost var entries := repo.entries;
      ghost var req := game.Snapshot();
      var known := repo.Exists(game.username);
      if !known {
        return Some(UserNotFound);
      }
      var k := NormalizeSettings(game.rows, game.cols, game.mines);
      var name := game.name;
      if name == "" {
        name := freshName;
      }
      game.Prepare(name, k.rows, k.cols, k.mines, now);
      ghost var named := game.Snapshot();
      NewGameSteps(req, named, now, freshName, draws);
      err := Launch(game, draws);
      CreateGameKeepsConsistent(entries, req, now, freshName, draws, err.None?);
    }

    /** The end of CreateGame: generate the board of the prepared game and save the game. */
    method Launch(game: Engine.Game, draws: seq<(nat, nat)>) returns (err: Option<ServiceError>)
      requires MinRows <= game.rows && MinCols <= game.cols
      modifies repo, game
      ensures game.Valid()
      ensures var p := Rules.GenerateBoard(old(game.rows), old(game.cols), old(game.mines), draws);
        game.Snapshot() == old(game.Snapshot()).(board := p.board)
      ensures err == None ==> repo.entries == old(repo.entries)[game.name := GameEntry(game.Snapshot())]
      ensures err != None ==> err == Some(GameNotSaved) && repo.entries == old(repo.entries)
    {
      var _ := game.GenerateBoard(draws);
      var saved := repo.SaveGame(game.Snapshot());
      if !saved {
        return Some(GameNotSaved);
      }
      return None;
    }

    /**
     * CreateUser: the older generation refuses an empty username; an
     * existing key is refused; otherwise the user is stamped and saved.
     */
    method CreateUser(user: User, now: Time) returns (r: Result<User, ServiceError>)
      requires Valid()
      modifies repo
      ensures Valid()
      ensures (r, repo.entries) == CreateUserOutcome(generation, old(repo.entries), user, now, false)
           || (r, repo.entries) == CreateUserOutcome(generation, old(repo.entries), user, now, true)
    {
      if generation == Legacy && user.username == "" {
        return Err(UsernameMissing);
      }
      var taken := repo.Exists(user.username);
      if taken {
        return Err(UserAlreadyExists);
      }
      var stamped := user.(createdAt := now);
      var saved := repo.SaveUser(stamped);
      CreateUserAddsOneKey(generation, old(repo.entries), user, now, saved);
      if !saved {
        return Err(StoreFailed(WriteFailed));
      }
      return Ok(stamped);
    }

    method Exists(key: string) returns (b: bool)
      ensures b <==> key in repo.entries
    {
      b := repo.Exists(key);
    }

    /** The existence checks of Click and Board, in the order of the generation. */
    method CheckKeys(gameName: string, userName: string) returns (err: Option<ServiceError>)
      ensures err == ServiceRules.CheckKeys(generation, repo.entries, gameName, userName)
    {
      var gameKnown := repo.Exists(gameName);
      if generation == Current {
        if !gameKnown {
          return Some(GameNotFound);
        }
        var userKnown := repo.Exists(userName);
        if !userKnown {
          return Some(UserNotFound);
        }
      } else {
        var userKnown := repo.Exists(userName);
        if !gameKnown || !userKnown {
          return Some(GameOrUserMissing);
        }
      }
      return None;
    }

    /**
     * Click: checks, read, kind check, status step, engine move, time and
     * win update, one save. Nothing is written on any error path before
     * the save.
     */
    method Click(gameName: string, userName: string, click: ClickData, clock: Clock)
        returns (r: Result<Domain.Game, ServiceError>)
      requires Valid()
      modifies repo
      ensures Valid()
      ensures (r, repo.entries) == ClickOutcome(generation, old(repo.entries), gameName, userName, click, clock, false)
           || (r, repo.entries) == ClickOutcome(generation, old(repo.entries), gameName, userName, click, clock, true)
    {
      var missing := CheckKeys(gameName, userName);
      if missing.Some? {
        return Err(missing.value);
      }
      var stored := repo.GetGame(gameName);
      if stored.Err? {
        return Err(StoreFailed(stored.error));
      }
      LookupConsistent(repo.entries, gameName);
      if click.kind != "click" && click.kind != "flag" {
        return Err(BadClickKind);
      }
      r := Play(gameName, stored.value, click, clock);
    }

    /** Click once the stored game is read: load it into the engine, play the move, save it back. */
    method Play(gameName: string, stored: Domain.Game, click: ClickData, clock: Clock)
        returns (r: Result<Domain.Game, ServiceError>)
      requires Valid() && WellFormed(stored) && stored.name == gameName && KnownKind(click)
      modifies repo
      ensures Valid()
      ensures (r, repo.entries) == PlayOutcome(old(repo.entries), gameName, stored, click, clock, false)
           || (r, repo.entries) == PlayOutcome(old(repo.entries), gameName, stored, click, clock, true)
    {
      var game := new Engine.Game.Load(stored);
      if game.status == Ready {
        // first click: the game starts now
        game.status := InProgress;
        game.startedAt := clock.start;
      }
      if game.status == Over {
        return Err(GameIsOver);
      }
      if game.status == Won {
        return Err(GameIsWon);
      }
      assert Admit(stored, clock.start) == Ok(game.Snapshot());
      r := Advance(gameName, game, stored, click, clock);
    }

    /** Click on a game in play: the engine move, the time and win update, the save. */
    method Advance(gameName: string, game: Engine.Game, ghost stored: Domain.Game, click: ClickData, clock: Clock)
        returns (r: Result<Domain.Game, ServiceError>)
      requires Valid() && game.Valid() && WellFormed(stored) && stored.name == gameName
      requires Admit(stored, clock.start) == Ok(game.Snapshot())
      modifies repo, game, game.board
      ensures Valid()
      ensures (r, repo.entries) == PlayOutcome(old(repo.entries), gameName, stored, click, clock, false)
           || (r, repo.entries) == PlayOutcome(old(repo.entries), gameName, stored, click, clock, true)
    {
      var moveErr := Move(game, click);
      if moveErr.Some? {
        return Err(Engine(moveErr.value));
      }
      ghost var moved := game.Snapshot();
      Finish(game, clock.now);
      var g := game.Snapshot();
      var saved := repo.SaveGame(g);
      PlayAccepted(old(repo.entries), gameName, stored, click, clock, moved, saved);
      if !saved {
        return Err(StoreFailed(WriteFailed));
      }
      return Ok(g);
    }

    /** After the move: the time spent since the start, and status won when weHaveWinner says so. */
    method Finish(game: Engine.Game, now: Time)
      requires game.Valid()
      modifies game
      ensures game.Valid() && game.board == old(game.board)
      ensures game.Snapshot() == Settle(old(game.Snapshot()), now)
    {
      game.ValidIsShaped();
      game.timeSpent := now - game.startedAt;
      var won := game.WeHaveWinner();
      if won {
        game.status := Won;
      }
    }

    /** The dispatch: "click" to clickCell, anything else (here "flag") to flagCell. */
    method Move(game: Engine.Game, click: ClickData) returns (err: Option<Rules.EngineError>)
      requires game.Valid()
      modifies game, game.board
      ensures game.Valid() && game.board == old(game.board)
      ensures match Dispatch(old(game.Snapshot()), click)
        case Ok(g) => err == None && game.Snapshot() == g
        case Err(e) => err == Some(e) && game.Snapshot() == old(game.Snapshot())
    {
      game.ValidIsShaped();
      if click.kind == "click" {
        err := game.ClickCell(click.row, click.col);
      } else if click.kind == "flag" {
        err := game.FlagCell(click.row, click.col);
      } else {
        err := None;
      }
    }

    /**
     * Board: the same checks as Click, the read, an error for a game with
     * no board, then every cell as a one-character string.
     */
    method Board(gameName: string, userName: string) returns (r: Result<seq<seq<string>>, ServiceError>)
      ensures r == BoardOutcome(generation, repo.entries, gameName, userName)
    {
      var missing := CheckKeys(gameName, userName);
      if missing.Some? {
        return Err(missing.value);
      }
      var stored := repo.GetGame(gameName);
      if stored.Err? {
        return Err(StoreFailed(stored.error));
      }
      if |stored.value.board| == 0 {
        return Err(NoBoard);
      }
      var tmp := BoardToStrings(stored.value.board);
      return Ok(tmp);
    }
  }

  /**
   * CreateGame's defaults, then maximum, then minimum, then the mine clamp,
   * applied in that order to the requested rows, columns and mines.
   */
  method NormalizeSettings(requestedRows: int, requestedCols: int, requestedMines: int) returns (k: Settings)
    ensures k == Normalize(requestedRows, requestedCols, requestedMines)
    ensures MinRows <= k.rows <= MaxRows && MinCols <= k.cols <= MaxCols
  {
    var rows, cols, mines := requestedRows, requestedCols, requestedMines;
    // defaults
    if rows == 0 {
      rows := DefaultRows;
    }
    if cols == 0 {
      cols := DefaultCols;
    }
    if mines == 0 {
      mines := DefaultMines;
    }
    // maximum
    if rows > MaxRows {
      rows := MaxRows;
    }
    if cols > MaxCols {
      cols := MaxCols;
    }
    // minimum
    if rows < MinRows {
      rows := MinRows;
    }
    if cols < MinCols {
      cols := MinCols;
    }
    if mines > cols * rows {
      mines := cols * rows;
    }
    k := Settings(rows, cols, mines);
  }

  /** The reply a service method gives for an outcome: no error and the game as it now is, or the error. */
  ghost predicate Replied(r: Result<Domain.Game, ServiceError>, err: Option<ServiceError>, game: Engine.Game)
    reads game, game.board
  {
    match r
    case Ok(g) => err == None && game.Snapshot() == g
    case Err(e) => err == Some(e)
  }

  /** boardToJSON before the encoding: each row rebuilt by appending one-character strings. */
  method BoardToStrings(data: Grid) returns (tmp: seq<seq<string>>)
    ensures tmp == Project(data)
  {
    tmp := seq(|data|, _ => []);
    for i := 0 to |data|
      invariant |tmp| == |data|
      invariant forall x :: 0 <= x < i ==> tmp[x] == Project(data)[x]
    {
      var row := data[i];
      var fRow: seq<string> := [];
      for j := 0 to |row|
        invariant fRow == Project(data)[i][..j]
      {
        fRow := fRow + [[row[j]]];
      }
      tmp := tmp[i := fRow];
    }
  }
}
