/**
 * The game service as functions on the store: CreateGame's normalisation
 * of the requested settings, CreateUser, the Click state machine
 * (ready -> in_progress -> over | won) with its fixed order of checks, and
 * the Board projection. A store write that may fail is a `saved` argument;
 * each outcome pairs the reply with the store contents afterwards.
 * Service.GameService performs these step by step and is proved to agree.
 */
module ServiceRules {
  import opened Results
  import opened Cells
  import opened Grids
  import opened FloodFill
  import opened Domain
  import opened Store
  import Rules

  const DefaultRows := 10
  const DefaultCols := 10
  const DefaultMines := 15
  const MaxRows := 30
  const MaxCols := 30
  const MinRows := 2
  const MinCols := 2

  datatype ServiceError =
    | UserNotFound
    | UserAlreadyExists
    | UsernameMissing     // older generation only
    | GameNotFound        // current generation only
    | GameOrUserMissing   // older generation only
    | BadClickKind
    | GameIsOver
    | GameIsWon
    | NoBoard
    | GameNotSaved
    | Engine(engineError: Rules.EngineError)
    | StoreFailed(storeError: StoreError)

  /** The errors each generation can report. */
  predicate Raises(gen: Generation, e: ServiceError) {
    match e
    case UsernameMissing => gen == Legacy
    case GameOrUserMissing => gen == Legacy
    case GameNotFound => gen == Current
    case _ => true
  }

  /** The message text of an error; store errors carry the store's own text, which is not modelled. */
  function ErrorText(e: ServiceError, gen: Generation): (t: Option<string>)
    ensures t.Some? <==> Raises(gen, e) && !e.StoreFailed?
  {
    var current := gen == Current;
    match e
    case UserNotFound => Some(if current then "user_not_found" else "Username does not exits")
    case UserAlreadyExists => Some(if current then "user_already_exist" else "User already exists")
    case UsernameMissing => if current then None else Some("Username not provided")
    case GameNotFound => if current then Some("game_not_found") else None
    case GameOrUserMissing => if current then None else Some("Game or user do not exists")
    case BadClickKind => Some(if current then "bad_click_kind" else "Click kind should be either 'click' or 'flag'")
    case GameIsOver => Some(if current then "game_over" else "Game is over and does not accept clicks")
    case GameIsWon => Some(if current then "game_won" else "Game is finished and does not accept clicks. You won!!!")
    case NoBoard => Some(if current then "this game has no board" else "This game has no board.")
    case GameNotSaved => Some(if current then "error saving game" else "Error saving game")
    case Engine(cause) => Some(Rules.EngineErrorText(cause, gen))
    case StoreFailed(_) => None
  }

  // ---- CreateGame ----

  datatype Settings = Settings(rows: int, cols: int, mines: int)

  /** One requested dimension: zero takes the default, then the maximum clamp, then the minimum clamp. */
  function Dimension(requested: int, default: int, lo: int, hi: int): (d: int)
    requires lo <= default <= hi
    ensures lo <= d <= hi
    ensures requested == 0 ==> d == default
    ensures requested != 0 && lo <= requested <= hi ==> d == requested
    ensures requested != 0 && requested > hi ==> d == hi
    ensures requested != 0 && requested < lo ==> d == lo
  {
    var withDefault := if requested == 0 then default else requested;
    var capped := if withDefault > hi then hi else withDefault;
    if capped < lo then lo else capped
  }

  /**
   * CreateGame's normalisation: defaults for zero values, rows and columns
   * clamped to [2, 30], and no more mines than cells. A negative mine count
   * is left as it is.
   */
  function Normalize(rows: int, cols: int, mines: int): Settings {
    var r := Dimension(rows, DefaultRows, MinRows, MaxRows);
    var c := Dimension(cols, DefaultCols, MinCols, MaxCols);
    var m := if mines == 0 then DefaultMines else mines;
    Settings(r, c, if m > c * r then c * r else m)
  }

  /**
   * What normalisation guarantees: dimensions within [2, 30] (see Dimension
   * for each case), zero mines replaced by the default, a mine count above
   * the number of cells lowered to it, and any other count kept, negative
   * ones included.
   */
  lemma NormalizeBounds(rows: int, cols: int, mines: int)
    ensures var k := Normalize(rows, cols, mines);
      MinRows <= k.rows <= MaxRows && MinCols <= k.cols <= MaxCols &&
      k.rows == Dimension(rows, DefaultRows, MinRows, MaxRows) &&
      k.cols == Dimension(cols, DefaultCols, MinCols, MaxCols) &&
      k.mines <= k.rows * k.cols && k.mines != 0 &&
      (mines == 0 ==> k.mines == DefaultMines || (k.mines == k.rows * k.cols < DefaultMines)) &&
      (mines != 0 && mines <= k.rows * k.cols ==> k.mines == mines) &&
      (mines > k.rows * k.cols ==> k.mines == k.rows * k.cols)
  {
    var k := Normalize(rows, cols, mines);
    assert 4 <= k.rows * k.cols by {
      ProductAtLeast(k.rows, k.cols);
    }
  }

  lemma ProductAtLeast(a: int, b: int)
    requires 2 <= a && 2 <= b
    ensures 4 <= a * b
  {
    assert a * b == 2 * b + (a - 2) * b;
  }

  /** Normalised settings are left alone by a second normalisation. */
  lemma NormalizeIdempotent(rows: int, cols: int, mines: int)
    ensures var k := Normalize(rows, cols, mines);
      Normalize(k.rows, k.cols, k.mines) == k
  {
    NormalizeBounds(rows, cols, mines);
  }

  /**
   * The game CreateGame builds from a request: the settings normalised, the
   * generated name when none was given, a fresh board, status ready and the
   * creation time. The other fields are those of the request.
   */
  function NewGame(req: Game, now: Time, freshName: string, draws: seq<(nat, nat)>): (g: Game)
    ensures WellFormed(g) && g.status == Ready && g.createdAt == now
    ensures g.name == if req.name == "" then freshName else req.name
    ensures var k := Normalize(req.rows, req.cols, req.mines);
      g.rows == k.rows && g.cols == k.cols && g.mines == k.mines
    ensures g.username == req.username && g.clicks == req.clicks
    ensures g.startedAt == req.startedAt && g.timeSpent == req.timeSpent
    ensures g.board == Rules.GenerateBoard(g.rows, g.cols, g.mines, draws).board
  {
    var k := Normalize(req.rows, req.cols, req.mines);
    var p := Rules.GenerateBoard(k.rows, k.cols, k.mines, draws);
    req.(name := if req.name == "" then freshName else req.name,
         rows := k.rows, cols := k.cols, mines := k.mines,
         board := p.board, createdAt := now, status := Ready)
  }

  /** A new game holds only veiled cells, and as many mines as asked for once the random stream offers that many cells. */
  lemma {:induction false} NewGameIsFresh(req: Game, now: Time, freshName: string, draws: seq<(nat, nat)>)
    ensures var g := NewGame(req, now, freshName, draws);
      forall i, j :: 0 <= i < g.rows && 0 <= j < g.cols ==> g.board[i][j] == 'E' || g.board[i][j] == 'M'
    ensures var g := NewGame(req, now, freshName, draws);
      0 < g.mines <= |Rules.DrawnCells(draws, g.rows, g.cols)| ==> CountIn(g.board, {'M'}) == g.mines
  {
    var g := NewGame(req, now, freshName, draws);
    if 0 < g.mines <= |Rules.DrawnCells(draws, g.rows, g.cols)| {
      Rules.GenerateBoardPlantsAll(g.rows, g.cols, g.mines, draws);
    }
  }

  /** The request after normalisation, naming and stamping, with its board generated, is the new game. */
  lemma NewGameSteps(req: Game, named: Game, now: Time, freshName: string, draws: seq<(nat, nat)>)
    requires var k := Normalize(req.rows, req.cols, req.mines);
      named == req.(rows := k.rows, cols := k.cols, mines := k.mines,
                    name := if req.name == "" then freshName else req.name, createdAt := now, status := Ready)
    ensures var p := Rules.GenerateBoard(named.rows, named.cols, named.mines, draws);
      named.(board := p.board) == NewGame(req, now, freshName, draws)
  {
  }

  /**
   * CreateGame: an unknown username fails before anything is touched;
   * otherwise the new game is saved under its name, or the save fails.
   */
  function CreateGameOutcome(entries: map<string, Entry>, req: Game, now: Time, freshName: string,
                             draws: seq<(nat, nat)>, saved: bool): (o: (Result<Game, ServiceError>, map<string, Entry>))
    ensures req.username !in entries ==> o == (Err(UserNotFound), entries)
    ensures o.0.Ok? <==> req.username in entries && saved
    ensures req.username in entries && !saved ==> o == (Err(GameNotSaved), entries)
    ensures o.0.Ok? ==> o.0.value == NewGame(req, now, freshName, draws)
    ensures o.0.Ok? ==> o.1 == entries[o.0.value.name := GameEntry(o.0.value)]
  {
    if req.username !in entries then (Err(UserNotFound), entries)
    else
      var g := NewGame(req, now, freshName, draws);
      if saved then (Ok(g), entries[g.name := GameEntry(g)]) else (Err(GameNotSaved), entries)
  }

  lemma CreateGameKeepsConsistent(entries: map<string, Entry>, req: Game, now: Time, freshName: string,
                                  draws: seq<(nat, nat)>, saved: bool)
    requires Consistent(entries)
    ensures Consistent(CreateGameOutcome(entries, req, now, freshName, draws, saved).1)
  {
    var o := CreateGameOutcome(entries, req, now, freshName, draws, saved);
    if o.0.Ok? {
      SaveKeepsConsistent(entries, GameEntry(o.0.value));
    }
  }

  // ---- CreateUser ----

  /**
   * CreateUser: the older generation first refuses an empty username; a
   * username that is already a key is refused; otherwise the user is saved
   * with the creation time, or the save fails.
   */
  function CreateUserOutcome(gen: Generation, entries: map<string, Entry>, user: User, now: Time, saved: bool)
    : (o: (Result<User, ServiceError>, map<string, Entry>))
    ensures o.0.Err? ==> o.1 == entries
    ensures o.0.Ok? <==> (gen != Legacy || user.username != "") && user.username !in entries && saved
    ensures gen == Legacy && user.username == "" ==> o.0 == Err(UsernameMissing)
    ensures (gen != Legacy || user.username != "") && user.username in entries ==> o.0 == Err(UserAlreadyExists)
    ensures o.0.Ok? ==>
      o.0.value == user.(createdAt := now) && o.1 == entries[user.username := UserEntry(o.0.value)]
  {
    if gen == Legacy && user.username == "" then (Err(UsernameMissing), entries)
    else if user.username in entries then (Err(UserAlreadyExists), entries)
    else
      var u := user.(createdAt := now);
      if saved then (Ok(u), entries[u.username := UserEntry(u)]) else (Err(StoreFailed(WriteFailed)), entries)
  }

  /** A successful CreateUser adds exactly one key, so it never overwrites a game or another user. */
  lemma CreateUserAddsOneKey(gen: Generation, entries: map<string, Entry>, user: User, now: Time, saved: bool)
    requires Consistent(entries)
    ensures var o := CreateUserOutcome(gen, entries, user, now, saved);
      Consistent(o.1) &&
      (o.0.Ok? ==>
        o.1.Keys == entries.Keys + {user.username} && user.username !in entries &&
        forall k :: k in entries ==> o.1[k] == entries[k])
  {
    var o := CreateUserOutcome(gen, entries, user, now, saved);
    if o.0.Ok? {
      SaveKeepsConsistent(entries, UserEntry(o.0.value));
    }
  }

  // ---- Click ----

  /** The two clock readings Click takes: when a first click starts the game, and after the move. */
  datatype Clock = Clock(start: Time, now: Time)

  /**
   * The existence checks that Click and Board begin with: the current
   * generation tests the game key and then the user key, each with its own
   * error; the older one tests both with one error.
   */
  function CheckKeys(gen: Generation, entries: map<string, Entry>, gameName: string, userName: string)
    : (r: Option<ServiceError>)
    ensures r.None? <==> gameName in entries && userName in entries
    ensures gen == Current ==> (r == Some(GameNotFound) <==> gameName !in entries)
    ensures gen == Current ==> (r == Some(UserNotFound) <==> gameName in entries && userName !in entries)
    ensures gen == Legacy && r.Some? ==> r.value == GameOrUserMissing
  {
    if gen == Current then
      if gameName !in entries then Some(GameNotFound)
      else if userName !in entries then Some(UserNotFound)
      else None
    else if gameName !in entries || userName !in entries then Some(GameOrUserMissing)
    else None
  }

  predicate KnownKind(click: ClickData) {
    click.kind == "click" || click.kind == "flag"
  }

  /** The status step before dispatch: a ready game starts now, a finished game refuses the click. */
  function Admit(g: Game, start: Time): Result<Game, ServiceError> {
    var g1 := if g.status == Ready then g.(status := InProgress, startedAt := start) else g;
    if g1.status == Over then Err(GameIsOver)
    else if g1.status == Won then Err(GameIsWon)
    else Ok(g1)
  }

  /** "click" goes to clickCell, "flag" to flagCell; any other kind leaves the game as it is. */
  function Dispatch(g: Game, click: ClickData): Result<Game, Rules.EngineError>
    requires Shaped(g)
  {
    if click.kind == "click" then Rules.ClickCell(g, click.row, click.col)
    else if click.kind == "flag" then Rules.FlagCell(g, click.row, click.col)
    else Ok(g)
  }

  /** After the move: the time spent since the start, and status won when the board is a win. */
  function Settle(g: Game, now: Time): Game
    requires Shaped(g)
  {
    ShapedBoard(g);
    var t := g.(timeSpent := now - g.startedAt);
    if IsWin(t.board) then t.(status := Won) else t
  }

  /**
   * Click: the existence checks, the game read, the kind check, the status
   * step, the engine move, the time and win update, then one save under the
   * game's key. The first failing step decides the error.
   */
  function ClickOutcome(gen: Generation, entries: map<string, Entry>, gameName: string, userName: string,
                        click: ClickData, clock: Clock, saved: bool)
    : (o: (Result<Game, ServiceError>, map<string, Entry>))
    requires Consistent(entries)
    ensures o.0.Err? ==> o.1 == entries
    ensures o.0.Ok? ==> saved && o.1 == entries[gameName := GameEntry(o.0.value)]
    ensures CheckKeys(gen, entries, gameName, userName).Some? ==> o.0 == Err(CheckKeys(gen, entries, gameName, userName).value)
    ensures CheckKeys(gen, entries, gameName, userName).None? && LookupGame(entries, gameName).Ok? && !KnownKind(click)
      ==> o.0 == Err(BadClickKind)
    ensures CheckKeys(gen, entries, gameName, userName).None? && LookupGame(entries, gameName).Err?
      ==> o.0 == Err(StoreFailed(LookupGame(entries, gameName).error))
    ensures var l := LookupGame(entries, gameName);
      CheckKeys(gen, entries, gameName, userName).None? && l.Ok? && KnownKind(click) && Admit(l.value, clock.start).Ok? ==>
        (LookupConsistent(entries, gameName);
         var moved := Dispatch(Admit(l.value, clock.start).value, click);
         moved.Err? ==> o.0 == Err(Engine(moved.error)))
  {
    match CheckKeys(gen, entries, gameName, userName)
    case Some(e) => (Err(e), entries)
    case None =>
      match LookupGame(entries, gameName)
      case Err(e) => (Err(StoreFailed(e)), entries)
      case Ok(g0) =>
        LookupConsistent(entries, gameName);
        if !KnownKind(click) then (Err(BadClickKind), entries)
        else PlayOutcome(entries, gameName, g0, click, clock, saved)
  }

  /** Click once the game is read and the kind accepted: the status step, the move, the settle step and the save. */
  function PlayOutcome(entries: map<string, Entry>, gameName: string, g0: Game, click: ClickData, clock: Clock, saved: bool)
    : (o: (Result<Game, ServiceError>, map<string, Entry>))
    requires WellFormed(g0)
    ensures o.0.Err? ==> o.1 == entries
    ensures o.0.Ok? ==> saved && o.1 == entries[gameName := GameEntry(o.0.value)]
  {
    match Admit(g0, clock.start)
    case Err(e) => (Err(e), entries)
    case Ok(g1) =>
      match Dispatch(g1, click)
      case Err(e) => (Err(Engine(e)), entries)
      case Ok(g2) =>
        var g3 := Settle(g2, clock.now);
        if saved then (Ok(g3), entries[gameName := GameEntry(g3)]) else (Err(StoreFailed(WriteFailed)), entries)
  }

  /**
   * Click past the status step and the move: the outcome is the settled
   * game saved under its key, or the failed write, and the store stays
   * consistent either way.
   */
  lemma PlayAccepted(entries: map<string, Entry>, gameName: string, g0: Game, click: ClickData, clock: Clock,
                     moved: Game, saved: bool)
    requires Consistent(entries) && WellFormed(g0) && g0.name == gameName
    requires Admit(g0, clock.start).Ok? && Dispatch(Admit(g0, clock.start).value, click) == Ok(moved)
    ensures Shaped(moved)
    ensures var g := Settle(moved, clock.now);
      PlayOutcome(entries, gameName, g0, click, clock, saved)
        == if saved then (Ok(g), entries[gameName := GameEntry(g)]) else (Err(StoreFailed(WriteFailed)), entries)
    ensures Consistent(entries[gameName := GameEntry(Settle(moved, clock.now))])
  {
    var g1 := Admit(g0, clock.start).value;
    SettledWellFormed(g1, click, clock.now);
    SaveKeepsConsistent(entries, GameEntry(Settle(moved, clock.now)));
  }

  /** The game a successful Click stores and returns, step by step from the stored one. */
  ghost predicate ClickSteps(g0: Game, click: ClickData, clock: Clock, g1: Game, g2: Game, g3: Game)
    requires Shaped(g0)
  {
    KnownKind(click) && Admit(g0, clock.start) == Ok(g1) && Shaped(g1) &&
    Dispatch(g1, click) == Ok(g2) && Shaped(g2) && g3 == Settle(g2, clock.now)
  }

  lemma ClickSucceeded(gen: Generation, entries: map<string, Entry>, gameName: string, userName: string,
                       click: ClickData, clock: Clock, saved: bool)
      returns (g0: Game, g1: Game, g2: Game)
    requires Consistent(entries)
    requires ClickOutcome(gen, entries, gameName, userName, click, clock, saved).0.Ok?
    ensures LookupGame(entries, gameName) == Ok(g0) && WellFormed(g0) && g0.name == gameName
    ensures ClickSteps(g0, click, clock, g1, g2, ClickOutcome(gen, entries, gameName, userName, click, clock, saved).0.value)
  {
    g0 := LookupGame(entries, gameName).value;
    LookupConsistent(entries, gameName);
    g1 := Admit(g0, clock.start).value;
    g2 := Dispatch(g1, click).value;
    if click.kind != "click" {
      assert Rules.FlagCell(g1, click.row, click.col).Ok?;
    }
  }

  /** An accepted click on a game that is not finished moves it to in_progress, or further; never back to ready. */
  lemma {:induction false} ClickNeverReady(gen: Generation, entries: map<string, Entry>, gameName: string, userName: string,
                                           click: ClickData, clock: Clock, saved: bool)
    requires Consistent(entries)
    ensures var o := ClickOutcome(gen, entries, gameName, userName, click, clock, saved);
      o.0.Ok? ==> o.0.value.status != Ready
    ensures var o := ClickOutcome(gen, entries, gameName, userName, click, clock, saved);
      o.0.Ok? && LookupGame(entries, gameName).value.status == Ready ==> o.0.value.startedAt == clock.start
  {
    var o := ClickOutcome(gen, entries, gameName, userName, click, clock, saved);
    if o.0.Ok? {
      var g0, g1, g2 := ClickSucceeded(gen, entries, gameName, userName, click, clock, saved);
      DispatchKeepsStart(g1, click);
    }
  }

  /** The engine move keeps the start time, and the status unless a mine goes off. */
  lemma DispatchKeepsStart(g: Game, click: ClickData)
    requires Shaped(g) && Dispatch(g, click).Ok?
    ensures Dispatch(g, click).value.startedAt == g.startedAt
    ensures Dispatch(g, click).value.status == g.status || Dispatch(g, click).value.status == Over
  {
  }

  /** Finished games absorb every click: the reply is an error and nothing is written. */
  lemma {:induction false} FinishedGamesRefuse(gen: Generation, entries: map<string, Entry>, gameName: string, userName: string,
                                               click: ClickData, clock: Clock, saved: bool)
    requires Consistent(entries)
    requires CheckKeys(gen, entries, gameName, userName).None? && LookupGame(entries, gameName).Ok?
    requires KnownKind(click)
    ensures var g := LookupGame(entries, gameName).value;
      var o := ClickOutcome(gen, entries, gameName, userName, click, clock, saved);
      (g.status == Over ==> o == (Err(GameIsOver), entries)) &&
      (g.status == Won ==> o == (Err(GameIsWon), entries))
  {
  }

  /** After a successful click the status is won exactly when the board is a win. */
  lemma {:induction false} ClickWonIffWin(gen: Generation, entries: map<string, Entry>, gameName: string, userName: string,
                                          click: ClickData, clock: Clock, saved: bool)
    requires Consistent(entries)
    requires ClickOutcome(gen, entries, gameName, userName, click, clock, saved).0.Ok?
    ensures var g := ClickOutcome(gen, entries, gameName, userName, click, clock, saved).0.value;
      Shaped(g) && IsRect(g.board) && (g.status == Won <==> IsWin(g.board))
  {
    var g0, g1, g2 := ClickSucceeded(gen, entries, gameName, userName, click, clock, saved);
    DispatchKeepsStart(g1, click);
    ShapedBoard(g2);
  }

  /** Click keeps the store consistent: the saved game is well formed and sits under its own name. */
  lemma {:induction false} ClickKeepsConsistent(gen: Generation, entries: map<string, Entry>, gameName: string, userName: string,
                                                click: ClickData, clock: Clock, saved: bool)
    requires Consistent(entries)
    ensures Consistent(ClickOutcome(gen, entries, gameName, userName, click, clock, saved).1)
  {
    var o := ClickOutcome(gen, entries, gameName, userName, click, clock, saved);
    if o.0.Ok? {
      var g0, g1, g2 := ClickSucceeded(gen, entries, gameName, userName, click, clock, saved);
      SettledWellFormed(g1, click, clock.now);
      SaveKeepsConsistent(entries, GameEntry(o.0.value));
    }
  }

  /** The move and the settle step keep a started game well formed. */
  lemma SettledWellFormed(g1: Game, click: ClickData, now: Time)
    requires WellFormed(g1) && g1.status == InProgress && Dispatch(g1, click).Ok?
    ensures WellFormed(Settle(Dispatch(g1, click).value, now))
  {
    var g2 := Dispatch(g1, click).value;
    if click.kind == "click" {
      Rules.ClickKeepsWellFormed(g1, click.row, click.col);
    } else if click.kind == "flag" {
      Rules.FlagKeepsMines(g1, click.row, click.col);
    }
    var g3 := Settle(g2, now);
    ShapedBoard(g2);
    if g3.status == Won {
      forall i, j | 0 <= i < g3.rows && 0 <= j < g3.cols
        ensures g3.board[i][j] != 'X'
      {
        assert !BlocksWin(g3.board[i][j]);
      }
    }
  }

  /** A click, like a flag, moves no mine: the stored count of 'M', 'm' and 'X' cells is what it was. */
  lemma {:induction false} ClickKeepsMineCount(gen: Generation, entries: map<string, Entry>, gameName: string, userName: string,
                                               click: ClickData, clock: Clock, saved: bool)
    requires Consistent(entries)
    requires ClickOutcome(gen, entries, gameName, userName, click, clock, saved).0.Ok?
    ensures var g := ClickOutcome(gen, entries, gameName, userName, click, clock, saved).0.value;
      CountIn(g.board, MineCodes) == CountIn(LookupGame(entries, gameName).value.board, MineCodes)
  {
    var g0, g1, g2 := ClickSucceeded(gen, entries, gameName, userName, click, clock, saved);
    if click.kind == "click" {
      Rules.ClickKeepsMines(g1, click.row, click.col);
    } else {
      Rules.FlagKeepsMines(g1, click.row, click.col);
    }
  }

  /** A click on a veiled mine of a game in play ends it: the game is stored as over, never won. */
  lemma {:induction false} MineHitEndsGame(gen: Generation, entries: map<string, Entry>, gameName: string, userName: string,
                                           click: ClickData, clock: Clock)
    requires Consistent(entries)
    requires gameName in entries && userName in entries && entries[gameName].GameEntry?
    requires var g := entries[gameName].game;
      (g.status == Ready || g.status == InProgress) && InGame(g, click.row, click.col) &&
      click.kind == "click" && g.board[click.row][click.col] == 'M'
    ensures var o := ClickOutcome(gen, entries, gameName, userName, click, clock, true);
      o.0.Ok? && o.0.value.status == Over && o.1 == entries[gameName := GameEntry(o.0.value)]
  {
    var g0 := entries[gameName].game;
    LookupConsistent(entries, gameName);
    var g1 := Admit(g0, clock.start).value;
    Rules.MineHitIsNeverWin(g1, click.row, click.col);
  }

  // ---- Board ----

  /** Each cell of the board as a one-character string, row by row. */
  function Project(b: Grid): (p: seq<seq<string>>)
    ensures |p| == |b|
    ensures forall i :: 0 <= i < |b| ==> |p[i]| == |b[i]|
    ensures forall i, j :: 0 <= i < |b| && 0 <= j < |b[i]| ==> p[i][j] == [b[i][j]]
  {
    seq(|b|, i requires 0 <= i < |b| => seq(|b[i]|, j requires 0 <= j < |b[i]| => [b[i][j]]))
  }

  /** The projection loses nothing: the board can be read back from it. */
  lemma ProjectLossless(b1: Grid, b2: Grid)
    requires Project(b1) == Project(b2)
    ensures b1 == b2
  {
    assert |b1| == |b2|;
    forall i | 0 <= i < |b1| ensures b1[i] == b2[i] {
      assert |b1[i]| == |Project(b1)[i]| == |b2[i]|;
      forall j | 0 <= j < |b1[i]| ensures b1[i][j] == b2[i][j] {
        assert [b1[i][j]] == Project(b1)[i][j] == [b2[i][j]];
      }
    }
  }

  /**
   * Board: the same existence checks as Click, the game read, an error for
   * a game without a board, and otherwise the projected board.
   */
  function BoardOutcome(gen: Generation, entries: map<string, Entry>, gameName: string, userName: string)
    : (r: Result<seq<seq<string>>, ServiceError>)
    ensures CheckKeys(gen, entries, gameName, userName).Some? ==> r == Err(CheckKeys(gen, entries, gameName, userName).value)
    ensures r.Ok? <==>
      CheckKeys(gen, entries, gameName, userName).None? && LookupGame(entries, gameName).Ok? &&
      |LookupGame(entries, gameName).value.board| > 0
    ensures r.Ok? ==> r.value == Project(entries[gameName].game.board)
    ensures CheckKeys(gen, entries, gameName, userName).None? && LookupGame(entries, gameName).Err?
      ==> r == Err(StoreFailed(LookupGame(entries, gameName).error))
    ensures (CheckKeys(gen, entries, gameName, userName).None? && LookupGame(entries, gameName).Ok? &&
             |LookupGame(entries, gameName).value.board| == 0) ==> r == Err(NoBoard)
  {
    match CheckKeys(gen, entries, gameName, userName)
    case Some(e) => Err(e)
    case None =>
      match LookupGame(entries, gameName)
      case Err(e) => Err(StoreFailed(e))
      case Ok(g) => if |g.board| == 0 then Err(NoBoard) else Ok(Project(g.board))
  }

  /**
   * The projection as written: the result slice is made with length
   * len(data) and capacity len(data[0]), which the runtime refuses (a panic,
   * here None) when the board has more rows than columns.
   */
  function ProjectAsWritten(b: Grid): (r: Option<seq<seq<string>>>)
    requires |b| > 0
    ensures r.None? <==> |b| > |b[0]|
    ensures r.Some? ==> r.value == Project(b)
  {
    if |b| > |b[0]| then None else Some(Project(b))
  }

  /**
   * A game of 3 rows and 2 columns is one CreateGame accepts and saves, yet
   * the projection as written fails on its board, where Board projects it.
   */
  lemma BoardPanicsOnTallGames(entries: map<string, Entry>, req: Game, now: Time, draws: seq<(nat, nat)>)
    requires req.username in entries && req.name != "" && req.rows == 3 && req.cols == 2
    ensures var o := CreateGameOutcome(entries, req, now, "", draws, true);
      o.0.Ok? && o.0.value.rows == 3 && o.0.value.cols == 2 &&
      ProjectAsWritten(o.0.value.board).None? &&
      BoardOutcome(Current, o.1, req.name, req.username).Ok? &&
      |BoardOutcome(Current, o.1, req.name, req.username).value| == 3
  {
    var o := CreateGameOutcome(entries, req, now, "", draws, true);
    var b := o.0.value.board;
    assert |b| == 3 && |b[0]| == 2;
    assert o.1[req.name] == GameEntry(o.0.value);
  }
}
