/**
 * The records the engine and the service exchange: a game as the store keeps
 * it, a user, a click request. These mirror the Go structs field by field.
 */
module Domain {
  import opened Grids

  /** An opaque clock reading; a duration is the difference of two readings. */
  type Time = int

  /** Game status; the Go code keeps it as a string. */
  datatype Status = Ready | InProgress | Over | Won

  function StatusText(s: Status): string {
    match s
    case Ready => "ready"
    case InProgress => "in_progress"
    case Over => "over"
    case Won => "won"
  }

  datatype Game = Game(
    name: string,
    username: string,
    rows: int,
    cols: int,
    mines: int,
    status: Status,
    board: Grid,
    clicks: int,
    createdAt: Time,
    startedAt: Time,
    timeSpent: int)

  datatype User = User(username: string, createdAt: Time)

  datatype ClickData = ClickData(row: int, col: int, kind: string)

  /** The two generations of the code base, which differ in error texts and a few checks. */
  datatype Generation = Current | Legacy

  /** The board has exactly `rows` rows of `cols` cells. */
  predicate Shaped(g: Game) {
    0 <= g.rows && 0 <= g.cols && |g.board| == g.rows &&
    forall i :: 0 <= i < |g.board| ==> |g.board[i]| == g.cols
  }

  /** The bounds test of clickCell and flagCell, against the Rows and Cols fields. */
  predicate InGame(g: Game, i: int, j: int) {
    0 <= i < g.rows && 0 <= j < g.cols
  }

  /** Shaped, and a detonated mine only on a game that is over. */
  predicate WellFormed(g: Game) {
    Shaped(g) &&
    forall i, j :: 0 <= i < g.rows && 0 <= j < g.cols && g.board[i][j] == 'X' ==> g.status == Over
  }

  lemma ShapedBoard(g: Game)
    requires Shaped(g)
    ensures IsRect(g.board)
    ensures forall i, j :: InGame(g, i, j) <==> InBounds(g.board, i, j)
  {
  }
}
