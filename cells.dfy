/**
 * The one-byte cell codes of a Minesweeper board.
 *
 *   'E' veiled empty      'M' veiled mine
 *   'e' flagged empty     'm' flagged mine
 *   'B' revealed blank    '1'..'8' revealed, number of adjacent mines
 *   'X' the detonated mine that ended the game
 */
module Cells {

  /** What the neighbour count of the reveal looks for. */
  predicate IsMine(ch: char) {
    ch == 'M' || ch == 'm'
  }

  /** What the flood fill recurses into: veiled empty cells, flagged or not. */
  predicate IsVeiledEmpty(ch: char) {
    ch == 'E' || ch == 'e'
  }

  predicate IsFlagged(ch: char) {
    ch == 'e' || ch == 'm'
  }

  predicate IsVeiled(ch: char) {
    ch == 'E' || ch == 'M' || ch == 'e' || ch == 'm'
  }

  /** A cell that holds a mine, whether veiled, flagged or detonated. */
  predicate HoldsMine(ch: char) {
    ch == 'M' || ch == 'm' || ch == 'X'
  }

  /** A cell that keeps the game from being won. */
  predicate BlocksWin(ch: char) {
    ch == 'E' || ch == 'e' || ch == 'X'
  }

  /** The digit written on a revealed cell with `k` adjacent mines: byte(k + 48). */
  function Digit(k: int): (ch: char)
    requires 1 <= k <= 8
    ensures '1' <= ch <= '8'
    ensures ch as int - '0' as int == k
  {
    (k + 48) as char
  }

  /** unicode.ToLower and unicode.ToUpper, restricted to ASCII letters (all the engine applies them to). */
  function ToLower(ch: char): char {
    if 'A' <= ch <= 'Z' then (ch as int + 32) as char else ch
  }

  function ToUpper(ch: char): char {
    if 'a' <= ch <= 'z' then (ch as int - 32) as char else ch
  }

  /**
   * Flag toggle: a veiled cell keeps whether it hides a mine and flips whether
   * it is flagged; a revealed cell is left as it is.
   */
  function ToggleFlag(ch: char): (r: char)
    ensures IsVeiled(ch) <==> IsVeiled(r)
    ensures IsVeiled(ch) ==> (IsFlagged(r) <==> !IsFlagged(ch)) && (HoldsMine(r) <==> HoldsMine(ch))
    ensures !IsVeiled(ch) ==> r == ch
  {
    if ch == 'M' || ch == 'E' then ToLower(ch)
    else if ch == 'm' || ch == 'e' then ToUpper(ch)
    else ch
  }
}
