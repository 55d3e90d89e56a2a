/**
 * The record shapes and size bounds of the crossword engine.
 *
 * A C character buffer of capacity `cap` holds at most `cap - 1` characters
 * followed by a NUL terminator; a Dafny `string` here is the content before
 * the terminator, so it has no NUL in it.
 */
module CrosswordTypes {

  /** Side of the square letter grid. */
  const GRID_SIZE: nat := 10
  /** Capacity of the clue array. */
  const MAX_CLUES: nat := 20
  /** Buffer size of a clue's text. */
  const MAX_CLUE_LENGTH: nat := 100
  /** Buffer size of an answer (and of a player's typed guess). */
  const MAX_WORD_LENGTH: nat := 15
  /** Buffer size of a player's name (in the player record and in a ledger node). */
  const MAX_NAME_LENGTH: nat := 50

  /** The direction code of an across clue; every other code is read as down. */
  const ACROSS: char := 'A'
  /** The direction code of a down clue. */
  const DOWN: char := 'D'

  /** `s` is the content of a NUL-terminated buffer of `cap` characters. */
  predicate FitsBuffer(s: string, cap: nat) {
    |s| < cap && forall i :: 0 <= i < |s| ==> s[i] != '\0'
  }

  /** `s` is the content of a NUL-terminated string of any length. */
  predicate IsCString(s: string) {
    forall i :: 0 <= i < |s| ==> s[i] != '\0'
  }

  /**
   * One clue: its text, its answer, the grid origin of the answer,
   * its direction code, the number it is listed under and whether
   * it has been solved.
   */
  datatype Clue = Clue(
    text: string,
    answer: string,
    row: int,
    col: int,
    direction: char,
    number: int,
    solved: bool)

  /** A player as the session keeps it. */
  datatype Player = Player(name: string, score: int, wordsCorrect: int)

  /** The record a ledger node carries. */
  datatype ScoreRecord = ScoreRecord(playerName: string, score: int, wordsCorrect: int)

  /**
   * A node of the score ledger, or the null pointer: a record and two children,
   * with no parent link and no balance information.
   */
  datatype ScoreNode =
    | Nil
    | Node(rec: ScoreRecord, left: ScoreNode, right: ScoreNode)

  /** A clue's direction code means across. */
  predicate IsAcross(direction: char) {
    direction == ACROSS
  }
}
