/**
 * Checking a player's guess against a clue: a case-insensitive exact
 * comparison; a correct guess marks the clue solved and writes its answer
 * into the grid.
 */
module Answers {
  import opened CrosswordTypes
  import opened CStrings
  import opened Grid

  /** The guess equals the stored answer once both are upper-cased. */
  function Matches(answer: string, guess: string): (b: bool)
    ensures b ==> |answer| == |guess|
  {
    Upper(answer) == Upper(guess)
  }

  /** A guess matches exactly when it has the answer's length and agrees with it letter by letter up to case. */
  lemma MatchesCharwise(answer: string, guess: string)
    ensures Matches(answer, guess) <==>
      |answer| == |guess| && forall i :: 0 <= i < |answer| ==> ToUpper(answer[i]) == ToUpper(guess[i])
  {
    UpperShape(answer);
    UpperShape(guess);
    if |answer| == |guess| && forall i :: 0 <= i < |answer| ==> ToUpper(answer[i]) == ToUpper(guess[i]) {
      assert forall i :: 0 <= i < |answer| ==> Upper(answer)[i] == Upper(guess)[i];
    }
  }

  /** Matching ignores case in the guess: every casing of an upper-case answer matches it. */
  lemma MatchesAnyCasing(answer: string, guess: string)
    requires IsUpper(answer)
    ensures Matches(answer, guess) <==> Upper(guess) == answer
  {
    UpperOfUpper(answer);
  }

  /** "paris", "Paris" and "pArIs" all match the answer "PARIS"; "PARI" does not. */
  lemma ParisMatches()
    ensures Matches("PARIS", "paris") && Matches("PARIS", "Paris") && Matches("PARIS", "pArIs")
    ensures !Matches("PARIS", "PARI")
  {
    MatchesCharwise("PARIS", "paris");
    MatchesCharwise("PARIS", "Paris");
    MatchesCharwise("PARIS", "pArIs");
    MatchesCharwise("PARIS", "PARI");
  }

  /** A solved across clue "PARIS" at (0, 0) shows P, A, R, I, S in cells (0, 0) .. (0, 4). */
  lemma ParisFilled(g: seq<seq<char>>)
    requires IsGrid(g)
    ensures var p := Paint(g, 0, 0, ACROSS, Upper("PARIS"));
      p[0][0] == 'P' && p[0][1] == 'A' && p[0][2] == 'R' && p[0][3] == 'I' && p[0][4] == 'S'
  {
    UpperOfUpper("PARIS");
  }

  /** Filling a fitting clue writes the upper-case form of its k-th answer letter into the k-th cell of its span. */
  lemma FilledLetters(g: seq<seq<char>>, c: Clue, k: nat)
    requires IsGrid(g) && SpanFits(c.row, c.col, c.direction, |c.answer|) && k < |c.answer|
    ensures var cell := SpanCell(c.row, c.col, c.direction, k);
      0 <= cell.0 < GRID_SIZE && 0 <= cell.1 < GRID_SIZE &&
      Paint(g, c.row, c.col, c.direction, Upper(c.answer))[cell.0][cell.1] == ToUpper(c.answer[k])
  {
    UpperShape(c.answer);
    SpanInGrid(c.row, c.col, c.direction, |c.answer|, k);
    PaintOnSpan(g, c.row, c.col, c.direction, Upper(c.answer), k);
  }

  /** A clue whose answer fits its buffer and whose span fits the grid. */
  predicate WellFormed(c: Clue) {
    FitsBuffer(c.answer, MAX_WORD_LENGTH) && SpanFits(c.row, c.col, c.direction, |c.answer|)
  }

  /**
   * Compare the guess with clue `k`'s answer, both upper-cased. On a match
   * mark the clue solved, fill its answer into the grid and return 1;
   * otherwise change nothing and return 0. Whether the clue was already
   * solved is not looked at.
   */
  method CheckAnswer(grid: array2<char>, clues: array<Clue>, k: int, userAnswer: string) returns (result: int)
    requires IsGridArray(grid) && 0 <= k < clues.Length
    requires WellFormed(clues[k]) && FitsBuffer(userAnswer, MAX_WORD_LENGTH)
    modifies grid, clues
    ensures result == if Matches(old(clues[k]).answer, userAnswer) then 1 else 0
    ensures clues[..] == if result == 1 then old(clues[..])[k := old(clues[k]).(solved := true)] else old(clues[..])
    ensures Cells(grid) ==
      if result == 1
      then Paint(old(Cells(grid)), old(clues[k]).row, old(clues[k]).col, old(clues[k]).direction, Upper(old(clues[k]).answer))
      else old(Cells(grid))
  {
    var upperAnswer := UpperCase(clues[k].answer);
    var upperUser := UpperCase(userAnswer);
    if StrCmp(upperAnswer, upperUser) == 0 {
      clues[k] := clues[k].(solved := true);
      FillAnswer(grid, clues[k]);
      return 1;
    }
    return 0;
  }
}
