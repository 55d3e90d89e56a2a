/**
 * The GRID_SIZE x GRID_SIZE character grid: blank cells '.', placeholder
 * cells '_' of unsolved answers, and the upper-case letters of solved ones.
 *
 * The grid is an `array2<char>` written in place; its value at a moment is
 * the nested sequence `Cells(grid)`, and both writers of an answer span
 * (placing a word and filling a solved answer) are specified by `Paint`.
 */
module Grid {
  import opened CrosswordTypes
  import opened CStrings

  const BLANK: char := '.'
  const PLACEHOLDER: char := '_'

  /** A grid value: GRID_SIZE rows of GRID_SIZE cells. */
  predicate IsGrid(g: seq<seq<char>>) {
    |g| == GRID_SIZE && forall i :: 0 <= i < |g| ==> |g[i]| == GRID_SIZE
  }

  /** The grid buffer has the declared shape. */
  predicate IsGridArray(a: array2<char>) {
    a.Length0 == GRID_SIZE && a.Length1 == GRID_SIZE
  }

  /** The current value of a grid buffer. */
  ghost function Cells(a: array2<char>): (g: seq<seq<char>>)
    requires IsGridArray(a)
    reads a
    ensures IsGrid(g)
    ensures forall i, j :: 0 <= i < GRID_SIZE && 0 <= j < GRID_SIZE ==> g[i][j] == a[i, j]
  {
    seq(GRID_SIZE, i requires 0 <= i < GRID_SIZE reads a =>
      seq(GRID_SIZE, j requires 0 <= j < GRID_SIZE reads a => a[i, j]))
  }

  /** The grid in which every cell is blank. */
  function EmptyGrid(): (g: seq<seq<char>>)
    ensures IsGrid(g)
  {
    seq(GRID_SIZE, _ => seq(GRID_SIZE, _ => BLANK))
  }

  /**
   * Cell (i, j) lies on the span of `len` cells from (row, col): along the
   * row for an across code, down the column for any other code.
   */
  predicate InSpan(row: int, col: int, direction: char, len: nat, i: int, j: int) {
    if IsAcross(direction) then i == row && col <= j < col + len
    else j == col && row <= i < row + len
  }

  /** The position of cell (i, j) along a span that starts at (row, col). */
  function Offset(row: int, col: int, direction: char, i: int, j: int): int {
    if IsAcross(direction) then j - col else i - row
  }

  /** The k-th cell of a span that starts at (row, col). */
  function SpanCell(row: int, col: int, direction: char, k: nat): (int, int) {
    if IsAcross(direction) then (row, col + k) else (row + k, col)
  }

  /** A span of `len` cells lies wholly inside the grid (a span of no cell always does). */
  predicate SpanFits(row: int, col: int, direction: char, len: nat) {
    len == 0 ||
    if IsAcross(direction) then 0 <= row < GRID_SIZE && 0 <= col && col + len <= GRID_SIZE
    else 0 <= col < GRID_SIZE && 0 <= row && row + len <= GRID_SIZE
  }

  /** The letter painting puts in cell (i, j), or the cell's old content off the span. */
  function PaintedCell(g: seq<seq<char>>, row: int, col: int, direction: char, letters: seq<char>, i: int, j: int): char
    requires IsGrid(g) && 0 <= i < GRID_SIZE && 0 <= j < GRID_SIZE
  {
    if InSpan(row, col, direction, |letters|, i, j)
    then letters[Offset(row, col, direction, i, j)]
    else g[i][j]
  }

  /**
   * `g` with the span from (row, col) overwritten by `letters`, the k-th
   * letter going to the k-th cell; every other cell is kept.
   */
  function Paint(g: seq<seq<char>>, row: int, col: int, direction: char, letters: seq<char>): (p: seq<seq<char>>)
    requires IsGrid(g)
    ensures IsGrid(p)
    ensures forall i, j :: 0 <= i < GRID_SIZE && 0 <= j < GRID_SIZE ==>
      p[i][j] == PaintedCell(g, row, col, direction, letters, i, j)
  {
    seq(GRID_SIZE, i requires 0 <= i < GRID_SIZE =>
      seq(GRID_SIZE, j requires 0 <= j < GRID_SIZE => PaintedCell(g, row, col, direction, letters, i, j)))
  }

  /** `n` placeholder marks. */
  function Placeholders(n: nat): (s: seq<char>)
    ensures |s| == n && forall k :: 0 <= k < n ==> s[k] == PLACEHOLDER
  {
    seq(n, _ => PLACEHOLDER)
  }

  /** The cells a span covers are exactly its `len` cells SpanCell(0) .. SpanCell(len - 1). */
  lemma SpanCells(row: int, col: int, direction: char, len: nat, i: int, j: int)
    ensures InSpan(row, col, direction, len, i, j) <==>
            exists k :: 0 <= k < len && SpanCell(row, col, direction, k) == (i, j)
  {
    if InSpan(row, col, direction, len, i, j) {
      var k := Offset(row, col, direction, i, j);
      assert SpanCell(row, col, direction, k) == (i, j);
    }
  }

  /** A fitting span covers only cells of the grid. */
  lemma SpanInGrid(row: int, col: int, direction: char, len: nat, k: nat)
    requires SpanFits(row, col, direction, len) && k < len
    ensures 0 <= SpanCell(row, col, direction, k).0 < GRID_SIZE
    ensures 0 <= SpanCell(row, col, direction, k).1 < GRID_SIZE
  {
  }

  /** Painting writes the k-th letter into the k-th cell of the span. */
  lemma PaintOnSpan(g: seq<seq<char>>, row: int, col: int, direction: char, letters: seq<char>, k: nat)
    requires IsGrid(g) && SpanFits(row, col, direction, |letters|) && k < |letters|
    ensures Paint(g, row, col, direction, letters)[SpanCell(row, col, direction, k).0][SpanCell(row, col, direction, k).1]
            == letters[k]
  {
  }

  /** Painting keeps every cell off the span. */
  lemma PaintOffSpan(g: seq<seq<char>>, row: int, col: int, direction: char, letters: seq<char>, i: int, j: int)
    requires IsGrid(g) && 0 <= i < GRID_SIZE && 0 <= j < GRID_SIZE
    requires !InSpan(row, col, direction, |letters|, i, j)
    ensures Paint(g, row, col, direction, letters)[i][j] == g[i][j]
  {
  }

  /** Painting the same span twice with the same letters is painting it once. */
  lemma PaintIdempotent(g: seq<seq<char>>, row: int, col: int, direction: char, letters: seq<char>)
    requires IsGrid(g)
    ensures Paint(Paint(g, row, col, direction, letters), row, col, direction, letters)
            == Paint(g, row, col, direction, letters)
  {
    var once := Paint(g, row, col, direction, letters);
    var twice := Paint(once, row, col, direction, letters);
    forall i | 0 <= i < GRID_SIZE
      ensures twice[i] == once[i]
    {
    }
  }

  /** A second painting of a span with as many letters hides the first entirely. */
  lemma PaintOverwrites(g: seq<seq<char>>, row: int, col: int, direction: char, first: seq<char>, second: seq<char>)
    requires IsGrid(g) && |first| == |second|
    ensures Paint(Paint(g, row, col, direction, first), row, col, direction, second)
            == Paint(g, row, col, direction, second)
  {
    var direct := Paint(g, row, col, direction, second);
    var twice := Paint(Paint(g, row, col, direction, first), row, col, direction, second);
    forall i | 0 <= i < GRID_SIZE
      ensures twice[i] == direct[i]
    {
    }
  }

  /** Every cell of the empty grid is blank. */
  lemma EmptyGridBlank(i: int, j: int)
    requires 0 <= i < GRID_SIZE && 0 <= j < GRID_SIZE
    ensures EmptyGrid()[i][j] == BLANK
  {
  }

  /** A buffer whose every cell agrees with `g` has the value `g`. */
  lemma CellsExt(a: array2<char>, g: seq<seq<char>>)
    requires IsGridArray(a) && IsGrid(g)
    requires forall i, j :: 0 <= i < GRID_SIZE && 0 <= j < GRID_SIZE ==> a[i, j] == g[i][j]
    ensures Cells(a) == g
  {
    var c := Cells(a);
    forall i | 0 <= i < GRID_SIZE
      ensures c[i] == g[i]
    {
    }
  }

  /** Fill every cell of the grid with the blank mark, row by row. */
  method InitializeGrid(grid: array2<char>)
    requires IsGridArray(grid)
    modifies grid
    ensures forall i, j :: 0 <= i < GRID_SIZE && 0 <= j < GRID_SIZE ==> grid[i, j] == BLANK
    ensures Cells(grid) == EmptyGrid()
  {
    for i := 0 to GRID_SIZE
      invariant forall a, b :: 0 <= a < i && 0 <= b < GRID_SIZE ==> grid[a, b] == BLANK
    {
      for j := 0 to GRID_SIZE
        invariant forall a, b :: 0 <= a < i && 0 <= b < GRID_SIZE ==> grid[a, b] == BLANK
        invariant forall b :: 0 <= b < j ==> grid[i, b] == BLANK
      {
        grid[i, j] := BLANK;
      }
    }
    CellsExt(grid, EmptyGrid());
  }

  /**
   * Mark the span of `word` from (row, col) with placeholders: along the row
   * for an across code, down the column for any other. Nothing is checked;
   * the span must fit.
   */
  method PlaceWord(grid: array2<char>, word: string, row: int, col: int, direction: char)
    requires IsGridArray(grid) && IsCString(word)
    requires SpanFits(row, col, direction, |word|)
    modifies grid
    ensures Cells(grid) == Paint(old(Cells(grid)), row, col, direction, Placeholders(|word|))
  {
    ghost var g0 := Cells(grid);
    var len := |word|;
    ghost var marks := Placeholders(len);
    if direction == ACROSS {
      for i := 0 to len
        invariant forall a, b :: 0 <= a < GRID_SIZE && 0 <= b < GRID_SIZE ==>
          grid[a, b] == if InSpan(row, col, direction, i, a, b) then PLACEHOLDER else g0[a][b]
      {
        grid[row, col + i] := PLACEHOLDER;
      }
    } else {
      for i := 0 to len
        invariant forall a, b :: 0 <= a < GRID_SIZE && 0 <= b < GRID_SIZE ==>
          grid[a, b] == if InSpan(row, col, direction, i, a, b) then PLACEHOLDER else g0[a][b]
      {
        grid[row + i, col] := PLACEHOLDER;
      }
    }
    CellsExt(grid, Paint(g0, row, col, direction, marks));
  }

  /**
   * Write the upper-case letters of `clue`'s answer along its span. Nothing
   * is checked; the span must fit.
   */
  method FillAnswer(grid: array2<char>, clue: Clue)
    requires IsGridArray(grid) && IsCString(clue.answer)
    requires SpanFits(clue.row, clue.col, clue.direction, |clue.answer|)
    modifies grid
    ensures Cells(grid) == Paint(old(Cells(grid)), clue.row, clue.col, clue.direction, Upper(clue.answer))
  {
    ghost var g0 := Cells(grid);
    var answer, row, col, direction := clue.answer, clue.row, clue.col, clue.direction;
    ghost var letters := Upper(answer);
    UpperShape(answer);
    var len := |answer|;
    if direction == ACROSS {
      for i := 0 to len
        invariant forall a, b :: 0 <= a < GRID_SIZE && 0 <= b < GRID_SIZE ==>
          grid[a, b] == if InSpan(row, col, direction, i, a, b) then letters[b - col] else g0[a][b]
      {
        grid[row, col + i] := ToUpper(answer[i]);
      }
    } else {
      for i := 0 to len
        invariant forall a, b :: 0 <= a < GRID_SIZE && 0 <= b < GRID_SIZE ==>
          grid[a, b] == if InSpan(row, col, direction, i, a, b) then letters[a - row] else g0[a][b]
      {
        grid[row + i, col] := ToUpper(answer[i]);
      }
    }
    CellsExt(grid, Paint(g0, row, col, direction, letters));
  }
}
