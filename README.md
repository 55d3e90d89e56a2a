# Crossword engine — a verified Dafny model

This project models the engine of a console crossword game, `crossword.c` and the
declarations of `crossword.h`. The engine has two independent parts.

- **The puzzle board.** It is a 10 × 10 character grid together with a bounded,
  insertion-ordered array of clues.
  - `initializeGrid` blanks the grid.
  - `placeWord` marks an answer's span with placeholders.
  - `addClue` appends a clue and checks capacity.
  - `deleteClue` removes the first clue with a given number and closes the gap.
  - `checkAnswer` compares a guess with the answer case-insensitively. On a match it marks
    the clue solved, and `fillAnswer` writes the upper-case answer into the grid.
- **The score ledger.** It is an unbalanced binary search tree of
  (name, score, words correct) records ordered by score, with equal scores going right.
  - It is built by `insertScore`.
  - `inorderTraversal` walks it in ascending order; `reverseInorderTraversal` walks it
    highest first, which gives the leaderboard.
  - `deleteScore` searches by player name with `strcmp`, even though the tree is ordered
    by score.

The model follows the source's own form.

- **Grid and clue operations** are imperative Dafny.
  - The grid is an `array2<char>` written in place by loops, viewed as a nested sequence
    (`Cells`). `PlaceWord` and `FillAnswer` are proved against the value function `Paint`,
    which defines what painting a span does to the grid. `InitializeGrid` is proved against
    `EmptyGrid`.
  - The clue table is an `array<Clue>` with a separate count. `*clueCount` is passed by
    pointer in C, so here the operations return the new count. They are proved against
    `Added` and `Removed` on the sequence of used slots.
  - `checkAnswer` receives `&clues[k]`, which is modelled as the array and the index `k`.
- **Ledger operations** recurse over the tree and return the new root. They are modelled
  as functions on the inductive datatype `ScoreNode`.
  - The two traversals return the sequence of records they visit instead of printing them.
  - The main properties are:
    - insertion keeps the ordering and adds exactly one record;
    - the in-order walk of a ledger built by insertion is a stable sort by score, against an
      independent insertion-sort reference;
    - the leaderboard is that sort reversed.
  - `deleteScore` is modelled as written, name search included. The lemmas show two things:
    - what it does keep: the ordering, the node count within one, and no new records;
    - which records leave when the search stops at a node with at most one child
      (`DeleteFoundSplice`), and when it stops at a node with two children and the second
      search, for the successor's name, stops at a node with at most one child
      (`DeleteFoundCopyUp`);
    - two concrete trees on which it misbehaves. `DeleteMissesPresentName` shows a present
      name that is not found. `DeleteCanDuplicate` shows a copied-up record that ends up in
      the tree twice.
  - `deleteScore` is never called by the game's driver, `main.c`.

Modules: `CrosswordTypes` (the header's records and bounds), `CStrings` (`toupper`,
`strcmp`), `Grid`, `Clues`, `Answers` and `ScoreLedger`.

## Model

| member | source | states |
|---|---|---|
| CStrings.ToUpper | crossword.c:117-122 | a–z go to the matching A–Z (code minus 32); every other character is unchanged |
| CStrings.Upper | crossword.c:117-122 | the upper-casing of a string, character by character through ToUpper; it keeps the length |
| CStrings.UpperShape | crossword.c:117-122 | upper-casing keeps the length, leaves no lower-case letter, and maps each character through ToUpper |
| CStrings.UpperIdempotent | crossword.c:117-122 | upper-casing twice is the same as upper-casing once |
| CStrings.UpperOfUpper | crossword.c:117-124 | a string with no lower-case letter is its own upper-casing |
| CStrings.UpperKeepsNoNul | crossword.c:117-122 | upper-casing does not introduce a terminator, so the copy is still a C string of the same length |
| CStrings.UpperCase | crossword.c:117-122 | the in-place buffer loop yields exactly Upper(s) |
| CStrings.StrCmp | crossword.c:124 | strcmp is 0 exactly when the strings are equal; the result is a sign, -1, 0 or 1 |
| Grid.Paint | crossword.c:133-144 | painting writes letter k into span cell k, along the row for 'A' and down the column otherwise; every other cell keeps its old content |
| Grid.Placeholders | crossword.c:38-43 | placeWord writes len(word) placeholder marks '_' |
| Grid.SpanCells | crossword.c:36-45 | the cells a span covers are exactly (row, col+k) across, or (row+k, col) for any other code, for k < len |
| Grid.SpanInGrid | crossword.c:35-46 | every cell of a span that fits lies inside the GRID_SIZE × GRID_SIZE grid |
| Grid.PaintOnSpan | crossword.c:136-142 | after painting, the k-th span cell holds the k-th letter |
| Grid.PaintOffSpan | crossword.c:133-144 | painting leaves every cell off the span unchanged |
| Grid.PaintIdempotent | crossword.c:133-144 | filling the same answer twice gives the same grid as filling it once |
| Grid.PaintOverwrites | crossword.c:35-46 | a second painting of a span with the same length hides the first (a filled answer replaces the placeholders) |
| Grid.EmptyGridBlank | crossword.c:8-14 | every cell of the initial grid is '.' |
| Grid.InitializeGrid | crossword.c:8-14 | after the nested loops every one of the 10 × 10 cells is '.'; the grid equals EmptyGrid() |
| Grid.PlaceWord | crossword.c:35-46 | the new grid is the old one with exactly the len(word) span cells set to '_' and all others unchanged |
| Grid.FillAnswer | crossword.c:133-144 | the new grid is the old one with span cell i set to toupper(answer[i]) and all others unchanged |
| Clues.NewClue | crossword.c:55-61 | the stored clue carries the given text, answer, origin, direction and number, and is unsolved |
| Clues.FindFirst | crossword.c:88-93 | the index of the first clue with the number (no earlier one matches), or -1 exactly when none matches |
| Clues.FindClue | crossword.c:88-93 | the search loop with break returns FindFirst of the used slots |
| Clues.AddClue | crossword.c:49-63 | with count >= MAX_CLUES nothing changes; otherwise slot count gets the new unsolved clue, the count grows by one, and every other slot is unchanged |
| Clues.Added | crossword.c:49-63 | the used slots after an append: never past MAX_CLUES when they were within it, at most one longer, and the earlier clues kept as a prefix |
| Clues.AddedShape | crossword.c:50-62 | appending to a full table changes nothing; otherwise the clue goes last and the earlier clues stay in place |
| Clues.AddAllInOrder | crossword.c:49-63 | appends within capacity keep every clue, in insertion order |
| Clues.AddAllBounded | crossword.c:50-53 | however many appends are made, the table never exceeds MAX_CLUES and the clues already present are never disturbed |
| Clues.DeleteClue | crossword.c:86-106 | the used slots become Removed(old slots, number), so the count drops by one exactly when the number is listed; slots from the new count on keep their old content |
| Clues.Removed | crossword.c:86-106 | the used slots after a delete: the same or one shorter, and unchanged exactly when no clue carries the number |
| Clues.RemovedAbsent | crossword.c:95-98 | deleting a number that no clue carries changes nothing |
| Clues.RemovedShape | crossword.c:100-104 | deleting a listed number drops the count by one; clues before the first match stay, and later ones move down one slot |
| Clues.RemovedOne | crossword.c:86-106 | deleting a listed number takes exactly one clue with that number out of the collection |
| Clues.InDirection | crossword.c:66-83 | the clues listed under one direction all have that direction, are drawn from the table, and are no more than the table holds; order and completeness are stated by InDirectionAppend and InDirectionComplete |
| Clues.InDirectionCons | crossword.c:68-72 | the listing of a table starting with clue c is c, when it has the direction, followed by the listing of the rest |
| Clues.InDirectionAppend | crossword.c:68-72 | listing keeps table order: a clue appended to the table comes after the clues already listed, and only when it has the direction |
| Clues.InDirectionComplete | crossword.c:68-72 | every clue of the table that has the direction is listed under it |
| Clues.ListingCovers | crossword.c:66-83 | listing the across clues and then the down clues shows every clue once when all codes are 'A' or 'D' |
| Answers.Matches | crossword.c:117-124 | the comparison at the heart of checkAnswer: the upper-cased strings are equal, which needs equal lengths |
| Answers.MatchesCharwise | crossword.c:117-124 | a guess matches exactly when it has the answer's length and agrees letter by letter up to toupper |
| Answers.MatchesAnyCasing | crossword.c:117-124 | a guess matches an upper-case answer exactly when its upper-casing equals that answer |
| Answers.ParisMatches | crossword.c:109-130 | "paris", "Paris" and "pArIs" match "PARIS"; "PARI" does not |
| Answers.ParisFilled | crossword.c:133-144 | filling "PARIS" across at (0, 0) shows P, A, R, I, S in cells (0, 0) to (0, 4) |
| Answers.FilledLetters | crossword.c:136-142 | after a fill, the k-th span cell lies in the grid and holds toupper(answer[k]) |
| Answers.CheckAnswer | crossword.c:109-130 | returns 1 exactly when the upper-cased answer equals the upper-cased guess; then the clue is marked solved and its answer is painted in upper case; on 0 neither the clues nor the grid change |
| ScoreLedger.SizeIsRecordCount | crossword.h:29-35 | a tree holds as many records as it has nodes |
| ScoreLedger.InsertScore | crossword.c:147-170 | insertion adds exactly the new record to the multiset of records, and the node count grows by one |
| ScoreLedger.EqualScoreGoesRight | crossword.c:163-167 | a record whose score equals the root's is inserted into the right subtree; the left subtree is untouched |
| ScoreLedger.InsertKeepsOrdered | crossword.c:158-170 | insertion keeps the search-tree ordering: left scores are smaller, right scores are equal or greater |
| ScoreLedger.InorderTraversal | crossword.c:220-226 | left subtree, node, right subtree; the walk visits as many records as the tree has nodes |
| ScoreLedger.ReverseInorderTraversal | crossword.c:229-235 | right subtree, node, left subtree; the walk visits as many records as the tree has nodes |
| ScoreLedger.InorderRecords | crossword.c:220-226 | the in-order walk visits every record exactly once |
| ScoreLedger.ReverseInorderRecords | crossword.c:229-235 | the reverse walk visits every record exactly once |
| ScoreLedger.InorderAscending | crossword.c:220-226 | the in-order walk of an ordered tree never decreases in score |
| ScoreLedger.ReverseInorderDescending | crossword.c:229-235 | the reverse walk of an ordered tree never increases in score, so the highest score comes first |
| ScoreLedger.ReverseInorderIsReversed | crossword.c:229-235 | the reverse walk is exactly the in-order walk read backwards |
| ScoreLedger.InsertInorder | crossword.c:158-170 | in the in-order walk, an inserted record lands after every record with a score at most its own and before every greater one |
| ScoreLedger.Build | main.c:191-195 | a ledger built by repeated insertion from an empty tree is ordered and holds exactly the inserted records |
| ScoreLedger.PlayerRecord | main.c:192-194 | the record inserted for a player carries the player's name, score and words correct |
| ScoreLedger.LedgerOf | main.c:191-195 | the ledger of a player table is ordered and holds exactly one record per player |
| ScoreLedger.InsertKeepsNamesFit | crossword.c:147-155 | inserting a name that fits the 50-byte node buffer keeps every name in the tree within it |
| ScoreLedger.LedgerNamesFit | main.c:191-195 | a ledger built from players whose names fit their buffers never overflows a node's name buffer |
| ScoreLedger.BuildInorder | crossword.c:158-170 | the walk of a built ledger equals the stable insertion sort of the inserted records |
| ScoreLedger.InsertionSortAscending | crossword.c:158-170 | the insertion-sort reference is ascending by score |
| ScoreLedger.InsertionSortStable | crossword.c:163-167 | the insertion-sort reference keeps the records of each score in input order |
| ScoreLedger.LedgerIsStableSort | crossword.c:220-226 | the in-order walk of a built ledger is ascending, is a permutation of the input, and lists each score's records in insertion order |
| ScoreLedger.LeaderboardIsReversedSort | main.c:221-230 | the final leaderboard is the stable sort read backwards: highest score first, every record once |
| ScoreLedger.TieBreakExample | crossword.c:163-167 | inserting A 10, B 30 and C 10 walks in order as A 10, C 10, B 30 |
| ScoreLedger.LeftMost | crossword.c:205-208 | the leftmost record is in the tree and, in an ordered tree, has the smallest score |
| ScoreLedger.DeleteScore | crossword.c:181-217 | deletion adds no record and never increases the node count; it removes at most one node |
| ScoreLedger.DeleteKeepsOrdered | crossword.c:204-213 | deletion keeps the score ordering, both when splicing out a node and when copying up the minimum of the right subtree |
| ScoreLedger.DeleteOffPath | crossword.c:186-191 | when the name search meets no node of that name, the tree is returned unchanged |
| ScoreLedger.SearchPathFindsName | crossword.c:186-192 | the name search can only stop at a name that some record carries |
| ScoreLedger.Found | crossword.c:186-192 | the node where the name search stops carries the name and is a node of the tree |
| ScoreLedger.DeleteFoundSplice | crossword.c:194-201 | when the search stops at a node with at most one child, exactly that node's record leaves the tree and the node count drops by one |
| ScoreLedger.LeftLosesOne | crossword.c:188-189 | a node whose left subtree loses one record loses that record and one node |
| ScoreLedger.RightLosesOne | crossword.c:190-191 | a node whose right subtree loses one record loses that record and one node |
| ScoreLedger.Successor | crossword.c:205-208 | the successor copied up into a two-child node is a record of its right subtree |
| ScoreLedger.CopyUpLost | crossword.c:210-213 | the copy-up case loses two records, one of which is the found node's own record |
| ScoreLedger.DeleteFoundCopyUp | crossword.c:186-213 | when the search stops at a node with two children and the second search stops at a node with at most one child, the found record and the record where the second search stops leave the tree, the successor is added once, and the node count drops by one |
| ScoreLedger.CopyUpAtFound | crossword.c:204-213 | at the found two-child node, the successor's record replaces the found one and the second deletion removes one record from the right subtree |
| ScoreLedger.CopyUpRecords | crossword.c:210-213 | replacing a node's record by the successor while its right subtree loses one record trades the old record and the lost one for the successor |
| ScoreLedger.DeleteThroughLeft | crossword.c:188-189 | when the search turns left, the records and nodes that deletion in the left subtree trades are what deletion in the whole tree trades |
| ScoreLedger.DeleteThroughRight | crossword.c:190-191 | when the search turns right, the records and nodes that deletion in the right subtree trades are what deletion in the whole tree trades |
| ScoreLedger.LeftTrades | crossword.c:188-189 | a node whose left subtree trades some records for others, losing one node, makes the same trade and loses one node |
| ScoreLedger.RightTrades | crossword.c:190-191 | a node whose right subtree trades some records for others, losing one node, makes the same trade and loses one node |
| ScoreLedger.DeleteCopiesSuccessorUp | crossword.c:204-213 | deleting "m", which has children "a" and "n", gives "n" over "a": the successor moves up and leaves the right subtree |
| ScoreLedger.DeleteAbsent | crossword.c:181-217 | deleting a name that no record carries leaves the tree and its walk unchanged |
| ScoreLedger.DeleteMissesPresentName | crossword.c:186-191 | a name present in the right subtree is not found when strcmp sends the search left; the tree is unchanged |
| ScoreLedger.DuplicateExampleRight | crossword.c:205-213 | in the example's right subtree the minimum is "z", and the name search for "z" turns right and misses it |
| ScoreLedger.DuplicateExampleTop | crossword.c:204-213 | in the duplication example the record "z" is copied up into the deleted node and the right subtree comes back whole |
| ScoreLedger.DeleteCanDuplicate | crossword.c:204-213 | deleting a two-child node whose successor the name search misses keeps the node count; the deleted record is gone and the successor appears twice |

## Left out

- Printing is not modelled: `displayGrid`, `displayClues`, `displayScore`, and the messages on the error paths. The traversals return the visited records instead, and clue listing is the order-preserving filter `InDirection`.
- `main.c` is not part of this model. That covers console input, the menu, the lookup of a clue by number, the rejection of an already solved clue, the +10 / -2 scoring and the seed data. The exceptions are `Build`, `PlayerRecord`, `LedgerOf` and `LedgerNamesFit`, which stand for the driver's loop that inserts every player into a ledger (main.c:191-195), and `LeaderboardIsReversedSort`, which states what the driver's final leaderboard prints (main.c:221-230).
- Memory management is not modelled: `malloc`, `free` and the missing NULL check after `malloc`. The ledger is an inductive value, and allocation never fails.
- ScoreLedger.InsertScore: works on tree values and returns the new root. The in-place reassignment of child pointers and pointer sharing are not modelled. `createScoreNode` is the empty-tree case of `InsertScore`.
- ScoreLedger.InsertScore: does not require the player name to fit the 50-byte node buffer. The bound is kept as the invariant `NamesFit` instead: `InsertKeepsNamesFit` and `LedgerNamesFit` show it holds whenever the inserted names fit, as the driver's names, copied from player records of the same size, do.
- ScoreLedger.DeleteScore: no all-inputs lemma states which records remain when the found node has two children and the second search, for the successor's name, either misses it or stops at another node with two children. `DeleteCanDuplicate` shows the miss. The other cases are stated by `DeleteFoundSplice` and `DeleteFoundCopyUp`.
- `MAX_PLAYERS` sizes the driver's player table; `main.c` is not part of this model, so the bound is not declared.
- ScoreLedger.LeftMost: the `while` loop that walks to the leftmost node is a recursive function.
- C buffer hazards are preconditions, not behaviour:
  - `strcpy` into a 15- or 100-byte buffer is modelled by `FitsBuffer` requirements on `AddClue` and `CheckAnswer`;
  - unchecked grid indices are modelled by the `SpanFits` requirement on `PlaceWord`, `FillAnswer` and `CheckAnswer`.
- `toupper` is ASCII upper-casing, as in the "C" locale. Other locales are not modelled.
- CStrings.StrCmp: returns only the sign, -1, 0 or 1. The C library may return any value of that sign, and the engine only tests the sign.
- `solved` is a `bool` rather than an `int` holding 0 or 1.
- C integer width is not modelled. The core does no arithmetic on scores, rows or numbers beyond index offsets, and those stay inside the 10 × 10 grid.
- Clue-to-grid consistency is not modelled. The engine never checks that answers crossing in the grid agree, so no overlap invariant is stated.
